/** Bitwise exclusive or of unsigned words, with the laws the models need. */
module Bits {

  type byte = x: nat | x < 256

  /** The C operator `^` on unsigned words of any width. */
  function Xor(a: nat, b: nat): nat {
    if a == 0 && b == 0 then 0
    else 2 * Xor(a / 2, b / 2) + (if a % 2 == b % 2 then 0 else 1)
  }

  function Pow2(n: nat): (r: nat)
    ensures r > 0
  {
    if n == 0 then 1 else 2 * Pow2(n - 1)
  }

  lemma {:induction false} XorZero(a: nat)
    ensures Xor(a, 0) == a && Xor(0, a) == a
  {
    if a != 0 { XorZero(a / 2); }
  }

  lemma {:induction false} XorSelf(a: nat)
    ensures Xor(a, a) == 0
  {
    if a != 0 { XorSelf(a / 2); }
  }

  lemma {:induction false} XorCommutes(a: nat, b: nat)
    ensures Xor(a, b) == Xor(b, a)
  {
    if a != 0 || b != 0 { XorCommutes(a / 2, b / 2); }
  }

  /** The two halves of a word after `Xor`. */
  lemma XorHalves(a: nat, b: nat)
    ensures Xor(a, b) / 2 == Xor(a / 2, b / 2)
    ensures Xor(a, b) % 2 == if a % 2 == b % 2 then 0 else 1
  {
  }

  lemma {:induction false} XorAssociates(a: nat, b: nat, c: nat)
    ensures Xor(Xor(a, b), c) == Xor(a, Xor(b, c))
    decreases a + b + c
  {
    if a != 0 || b != 0 || c != 0 {
      XorHalves(a, b);
      XorHalves(b, c);
      XorHalves(Xor(a, b), c);
      XorHalves(a, Xor(b, c));
      XorAssociates(a / 2, b / 2, c / 2);
    }
  }

  lemma {:induction false} XorBound(a: nat, b: nat, n: nat)
    requires a < Pow2(n) && b < Pow2(n)
    ensures Xor(a, b) < Pow2(n)
  {
    if n > 0 { XorBound(a / 2, b / 2, n - 1); }
  }

  lemma XorFour(a: nat, b: nat, c: nat, d: nat)
    ensures Xor(Xor(a, b), Xor(c, d)) == Xor(Xor(a, c), Xor(b, d))
  {
    XorAssociates(a, b, Xor(c, d));
    XorAssociates(b, c, d);
    XorCommutes(b, c);
    XorAssociates(c, b, d);
    XorAssociates(a, c, Xor(b, d));
  }

  /** Numbers without a common bit: the upper one is a multiple of 2^n, the lower one below it. */
  lemma {:induction false} XorDisjoint(hi: nat, lo: nat, n: nat)
    requires lo < Pow2(n)
    ensures Xor(Pow2(n) * hi, lo) == Pow2(n) * hi + lo
  {
    hide Xor;
    if n == 0 {
      assert Pow2(0) * hi == hi;
      XorZero(hi);
    } else {
      TwiceAsMuch(n, hi);
      var p := Pow2(n - 1) * hi;
      XorDisjoint(hi, lo / 2, n - 1);
      HalvesJoin(p, lo);
    }
  }

  lemma TwiceAsMuch(n: nat, hi: nat)
    requires n > 0
    ensures Pow2(n - 1) * hi >= 0 && Pow2(n) * hi == 2 * (Pow2(n - 1) * hi)
  {
  }

  lemma HalvesJoin(p: nat, lo: nat)
    requires Xor(p, lo / 2) == p + lo / 2
    ensures Xor(2 * p, lo) == 2 * p + lo
  {
    hide Xor;
    XorHalves(2 * p, lo);
  }

  lemma XorCancels(a: nat, b: nat)
    ensures Xor(Xor(a, b), b) == a
  {
    XorAssociates(a, b, b);
    XorSelf(b);
    XorZero(a);
  }
}
