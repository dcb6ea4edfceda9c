/** The finite field GF(2^8) modulo x^8 + x^4 + x^3 + x^2 + 1 (0x11D). */
module Gf256 {
  import opened Bits
  import T = Gf256Tables

  function Add(a: byte, b: byte): byte {
    XorBound(a, b, 8);
    Xor(a, b)
  }

  /** Multiplication by x, that is by the generator 0x02. */
  function XTime(a: byte): byte {
    if a < 128 then 2 * a else XorTop(2 * a - 256, 0x1D, 8); Xor(2 * a, 0x11D)
  }

  /** The product, taking the bits of `y` from the top (Russian peasant). */
  function Mul(x: byte, y: byte): byte
    decreases y
  {
    if y == 0 then 0 else Add(XTime(Mul(x, y / 2)), if y % 2 == 1 then x else 0)
  }

  /** The powers of the generator. */
  function Alpha(n: nat): byte {
    if n == 0 then 1 else XTime(Alpha(n - 1))
  }

  /** Two words whose top bit is set in both. */
  lemma {:induction false} XorTop(a: nat, b: nat, n: nat)
    requires a < Pow2(n) && b < Pow2(n)
    ensures Xor(a + Pow2(n), b + Pow2(n)) == Xor(a, b) < Pow2(n)
  {
    if n > 0 { XorTop(a / 2, b / 2, n - 1); }
  }

  /** A word whose top bit is set in one only. */
  lemma {:induction false} XorTopLeft(a: nat, b: nat, n: nat)
    requires a < Pow2(n) && b < Pow2(n)
    ensures Xor(a + Pow2(n), b) == Xor(a, b) + Pow2(n)
  {
    if n == 0 {
      assert Xor(1, 0) == 1;
    } else {
      XorTopLeft(a / 2, b / 2, n - 1);
    }
  }

  // ---------- laws of Add ----------

  lemma AddZero(a: byte)
    ensures Add(a, 0) == a && Add(0, a) == a
  {
    XorZero(a);
  }

  lemma AddSelf(a: byte)
    ensures Add(a, a) == 0
  {
    XorSelf(a);
  }

  lemma AddCommutes(a: byte, b: byte)
    ensures Add(a, b) == Add(b, a)
  {
    XorCommutes(a, b);
  }

  lemma AddAssociates(a: byte, b: byte, c: byte)
    ensures Add(Add(a, b), c) == Add(a, Add(b, c))
  {
    XorAssociates(a, b, c);
  }

  lemma AddFour(a: byte, b: byte, c: byte, d: byte)
    ensures Add(Add(a, b), Add(c, d)) == Add(Add(a, c), Add(b, d))
  {
    XorFour(a, b, c, d);
  }

  lemma AddCancels(a: byte, b: byte)
    ensures Add(Add(a, b), b) == a
  {
    XorCancels(a, b);
  }

  /** Characteristic two: a sum vanishes exactly when its terms are equal. */
  lemma AddIsZero(a: byte, b: byte)
    ensures Add(a, b) == 0 <==> a == b
  {
    AddSelf(a);
    AddCancels(a, b);
    AddZero(b);
  }

  // ---------- multiplication is bilinear ----------

  lemma XorDoubled(a: nat, b: nat)
    ensures Xor(2 * a, 2 * b) == 2 * Xor(a, b)
  {
  }

  /** `XTime` as one formula over whole words. */
  lemma XTimeWide(a: byte)
    ensures XTime(a) == Xor(2 * a, if a < 128 then 0 else 0x11D)
  {
    XorZero(2 * a);
  }

  lemma XTimeAdd(a: byte, b: byte)
    ensures XTime(Add(a, b)) == Add(XTime(a), XTime(b))
  {
    var p, q := if a < 128 then 0 else 0x11D, if b < 128 then 0 else 0x11D;
    XTimeWide(a);
    XTimeWide(b);
    XTimeWide(Add(a, b));
    AddTopBit(a, b);
    XorZero(0x11D);
    XorZero(0);
    XorSelf(0x11D);
    XorDoubled(a, b);
    XorFour(2 * a, 2 * b, p, q);
  }

  lemma AddTopBit(a: byte, b: byte)
    ensures Add(a, b) < 128 <==> (a < 128 <==> b < 128)
  {
    assert Pow2(7) == 128;
    if a < 128 && b < 128 { XorBound(a, b, 7); }
    if a >= 128 && b >= 128 { XorTop(a - 128, b - 128, 7); }
    if a >= 128 && b < 128 { XorTopLeft(a - 128, b, 7); }
    if a < 128 && b >= 128 { XorTopLeft(b - 128, a, 7); XorCommutes(a, b); }
  }

  /** One more bit of the multiplier. */
  lemma MulBit(x: byte, y: byte)
    ensures Mul(x, y) == Add(XTime(Mul(x, y / 2)), if y % 2 == 1 then x else 0)
  {
  }

  lemma {:induction false} MulAddLeft(a: byte, b: byte, y: byte)
    ensures Mul(Add(a, b), y) == Add(Mul(a, y), Mul(b, y))
    decreases y
  {
    hide Add, XTime;
    AddZero(0);
    if y != 0 {
      MulAddLeft(a, b, y / 2);
      XTimeAdd(Mul(a, y / 2), Mul(b, y / 2));
      var odd := y % 2 == 1;
      AddFour(XTime(Mul(a, y / 2)), XTime(Mul(b, y / 2)), if odd then a else 0, if odd then b else 0);
    }
  }

  lemma {:induction false} MulXTimeLeft(a: byte, y: byte)
    ensures Mul(XTime(a), y) == XTime(Mul(a, y))
    decreases y
  {
    if y != 0 {
      MulXTimeLeft(a, y / 2);
      XTimeAdd(XTime(Mul(a, y / 2)), if y % 2 == 1 then a else 0);
    }
  }

  lemma {:induction false} MulOneLeft(y: byte)
    ensures Mul(1, y) == y
    decreases y
  {
    if y != 0 {
      MulOneLeft(y / 2);
      XorDoubled(y / 2, 0);
      XorZero(y / 2);
    }
  }

  lemma {:induction false} MulZeroLeft(y: byte)
    ensures Mul(0, y) == 0
    decreases y
  {
    if y != 0 { MulZeroLeft(y / 2); }
  }

  // ---------- powers of the generator ----------

  /** Repeated doubling. */
  function Shifted(n: nat, x: byte): byte {
    if n == 0 then x else XTime(Shifted(n - 1, x))
  }

  lemma {:induction false} MulAlpha(n: nat, x: byte)
    ensures Mul(Alpha(n), x) == Shifted(n, x)
  {
    if n == 0 {
      MulOneLeft(x);
    } else {
      MulAlpha(n - 1, x);
      MulXTimeLeft(Alpha(n - 1), x);
    }
  }

  lemma {:induction false} ShiftedAlpha(n: nat, m: nat)
    ensures Shifted(n, Alpha(m)) == Alpha(n + m)
  {
    if n > 0 { ShiftedAlpha(n - 1, m); }
  }

  lemma {:induction false} ShiftedShifted(n: nat, m: nat, x: byte)
    ensures Shifted(n, Shifted(m, x)) == Shifted(n + m, x)
  {
    if n > 0 { ShiftedShifted(n - 1, m, x); }
  }

  lemma {:induction false} ShiftedAdd(n: nat, a: byte, b: byte)
    ensures Shifted(n, Add(a, b)) == Add(Shifted(n, a), Shifted(n, b))
  {
    if n > 0 {
      ShiftedAdd(n - 1, a, b);
      XTimeAdd(Shifted(n - 1, a), Shifted(n - 1, b));
    }
  }

  lemma AlphaAdds(n: nat, m: nat)
    ensures Mul(Alpha(n), Alpha(m)) == Alpha(n + m)
  {
    MulAlpha(n, Alpha(m));
    ShiftedAlpha(n, m);
  }

  lemma DoubledIsXTime(a: byte)
    ensures T.Doubled(a) == XTime(a)
  {
    if a >= 128 {
      XorTop(2 * a - 256, 0x1D, 8);
      var b := 2 * a - 256;
      XorLow(b);
    }
  }

  /** Flipping the four low taps of the field polynomial. */
  lemma XorLow(b: nat)
    requires b < 256 && b % 2 == 0
    ensures Xor(b, 0x1D) == b + 1 + (if b / 4 % 2 == 0 then 4 else -4) + (if b / 8 % 2 == 0 then 8 else -8)
                            + (if b / 16 % 2 == 0 then 16 else -16)
  {
    hide Xor;
    var b1 := b / 2;
    var b2 := b1 / 2;
    var b3 := b2 / 2;
    var b4 := b3 / 2;
    assert b2 == b / 4 && b3 == b / 8 && b4 == b / 16;
    XorDigit(b1, 14, 0, 1);
    XorDigit(b2, 7, b1 % 2, 0);
    XorDigit(b3, 3, b2 % 2, 1);
    XorDigit(b4, 1, b3 % 2, 1);
    XorDigit(b4 / 2, 0, b4 % 2, 1);
    XorZero(b4 / 2);
  }

  lemma XorDigit(a: nat, b: nat, s: nat, t: nat)
    requires s < 2 && t < 2
    ensures Xor(2 * a + s, 2 * b + t) == 2 * Xor(a, b) + (if s == t then 0 else 1)
  {
  }

  lemma {:induction false} ExpIsAlpha(n: nat)
    requires n <= 255
    ensures 0 < T.Exp(n) < 256 && T.Exp(n) == Alpha(n)
  {
    if n == 0 {
      T.ExpStep(0);
    } else {
      T.ExpStep(n - 1);
      ExpIsAlpha(n - 1);
      DoubledIsXTime(Alpha(n - 1));
      if n < 255 { T.ExpStep(n); } else { T.ExpOrder(255); }
    }
  }

  // ---------- field laws ----------

  /** The exponent of a non-zero element, between 1 and 255. */
  function Index(a: byte): (i: nat)
    requires a != 0
    ensures 1 <= i <= 255 && Alpha(i) == a
  {
    T.ExpOfLog(a);
    ExpIsAlpha(T.Log(a));
    T.Log(a)
  }

  lemma AlphaPeriod(n: nat)
    ensures Alpha(n + 255) == Alpha(n)
  {
    hide Mul, XTime, Add;
    ExpIsAlpha(255);
    T.ExpOrder(255);
    AlphaAdds(n, 255);
    MulAlpha(n, 1);
    ShiftedAlpha(n, 0);
  }

  lemma {:induction false} AlphaModulo(n: nat)
    ensures Alpha(n % 255) == Alpha(n)
    decreases n
  {
    hide Alpha;
    if n >= 255 {
      AlphaModulo(n - 255);
      AlphaPeriod(n - 255);
    }
  }

  lemma AlphaNonzero(n: nat)
    ensures Alpha(n) != 0
  {
    AlphaModulo(n);
    ExpIsAlpha(n % 255);
  }

  lemma MulZero(a: byte)
    ensures Mul(a, 0) == 0 && Mul(0, a) == 0
  {
    MulZeroLeft(a);
  }

  lemma MulCommutes(a: byte, b: byte)
    ensures Mul(a, b) == Mul(b, a)
  {
    hide *;
    if a == 0 || b == 0 {
      MulZero(a);
      MulZero(b);
    } else {
      AlphaAdds(Index(a), Index(b));
      AlphaAdds(Index(b), Index(a));
    }
  }

  lemma MulOne(a: byte)
    ensures Mul(a, 1) == a && Mul(1, a) == a
  {
    MulOneLeft(a);
    MulCommutes(a, 1);
  }

  lemma MulAssociates(a: byte, b: byte, c: byte)
    ensures Mul(Mul(a, b), c) == Mul(a, Mul(b, c))
  {
    hide *;
    if a == 0 || b == 0 || c == 0 {
      MulZero(a);
      MulZero(b);
      MulZero(c);
      MulZero(Mul(a, b));
      MulZero(Mul(b, c));
    } else {
      var i, j, k := Index(a), Index(b), Index(c);
      AlphaAdds(i, j);
      AlphaAdds(i + j, k);
      AlphaAdds(j, k);
      AlphaAdds(i, j + k);
    }
  }

  lemma MulAddRight(a: byte, b: byte, c: byte)
    ensures Mul(a, Add(b, c)) == Add(Mul(a, b), Mul(a, c))
  {
    hide *;
    MulCommutes(a, Add(b, c));
    MulCommutes(a, b);
    MulCommutes(a, c);
    MulAddLeft(b, c, a);
  }

  lemma NoZeroDivisors(a: byte, b: byte)
    requires a != 0 && b != 0
    ensures Mul(a, b) != 0
  {
    hide *;
    AlphaAdds(Index(a), Index(b));
    AlphaNonzero(Index(a) + Index(b));
  }

  lemma MulCancels(a: byte, b: byte, c: byte)
    requires a != 0 && Mul(a, b) == Mul(a, c)
    ensures b == c
  {
    hide *;
    MulAddRight(a, b, c);
    AddIsZero(Mul(a, b), Mul(a, c));
    if Add(b, c) != 0 { NoZeroDivisors(a, Add(b, c)); }
    AddIsZero(b, c);
  }

  /** The first 255 powers of the generator are all different. */
  lemma AlphaInjective(i: nat, j: nat)
    requires i < j < 255
    ensures Alpha(i) != Alpha(j)
  {
    if Alpha(i) == Alpha(j) {
      AlphaAdds(i, j - i);
      AlphaNonzero(i);
      MulOne(Alpha(i));
      MulCancels(Alpha(i), Alpha(j - i), 1);
      T.ExpOrder(j - i);
      ExpIsAlpha(j - i);
      assert false;
    }
  }

  // ---------- the table-driven field of the decoder ----------

  /** A field given by its tables, as the decoder passes it around. */
  datatype GaloisField = GaloisField(p: nat, log: seq<nat>, exp: seq<byte>)

  ghost predicate IsGf256(gf: GaloisField) {
    && gf.p == 255 && |gf.log| == 256 && |gf.exp| == 256
    && (forall i :: 0 <= i < 256 ==> gf.exp[i] == Alpha(i))
    && (forall a: byte :: gf.log[a] <= 255 && (a != 0 ==> 1 <= gf.log[a] && Alpha(gf.log[a]) == a))
  }

  /** The decoder's own tables. */
  function GF256(): (gf: GaloisField)
    ensures IsGf256(gf)
  {
    assert forall i: nat :: i <= 255 ==> 0 <= T.Exp(i) < 256 && T.Exp(i) == Alpha(i) by {
      forall i: nat | i <= 255 ensures 0 <= T.Exp(i) < 256 && T.Exp(i) == Alpha(i) { ExpIsAlpha(i); }
    }
    assert forall a: nat :: 1 <= a < 256 ==> 1 <= T.Log(a) < 256 && Alpha(T.Log(a)) == a by {
      forall a: nat | 1 <= a < 256 ensures 1 <= T.Log(a) < 256 && Alpha(T.Log(a)) == a {
        T.ExpOfLog(a);
        ExpIsAlpha(T.Log(a));
      }
    }
    assert T.Log(0) == 0;
    GaloisField(255,
      seq(256, (a: nat) requires 0 <= a < 256 => T.Log(a) as nat),
      seq(256, (i: nat) requires 0 <= i < 256 => T.Exp(i) as byte))
  }

  /** Adding logarithms multiplies. */
  lemma TableProduct(gf: GaloisField, a: byte, b: byte)
    requires IsGf256(gf) && a != 0 && b != 0
    ensures gf.exp[(gf.log[a] + gf.log[b]) % gf.p] == Mul(a, b)
  {
    hide Mul, Alpha;
    var n := gf.log[a] + gf.log[b];
    AlphaAdds(gf.log[a], gf.log[b]);
    AlphaModulo(n);
  }

  /** Subtracting logarithms divides. */
  lemma TableQuotient(gf: GaloisField, a: byte, b: byte)
    requires IsGf256(gf) && a != 0 && b != 0
    ensures Mul(gf.exp[(gf.p - gf.log[b] + gf.log[a]) % gf.p], b) == a
  {
    hide Mul, Alpha;
    var n: nat := gf.p - gf.log[b] + gf.log[a];
    AlphaModulo(n);
    AlphaAdds(n, gf.log[b]);
    assert gf.exp[n % gf.p] == Alpha(n);
    AlphaPeriod(gf.log[a]);
  }
}
