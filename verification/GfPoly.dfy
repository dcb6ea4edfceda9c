/** Finite sums over GF(2^8). */
module GfSums {
  import opened Bits
  import opened Gf256

  function Sum(n: nat, f: nat -> byte): byte {
    if n == 0 then 0 else Add(Sum(n - 1, f), f(n - 1))
  }

  function Power(x: byte, n: nat): byte {
    if n == 0 then 1 else Mul(Power(x, n - 1), x)
  }

  /** A polynomial's coefficient, zero outside its length. */
  function At(p: seq<byte>, i: int): byte {
    if 0 <= i < |p| then p[i] else 0
  }

  lemma {:induction false} SumEqual(n: nat, f: nat -> byte, g: nat -> byte)
    requires forall i: nat :: i < n ==> f(i) == g(i)
    ensures Sum(n, f) == Sum(n, g)
  {
    if n > 0 { SumEqual(n - 1, f, g); }
  }

  lemma {:induction false} SumZero(n: nat, f: nat -> byte)
    requires forall i: nat :: i < n ==> f(i) == 0
    ensures Sum(n, f) == 0
  {
    hide Add;
    if n > 0 {
      SumZero(n - 1, f);
      AddZero(0);
    }
  }

  lemma {:induction false} SumAdd(n: nat, f: nat -> byte, g: nat -> byte)
    ensures Sum(n, (i: nat) => Add(f(i), g(i))) == Add(Sum(n, f), Sum(n, g))
  {
    hide Add;
    if n == 0 {
      AddZero(0);
    } else {
      SumAdd(n - 1, f, g);
      AddFour(Sum(n - 1, f), Sum(n - 1, g), f(n - 1), g(n - 1));
    }
  }

  lemma {:induction false} SumScale(n: nat, c: byte, f: nat -> byte)
    ensures Sum(n, (i: nat) => Mul(c, f(i))) == Mul(c, Sum(n, f))
  {
    hide Add, Mul;
    if n == 0 {
      MulZero(c);
    } else {
      SumScale(n - 1, c, f);
      MulAddRight(c, Sum(n - 1, f), f(n - 1));
    }
  }

  /** The order of two finite summations may be exchanged. */
  lemma {:induction false} SumSwap(n: nat, m: nat, f: (nat, nat) -> byte)
    ensures Sum(n, (i: nat) => Sum(m, (j: nat) => f(i, j))) == Sum(m, (j: nat) => Sum(n, (i: nat) => f(i, j)))
  {
    hide Add;
    if n == 0 {
      SumZero(m, (j: nat) => Sum(n, (i: nat) => f(i, j)));
    } else {
      SumSwap(n - 1, m, f);
      var rest := (j: nat) => Sum(n - 1, (i: nat) => f(i, j));
      var last := (j: nat) => f(n - 1, j);
      SumAdd(m, rest, last);
      SumEqual(m, (j: nat) => Sum(n, (i: nat) => f(i, j)), (j: nat) => Add(rest(j), last(j)));
      var inner := (i: nat) => Sum(m, (j: nat) => f(i, j));
      SumEqual(n - 1, inner, (i: nat) => Sum(m, (j: nat) => f(i, j)));
      SumEqual(m, (j: nat) => f(n - 1, j), last);
    }
  }

  /** Only one term differs from zero. */
  lemma {:induction false} SumSingle(n: nat, k: nat, f: nat -> byte)
    requires k < n
    requires forall i: nat :: i < n && i != k ==> f(i) == 0
    ensures Sum(n, f) == f(k)
  {
    hide Add;
    AddZero(f(k));
    if k == n - 1 {
      SumZero(n - 1, f);
    } else {
      SumSingle(n - 1, k, f);
    }
  }

  /** Terms that vanish may be dropped from the end. */
  lemma {:induction false} SumTruncate(n: nat, m: nat, f: nat -> byte)
    requires n <= m
    requires forall i: nat :: n <= i < m ==> f(i) == 0
    ensures Sum(m, f) == Sum(n, f)
  {
    hide Add;
    if n < m {
      SumTruncate(n, m - 1, f);
      AddZero(Sum(n, f));
    }
  }

  lemma {:induction false} PowerNonzero(x: byte, n: nat)
    requires x != 0
    ensures Power(x, n) != 0
  {
    hide Mul;
    if n > 0 {
      PowerNonzero(x, n - 1);
      NoZeroDivisors(Power(x, n - 1), x);
    }
  }

  lemma {:induction false} PowerAlpha(k: nat, n: nat)
    ensures Power(Alpha(k), n) == Alpha(k * n)
  {
    hide Mul;
    if n > 0 {
      PowerAlpha(k, n - 1);
      AlphaAdds(k * (n - 1), k);
      assert k * (n - 1) + k == k * n;
    }
  }

  /** Powers of inverse elements cancel. */
  lemma {:induction false} PowerInverse(x: byte, z: byte, n: nat)
    requires Mul(x, z) == 1
    ensures Mul(Power(x, n), Power(z, n)) == 1
  {
    hide Mul;
    if n == 0 {
      MulOne(1);
    } else {
      PowerInverse(x, z, n - 1);
      MulFour(Power(x, n - 1), x, Power(z, n - 1), z);
      MulOne(1);
    }
  }

  lemma MulFour(a: byte, b: byte, c: byte, d: byte)
    ensures Mul(Mul(a, b), Mul(c, d)) == Mul(Mul(a, c), Mul(b, d))
  {
    hide *;
    MulAssociates(a, b, Mul(c, d));
    MulAssociates(b, c, d);
    MulCommutes(b, c);
    MulAssociates(c, b, d);
    MulAssociates(a, c, Mul(b, d));
  }

  lemma MulSwap(a: byte, b: byte, c: byte)
    ensures Mul(a, Mul(b, c)) == Mul(b, Mul(a, c))
  {
    hide *;
    MulAssociates(a, b, c);
    MulAssociates(b, a, c);
    MulCommutes(a, b);
  }
}

/** Polynomials over GF(2^8), coefficients from the highest power down, and their roots. */
module GfPoly {
  import opened Bits
  import opened Gf256
  import opened GfSums

  /** The value at `x`, by Horner's rule. */
  function Horner(p: seq<byte>, x: byte): byte {
    if p == [] then 0 else Add(Mul(Horner(p[..|p| - 1], x), x), p[|p| - 1])
  }

  lemma HornerAppend(p: seq<byte>, a: byte, x: byte)
    ensures Horner(p + [a], x) == Add(Mul(Horner(p, x), x), a)
  {
    hide Add, Mul;
    assert (p + [a])[..|p|] == p;
  }

  lemma {:induction false} HornerCons(a: byte, p: seq<byte>, x: byte)
    ensures Horner([a] + p, x) == Add(Mul(a, Power(x, |p|)), Horner(p, x))
  {
    hide Add, Mul;
    if p == [] {
      assert [a] + p == [] + [a];
      HornerAppend([], a, x);
      MulZero(x);
      MulOne(a);
      AddCommutes(a, 0);
    } else {
      var q, b := p[..|p| - 1], p[|p| - 1];
      assert [a] + p == ([a] + q) + [b];
      HornerAppend([a] + q, b, x);
      HornerCons(a, q, x);
      var head := Mul(a, Power(x, |q|));
      MulCommutes(Add(head, Horner(q, x)), x);
      MulAddRight(x, head, Horner(q, x));
      MulCommutes(x, head);
      MulCommutes(x, Horner(q, x));
      MulAssociates(a, Power(x, |q|), x);
      AddAssociates(Mul(head, x), Mul(Horner(q, x), x), b);
    }
  }

  /** A polynomial followed by zero coefficients is shifted up. */
  lemma {:induction false} HornerZeros(p: seq<byte>, n: nat, x: byte)
    ensures Horner(p + seq(n, _ => 0), x) == Mul(Horner(p, x), Power(x, n))
  {
    hide Add, Mul;
    if n == 0 {
      assert p + seq(n, _ => 0) == p;
      MulOne(Horner(p, x));
    } else {
      assert p + seq(n, _ => 0) == (p + seq(n - 1, _ => 0)) + [0];
      HornerZeros(p, n - 1, x);
      HornerAppend(p + seq(n - 1, _ => 0), 0, x);
      AddZero(Mul(Horner(p + seq(n - 1, _ => 0), x), x));
      MulAssociates(Horner(p, x), Power(x, n - 1), x);
    }
  }

  lemma {:induction false} HornerAdd(p: seq<byte>, q: seq<byte>, x: byte)
    requires |p| == |q|
    ensures Horner(seq(|p|, (i: nat) requires i < |p| => Add(p[i], q[i])), x) == Add(Horner(p, x), Horner(q, x))
  {
    hide Add, Mul;
    var r := seq(|p|, (i: nat) requires i < |p| => Add(p[i], q[i]));
    if p == [] {
      AddZero(0);
    } else {
      var n := |p| - 1;
      var p', q' := p[..n], q[..n];
      assert r[..n] == seq(n, (i: nat) requires i < n => Add(p'[i], q'[i]));
      HornerAdd(p', q', x);
      MulAddLeft(Horner(p', x), Horner(q', x), x);
      AddFour(Mul(Horner(p', x), x), Mul(Horner(q', x), x), p[n], q[n]);
    }
  }

  // ---------- dividing by a linear factor ----------

  /** The quotient by (y - x): synthetic division, whose coefficients are the partial Horner values. */
  function Quotient(p: seq<byte>, x: byte): (q: seq<byte>)
    ensures |q| == if p == [] then 0 else |p| - 1
  {
    if |p| <= 1 then [] else Quotient(p[..|p| - 1], x) + [Horner(p[..|p| - 1], x)]
  }

  /** p(y) = (y - x) q(y) + p(x). */
  lemma {:induction false} DivideByRoot(p: seq<byte>, x: byte, y: byte)
    ensures Horner(p, y) == Add(Mul(Add(y, x), Horner(Quotient(p, x), y)), Horner(p, x))
  {
    hide Add, Mul;
    if |p| == 0 {
      MulZero(Add(y, x));
      AddZero(0);
    } else if |p| == 1 {
      HornerAppend([], p[0], x);
      HornerAppend([], p[0], y);
      assert [] + [p[0]] == p;
      MulZero(x);
      MulZero(y);
      MulZero(Add(y, x));
      AddZero(Horner(p, x));
    } else {
      var p', a := p[..|p| - 1], p[|p| - 1];
      var d := Add(y, x);
      var q, px := Horner(Quotient(p', x), y), Horner(p', x);
      DivideByRoot(p', x, y);
      HornerAppend(Quotient(p', x), px, y);
      // (y - x)(y q + p'(x)) + (x p'(x) + a)
      MulAddRight(d, Mul(q, y), px);
      MulAssociates(d, q, y);
      MulAddLeft(Mul(d, q), px, y);
      MulAddLeft(y, x, px);
      MulCommutes(px, y);
      MulCommutes(px, x);
      AddAssociates(Mul(Mul(d, q), y), Mul(d, px), Add(Mul(px, x), a));
      AddAssociates(Mul(d, px), Mul(px, x), a);
      AddCancels(Mul(y, px), Mul(x, px));
      AddAssociates(Mul(Mul(d, q), y), Mul(y, px), a);
    }
  }

  /** The leading coefficient survives the division. */
  lemma {:induction false} QuotientLeads(p: seq<byte>, x: byte)
    requires |p| >= 2
    ensures Quotient(p, x)[0] == p[0]
  {
    hide Add, Mul;
    if |p| == 2 {
      HornerAppend([], p[0], x);
      assert p[..1] == [] + [p[0]];
      MulZero(x);
      AddZero(p[0]);
    } else {
      QuotientLeads(p[..|p| - 1], x);
    }
  }

  ghost predicate Distinct(xs: seq<byte>) {
    forall i, j :: 0 <= i < j < |xs| ==> xs[i] != xs[j]
  }

  ghost predicate AllRoots(p: seq<byte>, xs: seq<byte>) {
    forall i :: 0 <= i < |xs| ==> Horner(p, xs[i]) == 0
  }

  /** Away from `x`, a root of p is a root of the quotient. */
  lemma RootOfQuotient(p: seq<byte>, x: byte, y: byte)
    requires x != y && Horner(p, x) == 0 && Horner(p, y) == 0
    ensures Horner(Quotient(p, x), y) == 0
  {
    hide Add, Mul, Horner, Quotient;
    DivideByRoot(p, x, y);
    AddZero(Mul(Add(y, x), Horner(Quotient(p, x), y)));
    AddIsZero(y, x);
    if Horner(Quotient(p, x), y) != 0 {
      NoZeroDivisors(Add(y, x), Horner(Quotient(p, x), y));
    }
  }

  /** A polynomial with a non-zero leading coefficient has no more roots than its degree. */
  lemma {:induction false} RootCount(p: seq<byte>, xs: seq<byte>)
    requires |p| > 0 && p[0] != 0
    requires Distinct(xs) && AllRoots(p, xs)
    ensures |xs| < |p|
    decreases |xs|
  {
    hide Horner, Quotient;
    if xs != [] {
      var n := |xs| - 1;
      if |p| == 1 {
        HornerCons(p[0], [], xs[n]);
        HornerEmpty(xs[n]);
        assert [p[0]] + [] == p;
        MulOne(p[0]);
        AddZero(p[0]);
      } else {
        QuotientLeads(p, xs[n]);
        forall i | 0 <= i < n ensures Horner(Quotient(p, xs[n]), xs[i]) == 0 {
          RootOfQuotient(p, xs[n], xs[i]);
        }
        RootCount(Quotient(p, xs[n]), xs[..n]);
      }
    }
  }

  lemma HornerEmpty(x: byte)
    ensures Horner([], x) == 0 && Power(x, 0) == 1
  {
  }

  // ---------- polynomials with prescribed roots ----------

  /** The product by (y - x). */
  function TimesRoot(p: seq<byte>, x: byte): (r: seq<byte>)
    ensures |r| == |p| + 1
  {
    seq(|p| + 1, (i: nat) => Add(Mul(At(p, i - 1), x), At(p, i)))
  }

  lemma TimesRootAppend(p: seq<byte>, a: byte, x: byte)
    ensures var u := TimesRoot(p, x);
            TimesRoot(p + [a], x) == u[..|p|] + [Add(u[|p|], a)] + [Mul(a, x)]
  {
    hide Add, Mul;
    var n := |p|;
    AddZero(Mul(At(p, n - 1), x));
    AddZero(Mul(a, x));
    var q, u := p + [a], TimesRoot(p, x);
    var r, e := TimesRoot(q, x), u[..n] + [Add(u[n], a)] + [Mul(a, x)];
    AtAppend(p, a);
    hide At;
    forall i | 0 <= i < n + 2
      ensures r[i] == e[i]
    {
      AtSame(p, a, i);
      AtSame(p, a, i - 1);
    }
    assert r == e;
  }

  lemma AtSame(p: seq<byte>, a: byte, i: int)
    ensures i != |p| ==> At(p + [a], i) == At(p, i)
  {
  }

  lemma AtAppend(p: seq<byte>, a: byte)
    ensures At(p + [a], |p|) == a && At(p, |p|) == 0 && At(p, |p| + 1) == 0 && At(p, -1) == 0
  {
  }

  lemma {:induction false} HornerTimesRoot(p: seq<byte>, x: byte, y: byte)
    ensures Horner(TimesRoot(p, x), y) == Mul(Add(y, x), Horner(p, y))
  {
    hide Add, Mul, TimesRoot, Horner;
    if p == [] {
      TimesRootEmpty(x);
      HornerAppend([], 0, y);
      assert [] + [0] == [0];
      HornerEmpty(y);
      MulZero(y);
      MulZero(Add(y, x));
      AddZero(0);
    } else {
      var n := |p| - 1;
      var p', a := p[..n], p[n];
      assert p == p' + [a];
      HornerTimesRoot(p', x, y);
      TimesRootAppend(p', a, x);
      var u := TimesRoot(p', x);
      assert u == u[..n] + [u[n]];
      HornerAppend(p', a, y);
      HornerAppend(u[..n], u[n], y);
      HornerAppend(u[..n], Add(u[n], a), y);
      HornerAppend(u[..n] + [Add(u[n], a)], Mul(a, x), y);
      AddAssociates(Mul(Horner(u[..n], y), y), u[n], a);
      LinearProduct(Horner(p', y), a, x, y);
    }
  }

  lemma TimesRootEmpty(x: byte)
    ensures TimesRoot([], x) == [0]
  {
    MulZero(x);
    AddZero(0);
  }

  /** ((y - x) h + a) y + a x == (y - x) (h y + a). */
  lemma LinearProduct(h: byte, a: byte, x: byte, y: byte)
    ensures Add(Mul(Add(Mul(Add(y, x), h), a), y), Mul(a, x)) == Mul(Add(y, x), Add(Mul(h, y), a))
  {
    hide *;
    var d := Add(y, x);
    MulAddLeft(Mul(d, h), a, y);
    MulAssociates(d, h, y);
    MulAddRight(d, Mul(h, y), a);
    MulAddLeft(y, x, a);
    MulCommutes(a, y);
    MulCommutes(a, x);
    AddAssociates(Mul(Mul(d, h), y), Mul(a, y), Mul(a, x));
  }

  /** The monic polynomial whose roots are `xs`. */
  function Locator(xs: seq<byte>): (p: seq<byte>)
    ensures |p| == |xs| + 1 && p[0] == 1
  {
    if xs == [] then [1]
    else
      var p := Locator(xs[..|xs| - 1]);
      MulZero(xs[|xs| - 1]);
      AddZero(p[0]);
      TimesRoot(p, xs[|xs| - 1])
  }

  lemma {:induction false} LocatorRoots(xs: seq<byte>)
    ensures AllRoots(Locator(xs), xs)
  {
    hide Add, Mul, Horner;
    if xs != [] {
      var n := |xs| - 1;
      LocatorRoots(xs[..n]);
      forall i | 0 <= i < |xs| ensures Horner(Locator(xs), xs[i]) == 0 {
        HornerTimesRoot(Locator(xs[..n]), xs[n], xs[i]);
        if i < n {
          assert xs[..n][i] == xs[i];
          MulZero(Add(xs[i], xs[n]));
        } else {
          AddSelf(xs[n]);
          MulZero(Horner(Locator(xs[..n]), xs[n]));
        }
      }
    }
  }
}
