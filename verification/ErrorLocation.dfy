/** Why the error locator, evaluator and derivative of a decoder give back the error (Forney's formula). */
module ErrorLocation {
  import opened Bits
  import opened Gf256
  import opened GfSums
  import opened GfPoly
  import opened Lfsr

  /** The value at `z`, coefficients from the lowest power up. */
  function Value(p: seq<byte>, z: byte): byte {
    Sum(|p|, (k: nat) => Mul(At(p, k), Power(z, k)))
  }

  /** Coefficients past `n` that are zero do not contribute. */
  lemma ValueTruncated(p: seq<byte>, n: nat, z: byte)
    requires n <= |p| && forall k :: n <= k < |p| ==> p[k] == 0
    ensures Value(p, z) == Value(p[..n], z)
  {
    hide Mul, Add, Sum;
    var f := (k: nat) => Mul(At(p, k), Power(z, k));
    forall k: nat | n <= k < |p| ensures f(k) == 0 {
      MulZero(Power(z, k));
    }
    SumTruncate(n, |p|, f);
    SumEqual(n, f, (k: nat) => Mul(At(p[..n], k), Power(z, k)));
  }

  /** Reading a polynomial from either end: x^n p(1/x) is the reversed polynomial at x. */
  lemma {:induction false} ValueAsHorner(p: seq<byte>, x: byte, z: byte)
    requires |p| > 0 && Mul(x, z) == 1
    ensures Mul(Power(x, |p| - 1), Value(p, z)) == Horner(p, x)
  {
    hide Mul, Add, Horner;
    var n := |p| - 1;
    var p', a := p[..n], p[n];
    assert p == p' + [a];
    HornerAppend(p', a, x);
    var f := (k: nat) => Mul(At(p, k), Power(z, k));
    SumEqual(n, f, (k: nat) => Mul(At(p', k), Power(z, k)));
    assert Value(p, z) == Add(Value(p', z), Mul(a, Power(z, n)));
    if n == 0 {
      HornerEmpty(x);
      MulOne(a);
      MulZero(x);
      MulOne(Value(p, z));
    } else {
      ValueAsHorner(p', x, z);
      var w := Power(x, n);
      MulAddRight(w, Value(p', z), Mul(a, Power(z, n)));
      MulCommutes(Power(x, n - 1), x);
      MulAssociates(x, Power(x, n - 1), Value(p', z));
      MulCommutes(x, Horner(p', x));
      MulSwap(w, a, Power(z, n));
      PowerInverse(x, z, n);
      MulOne(a);
    }
  }

  // ---------- the positions and magnitudes of an error ----------

  /** The locators X = alpha^j of the non-zero places of an error, place j counted from the end. */
  function Locs(e: seq<byte>): seq<byte> {
    if e == [] then [] else if e[0] != 0 then Locs(e[1..]) + [Alpha(|e| - 1)] else Locs(e[1..])
  }

  function Vals(e: seq<byte>): (ys: seq<byte>)
    ensures |ys| == |Locs(e)|
  {
    if e == [] then [] else if e[0] != 0 then Vals(e[1..]) + [e[0]] else Vals(e[1..])
  }

  lemma {:induction false} LocsArePlaces(e: seq<byte>, l: nat) returns (j: nat)
    requires l < |Locs(e)|
    ensures j < |e| && Locs(e)[l] == Alpha(j) && Vals(e)[l] == e[|e| - 1 - j] != 0
  {
    hide Alpha;
    if e[0] != 0 && l == |Locs(e)| - 1 {
      j := |e| - 1;
    } else {
      j := LocsArePlaces(e[1..], l);
    }
  }

  lemma {:induction false} PlaceHasLoc(e: seq<byte>, j: nat) returns (l: nat)
    requires j < |e| && e[|e| - 1 - j] != 0
    ensures l < |Locs(e)| && Locs(e)[l] == Alpha(j) && Vals(e)[l] == e[|e| - 1 - j]
  {
    hide Alpha;
    if j == |e| - 1 {
      l := |Locs(e)| - 1;
    } else {
      l := PlaceHasLoc(e[1..], j);
    }
  }

  lemma AlphaEqual(i: nat, j: nat)
    requires i < 255 && j < 255 && Alpha(i) == Alpha(j)
    ensures i == j
  {
    if i < j { AlphaInjective(i, j); }
    if j < i { AlphaInjective(j, i); }
  }

  lemma {:induction false} LocsDistinct(e: seq<byte>)
    requires |e| <= 255
    ensures Distinct(Locs(e))
  {
    hide Alpha;
    if e != [] {
      LocsDistinct(e[1..]);
      if e[0] != 0 {
        var xs := Locs(e[1..]);
        forall i | 0 <= i < |xs| ensures xs[i] != Alpha(|e| - 1) {
          var j := LocsArePlaces(e[1..], i);
          AlphaInjective(j, |e| - 1);
        }
      }
    }
  }

  /** The syndromes of an error are the power sums of its locators. */
  lemma {:induction false} SyndromeIsPowerSum(e: seq<byte>, i: nat)
    ensures Horner(e, Alpha(i)) == PowerSum(Locs(e), Vals(e), i)
  {
    hide Mul, Add, Alpha;
    if e != [] {
      var t := e[1..];
      assert e == [e[0]] + t;
      HornerCons(e[0], t, Alpha(i));
      SyndromeIsPowerSum(t, i);
      if e[0] != 0 {
        var n := |Locs(t)|;
        var f := (l: nat) => Mul(At(Vals(e), l), Power(At(Locs(e), l), i));
        SumEqual(n, f, (l: nat) => Mul(At(Vals(t), l), Power(At(Locs(t), l), i)));
        PowerAlpha(i, |t|);
        PowerAlpha(|t|, i);
        AddCommutes(Mul(e[0], Power(Alpha(i), |t|)), Horner(t, Alpha(i)));
      } else {
        MulZero(Power(Alpha(i), |t|));
        AddZero(Horner(t, Alpha(i)));
      }
    }
  }

  // ---------- the locator found by the decoder ----------

  /** What the decoder knows of an error: distinct locators, non-zero values, and the syndromes they cause. */
  ghost predicate Explains(xs: seq<byte>, ys: seq<byte>, s: seq<byte>, n: nat) {
    && |xs| == |ys| && Distinct(xs)
    && (forall l :: 0 <= l < |ys| ==> ys[l] != 0)
    && (forall j: nat :: j < n ==> At(s, j) == PowerSum(xs, ys, j))
  }

  /** Any recurrence no longer than the number of errors vanishes at every locator. */
  lemma LocatorVanishes(c: seq<byte>, xs: seq<byte>, ys: seq<byte>, s: seq<byte>, n: nat)
    requires Explains(xs, ys, s, n) && 2 * |xs| <= n && |c| == |xs| + 1
    requires forall i :: |xs| <= i < n ==> Conv(c, s, i) == 0
    ensures AllRoots(c, xs)
  {
    hide Mul, Add, Sum, Horner, Conv;
    var v := |xs|;
    var zs := seq(v, (l: nat) requires l < v => Mul(ys[l], Horner(c, xs[l])));
    forall i: nat | i < v ensures PowerSum(xs, zs, i) == 0 {
      ConvOfPowerSums(c, xs, ys, s, v + i);
      var f := (l: nat) => Mul(At(ys, l), Mul(Power(At(xs, l), v + i + 1 - |c|), Horner(c, At(xs, l))));
      var g := (l: nat) => Mul(At(zs, l), Power(At(xs, l), i));
      forall l: nat | l < v ensures f(l) == g(l) {
        MulCommutes(Power(xs[l], i), Horner(c, xs[l]));
        MulAssociates(ys[l], Horner(c, xs[l]), Power(xs[l], i));
      }
      SumEqual(v, f, g);
    }
    forall l | 0 <= l < v ensures Horner(c, xs[l]) == 0 {
      Vandermonde(xs, zs, l);
      if Horner(c, xs[l]) != 0 { NoZeroDivisors(ys[l], Horner(c, xs[l])); }
    }
  }

  /** A locator with as many roots as its degree has no others. */
  lemma NoOtherRoot(c: seq<byte>, xs: seq<byte>, x: byte)
    requires |c| == |xs| + 1 && c[0] != 0 && Distinct(xs) && AllRoots(c, xs) && x !in xs
    ensures Horner(c, x) != 0
  {
    hide Horner;
    if Horner(c, x) == 0 {
      RootCount(c, xs + [x]);
    }
  }

  /** ... and each of its roots is simple. */
  lemma RootIsSimple(c: seq<byte>, xs: seq<byte>, l: nat)
    requires |c| == |xs| + 1 && c[0] != 0 && Distinct(xs) && AllRoots(c, xs) && l < |xs|
    ensures Horner(Quotient(c, xs[l]), xs[l]) != 0
  {
    hide Horner, Quotient;
    var q := Quotient(c, xs[l]);
    if Horner(q, xs[l]) == 0 {
      forall i | 0 <= i < |xs| ensures Horner(q, xs[i]) == 0 {
        if i != l { RootOfQuotient(c, xs[l], xs[i]); }
      }
      QuotientLeads(c, xs[l]);
      RootCount(q, xs);
    }
  }

  // ---------- the derivative ----------

  /** The coefficients at places of one parity. */
  function Parity(c: seq<byte>, r: nat): (p: seq<byte>)
    ensures |p| == |c|
  {
    seq(|c|, (k: nat) requires k < |c| => if k % 2 == r then c[k] else 0)
  }

  lemma ParityParts(c: seq<byte>, x: byte)
    ensures Horner(c, x) == Add(Horner(Parity(c, 0), x), Horner(Parity(c, 1), x))
  {
    hide Mul, Add, Horner;
    var e, o := Parity(c, 0), Parity(c, 1);
    forall k | 0 <= k < |c| ensures Add(e[k], o[k]) == c[k] {
      AddZero(c[k]);
    }
    HornerAdd(e, o, x);
    assert c == seq(|c|, (i: nat) requires i < |c| => Add(e[i], o[i]));
  }

  /** In characteristic two, x q(x) for q = c / (y - x) keeps the terms of c whose power of x is odd. */
  lemma {:induction false} DerivativeByQuotient(c: seq<byte>, x: byte)
    requires |c| > 0
    ensures Mul(Horner(Quotient(c, x), x), x) == Horner(Parity(c, |c| % 2), x)
  {
    hide Mul, Add, Horner;
    var n := |c| - 1;
    var c', a := c[..n], c[n];
    var r := |c| % 2;
    assert Parity(c, r) == Parity(c', r) + [0];
    HornerAppend(Parity(c', r), 0, x);
    AddZero(Mul(Horner(Parity(c', r), x), x));
    if n == 0 {
      HornerEmpty(x);
      MulZero(x);
    } else {
      DerivativeByQuotient(c', x);
      ParityParts(c', x);
      HornerAppend(Quotient(c', x), Horner(c', x), x);
      var e, o := Horner(Parity(c', 0), x), Horner(Parity(c', 1), x);
      AddCommutes(e, o);
      AddCancels(e, o);
      AddCancels(o, e);
      AddCommutes(Horner(Parity(c', |c'| % 2), x), Horner(c', x));
    }
  }

  /** The derivative, as the decoder stores it, read at the inverse of a root. */
  lemma DerivativeAtRoot(c: seq<byte>, d: seq<byte>, x: byte, z: byte)
    requires |c| >= 2 && |d| >= |c| - 1 && Mul(x, z) == 1 && Horner(c, x) == 0
    requires forall k :: 0 <= k < |d| ==> d[k] == if k % 2 == 0 then At(c, k + 1) else 0
    ensures Mul(Power(x, |c| - 2), Value(d, z)) == Mul(Horner(Quotient(c, x), x), x)
  {
    hide Mul, Add, Horner, Value, Power, Parity;
    var n := |c| - 1;
    var odd := Parity(c, 1);
    DerivativeByQuotient(c, x);
    ParityParts(c, x);
    AddIsZero(Horner(Parity(c, 0), x), Horner(odd, x));
    ValueAsHorner(odd, x, z);
    OddIsShifted(c, d, z);
    // x^n (z d(z)) == x^(n-1) d(z)
    var w := Power(x, n - 1);
    assert Power(x, n) == Mul(w, x) by { PowerStep(x, n); }
    MulAssociates(w, x, Mul(z, Value(d, z)));
    MulAssociates(x, z, Value(d, z));
    MulOne(Value(d, z));
  }

  lemma PowerStep(x: byte, n: nat)
    requires n > 0
    ensures Power(x, n) == Mul(Power(x, n - 1), x)
  {
  }

  lemma OddIsShifted(c: seq<byte>, d: seq<byte>, z: byte)
    requires |c| >= 2 && |d| >= |c| - 1
    requires forall k :: 0 <= k < |d| ==> d[k] == if k % 2 == 0 then At(c, k + 1) else 0
    ensures Value(Parity(c, 1), z) == Mul(z, Value(d, z))
  {
    hide Mul, Add, Sum;
    var odd := Parity(c, 1);
    var n := |c| - 1;
    ValueTruncated(d, n, z);
    var d' := d[..n];
    var f := (k: nat) => Mul(At(odd, k), Power(z, k));
    var g := (k: nat) => Mul(At(d', k), Power(z, k));
    var h := (k: nat) => Mul(z, g(k));
    SumScale(n, z, g);
    MulZero(Power(z, 0));
    SumShift(n, 1, h);
    forall p: nat | p < n + 1 ensures f(p) == Delayed(1, h, p) {
      if p >= 1 {
        assert At(odd, p) == At(d', p - 1);
        PowerStep(z, p);
        MulSwap(z, At(d', p - 1), Power(z, p - 1));
        MulCommutes(z, Power(z, p - 1));
        assert Delayed(1, h, p) == h(p - 1);
      }
    }
    SumEqual(n + 1, f, (p: nat) => Delayed(1, h, p));
  }

  // ---------- the evaluator ----------

  /** The evaluator's coefficient `k` is a sum over the errors of partial quotients of the locator. */
  lemma EvaluatorCoefficient(c: seq<byte>, xs: seq<byte>, ys: seq<byte>, s: seq<byte>, n: nat, k: nat)
    requires Explains(xs, ys, s, n) && k + 1 < n && k < |c|
    ensures Conv(c[..k + 1], s, k + 1) == Sum(|xs|, (l: nat) => Mul(Mul(At(ys, l), At(xs, l)), Horner(c[..k + 1], At(xs, l))))
  {
    hide Mul, Add, Sum, Horner, Conv;
    ConvOfPowerSums(c[..k + 1], xs, ys, s, k + 1);
    var f := (l: nat) => Mul(At(ys, l), Mul(Power(At(xs, l), k + 2 - |c[..k + 1]|), Horner(c[..k + 1], At(xs, l))));
    var g := (l: nat) => Mul(Mul(At(ys, l), At(xs, l)), Horner(c[..k + 1], At(xs, l)));
    forall l: nat | l < |xs| ensures f(l) == g(l) {
      PowerOne(At(xs, l));
      MulAssociates(At(ys, l), At(xs, l), Horner(c[..k + 1], At(xs, l)));
    }
    SumEqual(|xs|, f, g);
  }

  lemma PowerOne(x: byte)
    ensures Power(x, 1) == x
  {
    assert Power(x, 1) == Mul(Power(x, 0), x);
    MulOne(x);
  }

  /** So the evaluator is the same combination of the quotients by the linear factors. */
  lemma {:induction false} EvaluatorAsQuotients(
      om: seq<byte>, c: seq<byte>, xs: seq<byte>, ys: seq<byte>, s: seq<byte>, n: nat, x: byte)
    requires Explains(xs, ys, s, n) && |om| < n && |om| < |c|
    requires forall k :: 0 <= k < |om| ==> om[k] == Conv(c[..k + 1], s, k + 1)
    ensures Horner(om, x)
         == Sum(|xs|, (l: nat) => Mul(Mul(At(ys, l), At(xs, l)), Horner(Quotient(c[..|om| + 1], At(xs, l)), x)))
    decreases |om|
  {
    hide Mul, Add, Sum, Horner, Conv, Explains;
    var f := (l: nat) => Mul(Mul(At(ys, l), At(xs, l)), Horner(Quotient(c[..|om| + 1], At(xs, l)), x));
    if om == [] {
      HornerEmpty(x);
      forall l: nat | l < |xs| ensures f(l) == 0 {
        MulZero(Mul(At(ys, l), At(xs, l)));
      }
      SumZero(|xs|, f);
    } else {
      var k := |om| - 1;
      var om' := om[..k];
      assert om == om' + [om[k]];
      HornerAppend(om', om[k], x);
      EvaluatorAsQuotients(om', c, xs, ys, s, n, x);
      EvaluatorCoefficient(c, xs, ys, s, n, k);
      var w := (l: nat) => Mul(At(ys, l), At(xs, l));
      var g := (l: nat) => Mul(w(l), Horner(Quotient(c[..k + 1], At(xs, l)), x));
      var h := (l: nat) => Mul(w(l), Horner(c[..k + 1], At(xs, l)));
      var xg := (l: nat) => Mul(x, g(l));
      SumEqual(|xs|, g, (l: nat) => Mul(Mul(At(ys, l), At(xs, l)), Horner(Quotient(c[..|om'| + 1], At(xs, l)), x)));
      SumEqual(|xs|, h, (l: nat) => Mul(Mul(At(ys, l), At(xs, l)), Horner(c[..k + 1], At(xs, l))));
      SumScale(|xs|, x, g);
      MulCommutes(Horner(om', x), x);
      SumAdd(|xs|, xg, h);
      forall l: nat | l < |xs| ensures f(l) == Add(xg(l), h(l)) {
        QuotientStep(c, k, At(xs, l), x);
        var q, t := Horner(Quotient(c[..k + 1], At(xs, l)), x), Horner(c[..k + 1], At(xs, l));
        MulAddRight(w(l), Mul(q, x), t);
        MulCommutes(q, x);
        MulSwap(w(l), x, q);
      }
      SumEqual(|xs|, f, (l: nat) => Add(xg(l), h(l)));
    }
  }

  lemma QuotientStep(c: seq<byte>, k: nat, y: byte, x: byte)
    requires k + 1 < |c|
    ensures Horner(Quotient(c[..k + 2], y), x)
         == Add(Mul(Horner(Quotient(c[..k + 1], y), x), x), Horner(c[..k + 1], y))
  {
    hide Mul, Add, Horner;
    assert c[..k + 2][..k + 1] == c[..k + 1];
    HornerAppend(Quotient(c[..k + 1], y), Horner(c[..k + 1], y), x);
  }

  /** At a root of the locator only that root's own term is left. */
  lemma EvaluatorAtRoot(om: seq<byte>, c: seq<byte>, xs: seq<byte>, ys: seq<byte>, s: seq<byte>, n: nat, l: nat)
    requires Explains(xs, ys, s, n) && |om| < n && |c| == |om| + 1 == |xs| + 1
    requires AllRoots(c, xs) && l < |xs|
    requires forall k :: 0 <= k < |om| ==> om[k] == Conv(c[..k + 1], s, k + 1)
    ensures Horner(om, xs[l]) == Mul(Mul(ys[l], xs[l]), Horner(Quotient(c, xs[l]), xs[l]))
  {
    hide Mul, Add, Sum, Horner, Conv, Quotient;
    EvaluatorAsQuotients(om, c, xs, ys, s, n, xs[l]);
    assert c[..|om| + 1] == c;
    var f := (j: nat) => Mul(Mul(At(ys, j), At(xs, j)), Horner(Quotient(c, At(xs, j)), xs[l]));
    forall j: nat | j < |xs| && j != l ensures f(j) == 0 {
      RootOfQuotient(c, xs[j], xs[l]);
      MulZero(Mul(At(ys, j), At(xs, j)));
    }
    SumSingle(|xs|, l, f);
    SumEqual(|xs|, f, (j: nat) => Mul(Mul(At(ys, j), At(xs, j)), Horner(Quotient(c[..|om| + 1], At(xs, j)), xs[l])));
  }
}
