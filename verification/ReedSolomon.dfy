/** Reed-Solomon codewords as QR codes use them, and why a bounded number of errors can be undone. */
module ReedSolomon {
  import opened Bits
  import opened Gf256
  import opened GfSums
  import opened GfPoly
  import opened Lfsr
  import opened ErrorLocation

  /** Read as a polynomial from the highest power down, the block vanishes at alpha^0 .. alpha^(npar - 1). */
  ghost predicate IsCodeword(block: seq<byte>, npar: nat) {
    forall i: nat :: i < npar ==> Horner(block, Alpha(i)) == 0
  }

  /** The number of bytes in which two blocks differ. */
  function Distance(a: seq<byte>, b: seq<byte>): nat
    requires |a| == |b|
  {
    if a == [] then 0 else (if a[0] != b[0] then 1 else 0) + Distance(a[1..], b[1..])
  }

  /** How many bytes are not zero. */
  function Weight(s: seq<byte>): nat {
    if s == [] then 0 else (if s[0] != 0 then 1 else 0) + Weight(s[1..])
  }

  /** Adding noise moves a block away from itself by as many bytes as the noise has. */
  lemma {:induction false} NoiseIsDistance(r: seq<byte>, w: seq<byte>, noise: seq<byte>)
    requires |r| == |w| == |noise| && forall i :: 0 <= i < |w| ==> r[i] == Add(w[i], noise[i])
    ensures Distance(r, w) == Weight(noise)
  {
    hide Add;
    if w != [] {
      AddCancels(noise[0], w[0]);
      AddCommutes(noise[0], w[0]);
      AddZero(w[0]);
      AddIsZero(r[0], w[0]);
      AddSelf(w[0]);
      NoiseIsDistance(r[1..], w[1..], noise[1..]);
    }
  }

  function Difference(a: seq<byte>, b: seq<byte>): seq<byte>
    requires |a| == |b|
  {
    seq(|a|, (i: nat) requires i < |a| => Add(a[i], b[i]))
  }

  lemma {:induction false} DistanceIsWeight(a: seq<byte>, b: seq<byte>)
    requires |a| == |b|
    ensures |Locs(Difference(a, b))| == Distance(a, b)
  {
    hide Add, Alpha;
    if a != [] {
      assert Difference(a, b)[1..] == Difference(a[1..], b[1..]);
      AddIsZero(a[0], b[0]);
      DistanceIsWeight(a[1..], b[1..]);
    }
  }

  /** A received block's syndromes are those of its error alone. */
  lemma ErrorExplains(r: seq<byte>, w: seq<byte>, s: seq<byte>, npar: nat)
    requires |r| == |w| <= 255 && IsCodeword(w, npar)
    requires forall i: nat :: i < npar ==> At(s, i) == Horner(r, Alpha(i))
    ensures Explains(Locs(Difference(r, w)), Vals(Difference(r, w)), s, npar)
  {
    hide Add, Alpha, Horner, PowerSum;
    var e := Difference(r, w);
    LocsDistinct(e);
    forall l | 0 <= l < |Vals(e)| ensures Vals(e)[l] != 0 {
      var j := LocsArePlaces(e, l);
    }
    forall i: nat | i < npar ensures At(s, i) == PowerSum(Locs(e), Vals(e), i) {
      HornerAdd(r, w, Alpha(i));
      AddZero(Horner(r, Alpha(i)));
      SyndromeIsPowerSum(e, i);
    }
  }

  /** Two codewords differ in more than npar bytes or in none. */
  lemma CodewordsApart(a: seq<byte>, b: seq<byte>, npar: nat)
    requires |a| == |b| <= 255 && IsCodeword(a, npar) && IsCodeword(b, npar)
    requires Distance(a, b) <= npar
    ensures a == b
  {
    hide Add, Alpha, Horner, PowerSum, Locs, Vals;
    var e := Difference(a, b);
    var s := seq(npar, _ => 0);
    ErrorExplains(a, b, s, npar);
    DistanceIsWeight(a, b);
    if Locs(e) != [] {
      Vandermonde(Locs(e), Vals(e), 0);
      assert false;
    }
    forall i | 0 <= i < |a| ensures a[i] == b[i] {
      AddIsZero(a[i], b[i]);
      if e[i] != 0 {
        var l := PlaceHasLoc(e, |e| - 1 - i);
      }
    }
  }

  /** The error evaluator's coefficients: those of locator times shifted syndromes, below `n`. */
  ghost predicate IsEvaluator(om: seq<byte>, sigma: seq<byte>, s: seq<byte>, n: nat) {
    && |s| > 0
    && (forall k :: 0 <= k < |om| ==> om[k] == if k < n then Conv(sigma, s[1..], k) else 0)
  }

  /** The formal derivative in characteristic two. */
  ghost predicate IsDerivative(d: seq<byte>, sigma: seq<byte>) {
    forall k :: 0 <= k < |d| ==> d[k] == if k % 2 == 0 then At(sigma, k + 1) else 0
  }

  /** The shortest recurrence that generates all `n` syndromes. */
  ghost predicate IsShortest(sigma: seq<byte>, len: nat, s: seq<byte>, n: nat) {
    Generates(sigma, len, s, n) && NoShorter(len, s, n)
  }

  ghost predicate NoShorter(len: nat, s: seq<byte>, n: nat) {
    forall a: seq<byte>, m: nat :: Generates(a, m, s, n) ==> len <= m
  }

  /** Cutting a recurrence where its coefficients end does not change what it generates. */
  lemma LocatorPrefix(sigma: seq<byte>, len: nat, s: seq<byte>, n: nat, v: nat, c: seq<byte>)
    requires Generates(sigma, len, s, n) && len <= v < |sigma| && c == sigma[..v + 1]
    ensures forall i :: v <= i < n ==> Conv(c, s, i) == 0
  {
    hide Conv, Mul, Add;
    forall i | v <= i < n ensures Conv(c, s, i) == 0 {
      ConvTruncated(c, s, i, len);
      ConvTruncated(sigma, s, i, len);
      SumEqual(len + 1, (k: nat) => Mul(At(c, k), At(s, i - k)), (k: nat) => Mul(At(sigma, k), At(s, i - k)));
    }
  }

  /** The decoder's evaluator coefficient `k`, in terms of the locator's first k + 1 coefficients. */
  lemma EvaluatorPrefix(sigma: seq<byte>, s: seq<byte>, k: nat)
    requires k < |sigma| && |s| > 0
    ensures Conv(sigma, s[1..], k) == Conv(sigma[..k + 1], s, k + 1)
  {
    hide Mul, Add, Sum;
    var c := sigma[..k + 1];
    var f := (i: nat) => Mul(At(sigma, i), At(s[1..], k - i));
    var g := (i: nat) => Mul(At(c, i), At(s, k + 1 - i));
    forall i: nat | k + 1 <= i < |sigma| ensures f(i) == 0 {
      MulZero(At(sigma, i));
    }
    SumTruncate(k + 1, |sigma|, f);
    forall i: nat | i < k + 1 ensures f(i) == g(i) {
      assert At(s[1..], k - i) == At(s, k + 1 - i);
    }
    SumEqual(k + 1, f, g);
  }

  /** Past the number of errors the evaluator vanishes. */
  lemma EvaluatorEnds(sigma: seq<byte>, len: nat, s: seq<byte>, n: nat, k: nat)
    requires Generates(sigma, len, s, n) && |s| > 0 && len <= k && k + 1 < n && k < |sigma|
    ensures Conv(sigma, s[1..], k) == 0
  {
    hide Conv, Mul, Add;
    EvaluatorPrefix(sigma, s, k);
    var c := sigma[..k + 1];
    ConvTruncated(c, s, k + 1, len);
    ConvTruncated(sigma, s, k + 1, len);
    SumEqual(len + 1, (i: nat) => Mul(At(c, i), At(s, k + 1 - i)), (i: nat) => Mul(At(sigma, i), At(s, k + 1 - i)));
  }

  /**
   * At the place of an error the locator vanishes and the quotient of evaluator and derivative is the
   * error's magnitude; at every other place the locator does not vanish.
   */
  lemma Forney(
      r: seq<byte>, w: seq<byte>, npar: nat, s: seq<byte>, sigma: seq<byte>, len: nat,
      d: seq<byte>, om: seq<byte>, j: nat, z: byte)
    requires |r| == |w| <= 255 && IsCodeword(w, npar) && 2 * Distance(r, w) <= npar
    requires |s| == |sigma| == |d| == |om| && npar < |s|
    requires forall i: nat :: i < npar ==> At(s, i) == Horner(r, Alpha(i))
    requires IsShortest(sigma, len, s, npar)
    requires npar > 0 && IsEvaluator(om, sigma, s, npar - 1) && IsDerivative(d, sigma)
    requires j < |r| && Mul(Alpha(j), z) == 1
    ensures var a, b := r[|r| - 1 - j], w[|r| - 1 - j];
            if a == b then Value(sigma, z) != 0
            else
              && Value(sigma, z) == 0 && Value(d, z) != 0 && Value(om, z) != 0
              && Value(om, z) == Mul(Add(a, b), Value(d, z))
  {
    hide Add, Mul, Alpha, Horner, Conv, Value, Locs, Vals, Explains, Generates, IsCodeword, Quotient;
    var e := Difference(r, w);
    var xs, ys := Locs(e), Vals(e);
    var v := |xs|;
    var x := Alpha(j);
    ErrorExplains(r, w, s, npar);
    DistanceIsWeight(r, w);
    var c := sigma[..v + 1];
    ShortestIsLocator(sigma, len, xs, ys, s, npar);
    RecurrenceEnds(sigma, len, s, npar, v + 1);
    ValueTruncated(sigma, v + 1, z);
    ValueAsHorner(c, x, z);
    AlphaNonzero(j);
    PowerNonzero(x, v);
    AddIsZero(r[|r| - 1 - j], w[|r| - 1 - j]);
    if r[|r| - 1 - j] == w[|r| - 1 - j] {
      if x in xs {
        var l :| 0 <= l < v && xs[l] == x;
        var i := LocsArePlaces(e, l);
        AlphaEqual(i, j);
      }
      LocsDistinct(e);
      NoOtherRoot(c, xs, x);
      MulZero(Power(x, v));
    } else {
      var l := PlaceHasLoc(e, j);
      if Value(sigma, z) != 0 { NoZeroDivisors(Power(x, v), Value(sigma, z)); }
      Magnitude(sigma, len, c, xs, ys, s, npar, d, om, l, z);
    }
  }

  lemma RecurrenceEnds(sigma: seq<byte>, len: nat, s: seq<byte>, n: nat, v: nat)
    requires Generates(sigma, len, s, n) && len < v
    ensures forall k :: v <= k < |sigma| ==> sigma[k] == 0
  {
  }

  /** The shortest recurrence has exactly the error locators among its roots. */
  lemma ShortestIsLocator(sigma: seq<byte>, len: nat, xs: seq<byte>, ys: seq<byte>, s: seq<byte>, npar: nat)
    requires Explains(xs, ys, s, npar) && 2 * |xs| <= npar < |sigma| && IsShortest(sigma, len, s, npar)
    ensures len <= |xs| && AllRoots(sigma[..|xs| + 1], xs) && sigma[0] == 1
    ensures Generates(sigma, len, s, npar) && Distinct(xs)
  {
    hide Add, Mul, Horner, Conv, PowerSum;
    LocatorGenerates(xs, ys, s, npar);
    LocatorPrefix(sigma, len, s, npar, |xs|, sigma[..|xs| + 1]);
    LocatorVanishes(sigma[..|xs| + 1], xs, ys, s, npar);
  }

  lemma Magnitude(
      sigma: seq<byte>, len: nat, c: seq<byte>, xs: seq<byte>, ys: seq<byte>, s: seq<byte>, npar: nat,
      d: seq<byte>, om: seq<byte>, l: nat, z: byte)
    requires Explains(xs, ys, s, npar) && 2 * |xs| <= npar < |s| == |sigma| == |d| == |om|
    requires Generates(sigma, len, s, npar) && len <= |xs| && c == sigma[..|xs| + 1] && AllRoots(c, xs)
    requires npar > 0 && IsEvaluator(om, sigma, s, npar - 1) && IsDerivative(d, sigma)
    requires l < |xs| && xs[l] != 0 && Mul(xs[l], z) == 1
    ensures Value(d, z) != 0 && Value(om, z) != 0 && Value(om, z) == Mul(ys[l], Value(d, z))
  {
    hide Add, Mul, Horner, Conv, Value, Quotient;
    var v, x := |xs|, xs[l];
    var h := Horner(Quotient(c, x), x);
    var w := Power(x, v - 1);
    RootIsSimple(c, xs, l);
    PowerNonzero(x, v - 1);
    // the derivative
    var d' := d[..v];
    forall k | v <= k < |d| ensures d[k] == 0 {}
    ValueTruncated(d, v, z);
    DerivativeAtRoot(c, d', x, z);
    NoZeroDivisors(h, x);
    MulZero(w);
    // the evaluator
    var om' := om[..v];
    forall k | v <= k < |om| ensures om[k] == 0 {
      if k < npar - 1 { EvaluatorEnds(sigma, len, s, npar, k); }
    }
    ValueTruncated(om, v, z);
    ValueAsHorner(om', x, z);
    forall k | 0 <= k < v ensures om'[k] == Conv(c[..k + 1], s, k + 1) {
      EvaluatorPrefix(sigma, s, k);
      assert sigma[..k + 1] == c[..k + 1];
    }
    EvaluatorAtRoot(om', c, xs, ys, s, npar, l);
    // w om(z) == (y x) h == y (h x) == y (w d(z)) == w (y d(z))
    MulAssociates(ys[l], x, h);
    MulCommutes(x, h);
    MulSwap(ys[l], w, Value(d, z));
    MulCancels(w, Value(om, z), Mul(ys[l], Value(d, z)));
    NoZeroDivisors(ys[l], Value(d, z));
  }
}
