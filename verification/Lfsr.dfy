/** Linear recurrences over GF(2^8): convolutions, power sums and the length of the shortest recurrence. */
module Lfsr {
  import opened Bits
  import opened Gf256
  import opened GfSums
  import opened GfPoly

  /** Coefficient `i` of the product of `c` and `s`, both read from the lowest power up. */
  function Conv(c: seq<byte>, s: seq<byte>, i: int): byte {
    Sum(|c|, (k: nat) => Mul(At(c, k), At(s, i - k)))
  }

  /** `c`, of degree at most `len`, generates every term of `s` from `len` up to `n`. */
  ghost predicate Generates(c: seq<byte>, len: nat, s: seq<byte>, n: nat) {
    && len < |c| && c[0] == 1
    && (forall k :: len < k < |c| ==> c[k] == 0)
    && (forall i :: len <= i < n ==> Conv(c, s, i) == 0)
  }

  /** The terms from `len` on may be left out of the convolution. */
  lemma ConvTruncated(c: seq<byte>, s: seq<byte>, i: int, len: nat)
    requires len < |c| && (forall k :: len < k < |c| ==> c[k] == 0)
    ensures Conv(c, s, i) == Sum(len + 1, (k: nat) => Mul(At(c, k), At(s, i - k)))
  {
    hide Mul, Add, Sum;
    var f := (k: nat) => Mul(At(c, k), At(s, i - k));
    forall k: nat | len + 1 <= k < |c| ensures f(k) == 0 {
      MulZero(At(s, i - k));
    }
    SumTruncate(len + 1, |c|, f);
  }

  /** Convolving twice does not depend on the order. */
  lemma ConvConv(a: seq<byte>, c: seq<byte>, s: seq<byte>, n: int)
    ensures Sum(|a|, (k: nat) => Mul(At(a, k), Conv(c, s, n - k)))
         == Sum(|c|, (i: nat) => Mul(At(c, i), Conv(a, s, n - i)))
  {
    hide Mul, Add, Sum, At;
    var f := (k: nat, i: nat) => Mul(At(a, k), Mul(At(c, i), At(s, n - k - i)));
    SumSwap(|a|, |c|, f);
    forall k: nat | k < |a|
      ensures Mul(At(a, k), Conv(c, s, n - k)) == Sum(|c|, (i: nat) => f(k, i))
    {
      var g := (i: nat) => Mul(At(c, i), At(s, n - k - i));
      SumScale(|c|, At(a, k), g);
      SumEqual(|c|, (i: nat) => Mul(At(a, k), g(i)), (i: nat) => f(k, i));
    }
    SumEqual(|a|, (k: nat) => Mul(At(a, k), Conv(c, s, n - k)), (k: nat) => Sum(|c|, (i: nat) => f(k, i)));
    forall i: nat | i < |c|
      ensures Mul(At(c, i), Conv(a, s, n - i)) == Sum(|a|, (k: nat) => f(k, i))
    {
      var g := (k: nat) => Mul(At(a, k), At(s, n - i - k));
      SumScale(|a|, At(c, i), g);
      forall k: nat | k < |a| ensures Mul(At(c, i), g(k)) == f(k, i) {
        MulSwap(At(c, i), At(a, k), At(s, n - i - k));
        assert n - i - k == n - k - i;
      }
      SumEqual(|a|, (k: nat) => Mul(At(c, i), g(k)), (k: nat) => f(k, i));
    }
    SumEqual(|c|, (i: nat) => Mul(At(c, i), Conv(a, s, n - i)), (i: nat) => Sum(|a|, (k: nat) => f(k, i)));
  }

  /**
   * Massey's bound: when `c` generates `s` up to `n` but misses term `n`, every recurrence that
   * reaches past `n` is longer than n - len.
   */
  lemma MasseyBound(c: seq<byte>, len: nat, a: seq<byte>, m: nat, s: seq<byte>, n: nat)
    requires Generates(c, len, s, n) && Conv(c, s, n) != 0
    requires Generates(a, m, s, n + 1)
    ensures len + m > n
  {
    hide Mul, Add, Sum, Conv;
    if len + m <= n {
      ConvConv(a, c, s, n);
      var f := (k: nat) => Mul(At(a, k), Conv(c, s, n - k));
      var g := (i: nat) => Mul(At(c, i), Conv(a, s, n - i));
      forall k: nat | k < |a| && k != 0 ensures f(k) == 0 {
        MulZero(At(a, k));
        MulZero(Conv(c, s, n - k));
      }
      SumSingle(|a|, 0, f);
      MulOne(Conv(c, s, n));
      forall i: nat | i < |c| ensures g(i) == 0 {
        MulZero(At(c, i));
        MulZero(Conv(a, s, n - i));
      }
      SumZero(|c|, g);
      assert false;
    }
  }

  // ---------- adding a shifted recurrence ----------

  function Delayed(m: nat, f: nat -> byte, p: nat): byte {
    if p < m then 0 else f(p - m)
  }

  /** Dropping `m` leading zeros from a sum. */
  lemma {:induction false} SumShift(n: nat, m: nat, f: nat -> byte)
    ensures Sum(n + m, (p: nat) => Delayed(m, f, p)) == Sum(n, f)
  {
    if n == 0 {
      SumZero(m, (p: nat) => Delayed(m, f, p));
    } else {
      SumShift(n - 1, m, f);
      assert Delayed(m, f, n + m - 1) == f(n - 1);
    }
  }

  /** c + u x^m b, cut off at the length of `c`. */
  function AddShifted(c: seq<byte>, b: seq<byte>, u: byte, m: int): (r: seq<byte>)
    ensures |r| == |c|
  {
    seq(|c|, (p: nat) requires p < |c| => Add(c[p], Mul(u, At(b, p - m))))
  }

  lemma ConvAddShifted(c: seq<byte>, b: seq<byte>, u: byte, m: nat, s: seq<byte>, i: int)
    requires |c| == |b| && m <= |c|
    requires forall k :: |c| - m <= k < |c| ==> b[k] == 0
    ensures Conv(AddShifted(c, b, u, m), s, i) == Add(Conv(c, s, i), Mul(u, Conv(b, s, i - m)))
  {
    hide Mul, Add, Sum;
    var n := |c|;
    var r := AddShifted(c, b, u, m);
    var f := (p: nat) => Mul(At(c, p), At(s, i - p));
    var i' := i - m;
    var g := (k: nat) => Mul(At(b, k), At(s, i' - k));
    var d := (p: nat) => Delayed(m, g, p);
    var h := (p: nat) => Mul(u, d(p));
    forall p: nat | p < n
      ensures Mul(At(r, p), At(s, i - p)) == Add(f(p), h(p))
    {
      assert At(r, p) == Add(c[p], Mul(u, At(b, p - m)));
      MulAddLeft(c[p], Mul(u, At(b, p - m)), At(s, i - p));
      if p >= m { assert i' - (p - m) == i - p; }
      MulAssociates(u, At(b, p - m), At(s, i - p));
      MulZero(At(s, i - p));
      MulZero(u);
    }
    SumEqual(n, (p: nat) => Mul(At(r, p), At(s, i - p)), (p: nat) => Add(f(p), h(p)));
    SumAdd(n, f, h);
    SumScale(n, u, d);
    SumShift(n - m, m, g);
    forall k: nat | n - m <= k < n ensures g(k) == 0 {
      MulZero(At(s, i' - k));
    }
    SumTruncate(n - m, n, g);
  }

  // ---------- power sums ----------

  /** y_0 x_0^i + y_1 x_1^i + ... */
  function PowerSum(xs: seq<byte>, ys: seq<byte>, i: nat): byte {
    Sum(|xs|, (l: nat) => Mul(At(ys, l), Power(At(xs, l), i)))
  }

  function IntPower(x: byte, n: int): byte {
    if n < 0 then 0 else Power(x, n)
  }

  lemma {:induction false} HornerPowers(c: seq<byte>, x: byte, i: nat)
    requires |c| <= i + 1
    ensures Sum(|c|, (k: nat) => Mul(At(c, k), IntPower(x, i - k))) == Mul(Power(x, i + 1 - |c|), Horner(c, x))
  {
    hide Mul, Add;
    if c == [] {
      MulZero(Power(x, i + 1));
    } else {
      var n := |c| - 1;
      var c', a := c[..n], c[n];
      HornerPowers(c', x, i);
      SumEqual(n, (k: nat) => Mul(At(c, k), IntPower(x, i - k)), (k: nat) => Mul(At(c', k), IntPower(x, i - k)));
      var w := Power(x, i - n);
      MulAssociates(w, x, Horner(c', x));
      MulCommutes(x, Horner(c', x));
      MulAddRight(w, Mul(Horner(c', x), x), a);
      MulCommutes(w, a);
    }
  }

  /** A convolution of power sums evaluates the polynomial at every base. */
  lemma ConvOfPowerSums(c: seq<byte>, xs: seq<byte>, ys: seq<byte>, s: seq<byte>, i: nat)
    requires 1 <= |c| <= i + 1
    requires forall j: nat :: j <= i ==> At(s, j) == PowerSum(xs, ys, j)
    ensures Conv(c, s, i)
         == Sum(|xs|, (l: nat) => Mul(At(ys, l), Mul(Power(At(xs, l), i + 1 - |c|), Horner(c, At(xs, l)))))
  {
    hide Mul, Add, Sum, At, Horner;
    var f := (k: nat, l: nat) => Mul(At(c, k), Mul(At(ys, l), IntPower(At(xs, l), i - k)));
    SumSwap(|c|, |xs|, f);
    forall k: nat | k < |c|
      ensures Mul(At(c, k), At(s, i - k)) == Sum(|xs|, (l: nat) => f(k, l))
    {
      var g := (l: nat) => Mul(At(ys, l), Power(At(xs, l), i - k));
      SumScale(|xs|, At(c, k), g);
      SumEqual(|xs|, (l: nat) => Mul(At(c, k), g(l)), (l: nat) => f(k, l));
      assert At(s, i - k) == PowerSum(xs, ys, i - k);
    }
    SumEqual(|c|, (k: nat) => Mul(At(c, k), At(s, i - k)), (k: nat) => Sum(|xs|, (l: nat) => f(k, l)));
    forall l: nat | l < |xs|
      ensures Sum(|c|, (k: nat) => f(k, l)) == Mul(At(ys, l), Mul(Power(At(xs, l), i + 1 - |c|), Horner(c, At(xs, l))))
    {
      var x, y := At(xs, l), At(ys, l);
      var g := (k: nat) => Mul(At(c, k), IntPower(x, i - k));
      HornerPowers(c, x, i);
      SumScale(|c|, y, g);
      forall k: nat | k < |c| ensures f(k, l) == Mul(y, g(k)) {
        MulSwap(At(c, k), y, IntPower(x, i - k));
      }
      SumEqual(|c|, (k: nat) => f(k, l), (k: nat) => Mul(y, g(k)));
    }
    SumEqual(|xs|, (l: nat) => Sum(|c|, (k: nat) => f(k, l)),
      (l: nat) => Mul(At(ys, l), Mul(Power(At(xs, l), i + 1 - |c|), Horner(c, At(xs, l)))));
  }

  /** The recurrence whose roots are the bases generates every power sum. */
  lemma LocatorGenerates(xs: seq<byte>, ys: seq<byte>, s: seq<byte>, n: nat)
    requires forall j: nat :: j < n ==> At(s, j) == PowerSum(xs, ys, j)
    ensures Generates(Locator(xs), |xs|, s, n)
  {
    hide Mul, Add, Sum, Horner, Conv, PowerSum;
    var c := Locator(xs);
    LocatorRoots(xs);
    forall i | |xs| <= i < n ensures Conv(c, s, i) == 0 {
      ConvOfPowerSums(c, xs, ys, s, i);
      var f := (l: nat) => Mul(At(ys, l), Mul(Power(At(xs, l), i + 1 - |c|), Horner(c, At(xs, l))));
      forall l: nat | l < |xs| ensures f(l) == 0 {
        MulZero(Power(xs[l], i + 1 - |c|));
        MulZero(At(ys, l));
      }
      SumZero(|xs|, f);
    }
  }

  /** The polynomial that vanishes at every base but one picks that base out of a sum. */
  lemma PickOut(xs: seq<byte>, l: nat, f: nat -> byte, n: nat)
    requires n == |xs| && l < n && Distinct(xs)
    requires Sum(n, (j: nat) => Mul(f(j), Horner(Quotient(Locator(xs), xs[l]), At(xs, j)))) == 0
    ensures f(l) == 0
  {
    hide Mul, Add, Sum, Horner, Quotient, Locator;
    var p := Locator(xs);
    LocatorRoots(xs);
    var q := Quotient(p, xs[l]);
    var g := (j: nat) => Mul(f(j), Horner(q, At(xs, j)));
    forall j: nat | j < n && j != l ensures Horner(q, At(xs, j)) == 0 && g(j) == 0 {
      RootOfQuotient(p, xs[l], xs[j]);
      MulZero(f(j));
    }
    SumSingle(n, l, g);
    if Horner(q, xs[l]) == 0 {
      QuotientLeads(p, xs[l]);
      assert forall j :: 0 <= j < n ==> At(xs, j) == xs[j];
      RootCount(q, xs);
    } else if f(l) != 0 {
      NoZeroDivisors(f(l), Horner(q, xs[l]));
    }
  }

  /** Power sums of distinct bases that vanish as often as there are bases have no terms. */
  lemma Vandermonde(xs: seq<byte>, ys: seq<byte>, l: nat)
    requires |xs| == |ys| && Distinct(xs) && l < |xs|
    requires forall i: nat :: i < |xs| ==> PowerSum(xs, ys, i) == 0
    ensures ys[l] == 0
  {
    hide Mul, Add, Sum, Horner, Conv, PowerSum, Quotient, Locator;
    var n := |xs|;
    var q := Quotient(Locator(xs), xs[l]);
    var s := seq(n, _ => 0);
    ConvOfPowerSums(q, xs, ys, s, n - 1);
    ConvZero(q, s, n - 1);
    var f := (j: nat) => Mul(At(ys, j), Mul(Power(At(xs, j), 0), Horner(q, At(xs, j))));
    var g := (j: nat) => Mul(At(ys, j), Horner(q, At(xs, j)));
    forall j: nat | j < n ensures f(j) == g(j) {
      HornerEmpty(At(xs, j));
      MulOne(Horner(q, At(xs, j)));
    }
    SumEqual(n, f, g);
    var y := (j: nat) => At(ys, j);
    SumEqual(n, g, (j: nat) => Mul(y(j), Horner(Quotient(Locator(xs), xs[l]), At(xs, j))));
    PickOut(xs, l, y, n);
  }

  lemma ConvZero(c: seq<byte>, s: seq<byte>, i: int)
    requires forall j :: 0 <= j < |s| ==> s[j] == 0
    ensures Conv(c, s, i) == 0
  {
    hide Mul, Add, Sum;
    var f := (k: nat) => Mul(At(c, k), At(s, i - k));
    forall k: nat | k < |c| ensures f(k) == 0 {
      MulZero(At(c, k));
    }
    SumZero(|c|, f);
  }
}
