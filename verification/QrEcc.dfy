/** The error correction bytes of the QR generator (`qrcodegen.cpp`). */
module QrEcc {
  import opened Arith
  import opened Bits
  import opened Gf256
  import opened GfSums
  import opened GfPoly
  import opened ReedSolomon

  lemma HalvedPower(y: nat, i: nat)
    ensures y / Pow2(i) / 2 == y / Pow2(i + 1)
  {
    DivTwice(y, Pow2(i), 2);
  }

  /** The product in GF(2^8)/0x11D, bit by bit. */
  method ReedSolomonMultiply(x: byte, y: byte) returns (r: byte)
    ensures r == Mul(x, y)
  {
    hide Xor, Add, XTime, Mul;
    var z: nat := 0;
    var i := 7;
    assert Pow2(8) == 256;
    MulZero(x);
    while i >= 0
      invariant -1 <= i <= 7
      invariant z == Mul(x, y / Pow2(i + 1))
    {
      var was := z;
      z := Xor(2 * z, z / 128 * 0x11D);
      XTimeWide(was);
      z := Xor(z, y / Pow2(i) % 2 * x);
      HalvedPower(y, i);
      ghost var t: byte := y / Pow2(i);
      MulBit(x, t);
      AddIsXor(XTime(was), if t % 2 == 1 then x else 0);
      i := i - 1;
    }
    assert Pow2(0) == 1;
    return z;
  }

  lemma AddIsXor(a: byte, b: byte)
    ensures Add(a, b) == Xor(a, b)
  {
  }

  /** alpha^0, alpha^1, ..., alpha^(n - 1). */
  function FirstPowers(n: nat): (xs: seq<byte>)
    ensures |xs| == n
  {
    seq(n, (i: nat) => Alpha(i))
  }

  /**
   * The generator polynomial of the given degree, without its leading one: its roots are the first powers
   * of the generator.
   */
  method ReedSolomonComputeDivisor(degree: nat) returns (divisor: seq<byte>)
    requires 1 <= degree <= 255
    ensures |divisor| == degree && [1] + divisor == Locator(FirstPowers(degree))
  {
    hide Add, Mul, Alpha, Locator, TimesRoot;
    var result := new byte[degree](_ => 0);
    result[degree - 1] := 1;
    var root: byte := 1;
    LocatorStart(degree, result[..]);
    for i := 0 to degree
      invariant root == Alpha(i)
      invariant IsPadded([Lead(degree, i)] + result[..], Locator(FirstPowers(i)))
    {
      ghost var was := result[..];
      for j := 0 to degree
        invariant forall k :: 0 <= k < j ==> result[k] == Add(Mul(was[k], root), At(was, k + 1))
        invariant forall k :: j <= k < degree ==> result[k] == was[k]
      {
        result[j] := ReedSolomonMultiply(result[j], root);
        if j + 1 < degree {
          result[j] := Add(result[j], result[j + 1]);
        } else {
          AddZero(result[j]);
        }
      }
      ghost var now := result[..];
      LocatorNext(degree, i, was, now);
      root := ReedSolomonMultiply(root, 2);
      NextPower(i);
      assert result[..] == now;
    }
    divisor := result[..];
    assert [1] + divisor == Locator(FirstPowers(degree));
  }

  /** `p` is `q` with zeros in front. */
  ghost predicate IsPadded(p: seq<byte>, q: seq<byte>) {
    |q| <= |p| && forall k :: 0 <= k < |p| ==> p[k] == At(q, k - (|p| - |q|))
  }

  /** The coefficient that does not fit the buffer: it is one once all factors are in. */
  function Lead(degree: nat, i: nat): byte {
    if i < degree then 0 else 1
  }

  lemma LocatorStart(degree: nat, r: seq<byte>)
    requires 1 <= degree == |r| && r[degree - 1] == 1 && forall k :: 0 <= k < degree - 1 ==> r[k] == 0
    ensures IsPadded([0] + r, Locator(FirstPowers(0))) && Alpha(0) == 1
  {
  }

  lemma NextPower(i: nat)
    ensures Mul(Alpha(i), 2) == Alpha(i + 1)
  {
    assert Alpha(1) == XTime(Alpha(0)) == 2;
    AlphaAdds(i, 1);
  }

  lemma LocatorNext(degree: nat, i: nat, was: seq<byte>, r: seq<byte>)
    requires |was| == |r| == degree && i < degree
    requires IsPadded([0] + was, Locator(FirstPowers(i)))
    requires forall k :: 0 <= k < degree ==> r[k] == Add(Mul(was[k], Alpha(i)), At(was, k + 1))
    ensures IsPadded([Lead(degree, i + 1)] + r, Locator(FirstPowers(i + 1)))
  {
    hide Add, Mul, Alpha, TimesRoot;
    var p, q := Locator(FirstPowers(i)), Locator(FirstPowers(i + 1));
    var x := Alpha(i);
    assert FirstPowers(i + 1)[..i] == FirstPowers(i);
    assert q == TimesRoot(p, x);
    hide Locator;
    var old', new' := [0] + was, [Lead(degree, i + 1)] + r;
    var z := degree - 1 - i;
    forall k | 0 <= k < degree + 1 ensures new'[k] == At(q, k - z) {
      TimesRootAt(p, x, k - z);
      MulZero(x);
      AddZero(0);
      if k > 0 {
        assert old'[k] == was[k - 1] == At(p, k - z - 1);
        assert k < degree ==> old'[k + 1] == was[k] == At(p, k - z);
        assert new'[k] == r[k - 1] == Add(Mul(was[k - 1], x), At(was, k));
      }
    }
  }

  lemma TimesRootAt(p: seq<byte>, x: byte, k: int)
    ensures At(TimesRoot(p, x), k) == if 0 <= k <= |p| then Add(Mul(At(p, k - 1), x), At(p, k)) else 0
  {
    hide Add, Mul;
  }

  // ---------- the remainder ----------

  lemma {:induction false} HornerConcat(p: seq<byte>, q: seq<byte>, x: byte)
    ensures Horner(p + q, x) == Add(Mul(Horner(p, x), Power(x, |q|)), Horner(q, x))
  {
    hide Add, Mul;
    if q == [] {
      assert p + q == p;
      MulOne(Horner(p, x));
      AddZero(Horner(p, x));
    } else {
      var n := |q| - 1;
      var q', a := q[..n], q[n];
      assert p + q == (p + q') + [a];
      HornerConcat(p, q', x);
      HornerAppend(p + q', a, x);
      var u, w := Mul(Horner(p, x), Power(x, n)), Horner(q', x);
      MulAddLeft(u, w, x);
      MulAssociates(Horner(p, x), Power(x, n), x);
      AddAssociates(Mul(u, x), Mul(w, x), a);
    }
  }

  lemma {:induction false} HornerScale(p: seq<byte>, c: byte, x: byte)
    ensures Horner(seq(|p|, (i: nat) requires i < |p| => Mul(p[i], c)), x) == Mul(Horner(p, x), c)
  {
    hide Add, Mul;
    var r := seq(|p|, (i: nat) requires i < |p| => Mul(p[i], c));
    if p == [] {
      MulZero(c);
    } else {
      var n := |p| - 1;
      assert r[..n] == seq(n, (i: nat) requires i < n => Mul(p[..n][i], c));
      HornerScale(p[..n], c, x);
      var h := Horner(p[..n], x);
      MulAddLeft(Mul(h, x), p[n], c);
      MulAssociates(h, x, c);
      MulCommutes(x, c);
      MulAssociates(h, c, x);
    }
  }

  /** The shift register after reading one more data byte. */
  function Shift(r: seq<byte>, divisor: seq<byte>, b: byte): (r': seq<byte>)
    requires |r| == |divisor| > 0
    ensures |r'| == |r|
  {
    seq(|r|, (i: nat) requires i < |r| => Add(At(r, i + 1), Mul(divisor[i], Add(b, r[0]))))
  }

  /** At a root of the divisor, reading a byte multiplies by x and adds b x^d. */
  lemma ShiftAtRoot(r: seq<byte>, divisor: seq<byte>, b: byte, x: byte)
    requires |r| == |divisor| > 0 && Horner([1] + divisor, x) == 0
    ensures Horner(Shift(r, divisor, b), x) == Add(Mul(Horner(r, x), x), Mul(b, Power(x, |r|)))
  {
    hide Add, Mul, Horner;
    var d := |r|;
    var f := Add(b, r[0]);
    var tail := r[1..];
    var left := tail + [0];
    var right := seq(d, (i: nat) requires i < d => Mul(divisor[i], f));
    forall i | 0 <= i < d ensures Shift(r, divisor, b)[i] == Add(left[i], right[i]) {}
    assert Shift(r, divisor, b) == seq(d, (i: nat) requires i < d => Add(left[i], right[i]));
    HornerAdd(left, right, x);
    HornerAppend(tail, 0, x);
    AddZero(Mul(Horner(tail, x), x));
    HornerScale(divisor, f, x);
    HornerCons(1, divisor, x);
    MulOne(Power(x, d));
    AddIsZero(Power(x, d), Horner(divisor, x));
    assert r == [r[0]] + tail;
    HornerCons(r[0], tail, x);
    PowerUp(x, d);
    ShiftAlgebra(r[0], b, Power(x, d - 1), Horner(tail, x), x);
  }

  lemma PowerUp(x: byte, n: nat)
    requires n > 0
    ensures Power(x, n) == Mul(Power(x, n - 1), x)
  {
  }

  /** t x + (w x) (b + a) == (a w + t) x + b (w x). */
  lemma ShiftAlgebra(a: byte, b: byte, w: byte, t: byte, x: byte)
    ensures Add(Mul(t, x), Mul(Mul(w, x), Add(b, a))) == Add(Mul(Add(Mul(a, w), t), x), Mul(b, Mul(w, x)))
  {
    hide *;
    var v := Mul(w, x);
    MulAddRight(v, b, a);
    MulCommutes(v, b);
    MulCommutes(v, a);
    MulAddLeft(Mul(a, w), t, x);
    MulAssociates(a, w, x);
    AddCommutes(Mul(b, v), Mul(a, v));
    AddAssociates(Mul(t, x), Mul(a, v), Mul(b, v));
    AddCommutes(Mul(t, x), Mul(a, v));
  }

  /** `ecc` completes the data to a word that vanishes at every root of the divisor. */
  method ReedSolomonComputeRemainder(data: seq<byte>, divisor: seq<byte>) returns (ecc: seq<byte>)
    requires |divisor| > 0
    ensures |ecc| == |divisor|
    ensures forall x: byte :: Horner([1] + divisor, x) == 0 ==> Horner(data + ecc, x) == 0
  {
    hide Add, Mul, Horner, Power;
    var d := |divisor|;
    var result := new byte[d](_ => 0);
    forall x: byte ensures Horner(result[..], x) == Mul(Horner([], x), Power(x, d)) {
      HornerEmpty(x);
      HornerZeros([], d, x);
      assert result[..] == [] + seq(d, _ => 0);
    }
    assert data[..0] == [];
    for n := 0 to |data|
      invariant forall x: byte :: Horner([1] + divisor, x) == 0 ==>
        Horner(result[..], x) == Mul(Horner(data[..n], x), Power(x, d))
    {
      var b := data[n];
      ghost var was := result[..];
      var factor := Add(b, result[0]);
      // erase the first byte and push back a zero
      forall k | 0 <= k < d { result[k] := if k + 1 < d then result[k + 1] else 0; }
      for i := 0 to d
        invariant forall k :: 0 <= k < d ==>
          result[k] == if k < i then Shift(was, divisor, b)[k] else At(was, k + 1)
      {
        var t := ReedSolomonMultiply(divisor[i], factor);
        result[i] := Add(result[i], t);
      }
      assert result[..] == Shift(was, divisor, b);
      forall x: byte | Horner([1] + divisor, x) == 0
        ensures Horner(result[..], x) == Mul(Horner(data[..n + 1], x), Power(x, d))
      {
        ShiftAtRoot(was, divisor, b, x);
        assert data[..n + 1] == data[..n] + [b];
        HornerAppend(data[..n], b, x);
        var h, w := Horner(data[..n], x), Power(x, d);
        MulAddLeft(Mul(h, x), b, w);
        MulAssociates(h, x, w);
        MulCommutes(x, w);
        MulAssociates(h, w, x);
      }
    }
    assert data[..|data|] == data;
    ecc := result[..];
    forall x: byte | Horner([1] + divisor, x) == 0 ensures Horner(data + ecc, x) == 0 {
      HornerConcat(data, ecc, x);
      AddSelf(Horner(ecc, x));
    }
  }

  /** Data followed by its error correction bytes is a codeword for the reader. */
  method AppendEcc(data: seq<byte>, npar: nat) returns (block: seq<byte>)
    requires 1 <= npar <= 255
    ensures |block| == |data| + npar && block[..|data|] == data
    ensures IsCodeword(block, npar)
  {
    hide Add, Mul, Horner, Alpha, Locator;
    var divisor := ReedSolomonComputeDivisor(npar);
    var ecc := ReedSolomonComputeRemainder(data, divisor);
    block := data + ecc;
    LocatorRoots(FirstPowers(npar));
    forall i: nat | i < npar ensures Horner(block, Alpha(i)) == 0 {
      assert FirstPowers(npar)[i] == Alpha(i);
    }
  }
}
