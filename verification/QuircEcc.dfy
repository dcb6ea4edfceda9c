/** Error correction of one block in the QR reader (quirc, `decode.c`). */
module QuircEcc {
  import opened Bits
  import opened Gf256
  import opened GfSums
  import opened GfPoly
  import opened Lfsr
  import opened ErrorLocation
  import opened ReedSolomon

  const MAX_POLY := 64

  datatype DecodeError = QUIRC_SUCCESS | QUIRC_ERROR_DATA_ECC

  /** One summand of a table-driven evaluation. */
  lemma TableTerm(gf: GaloisField, c: byte, x: byte, i: nat)
    requires IsGf256(gf) && c != 0 && x != 0
    ensures gf.exp[(gf.log[c] + gf.log[x] * i) % gf.p] == Mul(c, Power(x, i))
  {
    hide Mul, Alpha, Power;
    var n := gf.log[c] + gf.log[x] * i;
    PowerAlpha(gf.log[x], i);
    AlphaAdds(gf.log[c], gf.log[x] * i);
    AlphaModulo(n);
    assert gf.exp[n % 255] == Alpha(n % 255);
  }

  /** dst += c x^shift src, dropping what falls outside. */
  method PolyAdd(dst: array<byte>, src: array<byte>, c: byte, shift: int, gf: GaloisField)
    requires IsGf256(gf) && dst.Length == src.Length == MAX_POLY && dst != src
    modifies dst
    ensures dst[..] == AddShifted(old(dst[..]), src[..], c, shift)
  {
    hide Mul, Add, Alpha, IsGf256;
    ghost var was := dst[..];
    assert gf.p == 255 && |gf.log| == 256 && |gf.exp| == 256 by { FieldShape(gf); }
    var log_c := gf.log[c];
    if c == 0 {
      forall p | 0 <= p < MAX_POLY ensures dst[p] == Add(was[p], Mul(c, At(src[..], p - shift))) {
        MulZero(At(src[..], p - shift));
        AddZero(was[p]);
      }
      assert dst[..] == AddShifted(was, src[..], c, shift);
      return;
    }
    for i := 0 to MAX_POLY
      invariant forall p :: 0 <= p < MAX_POLY ==>
        dst[p] == if shift <= p < shift + i then Add(was[p], Mul(c, src[p - shift])) else was[p]
    {
      var p := i + shift;
      var v := src[i];
      if p < 0 || p >= MAX_POLY {
        continue;
      }
      if v == 0 {
        MulZero(c);
        AddZero(was[p]);
        continue;
      }
      TableProduct(gf, v, c);
      MulCommutes(v, c);
      FieldShape(gf);
      dst[p] := Add(dst[p], gf.exp[(gf.log[v] + log_c) % gf.p]);
    }
    forall p | 0 <= p < MAX_POLY ensures dst[p] == Add(was[p], Mul(c, At(src[..], p - shift))) {
      MulZero(c);
      AddZero(was[p]);
    }
    assert dst[..] == AddShifted(was, src[..], c, shift);
  }

  lemma FieldShape(gf: GaloisField)
    requires IsGf256(gf)
    ensures gf.p == 255 && |gf.log| == 256 && |gf.exp| == 256
    ensures forall a: byte :: gf.log[a] <= 255
  {
  }

  lemma ValueAtZero(s: seq<byte>)
    requires |s| > 0
    ensures Value(s, 0) == s[0]
  {
    hide Mul, Add, Sum;
    var f := (k: nat) => Mul(At(s, k), Power(0, k));
    forall k: nat | k < |s| && k != 0 ensures f(k) == 0 {
      assert Power(0, k) == Mul(Power(0, k - 1), 0);
      MulZero(Power(0, k - 1));
      MulZero(At(s, k));
    }
    SumSingle(|s|, 0, f);
    MulOne(s[0]);
  }

  method PolyEval(s: array<byte>, x: byte, gf: GaloisField) returns (sum: byte)
    requires IsGf256(gf) && s.Length == MAX_POLY
    ensures sum == Value(s[..], x)
  {
    hide Mul, Add, Alpha, IsGf256, Power;
    FieldShape(gf);
    ghost var p := s[..];
    sum := 0;
    var log_x := gf.log[x];
    if x == 0 {
      ValueAtZero(s[..]);
      return s[0];
    }
    ghost var f := (k: nat) => Mul(At(p, k), Power(x, k));
    for i := 0 to MAX_POLY
      invariant sum == Sum(i, f)
    {
      var c := s[i];
      if c == 0 {
        MulZero(Power(x, i));
        AddZero(sum);
        continue;
      }
      TableTerm(gf, c, x, i);
      sum := Add(sum, gf.exp[(gf.log[c] + log_x * i) % gf.p]);
    }
  }

  // ---------- Berlekamp-Massey ----------

  /**
   * The state before step `n`: `c` is a recurrence of length `len` for the first `n` terms; `b`, taken from
   * before the last change of length, generates all terms up to n - m, where it misses by `miss`.
   */
  ghost predicate Stage(
      c: seq<byte>, b: seq<byte>, miss: byte, len: nat, blen: nat, m: nat, s: seq<byte>, n: nat)
  {
    && |c| == |b| == MAX_POLY && Generates(c, len, s, n) && len <= n
    && miss != 0 && 1 <= m <= n + 1
    && if m == n + 1
       then len == 0 && blen == 0 && miss == 1 && Generates(b, 0, s, 0)
       else blen <= n - m && len == n - m + 1 - blen && Generates(b, blen, s, n - m) && Conv(b, s, n - m) == miss
  }

  function NextLength(len: nat, n: nat): nat
    requires len <= n
  {
    if 2 * len <= n then n + 1 - len else len
  }

  /** Repairing the recurrence makes it generate term `n` as well. */
  lemma Repair(
      c: seq<byte>, b: seq<byte>, miss: byte, len: nat, blen: nat, m: nat, s: seq<byte>, n: nat, u: byte)
    requires Stage(c, b, miss, len, blen, m, s, n) && n + 1 < MAX_POLY
    requires Conv(c, s, n) != 0 && Mul(u, miss) == Conv(c, s, n)
    ensures Generates(AddShifted(c, b, u, m), NextLength(len, n), s, n + 1)
  {
    hide Mul, Add, Conv;
    var r := AddShifted(c, b, u, m);
    var len' := NextLength(len, n);
    assert blen + m <= len';
    MulZero(u);
    forall k | len' < k < |r| ensures r[k] == 0 {
      AddZero(0);
    }
    AddZero(c[0]);
    forall i | len' <= i < n + 1 ensures Conv(r, s, i) == 0 {
      ConvAddShifted(c, b, u, m, s, i);
      if i < n {
        AddZero(0);
      } else {
        AddSelf(Conv(c, s, n));
      }
    }
  }

  lemma StageAfterRepair(
      c: seq<byte>, b: seq<byte>, miss: byte, len: nat, blen: nat, m: nat, s: seq<byte>, n: nat, u: byte)
    requires Stage(c, b, miss, len, blen, m, s, n) && n + 1 < MAX_POLY
    requires Conv(c, s, n) != 0 && Mul(u, miss) == Conv(c, s, n)
    ensures var r := AddShifted(c, b, u, m);
            if 2 * len <= n then Stage(r, c, Conv(c, s, n), n + 1 - len, len, 1, s, n + 1)
            else Stage(r, b, miss, len, blen, m + 1, s, n + 1)
  {
    hide Mul, Add, Conv;
    Repair(c, b, miss, len, blen, m, s, n, u);
  }

  /** The recurrence stays the shortest one: a longer prefix only excludes recurrences. */
  lemma LengthIsForced(c: seq<byte>, len: nat, s: seq<byte>, n: nat)
    requires Generates(c, len, s, n) && len <= n && Conv(c, s, n) != 0 && NoShorter(len, s, n)
    ensures NoShorter(NextLength(len, n), s, n + 1)
  {
    hide Conv;
    var n' := n + 1;
    forall a: seq<byte>, m: nat | Generates(a, m, s, n') ensures NextLength(len, n) <= m {
      MasseyBound(c, len, a, m, s, n);
      assert Generates(a, m, s, n);
    }
  }

  lemma NoShorterExtends(len: nat, s: seq<byte>, n: nat)
    requires NoShorter(len, s, n)
    ensures NoShorter(len, s, n + 1)
  {
    hide Conv;
    var n' := n + 1;
    forall a: seq<byte>, m: nat | Generates(a, m, s, n') ensures len <= m {
      assert Generates(a, m, s, n);
    }
  }

  /** The discrepancy: how far `C` is from generating term `n`. */
  method Discrepancy(C: array<byte>, s: array<byte>, L: nat, n: nat, gf: GaloisField) returns (d: byte)
    requires IsGf256(gf) && C.Length == s.Length == MAX_POLY && L <= n < MAX_POLY
    requires C[0] == 1 && forall k :: L < k < MAX_POLY ==> C[k] == 0
    ensures d == Conv(C[..], s[..], n)
  {
    hide Mul, Add, Alpha, IsGf256;
    FieldShape(gf);
    ghost var c, t := C[..], s[..];
    ghost var f := (k: nat) => Mul(At(c, k), At(t, n - k));
    d := s[n];
    MulOne(d);
    AddZero(d);
    assert Sum(0, f) == 0;
    for i := 1 to L + 1
      invariant d == Sum(i, f)
    {
      if !(C[i] != 0 && s[n - i] != 0) {
        MulZero(At(c, i));
        MulZero(At(t, n - i));
        AddZero(d);
        continue;
      }
      TableProduct(gf, C[i], s[n - i]);
      d := Add(d, gf.exp[(gf.log[C[i]] + gf.log[s[n - i]]) % gf.p]);
    }
    ConvTruncated(c, t, n, L);
  }

  method BerlekampMassey(s: array<byte>, N: nat, gf: GaloisField, sigma: array<byte>) returns (ghost len: nat)
    requires IsGf256(gf) && s.Length == sigma.Length == MAX_POLY && N < MAX_POLY && s != sigma
    modifies sigma
    ensures IsShortest(sigma[..], len, s[..], N) && len <= N
  {
    hide Mul, Add, Alpha, IsGf256, Conv, Generates, Stage, NoShorter;
    var C, B := new byte[MAX_POLY](_ => 0), new byte[MAX_POLY](_ => 0);
    var L: nat, m: nat, b: byte := 0, 1, 1;
    B[0] := 1;
    C[0] := 1;
    ghost var blen: nat := 0;
    ghost var t := s[..];
    FieldShape(gf);
    StartStage(C[..], t);
    assert B[..] == C[..];
    for n := 0 to N
      invariant fresh(C) && fresh(B) && C != B && C.Length == B.Length == MAX_POLY && s[..] == t
      invariant 1 <= m
      invariant Stage(C[..], B[..], b, L, blen, m, t, n)
      invariant NoShorter(L, t, n)
    {
      StageShape(C[..], B[..], b, L, blen, m, t, n);
      var d := Discrepancy(C, s, L, n, gf);
      var mult := gf.exp[(gf.p - gf.log[b] + gf.log[d]) % gf.p];
      if d == 0 {
        StageWithoutError(C[..], B[..], b, L, blen, m, t, n);
        NoShorterExtends(L, t, n);
        m := m + 1;
      } else {
        TableQuotient(gf, d, b);
        ghost var c, bs := C[..], B[..];
        StageAfterRepair(c, bs, b, L, blen, m, t, n, mult);
        LengthIsForced(c, L, t, n);
        if L * 2 <= n {
          var T := new byte[MAX_POLY];
          forall k | 0 <= k < MAX_POLY { T[k] := C[k]; }
          assert T[..] == c;
          PolyAdd(C, B, mult, m, gf);
          assert T[..] == c;
          forall k | 0 <= k < MAX_POLY { B[k] := T[k]; }
          assert B[..] == c;
          assert C[..] == AddShifted(c, bs, mult, m);
          blen := L;
          L := n + 1 - L;
          b := d;
          m := 1;
        } else {
          PolyAdd(C, B, mult, m, gf);
          assert B[..] == bs;
          m := m + 1;
        }
      }
    }
    StageShape(C[..], B[..], b, L, blen, m, t, N);
    ghost var c := C[..];
    forall k | 0 <= k < MAX_POLY { sigma[k] := C[k]; }
    assert sigma[..] == c;
    assert s[..] == t;
    len := L;
    assert IsShortest(c, L, t, N);
  }

  lemma StartStage(c: seq<byte>, s: seq<byte>)
    requires |c| == MAX_POLY && c[0] == 1 && forall k :: 1 <= k < MAX_POLY ==> c[k] == 0
    ensures Stage(c, c, 1, 0, 0, 1, s, 0) && NoShorter(0, s, 0)
  {
  }

  lemma StageShape(
      c: seq<byte>, b: seq<byte>, miss: byte, len: nat, blen: nat, m: nat, s: seq<byte>, n: nat)
    requires Stage(c, b, miss, len, blen, m, s, n)
    ensures |c| == MAX_POLY && Generates(c, len, s, n) && len <= n && miss != 0
    ensures len < |c| && c[0] == 1 && forall k :: len < k < |c| ==> c[k] == 0
  {
    hide Conv;
  }

  lemma StageWithoutError(
      c: seq<byte>, b: seq<byte>, miss: byte, len: nat, blen: nat, m: nat, s: seq<byte>, n: nat)
    requires Stage(c, b, miss, len, blen, m, s, n) && Conv(c, s, n) == 0
    ensures Stage(c, b, miss, len, blen, m + 1, s, n + 1)
  {
    hide Conv;
  }

  // ---------- syndromes, evaluator, correction ----------

  /** The antilogarithm of i j + log c is c times the j-th power of alpha^i. */
  lemma SyndromeTerm(gf: GaloisField, c: byte, i: nat, j: nat)
    requires IsGf256(gf) && c != 0
    ensures gf.exp[(gf.log[c] + i * j) % 255] == Mul(c, Power(Alpha(i), j))
  {
    hide Mul, Alpha, Power;
    var n := gf.log[c] + i * j;
    PowerAlpha(i, j);
    AlphaAdds(gf.log[c], i * j);
    AlphaModulo(n);
    assert gf.exp[n % 255] == Alpha(n % 255);
  }

  /** One syndrome: the block, last byte first, weighted with the powers of alpha^i. */
  method Syndrome(data: array<byte>, off: nat, bs: nat, i: nat, gf: GaloisField) returns (sum: byte)
    requires IsGf256(gf) && off + bs <= data.Length
    ensures sum == Horner(data[off..off + bs], Alpha(i))
  {
    hide Mul, Add, Alpha, IsGf256, Horner, Power;
    FieldShape(gf);
    ghost var block := data[off..off + bs];
    sum := 0;
    HornerEmpty(Alpha(i));
    assert block[bs..] == [];
    for j := 0 to bs
      invariant sum == Horner(block[bs - j..], Alpha(i))
    {
      var c := data[off + bs - j - 1];
      assert block[bs - j - 1..] == [c] + block[bs - j..];
      HornerCons(c, block[bs - j..], Alpha(i));
      if c == 0 {
        MulZero(Power(Alpha(i), j));
        AddZero(sum);
        continue;
      }
      SyndromeTerm(gf, c, i, j);
      AddCommutes(sum, Mul(c, Power(Alpha(i), j)));
      sum := Add(sum, gf.exp[(gf.log[c] + i * j) % 255]);
    }
    assert block[0..] == block;
  }

  method BlockSyndromes(data: array<byte>, off: nat, bs: nat, npar: nat, s: array<byte>, gf: GaloisField)
    returns (nonzero: bool)
    requires IsGf256(gf) && off + bs <= data.Length && npar <= s.Length == MAX_POLY && s != data
    modifies s
    ensures forall i: nat :: i < npar ==> s[i] == Horner(data[off..off + bs], Alpha(i))
    ensures forall i :: npar <= i < MAX_POLY ==> s[i] == 0
    ensures nonzero <==> !IsCodeword(data[off..off + bs], npar)
  {
    hide Mul, Add, Alpha, IsGf256, Horner;
    nonzero := false;
    forall k | 0 <= k < MAX_POLY { s[k] := 0; }
    ghost var block := data[off..off + bs];
    for i := 0 to npar
      invariant data[off..off + bs] == block
      invariant forall k: nat :: k < i ==> s[k] == Horner(block, Alpha(k))
      invariant forall k :: i <= k < MAX_POLY ==> s[k] == 0
      invariant nonzero <==> exists k: nat :: k < i && s[k] != 0
    {
      s[i] := Syndrome(data, off, bs, i, gf);
      if s[i] != 0 {
        nonzero := true;
      }
    }
    if nonzero {
      var k: nat :| k < npar && s[k] != 0;
      assert Horner(block, Alpha(k)) != 0;
    }
  }

  /** The evaluator: the product of locator and shifted syndromes, cut off at `npar` terms. */
  method ElocPoly(omega: array<byte>, s: array<byte>, sigma: array<byte>, npar: nat, gf: GaloisField)
    requires IsGf256(gf) && omega.Length == s.Length == sigma.Length == MAX_POLY && npar < MAX_POLY
    requires omega != s && omega != sigma
    modifies omega
    ensures IsEvaluator(omega[..], sigma[..], s[..], npar)
  {
    hide Mul, Add, Alpha, IsGf256, Conv, Sum;
    FieldShape(gf);
    forall k | 0 <= k < MAX_POLY { omega[k] := 0; }
    ghost var sg, t := sigma[..], s[1..];
    EmptySum(sg, t);
    for i := 0 to npar
      invariant sigma[..] == sg && s[1..] == t
      invariant forall k :: 0 <= k < MAX_POLY ==> omega[k] == if k < npar then PartialConv(sg, t, k, i) else 0
    {
      var a := sigma[i];
      var log_a := gf.log[a];
      PartialConvStep(sg, t, i);
      if a == 0 {
        forall k ensures PartialConv(sg, t, k, i + 1) == PartialConv(sg, t, k, i) {
          MulZero(At(t, k - i));
          AddZero(PartialConv(sg, t, k, i));
        }
        continue;
      }
      forall k | k < i ensures PartialConv(sg, t, k, i + 1) == PartialConv(sg, t, k, i) {
        MulZero(a);
        AddZero(PartialConv(sg, t, k, i));
      }
      var j := 0;
      while j + 1 < MAX_POLY && i + j < npar
        invariant 0 <= j < MAX_POLY && i + j <= npar
        invariant sigma[..] == sg && s[1..] == t
        invariant forall k :: 0 <= k < MAX_POLY ==>
          omega[k] == if k >= npar then 0
                      else if k < i + j then PartialConv(sg, t, k, i + 1) else PartialConv(sg, t, k, i)
      {
        var b := s[j + 1];
        assert b == At(t, i + j - i);
        if b == 0 {
          MulZero(a);
          AddZero(PartialConv(sg, t, i + j, i));
        } else {
          TableProduct(gf, a, b);
          omega[i + j] := Add(omega[i + j], gf.exp[(log_a + gf.log[b]) % 255]);
        }
        j := j + 1;
      }
    }
    forall k | 0 <= k < npar ensures PartialConv(sg, t, k, npar) == Conv(sg, t, k) {
      PartialConvFull(sg, t, k, npar);
    }
  }

  /** The terms of a convolution below `n`. */
  function PartialConv(c: seq<byte>, s: seq<byte>, i: int, n: nat): byte {
    Sum(n, (k: nat) => Mul(At(c, k), At(s, i - k)))
  }

  lemma EmptySum(c: seq<byte>, s: seq<byte>)
    ensures forall k :: PartialConv(c, s, k, 0) == 0
  {
  }

  lemma PartialConvStep(c: seq<byte>, s: seq<byte>, n: nat)
    requires n < |c|
    ensures forall k :: PartialConv(c, s, k, n + 1) == Add(PartialConv(c, s, k, n), Mul(c[n], At(s, k - n)))
  {
    hide Mul, Add;
  }

  lemma PartialConvFull(c: seq<byte>, s: seq<byte>, k: nat, n: nat)
    requires k < n <= |c|
    ensures PartialConv(c, s, k, n) == Conv(c, s, k)
  {
    hide Mul, Add, Sum;
    var f := (i: nat) => Mul(At(c, i), At(s, k - i));
    forall i: nat | n <= i < |c| ensures f(i) == 0 {
      MulZero(At(c, i));
    }
    SumTruncate(n, |c|, f);
  }

  /** Block size, data words per block and number of blocks. */
  datatype RsParams = RsParams(bs: nat, dw: nat, ns: nat)

  /** What the search adds to the byte at place `j`. */
  function Correction(gf: GaloisField, sigma: seq<byte>, d: seq<byte>, om: seq<byte>, j: nat): byte
    requires gf.p == 255 && |gf.log| == 256 && |gf.exp| == 256 && j <= 255
    requires forall a: byte :: gf.log[a] <= 255
  {
    var xinv := gf.exp[255 - j];
    if Value(sigma, xinv) == 0
    then gf.exp[(255 - gf.log[Value(d, xinv)] + gf.log[Value(om, xinv)]) % 255]
    else 0
  }

  /** Within half the parity bytes the correction at every place is the error there. */
  lemma CorrectionIsError(
      gf: GaloisField, r: seq<byte>, w: seq<byte>, npar: nat, s: seq<byte>, sigma: seq<byte>, len: nat,
      d: seq<byte>, om: seq<byte>, j: nat)
    requires IsGf256(gf)
    requires |r| == |w| <= 255 && IsCodeword(w, npar) && 2 * Distance(r, w) <= npar
    requires |s| == |sigma| == |d| == |om| == MAX_POLY && npar < MAX_POLY
    requires forall i: nat :: i < npar ==> At(s, i) == Horner(r, Alpha(i))
    requires IsShortest(sigma, len, s, npar)
    requires npar > 0 && IsEvaluator(om, sigma, s, npar - 1) && IsDerivative(d, sigma)
    requires j < |r|
    ensures Add(r[|r| - 1 - j], Correction(gf, sigma, d, om, j)) == w[|r| - 1 - j]
  {
    hide Mul, Add, Alpha, Horner, Value, IsCodeword, IsShortest, IsEvaluator, IsDerivative;
    var a, b := r[|r| - 1 - j], w[|r| - 1 - j];
    var z := gf.exp[255 - j];
    InversePlace(j);
    Forney(r, w, npar, s, sigma, len, d, om, j, z);
    if a == b {
      AddZero(a);
    } else {
      var c := Correction(gf, sigma, d, om, j);
      TableQuotient(gf, Value(om, z), Value(d, z));
      MulCommutes(c, Value(d, z));
      MulCommutes(Add(a, b), Value(d, z));
      MulCancels(Value(d, z), c, Add(a, b));
      AddCommutes(a, b);
      AddCancels(b, a);
      AddCommutes(a, Add(a, b));
    }
  }

  lemma InversePlace(j: nat)
    requires j <= 255
    ensures Mul(Alpha(j), Alpha(255 - j)) == 1
  {
    AlphaAdds(j, 255 - j);
    AlphaPeriod(0);
  }

  /** The formal derivative of the locator. */
  method Derivative(sigma: array<byte>, sigma_deriv: array<byte>)
    requires sigma.Length == sigma_deriv.Length == MAX_POLY && sigma != sigma_deriv
    modifies sigma_deriv
    ensures IsDerivative(sigma_deriv[..], sigma[..])
  {
    forall k | 0 <= k < MAX_POLY { sigma_deriv[k] := 0; }
    var i := 0;
    while i + 1 < MAX_POLY
      invariant 0 <= i <= MAX_POLY && i % 2 == 0 && sigma[..] == old(sigma[..])
      invariant forall k :: 0 <= k < MAX_POLY ==>
        sigma_deriv[k] == if k < i && k % 2 == 0 then At(sigma[..], k + 1) else 0
    {
      sigma_deriv[i] := sigma[i + 1];
      i := i + 2;
    }
  }

  /** The search over all places of the block, correcting it on the way. */
  method ApplyCorrections(
      data: array<byte>, off: nat, bs: nat, gf: GaloisField,
      sigma: array<byte>, sigma_deriv: array<byte>, omega: array<byte>)
    requires IsGf256(gf) && bs <= 255 && off + bs <= data.Length
    requires sigma.Length == sigma_deriv.Length == omega.Length == MAX_POLY
    requires data != sigma && data != sigma_deriv && data != omega
    modifies data
    ensures forall k :: 0 <= k < data.Length && !(off <= k < off + bs) ==> data[k] == old(data[k])
    ensures forall j: nat :: j < bs ==>
      data[off + bs - 1 - j]
      == Add(old(data[off + bs - 1 - j]), Correction(gf, sigma[..], sigma_deriv[..], omega[..], j))
  {
    hide Mul, Add, Alpha, IsGf256, Value;
    FieldShape(gf);
    ghost var r := data[..];
    ghost var sg, d, om := sigma[..], sigma_deriv[..], omega[..];
    for i := 0 to bs
      invariant sigma[..] == sg && sigma_deriv[..] == d && omega[..] == om
      invariant forall k :: 0 <= k < data.Length && !(off + bs - i <= k < off + bs) ==> data[k] == r[k]
      invariant forall j: nat :: j < i ==>
        data[off + bs - 1 - j] == Add(r[off + bs - 1 - j], Correction(gf, sg, d, om, j))
    {
      var xinv := gf.exp[255 - i];
      var sigma_x := PolyEval(sigma, xinv, gf);
      if sigma_x == 0 {
        var sd_x := PolyEval(sigma_deriv, xinv, gf);
        var omega_x := PolyEval(omega, xinv, gf);
        var error := gf.exp[(255 - gf.log[sd_x] + gf.log[omega_x]) % 255];
        data[off + bs - i - 1] := Add(data[off + bs - i - 1], error);
      } else {
        AddZero(r[off + bs - 1 - i]);
      }
    }
  }

  /**
   * Corrects one block in place. Whatever the block, success means it is now a codeword; and a block within
   * npar / 2 bytes of a codeword becomes that codeword.
   */
  method CorrectBlock(data: array<byte>, off: nat, ecc: RsParams, gf: GaloisField) returns (err: DecodeError)
    requires IsGf256(gf) && ecc.dw <= ecc.bs <= 255 && ecc.bs - ecc.dw < MAX_POLY && off + ecc.bs <= data.Length
    modifies data
    ensures forall k :: 0 <= k < data.Length && !(off <= k < off + ecc.bs) ==> data[k] == old(data[k])
    ensures err == QUIRC_SUCCESS <==> IsCodeword(data[off..off + ecc.bs], ecc.bs - ecc.dw)
    ensures old(IsCodeword(data[off..off + ecc.bs], ecc.bs - ecc.dw)) ==> data[..] == old(data[..])
    ensures forall w: seq<byte> ::
      |w| == ecc.bs && IsCodeword(w, ecc.bs - ecc.dw)
      && 2 * Distance(old(data[off..off + ecc.bs]), w) <= ecc.bs - ecc.dw
      ==> err == QUIRC_SUCCESS && data[off..off + ecc.bs] == w
  {
    hide Mul, Add, Alpha, IsGf256, Horner, IsCodeword, IsShortest, IsEvaluator, IsDerivative, Distance, Correction;
    FieldShape(gf);
    var npar := ecc.bs - ecc.dw;
    var s, sigma := new byte[MAX_POLY], new byte[MAX_POLY];
    var sigma_deriv, omega := new byte[MAX_POLY], new byte[MAX_POLY];
    ghost var r := data[off..off + ecc.bs];

    var nonzero := BlockSyndromes(data, off, ecc.bs, npar, s, gf);
    if !nonzero {
      forall w: seq<byte> | |w| == ecc.bs && IsCodeword(w, npar) && 2 * Distance(r, w) <= npar ensures r == w {
        CodewordsApart(r, w, npar);
      }
      return QUIRC_SUCCESS;
    }
    NotCodeword(r, npar);
    ghost var st := s[..];
    ghost var len := BerlekampMassey(s, npar, gf, sigma);
    ghost var sg := sigma[..];
    Derivative(sigma, sigma_deriv);
    ghost var d := sigma_deriv[..];
    ElocPoly(omega, s, sigma, npar - 1, gf);
    ghost var om := omega[..];
    assert s[..] == st && sigma[..] == sg && sigma_deriv[..] == d && data[off..off + ecc.bs] == r;
    ghost var was := data[..];
    ApplyCorrections(data, off, ecc.bs, gf, sigma, sigma_deriv, omega);
    assert sigma[..] == sg && sigma_deriv[..] == d && omega[..] == om;

    ghost var c := data[off..off + ecc.bs];
    forall w: seq<byte> | |w| == ecc.bs && IsCodeword(w, npar) && 2 * Distance(r, w) <= npar ensures c == w {
      forall k | 0 <= k < ecc.bs ensures c[k] == w[k] {
        var j := ecc.bs - 1 - k;
        CorrectionIsError(gf, r, w, npar, st, sg, len, d, om, j);
        assert c[k] == data[off + ecc.bs - 1 - j] && r[k] == was[off + ecc.bs - 1 - j];
      }
    }
    nonzero := BlockSyndromes(data, off, ecc.bs, npar, s, gf);
    assert data[off..off + ecc.bs] == c;
    if nonzero {
      forall w: seq<byte> | |w| == ecc.bs && IsCodeword(w, npar) ensures 2 * Distance(r, w) > npar {
      }
      return QUIRC_ERROR_DATA_ECC;
    }
    return QUIRC_SUCCESS;
  }

  lemma NotCodeword(r: seq<byte>, npar: nat)
    requires !IsCodeword(r, npar)
    ensures npar > 0
  {
  }
}
