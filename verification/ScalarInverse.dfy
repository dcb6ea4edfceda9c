/** Inversion modulo L by square and multiply in Montgomery form (`crypto_x25519_inverse`). */
module ScalarInverse {
  import opened Arith
  import Bits
  import opened Radix
  import opened MultiWord
  import opened ByteWords
  import opened ModL
  import opened SlidingWindow

  function Power(a: nat, n: nat): nat {
    if n == 0 then 1 else a * Power(a, n - 1)
  }

  lemma PowerStep(a: nat, n: nat)
    ensures Power(a, n + 1) == a * Power(a, n)
  {
  }

  lemma {:induction false} PowerAdds(a: nat, m: nat, n: nat)
    ensures Power(a, m + n) == Power(a, m) * Power(a, n)
  {
    if m > 0 {
      PowerAdds(a, m - 1, n);
      PowerStep(a, m + n - 1);
      Assoc(a, Power(a, m - 1), Power(a, n));
    }
  }

  // ---------- the bits of a byte string ----------

  lemma {:induction false} ByteField(s: Scalar, n: nat, k: nat)
    requires n < 32 && k <= 8
    ensures Field(s, 8 * n, k) == s[n] % Bits.Pow2(k)
  {
    hide ScalarBit;
    if k > 0 {
      ByteField(s, n, k - 1);
      BitAt(s, n, k - 1);
      Remainder(s[n], Bits.Pow2(k - 1));
    }
  }

  lemma Remainder(b: nat, p: nat)
    requires p > 0
    ensures b % (2 * p) == b % p + if b / p % 2 == 1 then p else 0
  {
    var q, r := b / p, b % p;
    var h, t := q / 2, q % 2;
    Dist(p, 2 * h, t);
    Swap3(p, 2, h);
    DivUnique(b, 2 * p, h, p * t + r);
  }

  lemma ByteBits(s: Scalar, n: nat)
    requires n < 32
    ensures Field(s, 8 * n, 8) == s[n]
  {
    hide Field;
    ByteField(s, n, 8);
    TwoToTheEight();
  }

  lemma BitAt(s: Scalar, n: nat, k: nat)
    requires n < 32 && k < 8
    ensures ScalarBit(s, 8 * n + k) == s[n] / Bits.Pow2(k) % 2
  {
    assert (8 * n + k) / 8 == n && (8 * n + k) % 8 == k;
  }

  lemma {:induction false} LowIsBytes(s: Scalar, n: nat)
    requires n <= 32
    ensures Low(s, 8 * n) == Val(256, s[..n]) && Bits.Pow2(8 * n) == Pw(256, n)
  {
    hide Val, Pw, Low, Field, Bits.Pow2;
    if n == 0 {
      assert s[..0] == [];
      ValEmpty(256);
      PwZero(256);
      LowStart(s);
    } else {
      LowIsBytes(s, n - 1);
      FieldIsLow(s, 8 * (n - 1), 8);
      ByteBits(s, n - 1);
      ValNext(256, s, n - 1);
      PwStep(256, n - 1);
      Pow2Adds(8 * (n - 1), 8);
      TwoToTheEight();
      Swap2(Pw(256, n - 1), s[n - 1]);
    }
  }

  lemma LowStart(s: Scalar)
    ensures Low(s, 0) == 0 && Bits.Pow2(0) == 1
  {
  }

  lemma TwoToTheEight()
    ensures Bits.Pow2(8) == 256
  {
  }

  lemma Swap2(a: int, b: int)
    ensures a * b == b * a
  {
  }

  /** A scalar's bits and its bytes give the same number. */
  lemma NumberIsBytes(s: Scalar)
    ensures Number(s) == Val(256, s)
  {
    hide Low, Val;
    LowIsBytes(s, 32);
    assert s[..32] == s;
  }

  // ---------- the exponent L - 2 ----------

  function Lm2(): Scalar {
    [0xeb, 0xd3, 0xf5, 0x5c, 0x1a, 0x63, 0x12, 0x58, 0xd6, 0x9c, 0xf7, 0xa2, 0xde, 0xf9, 0xde, 0x14,
     0x00, 0x00, 0x00, 0x00, 0x00, 0x00, 0x00, 0x00, 0x00, 0x00, 0x00, 0x00, 0x00, 0x00, 0x00, 0x10]
  }

  lemma ExponentWords()
    ensures Val(256, Lm2()) == ORDER - 2
  {
    hide Val, Pw;
    var s := Lm2();
    LoadKeepsValue(s);
    var ws := LoadWords(s);
    assert ws[0] == 0x5cf5d3eb && ws[1] == 0x5812631a && ws[2] == 0xa2f79cd6 && ws[3] == 0x14def9de;
    assert ws[4] == 0 && ws[5] == 0 && ws[6] == 0 && ws[7] == 0x10000000;
    Val8(ws);
  }

  lemma ExponentBits()
    ensures Low(Lm2(), 253) == ORDER - 2
  {
    hide Low, Val;
    var s := Lm2();
    ExponentWords();
    NumberIsBytes(s);
    TopBits(s);
  }

  lemma TopBits(s: Scalar)
    requires s[31] == 0x10
    ensures Low(s, 253) == Number(s)
  {
    hide Bits.Pow2, Low;
    BitAt(s, 31, 5);
    BitAt(s, 31, 6);
    BitAt(s, 31, 7);
    SmallPowers();
    SlidingWindow.LowStep(s, 253);
    SlidingWindow.LowStep(s, 254);
    SlidingWindow.LowStep(s, 255);
  }

  lemma SmallPowers()
    ensures Bits.Pow2(5) == 32 && Bits.Pow2(6) == 64 && Bits.Pow2(7) == 128
  {
  }

  // ---------- Montgomery form ----------

  /** `m` is p in Montgomery form. */
  ghost predicate InForm(m: int, p: int) {
    Cong(m, p * R256, ORDER)
  }

  /** A Montgomery product of forms is the form of the product. */
  lemma FormTimes(m: int, p: int, n: int, q: int, u: int)
    requires InForm(m, p) && InForm(n, q) && Cong(u, m * n * R_INVERSE, ORDER)
    ensures InForm(u, p * q)
  {
    hide Cong;
    UnitR();
    CongMul(m, p * R256, n, q * R256, ORDER);
    CongScale(m * n, p * R256 * (q * R256), R_INVERSE, ORDER);
    CongTrans(u, m * n * R_INVERSE, p * R256 * (q * R256) * R_INVERSE, ORDER);
    CongScale(R256 * R_INVERSE, 1, p * q * R256, ORDER);
    FormProduct(p, q);
    CongTrans(u, p * q * R256 * (R256 * R_INVERSE), p * q * R256 * 1, ORDER);
  }

  lemma FormProduct(p: int, q: int)
    ensures p * R256 * (q * R256) * R_INVERSE == p * q * R256 * (R256 * R_INVERSE)
  {
    Assoc(p * R256, q, R256);
    assert p * R256 * q == p * q * R256;
  }

  lemma UnitR()
    ensures Cong(R256 * R_INVERSE, 1, ORDER)
  {
    MontgomeryConstants();
    CongMod(R256 * R_INVERSE, 1, ORDER);
  }

  /** Reducing a form once more leaves the plain number. */
  lemma LeaveForm(m: int, p: int, u: int)
    requires InForm(m, p) && Cong(u, m * R_INVERSE, ORDER)
    ensures Cong(u, p, ORDER)
  {
    hide Cong;
    UnitR();
    CongScale(m, p * R256, R_INVERSE, ORDER);
    CongTrans(u, m * R_INVERSE, p * R256 * R_INVERSE, ORDER);
    CongScale(R256 * R_INVERSE, 1, p, ORDER);
    Assoc(p, R256, R_INVERSE);
    CongTrans(u, p * (R256 * R_INVERSE), p * 1, ORDER);
  }

  function OneInForm(): seq<nat> {
    [0x8d98951d, 0xd6ec3174, 0x737dcf70, 0xc6ef5bf4, 0xfffffffe, 0xffffffff, 0xffffffff, 0x0fffffff]
  }

  lemma OneIsOne()
    ensures |OneInForm()| == 8 && Digits(W, OneInForm()) && Val(W, OneInForm()) < ORDER
    ensures InForm(Val(W, OneInForm()), 1)
  {
    hide Val;
    Val8(OneInForm());
    CongMod(Val(W, OneInForm()), R256, ORDER);
  }

  /** acc = acc x in Montgomery form, through a fresh double-width product. */
  method MontgomeryMultiply(acc: array<nat>, x: seq<nat>)
    requires acc.Length == 8 && |x| == 8 && Digits(W, acc[..]) && Digits(W, x)
    requires Val(W, acc[..]) < ORDER && Val(W, x) < ORDER
    modifies acc
    ensures Digits(W, acc[..]) && Val(W, acc[..]) < ORDER
    ensures Cong(Val(W, acc[..]), old(Val(W, acc[..])) * Val(W, x) * R_INVERSE, ORDER)
  {
    hide Val, Pw, Cong;
    var product := new nat[16](_ => 0);
    ValZero(W, product[..8]);
    Multiply(product, acc[..], x);
    ProductBound(Val(W, acc[..]), Val(W, x));
    Redc(acc, product);
  }

  lemma ProductBound(a: nat, b: nat)
    requires a < ORDER && b < ORDER
    ensures a * b < ORDER * R256
  {
    MulMono(a, b, ORDER);
    MulMono(ORDER, a, ORDER);
  }

  /** scalar 2^256 modulo L. */
  method ToForm(scalar: seq<nat>) returns (m_scl: seq<nat>)
    requires |scalar| == 32 && Digits(256, scalar)
    ensures |m_scl| == 8 && Digits(W, m_scl) && Val(W, m_scl) < ORDER && InForm(Val(W, m_scl), Val(256, scalar))
  {
    hide Val, Pw;
    var ws := LoadWords(scalar);
    LoadKeepsValue(scalar);
    var zeros: seq<nat> := seq(8, _ => 0);
    var tmp := zeros + ws;
    ValZero(W, zeros);
    ValConcat(W, zeros, ws);
    Powers();
    var xr := ModLWords(tmp);
    m_scl := xr[..8];
    CongMod(Val(W, m_scl), Val(W, tmp), ORDER);
    DivUnique(Val(W, m_scl), ORDER, 0, Val(W, m_scl));
  }

  /** The scalar to the power L - 2, modulo L. */
  method InvertScalar(scalar: seq<nat>) returns (inverse: seq<nat>)
    requires |scalar| == 32 && Digits(256, scalar)
    ensures |inverse| == 32 && Digits(256, inverse)
    ensures Val(256, inverse) == Power(Val(256, scalar), ORDER - 2) % ORDER
  {
    hide Val, Pw, Cong, Low, ScalarBit, Power, InForm, Bits.Pow2;
    var m_scl := ToForm(scalar);
    ghost var a := Val(256, scalar);
    ExponentBits();
    OneIsOne();
    var exponent, one := Lm2(), OneInForm();
    hide Lm2, OneInForm;
    var m_inv := new nat[8](i requires 0 <= i < 8 => one[i]);
    assert m_inv[..] == one;
    ghost var e: nat := 0;
    PowerZero(a);
    var i := 252;
    while i >= 0
      invariant -1 <= i <= 252
      invariant Digits(W, m_inv[..]) && Val(W, m_inv[..]) < ORDER
      invariant InForm(Val(W, m_inv[..]), Power(a, e))
      invariant e * Bits.Pow2(i + 1) + Low(exponent, i + 1) == ORDER - 2
    {
      ghost var m := Val(W, m_inv[..]);
      MontgomeryMultiply(m_inv, m_inv[..]);
      FormTimes(m, Power(a, e), m, Power(a, e), Val(W, m_inv[..]));
      PowerAdds(a, e, e);
      SlidingWindow.LowStep(exponent, i);
      Pow2Step(i);
      DoneDoubles(e, if ScalarBit(exponent, i) == 1 then 1 else 0, Bits.Pow2(i));
      e := 2 * e;
      if ScalarBit(exponent, i) == 1 {
        m := Val(W, m_inv[..]);
        MontgomeryMultiply(m_inv, m_scl);
        FormTimes(m, Power(a, e), Val(W, m_scl), a, Val(W, m_inv[..]));
        PowerStep(a, e);
        e := e + 1;
      }
      i := i - 1;
    }
    LowStart(exponent);
    ghost var m, w := Val(W, m_inv[..]), m_inv[..];
    var product := new nat[16](_ => 0);
    forall k | 0 <= k < 8 { product[k] := m_inv[k]; }
    ghost var zeros: seq<nat> := seq(8, _ => 0);
    assert product[..] == w + zeros;
    ValConcat(W, w, zeros);
    ValZero(W, zeros);
    ProductBound(m, 1);
    assert Val(W, product[..]) == m;
    Redc(m_inv, product);
    LeaveForm(m, Power(a, e), Val(W, m_inv[..]));
    CongSmall(Val(W, m_inv[..]), Power(a, e), ORDER);
    StoreKeepsValue(m_inv[..]);
    inverse := StoreWords(m_inv[..]);
  }

  lemma PowerZero(a: nat)
    ensures Power(a, 0) == 1
  {
  }

  /** Where Fermat's theorem applies, that power is the inverse. */
  lemma InverseByFermat(a: nat, b: nat)
    requires Power(a, ORDER - 1) % ORDER == 1 && b == Power(a, ORDER - 2) % ORDER
    ensures a * b % ORDER == 1
  {
    hide Power, Cong;
    PowerStep(a, ORDER - 2);
    CongMod(b, Power(a, ORDER - 2), ORDER);
    DivUnique(b, ORDER, 0, b);
    CongScale(b, Power(a, ORDER - 2), a, ORDER);
    CongMod(a * b, Power(a, ORDER - 1), ORDER);
  }
}
