/** Reduction modulo the order L of the Ed25519 group: Barrett, Montgomery, and inversion (`monocypher.c`). */
module ModL {
  import opened Arith
  import opened Radix
  import opened MultiWord
  import opened ByteWords

  /** The prime order 2^252 + 27742317777372353535851937790883648493. */
  const ORDER := 0x1000000000000000000000000000000014def9dea2f79cd65812631a5cf5d3ed

  const R256 := 0x1_0000000000000000000000000000000000000000000000000000000000000000

  const R512 := 0x1_00000000000000000000000000000000000000000000000000000000000000000000000000000000000000000000000000000000000000000000000000000000

  /** floor(2^512 / L). */
  const BARRETT := 0xfffffffffffffffffffffffffffffffeb2106215d086329a7ed9ce5a30a2c131b

  function L(): seq<nat> {
    [0x5cf5d3ed, 0x5812631a, 0xa2f79cd6, 0x14def9de, 0x00000000, 0x00000000, 0x00000000, 0x10000000]
  }

  lemma Val8(s: seq<nat>)
    requires |s| == 8
    ensures Val(W, s) == s[0] + s[1] * 0x1_00000000 + s[2] * 0x1_00000000_00000000
                         + s[3] * 0x1_00000000_00000000_00000000 + s[4] * 0x1_00000000_00000000_00000000_00000000
                         + s[5] * 0x1_00000000_00000000_00000000_00000000_00000000
                         + s[6] * 0x1_00000000_00000000_00000000_00000000_00000000_00000000
                         + s[7] * 0x1_00000000_00000000_00000000_00000000_00000000_00000000_00000000
  {
    hide Val, Pw;
    WordPowers();
    RowStart(s, s);
    ValNext(W, s, 0);
    ValNext(W, s, 1);
    ValNext(W, s, 2);
    ValNext(W, s, 3);
    ValNext(W, s, 4);
    ValNext(W, s, 5);
    ValNext(W, s, 6);
    ValNext(W, s, 7);
    assert s[..8] == s && s[..0] == [];
  }

  lemma OrderWords()
    ensures Val(W, L()) == ORDER && Digits(W, L()) && |L()| == 8
  {
    hide Val;
    Val8(L());
  }

  lemma Powers()
    ensures Pw(W, 8) == R256 && Pw(W, 16) == R512
  {
  }

  // ---------- the conditional subtraction ----------

  /** Whether a 256-bit number is at least L: the carry of x + ~L + 1. */
  method IsAboveL(x: array<nat>, off: nat) returns (above: bool)
    requires off + 8 <= x.Length && Digits(W, x[..])
    ensures above <==> Val(W, x[off..off + 8]) >= ORDER
  {
    hide Val, Pw, Digit;
    ghost var y := x[off..off + 8];
    OrderWords();
    var l := L();
    hide L;
    var carry: nat := 1;
    RowStart(y, l);
    PwZero(W);
    ghost var low: nat := 0;
    for i := 0 to 8
      invariant carry <= 1 && 0 <= low < Pw(W, i)
      invariant low + carry * Pw(W, i) == Val(W, y[..i]) + Pw(W, i) - Val(W, l[..i])
    {
      PwStep(W, i);
      ValNext(W, y, i);
      ValNext(W, l, i);
      ComplementStep(low, carry, Val(W, y[..i]), Val(W, l[..i]), x[off + i], l[i], Pw(W, i), Pw(W, i + 1));
      carry := carry + x[off + i] + (W - 1 - l[i]);
      low := low + Digit(carry % W, Pw(W, i));
      carry := carry / W;
    }
    assert y[..8] == y && l[..8] == l;
    above := carry == 1;
  }

  function Digit(d: nat, pw: nat): int { d * pw }

  /** One digit of x + ~l + 1. */
  lemma ComplementStep(low: nat, carry: nat, vy: int, vl: int, x: nat, l: nat, pw: nat, next: nat)
    requires next == W * pw && low < pw && carry <= 1 && x < W && l < W
    requires low + carry * pw == vy + pw - vl
    ensures var t := carry + x + (W - 1 - l);
            && t / W <= 1 && 0 <= low + Digit(t % W, pw) < next
            && (low + Digit(t % W, pw)) + t / W * next == (vy + x * pw) + next - (vl + l * pw)
  {
    var t := carry + x + (W - 1 - l);
    ChainStep(low, carry, vy + pw - vl, x, W - 1 - l, pw, next);
    StaysBelow(low, t % W, pw);
    MulNonneg(t % W, pw);
    Dist(pw, W - 1, l);
    Dist(pw, W, 1);
  }

  lemma StaysBelow(low: nat, d: nat, pw: nat)
    requires low < pw && d < W
    ensures low + d * pw < W * pw
  {
    MulMono(pw, d, W - 1);
    Dist(pw, W, 1);
  }

  /** r = x, less L when x is at least L; `r` may be the array `x` itself. */
  method RemoveL(r: array<nat>, x: array<nat>, off: nat)
    requires r.Length >= 8 && off + 8 <= x.Length && Digits(W, x[..]) && Digits(W, r[..]) && (r == x ==> off == 0)
    requires Val(W, x[off..off + 8]) < 2 * ORDER
    modifies r
    ensures Digits(W, r[..]) && Val(W, r[..8]) == old(Val(W, x[off..off + 8])) % ORDER
    ensures forall k :: 8 <= k < r.Length ==> r[k] == old(r[k])
  {
    hide Val, Pw, Digit;
    ghost var y := x[off..off + 8];
    OrderWords();
    var l := L();
    hide L;
    var above := IsAboveL(x, off);
    var carry: nat := if above then 1 else 0;
    RowStart(y, l);
    PwZero(W);
    assert r[..0] == [];
    for i := 0 to 8
      invariant Digits(W, r[..]) && carry <= 1
      invariant forall k :: i <= k < 8 ==> x[off + k] == y[k]
      invariant forall k :: 8 <= k < r.Length ==> r[k] == old(r[k])
      invariant Val(W, r[..i]) + carry * Pw(W, i)
             == Val(W, y[..i]) + if above then Pw(W, i) - Val(W, l[..i]) else 0
    {
      ghost var done := r[..i];
      var d := if above then W - 1 - l[i] else 0;
      PwStep(W, i);
      ChainStep(Val(W, done), carry, Val(W, y[..i]) + (if above then Pw(W, i) - Val(W, l[..i]) else 0),
                y[i], d, Pw(W, i), Pw(W, i + 1));
      Dist(Pw(W, i), W - 1, l[i]);
      Dist(Pw(W, i), W, 1);
      carry := carry + x[off + i] + d;
      ghost var e := carry % W;
      r[i] := carry % W;
      carry := carry / W;
      assert r[..i + 1] == done + [e];
      ValAppend(W, done, e);
      ValNext(W, y, i);
      ValNext(W, l, i);
    }
    assert y[..8] == y && l[..8] == l;
    ValBound(W, y);
    ValBound(W, r[..8]);
    Reduced(Val(W, r[..8]), Val(W, y), carry, Pw(W, 8), above);
  }

  lemma Reduced(r: nat, x: nat, carry: nat, pw: nat, above: bool)
    requires carry <= 1 && r < pw && x < pw && x < 2 * ORDER && (above <==> x >= ORDER)
    requires r + carry * pw == x + if above then pw - ORDER else 0
    ensures r == x % ORDER
  {
    if above {
      DivUnique(x, ORDER, 1, x - ORDER);
    } else {
      DivUnique(x, ORDER, 0, x);
    }
  }

  // ---------- Barrett ----------

  /** With r = floor(b / l), floor(x r / b) falls short of x / l by less than two. */
  lemma BarrettBounds(x: nat, q: nat, r: nat, l: nat, b: nat)
    requires b > 0 && l > 0 && x < b && q == x * r / b && r * l <= b < (r + 1) * l
    ensures 0 <= x - q * l < 2 * l
  {
    var y := x * r;
    FloorBounds(y, b);
    ProductBelow(x, y, r, l, b);
    ProductAbove(x, y, r, l, b);
    QuotientTimes(y, q, l, b);
    CompareByFactor(b, x, q * l, l, y * l);
  }

  lemma FloorBounds(y: nat, b: nat)
    requires b > 0
    ensures y / b * b <= y < y / b * b + b
  {
  }

  lemma CompareByFactor(b: nat, x: nat, ql: nat, l: nat, yl: nat)
    requires b > 0 && b * ql <= yl <= b * x && b * x < yl + b * l && yl < b * ql + b * l
    ensures 0 <= x - ql < 2 * l
  {
    if ql > x { MulGap(b, x, ql); }
    if x >= ql + 2 * l {
      MulMono(b, ql + 2 * l, x);
      Dist(b, ql, 2 * l);
    }
  }

  lemma ProductBelow(x: nat, y: nat, r: nat, l: nat, b: nat)
    requires y == x * r && r * l <= b
    ensures y * l <= b * x
  {
    Assoc(x, r, l);
    MulMono(x, r * l, b);
  }

  lemma ProductAbove(x: nat, y: nat, r: nat, l: nat, b: nat)
    requires y == x * r && b < (r + 1) * l && x < b && l > 0
    ensures b * x < y * l + b * l
  {
    Dist(l, r, 1);
    MulMono(x, b, r * l + l);
    Dist(x, r * l, l);
    Assoc(x, r, l);
    MulGap(l, x, b);
  }

  lemma QuotientTimes(y: nat, q: nat, l: nat, b: nat)
    requires q * b <= y < q * b + b && l > 0
    ensures b * (q * l) <= y * l < b * (q * l) + b * l
  {
    MulMono(l, q * b, y);
    MulGap(l, y, q * b + b);
    Dist(l, q * b, b);
    Swap3(l, q, b);
    Swap3(b, q, l);
  }

  /** The literal powers of the word size. */
  lemma WordPowers()
    ensures Pw(W, 0) == 1 && Pw(W, 1) == 0x1_00000000 && Pw(W, 2) == 0x1_00000000_00000000
    ensures Pw(W, 3) == 0x1_00000000_00000000_00000000 && Pw(W, 4) == 0x1_00000000_00000000_00000000_00000000
    ensures Pw(W, 5) == 0x1_00000000_00000000_00000000_00000000_00000000
    ensures Pw(W, 6) == 0x1_00000000_00000000_00000000_00000000_00000000_00000000
    ensures Pw(W, 7) == 0x1_00000000_00000000_00000000_00000000_00000000_00000000_00000000
  {
  }

  function BarrettWords(): seq<nat> {
    [0x0a2c131b, 0xed9ce5a3, 0x086329a7, 0x2106215d, 0xffffffeb, 0xffffffff, 0xffffffff, 0xffffffff, 0xf]
  }

  lemma BarrettConstant()
    ensures Val(W, BarrettWords()) == BARRETT && Digits(W, BarrettWords()) && |BarrettWords()| == 9
  {
    hide Val, Pw;
    var s := BarrettWords();
    Val8(s[..8]);
    Powers();
    assert s == s[..8] + [s[8]];
    ValAppend(W, s[..8], s[8]);
  }

  /** Full reduction of a 512-bit number. */
  method ModLWords(x: seq<nat>) returns (reduced: array<nat>)
    requires |x| == 16 && Digits(W, x)
    ensures fresh(reduced) && reduced.Length == 25 && Digits(W, reduced[..])
    ensures Val(W, reduced[..8]) == Val(W, x) % ORDER
  {
    hide Val, Pw, Cong;
    BarrettConstant();
    var r := BarrettWords();
    hide BarrettWords;
    var xr := new nat[25](_ => 0);
    assert Digits(W, xr[..]);
    ValZero(W, xr[..16]);
    Multiply(xr, r, x);
    ghost var product := xr[..];
    Powers();
    BarrettFactor();
    HighHalf(product, x, BARRETT, ORDER, 16);
    assert product[16..] == product[16..25];
    // the low half of the quotient times L
    forall k | 0 <= k < 8 { xr[k] := 0; }
    OrderWords();
    var l := L();
    hide L;
    var q := xr[16..24];
    MultiplyLow(xr, q, l);
    ghost var ql := Val(W, xr[..8]);
    SubtractFrom(x, xr, 8);
    ValBound(W, xr[..8]);
    BarrettRemainder(x, product, q, ql, Val(W, xr[..8]));
    assert xr[0..0 + 8] == xr[..8];
    RemoveL(xr, xr, 0);
    reduced := xr;
  }

  /** Cutting the product of `x` and r = floor(B^n / l) behind n words leaves the Barrett quotient of x and l. */
  lemma HighHalf(product: seq<nat>, x: seq<nat>, r: nat, l: nat, n: nat)
    requires n == |x| <= |product| && Digits(W, product) && Digits(W, x)
    requires Val(W, product) == r * Val(W, x) && r * l <= Pw(W, n) < (r + 1) * l
    ensures var q := Val(W, product[n..]); 0 <= Val(W, x) - q * l < 2 * l
  {
    hide Val, Pw;
    ValBound(W, x);
    ValSplit(W, product, n, |product|);
    assert product[..|product|] == product && product[n..|product|] == product[n..];
    ValBound(W, product[..n]);
    BarrettSplit(Val(W, x), Val(W, product[n..]), Val(W, product[..n]), r, l, Pw(W, n));
  }

  lemma BarrettSplit(x: nat, q: nat, low: nat, r: nat, l: nat, b: nat)
    requires x < b && low < b && r * x == low + b * q && r * l <= b < (r + 1) * l
    ensures 0 <= x - q * l < 2 * l
  {
    DivUnique(x * r, b, q, low);
    BarrettBounds(x, q, r, l, b);
  }

  lemma BarrettFactor()
    ensures BARRETT * ORDER <= R512 < (BARRETT + 1) * ORDER
  {
  }

  lemma BarrettRemainder(x: seq<nat>, product: seq<nat>, q: seq<nat>, ql: nat, d: nat)
    requires |product| == 25 && |x| == 16 && Digits(W, x) && q == product[16..24]
    requires 0 <= Val(W, x) - Val(W, product[16..25]) * ORDER < 2 * ORDER
    requires Cong(ql, Val(W, q) * ORDER, Pw(W, 8))
    requires Cong(d, Val(W, x[..8]) - ql, Pw(W, 8)) && d < Pw(W, 8)
    ensures d == Val(W, x) - Val(W, product[16..25]) * ORDER
  {
    hide Val, Pw, Cong;
    Powers();
    var big := Val(W, product[16..25]);
    // big == q + (top word) 2^256
    assert product[16..25] == q + [product[24]];
    ValAppend(W, q, product[24]);
    CongBy(big, Val(W, q), R256, product[24]);
    CongScale(big, Val(W, q), ORDER, R256);
    CongSym(big * ORDER, Val(W, q) * ORDER, R256);
    CongTrans(ql, Val(W, q) * ORDER, big * ORDER, R256);
    // x == its low half modulo 2^256
    ValSplit(W, x, 8, 16);
    assert x[..16] == x;
    CongBy(Val(W, x[..8]), Val(W, x), R256, 0 - Val(W, x[8..16]));
    CongScale(ql, big * ORDER, -1, R256);
    CongAdd(Val(W, x[..8]), Val(W, x), 0 - ql, 0 - big * ORDER, R256);
    CongTrans(d, Val(W, x[..8]) - ql, Val(W, x) - big * ORDER, R256);
    var rest := Val(W, x) - big * ORDER;
    CongSmall(d, rest, R256);
    DivUnique(rest, R256, 0, rest);
  }

  // ---------- on byte strings ----------

  method EddsaReduce(expanded: seq<nat>) returns (reduced: seq<nat>)
    requires |expanded| == 64 && Digits(256, expanded)
    ensures |reduced| == 32 && Digits(256, reduced) && Val(256, reduced) == Val(256, expanded) % ORDER
  {
    hide Val, Pw;
    LoadKeepsValue(expanded);
    var xr := ModLWords(LoadWords(expanded));
    StoreKeepsValue(xr[..8]);
    reduced := StoreWords(xr[..8]);
  }

  /** (a b + c) mod L, for all 256-bit a, b and c. */
  method EddsaMulAdd(a: seq<nat>, b: seq<nat>, c: seq<nat>) returns (r: seq<nat>)
    requires |a| == |b| == |c| == 32 && Digits(256, a) && Digits(256, b) && Digits(256, c)
    ensures |r| == 32 && Digits(256, r) && Val(256, r) == (Val(256, a) * Val(256, b) + Val(256, c)) % ORDER
  {
    hide Val, Pw, LoadWords, StoreWords;
    LoadKeepsValue(a);
    LoadKeepsValue(b);
    LoadKeepsValue(c);
    var A, B, C := LoadWords(a), LoadWords(b), LoadWords(c);
    var p := new nat[16](i => 0);
    forall i | 0 <= i < 8 { p[i] := C[i]; }
    assert p[..8] == C;
    Multiply(p, A, B);
    var xr := ModLWords(p[..]);
    StoreKeepsValue(xr[..8]);
    r := StoreWords(xr[..8]);
  }

  // ---------- Montgomery ----------

  /** -1 / L modulo 2^256. */
  const MONTGOMERY := 0x9db6c6f26fe9183614e75438ffa36beab1a206f2fdba84ffd2b51da312547e1b

  /** 1 / 2^256 modulo L. */
  const R_INVERSE := 0x9db6c6f26fe9183614e75438ffa36beb7f5c66a973f754cc766cca43d5f0d24

  function MontgomeryWords(): seq<nat> {
    [0x12547e1b, 0xd2b51da3, 0xfdba84ff, 0xb1a206f2, 0xffa36bea, 0x14e75438, 0x6fe91836, 0x9db6c6f2]
  }

  lemma MontgomeryConstants()
    ensures |MontgomeryWords()| == 8 && Digits(W, MontgomeryWords()) && Val(W, MontgomeryWords()) == MONTGOMERY
    ensures (MONTGOMERY * ORDER + 1) % R256 == 0 && (R256 * R_INVERSE - 1) % ORDER == 0
  {
    hide Val;
    Val8(MontgomeryWords());
  }

  /** With s = x k modulo m and k l = -1, the sum x + s l is a multiple of m. */
  lemma Divisible(x: int, s: int, k: int, l: int, m: int)
    requires m > 0 && (k * l + 1) % m == 0 && Cong(s, x * k, m)
    ensures Cong(x + s * l, 0, m)
  {
    hide Cong;
    CongScale(s, x * k, l, m);
    CongMod(k * l + 1, 0, m);
    CongScale(k * l + 1, 0, x, m);
    CongRefl(x, m);
    CongAdd(x, x, s * l, x * k * l, m);
    Dist(x, k * l, 1);
    Assoc(x, k, l);
    CongTrans(x + s * l, x + x * k * l, 0, m);
  }

  /** Dividing by R = 2^256 modulo L, on multiples of R. */
  lemma Quotient(x: int, s: int, u: int)
    requires x + s * ORDER == u * R256
    ensures Cong(u, x * R_INVERSE, ORDER)
  {
    hide Cong;
    MontgomeryConstants();
    CongMod(R256 * R_INVERSE, 1, ORDER);
    CongScale(R256 * R_INVERSE, 1, u, ORDER);
    CongSym(u * (R256 * R_INVERSE), u * 1, ORDER);
    CongBy(u * (R256 * R_INVERSE), x * R_INVERSE, ORDER, s * R_INVERSE);
    CongTrans(u, u * (R256 * R_INVERSE), x * R_INVERSE, ORDER);
  }

  /** u = x / 2^256 modulo L, fully reduced, for every x below L 2^256. */
  method Redc(u: array<nat>, x: array<nat>)
    requires u.Length == 8 && x.Length == 16 && u != x && Digits(W, u[..]) && Digits(W, x[..])
    requires Val(W, x[..]) < ORDER * R256
    modifies u
    ensures Digits(W, u[..]) && Val(W, u[..]) < ORDER
    ensures Cong(Val(W, u[..]), Val(W, x[..]) * R_INVERSE, ORDER)
  {
    hide Val, Pw, Cong;
    MontgomeryConstants();
    Powers();
    var k := MontgomeryWords();
    hide MontgomeryWords;
    ghost var y := x[..];
    var s := new nat[8](_ => 0);
    MultiplyLow(s, x[..8], k);
    ghost var sv := Val(W, s[..8]);
    assert s[..8] == s[..];
    ValBound(W, s[..]);
    OrderWords();
    var l := L();
    hide L;
    var t := new nat[16](_ => 0);
    ValZero(W, t[..8]);
    Multiply(t, s[..], l);
    AddWords(t, x);
    Powers();
    LowWordsVanish(y, sv, t[..], MONTGOMERY, ORDER, 8, R256);
    ghost var high := t[8..16];
    assert t[..][8..] == high;
    assert t[8..8 + 8] == high;
    RemoveL(u, t, 8);
    assert u[..8] == u[..];
    ReducedQuotient(Val(W, y), sv, Val(W, high), Val(W, u[..]));
  }

  /** With s = x k modulo m = B^n and k l = -1, the lower n words of t = x + s l are zero, and the rest is the quotient. */
  lemma LowWordsVanish(x: seq<nat>, s: nat, t: seq<nat>, k: nat, l: nat, n: nat, m: nat)
    requires |x| == |t| == n + n && Digits(W, x) && Digits(W, t) && m == Pw(W, n) > 0
    requires s < m && Val(W, x) < l * m && (k * l + 1) % m == 0
    requires Cong(s, Val(W, x[..n]) * k, m) && Val(W, t) == s * l + Val(W, x)
    ensures Val(W, x) + s * l == Val(W, t[n..]) * m && Val(W, t[n..]) < 2 * l
  {
    hide Val, Pw, Cong;
    ValSplit(W, x, n, n + n);
    assert x[..n + n] == x;
    Divisible(Val(W, x[..n]), s, k, l, m);
    CongBy(Val(W, x) + s * l, Val(W, x[..n]) + s * l, m, Val(W, x[n..n + n]));
    CongTrans(Val(W, x) + s * l, Val(W, x[..n]) + s * l, 0, m);
    ValSplit(W, t, n, n + n);
    assert t[..n + n] == t && t[n..n + n] == t[n..];
    ValBound(W, t[..n]);
    CongBy(Val(W, t[..n]), Val(W, t), m, 0 - Val(W, t[n..]));
    CongTrans(Val(W, t[..n]), Val(W, t), 0, m);
    CongSmall(Val(W, t[..n]), 0, m);
    HighIsSmall(Val(W, x), s, Val(W, t[n..]), l, m);
  }

  lemma HighIsSmall(x: nat, s: nat, high: nat, l: nat, m: nat)
    requires s < m && x < l * m && x + s * l == high * m
    ensures high < 2 * l
  {
    MulMono(l, s, m);
    if high >= 2 * l { MulMono(m, 2 * l, high); }
  }

  lemma ReducedQuotient(x: nat, s: nat, high: nat, u: nat)
    requires x + s * ORDER == high * R256 && u == high % ORDER
    ensures u < ORDER && Cong(u, x * R_INVERSE, ORDER)
  {
    hide Cong;
    Quotient(x, s, high);
    CongBy(u, high, ORDER, 0 - high / ORDER);
    CongTrans(u, high, x * R_INVERSE, ORDER);
  }
}
