/** The Poly1305 authenticator (`monocypher.c`; RFC 8439, section 2.5). */
module Poly1305 {
  import opened Arith
  import opened Radix
  import opened ByteWords
  import opened Streams

  /** 2^130 - 5. */
  const P := 0x3_ffffffff_ffffffff_ffffffff_fffffffb

  const W2 := 0x1_00000000_00000000
  const W3 := 0x1_00000000_00000000_00000000
  const W4 := 0x1_00000000_00000000_00000000_00000000

  // ---------- one block ----------

  /** The number held by the five words of the accumulator. */
  function Hash5(h: seq<nat>): nat
    requires |h| == 5
  {
    h[0] + h[1] * W + h[2] * W2 + h[3] * W3 + h[4] * W4
  }

  function Key4(r: seq<nat>): nat
    requires |r| == 4
  {
    r[0] + r[1] * W + r[2] * W2 + r[3] * W3
  }

  /** The clamped key: 28 bits a word, the upper three words multiples of four. */
  predicate Clamped(r: seq<nat>) {
    && |r| == 4 && r[0] <= 0x0fffffff
    && (forall i :: 1 <= i < 4 ==> r[i] <= 0x0ffffffc && r[i] % 4 == 0)
  }

  /** Between blocks the accumulator is at most 5 * 2^128 - 1. */
  predicate Reduced(h: seq<nat>) {
    |h| == 5 && h[4] <= 4 && forall i :: 0 <= i < 4 ==> h[i] < W
  }

  function Product(a: nat, b: nat): nat { MulNonneg(a, b); a * b }

  /** One column of the product: each summand of h + c times one plain or folded key word. */
  function Dot(s: seq<nat>, k: seq<nat>): nat
    requires |s| == |k|
    decreases |s|
  {
    if s == [] then 0
    else var n := |s| - 1; Dot(s[..n], k[..n]) + Product(s[n], k[n])
  }

  lemma DotStep(s: seq<nat>, k: seq<nat>, n: nat)
    requires |s| == |k| && n < |s|
    ensures Dot(s[..n + 1], k[..n + 1]) == Dot(s[..n], k[..n]) + Product(s[n], k[n])
  {
    hide Product;
    assert s[..n + 1][..n] == s[..n] && k[..n + 1][..n] == k[..n];
  }

  lemma DotFive(s: seq<nat>, k: seq<nat>)
    requires |s| == |k| == 5
    ensures Dot(s, k) == Product(s[0], k[0]) + Product(s[1], k[1]) + Product(s[2], k[2]) + Product(s[3], k[3]) + Product(s[4], k[4])
  {
    hide Product;
    DotStep(s, k, 0);
    DotStep(s, k, 1);
    DotStep(s, k, 2);
    DotStep(s, k, 3);
    DotStep(s, k, 4);
    assert Dot(s[..0], k[..0]) == 0;
    hide Dot;
    assert s[..5] == s && k[..5] == k;
  }

  /** The products of one summand with the parts of the key, written as 4 q + t. */
  function RowValue(p: seq<int>): int
    requires |p| == 5
  {
    4 * p[0] + p[4] + 4 * p[1] * W + 4 * p[2] * W2 + 4 * p[3] * W3
  }

  /** Folding the products above 2^128 back, using 2^130 = 5 modulo P; the rows hold the products. */
  lemma FoldedRows(a: seq<int>, b: seq<int>, c: seq<int>, d: seq<int>, e: seq<int>, x0: int, x1: int, x2: int, x3: int, x4: int, y: int)
    requires |a| == |b| == |c| == |d| == |e| == 5
    requires x0 == 4 * a[0] + a[4] + 5 * b[3] + 5 * c[2] + 5 * d[1] + 5 * e[0]
    requires x1 == 4 * a[1] + 4 * b[0] + b[4] + 5 * c[3] + 5 * d[2] + 5 * e[1]
    requires x2 == 4 * a[2] + 4 * b[1] + 4 * c[0] + c[4] + 5 * d[3] + 5 * e[2]
    requires x3 == 4 * a[3] + 4 * b[2] + 4 * c[1] + 4 * d[0] + d[4] + 5 * e[3] && x4 == e[4]
    requires y == RowValue(a) + RowValue(b) * W + RowValue(c) * W2 + RowValue(d) * W3 + RowValue(e) * W4
    ensures Cong(x0 + x1 * W + x2 * W2 + x3 * W3 + x4 * W4, y, P)
  {
    hide Cong;
    var k := b[3] + c[2] + d[1] + e[0] + (c[3] + d[2] + e[1]) * W + (d[3] + e[2]) * W2 + e[3] * W3;
    CongBy(x0 + x1 * W + x2 * W2 + x3 * W3 + x4 * W4, y, P, 0 - k);
  }

  function Row(s: nat, q: seq<nat>, t: nat): (p: seq<int>)
    requires |q| == 4
    ensures |p| == 5
  {
    [Product(s, q[0]), Product(s, q[1]), Product(s, q[2]), Product(s, q[3]), Product(s, t)]
  }

  lemma RowIs(s: nat, q: seq<nat>, t: nat, kv: nat)
    requires |q| == 4 && kv == 4 * Key4(q) + t
    ensures RowValue(Row(s, q, t)) == s * kv
  {
    Dist(s, 4 * Key4(q), t);
    assert s * (4 * Key4(q)) == 4 * (s * q[0]) + 4 * (s * q[1]) * W + 4 * (s * q[2]) * W2 + 4 * (s * q[3]) * W3;
  }

  lemma Scaled(s: nat, q: nat, t: nat)
    ensures Product(s, 4 * q + t) == 4 * Product(s, q) + Product(s, t)
    ensures Product(s, 4 * q) == 4 * Product(s, q) && Product(s, 5 * q) == 5 * Product(s, q)
  {
  }

  lemma Columns(s: seq<nat>, hv: nat, r: nat)
    requires |s| == 5 && hv == Hash5(s)
    ensures hv * r == s[0] * r + (s[1] * r) * W + (s[2] * r) * W2 + (s[3] * r) * W3 + (s[4] * r) * W4
  {
  }

  lemma Val5(s: seq<nat>)
    requires |s| == 5
    ensures Val(W, s) == Hash5(s)
  {
    hide Val, Pw;
    Val4(s[..4]);
    ValNext(W, s, 4);
    assert s[..5] == s;
    Powers4();
  }

  lemma ProductOfRows(s: seq<nat>, q: seq<nat>, t: nat, hv: nat, kv: nat)
    requires |s| == 5 && |q| == 4 && hv == Val(W, s) && kv == 4 * Val(W, q) + t
    ensures Product(hv, kv) == RowValue(Row(s[0], q, t)) + RowValue(Row(s[1], q, t)) * W + RowValue(Row(s[2], q, t)) * W2
                       + RowValue(Row(s[3], q, t)) * W3 + RowValue(Row(s[4], q, t)) * W4
  {
    hide Val, Row, RowValue;
    Val5(s);
    Val4(q);
    Columns(s, hv, kv);
    RowIs(s[0], q, t, kv); RowIs(s[1], q, t, kv); RowIs(s[2], q, t, kv); RowIs(s[3], q, t, kv); RowIs(s[4], q, t, kv);
  }

  /** The columns, folded keys and all, add up to the product modulo P. */
  lemma Folded(s: seq<nat>, q: seq<nat>, t: nat, hv: nat, kv: nat, x0: nat, x1: nat, x2: nat, x3: nat, x4: nat)
    requires |s| == 5 && |q| == 4 && hv == Val(W, s) && kv == 4 * Val(W, q) + t
    requires x0 == Dot(s, [4 * q[0] + t, 5 * q[3], 5 * q[2], 5 * q[1], 5 * q[0]])
    requires x1 == Dot(s, [4 * q[1], 4 * q[0] + t, 5 * q[3], 5 * q[2], 5 * q[1]])
    requires x2 == Dot(s, [4 * q[2], 4 * q[1], 4 * q[0] + t, 5 * q[3], 5 * q[2]])
    requires x3 == Dot(s, [4 * q[3], 4 * q[2], 4 * q[1], 4 * q[0] + t, 5 * q[3]])
    requires x4 == Product(s[4], t)
    ensures Cong(x0 + x1 * W + x2 * W2 + x3 * W3 + x4 * W4, hv * kv, P)
  {
    hide Cong, Val, Dot, RowValue, Product;
    var a, b, c, d, e := Row(s[0], q, t), Row(s[1], q, t), Row(s[2], q, t), Row(s[3], q, t), Row(s[4], q, t);
    ProductOfRows(s, q, t, hv, kv);
    FirstColumn(s, q, t);
    SecondColumn(s, q, t);
    ThirdColumn(s, q, t);
    FourthColumn(s, q, t);
    FoldedRows(a, b, c, d, e, x0, x1, x2, x3, x4, Product(hv, kv));
    ProductIs(hv, kv);
  }

  lemma ProductIs(a: nat, b: nat)
    ensures Product(a, b) == a * b
  {
  }

  lemma FirstColumn(s: seq<nat>, q: seq<nat>, t: nat)
    requires |s| == 5 && |q| == 4
    ensures Dot(s, [4 * q[0] + t, 5 * q[3], 5 * q[2], 5 * q[1], 5 * q[0]])
         == 4 * Product(s[0], q[0]) + Product(s[0], t) + 5 * Product(s[1], q[3]) + 5 * Product(s[2], q[2]) + 5 * Product(s[3], q[1]) + 5 * Product(s[4], q[0])
  {
    hide Dot, Product;
    DotFive(s, [4 * q[0] + t, 5 * q[3], 5 * q[2], 5 * q[1], 5 * q[0]]);
    Scaled(s[0], q[0], t); Scaled(s[1], q[3], t); Scaled(s[2], q[2], t); Scaled(s[3], q[1], t); Scaled(s[4], q[0], t);
  }

  lemma SecondColumn(s: seq<nat>, q: seq<nat>, t: nat)
    requires |s| == 5 && |q| == 4
    ensures Dot(s, [4 * q[1], 4 * q[0] + t, 5 * q[3], 5 * q[2], 5 * q[1]])
         == 4 * Product(s[0], q[1]) + 4 * Product(s[1], q[0]) + Product(s[1], t) + 5 * Product(s[2], q[3]) + 5 * Product(s[3], q[2]) + 5 * Product(s[4], q[1])
  {
    hide Dot, Product;
    DotFive(s, [4 * q[1], 4 * q[0] + t, 5 * q[3], 5 * q[2], 5 * q[1]]);
    Scaled(s[0], q[1], t); Scaled(s[1], q[0], t); Scaled(s[2], q[3], t); Scaled(s[3], q[2], t); Scaled(s[4], q[1], t);
  }

  lemma ThirdColumn(s: seq<nat>, q: seq<nat>, t: nat)
    requires |s| == 5 && |q| == 4
    ensures Dot(s, [4 * q[2], 4 * q[1], 4 * q[0] + t, 5 * q[3], 5 * q[2]])
         == 4 * Product(s[0], q[2]) + 4 * Product(s[1], q[1]) + 4 * Product(s[2], q[0]) + Product(s[2], t) + 5 * Product(s[3], q[3]) + 5 * Product(s[4], q[2])
  {
    hide Dot, Product;
    DotFive(s, [4 * q[2], 4 * q[1], 4 * q[0] + t, 5 * q[3], 5 * q[2]]);
    Scaled(s[0], q[2], t); Scaled(s[1], q[1], t); Scaled(s[2], q[0], t); Scaled(s[3], q[3], t); Scaled(s[4], q[2], t);
  }

  lemma FourthColumn(s: seq<nat>, q: seq<nat>, t: nat)
    requires |s| == 5 && |q| == 4
    ensures Dot(s, [4 * q[3], 4 * q[2], 4 * q[1], 4 * q[0] + t, 5 * q[3]])
         == 4 * Product(s[0], q[3]) + 4 * Product(s[1], q[2]) + 4 * Product(s[2], q[1]) + 4 * Product(s[3], q[0]) + Product(s[3], t) + 5 * Product(s[4], q[3])
  {
    hide Dot, Product;
    DotFive(s, [4 * q[3], 4 * q[2], 4 * q[1], 4 * q[0] + t, 5 * q[3]]);
    Scaled(s[0], q[3], t); Scaled(s[1], q[2], t); Scaled(s[2], q[1], t); Scaled(s[3], q[0], t); Scaled(s[4], q[3], t);
  }

  lemma Bounded(a: nat, b: nat, x: nat, y: nat)
    requires a <= x && b <= y
    ensures 0 <= a * b <= x * y
  {
    MulMono(a, b, y);
    MulMono(y, a, x);
  }

  const S := 0x1_fffffffe    // no partial sum h + c exceeds this
  const K := 0x0fffffff      // nor a key word this
  const K4 := 0x0ffffffc     // the upper key words stay below a multiple of four
  const KK := 5 * 0x03ffffff // nor a folded key word this

  /** The size of one column of products. */
  lemma ColumnFits(s0: nat, s1: nat, s2: nat, s3: nat, s4: nat, a: nat, b: nat, c: nat, d: nat, e: nat)
    requires s0 <= S && s1 <= S && s2 <= S && s3 <= S && s4 <= 5
    requires a <= K && b <= KK && c <= KK && d <= KK && e <= KK
    ensures Dot([s0, s1, s2, s3, s4], [a, b, c, d, e]) <= S * K + 3 * S * KK + 5 * KK
    ensures a <= K4 && b <= K4 && c <= K4 && d <= K ==>
              Dot([s0, s1, s2, s3, s4], [a, b, c, d, e]) <= 3 * S * K4 + S * K + 5 * KK
  {
    hide Dot;
    DotFive([s0, s1, s2, s3, s4], [a, b, c, d, e]);
    Bounded(s0, a, S, K);
    Bounded(s1, b, S, KK);
    Bounded(s2, c, S, KK);
    Bounded(s3, d, S, KK);
    Bounded(s4, e, 5, KK);
    if a <= K4 && b <= K4 && c <= K4 && d <= K {
      Bounded(s0, a, S, K4);
      Bounded(s1, b, S, K4);
      Bounded(s2, c, S, K4);
      Bounded(s3, d, S, K);
    }
  }

  /** No carry leaves its 64-bit word. */
  lemma CarriesFit(x0: nat, x1: nat, x2: nat, x3: nat, x4: nat)
    requires x0 < W2 && x1 < W2 && x2 < W2 && x3 < W2 && x4 <= 15
    ensures var u5 := x3 / W + x4;
            var u0 := u5 / 4 * 5 + x0 % W;
            var u1 := u0 / W + x1 % W + x0 / W;
            var u2 := u1 / W + x2 % W + x1 / W;
            var u3 := u2 / W + x3 % W + x2 / W;
            u0 < W2 && u1 < W2 && u2 < W2 && u3 < W2
  {
  }

  // ---------- the polynomial hash ----------

  /** Absorbing the first `n` blocks of `data`, each with `end` added above its sixteen bytes. */
  ghost function Fold(h: nat, data: seq<nat>, n: nat, end: nat, r: nat): nat
    requires 16 * n <= |data|
  {
    if n == 0 then h
    else (Fold(h, data, n - 1, end, r) + Val(256, data[16 * (n - 1)..16 * n]) + end * W4) * r % P
  }

  /** The sum of a block's words and its end mark, added to the accumulator without carries. */
  lemma BlockSum(h: seq<nat>, ws: seq<nat>, end: nat)
    requires |h| == 5 && |ws| == 4
    ensures h[0] + ws[0] + (h[1] + ws[1]) * W + (h[2] + ws[2]) * W2 + (h[3] + ws[3]) * W3 + (h[4] + end) * W4
         == Hash5(h) + Val(W, ws) + end * W4
  {
    Val4(ws);
  }

  lemma Val4(ws: seq<nat>)
    requires |ws| == 4
    ensures Val(W, ws) == Key4(ws)
  {
    hide Val, Pw;
    ValNext(W, ws, 0);
    ValNext(W, ws, 1);
    ValNext(W, ws, 2);
    ValNext(W, ws, 3);
    assert ws[..4] == ws && ws[..0] == [];
    ValEmpty(W);
    Powers4();
  }

  lemma Powers4()
    ensures Pw(W, 0) == 1 && Pw(W, 1) == W && Pw(W, 2) == W2 && Pw(W, 3) == W3 && Pw(W, 4) == W4
  {
  }

  lemma BlockWords(data: seq<nat>, o: nat)
    requires Digits(256, data) && o + 16 <= |data|
    ensures var ws := [Load32(data, o), Load32(data, o + 4), Load32(data, o + 8), Load32(data, o + 12)];
            Val(W, ws) == Val(256, data[o..o + 16]) && Digits(W, ws)
  {
    hide Val;
    var block := data[o..o + 16];
    LoadKeepsValue(block);
    assert LoadWords(block) == [Load32(data, o), Load32(data, o + 4), Load32(data, o + 8), Load32(data, o + 12)];
  }

  method Column(s0: nat, s1: nat, s2: nat, s3: nat, s4: nat, a: nat, b: nat, c: nat, d: nat, e: nat)
    returns (x: nat)
    requires s0 <= S && s1 <= S && s2 <= S && s3 <= S && s4 <= 5
    requires a <= K && b <= KK && c <= KK && d <= KK && e <= KK
    ensures x == Dot([s0, s1, s2, s3, s4], [a, b, c, d, e]) < W2 - W2 / 4
    ensures a <= K4 && b <= K4 && c <= K4 && d <= K ==> x <= 3 * S * K4 + S * K + 5 * KK
  {
    hide Dot;
    DotFive([s0, s1, s2, s3, s4], [a, b, c, d, e]);
    ColumnFits(s0, s1, s2, s3, s4, a, b, c, d, e);
    x := s0 * a + s1 * b + s2 * c + s3 * d + s4 * e;
  }

  /** h = (h + c) r, partially reduced: no word or double word overflows, and the accumulator stays small. */
  method BlockStep(h: seq<nat>, c: seq<nat>, end: nat, r: seq<nat>) returns (h': seq<nat>)
    requires Reduced(h) && |c| == 4 && Digits(W, c) && end <= 1 && Clamped(r)
    ensures Reduced(h') && Cong(Hash5(h'), (Hash5(h) + Val(W, c) + end * W4) * Key4(r), P)
  {
    hide Cong, Val, Dot, Product;
    var r0, r1, r2, r3 := r[0], r[1], r[2], r[3];
    var rr0 := r0 / 4 * 5;
    var rr1 := r1 / 4 + r1;
    var rr2 := r2 / 4 + r2;
    var rr3 := r3 / 4 + r3;
    var rr4 := r0 % 4;
    var s0, s1, s2, s3, s4 := h[0] + c[0], h[1] + c[1], h[2] + c[2], h[3] + c[3], h[4] + end;

    var x0 := Column(s0, s1, s2, s3, s4, r0, rr3, rr2, rr1, rr0);
    var x1 := Column(s0, s1, s2, s3, s4, r1, r0, rr3, rr2, rr1);
    var x2 := Column(s0, s1, s2, s3, s4, r2, r1, r0, rr3, rr2);
    var x3 := Column(s0, s1, s2, s3, s4, r3, r2, r1, r0, rr3);
    Bounded(s4, rr4, 5, 3);
    var x4 := s4 * rr4;
    BlockSum(h, c, end);
    Val5([s0, s1, s2, s3, s4]);
    Val4([r0 / 4, r1 / 4, r2 / 4, r3 / 4]);
    KeyParts(r);
    ProductIs(s4, rr4);
    ghost var q := [r0 / 4, r1 / 4, r2 / 4, r3 / 4];
    assert [r0, rr3, rr2, rr1, rr0] == [4 * q[0] + rr4, 5 * q[3], 5 * q[2], 5 * q[1], 5 * q[0]];
    assert [r1, r0, rr3, rr2, rr1] == [4 * q[1], 4 * q[0] + rr4, 5 * q[3], 5 * q[2], 5 * q[1]];
    assert [r2, r1, r0, rr3, rr2] == [4 * q[2], 4 * q[1], 4 * q[0] + rr4, 5 * q[3], 5 * q[2]];
    assert [r3, r2, r1, r0, rr3] == [4 * q[3], 4 * q[2], 4 * q[1], 4 * q[0] + rr4, 5 * q[3]];
    Folded([s0, s1, s2, s3, s4], q, rr4, Hash5(h) + Val(W, c) + end * W4, Key4(r), x0, x1, x2, x3, x4);
    FoldFits(x3, x4);
    CarriesFit(x0, x1, x2, x3, x4);
    h' := CarryRound(x0, x1, x2, x3, x4);
    CongTrans(Hash5(h'), x0 + x1 * W + x2 * W2 + x3 * W3 + x4 * W4,
              (Hash5(h) + Val(W, c) + end * W4) * Key4(r), P);
  }

  lemma KeyParts(r: seq<nat>)
    requires Clamped(r)
    ensures r[0] == 4 * (r[0] / 4) + r[0] % 4
    ensures forall i :: 1 <= i < 4 ==> r[i] == 4 * (r[i] / 4) && r[i] / 4 + r[i] == 5 * (r[i] / 4)
  {
  }

  /** The partial reduction modulo 2^130 - 5: carries one way round, stopping at five words. */
  method CarryRound(x0: nat, x1: nat, x2: nat, x3: nat, x4: nat) returns (h: seq<nat>)
    requires x0 < W2 && x1 < W2 && x2 < W2 - W2 / 4 && x3 < W2 && x4 <= 15
    ensures Reduced(h) && Cong(Hash5(h), x0 + x1 * W + x2 * W2 + x3 * W3 + x4 * W4, P)
  {
    hide Cong;
    var u5 := x3 / W + x4;
    var u0 := u5 / 4 * 5 + x0 % W;
    var u1 := u0 / W + x1 % W + x0 / W;
    var u2 := u1 / W + x2 % W + x1 / W;
    var u3 := u2 / W + x3 % W + x2 / W;
    var u4 := u3 / W + u5 % 4;
    h := [u0 % W, u1 % W, u2 % W, u3 % W, u4];
    CongBy(Hash5(h), x0 + x1 * W + x2 * W2 + x3 * W3 + x4 * W4, P, 0 - u5 / 4);
  }

  /** The folded top fits a 32-bit word with room for the factor five. */
  lemma FoldFits(x3: nat, x4: nat)
    requires x3 <= 3 * S * K4 + S * K + 5 * KK && x4 <= 15
    ensures x3 < W2 && x3 / W + x4 <= 0x7ffffff5 && (x3 / W + x4) / 4 * 5 < W
  {
  }

  lemma {:induction false} FoldCong(a: nat, b: nat, data: seq<nat>, n: nat, end: nat, r: nat)
    requires 16 * n <= |data| && Cong(a, b, P)
    ensures Cong(Fold(a, data, n, end, r), Fold(b, data, n, end, r), P)
  {
    hide Cong, Val;
    if n > 0 {
      FoldCong(a, b, data, n - 1, end, r);
      var c := Val(256, data[16 * (n - 1)..16 * n]) + end * W4;
      FoldStepCong(Fold(a, data, n - 1, end, r), Fold(b, data, n - 1, end, r), c, r);
    }
  }

  /** Absorbing a block respects congruence, reduced or not. */
  lemma FoldStepCong(a: nat, b: nat, c: nat, r: nat)
    requires Cong(a, b, P)
    ensures Cong((a + c) * r, (b + c) * r % P, P) && Cong((a + c) * r % P, (b + c) * r % P, P)
  {
    hide Cong;
    CongRefl(c, P);
    CongAdd(a, b, c, c, P);
    CongScale(a + c, b + c, r, P);
    CongMod((a + c) * r, (b + c) * r, P);
    Twice((b + c) * r);
    Twice((a + c) * r);
    CongMod((a + c) * r, (b + c) * r % P, P);
    CongMod((a + c) * r % P, (b + c) * r % P, P);
  }

  lemma Twice(x: nat)
    ensures x % P % P == x % P
  {
  }

  lemma {:induction false} FoldConcat(h: nat, d1: seq<nat>, d2: seq<nat>, n1: nat, n2: nat, r: nat)
    requires |d1| == 16 * n1 && 16 * n2 <= |d2|
    ensures Fold(h, d1 + d2, n1 + n2, 1, r) == Fold(Fold(h, d1, n1, 1, r), d2, n2, 1, r)
  {
    hide Val;
    if n2 == 0 {
      FoldPrefix(h, d1 + d2, d1, n1, r);
    } else {
      FoldConcat(h, d1, d2, n1, n2 - 1, r);
      assert (d1 + d2)[16 * (n1 + n2 - 1)..16 * (n1 + n2)] == d2[16 * (n2 - 1)..16 * n2];
    }
  }

  lemma {:induction false} FoldPrefix(h: nat, d: seq<nat>, e: seq<nat>, n: nat, r: nat)
    requires 16 * n <= |d| && 16 * n <= |e| && d[..16 * n] == e[..16 * n]
    ensures Fold(h, d, n, 1, r) == Fold(h, e, n, 1, r)
  {
    hide Val;
    if n > 0 {
      assert d[..16 * (n - 1)] == d[..16 * n][..16 * (n - 1)] && e[..16 * (n - 1)] == e[..16 * n][..16 * (n - 1)];
      FoldPrefix(h, d, e, n - 1, r);
      assert d[16 * (n - 1)..16 * n] == d[..16 * n][16 * (n - 1)..16 * n];
      assert e[16 * (n - 1)..16 * n] == e[..16 * n][16 * (n - 1)..16 * n];
    }
  }

  /** The hash of a whole message; a last short block is marked above its own bytes. */
  ghost function PolyHash(msg: seq<nat>, r: nat): nat {
    var full := Fold(0, msg, |msg| / 16, 1, r);
    var tail := msg[|msg| / 16 * 16..];
    if tail == [] then full else (full + Val(256, tail) + Pw(256, |tail|)) * r % P
  }

  /** The first half of the key with the bits cleared that the arithmetic relies on. */
  function ClampedKey(key: seq<nat>): seq<nat>
    requires |key| == 32
  {
    [Load32(key, 0) % 0x10000000, Load32(key, 4) % 0x10000000 / 4 * 4,
     Load32(key, 8) % 0x10000000 / 4 * 4, Load32(key, 12) % 0x10000000 / 4 * 4]
  }

  /** Byte by byte (section 2.5 of RFC 8439): bytes 3, 7, 11 and 15 lose their upper four bits, bytes 4, 8 and 12 their
      lower two; the others stay. */
  lemma ClampedBytes(key: seq<nat>, i: nat)
    requires |key| == 32 && Digits(256, key) && i < 4
    ensures ClampedKey(key)[i] ==
            (if i == 0 then key[0] else key[4 * i] / 4 * 4) + key[4 * i + 1] * 0x100 + key[4 * i + 2] * 0x10000
            + key[4 * i + 3] % 16 * 0x1000000
  {
    var a, b, c, d := key[4 * i], key[4 * i + 1], key[4 * i + 2], key[4 * i + 3];
    ClampFour(a, b, c, d);
    assert Load32(key, 4 * i) == a + b * 0x100 + c * 0x10000 + d * 0x1000000;
    if i == 0 {} else if i == 1 {} else if i == 2 {} else {}
  }

  lemma ClampFour(a: nat, b: nat, c: nat, d: nat)
    requires a < 256 && b < 256 && c < 256 && d < 256
    ensures var w := a + b * 0x100 + c * 0x10000 + d * 0x1000000;
            && w % 0x10000000 == a + b * 0x100 + c * 0x10000 + d % 16 * 0x1000000
            && w % 0x10000000 / 4 * 4 == a / 4 * 4 + b * 0x100 + c * 0x10000 + d % 16 * 0x1000000
  {
  }

  function PadOf(key: seq<nat>): seq<nat>
    requires |key| == 32
  {
    [Load32(key, 16), Load32(key, 20), Load32(key, 24), Load32(key, 28)]
  }

  lemma ClampWord(x: nat)
    ensures x % 0x10000000 / 4 * 4 <= 0x0ffffffc && x % 0x10000000 / 4 * 4 % 4 == 0
  {
  }

  lemma KeyShape(key: seq<nat>)
    requires |key| == 32 && Digits(256, key)
    ensures Clamped(ClampedKey(key)) && |ClampedKey(key)| == |PadOf(key)| == 4 && Digits(W, PadOf(key))
  {
    hide Val, Load32;
    ClampWord(Load32(key, 4));
    ClampWord(Load32(key, 8));
    ClampWord(Load32(key, 12));
    BlockWords(key, 16);
  }

  lemma EmptyHash(r: seq<nat>)
    requires |r| == 4
    ensures Cong(Hash5([0, 0, 0, 0, 0]), Fold(0, [], 0, 1, Key4(r)), P)
  {
    CongRefl(0, P);
  }

  // ---------- the streaming context ----------

  class Poly1305Ctx {
    var c: array<nat>
    var c_idx: nat
    var r: seq<nat>
    var pad: seq<nat>
    var h: seq<nat>
    ghost var full: seq<nat>  // the bytes of the blocks already hashed
    ghost var blocks: nat     // how many blocks they are

    /** The bytes absorbed so far: the hashed blocks, and those still in the buffer. */
    ghost function Absorbed(): seq<nat>
      requires c.Length == 16 && c_idx <= 16
      reads this, c
    {
      full + c[..c_idx]
    }

    ghost predicate Valid()
      reads this, c
    {
      && c.Length == 16 && c_idx < 16 && Digits(256, c[..]) && Digits(256, full)
      && Clamped(r) && |pad| == 4 && Digits(W, pad)
      && Hashed()
    }

    ghost predicate Hashed()
      reads this
    {
      && Reduced(h) && |r| == 4 && |full| == 16 * blocks
      && Cong(Hash5(h), Fold(0, full, blocks, 1, Key4(r)), P)
    }

    constructor (key: seq<nat>)
      requires |key| == 32 && Digits(256, key)
      ensures Valid() && fresh(c) && Absorbed() == []
      ensures r == ClampedKey(key) && pad == PadOf(key)
    {
      hide Cong, Val, Fold, ClampedKey, PadOf, Load32, Hash5, Key4, Clamped;
      KeyShape(key);
      EmptyHash(ClampedKey(key));
      h := [0, 0, 0, 0, 0];
      c_idx := 0;
      c := new nat[16](_ => 0);
      r := ClampedKey(key);
      pad := PadOf(key);
      full := [];
      blocks := 0;
    }

    /** h = (h + c) r for every block of the input. */
    method PolyBlocks(data: seq<nat>, nb_blocks: nat, end: nat)
      requires Clamped(r) && Reduced(h) && Digits(256, data) && 16 * nb_blocks <= |data| && end <= 1
      modifies this`h
      ensures Reduced(h) && Cong(Hash5(h), Fold(old(Hash5(h)), data, nb_blocks, end, Key4(r)), P)
    {
      hide Cong, Val, Hash5, Key4;
      CongRefl(Hash5(h), P);
      for i := 0 to nb_blocks
        invariant Reduced(h) && Cong(Hash5(h), Fold(old(Hash5(h)), data, i, end, Key4(r)), P)
      {
        BlockWords(data, 16 * i);
        var c := [Load32(data, 16 * i), Load32(data, 16 * i + 4), Load32(data, 16 * i + 8), Load32(data, 16 * i + 12)];
        ghost var before := Hash5(h);
        h := BlockStep(h, c, end, r);
        FoldStepCong(before, Fold(old(Hash5(h)), data, i, end, Key4(r)), Val(W, c) + end * W4, Key4(r));
        CongTrans(Hash5(h), (before + Val(W, c) + end * W4) * Key4(r),
                  Fold(old(Hash5(h)), data, i + 1, end, Key4(r)), P);
      }
    }

    /** Appends to the buffer, which has room. */
    method Fill(message: seq<nat>)
      requires c.Length == 16 && c_idx + |message| <= 16 && Digits(256, c[..]) && Digits(256, message)
      modifies this`c_idx, c
      ensures c_idx == old(c_idx) + |message| && Digits(256, c[..])
      ensures c[..c_idx] == old(c[..c_idx]) + message
    {
      for i := 0 to |message|
        invariant c_idx == old(c_idx) + i && Digits(256, c[..])
        invariant c[..c_idx] == old(c[..c_idx]) + message[..i]
      {
        c[c_idx] := message[i];
        c_idx := c_idx + 1;
        assert message[..i + 1] == message[..i] + [message[i]];
      }
      assert message[..|message|] == message;
    }

    /** Hashes whole blocks that follow what is hashed already. */
    method HashBlocks(data: seq<nat>, nb_blocks: nat)
      requires Clamped(r) && Hashed() && Digits(256, data) && Digits(256, full) && 16 * nb_blocks <= |data|
      modifies this`h, this`full, this`blocks
      ensures Hashed() && full == old(full) + data[..16 * nb_blocks] && Digits(256, full)
    {
      hide Cong, Val, Fold, Hash5, Key4;
      ghost var before := Hash5(h);
      PolyBlocks(data, nb_blocks, 1);
      MoreBlocks(full, blocks, data, nb_blocks, before, Hash5(h), Key4(r));
      full := full + data[..16 * nb_blocks];
      blocks := blocks + nb_blocks;
    }

    /** Fills the buffer up to the next block boundary; a complete block is hashed at once. */
    method Align(message: seq<nat>) returns (aligned: nat)
      requires Valid() && Digits(256, message)
      modifies this`c_idx, this`h, this`full, this`blocks, c
      ensures Valid() && aligned <= |message| && Absorbed() == old(Absorbed()) + message[..aligned]
      ensures aligned < |message| ==> c_idx == 0
    {
      hide Cong, Val, Fold, Hash5, Key4;
      ghost var a := Absorbed();
      aligned := if Gap(c_idx, 16) <= |message| then Gap(c_idx, 16) else |message|;
      Fill(message[..aligned]);
      assert full + c[..c_idx] == a + message[..aligned];
      if c_idx == 16 {
        assert c[..c_idx] == c[..] && c[..][..16] == c[..];
        HashBlocks(c[..], 1);
        c_idx := 0;
        assert c[..c_idx] == [];
      }
    }

    /** Any way of cutting a message into updates leaves the state of the whole message. */
    method Update(message: seq<nat>)
      requires Valid() && Digits(256, message)
      modifies this`c_idx, this`h, this`full, this`blocks, c
      ensures Valid() && Absorbed() == old(Absorbed()) + message
    {
      hide Cong, Val, Fold, Hash5, Key4, Clamped, Reduced, Hashed;
      ghost var a := Absorbed();
      if |message| == 0 {
        assert a + message == a;
        return;
      }
      var aligned := Align(message);
      var rest := message[aligned..];
      var nb_blocks := |rest| / 16;
      CutMessage(a, message, aligned, rest, nb_blocks);
      Bulk(rest, nb_blocks);
      AppendTail(rest[16 * nb_blocks..]);
    }

    method AppendTail(tail: seq<nat>)
      requires Valid() && Digits(256, tail) && c_idx + |tail| < 16
      modifies this`c_idx, c
      ensures Valid() && Absorbed() == old(Absorbed()) + tail
    {
      hide Cong, Val, Fold, Hash5, Key4, Clamped, Reduced;
      ghost var d := c[..c_idx];
      Fill(tail);
      assert full + (d + tail) == (full + d) + tail;
    }

    method Bulk(rest: seq<nat>, nb_blocks: nat)
      requires Valid() && Digits(256, rest) && 16 * nb_blocks <= |rest| && (rest != [] ==> c_idx == 0)
      modifies this`h, this`full, this`blocks
      ensures Valid() && Absorbed() == old(Absorbed()) + rest[..16 * nb_blocks] && c_idx == old(c_idx)
    {
      hide Cong, Val, Fold, Hash5, Key4;
      HashBlocks(rest, nb_blocks);
      if nb_blocks > 0 {
        assert c[..c_idx] == [];
      } else {
        assert rest[..16 * nb_blocks] == [];
      }
    }

    method Final() returns (mac: seq<nat>)
      requires Valid()
      modifies this`h, c
      ensures |mac| == 16 && Digits(256, mac)
      ensures Val(256, mac) == (PolyHash(old(Absorbed()), Key4(r)) + Key4(pad)) % W4
    {
      hide Cong, Val, Fold, Hash5, Key4, PolyHash;
      ghost var tail, hashed := c[..c_idx], Fold(0, full, blocks, 1, Key4(r));
      HashOfMessage(full, blocks, tail, Key4(r));
      HashIsReduced(full + tail, Key4(r));
      if c_idx != 0 {
        forall k | c_idx <= k < 16 { c[k] := 0; }
        c[c_idx] := 1;
        ghost var before := Hash5(h);
        LastBlock(tail, c[..]);
        PolyBlocks(c[..], 1, 0);
        LastBlockHash(before, hashed, c[..], Hash5(h), Key4(r));
      }
      mac := FinishMac(h, pad, PolyHash(full + tail, Key4(r)));
    }
  }

  /** The three parts of an update: up to a block boundary, whole blocks, and the rest. */
  lemma CutMessage(a: seq<nat>, m: seq<nat>, aligned: nat, rest: seq<nat>, n: nat)
    requires aligned <= |m| && rest == m[aligned..] && n == |rest| / 16 && Digits(256, m)
    ensures 16 * n <= |rest| < 16 * n + 16
    ensures Digits(256, rest) && Digits(256, rest[16 * n..])
    ensures ((a + m[..aligned]) + rest[..16 * n]) + rest[16 * n..] == a + m
  {
    assert rest == rest[..16 * n] + rest[16 * n..];
    assert m == m[..aligned] + rest;
  }

  lemma MoreBlocks(full: seq<nat>, n: nat, data: seq<nat>, m: nat, before: nat, after: nat, r: nat)
    requires |full| == 16 * n && 16 * m <= |data|
    requires Cong(before, Fold(0, full, n, 1, r), P) && Cong(after, Fold(before, data, m, 1, r), P)
    ensures Cong(after, Fold(0, full + data[..16 * m], n + m, 1, r), P)
  {
    hide Cong, Val, Fold;
    FoldCong(before, Fold(0, full, n, 1, r), data, m, 1, r);
    CongTrans(after, Fold(before, data, m, 1, r), Fold(Fold(0, full, n, 1, r), data, m, 1, r), P);
    FoldConcat(0, full, data, n, m, r);
    FoldPrefix(0, full + data, full + data[..16 * m], n + m, r);
  }

  lemma HashOfMessage(full: seq<nat>, n: nat, tail: seq<nat>, r: nat)
    requires |full| == 16 * n && |tail| < 16
    ensures var f := Fold(0, full, n, 1, r);
            PolyHash(full + tail, r) == if tail == [] then f else (f + Val(256, tail) + Pw(256, |tail|)) * r % P
  {
    hide Val, Fold, Pw;
    var msg := full + tail;
    assert |msg| / 16 == n && msg[16 * n..] == tail;
    FoldPrefix(0, msg, full, n, r);
  }

  /** The last block, with the mark just above its bytes. */
  lemma LastBlock(tail: seq<nat>, c: seq<nat>)
    requires |c| == 16 && 0 < |tail| < 16 && c[..|tail|] == tail && c[|tail|] == 1
    requires forall k :: |tail| < k < 16 ==> c[k] == 0
    ensures Val(256, c) == Val(256, tail) + Pw(256, |tail|)
  {
    hide Val, Pw;
    var zeros := c[|tail| + 1..];
    assert c == (tail + [1]) + zeros;
    ValConcat(256, tail + [1], zeros);
    ValZero(256, zeros);
    ValAppend(256, tail, 1);
  }

  lemma LastBlockHash(before: nat, hashed: nat, c: seq<nat>, after: nat, r: nat)
    requires |c| == 16 && Cong(before, hashed, P) && Cong(after, Fold(before, c, 1, 0, r), P)
    ensures Cong(after, (hashed + Val(256, c)) * r % P, P)
  {
    hide Cong, Val;
    assert c[16 * 0..16 * 1] == c;
    assert Fold(before, c, 0, 0, r) == before;
    FoldStepCong(before, hashed, Val(256, c), r);
    CongTrans(after, (before + Val(256, c)) * r % P, (hashed + Val(256, c)) * r % P, P);
  }

  lemma HashIsReduced(msg: seq<nat>, r: nat)
    ensures PolyHash(msg, r) < P
  {
    hide Val, Pw;
    var n := |msg| / 16;
    if n > 0 { assert Fold(0, msg, n, 1, r) < P; }
  }

  /** The carry of h + 5 into bit 130 tells whether P is to be taken off. */
  method TimesToSubtract(h: seq<nat>) returns (c: nat)
    requires Reduced(h)
    ensures (c == 0 && Hash5(h) < P) || (c == 5 && P <= Hash5(h) < 2 * P)
  {
    c := 5;
    c := (c + h[0]) / W;
    c := (c + h[1]) / W;
    c := (c + h[2]) / W;
    c := (c + h[3]) / W;
    c := c + h[4];
    c := c / 4 * 5;
  }

  /** The low four words of accumulator, correction and pad added up. */
  method AddPad(h: seq<nat>, pad: seq<nat>, start: nat) returns (words: seq<nat>, carry: nat)
    requires Reduced(h) && |pad| == 4 && Digits(W, pad) && start <= 5
    ensures |words| == 4 && Digits(W, words) && Key4(words) < W4
    ensures Key4(words) + carry * W4 == Hash5(h) - h[4] * W4 + start + Key4(pad)
  {
    var c := start;
    c := c + h[0] + pad[0];
    var w0 := c % W;
    c := c / W;
    c := c + h[1] + pad[1];
    var w1 := c % W;
    c := c / W;
    c := c + h[2] + pad[2];
    var w2 := c % W;
    c := c / W;
    c := c + h[3] + pad[3];
    var w3 := c % W;
    c := c / W;
    words, carry := [w0, w1, w2, w3], c;
  }

  method FinishMac(h: seq<nat>, pad: seq<nat>, ghost hash: nat) returns (mac: seq<nat>)
    requires Reduced(h) && |pad| == 4 && Digits(W, pad) && Cong(Hash5(h), hash, P) && hash < P
    ensures |mac| == 16 && Digits(256, mac) && Val(256, mac) == (hash + Key4(pad)) % W4
  {
    hide Cong, Val, Hash5, Key4, StoreWords;
    var c := TimesToSubtract(h);
    var words, carry := AddPad(h, pad, c);
    FullyReduced(Hash5(h), hash, c);
    Val4(words);
    StoreKeepsValue(words);
    mac := StoreWords(words);
    MacValue(Key4(words), carry, Hash5(h), h[4], hash, c, Key4(pad));
  }

  lemma FullyReduced(h: nat, hash: nat, c: nat)
    requires Cong(h, hash, P) && hash < P
    requires (c == 0 && h < P) || (c == 5 && P <= h < 2 * P)
    ensures h == hash + if c == 0 then 0 else P
  {
    hide Cong;
    CongMod(h, hash, P);
    DivUnique(hash, P, 0, hash);
    if c == 0 {
      DivUnique(h, P, 0, h);
    } else {
      DivUnique(h, P, 1, h - P);
    }
  }

  lemma MacValue(words: nat, carry: nat, h: nat, h4: nat, hash: nat, c: nat, pad: nat)
    requires words < W4 && words + carry * W4 == h - h4 * W4 + c + pad
    requires (c == 0 && h == hash) || (c == 5 && h == hash + P)
    ensures words == (hash + pad) % W4
  {
    DivUnique(hash + pad, W4, if c == 0 then carry + h4 else carry + h4 - 4, words);
  }

  // ---------- the whole computation ----------

  /** The authenticator as the standard defines it. */
  ghost function Tag(message: seq<nat>, key: seq<nat>): nat
    requires |key| == 32
  {
    (PolyHash(message, Key4(ClampedKey(key))) + Key4(PadOf(key))) % W4
  }

  /** However the message arrives, the result is the authenticator of the whole. */
  method Authenticate(chunks: seq<seq<nat>>, key: seq<nat>) returns (mac: seq<nat>)
    requires |key| == 32 && Digits(256, key) && forall i :: 0 <= i < |chunks| ==> Digits(256, chunks[i])
    ensures |mac| == 16 && Digits(256, mac) && Val(256, mac) == Tag(Concat(chunks), key)
  {
    hide Val, Fold, Hash5, Key4, PolyHash, ClampedKey, PadOf, Load32;
    var ctx := new Poly1305Ctx(key);
    for i := 0 to |chunks|
      invariant ctx.Valid() && fresh(ctx) && fresh(ctx.c)
      invariant ctx.Absorbed() == Concat(chunks[..i])
      invariant ctx.r == ClampedKey(key) && ctx.pad == PadOf(key)
    {
      assert chunks[..i + 1][..i] == chunks[..i];
      ctx.Update(chunks[i]);
    }
    assert chunks[..|chunks|] == chunks;
    mac := ctx.Final();
  }
}
