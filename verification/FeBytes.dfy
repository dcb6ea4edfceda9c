/** Reading and writing field elements as 32 bytes (`fe_frombytes_mask` and `fe_tobytes` in `monocypher.c`). */
module FeBytes {
  import opened Arith
  import opened Radix
  import opened ByteWords
  import opened Fe25519
  import Bits
  import ModL

  // ---------- fe_frombytes ----------

  function Load24(s: seq<nat>, i: nat): nat
    requires i + 3 <= |s|
  {
    s[i] + s[i + 1] * 0x100 + s[i + 2] * 0x10000
  }

  const E232 := 0x1_0000000000_0000000000_0000000000_0000000000_0000000000_00000000

  /** All 256 bits, loaded into the limbs before the carries. */
  function AllLimbs(s: seq<nat>): (t: seq<int>)
    requires |s| == 32
    ensures |t| == 10
  {
    [Load32(s, 0), Load24(s, 4) * 0x40, Load24(s, 7) * 0x20, Load24(s, 10) * 8, Load24(s, 13) * 4,
     Load32(s, 16), Load24(s, 20) * 0x80, Load24(s, 23) * 0x20, Load24(s, 26) * 0x10, Load24(s, 29) * 4]
  }

  /** The same with the top three bytes masked; `kept` is one more than the mask. */
  function RawLimbs(s: seq<nat>, kept: nat): (t: seq<int>)
    requires |s| == 32 && kept > 0
    ensures |t| == 10
  {
    AllLimbs(s)[9 := (Load24(s, 29) % kept) * 4]
  }

  lemma WordsAre(s: seq<nat>)
    requires |s| == 32
    ensures forall k :: 0 <= k < 8 ==> LoadWords(s)[k] == Load32(s, 4 * k)
  {
  }

  function Half(s: seq<nat>, o: nat): nat
    requires |s| == 32 && o <= 16
  {
    Load32(s, o) + Load24(s, o + 4) * 0x1_0000_0000 + Load24(s, o + 7) * 0x100_0000_0000_0000
    + Load24(s, o + 10) * 0x1_0000_0000_0000_0000_0000
    + Load24(s, o + 13) * 0x100_0000_0000_0000_0000_0000_0000
  }

  lemma LimbHalves(s: seq<nat>)
    requires |s| == 32
    ensures Value(AllLimbs(s)) == Half(s, 0) + Half(s, 16) * 0x1_0000_0000_0000_0000_0000_0000_0000_0000
  {
    hide Load24, Load32;
  }

  /** Sixteen bytes as four words and as one word and four groups of three. */
  lemma HalfBytes(s: seq<nat>, o: nat)
    requires |s| == 32 && o <= 16
    ensures Half(s, o)
         == Load32(s, o) + Load32(s, o + 4) * 0x1_0000_0000 + Load32(s, o + 8) * 0x1_0000_0000_0000_0000
            + Load32(s, o + 12) * 0x1_0000_0000_0000_0000_0000_0000
  {
  }

  /** The loads overlap nothing and leave no gap. */
  lemma AllLimbsValue(s: seq<nat>)
    requires |s| == 32 && Digits(256, s)
    ensures Value(AllLimbs(s)) == Val(256, s)
  {
    hide Val, Pw, LoadWords, Load24, Load32, Half, Value, AllLimbs, Place, Digits;
    LimbHalves(s);
    LoadKeepsValue(s);
    WordsAre(s);
    ModL.Val8(LoadWords(s));
    HalfBytes(s, 0);
    HalfBytes(s, 16);
  }

  lemma TopBytes(s: seq<nat>)
    requires |s| == 32 && Digits(256, s)
    ensures 0 <= Val(256, s) - Load24(s, 29) * E232 < E232
  {
    hide Val, Pw, LoadWords;
    LoadKeepsValue(s);
    WordsAre(s);
    ModL.Val8(LoadWords(s));
  }

  lemma RawLimbsValue(s: seq<nat>, kept: nat)
    requires |s| == 32 && Digits(256, s) && kept > 0
    ensures Value(RawLimbs(s, kept)) == Val(256, s) - (Load24(s, 29) - Load24(s, 29) % kept) * E232
  {
    hide Val, Value, Load24;
    AllLimbsValue(s);
    ValueUpdate(AllLimbs(s), 9, (Load24(s, 29) % kept) * 4);
  }

  lemma MaskedValue(v: nat, top: nat, kept: nat)
    requires kept > 0 && 0 <= v - top * E232 < E232
    ensures v - (top - top % kept) * E232 == v % (E232 * kept)
  {
    var low := v - top * E232;
    MulMono(E232, 1, kept);
    MulMono(E232, top % kept, kept - 1);
    Dist(E232, kept, 1);
    var q := top / kept;
    assert top - top % kept == kept * q;
    Assoc(E232, kept, q);
    DivUnique(v, E232 * kept, q, low + E232 * (top % kept));
  }

  /** fe_frombytes_mask: the little-endian number with the top `nb_mask` bits dropped, in tight limbs. */
  method FromBytesMask(h: array<int>, s: seq<nat>, nb_mask: nat)
    requires h.Length == 10 && |s| == 32 && Digits(256, s) && nb_mask <= 24
    modifies h
    ensures Tight(h[..])
    ensures Cong(Value(h[..]), Val(256, s) % (E232 * Bits.Pow2(24 - nb_mask)), P)
  {
    hide Val, Tight, Cong, Value, Carried, Bits.Pow2;
    var kept := Bits.Pow2(24 - nb_mask);
    var t := RawLimbs(s, kept);
    RawLimbsValue(s, kept);
    TopBytes(s);
    MaskedValue(Val(256, s), Load24(s, 29), kept);
    for i := 0 to 10
      invariant h[..i] == t[..i]
    {
      h[i] := t[i];
    }
    assert h[..] == t;
    RawLimbsBelow(s, kept);
    FeCarry(h);
  }

  lemma RawLimbsBelow(s: seq<nat>, kept: nat)
    requires |s| == 32 && Digits(256, s) && kept > 0
    ensures Below(RawLimbs(s, kept), HUGE)
  {
    hide Load32, Load24;
    LoadBelow(s, 0); LoadBelow(s, 4); LoadBelow(s, 7); LoadBelow(s, 10); LoadBelow(s, 13);
    LoadBelow(s, 16); LoadBelow(s, 20); LoadBelow(s, 23); LoadBelow(s, 26);
    TopBelow(s);
    var top := Load24(s, 29);
    assert top % kept <= top by { MulNonneg(kept, top / kept); }
  }

  lemma LoadBelow(s: seq<nat>, i: nat)
    requires i + 4 <= |s| && Digits(256, s)
    ensures Load32(s, i) < 0x1_0000_0000 && Load24(s, i) < 0x100_0000
  {
  }

  lemma TopBelow(s: seq<nat>)
    requires |s| == 32 && Digits(256, s)
    ensures Load24(s, 29) < 0x100_0000
  {
  }

  // ---------- fe_tobytes ----------

  function Span(n: nat): nat
    requires n <= 10
    ensures Span(n) > 0
  {
    if n == 10 then E10 else Place(n)
  }

  lemma SpanStep(n: nat)
    requires n < 10
    ensures Span(n + 1) == Span(n) * Width(n)
  {
  }

  /** One more limb added and shifted out: the floor over the longer span. */
  lemma FloorStep(start: int, t: seq<int>, n: nat, q: int)
    requires |t| == 10 && n < 10
    requires q == (start + Weighted(t, n)) / Span(n)
    ensures (q + t[n]) / Width(n) == (start + Weighted(t, n + 1)) / Span(n + 1)
  {
    hide Span, Place;
    var x := start + Weighted(t, n);
    SpanStep(n);
    SpanIsPlace(n);
    var r := x % Span(n);
    assert x == Span(n) * q + r;
    Dist(Span(n), q, t[n]);
    DivUnique(x + Span(n) * t[n], Span(n), q + t[n], r);
    DivTwice(x + Span(n) * t[n], Span(n), Width(n));
  }

  lemma SpanIsPlace(n: nat)
    requires n < 10
    ensures Span(n) == Place(n)
  {
  }

  /** The estimate from the top limb alone has the sign of the whole number. */
  lemma SignOf(t: seq<int>)
    requires |t| == 10 && Tight(t)
    ensures var q0 := (19 * t[9] + T24) / T25;
            (q0 + Value(t)) / E10 == (if Value(t) >= 0 then 0 else -1)
    ensures -P < Value(t) < P
  {
    hide Tight;
    TightLimbs(t);
    var q0 := (19 * t[9] + T24) / T25;
    var v := Value(t);
    if v >= 0 {
      DivUnique(q0 + v, E10, 0, q0 + v);
    } else {
      DivUnique(q0 + v, E10, -1, q0 + v + E10);
    }
  }

  lemma TightLimbs(t: seq<int>)
    requires |t| == 10 && Tight(t)
    ensures forall j :: 0 <= j < 10 ==> -36909876 < t[j] < 36909876
    ensures forall j :: 0 <= j < 10 && j % 2 == 1 ==> -18454938 < t[j] < 18454938
  {
  }

  /** Limb `n` brought into its range: value and excess together are unchanged. */
  lemma SettleStep(start: int, t: seq<int>, u: seq<int>, n: nat, q: int)
    requires |t| == 10 && |u| == 10 && n < 10 && u[n] == t[n]
    requires start + Weighted(t, n) == Weighted(u, n) + q * Span(n)
    ensures var q' := (u[n] + q) / Width(n);
            var u' := u[n := u[n] + q - q' * Width(n)];
            && start + Weighted(t, n + 1) == Weighted(u', n + 1) + q' * Span(n + 1)
            && 0 <= u'[n] < Width(n)
  {
    hide Span, Place;
    var w := Width(n);
    var q' := (u[n] + q) / w;
    var u' := u[n := u[n] + q - q' * w];
    WeightedAgree(u, u', n);
    SpanStep(n);
    SpanIsPlace(n);
    var p := Span(n);
    Dist(p, u[n] + q, q' * w);
    Dist(p, u[n], q);
    Assoc(q', w, p);
  }

  lemma {:induction false} WeightedAgree(t: seq<int>, u: seq<int>, n: nat)
    requires |t| == 10 && |u| == 10 && n <= 10 && t[..n] == u[..n]
    ensures Weighted(t, n) == Weighted(u, n)
  {
    if n > 0 {
      assert t[..n - 1] == t[..n][..n - 1] && u[..n - 1] == u[..n][..n - 1];
      assert t[n - 1] == t[..n][n - 1] && u[n - 1] == u[..n][n - 1];
      WeightedAgree(t, u, n - 1);
    }
  }

  /** Whether the number is negative: -1 if so, otherwise 0. */
  method SignCarry(t: array<int>) returns (q: int)
    requires t.Length == 10 && Tight(t[..])
    ensures q == if Value(t[..]) >= 0 then 0 else -1
  {
    hide Tight, Value, Weighted, Span;
    ghost var ts := t[..];
    SignOf(ts);
    TightLimbs(ts);
    q := (19 * t[9] + T24) / T25;
    ghost var q0 := q;
    WeightedStart(ts);
    DivUnique(q0, 1, q0, 0);
    for i := 0 to 5
      invariant q == (q0 + Weighted(ts, 2 * i)) / Span(2 * i)
      invariant -64 < q < 64
    {
      FloorStep(q0, ts, 2 * i, q);
      q := q + t[2 * i];
      q := q / T26;
      FloorStep(q0, ts, 2 * i + 1, q);
      q := q + t[2 * i + 1];
      q := q / T25;
    }
    ValueIsWeighted(ts);
    SpanEnd();
  }

  lemma WeightedStart(t: seq<int>)
    requires |t| == 10
    ensures Weighted(t, 0) == 0 && Span(0) == 1
  {
  }

  lemma SpanEnd()
    ensures Span(10) == E10
  {
  }

  /** One step of the last loop of fe_tobytes. */
  method SettleLimb(t: array<int>, n: nat, q: int, ghost start: int, ghost ts: seq<int>) returns (q': int)
    requires t.Length == 10 && |ts| == 10 && n < 10 && t[n..] == ts[n..]
    requires -64 < q < 64 && -36909876 < ts[n] < 36909876
    requires forall j :: 0 <= j < n ==> 0 <= t[j] < Width(j)
    requires start + Weighted(ts, n) == Weighted(t[..], n) + q * Span(n)
    modifies t
    ensures -64 < q' < 64 && t[n + 1..] == ts[n + 1..]
    ensures forall j :: 0 <= j < n + 1 ==> 0 <= t[j] < Width(j)
    ensures start + Weighted(ts, n + 1) == Weighted(t[..], n + 1) + q' * Span(n + 1)
  {
    hide Weighted, Span;
    ghost var us := t[..];
    assert t[n] == t[n..][0] == ts[n..][0] == ts[n];
    SettleStep(start, ts, us, n, q);
    var w := if n % 2 == 0 then T26 else T25;
    t[n] := t[n] + q;
    q' := t[n] / w;
    t[n] := t[n] - q' * w;
    assert t[..] == us[n := us[n] + q - q' * Width(n)];
    assert t[n + 1..] == us[n..][1..] == ts[n..][1..] == ts[n + 1..];
  }

  /** The limbs of the number plus `start`, each in its range, and the excess past 2^255. */
  method Settle(t: array<int>, start: int) returns (q: int)
    requires t.Length == 10 && -20 < start < 20 && forall j :: 0 <= j < 10 ==> -36909876 < t[j] < 36909876
    modifies t
    ensures forall j :: 0 <= j < 10 ==> 0 <= t[j] < Width(j)
    ensures old(Value(t[..])) + start == Value(t[..]) + q * E10
  {
    hide Value, Weighted, Span, Width;
    ghost var ts := t[..];
    q := start;
    WeightedStart(ts);
    WeightedStart(t[..]);
    for i := 0 to 5
      invariant t[2 * i..] == ts[2 * i..]
      invariant forall j :: 0 <= j < 2 * i ==> 0 <= t[j] < Width(j)
      invariant start + Weighted(ts, 2 * i) == Weighted(t[..], 2 * i) + q * Span(2 * i)
      invariant -64 < q < 64
    {
      q := SettleLimb(t, 2 * i, q, start, ts);
      q := SettleLimb(t, 2 * i + 1, q, start, ts);
    }
    ValueIsWeighted(ts);
    ValueIsWeighted(t[..]);
    SpanEnd();
  }

  // ---------- packing ----------

  ghost predicate Settled(t: seq<int>)
    requires |t| == 10
  {
    forall j :: 0 <= j < 10 ==> 0 <= t[j] < Width(j)
  }

  /** A left shift of a 32-bit word: what passes bit 32 is dropped. */
  function ShiftLeft(x: nat, unit: nat): (r: nat)
    requires unit > 0 && W % unit == 0
    ensures r % unit == 0
  {
    ShiftDrops(x, unit);
    x * unit % W
  }

  lemma ShiftDrops(x: nat, unit: nat)
    requires unit > 0 && W % unit == 0
    ensures W / unit > 0
    ensures x * unit % W == x % (W / unit) * unit && x * unit % W % unit == 0
  {
    var k := W / unit;
    assert W == unit * k;
    if k <= 0 { MulMono(unit, k, 0); }
    var q, r := x / k, x % k;
    assert x == k * q + r;
    Dist(unit, k * q, r);
    Assoc(unit, k, q);
    MulMono(unit, r, k - 1);
    Dist(unit, k, 1);
    MulNonneg(unit, r);
    DivUnique(x * unit, W, q, r * unit);
    DivUnique(r * unit, unit, r, 0);
  }

  /** The eight words stored by fe_tobytes. */
  function Packed(t: seq<int>): (ws: seq<nat>)
    requires |t| == 10 && Settled(t)
    ensures |ws| == 8
  {
    [Join(t[0], ShiftLeft(t[1], 0x400_0000), 0x400_0000),
     Join(t[1] / 0x40, ShiftLeft(t[2], 0x8_0000), 0x8_0000),
     Join(t[2] / 0x2000, ShiftLeft(t[3], 0x2000), 0x2000),
     Join(t[3] / 0x8_0000, ShiftLeft(t[4], 0x40), 0x40),
     Join(t[5], ShiftLeft(t[6], 0x200_0000), 0x200_0000),
     Join(t[6] / 0x80, ShiftLeft(t[7], 0x8_0000), 0x8_0000),
     Join(t[7] / 0x2000, ShiftLeft(t[8], 0x1000), 0x1000),
     Join(t[8] / 0x10_0000, ShiftLeft(t[9], 0x40), 0x40)]
  }

  lemma LowWords(t: seq<int>)
    requires |t| == 10 && Settled(t)
    ensures var ws := Packed(t);
            && ws[0] == t[0] + t[1] % 0x40 * 0x400_0000 < W
            && ws[1] == t[1] / 0x40 + t[2] % 0x2000 * 0x8_0000 < W
            && ws[2] == t[2] / 0x2000 + t[3] % 0x8_0000 * 0x2000 < W
            && ws[3] == t[3] / 0x8_0000 + t[4] * 0x40 < W
  {
    hide ShiftLeft;
    ShiftIs(t[1], 0x400_0000, 0x40);
    ShiftIs(t[2], 0x8_0000, 0x2000);
    ShiftIs(t[3], 0x2000, 0x8_0000);
    ShiftIs(t[4], 0x40, 0x400_0000);
  }

  lemma HighWords(t: seq<int>)
    requires |t| == 10 && Settled(t)
    ensures var ws := Packed(t);
            && ws[4] == t[5] + t[6] % 0x80 * 0x200_0000 < W
            && ws[5] == t[6] / 0x80 + t[7] % 0x2000 * 0x8_0000 < W
            && ws[6] == t[7] / 0x2000 + t[8] % 0x10_0000 * 0x1000 < W
            && ws[7] == t[8] / 0x10_0000 + t[9] * 0x40 < W
  {
    hide ShiftLeft;
    ShiftIs(t[6], 0x200_0000, 0x80);
    ShiftIs(t[7], 0x8_0000, 0x2000);
    ShiftIs(t[8], 0x1000, 0x10_0000);
    ShiftIs(t[9], 0x40, 0x400_0000);
  }

  lemma ShiftIs(x: nat, unit: nat, k: nat)
    requires unit > 0 && k > 0 && W % unit == 0 && W / unit == k
    ensures ShiftLeft(x, unit) == x % k * unit
  {
    ShiftDrops(x, unit);
  }

  /** The words hold exactly the limbs, none overlapping. */
  lemma PackedValue(t: seq<int>)
    requires |t| == 10 && Settled(t)
    ensures Digits(W, Packed(t)) && Val(W, Packed(t)) == Value(t)
  {
    hide Val, Packed, Settled;
    LowWords(t);
    HighWords(t);
    ModL.Val8(Packed(t));
  }

  /** fe_tobytes: the one encoding of the element below 2^255 - 19. */
  method ToBytes(h: array<int>) returns (s: seq<nat>)
    requires h.Length == 10 && Tight(h[..])
    ensures |s| == 32 && Digits(256, s)
    ensures Val(256, s) == Value(h[..]) % P
  {
    hide Val, Tight, Value, Settled, Packed, Digits, StoreWords;
    ghost var hs := h[..];
    var t := new int[10](i requires 0 <= i < 10 reads h => h[i]);
    assert t[..] == hs;
    SignOf(hs);
    TightLimbs(hs);
    var q := SignCarry(t);
    q := Settle(t, q * 19);
    IsSettled(t[..]);
    var ws := Packed(t[..]);
    PackedValue(t[..]);
    ModL.Powers();
    s := StoreWords(ws);
    StoreKeepsValue(ws);
    SettledValue(t[..]);
    ReducedValue(Value(hs), Value(t[..]), q);
  }

  lemma IsSettled(t: seq<int>)
    requires |t| == 10 && forall j :: 0 <= j < 10 ==> 0 <= t[j] < Width(j)
    ensures Settled(t)
  {
  }

  lemma SettledValue(t: seq<int>)
    requires |t| == 10 && Settled(t)
    ensures 0 <= Value(t) < E10
  {
  }

  lemma ReducedValue(v: int, r: int, q: int)
    requires -P < v < P && 0 <= r < E10
    requires v + (if v >= 0 then 0 else -1) * 19 == r + q * E10
    ensures r == v % P
  {
    if v >= 0 {
      assert q == 0;
      DivUnique(v, P, 0, r);
    } else {
      assert q == -1;
      DivUnique(v, P, -1, r);
    }
  }

  // ---------- round trips ----------

  /** Decoding and encoding again: the top bit is dropped, the rest reduced; exactly the canonical encodings survive. */
  method Reencode(s: seq<nat>) returns (s': seq<nat>)
    requires |s| == 32 && Digits(256, s)
    ensures |s'| == 32 && Digits(256, s') && Val(256, s') == Val(256, s) % E10 % P
    ensures s' == s <==> Val(256, s) < P
  {
    hide Val, Tight, Cong, Value, Bits.Pow2, Digits;
    var h := new int[10];
    FromBytesMask(h, s, 1);
    TwentyThreeBits();
    s' := ToBytes(h);
    CongMod(Value(h[..]), Val(256, s) % E10, P);
    if Val(256, s) < P {
      DivUnique(Val(256, s), E10, 0, Val(256, s));
      DivUnique(Val(256, s), P, 0, Val(256, s));
      SameDigits(256, s, s');
    }
  }

  lemma TwentyThreeBits()
    ensures E232 * Bits.Pow2(23) == E10
  {
    assert Bits.Pow2(8) == 0x100;
    assert Bits.Pow2(16) == 0x10000;
    assert Bits.Pow2(23) == 0x80_0000;
  }

  /** Encoding and decoding again represents the same element. */
  method Reload(h: array<int>, h': array<int>)
    requires h.Length == 10 && h'.Length == 10 && h != h' && Tight(h[..])
    modifies h'
    ensures Tight(h'[..]) && Cong(Value(h'[..]), Value(h[..]), P)
  {
    hide Val, Tight, Cong, Value, Bits.Pow2, Digits;
    var s := ToBytes(h);
    ghost var v := Value(h[..]);
    FromBytesMask(h', s, 1);
    TwentyThreeBits();
    DivUnique(v % P, E10, 0, v % P);
    DivUnique(v % P, P, 0, v % P);
    CongMod(v % P, v, P);
    CongTrans(Value(h'[..]), v % P, v, P);
  }
}
