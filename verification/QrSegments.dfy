/** The bit stream of a QR code: segments of characters, and what a reader gets out of them. */
module QrSegments {
  import opened Arith
  import opened Radix
  import opened Bits

  // ---------- numbers as bits, most significant first ----------

  function NBits(val: nat, len: nat): (bits: seq<bool>)
    ensures |bits| == len
    decreases len
  {
    if len == 0 then [] else NBits(val / 2, len - 1) + [val % 2 == 1]
  }

  function Num(bits: seq<bool>): nat {
    if bits == [] then 0 else 2 * Num(bits[..|bits| - 1]) + (if bits[|bits| - 1] then 1 else 0)
  }

  lemma {:induction false} NumOfBits(val: nat, len: nat)
    requires val < Pow2(len)
    ensures Num(NBits(val, len)) == val
    decreases len
  {
    if len > 0 {
      NumOfBits(val / 2, len - 1);
      assert NBits(val, len)[..len - 1] == NBits(val / 2, len - 1);
    }
  }

  // ---------- modes ----------

  datatype Mode = Numeric | Alphanumeric | Bytes

  function ModeBits(mode: Mode): nat {
    match mode case Numeric => 1 case Alphanumeric => 2 case Bytes => 4
  }

  /** Mode indicators 0001, 0010 and 0100. */
  function Indicator(mode: Mode): seq<bool> {
    match mode
    case Numeric => [false, false, false, true]
    case Alphanumeric => [false, false, true, false]
    case Bytes => [false, true, false, false]
  }

  /** The indicators are those numbers in four bits. */
  lemma ModeIs(mode: Mode)
    ensures NBits(ModeBits(mode), 4) == Indicator(mode)
  {
    assert forall v :: NBits(v, 0) == [];
    match mode
    case Numeric => assert NBits(0, 1) == [false] && NBits(0, 2) == [false, false] && NBits(0, 3) == [false, false, false];
    case Alphanumeric => assert NBits(0, 1) == [false] && NBits(0, 2) == [false, false] && NBits(1, 3) == [false, false, true];
    case Bytes => assert NBits(0, 1) == [false] && NBits(1, 2) == [false, true] && NBits(2, 3) == [false, true, false];
  }

  /** The width of the character count: Mode::numCharCountBits. */
  function CharCountBits(mode: Mode, version: nat): nat
    requires version <= 40
  {
    var k := (version + 7) / 17;
    match mode
    case Numeric => if k == 0 then 10 else if k == 1 then 12 else 14
    case Alphanumeric => if k == 0 then 9 else if k == 1 then 11 else 13
    case Bytes => if k == 0 then 8 else 16
  }

  const CHARSET: seq<nat> := [
    48, 49, 50, 51, 52, 53, 54, 55, 56, 57] + [
    65, 66, 67, 68, 69, 70, 71, 72, 73, 74, 75, 76, 77, 78, 79, 80, 81, 82, 83, 84, 85, 86, 87, 88, 89, 90] + [
    32, 36, 37, 42, 43, 45, 46, 47, 58]

  /** How many symbols a character can be. */
  function Base(mode: Mode): nat {
    match mode case Numeric => 10 case Alphanumeric => 45 case Bytes => 256
  }

  /** The character with the given index. */
  function CharOf(mode: Mode, d: nat): nat
    requires d < Base(mode)
  {
    match mode case Numeric => 48 + d case Alphanumeric => CHARSET[d] case Bytes => d
  }

  /** How many characters go into the next group. */
  function Size(mode: Mode, count: nat): (n: nat)
    requires count > 0
    ensures 0 < n <= count
  {
    match mode
    case Numeric => if count >= 3 then 3 else count
    case Alphanumeric => if count >= 2 then 2 else 1
    case Bytes => 1
  }

  /** How many bits a group of `n` characters takes. */
  function Width(mode: Mode, n: nat): (w: nat)
    ensures 3 * n <= w
  {
    match mode
    case Numeric => 3 * n + 1
    case Alphanumeric => 5 * n + 1
    case Bytes => 8 * n
  }

  lemma GroupFits(mode: Mode, count: nat)
    requires count > 0
    ensures Pw(Base(mode), Size(mode, count)) <= Pow2(Width(mode, Size(mode, count)))
  {
    assert Pow2(4) == 16 && Pow2(6) == 64 && Pow2(7) == 128 && Pow2(8) == 256 && Pow2(10) == 1024 && Pow2(11) == 2048;
    assert Pw(10, 1) == 10 && Pw(10, 2) == 100 && Pw(10, 3) == 1000 && Pw(45, 1) == 45 && Pw(45, 2) == 2025 && Pw(256, 1) == 256;
  }

  // ---------- groups of characters ----------

  ghost predicate Within(base: nat, ds: seq<nat>) {
    forall i :: 0 <= i < |ds| ==> ds[i] < base
  }

  /** The number with the given digits, most significant first. */
  function Collapse(base: nat, ds: seq<nat>): nat {
    if ds == [] then 0 else Collapse(base, ds[..|ds| - 1]) * base + ds[|ds| - 1]
  }

  /** The last `n` digits of a number. */
  function Expand(base: nat, val: nat, n: nat): (ds: seq<nat>)
    requires base > 0
    ensures |ds| == n && forall i :: 0 <= i < n ==> ds[i] < base
    decreases n
  {
    if n == 0 then [] else Expand(base, val / base, n - 1) + [val % base]
  }

  lemma {:induction false} CollapseBound(base: nat, ds: seq<nat>)
    requires base > 0 && Within(base, ds)
    ensures Collapse(base, ds) < Pw(base, |ds|)
  {
    if ds != [] {
      var n := |ds| - 1;
      CollapseBound(base, ds[..n]);
      MulMono(base, Collapse(base, ds[..n]) + 1, Pw(base, n));
      Dist(base, Collapse(base, ds[..n]), 1);
    }
  }

  lemma {:induction false} ExpandCollapse(base: nat, ds: seq<nat>)
    requires base > 0 && Within(base, ds)
    ensures Expand(base, Collapse(base, ds), |ds|) == ds
  {
    if ds != [] {
      var n := |ds| - 1;
      ExpandCollapse(base, ds[..n]);
      DivUnique(Collapse(base, ds), base, Collapse(base, ds[..n]), ds[n]);
      assert ds == ds[..n] + [ds[n]];
    }
  }

  /** The bits of a segment whose characters have the given indices. */
  function GroupBits(mode: Mode, ds: seq<nat>): seq<bool> {
    if ds == [] then []
    else
      var n := Size(mode, |ds|);
      NBits(Collapse(Base(mode), ds[..n]), Width(mode, n)) + GroupBits(mode, ds[n..])
  }

  // ---------- reading ----------

  datatype Error = DataOverflow | DataUnderflow | NotModelled

  /** What reading yields: character indices or characters, and the bits behind them. */
  datatype Result = Ok(out: seq<nat>, rest: seq<bool>) | Fail(error: Error)

  /** The characters of a segment, group by group. */
  function Groups(mode: Mode, bits: seq<bool>, count: nat): (r: Result)
    ensures r.Ok? ==> |r.out| == count && |r.rest| <= |bits|
    decreases count
  {
    if count == 0 then Ok([], bits)
    else
      var n := Size(mode, count);
      var w := Width(mode, n);
      if |bits| < w then Fail(DataUnderflow)
      else Prepend(Chars(mode, Expand(Base(mode), Num(bits[..w]), n)), Groups(mode, bits[w..], count - n))
  }

  function Prepend(cs: seq<nat>, r: Result): Result {
    match r
    case Fail(e) => r
    case Ok(out, rest) => Ok(cs + out, rest)
  }

  function Chars(mode: Mode, ds: seq<nat>): (cs: seq<nat>)
    requires forall i :: 0 <= i < |ds| ==> ds[i] < Base(mode)
    ensures |cs| == |ds|
  {
    seq(|ds|, i requires 0 <= i < |ds| => CharOf(mode, ds[i]))
  }

  lemma CharsConcat(mode: Mode, a: seq<nat>, b: seq<nat>)
    requires Within(Base(mode), a) && Within(Base(mode), b)
    ensures Within(Base(mode), a + b) && Chars(mode, a + b) == Chars(mode, a) + Chars(mode, b)
  {
    hide CharOf;
  }

  /** Reading back the bits of a group. */
  lemma GroupReadsBack(mode: Mode, head: seq<nat>, w: nat)
    requires Within(Base(mode), head) && Pw(Base(mode), |head|) <= Pow2(w)
    ensures Expand(Base(mode), Num(NBits(Collapse(Base(mode), head), w)), |head|) == head
  {
    hide NBits, Num, Collapse, Expand, Pw, Pow2;
    CollapseBound(Base(mode), head);
    NumOfBits(Collapse(Base(mode), head), w);
    ExpandCollapse(Base(mode), head);
  }

  /** Reading back the bits of a segment gives its characters and stops right behind them. */
  lemma {:induction false} GroupsReadBack(mode: Mode, ds: seq<nat>, rest: seq<bool>)
    requires Within(Base(mode), ds)
    ensures Groups(mode, GroupBits(mode, ds) + rest, |ds|) == Ok(Chars(mode, ds), rest)
    decreases |ds|
  {
    hide NBits, Num, Collapse, Expand, Pw, Pow2, CharOf, Chars, Base, Size, Width;
    if ds == [] {
      assert GroupBits(mode, ds) + rest == rest;
      NoChars(mode);
    } else {
      var n := Size(mode, |ds|);
      var w := Width(mode, n);
      var head, tail := ds[..n], ds[n..];
      var bits, more := NBits(Collapse(Base(mode), head), w), GroupBits(mode, tail) + rest;
      assert GroupBits(mode, ds) + rest == bits + more;
      assert (bits + more)[..w] == bits && (bits + more)[w..] == more;
      GroupFits(mode, |ds|);
      GroupReadsBack(mode, head, w);
      GroupsReadBack(mode, tail, rest);
      CharsConcat(mode, head, tail);
      assert ds == head + tail;
    }
  }

  lemma NoChars(mode: Mode)
    ensures Chars(mode, []) == []
  {
  }

  // ---------- whole payloads ----------

  const MAX_PAYLOAD := 8896

  /** A segment after its mode bits, when `len` characters have been read before it. */
  function ReadSegment(mode: Mode, bits: seq<bool>, version: nat, len: nat): (r: Result)
    requires version <= 40
    ensures r.Ok? ==> |r.rest| <= |bits|
  {
    var k := if CharCountBits(mode, version) <= |bits| then CharCountBits(mode, version) else |bits|;
    var count := Num(bits[..k]);
    if len + count + 1 > MAX_PAYLOAD then Fail(DataOverflow) else Groups(mode, bits[k..], count)
  }

  function ModeOf(t: nat): (m: Mode)
    requires t == 1 || t == 2 || t == 4
    ensures ModeBits(m) == t
  {
    if t == 1 then Numeric else if t == 2 then Alphanumeric else Bytes
  }

  /** The characters of all segments up to a terminator or fewer than four bits. */
  function Payload(bits: seq<bool>, version: nat, len: nat): Result
    requires version <= 40
    decreases |bits|
  {
    if |bits| < 4 then Ok([], bits)
    else
      var t := Num(bits[..4]);
      if t == 1 || t == 2 || t == 4 then
        match ReadSegment(ModeOf(t), bits[4..], version, len)
        case Fail(e) => Fail(e)
        case Ok(out, rest) => Prepend(out, Payload(rest, version, len + |out|))
      else if t == 7 || t == 8 then Fail(NotModelled)
      else Ok([], bits[4..])
  }

  // ---------- writing ----------

  /** A mode with the indices of its characters. */
  datatype Text = Text(mode: Mode, ds: seq<nat>)

  datatype Segment = Segment(mode: Mode, numChars: nat, data: seq<bool>)

  function SegmentOf(t: Text): Segment {
    Segment(t.mode, |t.ds|, GroupBits(t.mode, t.ds))
  }

  function SegmentsOf(ts: seq<Text>): (segs: seq<Segment>)
    ensures |segs| == |ts|
  {
    seq(|ts|, i requires 0 <= i < |ts| => SegmentOf(ts[i]))
  }

  ghost predicate Sound(t: Text) {
    Within(Base(t.mode), t.ds)
  }

  function SegmentBits(seg: Segment, version: nat): seq<bool>
    requires version <= 40
  {
    NBits(ModeBits(seg.mode), 4) + NBits(seg.numChars, CharCountBits(seg.mode, version)) + seg.data
  }

  function AllBits(segs: seq<Segment>, version: nat): seq<bool>
    requires version <= 40
  {
    if segs == [] then [] else AllBits(segs[..|segs| - 1], version) + SegmentBits(segs[|segs| - 1], version)
  }

  ghost predicate AllSound(ts: seq<Text>) {
    forall t :: t in ts ==> Sound(t)
  }

  ghost function AllChars(ts: seq<Text>): seq<nat>
    requires AllSound(ts)
  {
    if ts == [] then []
    else
      var t := ts[|ts| - 1];
      assert Sound(t) && forall u :: u in ts[..|ts| - 1] ==> u in ts;
      AllChars(ts[..|ts| - 1]) + Chars(t.mode, t.ds)
  }

  lemma CharsStep(ts: seq<Text>, n: nat)
    requires AllSound(ts) && n < |ts|
    ensures AllSound(ts[..n]) && AllSound(ts[..n + 1]) && Sound(ts[n])
    ensures AllChars(ts[..n + 1]) == AllChars(ts[..n]) + Chars(ts[n].mode, ts[n].ds)
  {
    assert (forall u :: u in ts[..n] ==> u in ts) && forall u :: u in ts[..n + 1] ==> u in ts;
    assert ts[..n + 1][..n] == ts[..n] && ts[n] in ts;
  }

  /** Every character count fits its field. */
  ghost predicate Countable(ts: seq<Text>, version: nat)
    requires version <= 40
  {
    forall i :: 0 <= i < |ts| ==> |ts[i].ds| < Pow2(CharCountBits(ts[i].mode, version))
  }

  /** What stands behind the segments makes the reader stop. */
  ghost predicate Stops(tail: seq<bool>) {
    |tail| < 4 || tail[..4] == [false, false, false, false]
  }

  lemma FirstSegment(t: Text, version: nat, len: nat, more: seq<bool>)
    requires version <= 40 && Sound(t) && |t.ds| < Pow2(CharCountBits(t.mode, version))
    requires len + |t.ds| + 1 <= MAX_PAYLOAD
    ensures Payload(SegmentBits(SegmentOf(t), version) + more, version, len)
         == Prepend(Chars(t.mode, t.ds), Payload(more, version, len + |t.ds|))
  {
    hide NBits, Num, Pow2, Groups, GroupBits, Chars, Sound, Base;
    var cc := CharCountBits(t.mode, version);
    var body := GroupBits(t.mode, t.ds) + more;
    var after := NBits(|t.ds|, cc) + body;
    var bits := SegmentBits(SegmentOf(t), version) + more;
    assert bits[..4] == NBits(ModeBits(t.mode), 4) && bits[4..] == after;
    ModeReadsBack(t.mode);
    NumOfBits(|t.ds|, cc);
    assert after[..cc] == NBits(|t.ds|, cc) && after[cc..] == body;
    SoundWithin(t);
    GroupsReadBack(t.mode, t.ds, more);
  }

  lemma SoundWithin(t: Text)
    requires Sound(t)
    ensures Within(Base(t.mode), t.ds)
  {
  }

  lemma ModeReadsBack(mode: Mode)
    ensures Num(NBits(ModeBits(mode), 4)) == ModeBits(mode)
  {
    assert Pow2(4) == 16;
    NumOfBits(ModeBits(mode), 4);
  }

  lemma PrependChars(before: seq<nat>, c: seq<nat>, after: seq<nat>, r: Result, total: seq<nat>)
    requires r.Ok? && after == before + c && after + r.out == total
    ensures Prepend(c, r).Ok? && before + Prepend(c, r).out == total
  {
  }

  lemma CountableAt(ts: seq<Text>, n: nat, version: nat)
    requires version <= 40 && Countable(ts, version) && n < |ts|
    ensures |ts[n].ds| < Pow2(CharCountBits(ts[n].mode, version))
  {
  }

  /** All segments read back, up to the terminator and never into the padding. */
  lemma {:induction false} PayloadReadsBack(ts: seq<Text>, n: nat, version: nat, tail: seq<bool>)
    requires version <= 40 && n <= |ts| && Stops(tail)
    requires AllSound(ts) && Countable(ts, version)
    requires |AllChars(ts)| + 1 <= MAX_PAYLOAD
    ensures AllSound(ts[..n]) && |AllChars(ts[..n])| <= |AllChars(ts)|
    ensures var r := Payload(BitsFrom(ts, n, version) + tail, version, |AllChars(ts[..n])|);
            r.Ok? && AllChars(ts[..n]) + r.out == AllChars(ts)
    decreases |ts| - n
  {
    hide Payload, Sound, AllSound, Countable, Chars, SegmentBits, SegmentOf, Pow2, CharCountBits, AllChars, Prepend;
    if n == |ts| {
      assert ts[..n] == ts;
      assert BitsFrom(ts, n, version) + tail == tail;
      StopsHere(tail, version, |AllChars(ts)|);
    } else {
      var t := ts[n];
      CharsStep(ts, n);
      SoundWithin(t);
      var before, c := AllChars(ts[..n]), Chars(t.mode, t.ds);
      CountableAt(ts, n, version);
      PayloadReadsBack(ts, n + 1, version, tail);
      var more := BitsFrom(ts, n + 1, version) + tail;
      assert BitsFrom(ts, n, version) + tail == SegmentBits(SegmentOf(t), version) + more;
      FirstSegment(t, version, |before|, more);
      PrependChars(before, c, AllChars(ts[..n + 1]), Payload(more, version, |before| + |t.ds|), AllChars(ts));
    }
  }

  /** The bits of the segments from the `n`-th on. */
  function BitsFrom(ts: seq<Text>, n: nat, version: nat): seq<bool>
    requires version <= 40 && n <= |ts|
    decreases |ts| - n
  {
    if n == |ts| then [] else SegmentBits(SegmentOf(ts[n]), version) + BitsFrom(ts, n + 1, version)
  }

  lemma {:induction false} BitsFromAll(ts: seq<Text>, n: nat, version: nat)
    requires version <= 40 && n <= |ts|
    ensures AllBits(SegmentsOf(ts)[..n], version) + BitsFrom(ts, n, version) == AllBits(SegmentsOf(ts), version)
    decreases |ts| - n
  {
    hide SegmentBits, SegmentOf;
    var segs := SegmentsOf(ts);
    if n == |ts| {
      assert segs[..n] == segs;
    } else {
      assert segs[..n + 1][..n] == segs[..n];
      BitsFromAll(ts, n + 1, version);
    }
  }

  lemma StopsHere(tail: seq<bool>, version: nat, len: nat)
    requires version <= 40 && Stops(tail)
    ensures Payload(tail, version, len).Ok? && Payload(tail, version, len).out == []
  {
    if |tail| >= 4 {
      ZeroNum();
    }
  }

  lemma ZeroNum()
    ensures Num([false, false, false, false]) == 0
  {
    assert [false][..0] == [];
    assert Num([false]) == 0;
    assert [false, false][..1] == [false];
    assert Num([false, false]) == 0;
    assert [false, false, false][..2] == [false, false];
    assert Num([false, false, false]) == 0;
    assert [false, false, false, false][..3] == [false, false, false];
  }
}
