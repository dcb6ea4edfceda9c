/** Building the data codewords of a symbol from segments (`qrcodegen.cpp`). */
module QrEncode {
  import opened Arith
  import opened ByteWords
  import opened Bits
  import opened QrBits
  import opened QrSegments
  import opened Wrappers

  const INT_MAX := 0x7fff_ffff

  class BitBuffer {
    var bits: seq<bool>

    constructor ()
      ensures bits == []
    {
      bits := [];
    }

    /** Appends the low `len` bits of a value that has no others; anything else is out of range. */
    method AppendBits(val: nat, len: int) returns (ok: bool)
      modifies this
      ensures ok == (0 <= len <= 31 && val < Bits.Pow2(len))
      ensures bits == if ok then old(bits) + NBits(val, len) else old(bits)
    {
      hide NBits, Bits.Pow2, ShiftRight;
      if len < 0 || len > 31 { return false; }
      ShiftOut(val, len);
      if ShiftRight(val, len) != 0 { return false; }
      ghost var before := bits;
      BitsEnds(val, len);
      var i := len - 1;
      while i >= 0
        invariant -1 <= i < len
        invariant bits == before + NBits(ShiftRight(val, i + 1), len - 1 - i)
      {
        NextBitOut(val, i, len);
        bits := bits + [ShiftRight(val, i) % 2 == 1];
        i := i - 1;
      }
      ok := true;
    }
  }

  /** The C operator `>>` on an unsigned value. */
  function ShiftRight(val: nat, i: nat): nat {
    DivNonneg(val, Bits.Pow2(i));
    val / Bits.Pow2(i)
  }

  lemma ShiftOut(val: nat, len: nat)
    ensures ShiftRight(val, len) == 0 <==> val < Bits.Pow2(len)
  {
    hide Bits.Pow2;
    if val < Bits.Pow2(len) { DivUnique(val, Bits.Pow2(len), 0, val); }
  }

  lemma ShiftStep(val: nat, i: nat)
    ensures ShiftRight(val, i + 1) == ShiftRight(val, i) / 2
  {
    DivTwice(val, Bits.Pow2(i), 2);
  }

  lemma NextBitOut(val: nat, i: nat, len: nat)
    requires i < len
    ensures NBits(ShiftRight(val, i), len - i) == NBits(ShiftRight(val, i + 1), len - 1 - i) + [ShiftRight(val, i) % 2 == 1]
  {
    hide ShiftRight;
    ShiftStep(val, i);
  }

  lemma BitsEnds(val: nat, len: nat)
    ensures NBits(ShiftRight(val, len), 0) == [] && ShiftRight(val, 0) == val
  {
  }

  // ---------- making segments ----------

  /** A C string: bytes without a NUL. */
  ghost predicate IsText(text: seq<nat>) {
    forall i :: 0 <= i < |text| ==> 0 < text[i] < 256
  }

  lemma FullGroup(mode: Mode, count: nat, more: nat)
    requires count > 0 && count % Size(mode, 3) == 0
    ensures count >= Size(mode, 3) && (count - Size(mode, 3)) % Size(mode, 3) == 0
    ensures Size(mode, count) == Size(mode, 3) && Size(mode, count + more) == Size(mode, 3)
  {
  }

  /** Groups do not interact across a boundary between full groups. */
  lemma {:induction false} GroupsConcat(mode: Mode, a: seq<nat>, b: seq<nat>)
    requires |a| % Size(mode, 3) == 0
    ensures GroupBits(mode, a + b) == GroupBits(mode, a) + GroupBits(mode, b)
    decreases |a|
  {
    hide NBits, Collapse, Base, Width, Size;
    if a == [] {
      assert a + b == b;
    } else {
      var n := Size(mode, 3);
      FullGroup(mode, |a|, |b|);
      assert (a + b)[..n] == a[..n] && (a + b)[n..] == a[n..] + b;
      GroupsConcat(mode, a[n..], b);
    }
  }

  lemma OneGroup(mode: Mode, g: seq<nat>)
    requires g != [] && Size(mode, |g|) == |g|
    ensures GroupBits(mode, g) == NBits(Collapse(Base(mode), g), Width(mode, |g|))
  {
    hide NBits, Collapse, Base, Width;
    assert g[..|g|] == g && g[|g|..] == [];
  }

  /** A group that is ready to be appended fits its width. */
  lemma GroupIsSmall(mode: Mode, g: seq<nat>)
    requires g != [] && Size(mode, |g|) == |g| && Within(Base(mode), g)
    ensures Collapse(Base(mode), g) < Bits.Pow2(Width(mode, |g|)) && Width(mode, |g|) <= 31
  {
    hide Collapse, Bits.Pow2;
    GroupFits(mode, |g|);
    CollapseBound(Base(mode), g);
  }

  lemma CollapseNext(base: nat, g: seq<nat>, d: nat)
    ensures Collapse(base, g + [d]) == Collapse(base, g) * base + d
  {
    assert (g + [d])[..|g|] == g;
  }

  /** The accumulating loop shared by the makers of numeric and alphanumeric segments. */
  method Accumulate(mode: Mode, bb: BitBuffer, accumData: nat, accumCount: nat, d: nat, ghost done: seq<nat>, ghost open: seq<nat>)
    returns (accumData': nat, accumCount': nat, ghost done': seq<nat>, ghost open': seq<nat>)
    requires mode != Bytes && d < Base(mode) && Within(Base(mode), open)
    requires bb.bits == GroupBits(mode, done) && |done| % Size(mode, 3) == 0
    requires accumData == Collapse(Base(mode), open) && accumCount == |open| < Size(mode, 3)
    modifies bb
    ensures done' + open' == done + open + [d] && Within(Base(mode), open')
    ensures bb.bits == GroupBits(mode, done') && |done'| % Size(mode, 3) == 0
    ensures accumData' == Collapse(Base(mode), open') && accumCount' == |open'| < Size(mode, 3)
  {
    hide GroupBits, NBits, Collapse, Bits.Pow2;
    CollapseNext(Base(mode), open, d);
    accumData' := accumData * Base(mode) + d;
    accumCount' := accumCount + 1;
    done', open' := done, open + [d];
    if accumCount' == Size(mode, 3) {
      GroupIsSmall(mode, open');
      var ok := bb.AppendBits(accumData', Width(mode, accumCount'));
      OneGroup(mode, open');
      GroupsConcat(mode, done, open');
      NoDigits(Base(mode));
      done', open' := done + open', [];
      accumData', accumCount' := 0, 0;
    }
  }

  lemma NoDigits(base: nat)
    ensures Collapse(base, []) == 0
  {
  }

  /** The group left over at the end, if any. */
  method Flush(mode: Mode, bb: BitBuffer, accumData: nat, accumCount: nat, ghost done: seq<nat>, ghost open: seq<nat>)
    requires mode != Bytes && Within(Base(mode), open)
    requires bb.bits == GroupBits(mode, done) && |done| % Size(mode, 3) == 0
    requires accumData == Collapse(Base(mode), open) && accumCount == |open| < Size(mode, 3)
    modifies bb
    ensures bb.bits == GroupBits(mode, done + open)
  {
    hide GroupBits, NBits, Collapse, Bits.Pow2;
    if accumCount > 0 {
      GroupIsSmall(mode, open);
      var ok := bb.AppendBits(accumData, Width(mode, accumCount));
      OneGroup(mode, open);
      GroupsConcat(mode, done, open);
    } else {
      assert done + open == done;
    }
  }

  ghost predicate IsDigit(c: nat) { 48 <= c <= 57 }

  function DigitsOf(text: seq<nat>): (ds: seq<nat>)
    requires forall i :: 0 <= i < |text| ==> 48 <= text[i]
    ensures |ds| == |text|
  {
    seq(|text|, i requires 0 <= i < |text| => text[i] - 48)
  }

  /** makeNumeric: refuses anything but digits; otherwise a segment of exactly these characters. */
  method MakeNumeric(text: seq<nat>) returns (seg: Option<Segment>)
    requires IsText(text)
    ensures seg.Some? <==> forall i :: 0 <= i < |text| ==> IsDigit(text[i])
    ensures seg.Some? ==> seg.value == SegmentOf(Text(Numeric, DigitsOf(text)))
                          && Sound(Text(Numeric, DigitsOf(text))) && Chars(Numeric, DigitsOf(text)) == text
  {
    hide GroupBits, NBits, Collapse;
    var bb := new BitBuffer();
    var accumData, accumCount := 0, 0;
    ghost var done: seq<nat>, open: seq<nat> := [], [];
    NothingGrouped(Numeric);
    for k := 0 to |text|
      invariant forall i :: 0 <= i < k ==> IsDigit(text[i])
      invariant done + open == DigitsOf(text[..k]) && Within(10, open)
      invariant bb.bits == GroupBits(Numeric, done) && |done| % 3 == 0
      invariant accumData == Collapse(10, open) && accumCount == |open| < 3
    {
      var c := text[k];
      if c < 48 || c > 57 { return None; }
      assert DigitsOf(text[..k + 1]) == DigitsOf(text[..k]) + [c - 48];
      accumData, accumCount, done, open := Accumulate(Numeric, bb, accumData, accumCount, c - 48, done, open);
    }
    assert text[..|text|] == text;
    Flush(Numeric, bb, accumData, accumCount, done, open);
    seg := Some(Segment(Numeric, |text|, bb.bits));
  }

  lemma NothingGrouped(mode: Mode)
    ensures GroupBits(mode, []) == [] && Collapse(Base(mode), []) == 0
  {
  }

  /** The position of a character in the alphanumeric set, as strchr finds it. */
  function Find(c: nat, k: nat): (d: Option<nat>)
    requires k <= |CHARSET|
    ensures d.Some? ==> d.value < 45 && CHARSET[d.value] == c
    ensures d.None? ==> c !in CHARSET[k..]
    decreases |CHARSET| - k
  {
    if k == |CHARSET| then None
    else if CHARSET[k] == c then Some(k)
    else
      var d := Find(c, k + 1);
      assert CHARSET[k..] == [CHARSET[k]] + CHARSET[k + 1..];
      d
  }

  function IndexOf(c: nat): nat {
    match Find(c, 0) case Some(d) => d case None => 0
  }

  function IndicesOf(text: seq<nat>): (ds: seq<nat>)
    ensures |ds| == |text|
  {
    seq(|text|, i requires 0 <= i < |text| => IndexOf(text[i]))
  }

  predicate InCharset(c: nat) {
    c in CHARSET
  }

  lemma IndexIs(c: nat)
    ensures Find(c, 0).Some? <==> InCharset(c)
    ensures InCharset(c) ==> Find(c, 0) == Some(IndexOf(c)) && IndexOf(c) < 45 && CharOf(Alphanumeric, IndexOf(c)) == c
  {
    hide Find;
    assert CHARSET[0..] == CHARSET;
  }

  lemma IndicesReadBack(text: seq<nat>)
    requires forall i :: 0 <= i < |text| ==> InCharset(text[i])
    ensures Sound(Text(Alphanumeric, IndicesOf(text))) && Chars(Alphanumeric, IndicesOf(text)) == text
  {
    hide InCharset, IndexOf, CharOf;
    forall i | 0 <= i < |text|
      ensures IndexOf(text[i]) < 45 && CharOf(Alphanumeric, IndexOf(text[i])) == text[i]
    {
      IndexIs(text[i]);
    }
  }

  /** makeAlphanumeric: refuses characters outside the set; otherwise a segment of exactly these characters. */
  method MakeAlphanumeric(text: seq<nat>) returns (seg: Option<Segment>)
    requires IsText(text)
    ensures seg.Some? <==> forall i :: 0 <= i < |text| ==> InCharset(text[i])
    ensures seg.Some? ==> seg.value == SegmentOf(Text(Alphanumeric, IndicesOf(text)))
                          && Sound(Text(Alphanumeric, IndicesOf(text))) && Chars(Alphanumeric, IndicesOf(text)) == text
  {
    hide GroupBits, NBits, Collapse, Find, InCharset, IndexOf, CharOf;
    var bb := new BitBuffer();
    var accumData, accumCount := 0, 0;
    ghost var done: seq<nat>, open: seq<nat> := [], [];
    NothingGrouped(Alphanumeric);
    for k := 0 to |text|
      invariant forall i :: 0 <= i < k ==> InCharset(text[i])
      invariant done + open == IndicesOf(text[..k]) && Within(45, open)
      invariant bb.bits == GroupBits(Alphanumeric, done) && |done| % 2 == 0
      invariant accumData == Collapse(45, open) && accumCount == |open| < 2
    {
      IndexIs(text[k]);
      var temp := Find(text[k], 0);
      if temp.None? { return None; }
      assert IndicesOf(text[..k + 1]) == IndicesOf(text[..k]) + [temp.value];
      accumData, accumCount, done, open := Accumulate(Alphanumeric, bb, accumData, accumCount, temp.value, done, open);
    }
    assert text[..|text|] == text;
    IndicesReadBack(text);
    Flush(Alphanumeric, bb, accumData, accumCount, done, open);
    seg := Some(Segment(Alphanumeric, |text|, bb.bits));
  }

  /** makeBytes: eight bits per byte; too many bytes are refused. */
  method MakeBytes(data: seq<nat>) returns (seg: Option<Segment>)
    requires forall i :: 0 <= i < |data| ==> data[i] < 256
    ensures seg.Some? <==> |data| <= INT_MAX
    ensures seg.Some? ==> seg.value == SegmentOf(Text(Bytes, data)) && Sound(Text(Bytes, data)) && Chars(Bytes, data) == data
  {
    hide GroupBits, NBits, Collapse;
    if |data| > INT_MAX { return None; }
    var bb := new BitBuffer();
    NothingGrouped(Bytes);
    assert data[..0] == [];
    for k := 0 to |data|
      invariant bb.bits == GroupBits(Bytes, data[..k])
    {
      assert data[..k + 1] == data[..k] + [data[k]];
      GroupsConcat(Bytes, data[..k], [data[k]]);
      GroupIsSmall(Bytes, [data[k]]);
      OneGroup(Bytes, [data[k]]);
      SingleDigit(data[k]);
      var ok := bb.AppendBits(data[k], 8);
    }
    assert data[..|data|] == data;
    seg := Some(Segment(Bytes, |data|, bb.bits));
  }

  lemma SingleDigit(d: nat)
    ensures Collapse(256, [d]) == d
  {
    assert [d][..0] == [];
  }

  // ---------- data codewords ----------

  ghost predicate CountsFit(segs: seq<Segment>, version: nat)
    requires version <= 40
  {
    forall i :: 0 <= i < |segs| ==> segs[i].numChars < Bits.Pow2(CharCountBits(segs[i].mode, version))
  }

  /** The number of bits of all segments, or nothing if a count does not fit or the number is too large for an int. */
  ghost function TotalBits(segs: seq<Segment>, version: nat): int
    requires version <= 40
  {
    if CountsFit(segs, version) && |AllBits(segs, version)| <= INT_MAX then |AllBits(segs, version)| else -1
  }

  lemma NextSegment(segs: seq<Segment>, k: nat, version: nat)
    requires version <= 40 && k < |segs|
    ensures AllBits(segs[..k + 1], version) == AllBits(segs[..k], version) + SegmentBits(segs[k], version)
    ensures |SegmentBits(segs[k], version)| == 4 + CharCountBits(segs[k].mode, version) + |segs[k].data|
  {
    hide CharCountBits, NBits;
    assert segs[..k + 1][..k] == segs[..k];
  }

  lemma {:induction false} BitsGrow(segs: seq<Segment>, k: nat, version: nat)
    requires version <= 40 && k <= |segs|
    ensures |AllBits(segs[..k], version)| <= |AllBits(segs, version)|
    decreases |segs| - k
  {
    hide AllBits, SegmentBits, CharCountBits;
    if k == |segs| {
      assert segs[..k] == segs;
    } else {
      NextSegment(segs, k, version);
      BitsGrow(segs, k + 1, version);
    }
  }

  lemma NoSegments(segs: seq<Segment>, version: nat)
    requires version <= 40
    ensures AllBits(segs[..0], version) == [] && segs[..|segs|] == segs
  {
  }

  method GetTotalBits(segs: seq<Segment>, version: nat) returns (result: int)
    requires version <= 40
    ensures result == TotalBits(segs, version)
  {
    hide Bits.Pow2, CharCountBits, AllBits, SegmentBits;
    result := 0;
    NoSegments(segs, version);
    for k := 0 to |segs|
      invariant result == |AllBits(segs[..k], version)| <= INT_MAX
      invariant forall i :: 0 <= i < k ==> segs[i].numChars < Bits.Pow2(CharCountBits(segs[i].mode, version))
    {
      var ccbits := CharCountBits(segs[k].mode, version);
      NextSegment(segs, k, version);
      BitsGrow(segs, k + 1, version);
      if segs[k].numChars >= Bits.Pow2(ccbits) {
        assert !CountsFit(segs, version);
        return -1;
      }
      if 4 + ccbits > INT_MAX - result { return -1; }
      result := result + 4 + ccbits;
      if |segs[k].data| > INT_MAX - result { return -1; }
      result := result + |segs[k].data|;
    }
  }

  function Zeros(n: nat): seq<bool> { seq(n, _ => false) }

  /** Bytes 0xEC and 0x11 in turn. */
  function Pads(n: nat, even: bool): (bits: seq<bool>)
    ensures |bits| == 8 * n
  {
    if n == 0 then [] else NBits(if even then 0xEC else 0x11, 8) + Pads(n - 1, !even)
  }

  /** The zeros after the terminator reach a byte boundary within the capacity. */
  lemma TailFits(used: nat, bytes: nat)
    requires used <= 8 * bytes
    ensures var t := Min(4, 8 * bytes - used);
            var z := (8 - (used + t) % 8) % 8;
            (used + t + z) % 8 == 0 && used + t + z <= 8 * bytes && bytes - (used + t + z) / 8 >= 0
            && used + t + z + 8 * (bytes - (used + t + z) / 8) == 8 * bytes
  {
  }

  /** Terminator, zeros to the next byte, pad bytes to the end. */
  function Tail(used: nat, bytes: nat): (tail: seq<bool>)
    requires used <= 8 * bytes
    ensures |tail| == 8 * bytes - used
  {
    var t := Min(4, 8 * bytes - used);
    var z := (8 - (used + t) % 8) % 8;
    TailFits(used, bytes);
    Zeros(t) + Zeros(z) + Pads(bytes - (used + t + z) / 8, true)
  }

  /** The reader stops right behind the segments. */
  lemma TailStops(used: nat, bytes: nat)
    requires used <= 8 * bytes
    ensures Stops(Tail(used, bytes))
  {
    hide Pads;
    if |Tail(used, bytes)| >= 4 {
      assert Tail(used, bytes)[..4] == Zeros(4);
    }
  }

  datatype Encoded = InvalidArgument | TooLong | Codewords(version: nat, ecl: nat, data: seq<nat>)

  /** Data capacity in bytes of a version (1 to 40) at a level (0 to 3). */
  type Capacity = (nat, nat) -> nat

  ghost predicate Suits(segs: seq<Segment>, version: nat, bytes: nat)
    requires version <= 40
  {
    0 <= TotalBits(segs, version) <= 8 * bytes
  }

  /** Finds the smallest version that holds the segments. */
  method ChooseVersion(segs: seq<Segment>, ecl: nat, minVersion: nat, maxVersion: nat, capacity: Capacity)
    returns (found: bool, version: nat, used: nat)
    requires 1 <= minVersion <= maxVersion <= 40
    ensures found <==> exists v :: minVersion <= v <= maxVersion && Suits(segs, v, capacity(v, ecl))
    ensures found ==> minVersion <= version <= maxVersion && used == TotalBits(segs, version)
                      && Suits(segs, version, capacity(version, ecl))
                      && forall v :: minVersion <= v < version ==> !Suits(segs, v, capacity(v, ecl))
  {
    hide TotalBits;
    version := minVersion;
    while true
      invariant minVersion <= version <= maxVersion
      invariant forall v :: minVersion <= v < version ==> !Suits(segs, v, capacity(v, ecl))
      decreases maxVersion - version
    {
      var dataUsedBits := GetTotalBits(segs, version);
      if dataUsedBits != -1 && dataUsedBits <= capacity(version, ecl) * 8 {
        TotalIsCount(segs, version);
        return true, version, dataUsedBits;
      }
      assert !Suits(segs, version, capacity(version, ecl));
      if version >= maxVersion { return false, version, 0; }
      version := version + 1;
    }
  }

  lemma TotalIsCount(segs: seq<Segment>, version: nat)
    requires version <= 40
    ensures TotalBits(segs, version) == -1 || TotalBits(segs, version) >= 0
  {
  }

  method AppendSegment(bb: BitBuffer, seg: Segment, version: nat)
    requires version <= 40 && seg.numChars < Bits.Pow2(CharCountBits(seg.mode, version))
    modifies bb
    ensures bb.bits == old(bb.bits) + SegmentBits(seg, version)
  {
    hide Bits.Pow2, NBits, CharCountBits;
    ModeFits(seg.mode);
    CountWidth(seg.mode, version);
    var ok := bb.AppendBits(ModeBits(seg.mode), 4);
    ok := bb.AppendBits(seg.numChars, CharCountBits(seg.mode, version));
    bb.bits := bb.bits + seg.data;
  }

  /** The bit string: segments, terminator, padding. */
  method BuildBits(segs: seq<Segment>, version: nat, bytes: nat) returns (bb: BitBuffer)
    requires version <= 40 && CountsFit(segs, version) && |AllBits(segs, version)| <= 8 * bytes
    ensures fresh(bb) && bb.bits == AllBits(segs, version) + Tail(|AllBits(segs, version)|, bytes)
  {
    hide Bits.Pow2, NBits, AllBits, Tail, CharCountBits, SegmentBits;
    bb := new BitBuffer();
    NoSegments(segs, version);
    for k := 0 to |segs|
      invariant fresh(bb) && bb.bits == AllBits(segs[..k], version)
    {
      NextSegment(segs, k, version);
      AppendSegment(bb, segs[k], version);
    }
    Pad(bb, bytes);
  }

  /** Terminator, zeros to the next byte, pad bytes. */
  method Pad(bb: BitBuffer, bytes: nat)
    requires |bb.bits| <= 8 * bytes
    modifies bb
    ensures bb.bits == old(bb.bits) + Tail(|old(bb.bits)|, bytes)
  {
    hide Pads;
    ghost var before := bb.bits;
    var used := |bb.bits|;
    var t := Min(4, 8 * bytes - used);
    AppendZeros(bb, t);
    var z := (8 - |bb.bits| % 8) % 8;
    AppendZeros(bb, z);
    AppendPads(bb, bytes);
    ghost var p := Pads(bytes - (used + t + z) / 8, true);
    assert before + Zeros(t) + Zeros(z) + p == before + (Zeros(t) + Zeros(z) + p);
  }

  lemma ModeFits(mode: Mode)
    ensures ModeBits(mode) < Bits.Pow2(4)
  {
    assert Bits.Pow2(4) == 16;
  }

  lemma CountWidth(mode: Mode, version: nat)
    requires version <= 40
    ensures CharCountBits(mode, version) <= 31
  {
  }

  method AppendZeros(bb: BitBuffer, n: nat)
    requires n <= 8
    modifies bb
    ensures bb.bits == old(bb.bits) + Zeros(n)
  {
    hide NBits, Bits.Pow2;
    ZeroBits(n);
    var ok := bb.AppendBits(0, n);
  }

  lemma {:induction false} ZeroBits(n: nat)
    ensures NBits(0, n) == Zeros(n) && 0 < Bits.Pow2(n)
  {
    if n > 0 { ZeroBits(n - 1); }
  }

  method AppendPads(bb: BitBuffer, bytes: nat)
    requires |bb.bits| % 8 == 0 && |bb.bits| <= 8 * bytes
    modifies bb
    ensures bb.bits == old(bb.bits) + Pads(bytes - |old(bb.bits)| / 8, true)
  {
    hide NBits, Bits.Pow2, Bits.Xor, Pads;
    ghost var before := bb.bits;
    ghost var total := bytes - |before| / 8;
    ghost var n, even := 0, true;
    var padByte := 0xEC;
    while |bb.bits| < 8 * bytes
      invariant |bb.bits| == |before| + 8 * n && n <= total
      invariant padByte == if even then 0xEC else 0x11
      invariant bb.bits + Pads(total - n, even) == before + Pads(total, true)
      decreases 8 * bytes - |bb.bits|
    {
      PadSwitches();
      PadsStep(total - n, even);
      ghost var rest := Pads(total - n - 1, !even);
      assert bb.bits + (NBits(padByte, 8) + rest) == bb.bits + NBits(padByte, 8) + rest;
      var ok := bb.AppendBits(padByte, 8);
      padByte := Bits.Xor(padByte, Bits.Xor(0xEC, 0x11));
      n, even := n + 1, !even;
    }
    NoPads(even);
  }

  lemma PadsStep(n: nat, even: bool)
    requires n > 0
    ensures Pads(n, even) == NBits(if even then 0xEC else 0x11, 8) + Pads(n - 1, !even)
  {
    hide NBits;
  }

  lemma NoPads(even: bool)
    ensures Pads(0, even) == []
  {
  }

  lemma PadSwitches()
    ensures Bits.Xor(0xEC, Bits.Xor(0xEC, 0x11)) == 0x11 && Bits.Xor(0x11, Bits.Xor(0xEC, 0x11)) == 0xEC
    ensures 0xEC < Bits.Pow2(8) && 0x11 < Bits.Pow2(8)
  {
    assert Bits.Pow2(8) == 256;
    hide Bits.Xor;
    XorAssociates(0xEC, 0xEC, 0x11);
    XorSelf(0xEC);
    XorZero(0x11);
    XorCommutes(0xEC, 0x11);
    XorAssociates(0x11, 0x11, 0xEC);
    XorSelf(0x11);
    XorZero(0xEC);
  }

  /** The bits packed into codewords. */
  method PackBits(bits: seq<bool>) returns (data: seq<nat>)
    requires |bits| % 8 == 0
    ensures data == Packed(bits, |bits| / 8)
  {
    hide Packed, Place;
    var dataCodewords := new nat[|bits| / 8](_ => 0);
    NothingPacked(|bits| / 8);
    assert bits[..0] == [];
    for i := 0 to |bits|
      invariant dataCodewords[..] == Packed(bits[..i], |bits| / 8)
    {
      assert bits[..i + 1] == bits[..i] + [bits[i]];
      BitAppended(bits[..i], |bits| / 8, bits[i]);
      assert dataCodewords[i / 8] == dataCodewords[..][i / 8];
      dataCodewords[i / 8] := Join(if bits[i] then Place(7 - i % 8) else 0, dataCodewords[i / 8], Place(8 - i % 8));
    }
    assert bits[..|bits|] == bits;
    data := dataCodewords[..];
  }

  lemma NothingPacked(n: nat)
    ensures Packed([], n) == seq(n, _ => 0)
  {
    forall j: nat | j < n ensures Byte(Octet([], j)) == 0 { NoBits(Octet([], j)); }
  }

  /** The arguments are in range and some allowed version holds the segments at the requested level. */
  ghost predicate Encodable(segs: seq<Segment>, ecl: nat, minVersion: int, maxVersion: int, mask: int, capacity: Capacity) {
    && 1 <= minVersion <= maxVersion <= 40 && -1 <= mask <= 7
    && exists v: nat :: minVersion <= v <= maxVersion && Suits(segs, v, capacity(v, ecl))
  }

  lemma {:induction false} AllBitsStart(segs: seq<Segment>, version: nat)
    requires version <= 40 && segs != []
    ensures |AllBits(segs, version)| > 8 && AllBits(segs, version)[..4] == Indicator(segs[0].mode)
  {
    hide NBits;
    var n := |segs| - 1;
    var s := SegmentBits(segs[n], version);
    ModeIs(segs[n].mode);
    assert s[..4] == Indicator(segs[n].mode) && |s| > 8;
    if n == 0 {
      assert AllBits(segs[..0], version) + s == s;
    } else {
      AllBitsStart(segs[..n], version);
      assert (AllBits(segs[..n], version) + s)[..4] == AllBits(segs[..n], version)[..4];
    }
  }

  /** The first codeword begins with the indicator of the first segment. */
  lemma FirstCodeword(segs: seq<Segment>, version: nat, tail: seq<bool>, n: nat)
    requires version <= 40 && segs != [] && n > 0
    ensures Packed(AllBits(segs, version) + tail, n)[0] / 16 == (match segs[0].mode case Numeric => 1 case Alphanumeric => 2 case Bytes => 4)
  {
    hide AllBits;
    AllBitsStart(segs, version);
    var o := Octet(AllBits(segs, version) + tail, 0);
    assert o[..4] == Indicator(segs[0].mode);
    assert o[0] == o[..4][0] && o[1] == o[..4][1] && o[2] == o[..4][2] && o[3] == o[..4][3];
    UpperHalf(o);
  }

  lemma UpperHalf(o: seq<bool>)
    requires 4 <= |o| <= 8
    ensures Byte(o) / 16 == On(o, 0) * 8 + On(o, 1) * 4 + On(o, 2) * 2 + On(o, 3)
  {
  }

  /** Chooses version and level, and fills the data codewords. */
  method EncodeSegments(segs: seq<Segment>, ecl: nat, minVersion: int, maxVersion: int, mask: int, boostEcl: bool, capacity: Capacity)
    returns (r: Encoded)
    requires ecl <= 3
    ensures r == InvalidArgument <==> !(1 <= minVersion <= maxVersion <= 40 && -1 <= mask <= 7)
    ensures r.Codewords? <==> Encodable(segs, ecl, minVersion, maxVersion, mask, capacity)
    ensures r.Codewords? ==>
              && 1 <= r.version <= 40 && minVersion <= r.version <= maxVersion
              && Suits(segs, r.version, capacity(r.version, ecl))
              && (forall v :: minVersion <= v < r.version ==> !Suits(segs, v, capacity(v, ecl)))
              && Suits(segs, r.version, capacity(r.version, r.ecl))
              && ecl <= r.ecl <= 3 && (!boostEcl ==> r.ecl == ecl)
              && (boostEcl ==> forall e: nat :: r.ecl < e <= 3 ==> !Suits(segs, r.version, capacity(r.version, e)))
              && |r.data| == capacity(r.version, r.ecl)
              && r.data == Packed(AllBits(segs, r.version) + Tail(|AllBits(segs, r.version)|, |r.data|), |r.data|)
    ensures r.Codewords? && segs != [] ==> 
              |r.data| > 0 && r.data[0] / 16 == (match segs[0].mode case Numeric => 1 case Alphanumeric => 2 case Bytes => 4)
  {
    hide Packed, AllBits, Tail, CountsFit;
    if !(1 <= minVersion <= maxVersion <= 40) || mask < -1 || mask > 7 { return InvalidArgument; }
    var found, version, dataUsedBits := ChooseVersion(segs, ecl, minVersion, maxVersion, capacity);
    if !found { return TooLong; }
    var level: nat := ecl;
    for newEcl: nat := 1 to 4
      invariant level <= 3 && Suits(segs, version, capacity(version, level)) && (!boostEcl ==> level == ecl)
      invariant newEcl > ecl ==> level >= ecl
      invariant boostEcl ==> forall e: nat :: level < e < newEcl ==> !Suits(segs, version, capacity(version, e))
    {
      if boostEcl && dataUsedBits <= capacity(version, newEcl) * 8 { level := newEcl; }
    }
    var bb := BuildBits(segs, version, capacity(version, level));
    var data := PackBits(bb.bits);
    if segs != [] {
      AllBitsStart(segs, version);
      FirstCodeword(segs, version, Tail(|AllBits(segs, version)|, |data|), |data|);
    }
    r := Codewords(version, level, data);
  }

  /** Reading the codewords back gives exactly the characters of the segments, stopping before any padding. */
  lemma SegmentsReadBack(ts: seq<Text>, version: nat, data: seq<nat>)
    requires version <= 40 && AllSound(ts) && |data| <= 2956
    requires Suits(SegmentsOf(ts), version, |data|)
    requires var bits := AllBits(SegmentsOf(ts), version);
             |bits| <= 8 * |data| && data == Packed(bits + Tail(|bits|, |data|), |data|)
    ensures var r := Payload(BitsOf(data), version, 0); r.Ok? && r.out == AllChars(ts)
  {
    hide Packed, AllBits, Tail, Payload, AllChars, AllSound, BitsFrom, BitsOf;
    var bits := AllBits(SegmentsOf(ts), version);
    var tail := Tail(|bits|, |data|);
    UnpackRoundTrip(bits + tail, |data|);
    TailStops(|bits|, |data|);
    CountsSuit(ts, version, |data|);
    CharsTakeBits(ts, version);
    BitsFromAll(ts, 0, version);
    NoSegments(SegmentsOf(ts), version);
    assert bits == BitsFrom(ts, 0, version);
    NoTexts(ts);
    PayloadReadsBack(ts, 0, version, tail);
  }

  lemma NoTexts(ts: seq<Text>)
    requires AllSound(ts)
    ensures AllSound(ts[..0]) && AllChars(ts[..0]) == []
  {
  }

  lemma CountsSuit(ts: seq<Text>, version: nat, bytes: nat)
    requires version <= 40 && Suits(SegmentsOf(ts), version, bytes)
    ensures Countable(ts, version)
  {
    hide Bits.Pow2, CharCountBits;
    var segs := SegmentsOf(ts);
    forall i | 0 <= i < |ts|
      ensures |ts[i].ds| < Bits.Pow2(CharCountBits(ts[i].mode, version))
    {
      assert segs[i].numChars == |ts[i].ds|;
    }
  }

  /** A character takes at least three bits. */
  lemma {:induction false} CharsTakeBits(ts: seq<Text>, version: nat)
    requires version <= 40 && AllSound(ts)
    ensures 3 * |AllChars(ts)| <= |AllBits(SegmentsOf(ts), version)|
  {
    hide CharCountBits, Sound;
    if ts != [] {
      var n := |ts| - 1;
      CharsStep(ts, n);
      assert ts[..n + 1] == ts;
      CharsTakeBits(ts[..n], version);
      assert SegmentsOf(ts)[..n] == SegmentsOf(ts[..n]);
      NextSegment(SegmentsOf(ts), n, version);
      assert SegmentsOf(ts)[..n + 1] == SegmentsOf(ts);
      GroupLength(ts[n].mode, ts[n].ds);
    }
  }

  lemma {:induction false} GroupLength(mode: Mode, ds: seq<nat>)
    ensures 3 * |ds| <= |GroupBits(mode, ds)|
    decreases |ds|
  {
    hide NBits, Collapse, Base;
    if ds != [] { GroupLength(mode, ds[Size(mode, |ds|)..]); }
  }
}
