/** Reading the payload of a symbol out of its corrected data (`decode.c`). */
module QuircPayload {
  import opened Arith
  import opened QrBits
  import opened QrSegments
  import opened Bits

  /** `(b << bitpos) & 0x80` tests the bit that `bitpos` higher ones precede. */
  predicate TopBitAfterShift(b: nat, bitpos: nat)
    requires bitpos < 8
  {
    b * Place(bitpos) / 128 % 2 == 1
  }

  lemma ShiftTestsBit(b: nat, bitpos: nat)
    requires bitpos < 8
    ensures TopBitAfterShift(b, bitpos) == GetBit(b, 7 - bitpos)
  {
    var p, r := Place(bitpos), Place(7 - bitpos);
    assert p * r == 128;
    var q, m := b / r, b % r;
    assert b == r * q + m;
    assert b * p == 128 * q + m * p by {
      assert b * p == (r * q + m) * p;
      assert (r * q) * p == (p * r) * q;
    }
    MulMono(p, m, r - 1);
    assert p * (r - 1) == p * r - p;
    MulNonneg(m, p);
    DivUnique(b * p, 128, q, m * p);
  }

  lemma NumNext(bits: seq<bool>, b: bool)
    ensures Num(bits + [b]) == 2 * Num(bits) + if b then 1 else 0
  {
    assert (bits + [b])[..|bits|] == bits;
  }

  datatype Status = Success | Error(error: QrSegments.Error)

  class Reader {
    const data: seq<nat>
    const data_bits: nat
    const version: nat
    const payload: array<nat>
    var ptr: nat
    var payload_len: nat

    constructor (data: seq<nat>, version: nat)
      ensures Valid() && this.data == data && this.version == version && data_bits == 8 * |data|
      ensures ptr == 0 && payload_len == 0 && fresh(payload)
    {
      this.data, this.version, data_bits := data, version, 8 * |data|;
      payload := new nat[MAX_PAYLOAD](_ => 0);
      ptr, payload_len := 0, 0;
    }

    ghost predicate Valid()
      reads this
    {
      ptr <= data_bits <= 8 * |data| && payload_len <= payload.Length == MAX_PAYLOAD
    }

    /** The bits not read yet. */
    ghost function Remaining(): (bits: seq<bool>)
      requires Valid()
      reads this
      ensures |bits| == data_bits - ptr
    {
      BitsOf(data)[ptr..data_bits]
    }

    /** The characters written so far. */
    ghost function Written(): seq<nat>
      requires Valid()
      reads this, payload
    {
      payload[..payload_len]
    }

    /** The next bits as a number, as many as there are up to `len`. */
    method TakeBits(len: nat) returns (ret: nat)
      requires Valid()
      modifies `ptr
      ensures Valid()
      ensures var k := if len <= |old(Remaining())| then len else |old(Remaining())|;
              ret == Num(old(Remaining())[..k]) && Remaining() == old(Remaining())[k..]
    {
      hide BitsOf, TopBitAfterShift, GetBit, Num;
      ghost var bits := Remaining();
      ghost var start := ptr;
      ret := 0;
      var left := len;
      NoBitsNum();
      assert bits[..0] == [];
      while left > 0 && ptr < data_bits
        invariant start <= ptr <= data_bits && left == len - (ptr - start)
        invariant ret == Num(bits[..ptr - start])
        decreases left
      {
        var b := data[ptr / 8];
        var bitpos := ptr % 8;
        ShiftTestsBit(b, bitpos);
        BitIs(data, ptr);
        ghost var k := ptr - start;
        assert bits[..k + 1] == bits[..k] + [bits[k]] && bits[k] == BitsOf(data)[ptr];
        NumNext(bits[..k], bits[k]);
        ret := 2 * ret;
        if TopBitAfterShift(b, bitpos) { ret := ret + 1; }
        ptr := ptr + 1;
        left := left - 1;
      }
      ghost var k := ptr - start;
      assert Remaining() == bits[k..];
    }

    /** numeric_tuple and alpha_tuple: one group of characters. */
    method Tuple(mode: Mode, bits: nat, digits: nat) returns (enough: bool)
      requires Valid() && payload_len + digits <= payload.Length
      modifies `ptr, `payload_len, payload
      ensures Valid() && enough == (|old(Remaining())| >= bits)
      ensures !enough ==> payload_len == old(payload_len) && Written() == old(Written()) && Remaining() == old(Remaining())
      ensures enough ==> Remaining() == old(Remaining())[bits..] && payload_len == old(payload_len) + digits
                         && Written() == old(Written()) + Chars(mode, Expand(Base(mode), Num(old(Remaining())[..bits]), digits))
    {
      hide Num, Expand, Base, Chars, BitsOf;
      if data_bits - ptr < bits { return false; }
      ghost var before := Written();
      var tuple := TakeBits(bits);
      StoreDigits(mode, tuple, digits);
      payload_len := payload_len + digits;
      assert Written() == before + payload[|before|..payload_len];
      enough := true;
    }

    /** Writes the characters behind the payload, the last one first. */
    method StoreDigits(mode: Mode, val: nat, digits: nat)
      requires payload_len + digits <= payload.Length
      modifies payload
      ensures payload[..payload_len] == old(payload[..payload_len])
      ensures payload[payload_len..payload_len + digits] == Chars(mode, Expand(Base(mode), val, digits))
    {
      hide Expand, CharOf, Base, Chars;
      var base := Base(mode);
      BasePositive(mode);
      var tuple: nat, i: nat := val, digits;
      ghost var tail: seq<nat> := [];
      NoChars(mode);
      assert Expand(base, val, digits) == Expand(base, tuple, i) + tail;
      while i > 0
        invariant i <= digits && payload[..payload_len] == old(payload[..payload_len])
        invariant Expand(base, val, digits) == Expand(base, tuple, i) + tail && Within(base, tail)
        invariant payload[payload_len + i..payload_len + digits] == Chars(mode, tail)
      {
        ExpandLast(base, tuple, i);
        CharsFront(mode, tuple % base, tail);
        ghost var rest := payload[payload_len + i..payload_len + digits];
        var d: nat := tuple % base;
        i := i - 1;
        payload[payload_len + i] := CharOf(mode, d);
        assert payload[payload_len + i..payload_len + digits] == [CharOf(mode, d)] + rest;
        tuple := tuple / base;
        assert Expand(base, val, digits) == Expand(base, tuple, i) + ([d] + tail);
        tail := [d] + tail;
      }
      ExpandFirst(base, tuple);
      assert tail == Expand(base, val, digits);
    }

    /** What a reading step must achieve, given what the specification makes of the bits before it. */
    ghost predicate Follows(r: QrSegments.Result, status: Status, before: seq<nat>)
      requires Valid()
      reads this, payload
    {
      match r
      case Fail(e) => status == Error(e)
      case Ok(out, rest) => status == Success && Written() == before + out && Remaining() == rest
    }

    /** `done` has been written since `before`, and the groups still to come complete `goal`. */
    ghost predicate Progress(mode: Mode, count: nat, goal: QrSegments.Result, before: seq<nat>, done: seq<nat>)
      reads this, payload
    {
      Valid() && Written() == before + done && goal == Prepend(done, Groups(mode, Remaining(), count))
    }

    /** The next group of a segment with `count` characters to come. */
    method NextGroup(mode: Mode, bits: nat, digits: nat, ghost count: nat, ghost goal: QrSegments.Result,
                     ghost before: seq<nat>, ghost done: seq<nat>) returns (enough: bool, ghost done': seq<nat>)
      requires Progress(mode, count, goal, before, done) && payload_len + digits <= payload.Length
      requires count > 0 && digits == Size(mode, count) && bits == Width(mode, digits)
      modifies `ptr, `payload_len, payload
      ensures enough ==> Progress(mode, count - digits, goal, before, done') && payload_len == old(payload_len) + digits
      ensures !enough ==> Valid() && goal == Fail(DataUnderflow)
    {
      hide Groups, BitsOf, Num, Expand, Chars, Size, Width;
      GroupsUnfold(mode, Remaining(), count, done);
      ghost var r := Remaining();
      enough := Tuple(mode, bits, digits);
      done' := if enough then done + Chars(mode, Expand(Base(mode), Num(r[..bits]), digits)) else done;
    }

    /** The groups of a numeric segment. */
    method NumericGroups(total: nat) returns (status: Status)
      requires Valid() && payload_len + total <= payload.Length
      modifies `ptr, `payload_len, payload
      ensures Valid() && Follows(Groups(Numeric, old(Remaining()), total), status, old(Written()))
      ensures status == Success ==> payload_len == old(payload_len) + total
    {
      hide Progress, Groups, Follows;
      var count: nat := total;
      ghost var before, done: seq<nat> := Written(), [];
      ghost var goal := Groups(Numeric, Remaining(), total);
      Begin(Numeric, total);
      var enough;
      while count >= 3
        invariant Valid() && payload_len == old(payload_len) + total - count && count <= total
        invariant Progress(Numeric, count, goal, before, done)
        decreases count
      {
        enough, done := NextGroup(Numeric, 10, 3, count, goal, before, done);
        if !enough { Underflow(goal, before); return Error(DataUnderflow); }
        count := count - 3;
        StillValid(Numeric, count, goal, before, done);
      }
      if count >= 2 {
        enough, done := NextGroup(Numeric, 7, 2, count, goal, before, done);
        if !enough { Underflow(goal, before); return Error(DataUnderflow); }
        count := count - 2;
      }
      if count > 0 {
        enough, done := NextGroup(Numeric, 4, 1, count, goal, before, done);
        if !enough { Underflow(goal, before); return Error(DataUnderflow); }
        count := count - 1;
      }
      StillValid(Numeric, count, goal, before, done);
      End(Numeric, goal, before, done);
      status := Success;
    }

    /** The groups of an alphanumeric segment. */
    method AlphaGroups(total: nat) returns (status: Status)
      requires Valid() && payload_len + total <= payload.Length
      modifies `ptr, `payload_len, payload
      ensures Valid() && Follows(Groups(Alphanumeric, old(Remaining()), total), status, old(Written()))
      ensures status == Success ==> payload_len == old(payload_len) + total
    {
      hide Progress, Groups, Follows;
      var count: nat := total;
      ghost var before, done: seq<nat> := Written(), [];
      ghost var goal := Groups(Alphanumeric, Remaining(), total);
      Begin(Alphanumeric, total);
      var enough;
      while count >= 2
        invariant Valid() && payload_len == old(payload_len) + total - count && count <= total
        invariant Progress(Alphanumeric, count, goal, before, done)
        decreases count
      {
        enough, done := NextGroup(Alphanumeric, 11, 2, count, goal, before, done);
        if !enough { Underflow(goal, before); return Error(DataUnderflow); }
        count := count - 2;
        StillValid(Alphanumeric, count, goal, before, done);
      }
      if count > 0 {
        enough, done := NextGroup(Alphanumeric, 6, 1, count, goal, before, done);
        if !enough { Underflow(goal, before); return Error(DataUnderflow); }
        count := count - 1;
      }
      StillValid(Alphanumeric, count, goal, before, done);
      End(Alphanumeric, goal, before, done);
      status := Success;
    }

    /** The bytes of a byte segment, after one check that they are all there. */
    method ByteGroups(total: nat) returns (status: Status)
      requires Valid() && payload_len + total <= payload.Length
      modifies `ptr, `payload_len, payload
      ensures Valid() && Follows(Groups(Bytes, old(Remaining()), total), status, old(Written()))
      ensures status == Success ==> payload_len == old(payload_len) + total
    {
      hide Progress, Groups, Follows;
      ghost var before, done: seq<nat> := Written(), [];
      ghost var goal := Groups(Bytes, Remaining(), total);
      if data_bits - ptr < total * 8 {
        TooFewBytes(Remaining(), total);
        Underflow(goal, before);
        return Error(DataUnderflow);
      }
      Begin(Bytes, total);
      for i := 0 to total
        invariant Valid() && payload_len == old(payload_len) + i && data_bits - ptr >= (total - i) * 8
        invariant Progress(Bytes, total - i, goal, before, done)
      {
        var x;
        x, done := NextByte(total - i, goal, before, done);
      }
      End(Bytes, goal, before, done);
      status := Success;
    }

    method NextByte(ghost count: nat, ghost goal: QrSegments.Result, ghost before: seq<nat>, ghost done: seq<nat>)
      returns (x: nat, ghost done': seq<nat>)
      requires Progress(Bytes, count, goal, before, done) && count > 0 && payload_len < payload.Length && data_bits - ptr >= 8
      modifies `ptr, `payload_len, payload
      ensures Progress(Bytes, count - 1, goal, before, done') && Valid()
      ensures payload_len == old(payload_len) + 1 && ptr == old(ptr) + 8
    {
      hide Groups, BitsOf, Num, Chars, Expand;
      ghost var r := Remaining();
      GroupsUnfold(Bytes, r, count, done);
      x := TakeBits(8);
      ByteIs(r[..8]);
      payload[payload_len] := x;
      payload_len := payload_len + 1;
      done' := done + [x];
    }

    /** decode_numeric, decode_alpha and decode_byte: the character count, the room check, the characters. */
    method DecodeSegment(mode: Mode) returns (status: Status)
      requires Valid() && version <= 40
      modifies `ptr, `payload_len, payload
      ensures Valid() && Follows(ReadSegment(mode, old(Remaining()), version, old(payload_len)), status, old(Written()))
      ensures status == Success ==> payload_len < payload.Length
    {
      hide Follows, Groups, BitsOf, Num, CharCountBits;
      var bits := match mode
        case Numeric => if version < 10 then 10 else if version < 27 then 12 else 14
        case Alphanumeric => if version < 10 then 9 else if version < 27 then 11 else 13
        case Bytes => if version < 10 then 8 else 16;
      SameWidths(mode, version);
      ghost var before := Written();
      var count := TakeBits(bits);
      assert Written() == before;
      if payload_len + count + 1 > MAX_PAYLOAD {
        Overflow(before);
        return Error(DataOverflow);
      }
      match mode
      case Numeric => status := NumericGroups(count);
      case Alphanumeric => status := AlphaGroups(count);
      case Bytes => status := ByteGroups(count);
    }

    lemma Overflow(before: seq<nat>)
      requires Valid()
      ensures Follows(Fail(DataOverflow), Error(DataOverflow), before)
    {
    }

    /** decode_payload: segments until a terminator or fewer than four bits, then a NUL. */
    method DecodePayload() returns (status: Status)
      requires Valid() && version <= 40 && payload_len < payload.Length
      modifies `ptr, `payload_len, payload
      ensures Valid() && Follows(Payload(old(Remaining()), version, old(payload_len)), status, old(Written()))
      ensures status == Success ==> payload_len < payload.Length && payload[payload_len] == 0
    {
      hide Follows, BitsOf, Num, ReadSegment, Payload;
      ghost var before, done: seq<nat> := Written(), [];
      ghost var goal := Payload(Remaining(), version, payload_len);
      PrependNone(goal);
      assert before + [] == before;
      ghost var stopped := false;
      while data_bits - ptr >= 4
        invariant Valid() && payload_len < payload.Length && !stopped
        invariant Written() == before + done && goal == Prepend(done, Payload(Remaining(), version, payload_len))
        decreases data_bits - ptr
      {
        ghost var bits := Remaining();
        var t := TakeBits(4);
        PayloadUnfold(bits, version, payload_len, done);
        if t == 1 || t == 2 || t == 4 {
          ghost var r := ReadSegment(ModeOf(t), Remaining(), version, payload_len);
          ghost var written := Written();
          status := DecodeSegment(ModeOf(t));
          FollowsMeans(r, status, written);
          if status != Success { Failed(goal, status, before); return; }
          done := done + r.out;
        } else if t == 7 || t == 8 {
          status := Error(NotModelled);
          Failed(goal, status, before);
          return;
        } else {
          assert goal == Ok(done + [], Remaining()) && done + [] == done;
          stopped := true;
          break;
        }
      }
      if !stopped {
        ShortPayload(Remaining(), version, payload_len);
        assert goal == Ok(done + [], Remaining()) && done + [] == done;
      }
      payload[payload_len] := 0;
      status := Success;
      Reached(goal, before, done);
    }

    lemma Reached(goal: QrSegments.Result, before: seq<nat>, done: seq<nat>)
      requires Valid() && goal == Ok(done, Remaining()) && Written() == before + done
      ensures Follows(goal, Success, before)
    {
    }

    lemma FollowsMeans(r: QrSegments.Result, status: Status, before: seq<nat>)
      requires Valid() && Follows(r, status, before)
      ensures r.Fail? ==> status == Error(r.error)
      ensures r.Ok? ==> status == Success && Written() == before + r.out && Remaining() == r.rest
    {
    }

    lemma Failed(goal: QrSegments.Result, status: Status, before: seq<nat>)
      requires Valid() && goal.Fail? && status == Error(goal.error)
      ensures Follows(goal, status, before)
    {
    }

    lemma Begin(mode: Mode, total: nat)
      requires Valid()
      ensures Progress(mode, total, Groups(mode, Remaining(), total), Written(), [])
    {
    }

    lemma StillValid(mode: Mode, count: nat, goal: QrSegments.Result, before: seq<nat>, done: seq<nat>)
      requires Progress(mode, count, goal, before, done)
      ensures Valid()
    {
    }

    lemma End(mode: Mode, goal: QrSegments.Result, before: seq<nat>, done: seq<nat>)
      requires Progress(mode, 0, goal, before, done)
      ensures Valid() && Follows(goal, Success, before)
    {
    }

    lemma Underflow(goal: QrSegments.Result, before: seq<nat>)
      requires Valid() && goal == Fail(DataUnderflow)
      ensures Follows(goal, Error(DataUnderflow), before)
    {
    }
  }

  lemma PrependNone(r: QrSegments.Result)
    ensures Prepend([], r) == r
  {
  }

  lemma ShortPayload(bits: seq<bool>, version: nat, len: nat)
    requires version <= 40 && |bits| < 4
    ensures Payload(bits, version, len) == Ok([], bits)
  {
  }

  /** One segment, or the end, moved to what is done. */
  lemma PayloadUnfold(bits: seq<bool>, version: nat, len: nat, done: seq<nat>)
    requires version <= 40 && |bits| >= 4
    ensures var t, p := Num(bits[..4]), Payload(bits, version, len);
            if t == 1 || t == 2 || t == 4 then
              var r := ReadSegment(ModeOf(t), bits[4..], version, len);
              && (r.Fail? ==> p == Fail(r.error))
              && (r.Ok? ==> Prepend(done, p) == Prepend(done + r.out, Payload(r.rest, version, len + |r.out|)))
            else p == if t == 7 || t == 8 then Fail(NotModelled) else Ok([], bits[4..])
  {
    hide Num, ReadSegment;
    var t := Num(bits[..4]);
    if t == 1 || t == 2 || t == 4 {
      var r := ReadSegment(ModeOf(t), bits[4..], version, len);
      if r.Ok? && Payload(r.rest, version, len + |r.out|).Ok? {
        var more := Payload(r.rest, version, len + |r.out|).out;
        assert done + (r.out + more) == (done + r.out) + more;
      }
    }
  }

  lemma {:induction false} TooFewBytes(bits: seq<bool>, count: nat)
    requires |bits| < 8 * count
    ensures Groups(Bytes, bits, count) == Fail(DataUnderflow)
    decreases count
  {
    hide Num, Expand, Chars;
    if |bits| >= 8 { TooFewBytes(bits[8..], count - 1); }
  }

  lemma ByteIs(bits: seq<bool>)
    requires |bits| == 8
    ensures Chars(Bytes, Expand(256, Num(bits), 1)) == [Num(bits)] && Num(bits) < 256
  {
    hide Num;
    assert Bits.Pow2(8) == 256;
    NumBound(bits);
    OneByte(Num(bits));
  }

  lemma OneByte(x: nat)
    requires x < 256
    ensures Chars(Bytes, Expand(256, x, 1)) == [x]
  {
    DivUnique(x, 256, 0, x);
    assert Expand(256, x, 1) == [x];
  }

  lemma {:induction false} NumBound(bits: seq<bool>)
    ensures Num(bits) < Bits.Pow2(|bits|)
  {
    if bits != [] { NumBound(bits[..|bits| - 1]); }
  }

  /** Reader and writer agree on the width of the character count. */
  lemma SameWidths(mode: Mode, version: nat)
    requires version <= 40
    ensures CharCountBits(mode, version) ==
            match mode
            case Numeric => if version < 10 then 10 else if version < 27 then 12 else 14
            case Alphanumeric => if version < 10 then 9 else if version < 27 then 11 else 13
            case Bytes => if version < 10 then 8 else 16
  {
  }

  /** One group moved to what is done. */
  lemma GroupsUnfold(mode: Mode, bits: seq<bool>, count: nat, done: seq<nat>)
    requires count > 0
    ensures var n := Size(mode, count);
            var w := Width(mode, n);
            && (|bits| < w ==> Groups(mode, bits, count) == Fail(DataUnderflow))
            && (|bits| >= w ==>
                  Prepend(done, Groups(mode, bits, count)) ==
                  Prepend(done + Chars(mode, Expand(Base(mode), Num(bits[..w]), n)), Groups(mode, bits[w..], count - n)))
  {
    hide Num, Expand, Chars;
    var n := Size(mode, count);
    var w := Width(mode, n);
    if |bits| >= w && Groups(mode, bits[w..], count - n).Ok? {
      var cs := Chars(mode, Expand(Base(mode), Num(bits[..w]), n));
      assert done + (cs + Groups(mode, bits[w..], count - n).out) == (done + cs) + Groups(mode, bits[w..], count - n).out;
    }
  }

  lemma CharsFront(mode: Mode, d: nat, tail: seq<nat>)
    requires d < Base(mode) && Within(Base(mode), tail)
    ensures Within(Base(mode), [d] + tail) && Chars(mode, [d] + tail) == [CharOf(mode, d)] + Chars(mode, tail)
  {
    hide CharOf, Base;
  }

  lemma BitIs(data: seq<nat>, k: nat)
    requires k < 8 * |data|
    ensures BitsOf(data)[k] == GetBit(data[k / 8], 7 - k % 8)
  {
    hide GetBit;
  }

  lemma NoBitsNum()
    ensures Num([]) == 0
  {
  }

  lemma BasePositive(mode: Mode)
    ensures Base(mode) > 0
  {
  }

  lemma ExpandFirst(base: nat, val: nat)
    requires base > 0
    ensures Expand(base, val, 0) == []
  {
  }

  lemma ExpandLast(base: nat, val: nat, n: nat)
    requires base > 0 && n > 0
    ensures val / base >= 0 && 0 <= val % base < base
    ensures Expand(base, val, n) == Expand(base, val / base, n - 1) + [val % base]
  {
    DivNonneg(val, base);
  }
}

/** From text to codewords and back. */
module QrTextRoundTrip {
  import opened QrBits
  import opened QrSegments
  import QrEncode
  import QuircPayload

  /** The characters of corrected data, nothing on a reading error. */
  method ReadChars(data: seq<nat>, version: nat) returns (chars: seq<nat>)
    requires version <= 40
    ensures var p := Payload(BitsOf(data), version, 0); chars == if p.Ok? then p.out else []
  {
    hide Payload, BitsOf;
    var reader := new QuircPayload.Reader(data, version);
    assert reader.Remaining() == BitsOf(data);
    ghost var p := Payload(reader.Remaining(), version, 0);
    ghost var before := reader.Written();
    var status := reader.DecodePayload();
    reader.FollowsMeans(p, status, before);
    chars := if status == QuircPayload.Success then reader.payload[..reader.payload_len] else [];
  }

  /** Whatever list of segments fits a version, the reader gets exactly its characters. */
  method EncodeThenDecode(ts: seq<Text>, ecl: nat, minVersion: int, maxVersion: int, mask: int, boostEcl: bool,
                          capacity: QrEncode.Capacity) returns (r: QrEncode.Encoded, chars: seq<nat>)
    requires ecl <= 3 && AllSound(ts)
    requires forall v, e :: 1 <= v <= 40 && e <= 3 ==> capacity(v, e) <= 2956
    ensures r.Codewords? <==> QrEncode.Encodable(SegmentsOf(ts), ecl, minVersion, maxVersion, mask, capacity)
    ensures r.Codewords? ==> chars == AllChars(ts)
  {
    hide BitsOf, Packed, Payload, AllChars, AllSound, AllBits, QrEncode.Tail, QrEncode.TotalBits, QrEncode.Encodable;
    r := QrEncode.EncodeSegments(SegmentsOf(ts), ecl, minVersion, maxVersion, mask, boostEcl, capacity);
    chars := [];
    if r.Codewords? {
      UsedBits(SegmentsOf(ts), r.version, |r.data|);
      QrEncode.SegmentsReadBack(ts, r.version, r.data);
      chars := ReadChars(r.data, r.version);
    }
  }

  lemma UsedBits(segs: seq<Segment>, version: nat, bytes: nat)
    requires version <= 40 && QrEncode.Suits(segs, version, bytes)
    ensures |AllBits(segs, version)| <= 8 * bytes
  {
  }
}
