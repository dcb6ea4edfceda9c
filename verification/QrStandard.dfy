/** The bit stream in the numerals of the standard (section 7.4 of ISO/IEC 18004:2015), and a reader of exactly that. */
module QrStandard {
  import opened Bits
  import opened QrBits
  import opened QrSegments
  import QrEncode

  const DIGITS: string := "0123456789"
  const LETTERS: string := "ABCDEFGHIJKLMNOPQRSTUVWXYZ"
  const SYMBOLS: string := " $%*+-./:"
  const ALPHABET: string := DIGITS + LETTERS + SYMBOLS

  /** The width of the count in versions 1 to 9, 10 to 26 and 27 to 40. */
  function CountWidth(mode: Mode, version: nat): nat {
    match mode
    case Numeric => if version <= 9 then 10 else if version <= 26 then 12 else 14
    case Alphanumeric => if version <= 9 then 9 else if version <= 26 then 11 else 13
    case Bytes => if version <= 9 then 8 else 16
  }

  /** Three digits in ten bits; two left over in seven, one in four. */
  function DigitBits(ds: seq<nat>): seq<bool> {
    if ds == [] then []
    else if |ds| == 1 then NBits(ds[0], 4)
    else if |ds| == 2 then NBits(10 * ds[0] + ds[1], 7)
    else NBits(100 * ds[0] + 10 * ds[1] + ds[2], 10) + DigitBits(ds[3..])
  }

  /** Two characters in eleven bits; one left over in six. */
  function PairBits(ds: seq<nat>): seq<bool> {
    if ds == [] then []
    else if |ds| == 1 then NBits(ds[0], 6)
    else NBits(45 * ds[0] + ds[1], 11) + PairBits(ds[2..])
  }

  function DataBits(t: Text): seq<bool> {
    match t.mode case Numeric => DigitBits(t.ds) case Alphanumeric => PairBits(t.ds) case Bytes => BitsOf(t.ds)
  }

  /** A segment as it stands in the symbol. */
  function StandardBits(t: Text, version: nat): seq<bool> {
    Indicator(t.mode) + NBits(|t.ds|, CountWidth(t.mode, version)) + DataBits(t)
  }

  function Values(mode: Mode): nat {
    match mode case Numeric => 10 case Alphanumeric => 45 case Bytes => 256
  }

  /** The character a value stands for. */
  function Character(mode: Mode, d: nat): nat
    requires d < Values(mode)
  {
    match mode case Numeric => '0' as nat + d case Alphanumeric => ALPHABET[d] as nat case Bytes => d
  }

  function Characters(mode: Mode, ds: seq<nat>): (cs: seq<nat>)
    requires forall i :: 0 <= i < |ds| ==> ds[i] < Values(mode)
    ensures |cs| == |ds|
  {
    seq(|ds|, i requires 0 <= i < |ds| => Character(mode, ds[i]))
  }

  // ---------- the writer's segments are those ----------

  lemma {:induction false} DigitsAre(ds: seq<nat>)
    ensures GroupBits(Numeric, ds) == DigitBits(ds)
  {
    hide NBits;
    if |ds| == 1 {
      OneDigit(10, ds);
      assert ds[1..] == [];
    } else if |ds| == 2 {
      TwoDigits(10, ds);
      assert ds[2..] == [];
    } else if |ds| >= 3 {
      ThreeDigits(ds[..3]);
      DigitsAre(ds[3..]);
    }
  }

  lemma {:induction false} PairsAre(ds: seq<nat>)
    ensures GroupBits(Alphanumeric, ds) == PairBits(ds)
  {
    hide NBits;
    if |ds| == 1 {
      OneDigit(45, ds);
      assert ds[1..] == [];
    } else if |ds| >= 2 {
      TwoDigits(45, ds[..2]);
      PairsAre(ds[2..]);
    }
  }

  lemma OneDigit(base: nat, ds: seq<nat>)
    requires |ds| == 1
    ensures Collapse(base, ds) == ds[0] && ds[..1] == ds
  {
    assert ds[..0] == [];
    assert Collapse(base, []) == 0;
  }

  lemma TwoDigits(base: nat, ds: seq<nat>)
    requires |ds| == 2
    ensures Collapse(base, ds) == base * ds[0] + ds[1] && ds[..2] == ds
  {
    OneDigit(base, ds[..1]);
  }

  lemma ThreeDigits(ds: seq<nat>)
    requires |ds| == 3
    ensures Collapse(10, ds) == 100 * ds[0] + 10 * ds[1] + ds[2]
  {
    TwoDigits(10, ds[..2]);
  }

  lemma {:induction false} BytesAre(ds: seq<nat>)
    requires forall i :: 0 <= i < |ds| ==> ds[i] < 256
    ensures GroupBits(Bytes, ds) == BitsOf(ds)
  {
    hide NBits, GetBit;
    if ds != [] {
      OneDigit(256, ds[..1]);
      BytesAre(ds[1..]);
      EightBits(ds[0]);
      forall k | 0 <= k < 8 * |ds|
        ensures BitsOf(ds)[k] == (Bits8(ds[0]) + BitsOf(ds[1..]))[k]
      {
        if k >= 8 { assert ds[k / 8] == ds[1..][(k - 8) / 8] && (k - 8) % 8 == k % 8; } else { TopBits(ds[0], k); }
      }
      assert BitsOf(ds) == Bits8(ds[0]) + BitsOf(ds[1..]);
    }
  }

  lemma TopBits(x: nat, k: nat)
    requires k < 8
    ensures Bits8(x)[k] == GetBit(x, 7 - k)
  {
    hide GetBit;
  }

  /** The bits of a byte by repeated halving are those at the places of its powers of two. */
  lemma EightBits(x: nat)
    requires x < 256
    ensures NBits(x, 8) == Bits8(x)
  {
    hide NBits, GetBit, Quotient;
    Ends(x);
    NoBitsYet(Quotient(x, 8));
    NextHalf(x, 0); NextHalf(x, 1); NextHalf(x, 2); NextHalf(x, 3);
    NextHalf(x, 4); NextHalf(x, 5); NextHalf(x, 6); NextHalf(x, 7);
  }

  lemma NoBitsYet(x: int)
    requires x >= 0
    ensures NBits(x, 0) == []
  {
  }

  lemma NextHalf(x: nat, k: nat)
    requires k < 8 && x < 256
    ensures Quotient(x, k) >= 0 && Quotient(x, k + 1) >= 0
    ensures NBits(Quotient(x, k), 8 - k) == NBits(Quotient(x, k + 1), 7 - k) + [GetBit(x, k)]
  {
    HalfStep(x, k);
  }

  /** What the writer makes of a text is the segment of the standard. */
  lemma SegmentIsStandard(t: Text, version: nat)
    requires version <= 40 && Sound(t)
    ensures SegmentBits(SegmentOf(t), version) == StandardBits(t, version)
  {
    hide NBits, GroupBits, BitsOf, DigitBits, PairBits;
    ModeIs(t.mode);
    match t.mode
    case Numeric => DigitsAre(t.ds);
    case Alphanumeric => PairsAre(t.ds);
    case Bytes => BytesAre(t.ds);
  }

  /** The alphanumeric values are the places in the alphabet. */
  lemma CharactersAre(mode: Mode, d: nat)
    requires d < Base(mode)
    ensures d < Values(mode) && CharOf(mode, d) == Character(mode, d)
  {
    if mode == Alphanumeric { AlphabetIs(d); }
  }

  lemma AlphabetIs(d: nat)
    requires d < 45
    ensures |ALPHABET| == 45 && CHARSET[d] == ALPHABET[d] as nat
  {
    if d < 10 {
      DigitIs(d);
    } else if d < 23 {
      EarlyLetterIs(d);
    } else if d < 36 {
      LateLetterIs(d);
    } else {
      SymbolIs(d);
    }
  }

  lemma DigitIs(d: nat)
    requires d < 10
    ensures CHARSET[d] == DIGITS[d] as nat
  {
    if d == 0 {} else if d == 1 {} else if d == 2 {} else if d == 3 {} else if d == 4 {} else
    if d == 5 {} else if d == 6 {} else if d == 7 {} else if d == 8 {} else if d == 9 {}
  }

  lemma EarlyLetterIs(d: nat)
    requires 10 <= d < 23
    ensures CHARSET[d] == LETTERS[d - 10] as nat
  {
    if d == 10 {} else if d == 11 {} else if d == 12 {} else if d == 13 {} else if d == 14 {} else
    if d == 15 {} else if d == 16 {} else if d == 17 {} else if d == 18 {} else if d == 19 {} else
    if d == 20 {} else if d == 21 {} else if d == 22 {}
  }

  lemma LateLetterIs(d: nat)
    requires 23 <= d < 36
    ensures CHARSET[d] == LETTERS[d - 10] as nat
  {
    if d == 23 {} else if d == 24 {} else if d == 25 {} else if d == 26 {} else if d == 27 {} else
    if d == 28 {} else if d == 29 {} else if d == 30 {} else if d == 31 {} else if d == 32 {} else
    if d == 33 {} else if d == 34 {} else if d == 35 {}
  }

  lemma SymbolIs(d: nat)
    requires 36 <= d < 45
    ensures CHARSET[d] == SYMBOLS[d - 36] as nat
  {
    if d == 36 {} else if d == 37 {} else if d == 38 {} else if d == 39 {} else if d == 40 {} else
    if d == 41 {} else if d == 42 {} else if d == 43 {} else if d == 44 {}
  }

  // ---------- reading ----------

  /** A reader that meets one segment of the standard and a terminator yields exactly its characters. */
  lemma StandardReadsBack(t: Text, version: nat, more: seq<bool>)
    requires version <= 40 && Sound(t) && |t.ds| + 1 <= MAX_PAYLOAD
    requires |t.ds| < Pow2(CountWidth(t.mode, version))
    ensures forall i :: 0 <= i < |t.ds| ==> t.ds[i] < Values(t.mode)
    ensures Payload(StandardBits(t, version) + [false, false, false, false] + more, version, 0)
         == Ok(Characters(t.mode, t.ds), more)
  {
    hide StandardBits, SegmentBits, SegmentOf, Sound, Payload, Chars, CountWidth, CharCountBits, Characters, Pow2;
    SoundWithin(t);
    SegmentIsStandard(t, version);
    var rest := [false, false, false, false] + more;
    assert StandardBits(t, version) + [false, false, false, false] + more == StandardBits(t, version) + rest;
    WidthsAre(t.mode, version);
    FirstSegment(t, version, 0, rest);
    Terminator(more, version, |t.ds|);
    CharsAre(t);
  }

  lemma CharsAre(t: Text)
    requires Within(Base(t.mode), t.ds)
    ensures forall i :: 0 <= i < |t.ds| ==> t.ds[i] < Values(t.mode)
    ensures Chars(t.mode, t.ds) == Characters(t.mode, t.ds)
  {
    forall i | 0 <= i < |t.ds| ensures CharOf(t.mode, t.ds[i]) == Character(t.mode, t.ds[i]) {
      CharactersAre(t.mode, t.ds[i]);
    }
  }

  lemma Terminator(more: seq<bool>, version: nat, len: nat)
    requires version <= 40
    ensures Payload([false, false, false, false] + more, version, len) == Ok([], more)
  {
    var bits := [false, false, false, false] + more;
    assert bits[..4] == [false, false, false, false] && bits[4..] == more;
    ZeroNum();
  }

  lemma WidthsAre(mode: Mode, version: nat)
    requires version <= 40
    ensures CharCountBits(mode, version) == CountWidth(mode, version)
  {
  }
}
