/** Bits packed into bytes, most significant first. */
module QrBits {
  import opened Arith
  import opened ByteWords

  /** 2^k for the bits of a byte. */
  function Place(k: nat): (p: nat)
    requires k <= 8
    ensures p > 0
  {
    if k == 0 then 1 else if k == 1 then 2 else if k == 2 then 4 else if k == 3 then 8 else if k == 4 then 16
    else if k == 5 then 32 else if k == 6 then 64 else if k == 7 then 128 else 256
  }

  /** Bit `i` of a byte, counted from the least significant. */
  function GetBit(x: nat, i: nat): bool
    requires i < 8
  {
    x / Place(i) % 2 == 1
  }

  /** The `k`-th bit of a byte sequence. */
  function BitAt(data: seq<nat>, k: nat): bool
    requires k < 8 * |data|
  {
    GetBit(data[k / 8], 7 - k % 8)
  }

  function BitsOf(data: seq<nat>): (bits: seq<bool>)
    ensures |bits| == 8 * |data|
  {
    seq(8 * |data|, (k: nat) requires k < 8 * |data| => BitAt(data, k))
  }

  function On(bits: seq<bool>, k: nat): nat {
    if k < |bits| && bits[k] then 1 else 0
  }

  /** The byte whose upper bits are given, the lower ones zero. */
  function Byte(bits: seq<bool>): nat {
    On(bits, 0) * 128 + On(bits, 1) * 64 + On(bits, 2) * 32 + On(bits, 3) * 16
    + On(bits, 4) * 8 + On(bits, 5) * 4 + On(bits, 6) * 2 + On(bits, 7)
  }

  /** The bits belonging to byte `j`. */
  function Octet(bits: seq<bool>, j: nat): (o: seq<bool>)
    ensures |o| <= 8
  {
    if 8 * j >= |bits| then [] else if 8 * j + 8 > |bits| then bits[8 * j..] else bits[8 * j..8 * j + 8]
  }

  /** `n` bytes holding the bits, zeros behind them. */
  function Packed(bits: seq<bool>, n: nat): (data: seq<nat>)
    ensures |data| == n
  {
    seq(n, (j: nat) requires j < n => Byte(Octet(bits, j)))
  }

  lemma ByteShape(bits: seq<bool>)
    requires |bits| <= 8
    ensures Byte(bits) < 256 && Byte(bits) % Place(8 - |bits|) == 0
  {
    if |bits| == 0 {} else if |bits| == 1 {} else if |bits| == 2 {} else if |bits| == 3 {} else if |bits| == 4 {}
    else if |bits| == 5 {} else if |bits| == 6 {} else if |bits| == 7 {} else {}
  }

  /** Setting the next bit of a byte under construction. */
  lemma BitAppended(bits: seq<bool>, n: nat, b: bool)
    requires |bits| < 8 * n
    ensures var j, k := |bits| / 8, |bits| % 8;
            && Packed(bits, n)[j] % Place(8 - k) == 0
            && Place(7 - k) < Place(8 - k)
            && Packed(bits + [b], n) == Packed(bits, n)[j := Packed(bits, n)[j] + if b then Place(7 - k) else 0]
  {
    hide Byte, Place;
    var j, k := |bits| / 8, |bits| % 8;
    var o := Octet(bits, j);
    assert o == bits[8 * j..] && |o| == k;
    ByteShape(o);
    assert Octet(bits + [b], j) == o + [b];
    NextBit(o, b);
    forall i: nat | i < n && i != j
      ensures Octet(bits + [b], i) == Octet(bits, i)
    {
    }
  }

  lemma NextBit(o: seq<bool>, b: bool)
    requires |o| < 8
    ensures Byte(o + [b]) == Byte(o) + (if b then Place(7 - |o|) else 0) && Place(7 - |o|) < Place(8 - |o|)
  {
    var n := |o|;
    assert forall k :: k != n ==> On(o + [b], k) == On(o, k);
    hide On;
    if n < 4 {
      if n == 0 {} else if n == 1 {} else if n == 2 {} else {}
    } else {
      if n == 4 {} else if n == 5 {} else if n == 6 {} else {}
    }
  }

  function Quotient(x: nat, k: nat): int
    requires k <= 8
  {
    x / Place(k)
  }

  function Parity(y: int): int { y % 2 }

  lemma HalfStep(x: nat, k: nat)
    requires k < 8
    ensures Quotient(x, k) == 2 * Quotient(x, k + 1) + Parity(Quotient(x, k))
  {
    DivTwice(x, Place(k), 2);
  }

  lemma Ends(x: nat)
    requires x < 256
    ensures Quotient(x, 0) == x && Quotient(x, 8) == 0
  {
  }

  lemma Halves(x: nat)
    requires x < 256
    ensures x == Parity(Quotient(x, 7)) * 128 + Parity(Quotient(x, 6)) * 64 + Parity(Quotient(x, 5)) * 32 + Parity(Quotient(x, 4)) * 16
                 + Parity(Quotient(x, 3)) * 8 + Parity(Quotient(x, 2)) * 4 + Parity(Quotient(x, 1)) * 2 + Parity(Quotient(x, 0))
  {
    hide Quotient, Parity;
    Ends(x);
    HalfStep(x, 0); HalfStep(x, 1); HalfStep(x, 2); HalfStep(x, 3);
    HalfStep(x, 4); HalfStep(x, 5); HalfStep(x, 6); HalfStep(x, 7);
  }

  function Bits8(x: nat): seq<bool> {
    [GetBit(x, 7), GetBit(x, 6), GetBit(x, 5), GetBit(x, 4), GetBit(x, 3), GetBit(x, 2), GetBit(x, 1), GetBit(x, 0)]
  }

  lemma BitOf(x: nat, k: nat)
    requires k < 8
    ensures On(Bits8(x), k) == Parity(Quotient(x, 7 - k))
  {
    hide Place;
  }

  /** A byte is the byte of its bits. */
  lemma ByteOfBits(x: nat)
    requires x < 256
    ensures Byte(Bits8(x)) == x
  {
    hide On, Bits8, Quotient, Parity;
    Halves(x);
    BitOf(x, 0); BitOf(x, 1); BitOf(x, 2); BitOf(x, 3);
    BitOf(x, 4); BitOf(x, 5); BitOf(x, 6); BitOf(x, 7);
  }

  /** Packing the bits of bytes, with any number of zero bits behind them, gives the bytes back. */
  lemma PackRoundTrip(data: seq<nat>, zeros: nat, n: nat)
    requires |data| <= n && forall i :: 0 <= i < |data| ==> data[i] < 256
    ensures Packed(BitsOf(data) + seq(zeros, _ => false), n) == data + seq(n - |data|, _ => 0)
  {
    hide Byte, Bits8;
    var bits := BitsOf(data) + seq(zeros, _ => false);
    forall j | 0 <= j < |data|
      ensures Packed(bits, n)[j] == data[j]
    {
      OctetIs(data, zeros, j);
      ByteOfBits(data[j]);
    }
    forall j | |data| <= j < n
      ensures Packed(bits, n)[j] == 0
    {
      NoBits(Octet(bits, j));
    }
  }

  /** Unpacking packed bytes gives the bits back. */
  lemma UnpackRoundTrip(bits: seq<bool>, n: nat)
    requires |bits| == 8 * n
    ensures BitsOf(Packed(bits, n)) == bits
  {
    hide Byte, GetBit;
    forall k | 0 <= k < 8 * n
      ensures BitsOf(Packed(bits, n))[k] == bits[k]
    {
      var o := Octet(bits, k / 8);
      assert |o| == 8 && o[k % 8] == bits[k];
      ByteBit(o, k % 8);
    }
  }

  lemma Middle(y: nat, hi: nat, b: nat, lo: nat, i: nat)
    requires i < 8 && b <= 1 && lo < Place(i) && y == (2 * hi + b) * Place(i) + lo
    ensures GetBit(y, i) == (b == 1)
  {
    DivUnique(y, Place(i), 2 * hi + b, lo);
  }

  lemma ByteBit(o: seq<bool>, t: nat)
    requires |o| == 8 && t < 8
    ensures GetBit(Byte(o), 7 - t) == o[t]
  {
    assert forall k :: 0 <= k < 8 ==> On(o, k) <= 1 && (On(o, k) == 1 <==> o[k]);
    hide On, GetBit;
    if t == 0 { Middle(Byte(o), 0, On(o, 0), On(o, 1) * 64 + On(o, 2) * 32 + On(o, 3) * 16 + On(o, 4) * 8 + On(o, 5) * 4 + On(o, 6) * 2 + On(o, 7) * 1, 7); }
    else if t == 1 { Middle(Byte(o), On(o, 0) * 1, On(o, 1), On(o, 2) * 32 + On(o, 3) * 16 + On(o, 4) * 8 + On(o, 5) * 4 + On(o, 6) * 2 + On(o, 7) * 1, 6); }
    else if t == 2 { Middle(Byte(o), On(o, 0) * 2 + On(o, 1) * 1, On(o, 2), On(o, 3) * 16 + On(o, 4) * 8 + On(o, 5) * 4 + On(o, 6) * 2 + On(o, 7) * 1, 5); }
    else if t == 3 { Middle(Byte(o), On(o, 0) * 4 + On(o, 1) * 2 + On(o, 2) * 1, On(o, 3), On(o, 4) * 8 + On(o, 5) * 4 + On(o, 6) * 2 + On(o, 7) * 1, 4); }
    else if t == 4 { Middle(Byte(o), On(o, 0) * 8 + On(o, 1) * 4 + On(o, 2) * 2 + On(o, 3) * 1, On(o, 4), On(o, 5) * 4 + On(o, 6) * 2 + On(o, 7) * 1, 3); }
    else if t == 5 { Middle(Byte(o), On(o, 0) * 16 + On(o, 1) * 8 + On(o, 2) * 4 + On(o, 3) * 2 + On(o, 4) * 1, On(o, 5), On(o, 6) * 2 + On(o, 7) * 1, 2); }
    else if t == 6 { Middle(Byte(o), On(o, 0) * 32 + On(o, 1) * 16 + On(o, 2) * 8 + On(o, 3) * 4 + On(o, 4) * 2 + On(o, 5) * 1, On(o, 6), On(o, 7) * 1, 1); }
    else if t == 7 { Middle(Byte(o), On(o, 0) * 64 + On(o, 1) * 32 + On(o, 2) * 16 + On(o, 3) * 8 + On(o, 4) * 4 + On(o, 5) * 2 + On(o, 6) * 1, On(o, 7), 0, 0); }
  }

  lemma OctetBit(data: seq<nat>, zeros: nat, j: nat, t: nat)
    requires j < |data| && t < 8
    ensures var o := Octet(BitsOf(data) + seq(zeros, _ => false), j);
            |o| == 8 && o[t] == GetBit(data[j], 7 - t)
  {
    hide GetBit;
    var bits := BitsOf(data) + seq(zeros, _ => false);
    assert bits[8 * j + t] == BitAt(data, 8 * j + t);
    assert (8 * j + t) / 8 == j && (8 * j + t) % 8 == t;
  }

  lemma OctetIs(data: seq<nat>, zeros: nat, j: nat)
    requires j < |data|
    ensures Octet(BitsOf(data) + seq(zeros, _ => false), j) == Bits8(data[j])
  {
    hide GetBit, Octet, BitsOf;
    OctetBit(data, zeros, j, 0); OctetBit(data, zeros, j, 1); OctetBit(data, zeros, j, 2); OctetBit(data, zeros, j, 3);
    OctetBit(data, zeros, j, 4); OctetBit(data, zeros, j, 5); OctetBit(data, zeros, j, 6); OctetBit(data, zeros, j, 7);
  }

  lemma NoBits(o: seq<bool>)
    requires forall k :: 0 <= k < |o| ==> !o[k]
    ensures Byte(o) == 0
  {
  }
}
