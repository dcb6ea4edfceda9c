/** BLAKE2b over a stream: the lazy block buffer around the compression function (`monocypher.c`). */
module Blake2b {
  import opened Arith
  import opened Radix
  import opened ByteWords
  import opened Streams
  import Bits

  const W64 := 0x1_0000_0000_0000_0000

  /** The mixing of a block into the hash: hash, block, low and high offset, last block? */
  type Mix = (seq<nat>, seq<nat>, nat, nat, bool) -> seq<nat>

  const IV: seq<nat> := [
    0x6a09e667f3bcc908, 0xbb67ae8584caa73b, 0x3c6ef372fe94f82b, 0xa54ff53a5f1d36f1,
    0x510e527fade682d1, 0x9b05688c2b3e6c1f, 0x1f83d9abfb41bd6b, 0x5be0cd19137e2179]

  const PRIMES: seq<nat> := [2, 3, 5, 7, 11, 13, 17, 19]

  /** The constants are the first 64 bits of the fractions of the square roots of the first eight primes: with the whole
      part in front they make the largest number whose square is not greater than the prime at that scale. */
  lemma ConstantsAreRoots(i: nat)
    requires i < 8
    ensures |IV| == |PRIMES| == 8 && IV[i] < W64
    ensures var root := (if i < 2 then 1 else if i < 4 then 2 else if i < 6 then 3 else 4) * W64 + IV[i];
            root * root <= PRIMES[i] * (W64 * W64) < (root + 1) * (root + 1)
  {
    if i < 4 {
      if i == 0 {} else if i == 1 {} else if i == 2 {} else {}
    } else {
      if i == 4 {} else if i == 5 {} else if i == 6 {} else {}
    }
  }

  // ---------- words of a block ----------

  /** The word that bytes 8w to 8w + 7 of a block make, absent bytes being zero. */
  function WordOf(block: seq<nat>, w: nat): nat {
    Val(256, Piece(block, 8 * w, 8))
  }

  function BlockWords(block: seq<nat>): (ws: seq<nat>)
    ensures |ws| == 16
  {
    seq(16, (w: nat) requires w < 16 => WordOf(block, w))
  }

  lemma NoBytes()
    ensures BlockWords([]) == seq(16, (w: nat) requires w < 16 => 0)
  {
    forall w: nat | w < 16 ensures WordOf([], w) == 0 { ValEmpty(256); }
  }

  lemma OtherWords(t: seq<nat>, e: seq<nat>, v: nat)
    requires |t| / 8 * 8 + 8 >= |t| + |e| && v != |t| / 8
    ensures WordOf(t + e, v) == WordOf(t, v)
  {
    hide Val;
    assert Piece(t + e, 8 * v, 8) == Piece(t, 8 * v, 8);
  }

  /** A byte moved up by `k` bytes. */
  function Shift(m: nat, k: nat): nat {
    m * Pw(256, k)
  }

  lemma PartialWord(p: seq<nat>, m: nat)
    requires Digits(256, p)
    ensures var unit := Pw(256, |p|);
            && unit > 0 && Val(256, p) < unit && Shift(m, |p|) % unit == 0
            && Val(256, p + [m]) == Val(256, p) + Shift(m, |p|)
  {
    hide Val, Pw;
    ValBound(256, p);
    PwPositive(256, |p|);
    DivUnique(m * Pw(256, |p|), Pw(256, |p|), m, 0);
    ValAppend(256, p, m);
  }

  /** One more byte in a partial word: the word's upper bytes were zero. */
  lemma ByteAppended(t: seq<nat>, m: nat)
    requires |t| < 128 && Digits(256, t)
    ensures var w, k := |t| / 8, |t| % 8;
            && Pw(256, k) > 0 && WordOf(t, w) < Pw(256, k) && Shift(m, k) % Pw(256, k) == 0
            && BlockWords(t + [m]) == BlockWords(t)[w := WordOf(t, w) + Shift(m, k)]
  {
    hide Val, Pw, Shift;
    var w := |t| / 8;
    var p := t[8 * w..];
    assert |p| == |t| % 8;
    assert Piece(t, 8 * w, 8) == p && Piece(t + [m], 8 * w, 8) == p + [m];
    PartialWord(p, m);
    SetWord(t, [m], WordOf(t, w) + Shift(m, |p|));
  }

  lemma SetWord(t: seq<nat>, e: seq<nat>, x: nat)
    requires |t| < 128 && |t| / 8 * 8 + 8 >= |t| + |e| && WordOf(t + e, |t| / 8) == x
    ensures BlockWords(t + e) == BlockWords(t)[|t| / 8 := x]
  {
    hide WordOf;
    forall v: nat | v < 16 && v != |t| / 8
      ensures WordOf(t + e, v) == WordOf(t, v)
    {
      OtherWords(t, e, v);
    }
  }

  /** A whole word behind whole words. */
  lemma WordAppended(t: seq<nat>, e: seq<nat>)
    requires |t| % 8 == 0 && |t| + 8 <= 128 && |e| == 8
    ensures BlockWords(t + e) == BlockWords(t)[|t| / 8 := Val(256, e)]
  {
    hide Val;
    assert Piece(t + e, |t|, 8) == e;
    SetWord(t, e, Val(256, e));
  }

  // ---------- the hash as the standard defines it ----------

  /** The hash after the first `n` blocks, none of them the last. */
  ghost function Fold(mix: Mix, h: seq<nat>, data: seq<nat>, n: nat): seq<nat>
    decreases n
  {
    if n == 0 then h
    else
      mix(Fold(mix, h, data, n - 1), BlockWords(Piece(data, 128 * (n - 1), 128)),
          128 * n % W64, 128 * n / W64 % W64, false)
  }

  /** How many blocks come before the last one. */
  function Before(length: nat): nat {
    if length == 0 then 0 else (length - 1) / 128
  }

  /** The final hash of all the data, key block included. */
  ghost function Digest(mix: Mix, h: seq<nat>, data: seq<nat>): seq<nat> {
    var n := Before(|data|);
    mix(Fold(mix, h, data, n), BlockWords(Piece(data, 128 * n, 128)), |data| % W64, |data| / W64 % W64, true)
  }

  /** Later data does not change the blocks already there. */
  lemma {:induction false} FoldPrefix(mix: Mix, h: seq<nat>, data: seq<nat>, more: seq<nat>, n: nat)
    requires 128 * n <= |data|
    ensures Fold(mix, h, data + more, n) == Fold(mix, h, data, n)
  {
    if n > 0 {
      FoldPrefix(mix, h, data, more, n - 1);
      assert Piece(data + more, 128 * (n - 1), 128) == Piece(data, 128 * (n - 1), 128);
    }
  }

  /** The 128-bit offset, in two words with a carry between them. */
  method Increment(lo: nat, hi: nat, y: nat, ghost total: nat) returns (lo': nat, hi': nat)
    requires y <= 128 && lo == total % W64 && hi == total / W64 % W64
    ensures lo' == (total + y) % W64 && hi' == (total + y) / W64 % W64
  {
    lo' := (lo + y) % W64;
    hi' := if lo' < y then (hi + 1) % W64 else hi;
    CarryInto(total, y);
  }

  lemma CarryInto(total: nat, y: nat)
    requires y <= 128
    ensures var lo, q := total % W64, total / W64;
            && (total + y) % W64 == (lo + y) % W64
            && (total + y) / W64 % W64 == if (lo + y) % W64 < y then (q % W64 + 1) % W64 else q % W64
  {
    var lo, q := total % W64, total / W64;
    if lo + y < W64 {
      DivUnique(total + y, W64, q, lo + y);
    } else {
      DivUnique(total + y, W64, q + 1, lo + y - W64);
    }
  }

  /** The initial hash, depending on the parameters. */
  function Start(hash_size: nat, key_size: nat): seq<nat> {
    IV[0 := Bits.Xor(IV[0], Bits.Xor(Bits.Xor(0x0101_0000, key_size * 0x100), hash_size))]
  }

  /** The first word of the initial hash is the constant with the parameter block added: digest length, key length, one
      layer, one leaf (section 2.5 of RFC 7693); the other words are the constants. */
  lemma StartIs(hash_size: nat, key_size: nat)
    requires hash_size < 256 && key_size < 256
    ensures |Start(hash_size, key_size)| == 8 && Start(hash_size, key_size)[1..] == IV[1..]
    ensures Start(hash_size, key_size)[0] == Bits.Xor(IV[0], Val(256, [hash_size, key_size, 1, 1]))
  {
    hide Bits.Xor;
    FourByteValue(hash_size, key_size, 1, 1);
    XorParts(hash_size, key_size);
  }

  lemma FourByteValue(a: nat, b: nat, c: nat, d: nat)
    ensures Val(256, [a, b, c, d]) == a + 0x100 * b + 0x1_0000 * c + 0x100_0000 * d
  {
    hide Val, Pw;
    PwZero(256);
    PwStep(256, 0);
    PwStep(256, 1);
    PwStep(256, 2);
    ValEmpty(256);
    ValAppend(256, [], a);
    ValAppend(256, [a], b);
    ValAppend(256, [a, b], c);
    ValAppend(256, [a, b, c], d);
    assert [] + [a] == [a] && [a] + [b] == [a, b] && [a, b] + [c] == [a, b, c] && [a, b, c] + [d] == [a, b, c, d];
  }

  /** The parameters have no bits in common. */
  lemma XorParts(hash_size: nat, key_size: nat)
    requires hash_size < 256 && key_size < 256
    ensures Bits.Xor(Bits.Xor(0x0101_0000, key_size * 0x100), hash_size) == 0x0101_0000 + key_size * 0x100 + hash_size
  {
    assert Bits.Pow2(8) == 0x100 && Bits.Pow2(16) == 0x1_0000;
    hide Bits.Xor, Bits.Pow2;
    Bits.XorDisjoint(0x101, key_size * 0x100, 16);
    Bits.XorDisjoint(0x1_0100 + key_size, hash_size, 8);
  }

  /** The key padded with zeros to a block; nothing without a key. */
  function KeyBlock(key: seq<nat>): (block: seq<nat>)
    requires |key| <= 128
    ensures |block| == if key == [] then 0 else 128
    ensures Digits(256, key) ==> Digits(256, block)
  {
    if key == [] then [] else key + seq(128 - |key|, _ => 0)
  }

  lemma KeyBlockIs(key: seq<nat>, i: nat)
    requires 0 < |key| <= 128 && i < 128
    ensures KeyBlock(key)[i] == if i < |key| then key[i] else 0
  {
  }

  /** Byte `i` of the hash, each word little-endian. */
  function HashByte(hash: seq<nat>, i: nat): nat
    requires i < 8 * |hash|
  {
    hash[i / 8] / Bits.Pow2(8 * (i % 8)) % 256
  }

  function HashBytes(hash: seq<nat>, n: nat): seq<nat>
    requires n <= 8 * |hash|
  {
    seq(n, (i: nat) requires i < n => HashByte(hash, i))
  }

  /** Every word of the hash is its eight bytes, least significant first. */
  lemma HashBytesAre(hash: seq<nat>, w: nat)
    requires w < |hash| && hash[w] < W64
    ensures Val(256, HashBytes(hash, 8 * |hash|)[8 * w..8 * w + 8]) == hash[w]
  {
    hide Val, Bits.Pow2;
    var bytes := HashBytes(hash, 8 * |hash|);
    assert bytes[8 * w..8 * w + 8] == LowBytes(hash[w], 8);
    LowBytesAre(hash[w], 8);
    EightBytes();
    DivUnique(hash[w], W64, 0, hash[w]);
  }

  lemma EightBytes()
    ensures Bits.Pow2(64) == W64
  {
    ByteScale(8);
    assert Pw(256, 8) == W64;
  }

  function LowBytes(x: nat, n: nat): (s: seq<nat>)
    ensures |s| == n
  {
    seq(n, (k: nat) requires k < n => DivNonneg(x, Bits.Pow2(8 * k)); x / Bits.Pow2(8 * k) % 256)
  }

  lemma {:induction false} LowBytesAre(x: nat, n: nat)
    ensures Val(256, LowBytes(x, n)) == x % Bits.Pow2(8 * n)
  {
    hide Val, Pw;
    if n == 0 {
      assert Bits.Pow2(0) == 1;
      ValEmpty(256);
    } else {
      var k := n - 1;
      LowBytesAre(x, k);
      DivNonneg(x, Bits.Pow2(8 * k));
      assert LowBytes(x, n) == LowBytes(x, k) + [x / Bits.Pow2(8 * k) % 256];
      ValAppend(256, LowBytes(x, k), x / Bits.Pow2(8 * k) % 256);
      ByteScale(k);
      LowNext(x, Bits.Pow2(8 * k));
      ByteScale(n);
      PwStep(256, k);
    }
  }

  lemma {:induction false} ByteScale(n: nat)
    ensures Bits.Pow2(8 * n) == Pw(256, n)
  {
    if n > 0 {
      ByteScale(n - 1);
      var m := 8 * (n - 1);
      assert Bits.Pow2(m + 1) == 2 * Bits.Pow2(m) && Bits.Pow2(m + 2) == 2 * Bits.Pow2(m + 1);
      assert Bits.Pow2(m + 3) == 2 * Bits.Pow2(m + 2) && Bits.Pow2(m + 4) == 2 * Bits.Pow2(m + 3);
      assert Bits.Pow2(m + 5) == 2 * Bits.Pow2(m + 4) && Bits.Pow2(m + 6) == 2 * Bits.Pow2(m + 5);
      assert Bits.Pow2(m + 7) == 2 * Bits.Pow2(m + 6) && Bits.Pow2(m + 8) == 2 * Bits.Pow2(m + 7);
    }
  }

  lemma LowNext(x: nat, p: nat)
    requires p > 0
    ensures x / p >= 0 && x % (256 * p) == x % p + x / p % 256 * p
  {
    var q, r := x / p, x % p;
    DivNonneg(x, p);
    var h, b := q / 256, q % 256;
    assert x == p * q + r && q == 256 * h + b;
    assert p * (256 * h + b) == 256 * p * h + p * b;
    MulMono(p, b, 255);
    MulNonneg(p, b);
    DivUnique(x, 256 * p, h, p * b + r);
  }

  lemma FoldNone(mix: Mix, h: seq<nat>)
    ensures Fold(mix, h, [], 0) == h
  {
  }

  // ---------- the streaming context ----------

  class Blake2bCtx {
    const mix: Mix
    var hash: seq<nat>
    var offset_lo: nat
    var offset_hi: nat
    const input: array<nat>
    var input_idx: nat
    var hash_size: nat
    ghost const start: seq<nat>  // the hash before any block
    ghost var data: seq<nat>     // everything absorbed, the key block first
    ghost var blocks: nat        // how many blocks are compressed

    /** The bytes not compressed yet. */
    ghost function Tail(): seq<nat>
      requires 128 * blocks <= |data|
      reads this
    {
      data[128 * blocks..]
    }

    /** The compressed part of the state belongs to the first `blocks` blocks. */
    ghost predicate Compressed()
      reads this
    {
      && 128 * blocks <= |data| && Digits(256, data)
      && hash == Fold(mix, start, data, blocks)
      && offset_lo == 128 * blocks % W64 && offset_hi == 128 * blocks / W64 % W64
    }

    /** The buffer holds the rest, zero-padded. */
    ghost predicate Holding()
      reads this, input
    {
      && Compressed() && input.Length == 16
      && |Tail()| == input_idx <= 128 && input[..] == BlockWords(Tail())
    }

    /** Between calls the buffer is empty only if there was no data at all. */
    ghost predicate Valid()
      reads this, input
    {
      Holding() && input_idx <= 128 && (input_idx == 0 ==> data == [])
    }

    /** crypto_blake2b_keyed_init: a key, if there is one, is the first block. */
    constructor (mix: Mix, hash_size: nat, key: seq<nat>)
      requires |key| <= 128 && Digits(256, key)
      ensures Valid() && fresh(input) && this.mix == mix && this.hash_size == hash_size
      ensures start == Start(hash_size, |key|) && data == KeyBlock(key)
    {
      hide Fold, BlockWords, Start;
      this.mix, this.hash_size, start := mix, hash_size, Start(hash_size, |key|);
      hash, offset_lo, offset_hi, input_idx := Start(hash_size, |key|), 0, 0, 0;
      input := new nat[16](_ => 0);
      data, blocks := [], 0;
      new;
      FoldNone(mix, start);
      EmptyTail();
      if |key| > 0 {
        var key_block := KeyBlock(key);
        LoadBlock(key_block);
        assert [] + key_block == key_block;
        Extend(key_block);
      }
    }

    /** The offset passes the block, then the block is mixed in. */
    method Compress(last: bool, ghost total: nat)
      requires input.Length == 16 && input_idx <= 128
      requires offset_lo == total % W64 && offset_hi == total / W64 % W64
      modifies `hash, `offset_lo, `offset_hi
      ensures offset_lo == (total + input_idx) % W64 && offset_hi == (total + input_idx) / W64 % W64
      ensures hash == mix(old(hash), input[..], offset_lo, offset_hi, last)
    {
      offset_lo, offset_hi := Increment(offset_lo, offset_hi, input_idx, total);
      hash := mix(hash, input[..], offset_lo, offset_hi, last);
    }

    /** A full buffer is compressed once more data is known to follow. */
    method CompressFull()
      requires Holding() && input_idx == 128
      modifies `hash, `offset_lo, `offset_hi, `blocks
      ensures Compressed() && blocks == old(blocks) + 1 && Tail() == []
    {
      Compress(false, 128 * blocks);
      assert Piece(data, 128 * blocks, 128) == Tail();
      blocks := blocks + 1;
    }

    /** The part of an update that completes a partial word. */
    method AlignWord(message: seq<nat>) returns (nb_bytes: nat)
      requires Valid() && Digits(256, message) && message != []
      modifies `input_idx, `data, input
      ensures Valid() && nb_bytes <= |message| && data == old(data) + message[..nb_bytes] && blocks == old(blocks)
      ensures nb_bytes < |message| ==> input_idx % 8 == 0
    {
      nb_bytes := 0;
      if input_idx % 8 != 0 {
        nb_bytes := if Gap(input_idx, 8) <= |message| then Gap(input_idx, 8) else |message|;
        OrBytes(message[..nb_bytes]);
      } else {
        assert message[..0] == [];
      }
    }

    /** Ors a byte into a word whose upper bytes are zero. */
    method OrByte(word: nat, byte: nat, m: nat, ghost u: seq<nat>)
      requires input.Length == 16 && input[..] == BlockWords(u) && Digits(256, u + [m])
      requires |u| < 128 && word == |u| / 8 && byte == |u| % 8
      modifies input
      ensures input[..] == BlockWords(u + [m])
    {
      hide Pw, Shift, WordOf;
      CutDigits(u + [m], |u|);
      assert (u + [m])[..|u|] == u;
      ByteAppended(u, m);
      assert input[word] == input[..][word] == WordOf(u, word);
      input[word] := Join(input[word], Shift(m, byte), Pw(256, byte));
    }

    /** Ors bytes into a partial word, one by one. */
    method OrBytes(message: seq<nat>)
      requires Holding() && Digits(256, message) && input_idx % 8 + |message| <= 8 && input_idx + |message| <= 128
      modifies `input_idx, `data, input
      ensures Holding() && data == old(data) + message && blocks == old(blocks) && input_idx == old(input_idx) + |message|
    {
      hide Fold, BlockWords;
      ghost var t := Tail();
      assert t + message[..0] == t;
      for i := 0 to |message|
        invariant input[..] == BlockWords(t + message[..i])
        modifies input
      {
        ghost var u := t + message[..i];
        assert message[..i + 1] == message[..i] + [message[i]] && u + [message[i]] == t + message[..i + 1];
        OrByte(input_idx / 8, input_idx % 8 + i, message[i], u);
      }
      assert message[..|message|] == message;
      Extend(message);
    }

    /** The buffer already holds the words of the longer tail. */
    method Extend(message: seq<nat>)
      requires Compressed() && input.Length == 16 && |Tail()| == input_idx && Digits(256, message)
      requires input_idx + |message| <= 128 && input[..] == BlockWords(Tail() + message)
      modifies `input_idx, `data
      ensures Holding() && data == old(data) + message && input_idx == old(input_idx) + |message|
    {
      hide Fold, BlockWords;
      FoldPrefix(mix, start, data, message, blocks);
      assert (data + message)[128 * blocks..] == Tail() + message;
      data := data + message;
      input_idx := input_idx + |message|;
    }

    /** Loads whole words behind whole words. */
    method LoadWords64(first: nat, message: seq<nat>, nb_words: nat, ghost t: seq<nat>)
      requires input.Length == 16 && input[..] == BlockWords(t) && |t| == 8 * first && |t| + 8 * nb_words <= 128
      requires 8 * nb_words <= |message|
      modifies input
      ensures input[..] == BlockWords(t + message[..8 * nb_words])
    {
      hide WordOf;
      assert t + message[..0] == t;
      for i := 0 to nb_words
        invariant input[..] == BlockWords(t + message[..8 * i])
      {
        ghost var e := message[8 * i..8 * i + 8];
        assert t + message[..8 * i] + e == t + message[..8 * i + 8];
        WordAppended(t + message[..8 * i], e);
        input[first + i] := Val(256, message[8 * i..8 * i + 8]);
      }
    }

    /** Words loaded behind the words in the buffer. */
    method AppendWords(message: seq<nat>, nb_words: nat)
      requires Holding() && input_idx % 8 == 0 && input_idx + 8 * nb_words <= 128
      requires 8 * nb_words <= |message| && Digits(256, message)
      modifies `input_idx, `data, input
      ensures Holding() && data == old(data) + message[..8 * nb_words] && input_idx == old(input_idx) + 8 * nb_words
    {
      hide Fold, BlockWords;
      LoadWords64(input_idx / 8, message, nb_words, Tail());
      Extend(message[..8 * nb_words]);
    }

    /** The part of an update that completes a partial block, word by word. */
    method AlignBlock(message: seq<nat>) returns (nb_bytes: nat)
      requires Valid() && Digits(256, message) && (message != [] ==> input_idx % 8 == 0)
      modifies `input_idx, `data, input
      ensures Valid() && nb_bytes <= |message| && data == old(data) + message[..nb_bytes] && blocks == old(blocks)
      ensures message != [] ==> input_idx % 8 == 0
      ensures input_idx % 128 != 0 ==> |message| - nb_bytes < 8
    {
      hide Holding, Digits, WordsToGo;
      nb_bytes := 0;
      assert data + message[..0] == data;
      if input_idx % 128 != 0 {
        var nb_words := WordsToGo(input_idx, |message|);
        WordsFit(input_idx, |message|);
        nb_bytes := 8 * nb_words;
        if nb_words > 0 {
          AppendWords(message, nb_words);
        }
      }
    }

    /** All sixteen words of a block. */
    method LoadBlock(block: seq<nat>)
      requires input.Length == 16 && |block| == 128
      modifies input
      ensures input[..] == BlockWords(block)
    {
      hide WordOf;
      for i := 0 to 16
        invariant forall w :: 0 <= w < i ==> input[w] == WordOf(block, w)
      {
        WordIs(block, i);
        input[i] := Val(256, block[8 * i..8 * i + 8]);
      }
    }

    /** One full block: the buffer, if full, is compressed first and then overwritten. */
    method NextBlock(block: seq<nat>)
      requires Valid() && input_idx % 128 == 0 && |block| == 128 && Digits(256, block)
      modifies `hash, `offset_lo, `offset_hi, `blocks, `input_idx, `data, input
      ensures Valid() && input_idx == 128 && data == old(data) + block
    {
      hide Fold, BlockWords;
      if input_idx == 128 { CompressFull(); }
      LoadBlock(block);
      assert Tail() == [] && [] + block == block;
      input_idx := 0;
      Extend(block);
    }

    /** Makes room: a full buffer is compressed, an empty one zeroed. */
    method Flush()
      requires Valid()
      modifies `hash, `offset_lo, `offset_hi, `blocks, `input_idx, input
      ensures Holding() && input_idx == old(input_idx) % 128 && data == old(data)
    {
      hide Fold, BlockWords;
      if input_idx == 128 {
        CompressFull();
        input_idx := 0;
      }
      if input_idx == 0 {
        forall w | 0 <= w < 16 { input[w] := 0; }
        EmptyTail();
      }
    }

    /** The last incomplete block of an update. */
    method Remainder(message: seq<nat>)
      requires Valid() && 0 < |message| < 128 && Digits(256, message)
      requires input_idx % 128 != 0 ==> |message| < 8 && input_idx % 8 + |message| <= 8
      modifies `hash, `offset_lo, `offset_hi, `blocks, `input_idx, `data, input
      ensures Valid() && data == old(data) + message
    {
      hide Holding, Digits;
      Flush();
      var nb_words := |message| / 8;
      CutDigits(message, 8 * nb_words);
      var head, rest := message[..8 * nb_words], message[8 * nb_words..];
      assert head + rest == message;
      AppendHead(message, nb_words);
      TailFits(old(input_idx), |message|);
      OrBytes(rest);
      assert old(data) + head + rest == old(data) + (head + rest);
    }

    /** A word is loaded at the start of the buffer only when the buffer is empty. */
    method AppendHead(message: seq<nat>, nb_words: nat)
      requires Holding() && Digits(256, message) && 8 * nb_words <= |message| && nb_words < 16
      requires nb_words > 0 ==> input_idx == 0
      modifies `input_idx, `data, input
      ensures Holding() && data == old(data) + message[..8 * nb_words] && input_idx == old(input_idx) + 8 * nb_words
    {
      hide Holding;
      if nb_words > 0 {
        AppendWords(message, nb_words);
      } else {
        assert data + message[..0] == data;
      }
    }

    /** Any update leaves the state of everything absorbed so far. */
    method Update(message: seq<nat>)
      requires Valid() && Digits(256, message)
      modifies `hash, `offset_lo, `offset_hi, `blocks, `input_idx, `data, input
      ensures Valid() && data == old(data) + message
    {
      hide Holding, Digits;
      if message == [] {
        assert data + message == data;
        return;
      }
      var nb_bytes := AlignWord(message);
      CutDigits(message, nb_bytes);
      var rest := message[nb_bytes..];
      assert message == message[..nb_bytes] + rest;
      nb_bytes := AlignBlock(rest);
      CutDigits(rest, nb_bytes);
      var rest' := rest[nb_bytes..];
      assert rest == rest[..nb_bytes] + rest';
      assert data + rest' == old(data) + message;
      Bulk(rest');
    }

    /** Block by block, then what is left. */
    method Bulk(message: seq<nat>)
      requires Valid() && Digits(256, message)
      requires message != [] && input_idx % 128 != 0 ==> |message| < 8 && input_idx % 8 == 0
      modifies `hash, `offset_lo, `offset_hi, `blocks, `input_idx, `data, input
      ensures Valid() && data == old(data) + message
    {
      hide Holding, Digits;
      var nb_blocks := |message| / 128;
      assert data + message[..0] == data;
      for i := 0 to nb_blocks
        invariant Valid() && data == old(data) + message[..128 * i]
        invariant if i == 0 then input_idx == old(input_idx) else input_idx % 128 == 0
      {
        var block := message[128 * i..128 * i + 128];
        assert message[..128 * i] + block == message[..128 * i + 128];
        CutDigits(message, 128 * i);
        assert message[128 * i..][..128] == block;
        CutDigits(message[128 * i..], 128);
        NextBlock(block);
      }
      CutDigits(message, 128 * nb_blocks);
      var last := message[128 * nb_blocks..];
      assert message == message[..128 * nb_blocks] + last;
      assert old(data) + message[..128 * nb_blocks] + last == old(data) + message;
      if last != [] {
        Remainder(last);
      } else {
        assert message[..128 * nb_blocks] == message;
      }
    }

    /** Compresses the last block and emits the first `hash_size` bytes. */
    method Final() returns (out: seq<nat>)
      requires Valid() && forall h, b, lo, hi, l :: |mix(h, b, lo, hi, l)| == 8
      modifies `hash, `offset_lo, `offset_hi
      ensures out == HashBytes(Digest(mix, start, data), if hash_size <= 64 then hash_size else 64)
    {
      hide Fold, BlockWords;
      Compress(true, 128 * blocks);
      assert blocks == Before(|data|);
      assert Tail() == Piece(data, 128 * blocks, 128);
      var size := if hash_size <= 64 then hash_size else 64;
      out := HashBytes(hash, size);
    }

    /** A zeroed buffer is that of an empty tail. */
    lemma EmptyTail()
      requires 128 * blocks <= |data| && input.Length == 16 && Tail() == []
      requires forall w :: 0 <= w < 16 ==> input[w] == 0
      ensures input[..] == BlockWords(Tail())
    {
      NoBytes();
    }
  }

  lemma TailFits(idx: nat, length: nat)
    requires idx <= 128 && length < 128 && (idx % 128 != 0 ==> length < 8 && idx % 8 + length <= 8)
    ensures var start := idx % 128 + 8 * (length / 8);
            start % 8 + length % 8 <= 8 && start + length % 8 <= 128 && length % 8 == length - 8 * (length / 8)
  {
  }

  /** How many whole words of a message complete a partial block. */
  function WordsToGo(idx: nat, length: nat): nat {
    (if Gap(idx, 128) <= length then Gap(idx, 128) else length) / 8
  }

  lemma WordsFit(idx: nat, length: nat)
    requires 0 < idx < 128 && (length > 0 ==> idx % 8 == 0)
    ensures var w := WordsToGo(idx, length);
            && 8 * w <= length && idx + 8 * w <= 128 && (w > 0 ==> idx % 8 == 0)
            && (length > 0 ==> (idx + 8 * w) % 8 == 0) && ((idx + 8 * w) % 128 != 0 ==> length - 8 * w < 8)
  {
  }

  lemma CutDigits(s: seq<nat>, n: nat)
    requires Digits(256, s) && n <= |s|
    ensures Digits(256, s[..n]) && Digits(256, s[n..])
  {
  }

  lemma WordIs(block: seq<nat>, w: nat)
    requires 8 * w + 8 <= |block|
    ensures WordOf(block, w) == Val(256, block[8 * w..8 * w + 8])
  {
  }

  /** However the message arrives, the hash is that of the whole, behind the key block. */
  method HashChunks(mix: Mix, hash_size: nat, key: seq<nat>, chunks: seq<seq<nat>>) returns (out: seq<nat>)
    requires |key| <= 128 && Digits(256, key) && forall i :: 0 <= i < |chunks| ==> Digits(256, chunks[i])
    requires forall h, b, lo, hi, l :: |mix(h, b, lo, hi, l)| == 8
    ensures out == HashBytes(Digest(mix, Start(hash_size, |key|), KeyBlock(key) + Concat(chunks)),
                             if hash_size <= 64 then hash_size else 64)
  {
    hide Fold, BlockWords, Start, HashBytes;
    var ctx := new Blake2bCtx(mix, hash_size, key);
    assert KeyBlock(key) + [] == KeyBlock(key);
    for i := 0 to |chunks|
      invariant ctx.Valid() && fresh(ctx) && fresh(ctx.input) && ctx.mix == mix && ctx.hash_size == hash_size
      invariant ctx.data == KeyBlock(key) + Concat(chunks[..i]) && ctx.start == Start(hash_size, |key|)
    {
      assert chunks[..i + 1][..i] == chunks[..i];
      assert KeyBlock(key) + Concat(chunks[..i]) + chunks[i] == KeyBlock(key) + (Concat(chunks[..i]) + chunks[i]);
      ctx.Update(chunks[i]);
    }
    assert chunks[..|chunks|] == chunks;
    out := ctx.Final();
  }
}
