/** ChaCha20 as a byte stream around its rounds (`crypto_chacha20_djb` in `monocypher.c`). */
module ChaCha {
  import opened Arith
  import opened Bits
  import opened ByteWords
  import opened Radix

  const W64 := 0x1_0000_0000_0000_0000

  /** The twenty rounds: sixteen words to sixteen words. */
  type Rounds = seq<nat> -> seq<nat>

  ghost predicate IsRounds(rounds: Rounds) {
    forall input :: |rounds(input)| == 16
  }

  // ---------- exclusive or, word by word and byte by byte ----------

  /** Exclusive or works on the two parts of a split number. */
  lemma {:induction false} XorSplit(a: nat, b: nat, c: nat, d: nat, n: nat)
    requires a < Pow2(n) && c < Pow2(n)
    ensures Xor(a + Pow2(n) * b, c + Pow2(n) * d) == Xor(a, c) + Pow2(n) * Xor(b, d)
  {
    hide Xor;
    if n == 0 {
      assert Pow2(0) == 1;
      XorZero(0);
    } else {
      var p := Pow2(n - 1);
      Doubled(p, b);
      Doubled(p, d);
      Doubled(p, Xor(b, d));
      XorSplit(a / 2, b, c / 2, d, n - 1);
      XorGlue(a, c, a + 2 * (p * b), c + 2 * (p * d), p * Xor(b, d));
    }
  }

  lemma Doubled(p: nat, b: nat)
    ensures 2 * p * b == 2 * (p * b) && p * b >= 0
  {
    MulNonneg(p, b);
  }

  lemma XorGlue(a: nat, c: nat, e: nat, f: nat, w: nat)
    requires e % 2 == a % 2 && f % 2 == c % 2 && Xor(e / 2, f / 2) == Xor(a / 2, c / 2) + w
    ensures Xor(e, f) == Xor(a, c) + 2 * w
  {
    XorHalves(e, f);
    XorHalves(a, c);
  }

  /** Byte `b` of a word, least significant first. */
  function ByteOf(w: nat, b: nat): nat
    requires b < 4
  {
    if b == 0 then w % 0x100 else if b == 1 then w / 0x100 % 0x100 else if b == 2 then w / 0x10000 % 0x100 else w / 0x1000000 % 0x100
  }

  lemma BytePowers()
    ensures Pow2(8) == 0x100
  {
  }

  lemma Peel(p: nat, q: nat)
    ensures p / 0x100 >= 0 && q / 0x100 >= 0
    ensures Xor(p, q) % 0x100 == Xor(p % 0x100, q % 0x100) < 0x100
    ensures Xor(p, q) / 0x100 == Xor(p / 0x100, q / 0x100)
  {
    hide Xor, Pow2;
    BytePowers();
    XorSplit(p % 0x100, p / 0x100, q % 0x100, q / 0x100, 8);
    XorBound(p % 0x100, q % 0x100, 8);
    assert p == p % 0x100 + 0x100 * (p / 0x100) && q == q % 0x100 + 0x100 * (q / 0x100);
    DivUnique(Xor(p, q), 0x100, Xor(p / 0x100, q / 0x100), Xor(p % 0x100, q % 0x100));
  }

  /** Digit `b` in base 256. */
  function Digit(w: nat, b: nat): nat
    decreases b
  {
    if b == 0 then w % 0x100 else Digit(Quotient(w), b - 1)
  }

  function Quotient(w: nat): nat { w / 0x100 }

  lemma ByteIsDigit(w: nat, b: nat)
    requires b < 4
    ensures ByteOf(w, b) == Digit(w, b)
  {
    var w1 := Quotient(w);
    var w2 := Quotient(w1);
    var w3 := Quotient(w2);
    DivTwice(w, 0x100, 0x100);
    DivTwice(w, 0x10000, 0x100);
    assert w3 == w / 0x1000000 && w2 == w / 0x10000;
    assert Digit(w3, 0) == w3 % 0x100;
    assert Digit(w2, 1) == Digit(w3, 0);
    assert Digit(w1, 2) == Digit(w2, 1);
    assert Digit(w, 3) == Digit(w1, 2);
  }

  lemma {:induction false} XorDigits(p: nat, q: nat, b: nat)
    ensures Digit(Xor(p, q), b) == Xor(Digit(p, b), Digit(q, b))
    decreases b
  {
    hide Xor;
    Peel(p, q);
    if b > 0 { XorDigits(Quotient(p), Quotient(q), b - 1); }
  }

  lemma XorBytesOfWord(p: nat, q: nat, b: nat)
    requires b < 4
    ensures ByteOf(Xor(p, q), b) == Xor(ByteOf(p, b), ByteOf(q, b))
  {
    hide Xor, ByteOf;
    ByteIsDigit(p, b);
    ByteIsDigit(q, b);
    ByteIsDigit(Xor(p, q), b);
    XorDigits(p, q, b);
  }

  lemma ByteOfLoad(s: seq<nat>, i: nat, b: nat)
    requires i + 4 <= |s| && Digits(256, s) && b < 4
    ensures ByteOf(Load32(s, i), b) == s[i + b]
  {
    var w := Load32(s, i);
    var r1 := s[i + 1] + s[i + 2] * 0x100 + s[i + 3] * 0x10000;
    var r2 := s[i + 2] + s[i + 3] * 0x100;
    DivUnique(w, 0x100, r1, s[i]);
    DivUnique(r1, 0x100, r2, s[i + 1]);
    DivUnique(r2, 0x100, s[i + 3], s[i + 2]);
    DivUnique(s[i + 3], 0x100, 0, s[i + 3]);
    DivTwice(w, 0x100, 0x100);
    DivTwice(w, 0x10000, 0x100);
  }

  // ---------- the key stream ----------

  const CONSTANT: seq<nat> := [0x61707865, 0x3320646e, 0x79622d32, 0x6b206574]

  /** The input of the rounds for block number `ctr`. */
  function Input(key: seq<nat>, nonce: seq<nat>, ctr: nat): (input: seq<nat>)
    requires |key| == 32 && |nonce| == 8
    ensures |input| == 16
  {
    CONSTANT + LoadWords(key) + [ctr % W, ctr / W % W] + LoadWords(nonce)
  }

  const EXPAND: string := "expand 32-byte k"

  /** The 64 bytes of the input: the constant, the key, the block number, the nonce. */
  lemma InputBytes(key: seq<nat>, nonce: seq<nat>, ctr: nat)
    requires |key| == 32 && |nonce| == 8 && Digits(256, key) && Digits(256, nonce)
    ensures var s := StoreWords(Input(key, nonce, ctr));
            && |s| == 64 && |EXPAND| == 16 && (forall i :: 0 <= i < 16 ==> s[i] == EXPAND[i] as nat)
            && s[16..48] == key && Val(256, s[48..56]) == ctr % W64 && s[56..] == nonce
  {
    hide Val, Load32;
    var input := Input(key, nonce, ctr);
    var s := StoreWords(input);
    forall i | 0 <= i < 16 ensures s[i] == EXPAND[i] as nat {
      assert input[i / 4] == CONSTANT[i / 4];
      ConstantByte(i);
    }
    assert input[4..4 + 8] == LoadWords(key) && input[12..12 + 2] == [ctr % W, ctr / W % W];
    assert input[14..14 + 2] == LoadWords(nonce);
    StoredWords(input, LoadWords(key), 4);
    StoreLoad(key);
    StoredWords(input, [ctr % W, ctr / W % W], 12);
    CounterBytes(ctr);
    StoredWords(input, LoadWords(nonce), 14);
    StoreLoad(nonce);
  }

  /** Storing a part of the words gives a part of the bytes. */
  lemma StoredWords(input: seq<nat>, part: seq<nat>, at: nat)
    requires at + |part| <= |input| && input[at..at + |part|] == part
    ensures StoreWords(input)[4 * at..4 * (at + |part|)] == StoreWords(part)
  {
    forall i | 0 <= i < 4 * |part|
      ensures StoreWords(input)[4 * at + i] == StoreWords(part)[i]
    {
      assert input[at + i / 4] == part[i / 4];
    }
  }

  lemma StoreLoad(s: seq<nat>)
    requires |s| % 4 == 0 && Digits(256, s)
    ensures StoreWords(LoadWords(s)) == s
  {
    hide Load32;
    forall i | 0 <= i < |s|
      ensures StoreWords(LoadWords(s))[i] == s[i]
    {
      ByteOfLoad(s, 4 * (i / 4), i % 4);
    }
  }

  lemma CounterBytes(ctr: nat)
    ensures Val(256, StoreWords([ctr % W, ctr / W % W])) == ctr % W64
  {
    hide Val, Pw;
    var lo, hi := ctr % W, ctr / W;
    assert ctr == W * hi + lo;
    StoreKeepsValue([lo, hi % W]);
    ValEmpty(W);
    PwZero(W);
    PwStep(W, 0);
    ValAppend(W, [], lo);
    ValAppend(W, [lo], hi % W);
    assert [] + [lo] == [lo] && [lo] + [hi % W] == [lo, hi % W];
    var q := hi / W;
    assert hi == W * q + hi % W;
    DivUnique(ctr, W64, q, W * (hi % W) + lo);
  }

  lemma ConstantByte(i: nat)
    requires i < 16
    ensures StoreWords(CONSTANT)[i] == EXPAND[i] as nat
  {
    if i < 8 { FirstBytes(i); } else { LastBytes(i); }
  }

  lemma FirstBytes(i: nat)
    requires i < 8
    ensures StoreWords(CONSTANT)[i] == EXPAND[i] as nat
  {
    if i < 4 {
      if i == 0 {} else if i == 1 {} else if i == 2 {} else {}
    } else {
      if i == 4 {} else if i == 5 {} else if i == 6 {} else {}
    }
  }

  lemma LastBytes(i: nat)
    requires 8 <= i < 16
    ensures StoreWords(CONSTANT)[i] == EXPAND[i] as nat
  {
    if i < 12 {
      if i == 8 {} else if i == 9 {} else if i == 10 {} else {}
    } else {
      if i == 12 {} else if i == 13 {} else if i == 14 {} else {}
    }
  }

  /** Word `j` of a block: rounds plus input, in 32 bits. */
  function PoolWord(rounds: Rounds, input: seq<nat>, j: nat): nat
    requires |input| == 16 && j < 16
  {
    var pool := rounds(input);
    if |pool| == 16 then (pool[j] + input[j]) % W else 0
  }

  /** Byte `k` of the stream that starts at block `ctr`. */
  function StreamByte(rounds: Rounds, key: seq<nat>, nonce: seq<nat>, ctr: nat, k: nat): nat
    requires |key| == 32 && |nonce| == 8
  {
    ByteOf(PoolWord(rounds, Input(key, nonce, (ctr + k / 64) % W64), k % 64 / 4), k % 4)
  }

  function Stream(rounds: Rounds, key: seq<nat>, nonce: seq<nat>, ctr: nat, n: nat): (s: seq<nat>)
    requires |key| == 32 && |nonce| == 8
    ensures |s| == n
  {
    seq(n, (k: nat) requires k < n => StreamByte(rounds, key, nonce, ctr, k))
  }

  function XorSeq(a: seq<nat>, b: seq<nat>): (r: seq<nat>)
    requires |a| == |b|
    ensures |r| == |a|
  {
    seq(|a|, (k: nat) requires k < |a| => Xor(a[k], b[k]))
  }

  /** Applying the same stream twice gives the text back. */
  lemma XorTwice(text: seq<nat>, s: seq<nat>)
    requires |text| == |s|
    ensures XorSeq(XorSeq(text, s), s) == text
  {
    hide Xor;
    forall k | 0 <= k < |text|
      ensures Xor(Xor(text[k], s[k]), s[k]) == text[k]
    {
      XorAssociates(text[k], s[k], s[k]);
      XorSelf(s[k]);
      XorZero(text[k]);
    }
  }

  lemma StreamIsBytes(rounds: Rounds, key: seq<nat>, nonce: seq<nat>, ctr: nat, n: nat)
    requires |key| == 32 && |nonce| == 8
    ensures Digits(256, Stream(rounds, key, nonce, ctr, n))
  {
    hide PoolWord, Input;
  }

  lemma XorIsBytes(text: seq<nat>, s: seq<nat>)
    requires |text| == |s| && Digits(256, text) && Digits(256, s)
    ensures Digits(256, XorSeq(text, s))
  {
    hide Xor;
    BytePowers();
    forall k | 0 <= k < |text|
      ensures Xor(text[k], s[k]) < 256
    {
      XorBound(text[k], s[k], 8);
    }
  }

  /** The next block number in two 32-bit words. */
  lemma CounterStep(c: nat)
    ensures (c + 1) % W64 % W == (c % W + 1) % W
    ensures (c + 1) % W64 / W % W == if (c % W + 1) % W == 0 then (c / W % W + 1) % W else c / W % W
  {
    var lo, hi := c % W, c / W;
    assert c == W * hi + lo;
    var h, r := (if lo + 1 < W then hi else hi + 1), (if lo + 1 < W then lo + 1 else 0);
    assert c + 1 == W * h + r;
    var q := h / W;
    assert h == W * q + h % W;
    assert c + 1 == W64 * q + (W * (h % W) + r);
    DivUnique(c + 1, W64, q, W * (h % W) + r);
    DivUnique(W * (h % W) + r, W, h % W, r);
    DivUnique(h % W, W, 0, h % W);
    DivUnique(r, W, 0, r);
    if lo + 1 < W {
      DivUnique(lo + 1, W, 0, lo + 1);
    } else {
      DivUnique(lo + 1, W, 1, 0);
      DivUnique(hi + 1, W, q, h % W);
      ModNext(hi);
    }
  }

  lemma ModNext(h: nat)
    ensures (h % W + 1) % W == (h + 1) % W
  {
    var q, r := h / W, h % W;
    if r + 1 < W { DivUnique(h + 1, W, q, r + 1); DivUnique(r + 1, W, 0, r + 1); }
    else { DivUnique(h + 1, W, q + 1, 0); DivUnique(r + 1, W, 1, 0); }
  }

  // ---------- encryption, possibly in place ----------

  /** The bytes up to `n` are done, those behind are still the text. */
  ghost predicate Done(cipher: array<nat>, plain: array?<nat>, text: seq<nat>, stream: seq<nat>, n: nat)
    reads cipher, plain
  {
    && |text| == |stream| == cipher.Length && n <= cipher.Length && Digits(256, text)
    && (plain != null ==> plain.Length == cipher.Length && plain[n..] == text[n..])
    && (plain == null ==> forall k :: 0 <= k < |text| ==> text[k] == 0)
    && forall k :: 0 <= k < n ==> cipher[k] == Xor(text[k], stream[k])
  }

  /** store32_le(cipher, p ^ load32_le(plain)), or just store32_le(cipher, p). */
  method XorWord(cipher: array<nat>, plain: array?<nat>, at: nat, p: nat, ghost text: seq<nat>, ghost stream: seq<nat>)
    requires Done(cipher, plain, text, stream, at) && at + 4 <= cipher.Length
    requires forall b :: 0 <= b < 4 ==> stream[at + b] == ByteOf(p, b)
    modifies cipher
    ensures Done(cipher, plain, text, stream, at + 4)
  {
    hide Xor, ByteOf;
    var q := p;
    if plain != null {
      q := Xor(p, Load32(plain[..], at));
    }
    forall b | 0 <= b < 4
      ensures ByteOf(q, b) == Xor(text[at + b], stream[at + b])
    {
      if plain != null {
        XorBytesOfWord(p, Load32(plain[..], at), b);
        LoadTail(plain[..], text, at, b);
        XorCommutes(ByteOf(p, b), text[at + b]);
      } else {
        XorZero(ByteOf(p, b));
      }
    }
    cipher[at], cipher[at + 1], cipher[at + 2], cipher[at + 3] := ByteOf(q, 0), ByteOf(q, 1), ByteOf(q, 2), ByteOf(q, 3);
    assert stream[at + 0] == stream[at];
    assert plain != null ==> plain[at + 4..] == text[at..][4..];
  }

  lemma LoadTail(s: seq<nat>, text: seq<nat>, at: nat, b: nat)
    requires |s| == |text| && at + 4 <= |s| && s[at..] == text[at..] && Digits(256, text) && b < 4
    ensures ByteOf(Load32(s, at), b) == text[at + b]
  {
    hide ByteOf;
    var t := s[at..];
    assert s[at] == t[0] && s[at + 1] == t[1] && s[at + 2] == t[2] && s[at + 3] == t[3];
    assert text[at] == text[at..][0] && text[at + 1] == text[at..][1] && text[at + 2] == text[at..][2] && text[at + 3] == text[at..][3];
    assert Load32(s, at) == Load32(text, at);
    ByteOfLoad(text, at, b);
  }

  /** The stream word by word. */
  lemma StreamWord(rounds: Rounds, key: seq<nat>, nonce: seq<nat>, ctr: nat, n: nat, i: nat, j: nat, b: nat)
    requires |key| == 32 && |nonce| == 8 && j < 16 && b < 4 && 64 * i + 4 * j + b < n
    ensures Stream(rounds, key, nonce, ctr, n)[64 * i + 4 * j + b]
         == ByteOf(PoolWord(rounds, Input(key, nonce, (ctr + i) % W64), j), b)
  {
    hide PoolWord, Input, ByteOf;
    var k := 64 * i + 4 * j + b;
    assert k / 64 == i && k % 64 / 4 == j && k % 4 == b;
  }

  /** One whole block. */
  method XorBlock(cipher: array<nat>, plain: array?<nat>, i: nat, input: seq<nat>, rounds: Rounds,
                  ghost text: seq<nat>, ghost key: seq<nat>, ghost nonce: seq<nat>, ghost ctr: nat)
    requires |key| == 32 && |nonce| == 8 && IsRounds(rounds) && input == Input(key, nonce, (ctr + i) % W64)
    requires 64 * i + 64 <= cipher.Length
    requires Done(cipher, plain, text, Stream(rounds, key, nonce, ctr, cipher.Length), 64 * i)
    modifies cipher
    ensures Done(cipher, plain, text, Stream(rounds, key, nonce, ctr, cipher.Length), 64 * i + 64)
  {
    hide Stream, Input, ByteOf, Done;
    var pool := rounds(input);
    ghost var stream := Stream(rounds, key, nonce, ctr, cipher.Length);
    for j := 0 to 16
      invariant Done(cipher, plain, text, stream, 64 * i + 4 * j)
    {
      var p := (pool[j] + input[j]) % W;
      assert p == PoolWord(rounds, input, j);
      StreamWord(rounds, key, nonce, ctr, cipher.Length, i, j, 0);
      StreamWord(rounds, key, nonce, ctr, cipher.Length, i, j, 1);
      StreamWord(rounds, key, nonce, ctr, cipher.Length, i, j, 2);
      StreamWord(rounds, key, nonce, ctr, cipher.Length, i, j, 3);
      XorWord(cipher, plain, 64 * i + 4 * j, p, text, stream);
    }
  }

  /** The last block, shorter than the others. */
  method XorTail(cipher: array<nat>, plain: array?<nat>, i: nat, input: seq<nat>, rounds: Rounds,
                 ghost text: seq<nat>, ghost key: seq<nat>, ghost nonce: seq<nat>, ghost ctr: nat)
    requires |key| == 32 && |nonce| == 8 && IsRounds(rounds) && input == Input(key, nonce, (ctr + i) % W64)
    requires 64 * i <= cipher.Length < 64 * i + 64
    requires Done(cipher, plain, text, Stream(rounds, key, nonce, ctr, cipher.Length), 64 * i)
    modifies cipher
    ensures Done(cipher, plain, text, Stream(rounds, key, nonce, ctr, cipher.Length), cipher.Length)
  {
    hide Stream, Input, ByteOf, Xor, PoolWord;
    var pool := rounds(input);
    ghost var stream := Stream(rounds, key, nonce, ctr, cipher.Length);
    for k := 64 * i to cipher.Length
      invariant Done(cipher, plain, text, stream, k)
    {
      var t := k - 64 * i;
      StreamWord(rounds, key, nonce, ctr, cipher.Length, i, t / 4, t % 4);
      assert 64 * i + 4 * (t / 4) + t % 4 == k;
      var tmp := ByteOf(PoolWord(rounds, input, t / 4), t % 4);
      XorCommutes(tmp, text[k]);
      var old_byte := if plain != null then plain[k] else 0;
      assert plain != null ==> plain[k] == plain[k..][0] == text[k..][0] && plain[k + 1..] == plain[k..][1..] == text[k..][1..];
      cipher[k] := Xor(tmp, old_byte);
    }
  }

  /** crypto_chacha20_djb: the text, or zeros, under the stream from block `ctr` on; returns the next block number. */
  method Djb(cipher: array<nat>, plain: array?<nat>, key: seq<nat>, nonce: seq<nat>, ctr: nat, rounds: Rounds) returns (next: nat)
    requires |key| == 32 && |nonce| == 8 && ctr < W64 && IsRounds(rounds)
    requires plain != null ==> plain.Length == cipher.Length && Digits(256, plain[..])
    modifies cipher
    ensures cipher[..] == if plain == null then Stream(rounds, key, nonce, ctr, cipher.Length)
                          else XorSeq(old(if plain == null then [] else plain[..]), Stream(rounds, key, nonce, ctr, cipher.Length))
    ensures next == (ctr + (cipher.Length + 63) / 64) % W64
  {
    hide Stream, Xor, Done, Input, XorSeq;
    ghost var text := if plain == null then seq(cipher.Length, _ => 0) else plain[..];
    ghost var stream := Stream(rounds, key, nonce, ctr, cipher.Length);
    NothingDone(cipher, plain, text, stream);
    var input := Input(key, nonce, ctr);
    DivUnique(ctr, W64, 0, ctr);
    var nb_blocks := cipher.Length / 64;
    for i := 0 to nb_blocks
      invariant input == Input(key, nonce, (ctr + i) % W64)
      invariant Done(cipher, plain, text, stream, 64 * i)
    {
      XorBlock(cipher, plain, i, input, rounds, text, key, nonce, ctr);
      NextInput(key, nonce, ctr, i);
      input := input[12 := (input[12] + 1) % W];
      if input[12] == 0 { input := input[13 := (input[13] + 1) % W]; }
    }
    if cipher.Length % 64 > 0 {
      XorTail(cipher, plain, nb_blocks, input, rounds, text, key, nonce, ctr);
    }
    AllDone(cipher, plain, text, stream);
    CounterWords(key, nonce, (ctr + nb_blocks) % W64);
    next := (input[12] + input[13] * W + (if cipher.Length % 64 > 0 then 1 else 0)) % W64;
    AddOn(ctr, nb_blocks, if cipher.Length % 64 > 0 then 1 else 0);
  }

  lemma NothingDone(cipher: array<nat>, plain: array?<nat>, text: seq<nat>, stream: seq<nat>)
    requires |text| == |stream| == cipher.Length
    requires plain != null ==> plain.Length == cipher.Length && Digits(256, plain[..]) && text == plain[..]
    requires plain == null ==> forall k :: 0 <= k < |text| ==> text[k] == 0
    ensures Done(cipher, plain, text, stream, 0)
  {
  }

  lemma AllDone(cipher: array<nat>, plain: array?<nat>, text: seq<nat>, stream: seq<nat>)
    requires Done(cipher, plain, text, stream, cipher.Length)
    ensures |text| == |stream| && cipher[..] == XorSeq(text, stream)
    ensures plain == null ==> cipher[..] == stream
  {
    hide Xor;
    if plain == null {
      forall k | 0 <= k < |stream| ensures cipher[k] == stream[k] { XorZero(stream[k]); }
    }
  }

  /** Incrementing the two counter words gives the input of the next block. */
  lemma NextInput(key: seq<nat>, nonce: seq<nat>, ctr: nat, i: nat)
    requires |key| == 32 && |nonce| == 8
    ensures var input := Input(key, nonce, (ctr + i) % W64);
            var lo := (input[12] + 1) % W;
            Input(key, nonce, (ctr + (i + 1)) % W64)
            == if lo == 0 then input[12 := lo][13 := (input[13] + 1) % W] else input[12 := lo]
  {
    CounterStep((ctr + i) % W64);
    AddOn(ctr, i, 1);
  }

  lemma AddOn(ctr: nat, i: nat, j: nat)
    ensures ((ctr + i) % W64 + j) % W64 == (ctr + (i + j)) % W64
  {
    var q, r := (ctr + i) / W64, (ctr + i) % W64;
    var q', r' := (r + j) / W64, (r + j) % W64;
    DivUnique(ctr + i + j, W64, q + q', r');
  }

  lemma CounterWords(key: seq<nat>, nonce: seq<nat>, c: nat)
    requires |key| == 32 && |nonce| == 8 && c < W64
    ensures var input := Input(key, nonce, c); input[12] + input[13] * W == c
  {
  }
}
