/** The rekeying stream of authenticated messages (`crypto_aead_write` and `crypto_aead_read` in `monocypher.c`). */
module Aead {
  import opened Arith
  import opened Radix
  import opened ByteWords
  import opened Streams
  import opened ChaCha
  import Poly1305

  function Zeros(n: nat): (z: seq<nat>)
    ensures |z| == n && Digits(256, z)
  {
    seq(n, _ => 0)
  }

  /** store64_le. */
  function Word64(n: nat): (s: seq<nat>)
    ensures |s| == 8 && Digits(256, s)
  {
    StoreWords([n % W, n / W % W])
  }

  /** What lock_auth feeds the authenticator, update by update. */
  function AuthChunks(ad: seq<nat>, text: seq<nat>): (chunks: seq<seq<nat>>)
    requires Digits(256, ad) && Digits(256, text)
    ensures forall i :: 0 <= i < |chunks| ==> Digits(256, chunks[i])
  {
    [ad, Zeros(Gap(|ad|, 16)), text, Zeros(Gap(|text|, 16)), Word64(|ad|) + Word64(|text|)]
  }

  /** `n` rounded up to a multiple of 16. */
  function Up16(n: nat): (r: nat)
    ensures n <= r < n + 16 && r % 16 == 0
  {
    (n + 15) / 16 * 16
  }

  /**
   * The message that authenticates data and text (section 2.8 of RFC 8439): the data, zeros up to a multiple of 16, the
   * text, zeros up to a multiple of 16, the length of the data and that of the text in eight bytes each.
   */
  ghost predicate IsAuthMessage(m: seq<nat>, ad: seq<nat>, text: seq<nat>) {
    var a, b := Up16(|ad|), Up16(|ad|) + Up16(|text|);
    && |m| == b + 16 && Digits(256, m)
    && m[..|ad|] == ad && m[a..a + |text|] == text
    && (forall k :: |ad| <= k < a || a + |text| <= k < b ==> m[k] == 0)
    && Val(256, m[b..b + 8]) == |ad| % W64 && Val(256, m[b + 8..]) == |text| % W64
  }

  lemma GapRoundsUp(n: nat)
    ensures n + Gap(n, 16) == Up16(n)
  {
  }

  lemma Word64Value(n: nat)
    ensures Val(256, Word64(n)) == n % W64
  {
    hide Pw;
    var lo, hi := n % W, n / W;
    assert n == W * hi + lo;
    StoreKeepsValue([lo, hi % W]);
    ValTwo(lo, hi % W);
    var q := hi / W;
    assert hi == W * q + hi % W;
    DivUnique(n, W64, q, W * (hi % W) + lo);
  }

  lemma ValTwo(lo: nat, hi: nat)
    ensures Val(W, [lo, hi]) == lo + hi * W
  {
    hide Val, Pw;
    ValEmpty(W);
    PwZero(W);
    PwStep(W, 0);
    ValAppend(W, [], lo);
    ValAppend(W, [lo], hi);
    assert [] + [lo] == [lo] && [lo] + [hi] == [lo, hi];
  }

  /** What lock_auth feeds the authenticator is that message. */
  lemma ChunksAreMessage(ad: seq<nat>, text: seq<nat>)
    requires Digits(256, ad) && Digits(256, text)
    ensures IsAuthMessage(Concat(AuthChunks(ad, text)), ad, text)
  {
    hide Val, Gap, Word64, Up16;
    var za, zt := Zeros(Gap(|ad|, 16)), Zeros(Gap(|text|, 16));
    var m := ad + za + text + zt + (Word64(|ad|) + Word64(|text|));
    FiveChunks(ad, za, text, zt, Word64(|ad|) + Word64(|text|));
    GapRoundsUp(|ad|);
    GapRoundsUp(|text|);
    Word64Value(|ad|);
    Word64Value(|text|);
    var a, b := Up16(|ad|), Up16(|ad|) + Up16(|text|);
    assert m[..|ad|] == ad && m[a..a + |text|] == text;
    assert m[b..b + 8] == Word64(|ad|) && m[b + 8..] == Word64(|text|);
  }

  lemma FiveChunks(a: seq<nat>, b: seq<nat>, c: seq<nat>, d: seq<nat>, e: seq<nat>)
    ensures Concat([a, b, c, d, e]) == a + b + c + d + e
  {
    assert [a, b, c, d, e][..4] == [a, b, c, d] && [a, b, c, d][..3] == [a, b, c];
    assert [a, b, c][..2] == [a, b] && [a, b][..1] == [a] && [a][..0] == [];
    assert Concat([a]) == [] + a == a;
    assert Concat([a, b]) == a + b;
    assert Concat([a, b, c]) == a + b + c;
  }

  /** Data and text determine the message. */
  lemma OneAuthMessage(m: seq<nat>, n: seq<nat>, ad: seq<nat>, text: seq<nat>)
    requires IsAuthMessage(m, ad, text) && IsAuthMessage(n, ad, text)
    ensures m == n
  {
    hide Val, Up16;
    var a, b := Up16(|ad|), Up16(|ad|) + Up16(|text|);
    SameDigits(256, m[b..b + 8], n[b..b + 8]);
    SameDigits(256, m[b + 8..], n[b + 8..]);
    forall k | 0 <= k < |m| ensures m[k] == n[k] {
      if k < |ad| { assert m[k] == m[..|ad|][k] && n[k] == n[..|ad|][k]; }
      else if a <= k < a + |text| { assert m[k] == m[a..a + |text|][k - a] && n[k] == n[a..a + |text|][k - a]; }
      else if b <= k < b + 8 { assert m[k] == m[b..b + 8][k - b] && n[k] == n[b..b + 8][k - b]; }
      else if b + 8 <= k { assert m[k] == m[b + 8..][k - b - 8] && n[k] == n[b + 8..][k - b - 8]; }
    }
  }

  /** The message determines data and text: no two pairs are authenticated alike. */
  lemma AuthMessageTells(m: seq<nat>, ad: seq<nat>, text: seq<nat>, ad': seq<nat>, text': seq<nat>)
    requires IsAuthMessage(m, ad, text) && IsAuthMessage(m, ad', text')
    requires |ad| < W64 && |text| < W64 && |ad'| < W64 && |text'| < W64
    ensures ad == ad' && text == text'
  {
    hide Val, Up16;
    var b, b' := Up16(|ad|) + Up16(|text|), Up16(|ad'|) + Up16(|text'|);
    assert b == |m| - 16 == b';
    DivUnique(|ad|, W64, 0, |ad|);
    DivUnique(|ad'|, W64, 0, |ad'|);
    DivUnique(|text|, W64, 0, |text|);
    DivUnique(|text'|, W64, 0, |text'|);
  }

  /** The mac is the 16-byte encoding of the tag of the message. */
  ghost predicate IsMac(mac: seq<nat>, auth_key: seq<nat>, ad: seq<nat>, text: seq<nat>)
    requires |auth_key| == 32 && Digits(256, ad) && Digits(256, text)
  {
    && |mac| == 16 && Digits(256, mac)
    && exists m :: IsAuthMessage(m, ad, text) && Val(256, mac) == Poly1305.Tag(m, auth_key)
  }

  lemma OneMac(m: seq<nat>, n: seq<nat>, auth_key: seq<nat>, ad: seq<nat>, text: seq<nat>)
    requires |auth_key| == 32 && Digits(256, ad) && Digits(256, text)
    requires IsMac(m, auth_key, ad, text) && IsMac(n, auth_key, ad, text)
    ensures m == n
  {
    hide Val, IsAuthMessage, Poly1305.Tag;
    var a :| IsAuthMessage(a, ad, text) && Val(256, m) == Poly1305.Tag(a, auth_key);
    var b :| IsAuthMessage(b, ad, text) && Val(256, n) == Poly1305.Tag(b, auth_key);
    OneAuthMessage(a, b, ad, text);
    SameDigits(256, m, n);
  }

  method LockAuth(auth_key: seq<nat>, ad: seq<nat>, cipher_text: seq<nat>) returns (mac: seq<nat>)
    requires |auth_key| == 32 && Digits(256, auth_key) && Digits(256, ad) && Digits(256, cipher_text)
    ensures IsMac(mac, auth_key, ad, cipher_text)
  {
    hide Val, Poly1305.Tag, Zeros, Word64, IsAuthMessage, Concat;
    ChunksAreMessage(ad, cipher_text);
    mac := Poly1305.Authenticate(AuthChunks(ad, cipher_text), auth_key);
  }

  // ---------- the keys of the stream ----------

  /** The 64 bytes drawn for a message: authentication key, then the next key. */
  function Drawn(rounds: Rounds, key: seq<nat>, nonce: seq<nat>, counter: nat): (s: seq<nat>)
    requires |key| == 32 && |nonce| == 8
    ensures |s| == 64
  {
    Stream(rounds, key, nonce, counter, 64)
  }

  /** The key after `n` messages. */
  function KeyAfter(rounds: Rounds, key: seq<nat>, nonce: seq<nat>, counter: nat, n: nat): (k: seq<nat>)
    requires |key| == 32 && |nonce| == 8
    ensures |k| == 32
    decreases n
  {
    if n == 0 then key else Drawn(rounds, KeyAfter(rounds, key, nonce, counter, n - 1), nonce, counter)[32..]
  }

  /** The text under the stream of a key. */
  function Masked(rounds: Rounds, key: seq<nat>, nonce: seq<nat>, counter: nat, text: seq<nat>): (r: seq<nat>)
    requires |key| == 32 && |nonce| == 8
    ensures |r| == |text|
  {
    XorSeq(text, Stream(rounds, key, nonce, (counter + 1) % W64, |text|))
  }

  lemma MaskedTwice(rounds: Rounds, key: seq<nat>, nonce: seq<nat>, counter: nat, text: seq<nat>)
    requires |key| == 32 && |nonce| == 8 && Digits(256, text)
    ensures Masked(rounds, key, nonce, counter, Masked(rounds, key, nonce, counter, text)) == text
    ensures Digits(256, Masked(rounds, key, nonce, counter, text))
  {
    hide XorSeq, Stream;
    var s := Stream(rounds, key, nonce, (counter + 1) % W64, |text|);
    XorTwice(text, s);
    StreamIsBytes(rounds, key, nonce, (counter + 1) % W64, |text|);
    XorIsBytes(text, s);
  }

  datatype Packet = Packet(ad: seq<nat>, text: seq<nat>, mac: seq<nat>)

  /** A packet produced from a plaintext under a key. */
  ghost predicate Sealed(rounds: Rounds, key: seq<nat>, nonce: seq<nat>, counter: nat, ad: seq<nat>, plain: seq<nat>, p: Packet) {
    && |key| == 32 && |nonce| == 8 && Digits(256, ad) && Digits(256, p.text)
    && p.ad == ad && p.text == Masked(rounds, key, nonce, counter, plain)
    && IsMac(p.mac, Drawn(rounds, key, nonce, counter)[..32], ad, p.text)
  }

  // ---------- the context ----------

  class AeadCtx {
    const rounds: Rounds
    const nonce: seq<nat>
    const counter: nat
    var key: seq<nat>

    ghost predicate Valid()
      reads this
    {
      IsRounds(rounds) && |key| == 32 && |nonce| == 8 && counter < W64 && Digits(256, key)
    }

    constructor (rounds: Rounds, key: seq<nat>, nonce: seq<nat>, counter: nat)
      requires IsRounds(rounds) && |key| == 32 && |nonce| == 8 && counter < W64 && Digits(256, key)
      ensures Valid() && this.rounds == rounds && this.key == key && this.nonce == nonce && this.counter == counter
    {
      this.rounds, this.key, this.nonce, this.counter := rounds, key, nonce, counter;
    }

    /** The key stream alone: 64 bytes. */
    method Draw() returns (auth_key: seq<nat>)
      requires Valid()
      ensures auth_key == Drawn(rounds, key, nonce, counter) && Digits(256, auth_key)
    {
      hide Stream;
      var buffer := new nat[64];
      var next := Djb(buffer, null, key, nonce, counter, rounds);
      auth_key := buffer[..];
      StreamIsBytes(rounds, key, nonce, counter, 64);
    }

    /** Encrypts, authenticates, and replaces the key. */
    method Write(cipher_text: array<nat>, plain_text: array<nat>, ad: seq<nat>) returns (mac: seq<nat>)
      requires Valid() && cipher_text.Length == plain_text.Length && Digits(256, plain_text[..]) && Digits(256, ad)
      modifies `key, cipher_text
      ensures Valid() && key == KeyAfter(rounds, old(key), nonce, counter, 1)
      ensures Sealed(rounds, old(key), nonce, counter, ad, old(plain_text[..]), Packet(ad, cipher_text[..], mac))
    {
      hide Stream, XorSeq, IsMac;
      ghost var plain := plain_text[..];
      var auth_key := Draw();
      MaskedTwice(rounds, key, nonce, counter, plain);
      var next := Djb(cipher_text, plain_text, key, nonce, (counter + 1) % W64, rounds);
      mac := LockAuth(auth_key[..32], ad, cipher_text[..]);
      FirstKey(rounds, key, nonce, counter);
      key := auth_key[32..];
    }

    /** Authenticates; only a matching mac decrypts and replaces the key. */
    method Read(plain_text: array<nat>, mac: seq<nat>, ad: seq<nat>, cipher_text: array<nat>) returns (mismatch: bool)
      requires Valid() && cipher_text.Length == plain_text.Length && Digits(256, cipher_text[..]) && Digits(256, ad)
      requires |mac| == 16 && Digits(256, mac)
      modifies `key, plain_text
      ensures Valid() && mismatch == !IsMac(mac, Drawn(rounds, old(key), nonce, counter)[..32], ad, old(cipher_text[..]))
      ensures mismatch ==> key == old(key) && plain_text[..] == old(plain_text[..])
      ensures !mismatch ==> key == KeyAfter(rounds, old(key), nonce, counter, 1)
                            && plain_text[..] == Masked(rounds, old(key), nonce, counter, old(cipher_text[..]))
    {
      hide Stream, XorSeq, IsMac;
      var auth_key := Draw();
      var real_mac := LockAuth(auth_key[..32], ad, cipher_text[..]);
      mismatch := mac != real_mac;
      MacIsUnique(mac, real_mac, auth_key[..32], ad, cipher_text[..]);
      if !mismatch {
        var next := Djb(plain_text, cipher_text, key, nonce, (counter + 1) % W64, rounds);
        FirstKey(rounds, key, nonce, counter);
        key := auth_key[32..];
      }
    }
  }

  lemma MacIsUnique(mac: seq<nat>, real_mac: seq<nat>, auth_key: seq<nat>, ad: seq<nat>, text: seq<nat>)
    requires |auth_key| == 32 && Digits(256, ad) && Digits(256, text) && IsMac(real_mac, auth_key, ad, text)
    ensures IsMac(mac, auth_key, ad, text) <==> mac == real_mac
  {
    hide IsMac;
    if IsMac(mac, auth_key, ad, text) { OneMac(mac, real_mac, auth_key, ad, text); }
  }

  lemma FirstKey(rounds: Rounds, key: seq<nat>, nonce: seq<nat>, counter: nat)
    requires |key| == 32 && |nonce| == 8
    ensures KeyAfter(rounds, key, nonce, counter, 1) == Drawn(rounds, key, nonce, counter)[32..]
  {
    hide Drawn;
    assert KeyAfter(rounds, key, nonce, counter, 0) == key;
  }

  /** Whatever is written, read in order from an equal context, comes out again, and the keys stay equal message by
      message. */
  method WriteAllReadAll(writer: AeadCtx, reader: AeadCtx, ads: seq<seq<nat>>, plains: seq<seq<nat>>)
    returns (packets: seq<Packet>, outs: seq<seq<nat>>)
    requires writer != reader && writer.Valid() && reader.Valid() && writer.rounds == reader.rounds
    requires writer.key == reader.key && writer.nonce == reader.nonce && writer.counter == reader.counter
    requires |ads| == |plains|
    requires forall i :: 0 <= i < |ads| ==> Digits(256, ads[i]) && Digits(256, plains[i])
    modifies writer, reader
    ensures |packets| == |plains| && outs == plains
    ensures writer.key == reader.key == KeyAfter(writer.rounds, old(writer.key), writer.nonce, writer.counter, |plains|)
  {
    hide Sealed, KeyAfter, Drawn, Masked, IsMac;
    ghost var rounds, key, nonce, counter := writer.rounds, writer.key, writer.nonce, writer.counter;
    StartKey(rounds, key, nonce, counter);
    packets := [];
    for i := 0 to |plains|
      invariant |packets| == i && writer.Valid() && reader.Valid() && reader.key == key
      invariant writer.key == KeyAfter(rounds, key, nonce, counter, i)
      invariant forall k :: 0 <= k < i ==> Sealed(rounds, KeyAfter(rounds, key, nonce, counter, k), nonce, counter, ads[k], plains[k], packets[k])
    {
      var plain := Buffer(plains[i]);
      var cipher := new nat[|plains[i]|];
      NextKey(rounds, key, nonce, counter, i);
      var mac := writer.Write(cipher, plain, ads[i]);
      packets := packets + [Packet(ads[i], cipher[..], mac)];
    }
    outs := [];
    for i := 0 to |packets|
      invariant |outs| == i && reader.Valid() && outs == plains[..i]
      invariant writer.key == KeyAfter(rounds, key, nonce, counter, |plains|)
      invariant reader.key == KeyAfter(rounds, key, nonce, counter, i)
    {
      ghost var k := reader.key;
      SealedMeans(rounds, k, nonce, counter, ads[i], plains[i], packets[i]);
      var cipher := Buffer(packets[i].text);
      var plain := new nat[|packets[i].text|];
      NextKey(rounds, key, nonce, counter, i);
      var mismatch := reader.Read(plain, packets[i].mac, packets[i].ad, cipher);
      MaskedTwice(rounds, k, nonce, counter, plains[i]);
      outs := outs + [plain[..]];
      assert plains[..i + 1] == plains[..i] + [plains[i]];
    }
    assert plains[..|plains|] == plains;
  }

  method Buffer(s: seq<nat>) returns (a: array<nat>)
    ensures fresh(a) && a[..] == s
  {
    a := new nat[|s|](i requires 0 <= i < |s| => s[i]);
  }

  lemma StartKey(rounds: Rounds, key: seq<nat>, nonce: seq<nat>, counter: nat)
    requires |key| == 32 && |nonce| == 8
    ensures KeyAfter(rounds, key, nonce, counter, 0) == key
  {
  }

  lemma NextKey(rounds: Rounds, key: seq<nat>, nonce: seq<nat>, counter: nat, i: nat)
    requires |key| == 32 && |nonce| == 8
    ensures KeyAfter(rounds, KeyAfter(rounds, key, nonce, counter, i), nonce, counter, 1) == KeyAfter(rounds, key, nonce, counter, i + 1)
  {
    hide Drawn;
    FirstKey(rounds, KeyAfter(rounds, key, nonce, counter, i), nonce, counter);
  }

  lemma SealedMeans(rounds: Rounds, key: seq<nat>, nonce: seq<nat>, counter: nat, ad: seq<nat>, plain: seq<nat>, p: Packet)
    requires Sealed(rounds, key, nonce, counter, ad, plain, p)
    ensures |key| == 32 && |nonce| == 8 && Digits(256, p.text) && Digits(256, ad) && p.ad == ad
    ensures p.text == Masked(rounds, key, nonce, counter, plain) && |p.mac| == 16 && Digits(256, p.mac)
    ensures IsMac(p.mac, Drawn(rounds, key, nonce, counter)[..32], ad, p.text)
  {
  }
}
