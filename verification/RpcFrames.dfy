/** The response stream of the RPC socket: frames cut out of a byte buffer (`RPC.cpp`). */
module RpcFrames {
  import opened ByteWords
  import opened Streams

  datatype Frame = Frame(id: nat, status: nat, data: seq<nat>)

  const INT_MAX := 0x7fff_ffff

  /** The length field of the header at the front of the buffer. */
  function DataLen(buf: seq<nat>): nat
    requires |buf| >= 9
  {
    Load32(buf, 5)
  }

  predicate HasFrame(buf: seq<nat>) {
    |buf| >= 9 && |buf| >= 9 + DataLen(buf)
  }

  /** read_buf.mid(9, (int) dataLen): a length past 2^31 turns negative, and then everything is taken. */
  function DataOf(buf: seq<nat>): seq<nat>
    requires HasFrame(buf)
  {
    if DataLen(buf) <= INT_MAX then buf[9..9 + DataLen(buf)] else buf[9..]
  }

  function First(buf: seq<nat>): Frame
    requires HasFrame(buf)
  {
    Frame(Load32(buf, 0), buf[4], DataOf(buf))
  }

  function Rest(buf: seq<nat>): (r: seq<nat>)
    requires HasFrame(buf)
    ensures |r| < |buf|
  {
    buf[9 + DataLen(buf)..]
  }

  /** The frames a buffer holds, and what is left when no whole frame remains. */
  function Frames(buf: seq<nat>): seq<Frame> {
    if HasFrame(buf) then [First(buf)] + Frames(Rest(buf)) else []
  }

  function Left(buf: seq<nat>): seq<nat> {
    if HasFrame(buf) then Left(Rest(buf)) else buf
  }

  /** No frame longer than a signed 32-bit integer says has bytes behind it. */
  predicate Sane(buf: seq<nat>) {
    HasFrame(buf) ==> (DataLen(buf) <= INT_MAX || |buf| == 9 + DataLen(buf)) && Sane(Rest(buf))
  }

  /** The payload taken is the one the header announces, except for lengths past 2^31 with more bytes behind them. */
  lemma DataIsAnnounced(buf: seq<nat>)
    requires HasFrame(buf)
    ensures DataOf(buf) == buf[9..9 + DataLen(buf)] <==> DataLen(buf) <= INT_MAX || |buf| == 9 + DataLen(buf)
  {
    if DataLen(buf) > INT_MAX && |buf| > 9 + DataLen(buf) {
      assert |buf[9..]| != DataLen(buf);
    }
  }

  lemma MoreBytes(a: seq<nat>, b: seq<nat>)
    requires HasFrame(a)
    ensures |a| >= 9 + DataLen(a)
    ensures HasFrame(a + b) && DataLen(a + b) == DataLen(a) && Rest(a + b) == Rest(a) + b
    ensures DataLen(a) <= INT_MAX ==> First(a + b) == First(a)
  {
    hide Load32;
    HeaderStays(a, b);
    var n := 9 + DataLen(a);
    assert (a + b)[9..n] == a[9..n];
    assert (a + b)[n..] == a[n..] + b;
  }

  lemma HeaderStays(a: seq<nat>, b: seq<nat>)
    requires |a| >= 9
    ensures Load32(a + b, 0) == Load32(a, 0) && Load32(a + b, 5) == Load32(a, 5) && (a + b)[4] == a[4]
  {
  }

  /** Splitting a sane stream anywhere gives the same frames and the same remainder. */
  lemma {:induction false} SplitAnywhere(a: seq<nat>, b: seq<nat>)
    requires Sane(a + b)
    ensures Sane(a) && Sane(Left(a) + b)
    ensures Frames(a + b) == Frames(a) + Frames(Left(a) + b)
    ensures Left(a + b) == Left(Left(a) + b)
    decreases |a|
  {
    hide HasFrame, First, DataLen;
    if HasFrame(a) {
      MoreBytes(a, b);
      if |a + b| == 9 + DataLen(a) {
        WholeBuffer(a, b);
      } else {
        SplitAnywhere(Rest(a), b);
      }
    }
  }

  /** One frame that fills the buffer exactly. */
  lemma WholeBuffer(a: seq<nat>, b: seq<nat>)
    requires HasFrame(a) && |a + b| == 9 + DataLen(a)
    ensures b == [] && a + b == a && Rest(a) == [] && Sane(a) && Frames(a) == [First(a)] && Left(a) == []
    ensures Frames(Left(a) + b) == [] && Left(Left(a) + b) == [] && Sane(Left(a) + b)
  {
    hide Load32;
    assert Left(a) + b == [];
  }

  predicate SplitAgrees(s: seq<nat>, n: nat)
    requires n <= |s|
  {
    Frames(s) == Frames(s[..n]) + Frames(Left(s[..n]) + s[n..]) && Left(s) == Left(Left(s[..n]) + s[n..])
  }

  /** A long frame with bytes behind it comes out shorter when the stream is split right behind it. */
  lemma LongFrameSplits(s: seq<nat>)
    requires HasFrame(s) && INT_MAX < DataLen(s) < |s| - 9
    ensures var n := 9 + DataLen(s);
            HasFrame(s[..n]) && Frames(s) != Frames(s[..n]) + Frames(Left(s[..n]) + s[n..])
  {
    hide Load32;
    var n := 9 + DataLen(s);
    HeaderStays(s[..n], s[n..]);
    assert s[..n] + s[n..] == s;
    assert |First(s).data| == |s| - 9 && |First(s[..n]).data| == n - 9;
    assert Frames(s)[0] == First(s) && Frames(s[..n])[0] == First(s[..n]);
  }

  /** A stream that is not sane has a place where splitting it changes the frames. */
  lemma {:induction false} SomeSplitFails(s: seq<nat>) returns (n: nat)
    requires !Sane(s)
    ensures n <= |s| && HasFrame(s[..n]) && Frames(s) != Frames(s[..n]) + Frames(Left(s[..n]) + s[n..])
  {
    hide Load32, First;
    if DataLen(s) > INT_MAX && |s| > 9 + DataLen(s) {
      n := 9 + DataLen(s);
      LongFrameSplits(s);
    } else {
      var k := 9 + DataLen(s);
      var m := SomeSplitFails(Rest(s));
      n := k + m;
      var a, b := s[..n], s[n..];
      HeaderStays(a, b);
      assert a + b == s && Rest(a) == Rest(s)[..m] && b == Rest(s)[m..];
      MoreBytes(a, b);
      assert Frames(a) + Frames(Left(a) + b) == [First(s)] + (Frames(Rest(a)) + Frames(Left(Rest(a)) + b));
      assert ([First(s)] + Frames(Rest(s)))[1..] == Frames(Rest(s));
      assert ([First(s)] + (Frames(Rest(a)) + Frames(Left(Rest(a)) + b)))[1..] == Frames(Rest(a)) + Frames(Left(Rest(a)) + b);
    }
  }

  /** The frames of a stream survive every split if and only if the stream is sane. */
  lemma SplitsExactly(s: seq<nat>)
    ensures Sane(s) <==> forall n :: 0 <= n <= |s| ==> SplitAgrees(s, n)
  {
    if Sane(s) {
      forall n | 0 <= n <= |s| ensures SplitAgrees(s, n) {
        assert s[..n] + s[n..] == s;
        SplitAnywhere(s[..n], s[n..]);
      }
    } else {
      var n := SomeSplitFails(s);
      assert !SplitAgrees(s, n);
    }
  }

  /** A response of 2^31 bytes with one more byte behind it: read in one piece it comes out a byte too long. */
  lemma FailingStream() returns (s: seq<nat>)
    ensures s == WordBytes(1) + [0] + WordBytes(0x8000_0000) + seq(0x8000_0001, _ => 0)
    ensures HasFrame(s) && DataLen(s) == 0x8000_0000 && !SplitAgrees(s, 9 + DataLen(s)) && !Sane(s)
  {
    hide WordBytes, Load32;
    s := WordBytes(1) + [0] + WordBytes(0x8000_0000) + seq(0x8000_0001, _ => 0);
    FourBytes(1);
    FourBytes(0x8000_0000);
    assert s[5..9] == WordBytes(0x8000_0000);
    WordRoundTrip(0x8000_0000, s, 5);
    LongFrameSplits(s);
  }

  /** The frames cut while the chunks arrive one after another, and the buffer in between. */
  function ChunkFrames(chunks: seq<seq<nat>>): seq<Frame> {
    if chunks == [] then []
    else var n := |chunks| - 1; ChunkFrames(chunks[..n]) + Frames(ChunkLeft(chunks[..n]) + chunks[n])
  }

  function ChunkLeft(chunks: seq<seq<nat>>): seq<nat> {
    if chunks == [] then []
    else var n := |chunks| - 1; Left(ChunkLeft(chunks[..n]) + chunks[n])
  }

  /** However the stream is chunked, the frames are those of the whole. */
  lemma {:induction false} ChunkingIsInvisible(chunks: seq<seq<nat>>)
    requires Sane(Concat(chunks))
    ensures ChunkFrames(chunks) == Frames(Concat(chunks)) && ChunkLeft(chunks) == Left(Concat(chunks))
  {
    if chunks != [] {
      var n := |chunks| - 1;
      SplitAnywhere(Concat(chunks[..n]), chunks[n]);
      ChunkingIsInvisible(chunks[..n]);
    }
  }

  predicate ChunksAgree(chunks: seq<seq<nat>>, s: seq<nat>) {
    ChunkFrames(chunks) == Frames(s) && ChunkLeft(chunks) == Left(s)
  }

  /** The frames of a stream do not depend on its chunks if and only if the stream is sane. */
  lemma ChunkingExactly(s: seq<nat>)
    ensures Sane(s) <==> forall chunks: seq<seq<nat>> :: Concat(chunks) == s ==> ChunksAgree(chunks, s)
  {
    hide Sane, ChunksAgree;
    if Sane(s) {
      forall chunks: seq<seq<nat>> | Concat(chunks) == s ensures ChunksAgree(chunks, s) {
        WholeAgrees(chunks);
      }
    } else {
      var a, b := SomeChunksFail(s);
    }
  }

  lemma WholeAgrees(chunks: seq<seq<nat>>)
    requires Sane(Concat(chunks))
    ensures ChunksAgree(chunks, Concat(chunks))
  {
    ChunkingIsInvisible(chunks);
  }

  lemma SomeChunksFail(s: seq<nat>) returns (a: seq<nat>, b: seq<nat>)
    requires !Sane(s)
    ensures Concat([a, b]) == s && !ChunksAgree([a, b], s)
  {
    hide Sane, HasFrame, Frames, Left;
    var n := SomeSplitFails(s);
    a, b := s[..n], s[n..];
    TwoChunks(a, b);
    assert a + b == s;
  }

  lemma TwoChunks(a: seq<nat>, b: seq<nat>)
    ensures Concat([a, b]) == a + b && ChunkFrames([a, b]) == Frames(a) + Frames(Left(a) + b)
  {
    NoFrames();
    hide Frames, Left;
    assert [a, b][..1] == [a] && [a][..0] == [] && [] + a == a;
    assert Concat([a]) == a;
    assert ChunkLeft([]) == [] && ChunkFrames([]) == [];
    assert ChunkLeft([a]) == Left(a);
    assert ChunkFrames([a]) == Frames(a);
    assert ChunkFrames([a, b]) == ChunkFrames([a]) + Frames(ChunkLeft([a]) + b);
  }

  lemma NoFrames()
    ensures Frames([]) == [] && Left([]) == []
  {
  }

  // ---------- what the other side writes ----------

  function WordBytes(x: nat): seq<nat> {
    [x % 0x100, x / 0x100 % 0x100, x / 0x1_0000 % 0x100, x / 0x100_0000 % 0x100]
  }

  /** A response on the wire: id, status, length, payload. */
  function Encode(f: Frame): seq<nat> {
    WordBytes(f.id) + [f.status] + WordBytes(|f.data|) + f.data
  }

  function EncodeAll(fs: seq<Frame>): seq<nat> {
    if fs == [] then [] else Encode(fs[0]) + EncodeAll(fs[1..])
  }

  predicate Fits(f: Frame) {
    f.id < 0x1_0000_0000 && |f.data| <= INT_MAX
  }

  lemma WordRoundTrip(x: nat, s: seq<nat>, i: nat)
    requires x < 0x1_0000_0000 && i + 4 <= |s| && s[i..i + 4] == WordBytes(x)
    ensures Load32(s, i) == x
  {
    var t := s[i..i + 4];
    assert s[i] == t[0] && s[i + 1] == t[1] && s[i + 2] == t[2] && s[i + 3] == t[3];
    var a := x / 0x100;
    var b := a / 0x100;
    var c := b / 0x100;
    assert b == x / 0x1_0000 && c == x / 0x100_0000;
  }

  lemma FirstOf(f: Frame, rest: seq<nat>)
    requires Fits(f)
    ensures var s := Encode(f) + rest;
            HasFrame(s) && DataLen(s) == |f.data| && First(s) == f && Rest(s) == rest
  {
    hide WordBytes, Load32;
    var s, n := Encode(f) + rest, |f.data|;
    FourBytes(f.id);
    FourBytes(n);
    assert s[0..4] == WordBytes(f.id) && s[4] == f.status && s[5..9] == WordBytes(n);
    WordRoundTrip(f.id, s, 0);
    WordRoundTrip(n, s, 5);
    assert s[9..9 + n] == f.data && s[9 + n..] == rest;
  }

  lemma FourBytes(x: nat)
    ensures |WordBytes(x)| == 4
  {
  }

  /** Responses written back to back, with an unfinished one behind them, are read back exactly. */
  lemma {:induction false} ReadsBack(fs: seq<Frame>, tail: seq<nat>)
    requires forall k :: 0 <= k < |fs| ==> Fits(fs[k])
    requires !HasFrame(tail)
    ensures Frames(EncodeAll(fs) + tail) == fs && Left(EncodeAll(fs) + tail) == tail && Sane(EncodeAll(fs) + tail)
  {
    hide Encode, First, Rest, DataLen;
    if fs == [] {
      assert EncodeAll(fs) + tail == tail;
    } else {
      var rest := EncodeAll(fs[1..]) + tail;
      assert EncodeAll(fs) + tail == Encode(fs[0]) + rest;
      FirstOf(fs[0], rest);
      ReadsBack(fs[1..], tail);
    }
  }
}
