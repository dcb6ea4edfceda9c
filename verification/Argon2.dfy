/** The choice of reference blocks while Argon2 fills its memory (`crypto_argon2` in `monocypher.c`). */
module Argon2Window {
  import opened Arith

  const W32 := 0x1_0000_0000

  /** Where the filling stands: pass, slice, lane, and block within the segment. */
  datatype Place = Place(pass: nat, slice: nat, lane: nat, block: nat)

  /** A block in the work area: its lane and its position in the lane. */
  datatype Ref = Ref(lane: nat, pos: nat)

  function PassOffset(pass: nat, slice: nat): nat {
    if pass == 0 && slice == 0 then 2 else 0
  }

  ghost predicate IsPlace(p: Place, lanes: nat, seg: nat) {
    && seg >= 2 && 4 * seg < W32 && p.slice < 4 && p.lane < lanes
    && PassOffset(p.pass, p.slice) <= p.block < seg
  }

  function Current(p: Place, seg: nat): nat { p.slice * seg + p.block }

  /** The block before the current one, round the end of the lane. */
  function Previous(p: Place, seg: nat): int
  {
    if p.slice == 0 && p.block == 0 then 4 * seg - 1 else p.slice * seg + p.block - 1
  }

  /** Everything stored at positions of `lane` before the current block is computed. */
  predicate Filled(p: Place, seg: nat, r: Ref) {
    r.pos < 4 * seg &&
    (p.pass > 0
     || r.pos < 2
     || r.pos < p.slice * seg
     || (r.lane < p.lane && r.pos < (p.slice + 1) * seg)
     || (r.lane == p.lane && r.pos < Current(p, seg)))
  }

  predicate InCurrentSlice(p: Place, seg: nat, pos: nat) {
    p.slice * seg <= pos < (p.slice + 1) * seg
  }

  /** The reference set of RFC 9106, section 3.4.2, written down from its description: in the same lane every finished
      block of this pass and of the three slices before, except the previous one; in other lanes the finished
      segments, without the very last block when a segment begins. */
  predicate Allowed(p: Place, seg: nat, r: Ref) {
    && r.pos < 4 * seg
    && (p.pass == 0 && p.slice == 0 ==> r.lane == p.lane)
    && r.pos != (if r.lane == p.lane || p.block == 0 then Previous(p, seg) else -1)
    && if r.lane == p.lane then
         (r.pos < Current(p, seg) || (p.pass > 0 && r.pos >= (p.slice + 1) * seg))
       else
         (r.pos < p.slice * seg || (p.pass > 0 && r.pos >= (p.slice + 1) * seg))
  }

  /** An allowed block is in the area, already filled, not the current one, not the previous one of the lane, and not
      in another lane's part of the current slice. */
  lemma AllowedIsSafe(p: Place, lanes: nat, seg: nat, r: Ref)
    requires IsPlace(p, lanes, seg) && Allowed(p, seg, r)
    ensures Filled(p, seg, r)
    ensures r != Ref(p.lane, Current(p, seg))
    ensures r.lane == p.lane ==> r.pos != Previous(p, seg)
    ensures r.lane != p.lane ==> !InCurrentSlice(p, seg, r.pos)
  {
  }

  function WindowStart(p: Place, seg: nat): nat {
    if p.pass == 0 then 0 else (p.slice + 1) % 4 * seg
  }

  /** The size of the reference set as a mathematical number. */
  function WindowSize(p: Place, seg: nat, lane: nat): int {
    (if p.pass == 0 then p.slice else 3) * seg + (if lane == p.lane then p.block - 1 else if p.block == 0 then -1 else 0)
  }

  lemma WindowIsPositive(p: Place, lanes: nat, seg: nat, lane: nat)
    requires IsPlace(p, lanes, seg) && (p.pass == 0 && p.slice == 0 ==> lane == p.lane)
    ensures 1 <= WindowSize(p, seg, lane) < 4 * seg
  {
    if p.slice == 0 {} else if p.slice == 1 {} else if p.slice == 2 {} else {}
  }

  /** The positions reached from the window are exactly the allowed ones. */
  lemma WindowIsAllowed(p: Place, lanes: nat, seg: nat, lane: nat, pos: nat)
    requires IsPlace(p, lanes, seg) && (p.pass == 0 && p.slice == 0 ==> lane == p.lane)
    ensures Allowed(p, seg, Ref(lane, pos)) <==>
              pos < 4 * seg && (if pos >= WindowStart(p, seg) then pos - WindowStart(p, seg) else pos + 4 * seg - WindowStart(p, seg))
                               < WindowSize(p, seg, lane)
  {
    if p.slice == 0 {} else if p.slice == 1 {} else if p.slice == 2 {} else {}
  }

  /** Wrapping round the lane. */
  lemma Wrap(start: nat, z: nat, n: nat)
    requires start < n && z < n
    ensures (start + z) % n == if start + z < n then start + z else start + z - n
  {
    if start + z < n { DivUnique(start + z, n, 0, start + z); } else { DivUnique(start + z, n, 1, start + z - n); }
  }

  /** A high product stays below its factor. */
  lemma HighProduct(w: nat, x: nat)
    requires x < W32 && w > 0
    ensures 0 <= w * x / W32 < w && w * x >= 0
  {
    MulMono(w, x + 1, W32);
    MulNonneg(w, x);
    assert w * (x + 1) == w * x + w;
    var q, r := w * x / W32, w * x % W32;
    assert w * x == W32 * q + r;
    if q >= w { MulMono(W32, w, q); }
  }

  /** The reference block for a seed in exact arithmetic: lane J2 mod p, or the own lane in the very first slice, and
      position |W| - 1 - (|W| J1^2 / 2^64) of the window, each division rounded down. */
  function RefOf(p: Place, seed: nat, lanes: nat, seg: nat): (r: Ref)
    requires p.lane < lanes && seg > 0
    ensures r.lane < lanes && r.pos < 4 * seg
  {
    var lane := if p.pass == 0 && p.slice == 0 then p.lane else seed / W32 % lanes;
    var j1, w := seed % W32, WindowSize(p, seg, lane);
    Ref(lane, (WindowStart(p, seg) + (w - 1 - w * (j1 * j1 / W32) / W32)) % (4 * seg))
  }

  /** Where J1 points in a window of `w` blocks. */
  function Selected(w: nat, j1: nat): int {
    w - 1 - w * (j1 * j1 / W32) / W32
  }

  lemma RefSelects(p: Place, seed: nat, lanes: nat, seg: nat)
    requires IsPlace(p, lanes, seg)
    ensures var r := RefOf(p, seed, lanes, seg);
            && WindowSize(p, seg, r.lane) >= 1
            && r.pos == (WindowStart(p, seg) + Selected(WindowSize(p, seg, r.lane), seed % W32)) % (4 * seg)
            && r.lane == if p.pass == 0 && p.slice == 0 then p.lane else seed / W32 % lanes
  {
    WindowIsPositive(p, lanes, seg, RefOf(p, seed, lanes, seg).lane);
  }

  /** J1 = 0 selects the newest block of the window; the greater J1, the older the block; and the distance from the
      newest one is |W| J1^2 / 2^64, rounded down at most twice. */
  lemma SelectedIsQuadratic(w: nat, j: nat, k: nat)
    requires w > 0 && j <= k < W32
    ensures Selected(w, 0) == w - 1 && 0 <= Selected(w, k) <= Selected(w, j) <= w - 1
    ensures var d := w - 1 - Selected(w, k);
            d * (W32 * W32) <= w * (k * k) < (d + 1) * (W32 * W32) + w * W32
  {
    SquareIsSmall(j);
    SquareIsSmall(k);
    HighProduct(w, j * j / W32);
    HighProduct(w, k * k / W32);
    MulMono(j, j, k);
    MulMono(k, j, k);
    Monotone(j * j, k * k, W32);
    MulMono(w, j * j / W32, k * k / W32);
    Monotone(w * (j * j / W32), w * (k * k / W32), W32);
    assert w * 0 == 0;
    FloorTwice(w, k * k);
  }

  lemma Monotone(a: int, b: int, d: int)
    requires a <= b && d > 0
    ensures a / d <= b / d
  {
    var p, q := a / d, b / d;
    assert a == d * p + a % d && b == d * q + b % d;
    if p > q { MulGap(d, q, p); }
  }

  /** Rounding twice. */
  lemma FloorTwice(w: nat, s: nat)
    ensures s / W32 >= 0 && w * (s / W32) >= 0
    ensures var d := w * (s / W32) / W32;
            d * (W32 * W32) <= w * s < (d + 1) * (W32 * W32) + w * W32
  {
    var x, r := s / W32, s % W32;
    MulNonneg(w, x);
    var d, q := w * x / W32, w * x % W32;
    assert w * x == W32 * d + q;
    assert w * s == w * (W32 * x + r);
    assert w * (W32 * x + r) == W32 * (w * x) + w * r;
    MulNonneg(w, r);
    MulMono(w, r, W32);
  }

  /** Whatever the seed, it selects a block of the reference set. */
  lemma RefIsAllowed(p: Place, seed: nat, lanes: nat, seg: nat)
    requires IsPlace(p, lanes, seg)
    ensures Allowed(p, seg, RefOf(p, seed, lanes, seg))
  {
    var lane := if p.pass == 0 && p.slice == 0 then p.lane else seed / W32 % lanes;
    var w := WindowSize(p, seg, lane);
    WindowIsPositive(p, lanes, seg, lane);
    var j1 := seed % W32;
    SquareIsSmall(j1);
    HighProduct(w, j1 * j1 / W32);
    var z := w - 1 - w * (j1 * j1 / W32) / W32;
    StartInLane(p, lanes, seg);
    Wrap(WindowStart(p, seg), z, 4 * seg);
    WindowIsAllowed(p, lanes, seg, lane, (WindowStart(p, seg) + z) % (4 * seg));
  }

  /** The reference block for a seed, in 32- and 64-bit arithmetic. */
  method Reference(p: Place, seed: nat, lanes: nat, seg: nat) returns (r: Ref)
    requires IsPlace(p, lanes, seg) && lanes < W32 && seed < W32 * W32
    ensures r == RefOf(p, seed, lanes, seg) && Allowed(p, seg, r)
  {
    hide Allowed, WindowSize;
    RefIsAllowed(p, seed, lanes, seg);
    var next_slice := (p.slice + 1) % 4 * seg;
    var window_start := if p.pass == 0 then 0 else next_slice;
    var nb_segments := if p.pass == 0 then p.slice else 3;
    var lane := if p.pass == 0 && p.slice == 0 then p.lane else seed / W32 % lanes;
    WindowIsPositive(p, lanes, seg, lane);
    // (u32)-1 and block - 1 for block 0 are 2^32 - 1: the sum wraps.
    var adjust := if lane == p.lane then (p.block - 1) % W32 else if p.block == 0 then W32 - 1 else 0;
    var window_size := (nb_segments * seg + adjust) % W32;
    SizeWraps(p, lanes, seg, lane, adjust);
    assert window_size == WindowSize(p, seg, lane);
    var j1 := seed % W32;
    SquareIsSmall(j1);
    var x := j1 * j1 / W32;
    HighProduct(window_size, x);
    var y := window_size * x / W32;
    var z := window_size - 1 - y;
    var lane_size := 4 * seg;
    var ref := (window_start + z) % lane_size;
    r := Ref(lane, ref);
  }

  lemma StartInLane(p: Place, lanes: nat, seg: nat)
    requires IsPlace(p, lanes, seg)
    ensures WindowStart(p, seg) < 4 * seg
  {
    if p.slice == 0 {} else if p.slice == 1 {} else if p.slice == 2 {} else {}
  }

  lemma SquareIsSmall(j: nat)
    requires j < W32
    ensures 0 <= j * j / W32 < W32 && 0 <= j * j < W32 * W32
  {
    MulMono(j, j, W32);
    MulMono(W32, j, W32 - 1);
    MulNonneg(j, j);
  }

  lemma SizeWraps(p: Place, lanes: nat, seg: nat, lane: nat, adjust: nat)
    requires IsPlace(p, lanes, seg) && (p.pass == 0 && p.slice == 0 ==> lane == p.lane)
    requires adjust == if lane == p.lane then (p.block - 1) % W32 else if p.block == 0 then W32 - 1 else 0
    ensures ((if p.pass == 0 then p.slice else 3) * seg + adjust) % W32 == WindowSize(p, seg, lane)
  {
    WindowIsPositive(p, lanes, seg, lane);
    if lane == p.lane && p.block == 0 {
      DivUnique(p.block - 1, W32, -1, W32 - 1);
    } else if lane == p.lane {
      DivUnique(p.block - 1, W32, 0, p.block - 1);
    }
    var w := WindowSize(p, seg, lane);
    if p.block == 0 {
      DivUnique(w + W32, W32, 1, w);
    } else {
      DivUnique(w, W32, 0, w);
    }
  }

  /** Lane and position name one block of the work area, and different ones different blocks. */
  lemma AreaIndex(lanes: nat, lane_size: nat, r: Ref, t: Ref)
    requires r.lane < lanes && r.pos < lane_size && t.lane < lanes && t.pos < lane_size
    ensures r.lane * lane_size + r.pos < lane_size * lanes
    ensures r.lane * lane_size + r.pos == t.lane * lane_size + t.pos ==> r == t
  {
    MulGap(lane_size, r.lane, lanes);
    if r.lane < t.lane { MulGap(lane_size, r.lane, t.lane); }
    if t.lane < r.lane { MulGap(lane_size, t.lane, r.lane); }
  }
}

/** Filling the memory, block by block (`crypto_argon2` in `monocypher.c`). */
module Argon2Fill {
  import opened Arith
  import opened Argon2Window

  datatype Algorithm = Argon2d | Argon2i | Argon2id

  /** The operations on blocks: exclusive or, the rounds of the compression function, a word of a block, and the block
      that begins with the given words and ends with zeros. */
  datatype Blocks<!B> = Blocks(xor: (B, B) -> B, rounds: B -> B, word: (B, nat) -> nat, pack: seq<nat> -> B)

  ghost predicate IsBlocks<B(!new)>(f: Blocks<B>) {
    && (forall a, b :: f.xor(a, b) == f.xor(b, a))
    && (forall a, b, c :: f.xor(f.xor(a, b), c) == f.xor(a, f.xor(b, c)))
    && (forall b, n :: 0 <= n < 128 ==> f.word(b, n) < W32 * W32)
  }

  lemma XorLaws<B(!new)>(f: Blocks<B>, a: B, b: B, c: B)
    requires IsBlocks(f)
    ensures f.xor(a, b) == f.xor(b, a) && f.xor(f.xor(a, b), c) == f.xor(a, f.xor(b, c))
  {
  }

  lemma WordFits<B(!new)>(f: Blocks<B>, b: B, n: nat)
    requires IsBlocks(f) && n < 128
    ensures f.word(b, n) < W32 * W32
  {
  }

  /** Four segments of `seg` blocks in each lane. */
  datatype Config = Config(lanes: nat, seg: nat, passes: nat, algorithm: Algorithm)

  ghost predicate IsConfig(c: Config) {
    0 < c.lanes < W32 && c.seg >= 2 && 4 * c.seg < W32
  }

  // ---------- what a block of the memory is (sections 3.2 to 3.5 of RFC 9106) ----------

  /** R exclusive-or'd with its permutation. */
  function Mixed<B>(f: Blocks<B>, r: B): B {
    f.xor(r, f.rounds(r))
  }

  /** The compression function G. */
  function G<B>(f: Blocks<B>, x: B, y: B): B {
    Mixed(f, f.xor(x, y))
  }

  /** Whether the index at a place may not depend on the data. */
  predicate Independent(algorithm: Algorithm, pass: nat, slice: nat) {
    algorithm == Argon2i || (algorithm == Argon2id && pass == 0 && slice < 2)
  }

  function Code(algorithm: Algorithm): nat {
    match algorithm case Argon2d => 0 case Argon2i => 1 case Argon2id => 2
  }

  /** The ctr-th block of data-independent indices of a segment. */
  function Addresses<B>(f: Blocks<B>, c: Config, pass: nat, lane: nat, slice: nat, ctr: nat): B {
    Mixed(f, Mixed(f, f.pack([pass, lane, slice, 4 * c.seg * c.lanes, c.passes, Code(c.algorithm), ctr])))
  }

  /** The 64 bits J1 and J2 that select the reference at `p`. */
  function Seed<B>(f: Blocks<B>, c: Config, p: Place, prev: B): nat {
    if Independent(c.algorithm, p.pass, p.slice) then
      f.word(Addresses(f, c, p.pass, p.lane, p.slice, 1 + p.block / 128), p.block % 128)
    else f.word(prev, 0)
  }

  function PlaceOf(pass: nat, r: Ref, seg: nat): Place
    requires seg > 0
  {
    Place(pass, r.pos / seg, r.lane, r.pos % seg)
  }

  /** The block before `pos`, round the end of the lane. */
  function Before(pos: nat, seg: nat): nat
    requires seg > 0
  {
    if pos == 0 then 4 * seg - 1 else pos - 1
  }

  /**
   * Block `r` after `k` passes: G of the block before and of the reference, exclusive-or'd with the block of the pass
   * before if there is one. Both are taken as the current pass has left them if they stand at a lower position, else
   * from the pass before. No order between lanes enters. The first two blocks of a lane are given.
   */
  function Value<B>(f: Blocks<B>, c: Config, init: Ref -> B, k: nat, r: Ref): B
    requires c.seg > 0 && r.lane < c.lanes
    decreases k, r.pos
  {
    if k == 0 || (k == 1 && r.pos < 2) then init(r)
    else
      var p, b := PlaceOf(k - 1, r, c.seg), Before(r.pos, c.seg);
      var prev := Value(f, c, init, if b < r.pos then k else k - 1, Ref(r.lane, b));
      var z := RefOf(p, Seed(f, c, p, prev), c.lanes, c.seg);
      var g := G(f, prev, Value(f, c, init, if z.pos < r.pos then k else k - 1, z));
      if k == 1 then g else f.xor(Value(f, c, init, k - 1, r), g)
  }

  lemma SeedFits<B(!new)>(f: Blocks<B>, c: Config, p: Place, prev: B)
    requires IsBlocks(f)
    ensures Seed(f, c, p, prev) < W32 * W32
  {
    hide IsBlocks;
    WordFits(f, prev, 0);
    WordFits(f, Addresses(f, c, p.pass, p.lane, p.slice, 1 + p.block / 128), p.block % 128);
  }

  lemma PlaceIsPlace(pass: nat, r: Ref, lanes: nat, seg: nat)
    requires seg >= 2 && 4 * seg < W32 && r.lane < lanes && r.pos < 4 * seg && (pass == 0 ==> r.pos >= 2)
    ensures IsPlace(PlaceOf(pass, r, seg), lanes, seg) && Current(PlaceOf(pass, r, seg), seg) == r.pos
  {
    var q, b := r.pos / seg, r.pos % seg;
    assert r.pos == seg * q + b;
    if q >= 4 { MulMono(seg, 4, q); }
    if q == 0 { assert seg * q == 0; }
  }

  lemma PlaceUnique(p: Place, lanes: nat, seg: nat)
    requires IsPlace(p, lanes, seg)
    ensures Current(p, seg) < 4 * seg && PlaceOf(p.pass, Ref(p.lane, Current(p, seg)), seg) == p
    ensures Previous(p, seg) == Before(Current(p, seg), seg) && Current(p, seg) >= p.slice * seg >= 0
  {
    MulMono(seg, p.slice, 3);
    DivUnique(Current(p, seg), seg, p.slice, p.block);
    if p.slice > 0 { MulMono(seg, 1, p.slice); }
  }

  /** In the first pass every reference stands at a lower position. */
  lemma FirstPassLooksBack(p: Place, lanes: nat, seg: nat, z: Ref)
    requires IsPlace(p, lanes, seg) && Allowed(p, seg, z) && p.pass == 0
    ensures z.pos < Current(p, seg)
  {
  }

  /** What the work area held before the first two blocks of each lane were set has no influence. */
  lemma {:induction false} OldContentsDoNotMatter<B(!new)>(f: Blocks<B>, c: Config, init: Ref -> B, other: Ref -> B, k: nat, r: Ref)
    requires IsBlocks(f) && IsConfig(c) && r.lane < c.lanes && r.pos < 4 * c.seg && k > 0
    requires forall l, i :: 0 <= l < c.lanes && 0 <= i < 2 ==> init(Ref(l, i)) == other(Ref(l, i))
    ensures Value(f, c, init, k, r) == Value(f, c, other, k, r)
    decreases k, r.pos
  {
    hide IsBlocks, Allowed, Seed, RefOf, Value, PlaceOf;
    ValueIs(f, c, init, k, r);
    ValueIs(f, c, other, k, r);
    if k > 1 || r.pos >= 2 {
      var p, b := PlaceOf(k - 1, r, c.seg), Before(r.pos, c.seg);
      OldContentsDoNotMatter(f, c, init, other, if b < r.pos then k else k - 1, Ref(r.lane, b));
      var prev := Value(f, c, init, if b < r.pos then k else k - 1, Ref(r.lane, b));
      PlaceIsPlace(k - 1, r, c.lanes, c.seg);
      RefIsAllowed(p, Seed(f, c, p, prev), c.lanes, c.seg);
      var z := RefOf(p, Seed(f, c, p, prev), c.lanes, c.seg);
      if k == 1 { FirstPassLooksBack(p, c.lanes, c.seg, z); }
      OldContentsDoNotMatter(f, c, init, other, if z.pos < r.pos then k else k - 1, z);
      if k > 1 { OldContentsDoNotMatter(f, c, init, other, k - 1, r); }
    }
  }

  lemma ValueIs<B>(f: Blocks<B>, c: Config, init: Ref -> B, k: nat, r: Ref)
    requires c.seg > 0 && r.lane < c.lanes
    ensures k == 0 || (k == 1 && r.pos < 2) ==> Value(f, c, init, k, r) == init(r)
    ensures k > 1 || (k == 1 && r.pos >= 2) ==>
              var p, b := PlaceOf(k - 1, r, c.seg), Before(r.pos, c.seg);
              && p.lane == r.lane && p.pass == k - 1
              && var prev := Value(f, c, init, if b < r.pos then k else k - 1, Ref(r.lane, b));
                 var z := RefOf(p, Seed(f, c, p, prev), c.lanes, c.seg);
                 var g := G(f, prev, Value(f, c, init, if z.pos < r.pos then k else k - 1, z));
                 Value(f, c, init, k, r) == if k == 1 then g else f.xor(Value(f, c, init, k - 1, r), g)
  {
    hide Seed, RefOf, G;
  }

  // ---------- the loops ----------

  /** In the pass of `q`, block `r` is stored before `q` is. */
  predicate Done(q: Place, seg: nat, r: Ref) {
    r.pos < q.slice * seg
    || (InCurrentSlice(q, seg, r.pos) && (r.lane < q.lane || (r.lane == q.lane && r.pos < Current(q, seg))))
  }

  function Count(q: Place, seg: nat, r: Ref): nat {
    q.pass + if Done(q, seg, r) then 1 else 0
  }

  /** When `q` is reached, the memory holds every block as of its latest pass. */
  ghost predicate Holds<B>(blocks: array2<B>, f: Blocks<B>, c: Config, init: Ref -> B, q: Place)
    requires c.seg > 0
    reads blocks
  {
    && blocks.Length0 == c.lanes && blocks.Length1 == 4 * c.seg
    && forall l: nat, i: nat :: l < c.lanes && i < 4 * c.seg ==>
         blocks[l, i] == Value(f, c, init, Count(q, c.seg, Ref(l, i)), Ref(l, i))
  }

  /** What an allowed reference and the previous block count as when the current one is computed. */
  lemma Latest(p: Place, lanes: nat, seg: nat, z: Ref)
    requires IsPlace(p, lanes, seg) && Allowed(p, seg, z)
    ensures var cur, b := Current(p, seg), Before(Current(p, seg), seg);
            && Count(p, seg, z) == (if z.pos < cur then p.pass + 1 else p.pass)
            && Count(p, seg, Ref(p.lane, b)) == (if b < cur then p.pass + 1 else p.pass)
            && Count(p, seg, Ref(p.lane, cur)) == p.pass
  {
    PlaceUnique(p, lanes, seg);
    assert (p.slice + 1) * seg == p.slice * seg + seg;
  }

  /** Storing the current block moves on to the next place. */
  lemma OneMore(p: Place, lanes: nat, seg: nat, r: Ref)
    requires IsPlace(p, lanes, seg)
    ensures Count(p.(block := p.block + 1), seg, r) ==
            if r == Ref(p.lane, Current(p, seg)) then p.pass + 1 else Count(p, seg, r)
  {
    assert (p.slice + 1) * seg == p.slice * seg + seg;
  }

  /** What the code stores at `p` is the block's next value. */
  lemma NextValue<B(!new)>(f: Blocks<B>, c: Config, init: Ref -> B, p: Place, prev: B, z: Ref, ref: B, old_block: B)
    requires IsConfig(c) && IsPlace(p, c.lanes, c.seg)
    requires var cur, b := Current(p, c.seg), Before(Current(p, c.seg), c.seg);
             && prev == Value(f, c, init, if b < cur then p.pass + 1 else p.pass, Ref(p.lane, b))
             && z == RefOf(p, Seed(f, c, p, prev), c.lanes, c.seg)
             && ref == Value(f, c, init, if z.pos < cur then p.pass + 1 else p.pass, z)
             && old_block == Value(f, c, init, p.pass, Ref(p.lane, cur))
    ensures Value(f, c, init, p.pass + 1, Ref(p.lane, Current(p, c.seg)))
         == if p.pass == 0 then G(f, prev, ref) else f.xor(old_block, G(f, prev, ref))
  {
    hide Seed, RefOf, G;
    PlaceUnique(p, c.lanes, c.seg);
    if p.pass == 0 && Current(p, c.seg) < 2 { assert p.slice == 0; }
  }

  /** Generates the next block of indices. */
  method NextAddresses<B(!new)>(f: Blocks<B>, c: Config, pass: nat, segment: nat, slice: nat, ctr: nat) returns (index_block: B)
    requires IsBlocks(f)
    ensures index_block == Addresses(f, c, pass, segment, slice, ctr)
  {
    hide IsBlocks;
    index_block := f.pack([pass, segment, slice, 4 * c.seg * c.lanes, c.passes, Code(c.algorithm), ctr]);
    for i := 0 to 2
      invariant index_block == if i == 0 then f.pack([pass, segment, slice, 4 * c.seg * c.lanes, c.passes, Code(c.algorithm), ctr])
                               else if i == 1 then Mixed(f, f.pack([pass, segment, slice, 4 * c.seg * c.lanes, c.passes, Code(c.algorithm), ctr]))
                               else Addresses(f, c, pass, segment, slice, ctr)
    {
      var tmp := index_block;
      index_block := f.rounds(index_block);
      XorLaws(f, index_block, tmp, tmp);
      index_block := f.xor(index_block, tmp);
    }
  }

  /** Shuffles the previous and the reference block into the current one. */
  method Shuffle<B(!new)>(blocks: array2<B>, f: Blocks<B>, first: bool, lane: nat, current: nat, previous: nat, r: Ref)
    requires IsBlocks(f) && lane < blocks.Length0 && current < blocks.Length1 && previous < blocks.Length1
    requires r.lane < blocks.Length0 && r.pos < blocks.Length1 && r != Ref(lane, current) && previous != current
    modifies blocks
    ensures var g := G(f, old(blocks[lane, previous]), old(blocks[r.lane, r.pos]));
            blocks[lane, current] == if first then g else f.xor(old(blocks[lane, current]), g)
    ensures forall l, i :: 0 <= l < blocks.Length0 && 0 <= i < blocks.Length1 && (l != lane || i != current) ==>
              blocks[l, i] == old(blocks[l, i])
  {
    hide IsBlocks;
    var tmp := blocks[lane, previous];
    tmp := f.xor(tmp, blocks[r.lane, r.pos]);
    if first {
      blocks[lane, current] := tmp;
    } else {
      XorLaws(f, blocks[lane, current], tmp, f.rounds(tmp));
      blocks[lane, current] := f.xor(blocks[lane, current], tmp);
    }
    tmp := f.rounds(tmp);
    blocks[lane, current] := f.xor(blocks[lane, current], tmp);
  }

  /** The first two blocks of a lane are not computed. */
  lemma SkipGiven<B>(blocks: array2<B>, f: Blocks<B>, c: Config, init: Ref -> B, pass: nat, slice: nat, lane: nat)
    requires IsConfig(c) && Holds(blocks, f, c, init, Place(pass, slice, lane, 0))
    ensures Holds(blocks, f, c, init, Place(pass, slice, lane, PassOffset(pass, slice)))
  {
    var q, t := Place(pass, slice, lane, 0), Place(pass, slice, lane, PassOffset(pass, slice));
    forall l: nat, i: nat | l < c.lanes && i < 4 * c.seg
      ensures blocks[l, i] == Value(f, c, init, Count(t, c.seg, Ref(l, i)), Ref(l, i))
    {
      if PassOffset(pass, slice) == 2 && l == lane && i < 2 {
        assert Count(q, c.seg, Ref(l, i)) == 0 && Count(t, c.seg, Ref(l, i)) == 1;
      } else {
        assert Count(q, c.seg, Ref(l, i)) == Count(t, c.seg, Ref(l, i));
      }
    }
  }

  lemma SameCounts<B>(blocks: array2<B>, f: Blocks<B>, c: Config, init: Ref -> B, q: Place, t: Place)
    requires c.seg > 0 && Holds(blocks, f, c, init, q)
    requires forall l: nat, i: nat :: l < c.lanes && i < 4 * c.seg ==> Count(q, c.seg, Ref(l, i)) == Count(t, c.seg, Ref(l, i))
    ensures Holds(blocks, f, c, init, t)
  {
    hide Value, Count;
  }

  /** One block: index, reference, shuffle. */
  method FillBlock<B(!new)>(blocks: array2<B>, f: Blocks<B>, c: Config, p: Place, index_seed: nat, ghost init: Ref -> B)
    requires IsBlocks(f) && IsConfig(c) && IsPlace(p, c.lanes, c.seg) && Holds(blocks, f, c, init, p)
    requires index_seed == Seed(f, c, p, blocks[p.lane, Before(Current(p, c.seg), c.seg)])
    modifies blocks
    ensures Holds(blocks, f, c, init, p.(block := p.block + 1))
  {
    hide IsBlocks, Value, Count, Allowed, G;
    PlaceUnique(p, c.lanes, c.seg);
    var slice_offset := p.slice * c.seg;
    var current := slice_offset + p.block;
    var previous := if p.block == 0 && slice_offset == 0 then 4 * c.seg - 1 else slice_offset + p.block - 1;
    SeedFits(f, c, p, blocks[p.lane, previous]);
    var r := Reference(p, index_seed, c.lanes, c.seg);
    AllowedIsSafe(p, c.lanes, c.seg, r);
    Latest(p, c.lanes, c.seg, r);
    NextValue(f, c, init, p, blocks[p.lane, previous], r, blocks[r.lane, r.pos], blocks[p.lane, current]);
    Shuffle(blocks, f, p.pass == 0, p.lane, current, previous, r);
    forall l: nat, i: nat | l < c.lanes && i < 4 * c.seg
      ensures blocks[l, i] == Value(f, c, init, Count(p.(block := p.block + 1), c.seg, Ref(l, i)), Ref(l, i))
    {
      OneMore(p, c.lanes, c.seg, Ref(l, i));
    }
  }

  /** One segment of one lane. */
  method FillSegment<B(!new)>(blocks: array2<B>, f: Blocks<B>, c: Config, pass: nat, slice: nat, segment: nat,
                              constant_time: bool, ghost init: Ref -> B)
    requires IsBlocks(f) && IsConfig(c) && slice < 4 && segment < c.lanes
    requires constant_time == Independent(c.algorithm, pass, slice)
    requires Holds(blocks, f, c, init, Place(pass, slice, segment, 0))
    modifies blocks
    ensures Holds(blocks, f, c, init, Place(pass, slice, segment, c.seg))
  {
    hide IsBlocks, Holds, Addresses;
    var pass_offset := PassOffset(pass, slice);
    var index_block := f.pack([]);
    var index_ctr := 1;
    SkipGiven(blocks, f, c, init, pass, slice, segment);
    for block := pass_offset to c.seg
      invariant Holds(blocks, f, c, init, Place(pass, slice, segment, block))
      invariant constant_time && block > pass_offset ==>
                  index_ctr == 2 + (block - 1) / 128
                  && index_block == Addresses(f, c, pass, segment, slice, index_ctr - 1)
      invariant block == pass_offset ==> index_ctr == 1
    {
      var place := Place(pass, slice, segment, block);
      PlaceUnique(place, c.lanes, c.seg);
      var slice_offset := slice * c.seg;
      var previous := if block == 0 && slice_offset == 0 then 4 * c.seg - 1 else slice_offset + block - 1;
      Shape(blocks, f, c, init, place);
      var index_seed;
      if constant_time {
        if block == pass_offset || block % 128 == 0 {
          index_block := NextAddresses(f, c, pass, segment, slice, index_ctr);
          index_ctr := index_ctr + 1;
        }
        index_seed := f.word(index_block, block % 128);
      } else {
        index_seed := f.word(blocks[segment, previous], 0);
      }
      FillBlock(blocks, f, c, place, index_seed, init);
    }
  }

  lemma Shape<B>(blocks: array2<B>, f: Blocks<B>, c: Config, init: Ref -> B, q: Place)
    requires c.seg > 0 && Holds(blocks, f, c, init, q)
    ensures blocks.Length0 == c.lanes && blocks.Length1 == 4 * c.seg
  {
  }

  lemma NextSegment<B>(blocks: array2<B>, f: Blocks<B>, c: Config, init: Ref -> B, pass: nat, slice: nat, lane: nat)
    requires c.seg > 0 && Holds(blocks, f, c, init, Place(pass, slice, lane, c.seg))
    ensures Holds(blocks, f, c, init, Place(pass, slice, lane + 1, 0))
  {
    hide Holds;
    assert (slice + 1) * c.seg == slice * c.seg + c.seg;
    SameCounts(blocks, f, c, init, Place(pass, slice, lane, c.seg), Place(pass, slice, lane + 1, 0));
  }

  lemma NextSlice<B>(blocks: array2<B>, f: Blocks<B>, c: Config, init: Ref -> B, pass: nat, slice: nat)
    requires c.seg > 0 && Holds(blocks, f, c, init, Place(pass, slice, c.lanes, 0))
    ensures Holds(blocks, f, c, init, Place(pass, slice + 1, 0, 0))
  {
    hide Holds;
    assert (slice + 1) * c.seg == slice * c.seg + c.seg;
    SameCounts(blocks, f, c, init, Place(pass, slice, c.lanes, 0), Place(pass, slice + 1, 0, 0));
  }

  lemma NextPass<B>(blocks: array2<B>, f: Blocks<B>, c: Config, init: Ref -> B, pass: nat)
    requires c.seg > 0 && Holds(blocks, f, c, init, Place(pass, 4, 0, 0))
    ensures Holds(blocks, f, c, init, Place(pass + 1, 0, 0, 0))
  {
    hide Holds;
    SameCounts(blocks, f, c, init, Place(pass, 4, 0, 0), Place(pass + 1, 0, 0, 0));
  }

  lemma PassIsOver<B>(blocks: array2<B>, f: Blocks<B>, c: Config, init: Ref -> B, passes: nat)
    requires c.seg > 0 && Holds(blocks, f, c, init, Place(passes, 0, 0, 0))
    ensures blocks.Length0 == c.lanes && blocks.Length1 == 4 * c.seg
    ensures forall l: nat, i: nat :: l < c.lanes && i < 4 * c.seg ==> blocks[l, i] == Value(f, c, init, passes, Ref(l, i))
  {
    hide Value;
    forall l: nat, i: nat | l < c.lanes && i < 4 * c.seg ensures Count(Place(passes, 0, 0, 0), c.seg, Ref(l, i)) == passes {}
  }

  lemma NothingDone<B>(blocks: array2<B>, f: Blocks<B>, c: Config, init: Ref -> B)
    requires c.seg > 0 && blocks.Length0 == c.lanes && blocks.Length1 == 4 * c.seg
    requires forall l: nat, i: nat :: l < c.lanes && i < 4 * c.seg ==> blocks[l, i] == init(Ref(l, i))
    ensures Holds(blocks, f, c, init, Place(0, 0, 0, 0))
  {
  }

  /** The whole filling: every block has the value that the recurrence gives it after the last pass. */
  method FillMemory<B(!new)>(blocks: array2<B>, f: Blocks<B>, c: Config, ghost init: Ref -> B)
    requires IsBlocks(f) && IsConfig(c) && blocks.Length0 == c.lanes && blocks.Length1 == 4 * c.seg
    requires forall l: nat, i: nat :: l < c.lanes && i < 4 * c.seg ==> blocks[l, i] == init(Ref(l, i))
    modifies blocks
    ensures forall l: nat, i: nat :: l < c.lanes && i < 4 * c.seg ==>
              blocks[l, i] == Value(f, c, init, c.passes, Ref(l, i))
  {
    hide IsBlocks, Holds, Value;
    NothingDone(blocks, f, c, init);
    var constant_time := c.algorithm != Argon2d;
    for pass := 0 to c.passes
      invariant Holds(blocks, f, c, init, Place(pass, 0, 0, 0))
      invariant constant_time == (c.algorithm == Argon2i || (c.algorithm == Argon2id && pass == 0))
    {
      for slice := 0 to 4
        invariant Holds(blocks, f, c, init, Place(pass, slice, 0, 0))
        invariant constant_time == (c.algorithm == Argon2i || (c.algorithm == Argon2id && pass == 0 && slice <= 2))
      {
        if slice == 2 && c.algorithm == Argon2id { constant_time := false; }
        for segment := 0 to c.lanes
          invariant Holds(blocks, f, c, init, Place(pass, slice, segment, 0))
        {
          FillSegment(blocks, f, c, pass, slice, segment, constant_time, init);
          NextSegment(blocks, f, c, init, pass, slice, segment);
        }
        NextSlice(blocks, f, c, init, pass, slice);
      }
      NextPass(blocks, f, c, init, pass);
    }
    PassIsOver(blocks, f, c, init, c.passes);
  }

  /** The exclusive or of the last blocks of lanes 0 to `lane`. */
  function LastBlocks<B>(f: Blocks<B>, c: Config, init: Ref -> B, lane: nat): B
    requires c.seg > 0 && lane < c.lanes
  {
    var last := Value(f, c, init, c.passes, Ref(lane, 4 * c.seg - 1));
    if lane == 0 then last else f.xor(last, LastBlocks(f, c, init, lane - 1))
  }

  /** Filling, then folding the last blocks of all lanes into one. */
  method FinalBlock<B(!new)>(blocks: array2<B>, f: Blocks<B>, c: Config, ghost init: Ref -> B) returns (last_block: B)
    requires IsBlocks(f) && IsConfig(c) && blocks.Length0 == c.lanes && blocks.Length1 == 4 * c.seg
    requires forall l: nat, i: nat :: l < c.lanes && i < 4 * c.seg ==> blocks[l, i] == init(Ref(l, i))
    modifies blocks
    ensures last_block == LastBlocks(f, c, init, c.lanes - 1)
  {
    hide IsBlocks, Value;
    FillMemory(blocks, f, c, init);
    var last := 4 * c.seg - 1;
    for lane := 1 to c.lanes
      invariant blocks[lane - 1, last] == LastBlocks(f, c, init, lane - 1)
      invariant forall l: nat :: lane <= l < c.lanes ==> blocks[l, last] == Value(f, c, init, c.passes, Ref(l, last))
    {
      blocks[lane, last] := f.xor(blocks[lane, last], blocks[lane - 1, last]);
    }
    last_block := blocks[c.lanes - 1, last];
  }
}
