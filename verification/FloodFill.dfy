/** What a flood fill should do: cells, paths, components, and reported spans. */
module Connectivity {

  datatype Cell = Cell(y: int, x: int) {
    function Up(): Cell { Cell(y - 1, x) }
    function Down(): Cell { Cell(y + 1, x) }
    function Left(): Cell { Cell(y, x - 1) }
    function Right(): Cell { Cell(y, x + 1) }
  }

  predicate Adjacent(a: Cell, b: Cell) {
    b == a.Up() || b == a.Down() || b == a.Left() || b == a.Right()
  }

  /** A 4-connected path inside `f`. */
  ghost predicate Path(f: set<Cell>, p: seq<Cell>) {
    && |p| > 0
    && (forall i :: 0 <= i < |p| ==> p[i] in f)
    && (forall i :: 0 < i < |p| ==> Adjacent(p[i - 1], p[i]))
  }

  ghost predicate Connected(f: set<Cell>, a: Cell, b: Cell) {
    exists p: seq<Cell> :: Path(f, p) && p[0] == a && p[|p| - 1] == b
  }

  /** The connected component of `a` in `f`. */
  ghost function Component(f: set<Cell>, a: Cell): set<Cell> {
    set c | c in f && Connected(f, a, c)
  }

  lemma ConnectedSelf(f: set<Cell>, a: Cell)
    requires a in f
    ensures Connected(f, a, a)
  {
    assert Path(f, [a]);
  }

  lemma ConnectedStep(f: set<Cell>, a: Cell, b: Cell, c: Cell)
    requires Connected(f, a, b) && c in f && Adjacent(b, c)
    ensures Connected(f, a, c)
  {
    var p: seq<Cell> :| Path(f, p) && p[0] == a && p[|p| - 1] == b;
    var q := p + [c];
    assert forall i :: 0 < i < |q| ==> Adjacent(q[i - 1], q[i]);
    assert Path(f, q);
  }

  /** Nothing of `f` touches `d` from outside. */
  ghost predicate Closed(f: set<Cell>, d: set<Cell>) {
    forall b, c :: b in d && c in f && Adjacent(b, c) ==> c in d
  }

  lemma ComponentIs(f: set<Cell>, d: set<Cell>, a: Cell)
    requires a in d && d <= f && Closed(f, d)
    requires forall c :: c in d ==> Connected(f, a, c)
    ensures d == Component(f, a)
  {
    forall c | c in Component(f, a)
      ensures c in d
    {
      var p: seq<Cell> :| Path(f, p) && p[0] == a && p[|p| - 1] == c;
      PathStays(f, d, p, |p| - 1);
    }
  }

  lemma {:induction false} PathStays(f: set<Cell>, d: set<Cell>, p: seq<Cell>, i: nat)
    requires Path(f, p) && p[0] in d && Closed(f, d) && i < |p|
    ensures p[i] in d
  {
    if i > 0 {
      PathStays(f, d, p, i - 1);
      assert Adjacent(p[i - 1], p[i]);
    }
  }

  // ---------- runs and spans ----------

  function Run(y: int, left: int, right: int): set<Cell> {
    set x | left <= x <= right :: Cell(y, x)
  }

  lemma {:induction false} RunConnected(f: set<Cell>, a: Cell, y: int, left: int, right: int, x: int, z: int)
    requires Run(y, left, right) <= f && left <= x <= right && left <= z <= right
    requires Connected(f, a, Cell(y, x))
    ensures Connected(f, a, Cell(y, z))
    decreases if z < x then x - z else z - x
  {
    if z < x {
      RunConnected(f, a, y, left, right, x, z + 1);
      ConnectedStep(f, a, Cell(y, z + 1), Cell(y, z));
    } else if z > x {
      RunConnected(f, a, y, left, right, x, z - 1);
      ConnectedStep(f, a, Cell(y, z - 1), Cell(y, z));
    }
  }

  datatype Span = Span(y: int, left: int, right: int) {
    function Cells(): set<Cell> { Run(y, left, right) }
  }

  ghost function Union(spans: seq<Span>): set<Cell> {
    if spans == [] then {} else Union(spans[..|spans| - 1]) + spans[|spans| - 1].Cells()
  }

  /** No cell lies in two of the spans. */
  ghost predicate Disjoint(spans: seq<Span>) {
    forall i, j :: 0 <= i < j < |spans| ==> spans[i].Cells() !! spans[j].Cells()
  }

  /** The count that area_count accumulates over the spans reported to it. */
  function AreaCount(spans: seq<Span>): int {
    if spans == [] then 0
    else var s := spans[|spans| - 1]; AreaCount(spans[..|spans| - 1]) + (s.right - s.left + 1)
  }

  lemma {:induction false} RunSize(y: int, left: int, right: int)
    requires left <= right + 1
    ensures |Run(y, left, right)| == right - left + 1
    decreases right - left + 1
  {
    if left <= right {
      RunSize(y, left, right - 1);
      assert Run(y, left, right) == Run(y, left, right - 1) + {Cell(y, right)};
    } else {
      assert Run(y, left, right) == {};
    }
  }

  lemma {:induction false} MemberOfUnion(spans: seq<Span>, i: nat)
    requires i < |spans|
    ensures spans[i].Cells() <= Union(spans)
  {
    if i < |spans| - 1 { MemberOfUnion(spans[..|spans| - 1], i); }
  }

  lemma {:induction false} UnionMember(spans: seq<Span>, c: Cell) returns (i: nat)
    requires c in Union(spans)
    ensures i < |spans| && c in spans[i].Cells()
  {
    var n := |spans| - 1;
    if c in spans[n].Cells() { i := n; } else { i := UnionMember(spans[..n], c); }
  }

  /** With spans that do not overlap, the accumulated area is the number of cells. */
  lemma {:induction false} AreaIsSize(spans: seq<Span>)
    requires Disjoint(spans) && forall i :: 0 <= i < |spans| ==> spans[i].left <= spans[i].right
    ensures AreaCount(spans) == |Union(spans)|
  {
    if spans != [] {
      var n := |spans| - 1;
      var s := spans[n];
      AreaIsSize(spans[..n]);
      RunSize(s.y, s.left, s.right);
      forall c | c in Union(spans[..n])
        ensures c !in s.Cells()
      {
        var i := UnionMember(spans[..n], c);
        assert spans[i].Cells() !! spans[n].Cells();
      }
      assert Union(spans[..n]) !! s.Cells();
    }
  }
}

/** The span flood fill with an explicit, bounded stack (`identify.c`). */
module FloodFill {
  import opened Connectivity

  /** One flood_fill_vars record: a filled run and how far its upper and lower sides have been searched. */
  datatype Vars = Vars(y: int, right: int, left_up: int, left_down: int)

  ghost predicate AwaitsUp(frames: seq<Vars>, c: Cell) {
    exists k :: 0 <= k < |frames| && frames[k].y == c.y && frames[k].left_up <= c.x <= frames[k].right
  }

  ghost predicate AwaitsDown(frames: seq<Vars>, c: Cell) {
    exists k :: 0 <= k < |frames| && frames[k].y == c.y && frames[k].left_down <= c.x <= frames[k].right
  }

  /** Every filled cell with an unfilled neighbour above or below is still to be looked at by some frame. */
  ghost predicate Covered(f: set<Cell>, d: set<Cell>, frames: seq<Vars>) {
    && (forall c :: c in d && c.Up() in f - d ==> AwaitsUp(frames, c))
    && (forall c :: c in d && c.Down() in f - d ==> AwaitsDown(frames, c))
  }

  ghost predicate SidesClosed(f: set<Cell>, d: set<Cell>) {
    forall c :: c in d ==> c.Left() !in f - d && c.Right() !in f - d
  }

  /** The part of a frame's run not yet searched is filled. */
  ghost predicate FrameOf(v: Vars, d: set<Cell>) {
    && (forall x :: v.left_up <= x <= v.right ==> Cell(v.y, x) in d)
    && (forall x :: v.left_down <= x <= v.right ==> Cell(v.y, x) in d)
  }

  /** The reported spans are the filled cells, each in one span. */
  ghost predicate Reported(d: set<Cell>, spans: seq<Span>) {
    && Union(spans) == d && Disjoint(spans)
    && (forall i :: 0 <= i < |spans| ==> spans[i].left <= spans[i].right)
  }

  ghost predicate AllConnected(f: set<Cell>, d: set<Cell>, seed: Cell) {
    forall c :: c in d ==> Connected(f, seed, c)
  }

  ghost predicate FramesOf(frames: seq<Vars>, d: set<Cell>) {
    forall k :: 0 <= k < |frames| ==> FrameOf(frames[k], d)
  }

  /** What holds between any two steps of the fill. */
  ghost predicate Filling(f: set<Cell>, d: set<Cell>, seed: Cell, frames: seq<Vars>, spans: seq<Span>) {
    && d <= f && seed in d && AllConnected(f, d, seed)
    && SidesClosed(f, d) && Covered(f, d, frames) && FramesOf(frames, d) && Reported(d, spans)
  }

  /** A maximal run of unfilled cells around `x`. */
  ghost predicate MaximalRun(rest: set<Cell>, y: int, left: int, right: int, x: int) {
    && left <= x <= right && Run(y, left, right) <= rest
    && Cell(y, left - 1) !in rest && Cell(y, right + 1) !in rest
  }

  /** A horizontal run of `f` that cannot be extended. */
  ghost predicate RunOf(f: set<Cell>, s: Span) {
    s.left <= s.right && s.Cells() <= f && Cell(s.y, s.left - 1) !in f && Cell(s.y, s.right + 1) !in f
  }

  /** Runs in neighbouring rows with a column in common. */
  predicate Touch(s: Span, t: Span) {
    (t.y == s.y - 1 || t.y == s.y + 1) && s.left <= t.right && t.left <= s.right
  }

  /** Different runs of `f`, the first one through the seed, each touching the one before. */
  ghost predicate Chain(f: set<Cell>, seed: Cell, chain: seq<Span>) {
    && |chain| > 0 && chain[0].y == seed.y && chain[0].left <= seed.x <= chain[0].right
    && (forall i :: 0 <= i < |chain| ==> RunOf(f, chain[i]))
    && (forall i :: 0 < i < |chain| ==> Touch(chain[i - 1], chain[i]))
    && (forall i, j :: 0 <= i < j < |chain| ==> chain[i] != chain[j])
  }

  /** A cursor may have moved on; the run is the same. */
  predicate Advanced(v: Vars, v': Vars) {
    v'.y == v.y && v'.right == v.right && v'.left_up >= v.left_up && v'.left_down >= v.left_down
  }

  /** The run was found beyond one of the frame's cursors. */
  predicate FoundFrom(v: Vars, s: Span) {
    || (s.y == v.y - 1 && s.left <= v.left_up <= s.right && v.left_up <= v.right)
    || (s.y == v.y + 1 && s.left <= v.left_down <= s.right && v.left_down <= v.right)
  }

  /** A frame belongs to a run. */
  predicate FrameFor(v: Vars, s: Span) {
    v.y == s.y && v.right == s.right && s.left <= v.left_up && s.left <= v.left_down
  }

  /** The frames belong to a chain of reported runs. */
  ghost predicate Stacked(f: set<Cell>, seed: Cell, chain: seq<Span>, frames: seq<Vars>, spans: seq<Span>) {
    && Chain(f, seed, chain) && |chain| == |frames|
    && forall i :: 0 <= i < |chain| ==> FrameFor(frames[i], chain[i]) && chain[i] in spans
  }

  /** A maximal run of what is left is a maximal run of all. */
  lemma RunOfAll(f: set<Cell>, d: set<Cell>, y: int, left: int, right: int, x: int)
    requires d <= f && SidesClosed(f, d) && MaximalRun(f - d, y, left, right, x)
    ensures RunOf(f, Span(y, left, right))
  {
    assert Cell(y, left) in Run(y, left, right) && Cell(y, right) in Run(y, left, right);
    assert Cell(y, left - 1).Right() == Cell(y, left) && Cell(y, right + 1).Left() == Cell(y, right);
  }

  /** The chain grows by a run found from its last frame. */
  lemma StackMore(f: set<Cell>, seed: Cell, chain: seq<Span>, frames: seq<Vars>, spans: seq<Span>, v: Vars, s: Span)
    requires Stacked(f, seed, chain, frames, spans) && Advanced(frames[|frames| - 1], v) && FoundFrom(v, s)
    requires RunOf(f, s) && s !in spans
    ensures Stacked(f, seed, chain + [s], frames[|frames| - 1 := v] + [Vars(s.y, s.right, s.left, s.left)], spans + [s])
  {
    hide RunOf;
    var all := chain + [s];
    assert forall i :: 0 <= i < |chain| ==> all[i] == chain[i];
  }

  /** Dropping frames and moving cursors leaves a chain. */
  lemma StackFewer(f: set<Cell>, seed: Cell, chain: seq<Span>, frames: seq<Vars>, spans: seq<Span>, k: nat)
    requires Stacked(f, seed, chain, frames, spans) && 0 < k <= |frames|
    ensures k <= |chain| && Stacked(f, seed, chain[..k], frames[..k], spans)
  {
    hide RunOf;
  }

  lemma StackMoved(f: set<Cell>, seed: Cell, chain: seq<Span>, frames: seq<Vars>, spans: seq<Span>, v: Vars)
    requires Stacked(f, seed, chain, frames, spans) && Advanced(frames[|frames| - 1], v)
    ensures Stacked(f, seed, chain, frames[|frames| - 1 := v], spans)
  {
  }

  lemma StackStart(f: set<Cell>, seed: Cell, left: int, right: int)
    requires MaximalRun(f, seed.y, left, right, seed.x)
    ensures var s := Span(seed.y, left, right); Stacked(f, seed, [s], [Vars(seed.y, right, left, left)], [s])
  {
  }

  /** A run of what is left has not been reported. */
  lemma NotReported(d: set<Cell>, spans: seq<Span>, s: Span)
    requires Reported(d, spans) && s.left <= s.right && s.Cells() !! d
    ensures s !in spans
  {
    assert Cell(s.y, s.left) in s.Cells();
    if s in spans { ReportedIn(d, spans, s); }
  }

  lemma ReportedIn(d: set<Cell>, spans: seq<Span>, s: Span)
    requires Reported(d, spans) && s in spans
    ensures s.Cells() <= d
  {
    var i :| 0 <= i < |spans| && spans[i] == s;
    MemberOfUnion(spans, i);
  }

  lemma PushConnected(f: set<Cell>, d: set<Cell>, seed: Cell, y: int, left: int, right: int, x: int)
    requires AllConnected(f, d, seed) && MaximalRun(f - d, y, left, right, x) && Connected(f, seed, Cell(y, x))
    ensures AllConnected(f, d + Run(y, left, right), seed)
  {
    hide Connected;
    forall c | c in Run(y, left, right)
      ensures Connected(f, seed, c)
    {
      RunConnected(f, seed, y, left, right, x, c.x);
    }
  }

  lemma PushSides(f: set<Cell>, d: set<Cell>, y: int, left: int, right: int, x: int)
    requires SidesClosed(f, d) && MaximalRun(f - d, y, left, right, x)
    ensures SidesClosed(f, d + Run(y, left, right))
  {
    var d' := d + Run(y, left, right);
    forall c | c in d'
      ensures c.Left() !in f - d' && c.Right() !in f - d'
    {
      if c !in d {
        assert c == Cell(y, c.x) && left <= c.x <= right;
      }
    }
  }

  lemma PushReported(d: set<Cell>, spans: seq<Span>, y: int, left: int, right: int)
    requires Reported(d, spans) && left <= right && d !! Run(y, left, right)
    ensures Reported(d + Run(y, left, right), spans + [Span(y, left, right)])
  {
    hide Run;
    var s := Span(y, left, right);
    var spans' := spans + [s];
    assert spans'[..|spans|] == spans;
    forall i | 0 <= i < |spans|
      ensures spans[i].Cells() !! s.Cells()
    {
      MemberOfUnion(spans, i);
    }
    assert forall i :: 0 <= i < |spans'| ==> spans'[i] == if i < |spans| then spans[i] else s;
  }

  lemma PushFrames(frames: seq<Vars>, d: set<Cell>, y: int, left: int, right: int)
    requires FramesOf(frames, d)
    ensures FramesOf(frames + [Vars(y, right, left, left)], d + Run(y, left, right))
  {
  }

  lemma FirstRun(f: set<Cell>, seed: Cell, left: int, right: int)
    requires MaximalRun(f, seed.y, left, right, seed.x)
    ensures Filling(f, Run(seed.y, left, right), seed, [Vars(seed.y, right, left, left)], [Span(seed.y, left, right)])
  {
    hide Connected, Covered, AllConnected, SidesClosed, FramesOf, Reported;
    var d := Run(seed.y, left, right);
    assert f - {} == f && {} + d == d;
    assert [] + [Vars(seed.y, right, left, left)] == [Vars(seed.y, right, left, left)];
    assert [] + [Span(seed.y, left, right)] == [Span(seed.y, left, right)];
    NothingFilled(f, seed);
    ConnectedSelf(f, seed);
    PushConnected(f, {}, seed, seed.y, left, right, seed.x);
    PushSides(f, {}, seed.y, left, right, seed.x);
    PushCovers(f, {}, [], seed.y, left, right);
    PushFrames([], {}, seed.y, left, right);
    PushReported({}, [], seed.y, left, right);
  }

  lemma NothingFilled(f: set<Cell>, seed: Cell)
    ensures AllConnected(f, {}, seed) && SidesClosed(f, {}) && Covered(f, {}, []) && FramesOf([], {}) && Reported({}, [])
  {
  }

  /** Filling the run above or below a frame and pushing a frame for it. */
  lemma PushRun(f: set<Cell>, d: set<Cell>, seed: Cell, frames: seq<Vars>, spans: seq<Span>,
                from: Cell, y: int, left: int, right: int)
    requires Filling(f, d, seed, frames, spans)
    requires from in d && (y == from.y - 1 || y == from.y + 1)
    requires MaximalRun(f - d, y, left, right, from.x)
    ensures Filling(f, d + Run(y, left, right), seed, frames + [Vars(y, right, left, left)], spans + [Span(y, left, right)])
  {
    hide Connected, Covered, SidesClosed, FramesOf, Reported;
    assert Cell(y, from.x) in Run(y, left, right);
    assert Cell(y, from.x) == if y == from.y - 1 then from.Up() else from.Down();
    ConnectedStep(f, seed, from, Cell(y, from.x));
    PushConnected(f, d, seed, y, left, right, from.x);
    PushSides(f, d, y, left, right, from.x);
    PushCovers(f, d, frames, y, left, right);
    PushFrames(frames, d, y, left, right);
    PushReported(d, spans, y, left, right);
  }

  lemma PushCovers(f: set<Cell>, d: set<Cell>, frames: seq<Vars>, y: int, left: int, right: int)
    requires Covered(f, d, frames)
    ensures Covered(f, d + Run(y, left, right), frames + [Vars(y, right, left, left)])
  {
    var d' := d + Run(y, left, right);
    var frames' := frames + [Vars(y, right, left, left)];
    assert frames'[|frames|] == Vars(y, right, left, left);
    forall c | c in d' && c.Up() in f - d'
      ensures AwaitsUp(frames', c)
    {
      if c in d {
        assert AwaitsUp(frames, c);
        var k :| 0 <= k < |frames| && frames[k].y == c.y && frames[k].left_up <= c.x <= frames[k].right;
        assert frames'[k] == frames[k];
      }
    }
    forall c | c in d' && c.Down() in f - d'
      ensures AwaitsDown(frames', c)
    {
      if c in d {
        assert AwaitsDown(frames, c);
        var k :| 0 <= k < |frames| && frames[k].y == c.y && frames[k].left_down <= c.x <= frames[k].right;
        assert frames'[k] == frames[k];
      }
    }
  }

  /** Moving a cursor past cells with nothing left to fill beyond them. */
  lemma Advance(f: set<Cell>, d: set<Cell>, frames: seq<Vars>, k: nat, v: Vars)
    requires Covered(f, d, frames) && k < |frames|
    requires v.y == frames[k].y && v.right == frames[k].right
    requires forall c: Cell :: c.y == v.y && frames[k].left_up <= c.x < v.left_up ==> c.Up() !in f - d
    requires forall c: Cell :: c.y == v.y && frames[k].left_down <= c.x < v.left_down ==> c.Down() !in f - d
    ensures Covered(f, d, frames[k := v])
  {
    var frames' := frames[k := v];
    forall c | c in d && c.Up() in f - d
      ensures AwaitsUp(frames', c)
    {
      assert AwaitsUp(frames, c);
      var j :| 0 <= j < |frames| && frames[j].y == c.y && frames[j].left_up <= c.x <= frames[j].right;
      assert frames'[j].y == c.y && frames'[j].left_up <= c.x <= frames'[j].right;
    }
    forall c | c in d && c.Down() in f - d
      ensures AwaitsDown(frames', c)
    {
      assert AwaitsDown(frames, c);
      var j :| 0 <= j < |frames| && frames[j].y == c.y && frames[j].left_down <= c.x <= frames[j].right;
      assert frames'[j].y == c.y && frames'[j].left_down <= c.x <= frames'[j].right;
    }
  }

  /** Dropping a frame with both sides searched. */
  lemma Pop(f: set<Cell>, d: set<Cell>, frames: seq<Vars>)
    requires Covered(f, d, frames) && |frames| > 0
    requires var v := frames[|frames| - 1];
             && (v.left_up > v.right || forall c: Cell :: c.y == v.y ==> c.Up() !in f)
             && (v.left_down > v.right || forall c: Cell :: c.y == v.y ==> c.Down() !in f)
    ensures Covered(f, d, frames[..|frames| - 1])
  {
    var n := |frames| - 1;
    forall c | c in d && c.Up() in f - d
      ensures AwaitsUp(frames[..n], c)
    {
      assert AwaitsUp(frames, c);
      var j :| 0 <= j < |frames| && frames[j].y == c.y && frames[j].left_up <= c.x <= frames[j].right;
      assert frames[..n][j] == frames[j];
    }
    forall c | c in d && c.Down() in f - d
      ensures AwaitsDown(frames[..n], c)
    {
      assert AwaitsDown(frames, c);
      var j :| 0 <= j < |frames| && frames[j].y == c.y && frames[j].left_down <= c.x <= frames[j].right;
      assert frames[..n][j] == frames[j];
    }
  }

  /** With no frame left the filled cells are the whole component. */
  lemma Finished(f: set<Cell>, d: set<Cell>, seed: Cell, spans: seq<Span>)
    requires Filling(f, d, seed, [], spans)
    ensures d == Component(f, seed)
  {
    forall b, c | b in d && c in f && Adjacent(b, c)
      ensures c in d
    {
      assert !AwaitsUp([], b) && !AwaitsDown([], b);
    }
    ComponentIs(f, d, seed);
  }

  class Quirc {
    const pixels: array2<int>
    const flood_fill_vars: array<Vars>
    /** The calls of the span function by the fill in progress, in order. */
    var spans: seq<Span>

    constructor (pixels: array2<int>, flood_fill_vars: array<Vars>)
      ensures this.pixels == pixels && this.flood_fill_vars == flood_fill_vars && spans == []
    {
      this.pixels, this.flood_fill_vars, spans := pixels, flood_fill_vars, [];
    }

    ghost predicate InImage(c: Cell) {
      0 <= c.y < pixels.Length0 && 0 <= c.x < pixels.Length1
    }

    ghost function Pixel(c: Cell): int
      requires InImage(c)
      reads pixels
    {
      pixels[c.y, c.x]
    }

    /** The cells of colour `from`. */
    ghost function Area(from: int): set<Cell>
      reads pixels
    {
      set y, x | 0 <= y < pixels.Length0 && 0 <= x < pixels.Length1 && pixels[y, x] == from :: Cell(y, x)
    }

    lemma AreaIs(from: int)
      ensures forall c :: c in Area(from) <==> InImage(c) && Pixel(c) == from
    {
    }

    /** Fills the maximal run of `from` pixels around (x, y) and reports it. */
    method FloodFillLine(x: int, y: int, from: int, to: int) returns (left: int, right: int)
      requires InImage(Cell(y, x)) && pixels[y, x] == from && from != to
      modifies pixels, this`spans
      ensures 0 <= left <= right < pixels.Length1
      ensures MaximalRun(old(Area(from)), y, left, right, x)
      ensures Area(from) == old(Area(from)) - Run(y, left, right)
      ensures forall c :: InImage(c) ==> Pixel(c) == if c in Run(y, left, right) then to else old(Pixel(c))
      ensures spans == old(spans) + [Span(y, left, right)]
    {
      AreaIs(from);
      ghost var rest := Area(from);
      left, right := x, x;
      while left > 0 && pixels[y, left - 1] == from
        invariant 0 <= left <= x
        invariant forall i :: left <= i <= x ==> pixels[y, i] == from
      {
        left := left - 1;
      }
      while right < pixels.Length1 - 1 && pixels[y, right + 1] == from
        invariant x <= right < pixels.Length1
        invariant forall i :: x <= i <= right ==> pixels[y, i] == from
      {
        right := right + 1;
      }
      assert forall i :: left <= i <= right ==> InImage(Cell(y, i)) && Pixel(Cell(y, i)) == from;
      assert left > 0 ==> Pixel(Cell(y, left - 1)) != from;
      assert right < pixels.Length1 - 1 ==> Pixel(Cell(y, right + 1)) != from;
      assert MaximalRun(rest, y, left, right, x);
      for i := left to right + 1
        invariant spans == old(spans)
        invariant forall c :: InImage(c) ==> Pixel(c) == if c in Run(y, left, i - 1) then to else old(Pixel(c))
      {
        pixels[y, i] := to;
      }
      AreaIs(from);
      assert Area(from) == rest - Run(y, left, right);
      spans := spans + [Span(y, left, right)];
    }

    /** The frames in use, bottom first. */
    ghost function Frames(n: nat): seq<Vars>
      requires n <= flood_fill_vars.Length
      reads flood_fill_vars
    {
      flood_fill_vars[..n]
    }

    /** The fill so far: `d` has turned from `from` to `to`, everything else is as it was. */
    ghost predicate State(f: set<Cell>, d: set<Cell>, seed: Cell, n: nat, from: int)
      reads this, pixels, flood_fill_vars
    {
      && n <= flood_fill_vars.Length
      && Area(from) == f - d
      && Filling(f, d, seed, Frames(n), spans)
      && (forall c :: c in f ==> InImage(c))
      && (forall k :: 0 <= k < n ==> InRange(flood_fill_vars[k]))
    }

    ghost predicate InRange(v: Vars) {
      0 <= v.y < pixels.Length0 && 0 <= v.left_up && 0 <= v.left_down && v.right < pixels.Length1
    }

    /** Slot `k` holds the run reported last, with both sides still to be searched. */
    ghost predicate HoldsLastRun(k: nat)
      requires k < flood_fill_vars.Length
      reads this, flood_fill_vars
    {
      && |spans| > 0
      && var s := spans[|spans| - 1]; flood_fill_vars[k] == Vars(s.y, s.right, s.left, s.left)
    }

    /** One more run was reported, a maximal one, found from slot `k`. */
    ghost predicate NewRun(k: nat, f: set<Cell>, before: seq<Span>)
      requires k < flood_fill_vars.Length
      reads this, flood_fill_vars
    {
      && |spans| == |before| + 1 && spans[..|before|] == before
      && var s := spans[|before|]; RunOf(f, s) && FoundFrom(flood_fill_vars[k], s) && s !in before
    }

    /** The search position on one side of a frame. */
    function Cursor(v: Vars, direction: int): int {
      if direction < 0 then v.left_up else v.left_down
    }

    /** Steps a cursor past a pixel that needs no filling. */
    method Skip(k: nat, direction: int, from: int, ghost f: set<Cell>, ghost d: set<Cell>, ghost seed: Cell)
      requires State(f, d, seed, k + 1, from) && (direction == -1 || direction == 1)
      requires var v := flood_fill_vars[k];
               0 <= v.y + direction < pixels.Length0 && Cursor(v, direction) <= v.right
               && pixels[v.y + direction, Cursor(v, direction)] != from
      modifies flood_fill_vars
      ensures State(f, d, seed, k + 1, from)
      ensures var v, v' := old(flood_fill_vars[k]), flood_fill_vars[k];
              v' == if direction < 0 then v.(left_up := v.left_up + 1) else v.(left_down := v.left_down + 1)
      ensures forall j :: 0 <= j < flood_fill_vars.Length && j != k ==> flood_fill_vars[j] == old(flood_fill_vars[j])
    {
      hide Filling;
      ghost var v := flood_fill_vars[k];
      ghost var frames := Frames(k + 1);
      AreaIs(from);
      assert Cell(v.y + direction, Cursor(v, direction)) !in Area(from);
      if direction < 0 {
        flood_fill_vars[k] := flood_fill_vars[k].(left_up := flood_fill_vars[k].left_up + 1);
      } else {
        flood_fill_vars[k] := flood_fill_vars[k].(left_down := flood_fill_vars[k].left_down + 1);
      }
      SkipKeeps(f, d, seed, frames, k, flood_fill_vars[k], spans);
      assert Frames(k + 1) == frames[k := flood_fill_vars[k]];
    }

    /** Fills the run found beyond a frame's cursor and sets up the frame above for it. */
    method Enter(k: nat, direction: int, from: int, to: int, ghost f: set<Cell>, ghost d: set<Cell>, ghost seed: Cell)
      returns (ghost d': set<Cell>)
      requires pixels as object != flood_fill_vars && from != to && k + 1 < flood_fill_vars.Length
      requires State(f, d, seed, k + 1, from) && (direction == -1 || direction == 1)
      requires var v := flood_fill_vars[k];
               0 <= v.y + direction < pixels.Length0 && Cursor(v, direction) <= v.right
               && pixels[v.y + direction, Cursor(v, direction)] == from
      modifies pixels, flood_fill_vars, this`spans
      ensures State(f, d', seed, k + 2, from) && d < d' <= f
      ensures |spans| == |old(spans)| + 1 && HoldsLastRun(k + 1) && NewRun(k, f, old(spans))
      ensures forall j :: 0 <= j < flood_fill_vars.Length && j != k + 1 ==> flood_fill_vars[j] == old(flood_fill_vars[j])
      ensures forall c :: InImage(c) ==> Pixel(c) == if c in d' - d then to else old(Pixel(c))
    {
      hide Covered, SidesClosed, AllConnected, Reported, MaximalRun;
      ghost var v := flood_fill_vars[k];
      ghost var frames, reported := Frames(k + 1), spans;
      var x, y := Cursor(flood_fill_vars[k], direction), flood_fill_vars[k].y + direction;
      ghost var source := Cell(v.y, x);
      assert FrameOf(frames[k], d);
      var left, right := FloodFillLine(x, y, from, to);
      flood_fill_vars[k + 1] := Vars(y, right, left, left);
      d' := d + Run(y, left, right);
      RunFits(f - d, y, left, right, x);
      RunOfAll(f, d, y, left, right, x);
      NotReported(d, reported, Span(y, left, right));
      PushRun(f, d, seed, frames, reported, source, y, left, right);
      assert Frames(k + 2) == frames + [Vars(y, right, left, left)];
      assert f - d' == f - d - Run(y, left, right);
      assert d' - d == Run(y, left, right);
    }

    /** Looks along one side of a frame's run for the next unfilled pixel and enters its run. */
    method FloodFillCallNext(k: nat, direction: int, from: int, to: int,
                             ghost f: set<Cell>, ghost d: set<Cell>, ghost seed: Cell)
      returns (found: bool, ghost d': set<Cell>)
      requires pixels as object != flood_fill_vars && from != to && k + 1 < flood_fill_vars.Length
      requires State(f, d, seed, k + 1, from) && (direction == -1 || direction == 1)
      requires 0 <= flood_fill_vars[k].y + direction < pixels.Length0
      modifies pixels, flood_fill_vars, this`spans
      ensures State(f, d', seed, if found then k + 2 else k + 1, from) && d <= d' <= f
      ensures found ==> d != d' && |spans| == |old(spans)| + 1 && HoldsLastRun(k + 1) && NewRun(k, f, old(spans))
      ensures Advanced(old(flood_fill_vars[k]), flood_fill_vars[k])
      ensures forall j :: 0 <= j < flood_fill_vars.Length && j != k && (found ==> j != k + 1) ==>
                flood_fill_vars[j] == old(flood_fill_vars[j])
      ensures !found ==> d == d' && spans == old(spans) && Cursor(flood_fill_vars[k], direction) > flood_fill_vars[k].right
      ensures !found ==> var v, v' := old(flood_fill_vars[k]), flood_fill_vars[k];
                         v'.y == v.y && v'.right == v.right && Cursor(v', -direction) == Cursor(v, -direction)
      ensures forall c :: InImage(c) ==> Pixel(c) == if c in d' - d then to else old(Pixel(c))
    {
      hide Filling;
      d' := d;
      assert d <= f by { FillingMeans(f, d, seed, Frames(k + 1), spans); }
      while Cursor(flood_fill_vars[k], direction) <= flood_fill_vars[k].right
        invariant State(f, d, seed, k + 1, from) && spans == old(spans)
        invariant forall c :: InImage(c) ==> Pixel(c) == old(Pixel(c))
        invariant var v, v' := old(flood_fill_vars[k]), flood_fill_vars[k];
                  v'.y == v.y && v'.right == v.right && Cursor(v', -direction) == Cursor(v, -direction)
        invariant Advanced(old(flood_fill_vars[k]), flood_fill_vars[k])
        invariant forall j :: 0 <= j < flood_fill_vars.Length && j != k ==> flood_fill_vars[j] == old(flood_fill_vars[j])
        decreases flood_fill_vars[k].right - Cursor(flood_fill_vars[k], direction)
      {
        if pixels[flood_fill_vars[k].y + direction, Cursor(flood_fill_vars[k], direction)] == from {
          d' := Enter(k, direction, from, to, f, d, seed);
          return true, d';
        }
        Skip(k, direction, from, f, d, seed);
      }
      found := false;
    }

    /** Searches above the run, then below it, where the image has such rows. */
    method SearchSides(k: nat, from: int, to: int, ghost f: set<Cell>, ghost d: set<Cell>, ghost seed: Cell)
      returns (found: bool, ghost d': set<Cell>)
      requires pixels as object != flood_fill_vars && from != to && k + 1 < flood_fill_vars.Length
      requires State(f, d, seed, k + 1, from) && d <= f
      modifies pixels, flood_fill_vars, this`spans
      ensures State(f, d', seed, if found then k + 2 else k + 1, from) && d <= d' <= f
      ensures found ==> d != d' && |spans| == |old(spans)| + 1 && HoldsLastRun(k + 1) && NewRun(k, f, old(spans))
      ensures Advanced(old(flood_fill_vars[k]), flood_fill_vars[k])
      ensures forall j :: 0 <= j < flood_fill_vars.Length && j != k && (found ==> j != k + 1) ==>
                flood_fill_vars[j] == old(flood_fill_vars[j])
      ensures !found ==> d == d' && spans == old(spans)
      ensures !found ==> var v := flood_fill_vars[k];
                         && (v.left_up > v.right || v.y == 0)
                         && (v.left_down > v.right || v.y == pixels.Length0 - 1)
      ensures forall c :: InImage(c) ==> Pixel(c) == if c in d' - d then to else old(Pixel(c))
    {
      hide Filling;
      found, d' := false, d;
      if flood_fill_vars[k].y > 0 {
        found, d' := FloodFillCallNext(k, -1, from, to, f, d, seed);
        if found { return; }
      }
      if flood_fill_vars[k].y < pixels.Length0 - 1 {
        found, d' := FloodFillCallNext(k, 1, from, to, f, d, seed);
      }
    }

    /** Searches both sides of the top frame; what is found extends the chain of runs on the stack. */
    method SearchTop(k: nat, from: int, to: int, ghost f: set<Cell>, ghost d: set<Cell>, ghost seed: Cell, ghost chain: seq<Span>)
      returns (found: bool, ghost d': set<Cell>, ghost chain': seq<Span>)
      requires pixels as object != flood_fill_vars && from != to && k + 1 < flood_fill_vars.Length
      requires State(f, d, seed, k + 1, from) && d <= f && Stacked(f, seed, chain, Frames(k + 1), spans)
      modifies pixels, flood_fill_vars, this`spans
      ensures State(f, d', seed, if found then k + 2 else k + 1, from) && d <= d' <= f
      ensures Stacked(f, seed, chain', Frames(if found then k + 2 else k + 1), spans)
      ensures found ==> d != d' && |spans| == |old(spans)| + 1 && HoldsLastRun(k + 1)
      ensures forall j :: 0 <= j < flood_fill_vars.Length && j != k && (found ==> j != k + 1) ==>
                flood_fill_vars[j] == old(flood_fill_vars[j])
      ensures !found ==> d == d' && spans == old(spans)
      ensures !found ==> var v := flood_fill_vars[k];
                         && (v.left_up > v.right || v.y == 0)
                         && (v.left_down > v.right || v.y == pixels.Length0 - 1)
      ensures forall c :: InImage(c) ==> Pixel(c) == if c in d' - d then to else old(Pixel(c))
    {
      hide Filling, Chain, RunOf, FrameFor, FoundFrom, Advanced;
      ghost var frames, reported := Frames(k + 1), spans;
      chain' := chain;
      found, d' := SearchSides(k, from, to, f, d, seed);
      if found {
        ghost var s := spans[|reported|];
        StackMore(f, seed, chain, frames, reported, flood_fill_vars[k], s);
        assert Frames(k + 2) == frames[k := flood_fill_vars[k]] + [Vars(s.y, s.right, s.left, s.left)];
        assert spans == reported + [s];
        chain' := chain + [s];
      } else {
        StackMoved(f, seed, chain, frames, spans, flood_fill_vars[k]);
        assert Frames(k + 1) == frames[k := flood_fill_vars[k]];
      }
    }

    /** A frame with both sides searched can go. */
    lemma PopFrame(f: set<Cell>, d: set<Cell>, seed: Cell, k: nat, from: int)
      requires State(f, d, seed, k + 1, from)
      requires var v := flood_fill_vars[k];
               && (v.left_up > v.right || v.y == 0)
               && (v.left_down > v.right || v.y == pixels.Length0 - 1)
      ensures State(f, d, seed, k, from)
    {
      hide Filling;
      AreaIs(from);
      var frames := Frames(k + 1);
      assert frames[k] == flood_fill_vars[k];
      PopKeeps(f, d, seed, frames, spans);
      assert Frames(k) == frames[..k];
    }

    /** The slots in use hold the runs of the chain, from the seed's run on. */
    ghost predicate OnStack(chain: seq<Span>)
      reads this, flood_fill_vars
    {
      && |chain| <= flood_fill_vars.Length
      && forall i :: 0 <= i < |chain| ==> FrameFor(flood_fill_vars[i], chain[i]) && chain[i] in spans
    }

    /** Fills the seed's run and sets up the first slot for it. */
    method FillSeedRun(x0: int, y0: int, from: int, to: int) returns (ghost d: set<Cell>, ghost chain: seq<Span>)
      requires pixels as object != flood_fill_vars && from != to && 0 < flood_fill_vars.Length
      requires InImage(Cell(y0, x0)) && pixels[y0, x0] == from
      modifies pixels, flood_fill_vars, this`spans
      ensures State(old(Area(from)), d, Cell(y0, x0), 1, from) && d <= old(Area(from))
      ensures Stacked(old(Area(from)), Cell(y0, x0), chain, Frames(1), spans)
      ensures |spans| == 1 && HoldsLastRun(0)
      ensures forall j :: 0 < j < flood_fill_vars.Length ==> flood_fill_vars[j] == old(flood_fill_vars[j])
      ensures forall c :: InImage(c) ==> Pixel(c) == if c in d then to else old(Pixel(c))
    {
      hide Filling, Reported, Component, Chain, FrameFor;
      ghost var f, seed := Area(from), Cell(y0, x0);
      AreaIs(from);
      spans := [];
      var left, right := FloodFillLine(x0, y0, from, to);
      flood_fill_vars[0] := Vars(y0, right, left, left);
      d := Run(y0, left, right);
      RunFits(f, y0, left, right, x0);
      FirstRun(f, seed, left, right);
      StackStart(f, seed, left, right);
      chain := [Span(y0, left, right)];
      assert Frames(1) == [Vars(y0, right, left, left)] && spans == [Span(y0, left, right)];
    }

    /** Drops the top frame, both sides of which are searched, and its run. */
    lemma PopRun(f: set<Cell>, d: set<Cell>, seed: Cell, chain: seq<Span>, k: nat, from: int)
      requires k > 0 && State(f, d, seed, k + 1, from) && Stacked(f, seed, chain, Frames(k + 1), spans)
      requires var v := flood_fill_vars[k];
               && (v.left_up > v.right || v.y == 0)
               && (v.left_down > v.right || v.y == pixels.Length0 - 1)
      ensures State(f, d, seed, k, from) && k <= |chain| && Stacked(f, seed, chain[..k], Frames(k), spans)
    {
      hide Filling, Stacked;
      PopFrame(f, d, seed, k, from);
      StackFewer(f, seed, chain, Frames(k + 1), spans, k);
      assert Frames(k) == Frames(k + 1)[..k];
    }

    lemma ChainIs(f: set<Cell>, seed: Cell, chain: seq<Span>, n: nat)
      requires n <= flood_fill_vars.Length && Stacked(f, seed, chain, Frames(n), spans)
      ensures Chain(f, seed, chain) && |chain| == n && OnStack(chain)
    {
      hide Chain, FrameFor;
      assert forall i :: 0 <= i < n ==> Frames(n)[i] == flood_fill_vars[i];
    }

    /** Fills the component of (x0, y0) as far as the stack allows, using `used` slots of it. Every changed pixel belongs
        to the component and is reported once. Using all slots means that they hold a chain of reported runs of the
        image from the seed's run on; so the whole component is filled unless the image has a chain as long as the stack. */
    method FloodFillSeed(x0: int, y0: int, from: int, to: int) returns (ghost d: set<Cell>, ghost used: nat)
      requires pixels as object != flood_fill_vars && from != to && 0 < flood_fill_vars.Length
      requires InImage(Cell(y0, x0)) && pixels[y0, x0] == from
      modifies pixels, flood_fill_vars, this`spans
      ensures forall c :: InImage(c) ==> Pixel(c) == if c in d then to else old(Pixel(c))
      ensures Cell(y0, x0) in d && d <= Component(old(Area(from)), Cell(y0, x0))
      ensures 1 <= used <= flood_fill_vars.Length && used <= |spans|
      ensures flood_fill_vars[used..] == old(flood_fill_vars[..])[used..]
      ensures used < flood_fill_vars.Length ==> d == Component(old(Area(from)), Cell(y0, x0))
      ensures used == flood_fill_vars.Length ==>
                HoldsLastRun(used - 1)
                && exists chain :: Chain(old(Area(from)), Cell(y0, x0), chain) && |chain| == used && OnStack(chain)
      ensures (forall chain: seq<Span> :: Chain(old(Area(from)), Cell(y0, x0), chain) ==> |chain| < flood_fill_vars.Length) ==>
                d == Component(old(Area(from)), Cell(y0, x0))
      ensures Reported(d, spans) && AreaCount(spans) == |d|
    {
      hide Filling, Reported, Component, Chain, FrameFor, Stacked, OnStack;
      ghost var f, seed, before := Area(from), Cell(y0, x0), flood_fill_vars[..];
      ghost var chain;
      d, chain := FillSeedRun(x0, y0, from, to);
      var k := 0;
      used := 1;
      while true
        invariant k < used <= flood_fill_vars.Length
        invariant State(f, d, seed, k + 1, from) && Stacked(f, seed, chain, Frames(k + 1), spans)
        invariant forall c :: InImage(c) ==> Pixel(c) == if c in d then to else old(Pixel(c))
        invariant d <= f && used <= |spans|
        invariant forall j :: used <= j < flood_fill_vars.Length ==> flood_fill_vars[j] == before[j]
        invariant used == flood_fill_vars.Length ==> k == used - 1 && HoldsLastRun(k)
        decreases f - d, k
      {
        if k == flood_fill_vars.Length - 1 {
          // The last slot is in use: just stop.
          FillingMeans(f, d, seed, Frames(k + 1), spans);
          ChainIs(f, seed, chain, k + 1);
          break;
        }
        var found;
        found, d, chain := SearchTop(k, from, to, f, d, seed, chain);
        if found {
          k := k + 1;
          if k == used { used := used + 1; }
          continue;
        }
        if k > 0 {
          PopRun(f, d, seed, chain, k, from);
          chain := chain[..k];
          k := k - 1;
          continue;
        }
        PopFrame(f, d, seed, k, from);
        Finished(f, d, seed, spans);
        FillingMeans(f, d, seed, [], spans);
        break;
      }
    }
  }

  lemma RunFits(rest: set<Cell>, y: int, left: int, right: int, x: int)
    requires MaximalRun(rest, y, left, right, x)
    ensures left <= x <= right && Run(y, left, right) <= rest && Cell(y, x) in Run(y, left, right)
  {
  }

  lemma FillingMeans(f: set<Cell>, d: set<Cell>, seed: Cell, frames: seq<Vars>, spans: seq<Span>)
    requires Filling(f, d, seed, frames, spans)
    ensures seed in d && d <= f && d <= Component(f, seed) && Reported(d, spans) && AreaCount(spans) == |d|
  {
    AreaIsSize(spans);
  }

  lemma PopKeeps(f: set<Cell>, d: set<Cell>, seed: Cell, frames: seq<Vars>, spans: seq<Span>)
    requires Filling(f, d, seed, frames, spans) && |frames| > 0
    requires var v := frames[|frames| - 1];
             && (v.left_up > v.right || forall c: Cell :: c.y == v.y ==> c.Up() !in f)
             && (v.left_down > v.right || forall c: Cell :: c.y == v.y ==> c.Down() !in f)
    ensures Filling(f, d, seed, frames[..|frames| - 1], spans)
  {
    hide Covered, AllConnected, SidesClosed, Reported;
    Pop(f, d, frames);
  }

  lemma SkipKeeps(f: set<Cell>, d: set<Cell>, seed: Cell, frames: seq<Vars>, k: nat, v: Vars, spans: seq<Span>)
    requires Filling(f, d, seed, frames, spans) && k < |frames|
    requires (v == frames[k].(left_up := frames[k].left_up + 1) && Cell(v.y - 1, frames[k].left_up) !in f - d)
             || (v == frames[k].(left_down := frames[k].left_down + 1) && Cell(v.y + 1, frames[k].left_down) !in f - d)
    ensures Filling(f, d, seed, frames[k := v], spans)
  {
    Advance(f, d, frames, k, v);
  }
}
