/** Calls multiplexed over one socket, as atomic steps of callers and of the I/O thread (`RPC.cpp`). */
module RpcSteps {
  import opened Wrappers
  import opened RpcFrames

  const IDS := 0x1_0000_0000
  const NOT_CONNECTED := -1919

  /** How far a thread has come in Call(). */
  datatype Phase =
    | Checked
    | Drawn
    | Registered
    | Waiting
    | TimedOut
    | WaitingAgain
    | Finished(ok: bool)
    | Returned(code: int, rsp: seq<nat>)

  /** A call: its thread's position, its id (the draw-th drawn), the PendingCall fields, and how often it was completed. */
  datatype Call = Call(phase: Phase, draw: nat, id: nat, done: bool, status: nat, data: seq<nat>, completions: nat)

  /** A lambda queued for the I/O thread; a write remembers how many reconnects were queued before it. */
  datatype Task = Write(call: nat, after: nat) | Swap(sock: nat)

  datatype Sent = Sent(call: nat, after: nat, sock: nat)

  /** A response taken out of `pending` for a call but not yet stored in it. */
  datatype Claim = Claim(call: nat, frame: Frame)

  datatype State = State(
    calls: seq<Call>, pending: map<nat, nat>, connected: bool, drawn: nat,
    readBuf: seq<nat>, claimed: Option<Claim>, tasks: seq<Task>, sock: nat, swaps: nat,
    frames: seq<Frame>, entered: map<nat, nat>, received: seq<nat>, since: seq<Frame>, sent: seq<Sent>)

  datatype Action =
    | Start | Draw(i: nat) | Register(i: nat) | Post(i: nat) | Wake(i: nat) | TimeOut(i: nat) | Reclaim(i: nat)
    | WakeAgain(i: nat) | TimeOutAgain(i: nat) | Return(i: nat)
    | Receive(chunk: seq<nat>) | Extract | Complete | RunTask
    | WakeAll | PostSwap | SetConnected(up: bool)

  const INITIAL := State([], map[], false, 0, [], None, [], 0, 0, [], map[], [], [], [])

  predicate At(s: State, i: nat, p: Phase) {
    i < |s.calls| && s.calls[i].phase == p
  }

  /** The I/O thread is back in its event loop: nothing claimed, no whole frame left to cut. */
  predicate IoIdle(s: State) {
    s.claimed == None && !HasFrame(s.readBuf)
  }

  predicate Enabled(s: State, a: Action) {
    match a
    case Start => true
    case Draw(i) => At(s, i, Checked)
    case Register(i) => At(s, i, Drawn)
    case Post(i) => At(s, i, Registered)
    case Wake(i) => At(s, i, Waiting) && s.calls[i].done
    case TimeOut(i) => At(s, i, Waiting) && !s.calls[i].done
    case Reclaim(i) => At(s, i, TimedOut)
    case WakeAgain(i) => At(s, i, WaitingAgain) && s.calls[i].done
    case TimeOutAgain(i) => At(s, i, WaitingAgain) && !s.calls[i].done
    case Return(i) => i < |s.calls| && s.calls[i].phase.Finished?
    case Receive(chunk) => IoIdle(s) && s.sock > 0
    case Extract => s.claimed == None && HasFrame(s.readBuf)
    case Complete => s.claimed.Some? && s.claimed.value.call < |s.calls|
    case RunTask => IoIdle(s) && s.tasks != []
    case WakeAll => true
    case PostSwap => true
    case SetConnected(up) => true
  }

  function Move(s: State, i: nat, p: Phase): State
    requires i < |s.calls|
  {
    s.(calls := s.calls[i := s.calls[i].(phase := p)])
  }

  /** The value Call() returns and what it leaves in `rsp`. */
  function Outcome(c: Call, ok: bool): Phase {
    if ok && c.status == 0 then Returned(0, c.data)
    else if ok then Returned(1, c.data)
    else Returned(1, [])
  }

  /** wakeAllWithError: every registered call is done, with whatever status and data it has. */
  function Woken(s: State): State {
    s.(calls := seq(|s.calls|, i requires 0 <= i < |s.calls| =>
         if i in s.pending.Values then s.calls[i].(done := true, completions := s.calls[i].completions + 1)
         else s.calls[i]),
       pending := map[])
  }

  function Extracted(s: State): State
    requires HasFrame(s.readBuf)
  {
    var f := First(s.readBuf);
    var t := s.(readBuf := Rest(s.readBuf), frames := s.frames + [f], since := s.since + [f]);
    if f.id in s.pending then t.(pending := s.pending - {f.id}, claimed := Some(Claim(s.pending[f.id], f)))
    else t
  }

  function Completed(s: State): State
    requires s.claimed.Some? && s.claimed.value.call < |s.calls|
  {
    var k, f := s.claimed.value.call, s.claimed.value.frame;
    var c := s.calls[k];
    s.(claimed := None,
       calls := s.calls[k := c.(status := f.status, data := f.data, done := true, completions := c.completions + 1)])
  }

  function Ran(s: State): State
    requires s.tasks != []
  {
    var t := s.(tasks := s.tasks[1..]);
    match s.tasks[0]
    case Write(i, after) => if s.sock > 0 then t.(sent := s.sent + [Sent(i, after, s.sock)]) else t
    case Swap(n) => t.(sock := n, readBuf := [], received := [], since := [])
  }

  function Started(s: State): State {
    s.(calls := s.calls + [Call(if s.connected then Checked else Returned(NOT_CONNECTED, []), 0, 0, false, 1, [], 0)])
  }

  function Numbered(s: State, i: nat): State
    requires i < |s.calls|
  {
    s.(calls := s.calls[i := s.calls[i].(phase := Drawn, draw := s.drawn + 1, id := (s.drawn + 1) % IDS)],
       drawn := s.drawn + 1)
  }

  function Entered(s: State, i: nat): State
    requires i < |s.calls|
  {
    Move(s, i, Registered).(pending := s.pending[s.calls[i].id := i], entered := s.entered[i := |s.frames|])
  }

  function Posted(s: State, i: nat): State
    requires i < |s.calls|
  {
    Move(s, i, Waiting).(tasks := s.tasks + [Write(i, s.swaps)])
  }

  function Reclaimed(s: State, i: nat): State
    requires i < |s.calls|
  {
    if s.calls[i].id in s.pending then Move(s, i, Finished(false)).(pending := s.pending - {s.calls[i].id})
    else Move(s, i, WaitingAgain)
  }

  /** The bytes appended to the buffer. */
  function Got(s: State, bytes: seq<nat>): State {
    s.(readBuf := s.readBuf + bytes, received := s.received + bytes)
  }

  function SwapQueued(s: State): State {
    s.(swaps := s.swaps + 1, tasks := s.tasks + [Swap(s.swaps + 1)])
  }

  function Next(s: State, a: Action): State
    requires Enabled(s, a)
  {
    match a
    case Start => Started(s)
    case Draw(i) => Numbered(s, i)
    case Register(i) => Entered(s, i)
    case Post(i) => Posted(s, i)
    case Wake(i) => Move(s, i, Finished(true))
    case TimeOut(i) => Move(s, i, TimedOut)
    case Reclaim(i) => Reclaimed(s, i)
    case WakeAgain(i) => Move(s, i, Finished(true))
    case TimeOutAgain(i) => Move(s, i, Finished(false))
    case Return(i) => Move(s, i, Outcome(s.calls[i], s.calls[i].phase.ok))
    case Receive(chunk) => Got(s, chunk)
    case Extract => Extracted(s)
    case Complete => Completed(s)
    case RunTask => Ran(s)
    case WakeAll => Woken(s)
    case PostSwap => SwapQueued(s)
    case SetConnected(up) => s.(connected := up)
  }

  // ---------- the invariant ----------

  predicate InFlight(c: Call) {
    !c.phase.Checked? && !c.phase.Returned?
  }

  predicate Open(p: Phase) {
    p.Registered? || p.Waiting? || p.TimedOut?
  }

  ghost predicate InPending(s: State, i: nat)
    requires i < |s.calls|
  {
    s.calls[i].id in s.pending && s.pending[s.calls[i].id] == i
  }

  ghost predicate IsClaimed(s: State, i: nat) {
    s.claimed.Some? && s.claimed.value.call == i
  }

  /** No frame with the id was cut since `from` frames had been. */
  ghost predicate Unanswered(frames: seq<Frame>, from: nat, id: nat) {
    from <= |frames| && forall m :: from <= m < |frames| ==> frames[m].id != id
  }

  /** Frame `f` is the first one with the id that was cut since `from` frames had been. */
  ghost predicate FirstAnswer(frames: seq<Frame>, from: nat, id: nat, f: Frame) {
    f.id == id && exists n :: from <= n < |frames| && frames[n] == f && Unanswered(frames[..n], from, id)
  }

  /** The call was registered, and `f` is the first frame with its id cut after that. */
  ghost predicate Answers(s: State, i: nat, f: Frame)
    requires i < |s.calls|
  {
    i in s.entered && FirstAnswer(s.frames, s.entered[i], s.calls[i].id, f)
  }

  lemma OneMoreFrame(frames: seq<Frame>, from: nat, id: nat, f: Frame, g: Frame)
    ensures FirstAnswer(frames, from, id, f) ==> FirstAnswer(frames + [g], from, id, f)
    ensures Unanswered(frames, from, id) && g.id == id ==> FirstAnswer(frames + [g], from, id, g)
    ensures Unanswered(frames, from, id) && g.id != id ==> Unanswered(frames + [g], from, id)
  {
    var all := frames + [g];
    assert all[..|frames|] == frames;
    if FirstAnswer(frames, from, id, f) {
      var n :| from <= n < |frames| && frames[n] == f && Unanswered(frames[..n], from, id);
      assert all[n] == f && all[..n] == frames[..n];
    }
    if Unanswered(frames, from, id) && g.id == id { assert all[|frames|] == g; }
  }

  /** What is true of each call between any two steps. */
  ghost predicate CallOk(s: State, i: nat)
    requires i < |s.calls|
  {
    var c := s.calls[i];
    && c.completions == (if c.done then 1 else 0)
    && (if c.done then (c.status == 1 && c.data == []) || Answers(s, i, Frame(c.id, c.status, c.data))
        else c.status == 1 && c.data == [])
    && (InPending(s, i) ==> Open(c.phase) && !c.done && i in s.entered && Unanswered(s.frames, s.entered[i], c.id))
    && (IsClaimed(s, i) ==> Answers(s, i, s.claimed.value.frame) && !c.done && !InPending(s, i) && !c.phase.Checked? && !c.phase.Drawn?)
    && (Open(c.phase) && !c.done ==> InPending(s, i) || IsClaimed(s, i))
    && (c.phase.WaitingAgain? && !c.done ==> IsClaimed(s, i))
    && (c.phase.Checked? || c.phase.Drawn? ==> !c.done)
    && (c.phase == Finished(true) ==> c.done)
    && (c.phase.Returned? && c.phase.code == 0 ==> c.done && c.status == 0 && c.phase.rsp == c.data)
  }

  ghost predicate TableOk(s: State) {
    && (forall k :: k in s.pending ==> s.pending[k] < |s.calls| && s.calls[s.pending[k]].id == k)
    && (s.claimed.Some? ==> s.claimed.value.call < |s.calls|
                            && s.claimed.value.frame.id == s.calls[s.claimed.value.call].id)
  }

  /** No two calls in flight share an id. */
  ghost predicate DistinctIds(s: State) {
    forall i, j :: 0 <= i < j < |s.calls| && InFlight(s.calls[i]) && InFlight(s.calls[j]) ==> s.calls[i].id != s.calls[j].id
  }

  ghost predicate Inv(s: State) {
    && TableOk(s) && DistinctIds(s)
    && (forall i :: 0 <= i < |s.calls| ==> CallOk(s, i))
  }

  /** The next id to be drawn is not in use. */
  ghost predicate FreshDraw(s: State) {
    forall i :: 0 <= i < |s.calls| && InFlight(s.calls[i]) ==> s.calls[i].id != (s.drawn + 1) % IDS
  }

  /** A step that changes only the phase of call `i`. */
  lemma PhaseKeeps(s: State, t: State, i: nat, p: Phase)
    requires Inv(s) && i < |s.calls| && t.calls == s.calls[i := s.calls[i].(phase := p)]
    requires t.pending == s.pending && t.claimed == s.claimed && t.frames == s.frames && t.entered == s.entered
    requires InFlight(s.calls[i]) && CallOk(t, i)
    ensures Inv(t)
  {
    forall k | 0 <= k < |t.calls|
      ensures CallOk(t, k)
    {
      assert CallOk(s, k);
    }
  }

  lemma PostKeeps(s: State, i: nat)
    requires Inv(s) && At(s, i, Registered)
    ensures Inv(Posted(s, i))
  {
    hide TableOk, DistinctIds;
    assert CallOk(s, i);
    PhaseKeeps(s, Posted(s, i), i, Waiting);
  }

  /** A waiting thread wakes up, or its time is over. */
  lemma WaitKeeps(s: State, i: nat, p: Phase)
    requires Inv(s) && i < |s.calls|
    requires (s.calls[i].done && p == Finished(true) && (At(s, i, Waiting) || At(s, i, WaitingAgain)))
             || (!s.calls[i].done && p == TimedOut && At(s, i, Waiting))
             || (!s.calls[i].done && p == Finished(false) && At(s, i, WaitingAgain))
    ensures Inv(Move(s, i, p))
  {
    hide TableOk, DistinctIds;
    assert CallOk(s, i);
    PhaseKeeps(s, Move(s, i, p), i, p);
  }

  lemma ReturnKeeps(s: State, i: nat)
    requires Inv(s) && i < |s.calls| && s.calls[i].phase.Finished?
    ensures Inv(Move(s, i, Outcome(s.calls[i], s.calls[i].phase.ok)))
  {
    hide TableOk, DistinctIds;
    assert CallOk(s, i);
    var p := Outcome(s.calls[i], s.calls[i].phase.ok);
    PhaseKeeps(s, Move(s, i, p), i, p);
  }

  lemma NotListed(s: State, i: nat)
    requires TableOk(s) && i < |s.calls| && !InPending(s, i)
    ensures forall k :: k in s.pending ==> s.pending[k] != i
  {
  }

  lemma StartKeeps(s: State)
    requires Inv(s)
    ensures Inv(Started(s))
  {
    hide HasFrame;
    var t := Started(s);
    forall k | 0 <= k < |t.calls|
      ensures CallOk(t, k)
    {
      if k < |s.calls| { assert CallOk(s, k); }
    }
    assert TableOk(t);
  }

  lemma DrawKeeps(s: State, i: nat)
    requires Inv(s) && At(s, i, Checked) && FreshDraw(s)
    ensures Inv(Numbered(s, i))
  {
    hide HasFrame;
    var t := Numbered(s, i);
    assert CallOk(s, i);
    NotListed(s, i);
    forall k | 0 <= k < |t.calls|
      ensures CallOk(t, k)
    {
      assert CallOk(s, k);
    }
    assert TableOk(t);
  }

  lemma RegisterKeeps(s: State, i: nat)
    requires Inv(s) && At(s, i, Drawn)
    ensures Inv(Entered(s, i))
  {
    hide HasFrame;
    var t := Entered(s, i);
    NotPending(s, i);
    forall k | 0 <= k < |t.calls|
      ensures CallOk(t, k)
    {
      assert CallOk(s, k);
    }
  }

  /** An id in flight is in `pending` only for its own call. */
  lemma NotPending(s: State, i: nat)
    requires Inv(s) && i < |s.calls| && InFlight(s.calls[i]) && !Open(s.calls[i].phase)
    ensures s.calls[i].id !in s.pending
  {
    var id := s.calls[i].id;
    if id in s.pending {
      var j := s.pending[id];
      assert CallOk(s, j) && CallOk(s, i);
      assert InPending(s, j);
    }
  }

  /** An id in flight that is in `pending` leads to its own call. */
  lemma OwnEntry(s: State, i: nat)
    requires Inv(s) && i < |s.calls| && InFlight(s.calls[i]) && s.calls[i].id in s.pending
    ensures s.pending[s.calls[i].id] == i
  {
    var j := s.pending[s.calls[i].id];
    assert CallOk(s, j) && InPending(s, j);
  }

  lemma ReclaimKeeps(s: State, i: nat)
    requires Inv(s) && At(s, i, TimedOut)
    ensures Inv(Reclaimed(s, i))
  {
    hide HasFrame;
    var t := Reclaimed(s, i);
    assert CallOk(s, i);
    if s.calls[i].id in s.pending {
      OwnEntry(s, i);
      forall k | 0 <= k < |t.calls|
        ensures CallOk(t, k)
      {
        assert CallOk(s, k);
      }
    } else {
      PhaseKeeps(s, t, i, WaitingAgain);
    }
  }

  lemma ExtractKeeps(s: State)
    requires Inv(s) && s.claimed == None && HasFrame(s.readBuf)
    ensures Inv(Extracted(s))
  {
    hide First, Rest, HasFrame, FirstAnswer, Unanswered;
    var t := Extracted(s);
    var f := First(s.readBuf);
    if f.id in s.pending {
      assert CallOk(s, s.pending[f.id]) && InPending(s, s.pending[f.id]);
    }
    forall k | 0 <= k < |t.calls|
      ensures CallOk(t, k)
    {
      assert CallOk(s, k);
      var c := s.calls[k];
      if k in s.entered { OneMoreFrame(s.frames, s.entered[k], c.id, Frame(c.id, c.status, c.data), f); }
    }
  }

  lemma CompleteKeeps(s: State)
    requires Inv(s) && s.claimed.Some? && s.claimed.value.call < |s.calls|
    ensures Inv(Completed(s))
  {
    hide HasFrame;
    var t := Completed(s);
    forall k | 0 <= k < |t.calls|
      ensures CallOk(t, k)
    {
      assert CallOk(s, k);
    }
  }

  lemma WakeAllKeeps(s: State)
    requires Inv(s)
    ensures Inv(Woken(s))
  {
    hide HasFrame;
    var t := Woken(s);
    forall k | 0 <= k < |t.calls|
      ensures CallOk(t, k)
    {
      assert CallOk(s, k);
      if k in s.pending.Values {
        var id :| id in s.pending && s.pending[id] == k;
        assert InPending(s, k);
      }
    }
  }

  lemma SameCalls(s: State, t: State)
    requires Inv(s) && t.calls == s.calls && t.pending == s.pending && t.claimed == s.claimed && t.frames == s.frames
    requires t.entered == s.entered
    ensures Inv(t)
  {
    forall k | 0 <= k < |t.calls|
      ensures CallOk(t, k)
    {
      assert CallOk(s, k);
    }
  }

  /** Every step of every thread keeps the invariant. */
  lemma StepKeeps(s: State, a: Action)
    requires Inv(s) && Enabled(s, a) && (a.Draw? ==> FreshDraw(s))
    ensures Inv(Next(s, a))
  {
    hide Inv, HasFrame, FreshDraw, Extracted, Completed, Woken, Outcome, Move;
    match a
    case Start => StartKeeps(s);
    case Draw(i) => DrawKeeps(s, i);
    case Register(i) => RegisterKeeps(s, i);
    case Post(i) => PostKeeps(s, i);
    case Wake(i) => WaitKeeps(s, i, Finished(true));
    case TimeOut(i) => WaitKeeps(s, i, TimedOut);
    case Reclaim(i) => ReclaimKeeps(s, i);
    case WakeAgain(i) => WaitKeeps(s, i, Finished(true));
    case TimeOutAgain(i) => WaitKeeps(s, i, Finished(false));
    case Return(i) => ReturnKeeps(s, i);
    case Extract => ExtractKeeps(s);
    case Complete => CompleteKeeps(s);
    case WakeAll => WakeAllKeeps(s);
    case Receive(chunk) => SameCalls(s, Got(s, chunk));
    case RunTask => SameCalls(s, Ran(s));
    case PostSwap => SameCalls(s, SwapQueued(s));
    case SetConnected(up) => SameCalls(s, s.(connected := up));
  }

  /** Waking everyone: nothing stays registered; exactly the registered calls are done, so that of the calls still
      waiting only the one whose response is being stored is not. */
  lemma EveryoneIsWoken(s: State)
    requires Inv(s)
    ensures Woken(s).pending == map[] && |Woken(s).calls| == |s.calls|
    ensures forall i :: 0 <= i < |s.calls| ==>
              Woken(s).calls[i] == if InPending(s, i) then s.calls[i].(done := true, completions := 1) else s.calls[i]
    ensures forall i :: 0 <= i < |s.calls| && Open(s.calls[i].phase) && !IsClaimed(s, i) ==> Woken(s).calls[i].done
  {
    hide HasFrame, Answers, Unanswered;
    forall i | 0 <= i < |s.calls|
      ensures i in s.pending.Values <==> InPending(s, i)
      ensures InPending(s, i) ==> s.calls[i].completions == 0
    {
      assert CallOk(s, i);
    }
    forall i | 0 <= i < |s.calls| && Open(s.calls[i].phase) && !IsClaimed(s, i) ensures Woken(s).calls[i].done {
      assert CallOk(s, i);
    }
  }

  // ---------- whole runs ----------

  /** The actions lead from `s` to `t`, one enabled step at a time. */
  ghost predicate Steps(s: State, acts: seq<Action>, t: State)
    decreases |acts|
  {
    if acts == [] then s == t
    else Enabled(s, acts[0]) && Steps(Next(s, acts[0]), acts[1..], t)
  }

  /** The same, never drawing an id still in flight. */
  ghost predicate Run(s: State, acts: seq<Action>, t: State)
    decreases |acts|
  {
    if acts == [] then s == t
    else Enabled(s, acts[0]) && (acts[0].Draw? ==> FreshDraw(s)) && Run(Next(s, acts[0]), acts[1..], t)
  }

  lemma {:induction false} StepsJoin(s: State, acts: seq<Action>, t: State, more: seq<Action>, u: State)
    requires Steps(s, acts, t) && Steps(t, more, u)
    ensures Steps(s, acts + more, u)
    decreases |acts|
  {
    hide Next, Enabled;
    if acts == [] {
      assert acts + more == more;
    } else {
      assert (acts + more)[1..] == acts[1..] + more;
      StepsJoin(Next(s, acts[0]), acts[1..], t, more, u);
    }
  }

  lemma OneStep(s: State, a: Action)
    requires Enabled(s, a)
    ensures Steps(s, [a], Next(s, a))
  {
    hide Next, Enabled;
    assert Steps(Next(s, a), [], Next(s, a));
    assert [a][1..] == [];
  }

  lemma {:induction false} RunKeeps(s: State, acts: seq<Action>, t: State)
    requires Inv(s) && Run(s, acts, t)
    ensures Inv(t)
    decreases |acts|
  {
    hide Inv, Next, Enabled, FreshDraw;
    if acts != [] {
      StepKeeps(s, acts[0]);
      RunKeeps(Next(s, acts[0]), acts[1..], t);
    }
  }

  /** In every interleaving: a call that returned 0 has the payload of a status-0 frame with its own id, the first such
      frame cut since the call was registered; no call is completed twice, and a call about to return has left nothing
      in `pending`. */
  lemma EveryRunIsSafe(acts: seq<Action>, t: State, i: nat)
    requires Run(INITIAL, acts, t) && i < |t.calls|
    ensures var c := t.calls[i];
            && c.completions <= 1
            && (c.phase.Returned? && c.phase.code == 0 ==> Answers(t, i, Frame(c.id, 0, c.phase.rsp)))
            && (c.phase.Finished? ==> c.id !in t.pending)
  {
    hide Run, TableOk, Answers;
    RunKeeps(INITIAL, acts, t) by { InitialOk(); }
    assert CallOk(t, i);
    if t.calls[i].phase.Finished? { NotPending(t, i); }
  }

  /** A call whose thread is on its way to return the stored answer, or has returned it. */
  predicate HasAnswer(c: Call, status: nat, data: seq<nat>) {
    && c.done && c.status == status && c.data == data
    && (Open(c.phase) || c.phase == WaitingAgain || c.phase == Finished(true)
        || c.phase == Returned(if status == 0 then 0 else 1, data))
  }

  /** An answered call is neither registered nor claimed any more. */
  lemma AnsweredIsFree(s: State, i: nat)
    requires Inv(s) && i < |s.calls| && s.calls[i].done
    ensures i !in s.pending.Values && !IsClaimed(s, i)
    ensures !s.calls[i].phase.Checked? && !s.calls[i].phase.Drawn?
    ensures At(s, i, TimedOut) ==> s.calls[i].id !in s.pending
  {
    hide HasFrame, Answers, Unanswered;
    assert CallOk(s, i);
    if At(s, i, TimedOut) && s.calls[i].id in s.pending { OwnEntry(s, i); }
  }

  /** Nothing that any thread does takes an answer away. */
  lemma StepKeepsAnswer(s: State, a: Action, i: nat, status: nat, data: seq<nat>)
    requires Inv(s) && Enabled(s, a) && i < |s.calls| && HasAnswer(s.calls[i], status, data)
    ensures i < |Next(s, a).calls| && HasAnswer(Next(s, a).calls[i], status, data)
  {
    hide HasFrame, First, Rest, Inv;
    AnsweredIsFree(s, i);
  }

  lemma {:induction false} RunKeepsAnswer(s: State, acts: seq<Action>, t: State, i: nat, status: nat, data: seq<nat>)
    requires Inv(s) && Run(s, acts, t) && i < |s.calls| && HasAnswer(s.calls[i], status, data)
    ensures i < |t.calls| && HasAnswer(t.calls[i], status, data)
    decreases |acts|
  {
    hide Inv, Next, Enabled, FreshDraw, HasAnswer;
    if acts != [] {
      StepKeeps(s, acts[0]);
      StepKeepsAnswer(s, acts[0], i, status, data);
      RunKeepsAnswer(Next(s, acts[0]), acts[1..], t, i, status, data);
    }
  }

  /** In every interleaving: once a call is answered and its thread has not given up, whatever happens next, it can only
      return that answer, with 0 exactly for status 0. */
  lemma AnsweredCallsReturn(acts: seq<Action>, s: State, more: seq<Action>, t: State, i: nat)
    requires Run(INITIAL, acts, s) && i < |s.calls| && s.calls[i].done
    requires Open(s.calls[i].phase) || s.calls[i].phase == WaitingAgain || s.calls[i].phase == Finished(true)
    requires Run(s, more, t)
    ensures i < |t.calls|
    ensures t.calls[i].phase.Returned? ==>
              t.calls[i].phase == Returned(if s.calls[i].status == 0 then 0 else 1, s.calls[i].data)
  {
    hide Run, Inv;
    RunKeeps(INITIAL, acts, s) by { InitialOk(); }
    RunKeepsAnswer(s, more, t, i, s.calls[i].status, s.calls[i].data);
  }

  /** A response stored in a call whose thread has not given up is what the call returns. */
  lemma DeliveredResponsesReturn(acts: seq<Action>, s: State, more: seq<Action>, t: State)
    requires Run(INITIAL, acts, s) && s.claimed.Some? && s.claimed.value.call < |s.calls|
    requires !s.calls[s.claimed.value.call].phase.Finished? && !s.calls[s.claimed.value.call].phase.Returned?
    requires Run(Next(s, Complete), more, t)
    ensures var i, f := s.claimed.value.call, s.claimed.value.frame;
            && i < |t.calls| && t.calls[i].id == s.calls[i].id == f.id
            && (t.calls[i].phase.Returned? ==> t.calls[i].phase == Returned(if f.status == 0 then 0 else 1, f.data))
  {
    hide Run, Inv, HasAnswer;
    RunKeeps(INITIAL, acts, s) by { InitialOk(); }
    var i, f := s.claimed.value.call, s.claimed.value.frame;
    ClaimedIsAnswered(s);
    CompleteKeeps(s);
    RunKeepsAnswer(Next(s, Complete), more, t, i, f.status, f.data);
    RunKeepsId(Next(s, Complete), more, t, i);
    AnswerIsReturned(t, i, f.status, f.data);
  }

  lemma AnswerIsReturned(t: State, i: nat, status: nat, data: seq<nat>)
    requires i < |t.calls| && HasAnswer(t.calls[i], status, data)
    ensures t.calls[i].phase.Returned? ==> t.calls[i].phase == Returned(if status == 0 then 0 else 1, data)
  {
  }

  lemma ClaimedIsAnswered(s: State)
    requires Inv(s) && s.claimed.Some?
    requires s.claimed.value.call < |s.calls|
    requires !s.calls[s.claimed.value.call].phase.Finished? && !s.calls[s.claimed.value.call].phase.Returned?
    ensures var i, f := s.claimed.value.call, s.claimed.value.frame;
            && f.id == s.calls[i].id && Next(s, Complete).calls[i].id == f.id
            && HasAnswer(Next(s, Complete).calls[i], f.status, f.data) && Inv(Next(s, Complete))
            && InFlight(Next(s, Complete).calls[i]) && !Next(s, Complete).calls[i].phase.Drawn?
  {
    hide HasFrame, Answers, Unanswered, FirstAnswer;
    CompleteKeeps(s);
    assert CallOk(s, s.claimed.value.call);
  }

  /** A call keeps its id once it has drawn it. */
  lemma {:induction false} RunKeepsId(s: State, acts: seq<Action>, t: State, i: nat)
    requires Run(s, acts, t) && i < |s.calls| && !s.calls[i].phase.Checked?
    ensures i < |t.calls| && !t.calls[i].phase.Checked? && t.calls[i].id == s.calls[i].id
    decreases |acts|
  {
    hide Next, Enabled, FreshDraw;
    if acts != [] {
      StepKeepsId(s, acts[0], i);
      RunKeepsId(Next(s, acts[0]), acts[1..], t, i);
    }
  }

  lemma StepKeepsId(s: State, a: Action, i: nat)
    requires Enabled(s, a) && i < |s.calls| && !s.calls[i].phase.Checked?
    ensures i < |Next(s, a).calls| && !Next(s, a).calls[i].phase.Checked? && Next(s, a).calls[i].id == s.calls[i].id
  {
    hide HasFrame, First, Rest, Woken, Completed, Numbered, Reclaimed, Entered, Posted, Outcome;
    match a
    case WakeAll => WokenKeepsId(s, i);
    case Complete => CompletedKeepsId(s, i);
    case Draw(j) => NumberedKeepsId(s, j, i);
    case Register(j) => PlacedKeepsId(s, j, i);
    case Post(j) => PlacedKeepsId(s, j, i);
    case Reclaim(j) => PlacedKeepsId(s, j, i);
    case Return(j) => OutcomeIsReturn(s.calls[j], s.calls[j].phase.ok);
    case _ =>
  }

  lemma WokenKeepsId(s: State, i: nat)
    requires i < |s.calls|
    ensures i < |Woken(s).calls| && Woken(s).calls[i].phase == s.calls[i].phase && Woken(s).calls[i].id == s.calls[i].id
  {
  }

  lemma CompletedKeepsId(s: State, i: nat)
    requires i < |s.calls| && s.claimed.Some? && s.claimed.value.call < |s.calls|
    ensures i < |Completed(s).calls| && Completed(s).calls[i].phase == s.calls[i].phase && Completed(s).calls[i].id == s.calls[i].id
  {
  }

  lemma NumberedKeepsId(s: State, j: nat, i: nat)
    requires i < |s.calls| && At(s, j, Checked) && !s.calls[i].phase.Checked?
    ensures i < |Numbered(s, j).calls| && Numbered(s, j).calls[i] == s.calls[i]
  {
  }

  lemma PlacedKeepsId(s: State, j: nat, i: nat)
    requires i < |s.calls| && j < |s.calls| && !s.calls[i].phase.Checked?
    ensures forall t :: t == Entered(s, j) || t == Posted(s, j) || t == Reclaimed(s, j) ==>
              i < |t.calls| && !t.calls[i].phase.Checked? && t.calls[i].id == s.calls[i].id
  {
  }

  lemma OutcomeIsReturn(c: Call, ok: bool)
    ensures Outcome(c, ok).Returned?
  {
  }

  lemma InitialOk()
    ensures Inv(INITIAL) && StreamOk(INITIAL) && DrawsOk(INITIAL) && WritesOk(INITIAL)
  {
  }

  // ---------- the frames do not depend on the chunks ----------

  /** What was cut since the last socket came, with what is still buffered, is what the received bytes hold. */
  ghost predicate StreamOk(s: State) {
    Sane(s.received) ==> Sane(s.readBuf) && s.since + Frames(s.readBuf) == Frames(s.received)
                         && Left(s.readBuf) == Left(s.received)
  }

  lemma ReceiveKeepsStream(s: State, chunk: seq<nat>)
    requires StreamOk(s) && Enabled(s, Receive(chunk))
    ensures StreamOk(Next(s, Receive(chunk)))
  {
    hide First, Rest;
    if Sane(s.received + chunk) {
      SplitAnywhere(s.received, chunk);
      assert Left(s.readBuf) == s.readBuf && Frames(s.readBuf) == [];
    }
  }

  lemma ExtractKeepsStream(s: State)
    requires StreamOk(s) && HasFrame(s.readBuf)
    ensures StreamOk(Extracted(s))
  {
    hide First, Rest;
    var f, r := First(s.readBuf), Rest(s.readBuf);
    assert Frames(s.readBuf) == [f] + Frames(r);
    assert s.since + ([f] + Frames(r)) == (s.since + [f]) + Frames(r);
  }

  lemma StreamKeeps(s: State, a: Action)
    requires StreamOk(s) && Enabled(s, a)
    ensures StreamOk(Next(s, a))
  {
    hide HasFrame, First, Rest;
    match a
    case Receive(chunk) => ReceiveKeepsStream(s, chunk);
    case Extract => ExtractKeepsStream(s);
    case RunTask => if s.tasks[0].Swap? { NothingReceived(Ran(s)); } else { SameStream(s, Ran(s)); }
    case _ => SameStream(s, Next(s, a));
  }

  lemma NothingReceived(s: State)
    requires s.received == s.readBuf && s.since == []
    ensures StreamOk(s)
  {
  }

  lemma SameStream(s: State, t: State)
    requires StreamOk(s) && t.received == s.received && t.readBuf == s.readBuf && t.since == s.since
    ensures StreamOk(t)
  {
  }

  lemma {:induction false} RunStream(s: State, acts: seq<Action>, t: State)
    requires StreamOk(s) && Steps(s, acts, t)
    ensures StreamOk(t)
    decreases |acts|
  {
    hide StreamOk, Next, Enabled;
    if acts != [] {
      StreamKeeps(s, acts[0]);
      RunStream(Next(s, acts[0]), acts[1..], t);
    }
  }

  /** Whenever the reader is idle, the frames cut from this socket are those of the bytes received from it. */
  lemma EveryRunCutsTheStream(acts: seq<Action>, t: State)
    requires Steps(INITIAL, acts, t) && IoIdle(t) && Sane(t.received)
    ensures t.since == Frames(t.received)
  {
    hide Steps;
    RunStream(INITIAL, acts, t) by { InitialOk(); }
  }

  // ---------- writes reach the socket of the latest reconnect ----------

  ghost predicate TasksOk(tasks: seq<Task>, sock: nat, swaps: nat) {
    if tasks == [] then sock == swaps
    else match tasks[0]
      case Write(i, after) => after == sock && TasksOk(tasks[1..], sock, swaps)
      case Swap(n) => n == sock + 1 && TasksOk(tasks[1..], n, swaps)
  }

  lemma {:induction false} TaskAdded(tasks: seq<Task>, sock: nat, swaps: nat, t: Task)
    requires TasksOk(tasks, sock, swaps)
    ensures t.Write? && t.after == swaps ==> TasksOk(tasks + [t], sock, swaps)
    ensures t == Swap(swaps + 1) ==> TasksOk(tasks + [t], sock, swaps + 1)
  {
    if tasks == [] {
      assert tasks + [t] == [t];
    } else {
      assert (tasks + [t])[1..] == tasks[1..] + [t];
      TaskAdded(tasks[1..], if tasks[0].Write? then sock else tasks[0].sock, swaps, t);
    }
  }

  ghost predicate WritesOk(s: State) {
    TasksOk(s.tasks, s.sock, s.swaps) && forall k :: 0 <= k < |s.sent| ==> s.sent[k].sock == s.sent[k].after
  }

  lemma WritesKeep(s: State, a: Action)
    requires WritesOk(s) && Enabled(s, a)
    ensures WritesOk(Next(s, a))
  {
    hide HasFrame, Frames;
    match a
    case Post(i) => TaskAdded(s.tasks, s.sock, s.swaps, Write(i, s.swaps));
    case PostSwap => TaskAdded(s.tasks, s.sock, s.swaps, Swap(s.swaps + 1));
    case _ =>
  }

  lemma {:induction false} WritesStayRight(s: State, acts: seq<Action>, t: State)
    requires WritesOk(s) && Steps(s, acts, t)
    ensures WritesOk(t)
    decreases |acts|
  {
    hide WritesOk, Next, Enabled;
    if acts != [] {
      WritesKeep(s, acts[0]);
      WritesStayRight(Next(s, acts[0]), acts[1..], t);
    }
  }

  /** In every interleaving, every frame written went to the socket of the last reconnect queued before the write. */
  lemma EveryWriteHitsItsSocket(acts: seq<Action>, t: State, k: nat)
    requires Steps(INITIAL, acts, t) && k < |t.sent|
    ensures t.sent[k].sock == t.sent[k].after
  {
    hide Steps;
    WritesStayRight(INITIAL, acts, t) by { InitialOk(); }
  }

  // ---------- when drawn ids are distinct ----------

  ghost predicate DrawsOk(s: State) {
    forall i :: 0 <= i < |s.calls| ==> s.calls[i].id == s.calls[i].draw % IDS && s.calls[i].draw <= s.drawn
  }

  lemma DrawsKeep(s: State, a: Action)
    requires DrawsOk(s) && Enabled(s, a)
    ensures DrawsOk(Next(s, a))
  {
    hide HasFrame, Frames;
  }

  /** No call in flight lies a multiple of 2^32 draws behind the next one. */
  ghost predicate Spaced(s: State) {
    forall i :: 0 <= i < |s.calls| && InFlight(s.calls[i]) ==> (s.drawn + 1 - s.calls[i].draw) % IDS != 0
  }

  ghost predicate SpacedDraws(s: State, acts: seq<Action>)
    decreases |acts|
  {
    acts != [] && Enabled(s, acts[0]) ==>
      (acts[0].Draw? ==> Spaced(s)) && SpacedDraws(Next(s, acts[0]), acts[1..])
  }

  /** Fewer than 2^32 draws separate every call in flight from the next one. */
  ghost predicate FewDraws(s: State) {
    forall i :: 0 <= i < |s.calls| && InFlight(s.calls[i]) ==> s.drawn + 1 - s.calls[i].draw < IDS
  }

  ghost predicate AlwaysFewDraws(s: State, acts: seq<Action>)
    decreases |acts|
  {
    acts != [] && Enabled(s, acts[0]) ==>
      (acts[0].Draw? ==> FewDraws(s)) && AlwaysFewDraws(Next(s, acts[0]), acts[1..])
  }

  /** The id about to be drawn belongs to a call exactly when a multiple of 2^32 draws lies between. */
  lemma DrawCollides(s: State, i: nat)
    requires DrawsOk(s) && i < |s.calls|
    ensures s.calls[i].id == (s.drawn + 1) % IDS <==> (s.drawn + 1 - s.calls[i].draw) % IDS == 0
  {
  }

  lemma FreshIsSpaced(s: State)
    requires DrawsOk(s)
    ensures FreshDraw(s) <==> Spaced(s)
    ensures FewDraws(s) ==> Spaced(s)
  {
    forall i | 0 <= i < |s.calls|
      ensures s.calls[i].id == (s.drawn + 1) % IDS <==> (s.drawn + 1 - s.calls[i].draw) % IDS == 0
    {
      DrawCollides(s, i);
    }
  }

  lemma {:induction false} FreshRuns(s: State, acts: seq<Action>, t: State)
    requires DrawsOk(s)
    ensures Run(s, acts, t) <==> Steps(s, acts, t) && SpacedDraws(s, acts)
    ensures AlwaysFewDraws(s, acts) ==> SpacedDraws(s, acts)
    decreases |acts|
  {
    hide DrawsOk, Next, Enabled, FreshDraw, Spaced, FewDraws;
    if acts != [] && Enabled(s, acts[0]) {
      DrawsKeep(s, acts[0]);
      FreshIsSpaced(s);
      FreshRuns(Next(s, acts[0]), acts[1..], t);
    }
  }

  /** From the beginning, ids stay fresh exactly as long as no draw meets a call in flight a multiple of 2^32 back. */
  lemma WhenDrawsAreFresh(acts: seq<Action>, t: State)
    ensures Run(INITIAL, acts, t) <==> Steps(INITIAL, acts, t) && SpacedDraws(INITIAL, acts)
  {
    hide Run, Steps, SpacedDraws;
    FreshRuns(INITIAL, acts, t) by { InitialOk(); }
  }

  /** With fewer than 2^32 draws over the lifetime of any call, every interleaving is safe. */
  lemma FewCallsAreSafe(acts: seq<Action>, t: State, i: nat)
    requires Steps(INITIAL, acts, t) && AlwaysFewDraws(INITIAL, acts) && i < |t.calls|
    ensures var c := t.calls[i];
            && c.completions <= 1
            && (c.phase.Returned? && c.phase.code == 0 ==> Answers(t, i, Frame(c.id, 0, c.phase.rsp)))
            && (c.phase.Finished? ==> c.id !in t.pending)
  {
    hide Run, Steps, SpacedDraws, AlwaysFewDraws, Answers;
    FreshRuns(INITIAL, acts, t) by { InitialOk(); }
    EveryRunIsSafe(acts, t, i);
  }

  /** `n` threads have drawn their ids and got no further. */
  function Crowd(n: nat): State {
    INITIAL.(connected := true, drawn := n,
             calls := seq(n, (k: nat) => Call(Drawn, k + 1, (k + 1) % IDS, false, 1, [], 0)))
  }

  lemma CrowdGrows(n: nat)
    ensures Enabled(Started(Crowd(n)), Draw(n)) && Next(Started(Crowd(n)), Draw(n)) == Crowd(n + 1)
  {
    assert Next(Started(Crowd(n)), Draw(n)).calls == Crowd(n + 1).calls;
  }

  lemma {:induction false} CrowdGathers(n: nat) returns (acts: seq<Action>)
    ensures Steps(INITIAL, acts, Crowd(n))
  {
    hide Next, Enabled;
    if n == 0 {
      acts := [SetConnected(true)];
      FirstThread();
    } else {
      acts := CrowdGathers(n - 1);
      ThreadJoins(n - 1);
      StepsJoin(INITIAL, acts, Crowd(n - 1), [Start, Draw(n - 1)], Crowd(n));
      acts := acts + [Start, Draw(n - 1)];
    }
  }

  lemma FirstThread()
    ensures Steps(INITIAL, [SetConnected(true)], Crowd(0))
  {
    OneStep(INITIAL, SetConnected(true));
    assert Crowd(0).calls == [];
  }

  lemma ThreadJoins(n: nat)
    ensures Steps(Crowd(n), [Start, Draw(n)], Crowd(n + 1))
  {
    hide Crowd;
    CrowdGrows(n);
    OneStep(Crowd(n), Start);
    OneStep(Started(Crowd(n)), Draw(n));
    StepsJoin(Crowd(n), [Start], Started(Crowd(n)), [Draw(n)], Crowd(n + 1));
    assert [Start] + [Draw(n)] == [Start, Draw(n)];
  }

  /** The bound is needed: 2^32 calls after a call still in flight, another one gets its id. */
  lemma IdsRunOut() returns (acts: seq<Action>, t: State)
    ensures Steps(INITIAL, acts, t) && |t.calls| == IDS + 1
    ensures InFlight(t.calls[0]) && InFlight(t.calls[IDS]) && t.calls[0].id == t.calls[IDS].id
  {
    hide Steps;
    acts := CrowdGathers(IDS + 1);
    t := Crowd(IDS + 1);
  }
}

/** The channel object itself: its methods take the steps above. */
module RpcChannel {
  import opened Wrappers
  import opened RpcFrames
  import opened RpcSteps

  /** What processBuffer makes of the channel when nobody interferes: every whole frame cut and delivered. */
  function Drained(s: State): (t: State)
    requires s.claimed == None && TableBounded(s)
    ensures t.claimed == None && TableBounded(t) && !HasFrame(t.readBuf)
    decreases |s.readBuf|
  {
    if HasFrame(s.readBuf) then Drained(Delivered(s)) else s
  }

  predicate TableBounded(s: State) {
    forall k :: k in s.pending ==> s.pending[k] < |s.calls|
  }

  /** One frame cut and handed to its call, if that call still waits. */
  function Delivered(s: State): (t: State)
    requires s.claimed == None && TableBounded(s) && HasFrame(s.readBuf)
    ensures t.claimed == None && TableBounded(t) && t.readBuf == Rest(s.readBuf)
  {
    var t := Extracted(s);
    if t.claimed.Some? then Completed(t) else t
  }

  /** Bytes behind a whole frame do not change how it is delivered. */
  lemma DeliveredLater(s: State, b: seq<nat>)
    requires s.claimed == None && TableBounded(s) && HasFrame(s.readBuf) && DataLen(s.readBuf) <= INT_MAX
    ensures HasFrame(s.readBuf + b) && Delivered(Got(s, b)) == Got(Delivered(s), b)
  {
    MoreBytes(s.readBuf, b);
  }

  lemma {:induction false} DrainMore(s: State, b: seq<nat>)
    requires s.claimed == None && TableBounded(s) && Sane(s.readBuf + b)
    ensures Drained(Got(Drained(s), b)) == Drained(Got(s, b))
    decreases |s.readBuf|
  {
    hide HasFrame, Delivered, TableBounded, DataLen;
    if HasFrame(s.readBuf) {
      MoreBytes(s.readBuf, b);
      if |s.readBuf + b| == 9 + DataLen(s.readBuf) {
        NothingMore(s, b);
        NothingMore(Drained(s), b);
      } else {
        DeliveredLater(s, b);
        DrainMore(Delivered(s), b);
      }
    }
  }

  lemma NothingMore(s: State, b: seq<nat>)
    requires b == []
    ensures Got(s, b) == s
  {
    assert s.readBuf + b == s.readBuf && s.received + b == s.received;
  }

  /** Reading a stream in two pieces leaves the channel, calls and all, as reading it in one. */
  lemma TwoReadsAreOne(s: State, a: seq<nat>, b: seq<nat>)
    requires s.claimed == None && TableBounded(s) && Sane(s.readBuf + a + b)
    ensures Drained(Got(Drained(Got(s, a)), b)) == Drained(Got(s, a + b))
  {
    hide Drained, HasFrame, Sane;
    assert s.readBuf + (a + b) == s.readBuf + a + b && s.received + (a + b) == s.received + a + b;
    DrainMore(Got(s, a), b);
  }

  /** Draining cuts the buffer's frames. */
  lemma {:induction false} DrainCuts(s: State)
    requires s.claimed == None && TableBounded(s)
    ensures Drained(s).since == s.since + Frames(s.readBuf) && Drained(s).readBuf == Left(s.readBuf)
    ensures Drained(s).received == s.received && Drained(s).tasks == s.tasks && Drained(s).sock == s.sock
    decreases |s.readBuf|
  {
    hide HasFrame, First, Rest, TableBounded;
    if HasFrame(s.readBuf) {
      DrainCuts(Delivered(s));
      assert s.since + ([First(s.readBuf)] + Frames(Rest(s.readBuf))) == s.since + [First(s.readBuf)] + Frames(Rest(s.readBuf));
    }
  }

  /** Reading `c` in two pieces cut at `n` leaves the channel as reading it in one. */
  predicate ReadsAgree(s: State, c: seq<nat>, n: nat)
    requires s.claimed == None && TableBounded(s) && n <= |c|
  {
    Drained(Got(Drained(Got(s, c[..n])), c[n..])) == Drained(Got(s, c))
  }

  /** For an idle channel, a stream may be read in two pieces cut anywhere if and only if it is sane. */
  lemma TwoReadsExactly(s: State, c: seq<nat>)
    requires s.claimed == None && TableBounded(s) && !HasFrame(s.readBuf)
    ensures Sane(s.readBuf + c) <==> forall n :: 0 <= n <= |c| ==> ReadsAgree(s, c, n)
  {
    hide Sane, HasFrame, ReadsAgree, TableBounded;
    if Sane(s.readBuf + c) {
      forall n | 0 <= n <= |c| ensures ReadsAgree(s, c, n) { CutAnywhere(s, c, n); }
    } else {
      var n := SomeReadFails(s, c);
    }
  }

  lemma CutAnywhere(s: State, c: seq<nat>, n: nat)
    requires s.claimed == None && TableBounded(s) && n <= |c| && Sane(s.readBuf + c)
    ensures ReadsAgree(s, c, n)
  {
    hide Drained, Sane;
    assert c[..n] + c[n..] == c && s.readBuf + c[..n] + c[n..] == s.readBuf + c;
    TwoReadsAreOne(s, c[..n], c[n..]);
  }

  lemma SomeReadFails(s: State, c: seq<nat>) returns (n: nat)
    requires s.claimed == None && TableBounded(s) && !HasFrame(s.readBuf) && !Sane(s.readBuf + c)
    ensures n <= |c| && !ReadsAgree(s, c, n)
  {
    hide Drained, Sane, Frames, Left;
    var all := s.readBuf + c;
    var m := SomeSplitFails(all);
    EndsBehind(s.readBuf, c, m);
    n := m - |s.readBuf|;
    assert all[..m] == s.readBuf + c[..n] && all[m..] == c[n..];
    var t := Drained(Got(s, c[..n]));
    DrainCuts(Got(s, c[..n]));
    DrainCuts(Got(t, c[n..]));
    DrainCuts(Got(s, c));
    Cancels(s.since, Frames(all[..m]), Frames(Left(all[..m]) + all[m..]), Frames(all));
  }

  lemma EndsBehind(r: seq<nat>, c: seq<nat>, m: nat)
    requires m <= |r + c| && HasFrame((r + c)[..m])
    ensures m <= |r| ==> HasFrame(r)
  {
    if m <= |r| {
      assert (r + c)[..m] + r[m..] == r;
      MoreBytes((r + c)[..m], r[m..]);
    }
  }

  lemma Cancels(s: seq<Frame>, a: seq<Frame>, b: seq<Frame>, c: seq<Frame>)
    ensures s + a + b == s + c ==> a + b == c
  {
    assert (s + a + b)[|s|..] == a + b && (s + c)[|s|..] == c;
  }

  /** Draining is a run of Extract and Complete steps. */
  lemma {:induction false} DrainIsARun(s: State) returns (acts: seq<Action>)
    requires s.claimed == None && TableBounded(s)
    ensures Steps(s, acts, Drained(s))
    decreases |s.readBuf|
  {
    hide HasFrame, First, Rest;
    if HasFrame(s.readBuf) {
      var t := Extracted(s);
      if t.claimed.Some? {
        acts := DrainIsARun(Completed(t));
        acts := [Extract, Complete] + acts;
        assert acts[1..][1..] == acts[2..];
      } else {
        acts := DrainIsARun(t);
        acts := [Extract] + acts;
      }
    } else {
      acts := [];
    }
  }

  /** The chunks of a stream received on the first socket, each drained before the next. */
  lemma TwoChunksRun(a: seq<nat>, b: seq<nat>) returns (acts: seq<Action>, t: State)
    ensures Steps(INITIAL, acts, t) && IoIdle(t) && t.received == a + b
    ensures t.since == Frames(a) + Frames(Left(a) + b)
  {
    hide Next, Enabled, Frames, Left;
    acts := [PostSwap, RunTask];
    t := Connect();
    var u := DrainedChunk(t, a);
    StepsJoin(INITIAL, acts, t, u, Drained(Got(t, a)));
    acts, t := acts + u, Drained(Got(t, a));
    assert [] + a == a && [] + Frames(a) == Frames(a);
    u := DrainedChunk(t, b);
    StepsJoin(INITIAL, acts, t, u, Drained(Got(t, b)));
    acts, t := acts + u, Drained(Got(t, b));
  }

  /** The first socket is installed. */
  lemma Connect() returns (t: State)
    ensures Steps(INITIAL, [PostSwap, RunTask], t) && IoIdle(t) && TableBounded(t)
    ensures t.sock == 1 && t.readBuf == [] && t.received == [] && t.since == []
  {
    var s := SwapQueued(INITIAL);
    OneStep(INITIAL, PostSwap);
    OneStep(s, RunTask);
    t := Ran(s);
    StepsJoin(INITIAL, [PostSwap], s, [RunTask], t);
    assert [PostSwap] + [RunTask] == [PostSwap, RunTask];
  }

  lemma DrainedChunk(s: State, chunk: seq<nat>) returns (acts: seq<Action>)
    requires IoIdle(s) && s.sock > 0 && TableBounded(s)
    ensures var t := Drained(Got(s, chunk));
            && Steps(s, acts, t) && IoIdle(t) && TableBounded(t) && t.sock == s.sock
            && t.received == s.received + chunk && t.since == s.since + Frames(s.readBuf + chunk)
            && t.readBuf == Left(s.readBuf + chunk)
  {
    hide HasFrame;
    OneStep(s, Receive(chunk));
    acts := DrainIsARun(Got(s, chunk));
    DrainCuts(Got(s, chunk));
    StepsJoin(s, [Receive(chunk)], Got(s, chunk), acts, Drained(Got(s, chunk)));
    acts := [Receive(chunk)] + acts;
  }

  /** Over all runs: the frames cut from a socket are those of the bytes received, however they arrived, if and only if
      the bytes are sane. */
  lemma RunsCutExactly(s: seq<nat>)
    ensures Sane(s) <==>
              forall acts, t :: Steps(INITIAL, acts, t) && IoIdle(t) && t.received == s ==> t.since == Frames(s)
  {
    hide Sane, Steps, IoIdle, Frames;
    if Sane(s) {
      forall acts, t | Steps(INITIAL, acts, t) && IoIdle(t) && t.received == s ensures t.since == Frames(s) {
        EveryRunCutsTheStream(acts, t);
      }
    } else {
      var n := SomeSplitFails(s);
      assert s[..n] + s[n..] == s;
      var acts, t := TwoChunksRun(s[..n], s[n..]);
    }
  }

  class LocalSocketChannel {
    /** The PendingCall objects, in the order of their calls; a shared pointer is an index. */
    var calls: seq<Call>
    var pending: map<nat, nat>
    var connected: bool
    var next_id: nat
    var read_buf: seq<nat>
    var claimed: Option<Claim>
    var tasks: seq<Task>
    var sock: nat
    /** Counters that name the calls and the sockets. */
    var drawn: nat
    var swaps: nat
    /** What went over the wire so far. */
    ghost var frames: seq<Frame>
    /** How many frames had been cut when a call was registered. */
    ghost var entered: map<nat, nat>
    ghost var received: seq<nat>
    ghost var since: seq<Frame>
    ghost var sent: seq<Sent>

    ghost function Abstract(): State
      reads this
    {
      State(calls, pending, connected, drawn, read_buf, claimed, tasks, sock, swaps, frames, entered, received, since, sent)
    }

    ghost predicate Valid()
      reads this
    {
      Inv(Abstract()) && next_id == (drawn + 1) % IDS
    }

    constructor ()
      ensures Valid() && Abstract() == INITIAL
    {
      calls, pending, connected, next_id, read_buf, claimed, tasks, sock := [], map[], false, 1, [], None, [], 0;
      drawn, swaps, frames, entered, received, since, sent := 0, 0, [], map[], [], [], [];
      new;
      InitialOk();
    }

    /** Cuts one frame and takes its call out of `pending`, then stores the response in the call. */
    method DeliverFirst()
      requires Valid() && claimed == None && HasFrame(read_buf)
      modifies `calls, `pending, `read_buf, `frames, `since
      ensures Valid() && Abstract() == Delivered(old(Abstract())) && connected == old(connected)
    {
      hide Inv, First, Rest, HasFrame;
      ghost var s := Abstract();
      DeliveredKeeps(s);
      var f := First(read_buf);
      read_buf, frames, since := Rest(read_buf), frames + [f], since + [f];
      if f.id in pending {
        var k := pending[f.id];
        pending := pending - {f.id};
        calls := calls[k := calls[k].(status := f.status, data := f.data, done := true, completions := calls[k].completions + 1)];
      }
      assert Abstract() == Delivered(s);
    }

    method ProcessBuffer()
      requires Valid() && claimed == None
      modifies this
      ensures Valid() && claimed == None && Abstract() == Drained(old(Abstract()))
    {
      hide Inv, HasFrame, First, Rest, Delivered;
      Bounded(Abstract());
      while HasFrame(read_buf)
        invariant Valid() && claimed == None && TableBounded(Abstract())
        invariant Drained(Abstract()) == Drained(old(Abstract()))
        decreases |read_buf|
      {
        DeliverFirst();
      }
    }

    /** The readyRead handler. */
    method OnReadyRead(chunk: seq<nat>)
      requires Valid() && claimed == None && !HasFrame(read_buf)
      modifies this
      ensures Valid() && claimed == None && TableBounded(old(Abstract()))
      ensures Abstract() == if old(sock) > 0 then Drained(Got(old(Abstract()), chunk)) else old(Abstract())
    {
      hide Inv, HasFrame, Drained;
      Bounded(Abstract());
      if sock == 0 { return; }
      SameCalls(Abstract(), Got(Abstract(), chunk));
      read_buf, received := read_buf + chunk, received + chunk;
      ProcessBuffer();
    }

    /** Completes every registered call with an error and forgets them all. */
    method WakeAllWithError()
      requires Valid()
      modifies `connected, `calls, `pending
      ensures Valid() && Abstract() == Woken(old(Abstract()).(connected := false))
    {
      hide Inv, WokenCalls;
      ghost var s := Abstract();
      SameCalls(s, s.(connected := false));
      WakeAllKeeps(s.(connected := false));
      Bounded(s);
      connected := false;
      var ids := pending.Keys;
      ghost var woken: set<nat> := {};
      WokenNone(s);
      while ids != {}
        invariant woken + ids == s.pending.Keys && woken !! ids
        invariant calls == WokenCalls(s, woken)
        decreases ids
        modifies `calls
      {
        var id :| id in ids;
        WokenOne(s, woken, id);
        var k := pending[id];
        calls := calls[k := calls[k].(done := true, completions := calls[k].completions + 1)];
        ids, woken := ids - {id}, woken + {id};
      }
      WokenAll(s);
      pending := map[];
    }

    /** Installs a new socket: everyone waiting on the old one gets an error. */
    method Reconnect()
      requires Valid()
      modifies `connected, `calls, `pending, `tasks, `swaps
      ensures Valid()
      ensures Abstract() == SwapQueued(Woken(old(Abstract()).(connected := false))).(connected := true)
    {
      hide Inv, Woken;
      WakeAllWithError();
      ghost var s := Abstract();
      SameCalls(s, SwapQueued(s).(connected := true));
      tasks, swaps := tasks + [Swap(swaps + 1)], swaps + 1;
      connected := true;
    }

    /** The queued lambda at the head of the I/O thread's queue. */
    method RunQueued()
      requires Valid() && claimed == None && !HasFrame(read_buf) && tasks != []
      modifies `tasks, `sock, `read_buf, `received, `since, `sent
      ensures Valid() && Abstract() == Ran(old(Abstract()))
    {
      hide Inv, HasFrame;
      RanKeeps(Abstract());
      match tasks[0] {
        case Write(i, after) =>
          if sock > 0 { sent := sent + [Sent(i, after, sock)]; }
        case Swap(n) =>
          sock, read_buf, received, since := n, [], [], [];
      }
      tasks := tasks[1..];
    }

    /** The first half of Call(): draw an id, register, queue the write. */
    method BeginCall() returns (i: nat, code: int)
      requires Valid() && FreshDraw(Abstract())
      modifies `calls, `pending, `entered, `tasks, `drawn, `next_id
      ensures Valid() && i == |old(calls)|
      ensures code == if old(connected) then 0 else NOT_CONNECTED
      ensures Abstract() == if old(connected) then Begun(old(Abstract())) else Started(old(Abstract()))
      ensures Steps(old(Abstract()), if old(connected) then [Start, Draw(i), Register(i), Post(i)] else [Start], Abstract())
    {
      hide Inv, FreshDraw, Begun, Steps;
      i := |calls|;
      ghost var s := Abstract();
      Beginnings(s);
      if !connected {
        code := NOT_CONNECTED;
        calls := calls + [Call(Returned(NOT_CONNECTED, []), 0, 0, false, 1, [], 0)];
      } else {
        code := 0;
        BegunIs(s);
        var id := next_id;
        next_id, drawn := (next_id + 1) % IDS, drawn + 1;
        calls := calls + [Call(Waiting, drawn, id, false, 1, [], 0)];
        pending, entered := pending[id := i], entered[i := |frames|];
        tasks := tasks + [Write(i, swaps)];
        assert Abstract() == Begun(s);
      }
    }

    /** After a timeout: takes the call out of `pending`, or learns that the reader already has. */
    method GiveUp(i: nat) returns (claimedByReader: bool)
      requires Valid() && At(Abstract(), i, TimedOut)
      modifies `calls, `pending
      ensures Valid() && Abstract() == Reclaimed(old(Abstract()), i)
      ensures claimedByReader <==> !InPending(old(Abstract()), i)
      ensures claimedByReader && !calls[i].done ==> IsClaimed(Abstract(), i)
    {
      ghost var s := Abstract();
      ReclaimKeeps(s, i);
      assert CallOk(s, i);
      if calls[i].id in pending { OwnEntry(s, i); }
      claimedByReader := calls[i].id !in pending;
      if claimedByReader {
        calls := calls[i := calls[i].(phase := WaitingAgain)];
      } else {
        pending := pending - {calls[i].id};
        calls := calls[i := calls[i].(phase := Finished(false))];
      }
    }

    /** The end of Call(): its return value and `rsp`. */
    method EndCall(i: nat) returns (code: int, rsp: seq<nat>)
      requires Valid() && i < |calls| && calls[i].phase.Finished?
      modifies `calls
      ensures Valid() && Abstract() == Move(old(Abstract()), i, Returned(code, rsp)) == Next(old(Abstract()), Return(i))
      ensures old(calls[i].phase.ok) ==> code == (if calls[i].status == 0 then 0 else 1) && rsp == calls[i].data
      ensures !old(calls[i].phase.ok) ==> code == 1 && rsp == []
      ensures code == 0 ==> Answers(Abstract(), i, Frame(calls[i].id, 0, rsp))
      ensures calls[i].id !in pending
    {
      hide HasFrame;
      ghost var s := Abstract();
      ReturnKeeps(s, i);
      NotPending(s, i);
      assert CallOk(s, i);
      var ok := calls[i].phase.ok;
      code := if !ok || calls[i].status != 0 then 1 else 0;
      rsp := if ok then calls[i].data else [];
      calls := calls[i := calls[i].(phase := Returned(code, rsp))];
    }
  }

  lemma DeliveredKeeps(s: State)
    requires Inv(s) && s.claimed == None && HasFrame(s.readBuf)
    ensures TableBounded(s) && Inv(Delivered(s))
  {
    hide Inv, First, Rest, HasFrame;
    Bounded(s);
    ExtractKeeps(s);
    if Extracted(s).claimed.Some? { CompleteKeeps(Extracted(s)); }
  }

  lemma RanKeeps(s: State)
    requires Inv(s) && s.tasks != []
    ensures Inv(Ran(s))
  {
    hide Inv;
    SameCalls(s, Ran(s));
  }

  lemma Bounded(s: State)
    requires Inv(s)
    ensures TableBounded(s) && TableOk(s)
  {
  }

  /** The calls after those registered under `ids` have been completed with an error. */
  ghost function WokenCalls(s: State, ids: set<nat>): (calls: seq<Call>)
    ensures |calls| == |s.calls|
  {
    seq(|s.calls|, i requires 0 <= i < |s.calls| =>
      if s.calls[i].id in ids && InPending(s, i)
      then s.calls[i].(done := true, completions := s.calls[i].completions + 1) else s.calls[i])
  }

  lemma WokenNone(s: State)
    ensures WokenCalls(s, {}) == s.calls
  {
  }

  lemma WokenOne(s: State, ids: set<nat>, id: nat)
    requires TableOk(s) && id in s.pending && id !in ids
    ensures var k := s.pending[id];
            && k < |s.calls| && WokenCalls(s, ids)[k] == s.calls[k]
            && WokenCalls(s, ids + {id}) ==
               WokenCalls(s, ids)[k := s.calls[k].(done := true, completions := s.calls[k].completions + 1)]
  {
  }

  lemma WokenAll(s: State)
    requires TableOk(s)
    ensures WokenCalls(s, s.pending.Keys) == Woken(s).calls
  {
    forall i | 0 <= i < |s.calls|
      ensures i in s.pending.Values <==> InPending(s, i)
    {
    }
  }

  /** Starting, drawing, registering and posting in one go. */
  function Begun(s: State): State {
    var i := |s.calls|;
    Posted(Entered(Numbered(Started(s), i), i), i)
  }

  lemma BegunIs(s: State)
    ensures Begun(s) ==
            var c := Call(Waiting, s.drawn + 1, (s.drawn + 1) % IDS, false, 1, [], 0);
            if s.connected then
              s.(calls := s.calls + [c], pending := s.pending[c.id := |s.calls|], entered := s.entered[|s.calls| := |s.frames|],
                 tasks := s.tasks + [Write(|s.calls|, s.swaps)], drawn := s.drawn + 1)
            else Begun(s)
  {
    if s.connected {
      var i := |s.calls|;
      var c := Call(Waiting, s.drawn + 1, (s.drawn + 1) % IDS, false, 1, [], 0);
      assert Begun(s).calls == s.calls + [c];
    }
  }

  lemma BeginKeeps(s: State)
    requires Inv(s) && FreshDraw(s) && s.connected
    ensures Inv(Begun(s))
  {
    hide Inv, FreshDraw;
    var i := |s.calls|;
    StillFresh(s);
    StartKeeps(s);
    DrawKeeps(Started(s), i);
    RegisterKeeps(Numbered(Started(s), i), i);
    PostKeeps(Entered(Numbered(Started(s), i), i), i);
  }

  /** What BeginCall does is four steps of the calling thread, with nothing in between. */
  lemma BeginIsARun(s: State)
    requires s.connected
    ensures var i := |s.calls|; Steps(s, [Start, Draw(i), Register(i), Post(i)], Begun(s))
  {
    hide Steps, Posted, Entered, Numbered, Started;
    var i := |s.calls|;
    FirstHalf(s);
    var t := Numbered(Started(s), i);
    SecondHalf(t, i);
    StepsJoin(s, [Start, Draw(i)], t, [Register(i), Post(i)], Begun(s));
    assert [Start, Draw(i)] + [Register(i), Post(i)] == [Start, Draw(i), Register(i), Post(i)];
  }

  lemma Beginnings(s: State)
    requires Inv(s) && FreshDraw(s)
    ensures if s.connected then Inv(Begun(s)) && Steps(s, [Start, Draw(|s.calls|), Register(|s.calls|), Post(|s.calls|)], Begun(s))
            else Inv(Started(s)) && Steps(s, [Start], Started(s))
  {
    hide Inv, FreshDraw, Begun, Steps;
    if s.connected {
      BeginKeeps(s);
      BeginIsARun(s);
    } else {
      StartKeeps(s);
      OneStep(s, Start);
    }
  }

  lemma FirstHalf(s: State)
    requires s.connected
    ensures var i := |s.calls|;
            i < |Started(s).calls| && Steps(s, [Start, Draw(i)], Numbered(Started(s), i)) && At(Numbered(Started(s), i), i, Drawn)
  {
    hide Steps;
    var i := |s.calls|;
    OneStep(s, Start);
    OneStep(Started(s), Draw(i));
    StepsJoin(s, [Start], Started(s), [Draw(i)], Numbered(Started(s), i));
    assert [Start] + [Draw(i)] == [Start, Draw(i)];
  }

  lemma SecondHalf(s: State, i: nat)
    requires At(s, i, Drawn)
    ensures i < |Entered(s, i).calls| && Steps(s, [Register(i), Post(i)], Posted(Entered(s, i), i))
  {
    hide Steps;
    OneStep(s, Register(i));
    OneStep(Entered(s, i), Post(i));
    StepsJoin(s, [Register(i)], Entered(s, i), [Post(i)], Posted(Entered(s, i), i));
    assert [Register(i)] + [Post(i)] == [Register(i), Post(i)];
  }

  lemma StillFresh(s: State)
    requires FreshDraw(s) && s.connected
    ensures FreshDraw(Started(s))
  {
  }
}
