/** The pending-call protocol of the RPC channel as a machine of atomic steps, one per lock section: callers, the io
    thread that hands over frames, and whoever fails all pending calls (disconnect, reconnect, shutdown). */
module RpcChannel {
  import opened Options
  import opened Bytes
  import opened RpcFramer

  type CallId = nat   // a call in progress, whatever request id it carries

  // How far Call has come.
  datatype Phase =
    | Waiting          // registered, in the first wait
    | TimedOut         // first wait over without an answer, slot not yet reclaimed
    | WaitingAgain     // the slot was gone: somebody else is completing the call
    | Finishing(ok: bool)
    | Returned(code: int, rsp: seq<byte>)

  // A PendingCall and the Call that owns it; reclaimed says that the caller took its slot back after a timeout.
  datatype Call = Call(id: nat, phase: Phase, done: bool, status: byte, data: seq<byte>, reclaimed: bool)

  datatype Cause = ByFrame(frame: Frame) | ByFailure

  datatype Event = Completed(call: CallId, cause: Cause)


  /** next and tickets: the calls let in so far and the turn each got at the id counter; calls: every call ever
      registered; pending: the map under pending_mu; held: what the io thread took out of pending
      and has not completed yet; failing: the ids failPending has still to visit while it holds pending_mu. */
  datatype State = State(connected: bool, next: nat, tickets: map<CallId, nat>,
                         calls: map<CallId, Call>, pending: map<nat, CallId>, held: Option<(CallId, Frame)>,
                         failing: Option<set<nat>>, log: seq<Event>)

  const INITIAL := State(false, 0, map[], map[], map[], None, None, [])

  datatype Step =
    | SetConnected(b: bool)
    | Begin(c: CallId)                  // connected: the call draws its request id
    | Register(c: CallId)               // PendingCall made and put into pending
    | Take(frame: Frame)                // processBuffer: look the id up and remove it
    | Complete(c: CallId)               // processBuffer: fill in the call that was taken
    | FailBegin
    | FailOne(id: nat)
    | FailEnd
    | WaitDone(c: CallId)
    | WaitTimeout(c: CallId)
    | Reclaim(c: CallId)
    | Return(c: CallId)

  predicate InFlight(call: Call) { !call.phase.Returned? }

  function SetPhase(s: State, c: CallId, p: Phase): State
    requires c in s.calls
  {
    s.(calls := s.calls[c := s.calls[c].(phase := p)])
  }

  // The value Call returns, with the bytes it hands back.
  function Outcome(call: Call): Phase
    requires call.phase.Finishing?
  {
    if !call.phase.ok then Returned(1, [])
    else if call.status != 0 then Returned(1, call.data)
    else Returned(0, call.data)
  }

  // The id counter starts at 1 and wraps at 2^32.
  function RequestId(ticket: nat): nat { (1 + ticket) % 0x1_0000_0000 }

  // No call in flight carries the id.
  predicate Unused(s: State, id: nat) {
    forall d :: d in s.calls && InFlight(s.calls[d]) ==> s.calls[d].id != id
  }

  predicate Enabled(s: State, step: Step) {
    match step
    case SetConnected(_) => true
    case Begin(c) => s.connected && c !in s.tickets
    case Register(c) => s.failing.None? && c in s.tickets && c !in s.calls && Unused(s, RequestId(s.tickets[c]))
    case Take(frame) => s.failing.None? && s.held.None?
    case Complete(c) => s.held.Some? && s.held.value.0 == c && c in s.calls
    case FailBegin => s.failing.None?
    case FailOne(id) => s.failing.Some? && id in s.failing.value && id in s.pending && s.pending[id] in s.calls
    case FailEnd => s.failing == Some({})
    case WaitDone(c) => c in s.calls && s.calls[c].done && (s.calls[c].phase.Waiting? || s.calls[c].phase.WaitingAgain?)
    case WaitTimeout(c) => c in s.calls && !s.calls[c].done && (s.calls[c].phase.Waiting? || s.calls[c].phase.WaitingAgain?)
    case Reclaim(c) => s.failing.None? && c in s.calls && s.calls[c].phase.TimedOut?
    case Return(c) => c in s.calls && s.calls[c].phase.Finishing?
  }

  function Apply(s: State, step: Step): State
    requires Enabled(s, step)
  {
    match step
    case SetConnected(b) => s.(connected := b)
    case Begin(c) => s.(next := s.next + 1, tickets := s.tickets[c := s.next])
    case Register(c) =>
      var id := RequestId(s.tickets[c]);
      s.(calls := s.calls[c := Call(id, Waiting, false, 1, [], false)], pending := s.pending[id := c])
    case Take(frame) =>
      if frame.id in s.pending then
        s.(held := Some((s.pending[frame.id], frame)), pending := s.pending - {frame.id})
      else s
    case Complete(c) =>
      var f := s.held.value.1;
      s.(calls := s.calls[c := s.calls[c].(status := f.status, data := f.data, done := true)], held := None,
         log := s.log + [Completed(c, ByFrame(f))])
    case FailBegin => s.(failing := Some(s.pending.Keys))
    case FailOne(id) =>
      var c := s.pending[id];
      s.(calls := s.calls[c := s.calls[c].(done := true, status := 1)], failing := Some(s.failing.value - {id}),
         log := s.log + [Completed(c, ByFailure)])
    case FailEnd => s.(pending := map[], failing := None)
    case WaitDone(c) => SetPhase(s, c, Finishing(true))
    case WaitTimeout(c) =>
      if s.calls[c].phase.Waiting? then SetPhase(s, c, TimedOut) else SetPhase(s, c, Finishing(false))
    case Reclaim(c) =>
      var id := s.calls[c].id;
      if id in s.pending then
        s.(calls := s.calls[c := s.calls[c].(phase := Finishing(false), reclaimed := true)], pending := s.pending - {id})
      else SetPhase(s, c, WaitingAgain)
    case Return(c) => SetPhase(s, c, Outcome(s.calls[c]))
  }

  // The state after a run, if every step of it was enabled.
  function Exec(steps: seq<Step>): Option<State> {
    if steps == [] then Some(INITIAL)
    else
      var before, last := Exec(steps[..|steps| - 1]), steps[|steps| - 1];
      if before.Some? && Enabled(before.value, last) then Some(Apply(before.value, last)) else None
  }

  /* ---------- the invariant ---------- */

  // How often the log completes call c.
  function Completions(log: seq<Event>, c: CallId): nat {
    if log == [] then 0
    else Completions(log[..|log| - 1], c) + if log[|log| - 1].call == c then 1 else 0
  }

  predicate Held(s: State, c: CallId) { s.held.Some? && s.held.value.0 == c }

  predicate InPending(s: State, c: CallId)
    requires c in s.calls
  {
    s.calls[c].id in s.pending && s.pending[s.calls[c].id] == c
  }

  // What holds of one call.
  predicate CallOk(s: State, c: CallId)
    requires c in s.calls
  {
    var call := s.calls[c];
    && Completions(s.log, c) == (if call.done then 1 else 0)
    && (call.phase.Waiting? || call.phase.TimedOut? ==> call.done || InPending(s, c) || Held(s, c))
    && (call.phase.WaitingAgain? ==> call.done || Held(s, c))
    && (call.phase == Finishing(true) ==> call.done)
    && (call.phase.Returned? && call.phase.code == 0 ==> call.done && call.status == 0 && call.phase.rsp == call.data)
    && (call.reclaimed ==> !call.done && !InPending(s, c) && !Held(s, c))
    && (call.reclaimed ==> call.phase == Finishing(false) || call.phase == Returned(1, []))
    && (Held(s, c) ==> !call.done && s.held.value.1.id == call.id && !InPending(s, c))
    && (InPending(s, c) && !call.done ==> call.phase.Waiting? || call.phase.TimedOut?)
  }

  // What holds of one slot of the map: its call carries its id, and is done only if failPending has been there already.
  predicate SlotOk(s: State, id: nat)
    requires id in s.pending
  {
    && s.pending[id] in s.calls && s.calls[s.pending[id]].id == id
    && (s.calls[s.pending[id]].done <==> s.failing.Some? && id !in s.failing.value)
  }

  // What holds of one completion: it filled in the call, with a frame of the call's own id or a failure.
  predicate EventOk(s: State, e: Event) {
    && e.call in s.calls && s.calls[e.call].done
    && match e.cause
       case ByFrame(f) => f.id == s.calls[e.call].id && s.calls[e.call].status == f.status && s.calls[e.call].data == f.data
       case ByFailure => s.calls[e.call].status == 1
  }

  ghost predicate Inv(s: State) {
    && (forall c :: c in s.calls ==> CallOk(s, c))
    && (forall id :: id in s.pending ==> SlotOk(s, id))
    && (forall i :: 0 <= i < |s.log| ==> EventOk(s, s.log[i]))
    && (forall c :: c !in s.calls ==> Completions(s.log, c) == 0)
    && (s.held.Some? ==> s.held.value.0 in s.calls)
    && (s.failing.Some? ==> s.failing.value <= s.pending.Keys)
    && (forall c, d :: c in s.calls && d in s.calls && c != d && InFlight(s.calls[c]) && InFlight(s.calls[d]) ==>
          s.calls[c].id != s.calls[d].id)
  }

  lemma CompletionsAppend(log: seq<Event>, e: Event, c: CallId)
    ensures Completions(log + [e], c) == Completions(log, c) + if e.call == c then 1 else 0
  {
    assert (log + [e])[..|log|] == log;
  }

  lemma CallFacts(s: State, c: CallId)
    requires Inv(s) && c in s.calls
    ensures CallOk(s, c)
  {
  }

  // A call that is not done is not in the log.
  lemma NotLogged(s: State, c: CallId)
    requires Inv(s) && c in s.calls && !s.calls[c].done
    ensures forall i :: 0 <= i < |s.log| ==> s.log[i].call != c
  {
    forall i | 0 <= i < |s.log| ensures s.log[i].call != c {
      assert EventOk(s, s.log[i]);
    }
  }

  // A step that only moves call c on.
  lemma PhaseOk(s: State, c: CallId, p: Phase)
    requires Inv(s) && c in s.calls && InFlight(s.calls[c]) && CallOk(SetPhase(s, c, p), c)
    ensures Inv(SetPhase(s, c, p))
  {
    hide Completions;
    var t := SetPhase(s, c, p);
    forall d | d in t.calls ensures CallOk(t, d) {
      assert CallOk(s, d);
    }
    forall id | id in t.pending ensures SlotOk(t, id) {
      assert SlotOk(s, id);
    }
    forall i | 0 <= i < |t.log| ensures EventOk(t, t.log[i]) {
      assert EventOk(s, s.log[i]);
    }
  }

  lemma RegisterCall(s: State, c: CallId, d: CallId)
    requires Inv(s) && Enabled(s, Register(c)) && d in Apply(s, Register(c)).calls
    ensures CallOk(Apply(s, Register(c)), d)
  {
    hide Completions, RequestId;
    if d in s.calls { assert CallOk(s, d); }
  }

  lemma RegisterOk(s: State, c: CallId)
    requires Inv(s) && Enabled(s, Register(c))
    ensures Inv(Apply(s, Register(c)))
  {
    hide Completions, CallOk, RequestId;
    var t := Apply(s, Register(c));
    forall d | d in t.calls ensures CallOk(t, d) {
      RegisterCall(s, c, d);
    }
    forall i | i in t.pending ensures SlotOk(t, i) {
      if i in s.pending { assert SlotOk(s, i); }
    }
    forall i | 0 <= i < |t.log| ensures EventOk(t, t.log[i]) {
      if i < |s.log| { assert t.log[i] == s.log[i] && EventOk(s, s.log[i]); }
    }
  }

  // Steps that leave calls, map and log alone.
  lemma IdleOk(s: State, step: Step)
    requires Inv(s) && Enabled(s, step) && (step.SetConnected? || step.Begin?)
    ensures Inv(Apply(s, step))
  {
    hide Completions;
    var t := Apply(s, step);
    forall d | d in t.calls ensures CallOk(t, d) {
      assert CallOk(s, d);
    }
    forall i | i in t.pending ensures SlotOk(t, i) {
      assert SlotOk(s, i);
    }
    forall i | 0 <= i < |t.log| ensures EventOk(t, t.log[i]) {
      assert EventOk(s, s.log[i]);
    }
  }

  lemma TakeOk(s: State, frame: Frame)
    requires Inv(s) && Enabled(s, Take(frame))
    ensures Inv(Apply(s, Take(frame)))
  {
    hide Completions;
    var t := Apply(s, Take(frame));
    forall d | d in t.calls ensures CallOk(t, d) {
      if d in s.calls { assert CallOk(s, d); }
    }
    forall i | i in t.pending ensures SlotOk(t, i) {
      if i in s.pending { assert SlotOk(s, i); }
    }
    forall i | 0 <= i < |t.log| ensures EventOk(t, t.log[i]) {
      if i < |s.log| { assert t.log[i] == s.log[i] && EventOk(s, s.log[i]); }
    }
  }

  lemma CompleteCall(s: State, c: CallId, d: CallId)
    requires Inv(s) && Enabled(s, Complete(c)) && d in Apply(s, Complete(c)).calls
    ensures CallOk(Apply(s, Complete(c)), d)
  {
    hide Completions;
    assert CallOk(s, c);
    CompletionsAppend(s.log, Completed(c, ByFrame(s.held.value.1)), d);
    if d in s.calls { assert CallOk(s, d); }
  }

  lemma CompleteOk(s: State, c: CallId)
    requires Inv(s) && Enabled(s, Complete(c))
    ensures Inv(Apply(s, Complete(c)))
  {
    hide Completions, CallOk;
    var t, e := Apply(s, Complete(c)), Completed(c, ByFrame(s.held.value.1));
    forall d ensures Completions(s.log + [e], d) == Completions(s.log, d) + if e.call == d then 1 else 0 {
      CompletionsAppend(s.log, e, d);
    }
    HeldFacts(s, c);
    assert forall i :: 0 <= i < |s.log| ==> s.log[i].call != c by { NotLogged(s, c); }
    forall d | d in t.calls ensures CallOk(t, d) {
      CompleteCall(s, c, d);
    }
    forall i | i in t.pending ensures SlotOk(t, i) {
      if i in s.pending { assert SlotOk(s, i); }
    }
    forall i | 0 <= i < |t.log| ensures EventOk(t, t.log[i]) {
      if i < |s.log| { assert t.log[i] == s.log[i] && EventOk(s, s.log[i]); }
    }
  }

  lemma FailBeginOk(s: State)
    requires Inv(s) && Enabled(s, FailBegin)
    ensures Inv(Apply(s, FailBegin))
  {
    hide Completions;
  }

  lemma FailOneCall(s: State, id: nat, d: CallId)
    requires Inv(s) && Enabled(s, FailOne(id)) && d in Apply(s, FailOne(id)).calls
    ensures CallOk(Apply(s, FailOne(id)), d)
  {
    hide Completions;
    assert SlotOk(s, id);
    assert CallOk(s, s.pending[id]);
    CompletionsAppend(s.log, Completed(s.pending[id], ByFailure), d);
    if d in s.calls { assert CallOk(s, d); }
  }

  lemma FailOneOk(s: State, id: nat)
    requires Inv(s) && Enabled(s, FailOne(id))
    ensures Inv(Apply(s, FailOne(id)))
  {
    hide Completions, CallOk;
    var c := s.pending[id];
    var t, e := Apply(s, FailOne(id)), Completed(c, ByFailure);
    assert SlotOk(s, id);
    forall d ensures Completions(s.log + [e], d) == Completions(s.log, d) + if e.call == d then 1 else 0 {
      CompletionsAppend(s.log, e, d);
    }
    assert forall i :: 0 <= i < |s.log| ==> s.log[i].call != c by { NotLogged(s, c); }
    forall d | d in t.calls ensures CallOk(t, d) {
      FailOneCall(s, id, d);
    }
    forall i | i in t.pending ensures SlotOk(t, i) {
      if i in s.pending { assert SlotOk(s, i); }
    }
    forall i | 0 <= i < |t.log| ensures EventOk(t, t.log[i]) {
      if i < |s.log| { assert t.log[i] == s.log[i] && EventOk(s, s.log[i]); }
    }
  }

  lemma FailEndOk(s: State)
    requires Inv(s) && Enabled(s, FailEnd)
    ensures Inv(Apply(s, FailEnd))
  {
    hide Completions;
  }

  lemma WaitDoneOk(s: State, c: CallId)
    requires Inv(s) && Enabled(s, WaitDone(c))
    ensures Inv(Apply(s, WaitDone(c)))
  {
    hide Completions, Inv;
    CallFacts(s, c);
    PhaseOk(s, c, Finishing(true));
  }

  lemma WaitTimeoutOk(s: State, c: CallId)
    requires Inv(s) && Enabled(s, WaitTimeout(c))
    ensures Inv(Apply(s, WaitTimeout(c)))
  {
    hide Completions, Inv;
    CallFacts(s, c);
    PhaseOk(s, c, if s.calls[c].phase.Waiting? then TimedOut else Finishing(false));
  }

  // A timed-out caller finds its own call in its slot, or nothing.
  lemma ReclaimOwn(s: State, c: CallId)
    requires Inv(s) && Enabled(s, Reclaim(c)) && s.calls[c].id in s.pending
    ensures s.pending[s.calls[c].id] == c && !s.calls[c].done && !Held(s, c)
  {
    hide Completions;
    var id := s.calls[c].id;
    assert CallOk(s, c);
    assert SlotOk(s, id);
    assert CallOk(s, s.pending[id]);
  }

  lemma HeldFacts(s: State, c: CallId)
    requires Inv(s) && c in s.calls && Held(s, c)
    ensures !s.calls[c].done && s.held.value.1.id == s.calls[c].id && !InPending(s, c)
  {
    hide Completions;
    assert CallOk(s, c);
  }

  // The slot was still there: the caller takes it back.
  lemma ReclaimCall(s: State, c: CallId, d: CallId)
    requires Inv(s) && Enabled(s, Reclaim(c)) && s.calls[c].id in s.pending && d in s.calls
    ensures CallOk(Apply(s, Reclaim(c)), d)
  {
    hide Completions, Inv;
    CallFacts(s, d);
    ReclaimOwn(s, c);
  }

  // It was gone: somebody else is completing the call.
  lemma ReclaimLate(s: State, c: CallId)
    requires Inv(s) && Enabled(s, Reclaim(c)) && s.calls[c].id !in s.pending
    ensures CallOk(Apply(s, Reclaim(c)), c)
  {
    hide Completions, Inv;
    CallFacts(s, c);
  }

  lemma ReclaimOk(s: State, c: CallId)
    requires Inv(s) && Enabled(s, Reclaim(c))
    ensures Inv(Apply(s, Reclaim(c)))
  {
    hide Completions, CallOk;
    var t := Apply(s, Reclaim(c));
    var id := s.calls[c].id;
    if id in s.pending {
      ReclaimOwn(s, c);
      forall d | d in t.calls ensures CallOk(t, d) {
        ReclaimCall(s, c, d);
      }
      forall i | i in t.pending ensures SlotOk(t, i) {
        if i in s.pending { assert SlotOk(s, i); }
      }
      forall i | 0 <= i < |t.log| ensures EventOk(t, t.log[i]) {
        if i < |s.log| { assert t.log[i] == s.log[i] && EventOk(s, s.log[i]); }
      }
    } else {
      ReclaimLate(s, c);
      PhaseOk(s, c, WaitingAgain);
    }
  }

  lemma ReturnOk(s: State, c: CallId)
    requires Inv(s) && Enabled(s, Return(c))
    ensures Inv(Apply(s, Return(c)))
  {
    hide Completions, Inv;
    CallFacts(s, c);
    PhaseOk(s, c, Outcome(s.calls[c]));
  }

  lemma Preserved(s: State, step: Step)
    requires Inv(s) && Enabled(s, step)
    ensures Inv(Apply(s, step))
  {
    hide Inv, Apply, Enabled;
    match step
    case SetConnected(b) => IdleOk(s, step);
    case Begin(c) => IdleOk(s, step);
    case Register(c) => RegisterOk(s, c);
    case Take(frame) => TakeOk(s, frame);
    case Complete(c) => CompleteOk(s, c);
    case FailBegin => FailBeginOk(s);
    case FailOne(id) => FailOneOk(s, id);
    case FailEnd => FailEndOk(s);
    case WaitDone(c) => WaitDoneOk(s, c);
    case WaitTimeout(c) => WaitTimeoutOk(s, c);
    case Reclaim(c) => ReclaimOk(s, c);
    case Return(c) => ReturnOk(s, c);
  }

  lemma {:induction false} Reachable(steps: seq<Step>)
    requires Exec(steps).Some?
    ensures Inv(Exec(steps).value)
  {
    if steps != [] {
      hide Inv, Apply, Enabled;
      Reachable(steps[..|steps| - 1]);
      Preserved(Exec(steps[..|steps| - 1]).value, steps[|steps| - 1]);
    } else {
      InitialOk();
    }
  }

  lemma InitialOk() ensures Inv(INITIAL) {}

  /* ---------- what every run guarantees ---------- */

  // Each call is completed at most once, and it is done exactly when it has been completed.
  lemma CompletedAtMostOnce(steps: seq<Step>, c: CallId)
    requires Exec(steps).Some?
    ensures Completions(Exec(steps).value.log, c) <= 1
    ensures c in Exec(steps).value.calls ==>
              (Exec(steps).value.calls[c].done <==> Completions(Exec(steps).value.log, c) == 1)
  {
    hide Completions, Exec;
    Reachable(steps);
    var s := Exec(steps).value;
    if c in s.calls { CallFacts(s, c); }
  }

  // A completion comes from a frame with the call's own id, handed over earlier, or from failPending.
  lemma CompletionHasCause(steps: seq<Step>, i: nat)
    requires Exec(steps).Some? && i < |Exec(steps).value.log|
    ensures var s, e := Exec(steps).value, Exec(steps).value.log[i];
            e.call in s.calls && (e.cause.ByFrame? ==> e.cause.frame.id == s.calls[e.call].id && Take(e.cause.frame) in steps)
  {
    hide Completions, Exec, Enabled, Apply;
    Reachable(steps);
    FramesWereTaken(steps);
    var s := Exec(steps).value;
    assert EventOk(s, s.log[i]);
  }

  lemma TakenStep(s: State, step: Step)
    requires Enabled(s, step)
    ensures var t := Apply(s, step);
            (t.held.Some? ==> t.held == s.held || step == Take(t.held.value.1)) &&
            forall i :: 0 <= i < |t.log| && t.log[i].cause.ByFrame? ==>
              (i < |s.log| && t.log[i] == s.log[i]) || (s.held.Some? && t.log[i].cause.frame == s.held.value.1)
  {
  }

  lemma {:induction false} FramesWereTaken(steps: seq<Step>)
    requires Exec(steps).Some?
    ensures var s := Exec(steps).value;
            (s.held.Some? ==> Take(s.held.value.1) in steps) &&
            forall i :: 0 <= i < |s.log| && s.log[i].cause.ByFrame? ==> Take(s.log[i].cause.frame) in steps
  {
    if steps != [] {
      var before, last := steps[..|steps| - 1], steps[|steps| - 1];
      hide Apply, Enabled;
      FramesWereTaken(before);
      TakenStep(Exec(before).value, last);
      assert steps == before + [last];
      assert forall x :: x in before ==> x in steps;
    }
  }

  // Call succeeds only with the payload of a frame that carried its id and status 0.
  lemma SuccessIsAnswered(steps: seq<Step>, c: CallId, rsp: seq<byte>)
    requires Exec(steps).Some? && c in Exec(steps).value.calls && Exec(steps).value.calls[c].phase == Returned(0, rsp)
    ensures exists f :: Completed(c, ByFrame(f)) in Exec(steps).value.log && Take(f) in steps
                        && f.id == Exec(steps).value.calls[c].id && f.status == 0 && f.data == rsp
  {
    hide Exec, Enabled, Apply;
    Reachable(steps);
    var s := Exec(steps).value;
    CallFacts(s, c);
    var i := LoggedAt(s.log, c);
    assert EventOk(s, s.log[i]);
    CompletionHasCause(steps, i);
    assert s.log[i] == Completed(c, ByFrame(s.log[i].cause.frame));
  }

  lemma {:induction false} LoggedAt(log: seq<Event>, c: CallId) returns (i: nat)
    requires Completions(log, c) > 0
    ensures i < |log| && log[i].call == c
  {
    if log[|log| - 1].call == c {
      i := |log| - 1;
    } else {
      i := LoggedAt(log[..|log| - 1], c);
    }
  }

  // Once a timed-out caller has its slot back, nothing ever completes its call, whatever arrives afterwards.
  lemma ReclaimedStaysUndone(steps: seq<Step>, c: CallId)
    requires Exec(steps).Some? && c in Exec(steps).value.calls && Exec(steps).value.calls[c].reclaimed
    ensures Completions(Exec(steps).value.log, c) == 0 && !Exec(steps).value.calls[c].done
    ensures Exec(steps).value.calls[c].phase == Finishing(false) || Exec(steps).value.calls[c].phase == Returned(1, [])
  {
    hide Exec, Completions;
    Reachable(steps);
    CallFacts(Exec(steps).value, c);
  }

  lemma ReclaimedStep(s: State, step: Step, c: CallId)
    requires Enabled(s, step) && c in s.calls && s.calls[c].reclaimed
    ensures c in Apply(s, step).calls && Apply(s, step).calls[c].reclaimed
  {
  }

  // A slot once reclaimed stays reclaimed along every continuation of the run.
  lemma {:induction false} ReclaimedStays(steps: seq<Step>, more: seq<Step>, c: CallId)
    requires Exec(steps).Some? && c in Exec(steps).value.calls && Exec(steps).value.calls[c].reclaimed
    requires Exec(steps + more).Some?
    ensures c in Exec(steps + more).value.calls && Exec(steps + more).value.calls[c].reclaimed
    decreases |more|
  {
    hide Apply, Enabled;
    if more == [] {
      assert steps + more == steps;
    } else {
      var less := more[..|more| - 1];
      assert (steps + more)[..|steps + more| - 1] == steps + less;
      ReclaimedStays(steps, less, c);
      ReclaimedStep(Exec(steps + less).value, more[|more| - 1], c);
    }
  }

  // The second wait is only for a completion under way.
  lemma SecondWaitIsForReader(steps: seq<Step>, c: CallId)
    requires Exec(steps).Some? && c in Exec(steps).value.calls && Exec(steps).value.calls[c].phase.WaitingAgain?
    ensures Exec(steps).value.calls[c].done || Held(Exec(steps).value, c)
  {
    hide Exec, Completions;
    Reachable(steps);
    CallFacts(Exec(steps).value, c);
  }

  // After failPending no call is left waiting but the one the io thread is filling in.
  lemma FailureReachesAll(steps: seq<Step>, c: CallId)
    requires Exec(steps).Some? && steps != [] && steps[|steps| - 1] == FailEnd
    requires c in Exec(steps).value.calls && Exec(steps).value.calls[c].phase.Waiting?
    ensures Exec(steps).value.calls[c].done || Held(Exec(steps).value, c)
  {
    hide Completions;
    Reachable(steps);
    CallFacts(Exec(steps).value, c);
  }

  /* ---------- request ids ---------- */

  ghost predicate TicketsOk(s: State) {
    && (forall c :: c in s.tickets ==> s.tickets[c] < s.next)
    && (forall c, d :: c in s.tickets && d in s.tickets && c != d ==> s.tickets[c] != s.tickets[d])
    && (forall c :: c in s.calls ==> c in s.tickets && s.calls[c].id == RequestId(s.tickets[c]))
  }

  // Only Begin and Register touch tickets and ids.
  lemma IdsKept(s: State, step: Step)
    requires Enabled(s, step) && !step.Begin? && !step.Register? && (forall id :: id in s.pending ==> s.pending[id] in s.calls)
    ensures var t := Apply(s, step);
      && t.tickets == s.tickets && t.next == s.next && t.calls.Keys == s.calls.Keys
      && forall c :: c in s.calls ==> t.calls[c].id == s.calls[c].id
  {
    hide Outcome, Unused;
  }

  lemma TicketsStep(s: State, step: Step)
    requires TicketsOk(s) && Enabled(s, step) && (forall id :: id in s.pending ==> s.pending[id] in s.calls)
    ensures TicketsOk(Apply(s, step))
  {
    hide RequestId, Unused;
    if !step.Begin? && !step.Register? {
      hide Apply, Enabled;
      IdsKept(s, step);
    }
  }

  lemma {:induction false} TicketsReachable(steps: seq<Step>)
    requires Exec(steps).Some?
    ensures TicketsOk(Exec(steps).value)
  {
    if steps != [] {
      hide Apply, Enabled, TicketsOk;
      var before := steps[..|steps| - 1];
      TicketsReachable(before);
      Reachable(before);
      var s := Exec(before).value;
      forall id | id in s.pending ensures s.pending[id] in s.calls {
        assert SlotOk(s, id);
      }
      TicketsStep(s, steps[|steps| - 1]);
    }
  }

  // Until the counter has wrapped, no two calls share an id, so registering is never held up by one in flight.
  lemma IdsDistinctUntilWrap(steps: seq<Step>, c: CallId)
    requires Exec(steps).Some? && Exec(steps).value.next <= 0x1_0000_0000
    requires c in Exec(steps).value.tickets && c !in Exec(steps).value.calls
    ensures Unused(Exec(steps).value, RequestId(Exec(steps).value.tickets[c]))
  {
    hide Exec, TicketsOk, RequestId, Unused;
    TicketsReachable(steps);
    OtherTickets(Exec(steps).value, c);
  }

  lemma OtherTickets(s: State, c: CallId)
    requires TicketsOk(s) && s.next <= 0x1_0000_0000 && c in s.tickets && c !in s.calls
    ensures Unused(s, RequestId(s.tickets[c]))
  {
    hide RequestId;
    forall d | d in s.calls && InFlight(s.calls[d]) ensures s.calls[d].id != RequestId(s.tickets[c]) {
      RequestIdsDiffer(s.tickets[c], s.tickets[d]);
    }
  }

  lemma RequestIdsDiffer(a: nat, b: nat)
    requires a < 0x1_0000_0000 && b < 0x1_0000_0000 && a != b
    ensures RequestId(a) != RequestId(b)
  {
  }
}
