/** Request/response on the shared control channel: sendRequest, its timeout and
    background drain, and the readControl demux, as interleaved steps
    (pkg/client/client.go, pkg/client/stream.go). */
module Rpc {
  import opened Prelude

  /** One sendRequest call: at drainWg.Wait, past it, holding rpcMu, waiting for
      the response to its own request number, or returned. */
  datatype Call =
    | AtWait | Passed | Locked
    | Awaiting(req: nat)
    | Answered(req: nat, got: nat)  // success: the response received answers request `got`
    | TimedOut | Failed

  /** Where the single reply to a request is; frames on the wire may be overtaken
      (MsgWait is answered from its own goroutine). */
  datatype Place = AtDaemon | OnWire | InSlot | Taken

  /** `replies[r]` places the reply to request `r`, one entry per request written;
      `slot` is the one-place responses channel, `events` counts event frames on
      the wire, `drains` the drain goroutines. `misused` records a call begun
      beside another one, or a request written after Close started. */
  datatype State = State(
    calls: map<nat, Call>, replies: seq<Place>, slot: Option<nat>, events: nat, drains: nat,
    done: bool, readerGone: bool, misused: bool)

  const START := State(map[], [], None, 0, 0, false, false, false)

  datatype Step =
    | Begin(i: nat) | PassWait(i: nat) | Lock(i: nat)
    | Write(i: nat, ok: bool) | Receive(i: nat) | ReceiveClosed(i: nat) | Timeout(i: nat)
    | DrainReceives | DrainSeesClosed | DrainSeesDone
    | DaemonReplies(req: nat) | DaemonEmitsEvent
    | RouteReply(req: nat) | RouteEvent | CloseDone | ReaderExits

  predicate At(s: State, i: nat, c: Call) {
    i in s.calls && s.calls[i] == c
  }

  predicate IsAwaiting(s: State, i: nat) {
    i in s.calls && s.calls[i].Awaiting?
  }

  predicate Active(c: Call) {
    c.AtWait? || c.Passed? || c.Locked? || c.Awaiting?
  }

  predicate LockHeld(s: State) {
    exists i <- s.calls :: s.calls[i].Locked? || s.calls[i].Awaiting?
  }

  predicate SlotReady(s: State) {
    s.slot.Some? && s.slot.value < |s.replies|
  }

  predicate Enabled(s: State, st: Step) {
    match st
    case Begin(i) => i !in s.calls
    case PassWait(i) => At(s, i, AtWait) && s.drains == 0
    case Lock(i) => At(s, i, Passed) && !LockHeld(s)
    case Write(i, _) => At(s, i, Locked)
    case Receive(i) => IsAwaiting(s, i) && SlotReady(s)
    case ReceiveClosed(i) => IsAwaiting(s, i) && s.slot.None? && s.readerGone
    case Timeout(i) => IsAwaiting(s, i)
    case DrainReceives => 0 < s.drains && SlotReady(s)
    case DrainSeesClosed => 0 < s.drains && s.slot.None? && s.readerGone
    case DrainSeesDone => 0 < s.drains && s.done
    case DaemonReplies(r) => r < |s.replies| && s.replies[r] == AtDaemon
    case DaemonEmitsEvent => true
    case RouteReply(r) => !s.readerGone && r < |s.replies| && s.replies[r] == OnWire && s.slot.None?
    case RouteEvent => !s.readerGone && 0 < s.events
    case CloseDone => !s.done
    case ReaderExits => !s.readerGone
  }

  function Take(s: State): State
    requires SlotReady(s)
  {
    s.(slot := None, replies := s.replies[s.slot.value := Taken])
  }

  function Apply(s: State, st: Step): State
    requires Enabled(s, st)
  {
    match st
    case Begin(i) =>
      s.(calls := s.calls[i := AtWait],
         misused := s.misused || exists j <- s.calls :: Active(s.calls[j]))
    case PassWait(i) => s.(calls := s.calls[i := Passed])
    case Lock(i) => s.(calls := s.calls[i := Locked])
    case Write(i, ok) =>
      if ok then
        s.(calls := s.calls[i := Awaiting(|s.replies|)], replies := s.replies + [AtDaemon],
           misused := s.misused || s.done)
      else s.(calls := s.calls[i := Failed])
    case Receive(i) => Take(s).(calls := s.calls[i := Answered(s.calls[i].req, s.slot.value)])
    case ReceiveClosed(i) => s.(calls := s.calls[i := Failed])
    case Timeout(i) => s.(calls := s.calls[i := TimedOut], drains := s.drains + 1)
    case DrainReceives => Take(s).(drains := s.drains - 1)
    case DrainSeesClosed => s.(drains := s.drains - 1)
    case DrainSeesDone => s.(drains := s.drains - 1)
    case DaemonReplies(r) => s.(replies := s.replies[r := OnWire])
    case DaemonEmitsEvent => s.(events := s.events + 1)
    case RouteReply(r) => s.(replies := s.replies[r := InSlot], slot := Some(r))
    case RouteEvent => s.(events := s.events - 1)
    case CloseDone => s.(done := true)
    case ReaderExits => s.(readerGone := true)
  }

  function Exec(s: State, steps: seq<Step>): Option<State>
    decreases |steps|
  {
    if steps == [] then Some(s)
    else if Enabled(s, steps[0]) then Exec(Apply(s, steps[0]), steps[1..])
    else None
  }

  // ----- One call at a time -----

  /** A receiver may still be handed the reply to request `r`. */
  predicate Coming(s: State, r: nat) {
    || s.slot == Some(r)
    || (!s.readerGone && r < |s.replies| && (s.replies[r] == AtDaemon || s.replies[r] == OnWire))
  }

  predicate NoneComing(s: State) {
    s.slot.None? && (s.readerGone || forall r :: 0 <= r < |s.replies| ==> s.replies[r] == Taken)
  }

  /** Nothing but the reply to the newest request may still come. */
  predicate OnlyNewestComing(s: State) {
    && s.replies != []
    && (s.slot.Some? ==> s.slot.value == |s.replies| - 1)
    && (s.readerGone || forall r :: 0 <= r < |s.replies| - 1 ==> s.replies[r] == Taken)
    && (s.slot.Some? <==> s.replies[|s.replies| - 1] == InSlot)
  }

  /** What a call may assume about the replies still coming. */
  predicate CallReady(s: State, c: Call) {
    match c
    case Passed => s.drains == 0 && (s.done || NoneComing(s))
    case Locked => s.drains == 0 && (s.done || NoneComing(s))
    case Awaiting(r) => s.drains == 0 && r == |s.replies| - 1 && OnlyNewestComing(s)
    case Answered(r, got) => r == got
    case _ => true
  }

  predicate OneActive(s: State) {
    forall i, j :: i in s.calls && j in s.calls && Active(s.calls[i]) && Active(s.calls[j]) ==> i == j
  }

  predicate NoneAwaiting(s: State) {
    forall i <- s.calls :: !s.calls[i].Awaiting?
  }

  /** At most one reply is coming: the one the waiting call, or the single drain, waits for. */
  predicate Accounted(s: State) {
    && OneActive(s)
    && (forall i <- s.calls :: CallReady(s, s.calls[i]))
    && s.drains <= 1
    && (s.drains == 1 ==> s.done || OnlyNewestComing(s))
    && (s.drains == 0 && NoneAwaiting(s) ==> s.done || NoneComing(s))
  }

  predicate OwnResponses(s: State) {
    forall i <- s.calls :: s.calls[i].Answered? ==> s.calls[i].got == s.calls[i].req
  }

  /** A step that only moves replies keeps the accounts if it keeps these two facts. */
  lemma ChannelKeepsAccounts(s: State, t: State)
    requires Accounted(s) && t.calls == s.calls && |t.replies| == |s.replies| && t.drains == s.drains
    requires s.done ==> t.done
    requires NoneComing(s) ==> NoneComing(t)
    requires OnlyNewestComing(s) ==> OnlyNewestComing(t)
    ensures Accounted(t)
  {
    forall i <- t.calls ensures CallReady(t, t.calls[i]) {
      assert CallReady(s, s.calls[i]);
    }
  }

  /** A step of call `i` keeps the accounts if its new state is ready and the others stay so. */
  lemma CallKeepsAccounts(s: State, t: State, i: nat, c: Call)
    requires OneActive(s) && t.calls == s.calls[i := c] && CallReady(t, c)
    requires i !in s.calls ==> forall j <- s.calls :: !Active(s.calls[j])
    requires i in s.calls ==> Active(s.calls[i])
    requires forall j <- s.calls :: j != i ==> CallReady(s, s.calls[j])
    ensures OneActive(t) && forall j <- t.calls :: CallReady(t, t.calls[j])
  {
    forall j <- t.calls ensures CallReady(t, t.calls[j]) {
      if j != i {
        assert CallReady(s, s.calls[j]) && !Active(s.calls[j]);
      }
    }
  }

  lemma QuietCallStep(s: State, st: Step)
    requires Enabled(s, st) && Accounted(s) && !Apply(s, st).misused
    requires st.Begin? || st.PassWait? || st.Lock? || (st.Write? && !st.ok) || st.ReceiveClosed? || st.Timeout?
    ensures Accounted(Apply(s, st))
  {
    var t := Apply(s, st);
    if !st.Begin? {
      assert CallReady(s, s.calls[st.i]);
    }
    if st.PassWait? {
      assert NoneAwaiting(s) by {
        forall j <- s.calls ensures !s.calls[j].Awaiting? {
          assert Active(s.calls[st.i]);
        }
      }
    }
    CallKeepsAccounts(s, t, st.i, t.calls[st.i]);
    if !st.Begin? && NoneAwaiting(t) && t.drains == 0 && !st.ReceiveClosed? {
      assert NoneAwaiting(s);
    }
  }

  lemma WriteStep(s: State, i: nat)
    requires Enabled(s, Write(i, true)) && Accounted(s) && !Apply(s, Write(i, true)).misused
    ensures Accounted(Apply(s, Write(i, true)))
  {
    var t := Apply(s, Write(i, true));
    assert CallReady(s, s.calls[i]);
    assert OnlyNewestComing(t);
    CallKeepsAccounts(s, t, i, t.calls[i]);
    assert IsAwaiting(t, i);
  }

  lemma ReceiveStep(s: State, i: nat)
    requires Enabled(s, Receive(i)) && Accounted(s)
    ensures Accounted(Apply(s, Receive(i)))
  {
    var t := Apply(s, Receive(i));
    assert CallReady(s, s.calls[i]);
    assert NoneComing(t);
    CallKeepsAccounts(s, t, i, t.calls[i]);
  }

  lemma DrainStep(s: State, st: Step)
    requires Enabled(s, st) && Accounted(s)
    requires st.DrainReceives? || st.DrainSeesClosed? || st.DrainSeesDone?
    ensures Accounted(Apply(s, st))
  {
    var t := Apply(s, st);
    assert t.done || NoneComing(t);
    forall i <- t.calls ensures CallReady(t, t.calls[i]) {
      assert CallReady(s, s.calls[i]);
    }
  }

  lemma StepKeepsAccounts(s: State, st: Step)
    requires Enabled(s, st) && Accounted(s) && !Apply(s, st).misused
    ensures Accounted(Apply(s, st))
  {
    if st.Write? && st.ok {
      WriteStep(s, st.i);
    } else if st.Receive? {
      ReceiveStep(s, st.i);
    } else if st.DrainReceives? || st.DrainSeesClosed? || st.DrainSeesDone? {
      DrainStep(s, st);
    } else if st.Begin? || st.PassWait? || st.Lock? || st.Write? || st.ReceiveClosed? || st.Timeout? {
      QuietCallStep(s, st);
    } else {
      ChannelKeepsAccounts(s, Apply(s, st));
    }
  }

  lemma {:induction false} EveryDisciplinedRun(s: State, steps: seq<Step>)
    requires !s.misused ==> Accounted(s)
    requires Exec(s, steps).Some?
    ensures var t := Exec(s, steps).value; !t.misused ==> Accounted(t)
    decreases |steps|
  {
    if steps != [] {
      if !Apply(s, steps[0]).misused {
        StepKeepsAccounts(s, steps[0]);
      }
      EveryDisciplinedRun(Apply(s, steps[0]), steps[1..]);
    }
  }

  /** With calls issued one at a time and no request written after Close began,
      every successful call returns the response to its own request, for any mix
      of timeouts, late or reordered replies, events and connection loss. */
  lemma EveryCallGetsItsOwnResponse(steps: seq<Step>)
    requires Exec(START, steps).Some?
    ensures var s := Exec(START, steps).value; !s.misused ==> OwnResponses(s)
  {
    EveryDisciplinedRun(START, steps);
    var s := Exec(START, steps).value;
    if !s.misused {
      forall i <- s.calls ensures s.calls[i].Answered? ==> s.calls[i].got == s.calls[i].req {
        assert CallReady(s, s.calls[i]);
      }
    }
  }

  // ----- Exactly when a call can get somebody else's response -----

  predicate GetsForeign(s: State, i: nat, steps: seq<Step>) {
    var t := Exec(s, steps);
    t.Some? && i in t.value.calls && t.value.calls[i].Answered? && t.value.calls[i].got != t.value.calls[i].req
  }

  /** Call `i` holds rpcMu, so nobody else does. */
  predicate Exclusive(s: State, i: nat) {
    forall j <- s.calls :: j != i ==> !s.calls[j].Locked? && !s.calls[j].Awaiting?
  }

  predicate SlotPlaced(s: State) {
    && (s.slot.Some? ==> s.slot.value < |s.replies| && s.replies[s.slot.value] == InSlot)
    && (forall r :: 0 <= r < |s.replies| && s.replies[r] == InSlot ==> s.slot == Some(r))
  }

  predicate HoldsLock(c: Call) {
    c.Locked? || c.Awaiting?
  }

  /** At most one call holds rpcMu. */
  predicate OneHolder(s: State) {
    forall i, j :: i in s.calls && j in s.calls && HoldsLock(s.calls[i]) && HoldsLock(s.calls[j]) ==> i == j
  }

  lemma StepKeepsHolder(s: State, st: Step)
    requires OneHolder(s) && Enabled(s, st)
    ensures OneHolder(Apply(s, st))
  {
  }

  lemma StepKeepsPlaced(s: State, st: Step)
    requires SlotPlaced(s) && Enabled(s, st)
    ensures SlotPlaced(Apply(s, st))
  {
  }

  lemma {:induction false} RunKeepsPlaces(s: State, steps: seq<Step>)
    requires OneHolder(s) && SlotPlaced(s) && Exec(s, steps).Some?
    ensures OneHolder(Exec(s, steps).value) && SlotPlaced(Exec(s, steps).value)
    decreases |steps|
  {
    hide Apply, Enabled, OneHolder, SlotPlaced;
    if steps != [] {
      StepKeepsHolder(s, steps[0]);
      StepKeepsPlaced(s, steps[0]);
      RunKeepsPlaces(Apply(s, steps[0]), steps[1..]);
    }
  }

  ghost predicate Reachable(s: State) {
    exists steps :: Exec(START, steps) == Some(s)
  }

  lemma {:induction false} ExecSnoc(s: State, steps: seq<Step>, st: Step)
    requires Exec(s, steps).Some? && Enabled(Exec(s, steps).value, st)
    ensures Exec(s, steps + [st]) == Some(Apply(Exec(s, steps).value, st))
    decreases |steps|
  {
    if steps == [] {
      assert steps + [st] == [st] && [st][1..] == [];
    } else {
      assert (steps + [st])[0] == steps[0] && (steps + [st])[1..] == steps[1..] + [st];
      ExecSnoc(Apply(s, steps[0]), steps[1..], st);
    }
  }

  lemma ReachNext(s: State, st: Step, t: State)
    requires Reachable(s) && Enabled(s, st) && Apply(s, st) == t
    ensures Reachable(t)
  {
    var steps :| Exec(START, steps) == Some(s);
    ExecSnoc(START, steps, st);
  }

  /** Every run excludes a second holder of rpcMu and keeps the slot and the replies in agreement. */
  lemma ReachablePlaces(s: State)
    requires Reachable(s)
    ensures OneHolder(s) && SlotPlaced(s)
  {
    var steps :| Exec(START, steps) == Some(s);
    RunKeepsPlaces(START, steps);
  }

  /** Once call `i` wrote with nothing outstanding, only its own reply can reach it. */
  predicate Safe(s: State, i: nat) {
    && i in s.calls
    && match s.calls[i] {
         case Awaiting(r) => Exclusive(s, i) && r == |s.replies| - 1 && OnlyNewestComing(s)
         case Answered(r, got) => r == got
         case TimedOut => true
         case Failed => true
         case _ => false
       }
  }

  lemma SafeStep(s: State, i: nat, st: Step)
    requires Safe(s, i) && Enabled(s, st)
    ensures Safe(Apply(s, st), i)
  {
    hide OnlyNewestComing, Exclusive, LockHeld;
    if s.calls[i].Awaiting? {
      if st.Begin? || st.PassWait? || st.Lock? || st.Write? || st.Receive? || st.ReceiveClosed? || st.Timeout? {
        SafeCallStep(s, i, st);
      } else {
        SafeReplyStep(s, i, st);
      }
    } else {
      assert Apply(s, st).calls[i] == s.calls[i];
    }
  }

  /** While `i` waits, other calls can only begin and pass the drain wait. */
  lemma SafeCallStep(s: State, i: nat, st: Step)
    requires Safe(s, i) && s.calls[i].Awaiting? && Enabled(s, st)
    requires st.Begin? || st.PassWait? || st.Lock? || st.Write? || st.Receive? || st.ReceiveClosed? || st.Timeout?
    ensures Safe(Apply(s, st), i)
  {
    assert LockHeld(s);
    if st.i != i {
      assert st.Begin? || st.PassWait?;
      assert Apply(s, st).calls[i] == s.calls[i];
    }
  }

  /** Replies, events and drains leave the calls alone and add no other reply. */
  lemma SafeReplyStep(s: State, i: nat, st: Step)
    requires Safe(s, i) && s.calls[i].Awaiting? && Enabled(s, st)
    requires !st.Begin? && !st.PassWait? && !st.Lock? && !st.Write? && !st.Receive? && !st.ReceiveClosed? && !st.Timeout?
    ensures Safe(Apply(s, st), i)
  {
    var t := Apply(s, st);
    assert t.calls == s.calls && |t.replies| == |s.replies|;
    assert OnlyNewestComing(t);
  }

  lemma {:induction false} SafeStays(s: State, i: nat, steps: seq<Step>)
    requires Safe(s, i) && Exec(s, steps).Some?
    ensures Safe(Exec(s, steps).value, i)
    decreases |steps|
  {
    if steps != [] {
      SafeStep(s, i, steps[0]);
      SafeStays(Apply(s, steps[0]), i, steps[1..]);
    }
  }

  lemma ExecCons(s: State, st: Step, rest: seq<Step>)
    requires Enabled(s, st)
    ensures Exec(s, [st] + rest) == Exec(Apply(s, st), rest)
  {
    assert ([st] + rest)[1..] == rest;
  }

  /** With reply `r` still coming, the call can be handed it. */
  lemma StaleReplyCanArrive(s: State, i: nat, r: nat) returns (steps: seq<Step>)
    requires At(s, i, Locked) && SlotPlaced(s) && Coming(s, r) && s.slot in {None, Some(r)}
    ensures GetsForeign(s, i, [Write(i, true)] + steps)
  {
    var s1 := Apply(s, Write(i, true));
    var s2 := if s1.slot.None? && s1.replies[r] == AtDaemon then Apply(s1, DaemonReplies(r)) else s1;
    var s3 := if s2.slot.None? then Apply(s2, RouteReply(r)) else s2;
    steps := [Receive(i)];
    ExecCons(s3, Receive(i), []);
    if s2.slot.None? {
      ExecCons(s2, RouteReply(r), steps);
      steps := [RouteReply(r)] + steps;
    }
    if s1.slot.None? && s1.replies[r] == AtDaemon {
      ExecCons(s1, DaemonReplies(r), steps);
      steps := [DaemonReplies(r)] + steps;
    }
    ExecCons(s, Write(i, true), steps);
  }

  lemma NothingStaleComing(s: State, i: nat)
    requires At(s, i, Locked) && SlotPlaced(s) && s.slot.None? && forall r: nat :: !Coming(s, r)
    ensures OnlyNewestComing(Apply(s, Write(i, true)))
  {
    forall r: nat | r < |s.replies| && !s.readerGone
      ensures s.replies[r] == Taken
    {
      assert !Coming(s, r);
    }
  }

  /** In every reachable state, a call about to write can end up with a foreign
      response exactly when some earlier reply can still come at that moment: it is
      in the slot, even if the reader is gone, or behind a reader that still runs. */
  lemma ForeignResponseExactly(s: State, i: nat)
    requires Reachable(s) && At(s, i, Locked)
    ensures (exists r :: Coming(s, r)) <==> (exists steps :: GetsForeign(s, i, [Write(i, true)] + steps))
  {
    ReachablePlaces(s);
    assert Exclusive(s, i) by {
      assert HoldsLock(s.calls[i]);
    }
    if exists r: nat :: Coming(s, r) {
      var r: nat :| Coming(s, r);
      var steps := StaleReplyCanArrive(s, i, if s.slot.Some? then s.slot.value else r);
    } else {
      if s.slot.Some? {
        var v := s.slot.value;
        assert Coming(s, v);
      }
      NothingStaleComing(s, i);
      forall steps ensures !GetsForeign(s, i, [Write(i, true)] + steps) {
        ExecCons(s, Write(i, true), steps);
        if Exec(s, [Write(i, true)] + steps).Some? {
          SafeStays(Apply(s, Write(i, true)), i, steps);
        }
      }
    }
  }

  ghost predicate CanGoWrong(s: State, i: nat) {
    exists steps :: GetsForeign(s, i, steps)
  }

  /** If one more step can go wrong, so can this state. */
  lemma WrongLater(s: State, i: nat, st: Step)
    requires Enabled(s, st) && CanGoWrong(Apply(s, st), i)
    ensures CanGoWrong(s, i)
  {
    var steps :| GetsForeign(Apply(s, st), i, steps);
    ExecCons(s, st, steps);
    assert GetsForeign(s, i, [st] + steps);
  }

  lemma LockedWithStaleReply(s: State, i: nat, r: nat)
    requires At(s, i, Locked) && SlotPlaced(s) && Coming(s, r)
    ensures CanGoWrong(s, i)
  {
    var steps := StaleReplyCanArrive(s, i, if s.slot.Some? then s.slot.value else r);
    assert GetsForeign(s, i, [Write(i, true)] + steps);
  }

  /** Why calls must be serialised: whenever caller `j`, queued on rpcMu, has
      passed the drain wait while call `i` still waits for a reply that can come, a
      timeout of `i` can hand that reply to `j`. */
  lemma QueuedCallerCanGoWrong(s: State, i: nat, j: nat)
    requires Reachable(s) && i != j && IsAwaiting(s, i) && At(s, j, Passed) && Coming(s, s.calls[i].req)
    ensures CanGoWrong(s, j)
  {
    ReachablePlaces(s);
    var s1 := Apply(s, Timeout(i));
    assert HoldsLock(s.calls[i]);
    assert !LockHeld(s1);
    var s2 := Apply(s1, Lock(j));
    LockedWithStaleReply(s2, j, s.calls[i].req);
    WrongLater(s1, j, Lock(j));
    WrongLater(s, j, Timeout(i));
  }

  /** Why requests must not follow Close: closing `done` releases the drain while
      the connection is still open, so a call waiting for that drain goes ahead
      with the stale reply still on its way. */
  lemma CallDuringCloseCanGoWrong(s: State, j: nat, r: nat)
    requires Reachable(s) && At(s, j, AtWait) && s.drains == 1 && !s.done && !LockHeld(s) && Coming(s, r)
    ensures CanGoWrong(s, j)
  {
    ReachablePlaces(s);
    var s1 := Apply(s, CloseDone);
    var s2 := Apply(s1, DrainSeesDone);
    var s3 := Apply(s2, PassWait(j));
    assert !LockHeld(s3);
    var s4 := Apply(s3, Lock(j));
    LockedWithStaleReply(s4, j, r);
    WrongLater(s3, j, Lock(j));
    WrongLater(s2, j, PassWait(j));
    WrongLater(s1, j, DrainSeesDone);
    WrongLater(s, j, CloseDone);
  }

  // ----- Both situations occur -----

  const FIRST_CALL := State(map[0 := Awaiting(0)], [AtDaemon], None, 0, 0, false, false, false)

  lemma FirstCallIsReachable()
    ensures Reachable(FIRST_CALL)
  {
    assert Exec(START, []) == Some(START);
    var s1 := START.(calls := map[0 := AtWait]);
    ReachNext(START, Begin(0), s1);
    var s2 := START.(calls := map[0 := Passed]);
    ReachNext(s1, PassWait(0), s2);
    var s3 := START.(calls := map[0 := Locked]);
    ReachNext(s2, Lock(0), s3);
    ReachNext(s3, Write(0, true), FIRST_CALL);
  }

  const QUEUED := FIRST_CALL.(calls := map[0 := Awaiting(0), 1 := Passed], misused := true)

  /** Two overlapping calls: the second can return the first one's response. */
  lemma OverlappingCallsFail()
    ensures Reachable(QUEUED) && CanGoWrong(QUEUED, 1)
  {
    FirstCallIsReachable();
    assert Active(FIRST_CALL.calls[0]);
    var s := FIRST_CALL.(calls := map[0 := Awaiting(0), 1 := AtWait], misused := true);
    ReachNext(FIRST_CALL, Begin(1), s);
    ReachNext(s, PassWait(1), QUEUED);
    QueuedCallerCanGoWrong(QUEUED, 0, 1);
  }

  const DRAINING := FIRST_CALL.(calls := map[0 := TimedOut, 1 := AtWait], drains := 1)

  /** Calls one at a time, but Close running beside the second one. */
  lemma CallDuringCloseFails()
    ensures Reachable(DRAINING) && !DRAINING.misused && CanGoWrong(DRAINING, 1)
  {
    FirstCallIsReachable();
    var s := FIRST_CALL.(calls := map[0 := TimedOut], drains := 1);
    ReachNext(FIRST_CALL, Timeout(0), s);
    ReachNext(s, Begin(1), DRAINING);
    CallDuringCloseCanGoWrong(DRAINING, 1, 0);
  }

  // ----- The wait for the drain has no timeout -----

  /** Replies that can be received without the daemon doing anything more. */
  function OnTheWire(replies: seq<Place>): nat {
    if replies == [] then 0 else (if replies[0] == OnWire then 1 else 0) + OnTheWire(replies[1..])
  }

  function Available(s: State): nat {
    OnTheWire(s.replies) + if s.slot.Some? then 1 else 0
  }

  lemma {:induction false} WireUpdate(replies: seq<Place>, r: nat, p: Place)
    requires r < |replies|
    ensures OnTheWire(replies[r := p]) ==
            OnTheWire(replies) - (if replies[r] == OnWire then 1 else 0) + (if p == OnWire then 1 else 0)
  {
    if r == 0 {
      assert replies[0 := p][1..] == replies[1..];
    } else {
      WireUpdate(replies[1..], r - 1, p);
      assert replies[r := p][1..] == replies[1..][r - 1 := p];
    }
  }

  lemma {:induction false} WireAppend(replies: seq<Place>)
    ensures OnTheWire(replies + [AtDaemon]) == OnTheWire(replies)
  {
    if replies == [] {
      assert replies + [AtDaemon] == [AtDaemon] && [AtDaemon][1..] == [];
    } else {
      WireAppend(replies[1..]);
      assert (replies + [AtDaemon])[1..] == replies[1..] + [AtDaemon];
    }
  }

  /** The daemon stays silent, and nobody closes the connection. */
  predicate Silent(st: Step) {
    !st.DaemonReplies? && !st.CloseDone? && !st.ReaderExits?
  }

  /** More drains than replies they could take, and nothing that would end them. */
  predicate Starved(s: State) {
    !s.done && !s.readerGone && Available(s) < s.drains && SlotPlaced(s)
  }

  lemma StarvedStep(s: State, st: Step)
    requires Starved(s) && Enabled(s, st) && Silent(st)
    ensures Starved(Apply(s, st))
    ensures forall i :: At(s, i, AtWait) ==> At(Apply(s, st), i, AtWait)
  {
    StepKeepsPlaced(s, st);
    hide SlotPlaced, OnTheWire;
    if st.Receive? || st.DrainReceives? {
      SlotIsPlaced(s);
      WireUpdate(s.replies, s.slot.value, Taken);
    } else if st.RouteReply? {
      WireUpdate(s.replies, st.req, InSlot);
    } else if st.Write? {
      WireAppend(s.replies);
    }
  }

  lemma SlotIsPlaced(s: State)
    requires SlotPlaced(s) && s.slot.Some?
    ensures s.slot.value < |s.replies| && s.replies[s.slot.value] == InSlot
  {
  }

  lemma {:induction false} StarvedRun(s: State, steps: seq<Step>, i: nat)
    requires Starved(s) && At(s, i, AtWait) && Exec(s, steps).Some? && forall st <- steps :: Silent(st)
    ensures At(Exec(s, steps).value, i, AtWait)
    decreases |steps|
  {
    hide Apply, Enabled, Starved, Silent;
    if steps != [] {
      StarvedStep(s, steps[0]);
      StarvedRun(Apply(s, steps[0]), steps[1..], i);
    }
  }

  lemma {:induction false} FindOnWire(replies: seq<Place>) returns (r: nat)
    requires OnTheWire(replies) > 0
    ensures r < |replies| && replies[r] == OnWire
  {
    if replies[0] == OnWire {
      r := 0;
    } else {
      r := FindOnWire(replies[1..]);
      r := r + 1;
    }
  }

  /** The drains can all finish by themselves. */
  predicate Fed(s: State) {
    s.done || s.readerGone || s.drains <= Available(s)
  }

  lemma DrainOnce(s: State) returns (st: Step)
    requires SlotPlaced(s) && Fed(s) && 0 < s.drains
    ensures Enabled(s, st) && Silent(st) && Fed(Apply(s, st)) && Apply(s, st).calls == s.calls
    ensures Apply(s, st).drains < s.drains || (Apply(s, st).drains == s.drains && s.slot.None? && Apply(s, st).slot.Some?)
  {
    hide OnTheWire;
    if s.done {
      st := DrainSeesDone;
    } else if s.slot.Some? {
      SlotIsPlaced(s);
      WireUpdate(s.replies, s.slot.value, Taken);
      st := DrainReceives;
    } else if s.readerGone {
      st := DrainSeesClosed;
    } else {
      var r := FindOnWire(s.replies);
      WireUpdate(s.replies, r, InSlot);
      st := RouteReply(r);
    }
  }

  lemma {:induction false} DrainsFinish(s: State) returns (steps: seq<Step>)
    requires SlotPlaced(s) && Fed(s)
    ensures (forall st <- steps :: Silent(st)) && Exec(s, steps).Some?
    ensures Exec(s, steps).value.drains == 0 && Exec(s, steps).value.calls == s.calls
    decreases s.drains, if s.slot.None? then 1 else 0
  {
    if s.drains == 0 {
      steps := [];
    } else {
      var st := DrainOnce(s);
      StepKeepsPlaced(s, st);
      hide Apply, Enabled, SlotPlaced, Fed, Silent;
      var rest := DrainsFinish(Apply(s, st));
      steps := [st] + rest;
      assert steps[1..] == rest;
    }
  }

  predicate GetsPast(s: State, i: nat, steps: seq<Step>) {
    (forall st <- steps :: Silent(st)) && Exec(s, steps).Some? && !At(Exec(s, steps).value, i, AtWait)
  }

  /** "Returns ErrRequestTimeout if the daemon does not respond": after a timeout the next call first
      waits, without one, for the drain of the first. While the daemon stays silent and nobody closes
      the connection it can get past that wait if and only if replies for all drains are already on
      the wire or in the slot, or the client was being closed. */
  lemma NextCallWaitsExactly(s: State, i: nat)
    requires Reachable(s) && At(s, i, AtWait)
    ensures (exists steps :: GetsPast(s, i, steps)) <==> Fed(s)
  {
    ReachablePlaces(s);
    if Fed(s) {
      var steps := DrainsFinish(s);
      var t := Exec(s, steps).value;
      ExecSnoc(s, steps, PassWait(i));
      assert GetsPast(s, i, steps + [PassWait(i)]);
    } else {
      forall steps | (forall st <- steps :: Silent(st)) && Exec(s, steps).Some?
        ensures At(Exec(s, steps).value, i, AtWait)
      {
        StarvedRun(s, steps, i);
      }
    }
  }

  /** It happens with calls one at a time: the second call hangs, it does not time out. */
  lemma NextCallHangs(steps: seq<Step>)
    requires Exec(DRAINING, steps).Some? && forall st <- steps :: Silent(st)
    ensures Reachable(DRAINING) && At(Exec(DRAINING, steps).value, 1, AtWait)
  {
    CallDuringCloseFails();
    ReachablePlaces(DRAINING);
    assert OnTheWire(DRAINING.replies[1..]) == 0;
    StarvedRun(DRAINING, steps, 1);
  }
}
