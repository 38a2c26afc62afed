/** Attach, detach, disconnect and the reaper as the code runs them: each handler has one half under
    the daemon's lock and one under the session service's, and a tick works from a listing made
    earlier. Any number of calls, any interleaving of their halves. */
module AttachRaces {
  import opened Prelude
  import A = Attachments

  type Id = A.Id

  /** A call between its halves. A tick has listed the sessions, and between looking at one and
      killing it holds that session's id. */
  datatype Call =
    | Attaching(c: Id, s: Id)
    | Detaching(s: Id)
    | Reaping(listed: map<Id, A.Session>, now: int, ttl: int)
    | Killing(listed: map<Id, A.Session>, now: int, ttl: int, s: Id)
    | Returned

  datatype System = System(st: A.State, calls: seq<Call>)

  const START: System := System(A.INIT, [])

  datatype Step =
    | BeginAttach(c: Id, s: Id)       // sessionSvc.Get and Attach
    | BeginDetach(c: Id, s: Id)       // handleDetach under d.mu
    | BeginDisconnect(c: Id)          // detachClient under d.mu
    | BeginTick(now: int, ttl: int)   // service.List
    | Look(t: nat, s: Id)             // the state in the listing, then LastActivity
    | Continue(t: nat)                // the other half of call `t`
    | Other(step: A.Step)

  predicate Enabled(x: System, step: Step) {
    match step
    case Look(t, s) => t < |x.calls| && x.calls[t].Reaping? && s in x.calls[t].listed
    case Continue(t) => t < |x.calls| && x.calls[t] != Returned
    case Other(step) => step.DoCreate? || step.DoKill? || step.DoOutput?
    case _ => true
  }

  function Left(x: System, c: Id, s: Id): System {
    System(A.MapDetach(x.st, c, s), if A.LastOne(x.st, c, s) then x.calls + [Detaching(s)] else x.calls)
  }

  predicate Idle(st: A.State, s: Id, now: int, ttl: int) {
    s in st.sessions && now - A.LastActivity(st.sessions[s]) >= ttl
  }

  predicate ListedDetached(listed: map<Id, A.Session>, s: Id) {
    s in listed && listed[s].mode == A.Detached
  }

  function Continued(x: System, t: nat): System
    requires t < |x.calls|
  {
    match x.calls[t]
    case Attaching(c, s) => System(A.MapAttach(x.st, c, s), x.calls[t := Returned])
    case Detaching(s) => System(A.SvcDetach(x.st, s), x.calls[t := Returned])
    case Killing(listed, now, ttl, s) => System(A.Kill(x.st, s), x.calls[t := Reaping(listed, now, ttl)])
    case _ => System(x.st, x.calls[t := Returned])
  }

  function Apply(x: System, step: Step): System
    requires Enabled(x, step)
  {
    match step
    case BeginAttach(c, s) =>
      if s in x.st.sessions then System(A.SvcAttach(x.st, s), x.calls + [Attaching(c, s)]) else x
    case BeginDetach(c, s) => Left(x, c, s)
    case BeginDisconnect(c) => if c in x.st.clientSession then Left(x, c, x.st.clientSession[c]) else x
    case BeginTick(now, ttl) => System(x.st, x.calls + [Reaping(x.st.sessions, now, ttl)])
    case Look(t, s) =>
      var call := x.calls[t];
      if ListedDetached(call.listed, s) && Idle(x.st, s, call.now, call.ttl)
      then System(x.st, x.calls[t := Killing(call.listed, call.now, call.ttl, s)]) else x
    case Continue(t) => Continued(x, t)
    case Other(step) => System(A.Apply(x.st, step), x.calls)
  }

  function Exec(x: System, steps: seq<Step>): Option<System>
    decreases |steps|
  {
    if steps == [] then Some(x)
    else if Enabled(x, steps[0]) then Exec(Apply(x, steps[0]), steps[1..])
    else None
  }

  lemma ExecCons(x: System, step: Step, rest: seq<Step>)
    requires Enabled(x, step)
    ensures Exec(x, [step] + rest) == Exec(Apply(x, step), rest)
  {
    hide Apply;
    assert ([step] + rest)[1..] == rest;
  }

  // ---- One half on its own -----------------------------------------------------------------------

  /** If session `s` is detached, no client is attached to it. */
  predicate Free(st: A.State, s: Id) {
    s in st.sessions && st.sessions[s].mode == A.Detached ==> s !in st.attachments
  }

  ghost predicate AllFree(st: A.State) {
    forall s :: Free(st, s)
  }

  datatype Half = SvcAttach(s: Id) | MapAttach(c: Id, s: Id) | MapDetach(c: Id, s: Id) | SvcDetach(s: Id)

  function Do(st: A.State, half: Half): A.State {
    match half
    case SvcAttach(s) => A.SvcAttach(st, s)
    case MapAttach(c, s) => A.MapAttach(st, c, s)
    case MapDetach(c, s) => A.MapDetach(st, c, s)
    case SvcDetach(s) => A.SvcDetach(st, s)
  }

  /** A half keeps detached sessions free of clients if and only if it neither enters a client into a
      detached session nor detaches a session that has clients. */
  lemma HalfKeepsExactly(st: A.State, half: Half)
    requires AllFree(st)
    ensures AllFree(Do(st, half)) <==>
            && (half.MapAttach? ==> !(half.s in st.sessions && st.sessions[half.s].mode == A.Detached))
            && (half.SvcDetach? ==> !(half.s in st.sessions && half.s in st.attachments))
  {
    var n := Do(st, half);
    if half.MapDetach? {
      A.DropFacts(st.attachments, half.c, half.s);
    }
    assert half.MapAttach? || half.SvcDetach? ==> (Free(n, half.s) ==> Free(st, half.s));
    forall s | s != half.s || half.SvcAttach? || half.MapDetach?
      ensures Free(n, s)
    {
      assert Free(st, s);
    }
  }

  // ---- Whole runs ------------------------------------------------------------------------------------

  predicate IsAttaching(x: System, t: int, s: Id) {
    0 <= t < |x.calls| && x.calls[t].Attaching? && x.calls[t].s == s
  }

  predicate IsDetaching(x: System, t: int, s: Id) {
    0 <= t < |x.calls| && x.calls[t] == Detaching(s)
  }

  /** A tick in progress found `s` detached when it made its listing. */
  predicate HasListed(x: System, t: int, s: Id) {
    0 <= t < |x.calls| && (x.calls[t].Reaping? || x.calls[t].Killing?) && ListedDetached(x.calls[t].listed, s)
  }

  /** An attach to `s` and the last detach from it are both in progress. */
  ghost predicate Overlap(x: System, s: Id) {
    exists t, u :: IsAttaching(x, t, s) && IsDetaching(x, u, s)
  }

  /** So are an attach to `s` and a tick that listed `s` as detached. */
  ghost predicate TickOverlap(x: System, s: Id) {
    exists t, u :: IsAttaching(x, t, s) && HasListed(x, u, s)
  }

  ghost predicate Inv(x: System, s: Id) {
    && Free(x.st, s)
    && (forall t :: IsDetaching(x, t, s) ==> s !in x.st.attachments)
    && (forall t :: IsAttaching(x, t, s) && s in x.st.sessions ==> x.st.sessions[s].mode == A.Alive)
  }

  lemma BeginsKeep(x: System, step: Step, s: Id)
    requires Inv(x, s) && Enabled(x, step) && !step.Continue?
    ensures Inv(Apply(x, step), s)
  {
    var n := Apply(x, step);
    if step.BeginDetach? {
      A.DropFacts(x.st.attachments, step.c, step.s);
    } else if step.BeginDisconnect? && step.c in x.st.clientSession {
      A.DropFacts(x.st.attachments, step.c, x.st.clientSession[step.c]);
    }
    assert forall t :: IsDetaching(n, t, s) && t < |x.calls| ==> IsDetaching(x, t, s);
    assert forall t :: IsAttaching(n, t, s) && t < |x.calls| ==> IsAttaching(x, t, s);
  }

  lemma ContinueKeeps(x: System, t: nat, s: Id)
    requires Inv(x, s) && Enabled(x, Continue(t)) && !Overlap(x, s)
    ensures Inv(Continued(x, t), s)
  {
    var n := Continued(x, t);
    assert forall u :: IsDetaching(n, u, s) ==> IsDetaching(x, u, s);
    assert forall u :: IsAttaching(n, u, s) ==> IsAttaching(x, u, s);
    assert x.calls[t].Attaching? && x.calls[t].s == s ==> IsAttaching(x, t, s);
    assert x.calls[t] == Detaching(s) ==> IsDetaching(x, t, s);
  }

  lemma StepKeeps(x: System, step: Step, s: Id)
    requires Inv(x, s) && Enabled(x, step) && !Overlap(x, s)
    ensures Inv(Apply(x, step), s)
  {
    if step.Continue? {
      ContinueKeeps(x, step.t, s);
    } else {
      BeginsKeep(x, step, s);
    }
  }

  /** In no state of the run does an attach to `s` overlap the last detach from `s`. */
  ghost predicate NoOverlap(x: System, steps: seq<Step>, s: Id)
    decreases |steps|
  {
    && !Overlap(x, s)
    && (steps != [] && Enabled(x, steps[0]) ==> NoOverlap(Apply(x, steps[0]), steps[1..], s))
  }

  lemma {:induction false} RunKeeps(x: System, steps: seq<Step>, s: Id)
    requires Inv(x, s) && Exec(x, steps).Some? && NoOverlap(x, steps, s)
    ensures Inv(Exec(x, steps).value, s) && !Overlap(Exec(x, steps).value, s)
    decreases |steps|
  {
    hide Apply, Inv, Overlap, Enabled;
    if steps != [] {
      StepKeeps(x, steps[0], s);
      RunKeeps(Apply(x, steps[0]), steps[1..], s);
    }
  }

  /** Over all interleavings: in every run where no attach to `s` overlaps the last detach from `s`, a
      detached `s` has no client. */
  lemma DetachedHasNoClient(steps: seq<Step>, s: Id)
    requires Exec(START, steps).Some? && NoOverlap(START, steps, s)
    ensures Free(Exec(START, steps).value.st, s)
  {
    RunKeeps(START, steps, s);
  }

  predicate BreaksAfter(x: System, t: nat, u: nat, s: Id) {
    && Enabled(x, Continue(t)) && Enabled(Continued(x, t), Continue(u))
    && !Free(Continued(Continued(x, t), u).st, s)
  }

  lemma NoNewOverlap(x: System, t: nat, s: Id)
    requires Enabled(x, Continue(t)) && !Overlap(x, s)
    ensures !Overlap(Continued(x, t), s)
  {
    var n := Continued(x, t);
    assert forall u :: IsDetaching(n, u, s) ==> IsDetaching(x, u, s);
    assert forall u :: IsAttaching(n, u, s) ==> IsAttaching(x, u, s);
  }

  /** And the overlap is exactly what breaks it: two calls in progress can leave a client on the
      detached session `s` if and only if they are an attach to `s` and the last detach from it. */
  lemma OverlapExactly(x: System, s: Id)
    requires Inv(x, s) && s in x.st.sessions
    ensures (exists t, u :: BreaksAfter(x, t, u, s)) <==> Overlap(x, s)
  {
    if Overlap(x, s) {
      var t, u :| IsAttaching(x, t, s) && IsDetaching(x, u, s);
      var y := Continued(x, t);
      assert y.calls[u] == Detaching(s) && s in y.st.attachments && s in y.st.sessions;
      assert BreaksAfter(x, t, u, s);
    } else {
      forall t: nat, u: nat | Enabled(x, Continue(t)) && Enabled(Continued(x, t), Continue(u))
        ensures Free(Continued(Continued(x, t), u).st, s)
      {
        ContinueKeeps(x, t, s);
        NoNewOverlap(x, t, s);
        ContinueKeeps(Continued(x, t), u, s);
      }
    }
  }

  /** So the first state of a run in which such an overlap occurs is one from which it goes wrong. */
  lemma FirstOverlapBreaks(steps: seq<Step>, step: Step, s: Id)
    requires Exec(START, steps).Some? && NoOverlap(START, steps, s) && Enabled(Exec(START, steps).value, step)
    requires var x := Apply(Exec(START, steps).value, step); Overlap(x, s) && s in x.st.sessions
    ensures exists t, u :: BreaksAfter(Apply(Exec(START, steps).value, step), t, u, s)
  {
    RunKeeps(START, steps, s);
    StepKeeps(Exec(START, steps).value, step, s);
    OverlapExactly(Apply(Exec(START, steps).value, step), s);
  }

  // ---- The reaper ----------------------------------------------------------------------------------------

  /** One visit of a tick to `s`, whoever is attached: the session is killed if and only if the
      listing had it detached and it has been idle for the TTL. */
  lemma ReapsExactly(x: System, t: nat, s: Id)
    requires Enabled(x, Look(t, s)) && s in x.st.sessions
    ensures var looked := Apply(x, Look(t, s));
      && looked.st == x.st && Enabled(looked, Continue(t))
      && (s !in Continued(looked, t).st.sessions <==>
            x.calls[t].listed[s].mode == A.Detached
            && x.calls[t].now - A.LastActivity(x.st.sessions[s]) >= x.calls[t].ttl)
  {
  }

  ghost predicate TickInv(x: System, s: Id) {
    && Inv(x, s)
    && (forall t :: HasListed(x, t, s) ==> s !in x.st.attachments)
    && (forall t :: 0 <= t < |x.calls| && x.calls[t].Killing? ==> ListedDetached(x.calls[t].listed, x.calls[t].s))
  }

  lemma TickStepKeeps(x: System, step: Step, s: Id)
    requires TickInv(x, s) && Enabled(x, step) && !Overlap(x, s) && !TickOverlap(x, s)
    ensures TickInv(Apply(x, step), s)
  {
    StepKeeps(x, step, s);
    hide Inv;
    var n := Apply(x, step);
    FreeOf(x, s);
    if step.BeginDetach? {
      A.DropFacts(x.st.attachments, step.c, step.s);
    } else if step.BeginDisconnect? && step.c in x.st.clientSession {
      A.DropFacts(x.st.attachments, step.c, x.st.clientSession[step.c]);
    } else if step.Continue? && x.calls[step.t].Attaching? {
      assert x.calls[step.t].s == s ==> IsAttaching(x, step.t, s);
    }
    assert forall t :: HasListed(n, t, s) && t < |x.calls| ==> HasListed(x, t, s);
  }

  lemma FreeOf(x: System, s: Id)
    requires Inv(x, s)
    ensures Free(x.st, s)
  {
  }

  /** In no state does an attach to `s` overlap its last detach or a tick that listed it as detached. */
  ghost predicate Undisturbed(x: System, steps: seq<Step>, s: Id)
    decreases |steps|
  {
    && !Overlap(x, s) && !TickOverlap(x, s)
    && (steps != [] && Enabled(x, steps[0]) ==> Undisturbed(Apply(x, steps[0]), steps[1..], s))
  }

  lemma {:induction false} TickRunKeeps(x: System, steps: seq<Step>, s: Id)
    requires TickInv(x, s) && Exec(x, steps).Some? && Undisturbed(x, steps, s)
    ensures TickInv(Exec(x, steps).value, s)
    decreases |steps|
  {
    hide Apply, TickInv, Overlap, TickOverlap, Enabled;
    if steps != [] {
      TickStepKeeps(x, steps[0], s);
      TickRunKeeps(Apply(x, steps[0]), steps[1..], s);
    }
  }

  /** No client is attached to `s` by either map. */
  predicate Unattached(st: A.State, s: Id) {
    s !in st.attachments && forall c :: c in st.clientSession ==> st.clientSession[c] != s
  }

  /** Over all interleavings without such an overlap: whenever the reaper is about to kill `s`, no
      client is attached to it in either map. */
  lemma ReaperSparesAttached(steps: seq<Step>, s: Id, t: nat)
    requires Exec(START, steps).Some? && Undisturbed(START, steps, s)
    requires var x := Exec(START, steps).value; t < |x.calls| && x.calls[t].Killing? && x.calls[t].s == s
    ensures Unattached(Exec(START, steps).value.st, s)
  {
    TickRunKeeps(START, steps, s);
    assert HasListed(Exec(START, steps).value, t, s);
    IndexedRun(START, steps);
  }

  lemma IndexedDrop(st: A.State, c: Id, s: Id)
    requires A.Indexed(st)
    ensures A.Indexed(A.MapDetach(st, c, s))
  {
    A.DropFacts(st.attachments, c, s);
    var n := A.MapDetach(st, c, s);
    hide A.Drop;
    forall x | x in n.clientSession
      ensures n.clientSession[x] in n.attachments && x in n.attachments[n.clientSession[x]]
    {
      assert x in st.clientSession && x != c;
      if n.clientSession[x] == s {
        assert x in st.attachments[s] - {c};
      }
    }
  }

  lemma IndexedJoin(st: A.State, c: Id, s: Id)
    requires A.Indexed(st)
    ensures A.Indexed(A.MapAttach(st, c, s))
  {
    var n := A.MapAttach(st, c, s);
    assert c in A.Clients(st, s) + {c};
    assert forall x :: x in n.clientSession ==> x == c || (x in st.clientSession && n.clientSession[x] == st.clientSession[x]);
  }

  /** Every half keeps the session recorded for a client among its attachments. */
  lemma IndexedStep(x: System, step: Step)
    requires A.Indexed(x.st) && Enabled(x, step)
    ensures A.Indexed(Apply(x, step).st)
  {
    hide A.MapDetach, A.MapAttach;
    match step
    case BeginDetach(c, s) => IndexedDrop(x.st, c, s);
    case BeginDisconnect(c) =>
      if c in x.st.clientSession {
        IndexedDrop(x.st, c, x.st.clientSession[c]);
      }
    case Continue(t) =>
      if x.calls[t].Attaching? {
        IndexedJoin(x.st, x.calls[t].c, x.calls[t].s);
      }
    case _ =>
  }

  lemma {:induction false} IndexedRun(x: System, steps: seq<Step>)
    requires A.Indexed(x.st) && Exec(x, steps).Some?
    ensures A.Indexed(Exec(x, steps).value.st)
    decreases |steps|
  {
    hide Apply, Enabled, A.Indexed;
    if steps != [] {
      IndexedStep(x, steps[0]);
      IndexedRun(Apply(x, steps[0]), steps[1..]);
    }
  }

  predicate KillsAttached(x: System, u: nat, t: nat, s: Id) {
    && Enabled(x, Continue(u))
    && var joined := Continued(x, u);
    && Enabled(joined, Look(t, s))
    && var looked := Apply(joined, Look(t, s));
    && Enabled(looked, Continue(t))
    && s in joined.st.sessions && s in joined.st.attachments
    && s !in Continued(looked, t).st.sessions
  }

  /** And that overlap is exactly what goes unnoticed: finishing an attach to `s` before the visit of
      tick `t` gets the attached session killed if and only if the tick had listed `s` as detached
      and it is idle for the TTL. */
  lemma StaleListingExactly(x: System, u: nat, t: nat, s: Id)
    requires IsAttaching(x, u, s) && s in x.st.sessions
    requires t < |x.calls| && x.calls[t].Reaping? && s in x.calls[t].listed
    ensures KillsAttached(x, u, t, s) <==> HasListed(x, t, s) && Idle(x.st, s, x.calls[t].now, x.calls[t].ttl)
  {
    var joined := Continued(x, u);
    assert joined.calls[t] == x.calls[t] && joined.st.sessions == x.st.sessions;
    ReapsExactly(joined, t, s);
  }

  /** A tick that has already looked at `s` kills it whatever attaches meanwhile. */
  lemma CommittedKillIsBlind(x: System, u: nat, t: nat, s: Id)
    requires IsAttaching(x, u, s) && s in x.st.sessions
    requires t < |x.calls| && x.calls[t].Killing? && x.calls[t].s == s
    ensures var joined := Continued(x, u);
      && A.Pair(joined.st, x.calls[u].c, s) && s in joined.st.sessions
      && Enabled(joined, Continue(t)) && s !in Continued(joined, t).st.sessions
  {
    var joined := Continued(x, u);
    assert x.calls[u].c in A.Clients(x.st, s) + {x.calls[u].c};
    assert joined.calls[t] == x.calls[t];
  }

  // ---- Both overlaps happen ---------------------------------------------------------------------------------

  lemma ExecOne(x: System, step: Step, y: System, steps: seq<Step>)
    requires Enabled(x, step) && y == Apply(x, step) && Exec(y, steps).Some?
    ensures Exec(x, [step] + steps) == Exec(y, steps)
  {
    ExecCons(x, step, steps);
  }

  /** `s` created and attached to by `a`. */
  function Attached(a: Id, s: Id): A.State {
    A.State(map[s := A.Session(A.Alive, 1, 0, true)], map[s := {a}], map[a := s])
  }

  function Orphaned(s: Id): A.State {
    A.State(map[s := A.Session(A.Alive, 1, 0, true)], map[], map[])
  }

  lemma AttachedIsReached(a: Id, s: Id, rest: seq<Step>) returns (steps: seq<Step>)
    requires Exec(System(Attached(a, s), [Returned]), rest).Some?
    ensures Exec(START, steps) == Exec(System(Attached(a, s), [Returned]), rest)
  {
    var x1 := System(A.State(map[s := A.Session(A.Alive, 1, 0, false)], map[], map[]), []);
    var x2 := System(A.State(map[s := A.Session(A.Alive, 1, 0, true)], map[], map[]), [Attaching(a, s)]);
    var x3 := System(Attached(a, s), [Returned]);
    assert A.Clients(x2.st, s) + {a} == {a};
    assert Continued(x2, 0) == x3;
    ExecOne(x2, Continue(0), x3, rest);
    hide Exec;
    ExecOne(x1, BeginAttach(a, s), x2, [Continue(0)] + rest);
    steps := [BeginAttach(a, s)] + ([Continue(0)] + rest);
    ExecOne(START, Other(A.DoCreate(s, 1, 0)), x1, steps);
    steps := [Other(A.DoCreate(s, 1, 0))] + steps;
  }

  /** Client `b` attaches while the last detach of `a` is in progress and ends up attached to a
      detached session. */
  lemma OverlapIsReachable(a: Id, b: Id, s: Id) returns (steps: seq<Step>)
    requires a != b
    ensures Exec(START, steps).Some?
    ensures var st := Exec(START, steps).value.st;
      && s in st.sessions && st.sessions[s].mode == A.Detached
      && A.Pair(st, b, s) && st.clientSession == map[b := s]
  {
    var x := System(Attached(a, s), [Returned]);
    var x1 := System(Orphaned(s), [Returned, Detaching(s)]);
    var x2 := System(Orphaned(s), [Returned, Detaching(s), Attaching(b, s)]);
    var x3 := System(Attached(b, s), [Returned, Detaching(s), Returned]);
    var x4 := System(A.SvcDetach(Attached(b, s), s), [Returned, Returned, Returned]);
    assert {a} - {a} == {} && A.Clients(Orphaned(s), s) + {b} == {b};
    assert Left(x, a, s) == x1;
    ExecOne(x3, Continue(1), x4, []);
    hide Exec;
    ExecOne(x2, Continue(2), x3, [Continue(1)] + []);
    ExecOne(x1, BeginAttach(b, s), x2, [Continue(2)] + ([Continue(1)] + []));
    var rest := [BeginAttach(b, s)] + ([Continue(2)] + ([Continue(1)] + []));
    ExecOne(x, BeginDetach(a, s), x1, rest);
    steps := AttachedIsReached(a, s, [BeginDetach(a, s)] + rest);
    ExecNone(x4);
  }

  lemma ExecNone(x: System)
    ensures Exec(x, []) == Some(x)
  {
  }

  /** A session with an attached client is killed by a tick that listed it before the attach. */
  lemma StaleListingIsReachable(c: Id, s: Id, now: int, ttl: int) returns (steps: seq<Step>, x: System, u: nat, t: nat)
    requires now - 1 >= ttl
    ensures Exec(START, steps) == Some(x) && KillsAttached(x, u, t, s)
  {
    var detached := A.SvcDetach(Orphaned(s), s);
    var x0 := System(Attached(c, s), [Returned]);
    var x1 := System(Orphaned(s), [Returned, Detaching(s)]);
    var x2 := System(detached, [Returned, Returned]);
    var x3 := System(detached, [Returned, Returned, Reaping(detached.sessions, now, ttl)]);
    var x4 := System(Orphaned(s), x3.calls + [Attaching(c, s)]);
    assert {c} - {c} == {};
    assert Left(x0, c, s) == x1;
    assert A.SvcAttach(detached, s) == Orphaned(s);
    ExecNone(x4);
    ExecOne(x3, BeginAttach(c, s), x4, []);
    hide Exec;
    ExecOne(x2, BeginTick(now, ttl), x3, [BeginAttach(c, s)] + []);
    ExecOne(x1, Continue(1), x2, [BeginTick(now, ttl)] + ([BeginAttach(c, s)] + []));
    var rest := [Continue(1)] + ([BeginTick(now, ttl)] + ([BeginAttach(c, s)] + []));
    ExecOne(x0, BeginDisconnect(c), x1, rest);
    steps := AttachedIsReached(c, s, [BeginDisconnect(c)] + rest);
    x, u, t := x4, 3, 2;
    StaleListingExactly(x4, 3, 2, s);
  }
}
