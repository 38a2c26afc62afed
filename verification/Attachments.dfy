/** Which client is attached to which session, the session states, and the reaper. */
module Attachments {
  import opened Prelude

  type Id = string

  /** An exited or killed session is no longer in the map, so only two states remain there. */
  datatype Mode = Alive | Detached

  /** `lastOutput` is 0 until the first output; `used` records that a client has attached. */
  datatype Session = Session(mode: Mode, startedAt: int, lastOutput: int, used: bool)

  datatype State = State(sessions: map<Id, Session>, attachments: map<Id, set<Id>>, clientSession: map<Id, Id>)

  const INIT: State := State(map[], map[], map[])

  // ---- The two halves of each handler ----------------------------------------------------------

  function SvcAttach(st: State, s: Id): State {
    if s in st.sessions then st.(sessions := st.sessions[s := st.sessions[s].(mode := Alive, used := true)]) else st
  }

  function SvcDetach(st: State, s: Id): State {
    if s in st.sessions then st.(sessions := st.sessions[s := st.sessions[s].(mode := Detached)]) else st
  }

  function Clients(st: State, s: Id): set<Id> {
    if s in st.attachments then st.attachments[s] else {}
  }

  function MapAttach(st: State, c: Id, s: Id): State {
    st.(attachments := st.attachments[s := Clients(st, s) + {c}], clientSession := st.clientSession[c := s])
  }

  /** Taking `c` out of the set of `s`; an emptied set goes away. */
  function Drop(attachments: map<Id, set<Id>>, c: Id, s: Id): map<Id, set<Id>> {
    if s !in attachments then attachments
    else if attachments[s] - {c} == {} then attachments - {s}
    else attachments[s := attachments[s] - {c}]
  }

  /** The last client of `s` is `c`, so the session is to be detached. */
  predicate LastOne(st: State, c: Id, s: Id) {
    s in st.attachments && st.attachments[s] - {c} == {}
  }

  function MapDetach(st: State, c: Id, s: Id): State {
    st.(attachments := Drop(st.attachments, c, s), clientSession := st.clientSession - {c})
  }

  // ---- Atomic steps --------------------------------------------------------------------------------

  function Attach(st: State, c: Id, s: Id): State {
    if s in st.sessions then MapAttach(SvcAttach(st, s), c, s) else st
  }

  function Detach(st: State, c: Id, s: Id): State {
    var n := MapDetach(st, c, s);
    if LastOne(st, c, s) then SvcDetach(n, s) else n
  }

  function Disconnect(st: State, c: Id): State {
    if c in st.clientSession then Detach(st, c, st.clientSession[c]) else st
  }

  function Create(st: State, s: Id, now: int, maxSessions: int): State {
    if s in st.sessions || (maxSessions > 0 && |st.sessions| >= maxSessions) then st
    else st.(sessions := st.sessions[s := Session(Alive, now, 0, false)])
  }

  function Kill(st: State, s: Id): State {
    st.(sessions := st.sessions - {s})
  }

  function LastActivity(x: Session): int {
    if x.lastOutput == 0 then x.startedAt else x.lastOutput
  }

  predicate Expired(x: Session, now: int, ttl: int) {
    x.mode == Detached && now - LastActivity(x) >= ttl
  }

  function Tick(st: State, now: int, ttl: int): State {
    st.(sessions := map s | s in st.sessions && !Expired(st.sessions[s], now, ttl) :: st.sessions[s])
  }

  datatype Step =
    | DoCreate(s: Id, now: int, maxSessions: int)
    | DoAttach(c: Id, s: Id)
    | DoDetach(c: Id, s: Id)
    | DoDisconnect(c: Id)
    | DoKill(s: Id)                      // handleKill, or the exit of the process
    | DoOutput(s: Id, at: int)
    | DoTick(now: int, ttl: int)

  function Apply(st: State, step: Step): State {
    match step
    case DoCreate(s, now, max) => Create(st, s, now, max)
    case DoAttach(c, s) => Attach(st, c, s)
    case DoDetach(c, s) => Detach(st, c, s)
    case DoDisconnect(c) => Disconnect(st, c)
    case DoKill(s) => Kill(st, s)
    case DoOutput(s, at) =>
      if s in st.sessions then st.(sessions := st.sessions[s := st.sessions[s].(lastOutput := at)]) else st
    case DoTick(now, ttl) => Tick(st, now, ttl)
  }

  function Run(st: State, steps: seq<Step>): State
    decreases |steps|
  {
    if steps == [] then st else Run(Apply(st, steps[0]), steps[1..])
  }

  // ---- What every run keeps ----------------------------------------------------------------------

  /** The session recorded for a client has the client in its set. */
  predicate Indexed(st: State) {
    forall c :: c in st.clientSession ==>
      st.clientSession[c] in st.attachments && c in st.attachments[st.clientSession[c]]
  }

  predicate NoEmptySet(st: State) {
    forall s :: s in st.attachments ==> st.attachments[s] != {}
  }

  /** A detached session has no client, and one that had a client and has none left is detached. */
  predicate ModesOk(st: State) {
    forall s :: s in st.sessions ==>
      && (st.sessions[s].mode == Detached ==> s !in st.attachments)
      && (st.sessions[s].used && s !in st.attachments ==> st.sessions[s].mode == Detached)
  }

  predicate Inv(st: State) {
    Indexed(st) && NoEmptySet(st) && ModesOk(st)
  }

  lemma DropFacts(attachments: map<Id, set<Id>>, c: Id, s: Id)
    ensures forall x :: x != s ==> (x in Drop(attachments, c, s) <==> x in attachments)
    ensures forall x :: x != s && x in attachments ==> Drop(attachments, c, s)[x] == attachments[x]
    ensures s in Drop(attachments, c, s) <==> s in attachments && attachments[s] - {c} != {}
    ensures s in Drop(attachments, c, s) ==> Drop(attachments, c, s)[s] == attachments[s] - {c}
  {
  }

  lemma AttachKeeps(st: State, c: Id, s: Id)
    requires Inv(st)
    ensures Inv(Attach(st, c, s))
  {
    if s in st.sessions {
      var n := Attach(st, c, s);
      assert forall x :: x in n.clientSession ==> x == c || (x in st.clientSession && n.clientSession[x] == st.clientSession[x]);
      assert c in Clients(st, s) + {c};
    }
  }

  lemma DetachKeeps(st: State, c: Id, s: Id)
    requires Inv(st)
    ensures Inv(Detach(st, c, s))
  {
    var n := Detach(st, c, s);
    DropFacts(st.attachments, c, s);
    assert n.attachments == Drop(st.attachments, c, s) && n.clientSession == st.clientSession - {c};
    hide Drop;
    forall x | x in n.clientSession
      ensures n.clientSession[x] in n.attachments && x in n.attachments[n.clientSession[x]]
    {
      assert x in st.clientSession && x != c;
      if n.clientSession[x] == s {
        assert x in st.attachments[s] - {c};
      }
    }
  }

  lemma StepKeeps(st: State, step: Step)
    requires Inv(st)
    ensures Inv(Apply(st, step))
  {
    match step
    case DoAttach(c, s) => AttachKeeps(st, c, s);
    case DoDetach(c, s) => DetachKeeps(st, c, s);
    case DoDisconnect(c) =>
      if c in st.clientSession {
        DetachKeeps(st, c, st.clientSession[c]);
      }
    case DoCreate(s, now, max) => CreateKeeps(st, s, now, max);
    case _ =>
  }

  /** A stale attachment to a killed session may outlive it; a new session of that name starts alive. */
  lemma CreateKeeps(st: State, s: Id, now: int, max: int)
    requires Inv(st)
    ensures Inv(Create(st, s, now, max))
  {
  }

  /** Every run keeps both maps consistent. */
  lemma {:induction false} EveryRun(st: State, steps: seq<Step>)
    requires Inv(st)
    ensures Inv(Run(st, steps))
    decreases |steps|
  {
    if steps != [] {
      StepKeeps(st, steps[0]);
      EveryRun(Apply(st, steps[0]), steps[1..]);
    }
  }

  /** The reaper takes exactly the detached sessions idle for the TTL or longer, and in no run is one
      of those attached to a client by either map. */
  lemma ReaperSparesAttached(steps: seq<Step>, now: int, ttl: int, s: Id)
    ensures var st := Run(INIT, steps);
      var n := Tick(st, now, ttl);
      && (s in st.sessions && s !in n.sessions <==> s in st.sessions && Expired(st.sessions[s], now, ttl))
      && (s in n.sessions ==> s in st.sessions && n.sessions[s] == st.sessions[s])
      && n.attachments == st.attachments && n.clientSession == st.clientSession
      && (s in st.sessions && s !in n.sessions ==>
            s !in st.attachments && forall c :: c in st.clientSession ==> st.clientSession[c] != s)
  {
    EveryRun(INIT, steps);
  }

  /** By the clock readings themselves: a tick at `now` takes a detached session whose last output, or
      whose start if it never wrote anything, is `ttl` or longer ago, and leaves every other one. */
  lemma ReapedByTheClock(st: State, s: Id, now: int, ttl: int)
    requires s in st.sessions
    ensures var x := st.sessions[s];
      s in Tick(st, now, ttl).sessions <==>
        || x.mode == Alive
        || (x.lastOutput != 0 && now - x.lastOutput < ttl)
        || (x.lastOutput == 0 && now - x.startedAt < ttl)
  {
  }

  /** Output keeps a session alive: within the TTL of its last output no tick takes it. */
  lemma RecentOutputSurvives(st: State, s: Id, at: int, now: int, ttl: int)
    requires s in st.sessions && at != 0 && now - at < ttl
    ensures s in Tick(Apply(st, DoOutput(s, at)), now, ttl).sessions
  {
    ReapedByTheClock(Apply(st, DoOutput(s, at)), s, now, ttl);
  }

  /** A session that some client has attached to is detached exactly when no client is attached. */
  lemma DetachedExactly(steps: seq<Step>, s: Id)
    requires s in Run(INIT, steps).sessions && Run(INIT, steps).sessions[s].used
    ensures var st := Run(INIT, steps);
      st.sessions[s].mode == Detached <==> s !in st.attachments
  {
    EveryRun(INIT, steps);
  }

  // ---- When the two maps are inverses ----------------------------------------------------------------

  predicate Pair(st: State, c: Id, s: Id) {
    s in st.attachments && c in st.attachments[s]
  }

  ghost predicate Inverse(st: State) {
    forall c, s :: Pair(st, c, s) <==> c in st.clientSession && st.clientSession[c] == s
  }

  /** The client detaches from where it is before it attaches elsewhere, and names that session. */
  predicate Polite(st: State, step: Step) {
    match step
    case DoAttach(c, s) => s in st.sessions && c in st.clientSession ==> st.clientSession[c] == s
    case DoDetach(c, s) => c in st.clientSession ==> st.clientSession[c] == s
    case _ => true
  }

  lemma AttachPairs(st: State, c: Id, s: Id, x: Id, y: Id)
    requires s in st.sessions
    ensures Pair(Attach(st, c, s), x, y) <==> Pair(st, x, y) || (x == c && y == s)
  {
  }

  lemma DetachPairs(st: State, c: Id, s: Id, x: Id, y: Id)
    ensures Pair(Detach(st, c, s), x, y) <==> Pair(st, x, y) && !(x == c && y == s)
  {
    DropFacts(st.attachments, c, s);
    assert Detach(st, c, s).attachments == Drop(st.attachments, c, s);
    hide Drop;
    if y == s && s in st.attachments {
      assert x in st.attachments[s] - {c} <==> x in st.attachments[s] && x != c;
    }
  }

  lemma AttachInverse(st: State, c: Id, s: Id)
    requires Inverse(st)
    ensures Inverse(Attach(st, c, s)) <==> Polite(st, DoAttach(c, s))
  {
    var n := Attach(st, c, s);
    if s in st.sessions {
      forall x, y
        ensures Pair(n, x, y) <==> Pair(st, x, y) || (x == c && y == s)
      {
        AttachPairs(st, c, s, x, y);
      }
      assert n.clientSession == st.clientSession[c := s];
      hide Pair, Attach;
      if c in st.clientSession && st.clientSession[c] != s {
        assert Pair(st, c, st.clientSession[c]);
        assert Pair(n, c, st.clientSession[c]);
      }
    }
  }

  lemma DetachInverse(st: State, c: Id, s: Id)
    requires Inverse(st)
    ensures Inverse(Detach(st, c, s)) <==> Polite(st, DoDetach(c, s))
  {
    var n := Detach(st, c, s);
    forall x, y
      ensures Pair(n, x, y) <==> Pair(st, x, y) && !(x == c && y == s)
    {
      DetachPairs(st, c, s, x, y);
    }
    assert n.clientSession == st.clientSession - {c};
    hide Pair, Detach;
    if c in st.clientSession && st.clientSession[c] != s {
      assert Pair(st, c, st.clientSession[c]);
      assert Pair(n, c, st.clientSession[c]);
    }
  }

  /** From a state where the maps are inverses, a step keeps them so if and only if it is polite. */
  lemma InverseExactly(st: State, step: Step)
    requires Inverse(st)
    ensures Inverse(Apply(st, step)) <==> Polite(st, step)
  {
    match step
    case DoAttach(c, s) => AttachInverse(st, c, s);
    case DoDetach(c, s) => DetachInverse(st, c, s);
    case DoDisconnect(c) =>
      if c in st.clientSession {
        DetachInverse(st, c, st.clientSession[c]);
      }
    case DoCreate(_, _, _) => SameMaps(st, Apply(st, step));
    case DoKill(_) => SameMaps(st, Apply(st, step));
    case DoOutput(_, _) => SameMaps(st, Apply(st, step));
    case DoTick(_, _) => SameMaps(st, Apply(st, step));
  }

  lemma SameMaps(st: State, n: State)
    requires Inverse(st) && n.attachments == st.attachments && n.clientSession == st.clientSession
    ensures Inverse(n)
  {
    assert forall c, s :: Pair(n, c, s) == Pair(st, c, s);
  }

  predicate PoliteRun(st: State, steps: seq<Step>)
    decreases |steps|
  {
    steps == [] || (Polite(st, steps[0]) && PoliteRun(Apply(st, steps[0]), steps[1..]))
  }

  /** In a run where every client detaches before it attaches elsewhere the maps stay inverses. */
  lemma {:induction false} PoliteRunsStayInverse(st: State, steps: seq<Step>)
    requires Inverse(st) && PoliteRun(st, steps)
    ensures Inverse(Run(st, steps))
    decreases |steps|
  {
    if steps != [] {
      InverseExactly(st, steps[0]);
      PoliteRunsStayInverse(Apply(st, steps[0]), steps[1..]);
    }
  }

  /** When a client disconnects, no attachment of it survives, if and only if the session recorded
      for it was the only one it was attached to. */
  lemma DisconnectForgetsExactly(st: State, c: Id)
    requires Inv(st)
    ensures (forall s :: !Pair(Disconnect(st, c), c, s)) <==>
            (forall s :: Pair(st, c, s) ==> c in st.clientSession && st.clientSession[c] == s)
  {
    var n := Disconnect(st, c);
    forall s
      ensures Pair(n, c, s) <==> Pair(st, c, s) && !(c in st.clientSession && st.clientSession[c] == s)
    {
      if c in st.clientSession {
        DetachPairs(st, c, st.clientSession[c], c, s);
      }
    }
  }

  /** `c` counts as attached to `a` although another session, or none, is recorded for it. */
  predicate Stale(st: State, c: Id, a: Id) {
    Pair(st, c, a) && !(c in st.clientSession && st.clientSession[c] == a) && a in st.sessions
  }

  /** Only the client itself, naming `a`, or the end of `a` can undo that. */
  predicate Undoes(step: Step, c: Id, a: Id) {
    step == DoDetach(c, a) || step == DoAttach(c, a) || step == DoKill(a)
  }

  lemma StaleStepExactly(st: State, step: Step, c: Id, a: Id)
    requires Inv(st) && Stale(st, c, a)
    ensures Stale(Apply(st, step), c, a) <==> !Undoes(step, c, a)
  {
    match step
    case DoAttach(x, s) =>
      if s in st.sessions {
        AttachPairs(st, x, s, c, a);
      }
    case DoDetach(x, s) => DetachPairs(st, x, s, c, a);
    case DoDisconnect(x) =>
      if x in st.clientSession {
        DetachPairs(st, x, st.clientSession[x], c, a);
      }
    case _ =>
  }

  /** A stale attachment pins its session: in every continuation in which the client neither detaches
      from it nor attaches to it again, and nobody kills it, it stays attached and no tick reaps it. */
  lemma {:induction false} StaleStays(st: State, steps: seq<Step>, c: Id, a: Id)
    requires Inv(st) && Stale(st, c, a) && forall step <- steps :: !Undoes(step, c, a)
    ensures Stale(Run(st, steps), c, a)
    decreases |steps|
  {
    hide Apply, Stale, Inv;
    if steps != [] {
      StaleStepExactly(st, steps[0], c, a);
      StepKeeps(st, steps[0]);
      StaleStays(Apply(st, steps[0]), steps[1..], c, a);
    }
  }

  /** Attaching elsewhere without detaching makes such an attachment: after the client has gone, the
      first session is never reaped again, whatever other clients, ticks and sessions do. */
  lemma StaleAttachmentPins(c: Id, a: Id, b: Id, more: seq<Step>)
    requires a != b && forall step <- more :: !Undoes(step, c, a)
    ensures var st := Run(INIT, [DoCreate(a, 1, 0), DoCreate(b, 1, 0), DoAttach(c, a), DoAttach(c, b), DoDisconnect(c)]);
      c !in st.clientSession && Stale(st, c, a) && Stale(Run(st, more), c, a)
  {
    var steps := [DoCreate(a, 1, 0), DoCreate(b, 1, 0), DoAttach(c, a), DoAttach(c, b), DoDisconnect(c)];
    var x, y := Session(Alive, 1, 0, false), Session(Alive, 1, 0, true);
    var s1 := Apply(INIT, DoCreate(a, 1, 0));
    var s2 := Apply(s1, DoCreate(b, 1, 0));
    assert s2.sessions == map[a := x, b := x];
    var s3 := Apply(s2, DoAttach(c, a));
    assert Clients(s2, a) + {c} == {c};
    assert s3 == State(map[a := y, b := x], map[a := {c}], map[c := a]);
    var s4 := Apply(s3, DoAttach(c, b));
    assert Clients(s3, b) + {c} == {c};
    assert s4 == State(map[a := y, b := y], map[a := {c}, b := {c}], map[c := b]);
    var s5 := Apply(s4, DoDisconnect(c));
    assert s5.attachments == map[a := {c}] && s5.sessions[a] == y;
    Unfold5(INIT, DoCreate(a, 1, 0), DoCreate(b, 1, 0), DoAttach(c, a), DoAttach(c, b), DoDisconnect(c));
    EveryRun(INIT, steps);
    StaleStays(Run(INIT, steps), more, c, a);
  }

  lemma RunCons(st: State, step: Step, rest: seq<Step>)
    ensures Run(st, [step] + rest) == Run(Apply(st, step), rest)
  {
    assert ([step] + rest)[1..] == rest;
  }

  lemma Unfold2(st: State, a: Step, b: Step)
    ensures Run(st, [a, b]) == Apply(Apply(st, a), b)
  {
    hide Apply;
    assert [a, b] == [a] + [b] && [b] == [b] + [];
    RunCons(st, a, [b]);
    RunCons(Apply(st, a), b, []);
  }

  lemma Unfold3(st: State, a: Step, b: Step, c: Step)
    ensures Run(st, [a, b, c]) == Apply(Apply(Apply(st, a), b), c)
  {
    hide Apply;
    assert [a, b, c] == [a] + [b, c];
    RunCons(st, a, [b, c]);
    Unfold2(Apply(st, a), b, c);
  }

  lemma Unfold5(st: State, a: Step, b: Step, c: Step, d: Step, e: Step)
    ensures Run(st, [a, b, c, d, e]) == Apply(Apply(Apply(Apply(Apply(st, a), b), c), d), e)
  {
    hide Apply;
    assert [a, b, c, d, e] == [a] + [b, c, d, e] && [b, c, d, e] == [b] + [c, d, e];
    RunCons(st, a, [b, c, d, e]);
    RunCons(Apply(st, a), b, [c, d, e]);
    Unfold3(Apply(Apply(st, a), b), c, d, e);
  }

  // ---- The daemon object -------------------------------------------------------------------------------

  datatype CreateError = ErrInvalidId | ErrSessionExists | ErrMaxSessions | ErrSpawn

  class Daemon {
    var sessions: map<Id, Session>
    var attachments: map<Id, set<Id>>
    var clientSession: map<Id, Id>

    ghost function View(): State
      reads this
    {
      State(sessions, attachments, clientSession)
    }

    constructor ()
      ensures View() == INIT
    {
      sessions, attachments, clientSession := map[], map[], map[];
    }

    /** `valid` is the syntax check of the id, `spawned` whether the shell could be started. */
    method CreateSession(s: Id, now: int, maxSessions: int, valid: bool, spawned: bool)
      returns (error: Option<CreateError>)
      requires Inv(View())
      modifies this`sessions
      ensures Inv(View())
      ensures error == None ==> View() == Create(old(View()), s, now, maxSessions) && s !in old(sessions)
      ensures error == None ==> sessions == old(sessions)[s := Session(Alive, now, 0, false)]
      ensures error.Some? ==> View() == old(View())
      ensures error == None <==>
                valid && spawned && s !in old(sessions) && !(maxSessions > 0 && |old(sessions)| >= maxSessions)
      ensures error == Some(ErrInvalidId) <==> !valid
      ensures error == Some(ErrSessionExists) <==> valid && s in old(sessions)
      ensures error == Some(ErrSpawn) ==> !spawned
    {
      CreateKeeps(View(), s, now, maxSessions);
      if !valid {
        return Some(ErrInvalidId);
      }
      if s in sessions {
        return Some(ErrSessionExists);
      }
      if maxSessions > 0 && |sessions| >= maxSessions {
        return Some(ErrMaxSessions);
      }
      if !spawned {
        return Some(ErrSpawn);
      }
      sessions := sessions[s := Session(Alive, now, 0, false)];
      return None;
    }

    method ServiceAttach(s: Id) returns (ok: bool)
      modifies this`sessions
      ensures ok <==> s in old(sessions)
      ensures View() == SvcAttach(old(View()), s)
    {
      if s !in sessions {
        return false;
      }
      if sessions[s].mode == Detached {
        sessions := sessions[s := sessions[s].(mode := Alive)];
      }
      sessions := sessions[s := sessions[s].(used := true)];
      return true;
    }

    method ServiceDetach(s: Id) returns (ok: bool)
      modifies this`sessions
      ensures ok <==> s in old(sessions)
      ensures View() == SvcDetach(old(View()), s)
    {
      if s !in sessions {
        return false;
      }
      if sessions[s].mode == Alive {
        sessions := sessions[s := sessions[s].(mode := Detached)];
      }
      assert sessions == old(sessions)[s := old(sessions)[s].(mode := Detached)];
      return true;
    }

    method HandleAttach(c: Id, s: Id) returns (ok: bool)
      requires Inv(View())
      modifies this
      ensures ok <==> s in old(sessions)
      ensures View() == Attach(old(View()), c, s) && Inv(View())
    {
      AttachKeeps(View(), c, s);
      ok := ServiceAttach(s);
      if !ok {
        return;
      }
      if s !in attachments {
        attachments := attachments[s := {}];
      }
      attachments := attachments[s := attachments[s] + {c}];
      clientSession := clientSession[c := s];
      assert attachments == MapAttach(SvcAttach(old(View()), s), c, s).attachments;
    }

    /** The part of both detach handlers under the daemon's lock. */
    method Leave(c: Id, s: Id) returns (shouldDetach: bool)
      modifies this`attachments
      ensures shouldDetach <==> LastOne(old(View()), c, s)
      ensures attachments == Drop(old(attachments), c, s)
    {
      shouldDetach := false;
      if s in attachments {
        var clients := attachments[s] - {c};
        if clients == {} {
          attachments := attachments - {s};
          shouldDetach := true;
        } else {
          attachments := attachments[s := clients];
        }
      }
    }

    method HandleDetach(c: Id, s: Id)
      requires Inv(View())
      modifies this
      ensures View() == Detach(old(View()), c, s) && Inv(View())
    {
      DetachKeeps(View(), c, s);
      var shouldDetach := Leave(c, s);
      clientSession := clientSession - {c};
      if shouldDetach {
        var _ := ServiceDetach(s);
      }
    }

    method DetachClient(c: Id)
      requires Inv(View())
      modifies this
      ensures View() == Disconnect(old(View()), c) && Inv(View())
    {
      StepKeeps(View(), DoDisconnect(c));
      if c !in clientSession {
        return;
      }
      var s := clientSession[c];
      clientSession := clientSession - {c};
      var shouldDetach := Leave(c, s);
      if shouldDetach {
        var _ := ServiceDetach(s);
      }
    }

    method KillSession(s: Id) returns (ok: bool)
      modifies this`sessions
      ensures ok <==> s in old(sessions)
      ensures View() == Kill(old(View()), s)
    {
      if s !in sessions {
        assert sessions - {s} == sessions;
        return false;
      }
      sessions := sessions - {s};
      return true;
    }

    /** The listing comes in any order; the loop reaps exactly the expired sessions. */
    method ReaperTick(now: int, ttl: int) returns (reaped: set<Id>)
      requires Inv(View())
      modifies this`sessions
      ensures View() == Tick(old(View()), now, ttl) && Inv(View())
      ensures forall s :: s in reaped <==> s in old(sessions) && Expired(old(sessions)[s], now, ttl)
      ensures forall s :: s in reaped ==> s !in attachments
    {
      ghost var before := View();
      var listed := sessions;
      var todo := listed.Keys;
      reaped := {};
      hide Inv, Expired;
      while todo != {}
        invariant todo <= listed.Keys
        invariant Reaped(listed, listed.Keys - todo, reaped, now, ttl)
        invariant sessions == listed - reaped
        decreases |todo|
      {
        var s :| s in todo;
        ReapedStep(listed, listed.Keys - todo, reaped, s, now, ttl);
        assert listed.Keys - (todo - {s}) == listed.Keys - todo + {s};
        todo := todo - {s};
        if listed[s].mode == Detached && now - LastActivity(sessions[s]) >= ttl {
          var _ := KillSession(s);
          reaped := reaped + {s};
        }
      }
      assert listed.Keys - {} == listed.Keys;
      ReapedAll(before, reaped, now, ttl);
    }
  }

  /** Of the sessions `seen` so far, exactly the expired ones have been reaped. */
  predicate Reaped(listed: map<Id, Session>, seen: set<Id>, reaped: set<Id>, now: int, ttl: int) {
    && reaped <= seen <= listed.Keys
    && forall s :: s in seen ==> (s in reaped <==> Expired(listed[s], now, ttl))
  }

  lemma ReapedStep(listed: map<Id, Session>, seen: set<Id>, reaped: set<Id>, s: Id, now: int, ttl: int)
    requires Reaped(listed, seen, reaped, now, ttl) && s in listed && s !in seen
    ensures s in listed - reaped && (listed - reaped)[s] == listed[s]
    ensures listed - reaped - {s} == listed - (reaped + {s})
    ensures Reaped(listed, seen + {s}, if Expired(listed[s], now, ttl) then reaped + {s} else reaped, now, ttl)
    ensures Expired(listed[s], now, ttl) <==> listed[s].mode == Detached && now - LastActivity(listed[s]) >= ttl
  {
  }

  lemma ReapedAll(st: State, reaped: set<Id>, now: int, ttl: int)
    requires Inv(st) && Reaped(st.sessions, st.sessions.Keys, reaped, now, ttl)
    ensures st.(sessions := st.sessions - reaped) == Tick(st, now, ttl)
    ensures Inv(Tick(st, now, ttl))
    ensures forall s :: s in reaped <==> s in st.sessions && Expired(st.sessions[s], now, ttl)
    ensures forall s :: s in reaped ==> s !in st.attachments
  {
    assert st.sessions - reaped == Tick(st, now, ttl).sessions;
  }
}
