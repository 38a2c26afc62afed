/** The event bus as interleaved steps of any number of `Publish`, `Unsubscribe` and `Close` calls.
    A section that holds the write lock from start to end is one step; `Publish` holds the read lock
    across its sends, so each of its sends is a step of its own. */
module EventBus {
  import opened Prelude

  const BUFFER_SIZE: nat := 256

  datatype Event = Event(kind: nat, body: nat)

  /** `sync.Once`: while one caller runs the function, the others wait. */
  datatype Once = Idle | Running(owner: nat) | Done

  /** One subscription. `closes` counts `close(ch)`; `late` marks one made on a closed bus. The last
      five fields only record history: events received, events sent to it, sends that met a full
      buffer, and how many events had been published when it joined and left the list. */
  datatype Sub = Sub(filter: Option<set<nat>>, queue: seq<Event>, once: Once, closes: nat, late: bool,
                     taken: seq<Event>, offered: seq<Event>, dropped: nat, since: nat, until: Option<nat>)

  /** Where a call stands. */
  datatype Pc =
    | WantsPublish(event: Event)
    | Publishing(event: Event, at: nat)   // holds the read lock
    | WantsOnce(sub: nat)                 // Unsubscribe before once.Do
    | WantsRemove(sub: nat)               // inside once.Do, before removeSub's lock
    | Removed(sub: nat)                   // inside once.Do, before close(ch)
    | WantsClose
    | Closing(todo: seq<nat>)             // Close after releasing the lock
    | Returned

  datatype State = State(threads: seq<Pc>, subs: seq<Sub>, list: seq<nat>, closed: bool,
                         published: seq<Event>, sentOnClosed: bool)

  datatype Step =
    | Subscribe(filter: Option<set<nat>>)
    | Call(pc: Pc)
    | Run(t: nat)
    | Receive(sub: nat)

  const INIT: State := State([], [], [], false, [], false)

  predicate Matches(filter: Option<set<nat>>, e: Event) {
    filter == None || e.kind in filter.value
  }

  /** The list without the first occurrence of `x`. */
  function Without(list: seq<nat>, x: nat): seq<nat> {
    if list == [] then [] else if list[0] == x then list[1..] else [list[0]] + Without(list[1..], x)
  }

  predicate Reading(s: State) {
    exists t :: 0 <= t < |s.threads| && s.threads[t].Publishing?
  }

  predicate WriterWaits(s: State) {
    exists t :: 0 <= t < |s.threads| && (s.threads[t].WantsRemove? || s.threads[t].WantsClose?)
  }

  /** A `once.Do` on `sub` can go on: it is not being run by another call. */
  predicate OnceFree(s: State, sub: nat) {
    sub < |s.subs| && !s.subs[sub].once.Running?
  }

  predicate CanRun(s: State, pc: Pc) {
    match pc
    case WantsPublish(_) => true
    case Publishing(_, _) => true
    case WantsOnce(i) => OnceFree(s, i)
    case WantsRemove(i) => i < |s.subs| && !Reading(s)
    case Removed(i) => i < |s.subs|
    case WantsClose => !Reading(s)
    case Closing(todo) => todo == [] || OnceFree(s, todo[0])
    case Returned => false
  }

  predicate Can(s: State, step: Step) {
    match step
    case Subscribe(_) => !Reading(s)
    case Call(pc) => pc.WantsPublish? || pc.WantsClose? || (pc.WantsOnce? && pc.sub < |s.subs|)
    case Run(t) => t < |s.threads| && CanRun(s, s.threads[t])
    case Receive(i) => i < |s.subs| && s.subs[i].queue != []
  }

  function Joined(s: State, filter: Option<set<nat>>): State {
    var sub := Sub(filter, [], Idle, 0, false, [], [], 0, |s.published|, None);
    if s.closed then s.(subs := s.subs + [sub.(closes := 1, late := true)])
    else s.(subs := s.subs + [sub], list := s.list + [|s.subs|])
  }

  /** The non-blocking send of one event to one subscriber. */
  function Offer(sub: Sub, e: Event): Sub {
    if !Matches(sub.filter, e) then sub
    else if |sub.queue| < BUFFER_SIZE then sub.(queue := sub.queue + [e], offered := sub.offered + [e])
    else sub.(offered := sub.offered + [e], dropped := sub.dropped + 1)
  }

  function Goto(s: State, t: nat, pc: Pc): State
    requires t < |s.threads|
  {
    s.(threads := s.threads[t := pc])
  }

  function SetSub(s: State, i: nat, sub: Sub): State
    requires i < |s.subs|
  {
    s.(subs := s.subs[i := sub])
  }

  function Lock(s: State, t: nat, e: Event): State
    requires t < |s.threads|
  {
    if s.closed then Goto(s, t, Returned)
    else Goto(s, t, Publishing(e, 0)).(published := s.published + [e])
  }

  function Send(s: State, t: nat, e: Event, at: nat): State
    requires t < |s.threads|
  {
    if at < |s.list| && s.list[at] < |s.subs| then
      var i := s.list[at];
      var sub := s.subs[i];
      SetSub(Goto(s, t, Publishing(e, at + 1)), i, Offer(sub, e))
      .(sentOnClosed := s.sentOnClosed || (sub.closes > 0 && Matches(sub.filter, e)))
    else Goto(s, t, Returned)
  }

  function EnterOnce(s: State, t: nat, i: nat): State
    requires t < |s.threads| && i < |s.subs|
  {
    if s.subs[i].once.Done? then Goto(s, t, Returned)
    else SetSub(Goto(s, t, WantsRemove(i)), i, s.subs[i].(once := Running(t)))
  }

  function Remove(s: State, t: nat, i: nat): State
    requires t < |s.threads| && i < |s.subs|
  {
    var sub := if i in s.list then s.subs[i].(until := Some(|s.published|)) else s.subs[i];
    SetSub(Goto(s, t, Removed(i)), i, sub).(list := Without(s.list, i))
  }

  function Closed(sub: Sub): Sub { sub.(once := Done, closes := sub.closes + 1) }

  function Shut(s: State, t: nat): State
    requires t < |s.threads|
  {
    if s.closed then Goto(s, t, Returned)
    else Goto(s, t, Closing(s.list)).(closed := true, list := [], subs := LeaveAll(s.subs, s.list, |s.published|))
  }

  /** Every subscription of `list` left the bus at `now`. */
  function LeaveAll(subs: seq<Sub>, list: seq<nat>, now: nat): seq<Sub>
    decreases |list|
  {
    if list == [] then subs
    else if list[0] < |subs| then LeaveAll(subs[list[0] := subs[list[0]].(until := Some(now))], list[1..], now)
    else LeaveAll(subs, list[1..], now)
  }

  function CloseNext(s: State, t: nat, todo: seq<nat>): State
    requires t < |s.threads|
  {
    if todo == [] then Goto(s, t, Returned)
    else
      var n := Goto(s, t, Closing(todo[1..]));
      if todo[0] < |s.subs| && s.subs[todo[0]].once.Idle? then SetSub(n, todo[0], Closed(s.subs[todo[0]])) else n
  }

  function Advance(s: State, t: nat): State
    requires t < |s.threads| && CanRun(s, s.threads[t])
  {
    match s.threads[t]
    case WantsPublish(e) => Lock(s, t, e)
    case Publishing(e, at) => Send(s, t, e, at)
    case WantsOnce(i) => EnterOnce(s, t, i)
    case WantsRemove(i) => Remove(s, t, i)
    case Removed(i) => SetSub(Goto(s, t, Returned), i, Closed(s.subs[i]))
    case WantsClose => Shut(s, t)
    case Closing(todo) => CloseNext(s, t, todo)
  }

  function Apply(s: State, step: Step): State
    requires Can(s, step)
  {
    match step
    case Subscribe(filter) => Joined(s, filter)
    case Call(pc) => s.(threads := s.threads + [pc])
    case Run(t) => Advance(s, t)
    case Receive(i) =>
      var sub := s.subs[i];
      SetSub(s, i, sub.(queue := sub.queue[1..], taken := sub.taken + [sub.queue[0]]))
  }

  function Exec(s: State, steps: seq<Step>): Option<State>
    decreases |steps|
  {
    if steps == [] then Some(s)
    else if Can(s, steps[0]) then Exec(Apply(s, steps[0]), steps[1..])
    else None
  }

  predicate Runs(s: State, steps: seq<Step>) {
    Exec(s, steps).Some?
  }

  function Final(s: State, steps: seq<Step>): State
    requires Runs(s, steps)
  {
    Exec(s, steps).value
  }

  // ---- Safety: channels ------------------------------------------------------------------------

  predicate Unique(list: seq<nat>) {
    forall j, k :: 0 <= j < k < |list| ==> list[j] != list[k]
  }

  predicate Listed(sub: Sub) {
    !sub.late && !sub.once.Done? && sub.until == None
  }

  predicate ListOk(s: State) {
    && Unique(s.list)
    && (s.closed ==> s.list == [])
    && (forall k :: 0 <= k < |s.list| ==> s.list[k] < |s.subs| && Listed(s.subs[s.list[k]]))
  }

  predicate PcOk(s: State, t: nat, pc: Pc) {
    match pc
    case Publishing(_, at) => !s.closed && at <= |s.list|
    case WantsOnce(i) => i < |s.subs|
    case WantsRemove(i) => i < |s.subs| && s.subs[i].once == Running(t)
    case Removed(i) => i < |s.subs| && s.subs[i].once == Running(t) && i !in s.list
    case Closing(todo) => s.closed && forall k :: 0 <= k < |todo| ==> todo[k] < |s.subs| && !s.subs[todo[k]].late
    case _ => true
  }

  predicate ThreadsOk(s: State) {
    forall t :: 0 <= t < |s.threads| ==> PcOk(s, t, s.threads[t])
  }

  predicate RunsOnce(s: State, i: nat, owner: nat) {
    owner < |s.threads| && (s.threads[owner] == WantsRemove(i) || s.threads[owner] == Removed(i))
  }

  /** A channel has been closed once by its `once`, and once more if it was born closed. */
  predicate SubOk(s: State, i: nat, sub: Sub) {
    && sub.closes == (if sub.late then 1 else 0) + (if sub.once.Done? then 1 else 0)
    && (sub.once.Running? ==> RunsOnce(s, i, sub.once.owner))
    && |sub.queue| <= BUFFER_SIZE
  }

  predicate SubsOk(s: State) {
    forall i :: 0 <= i < |s.subs| ==> SubOk(s, i, s.subs[i])
  }

  predicate Inv(s: State) {
    ListOk(s) && ThreadsOk(s) && SubsOk(s) && !s.sentOnClosed
  }

  lemma {:induction false} WithoutFacts(list: seq<nat>, x: nat)
    requires Unique(list)
    ensures Unique(Without(list, x)) && x !in Without(list, x)
    ensures forall y :: y in Without(list, x) <==> y in list && y != x
    ensures |Without(list, x)| <= |list|
  {
    if list != [] {
      assert Unique(list[1..]);
      WithoutFacts(list[1..], x);
      assert forall y :: y in list <==> y == list[0] || y in list[1..];
      assert list[0] !in list[1..];
      if list[0] != x {
        var w := Without(list[1..], x);
        assert list[0] !in w;
        assert forall y :: y in [list[0]] + w <==> y == list[0] || y in w;
      }
    }
  }

  lemma {:induction false} LeaveAllFacts(subs: seq<Sub>, list: seq<nat>, now: nat)
    requires forall k :: 0 <= k < |list| ==> list[k] < |subs|
    ensures |LeaveAll(subs, list, now)| == |subs|
    ensures forall i :: 0 <= i < |subs| ==>
      LeaveAll(subs, list, now)[i] == if i in list then subs[i].(until := Some(now)) else subs[i]
    decreases |list|
  {
    if list != [] {
      var next := subs[list[0] := subs[list[0]].(until := Some(now))];
      LeaveAllFacts(next, list[1..], now);
      assert forall i :: i in list <==> i == list[0] || i in list[1..];
    }
  }

  lemma JoinedKeeps(s: State, filter: Option<set<nat>>)
    requires Inv(s) && !Reading(s)
    ensures Inv(Joined(s, filter))
  {
  }

  lemma SendKeeps(s: State, t: nat)
    requires Inv(s) && t < |s.threads| && s.threads[t].Publishing?
    ensures Inv(Advance(s, t))
  {
  }

  lemma LockKeeps(s: State, t: nat)
    requires Inv(s) && t < |s.threads| && s.threads[t].WantsPublish?
    ensures Inv(Advance(s, t))
  {
  }

  lemma EnterKeeps(s: State, t: nat)
    requires Inv(s) && t < |s.threads| && s.threads[t].WantsOnce? && CanRun(s, s.threads[t])
    ensures Inv(Advance(s, t))
  {
  }

  lemma RemoveKeeps(s: State, t: nat)
    requires Inv(s) && t < |s.threads| && s.threads[t].WantsRemove? && CanRun(s, s.threads[t])
    ensures Inv(Advance(s, t))
  {
    var n := Advance(s, t);
    var x := s.threads[t].sub;
    WithoutFacts(s.list, x);
    assert PcOk(s, t, s.threads[t]);
    forall k | 0 <= k < |n.list| ensures n.list[k] < |n.subs| && Listed(n.subs[n.list[k]]) {
      assert n.list[k] in n.list;
      assert n.list[k] in s.list && n.list[k] != x;
    }
  }

  lemma FinishKeeps(s: State, t: nat)
    requires Inv(s) && t < |s.threads| && s.threads[t].Removed? && CanRun(s, s.threads[t])
    ensures Inv(Advance(s, t))
  {
  }

  lemma ShutKeeps(s: State, t: nat)
    requires Inv(s) && t < |s.threads| && s.threads[t].WantsClose? && CanRun(s, s.threads[t])
    ensures Inv(Advance(s, t))
  {
    var n := Advance(s, t);
    LeaveAllFacts(s.subs, s.list, |s.published|);
    hide LeaveAll;
    forall u | 0 <= u < |n.threads| ensures PcOk(n, u, n.threads[u]) {
      assert PcOk(s, u, s.threads[u]);
    }
    forall i | 0 <= i < |n.subs| ensures SubOk(n, i, n.subs[i]) {
      assert SubOk(s, i, s.subs[i]);
    }
  }

  lemma CloseNextKeeps(s: State, t: nat)
    requires Inv(s) && t < |s.threads| && s.threads[t].Closing? && CanRun(s, s.threads[t])
    ensures Inv(Advance(s, t))
  {
  }

  lemma StepKeeps(s: State, step: Step)
    requires Inv(s) && Can(s, step)
    ensures Inv(Apply(s, step))
  {
    match step
    case Subscribe(filter) => JoinedKeeps(s, filter);
    case Run(t) =>
      match s.threads[t] {
        case WantsPublish(_) => LockKeeps(s, t);
        case Publishing(_, _) => SendKeeps(s, t);
        case WantsOnce(_) => EnterKeeps(s, t);
        case WantsRemove(_) => RemoveKeeps(s, t);
        case Removed(_) => FinishKeeps(s, t);
        case WantsClose => ShutKeeps(s, t);
        case Closing(_) => CloseNextKeeps(s, t);
      }
    case Call(_) => CallKeeps(s, step);
    case Receive(_) => ReceiveKeeps(s, step);
  }

  lemma CallKeeps(s: State, step: Step)
    requires Inv(s) && Can(s, step) && step.Call?
    ensures Inv(Apply(s, step))
  {
  }

  lemma ReceiveKeeps(s: State, step: Step)
    requires Inv(s) && Can(s, step) && step.Receive?
    ensures Inv(Apply(s, step))
  {
  }

  lemma {:induction false} RunKeeps(s: State, steps: seq<Step>)
    requires Inv(s) && Runs(s, steps)
    ensures Inv(Final(s, steps))
    decreases |steps|
  {
    if steps != [] {
      StepKeeps(s, steps[0]);
      RunKeeps(Apply(s, steps[0]), steps[1..]);
    }
  }

  /** In every interleaving no event is ever sent on a closed channel, and a channel is closed twice
      exactly when an `Unsubscribe` completed on a subscription made after `Close`, because that
      branch of `subscribe` closes the channel outside `once`. */
  lemma ChannelsAreSafe(steps: seq<Step>)
    requires Runs(INIT, steps)
    ensures !Final(INIT, steps).sentOnClosed
    ensures forall i :: 0 <= i < |Final(INIT, steps).subs| ==>
      var sub := Final(INIT, steps).subs[i];
      && sub.closes <= 2
      && (sub.closes == 2 <==> sub.late && sub.once.Done?)
      && (sub.once.Done? && !sub.late ==> sub.closes == 1)
  {
    RunKeeps(INIT, steps);
    var s := Final(INIT, steps);
    forall i | 0 <= i < |s.subs|
      ensures s.subs[i].closes == (if s.subs[i].late then 1 else 0) + (if s.subs[i].once.Done? then 1 else 0)
    {
      assert SubOk(s, i, s.subs[i]);
    }
  }

  lemma Then(s: State, step: Step, n: State, rest: seq<Step>)
    requires Can(s, step) && n == Apply(s, step) && Runs(n, rest)
    ensures Runs(s, [step] + rest) && Final(s, [step] + rest) == Final(n, rest)
  {
    assert ([step] + rest)[1..] == rest;
  }

  /** Subscribing to a closed bus and unsubscribing closes the same channel twice. */
  lemma LateUnsubscribePanics() returns (steps: seq<Step>)
    ensures Runs(INIT, steps)
    ensures Final(INIT, steps).subs == [Sub(None, [], Done, 2, true, [], [], 0, 0, None)]
  {
    var s1 := State([WantsClose], [], [], false, [], false);
    var s2 := State([Closing([])], [], [], true, [], false);
    var sub := Sub(None, [], Idle, 1, true, [], [], 0, 0, None);
    var s3 := State([Closing([])], [sub], [], true, [], false);
    steps := LateUnsubscribe(s3, sub);
    hide Final;
    Then(s2, Subscribe(None), s3, steps);
    steps := [Subscribe(None)] + steps;
    Then(s1, Run(0), s2, steps);
    steps := [Run(0)] + steps;
    Then(INIT, Call(WantsClose), s1, steps);
    steps := [Call(WantsClose)] + steps;
  }

  lemma LateUnsubscribe(s: State, sub: Sub) returns (steps: seq<Step>)
    requires s == State([Closing([])], [sub], [], true, [], false) && sub.once == Idle
    ensures Runs(s, steps)
    ensures Final(s, steps).subs == [sub.(once := Done, closes := sub.closes + 1)]
  {
    var s4 := s.(threads := [Closing([]), WantsOnce(0)]);
    var s5 := s.(threads := [Closing([]), WantsRemove(0)], subs := [sub.(once := Running(1))]);
    var s6 := s5.(threads := [Closing([]), Removed(0)]);
    var s7 := s.(threads := [Closing([]), Returned], subs := [sub.(once := Done, closes := sub.closes + 1)]);
    Then(s6, Run(1), s7, []);
    hide Final;
    Then(s5, Run(1), s6, [Run(1)] + []);
    Then(s4, Run(1), s5, [Run(1)] + ([Run(1)] + []));
    steps := [Run(1)] + ([Run(1)] + ([Run(1)] + []));
    Then(s, Call(WantsOnce(0)), s4, steps);
    steps := [Call(WantsOnce(0))] + steps;
  }

  // ---- Progress: `once` and the lock never block each other for good ----------------------------

  /** Steps a call still needs while the list has `n` subscriptions. */
  function Weight(pc: Pc, n: nat): nat {
    match pc
    case WantsPublish(_) => n + 2
    case Publishing(_, at) => if at <= n then n - at + 1 else 1
    case WantsOnce(_) => 3
    case WantsRemove(_) => 2
    case Removed(_) => 1
    case WantsClose => n + 2
    case Closing(todo) => |todo| + 1
    case Returned => 0
  }

  function Work(threads: seq<Pc>, n: nat): nat {
    if threads == [] then 0 else Weight(threads[0], n) + Work(threads[1..], n)
  }

  lemma {:induction false} WorkFalls(threads: seq<Pc>, t: nat, pc: Pc, n: nat, m: nat)
    requires t < |threads| && m <= n && Weight(pc, m) < Weight(threads[t], n)
    ensures Work(threads[t := pc], m) < Work(threads, n)
  {
    var next := threads[t := pc];
    if t == 0 {
      assert next[1..] == threads[1..];
      WorkMonotone(threads[1..], m, n);
    } else {
      assert next[0] == threads[0] && next[1..] == threads[1..][t - 1 := pc];
      WorkFalls(threads[1..], t - 1, pc, n, m);
    }
  }

  lemma {:induction false} WorkMonotone(threads: seq<Pc>, m: nat, n: nat)
    requires m <= n
    ensures Work(threads, m) <= Work(threads, n)
  {
    if threads != [] {
      WorkMonotone(threads[1..], m, n);
    }
  }

  lemma UniqueList(s: State)
    requires Inv(s)
    ensures Unique(s.list)
  {
  }

  lemma ListedExists(s: State)
    requires Inv(s)
    ensures forall i :: i in s.list ==> i < |s.subs|
    ensures forall k :: 0 <= k < |s.list| ==> s.list[k] < |s.subs|
  {
  }

  lemma AdvanceWorks(s: State, t: nat)
    requires Inv(s) && t < |s.threads| && CanRun(s, s.threads[t])
    ensures Work(Advance(s, t).threads, |Advance(s, t).list|) < Work(s.threads, |s.list|)
  {
    hide Work, LeaveAll, Without, Offer, ListOk, SubsOk, Reading;
    var n := Advance(s, t);
    assert PcOk(s, t, s.threads[t]);
    if s.threads[t].WantsRemove? {
      UniqueList(s);
      WithoutFacts(s.list, s.threads[t].sub);
    }
    WorkFalls(s.threads, t, n.threads[t], |s.list|, |n.list|);
    assert n.threads == s.threads[t := n.threads[t]];
  }

  /** The calls in progress run on, and no new one begins. */
  predicate OnlyRuns(steps: seq<Step>) {
    forall k :: 0 <= k < |steps| ==> steps[k].Run?
  }

  predicate AllReturned(s: State) {
    forall t :: 0 <= t < |s.threads| ==> s.threads[t] == Returned
  }

  predicate NoneCanRun(s: State) {
    forall t :: 0 <= t < |s.threads| ==> !Can(s, Run(t))
  }

  /** The call that can always go on when `t` cannot: the one that runs the `once` it waits for. */
  lemma Unblocked(s: State, t: nat) returns (u: nat)
    requires Inv(s) && t < |s.threads| && s.threads[t] != Returned && !Reading(s)
    ensures u < |s.threads| && CanRun(s, s.threads[u])
    ensures u == t || s.threads[u].WantsRemove? || s.threads[u].Removed?
  {
    assert PcOk(s, t, s.threads[t]);
    u := t;
    if !CanRun(s, s.threads[t]) {
      var i := if s.threads[t].WantsOnce? then s.threads[t].sub else s.threads[t].todo[0];
      assert SubOk(s, i, s.subs[i]);
      u := s.subs[i].once.owner;
    }
  }

  /** In every reachable state with a call that has not returned, some call can take a step, even if
      a waiting writer keeps new readers out, as `sync.RWMutex` does. */
  lemma SomeCallCanRun(s: State, t: nat) returns (u: nat)
    requires Inv(s) && t < |s.threads| && s.threads[t] != Returned
    ensures u < |s.threads| && CanRun(s, s.threads[u])
    ensures WriterWaits(s) ==> !s.threads[u].WantsPublish?
  {
    if Reading(s) {
      u :| 0 <= u < |s.threads| && s.threads[u].Publishing?;
    } else if WriterWaits(s) {
      var w :| 0 <= w < |s.threads| && (s.threads[w].WantsRemove? || s.threads[w].WantsClose?);
      u := Unblocked(s, w);
    } else {
      u := Unblocked(s, t);
    }
  }

  /** Whatever has happened on the bus, a continuation exists, without any new call, in which every
      `Publish`, `Unsubscribe` and `Close` returns: no interleaving of `once` and the lock deadlocks. */
  lemma NoDeadlock(steps: seq<Step>) returns (more: seq<Step>)
    requires Runs(INIT, steps)
    ensures OnlyRuns(more)
    ensures Runs(Final(INIT, steps), more) && AllReturned(Final(Final(INIT, steps), more))
  {
    RunKeeps(INIT, steps);
    more := EveryCallCanReturn(Final(INIT, steps));
  }

  lemma {:induction false} EveryCallCanReturn(s: State) returns (steps: seq<Step>)
    requires Inv(s)
    ensures OnlyRuns(steps) && Runs(s, steps) && AllReturned(Final(s, steps))
    decreases Work(s.threads, |s.list|)
  {
    if AllReturned(s) {
      steps := [];
    } else {
      var t :| 0 <= t < |s.threads| && s.threads[t] != Returned;
      var u := SomeCallCanRun(s, t);
      StepKeeps(s, Run(u));
      AdvanceWorks(s, u);
      var rest := EveryCallCanReturn(Advance(s, u));
      Then(s, Run(u), Advance(s, u), rest);
      steps := [Run(u)] + rest;
    }
  }

  /** No schedule runs on for ever: the calls in progress take at most `Work` steps in all. */
  lemma {:induction false} SchedulesEnd(s: State, steps: seq<Step>)
    requires Inv(s) && Runs(s, steps) && OnlyRuns(steps)
    ensures |steps| <= Work(s.threads, |s.list|) && Inv(Final(s, steps))
    decreases |steps|
  {
    if steps != [] {
      assert steps[0].Run?;
      StepKeeps(s, steps[0]);
      AdvanceWorks(s, steps[0].t);
      hide Work, Inv, Can, Apply, Advance;
      SchedulesEnd(Apply(s, steps[0]), steps[1..]);
    }
  }

  /** After any interleaving, every way of letting the calls in progress run on comes to an end within
      `Work` steps, and where none of them can take another step all of them have returned. */
  lemma EveryScheduleReturns(steps: seq<Step>, more: seq<Step>)
    requires Runs(INIT, steps) && Runs(Final(INIT, steps), more) && OnlyRuns(more)
    ensures |more| <= Work(Final(INIT, steps).threads, |Final(INIT, steps).list|)
    ensures NoneCanRun(Final(Final(INIT, steps), more)) <==> AllReturned(Final(Final(INIT, steps), more))
  {
    RunKeeps(INIT, steps);
    SchedulesEnd(Final(INIT, steps), more);
    var end := Final(Final(INIT, steps), more);
    if t :| 0 <= t < |end.threads| && end.threads[t] != Returned {
      var u := SomeCallCanRun(end, t);
      assert Can(end, Run(u));
    }
  }
}
