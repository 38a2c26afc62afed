/** What a subscriber of the event bus receives. */
module EventDelivery {
  import opened Prelude
  import opened EventBus

  /** `a` is `b` with some elements left out, in the same order. */
  predicate Subsequence(a: seq<Event>, b: seq<Event>) {
    if a == [] then true
    else if b == [] then false
    else if a[|a| - 1] == b[|b| - 1] then Subsequence(a[..|a| - 1], b[..|b| - 1])
    else Subsequence(a, b[..|b| - 1])
  }

  lemma {:induction false} Skip(a: seq<Event>, b: seq<Event>, x: Event)
    requires Subsequence(a, b)
    ensures Subsequence(a, b + [x])
    decreases |b|, 1
  {
    assert (b + [x])[..|b|] == b;
    if a != [] && a[|a| - 1] == x {
      Shorter(a, b);
    }
  }

  /** Dropping the last element of a subsequence leaves one. */
  lemma {:induction false} Shorter(a: seq<Event>, b: seq<Event>)
    requires a != [] && Subsequence(a, b)
    ensures Subsequence(a[..|a| - 1], b)
    decreases |b|, 0
  {
    var p, q := a[..|a| - 1], b[..|b| - 1];
    assert q + [b[|b| - 1]] == b;
    if a[|a| - 1] == b[|b| - 1] {
      Skip(p, q, b[|b| - 1]);
    } else {
      Shorter(a, q);
      Skip(p, q, b[|b| - 1]);
    }
  }

  lemma Take(a: seq<Event>, b: seq<Event>, x: Event)
    requires Subsequence(a, b)
    ensures Subsequence(a + [x], b + [x])
  {
    assert (a + [x])[..|a|] == a && (b + [x])[..|b|] == b;
  }

  /** The events of `events` that pass the filter, in order. */
  function Matching(filter: Option<set<nat>>, events: seq<Event>): seq<Event> {
    if events == [] then []
    else
      var last := events[|events| - 1];
      Matching(filter, events[..|events| - 1]) + if filter.None? || last.kind in filter.value then [last] else []
  }

  lemma MatchingOne(filter: Option<set<nat>>, events: seq<Event>, e: Event)
    ensures Matching(filter, events + [e]) ==
            Matching(filter, events) + if filter.None? || e.kind in filter.value then [e] else []
  {
    assert (events + [e])[..|events|] == events;
  }

  /** The send of one event: a subscriber with room for fewer than 256 queued events gets it if and only
      if it has no filter or the event's kind is in it, and loses it if it asked for it and is full. */
  lemma OfferExactly(sub: Sub, e: Event)
    ensures var o := Offer(sub, e);
      && (o.queue == sub.queue + [e] <==> (sub.filter.None? || e.kind in sub.filter.value) && |sub.queue| < 256)
      && (o.queue == sub.queue || o.queue == sub.queue + [e])
      && (o.dropped == sub.dropped + 1 <==> (sub.filter.None? || e.kind in sub.filter.value) && |sub.queue| >= 256)
  {
    assert |sub.queue + [e]| == |sub.queue| + 1;
  }

  // ---- One channel ---------------------------------------------------------------------------------

  function Got(sub: Sub): seq<Event> { sub.taken + sub.queue }

  /** Received and queued events are the offered ones less the dropped ones. */
  predicate Kept(sub: Sub) {
    && Subsequence(Got(sub), sub.offered)
    && |Got(sub)| + sub.dropped == |sub.offered|
    && (sub.dropped == 0 ==> Got(sub) == sub.offered)
  }

  lemma OfferKeeps(sub: Sub, e: Event)
    requires Kept(sub)
    ensures Kept(Offer(sub, e))
  {
    if Matches(sub.filter, e) {
      if |sub.queue| < BUFFER_SIZE {
        Take(Got(sub), sub.offered, e);
        Assoc(sub.taken, sub.queue, [e]);
      } else {
        Skip(Got(sub), sub.offered, e);
      }
    }
  }

  // ---- Serialised publishers -------------------------------------------------------------------------

  /** `sub` has been offered exactly the matching events numbered `since` to `upto`. */
  predicate Offered(sub: Sub, published: seq<Event>, upto: int) {
    sub.since <= upto <= |published| && sub.offered == Matching(sub.filter, published[sub.since..upto])
  }

  /** A publisher holds the read lock and has yet to reach position `k` of the list. */
  predicate Behind(threads: seq<Pc>, k: int) {
    exists t :: 0 <= t < |threads| && threads[t].Publishing? && threads[t].at <= k
  }

  function Reached(s: State, k: int): int {
    |s.published| - if Behind(s.threads, k) then 1 else 0
  }

  predicate Serial(threads: seq<Pc>) {
    forall t, u :: 0 <= t < u < |threads| && threads[t].Publishing? ==> !threads[u].Publishing?
  }

  /** The one publisher holds the newest event. */
  predicate Newest(s: State) {
    forall t :: 0 <= t < |s.threads| && s.threads[t].Publishing? ==>
      s.published != [] && s.published[|s.published| - 1] == s.threads[t].event
  }

  predicate OnList(s: State) {
    forall k :: 0 <= k < |s.list| ==> s.list[k] < |s.subs| && Offered(s.subs[s.list[k]], s.published, Reached(s, k))
  }

  /** A subscription that has left, or never joined, has all it will ever be offered. */
  predicate OffList(s: State, i: nat, sub: Sub) {
    && (sub.until.Some? ==> i !in s.list && Offered(sub, s.published, sub.until.value))
    && (sub.until == None && i !in s.list ==> sub.late && sub.offered == [])
    && Kept(sub)
  }

  predicate AllOff(s: State) {
    forall i :: 0 <= i < |s.subs| ==> OffList(s, i, s.subs[i])
  }

  predicate Delivery(s: State) {
    Inv(s) && Serial(s.threads) && Newest(s) && OnList(s) && AllOff(s)
  }

  /** One `Publish` at a time: a new one takes the read lock only when no other holds it. */
  predicate OneAtATime(s: State, step: Step) {
    step.Run? && step.t < |s.threads| && s.threads[step.t].WantsPublish? ==> !Reading(s)
  }

  predicate PublishersStay(a: seq<Pc>, b: seq<Pc>) {
    && |a| <= |b|
    && (forall t :: 0 <= t < |a| && (a[t].Publishing? || b[t].Publishing?) ==> b[t] == a[t])
    && (forall t :: |a| <= t < |b| ==> !b[t].Publishing?)
  }

  /** A step that neither starts, advances nor ends a `Publish` leaves every position as it was. */
  lemma SamePublishers(a: seq<Pc>, b: seq<Pc>)
    requires PublishersStay(a, b)
    ensures Serial(a) ==> Serial(b)
    ensures forall k :: Behind(a, k) == Behind(b, k)
  {
    forall k
      ensures Behind(a, k) == Behind(b, k)
    {
      if Behind(a, k) {
        var t :| 0 <= t < |a| && a[t].Publishing? && a[t].at <= k;
        assert b[t] == a[t];
      }
      if Behind(b, k) {
        var t :| 0 <= t < |b| && b[t].Publishing? && b[t].at <= k;
        assert a[t] == b[t];
      }
    }
  }

  lemma NobodyBehind(threads: seq<Pc>, k: int)
    requires forall t :: 0 <= t < |threads| ==> !threads[t].Publishing?
    ensures !Behind(threads, k)
  {
  }

  /** Publishing more does not change what was published before. */
  lemma OfferedLater(sub: Sub, published: seq<Event>, upto: int, e: Event)
    requires Offered(sub, published, upto)
    ensures Offered(sub, published + [e], upto)
  {
    SliceOfPrefix(published, [e], sub.since, upto);
  }

  /** Steps that touch no publisher, no list and no event history. */
  lemma QuietStep(s: State, n: State)
    requires Delivery(s) && Inv(n)
    requires n.list == s.list && n.published == s.published && |n.subs| == |s.subs|
    requires PublishersStay(s.threads, n.threads)
    requires forall i :: 0 <= i < |s.subs| ==> SameHistory(s.subs[i], n.subs[i])
    ensures Delivery(n)
  {
    hide Inv, Matching, Kept;
    SamePublishers(s.threads, n.threads);
    forall k | 0 <= k < |n.list|
      ensures n.list[k] < |n.subs| && Offered(n.subs[n.list[k]], n.published, Reached(n, k))
    {
      assert Offered(s.subs[s.list[k]], s.published, Reached(s, k));
      assert SameHistory(s.subs[s.list[k]], n.subs[s.list[k]]);
    }
    forall i | 0 <= i < |n.subs|
      ensures OffList(n, i, n.subs[i])
    {
      assert OffList(s, i, s.subs[i]);
      assert SameHistory(s.subs[i], n.subs[i]);
      assert Kept(s.subs[i]);
      SameKept(s.subs[i], n.subs[i]);
    }
  }

  predicate SameHistory(a: Sub, b: Sub) {
    && b.filter == a.filter && b.offered == a.offered && b.dropped == a.dropped && b.since == a.since
    && b.until == a.until && b.late == a.late && Got(b) == Got(a)
  }

  lemma SameKept(a: Sub, b: Sub)
    requires SameHistory(a, b) && Kept(a)
    ensures Kept(b)
  {
  }

  lemma JoinDelivers(s: State, filter: Option<set<nat>>)
    requires Delivery(s) && !Reading(s)
    ensures Delivery(Joined(s, filter))
  {
    JoinedKeeps(s, filter);
    JoinedListed(s, filter);
    hide Inv, OnList, Matching, Kept, Offered;
    var n := Joined(s, filter);
    forall i | 0 <= i < |n.subs|
      ensures OffList(n, i, n.subs[i])
    {
      if i < |s.subs| {
        assert OffList(s, i, s.subs[i]);
        assert i in n.list <==> i in s.list;
      } else {
        NewKept(n.subs[i]);
        if !s.closed {
          assert n.list[|s.list|] == i;
        }
      }
    }
  }

  lemma NewKept(sub: Sub)
    requires sub.taken == [] && sub.queue == [] && sub.offered == [] && sub.dropped == 0
    ensures Kept(sub)
  {
  }

  lemma JoinedListed(s: State, filter: Option<set<nat>>)
    requires Delivery(s) && !Reading(s)
    ensures OnList(Joined(s, filter))
  {
    hide Inv, AllOff;
    var n := Joined(s, filter);
    forall k | 0 <= k < |n.list|
      ensures n.list[k] < |n.subs| && Offered(n.subs[n.list[k]], n.published, Reached(n, k))
    {
      NobodyBehind(s.threads, k);
      if k < |s.list| {
        assert n.list[k] == s.list[k];
        assert Offered(s.subs[s.list[k]], s.published, Reached(s, k));
      }
    }
  }

  lemma LockDelivers(s: State, t: nat)
    requires Delivery(s) && t < |s.threads| && s.threads[t].WantsPublish? && !Reading(s)
    ensures Delivery(Advance(s, t))
  {
    LockKeeps(s, t);
    hide Inv, Matching, Kept;
    var n := Advance(s, t);
    var e := s.threads[t].event;
    if s.closed {
      QuietStep(s, n);
    } else {
      forall k | 0 <= k < |n.list|
        ensures n.list[k] < |n.subs| && Offered(n.subs[n.list[k]], n.published, Reached(n, k))
      {
        NobodyBehind(s.threads, k);
        assert n.threads[t].Publishing? && n.threads[t].at <= k;
        assert Offered(s.subs[s.list[k]], s.published, Reached(s, k));
        OfferedLater(s.subs[s.list[k]], s.published, |s.published|, e);
      }
      forall i | 0 <= i < |n.subs|
        ensures OffList(n, i, n.subs[i])
      {
        assert OffList(s, i, s.subs[i]);
        if s.subs[i].until.Some? {
          OfferedLater(s.subs[i], s.published, s.subs[i].until.value, e);
        }
      }
    }
  }

  /** Moving the only publisher from `at` to `at + 1` changes the verdict for position `at` alone. */
  lemma OnlyAt(threads: seq<Pc>, t: nat, e: Event, at: nat, k: int)
    requires t < |threads| && threads[t] == Publishing(e, at) && Serial(threads)
    ensures Behind(threads, k) <==> at <= k
    ensures Behind(threads[t := Publishing(e, at + 1)], k) <==> at + 1 <= k
    ensures !Behind(threads[t := Returned], k)
    ensures Serial(threads[t := Publishing(e, at + 1)]) && Serial(threads[t := Returned])
  {
    assert forall u :: 0 <= u < |threads| && u != t ==> !threads[u].Publishing?;
    if at <= k {
      assert threads[t].at <= k;
    }
    var next := threads[t := Publishing(e, at + 1)];
    if at + 1 <= k {
      assert next[t].at <= k;
    }
  }

  lemma OfferExtends(sub: Sub, published: seq<Event>, e: Event)
    requires published != [] && published[|published| - 1] == e
    requires Offered(sub, published, |published| - 1)
    ensures Offered(Offer(sub, e), published, |published|)
  {
    var mid := published[sub.since..|published| - 1];
    MatchingOne(sub.filter, mid, e);
    assert published[sub.since..|published|] == mid + [e];
  }

  lemma SendDelivers(s: State, t: nat)
    requires Delivery(s) && t < |s.threads| && s.threads[t].Publishing?
    ensures Delivery(Advance(s, t))
  {
    SendKeeps(s, t);
    ListInBounds(s, t);
    var e, at := s.threads[t].event, s.threads[t].at;
    OnlyAt(s.threads, t, e, at, 0);
    SendReaches(s, t);
    hide Inv, OnList, Kept, Offer, Offered, Behind;
    var n := Advance(s, t);
    forall j | 0 <= j < |n.subs|
      ensures OffList(n, j, n.subs[j])
    {
      assert OffList(s, j, s.subs[j]);
      if n.subs[j] != s.subs[j] {
        OfferKeeps(s.subs[j], e);
        OfferSame(s.subs[j], e);
      }
    }
  }

  lemma SendReaches(s: State, t: nat)
    requires Delivery(s) && t < |s.threads| && s.threads[t].Publishing?
    ensures OnList(Send(s, t, s.threads[t].event, s.threads[t].at))
  {
    ListInBounds(s, t);
    hide Inv, AllOff, Offer, Offered, Reached;
    var e, at := s.threads[t].event, s.threads[t].at;
    var n := Send(s, t, e, at);
    forall k | 0 <= k < |n.list|
      ensures n.list[k] < |n.subs| && Offered(n.subs[n.list[k]], n.published, Reached(n, k))
    {
      SendReachesAt(s, t, e, at, k);
    }
  }

  lemma SendReachesAt(s: State, t: nat, e: Event, at: nat, k: nat)
    requires t < |s.threads| && s.threads[t] == Publishing(e, at) && Serial(s.threads)
    requires k < |s.list| && s.list[k] < |s.subs| && at <= |s.list|
    requires at < |s.list| ==> s.list[at] < |s.subs| && (s.list[at] == s.list[k] ==> at == k)
    requires s.published != [] && s.published[|s.published| - 1] == e
    requires Offered(s.subs[s.list[k]], s.published, Reached(s, k))
    ensures Offered(Send(s, t, e, at).subs[s.list[k]], s.published, Reached(Send(s, t, e, at), k))
  {
    OnlyAt(s.threads, t, e, at, k);
    hide Offer, Offered, Behind, Serial;
    if k == at {
      OfferExtends(s.subs[s.list[k]], s.published, e);
    }
  }

  lemma ListInBounds(s: State, t: nat)
    requires Inv(s) && t < |s.threads| && s.threads[t].Publishing?
    ensures s.threads[t].at <= |s.list| && Unique(s.list)
    ensures forall k :: 0 <= k < |s.list| ==> s.list[k] < |s.subs|
  {
    assert PcOk(s, t, s.threads[t]);
  }

  lemma OfferSame(sub: Sub, e: Event)
    ensures var o := Offer(sub, e);
      o.until == sub.until && o.late == sub.late && o.filter == sub.filter && o.since == sub.since
  {
  }

  /** Between two `Publish` calls every subscription on the list has been offered all there is. */
  lemma UpToDate(s: State, i: nat)
    requires OnList(s) && !Reading(s) && i in s.list
    ensures i < |s.subs| && Offered(s.subs[i], s.published, |s.published|)
  {
    hide Offered;
    var k :| 0 <= k < |s.list| && s.list[k] == i;
    NobodyBehind(s.threads, k);
    assert Offered(s.subs[s.list[k]], s.published, Reached(s, k));
  }

  /** `after` is `before`, marked as gone if it has just left the list. */
  predicate Leaves(s: State, n: State, i: nat, before: Sub, after: Sub) {
    && (i in n.list ==> i in s.list)
    && after == before.(until := after.until)
    && after.until == if i in s.list && i !in n.list then Some(|s.published|) else before.until
  }

  /** Subscriptions may leave the list, one or all, while no `Publish` is in progress. */
  lemma LeavingDelivers(s: State, n: State)
    requires Delivery(s) && Inv(n) && !Reading(s) && !Reading(n)
    requires n.published == s.published && |n.subs| == |s.subs|
    requires forall k :: 0 <= k < |n.list| ==> n.list[k] < |n.subs|
    requires forall i :: 0 <= i < |s.subs| ==> Leaves(s, n, i, s.subs[i], n.subs[i])
    ensures Delivery(n)
  {
    hide Inv, Matching, Kept;
    forall k | 0 <= k < |n.list|
      ensures n.list[k] < |n.subs| && Offered(n.subs[n.list[k]], n.published, Reached(n, k))
    {
      var i := n.list[k];
      assert Leaves(s, n, i, s.subs[i], n.subs[i]);
      UpToDate(s, i);
      NobodyBehind(n.threads, k);
    }
    forall i | 0 <= i < |n.subs|
      ensures OffList(n, i, n.subs[i])
    {
      assert Leaves(s, n, i, s.subs[i], n.subs[i]);
      assert OffList(s, i, s.subs[i]);
      if i in s.list {
        UpToDate(s, i);
      }
      LeaverKept(s.subs[i], n.subs[i]);
    }
  }

  lemma LeaverKept(a: Sub, b: Sub)
    requires Kept(a) && b == a.(until := b.until)
    ensures Kept(b)
  {
  }

  lemma RemoveDelivers(s: State, t: nat)
    requires Delivery(s) && t < |s.threads| && s.threads[t].WantsRemove? && CanRun(s, s.threads[t])
    ensures Delivery(Advance(s, t))
  {
    RemoveKeeps(s, t);
    UniqueList(s);
    hide Inv, Delivery, Without;
    var n := Advance(s, t);
    WithoutFacts(s.list, s.threads[t].sub);
    ListedExists(s);
    forall k | 0 <= k < |n.list|
      ensures n.list[k] < |n.subs|
    {
      assert n.list[k] in n.list;
    }
    LeavingDelivers(s, n);
  }

  lemma ShutDelivers(s: State, t: nat)
    requires Delivery(s) && t < |s.threads| && s.threads[t].WantsClose? && CanRun(s, s.threads[t])
    ensures Delivery(Advance(s, t))
  {
    ShutKeeps(s, t);
    ListedExists(s);
    LeaveAllFacts(s.subs, s.list, |s.published|);
    hide Inv, Delivery, LeaveAll;
    LeavingDelivers(s, Advance(s, t));
  }

  lemma OnceIsQuiet(s: State, t: nat)
    requires Delivery(s) && t < |s.threads| && CanRun(s, s.threads[t]) && Inv(Advance(s, t))
    requires s.threads[t].WantsOnce? || s.threads[t].Removed? || s.threads[t].Closing?
    ensures Delivery(Advance(s, t))
  {
    hide Inv, Delivery, Reading, Offer, Without, LeaveAll;
    QuietStep(s, Advance(s, t));
  }

  lemma ReceiveIsQuiet(s: State, i: nat)
    requires Delivery(s) && Can(s, Receive(i)) && Inv(Apply(s, Receive(i)))
    ensures Delivery(Apply(s, Receive(i)))
  {
    hide Inv, Matching, Kept, Offered, OffList;
    var sub := s.subs[i];
    Assoc(sub.taken, [sub.queue[0]], sub.queue[1..]);
    assert [sub.queue[0]] + sub.queue[1..] == sub.queue;
    QuietStep(s, Apply(s, Receive(i)));
  }

  lemma StepDelivers(s: State, step: Step)
    requires Delivery(s) && Can(s, step) && OneAtATime(s, step)
    ensures Delivery(Apply(s, step))
  {
    StepKeeps(s, step);
    hide Inv, Matching, Kept, Offered, OffList;
    match step
    case Subscribe(filter) => JoinDelivers(s, filter);
    case Run(t) =>
      match s.threads[t] {
        case WantsPublish(_) => LockDelivers(s, t);
        case Publishing(_, _) => SendDelivers(s, t);
        case WantsRemove(_) => RemoveDelivers(s, t);
        case WantsClose => ShutDelivers(s, t);
        case WantsOnce(_) => OnceIsQuiet(s, t);
        case Removed(_) => OnceIsQuiet(s, t);
        case Closing(_) => OnceIsQuiet(s, t);
      }
    case Call(pc) => QuietStep(s, Apply(s, step));
    case Receive(i) => ReceiveIsQuiet(s, i);
  }

  predicate Serialised(s: State, steps: seq<Step>)
    requires Runs(s, steps)
    decreases |steps|
  {
    steps == [] || (OneAtATime(s, steps[0]) && Serialised(Apply(s, steps[0]), steps[1..]))
  }

  lemma {:induction false} RunDelivers(s: State, steps: seq<Step>)
    requires Delivery(s) && Runs(s, steps) && Serialised(s, steps)
    ensures Delivery(Final(s, steps))
    decreases |steps|
  {
    if steps != [] {
      StepDelivers(s, steps[0]);
      RunDelivers(Apply(s, steps[0]), steps[1..]);
    }
  }

  /** The events subscription `i` ought to have seen: everything published while it was on the list. */
  function Due(s: State, i: nat): seq<Event>
    requires i < |s.subs| && s.subs[i].since <= |s.published|
    requires s.subs[i].until.Some? ==> s.subs[i].since <= s.subs[i].until.value <= |s.published|
  {
    var sub := s.subs[i];
    var upto := if sub.until.Some? then sub.until.value else |s.published|;
    Matching(sub.filter, s.published[sub.since..upto])
  }

  /** After any run with one `Publish` at a time, once no `Publish` is in progress: every subscriber
      made while the bus was open has received and queued, in publication order, a subsequence of the
      matching events published between its subscription and its removal; it lacks exactly as many
      as met a full buffer; and it has all of them if its buffer was never full. */
  lemma SubscribersGetEventsInOrder(steps: seq<Step>, i: nat)
    requires Runs(INIT, steps) && Serialised(INIT, steps)
    requires !Reading(Final(INIT, steps))
    requires i < |Final(INIT, steps).subs| && !Final(INIT, steps).subs[i].late
    ensures var s := Final(INIT, steps);
      var sub := s.subs[i];
      && sub.since <= |s.published|
      && (sub.until.Some? ==> sub.since <= sub.until.value <= |s.published|)
      && Subsequence(sub.taken + sub.queue, Due(s, i))
      && |sub.taken + sub.queue| + sub.dropped == |Due(s, i)|
      && (sub.dropped == 0 ==> sub.taken + sub.queue == Due(s, i))
  {
    StartDelivers();
    hide Delivery, Serialised, Runs, Final, Due, Subsequence, Reading;
    RunDelivers(INIT, steps);
    OfferedIsDue(Final(INIT, steps), i);
  }

  lemma StartDelivers()
    ensures Delivery(INIT)
  {
  }

  lemma OfferedIsDue(s: State, i: nat)
    requires Delivery(s) && !Reading(s) && i < |s.subs| && !s.subs[i].late
    ensures s.subs[i].since <= |s.published|
    ensures s.subs[i].until.Some? ==> s.subs[i].since <= s.subs[i].until.value <= |s.published|
    ensures s.subs[i].offered == Due(s, i)
    ensures Subsequence(s.subs[i].taken + s.subs[i].queue, s.subs[i].offered)
    ensures |s.subs[i].taken + s.subs[i].queue| + s.subs[i].dropped == |s.subs[i].offered|
    ensures s.subs[i].dropped == 0 ==> s.subs[i].taken + s.subs[i].queue == s.subs[i].offered
  {
    hide Inv, Matching, Subsequence;
    assert OffList(s, i, s.subs[i]);
    if i in s.list {
      UpToDate(s, i);
    }
  }

  /** The filters asked for by the Subscribe calls of a run, in order. */
  function Filters(steps: seq<Step>): seq<Option<set<nat>>> {
    if steps == [] then [] else (if steps[0].Subscribe? then [steps[0].filter] else []) + Filters(steps[1..])
  }

  function FiltersOf(subs: seq<Sub>): seq<Option<set<nat>>> {
    if subs == [] then [] else FiltersOf(subs[..|subs| - 1]) + [subs[|subs| - 1].filter]
  }

  lemma {:induction false} SameFilters(a: seq<Sub>, b: seq<Sub>)
    requires |a| == |b| && forall i :: 0 <= i < |a| ==> a[i].filter == b[i].filter
    ensures FiltersOf(a) == FiltersOf(b)
  {
    if a != [] {
      SameFilters(a[..|a| - 1], b[..|b| - 1]);
    }
  }

  lemma FiltersStep(s: State, step: Step)
    requires Inv(s) && Can(s, step)
    ensures FiltersOf(Apply(s, step).subs) == FiltersOf(s.subs) + if step.Subscribe? then [step.filter] else []
  {
    var n := Apply(s, step);
    if step.Subscribe? {
      assert n.subs[..|s.subs|] == s.subs;
    } else {
      if step.Run? {
        forall i | 0 <= i < |s.subs| ensures |n.subs| == |s.subs| && n.subs[i].filter == s.subs[i].filter {
          AdvanceCarries(s, step.t, i);
        }
        if |s.subs| == 0 {
          NoSubs(s, step.t);
        }
      }
      hide Inv, FiltersOf, Advance;
      SameFilters(s.subs, n.subs);
      assert FiltersOf(s.subs) + [] == FiltersOf(s.subs);
    }
  }

  lemma NoSubs(s: State, t: nat)
    requires Inv(s) && t < |s.threads| && CanRun(s, s.threads[t]) && |s.subs| == 0
    ensures |Advance(s, t).subs| == 0
  {
    ListedExists(s);
    LeaveAllFacts(s.subs, s.list, |s.published|);
    hide LeaveAll, Without;
  }

  /** Every subscription keeps the filter its Subscribe call asked for. */
  lemma {:induction false} FiltersAreKept(s: State, steps: seq<Step>)
    requires Inv(s) && Runs(s, steps)
    ensures FiltersOf(Final(s, steps).subs) == FiltersOf(s.subs) + Filters(steps)
    decreases |steps|
  {
    if steps == [] {
      assert FiltersOf(s.subs) + [] == FiltersOf(s.subs);
    } else {
      var one := if steps[0].Subscribe? then [steps[0].filter] else [];
      FiltersStep(s, steps[0]);
      StepKeeps(s, steps[0]);
      hide Inv, FiltersOf, Apply, Can;
      FiltersAreKept(Apply(s, steps[0]), steps[1..]);
      Assoc(FiltersOf(s.subs), one, Filters(steps[1..]));
    }
  }

  /** What a subscription has received and holds is of kinds it asked for. */
  predicate AskedFor(sub: Sub) {
    forall e <- Got(sub) :: sub.filter.Some? ==> e.kind in sub.filter.value
  }

  predicate AllAskedFor(subs: seq<Sub>) {
    forall i :: 0 <= i < |subs| ==> AskedFor(subs[i])
  }

  lemma OfferAskedFor(sub: Sub, e: Event)
    requires AskedFor(sub)
    ensures AskedFor(Offer(sub, e))
  {
    var o := Offer(sub, e);
    if o.queue != sub.queue {
      Assoc(sub.taken, sub.queue, [e]);
      assert Got(o) == Got(sub) + [e];
    }
  }

  lemma SameAskedFor(a: Sub, b: Sub)
    requires AskedFor(a) && b.filter == a.filter && Got(b) == Got(a)
    ensures AskedFor(b)
  {
  }

  /** A step of a call changes at most what `Offer` changes; all else is bookkeeping. */
  ghost predicate Carried(before: Sub, after: Sub) {
    (after.filter == before.filter && Got(after) == Got(before)) || exists e :: after == Offer(before, e)
  }

  lemma CarriedAskedFor(before: Sub, after: Sub)
    requires AskedFor(before) && Carried(before, after)
    ensures AskedFor(after)
  {
    if after.filter == before.filter && Got(after) == Got(before) {
      SameAskedFor(before, after);
    } else {
      var e :| after == Offer(before, e);
      OfferAskedFor(before, e);
    }
  }

  lemma AdvanceCarries(s: State, t: nat, i: nat)
    requires Inv(s) && t < |s.threads| && CanRun(s, s.threads[t]) && i < |s.subs|
    ensures |Advance(s, t).subs| == |s.subs| && Carried(s.subs[i], Advance(s, t).subs[i])
  {
    ListedExists(s);
    LeaveAllFacts(s.subs, s.list, |s.published|);
    hide Inv, LeaveAll, Without, Offer, Reading;
    match s.threads[t]
    case Publishing(e, at) =>
      if at < |s.list| && s.list[at] == i {
        assert Advance(s, t).subs[i] == Offer(s.subs[i], e);
      }
    case _ =>
  }

  lemma AskedForStep(s: State, step: Step)
    requires Inv(s) && Can(s, step) && AllAskedFor(s.subs)
    ensures AllAskedFor(Apply(s, step).subs)
  {
    var n := Apply(s, step);
    hide Inv, Offer, Carried;
    match step
    case Run(t) =>
      forall i | 0 <= i < |n.subs| ensures AskedFor(n.subs[i]) {
        AdvanceCarries(s, t, 0);
        AdvanceCarries(s, t, i);
        CarriedAskedFor(s.subs[i], n.subs[i]);
      }
    case Receive(x) =>
      var sub := s.subs[x];
      Assoc(sub.taken, [sub.queue[0]], sub.queue[1..]);
      assert [sub.queue[0]] + sub.queue[1..] == sub.queue;
      SameAskedFor(sub, n.subs[x]);
    case _ =>
  }

  lemma {:induction false} AskedForRun(s: State, steps: seq<Step>)
    requires Inv(s) && Runs(s, steps) && AllAskedFor(s.subs)
    ensures AllAskedFor(Final(s, steps).subs)
    decreases |steps|
  {
    if steps != [] {
      AskedForStep(s, steps[0]);
      StepKeeps(s, steps[0]);
      hide Inv, AllAskedFor, Apply, Can;
      AskedForRun(Apply(s, steps[0]), steps[1..]);
    }
  }

  /** In every interleaving no subscriber holds or has received an event of a kind it did not ask for. */
  lemma OnlyWhatWasAskedFor(steps: seq<Step>, i: nat)
    requires Runs(INIT, steps) && i < |Final(INIT, steps).subs|
    ensures var sub := Final(INIT, steps).subs[i];
      forall e <- sub.taken + sub.queue :: sub.filter.Some? ==> e.kind in sub.filter.value
  {
    AskedForRun(INIT, steps);
    assert AskedFor(Final(INIT, steps).subs[i]);
  }

  /** Serialisation is needed: two publishers that hold the read lock together may send in the other
      order, and the subscriber then sees the events out of publication order. */
  lemma ConcurrentPublishersReorder(a: Event, b: Event) returns (steps: seq<Step>)
    requires a != b
    ensures Runs(INIT, steps)
    ensures Final(INIT, steps).published == [a, b]
    ensures |Final(INIT, steps).subs| == 1 && Final(INIT, steps).subs[0].queue == [b, a]
    ensures !Subsequence([b, a], [a, b])
  {
    var sub := Sub(None, [], Idle, 0, false, [], [], 0, 0, None);
    var s1 := State([], [sub], [0], false, [], false);
    var s2 := s1.(threads := [WantsPublish(a)]);
    var s3 := s1.(threads := [WantsPublish(a), WantsPublish(b)]);
    var s4 := s1.(threads := [Publishing(a, 0), WantsPublish(b)], published := [a]);
    steps := Overtake(a, b, sub, s4);
    hide Final, Runs;
    Then(s3, Run(0), s4, steps);
    steps := [Run(0)] + steps;
    Then(s2, Call(WantsPublish(b)), s3, steps);
    steps := [Call(WantsPublish(b))] + steps;
    Then(s1, Call(WantsPublish(a)), s2, steps);
    steps := [Call(WantsPublish(a))] + steps;
    Then(INIT, Subscribe(None), s1, steps);
    steps := [Subscribe(None)] + steps;
    assert [b, a][..1] == [b] && [a, b][..1] == [a] && [a][..0] == [];
    assert !Subsequence([b], []) && !Subsequence([b, a], [a]);
  }

  lemma Overtake(a: Event, b: Event, sub: Sub, s: State) returns (steps: seq<Step>)
    requires s == State([Publishing(a, 0), WantsPublish(b)], [sub], [0], false, [a], false)
    requires sub == Sub(None, [], Idle, 0, false, [], [], 0, 0, None)
    ensures Runs(s, steps)
    ensures Final(s, steps).published == [a, b]
    ensures |Final(s, steps).subs| == 1 && Final(s, steps).subs[0].queue == [b, a]
  {
    var s5 := s.(threads := [Publishing(a, 0), Publishing(b, 0)], published := [a, b]);
    var s6 := s5.(threads := [Publishing(a, 0), Publishing(b, 1)], subs := [sub.(queue := [b], offered := [b])]);
    var s7 := s5.(threads := [Publishing(a, 1), Publishing(b, 1)], subs := [sub.(queue := [b, a], offered := [b, a])]);
    assert [a] + [b] == [a, b] && [b] + [a] == [b, a] && [] + [b] == [b];
    Then(s6, Run(0), s7, []);
    hide Final, Runs;
    Then(s5, Run(1), s6, [Run(0)] + []);
    Then(s, Run(1), s5, [Run(1)] + ([Run(0)] + []));
    steps := [Run(1)] + ([Run(1)] + ([Run(0)] + []));
  }
}
