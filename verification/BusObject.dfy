/** The bus object: each call, executed from start to end, is a run of the transition system. */
module BusObject {
  import opened Prelude
  import opened EventBus

  predicate By(steps: seq<Step>, t: nat) {
    forall k :: 0 <= k < |steps| ==> steps[k] == Run(t)
  }

  lemma {:induction false} Snoc(s: State, steps: seq<Step>, step: Step)
    requires Runs(s, steps) && Can(Final(s, steps), step)
    ensures Runs(s, steps + [step]) && Final(s, steps + [step]) == Apply(Final(s, steps), step)
    decreases |steps|
  {
    if steps == [] {
      Then(s, step, Apply(s, step), []);
      assert steps + [step] == [step] + [];
    } else {
      Snoc(Apply(s, steps[0]), steps[1..], step);
      assert (steps + [step])[0] == steps[0] && (steps + [step])[1..] == steps[1..] + [step];
    }
  }

  lemma Start(s: State, t: nat)
    requires Can(s, Run(t))
    ensures Runs(s, [Run(t)]) && Final(s, [Run(t)]) == Advance(s, t)
  {
    NoSteps(Advance(s, t));
    Then(s, Run(t), Advance(s, t), []);
    assert [Run(t)] + [] == [Run(t)];
  }

  lemma {:induction false} WithoutAt(list: seq<nat>, i: nat)
    requires i < |list| && forall j :: 0 <= j < i ==> list[j] != list[i]
    ensures Without(list, list[i]) == list[..i] + list[i + 1..]
  {
    if i > 0 {
      WithoutAt(list[1..], i - 1);
      assert list[..i] == [list[0]] + list[1..][..i - 1];
      assert list[1..][i..] == list[i + 1..];
      Assoc([list[0]], list[1..][..i - 1], list[i + 1..]);
    } else {
      assert list[..0] + list[1..] == list[1..];
    }
  }

  lemma {:induction false} WithoutAbsent(list: seq<nat>, x: nat)
    requires x !in list
    ensures Without(list, x) == list
  {
    if list != [] {
      WithoutAbsent(list[1..], x);
    }
  }

  /** What one publication of `e` does to a listed subscriber. */
  predicate Reached(before: Sub, after: Sub, e: Event) {
    after.queue == before.queue
      + if (before.filter.None? || e.kind in before.filter.value) && |before.queue| < 256 then [e] else []
  }

  lemma OfferReaches(sub: Sub, e: Event)
    ensures Reached(sub, Offer(sub, e), e)
  {
  }

  lemma ClosedBusIsEmpty(s: State)
    requires Inv(s)
    ensures s.closed ==> s.list == []
  {
  }

  /** Subscriptions are numbered in the order of their creation; `all` holds the state of each, and
      `published` records the events published so far. */
  class Bus {
    var all: seq<Sub>
    var subs: seq<nat>
    var closed: bool
    var published: seq<Event>

    ghost predicate Holds(s: State)
      reads this
    {
      Inv(s) && all == s.subs && subs == s.list && closed == s.closed && published == s.published
    }

    constructor ()
      ensures Holds(INIT)
    {
      all, subs, closed, published := [], [], false, [];
    }

    method Subscribe(filter: Option<set<nat>>, ghost s: State) returns (sub: nat)
      requires Holds(s) && !Reading(s)
      modifies this
      ensures Holds(Joined(s, filter)) && sub == |old(all)| < |all|
      ensures all[sub].filter == filter && all[sub].queue == [] && (sub in subs <==> !closed)
    {
      JoinedKeeps(s, filter);
      sub := |all|;
      var made := Sub(filter, [], Idle, 0, false, [], [], 0, |published|, None);
      if closed {
        all := all + [made.(closes := 1, late := true)];
        return;
      }
      all := all + [made];
      subs := subs + [sub];
    }

    /** On an open bus every listed subscriber gets the event if it asked for its kind and has fewer
        than 256 events queued, and nothing otherwise. */
    method Publish(e: Event, ghost s: State, ghost t: nat) returns (ghost steps: seq<Step>)
      requires Holds(s) && t < |s.threads| && s.threads[t] == WantsPublish(e)
      modifies this
      ensures By(steps, t) && Runs(s, steps)
      ensures Holds(Final(s, steps)) && Final(s, steps).threads == s.threads[t := Returned]
      ensures subs == old(subs) && closed == old(closed) && |all| == |old(all)|
      ensures forall k :: 0 <= k < |subs| && subs[k] < |all| ==> Reached(old(all)[subs[k]], all[subs[k]], e)
    {
      UniqueList(s);
      ClosedBusIsEmpty(s);
      hide Inv, Final, Runs;
      ghost var now := Advance(s, t);
      StepKeeps(s, Run(t));
      steps := [Run(t)];
      Start(s, t);
      if closed {
        return;
      }
      published := published + [e];
      var at := 0;
      while at < |subs|
        invariant at <= |subs| && subs == s.list && closed == s.closed && |all| == |s.subs|
        invariant By(steps, t) && Runs(s, steps) && now == Final(s, steps)
        invariant Holds(now) && now.threads == s.threads[t := Publishing(e, at)]
        invariant forall k :: 0 <= k < at && subs[k] < |all| ==> Reached(s.subs[subs[k]], all[subs[k]], e)
        invariant forall k :: at <= k < |subs| && subs[k] < |all| ==> all[subs[k]] == s.subs[subs[k]]
      {
        var i := subs[at];
        ghost var was := now;
        StepKeeps(now, Run(t));
        ListedExists(now);
        Snoc(s, steps, Run(t));
        OfferReaches(all[i], e);
        now := Advance(now, t);
        steps := steps + [Run(t)];
        hide Offer, Reached;
        all := all[i := Offer(all[i], e)];
        assert now.threads == was.threads[t := Publishing(e, at + 1)];
        at := at + 1;
      }
      StepKeeps(now, Run(t));
      Snoc(s, steps, Run(t));
      now := Advance(now, t);
      steps := steps + [Run(t)];
    }

    /** A call that finds `once` being run by another waits: none of its steps can be taken yet. */
    method Unsubscribe(sub: nat, ghost s: State, ghost t: nat) returns (ghost steps: seq<Step>, waits: bool)
      requires Holds(s) && t < |s.threads| && s.threads[t] == WantsOnce(sub) && !Reading(s)
      modifies this
      ensures sub < |old(all)| && (waits <==> old(all)[sub].once.Running?)
      ensures waits ==> Holds(s) && steps == [] && !Can(s, Run(t))
      ensures !waits ==>
                && By(steps, t) && Runs(s, steps)
                && Holds(Final(s, steps)) && Final(s, steps).threads == s.threads[t := Returned]
    {
      assert PcOk(s, t, s.threads[t]);
      steps, waits := [], all[sub].once.Running?;
      if waits {
        return;
      }
      if all[sub].once.Done? {
        StepKeeps(s, Run(t));
        Start(s, t);
        steps := [Run(t)];
        return;
      }
      steps := UnsubscribeRun(s, t, sub);
      hide Inv, Final, Runs, Without, Reading;
      if sub in subs {
        all := all[sub := all[sub].(until := Some(|published|))];
      }
      RemoveSub(sub);
      all := all[sub := Closed(all[sub])];
    }

    /** Cuts the first occurrence out of the list, and only that. */
    method RemoveSub(sub: nat)
      modifies this`subs
      ensures subs == Without(old(subs), sub)
    {
      for i := 0 to |subs|
        invariant subs == old(subs)
        invariant sub !in subs[..i]
      {
        if subs[i] == sub {
          assert forall j :: 0 <= j < i ==> subs[j] in subs[..i];
          WithoutAt(subs, i);
          subs := subs[..i] + subs[i + 1..];
          return;
        }
      }
      assert subs[..|subs|] == subs;
      WithoutAbsent(subs, sub);
    }

    /** Takes the list under the lock, then closes the channels one by one; `left` is what remains
        if it has to wait for a subscription whose `once` another call is running. */
    method Close(ghost s: State, ghost t: nat) returns (ghost steps: seq<Step>, left: seq<nat>)
      requires Holds(s) && t < |s.threads| && s.threads[t] == WantsClose && !Reading(s)
      modifies this
      ensures By(steps, t) && Runs(s, steps) && Holds(Final(s, steps))
      ensures Final(s, steps).threads == s.threads[t := if left == [] then Returned else Closing(left)]
      ensures left != [] ==> left[0] < |all| && all[left[0]].once.Running?
      ensures closed && subs == []
    {
      StepKeeps(s, Run(t));
      Start(s, t);
      ShutShape(s, t);
      hide Inv, Final, Runs, Advance, LeaveAll, Reading;
      steps, left := [Run(t)], [];
      if closed {
        return;
      }
      var todo := subs;
      all := LeaveAll(all, todo, |published|);
      closed := true;
      subs := [];
      ghost var more;
      more, left := CloseEach(todo, Advance(s, t), t);
      Join(s, steps, more);
      steps := steps + more;
    }

    /** The loop of `Close` over the subscriptions it took from the list. */
    method CloseEach(taken: seq<nat>, ghost s: State, ghost t: nat) returns (ghost steps: seq<Step>, todo: seq<nat>)
      requires Holds(s) && t < |s.threads| && s.threads[t] == Closing(taken)
      modifies this`all
      ensures By(steps, t) && Runs(s, steps) && Holds(Final(s, steps))
      ensures Final(s, steps).threads == s.threads[t := if todo == [] then Returned else Closing(todo)]
      ensures todo != [] ==> todo[0] < |all| && all[todo[0]].once.Running?
    {
      ghost var now := s;
      steps := [];
      NoSteps(s);
      todo := taken;
      TodoExists(s, t);
      hide Inv, Runs, Final;
      while todo != [] && !all[todo[0]].once.Running?
        invariant By(steps, t) && Runs(s, steps) && now == Final(s, steps)
        invariant Holds(now) && now.threads == s.threads[t := Closing(todo)]
        invariant forall k :: 0 <= k < |todo| ==> todo[k] < |all|
        decreases |todo|
      {
        var i := todo[0];
        StepKeeps(now, Run(t));
        Snoc(s, steps, Run(t));
        now := Advance(now, t);
        steps := steps + [Run(t)];
        if all[i].once.Idle? {
          all := all[i := Closed(all[i])];
        }
        todo := todo[1..];
      }
      if todo == [] {
        StepKeeps(now, Run(t));
        Snoc(s, steps, Run(t));
        steps := steps + [Run(t)];
      }
    }
  }

  lemma TodoExists(s: State, t: nat)
    requires Inv(s) && t < |s.threads| && s.threads[t].Closing?
    ensures forall k :: 0 <= k < |s.threads[t].todo| ==> s.threads[t].todo[k] < |s.subs|
  {
    assert PcOk(s, t, s.threads[t]);
  }

  lemma NoSteps(s: State)
    ensures Runs(s, []) && Final(s, []) == s
  {
  }

  /** Two runs one after the other are a run. */
  lemma {:induction false} Join(s: State, a: seq<Step>, b: seq<Step>)
    requires Runs(s, a) && Runs(Final(s, a), b)
    ensures Runs(s, a + b) && Final(s, a + b) == Final(Final(s, a), b)
    decreases |a|
  {
    if a == [] {
      assert a + b == b;
    } else {
      Join(Apply(s, a[0]), a[1..], b);
      assert (a + b)[0] == a[0] && (a + b)[1..] == a[1..] + b;
    }
  }

  lemma ShutShape(s: State, t: nat)
    requires Inv(s) && t < |s.threads| && s.threads[t] == WantsClose && !Reading(s)
    ensures var n := Advance(s, t);
      if s.closed then n == s.(threads := s.threads[t := Returned]) && s.list == []
      else
        && n == s.(threads := s.threads[t := Closing(s.list)], closed := true, list := [],
                   subs := LeaveAll(s.subs, s.list, |s.published|))
  {
    LeaveAllFacts(s.subs, s.list, |s.published|);
  }

  /** What an `Unsubscribe` that gets hold of `once` leaves behind. */
  function Unsubscribed(s: State, t: nat, i: nat): State
    requires t < |s.threads| && i < |s.subs|
  {
    var sub := if i in s.list then s.subs[i].(until := Some(|s.published|)) else s.subs[i];
    s.(threads := s.threads[t := Returned], subs := s.subs[i := Closed(sub)], list := Without(s.list, i))
  }

  /** Its three steps. */
  lemma UnsubscribeRun(s: State, t: nat, i: nat) returns (steps: seq<Step>)
    requires Inv(s) && !Reading(s)
    requires t < |s.threads| && s.threads[t] == WantsOnce(i) && i < |s.subs| && s.subs[i].once == Idle
    ensures By(steps, t) && Runs(s, steps)
    ensures Final(s, steps) == Unsubscribed(s, t, i) && Inv(Unsubscribed(s, t, i))
  {
    StepKeeps(s, Run(t));
    Start(s, t);
    EnterShape(s, t, i);
    var s1 := Advance(s, t);
    RemoveShape(s, s1, t, i);
    hide Inv, Runs, Final, Advance, Unsubscribed, CanRun;
    StepKeeps(s1, Run(t));
    Snoc(s, [Run(t)], Run(t));
    var s2 := Advance(s1, t);
    StepKeeps(s2, Run(t));
    Snoc(s, [Run(t)] + [Run(t)], Run(t));
    steps := [Run(t)] + [Run(t)] + [Run(t)];
  }

  lemma EnterShape(s: State, t: nat, i: nat)
    requires t < |s.threads| && s.threads[t] == WantsOnce(i) && i < |s.subs| && s.subs[i].once == Idle && !Reading(s)
    ensures Advance(s, t) ==
      s.(threads := s.threads[t := WantsRemove(i)], subs := s.subs[i := s.subs[i].(once := Running(t))])
    ensures CanRun(Advance(s, t), WantsRemove(i))
  {
    var s1 := Advance(s, t);
    assert forall u :: 0 <= u < |s1.threads| ==> s1.threads[u].Publishing? ==> s.threads[u].Publishing?;
  }

  lemma RemoveShape(s: State, s1: State, t: nat, i: nat)
    requires t < |s.threads| && i < |s.subs|
    requires s1 == s.(threads := s.threads[t := WantsRemove(i)], subs := s.subs[i := s.subs[i].(once := Running(t))])
    requires CanRun(s1, WantsRemove(i))
    ensures var s2 := Advance(s1, t);
      t < |s2.threads| && CanRun(s2, s2.threads[t]) && Advance(s2, t) == Unsubscribed(s, t, i)
  {
    hide Reading, Without;
    var s3 := Advance(Advance(s1, t), t);
    assert s3.subs == Unsubscribed(s, t, i).subs;
    assert s3.threads == Unsubscribed(s, t, i).threads;
  }
}
