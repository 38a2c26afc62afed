/** The demux with the real sizes of its channels: sending on a full one blocks it, and with it
    everything behind that frame on the connection. */
module ControlChannel {
  import opened Prelude
  import opened Wire
  import H = HistoryStream

  const HISTORY_CAPACITY: nat := 4
  const RESPONSES_CAPACITY: nat := 1

  /** Frames not yet demuxed, and what the two channels hold. */
  datatype State = State(wire: seq<Frame>, history: seq<Frame>, responses: seq<Frame>)

  datatype Step = Route | TakeHistory | TakeResponse

  predicate Enabled(s: State, st: Step) {
    match st
    case Route =>
      && s.wire != []
      && (H.RouteOf(s.wire[0]) == H.History ==> |s.history| < HISTORY_CAPACITY)
      && (H.RouteOf(s.wire[0]) == H.Response ==> |s.responses| < RESPONSES_CAPACITY)
    case TakeHistory => s.history != []
    case TakeResponse => s.responses != []
  }

  function Apply(s: State, st: Step): State
    requires Enabled(s, st)
  {
    match st
    case Route =>
      var f, rest := s.wire[0], s.wire[1..];
      (match H.RouteOf(f)
       case Event => s.(wire := rest)
       case History => s.(wire := rest, history := s.history + [f])
       case Response => s.(wire := rest, responses := s.responses + [f]))
    case TakeHistory => s.(history := s.history[1..])
    case TakeResponse => s.(responses := s.responses[1..])
  }

  function Exec(s: State, steps: seq<Step>): Option<State>
    decreases |steps|
  {
    if steps == [] then Some(s)
    else if Enabled(s, steps[0]) then Exec(Apply(s, steps[0]), steps[1..])
    else None
  }

  predicate Sized(s: State) {
    |s.history| <= HISTORY_CAPACITY && |s.responses| <= RESPONSES_CAPACITY
  }

  /** Nobody reads the history any more: its reader was abandoned. */
  predicate Abandoned(steps: seq<Step>) {
    TakeHistory !in steps
  }

  /** History frames queued or still to come. */
  function Owed(s: State): nat {
    |s.history| + |H.Routed(s.wire, H.History)|
  }

  lemma StepKeepsOwed(s: State, st: Step)
    requires Sized(s) && Enabled(s, st) && st != TakeHistory
    ensures Sized(Apply(s, st)) && Owed(Apply(s, st)) == Owed(s)
    ensures |Apply(s, st).wire| <= |s.wire| && Apply(s, st).wire == s.wire[|s.wire| - |Apply(s, st).wire|..]
  {
  }

  /** Without a history reader, no run gets past the frames for which the channel has room. */
  lemma {:induction false} RunKeepsOwed(s: State, steps: seq<Step>)
    requires Sized(s) && Abandoned(steps) && Exec(s, steps).Some?
    ensures Sized(Exec(s, steps).value) && Owed(Exec(s, steps).value) == Owed(s)
    decreases |steps|
  {
    hide Apply, Enabled, Sized, Owed;
    if steps != [] {
      StepKeepsOwed(s, steps[0]);
      RunKeepsOwed(Apply(s, steps[0]), steps[1..]);
    }
  }

  /** Making room for the next response, if it needs any. */
  function Towards(s: State): Step {
    if s.wire != [] && H.RouteOf(s.wire[0]) == H.Response && s.responses != [] then TakeResponse else Route
  }

  lemma TowardsAdvances(s: State, n: nat)
    requires Sized(s) && 0 < n <= |s.wire| && |s.history| + |H.Routed(s.wire[..n], H.History)| <= HISTORY_CAPACITY
    ensures Enabled(s, Towards(s)) && Towards(s) != TakeHistory && Sized(Apply(s, Towards(s)))
    ensures var t := Apply(s, Towards(s));
      if Towards(s) == TakeResponse then t == s.(responses := [])
      else t.wire == s.wire[1..] && |t.history| + |H.Routed(t.wire[..n - 1], H.History)| <= HISTORY_CAPACITY
  {
    assert s.wire[..n][0] == s.wire[0] && s.wire[..n][1..] == s.wire[1..][..n - 1];
  }

  lemma {:induction false} PrefixCanBeRouted(s: State, n: nat) returns (steps: seq<Step>)
    requires Sized(s) && n <= |s.wire| && |s.history| + |H.Routed(s.wire[..n], H.History)| <= HISTORY_CAPACITY
    ensures Abandoned(steps) && Exec(s, steps).Some? && Exec(s, steps).value.wire == s.wire[n..]
    decreases n, |s.responses|
  {
    if n == 0 {
      steps := [];
    } else {
      TowardsAdvances(s, n);
      hide Apply, Enabled;
      var st := Towards(s);
      var rest := PrefixCanBeRouted(Apply(s, st), if st == TakeResponse then n else n - 1);
      steps := [st] + rest;
      assert steps[1..] == rest;
    }
  }

  predicate Reaches(s: State, n: nat, steps: seq<Step>)
    requires n <= |s.wire|
  {
    Abandoned(steps) && Exec(s, steps).Some? && Exec(s, steps).value.wire == s.wire[n..]
  }

  /** With the history abandoned and responses being read, the first `n` frames on the connection get
      through if and only if the history frames among them still fit into the channel. One more, and
      no later response or event arrives until somebody reads the history. */
  lemma GoesOnExactly(s: State, n: nat)
    requires Sized(s) && n <= |s.wire|
    ensures (exists steps :: Reaches(s, n, steps)) <==>
            |s.history| + |H.Of(s.wire[..n], {0x19, 0x1A})| <= 4
  {
    H.RoutedByKind(s.wire[..n]);
    if |s.history| + |H.Routed(s.wire[..n], H.History)| <= HISTORY_CAPACITY {
      var steps := PrefixCanBeRouted(s, n);
      assert Reaches(s, n, steps);
    } else {
      forall steps | Abandoned(steps) && Exec(s, steps).Some?
        ensures Exec(s, steps).value.wire != s.wire[n..]
      {
        RunKeepsOwed(s, steps);
        H.RoutedAppend(s.wire[..n], s.wire[n..], H.History);
        assert s.wire == s.wire[..n] + s.wire[n..];
      }
    }
  }

  /** An abandoned reply of more than five frames, the first of them taken when it was opened, keeps
      any response behind it from ever being delivered. */
  lemma AbandonedReplyBlocks(data: seq<byte>, response: Frame, steps: seq<Step>)
    requires |H.Reply(data)| > 5 && response.kind !in {0x0A, 0x19, 0x1A}
    requires Abandoned(steps) && Exec(State(H.Reply(data)[1..] + [response], [], []), steps).Some?
    ensures response in Exec(State(H.Reply(data)[1..] + [response], [], []), steps).value.wire
  {
    var rest := H.Reply(data)[1..];
    var s := State(rest + [response], [], []);
    H.ReplyIsHistory(data);
    H.RoutedAppend(H.Reply(data)[..1], rest, H.History);
    assert H.Reply(data) == H.Reply(data)[..1] + rest;
    H.RoutedShrinks(H.Reply(data)[..1], H.History);
    H.RoutedAppend(rest, [response], H.History);
    WireShrinks(s, steps);
    RunKeepsOwed(s, steps);
    assert Owed(s) >= |rest|;
    var end := Exec(s, steps).value;
    if end.wire != [] {
      assert end.wire[|end.wire| - 1] == response;
    }
  }

  /** What is left of the wire is always a suffix of it. */
  lemma {:induction false} WireShrinks(s: State, steps: seq<Step>)
    requires Sized(s) && Abandoned(steps) && Exec(s, steps).Some?
    ensures |Exec(s, steps).value.wire| <= |s.wire|
    ensures Exec(s, steps).value.wire == s.wire[|s.wire| - |Exec(s, steps).value.wire|..]
    decreases |steps|
  {
    hide Apply, Enabled, Sized, Owed;
    if steps != [] {
      StepKeepsOwed(s, steps[0]);
      WireShrinks(Apply(s, steps[0]), steps[1..]);
    }
  }
}
