/** The per-session OSC 133 command tracker (internal/cmdlifecycle/service.go). */
module Lifecycle {
  import opened Prelude

  type Time = int
  const ZERO_TIME: Time := 0

  const ORPHAN_MISSING_D := "missing_d_marker"
  const ORPHAN_DAEMON_RESTART := "daemon_restart"

  datatype Phase = Idle | PromptShown | UserTyping | CommandRunning

  datatype Command = Command(
    startedAt: Time, endedAt: Time, exitCode: int,
    startRow: int, endRow: int, orphan: bool, orphanReason: string)

  datatype SessionState = SessionState(history: seq<Command>, inFlight: Option<Command>)

  datatype Event =
    | Prompt(row: int)
    | Started(cmd: Command, row: int)
    | Finished(cmd: Command, row: int)

  /** One OSC 133 marker: `now` and `then` are the first and second readings of
      the clock (a marker that closes an orphan and opens a command reads it twice). */
  datatype Marker = Marker(code: char, exit: int, row: int, now: Time, then_: Time)

  /** The tracker as a value: what the mutable object holds. */
  datatype Tracker = Tracker(phase: Phase, current: Option<Command>, history: seq<Command>)

  const FRESH := Tracker(Idle, None, [])

  /** What every tracker keeps: `current` is non-nil exactly while a command runs. */
  predicate Valid(max: nat, t: Tracker) {
    && 0 < max
    && |t.history| <= max
    && (t.current.Some? <==> t.phase == CommandRunning)
  }

  function Append(max: nat, h: seq<Command>, c: Command): seq<Command>
    requires 0 < max
  {
    if |h| == max then h[1..] + [c] else h + [c]
  }

  function CloseOrphan(c: Command, now: Time, row: int): Command {
    c.(endedAt := now, endRow := row, exitCode := -1, orphan := true, orphanReason := ORPHAN_MISSING_D)
  }

  function Open(now: Time, row: int): Command {
    Command(now, ZERO_TIME, 0, row, 0, false, "")
  }

  /** A running command met by A, B or C: it is closed as an orphan. */
  function Orphaned(max: nat, t: Tracker, m: Marker): (Tracker, seq<Event>)
    requires Valid(max, t)
  {
    if t.phase == CommandRunning then
      var closed := CloseOrphan(t.current.value, m.now, m.row);
      (Tracker(Idle, None, Append(max, t.history, closed)), [Finished(closed, m.row)])
    else (t, [])
  }

  function Handle(max: nat, t: Tracker, m: Marker): (Tracker, seq<Event>)
    requires Valid(max, t)
  {
    match m.code
    case 'A' =>
      var (t1, ev) := Orphaned(max, t, m);
      if t1.phase != PromptShown then (t1.(phase := PromptShown), ev + [Prompt(m.row)]) else (t1, ev)
    case 'B' =>
      var (t1, ev) := Orphaned(max, t, m);
      (t1.(phase := UserTyping), ev)
    case 'C' =>
      var (t1, ev) := Orphaned(max, t, m);
      var cmd := Open(if t.phase == CommandRunning then m.then_ else m.now, m.row);
      (t1.(phase := CommandRunning, current := Some(cmd)), ev + [Started(cmd, m.row)])
    case 'D' =>
      if t.phase != CommandRunning then (t, []) else
        var closed := t.current.value.(endedAt := m.now, endRow := m.row, exitCode := m.exit, orphan := false);
        (Tracker(Idle, None, Append(max, t.history, closed)), [Finished(closed, m.row)])
    case _ => (t, [])
  }

  function Snapshot(t: Tracker): SessionState {
    SessionState(t.history, t.current)
  }

  predicate HasFinished(ev: seq<Event>) {
    exists e <- ev :: e.Finished?
  }

  /** The state HandleOSC passes to the repository: one snapshot when a command finished. */
  function Saved(t: Tracker, ev: seq<Event>): Option<SessionState> {
    if HasFinished(ev) then Some(Snapshot(t)) else None
  }

  function RestartOrphan(c: Command, now: Time): Command {
    c.(endRow := c.startRow, endedAt := now, exitCode := -1, orphan := true,
       orphanReason := ORPHAN_DAEMON_RESTART)
  }

  function AppendAll(max: nat, h: seq<Command>, cs: seq<Command>): seq<Command>
    requires 0 < max
    decreases |cs|
  {
    if cs == [] then h else Append(max, AppendAll(max, h, cs[..|cs| - 1]), cs[|cs| - 1])
  }

  function Restored(max: nat, s: SessionState, now: Time): Tracker
    requires 0 < max
  {
    var h := AppendAll(max, [], s.history);
    Tracker(Idle, None,
            if s.inFlight.Some? then Append(max, h, RestartOrphan(s.inFlight.value, now)) else h)
  }

  /** A whole run: the tracker reached and every event emitted, in order. */
  function Run(max: nat, t: Tracker, ms: seq<Marker>): (r: (Tracker, seq<Event>))
    requires Valid(max, t)
    ensures Valid(max, r.0)
    decreases |ms|
  {
    if ms == [] then (t, []) else
      var (t1, ev) := Run(max, t, ms[..|ms| - 1]);
      HandleKeepsValid(max, t1, ms[|ms| - 1]);
      var (t2, ev2) := Handle(max, t1, ms[|ms| - 1]);
      (t2, ev + ev2)
  }

  lemma HandleKeepsValid(max: nat, t: Tracker, m: Marker)
    requires Valid(max, t)
    ensures Valid(max, Handle(max, t, m).0)
  {
  }

  // ----- The bounded history -----

  function Closed(ev: seq<Event>): seq<Command> {
    if ev == [] then [] else
      (if ev[0].Finished? then [ev[0].cmd] else []) + Closed(ev[1..])
  }

  lemma {:induction false} ClosedAppend(a: seq<Event>, b: seq<Event>)
    ensures Closed(a + b) == Closed(a) + Closed(b)
  {
    if a == [] {
      assert a + b == b;
    } else {
      ClosedAppend(a[1..], b);
      assert (a + b)[0] == a[0] && (a + b)[1..] == a[1..] + b;
      Assoc(if a[0].Finished? then [a[0].cmd] else [], Closed(a[1..]), Closed(b));
    }
  }

  lemma AppendIsWindow(max: nat, h: seq<Command>, c: Command)
    requires 0 < max && |h| <= max
    ensures Append(max, h, c) == LastN(max, h + [c])
  {
  }

  /** One marker emits at most two events, and only the first can be a Finished. */
  lemma HandleClosed(max: nat, t: Tracker, m: Marker)
    requires Valid(max, t)
    ensures var ev := Handle(max, t, m).1;
            && |ev| <= 2 && (|ev| == 2 ==> !ev[1].Finished?)
            && (HasFinished(ev) <==> ev != [] && ev[0].Finished?)
            && Closed(ev) == (if HasFinished(ev) then [ev[0].cmd] else [])
  {
    var ev := Handle(max, t, m).1;
    if ev != [] {
      if |ev| == 2 {
        assert ev[1..] == [ev[1]];
        assert Closed(ev[1..]) == [] + Closed([ev[1]][1..]);
      } else {
        assert ev[1..] == [];
      }
      assert ev[0] in ev;
    }
  }

  lemma HandleHistory(max: nat, t: Tracker, m: Marker)
    requires Valid(max, t)
    ensures var (t1, ev) := Handle(max, t, m); t1.history == LastN(max, t.history + Closed(ev))
  {
    HandleClosed(max, t, m);
    var (t1, ev) := Handle(max, t, m);
    if HasFinished(ev) {
      AppendIsWindow(max, t.history, ev[0].cmd);
    } else {
      assert t.history + Closed(ev) == t.history;
    }
  }

  lemma WindowStep(max: nat, h: seq<Command>, a: seq<Command>, b: seq<Command>)
    ensures LastN(max, LastN(max, h + a) + b) == LastN(max, h + (a + b))
  {
    LastNOfWindow(max, h + a, b);
    assert h + a + b == h + (a + b);
  }

  /** The shifting history is the newest `max` of everything ever appended to it. */
  lemma {:induction false} HistoryIsWindow(max: nat, t: Tracker, ms: seq<Marker>)
    requires Valid(max, t)
    ensures Run(max, t, ms).0.history == LastN(max, t.history + Closed(Run(max, t, ms).1))
    decreases |ms|
  {
    if ms == [] {
      assert t.history + [] == t.history;
    } else {
      var (t1, ev) := Run(max, t, ms[..|ms| - 1]);
      var (t2, ev2) := Handle(max, t1, ms[|ms| - 1]);
      HistoryIsWindow(max, t, ms[..|ms| - 1]);
      HandleHistory(max, t1, ms[|ms| - 1]);
      ClosedAppend(ev, ev2);
      WindowStep(max, t.history, Closed(ev), Closed(ev2));
    }
  }

  lemma {:induction false} AppendAllIsWindow(max: nat, h: seq<Command>, cs: seq<Command>)
    requires 0 < max && |h| <= max
    ensures AppendAll(max, h, cs) == LastN(max, h + cs)
    decreases |cs|
  {
    if cs == [] {
      assert h + cs == h;
    } else {
      var front, c := cs[..|cs| - 1], cs[|cs| - 1];
      AppendAllIsWindow(max, h, front);
      AppendIsWindow(max, LastN(max, h + front), c);
      LastNOfWindow(max, h + front, [c]);
      assert h + front + [c] == h + cs;
    }
  }

  /** Restore: an idle tracker holding the newest `max` of the saved history
      followed by the in-flight command, closed where it started. */
  lemma RestoredIsWindow(max: nat, s: SessionState, now: Time)
    requires 0 < max
    ensures var t := Restored(max, s, now);
            && Valid(max, t) && t.phase == Idle
            && t.history == LastN(max, s.history +
                 (if s.inFlight.Some? then [RestartOrphan(s.inFlight.value, now)] else []))
  {
    AppendAllIsWindow(max, [], s.history);
    assert [] + s.history == s.history;
    hide AppendAll;
    if s.inFlight.Some? {
      var orphan := RestartOrphan(s.inFlight.value, now);
      AppendIsWindow(max, LastN(max, s.history), orphan);
      LastNOfWindow(max, s.history, [orphan]);
    } else {
      assert s.history + [] == s.history;
    }
  }

  // ----- Started and Finished alternate -----

  /** Follows the events of one session: a Started needs no command open, a
      Finished needs one open with the same start. None means the order broke. */
  function Follow(open: Option<Command>, ev: seq<Event>): Option<Option<Command>>
    decreases |ev|
  {
    if ev == [] then Some(open) else
      match ev[0]
      case Prompt(_) => Follow(open, ev[1..])
      case Started(c, row) =>
        if open.None? && c.startRow == row then Follow(Some(c), ev[1..]) else None
      case Finished(c, row) =>
        if open.Some? && c.startRow == open.value.startRow && c.startedAt == open.value.startedAt
           && c.endRow == row
        then Follow(None, ev[1..]) else None
  }

  lemma {:induction false} FollowAppend(open: Option<Command>, a: seq<Event>, b: seq<Event>)
    requires Follow(open, a).Some?
    ensures Follow(open, a + b) == Follow(Follow(open, a).value, b)
    decreases |a|
  {
    if a == [] {
      assert a + b == b;
    } else {
      assert (a + b)[0] == a[0] && (a + b)[1..] == a[1..] + b;
      var next := match a[0] case Prompt(_) => open case Started(c, _) => Some(c) case Finished(_, _) => None;
      FollowAppend(next, a[1..], b);
    }
  }

  lemma HandleFollows(max: nat, t: Tracker, m: Marker)
    requires Valid(max, t)
    ensures Follow(t.current, Handle(max, t, m).1) == Some(Handle(max, t, m).0.current)
  {
    HandleClosed(max, t, m);
    var (t1, ev) := Handle(max, t, m);
    if |ev| == 1 {
      assert ev[1..] == [];
    } else if |ev| == 2 {
      assert ev[1..] == [ev[1]] && [ev[1]][1..] == [];
      assert Follow(None, [ev[1]]) == Some(t1.current);
    }
  }

  /** Over every run the command events strictly alternate, each Finished closes
      the command its Started opened, and what is left open is `current`. */
  lemma {:induction false} EventsAlternate(max: nat, t: Tracker, ms: seq<Marker>)
    requires Valid(max, t)
    ensures Follow(t.current, Run(max, t, ms).1) == Some(Run(max, t, ms).0.current)
    decreases |ms|
  {
    if ms != [] {
      var (t1, ev) := Run(max, t, ms[..|ms| - 1]);
      EventsAlternate(max, t, ms[..|ms| - 1]);
      HandleFollows(max, t1, ms[|ms| - 1]);
      FollowAppend(t.current, ev, Handle(max, t1, ms[|ms| - 1]).1);
    }
  }

  // ----- Which commands a run finishes, read off the markers alone -----

  predicate Known(m: Marker) {
    m.code == 'A' || m.code == 'B' || m.code == 'C' || m.code == 'D'
  }

  /** Index of the newest marker that is not ignored, or -1. */
  function LastKnown(ms: seq<Marker>): (k: int)
    ensures -1 <= k < |ms|
  {
    if ms == [] then -1 else if Known(ms[|ms| - 1]) then |ms| - 1 else LastKnown(ms[..|ms| - 1])
  }

  /** A command runs exactly when the newest marker that counts is a C. */
  predicate Running(ms: seq<Marker>) {
    0 <= LastKnown(ms) && ms[LastKnown(ms)].code == 'C'
  }

  /** When the command opened by marker `k` started. */
  function StartTime(ms: seq<Marker>, k: nat): Time
    requires k < |ms|
  {
    if Running(ms[..k]) then ms[k].then_ else ms[k].now
  }

  /** The command that marker `end` closes after marker `k` opened it: with its exit code by a D,
      as an orphan by any other. */
  function Between(ms: seq<Marker>, k: nat, end: Marker): Command
    requires k < |ms|
  {
    if end.code == 'D' then Command(StartTime(ms, k), end.now, end.exit, ms[k].row, end.row, false, "")
    else Command(StartTime(ms, k), end.now, -1, ms[k].row, end.row, true, ORPHAN_MISSING_D)
  }

  /** The newest A, B or C; a tracker that has seen none starts like one after a D. */
  function Shown(ms: seq<Marker>): char {
    if ms == [] then 'D'
    else
      var c := ms[|ms| - 1].code;
      if c == 'A' || c == 'B' || c == 'C' then c else Shown(ms[..|ms| - 1])
  }

  function PhaseAfter(ms: seq<Marker>): Phase {
    if Running(ms) then CommandRunning
    else if Shown(ms) == 'A' then PromptShown
    else if Shown(ms) == 'B' then UserTyping
    else Idle
  }

  function Opened(ms: seq<Marker>, k: nat): Command
    requires k < |ms|
  {
    Command(StartTime(ms, k), ZERO_TIME, 0, ms[k].row, 0, false, "")
  }

  /** What marker `m` makes known after `ms`: the end of the running command, a prompt unless one is
      already shown, the start of a command. */
  function Reports(ms: seq<Marker>, m: Marker): seq<Event> {
    (if Known(m) && Running(ms) then [Finished(Between(ms, LastKnown(ms), m), m.row)] else [])
    + (if m.code == 'A' && Shown(ms) != 'A' then [Prompt(m.row)] else [])
    + (if m.code == 'C' then [Started(Opened(ms + [m], |ms|), m.row)] else [])
  }

  function Reported(ms: seq<Marker>): seq<Event> {
    if ms == [] then [] else Reported(ms[..|ms| - 1]) + Reports(ms[..|ms| - 1], ms[|ms| - 1])
  }

  predicate Mirrors(t: Tracker, ms: seq<Marker>) {
    t.phase == PhaseAfter(ms) && t.current == if Running(ms) then Some(Opened(ms, LastKnown(ms))) else None
  }

  lemma StartTimeOfFront(ms: seq<Marker>, m: Marker, k: nat)
    requires k < |ms|
    ensures StartTime(ms + [m], k) == StartTime(ms, k)
  {
    assert (ms + [m])[..k] == ms[..k];
  }

  lemma HandleMirrors(max: nat, t: Tracker, ms: seq<Marker>, m: Marker)
    requires Valid(max, t) && Mirrors(t, ms)
    ensures Handle(max, t, m).1 == Reports(ms, m)
    ensures Mirrors(Handle(max, t, m).0, ms + [m])
  {
    assert (ms + [m])[..|ms|] == ms;
    RunningShown(ms);
    if !Known(m) && Running(ms) {
      StartTimeOfFront(ms, m, LastKnown(ms));
    }
  }

  lemma {:induction false} RunningShown(ms: seq<Marker>)
    ensures Running(ms) ==> Shown(ms) == 'C'
  {
    if ms != [] && !Known(ms[|ms| - 1]) {
      RunningShown(ms[..|ms| - 1]);
    }
  }

  /** From an idle start, fresh or restored, the tracker is a function of the markers alone: its
      events, with all their times, rows, exit codes and orphan reasons, its state and its open
      command are exactly those read off the marker sequence. */
  lemma {:induction false} TrackerFollowsMarkers(max: nat, t: Tracker, ms: seq<Marker>)
    requires Valid(max, t) && t.phase == Idle
    ensures Run(max, t, ms).1 == Reported(ms)
    ensures Mirrors(Run(max, t, ms).0, ms)
    decreases |ms|
  {
    if ms != [] {
      var front, m := ms[..|ms| - 1], ms[|ms| - 1];
      TrackerFollowsMarkers(max, t, front);
      hide Handle, Reports, Mirrors;
      HandleMirrors(max, Run(max, t, front).0, front, m);
      assert front + [m] == ms;
    }
  }

  // ----- Rows -----

  predicate RowsRise(lo: int, ms: seq<Marker>) {
    && (forall i :: 0 <= i < |ms| ==> lo <= ms[i].row)
    && (forall i, j :: 0 <= i < j < |ms| ==> ms[i].row <= ms[j].row)
  }

  function LastRow(lo: int, ms: seq<Marker>): int {
    if ms == [] then lo else ms[|ms| - 1].row
  }

  /** Commands laid out one after another: each starts no later than it ends and
      no command starts before its predecessor ended; `hi` bounds the last end. */
  predicate Layout(lo: int, cs: seq<Command>, hi: int) {
    && lo <= hi
    && (forall i :: 0 <= i < |cs| ==> lo <= cs[i].startRow <= cs[i].endRow <= hi)
    && (forall i, j :: 0 <= i < j < |cs| ==> cs[i].endRow <= cs[j].startRow)
  }

  predicate RunLayout(lo: int, t: Tracker, cs: seq<Command>, hi: int) {
    && Layout(lo, cs, hi)
    && (t.current.Some? ==> lo <= t.current.value.startRow <= hi && Layout(lo, cs, t.current.value.startRow))
  }

  lemma HandleLayout(max: nat, t: Tracker, m: Marker, lo: int, cs: seq<Command>, hi: int)
    requires Valid(max, t) && RunLayout(lo, t, cs, hi) && hi <= m.row
    ensures var (t1, ev) := Handle(max, t, m); RunLayout(lo, t1, cs + Closed(ev), m.row)
  {
    HandleClosed(max, t, m);
    var (t1, ev) := Handle(max, t, m);
    hide Layout, Closed;
    LayoutWidens(lo, cs, hi, m.row);
    if HasFinished(ev) {
      LayoutGrows(lo, cs, ev[0].cmd, m.row);
    } else {
      assert cs + Closed(ev) == cs;
    }
  }

  lemma LayoutWidens(lo: int, cs: seq<Command>, hi: int, higher: int)
    requires Layout(lo, cs, hi) && hi <= higher
    ensures Layout(lo, cs, higher) && lo <= higher
  {
  }

  lemma LayoutGrows(lo: int, cs: seq<Command>, c: Command, hi: int)
    requires Layout(lo, cs, c.startRow) && c.startRow <= c.endRow <= hi
    ensures Layout(lo, cs + [c], hi)
  {
  }

  /** With rows that never decrease, every command finished in the run has
      startRow <= endRow and consecutive commands do not overlap. */
  lemma {:induction false} CommandsDoNotOverlap(max: nat, t: Tracker, ms: seq<Marker>, lo: int)
    requires Valid(max, t) && t.current.None? && RowsRise(lo, ms)
    ensures RunLayout(lo, Run(max, t, ms).0, Closed(Run(max, t, ms).1), LastRow(lo, ms))
    decreases |ms|
  {
    if ms != [] {
      var front, m := ms[..|ms| - 1], ms[|ms| - 1];
      CommandsDoNotOverlap(max, t, front, lo);
      var (t1, ev) := Run(max, t, front);
      HandleLayout(max, t1, m, lo, Closed(ev), LastRow(lo, front));
      ClosedAppend(ev, Handle(max, t1, m).1);
    }
  }
}
