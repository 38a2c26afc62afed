/** Crash after crash, exit after exit: any number of lives of one session id in a row, each begun over
    the file the one before it left. */
module Lifetimes {
  import opened Prelude
  import opened Lifecycle
  import C = CrashRecovery

  /** How a life begins: a daemon restarts and restores the session, reading the clock, or a client
      creates the session anew after its process has exited, which registers a fresh tracker. */
  datatype Start = Restored(now: Time) | Created

  /** One life: its beginning, and its steps until the daemon crashed or the process exited. */
  datatype Life = Life(start: Start, steps: seq<C.Step>)

  /** The tracker a daemon starts with: the restored one, or a fresh one if there is no file. */
  function BootTracker(max: nat, id: string, disk: Option<SessionState>, now: Time): Tracker
    requires 0 < max
  {
    match C.Recover(max, id, disk, now)
    case RestoredAs(t) => t
    case _ => FRESH
  }

  /** The tracker a life starts with. */
  function StartTracker(max: nat, id: string, disk: Option<SessionState>, start: Start): Tracker
    requires 0 < max
  {
    if start.Restored? then BootTracker(max, id, disk, start.now) else FRESH
  }

  /** What the disk holds after these lives, starting without a file; None if a step of some life was
      not possible. */
  function After(max: nat, id: string, lives: seq<Life>): Option<Option<SessionState>>
    requires 0 < max
    decreases |lives|
  {
    if lives == [] then Some(None)
    else
      var life := lives[|lives| - 1];
      match After(max, id, lives[..|lives| - 1])
      case None => None
      case Some(disk) =>
        match C.Exec(C.Boot(max, StartTracker(max, id, disk, life.start), disk), life.steps)
        case None => None
        case Some(s) => Some(s.writer.disk)
  }

  function MarkersOf(steps: seq<C.Step>): seq<Marker> {
    if steps == [] then [] else (if steps[0].Osc? then [steps[0].m] else []) + MarkersOf(steps[1..])
  }

  lemma {:induction false} ExecMarkers(s: C.System, steps: seq<C.Step>)
    requires C.Exec(s, steps).Some?
    ensures C.Exec(s, steps).value.markers == s.markers + MarkersOf(steps)
    decreases |steps|
  {
    if steps == [] {
      assert s.markers + [] == s.markers;
    } else {
      var one := if steps[0].Osc? then [steps[0].m] else [];
      MarkersStep(s, steps[0]);
      hide C.Apply;
      ExecMarkers(C.Apply(s, steps[0]), steps[1..]);
      Assoc(s.markers, one, MarkersOf(steps[1..]));
    }
  }

  lemma MarkersStep(s: C.System, st: C.Step)
    requires C.Enabled(s, st)
    ensures C.Apply(s, st).markers == s.markers + if st.Osc? then [st.m] else []
  {
  }

  // ---- The ledger: all that the disk stands for -------------------------------------------------------

  /** `past` is every command closed up to the save on disk since the session was last created anew, in
      all lives; `open` is the command that save left running. */
  datatype Ledger = Ledger(past: seq<Command>, open: Option<Command>)

  /** A life that ended with the save after its marker number `saved` on disk, or, for 0, with what it
      found there. */
  datatype Chapter = Chapter(start: Start, markers: seq<Marker>, saved: nat)

  /** Marker `saved` finished a command: it counts, and the newest counting one before it is a C. */
  predicate Finishing(c: Chapter) {
    0 < c.saved <= |c.markers| && Known(c.markers[c.saved - 1]) && Running(c.markers[..c.saved - 1])
  }

  predicate GoodChapter(c: Chapter) { c.saved == 0 || Finishing(c) }

  /** A command left open is closed by the next daemon where it started. */
  function Orphan(open: Option<Command>, now: Time): seq<Command> {
    if open.None? then []
    else [Command(open.value.startedAt, now, -1, open.value.startRow, open.value.startRow, true, ORPHAN_DAEMON_RESTART)]
  }

  /** What a life carries over: a restored one everything, a created one nothing. */
  function Carried(l: Ledger, start: Start): seq<Command> {
    if start.Restored? then l.past + Orphan(l.open, start.now) else []
  }

  function Turn(l: Ledger, c: Chapter): Ledger {
    if !Finishing(c) then l
    else
      var last := c.markers[c.saved - 1];
      Ledger(Carried(l, c.start) + Closed(Reported(c.markers[..c.saved])),
             if last.code == 'C' then Some(Command(last.then_, ZERO_TIME, 0, last.row, 0, false, "")) else None)
  }

  function Entries(cs: seq<Chapter>): Ledger {
    if cs == [] then Ledger([], None) else Turn(Entries(cs[..|cs| - 1]), cs[|cs| - 1])
  }

  /** The disk is the ledger cut to the newest `max` entries; no file means an empty ledger. */
  predicate Mirrored(max: nat, disk: Option<SessionState>, l: Ledger) {
    if disk.None? then l == Ledger([], None)
    else disk.value == SessionState(LastN(max, l.past), l.open) && (l.open.Some? ==> IsOpen(l.open.value))
  }

  /** An open command has no end yet. */
  predicate IsOpen(c: Command) {
    c == Command(c.startedAt, ZERO_TIME, 0, c.startRow, 0, false, "")
  }

  /** Booting from it gives an idle tracker with the newest `max` entries of the ledger and, as one
      more entry, the command it left open. */
  lemma BootReadsLedger(max: nat, id: string, disk: Option<SessionState>, l: Ledger, now: Time)
    requires 0 < max && Mirrored(max, disk, l)
    ensures BootTracker(max, id, disk, now) == Tracker(Idle, None, LastN(max, l.past + Orphan(l.open, now)))
    ensures Valid(max, BootTracker(max, id, disk, now))
  {
    C.RecoverReadsBack(max, id, if disk.Some? then disk.value else SessionState([], None), now);
    if disk.Some? {
      RestoredIsWindow(max, disk.value, now);
      LastNOfWindow(max, l.past, Orphan(l.open, now));
    }
  }

  lemma StartReadsLedger(max: nat, id: string, disk: Option<SessionState>, l: Ledger, start: Start)
    requires 0 < max && Mirrored(max, disk, l)
    ensures StartTracker(max, id, disk, start) == Tracker(Idle, None, LastN(max, Carried(l, start)))
    ensures Valid(max, StartTracker(max, id, disk, start))
  {
    if start.Restored? {
      BootReadsLedger(max, id, disk, l, start.now);
    }
  }

  lemma FinishingIsDeclared(max: nat, t: Tracker, ms: seq<Marker>, j: nat, state: SessionState)
    requires Valid(max, t) && t.phase == Idle && C.SavedAfter(max, t, ms, j, state)
    ensures Known(ms[j - 1]) && Running(ms[..j - 1])
  {
    var before := Run(max, t, ms[..j - 1]).0;
    TrackerFollowsMarkers(max, t, ms[..j - 1]);
    C.FinishingMarker(max, before, ms[j - 1]);
  }

  /** The history saved after marker `j`: the newest `max` of everything closed up to it. */
  lemma SavedHistory(max: nat, t: Tracker, all: seq<Command>, ms: seq<Marker>, j: nat, state: SessionState)
    requires 0 < max && t == Tracker(Idle, None, LastN(max, all)) && C.SavedAfter(max, t, ms, j, state)
    ensures state.history == LastN(max, all + Closed(Reported(ms[..j])))
  {
    hide Run, Reported, Closed, Handle;
    TrackerFollowsMarkers(max, t, ms[..j]);
    HistoryIsWindow(max, t, ms[..j]);
    LastNOfWindow(max, all, Closed(Reported(ms[..j])));
  }

  lemma SavedOpen(max: nat, t: Tracker, ms: seq<Marker>, j: nat, state: SessionState)
    requires Valid(max, t) && C.SavedAfter(max, t, ms, j, state)
    ensures state.inFlight == if ms[j - 1].code == 'C' then Some(Open(ms[j - 1].then_, ms[j - 1].row)) else None
  {
    assert ms[..j][..j - 1] == ms[..j - 1];
    C.FinishingMarker(max, Run(max, t, ms[..j - 1]).0, ms[j - 1]);
    hide Handle;
  }

  /** A save made in a lifetime is the next ledger, cut to `max`. */
  lemma SaveIsLedger(max: nat, t: Tracker, l: Ledger, c: Chapter, state: SessionState)
    requires 0 < max && t == Tracker(Idle, None, LastN(max, Carried(l, c.start)))
    requires C.SavedAfter(max, t, c.markers, c.saved, state)
    ensures Finishing(c) && Mirrored(max, Some(state), Turn(l, c))
  {
    FinishingIsDeclared(max, t, c.markers, c.saved, state);
    SavedHistory(max, t, Carried(l, c.start), c.markers, c.saved, state);
    SavedOpen(max, t, c.markers, c.saved, state);
    hide C.SavedAfter, Reported, Closed, LastN, Carried;
  }

  /** Any number of crashes and exits, at any points, with any I/O failures. There is one chapter per
      life, with the markers that life handled; the file is absent or exactly the save its chapter
      names, made after a Finished event; and the next daemon starts idle with the newest `max` of
      every command closed up to there since the session was last created anew, in all lives and in
      order, plus at most one daemon_restart orphan. */
  lemma {:induction false} EveryCrash(max: nat, id: string, lives: seq<Life>) returns (cs: seq<Chapter>)
    requires 0 < max && After(max, id, lives).Some?
    ensures |cs| == |lives|
    ensures forall i :: 0 <= i < |lives| ==>
              cs[i].start == lives[i].start && cs[i].markers == MarkersOf(lives[i].steps) && GoodChapter(cs[i])
    ensures Mirrored(max, After(max, id, lives).value, Entries(cs))
    ensures forall now :: BootTracker(max, id, After(max, id, lives).value, now) ==
              Tracker(Idle, None, LastN(max, Entries(cs).past + Orphan(Entries(cs).open, now)))
    decreases |lives|
  {
    hide After, Entries, Mirrored, BootTracker, StartTracker, Turn, GoodChapter, Orphan, LastN, MarkersOf;
    if lives == [] {
      cs := [];
      NoLives(max, id);
    } else {
      var front, life := lives[..|lives| - 1], lives[|lives| - 1];
      AfterStep(max, id, lives);
      var before := EveryCrash(max, id, front);
      var c := NextChapter(max, id, After(max, id, front).value, Entries(before), life);
      cs := before + [c];
      EntriesStep(before, c);
    }
    forall now
      ensures BootTracker(max, id, After(max, id, lives).value, now) ==
              Tracker(Idle, None, LastN(max, Entries(cs).past + Orphan(Entries(cs).open, now)))
    {
      BootReadsLedger(max, id, After(max, id, lives).value, Entries(cs), now);
    }
  }

  lemma NoLives(max: nat, id: string)
    requires 0 < max
    ensures After(max, id, []) == Some(None) && Mirrored(max, None, Entries([]))
  {
  }

  lemma AfterStep(max: nat, id: string, lives: seq<Life>)
    requires 0 < max && lives != [] && After(max, id, lives).Some?
    ensures var front, life := lives[..|lives| - 1], lives[|lives| - 1];
      && After(max, id, front).Some?
      && var disk := After(max, id, front).value;
      && var end := C.Exec(C.Boot(max, StartTracker(max, id, disk, life.start), disk), life.steps);
      && end.Some? && After(max, id, lives) == Some(end.value.writer.disk)
  {
    hide C.Exec, StartTracker;
  }

  lemma EntriesStep(cs: seq<Chapter>, c: Chapter)
    ensures Entries(cs + [c]) == Turn(Entries(cs), c)
  {
    hide Turn;
    assert (cs + [c])[..|cs|] == cs;
  }

  lemma NextChapter(max: nat, id: string, disk: Option<SessionState>, l: Ledger, life: Life) returns (c: Chapter)
    requires 0 < max && Mirrored(max, disk, l)
    requires C.Exec(C.Boot(max, StartTracker(max, id, disk, life.start), disk), life.steps).Some?
    ensures c.start == life.start && c.markers == MarkersOf(life.steps) && GoodChapter(c)
    ensures Mirrored(max, C.Exec(C.Boot(max, StartTracker(max, id, disk, life.start), disk), life.steps).value.writer.disk,
                     Turn(l, c))
  {
    var t := StartTracker(max, id, disk, life.start);
    StartReadsLedger(max, id, disk, l, life.start);
    var s := C.Exec(C.Boot(max, t, disk), life.steps).value;
    ExecMarkers(C.Boot(max, t, disk), life.steps);
    assert [] + MarkersOf(life.steps) == MarkersOf(life.steps);
    C.CrashLeavesOneSave(max, id, t, disk, life.steps, ZERO_TIME);
    hide C.Exec, Mirrored, StartTracker, Turn, Carried;
    if s.writer.disk == disk {
      c := Chapter(life.start, s.markers, 0);
      QuietChapter(l, c);
    } else {
      var j: nat :| 0 < j <= |s.markers| && s.writer.disk.Some? && C.SavedAfter(max, t, s.markers, j, s.writer.disk.value);
      c := Chapter(life.start, s.markers, j);
      SaveIsLedger(max, t, l, c, s.writer.disk.value);
    }
  }

  lemma QuietChapter(l: Ledger, c: Chapter)
    requires c.saved == 0
    ensures Turn(l, c) == l
  {
  }

  /** A session created anew does not read the file: until its first save the old history stays on
      disk, and from that save on everything earlier lives left is gone for good, whatever follows. */
  lemma {:induction false} RecreationForgets(before: seq<Chapter>, c: Chapter, rest: seq<Chapter>)
    requires GoodChapter(c) && c.start == Created
    ensures c.saved == 0 ==> Entries(before + [c]) == Entries(before)
    ensures c.saved > 0 ==> Entries(before + [c] + rest) == Entries([c] + rest)
    decreases |rest|
  {
    hide *;
    CreatedTurn(Entries(before), c);
    EntriesStep(before, c);
    if rest == [] {
      EntriesStep([], c);
      CreatedTurn(Entries([]), c);
      assert before + [c] + rest == before + [c];
      assert [c] + rest == [] + [c];
    } else {
      var front, last := rest[..|rest| - 1], rest[|rest| - 1];
      assert rest == front + [last];
      Assoc(before + [c], front, [last]);
      Assoc([c], front, [last]);
      RecreationForgets(before, c, front);
      EntriesStep(before + [c] + front, last);
      EntriesStep([c] + front, last);
    }
  }

  lemma CreatedTurn(l: Ledger, c: Chapter)
    requires GoodChapter(c) && c.start == Created
    ensures Turn(l, c) == if c.saved == 0 then l else Turn(Ledger([], None), c)
  {
  }

  /** The events of one command run from start to end. */
  lemma OneCommand(a: Marker, b: Marker)
    requires a.code == 'C' && b.code == 'D'
    ensures Running([a]) && LastKnown([a]) == 0
    ensures Closed(Reported([a, b])) == [Between([a], 0, b)]
  {
    var started, finished := Started(Opened([a], 0), a.row), Finished(Between([a], 0, b), b.row);
    assert [a][..0] == [] && [] + [a] == [a] && [a, b][..1] == [a];
    assert Running([a]) && !Running([]);
    hide Between, Opened;
    assert Reports([], a) == [started];
    assert Reports([a], b) == [finished];
    assert Reported([a]) == Reported([]) + [started];
    assert Reported([a, b]) == [started] + [finished];
    ClosedAppend([started], [finished]);
    assert [started][1..] == [] && [finished][1..] == [];
    assert Closed([started]) == [] + Closed([]) && Closed([finished]) == [Between([a], 0, b)] + Closed([]);
  }

  lemma OneCommandTurn(l: Ledger, a: Marker, b: Marker)
    requires a.code == 'C' && b.code == 'D'
    ensures var c := Chapter(Created, [a, b], 2);
      GoodChapter(c) && Turn(l, c).past == [Between([a], 0, b)]
  {
    OneCommand(a, b);
    assert [a, b][..1] == [a] && [a, b][..2] == [a, b];
    hide Reported, Closed, Between, Running;
    assert [] + [Between([a], 0, b)] == [Between([a], 0, b)];
  }

  /** A session with one command, exited and created again with one command of its own: the file stands
      for the second command alone. */
  lemma RecreationExample(a: Marker, b: Marker, x: Marker, y: Marker)
    requires a.code == x.code == 'C' && b.code == y.code == 'D'
    ensures var first, second := Chapter(Created, [a, b], 2), Chapter(Created, [x, y], 2);
      && GoodChapter(first) && GoodChapter(second)
      && Entries([] + [first]).past == [Between([a], 0, b)]
      && Entries([] + [first] + [second]).past == [Between([x], 0, y)]
  {
    hide *;
    var first, second := Chapter(Created, [a, b], 2), Chapter(Created, [x, y], 2);
    OneCommandTurn(Entries([]), a, b);
    EntriesStep([], first);
    OneCommandTurn(Entries([] + [first]), x, y);
    EntriesStep([] + [first], second);
  }
}
