/** That finished commands do reach the disk: every marker that finishes a command is followed by one
    save, and the program's own steps bring the newest save to a file that gives all of them back. */
module Persistence {
  import opened Prelude
  import opened Lifecycle
  import C = CrashRecovery
  import W = WriterProtocol

  /** Marker `m` after `ms` finishes a command: it counts, and the newest counting one before it is a C. */
  predicate Finishes(ms: seq<Marker>, m: Marker) {
    Known(m) && Running(ms)
  }

  /** What the tracker holds right after each marker that finished a command, in order. */
  function Snapshots(max: nat, t: Tracker, ms: seq<Marker>): seq<SessionState>
    requires Valid(max, t)
    decreases |ms|
  {
    if ms == [] then []
    else
      var front, m, now := ms[..|ms| - 1], ms[|ms| - 1], Run(max, t, ms).0;
      Snapshots(max, t, front) + if Finishes(front, m) then [SessionState(now.history, now.current)] else []
  }

  function Held(saving: Option<SessionState>): seq<SessionState> {
    if saving.Some? then [saving.value] else []
  }

  /** The states accepted by the writer, and the one on its way to it, are exactly those. */
  predicate Recorded(s: C.System)
    requires Valid(s.max, s.initial)
  {
    !s.writer.closed ==> s.writer.accepted + Held(s.saving) == Snapshots(s.max, s.initial, s.markers)
  }

  ghost predicate Inv(s: C.System) {
    C.Inv(s) && s.initial.phase == Idle && Recorded(s)
  }

  /** A marker emits a Finished event exactly if it finishes a command. */
  lemma FinishesExactly(max: nat, t: Tracker, ms: seq<Marker>, m: Marker)
    requires Valid(max, t) && t.phase == Idle
    ensures HasFinished(Handle(max, Run(max, t, ms).0, m).1) <==> Finishes(ms, m)
  {
    TrackerFollowsMarkers(max, t, ms);
    HandleMirrors(max, Run(max, t, ms).0, ms, m);
    hide Handle, Run, Between, Opened;
    var ev := Reports(ms, m);
    if Finishes(ms, m) {
      assert ev[0].Finished? && ev[0] in ev;
    }
  }

  lemma OscKeeps(s: C.System, m: Marker)
    requires Inv(s) && C.Enabled(s, C.Osc(m))
    ensures Recorded(C.Apply(s, C.Osc(m)))
  {
    var ms := s.markers + [m];
    FinishesExactly(s.max, s.initial, s.markers, m);
    assert ms[..|ms| - 1] == s.markers;
    assert C.Apply(s, C.Osc(m)).tracker == Run(s.max, s.initial, ms).0;
    hide Handle, HasFinished, Finishes, C.Inv;
    assert s.writer.accepted + [] == s.writer.accepted;
  }

  lemma WriterKeeps(w: W.Writer, st: W.Step)
    requires W.Enabled(w, st)
    ensures !W.Apply(w, st).closed ==> !w.closed
    ensures !w.closed && st.Capture? ==> W.Apply(w, st).accepted == w.accepted + [st.state]
  {
  }

  lemma StepKeeps(s: C.System, st: C.Step)
    requires Inv(s) && C.Enabled(s, st)
    ensures Inv(C.Apply(s, st)) && C.Apply(s, st).initial == s.initial && C.Apply(s, st).max == s.max
  {
    C.StepKeepsInv(s, st);
    hide C.Inv, Snapshots;
    match st
    case Osc(m) => OscKeeps(s, m);
    case Save =>
      WriterKeeps(s.writer, W.Capture(s.saving.value));
      assert s.writer.accepted + [s.saving.value] + [] == s.writer.accepted + [s.saving.value];
    case Write(w) =>
      WriterKeeps(s.writer, w);
      C.OnlyCaptureLogs(s.writer, w);
  }

  lemma {:induction false} EveryRun(s: C.System, steps: seq<C.Step>)
    requires Inv(s) && C.Exec(s, steps).Some?
    ensures var v := C.Exec(s, steps).value; Inv(v) && v.initial == s.initial && v.max == s.max
    decreases |steps|
  {
    hide C.Apply, C.Enabled, Inv;
    if steps != [] {
      StepKeeps(s, steps[0]);
      EveryRun(C.Apply(s, steps[0]), steps[1..]);
    }
  }

  lemma Booted(max: nat, t: Tracker, disk: Option<SessionState>)
    requires Valid(max, t) && t.phase == Idle
    ensures Inv(C.Boot(max, t, disk))
  {
  }

  /** Every finish is saved: over every run of a daemon lifetime, until its writer is closed, the states
      the writer has accepted, and the one about to be handed to it, are exactly the snapshots after
      each finishing marker, in order, each of them once. */
  lemma EveryFinishIsSaved(max: nat, t: Tracker, disk: Option<SessionState>, steps: seq<C.Step>)
    requires Valid(max, t) && t.phase == Idle && C.Exec(C.Boot(max, t, disk), steps).Some?
    ensures var s := C.Exec(C.Boot(max, t, disk), steps).value;
      !s.writer.closed ==> s.writer.accepted + Held(s.saving) == Snapshots(max, t, s.markers)
  {
    Booted(max, t, disk);
    EveryRun(C.Boot(max, t, disk), steps);
  }

  // ---- All of them can reach the disk -----------------------------------------------------------------

  /** How many markers there are up to the last one that finished a command. */
  function LastFinish(ms: seq<Marker>): (j: nat)
    ensures j <= |ms|
  {
    if ms == [] then 0
    else if Finishes(ms[..|ms| - 1], ms[|ms| - 1]) then |ms|
    else LastFinish(ms[..|ms| - 1])
  }

  lemma ClosedOfReports(ms: seq<Marker>, m: Marker)
    ensures |Closed(Reports(ms, m))| == if Finishes(ms, m) then 1 else 0
  {
    hide Between, Opened;
    var a := if Known(m) && Running(ms) then [Finished(Between(ms, LastKnown(ms), m), m.row)] else [];
    var b := if m.code == 'A' && Shown(ms) != 'A' then [Prompt(m.row)] else [];
    var c := if m.code == 'C' then [Started(Opened(ms + [m], |ms|), m.row)] else [];
    ClosedAppend(a + b, c);
    ClosedAppend(a, b);
    ClosedOne(a);
    ClosedOne(b);
    ClosedOne(c);
  }

  lemma ClosedOne(ev: seq<Event>)
    requires |ev| <= 1
    ensures |Closed(ev)| == if |ev| == 1 && ev[0].Finished? then 1 else 0
  {
    if |ev| == 1 {
      assert ev[1..] == [];
    }
  }

  lemma {:induction false} NothingClosedSince(ms: seq<Marker>)
    ensures Closed(Reported(ms)) == Closed(Reported(ms[..LastFinish(ms)]))
    ensures LastFinish(ms) == 0 ==> Closed(Reported(ms)) == []
    decreases |ms|
  {
    if ms == [] {
      assert ms[..0] == ms;
    } else {
      var front, m := ms[..|ms| - 1], ms[|ms| - 1];
      if Finishes(front, m) {
        assert ms[..|ms|] == ms;
      } else {
        NothingClosedSince(front);
        ClosedOfReports(front, m);
        ClosedAppend(Reported(front), Reports(front, m));
        hide Reports, Finishes;
        assert Closed(Reported(front)) + [] == Closed(Reported(front));
        assert ms[..LastFinish(ms)] == front[..LastFinish(front)];
      }
    }
  }

  /** The newest snapshot is the one after the last finish. */
  lemma {:induction false} NewestSnapshot(max: nat, t: Tracker, ms: seq<Marker>)
    requires Valid(max, t) && t.phase == Idle
    ensures LastFinish(ms) == 0 <==> Snapshots(max, t, ms) == []
    ensures LastFinish(ms) > 0 ==>
      C.SavedAfter(max, t, ms, LastFinish(ms), Snapshots(max, t, ms)[|Snapshots(max, t, ms)| - 1])
    decreases |ms|
  {
    hide Handle, Finishes;
    if ms != [] {
      var front, m := ms[..|ms| - 1], ms[|ms| - 1];
      if Finishes(front, m) {
        FinishesExactly(max, t, front, m);
        assert ms[..|ms|] == ms;
      } else {
        NewestSnapshot(max, t, front);
        SavedEarlier(max, t, ms, LastFinish(front));
      }
    }
  }

  lemma SavedEarlier(max: nat, t: Tracker, ms: seq<Marker>, j: nat)
    requires Valid(max, t) && ms != [] && j <= |ms| - 1
    ensures forall state :: C.SavedAfter(max, t, ms[..|ms| - 1], j, state) ==> C.SavedAfter(max, t, ms, j, state)
  {
    assert ms[..|ms| - 1][..j] == ms[..j];
    if j > 0 {
      assert ms[..|ms| - 1][..j - 1] == ms[..j - 1];
    }
  }

  function Lifted(ws: seq<W.Step>): seq<C.Step> {
    if ws == [] then [] else [C.Write(ws[0])] + Lifted(ws[1..])
  }

  /** Steps the program takes by itself, without failure. */
  predicate Own(st: C.Step) {
    st == C.Save || (st.Write? && W.Internal(st.st))
  }

  lemma {:induction false} LiftedRuns(s: C.System, ws: seq<W.Step>)
    requires W.Exec(s.writer, ws).Some? && forall w <- ws :: W.Internal(w)
    ensures forall st <- Lifted(ws) :: Own(st)
    ensures C.Exec(s, Lifted(ws)) == Some(s.(writer := W.Exec(s.writer, ws).value))
    decreases |ws|
  {
    if ws != [] {
      hide W.Apply, W.Enabled;
      assert ws[0] in ws;
      LiftedRuns(s.(writer := W.Apply(s.writer, ws[0])), ws[1..]);
      assert Lifted(ws)[1..] == Lifted(ws[1..]);
    }
  }

  /** The pending snapshot, if any, is handed to the writer, which then writes the newest one. */
  lemma WriteOut(s: C.System) returns (steps: seq<C.Step>)
    requires Inv(s) && !s.writer.closed && !s.writer.failed
    ensures (forall st <- steps :: Own(st)) && C.Exec(s, steps).Some?
    ensures var v := C.Exec(s, steps).value;
      && v.markers == s.markers && Inv(v) && v.initial == s.initial && v.max == s.max
      && v.writer.accepted == Snapshots(s.max, s.initial, s.markers) && W.OnDisk(v.writer) == W.Newest(v.writer)
  {
    var saves := if s.saving.Some? then [C.Save] else [];
    var mid := if s.saving.Some? then C.Apply(s, C.Save) else s;
    if s.saving.Some? {
      StepKeeps(s, C.Save);
      assert !mid.writer.failed && !mid.writer.closed;
    }
    var ws := W.EveryUpdatePersists(mid.writer);
    LiftedRuns(mid, ws);
    steps := saves + Lifted(ws);
    EveryRun(mid, Lifted(ws));
    assert mid.writer.accepted + [] == mid.writer.accepted;
    hide C.Inv, C.Apply, Snapshots;
    if s.saving.Some? {
      assert steps[1..] == Lifted(ws);
    } else {
      assert steps == Lifted(ws);
    }
  }

  /** Nothing finished is out of reach: from every state of every run, with the writer open and no I/O
      failed so far, the program's own steps lead to a disk from which recovery gives back everything
      the tracker started with and every command closed so far, cut to the newest `max`, plus the one
      command the last finish left open. */
  lemma EveryClosedCommandPersists(
    max: nat, id: string, t: Tracker, disk: Option<SessionState>, steps: seq<C.Step>, now: Time)
    returns (more: seq<C.Step>)
    requires Valid(max, t) && t.phase == Idle && C.Exec(C.Boot(max, t, disk), steps).Some?
    requires var w := C.Exec(C.Boot(max, t, disk), steps).value.writer; !w.closed && !w.failed
    ensures (forall st <- more :: Own(st)) && C.Exec(C.Exec(C.Boot(max, t, disk), steps).value, more).Some?
    ensures var s := C.Exec(C.Boot(max, t, disk), steps).value;
      var v := C.Exec(s, more).value;
      var j := LastFinish(s.markers);
      && v.markers == s.markers
      && (Closed(Reported(s.markers)) != [] ==>
            && j > 0
            && C.Recover(max, id, v.writer.disk, now) == C.RestoredAs(Tracker(Idle, None,
                 LastN(max, t.history + Closed(Reported(s.markers)) + C.OpenedBy(max, t, s.markers, j, now)))))
  {
    Booted(max, t, disk);
    EveryRun(C.Boot(max, t, disk), steps);
    var s := C.Exec(C.Boot(max, t, disk), steps).value;
    hide Inv;
    more := WriteOut(s);
    var v := C.Exec(s, more).value;
    if Closed(Reported(s.markers)) != [] {
      NothingClosedSince(s.markers);
      NewestIsOnDisk(v);
      NewestSnapshot(max, t, s.markers);
      RecoversAll(max, id, t, s.markers, LastFinish(s.markers), v.writer.disk.value, now);
    }
  }

  lemma NewestIsOnDisk(v: C.System)
    requires Inv(v) && W.OnDisk(v.writer) == W.Newest(v.writer)
    ensures v.writer.accepted != [] ==> v.writer.disk == Some(v.writer.accepted[|v.writer.accepted| - 1])
  {
  }

  lemma RecoversAll(max: nat, id: string, t: Tracker, ms: seq<Marker>, j: nat, state: SessionState, now: Time)
    requires Valid(max, t) && t.phase == Idle && C.SavedAfter(max, t, ms, j, state)
    requires Closed(Reported(ms)) == Closed(Reported(ms[..j]))
    ensures C.Recover(max, id, Some(state), now) == C.RestoredAs(Tracker(Idle, None,
              LastN(max, t.history + Closed(Reported(ms)) + C.OpenedBy(max, t, ms, j, now))))
  {
    TrackerFollowsMarkers(max, t, ms[..j]);
    C.RecoveredFromSave(max, id, t, ms, j, state, now);
    hide Run, Reported, Closed, C.Recover, C.OpenedBy;
  }
}
