/** Tracker, repository, debounced writer, crash and restore composed end to end
    (internal/cmdlifecycle/service.go, internal/platform/commands/,
    internal/daemon/reconcile.go). Tracker and daemon share one repository. */
module CrashRecovery {
  import opened Prelude
  import opened Lifecycle
  import W = WriterProtocol

  // ----- commands.json: written by flushOnce, read by Load (JSON is the identity) -----

  const CURRENT_VERSION := 1

  datatype File = File(version: int, sessionID: string, history: seq<Command>, inFlight: Option<Command>)

  /** What reading the path yields; only absence is not an error. */
  datatype Disk = Missing | Unreadable | Corrupt | Present(file: File)

  datatype LoadError = ErrUnsupportedVersion | ErrRead | ErrParse

  function FileOf(id: string, s: SessionState): File {
    File(CURRENT_VERSION, id, s.history, s.inFlight)
  }

  const EMPTY_FILE := File(0, "", [], None)

  function Load(disk: Disk): (File, Option<LoadError>) {
    match disk
    case Missing => (EMPTY_FILE, None)
    case Unreadable => (EMPTY_FILE, Some(ErrRead))
    case Corrupt => (EMPTY_FILE, Some(ErrParse))
    case Present(f) =>
      if f.version > CURRENT_VERSION then (File(f.version, f.sessionID, [], None), Some(ErrUnsupportedVersion))
      else (f, None)
  }

  datatype RestoreOutcome = Skipped | Fails(error: LoadError) | SessionExists | RestoredAs(tracker: Tracker)

  /** RestoreCommandsForSession, for a session that is (not) already registered. */
  function RestoreCommands(max: nat, disk: Disk, registered: bool, now: Time): RestoreOutcome
    requires 0 < max
  {
    var (f, err) := Load(disk);
    if err == Some(ErrUnsupportedVersion) then Skipped
    else if err.Some? then Fails(err.value)
    else if f.version == 0 && f.history == [] && f.inFlight.None? then Skipped
    else if registered then SessionExists
    else RestoredAs(Restored(max, SessionState(f.history, f.inFlight), now))
  }

  /** What the next daemon finds, given what the writer left on disk. */
  function Recover(max: nat, id: string, disk: Option<SessionState>, now: Time): RestoreOutcome
    requires 0 < max
  {
    RestoreCommands(max, if disk.None? then Missing else Present(FileOf(id, disk.value)), false, now)
  }

  lemma RecoverReadsBack(max: nat, id: string, s: SessionState, now: Time)
    requires 0 < max
    ensures Recover(max, id, Some(s), now) == RestoredAs(Restored(max, s, now))
    ensures Recover(max, id, None, now) == Skipped
    ensures forall f: File, reg :: f.version > CURRENT_VERSION ==> RestoreCommands(max, Present(f), reg, now) == Skipped
    ensures RestoreCommands(max, Present(FileOf(id, s)), true, now) == SessionExists
    ensures forall d: Disk, reg :: RestoreCommands(max, d, reg, now).Fails? <==> d == Unreadable || d == Corrupt
  {
    assert Load(Present(FileOf(id, s))) == (FileOf(id, s), None);
  }

  // ----- One daemon lifetime: markers, saves and writer steps interleave freely -----

  /** `saving` is the snapshot HandleOSC has taken and not yet handed to Update. */
  datatype System = System(
    max: nat, initial: Tracker, tracker: Tracker, markers: seq<Marker>,
    saving: Option<SessionState>, writer: W.Writer)

  datatype Step = Osc(m: Marker) | Save | Write(st: W.Step)

  function Boot(max: nat, initial: Tracker, disk: Option<SessionState>): System {
    System(max, initial, initial, [], None, W.Start(disk))
  }

  predicate Enabled(s: System, st: Step) {
    match st
    case Osc(m) => s.saving.None? && Valid(s.max, s.tracker)
    case Save => s.saving.Some?
    case Write(w) => !w.Capture? && W.Enabled(s.writer, w)
  }

  function Apply(s: System, st: Step): System
    requires Enabled(s, st)
  {
    match st
    case Osc(m) =>
      var (t, ev) := Handle(s.max, s.tracker, m);
      s.(tracker := t, markers := s.markers + [m], saving := Saved(t, ev))
    case Save => s.(saving := None, writer := W.Apply(s.writer, W.Capture(s.saving.value)))
    case Write(w) => s.(writer := W.Apply(s.writer, w))
  }

  function Exec(s: System, steps: seq<Step>): Option<System>
    decreases |steps|
  {
    if steps == [] then Some(s)
    else if Enabled(s, steps[0]) then Exec(Apply(s, steps[0]), steps[1..])
    else None
  }

  /** The snapshot `state` was taken right after marker `j - 1`, which finished a command. */
  predicate SavedAfter(max: nat, t: Tracker, ms: seq<Marker>, j: nat, state: SessionState)
    requires Valid(max, t)
  {
    && 0 < j <= |ms|
    && HasFinished(Handle(max, Run(max, t, ms[..j - 1]).0, ms[j - 1]).1)
    && state == Snapshot(Run(max, t, ms[..j]).0)
  }

  ghost predicate IsSave(max: nat, t: Tracker, ms: seq<Marker>, state: SessionState)
    requires Valid(max, t)
  {
    exists j: nat :: SavedAfter(max, t, ms, j, state)
  }

  ghost predicate Inv(s: System) {
    && Valid(s.max, s.initial)
    && s.tracker == Run(s.max, s.initial, s.markers).0
    && (s.saving.Some? ==> IsSave(s.max, s.initial, s.markers, s.saving.value))
    && (forall k :: 0 <= k < |s.writer.accepted| ==>
          IsSave(s.max, s.initial, s.markers, s.writer.accepted[k]))
    && W.Inv(s.writer)
  }

  lemma SavesStaySaves(max: nat, t: Tracker, ms: seq<Marker>, m: Marker, state: SessionState)
    requires Valid(max, t) && IsSave(max, t, ms, state)
    ensures IsSave(max, t, ms + [m], state)
  {
    var j: nat :| SavedAfter(max, t, ms, j, state);
    assert 0 < j <= |ms|;
    assert (ms + [m])[..j] == ms[..j] && (ms + [m])[..j - 1] == ms[..j - 1];
    assert SavedAfter(max, t, ms + [m], j, state);
  }

  lemma OscKeepsInv(s: System, m: Marker)
    requires Inv(s) && Enabled(s, Osc(m))
    ensures Inv(Apply(s, Osc(m)))
  {
    var ms := s.markers + [m];
    var v := Apply(s, Osc(m));
    assert ms[..|ms| - 1] == s.markers && ms[..|ms|] == ms;
    assert v.tracker == Run(s.max, s.initial, ms).0;
    if v.saving.Some? {
      assert SavedAfter(s.max, s.initial, ms, |ms|, v.saving.value);
    }
    forall k | 0 <= k < |s.writer.accepted|
      ensures IsSave(s.max, s.initial, ms, s.writer.accepted[k])
    {
      SavesStaySaves(s.max, s.initial, s.markers, m, s.writer.accepted[k]);
    }
  }

  lemma OnlyCaptureLogs(w: W.Writer, st: W.Step)
    requires W.Enabled(w, st) && !st.Capture?
    ensures W.Apply(w, st).accepted == w.accepted && W.Apply(w, st).base == w.base
  {
    if !st.Rename? && !st.FlushCopy? && !st.WriteTmp? {
      W.OtherStepsLeaveLog(w, st);
    }
  }

  lemma StepKeepsInv(s: System, st: Step)
    requires Inv(s) && Enabled(s, st)
    ensures Inv(Apply(s, st))
  {
    match st
    case Osc(m) => OscKeepsInv(s, m);
    case Save => W.StepKeepsInv(s.writer, W.Capture(s.saving.value));
    case Write(w) =>
      W.StepKeepsInv(s.writer, w);
      OnlyCaptureLogs(s.writer, w);
  }

  lemma {:induction false} EveryRun(s: System, steps: seq<Step>)
    requires Inv(s) && Exec(s, steps).Some?
    ensures var v := Exec(s, steps).value;
            Inv(v) && v.max == s.max && v.initial == s.initial && v.writer.base == s.writer.base
    decreases |steps|
  {
    if steps != [] {
      StepKeepsInv(s, steps[0]);
      if steps[0].Write? {
        OnlyCaptureLogs(s.writer, steps[0].st);
      }
      EveryRun(Apply(s, steps[0]), steps[1..]);
    }
  }

  // ----- The recovered tracker -----

  /** Every command closed by the first `j` markers, oldest first, after what the tracker started with. */
  function EverAppended(max: nat, t: Tracker, ms: seq<Marker>, j: nat): seq<Command>
    requires Valid(max, t) && j <= |ms|
  {
    t.history + Closed(Run(max, t, ms[..j]).1)
  }

  /** The command the saving marker itself opened: only a C does that. */
  function OpenedBy(max: nat, t: Tracker, ms: seq<Marker>, j: nat, now: Time): seq<Command>
    requires Valid(max, t) && 0 < j <= |ms|
  {
    var m := ms[j - 1];
    if m.code == 'C' then [Command(m.then_, now, -1, m.row, m.row, true, ORPHAN_DAEMON_RESTART)] else []
  }

  lemma FinishingMarker(max: nat, t: Tracker, m: Marker)
    requires Valid(max, t) && HasFinished(Handle(max, t, m).1)
    ensures t.phase == CommandRunning
    ensures Handle(max, t, m).0.current == if m.code == 'C' then Some(Open(m.then_, m.row)) else None
  {
    HandleClosed(max, t, m);
  }

  lemma RecoveredFromSave(max: nat, id: string, t: Tracker, ms: seq<Marker>, j: nat, state: SessionState, now: Time)
    requires Valid(max, t) && SavedAfter(max, t, ms, j, state)
    ensures Recover(max, id, Some(state), now) == RestoredAs(Tracker(Idle, None,
              LastN(max, EverAppended(max, t, ms, j) + OpenedBy(max, t, ms, j, now))))
  {
    var before := Run(max, t, ms[..j - 1]).0;
    assert ms[..j][..j - 1] == ms[..j - 1];
    FinishingMarker(max, before, ms[j - 1]);
    HistoryIsWindow(max, t, ms[..j]);
    RestoredIsWindow(max, state, now);
    RecoverReadsBack(max, id, state, now);
    LastNOfWindow(max, EverAppended(max, t, ms, j), OpenedBy(max, t, ms, j, now));
  }

  /** Crash recovery. Stop any run of one daemon lifetime at any point, with any
      I/O failures: either the file is the one found at boot, or it is exactly
      one state saved after a Finished event, and restoring it gives an idle
      tracker with the newest `max` of everything appended up to that event plus,
      when the event came from a C marker, the command that marker opened, closed
      as a daemon_restart orphan. */
  lemma CrashLeavesOneSave(max: nat, id: string, t: Tracker, disk: Option<SessionState>, steps: seq<Step>, now: Time)
    requires Valid(max, t) && Exec(Boot(max, t, disk), steps).Some?
    ensures var s := Exec(Boot(max, t, disk), steps).value;
            || s.writer.disk == disk
            || exists j: nat :: 0 < j <= |s.markers|
                 && s.writer.disk.Some? && SavedAfter(max, t, s.markers, j, s.writer.disk.value)
                 && Recover(max, id, s.writer.disk, now) == RestoredAs(Tracker(Idle, None,
                      LastN(max, EverAppended(max, t, s.markers, j) + OpenedBy(max, t, s.markers, j, now))))
  {
    var s0 := Boot(max, t, disk);
    EveryRun(s0, steps);
    var s := Exec(s0, steps).value;
    if s.writer.disk != disk {
      var state := s.writer.accepted[W.OnDisk(s.writer)];
      assert IsSave(max, t, s.markers, state);
      var j: nat :| SavedAfter(max, t, s.markers, j, state);
      RecoveredFromSave(max, id, t, s.markers, j, state, now);
    }
  }
}
