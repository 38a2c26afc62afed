/** The debounced commands.json writer as a transition system over its atomic
    sections: callers of Update and Close, the timer, and the run goroutine
    (internal/platform/commands/writer.go). */
module WriterProtocol {
  import opened Prelude
  import opened Lifecycle

  datatype Timer = Stopped | Armed | Fired

  /** Inside flushOnce: entered, state `k` copied under the lock, tmpfile written. */
  datatype Stage = Entered | Copied(k: nat) | TmpWritten(k: nat)

  datatype Pc = Selecting | Flushing(stage: Stage, final: bool) | Exited

  /** `accepted` logs every state captured by Update, `written` the indices
      renamed into place, `failed` whether any write or rename failed; `base` is
      the file found on disk when the writer started. */
  datatype Writer = Writer(
    pending: Option<SessionState>, closed: bool, closeSignalled: bool,
    signalling: nat, notify: bool, timer: Timer, armed: bool, pc: Pc,
    tmp: Option<SessionState>, disk: Option<SessionState>,
    base: Option<SessionState>, accepted: seq<SessionState>, written: seq<nat>, failed: bool)

  function Start(base: Option<SessionState>): Writer {
    Writer(None, false, false, 0, false, Stopped, false, Selecting, None, base, base, [], [], false)
  }

  datatype Step =
    | Capture(state: SessionState)  // Update, under the mutex
    | Signal                        // Update, non-blocking send on notifyCh
    | CloseMark                     // Close, under the mutex
    | CloseSignal                   // Close, close(closeCh)
    | TimerFires
    | TakeNotify | TakeTimer | TakeFlushRequest | TakeClose
    | FlushNothing | FlushCopy | WriteTmp(ok: bool) | Rename(ok: bool)

  predicate Enabled(w: Writer, st: Step) {
    match st
    case Capture(_) => true
    case Signal => 0 < w.signalling
    case CloseMark => !w.closed
    case CloseSignal => w.closed && !w.closeSignalled
    case TimerFires => w.timer == Armed
    case TakeNotify => w.pc == Selecting && w.notify
    case TakeTimer => w.pc == Selecting && w.timer == Fired
    case TakeFlushRequest => w.pc == Selecting
    case TakeClose => w.pc == Selecting && w.closeSignalled
    case FlushNothing => w.pc.Flushing? && w.pc.stage.Entered? && w.pending.None?
    case FlushCopy => w.pc.Flushing? && w.pc.stage.Entered? && w.pending.Some? && w.accepted != []
    case WriteTmp(_) => w.pc.Flushing? && w.pc.stage.Copied? && w.pc.stage.k < |w.accepted|
    case Rename(_) => w.pc.Flushing? && w.pc.stage.TmpWritten?
  }

  /** flushOnce returns: to the select, or out of run after the close flush. */
  function Return(pc: Pc): Pc
    requires pc.Flushing?
  {
    if pc.final then Exited else Selecting
  }

  function Apply(w: Writer, st: Step): Writer
    requires Enabled(w, st)
  {
    match st
    case Capture(s) =>
      if w.closed then w
      else w.(pending := Some(s), accepted := w.accepted + [s], signalling := w.signalling + 1)
    case Signal => w.(notify := true, signalling := w.signalling - 1)
    case CloseMark => w.(closed := true)
    case CloseSignal => w.(closeSignalled := true)
    case TimerFires => w.(timer := Fired)
    case TakeNotify =>
      if w.armed then w.(notify := false) else w.(notify := false, timer := Armed, armed := true)
    case TakeTimer => w.(timer := Stopped, armed := false, pc := Flushing(Entered, false))
    case TakeFlushRequest =>
      if w.armed then w.(armed := false, timer := Stopped, pc := Flushing(Entered, false))
      else w.(pc := Flushing(Entered, false))
    case TakeClose =>
      if w.armed then w.(timer := Stopped, pc := Flushing(Entered, true))
      else w.(pc := Flushing(Entered, true))
    case FlushNothing => w.(pc := Return(w.pc))
    case FlushCopy => w.(pc := Flushing(Copied(|w.accepted| - 1), w.pc.final))
    case WriteTmp(ok) =>
      if ok then w.(tmp := Some(w.accepted[w.pc.stage.k]), pc := Flushing(TmpWritten(w.pc.stage.k), w.pc.final))
      else w.(failed := true, pc := Return(w.pc))
    case Rename(ok) =>
      if ok then w.(disk := w.tmp, tmp := None, written := w.written + [w.pc.stage.k], pc := Return(w.pc))
      else w.(tmp := None, failed := true, pc := Return(w.pc))
  }

  /** The state reached by a run, or None if some step was not enabled. */
  function Exec(w: Writer, steps: seq<Step>): Option<Writer>
    decreases |steps|
  {
    if steps == [] then Some(w)
    else if Enabled(w, steps[0]) then Exec(Apply(w, steps[0]), steps[1..])
    else None
  }

  function Newest(w: Writer): int {
    |w.accepted| - 1
  }

  function OnDisk(w: Writer): int {
    if w.written == [] then -1 else w.written[|w.written| - 1]
  }

  /** The captured state a flush in progress is carrying. */
  function InFlush(w: Writer): int {
    if w.pc.Flushing? && !w.pc.stage.Entered? then w.pc.stage.k else -1
  }

  predicate AboutToFlush(w: Writer) {
    w.pc.Flushing? && w.pc.stage.Entered?
  }

  /** Something that will make run flush again. */
  predicate LiveWake(w: Writer) {
    w.notify || w.timer != Stopped || 0 < w.signalling || AboutToFlush(w)
  }

  predicate Rising(s: seq<nat>) {
    forall i, j :: 0 <= i < j < |s| ==> s[i] <= s[j]
  }

  lemma RisingAppend(s: seq<nat>, k: nat)
    requires Rising(s) && (s != [] ==> s[|s| - 1] <= k)
    ensures Rising(s + [k])
  {
    assert forall i :: 0 <= i < |s| ==> s[i] <= k;
  }

  /** What is captured, what is written, and what the flush carries. */
  predicate Logged(w: Writer) {
    && w.pending == (if w.accepted == [] then None else Some(w.accepted[Newest(w)]))
    && Rising(w.written) && OnDisk(w) <= Newest(w)
    && w.disk == (if w.written == [] then w.base else Some(w.accepted[OnDisk(w)]))
    && InFlush(w) <= Newest(w)
    && (0 <= InFlush(w) ==> OnDisk(w) <= InFlush(w))
    && (w.pc.Flushing? && w.pc.stage.TmpWritten? ==> w.tmp == Some(w.accepted[w.pc.stage.k]))
  }

  /** run's local flag mirrors the timer, and only a closed writer runs its last flush. */
  predicate Control(w: Writer) {
    && (w.pc == Selecting || (w.pc.Flushing? && !w.pc.final) ==> (w.armed <==> w.timer != Stopped))
    && (w.closeSignalled ==> w.closed)
    && (w.pc.Exited? || (w.pc.Flushing? && w.pc.final) ==> w.closeSignalled)
    && (w.pc.Flushing? && w.pc.final && 0 <= InFlush(w) ==> InFlush(w) == Newest(w))
  }

  predicate Woken(w: Writer) {
    !w.failed && OnDisk(w) < Newest(w) && InFlush(w) < Newest(w) ==> LiveWake(w) && !w.pc.Exited?
  }

  predicate Inv(w: Writer) {
    Logged(w) && Control(w) && Woken(w)
  }

  lemma CaptureKeepsLogged(w: Writer, s: SessionState)
    requires Logged(w)
    ensures Logged(Apply(w, Capture(s)))
  {
    var v := Apply(w, Capture(s));
    assert !w.closed ==> v.accepted[Newest(v)] == s;
    assert forall i :: 0 <= i < |w.accepted| ==> v.accepted[i] == w.accepted[i];
  }

  lemma RenameKeepsLogged(w: Writer, ok: bool)
    requires Logged(w) && Enabled(w, Rename(ok))
    ensures Logged(Apply(w, Rename(ok)))
  {
    RisingAppend(w.written, w.pc.stage.k);
    assert (w.written + [w.pc.stage.k])[|w.written|] == w.pc.stage.k;
  }

  lemma CopyKeepsLogged(w: Writer)
    requires Logged(w) && Enabled(w, FlushCopy)
    ensures Logged(Apply(w, FlushCopy))
  {
    assert InFlush(Apply(w, FlushCopy)) == Newest(w);
  }

  lemma WriteTmpKeepsLogged(w: Writer, ok: bool)
    requires Logged(w) && Enabled(w, WriteTmp(ok))
    ensures Logged(Apply(w, WriteTmp(ok)))
  {
    assert InFlush(Apply(w, WriteTmp(ok))) == if ok then InFlush(w) else -1;
  }

  /** No other step touches the logs, the disk or a flush that carries a state. */
  lemma OtherStepsLeaveLog(w: Writer, st: Step)
    requires Enabled(w, st) && !st.Capture? && !st.Rename? && !st.FlushCopy? && !st.WriteTmp?
    ensures var v := Apply(w, st);
            && v.accepted == w.accepted && v.written == w.written && v.pending == w.pending
            && v.disk == w.disk && v.base == w.base && v.tmp == w.tmp
            && (InFlush(v) == -1 || v.pc == w.pc)
  {
  }

  lemma StepKeepsLogged(w: Writer, st: Step)
    requires Logged(w) && Enabled(w, st)
    ensures Logged(Apply(w, st))
  {
    if st.Capture? {
      CaptureKeepsLogged(w, st.state);
    } else if st.Rename? {
      RenameKeepsLogged(w, st.ok);
    } else if st.FlushCopy? {
      CopyKeepsLogged(w);
    } else if st.WriteTmp? {
      WriteTmpKeepsLogged(w, st.ok);
    } else {
      OtherStepsLeaveLog(w, st);
    }
  }

  lemma StepKeepsControl(w: Writer, st: Step)
    requires Control(w) && Enabled(w, st)
    ensures Control(Apply(w, st))
  {
  }

  lemma StepKeepsWoken(w: Writer, st: Step)
    requires Logged(w) && Control(w) && Woken(w) && Enabled(w, st)
    ensures Woken(Apply(w, st))
  {
  }

  lemma StepKeepsInv(w: Writer, st: Step)
    requires Inv(w) && Enabled(w, st)
    ensures Inv(Apply(w, st)) && Apply(w, st).base == w.base
  {
    StepKeepsLogged(w, st);
    StepKeepsControl(w, st);
    StepKeepsWoken(w, st);
  }

  lemma {:induction false} EveryRun(w: Writer, steps: seq<Step>)
    requires Inv(w) && Exec(w, steps).Some?
    ensures Inv(Exec(w, steps).value) && Exec(w, steps).value.base == w.base
    decreases |steps|
  {
    hide Inv, Apply, Enabled;
    if steps != [] {
      StepKeepsInv(w, steps[0]);
      EveryRun(Apply(w, steps[0]), steps[1..]);
    }
  }

  /** No lost wake-up: over every run with successful I/O, a captured state newer
      than the disk and than the flush in progress has a live wake source. */
  lemma NoLostUpdate(base: Option<SessionState>, steps: seq<Step>)
    requires Exec(Start(base), steps).Some?
    ensures var w := Exec(Start(base), steps).value;
            !w.failed && OnDisk(w) < Newest(w) && InFlush(w) < Newest(w) ==> LiveWake(w) && !w.pc.Exited?
  {
    EveryRun(Start(base), steps);
  }

  /** States reach the disk in Update order, and the file is always one whole
      accepted state (or what was there at start), whatever I/O fails. */
  lemma DiskFollowsUpdateOrder(base: Option<SessionState>, steps: seq<Step>)
    requires Exec(Start(base), steps).Some?
    ensures var w := Exec(Start(base), steps).value;
            && Rising(w.written)
            && (w.disk == base || exists k :: 0 <= k < |w.accepted| && w.disk == Some(w.accepted[k]))
  {
    EveryRun(Start(base), steps);
    var w := Exec(Start(base), steps).value;
    if w.written != [] {
      assert w.disk == Some(w.accepted[OnDisk(w)]);
    }
  }

  /** The Close call that set `closed` returns once run has exited. */
  predicate CloseReturned(w: Writer) {
    w.closed && w.closeSignalled && w.pc.Exited?
  }

  function LastAccepted(w: Writer): Option<SessionState> {
    if w.accepted == [] then w.base else Some(w.accepted[Newest(w)])
  }

  lemma {:induction false} ExitedStays(w: Writer, steps: seq<Step>)
    requires Inv(w) && CloseReturned(w) && Exec(w, steps).Some?
    ensures var v := Exec(w, steps).value;
            CloseReturned(v) && v.disk == w.disk && v.accepted == w.accepted && v.failed == w.failed
    decreases |steps|
  {
    if steps != [] {
      StepKeepsInv(w, steps[0]);
      ExitedStays(Apply(w, steps[0]), steps[1..]);
    }
  }

  /** When Close returns, and for ever after, the disk is the last accepted Update. */
  lemma CloseFlushesEverything(base: Option<SessionState>, steps: seq<Step>, more: seq<Step>)
    requires Exec(Start(base), steps).Some?
    requires var w := Exec(Start(base), steps).value; CloseReturned(w) && !w.failed && Exec(w, more).Some?
    ensures var w := Exec(Start(base), steps).value;
            var v := Exec(w, more).value;
            v.disk == LastAccepted(w) == LastAccepted(v)
  {
    EveryRun(Start(base), steps);
    var w := Exec(Start(base), steps).value;
    ExitedStays(w, more);
    EveryRun(w, more);
  }

  // ----- The wake sources really lead to a write -----

  /** Steps the program takes on its own, with successful I/O: no new caller. */
  predicate Internal(st: Step) {
    match st
    case Signal => true
    case TimerFires => true
    case TakeNotify => true
    case TakeTimer => true
    case FlushCopy => true
    case WriteTmp(ok) => ok
    case Rename(ok) => ok
    case _ => false
  }

  function Rank(w: Writer): nat {
    if OnDisk(w) == Newest(w) then 0
    else
      (if w.pc.Flushing? then
        match w.pc.stage case Entered => 3 case Copied(_) => 2 case TmpWritten(_) => 1
       else 0) +
      (if AboutToFlush(w) || InFlush(w) == Newest(w) then 0
       else if w.timer == Fired then 10 else if w.timer == Armed then 11
       else if w.notify then 12 else 13)
  }

  /** The step the program takes next towards writing the newest state. */
  function Towards(w: Writer): Step {
    match w.pc
    case Flushing(Entered, _) => FlushCopy
    case Flushing(Copied(_), _) => WriteTmp(true)
    case Flushing(TmpWritten(_), _) => Rename(true)
    case _ =>
      if w.timer == Fired then TakeTimer
      else if w.timer == Armed then TimerFires
      else if w.notify then TakeNotify
      else Signal
  }

  lemma TowardsAdvances(w: Writer)
    requires Inv(w) && !w.failed && OnDisk(w) < Newest(w)
    ensures Enabled(w, Towards(w)) && Internal(Towards(w))
    ensures var v := Apply(w, Towards(w));
            !v.failed && v.accepted == w.accepted && Rank(v) < Rank(w)
  {
  }

  /** From every reachable state with successful I/O so far, the program on its
      own brings the newest captured state to disk: nothing waits for a later Update. */
  lemma {:induction false} EveryUpdatePersists(w: Writer) returns (steps: seq<Step>)
    requires Inv(w) && !w.failed
    ensures forall st <- steps :: Internal(st)
    ensures Exec(w, steps).Some?
    ensures var v := Exec(w, steps).value; v.accepted == w.accepted && OnDisk(v) == Newest(v)
    decreases Rank(w)
  {
    if OnDisk(w) == Newest(w) {
      steps := [];
    } else {
      TowardsAdvances(w);
      StepKeepsInv(w, Towards(w));
      var rest := EveryUpdatePersists(Apply(w, Towards(w)));
      steps := [Towards(w)] + rest;
      assert steps[1..] == rest;
    }
  }

  // ----- What Flush promises -----

  predicate Succeeds(st: Step) {
    st != WriteTmp(false) && st != Rename(false)
  }

  /** The flush in progress will bring a state at least as new as number `n` to disk. */
  predicate Carries(w: Writer, n: int) {
    w.pc.Flushing? && n <= if w.pc.stage.Entered? then Newest(w) else w.pc.stage.k
  }

  lemma CarriesStep(w: Writer, st: Step, n: int)
    requires Logged(w) && Enabled(w, st) && Succeeds(st) && Carries(w, n)
    ensures var v := Apply(w, st); if v.pc.Flushing? then Carries(v, n) else n <= OnDisk(v)
  {
  }

  /** From taking a flush request to its answer: run stays in flushOnce until the last step. */
  predicate Answers(w: Writer, steps: seq<Step>)
    decreases |steps|
  {
    && steps != [] && Enabled(w, steps[0]) && Succeeds(steps[0])
    && var v := Apply(w, steps[0]);
    if |steps| == 1 then !v.pc.Flushing? else v.pc.Flushing? && Answers(v, steps[1..])
  }

  lemma {:induction false} AnsweredIsOnDisk(w: Writer, steps: seq<Step>, n: int)
    requires Inv(w) && Carries(w, n) && Answers(w, steps)
    ensures Exec(w, steps).Some? && n <= OnDisk(Exec(w, steps).value) && Inv(Exec(w, steps).value)
    decreases |steps|
  {
    CarriesStep(w, steps[0], n);
    StepKeepsInv(w, steps[0]);
    hide Apply, Enabled, Inv, Carries, OnDisk, Succeeds;
    var v := Apply(w, steps[0]);
    if |steps| == 1 {
      assert steps[1..] == [];
      assert Exec(v, []) == Some(v);
    } else {
      AnsweredIsOnDisk(v, steps[1..], n);
    }
  }

  /** When Flush returns without error, whatever was captured, signalled or closed beside it, the disk
      holds a state at least as new as every Update captured before the request was taken. */
  lemma FlushIsDurable(base: Option<SessionState>, before: seq<Step>, steps: seq<Step>)
    requires Exec(Start(base), before).Some? && Enabled(Exec(Start(base), before).value, TakeFlushRequest)
    requires Answers(Apply(Exec(Start(base), before).value, TakeFlushRequest), steps)
    ensures var w := Exec(Start(base), before).value;
            var v := Exec(Apply(w, TakeFlushRequest), steps);
            && v.Some? && Newest(w) <= OnDisk(v.value) < |v.value.accepted|
            && (0 <= Newest(w) ==> v.value.disk == Some(v.value.accepted[OnDisk(v.value)]))
  {
    EveryRun(Start(base), before);
    var w := Exec(Start(base), before).value;
    StepKeepsInv(w, TakeFlushRequest);
    AnsweredIsOnDisk(Apply(w, TakeFlushRequest), steps, Newest(w));
  }
}
