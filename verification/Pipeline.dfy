/** The output path PTY reader -> Batcher -> Buffer -> ReadOutput as interleaved
    atomic steps (internal/session/batcher.go, internal/session/service.go). */
module Pipeline {
  import opened Prelude
  import B = Backpressure

  /** The batcher goroutine: at its select, woken and about to drain, holding a
      drained batch on its way to onFlush, or gone after Stop. */
  datatype Loop = Waiting | Woken | Delivering(batch: seq<byte>) | Gone

  /** `source` logs every byte read from the PTY, `delivered` every byte returned
      by ReadOutput; `mayRead` says that readLoop has seen the buffer not paused and
      not yet read; `inHand` is the chunk between process.Read and batcher.Add;
      `signalling` counts Adds between unlock and the send on the flush channel;
      `stopping` counts Stop calls that have found `done` open and not yet closed it,
      `closes` the times it was closed; `killed` says that the session is gone from the map, `readers` counts
      ReadOutput calls that looked it up and have not yet read the buffer. */
  datatype State = State(
    threshold: int, high: int, low: int,
    source: seq<byte>, mayRead: bool, inHand: seq<byte>, pending: seq<byte>,
    signalling: nat, token: bool, stopping: nat, closes: nat, loop: Loop,
    buffer: seq<byte>, paused: bool, killed: bool, readers: nat, delivered: seq<byte>)

  function Start(threshold: int, high: int, low: int): State {
    State(threshold, high, low, [], false, [], [], 0, false, 0, 0, Waiting, [], false, false, 0, [])
  }

  datatype Step =
    | CheckPaused                // readLoop asks the buffer
    | PtyRead(chunk: seq<byte>)  // and reads later, paused meanwhile or not
    | Add                        // under the batcher mutex
    | Signal                     // the non-blocking send after Add
    | FlushNow
    | TakeToken | Tick           // the loop wakes
    | DrainBatch                 // doFlush under the mutex
    | Deliver                    // onFlush: Buffer.Write
    | CheckDone                  // Stop asks whether `done` is closed
    | CloseDone                  // and closes it later
    | LoopExits
    | Lookup                     // ReadOutput finds the session in the map
    | ReadBuffer                 // and drains the buffer later
    | Unlist                     // Kill or waitLoop deletes the map entry, before Stop

  predicate Stopped(s: State) {
    0 < s.closes
  }

  predicate Enabled(s: State, st: Step) {
    match st
    case CheckPaused => s.inHand == []
    case PtyRead(_) => s.inHand == [] && s.mayRead
    case Add => s.inHand != []
    case Signal => 0 < s.signalling
    case TakeToken => s.loop == Waiting && s.token
    case Tick => s.loop == Waiting
    case DrainBatch => s.loop == Woken
    case Deliver => s.loop.Delivering?
    case CloseDone => 0 < s.stopping
    case LoopExits => s.loop == Waiting && Stopped(s)
    case Lookup => !s.killed
    case ReadBuffer => 0 < s.readers
    case _ => true
  }

  predicate Over(s: State) {
    s.threshold > 0 && |s.pending| >= s.threshold
  }

  function Gauge(s: State): B.Gauge {
    B.Gauge(|s.buffer|, s.paused)
  }

  function Apply(s: State, st: Step): State
    requires Enabled(s, st)
  {
    match st
    case CheckPaused => s.(mayRead := !s.paused)
    case PtyRead(chunk) => s.(source := s.source + chunk, inHand := chunk, mayRead := false)
    case Add =>
      var t := s.(pending := s.pending + s.inHand, inHand := []);
      if Over(t) then t.(signalling := t.signalling + 1) else t
    case Signal => s.(signalling := s.signalling - 1, token := true)
    case FlushNow => s.(token := true)
    case TakeToken => s.(token := false, loop := Woken)
    case Tick => s.(loop := Woken)
    case DrainBatch =>
      if s.pending == [] then s.(loop := Waiting)
      else s.(pending := [], loop := Delivering(s.pending))
    case Deliver =>
      s.(buffer := s.buffer + s.loop.batch, loop := Waiting,
         paused := B.OnWrite(s.high, Gauge(s), |s.loop.batch|).paused)
    case CheckDone => if Stopped(s) then s else s.(stopping := s.stopping + 1)
    case CloseDone => s.(stopping := s.stopping - 1, closes := s.closes + 1)
    case LoopExits => s.(loop := Gone)
    case Lookup => s.(readers := s.readers + 1)
    case ReadBuffer =>
      if s.buffer == [] then s.(readers := s.readers - 1)
      else s.(delivered := s.delivered + s.buffer, buffer := [], readers := s.readers - 1,
              paused := B.GaugeStep(s.high, s.low, Gauge(s), B.Drain).paused)
    case Unlist => s.(killed := true)
  }

  function Exec(s: State, steps: seq<Step>): Option<State>
    decreases |steps|
  {
    if steps == [] then Some(s)
    else if Enabled(s, steps[0]) then Exec(Apply(s, steps[0]), steps[1..])
    else None
  }

  function Transit(s: State): seq<byte> {
    if s.loop.Delivering? then s.loop.batch else []
  }

  predicate Conserved(s: State) {
    s.source == s.delivered + s.buffer + Transit(s) + s.pending + s.inHand
  }

  /** Enough bytes pending means a flush is on its way. */
  predicate FlushComing(s: State) {
    Over(s) && s.loop != Gone ==> s.token || 0 < s.signalling || s.loop == Woken
  }

  predicate Inv(s: State) {
    && Conserved(s)
    && FlushComing(s)
    && (s.loop == Gone ==> Stopped(s))
    && Watermarks(s)
  }

  predicate Moves(st: Step) {
    st.PtyRead? || st.Add? || st.DrainBatch? || st.Deliver? || st.ReadBuffer?
  }

  /** All other steps leave every byte where it is. */
  lemma OthersMoveNothing(s: State, st: Step)
    requires Enabled(s, st) && !Moves(st)
    ensures var t := Apply(s, st);
            && t.source == s.source && t.delivered == s.delivered && t.buffer == s.buffer
            && Transit(t) == Transit(s) && t.pending == s.pending && t.inHand == s.inHand
            && Gauge(t) == Gauge(s)
  {
  }

  lemma InputConserves(s: State, st: Step)
    requires Conserved(s) && Enabled(s, st) && (st.PtyRead? || st.Add?)
    ensures Conserved(Apply(s, st))
  {
    hide Over;
    var front := s.delivered + s.buffer + Transit(s);
    if st.PtyRead? {
      Nothing(front + s.pending);
    } else {
      Assoc(front, s.pending, s.inHand);
      Nothing(front + (s.pending + s.inHand));
    }
  }

  lemma DrainConserves(s: State)
    requires Conserved(s) && Enabled(s, DrainBatch)
    ensures Conserved(Apply(s, DrainBatch))
  {
    Nothing(s.delivered + s.buffer);
    Nothing(s.delivered + s.buffer + s.pending);
  }

  lemma DeliverConserves(s: State)
    requires Conserved(s) && Enabled(s, Deliver)
    ensures Conserved(Apply(s, Deliver))
  {
    hide B.OnWrite;
    Assoc(s.delivered, s.buffer, s.loop.batch);
    Nothing(s.delivered + (s.buffer + s.loop.batch));
  }

  lemma ReadConserves(s: State)
    requires Conserved(s) && Enabled(s, ReadBuffer)
    ensures Conserved(Apply(s, ReadBuffer))
  {
    hide B.GaugeStep;
    Nothing(s.delivered + s.buffer);
  }

  lemma StepConserves(s: State, st: Step)
    requires Conserved(s) && Enabled(s, st)
    ensures Conserved(Apply(s, st))
  {
    if Moves(st) {
      hide Conserved;
      match st
      case PtyRead(_) => InputConserves(s, st);
      case Add => InputConserves(s, st);
      case DrainBatch => DrainConserves(s);
      case Deliver => DeliverConserves(s);
      case ReadBuffer => ReadConserves(s);
    } else {
      OthersMoveNothing(s, st);
    }
  }

  lemma Nothing(a: seq<byte>)
    ensures a + [] == a
  {
  }

  lemma StepKeepsFlushComing(s: State, st: Step)
    requires FlushComing(s) && Enabled(s, st)
    ensures FlushComing(Apply(s, st))
  {
    hide B.GaugeStep, B.OnWrite;
  }

  predicate Watermarks(s: State) {
    0 < s.high && s.low <= s.high ==> B.Hysteresis(s.high, s.low, Gauge(s))
  }

  lemma StepKeepsWatermarks(s: State, st: Step)
    requires Watermarks(s) && Enabled(s, st)
    ensures Watermarks(Apply(s, st))
  {
    hide Over;
    if !Moves(st) {
      OthersMoveNothing(s, st);
    }
  }

  lemma StepKeepsInv(s: State, st: Step)
    requires Inv(s) && Enabled(s, st)
    ensures Inv(Apply(s, st))
  {
    StepConserves(s, st);
    StepKeepsFlushComing(s, st);
    StepKeepsWatermarks(s, st);
    hide Conserved, FlushComing, Watermarks;
  }

  lemma {:induction false} EveryRun(s: State, steps: seq<Step>)
    requires Inv(s) && Exec(s, steps).Some?
    ensures Inv(Exec(s, steps).value)
    decreases |steps|
  {
    if steps != [] {
      StepKeepsInv(s, steps[0]);
      EveryRun(Apply(s, steps[0]), steps[1..]);
    }
  }

  /** No byte is lost, duplicated or reordered on its way, in any interleaving. */
  lemma BytesAreConserved(threshold: int, high: int, low: int, steps: seq<Step>)
    requires Exec(Start(threshold, high, low), steps).Some?
    ensures var s := Exec(Start(threshold, high, low), steps).value;
            && s.source == s.delivered + s.buffer + Transit(s) + s.pending + s.inHand
            && s.delivered <= s.source
  {
    EveryRun(Start(threshold, high, low), steps);
    var s := Exec(Start(threshold, high, low), steps).value;
    assert s.source == s.delivered + (s.buffer + Transit(s) + s.pending + s.inHand);
  }

  /** No lost wake-up despite the non-blocking send on a one-slot channel: whenever
      the pending bytes reach a positive threshold, a flush is on its way. */
  lemma NoLostWakeup(threshold: int, high: int, low: int, steps: seq<Step>)
    requires Exec(Start(threshold, high, low), steps).Some?
    ensures var s := Exec(Start(threshold, high, low), steps).value;
            0 < threshold <= |s.pending| && !Stopped(s) ==> s.token || 0 < s.signalling || s.loop == Woken
  {
    EveryRun(Start(threshold, high, low), steps);
    ThresholdStays(Start(threshold, high, low), steps);
  }

  lemma {:induction false} ThresholdStays(s: State, steps: seq<Step>)
    requires Exec(s, steps).Some?
    ensures Exec(s, steps).value.threshold == s.threshold
    decreases |steps|
  {
    if steps != [] {
      ThresholdStep(s, steps[0]);
      hide Apply, Enabled;
      ThresholdStays(Apply(s, steps[0]), steps[1..]);
    }
  }

  lemma ThresholdStep(s: State, st: Step)
    requires Enabled(s, st)
    ensures Apply(s, st).threshold == s.threshold
  {
    hide B.GaugeStep, B.OnWrite, Over;
  }

  /** An Add asks for a flush if and only if the bytes then pending reach the threshold;
      below it nothing is signalled and the batch waits for the ticker. */
  lemma AddSignalsExactly(s: State)
    requires s.inHand != []
    ensures var t := Apply(s, Add);
            && t.pending == s.pending + s.inHand
            && (t.signalling == s.signalling + 1 <==> 0 < s.threshold <= |s.pending| + |s.inHand|)
            && (t.signalling == s.signalling <==> !(0 < s.threshold <= |s.pending| + |s.inHand|))
  {
  }

  predicate Drains(st: Step) {
    st == ReadBuffer
  }

  lemma PausedStep(s: State, st: Step)
    requires Enabled(s, st) && !Drains(st) && s.paused && !s.mayRead
    ensures Apply(s, st).paused && !Apply(s, st).mayRead && Apply(s, st).source == s.source
  {
    hide Over;
  }

  /** Backpressure: while the buffer is paused and readLoop has asked, no byte is read
      from the PTY in any interleaving, until somebody drains the buffer. */
  lemma {:induction false} PausedStopsReading(s: State, steps: seq<Step>)
    requires s.paused && !s.mayRead && Exec(s, steps).Some? && forall st <- steps :: !Drains(st)
    ensures Exec(s, steps).value.source == s.source
    decreases |steps|
  {
    if steps != [] {
      PausedStep(s, steps[0]);
      hide Apply, Enabled, Drains;
      PausedStopsReading(Apply(s, steps[0]), steps[1..]);
    }
  }

  // ----- When everything read can still be delivered -----

  /** Somebody can still read the buffer, and what has not reached it can still get there. */
  predicate Open(s: State) {
    && (!s.killed || 0 < s.readers)
    && (s.loop != Gone || (s.pending == [] && s.inHand == []))
  }

  function Behind(s: State): nat {
    (if s.inHand != [] then 20 else 0) +
    (if s.pending != [] then 10 else 0) +
    (match s.loop
     case Woken => if s.pending == [] then 2 else 0
     case Delivering(_) => 5
     case _ => 1) +
    (if s.buffer != [] then 2 else 0) +
    (if s.readers == 0 then 1 else 0)
  }

  function Towards(s: State): Step {
    if s.inHand != [] then Add
    else match s.loop
      case Delivering(_) => Deliver
      case Woken => DrainBatch
      case _ => if s.pending != [] then Tick else if s.readers == 0 then Lookup else ReadBuffer
  }

  /** Until only the buffer is left, the next step brings the bytes nearer to it. */
  lemma TowardsMoves(s: State)
    requires Open(s) && Towards(s) != ReadBuffer
    ensures Enabled(s, Towards(s)) && !Towards(s).PtyRead?
    ensures var t := Apply(s, Towards(s)); t.source == s.source && Behind(t) < Behind(s) && Open(t)
  {
    hide B.OnWrite, Over;
  }

  lemma LastReadDelivers(s: State)
    requires Conserved(s) && Open(s) && Towards(s) == ReadBuffer
    ensures Enabled(s, ReadBuffer)
    ensures var t := Apply(s, ReadBuffer); t.source == s.source && t.delivered == s.source
  {
    hide B.GaugeStep;
    assert s.source == s.delivered + s.buffer;
  }

  lemma TowardsAdvances(s: State)
    requires Inv(s) && Open(s) && s.delivered != s.source
    ensures Enabled(s, Towards(s)) && !Towards(s).PtyRead?
    ensures var t := Apply(s, Towards(s));
            && t.source == s.source && (Open(t) || t.delivered == t.source)
            && (t.delivered != t.source ==> Behind(t) < Behind(s))
  {
    hide Open, Behind, Conserved, FlushComing, Watermarks, Enabled, Apply;
    if Towards(s) == ReadBuffer {
      LastReadDelivers(s);
    } else {
      TowardsMoves(s);
    }
  }

  lemma {:induction false} EverythingCanBeDelivered(s: State) returns (steps: seq<Step>)
    requires Inv(s) && (Open(s) || s.delivered == s.source)
    ensures forall st <- steps :: !st.PtyRead?
    ensures Exec(s, steps).Some? && Exec(s, steps).value.delivered == s.source
    decreases if s.delivered == s.source then 0 else 1 + Behind(s)
  {
    hide Apply, Enabled, Inv, Open, Behind;
    if s.delivered == s.source {
      steps := [];
    } else {
      TowardsAdvances(s);
      StepKeepsInv(s, Towards(s));
      var rest := EverythingCanBeDelivered(Apply(s, Towards(s)));
      steps := [Towards(s)] + rest;
      assert steps[1..] == rest;
    }
  }

  /** Once the session is gone from the map and no ReadOutput that found it is left,
      nothing is ever delivered again, however long the batcher runs on. */
  lemma {:induction false} UnlistedDeliversNothing(s: State, steps: seq<Step>)
    requires s.killed && s.readers == 0 && Exec(s, steps).Some?
    ensures Exec(s, steps).value.delivered == s.delivered
    decreases |steps|
  {
    if steps != [] {
      UnlistedDeliversNothing(Apply(s, steps[0]), steps[1..]);
    }
  }

  /** Once the loop has exited, only what the buffer holds can still be delivered. */
  lemma {:induction false} GoneDeliversTheBuffer(s: State, steps: seq<Step>)
    requires s.loop == Gone && Exec(s, steps).Some?
    ensures |Exec(s, steps).value.delivered| <= |s.delivered| + |s.buffer|
    decreases |steps|
  {
    if steps != [] {
      GoneStep(s, steps[0]);
      hide Apply, Enabled;
      GoneDeliversTheBuffer(Apply(s, steps[0]), steps[1..]);
    }
  }

  lemma GoneStep(s: State, st: Step)
    requires s.loop == Gone && Enabled(s, st)
    ensures var t := Apply(s, st); t.loop == Gone && |t.delivered| + |t.buffer| == |s.delivered| + |s.buffer|
  {
    GoneStays(s, st);
    if !Moves(st) {
      OthersMoveNothing(s, st);
      hide Apply;
    } else {
      hide B.GaugeStep, Over;
      assert st.PtyRead? || st.Add? || st.ReadBuffer?;
    }
  }

  lemma GoneStays(s: State, st: Step)
    requires s.loop == Gone && Enabled(s, st)
    ensures Apply(s, st).loop == Gone
  {
    hide B.GaugeStep, B.OnWrite, Over;
  }

  /** It happens: a byte read just before the session is unlisted is never delivered, with the
      batcher still running. */
  lemma StrandedOutput(high: int, low: int, b: byte, more: seq<Step>)
    requires Exec(Start(1, high, low), [CheckPaused, PtyRead([b]), Unlist] + more).Some?
    ensures var s := Exec(Start(1, high, low), [CheckPaused, PtyRead([b]), Unlist] + more).value;
            s.delivered == [] && b in s.source
    ensures Exec(Start(1, high, low), [CheckPaused, PtyRead([b]), Unlist]).Some?
    ensures !Stopped(Exec(Start(1, high, low), [CheckPaused, PtyRead([b]), Unlist]).value)
  {
    var s0 := Start(1, high, low);
    var s1 := Apply(s0, CheckPaused);
    var s2 := Apply(s1, PtyRead([b]));
    var s3 := Apply(s2, Unlist);
    var steps := [CheckPaused, PtyRead([b]), Unlist];
    assert (steps + more)[1..] == [PtyRead([b]), Unlist] + more && steps[1..] == [PtyRead([b]), Unlist];
    assert ([PtyRead([b]), Unlist] + more)[1..] == [Unlist] + more && [PtyRead([b]), Unlist][1..] == [Unlist];
    assert ([Unlist] + more)[1..] == more && [Unlist][1..] == [];
    assert Exec(s3, []) == Some(s3);
    assert Exec(s2, [Unlist]) == Some(s3);
    assert Exec(s2, [Unlist] + more) == Exec(s3, more);
    assert Exec(s1, [PtyRead([b]), Unlist] + more) == Exec(s3, more);
    assert Exec(s1, [PtyRead([b]), Unlist]) == Some(s3);
    UnlistedDeliversNothing(s3, more);
    SourceGrows(s3, more);
    assert s3.source == [b];
    assert Exec(s3, more).value.source[0] == b;
  }

  lemma {:induction false} SourceGrows(s: State, steps: seq<Step>)
    requires Exec(s, steps).Some?
    ensures s.source <= Exec(s, steps).value.source
    decreases |steps|
  {
    if steps != [] {
      SourceStep(s, steps[0]);
      hide Apply, Enabled;
      SourceGrows(Apply(s, steps[0]), steps[1..]);
    }
  }

  lemma SourceStep(s: State, st: Step)
    requires Enabled(s, st)
    ensures s.source <= Apply(s, st).source
  {
    hide B.GaugeStep, B.OnWrite, Over;
  }

  predicate Delivers(s: State, steps: seq<Step>) {
    && (forall st <- steps :: !st.PtyRead?)
    && Exec(s, steps).Some? && Exec(s, steps).value.delivered == s.source
  }

  /** In every reachable state, every byte read so far can still be delivered if and
      only if it already has been, or the buffer still has a reader (the session is
      listed, or a ReadOutput has found it) and no byte waits for a loop that has
      exited. */
  lemma DeliverableExactly(s: State)
    requires Inv(s)
    ensures (exists steps :: Delivers(s, steps)) <==> Open(s) || s.delivered == s.source
  {
    if Open(s) || s.delivered == s.source {
      var steps := EverythingCanBeDelivered(s);
      assert Delivers(s, steps);
    } else {
      forall steps | Exec(s, steps).Some?
        ensures Exec(s, steps).value.delivered != s.source
      {
        if s.killed && s.readers == 0 {
          UnlistedDeliversNothing(s, steps);
        } else {
          GoneDeliversTheBuffer(s, steps);
        }
      }
    }
  }

  // ----- Every read is a lookup's -----

  function Times(steps: seq<Step>, st: Step): nat {
    if steps == [] then 0 else (if steps[0] == st then 1 else 0) + Times(steps[1..], st)
  }

  lemma ReadersStep(s: State, st: Step)
    requires Enabled(s, st)
    ensures Apply(s, st).readers ==
            s.readers + (if st == Lookup then 1 else 0) - (if st == ReadBuffer then 1 else 0)
  {
    hide B.GaugeStep, B.OnWrite, Over;
  }

  /** A ReadOutput call reads the buffer at most once: in every run the reads and the calls still to read
      are as many as the lookups. */
  lemma {:induction false} OneReadPerLookup(s: State, steps: seq<Step>)
    requires Exec(s, steps).Some?
    ensures Times(steps, ReadBuffer) + Exec(s, steps).value.readers == s.readers + Times(steps, Lookup)
    decreases |steps|
  {
    if steps != [] {
      ReadersStep(s, steps[0]);
      hide Apply, Enabled;
      OneReadPerLookup(Apply(s, steps[0]), steps[1..]);
    }
  }

  // ----- Stopping twice -----

  /** In every state of the run at most one Stop call is between its check and its close. */
  predicate OneStopAtATime(s: State, steps: seq<Step>)
    decreases |steps|
  {
    s.stopping <= 1 && (steps != [] && Enabled(s, steps[0]) ==> OneStopAtATime(Apply(s, steps[0]), steps[1..]))
  }

  function Closes(n: nat): seq<Step> {
    if n == 0 then [] else [CloseDone] + Closes(n - 1)
  }

  /** The Stop calls in progress each close the channel, whatever the others did. */
  lemma {:induction false} PendingStopsClose(s: State, n: nat)
    requires n <= s.stopping
    ensures Exec(s, Closes(n)).Some? && Exec(s, Closes(n)).value.closes == s.closes + n
    decreases n
  {
    if n > 0 {
      assert Closes(n)[1..] == Closes(n - 1);
      PendingStopsClose(Apply(s, CloseDone), n - 1);
    }
  }

  /** Letting Stop calls in progress finish closes `done` a second time. */
  ghost predicate Panics(s: State) {
    exists n: nat :: n <= s.stopping && Exec(s, Closes(n)).Some? && Exec(s, Closes(n)).value.closes > 1
  }

  lemma PanicsExactly(s: State)
    ensures Panics(s) <==> s.closes + s.stopping > 1
  {
    forall n: nat | n <= s.stopping
      ensures Exec(s, Closes(n)).Some? && Exec(s, Closes(n)).value.closes == s.closes + n
    {
      PendingStopsClose(s, n);
    }
    assert s.closes + s.stopping > 1 ==> Exec(s, Closes(s.stopping)).value.closes > 1;
  }

  /** In every state of the run `done` has been closed at most once, and the Stop calls in progress
      will not close it again. */
  ghost predicate ClosedOnce(s: State, steps: seq<Step>)
    decreases |steps|
  {
    !Panics(s) && (steps != [] && Enabled(s, steps[0]) ==> ClosedOnce(Apply(s, steps[0]), steps[1..]))
  }

  lemma StopStep(s: State, st: Step)
    requires Enabled(s, st) && s.closes + s.stopping <= 1
    ensures Apply(s, st).stopping <= 1 ==> Apply(s, st).closes + Apply(s, st).stopping <= 1
  {
    hide B.GaugeStep, B.OnWrite, Over;
  }

  lemma {:induction false} StoppedRun(s: State, steps: seq<Step>)
    requires s.closes + s.stopping <= 1
    ensures OneStopAtATime(s, steps) <==> ClosedOnce(s, steps)
    decreases |steps|
  {
    hide Apply, Enabled, Panics;
    PanicsExactly(s);
    if steps != [] && Enabled(s, steps[0]) {
      StopStep(s, steps[0]);
      PanicsExactly(Apply(s, steps[0]));
      if Apply(s, steps[0]).stopping <= 1 {
        StoppedRun(Apply(s, steps[0]), steps[1..]);
      }
    }
  }

  /** "Calling Stop more than once is safe" holds of a run if and only if no two Stop calls are between
      check and close together: a second close would panic. */
  lemma StopIsSafeExactly(threshold: int, high: int, low: int, steps: seq<Step>)
    ensures OneStopAtATime(Start(threshold, high, low), steps) <==> ClosedOnce(Start(threshold, high, low), steps)
  {
    StoppedRun(Start(threshold, high, low), steps);
  }

  const BOTH_STOP: seq<Step> := [Unlist, CheckDone, CheckDone]

  /** A process that exits while it is being killed: Kill and waitLoop both find `done` open, and both
      close it. */
  lemma KillAndExitCloseTwice(threshold: int, high: int, low: int)
    ensures Exec(Start(threshold, high, low), BOTH_STOP).Some?
    ensures var s := Exec(Start(threshold, high, low), BOTH_STOP).value;
            && s.killed && s.closes == 0
            && Exec(s, Closes(2)).Some? && Exec(s, Closes(2)).value.closes == 2
  {
    var s0 := Start(threshold, high, low);
    var s1 := s0.(killed := true);
    var s2 := s1.(stopping := 1);
    var s3 := s1.(stopping := 2);
    assert BOTH_STOP[1..] == [CheckDone, CheckDone] && [CheckDone, CheckDone][1..] == [CheckDone] && [CheckDone][1..] == [];
    assert Exec(s3, []) == Some(s3);
    assert Exec(s2, [CheckDone]) == Some(s3);
    assert Exec(s1, [CheckDone, CheckDone]) == Some(s3);
    PendingStopsClose(s3, 2);
  }
}
