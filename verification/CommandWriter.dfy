/** The Writer object: each method is one atomic section of
    internal/platform/commands/writer.go and performs exactly one step of the
    protocol, so the theorems of WriterProtocol hold of every interleaving. */
module CommandWriter {
  import opened Prelude
  import opened Lifecycle
  import W = WriterProtocol

  /** Where the run goroutine stands. */
  datatype Point = AtSelect | AtFlush | AfterCopy | AfterTmp | Done

  class Writer {
    // guarded by mu
    var pending: SessionState
    var hasState: bool
    var closed: bool
    // channels: one token in notifyCh, whether closeCh is closed, Updates still to send
    var notify: bool
    var closeSignalled: bool
    var signalling: nat
    // the run goroutine
    var timer: W.Timer
    var armed: bool
    var at: Point
    var final: bool
    var copied: SessionState
    // the file system
    var tmp: Option<SessionState>
    var disk: Option<SessionState>
    // history, for the specification only
    ghost var base: Option<SessionState>
    ghost var accepted: seq<SessionState>
    ghost var written: seq<nat>
    ghost var failed: bool
    ghost var carrying: nat

    ghost function Pc(): W.Pc
      reads this
    {
      match at
      case AtSelect => W.Selecting
      case AtFlush => W.Flushing(W.Entered, final)
      case AfterCopy => W.Flushing(W.Copied(carrying), final)
      case AfterTmp => W.Flushing(W.TmpWritten(carrying), final)
      case Done => W.Exited
    }

    ghost function State(): W.Writer
      reads this
    {
      W.Writer(if hasState then Some(pending) else None, closed, closeSignalled, signalling, notify,
               timer, armed, Pc(), tmp, disk, base, accepted, written, failed)
    }

    /** The real fields agree with the history; WriterProtocol.Inv says the rest. */
    ghost predicate Valid()
      reads this
    {
      && (hasState <==> accepted != [])
      && (hasState ==> pending == accepted[|accepted| - 1])
      && (at == AfterCopy || at == AfterTmp ==> carrying < |accepted| && copied == accepted[carrying])
    }

    constructor (onDisk: Option<SessionState>)
      ensures Valid() && State() == W.Start(onDisk)
    {
      pending, hasState, closed := SessionState([], None), false, false;
      notify, closeSignalled, signalling := false, false, 0;
      timer, armed, at, final, copied := W.Stopped, false, AtSelect, false, SessionState([], None);
      tmp, disk := None, onDisk;
      base, accepted, written, failed, carrying := onDisk, [], [], false, 0;
    }

    /** Update, first half: capture under the mutex, or nothing after Close. */
    method Capture(state: SessionState)
      requires Valid()
      modifies this
      ensures Valid() && State() == W.Apply(old(State()), W.Capture(state))
    {
      if closed {
        return;
      }
      pending, hasState := state, true;
      signalling, accepted := signalling + 1, accepted + [state];
    }

    /** Update, second half: the non-blocking send leaves exactly one token. */
    method Signal()
      requires Valid() && 0 < signalling
      modifies this
      ensures Valid() && State() == W.Apply(old(State()), W.Signal)
    {
      notify, signalling := true, signalling - 1;
    }

    /** Close, first half. A second Close returns at once. */
    method CloseMark() returns (first: bool)
      requires Valid()
      modifies this
      ensures Valid() && first == !old(closed)
      ensures State() == if first then W.Apply(old(State()), W.CloseMark) else old(State())
    {
      first := !closed;
      if first {
        closed := true;
      }
    }

    method CloseSignal()
      requires Valid() && closed && !closeSignalled
      modifies this
      ensures Valid() && State() == W.Apply(old(State()), W.CloseSignal)
    {
      closeSignalled := true;
    }

    /** run: the notifyCh arm starts the timer unless it is already running. */
    method TakeNotify()
      requires Valid() && at == AtSelect && notify
      modifies this
      ensures Valid() && State() == W.Apply(old(State()), W.TakeNotify)
    {
      notify := false;
      if !armed {
        timer, armed := W.Armed, true;
      }
    }

    method TakeTimer()
      requires Valid() && at == AtSelect && timer == W.Fired
      modifies this
      ensures Valid() && State() == W.Apply(old(State()), W.TakeTimer)
    {
      timer, armed, at, final := W.Stopped, false, AtFlush, false;
    }

    method TakeFlushRequest()
      requires Valid() && at == AtSelect
      modifies this
      ensures Valid() && State() == W.Apply(old(State()), W.TakeFlushRequest)
    {
      if armed {
        armed, timer := false, W.Stopped;
      }
      at, final := AtFlush, false;
    }

    method TakeClose()
      requires Valid() && at == AtSelect && closeSignalled
      modifies this
      ensures Valid() && State() == W.Apply(old(State()), W.TakeClose)
    {
      if armed {
        timer := W.Stopped;
      }
      at, final := AtFlush, true;
    }

    /** flushOnce under the mutex: leave if nothing was captured, else deep-copy it. */
    method FlushCopy()
      requires Valid() && at == AtFlush
      modifies this
      ensures Valid()
      ensures State() == W.Apply(old(State()), if old(hasState) then W.FlushCopy else W.FlushNothing)
    {
      if !hasState {
        at := if final then Done else AtSelect;
        return;
      }
      copied := SessionState(pending.history, pending.inFlight);
      at, carrying := AfterCopy, |accepted| - 1;
    }

    method WriteTmp(ok: bool)
      requires Valid() && at == AfterCopy
      modifies this
      ensures Valid() && State() == W.Apply(old(State()), W.WriteTmp(ok))
    {
      if ok {
        tmp, at := Some(copied), AfterTmp;
      } else {
        failed, at := true, if final then Done else AtSelect;
      }
    }

    method Rename(ok: bool)
      requires Valid() && at == AfterTmp
      modifies this
      ensures Valid() && State() == W.Apply(old(State()), W.Rename(ok))
    {
      if ok {
        disk, written := tmp, written + [carrying];
      } else {
        failed := true;
      }
      tmp, at := None, if final then Done else AtSelect;
    }
  }
}
