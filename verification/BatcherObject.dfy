/** The Batcher object: its fields and the critical sections that update them,
    each performing one step of Pipeline (internal/session/batcher.go). */
module BatcherObject {
  import opened Prelude
  import P = Pipeline

  const DEFAULT_FLUSH_THRESHOLD := 32 * 1024

  class Batcher {
    var buf: seq<byte>
    var flushThreshold: int
    var flush: bool  // the one slot of the flush channel
    var closes: nat  // how often the done channel has been closed; a second time panics

    /** The object holds the batcher's share of the pipeline state. */
    ghost predicate Holds(s: P.State)
      reads this
    {
      s.pending == buf && s.threshold == flushThreshold && s.token == flush && s.closes == closes
    }

    constructor ()
      ensures forall high, low :: Holds(P.Start(DEFAULT_FLUSH_THRESHOLD, high, low))
    {
      buf, flushThreshold, flush, closes := [], DEFAULT_FLUSH_THRESHOLD, false, 0;
    }

    /** Add under the mutex; the caller goes on to Signal when `over`. */
    method AddLocked(data: seq<byte>, ghost s: P.State) returns (over: bool)
      requires Holds(s) && data != [] && s.inHand == data
      modifies this
      ensures Holds(P.Apply(s, P.Add))
      ensures over <==> 0 < flushThreshold <= |buf|
      ensures over == (P.Apply(s, P.Add).signalling == s.signalling + 1)
    {
      buf := buf + data;
      over := flushThreshold > 0 && |buf| >= flushThreshold;
    }

    /** A non-blocking send: the token is left if the slot is free, and dropped if not. */
    method Send(ghost s: P.State)
      requires Holds(s)
      modifies this
      ensures Holds(P.Apply(s, P.FlushNow))
      ensures 0 < s.signalling ==> Holds(P.Apply(s, P.Signal))
    {
      if !flush {
        flush := true;
      }
    }

    /** The first half of Stop: whether this call goes on to close the channel. */
    method StopChecks(ghost s: P.State) returns (goesOn: bool)
      requires Holds(s)
      ensures Holds(P.Apply(s, P.CheckDone))
      ensures goesOn <==> P.Apply(s, P.CheckDone).stopping == s.stopping + 1
    {
      goesOn := closes == 0;
    }

    /** The second half: nothing keeps another call from having closed it meanwhile. */
    method StopCloses(ghost s: P.State)
      requires Holds(s) && 0 < s.stopping
      modifies this
      ensures Holds(P.Apply(s, P.CloseDone))
    {
      closes := closes + 1;
    }

    method Receive(ghost s: P.State)
      requires Holds(s) && flush && s.loop == P.Waiting
      modifies this
      ensures Holds(P.Apply(s, P.TakeToken))
    {
      flush := false;
    }

    /** doFlush under the mutex: the batch handed to onFlush, empty for none. */
    method Drain(ghost s: P.State) returns (out: seq<byte>)
      requires Holds(s) && s.loop == P.Woken
      modifies this
      ensures Holds(P.Apply(s, P.DrainBatch)) && out == P.Transit(P.Apply(s, P.DrainBatch))
    {
      if |buf| == 0 {
        return [];
      }
      out, buf := buf, [];
    }
  }
}
