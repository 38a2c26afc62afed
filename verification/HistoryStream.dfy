/** History streaming: the daemon's chunk loop, the wire, the client's demux and `historyReader`. */
module HistoryStream {
  import opened Prelude
  import opened Wire

  const CHUNK_SIZE: nat := 1024 * 1024

  // ---- Daemon side -------------------------------------------------------------------------

  /** The dump limit applies only when it is positive. */
  function Capped(data: seq<byte>, maxDump: int): seq<byte> {
    if maxDump > 0 && |data| > maxDump then data[..maxDump] else data
  }

  /** The cut is a prefix, as long as the limit allows, and only a positive limit cuts. */
  lemma CappedIsPrefix(data: seq<byte>, maxDump: int)
    ensures Capped(data, maxDump) <= data
    ensures maxDump > 0 ==> |Capped(data, maxDump)| == Min(maxDump, |data|)
    ensures maxDump <= 0 ==> Capped(data, maxDump) == data
  {
  }

  function Chunk(payload: seq<byte>): Frame { Frame(PROTOCOL_VERSION, MSG_HISTORY, payload) }

  const END: Frame := Frame(PROTOCOL_VERSION, MSG_HISTORY_END, [])

  function Chunks(data: seq<byte>): (fs: seq<Frame>)
    ensures AllWellFormed(fs)
  {
    if data == [] then []
    else
      var end := Min(CHUNK_SIZE, |data|);
      [Chunk(data[..end])] + Chunks(data[end..])
  }

  /** The whole reply to a history request. */
  function Reply(data: seq<byte>): (fs: seq<Frame>)
    ensures AllWellFormed(fs)
  {
    Chunks(data) + [END]
  }

  /** Write errors are ignored, so a connection that fails takes a prefix of the reply. */
  method SendHistory(snapshot: seq<byte>, maxDump: int, control: Stream)
    modifies control
    ensures control.bytes == old(control.bytes) + Taken(old(control.room), AllBytes(Reply(Capped(snapshot, maxDump))))
  {
    var data := snapshot;
    if maxDump > 0 && |data| > maxDump {
      data := data[..maxDump];
    }
    ghost var all := data;
    ghost var sent: seq<Frame> := [];
    while |data| > 0
      invariant AllWellFormed(sent)
      invariant Chunks(all) == sent + Chunks(data)
      invariant control.bytes == old(control.bytes) + Taken(old(control.room), AllBytes(sent))
      invariant control.room == Left(old(control.room), |AllBytes(sent)|)
      decreases |data|
    {
      var end := CHUNK_SIZE;
      if end > |data| {
        end := |data|;
      }
      var chunk := data[..end];
      data := data[end..];
      Assoc(sent, [Chunk(chunk)], Chunks(data));
      WriteNext(control, old(control.bytes), old(control.room), sent, Chunk(chunk));
      sent := sent + [Chunk(chunk)];
    }
    assert sent + Chunks([]) == sent;
    WriteNext(control, old(control.bytes), old(control.room), sent, END);
  }

  /** One more frame of a reply, on a connection that has taken the frames before it as far as it could. */
  method WriteNext(control: Stream, ghost base: seq<byte>, ghost room: Option<nat>, ghost sent: seq<Frame>, f: Frame)
    requires AllWellFormed(sent) && WellFormed(f)
    requires control.bytes == base + Taken(room, AllBytes(sent)) && control.room == Left(room, |AllBytes(sent)|)
    modifies control
    ensures AllWellFormed(sent + [f])
    ensures control.bytes == base + Taken(room, AllBytes(sent + [f]))
    ensures control.room == Left(room, |AllBytes(sent + [f])|)
  {
    Sent(sent, f);
    TakenAppend(room, AllBytes(sent), Bytes(f));
    Assoc(base, Taken(room, AllBytes(sent)), Taken(control.room, Bytes(f)));
    hide AllBytes, Bytes, Taken, Left;
    var _ := Encode(control, f);
  }

  lemma Sent(sent: seq<Frame>, f: Frame)
    requires AllWellFormed(sent) && WellFormed(f)
    ensures AllBytes(sent + [f]) == AllBytes(sent) + Bytes(f)
  {
    AllBytesAppend(sent, [f]);
    assert AllBytes([f]) == Bytes(f) + AllBytes([]);
  }

  // ---- Client side: the demux --------------------------------------------------------------

  datatype Route = Event | History | Response

  function RouteOf(f: Frame): Route {
    if f.kind == MSG_EVENT then Event
    else if f.kind == MSG_HISTORY || f.kind == MSG_HISTORY_END then History
    else Response
  }

  /** The frames of `fs` that the demux sends along `route`, in order. */
  function Routed(fs: seq<Frame>, route: Route): seq<Frame> {
    if fs == [] then []
    else (if RouteOf(fs[0]) == route then [fs[0]] else []) + Routed(fs[1..], route)
  }

  /** A channel as its receiver sees it: the frames still to be delivered before it is closed. A
      receive that has to wait sees the same frame later, so the schedule does not matter. */
  class Channel {
    var queue: seq<Frame>

    constructor ()
      ensures queue == []
    {
      queue := [];
    }
  }

  /** The frames of `fs` whose kind is one of `kinds`, in order. */
  function Of(fs: seq<Frame>, kinds: set<byte>): seq<Frame> {
    if fs == [] then [] else (if fs[0].kind in kinds then [fs[0]] else []) + Of(fs[1..], kinds)
  }

  /** The frames of `fs` whose kind is none of `kinds`, in order. */
  function NotOf(fs: seq<Frame>, kinds: set<byte>): seq<Frame> {
    if fs == [] then [] else (if fs[0].kind in kinds then [] else [fs[0]]) + NotOf(fs[1..], kinds)
  }

  /** By the numbers of the protocol: 0x0A is an event, 0x19 and 0x1A are history, all else answers a
      request. */
  lemma {:induction false} RoutedByKind(fs: seq<Frame>)
    ensures Routed(fs, Event) == Of(fs, {0x0A})
    ensures Routed(fs, History) == Of(fs, {0x19, 0x1A})
    ensures Routed(fs, Response) == NotOf(fs, {0x0A, 0x19, 0x1A})
  {
    if fs != [] {
      RoutedByKind(fs[1..]);
    }
  }

  /** Every decoded frame of kind 0x0A goes to the event handler, if there is one, those of kind 0x19
      and 0x1A to the history, all others to the responses, each in order. */
  method ReadControl(ctrl: Stream, history: Channel, responses: Channel, handled: bool)
    returns (events: seq<Frame>)
    requires history != responses
    modifies ctrl, history, responses
    ensures var got := DecodeAll(old(ctrl.bytes)).frames;
      && history.queue == old(history.queue) + Of(got, {0x19, 0x1A})
      && responses.queue == old(responses.queue) + NotOf(got, {0x0A, 0x19, 0x1A})
      && events == if handled then Of(got, {0x0A}) else []
  {
    events := Demux(ctrl, history, responses, handled);
    RoutedByKind(DecodeAll(old(ctrl.bytes)).frames);
  }

  method Demux(ctrl: Stream, history: Channel, responses: Channel, handled: bool)
    returns (events: seq<Frame>)
    requires history != responses
    modifies ctrl, history, responses
    ensures var got := DecodeAll(old(ctrl.bytes)).frames;
      && history.queue == old(history.queue) + Routed(got, History)
      && responses.queue == old(responses.queue) + Routed(got, Response)
      && events == if handled then Routed(got, Event) else []
  {
    events := [];
    ghost var all := DecodeAll(ctrl.bytes).frames;
    ghost var done: seq<Frame> := [];
    while true
      invariant all == done + DecodeAll(ctrl.bytes).frames
      invariant history.queue == old(history.queue) + Routed(done, History)
      invariant responses.queue == old(responses.queue) + Routed(done, Response)
      invariant events == if handled then Routed(done, Event) else []
      decreases |ctrl.bytes|
    {
      DecodedLeaves(ctrl.bytes);
      ghost var s := ctrl.bytes;
      var d := Decode(ctrl);
      if d.Fails? {
        assert DecodeAll(s).frames == [];
        assert all == done;
        return;
      }
      var frame := d.frame;
      Assoc(done, [frame], DecodeAll(ctrl.bytes).frames);
      RoutedOne(done, frame, Event);
      RoutedOne(done, frame, History);
      RoutedOne(done, frame, Response);
      match RouteOf(frame) {
        case Event =>
          if handled {
            events := events + [frame];
          }
        case History =>
          Assoc(old(history.queue), Routed(done, History), [frame]);
          history.queue := history.queue + [frame];
        case Response =>
          Assoc(old(responses.queue), Routed(done, Response), [frame]);
          responses.queue := responses.queue + [frame];
      }
      done := done + [frame];
    }
  }

  /** None is lost, repeated or moved: frame `i` of the connection is found at its place in exactly one
      of the three, and the three together are as many as were decoded. */
  lemma {:induction false} DemuxKeepsAll(fs: seq<Frame>, i: nat)
    requires i < |fs|
    ensures var (r, k) := (RouteOf(fs[i]), |Routed(fs[..i], RouteOf(fs[i]))|);
      k < |Routed(fs, r)| && Routed(fs, r)[k] == fs[i]
    ensures |Of(fs, {0x0A})| + |Of(fs, {0x19, 0x1A})| + |NotOf(fs, {0x0A, 0x19, 0x1A})| == |fs|
  {
    var r := RouteOf(fs[i]);
    RoutedAppend(fs[..i], fs[i..], r);
    assert fs == fs[..i] + fs[i..];
    assert fs[i..][0] == fs[i];
    CountAll(fs);
  }

  lemma {:induction false} CountAll(fs: seq<Frame>)
    ensures |Of(fs, {0x0A})| + |Of(fs, {0x19, 0x1A})| + |NotOf(fs, {0x0A, 0x19, 0x1A})| == |fs|
  {
    if fs != [] {
      CountAll(fs[1..]);
    }
  }

  lemma RoutedOne(fs: seq<Frame>, f: Frame, r: Route)
    ensures Routed(fs + [f], r) == Routed(fs, r) + if r == RouteOf(f) then [f] else []
  {
    RoutedAppend(fs, [f], r);
    assert Routed([f], r) == (if r == RouteOf(f) then [f] else []) + Routed([], r);
  }

  lemma {:induction false} RoutedAppend(a: seq<Frame>, b: seq<Frame>, r: Route)
    ensures Routed(a + b, r) == Routed(a, r) + Routed(b, r)
  {
    if a == [] {
      assert a + b == b;
    } else {
      RoutedAppend(a[1..], b, r);
      assert (a + b)[0] == a[0] && (a + b)[1..] == a[1..] + b;
      Assoc(if RouteOf(a[0]) == r then [a[0]] else [], Routed(a[1..], r), Routed(b, r));
    }
  }

  // ---- Client side: opening a history and reading it -----------------------------------------

  datatype ReadError = NoError | Eof | UnexpectedFrame

  datatype Reader = Reader(frames: seq<Frame>, buf: seq<byte>, done: bool, initial: seq<byte>, usedInit: bool)

  /** One `Read` into a buffer of `n` bytes: the reader afterwards, the bytes copied, the error. */
  function Next(was: Reader, n: nat): (Reader, seq<byte>, ReadError) {
    var r := if !was.usedInit && |was.initial| > 0 then was.(usedInit := true, buf := was.initial) else was;
    if |r.buf| > 0 then
      var k := Min(n, |r.buf|);
      (r.(buf := r.buf[k..]), r.buf[..k], NoError)
    else if r.done then (r, [], Eof)
    else if r.frames == [] then (r.(done := true), [], Eof)
    else
      var f, q := r.frames[0], r.(frames := r.frames[1..]);
      if f.kind == MSG_HISTORY_END then (q.(done := true), [], Eof)
      else if f.kind != MSG_HISTORY then (q.(done := true), [], UnexpectedFrame)
      else
        var k := Min(n, |f.payload|);
        (if k < |f.payload| then q.(buf := f.payload[k..]) else q, f.payload[..k], NoError)
  }

  class HistoryReader {
    const frames: Channel
    var buf: seq<byte>
    var done: bool
    const initial: seq<byte>
    var usedInit: bool

    ghost function State(): Reader
      reads this, frames
    {
      Reader(frames.queue, buf, done, initial, usedInit)
    }

    constructor (frames: Channel, initial: seq<byte>)
      ensures this.frames == frames
      ensures State() == Reader(frames.queue, [], false, initial, false)
    {
      this.frames, this.initial := frames, initial;
      buf, done, usedInit := [], false, false;
    }

    method Read(p: array<byte>) returns (n: nat, e: ReadError)
      modifies this, frames, p
      ensures n <= p.Length
      ensures (State(), p[..n], e) == Next(old(State()), p.Length)
      ensures p[n..] == old(p[..])[n..]
    {
      if !usedInit && |initial| > 0 {
        usedInit := true;
        buf := initial;
      }
      if |buf| > 0 {
        n := Copy(p, buf);
        buf := buf[n..];
        return n, NoError;
      }
      if done {
        return 0, Eof;
      }
      if frames.queue == [] {
        done := true;
        return 0, Eof;
      }
      var frame := frames.queue[0];
      frames.queue := frames.queue[1..];
      if frame.kind == MSG_HISTORY_END {
        done := true;
        return 0, Eof;
      }
      if frame.kind != MSG_HISTORY {
        done := true;
        return 0, UnexpectedFrame;
      }
      n := Copy(p, frame.payload);
      if n < |frame.payload| {
        buf := frame.payload[n..];
      }
      return n, NoError;
    }

    method Close()
      modifies this
      ensures State() == old(State()).(done := true)
    {
      done := true;
    }
  }

  method Copy(p: array<byte>, s: seq<byte>) returns (n: nat)
    modifies p
    ensures n == Min(p.Length, |s|)
    ensures p[..n] == s[..n] && p[n..] == old(p[..])[n..]
  {
    n := if p.Length < |s| then p.Length else |s|;
    for i := 0 to n
      invariant forall j :: 0 <= j < i ==> p[j] == s[j]
      invariant forall j :: i <= j < p.Length ==> p[j] == old(p[j])
    {
      p[i] := s[i];
    }
  }

  datatype Opened =
    | NotSent
    | ConnectionClosed
    | Refused(frame: Frame)
    | EmptyHistory
    | Streaming(reader: Reader)

  /** Which of the two cases of the `select` in `History` can run. */
  predicate CanTake(fromHistory: bool, history: seq<Frame>, responses: seq<Frame>, closed: bool) {
    closed || (if fromHistory then history != [] else responses != [])
  }

  function Open(fromHistory: bool, history: seq<Frame>, responses: seq<Frame>): Opened {
    if fromHistory then
      if history == [] then ConnectionClosed
      else if history[0].kind == MSG_HISTORY_END then EmptyHistory
      else Streaming(Reader(history[1..], [], false, history[0].payload, false))
    else if responses == [] then ConnectionClosed
    else Refused(responses[0])
  }

  /** `History` after its request: nothing is taken if it could not be written (`written`), else the
      first frame decides, and a reader is built. */
  method OpenHistory(written: bool, fromHistory: bool, history: Channel, responses: Channel)
    returns (o: Opened, reader: HistoryReader?)
    requires history != responses
    modifies history, responses
    ensures o == if written then Open(fromHistory, old(history.queue), old(responses.queue)) else NotSent
    ensures o.Streaming? <==> reader != null
    ensures reader != null ==> reader.State() == o.reader && reader.frames == history
    ensures o.EmptyHistory? ==> history.queue == old(history.queue)[1..]
    ensures !written || fromHistory ==> responses.queue == old(responses.queue)
    ensures !written || !fromHistory ==> history.queue == old(history.queue)
  {
    reader := null;
    if !written {
      return NotSent, null;
    }
    if fromHistory {
      if history.queue == [] {
        return ConnectionClosed, null;
      }
      var resp := history.queue[0];
      history.queue := history.queue[1..];
      if resp.kind == MSG_HISTORY_END {
        return EmptyHistory, null;
      }
      reader := new HistoryReader(history, resp.payload);
      o := Streaming(Reader(history.queue, [], false, resp.payload, false));
    } else {
      if responses.queue == [] {
        return ConnectionClosed, null;
      }
      o := Refused(responses.queue[0]);
      responses.queue := responses.queue[1..];
    }
  }

  // ---- What a reader still owes its caller ---------------------------------------------------

  /** Payload bytes up to the first frame that is not a chunk. */
  function Content(fs: seq<Frame>): seq<byte> {
    if fs == [] || fs[0].kind != MSG_HISTORY then [] else fs[0].payload + Content(fs[1..])
  }

  /** How a stream of frames ends for its reader; a closed channel reads like a proper end. */
  function Ending(fs: seq<Frame>): ReadError {
    if fs == [] || fs[0].kind == MSG_HISTORY_END then Eof
    else if fs[0].kind != MSG_HISTORY then UnexpectedFrame
    else Ending(fs[1..])
  }

  /** What a reader that ran to its end leaves in the channel. */
  function Beyond(fs: seq<Frame>): seq<Frame> {
    if fs == [] then []
    else if fs[0].kind != MSG_HISTORY then fs[1..]
    else Beyond(fs[1..])
  }

  function Front(r: Reader): seq<byte> {
    if !r.usedInit && |r.initial| > 0 then r.initial else r.buf
  }

  function Owed(r: Reader): seq<byte> {
    Front(r) + if r.done then [] else Content(r.frames)
  }

  function Verdict(r: Reader): ReadError {
    if r.done then Eof else Ending(r.frames)
  }

  function Leaves(r: Reader): seq<Frame> {
    if r.done then r.frames else Beyond(r.frames)
  }

  /** One read hands over the next bytes owed, in order, and reports an error only when nothing is
      owed any more; a read into a non-empty buffer always makes progress. */
  lemma ReadStep(r: Reader, n: nat)
    ensures var (q, out, e) := Next(r, n);
      && |out| <= n
      && Owed(r) == out + Owed(q)
      && Leaves(q) == Leaves(r) && |q.frames| <= |r.frames|
      && (e == NoError ==> Verdict(q) == Verdict(r))
      && (e != NoError ==> e == Verdict(r) && Owed(r) == [] && q.done && q.frames == Leaves(r))
      && (e == NoError && n > 0 ==> |Owed(q)| + |q.frames| < |Owed(r)| + |r.frames|)
  {
    var (q, out, e) := Next(r, n);
    var front := Front(r);
    var tail := if r.done then [] else Content(r.frames);
    if |front| > 0 {
      var k := Min(n, |front|);
      assert q == Reader(r.frames, front[k..], r.done, r.initial, r.usedInit || |r.initial| > 0);
      assert front == out + front[k..];
      Assoc(out, front[k..], tail);
    } else if !r.done && r.frames != [] && r.frames[0].kind == MSG_HISTORY {
      var payload, k := r.frames[0].payload, Min(n, |r.frames[0].payload|);
      assert payload == out + payload[k..];
      assert Front(q) == payload[k..];
      Assoc(out, payload[k..], Content(q.frames));
    }
  }

  /** A caller reading with buffers of the given sizes until the first error. */
  datatype Reading = Reading(out: seq<byte>, error: ReadError, left: Reader)

  function Reads(r: Reader, sizes: seq<nat>): Reading
    decreases |sizes|
  {
    if sizes == [] then Reading([], NoError, r)
    else
      var (q, out, e) := Next(r, sizes[0]);
      if e != NoError then Reading(out, e, q)
      else
        var rest := Reads(q, sizes[1..]);
        Reading(out + rest.out, rest.error, rest.left)
  }

  function Positive(sizes: seq<nat>): nat {
    if sizes == [] then 0 else (if sizes[0] > 0 then 1 else 0) + Positive(sizes[1..])
  }

  /** Any sequence of reads returns a prefix of what is owed; it reports the end exactly when all of
      it has been returned, and reaches the end if it is long enough. */
  lemma {:induction false} ReadsDeliver(r: Reader, sizes: seq<nat>)
    ensures Owed(r) == Reads(r, sizes).out + Owed(Reads(r, sizes).left)
    ensures Reads(r, sizes).error != NoError ==>
              && Reads(r, sizes).out == Owed(r)
              && Reads(r, sizes).error == Verdict(r)
              && Reads(r, sizes).left.done
              && Reads(r, sizes).left.frames == Leaves(r)
    ensures Positive(sizes) > |Owed(r)| + |r.frames| ==> Reads(r, sizes).error != NoError
    decreases |sizes|
  {
    hide Next, Owed, Leaves, Verdict;
    if sizes != [] {
      ReadStep(r, sizes[0]);
      var (q, out, e) := Next(r, sizes[0]);
      if e == NoError {
        ReadsDeliver(q, sizes[1..]);
        var rest := Reads(q, sizes[1..]);
        Assoc(out, rest.out, Owed(rest.left));
      } else {
        assert out == [];
      }
    }
  }

  /** After the end every further read reports EOF again and copies nothing. */
  lemma EofStays(r: Reader, n: nat)
    requires r.done && Owed(r) == []
    ensures Next(r, n) == (r, [], Eof)
  {
  }

  // ---- End to end ----------------------------------------------------------------------------

  lemma {:induction false} ChunksRead(data: seq<byte>, rest: seq<Frame>)
    ensures Content(Chunks(data) + [END] + rest) == data
    ensures Ending(Chunks(data) + [END] + rest) == Eof
    ensures Beyond(Chunks(data) + [END] + rest) == rest
    decreases |data|
  {
    var fs := Chunks(data) + [END] + rest;
    if data == [] {
      assert fs[0] == END && fs[1..] == rest;
    } else {
      var end := Min(CHUNK_SIZE, |data|);
      ChunksRead(data[end..], rest);
      assert fs[0] == Chunk(data[..end]);
      assert fs[1..] == Chunks(data[end..]) + [END] + rest;
      assert data == data[..end] + data[end..];
    }
  }

  /** The daemon never sends an empty chunk or one the codec would refuse, and only the last one
      can be short. */
  lemma {:induction false} ChunksAreFull(data: seq<byte>, i: nat)
    requires i < |Chunks(data)|
    ensures Chunks(data)[i].kind == MSG_HISTORY
    ensures 0 < |Chunks(data)[i].payload| <= CHUNK_SIZE
    ensures i + 1 < |Chunks(data)| ==> |Chunks(data)[i].payload| == CHUNK_SIZE
    decreases |data|
  {
    var end := Min(CHUNK_SIZE, |data|);
    if i > 0 {
      ChunksAreFull(data[end..], i - 1);
    }
  }

  lemma {:induction false} ReplyIsHistory(data: seq<byte>)
    ensures Routed(Reply(data), History) == Reply(data)
    decreases |data|
  {
    if data == [] {
      assert Reply(data) == [END] && Reply(data)[1..] == [];
      RoutedOne([], END, History);
      assert [] + [END] == [END];
    } else {
      var end := Min(CHUNK_SIZE, |data|);
      ReplyIsHistory(data[end..]);
      assert Reply(data)[0] == Chunk(data[..end]);
      assert Reply(data)[1..] == Reply(data[end..]);
    }
  }

  /** An opened history owes exactly what the channel held, and ends as the channel does. */
  predicate OwesAll(o: Opened, history: seq<Frame>) {
    if o.Streaming? then
      && Owed(o.reader) == Content(history)
      && Verdict(o.reader) == Ending(history)
      && Leaves(o.reader) == Beyond(history)
    else
      history != [] && o.EmptyHistory? && Content(history) == [] && Ending(history) == Eof && Beyond(history) == history[1..]
  }

  lemma OpenOwes(history: seq<Frame>, responses: seq<Frame>)
    requires Starts(history)
    ensures OwesAll(Open(true, history, responses), history)
  {
  }

  /** Reading `o` with buffers of these sizes returns `data` and nothing else, then a plain EOF, and
      leaves the channel as `left`. */
  predicate Delivers(o: Opened, data: seq<byte>, left: seq<Frame>, sizes: seq<nat>) {
    if o.Streaming? then
      var reading := Reads(o.reader, sizes);
      && reading.out <= data
      && (reading.error != NoError ==>
            reading.out == data && reading.error == Eof && reading.left.done && reading.left.frames == left)
      && (Positive(sizes) > |data| + |o.reader.frames| ==> reading.error == Eof)
    else
      o.EmptyHistory? && data == []
  }

  /** Main result. The daemon's reply shares the control connection with any number of event frames
      in any interleaving. Whatever the select sees first, the history opens; any sequence of reads
      returns a prefix of the capped snapshot, in order; the end is reported only after all of it
      and without error; enough non-empty buffers reach the end; and nothing of this reply is left
      in the channel for the next request. */
  lemma HistoryArrives(snapshot: seq<byte>, maxDump: int, wire: seq<Frame>, fromHistory: bool, sizes: seq<nat>)
    requires AllWellFormed(wire)
    requires Routed(wire, History) == Reply(Capped(snapshot, maxDump))
    requires Routed(wire, Response) == []
    requires CanTake(fromHistory, Routed(wire, History), Routed(wire, Response), false)
    ensures DecodeAll(AllBytes(wire)).frames == wire
    ensures Delivers(Open(fromHistory, Routed(wire, History), Routed(wire, Response)),
                     Capped(snapshot, maxDump), [], sizes)
  {
    var data := Capped(snapshot, maxDump);
    FramesReadBack(wire, []);
    assert AllBytes(wire) + [] == AllBytes(wire) && wire + [] == wire;
    var history := Reply(data);
    assert history + [] == history;
    ChunksRead(data, []);
    HistoryRoutesFirst(data);
    OpenOwes(history, []);
    if history[0].kind != MSG_HISTORY_END {
      ReadsDeliver(Open(true, history, []).reader, sizes);
    }
  }

  lemma HistoryRoutesFirst(data: seq<byte>)
    ensures Starts(Reply(data))
  {
  }

  /** The select takes whichever channel is ready: with its first chunk queued, a history request is
      sure to open if and only if no response to another request is queued as well. */
  lemma SureToOpenExactly(history: seq<Frame>, responses: seq<Frame>)
    requires Starts(history)
    ensures (forall c :: CanTake(c, history, responses, false) ==> OwesAll(Open(c, history, responses), history))
            <==> responses == []
  {
    OpenOwes(history, responses);
    assert responses != [] ==> CanTake(false, history, responses, false);
  }

  // ---- Where the guarantee stops ---------------------------------------------------------------

  lemma {:induction false} CutChunks(data: seq<byte>, w: nat)
    requires w <= |Reply(data)|
    ensures Content(Reply(data)[..w]) <= data
    ensures Content(Reply(data)[..w]) == data <==> w >= |Chunks(data)|
    ensures Ending(Reply(data)[..w]) == Eof
    decreases |data|
  {
    if data == [] {
      assert Reply(data) == [END];
    } else if w > 0 {
      var end := Min(CHUNK_SIZE, |data|);
      CutChunks(data[end..], w - 1);
      assert Reply(data)[..w][0] == Chunk(data[..end]);
      assert Reply(data)[..w][1..] == Reply(data[end..])[..w - 1];
      Cancel(data[..end], Content(Reply(data[end..])[..w - 1]), data[end..]);
      assert data == data[..end] + data[end..];
    }
  }

  /** Chunk frames among `fs`. */
  function ChunkCount(fs: seq<Frame>): nat {
    if fs == [] then 0 else (if fs[0].kind == MSG_HISTORY then 1 else 0) + ChunkCount(fs[1..])
  }

  lemma {:induction false} ChunkCountAppend(a: seq<Frame>, b: seq<Frame>)
    ensures ChunkCount(a + b) == ChunkCount(a) + ChunkCount(b)
  {
    if a == [] {
      assert a + b == b;
    } else {
      ChunkCountAppend(a[1..], b);
      assert (a + b)[0] == a[0] && (a + b)[1..] == a[1..] + b;
    }
  }

  lemma {:induction false} ChunkCountRouted(fs: seq<Frame>)
    ensures ChunkCount(Routed(fs, History)) == ChunkCount(fs)
  {
    if fs != [] {
      var one := if RouteOf(fs[0]) == History then [fs[0]] else [];
      ChunkCountRouted(fs[1..]);
      ChunkCountAppend(one, Routed(fs[1..], History));
    }
  }

  lemma {:induction false} ChunkCountReply(data: seq<byte>, h: nat)
    requires h <= |Reply(data)|
    ensures ChunkCount(Reply(data)[h..]) == 0 <==> h >= |Chunks(data)|
    decreases |Reply(data)| - h
  {
    var tail := Reply(data)[h..];
    if h < |Chunks(data)| {
      ChunksAreFull(data, h);
      assert tail[0] == Chunks(data)[h];
    } else if h < |Reply(data)| {
      assert tail[0] == END && tail[1..] == [];
    }
  }

  /** How many frames of the wire there are up to its last chunk frame. */
  function LastChunk(wire: seq<Frame>): (p: nat)
    ensures p <= |wire|
  {
    if wire == [] then 0
    else if wire[|wire| - 1].kind == MSG_HISTORY then |wire|
    else LastChunk(wire[..|wire| - 1])
  }

  lemma {:induction false} NoChunkAfter(wire: seq<Frame>, w: nat)
    requires w <= |wire|
    ensures ChunkCount(wire[w..]) == 0 <==> w >= LastChunk(wire)
    decreases |wire|
  {
    if w < |wire| {
      var front, last := wire[..|wire| - 1], wire[|wire| - 1];
      assert wire[w..] == front[w..] + [last];
      ChunkCountAppend(front[w..], [last]);
      assert [last][1..] == [];
      if last.kind != MSG_HISTORY {
        NoChunkAfter(front, w);
      }
    }
  }

  /** A connection that carries the reply among any other frames is cut at byte `k`: the reader
      returns a prefix of the snapshot and then a plain EOF, never an error. The prefix is the whole
      snapshot exactly when the last chunk frame got through, so a caller cannot tell a truncated
      history from a complete one. */
  lemma CutHistoryEndsSilently(data: seq<byte>, wire: seq<Frame>, k: nat)
    requires AllWellFormed(wire) && Routed(wire, History) == Reply(data) && k <= |AllBytes(wire)|
    ensures var got := DecodeAll(AllBytes(wire)[..k]).frames;
      && Content(Routed(got, History)) <= data
      && Ending(Routed(got, History)) == Eof
      && (Content(Routed(got, History)) == data <==> k >= |AllBytes(wire[..LastChunk(wire)])|)
  {
    hide Bytes, DecodeAll, AllBytes, Content, Ending, Chunks, Routed, ChunkCount, LastChunk;
    var w := CutConnection(wire, k);
    var part := Routed(wire[..w], History);
    RoutedAppend(wire[..w], wire[w..], History);
    assert wire == wire[..w] + wire[w..];
    var h := |part|;
    assert part == Reply(data)[..h] && Routed(wire[w..], History) == Reply(data)[h..];
    CutChunks(data, h);
    ChunkCountReply(data, h);
    ChunkCountRouted(wire[w..]);
    NoChunkAfter(wire, w);
    var p := LastChunk(wire);
    if w < p {
      PrefixBytes(wire, w + 1, p);
    } else {
      PrefixBytes(wire, p, w);
    }
  }

  lemma {:induction false} RoutedShrinks(fs: seq<Frame>, r: Route)
    ensures |Routed(fs, r)| <= |fs|
  {
    if fs != [] {
      RoutedShrinks(fs[1..], r);
    }
  }

  lemma PrefixBytes(fs: seq<Frame>, i: nat, j: nat)
    requires AllWellFormed(fs) && i <= j <= |fs|
    ensures |AllBytes(fs[..i])| <= |AllBytes(fs[..j])|
  {
    assert fs[..j] == fs[..i] + fs[i..j];
    AllBytesAppend(fs[..i], fs[i..j]);
  }

  /** What the reader of a newly opened history will return. */
  function OwedOnOpen(history: seq<Frame>): seq<byte>
    requires Starts(history)
  {
    var o := Open(true, history, []);
    if o.Streaming? then Owed(o.reader) else []
  }

  /** `Close` does not drain the channel. If an earlier reader was abandoned with the frames `left`
      (the rest of its reply) still queued, the next history returns those; so the next request is
      answered with its own data, whatever that is, if and only if nothing was left behind. */
  lemma NextHistoryExactly(earlier: seq<byte>, j: nat)
    requires j <= |Reply(earlier)|
    ensures var left := Reply(earlier)[j..];
      && (forall data :: Starts(left + Reply(data)))
      && ((forall data :: OwedOnOpen(left + Reply(data)) == data) <==> left == [])
  {
    var left := Reply(earlier)[j..];
    forall data
      ensures Starts(left + Reply(data))
    {
      HistoryRoutesFirst(data);
      if left != [] {
        ReplyRoutes(earlier, j);
      }
    }
    if left == [] {
      forall data
        ensures OwedOnOpen(left + Reply(data)) == data
      {
        assert left + Reply(data) == Reply(data) + [];
        ChunksRead(data, []);
        OpenOwes(Reply(data), []);
      }
    } else {
      var other := Content(left) + [0];
      ReplyRoutes(earlier, j);
      LeftOverWins(earlier, j, Reply(other));
      OpenOwes(left + Reply(other), []);
      assert OwedOnOpen(left + Reply(other)) != other;
    }
  }

  predicate Starts(history: seq<Frame>) {
    history != [] && RouteOf(history[0]) == History
  }

  lemma {:induction false} ReplyRoutes(data: seq<byte>, j: nat)
    requires j < |Reply(data)|
    ensures RouteOf(Reply(data)[j]) == History
  {
    if j < |Chunks(data)| {
      ChunksAreFull(data, j);
    }
  }

  lemma {:induction false} LeftOverWins(data: seq<byte>, j: nat, more: seq<Frame>)
    requires j < |Reply(data)|
    ensures Content(Reply(data)[j..] + more) == Content(Reply(data)[j..])
    decreases |Reply(data)| - j
  {
    var fs := Reply(data)[j..];
    assert (fs + more)[0] == Reply(data)[j];
    if j < |Chunks(data)| {
      LeftOverWins(data, j + 1, more);
      assert fs[1..] == Reply(data)[j + 1..];
      assert (fs + more)[1..] == fs[1..] + more;
    }
  }
}
