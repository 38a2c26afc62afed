/** Row numbers for OSC 133 markers: scanOSC with its lazy newline counter, over
    the chunk sequence of one session (internal/daemon/service.go). */
module RowTracking {
  import opened Prelude
  import opened Text
  import O = Osc
  import L = Lifecycle

  /** A marker as scanOSC passes it to HandleOSC. */
  datatype Mark = Mark(code: char, exit: int, row: nat)

  /** parseOSC133Value: the code byte and, for D, the exit code after "D;". */
  function Osc133Value(v: string): (char, int) {
    if v == [] then ('\0', 0)
    else if v[0] == 'D' && |v| > 2 then
      var rest := v[2..];
      (v[0], Atoi(if Cut(rest, ';').Some? then Cut(rest, ';').value.0 else rest).0)
    else (v[0], 0)
  }

  /** A finish marker carries its exit code back, whatever options follow it; only a finish marker
      carries one. */
  lemma ExitCodeIsRead(n: int, extra: string, c: char)
    requires -MAX_INT - 1 <= n <= MAX_INT && (extra == "" || extra[0] == ';') && c != 'D'
    ensures Osc133Value("D;" + (Itoa(n) + extra)) == ('D', n)
    ensures Osc133Value([c] + extra) == (c, 0)
  {
    hide Atoi, Itoa, Cut;
    AtoiOfItoa(n);
    ItoaPlain(n, ';');
    assert ("D;" + (Itoa(n) + extra))[2..] == Itoa(n) + extra;
    ItoaNotEmpty(n);
    if extra == "" {
      assert Itoa(n) + extra == Itoa(n);
      CutNone(Itoa(n), ';');
    } else {
      assert Itoa(n) + extra == Itoa(n) + [';'] + extra[1..];
      CutOf(Itoa(n), ';', extra[1..]);
    }
  }

  lemma ItoaNotEmpty(n: int)
    ensures Itoa(n) != ""
  {
  }

  /** The row of a marker at `offset`, given the session's counter before the chunk. */
  function RowAt(counter: Option<nat>, data: string, offset: nat): nat
    requires offset <= |data|
  {
    match counter case None => 0 case Some(n) => n + Newlines(data[..offset])
  }

  predicate InOrder(data: string, rs: seq<O.Result>, lo: nat) {
    && (forall k :: 0 <= k < |rs| ==> lo <= rs[k].offset <= |data|)
    && (forall j, k :: 0 <= j < k < |rs| ==> rs[j].offset < rs[k].offset)
  }

  function MarksOf(counter: Option<nat>, data: string, rs: seq<O.Result>): seq<Mark>
    requires InOrder(data, rs, 0)
  {
    if rs == [] then [] else
      var r := rs[0];
      var (code, exit) := Osc133Value(r.value);
      (if r.kind.Osc133? then [Mark(code, exit, RowAt(counter, data, r.offset))] else [])
      + MarksOf(counter, data, rs[1..])
  }

  lemma ParseInOrder(urls: O.Urls, data: string)
    ensures InOrder(data, O.Parse(urls, data), 0)
  {
    O.OffsetsIncrease(urls, data, 0);
    assert O.Ordered(data, O.Parse(urls, data), 0);
  }

  function Marks(urls: O.Urls, counter: Option<nat>, data: string): seq<Mark> {
    ParseInOrder(urls, data);
    MarksOf(counter, data, O.Parse(urls, data))
  }

  /** A chunk without any result leaves the counter alone, newlines and all. */
  function CounterAfter(urls: O.Urls, counter: Option<nat>, data: string): Option<nat> {
    if counter.None? || O.Parse(urls, data) == [] then counter else Some(counter.value + Newlines(data))
  }

  lemma RowMoves(data: string, i: nat, j: nat)
    requires i <= j <= |data|
    ensures Newlines(data[..j]) == Newlines(data[..i]) + Newlines(data[i..j])
  {
    NewlinesAppend(data[..i], data[i..j]);
    assert data[..i] + data[i..j] == data[..j];
  }

  /** The defining equation of MarksOf at position `k`. */
  lemma MarksStep(counter: Option<nat>, data: string, rs: seq<O.Result>, k: nat)
    requires InOrder(data, rs, 0) && k < |rs|
    ensures InOrder(data, rs[k..], 0) && InOrder(data, rs[k + 1..], 0)
    ensures MarksOf(counter, data, rs[k..]) ==
              (if rs[k].kind.Osc133?
               then [Mark(Osc133Value(rs[k].value).0, Osc133Value(rs[k].value).1, RowAt(counter, data, rs[k].offset))]
               else []) + MarksOf(counter, data, rs[k + 1..])
  {
    hide Osc133Value, RowAt;
    assert rs[k..][0] == rs[k] && rs[k..][1..] == rs[k + 1..];
  }

  /** The dispatch loop: newlines are counted only between OSC 133 markers, and
      the tail after the last one at the end. */
  method CountRows(counter: Option<nat>, data: string, results: seq<O.Result>)
    returns (marks: seq<Mark>, after: Option<nat>)
    requires InOrder(data, results, 0)
    ensures marks == MarksOf(counter, data, results)
    ensures after == if counter.None? then None else Some(counter.value + Newlines(data))
  {
    hide Newlines, Osc133Value, MarksOf;
    marks := [];
    var count := if counter.Some? then counter.value else 0;
    var cursor := 0;
    NewlinesOfNone(data);
    assert results[0..] == results;
    for k := 0 to |results|
      invariant 0 <= cursor <= |data|
      invariant k < |results| ==> cursor <= results[k].offset
      invariant count == if counter.Some? then counter.value + Newlines(data[..cursor]) else 0
      invariant InOrder(data, results[k..], 0)
      invariant MarksOf(counter, data, results) == marks + MarksOf(counter, data, results[k..])
    {
      var r := results[k];
      MarksStep(counter, data, results, k);
      if r.kind.Osc133? {
        if counter.Some? {
          RowMoves(data, cursor, r.offset);
          count := count + Newlines(data[cursor..r.offset]);
          cursor := r.offset;
        }
        var (code, exit) := Osc133Value(r.value);
        Assoc(marks, [Mark(code, exit, count)], MarksOf(counter, data, results[k + 1..]));
        marks := marks + [Mark(code, exit, count)];
      }
    }
    MarksOfNone(counter, data, results[|results|..]);
    RowMoves(data, cursor, |data|);
    assert data[..|data|] == data;
    after := if counter.None? then None else Some(count + Newlines(data[cursor..]));
  }

  lemma MarksOfNone(counter: Option<nat>, data: string, rs: seq<O.Result>)
    requires rs == []
    ensures MarksOf(counter, data, rs) == []
  {
  }

  lemma NewlinesOfNone(data: string)
    ensures Newlines(data[..0]) == 0
  {
    assert data[..0] == [];
  }

  class Scanner {
    var lineCounters: map<string, nat>

    function Counter(id: string): Option<nat>
      reads this
    {
      if id in lineCounters then Some(lineCounters[id]) else None
    }

    constructor ()
      ensures lineCounters == map[]
    {
      lineCounters := map[];
    }

    /** scanOSC for one chunk of one session's output. */
    method ScanOSC(urls: O.Urls, id: string, data: string) returns (marks: seq<Mark>)
      modifies this
      ensures marks == Marks(urls, old(Counter(id)), data)
      ensures Counter(id) == CounterAfter(urls, old(Counter(id)), data)
      ensures lineCounters - {id} == old(lineCounters) - {id}
    {
      hide MarksOf, O.Parse;
      var results := O.ParseOSC(urls, data);
      ParseInOrder(urls, data);
      if |results| == 0 {
        MarksOfNone(Counter(id), data, results);
        return [];
      }
      var after;
      marks, after := CountRows(Counter(id), data, results);
      if after.Some? {
        lineCounters := lineCounters[id := after.value];
      }
    }
  }

  // ----- A whole session: any sequence of chunks -----

  function Session(urls: O.Urls, counter: Option<nat>, chunks: seq<string>): (Option<nat>, seq<Mark>)
    decreases |chunks|
  {
    if chunks == [] then (counter, []) else
      var (c, marks) := Session(urls, counter, chunks[..|chunks| - 1]);
      var last := chunks[|chunks| - 1];
      (CounterAfter(urls, c, last), marks + Marks(urls, c, last))
  }

  /** Newlines of the chunks that yielded an OSC result. */
  function Counted(urls: O.Urls, chunks: seq<string>): nat
    decreases |chunks|
  {
    if chunks == [] then 0 else
      var last := chunks[|chunks| - 1];
      Counted(urls, chunks[..|chunks| - 1]) + if O.Parse(urls, last) == [] then 0 else Newlines(last)
  }

  /** The counter before the next chunk: so the row of a marker is the newlines
      of all earlier chunks with a result plus those before it in its own chunk. */
  lemma {:induction false} CounterIsCounted(urls: O.Urls, n: nat, chunks: seq<string>)
    ensures Session(urls, Some(n), chunks).0 == Some(n + Counted(urls, chunks))
    decreases |chunks|
  {
    hide O.Parse, Marks;
    if chunks != [] {
      CounterIsCounted(urls, n, chunks[..|chunks| - 1]);
    }
  }

  /** Newlines of all bytes ever scanned. */
  function AllNewlines(chunks: seq<string>): nat
    decreases |chunks|
  {
    if chunks == [] then 0 else AllNewlines(chunks[..|chunks| - 1]) + Newlines(chunks[|chunks| - 1])
  }

  predicate NothingSkipped(urls: O.Urls, chunks: seq<string>) {
    forall c <- chunks :: O.Parse(urls, c) == [] ==> Newlines(c) == 0
  }

  lemma {:induction false} CountedVersusAll(urls: O.Urls, chunks: seq<string>)
    ensures Counted(urls, chunks) <= AllNewlines(chunks)
    ensures Counted(urls, chunks) == AllNewlines(chunks) <==> NothingSkipped(urls, chunks)
    decreases |chunks|
  {
    hide O.Parse, Newlines;
    if chunks != [] {
      var front, last := chunks[..|chunks| - 1], chunks[|chunks| - 1];
      CountedVersusAll(urls, front);
      assert chunks == front + [last];
      assert forall c :: c in chunks <==> c in front || c == last;
    }
  }

  /** The counter reflects "all bytes ever scanned" exactly when no chunk without
      an OSC result contains a newline. */
  lemma CounterCountsEverythingExactly(urls: O.Urls, chunks: seq<string>)
    ensures Session(urls, Some(0), chunks).0 == Some(AllNewlines(chunks)) <==> NothingSkipped(urls, chunks)
  {
    hide Session, Counted, AllNewlines, NothingSkipped, Newlines, O.Parse;
    CounterIsCounted(urls, 0, chunks);
    CountedVersusAll(urls, chunks);
  }

  /** The OSC 133 results among `rs`, in order. */
  function Only133(rs: seq<O.Result>): seq<O.Result> {
    if rs == [] then [] else (if rs[0].kind.Osc133? then [rs[0]] else []) + Only133(rs[1..])
  }

  lemma {:induction false} MarksAre(counter: Option<nat>, data: string, rs: seq<O.Result>, i: nat)
    requires InOrder(data, rs, 0) && i < |Only133(rs)|
    ensures |MarksOf(counter, data, rs)| == |Only133(rs)| && Only133(rs)[i].offset <= |data|
    ensures MarksOf(counter, data, rs)[i] ==
      Mark(Osc133Value(Only133(rs)[i].value).0, Osc133Value(Only133(rs)[i].value).1,
           RowAt(counter, data, Only133(rs)[i].offset))
    decreases |rs|
  {
    hide Osc133Value, RowAt;
    var one := if rs[0].kind.Osc133? then 1 else 0;
    if Only133(rs[1..]) == [] {
      MarksOfNo133(counter, data, rs[1..]);
    } else {
      MarksAre(counter, data, rs[1..], if i >= one then i - one else 0);
    }
  }

  lemma {:induction false} MarksOfNo133(counter: Option<nat>, data: string, rs: seq<O.Result>)
    requires InOrder(data, rs, 0) && Only133(rs) == []
    ensures MarksOf(counter, data, rs) == []
    decreases |rs|
  {
    hide Osc133Value, RowAt;
    if rs != [] {
      MarksOfNo133(counter, data, rs[1..]);
    }
  }

  /** The row of a marker, by counting: after `chunks`, marker `i` of the chunk `data` carries the line
      feeds of all earlier chunks that yielded a result plus those before its introducer in `data`. */
  lemma MarkerRow(urls: O.Urls, chunks: seq<string>, data: string, i: nat)
    requires i < |Only133(O.Parse(urls, data))|
    ensures var counter := Session(urls, Some(0), chunks).0;
      var r := Only133(O.Parse(urls, data))[i];
      && |Marks(urls, counter, data)| == |Only133(O.Parse(urls, data))| && r.offset <= |data|
      && Marks(urls, counter, data)[i].row == Counted(urls, chunks) + |LineFeeds(data, r.offset)|
  {
    hide O.Parse, Newlines, Osc133Value, MarksOf, Counted, Session;
    CounterIsCounted(urls, 0, chunks);
    ParseInOrder(urls, data);
    MarksAre(Some(Counted(urls, chunks)), data, O.Parse(urls, data), i);
    NewlinesAreLineFeeds(data, Only133(O.Parse(urls, data))[i].offset);
  }

  /** A lone line feed is such a chunk: it is printed and never counted. */
  lemma PlainLineIsNotCounted(urls: O.Urls)
    ensures Session(urls, Some(0), ["\n"]).0 == Some(0) && AllNewlines(["\n"]) == 1
  {
    var chunks := ["\n"];
    assert chunks[..0] == [];
    O.ScanStep(urls, "\n", 0);
    assert O.Next("\n", 0) == O.Nothing;
    assert "\n"[1..] == "";
    CounterIsCounted(urls, 0, chunks);
  }

  // ----- Rows never decrease, so commands never overlap -----

  predicate Rising(lo: nat, marks: seq<Mark>, hi: nat) {
    && (forall i :: 0 <= i < |marks| ==> lo <= marks[i].row <= hi)
    && (forall i, j :: 0 <= i < j < |marks| ==> marks[i].row <= marks[j].row)
  }

  lemma {:induction false} MarksRise(n: nat, data: string, rs: seq<O.Result>, from: nat)
    requires InOrder(data, rs, from) && from <= |data|
    ensures Rising(n + Newlines(data[..from]), MarksOf(Some(n), data, rs), n + Newlines(data))
    decreases |rs|
  {
    RowsBetween(data, from, |data|);
    if rs == [] {
      MarksOfNone(Some(n), data, rs);
    } else {
      var at := rs[0].offset;
      InOrderTail(data, rs, from);
      RowsBetween(data, from, at);
      hide Newlines, MarksOf, Rising, InOrder, MarkOf;
      MarksRise(n, data, rs[1..], at);
      MarksCons(Some(n), data, rs);
      MarkOfRow(n, data, rs[0]);
      RisingGrows(n + Newlines(data[..from]), n + Newlines(data[..at]), MarkOf(Some(n), data, rs[0]),
                  MarksOf(Some(n), data, rs[1..]), n + Newlines(data));
    }
  }

  lemma InOrderTail(data: string, rs: seq<O.Result>, from: nat)
    requires InOrder(data, rs, from) && rs != []
    ensures from <= rs[0].offset <= |data|
    ensures InOrder(data, rs[1..], rs[0].offset) && InOrder(data, rs[1..], 0) && InOrder(data, rs, 0)
  {
  }

  /** The marker of one result, if it is one. */
  function MarkOf(counter: Option<nat>, data: string, r: O.Result): seq<Mark>
    requires r.offset <= |data|
  {
    var (code, exit) := Osc133Value(r.value);
    if r.kind.Osc133? then [Mark(code, exit, RowAt(counter, data, r.offset))] else []
  }

  lemma MarksCons(counter: Option<nat>, data: string, rs: seq<O.Result>)
    requires InOrder(data, rs, 0) && rs != []
    ensures InOrder(data, rs[1..], 0)
    ensures MarksOf(counter, data, rs) == MarkOf(counter, data, rs[0]) + MarksOf(counter, data, rs[1..])
  {
    hide Osc133Value, RowAt;
  }

  lemma MarkOfRow(n: nat, data: string, r: O.Result)
    requires r.offset <= |data|
    ensures |MarkOf(Some(n), data, r)| <= 1
    ensures forall m <- MarkOf(Some(n), data, r) :: m.row == n + Newlines(data[..r.offset])
  {
    hide Osc133Value, Newlines;
  }

  lemma RowsBetween(data: string, i: nat, j: nat)
    requires i <= j <= |data|
    ensures Newlines(data[..i]) <= Newlines(data[..j]) <= Newlines(data)
  {
    RowMoves(data, i, j);
    RowMoves(data, j, |data|);
    assert data[..|data|] == data;
  }

  lemma RisingGrows(lo: nat, at: nat, first: seq<Mark>, rest: seq<Mark>, hi: nat)
    requires lo <= at <= hi && |first| <= 1 && (forall m <- first :: m.row == at) && Rising(at, rest, hi)
    ensures Rising(lo, first + rest, hi)
  {
  }

  lemma ChunkRises(urls: O.Urls, n: nat, data: string)
    ensures Rising(n, Marks(urls, Some(n), data), CounterAfter(urls, Some(n), data).value)
  {
    hide O.Parse, Newlines;
    ParseInOrder(urls, data);
    NewlinesOfNone(data);
    if O.Parse(urls, data) != [] {
      MarksRise(n, data, O.Parse(urls, data), 0);
    }
  }

  lemma {:induction false} RowsNeverDecrease(urls: O.Urls, n: nat, chunks: seq<string>)
    ensures Session(urls, Some(n), chunks).0.Some?
    ensures n <= Session(urls, Some(n), chunks).0.value
    ensures Rising(n, Session(urls, Some(n), chunks).1, Session(urls, Some(n), chunks).0.value)
    decreases |chunks|
  {
    hide Marks, CounterAfter;
    if chunks != [] {
      var front, last := chunks[..|chunks| - 1], chunks[|chunks| - 1];
      RowsNeverDecrease(urls, n, front);
      var (c, marks) := Session(urls, Some(n), front);
      ChunkRises(urls, c.value, last);
      CounterGrows(urls, c.value, last);
      RisingAppend(n, marks, c.value, Marks(urls, c, last), CounterAfter(urls, c, last).value);
    }
  }

  lemma CounterGrows(urls: O.Urls, n: nat, data: string)
    ensures CounterAfter(urls, Some(n), data).Some? && n <= CounterAfter(urls, Some(n), data).value
  {
    hide O.Parse, Newlines;
  }

  lemma RisingAppend(lo: nat, a: seq<Mark>, mid: nat, b: seq<Mark>, hi: nat)
    requires Rising(lo, a, mid) && Rising(mid, b, hi) && lo <= mid <= hi
    ensures Rising(lo, a + b, hi)
  {
  }

  /** Markers as the tracker sees them, each with its readings of the clock. */
  function Stamp(marks: seq<Mark>, clock: seq<(L.Time, L.Time)>): (ms: seq<L.Marker>)
    requires |clock| == |marks|
    ensures |ms| == |marks|
    ensures forall i :: 0 <= i < |ms| ==> ms[i].row == marks[i].row && ms[i].code == marks[i].code
  {
    if marks == [] then [] else
      [L.Marker(marks[0].code, marks[0].exit, marks[0].row, clock[0].0, clock[0].1)] + Stamp(marks[1..], clock[1..])
  }

  /** End to end: whatever bytes a session prints, in whatever chunks, every
      command its tracker finishes since Register has startRow <= endRow and no
      command starts before the previous one ended. */
  lemma CommandsOfASessionDoNotOverlap(
    urls: O.Urls, max: nat, chunks: seq<string>, clock: seq<(L.Time, L.Time)>)
    requires 0 < max && |clock| == |Session(urls, Some(0), chunks).1|
    ensures var ms := Stamp(Session(urls, Some(0), chunks).1, clock);
            var (t, ev) := L.Run(max, L.FRESH, ms);
            L.RunLayout(0, t, L.Closed(ev), L.LastRow(0, ms))
  {
    RowsNeverDecrease(urls, 0, chunks);
    var ms := Stamp(Session(urls, Some(0), chunks).1, clock);
    assert L.RowsRise(0, ms);
    L.CommandsDoNotOverlap(max, L.FRESH, ms, 0);
  }
}
