/** OSC scanning of terminal output (internal/daemon/osc.go): sequences
    introduced by ESC ] (section 8.3.89 of ECMA-48) and ended by ST (section
    8.3.143) or BEL. */
module Osc {
  import opened Prelude
  import opened Text

  datatype Kind = Cwd | Notification | ShellReady | Osc133

  datatype Result = Result(kind: Kind, value: string, offset: nat)

  /** url.Parse as the scanner uses it: the path of every URL it accepts. */
  type Urls = map<string, string>

  // ----- Terminators -----

  predicate EndsAt(s: string, k: int) {
    (0 <= k < |s| && s[k] == BEL) || PairAt(s, ESC, '\\', k)
  }

  /** Index of the first terminator at or after `i`, or -1. */
  function FindEnd(s: string, i: nat): (r: int)
    requires i <= |s|
    ensures r == -1 || (i <= r < |s| && EndsAt(s, r))
    decreases |s| - i
  {
    if i == |s| then -1 else if EndsAt(s, i) then i else FindEnd(s, i + 1)
  }

  lemma {:induction false} EndIsFirst(s: string, i: nat)
    requires i <= |s|
    ensures var r := FindEnd(s, i); forall k :: i <= k < (if r < 0 then |s| else r) ==> !EndsAt(s, k)
    decreases |s| - i
  {
    if i < |s| && !EndsAt(s, i) {
      EndIsFirst(s, i + 1);
    }
  }

  lemma FindEndIs(s: string, i: nat, r: int)
    requires i <= |s| && (r == -1 || (i <= r && EndsAt(s, r)))
    requires forall k :: i <= k < (if r < 0 then |s| else r) ==> !EndsAt(s, k)
    ensures FindEnd(s, i) == r
  {
    EndIsFirst(s, i);
  }

  function PickEnd(endST: int, endBEL: int): int {
    if endST >= 0 && endBEL >= 0 && endST < endBEL then endST
    else if endST >= 0 && endBEL >= 0 then endBEL
    else if endST >= 0 then endST
    else if endBEL >= 0 then endBEL
    else -1
  }

  /** The two searches and pickOSCEnd find the first terminator of either kind. */
  lemma PickEndIsFirst(s: string, i: nat)
    requires i <= |s|
    ensures PickEnd(FindPair(s, ESC, '\\', i), FindChar(s, BEL, i)) == FindEnd(s, i)
  {
    PairIsFirst(s, ESC, '\\', i);
    CharIsFirst(s, BEL, i);
    FindEndIs(s, i, PickEnd(FindPair(s, ESC, '\\', i), FindChar(s, BEL, i)));
  }

  // ----- One sequence -----

  function Classify(urls: Urls, body: string): Option<(Kind, string)> {
    match Cut(body, ';')
    case None => None
    case Some((num, value)) =>
      if num == "7" then
        if value in urls && urls[value] != "" then Some((Cwd, urls[value])) else None
      else if num == "9" then Some((Notification, value))
      else if num == "99" then
        match Cut(value, ';')
        case Some((_, rest)) => Some((Notification, rest))
        case None => Some((Notification, value))
      else if num == "133" then Some((Osc133, value))
      else if num == "777" then
        match Cut(value, ';')
        case None => Some((Notification, value))
        case Some((p0, rest)) =>
          match Cut(rest, ';') {
            case None =>
              if p0 == "wmux" && rest == "shell-ready" then Some((ShellReady, "shell-ready"))
              else Some((Notification, rest))
            case Some((p1, p2)) =>
              if p0 == "wmux" && p1 == "shell-ready" then Some((ShellReady, "shell-ready"))
              else Some((Notification, p2))
          }
      else None
  }

  // ----- The scan -----

  /** The next sequence from `cursor`: none, one left open at `m`, or a complete one. */
  datatype Found = Nothing | Open(m: nat) | Complete(m: nat, e: nat)

  function Next(s: string, cursor: nat): (f: Found)
    requires cursor <= |s|
    ensures f.Open? ==> cursor <= f.m && f.m + 2 <= |s|
    ensures f.Complete? ==> cursor <= f.m && f.m + 2 <= f.e < |s| && PairAt(s, ESC, ']', f.m)
  {
    var m := FindPair(s, ESC, ']', cursor);
    if m < 0 then Nothing else
      var e := FindEnd(s, m + 2);
      if e < 0 then Open(m) else Complete(m, e)
  }

  function Emit(urls: Urls, body: string, m: nat): seq<Result> {
    match Classify(urls, body)
    case Some((kind, value)) => [Result(kind, value, m)]
    case None => []
  }

  function Scan(urls: Urls, s: string, cursor: nat): seq<Result>
    requires cursor <= |s|
    decreases |s| - cursor
  {
    match Next(s, cursor)
    case Complete(m, e) => Emit(urls, s[m + 2..e], m) + Scan(urls, s, e + 1)
    case _ => []
  }

  /** The defining equation of Scan, to be used with Scan itself hidden. */
  lemma ScanStep(urls: Urls, s: string, c: nat)
    requires c <= |s|
    ensures Scan(urls, s, c) ==
              match Next(s, c) {
                case Complete(m, e) => Emit(urls, s[m + 2..e], m) + Scan(urls, s, e + 1)
                case _ => []
              }
  {
    hide Next, Emit;
  }

  function Parse(urls: Urls, s: string): seq<Result> {
    Scan(urls, s, 0)
  }

  /** ParseOSC: the cursor loop with the library searches. */
  method ParseOSC(urls: Urls, data: string) returns (results: seq<Result>)
    ensures results == Parse(urls, data)
  {
    hide FindPair, FindEnd, FindChar, PickEnd, Emit, Scan;
    results := [];
    var cursor := 0;
    while true
      invariant 0 <= cursor <= |data|
      invariant Scan(urls, data, 0) == results + Scan(urls, data, cursor)
      decreases |data| - cursor
    {
      var matchStart := FindPair(data, ESC, ']', cursor);
      if matchStart < 0 {
        ScanStep(urls, data, cursor);
        break;
      }
      var bodyStart := matchStart + 2;
      var endST := FindPair(data, ESC, '\\', bodyStart);
      var endBEL := FindChar(data, BEL, bodyStart);
      PickEndIsFirst(data, bodyStart);
      ScanStep(urls, data, cursor);
      var bodyEnd := PickEnd(endST, endBEL);
      if bodyEnd < 0 {
        break;
      }
      Assoc(results, Emit(urls, data[bodyStart..bodyEnd], matchStart), Scan(urls, data, bodyEnd + 1));
      results := Collect(urls, data[bodyStart..bodyEnd], matchStart, results);
      cursor := bodyEnd + 1;
    }
  }

  /** The dispatch on one body. */
  method Collect(urls: Urls, body: string, m: nat, results: seq<Result>) returns (r: seq<Result>)
    ensures r == results + Emit(urls, body, m)
  {
    hide Classify;
    match Classify(urls, body) {
      case None => r := results;
      case Some((kind, value)) => r := results + [Result(kind, value, m)];
    }
  }

  /** Offsets start at `lo`, strictly increase, and point at introducers. */
  predicate Ordered(s: string, rs: seq<Result>, lo: nat) {
    && (forall k :: 0 <= k < |rs| ==> lo <= rs[k].offset && PairAt(s, ESC, ']', rs[k].offset))
    && (forall j, k :: 0 <= j < k < |rs| ==> rs[j].offset < rs[k].offset)
  }

  lemma OrderedCons(urls: Urls, s: string, body: string, m: nat, rest: seq<Result>, lo: nat)
    requires lo <= m && PairAt(s, ESC, ']', m) && Ordered(s, rest, m + 1)
    ensures Ordered(s, Emit(urls, body, m) + rest, lo)
  {
    hide Classify;
  }

  /** ParseOSC returns its results at strictly increasing offsets of introducers. */
  lemma {:induction false} OffsetsIncrease(urls: Urls, s: string, cursor: nat)
    requires cursor <= |s|
    ensures Ordered(s, Scan(urls, s, cursor), cursor)
    decreases |s| - cursor
  {
    hide Next, Emit;
    match Next(s, cursor)
    case Complete(m, e) =>
      OffsetsIncrease(urls, s, e + 1);
      OrderedCons(urls, s, s[m + 2..e], m, Scan(urls, s, e + 1), cursor);
    case _ =>
  }

  // ----- Splitting the output into chunks -----

  function Shift(rs: seq<Result>, n: nat): seq<Result> {
    if rs == [] then [] else [rs[0].(offset := rs[0].offset + n)] + Shift(rs[1..], n)
  }

  /** The scan from `cursor` leaves no introducer without its terminator. */
  predicate Closed(s: string, cursor: nat)
    requires cursor <= |s|
    decreases |s| - cursor
  {
    match Next(s, cursor)
    case Nothing => true
    case Open(_) => false
    case Complete(_, e) => Closed(s, e + 1)
  }

  predicate EndsInEsc(s: string) {
    s != [] && s[|s| - 1] == ESC
  }

  lemma PairInPrefix(a: string, b: string, x: char, y: char, i: nat)
    requires i <= |a| && FindPair(a, x, y, i) >= 0
    ensures FindPair(a + b, x, y, i) == FindPair(a, x, y, i)
  {
    var r := FindPair(a, x, y, i);
    PairIsFirst(a, x, y, i);
    assert forall k :: i <= k <= r ==> PairAt(a + b, x, y, k) == PairAt(a, x, y, k);
    FindPairIs(a + b, x, y, i, r);
  }

  lemma EndInPrefix(a: string, b: string, i: nat)
    requires i <= |a| && FindEnd(a, i) >= 0
    ensures FindEnd(a + b, i) == FindEnd(a, i)
  {
    var r := FindEnd(a, i);
    EndIsFirst(a, i);
    assert forall k :: i <= k <= r ==> EndsAt(a + b, k) == EndsAt(a, k);
    FindEndIs(a + b, i, r);
  }

  lemma PairInSuffix(a: string, b: string, x: char, y: char, k: nat)
    requires k <= |b|
    ensures FindPair(a + b, x, y, |a| + k) == if FindPair(b, x, y, k) < 0 then -1 else |a| + FindPair(b, x, y, k)
  {
    var r := FindPair(b, x, y, k);
    PairIsFirst(b, x, y, k);
    assert forall j :: |a| <= j ==> PairAt(a + b, x, y, j) == PairAt(b, x, y, j - |a|);
    FindPairIs(a + b, x, y, |a| + k, if r < 0 then -1 else |a| + r);
  }

  lemma EndInSuffix(a: string, b: string, k: nat)
    requires k <= |b|
    ensures FindEnd(a + b, |a| + k) == if FindEnd(b, k) < 0 then -1 else |a| + FindEnd(b, k)
  {
    var r := FindEnd(b, k);
    EndIsFirst(b, k);
    assert forall j :: |a| <= j ==> EndsAt(a + b, j) == EndsAt(b, j - |a|);
    FindEndIs(a + b, |a| + k, if r < 0 then -1 else |a| + r);
  }

  /** With no introducer left in `a` the search moves on into `b`. */
  lemma PairAcross(a: string, b: string, i: nat)
    requires i <= |a| && FindPair(a, ESC, ']', i) < 0 && (i == |a| || !EndsInEsc(a))
    ensures FindPair(a + b, ESC, ']', i) == FindPair(a + b, ESC, ']', |a|)
  {
    PairIsFirst(a, ESC, ']', i);
    PairIsFirst(a + b, ESC, ']', |a|);
    forall k | i <= k < |a|
      ensures !PairAt(a + b, ESC, ']', k)
    {
      assert !PairAt(a, ESC, ']', k);
    }
    FindPairIs(a + b, ESC, ']', i, FindPair(a + b, ESC, ']', |a|));
  }

  lemma NextInSuffix(a: string, b: string, k: nat)
    requires k <= |b|
    ensures Next(a + b, |a| + k) ==
              match Next(b, k) {
                case Nothing => Nothing
                case Open(m) => Open(|a| + m)
                case Complete(m, e) => Complete(|a| + m, |a| + e)
              }
  {
    PairInSuffix(a, b, ESC, ']', k);
    var m := FindPair(b, ESC, ']', k);
    if m >= 0 {
      EndInSuffix(a, b, m + 2);
    }
  }

  lemma NextInPrefix(a: string, b: string, c: nat)
    requires c <= |a| && Next(a, c).Complete?
    ensures Next(a + b, c) == Next(a, c)
  {
    PairInPrefix(a, b, ESC, ']', c);
    EndInPrefix(a, b, Next(a, c).m + 2);
  }

  lemma NextAcross(a: string, b: string, c: nat)
    requires c <= |a| && Next(a, c).Nothing? && (c == |a| || !EndsInEsc(a))
    ensures Next(a + b, c) == Next(a + b, |a|)
  {
    PairAcross(a, b, c);
  }

  lemma ShiftEmit(urls: Urls, body: string, m: nat, rest: seq<Result>, n: nat)
    ensures Shift(Emit(urls, body, m) + rest, n) == Emit(urls, body, m + n) + Shift(rest, n)
  {
    hide Classify;
    var one := Emit(urls, body, m);
    if one == [] {
      assert one + rest == rest;
    } else {
      assert (one + rest)[1..] == rest;
    }
  }

  lemma {:induction false} ScanSuffix(urls: Urls, a: string, b: string, k: nat)
    requires k <= |b|
    ensures Scan(urls, a + b, |a| + k) == Shift(Scan(urls, b, k), |a|)
    decreases |b| - k
  {
    hide Next, Emit, Scan, Shift;
    match Next(b, k)
    case Complete(m, e) =>
      ScanSuffix(urls, a, b, e + 1);
      SuffixTakesOne(urls, a, b, k, m, e);
      ShiftEmit(urls, b[m + 2..e], m, Scan(urls, b, e + 1), |a|);
    case _ => SuffixEnds(urls, a, b, k);
  }

  lemma SuffixEnds(urls: Urls, a: string, b: string, k: nat)
    requires k <= |b| && !Next(b, k).Complete?
    ensures Scan(urls, b, k) == [] && Scan(urls, a + b, |a| + k) == [] && Shift([], |a|) == []
  {
    hide Next, Emit, Scan;
    ScanStep(urls, b, k);
    ScanStep(urls, a + b, |a| + k);
    NextInSuffix(a, b, k);
  }

  lemma SuffixTakesOne(urls: Urls, a: string, b: string, k: nat, m: nat, e: nat)
    requires k <= |b| && Next(b, k) == Complete(m, e)
    ensures m + 2 <= e < |b|
    ensures Scan(urls, b, k) == Emit(urls, b[m + 2..e], m) + Scan(urls, b, e + 1)
    ensures Scan(urls, a + b, |a| + k) == Emit(urls, b[m + 2..e], m + |a|) + Scan(urls, a + b, |a| + (e + 1))
  {
    hide Next, Emit, Scan;
    ScanStep(urls, b, k);
    ScanStep(urls, a + b, |a| + k);
    NextInSuffix(a, b, k);
    SliceOfSuffix(a, b, m + 2, e);
  }

  /** The sufficient half: a chunk that closes what it opens can be scanned alone. */
  lemma {:induction false} ScanSplits(urls: Urls, a: string, b: string, c: nat)
    requires c <= |a| && Closed(a, c) && (c == |a| || !EndsInEsc(a))
    ensures Scan(urls, a + b, c) == Scan(urls, a, c) + Shift(Parse(urls, b), |a|)
    decreases |a| - c
  {
    hide Next, Emit, Scan, Shift;
    match Next(a, c)
    case Nothing => ScanMovesOn(urls, a, b, c);
    case Complete(m, e) =>
      ScanSplits(urls, a, b, e + 1);
      ScanTakesOne(urls, a, b, c, m, e);
      Assoc(Emit(urls, a[m + 2..e], m), Scan(urls, a, e + 1), Shift(Parse(urls, b), |a|));
  }

  lemma ScanMovesOn(urls: Urls, a: string, b: string, c: nat)
    requires c <= |a| && Next(a, c) == Nothing && (c == |a| || !EndsInEsc(a))
    ensures Scan(urls, a, c) == [] && Scan(urls, a + b, c) == Shift(Parse(urls, b), |a|)
  {
    hide Next, Emit, Scan, Shift;
    ScanStep(urls, a, c);
    ScanStep(urls, a + b, c);
    ScanStep(urls, a + b, |a|);
    NextAcross(a, b, c);
    ScanSuffix(urls, a, b, 0);
  }

  lemma ScanTakesOne(urls: Urls, a: string, b: string, c: nat, m: nat, e: nat)
    requires c <= |a| && Next(a, c) == Complete(m, e)
    ensures m + 2 <= e < |a|
    ensures Scan(urls, a, c) == Emit(urls, a[m + 2..e], m) + Scan(urls, a, e + 1)
    ensures Scan(urls, a + b, c) == Emit(urls, a[m + 2..e], m) + Scan(urls, a + b, e + 1)
  {
    hide Next, Emit, Scan;
    ScanStep(urls, a, c);
    ScanStep(urls, a + b, c);
    NextInPrefix(a, b, c);
    SliceOfPrefix(a, b, m + 2, e);
  }

  /** Scanning `a` and then any `b` is the same as scanning them together. */
  ghost predicate SplitSafe(urls: Urls, a: string) {
    forall b :: Parse(urls, a + b) == Parse(urls, a) + Shift(Parse(urls, b), |a|)
  }

  // Two continuations that tell an unsafe chunk from a safe one.
  const NOTIFY: string := [ESC, ']', '9', ';', 'x', BEL]
  const REST_OF_NOTIFY: string := [']', '9', ';', 'x', BEL]

  lemma NineIsNotification(urls: Urls)
    ensures Classify(urls, ['9', ';', 'x']) == Some((Notification, "x"))
  {
    var body := ['9', ';', 'x'];
    assert FindChar(body, ';', 0) == 1;
    assert body[..1] == "9" && body[2..] == "x";
  }

  lemma ParseNotify(urls: Urls)
    ensures Parse(urls, NOTIFY) == [Result(Notification, "x", 0)]
    ensures Parse(urls, REST_OF_NOTIFY) == []
  {
    FindPairIs(NOTIFY, ESC, ']', 0, 0);
    FindEndIs(NOTIFY, 2, 5);
    FindPairIs(NOTIFY, ESC, ']', 6, -1);
    FindPairIs(REST_OF_NOTIFY, ESC, ']', 0, -1);
    assert NOTIFY[2..5] == ['9', ';', 'x'];
    NineIsNotification(urls);
    ScanStep(urls, NOTIFY, 0);
    ScanStep(urls, NOTIFY, 6);
  }

  /** The same message cut in two after its ESC is lost: neither chunk yields a result. */
  lemma CutMessageIsLost(urls: Urls)
    ensures Parse(urls, [ESC] + REST_OF_NOTIFY) == [Result(Notification, "x", 0)]
    ensures Parse(urls, [ESC]) == [] && Parse(urls, REST_OF_NOTIFY) == []
  {
    ParseNotify(urls);
    assert [ESC] + REST_OF_NOTIFY == NOTIFY;
    hide Scan;
    ScanStep(urls, [ESC], 0);
    FindPairIs([ESC], ESC, ']', 0, -1);
  }

  /** An introducer left open in `a` swallows the next sequence up to its terminator. */
  lemma NextSwallows(a: string, c: nat)
    requires c <= |a| && Next(a, c).Open?
    ensures Next(a + NOTIFY, c) == Complete(Next(a, c).m, |a| + 5)
    ensures Next(a + NOTIFY, |a| + 6) == Nothing
  {
    var m, s := Next(a, c).m, a + NOTIFY;
    PairInPrefix(a, NOTIFY, ESC, ']', c);
    EndIsFirst(a, m + 2);
    assert forall k :: m + 2 <= k < |a| ==> EndsAt(s, k) == EndsAt(a, k);
    assert forall k :: |a| <= k < |a| + 5 ==> s[k] == NOTIFY[k - |a|];
    FindEndIs(s, m + 2, |a| + 5);
    FindPairIs(s, ESC, ']', |a| + 6, -1);
  }

  lemma {:induction false} OpenSwallows(urls: Urls, a: string, c: nat) returns (body: string, m: nat)
    requires c <= |a| && !Closed(a, c)
    ensures m < |a| && Scan(urls, a + NOTIFY, c) == Scan(urls, a, c) + Emit(urls, body, m)
    decreases |a| - c
  {
    hide Next, Emit, Scan;
    match Next(a, c)
    case Open(k) =>
      ScanStep(urls, a, c);
      ScanStep(urls, a + NOTIFY, c);
      NextSwallows(a, c);
      ScanStep(urls, a + NOTIFY, |a| + 6);
      body, m := (a + NOTIFY)[k + 2..|a| + 5], k;
    case Complete(k, e) =>
      body, m := OpenSwallows(urls, a, e + 1);
      ScanTakesOne(urls, a, NOTIFY, c, k, e);
      Assoc(Emit(urls, a[k + 2..e], k), Scan(urls, a, e + 1), Emit(urls, body, m));
  }

  /** An ESC at the end of `a` joins a leading ] into an introducer. */
  lemma NextJoins(a: string, c: nat)
    requires c < |a| && Next(a, c).Nothing? && EndsInEsc(a)
    ensures Next(a + REST_OF_NOTIFY, c) == Complete(|a| - 1, |a| + 4)
    ensures Next(a + REST_OF_NOTIFY, |a| + 5) == Nothing
  {
    var s := a + REST_OF_NOTIFY;
    PairIsFirst(a, ESC, ']', c);
    assert forall k :: c <= k < |a| - 1 ==> PairAt(s, ESC, ']', k) == PairAt(a, ESC, ']', k);
    FindPairIs(s, ESC, ']', c, |a| - 1);
    assert forall k :: |a| <= k < |a| + 5 ==> s[k] == REST_OF_NOTIFY[k - |a|];
    FindEndIs(s, |a| + 1, |a| + 4);
    FindPairIs(s, ESC, ']', |a| + 5, -1);
  }

  lemma CompleteStopsBeforeEsc(a: string, c: nat)
    requires c <= |a| && Next(a, c).Complete? && EndsInEsc(a)
    ensures Next(a, c).e + 1 < |a|
  {
  }

  lemma {:induction false} EscJoins(urls: Urls, a: string, c: nat)
    requires c < |a| && Closed(a, c) && EndsInEsc(a)
    ensures Scan(urls, a + REST_OF_NOTIFY, c) == Scan(urls, a, c) + [Result(Notification, "x", |a| - 1)]
    decreases |a| - c
  {
    hide Next, Scan, Emit;
    match Next(a, c)
    case Nothing => EscJoinsHere(urls, a, c);
    case Complete(k, e) =>
      CompleteStopsBeforeEsc(a, c);
      EscJoins(urls, a, e + 1);
      ScanTakesOne(urls, a, REST_OF_NOTIFY, c, k, e);
      Assoc(Emit(urls, a[k + 2..e], k), Scan(urls, a, e + 1), [Result(Notification, "x", |a| - 1)]);
  }

  lemma EscJoinsHere(urls: Urls, a: string, c: nat)
    requires c < |a| && Next(a, c).Nothing? && EndsInEsc(a)
    ensures Scan(urls, a, c) == []
    ensures Scan(urls, a + REST_OF_NOTIFY, c) == [Result(Notification, "x", |a| - 1)]
  {
    hide Next, Scan, Classify;
    ScanStep(urls, a, c);
    ScanStep(urls, a + REST_OF_NOTIFY, c);
    NextJoins(a, c);
    ScanStep(urls, a + REST_OF_NOTIFY, |a| + 5);
    SliceOfSuffix(a, REST_OF_NOTIFY, 1, 4);
    assert REST_OF_NOTIFY[1..4] == ['9', ';', 'x'];
    NineIsNotification(urls);
  }

  /** Chunk `a` can be scanned apart from whatever follows exactly when it closes
      every sequence it opens and does not end in ESC. */
  lemma SplitSafeExactly(urls: Urls, a: string)
    ensures SplitSafe(urls, a) <==> Closed(a, 0) && !EndsInEsc(a)
  {
    hide Scan, Closed, Classify;
    if !Closed(a, 0) {
      var body, m := OpenSwallows(urls, a, 0);
      ParseNotify(urls);
      assert Shift([Result(Notification, "x", 0)], |a|) == [Result(Notification, "x", |a|)];
      Cancel(Parse(urls, a), Emit(urls, body, m), Shift(Parse(urls, NOTIFY), |a|));
      assert Parse(urls, a + NOTIFY) != Parse(urls, a) + Shift(Parse(urls, NOTIFY), |a|);
    } else if EndsInEsc(a) {
      EscJoins(urls, a, 0);
      ParseNotify(urls);
      assert |Parse(urls, a + REST_OF_NOTIFY)| == |Parse(urls, a)| + 1;
    } else {
      forall b ensures Parse(urls, a + b) == Parse(urls, a) + Shift(Parse(urls, b), |a|) {
        ScanSplits(urls, a, b, 0);
      }
    }
  }
}
