/** The scanner against an independent writer of OSC messages: what a shell prints is what the
    daemon sees. */
module OscStream {
  import opened Prelude
  import opened Text
  import opened Osc

  /** The messages a shell or a program may send. */
  datatype Message =
    | Directory(url: string)                                    // OSC 7
    | Notify(text: string)                                      // OSC 9
    | NotifyAs(id: string, text: string)                        // OSC 99
    | NotifyTitled(app: string, title: string, text: string)    // OSC 777
    | Ready                                                     // OSC 777, shell integration
    | Shell(value: string)                                      // OSC 133

  predicate Plain(s: string) { ESC !in s && BEL !in s }

  predicate Field(s: string) { Plain(s) && ';' !in s }

  predicate Writable(m: Message) {
    match m
    case Directory(url) => Plain(url)
    case Notify(text) => Plain(text)
    case NotifyAs(id, text) => Field(id) && Plain(text)
    case NotifyTitled(app, title, text) =>
      Field(app) && Field(title) && Plain(text) && !(app == "wmux" && title == "shell-ready")
    case Ready => true
    case Shell(value) => Plain(value)
  }

  function Body(m: Message): string {
    match m
    case Directory(url) => "7" + [';'] + url
    case Notify(text) => "9" + [';'] + text
    case NotifyAs(id, text) => "99" + [';'] + (id + [';'] + text)
    case NotifyTitled(app, title, text) => "777" + [';'] + (app + [';'] + (title + [';'] + text))
    case Ready => "777" + [';'] + ("wmux" + [';'] + "shell-ready")
    case Shell(value) => "133" + [';'] + value
  }

  /** What the daemon should make of it; a directory needs a URL with a path. */
  function Meaning(urls: Urls, m: Message): Option<(Kind, string)> {
    match m
    case Directory(url) => if url in urls && urls[url] != "" then Some((Cwd, urls[url])) else None
    case Notify(text) => Some((Notification, text))
    case NotifyAs(_, text) => Some((Notification, text))
    case NotifyTitled(_, _, text) => Some((Notification, text))
    case Ready => Some((ShellReady, "shell-ready"))
    case Shell(value) => Some((Osc133, value))
  }

  lemma BodyIsRead(urls: Urls, m: Message)
    requires Writable(m)
    ensures Classify(urls, Body(m)) == Meaning(urls, m)
  {
    hide Cut;
    match m
    case Directory(url) => CutOf("7", ';', url);
    case Notify(text) => CutOf("9", ';', text);
    case NotifyAs(id, text) =>
      CutOf("99", ';', id + [';'] + text);
      CutOf(id, ';', text);
    case NotifyTitled(app, title, text) =>
      CutOf("777", ';', app + [';'] + (title + [';'] + text));
      CutOf(app, ';', title + [';'] + text);
      CutOf(title, ';', text);
    case Ready =>
      CutOf("777", ';', "wmux" + [';'] + "shell-ready");
      CutOf("wmux", ';', "shell-ready");
      CutNone("shell-ready", ';');
    case Shell(value) => CutOf("133", ';', value);
  }

  /** Any other number, and a body without one, yields no result. */
  lemma OthersAreIgnored(urls: Urls, num: string, value: string)
    requires ';' !in num
    ensures num !in {"7", "9", "99", "133", "777"} ==> Classify(urls, num + [';'] + value) == None
    ensures Classify(urls, num) == None
  {
    hide Cut;
    CutOf(num, ';', value);
    CutNone(num, ';');
  }

  /** Notifications with fields missing are read as what there is: OSC 99 without an id, OSC 777 with
      one or two fields. Whatever follows the shell integration message is dropped. */
  lemma ShortForms(urls: Urls, app: string, text: string, extra: string)
    requires ';' !in app && ';' !in text
    ensures Classify(urls, "99" + [';'] + text) == Some((Notification, text))
    ensures Classify(urls, "777" + [';'] + text) == Some((Notification, text))
    ensures !(app == "wmux" && text == "shell-ready") ==>
              Classify(urls, "777" + [';'] + (app + [';'] + text)) == Some((Notification, text))
    ensures Classify(urls, "777" + [';'] + ("wmux" + [';'] + ("shell-ready" + [';'] + extra))) ==
              Some((ShellReady, "shell-ready"))
  {
    CutOf("99", ';', text);
    CutOf("777", ';', text);
    CutNone(text, ';');
    CutOf("777", ';', app + [';'] + text);
    CutOf(app, ';', text);
    CutOf("777", ';', "wmux" + [';'] + ("shell-ready" + [';'] + extra));
    CutOf("wmux", ';', "shell-ready" + [';'] + extra);
    CutOf("shell-ready", ';', extra);
    hide Cut;
  }

  lemma BodyIsPlain(m: Message)
    requires Writable(m)
    ensures Plain(Body(m))
  {
  }

  /** Any text that opens no OSC sequence, colours and cursor movements included, then a message
      ended by BEL or by ST. */
  datatype Piece = Piece(text: string, message: Message, bel: bool)

  predicate OpensNothing(text: string) {
    !EndsInEsc(text) && forall k :: 0 <= k < |text| ==> !PairAt(text, ESC, ']', k)
  }

  predicate GoodPiece(p: Piece) { OpensNothing(p.text) && Writable(p.message) }

  function Terminator(bel: bool): string { if bel then [BEL] else [ESC, '\\'] }

  function Print(p: Piece): string {
    p.text + [ESC, ']'] + Body(p.message) + Terminator(p.bel)
  }

  lemma PrintShape(p: Piece, k: nat)
    requires GoodPiece(p) && k < |Print(p)|
    ensures |Print(p)| == |p.text| + 2 + |Body(p.message)| + |Terminator(p.bel)|
    ensures k < |p.text| ==> !PairAt(Print(p), ESC, ']', k)
    ensures k == |p.text| ==> Print(p)[k] == ESC && Print(p)[k + 1] == ']'
    ensures |p.text| + 2 <= k < |p.text| + 2 + |Body(p.message)| ==> Print(p)[k] != ESC && Print(p)[k] != BEL
    ensures k >= |p.text| + 2 + |Body(p.message)| ==>
              Print(p)[k] == Terminator(p.bel)[k - |p.text| - 2 - |Body(p.message)|]
  {
    BodyIsPlain(p.message);
    hide Body, Writable;
    if k < |p.text| {
      assert !PairAt(p.text, ESC, ']', k);
    } else if |p.text| + 2 <= k < |p.text| + 2 + |Body(p.message)| {
      assert Print(p)[k] == Body(p.message)[k - |p.text| - 2];
      assert Body(p.message)[k - |p.text| - 2] in Body(p.message);
    }
  }

  /** The scan finds the message of a piece, and nothing after it. */
  lemma PieceIsFound(p: Piece)
    requires GoodPiece(p)
    ensures var m, e := |p.text|, |p.text| + 2 + |Body(p.message)|;
            && e < |Print(p)| && Print(p)[m + 2..e] == Body(p.message)
            && Next(Print(p), 0) == Complete(m, e)
            && Next(Print(p), e + 1) == Nothing
            && !EndsInEsc(Print(p))
  {
    var s, m, e := Print(p), |p.text|, |p.text| + 2 + |Body(p.message)|;
    forall k | 0 <= k < |s|
      ensures k < m ==> !PairAt(s, ESC, ']', k)
      ensures m + 2 <= k < e ==> s[k] != ESC && s[k] != BEL
      ensures k >= e ==> s[k] == Terminator(p.bel)[k - e]
    {
      PrintShape(p, k);
    }
    PrintShape(p, m);
    hide Body, Print, Writable;
    FindPairIs(s, ESC, ']', 0, m);
    FindEndIs(s, m + 2, e);
    FindPairIs(s, ESC, ']', e + 1, -1);
    MiddleOfPrint(p);
  }

  lemma MiddleOfPrint(p: Piece)
    ensures var m, e := |p.text|, |p.text| + 2 + |Body(p.message)|;
            e <= |Print(p)| && Print(p)[m + 2..e] == Body(p.message)
  {
  }

  function Results(urls: Urls, m: Message, offset: nat): seq<Result> {
    match Meaning(urls, m)
    case Some((kind, value)) => [Result(kind, value, offset)]
    case None => []
  }

  lemma PieceIsParsed(urls: Urls, p: Piece)
    requires GoodPiece(p)
    ensures Parse(urls, Print(p)) == Results(urls, p.message, |p.text|)
    ensures Closed(Print(p), 0) && !EndsInEsc(Print(p))
  {
    PieceIsFound(p);
    BodyIsRead(urls, p.message);
    var e := |p.text| + 2 + |Body(p.message)|;
    hide Print, Next, Scan, Classify, Meaning, Body, Writable;
    ScanStep(urls, Print(p), 0);
    ScanStep(urls, Print(p), e + 1);
    assert Closed(Print(p), e + 1);
  }

  function PrintAll(ps: seq<Piece>): string {
    if ps == [] then "" else Print(ps[0]) + PrintAll(ps[1..])
  }

  /** One result per message, at the position of its introducer in the whole output. */
  function Expected(urls: Urls, ps: seq<Piece>, at: nat): seq<Result> {
    if ps == [] then []
    else Results(urls, ps[0].message, at + |ps[0].text|) + Expected(urls, ps[1..], at + |Print(ps[0])|)
  }

  lemma {:induction false} ExpectedShifts(urls: Urls, ps: seq<Piece>, at: nat, n: nat)
    ensures Shift(Expected(urls, ps, at), n) == Expected(urls, ps, at + n)
    decreases |ps|
  {
    hide Print, Results, Expected, Shift;
    ExpectedStep(urls, ps, at);
    ExpectedStep(urls, ps, at + n);
    if ps == [] {
      ShiftNothing(n);
    } else {
      var next := at + |Print(ps[0])|;
      ExpectedShifts(urls, ps[1..], next, n);
      ResultsShift(urls, ps[0].message, at + |ps[0].text|, Expected(urls, ps[1..], next), n);
      assert at + n + |Print(ps[0])| == next + n && at + n + |ps[0].text| == at + |ps[0].text| + n;
    }
  }

  lemma ExpectedStep(urls: Urls, ps: seq<Piece>, at: nat)
    ensures Expected(urls, ps, at) == if ps == [] then [] else
              Results(urls, ps[0].message, at + |ps[0].text|) + Expected(urls, ps[1..], at + |Print(ps[0])|)
  {
    hide Print, Results;
  }

  lemma ShiftNothing(n: nat)
    ensures Shift([], n) == []
  {
  }

  lemma ResultsShift(urls: Urls, m: Message, at: nat, rest: seq<Result>, n: nat)
    ensures Shift(Results(urls, m, at) + rest, n) == Results(urls, m, at + n) + Shift(rest, n)
  {
    hide Meaning;
    var one := Results(urls, m, at);
    if one == [] {
      assert one + rest == rest;
    } else {
      assert (one + rest)[1..] == rest;
    }
  }

  /** Round trip: scanning any printed sequence of texts and messages yields exactly the meanings of
      the messages, in order and at their positions, whatever mix of terminators they used. */
  lemma {:induction false} PrintedIsParsed(urls: Urls, ps: seq<Piece>)
    requires forall p <- ps :: GoodPiece(p)
    ensures Parse(urls, PrintAll(ps)) == Expected(urls, ps, 0)
    decreases |ps|
  {
    hide Scan, Print, Closed, Results;
    if ps == [] {
      ScanStep(urls, "", 0);
    } else {
      var p, rest := ps[0], PrintAll(ps[1..]);
      PrintedIsParsed(urls, ps[1..]);
      PieceIsParsed(urls, p);
      ScanSplits(urls, Print(p), rest, 0);
      ExpectedShifts(urls, ps[1..], 0, |Print(p)|);
    }
  }
}
