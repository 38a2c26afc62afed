/** ToHTML (internal/platform/ansi/html.go): SGR state, styled spans, and the
    proof that reading the HTML back gives every visible byte with its style. */
module AnsiHtml {
  import opened Prelude
  import opened Text
  import opened Ansi

  // ----- SGR state (section 8.3.117 of ECMA-48, plus the extended colours) -----

  datatype Attr = Attr(bold: bool, italic: bool, underline: bool, fg: string, bg: string)

  const PLAIN := Attr(false, false, false, "", "")

  const BASIC16: seq<string> := [
    "#000000", "#aa0000", "#00aa00", "#aa5500", "#0000aa", "#aa00aa", "#00aaaa", "#aaaaaa",
    "#555555", "#ff5555", "#55ff55", "#ffff55", "#5555ff", "#ff55ff", "#55ffff", "#ffffff"]

  function Rgb(r: int, g: int, b: int): string {
    "rgb(" + Itoa(r) + "," + Itoa(g) + "," + Itoa(b) + ")"
  }

  function Color256(idx: int): string {
    if idx < 0 || idx > 255 then ""
    else if idx < 16 then BASIC16[idx]
    else if idx < 232 then
      var k := idx - 16;
      Rgb(k / 36 * 51, k / 6 % 6 * 51, k % 6 * 51)
    else
      var v := (idx - 232) * 10 + 8;
      Rgb(v, v, v)
  }

  function Number(codes: seq<string>, i: nat): int
    requires i < |codes|
  {
    Atoi(codes[i]).0
  }

  /** 38 or 48 at `ci`: the colour set, if any, and the index of the last code consumed. */
  function Extended(codes: seq<string>, ci: nat): (r: (Option<string>, nat))
    requires ci < |codes|
    ensures ci <= r.1
  {
    if ci + 1 >= |codes| then (None, ci + 1)
    else
      var mode := Number(codes, ci + 1);
      if mode == 5 && ci + 2 < |codes| then (Some(Color256(Number(codes, ci + 2))), ci + 2)
      else if mode == 2 && ci + 4 < |codes| then
        (Some(Rgb(Number(codes, ci + 2), Number(codes, ci + 3), Number(codes, ci + 4))), ci + 4)
      else (None, ci + 1)
  }

  function Simple(a: Attr, n: int): Attr {
    if n == 0 then PLAIN
    else if n == 1 then a.(bold := true)
    else if n == 3 then a.(italic := true)
    else if n == 4 then a.(underline := true)
    else if n == 22 then a.(bold := false)
    else if n == 23 then a.(italic := false)
    else if n == 24 then a.(underline := false)
    else if 30 <= n <= 37 then a.(fg := BASIC16[n - 30])
    else if n == 39 then a.(fg := "")
    else if 40 <= n <= 47 then a.(bg := BASIC16[n - 40])
    else if n == 49 then a.(bg := "")
    else if 90 <= n <= 97 then a.(fg := BASIC16[n - 90 + 8])
    else if 100 <= n <= 107 then a.(bg := BASIC16[n - 100 + 8])
    else a
  }

  /** The state after the code at `ci`, and the next index. */
  function CodeAt(a: Attr, codes: seq<string>, ci: nat): (r: (Attr, nat))
    requires ci < |codes|
    ensures ci < r.1
  {
    var (n, ok) := Atoi(codes[ci]);
    if !ok then (a, ci + 1)
    else if n == 38 then
      var (c, last) := Extended(codes, ci);
      (if c.Some? then a.(fg := c.value) else a, last + 1)
    else if n == 48 then
      var (c, last) := Extended(codes, ci);
      (if c.Some? then a.(bg := c.value) else a, last + 1)
    else (Simple(a, n), ci + 1)
  }

  function ApplyCodes(a: Attr, codes: seq<string>, ci: nat): Attr
    decreases |codes| - ci
  {
    if ci >= |codes| then a else ApplyCodes(CodeAt(a, codes, ci).0, codes, CodeAt(a, codes, ci).1)
  }

  function ApplySgr(a: Attr, params: string): Attr {
    if params == "" then PLAIN else ApplyCodes(a, Split(params, ';'), 0)
  }

  // ----- CSS -----

  function Join(parts: seq<string>): string {
    if parts == [] then "" else if |parts| == 1 then parts[0] else parts[0] + ";" + Join(parts[1..])
  }

  function Style(a: Attr): string {
    Join((if a.bold then ["font-weight:bold"] else [])
         + (if a.italic then ["font-style:italic"] else [])
         + (if a.underline then ["text-decoration:underline"] else [])
         + (if a.fg != "" then ["color:" + a.fg] else [])
         + (if a.bg != "" then ["background-color:" + a.bg] else []))
  }

  predicate Quoteless(s: string) {
    '"' !in s
  }

  /** A CSS value that can stand in a declaration: it ends neither the attribute nor the declaration. */
  predicate Value(s: string) {
    '"' !in s && ';' !in s
  }

  lemma {:induction false} ItoaIsValue(n: int)
    ensures Value(Itoa(n))
    decreases n < 0, if n < 0 then -n else n
  {
    if n < 0 {
      ItoaIsValue(-n);
    } else if n >= 10 {
      ItoaIsValue(n / 10);
    }
  }

  lemma RgbIsValue(r: int, g: int, b: int)
    ensures Value(Rgb(r, g, b))
  {
    hide Itoa;
    ItoaIsValue(r);
    ItoaIsValue(g);
    ItoaIsValue(b);
  }

  lemma BasicIsValue(i: nat)
    requires i < 16
    ensures Value(BASIC16[i])
  {
    assert forall k :: 0 <= k < 16 ==> Value(BASIC16[k]);
  }

  lemma ColorIsValue(idx: int)
    ensures Value(Color256(idx))
  {
    hide Rgb, Itoa;
    if 0 <= idx < 16 {
      BasicIsValue(idx);
    } else if 16 <= idx < 232 {
      var k := idx - 16;
      RgbIsValue(k / 36 * 51, k / 6 % 6 * 51, k % 6 * 51);
    } else if 232 <= idx <= 255 {
      var v := (idx - 232) * 10 + 8;
      RgbIsValue(v, v, v);
    }
  }

  predicate Clean(a: Attr) {
    Value(a.fg) && Value(a.bg)
  }

  lemma CodeKeepsClean(a: Attr, codes: seq<string>, ci: nat)
    requires Clean(a) && ci < |codes|
    ensures Clean(CodeAt(a, codes, ci).0)
  {
    hide Rgb, Color256, Atoi;
    forall i: nat | i < 16 ensures Value(BASIC16[i]) {
      BasicIsValue(i);
    }
    forall idx ensures Value(Color256(idx)) {
      ColorIsValue(idx);
    }
    forall r, g, b ensures Value(Rgb(r, g, b)) {
      RgbIsValue(r, g, b);
    }
  }

  lemma {:induction false} ApplyKeepsClean(a: Attr, codes: seq<string>, ci: nat)
    requires Clean(a)
    ensures Clean(ApplyCodes(a, codes, ci))
    decreases |codes| - ci
  {
    hide CodeAt;
    if ci < |codes| {
      CodeKeepsClean(a, codes, ci);
      ApplyKeepsClean(CodeAt(a, codes, ci).0, codes, CodeAt(a, codes, ci).1);
    }
  }

  lemma ApplySgrKeepsClean(a: Attr, params: string)
    requires Clean(a)
    ensures Clean(ApplySgr(a, params))
  {
    hide ApplyCodes, Split;
    if params != "" {
      ApplyKeepsClean(a, Split(params, ';'), 0);
    }
  }

  lemma {:induction false} JoinQuoteless(parts: seq<string>)
    requires forall p <- parts :: Quoteless(p)
    ensures Quoteless(Join(parts))
  {
    if |parts| > 1 {
      assert parts[0] in parts;
      JoinQuoteless(parts[1..]);
    } else if |parts| == 1 {
      assert parts[0] in parts;
    }
  }

  lemma StyleQuoteless(a: Attr)
    requires Clean(a)
    ensures Quoteless(Style(a))
  {
    hide Join;
    JoinQuoteless((if a.bold then ["font-weight:bold"] else [])
         + (if a.italic then ["font-style:italic"] else [])
         + (if a.underline then ["text-decoration:underline"] else [])
         + (if a.fg != "" then ["color:" + a.fg] else [])
         + (if a.bg != "" then ["background-color:" + a.bg] else []));
  }

  /** applySGR: the loop over semicolon-separated codes. */
  method ApplySGR(a: Attr, params: string) returns (r: Attr)
    ensures r == ApplySgr(a, params)
  {
    hide CodeAt;
    if params == "" {
      return PLAIN;
    }
    var codes := Split(params, ';');
    var ci := 0;
    r := a;
    while ci < |codes|
      invariant 0 <= ci
      invariant ApplyCodes(a, codes, 0) == ApplyCodes(r, codes, ci)
      decreases |codes| - ci
    {
      var next := CodeAt(r, codes, ci);
      r, ci := next.0, next.1;
    }
  }

  // ----- Spans -----

  datatype Item = Open(style: string) | Close | Char(c: char)

  function Escape(c: char): string {
    if c == '&' then "&amp;"
    else if c == '\'' then "&#39;"
    else if c == '<' then "&lt;"
    else if c == '>' then "&gt;"
    else if c == '"' then "&#34;"
    else [c]
  }

  const OPEN_SPAN := "<span style=\""
  const CLOSE_SPAN := "</span>"
  const PRE := "<pre style=\"font-family:monospace;background:#000;color:#aaa;padding:8px\">"
  const END_PRE := "</pre>"

  function Write(it: Item): string {
    match it
    case Open(style) => OPEN_SPAN + style + "\">"
    case Close => CLOSE_SPAN
    case Char(c) => Escape(c)
  }

  function WriteAll(items: seq<Item>): string {
    if items == [] then "" else Write(items[0]) + WriteAll(items[1..])
  }

  /** flushSpan, then openSpan for the new state. */
  function Restyle(open: bool, a: Attr): seq<Item> {
    (if open then [Close] else []) + (if Style(a) != "" then [Open(Style(a))] else [])
  }

  function Items(ts: seq<Token>, a: Attr, open: bool): seq<Item> {
    if ts == [] then (if open then [Close] else [])
    else match ts[0]
      case Visible(c) => [Char(c)] + Items(ts[1..], a, open)
      case Skip => Items(ts[1..], a, open)
      case Sgr(params) =>
        var b := ApplySgr(a, params);
        Restyle(open, b) + Items(ts[1..], b, Style(b) != "")
  }

  function Html(d: string): string {
    PRE + WriteAll(Items(Lex(d, 0), PLAIN, false)) + END_PRE
  }

  lemma {:induction false} WriteAppend(x: seq<Item>, y: seq<Item>)
    ensures WriteAll(x + y) == WriteAll(x) + WriteAll(y)
  {
    hide Write;
    if x == [] {
      assert x + y == y;
    } else {
      WriteAppend(x[1..], y);
      assert (x + y)[0] == x[0] && (x + y)[1..] == x[1..] + y;
      Assoc(Write(x[0]), WriteAll(x[1..]), WriteAll(y));
    }
  }

  lemma WriteOne(it: Item)
    ensures WriteAll([it]) == Write(it)
  {
    hide Write;
    assert [it][1..] == [];
  }

  // ----- Reading the HTML back -----

  predicate Starts(h: string, p: string) {
    |p| <= |h| && h[..|p|] == p
  }

  /** The escaped character at the front of `h` and the text after it. */
  function ReadEntity(h: string): Option<(char, string)> {
    if Starts(h, "&amp;") then Some(('&', h[5..]))
    else if Starts(h, "&#39;") then Some(('\'', h[5..]))
    else if Starts(h, "&lt;") then Some(('<', h[4..]))
    else if Starts(h, "&gt;") then Some(('>', h[4..]))
    else if Starts(h, "&#34;") then Some(('"', h[5..]))
    else None
  }

  /** A tag at the front of `h`: the closing span, or an opening one with its style. */
  function ReadTag(h: string): Option<(Item, string)> {
    if Starts(h, CLOSE_SPAN) then Some((Close, h[|CLOSE_SPAN|..]))
    else if Starts(h, OPEN_SPAN) then
      var rest := h[|OPEN_SPAN|..];
      var q := FindChar(rest, '"', 0);
      if q < 0 || q + 1 >= |rest| || rest[q + 1] != '>' then None
      else Some((Open(rest[..q]), rest[q + 2..]))
    else None
  }

  function ReadItem(h: string): (r: Option<(Item, string)>)
    requires h != ""
    ensures r.Some? ==> |r.value.1| < |h|
  {
    if h[0] == '<' then ReadTag(h)
    else if h[0] == '&' then
      var e := ReadEntity(h);
      if e.None? then None else Some((Char(e.value.0), e.value.1))
    else Some((Char(h[0]), h[1..]))
  }

  function ReadAll(h: string): Option<seq<Item>>
    decreases |h|
  {
    if h == "" then Some([]) else
      match ReadItem(h)
      case None => None
      case Some((it, rest)) =>
        var more := ReadAll(rest);
        if more.None? then None else Some([it] + more.value)
  }

  lemma SplitFront(p: string, t: string)
    ensures (p + t)[..|p|] == p && (p + t)[|p|..] == t
  {
  }

  lemma NotStarts(h: string, p: string, k: nat)
    requires k < |h| && k < |p| && h[k] != p[k]
    ensures !Starts(h, p)
  {
    assert |p| <= |h| ==> h[..|p|][k] == h[k];
  }

  predicate Readable(it: Item) {
    it.Open? ==> Quoteless(it.style)
  }

  lemma FirstQuote(style: string, t: string)
    requires Quoteless(style)
    ensures FindChar(style + "\">" + t, '"', 0) == |style|
  {
    var s := style + "\">" + t;
    CharIsFirst(s, '"', 0);
    assert s[|style|] == '"';
    assert forall k :: 0 <= k < |style| ==> s[k] == style[k];
  }

  lemma ReadsOpen(style: string, t: string)
    requires Quoteless(style)
    ensures ReadItem(Write(Open(style)) + t) == Some((Open(style), t))
  {
    var h := OPEN_SPAN + style + "\">" + t;
    var rest := style + "\">" + t;
    assert h == OPEN_SPAN + rest;
    SplitFront(OPEN_SPAN, rest);
    assert h[0] == '<' && h[1] == 's';
    NotStarts(h, CLOSE_SPAN, 1);
    FirstQuote(style, t);
    assert rest[|style| + 1] == '>';
    assert rest[..|style|] == style && rest[|style| + 2..] == t;
  }

  lemma ReadsChar(c: char, t: string)
    ensures ReadItem(Escape(c) + t) == Some((Char(c), t))
  {
    SplitFront(Escape(c), t);
    var h := Escape(c) + t;
    if c == '&' {
      assert Starts(h, "&amp;");
    } else if c == '\'' {
      assert h[..5] == "&#39;" && h[..5][1] == '#';
      assert Starts(h, "&#39;") && !Starts(h, "&amp;");
    } else if c == '<' {
      assert h[..4] == "&lt;" && h[1] == 'l';
      assert Starts(h, "&lt;") && !Starts(h, "&amp;") && !Starts(h, "&#39;");
    } else if c == '>' {
      assert h[..4] == "&gt;" && h[1] == 'g';
      assert Starts(h, "&gt;") && !Starts(h, "&amp;") && !Starts(h, "&#39;") && !Starts(h, "&lt;");
    } else if c == '"' {
      assert h[..5] == "&#34;" && h[1] == '#' && h[3] == '4';
      assert Starts(h, "&#34;") && !Starts(h, "&amp;") && !Starts(h, "&lt;") && !Starts(h, "&gt;");
      NotStarts(h, "&#39;", 3);
    }
  }

  lemma ReadsItem(it: Item, t: string)
    requires Readable(it)
    ensures Write(it) + t != "" && ReadItem(Write(it) + t) == Some((it, t))
  {
    hide ReadItem, Escape;
    match it
    case Open(style) => ReadsOpen(style, t);
    case Char(c) => ReadsChar(c, t); EscapeNotEmpty(c);
    case Close => ReadsClose(t);
  }

  lemma EscapeNotEmpty(c: char)
    ensures Escape(c) != ""
  {
  }

  lemma ReadsClose(t: string)
    ensures ReadItem(CLOSE_SPAN + t) == Some((Close, t))
  {
    SplitFront(CLOSE_SPAN, t);
  }

  /** Every written sequence of items reads back as itself. */
  lemma {:induction false} ReadBack(items: seq<Item>)
    requires forall it <- items :: Readable(it)
    ensures ReadAll(WriteAll(items)) == Some(items)
    decreases |items|
  {
    hide ReadItem, Write;
    if items != [] {
      assert items[0] in items;
      ReadBack(items[1..]);
      ReadsItem(items[0], WriteAll(items[1..]));
      assert items == [items[0]] + items[1..];
    }
  }

  // ----- What a reader sees: characters, each under at most one span -----

  datatype Glyph = Glyph(c: char, style: string)

  /** None if a span is opened inside another, closed twice, or left open. */
  function Show(items: seq<Item>, current: Option<string>): Option<seq<Glyph>> {
    if items == [] then (if current.None? then Some([]) else None)
    else match items[0]
      case Open(s) => if current.None? then Show(items[1..], Some(s)) else None
      case Close => if current.Some? then Show(items[1..], None) else None
      case Char(c) =>
        var more := Show(items[1..], current);
        if more.None? then None
        else Some([Glyph(c, if current.Some? then current.value else "")] + more.value)
  }

  /** Each visible byte under the style folded from the SGR sequences before it. */
  function Styled(ts: seq<Token>, a: Attr): seq<Glyph> {
    if ts == [] then []
    else match ts[0]
      case Visible(c) => [Glyph(c, Style(a))] + Styled(ts[1..], a)
      case Skip => Styled(ts[1..], a)
      case Sgr(params) => Styled(ts[1..], ApplySgr(a, params))
  }

  function SpanOf(a: Attr): Option<string> {
    if Style(a) != "" then Some(Style(a)) else None
  }

  /** The span open before a token, given whether one was opened for the state. */
  predicate Tracks(current: Option<string>, a: Attr, open: bool) {
    current == SpanOf(a) && (open <==> current.Some?)
  }

  lemma ShowRestyle(open: bool, b: Attr, rest: seq<Item>, current: Option<string>)
    requires open <==> current.Some?
    ensures Show(Restyle(open, b) + rest, current) == Show(rest, SpanOf(b))
  {
    hide Style;
    var x := Restyle(open, b) + rest;
    if open {
      var y := (if Style(b) != "" then [Open(Style(b))] else []) + rest;
      assert x[0] == Close && x[1..] == y;
      assert Style(b) != "" ==> y[1..] == rest;
      assert Style(b) == "" ==> y == rest;
    } else {
      assert Style(b) != "" ==> x[0] == Open(Style(b)) && x[1..] == rest;
      assert Style(b) == "" ==> x == rest;
    }
  }

  lemma {:induction false} ShowItems(ts: seq<Token>, a: Attr, open: bool, current: Option<string>)
    requires Tracks(current, a, open)
    ensures Show(Items(ts, a, open), current) == Some(Styled(ts, a))
    decreases |ts|
  {
    hide Style, ApplySgr, Restyle;
    if ts == [] {
      assert open ==> [Close][1..] == [];
    } else {
      match ts[0]
      case Visible(c) =>
        ShowItems(ts[1..], a, open, current);
        assert ([Char(c)] + Items(ts[1..], a, open))[1..] == Items(ts[1..], a, open);
      case Skip =>
        ShowItems(ts[1..], a, open, current);
      case Sgr(params) =>
        var b := ApplySgr(a, params);
        ShowRestyle(open, b, Items(ts[1..], b, Style(b) != ""), current);
        ShowItems(ts[1..], b, Style(b) != "", SpanOf(b));
    }
  }

  lemma {:induction false} ItemsReadable(ts: seq<Token>, a: Attr, open: bool)
    requires Clean(a)
    ensures forall it <- Items(ts, a, open) :: Readable(it)
    decreases |ts|
  {
    hide Style, ApplySgr, Clean;
    if ts != [] {
      match ts[0]
      case Visible(c) => ItemsReadable(ts[1..], a, open);
      case Skip => ItemsReadable(ts[1..], a, open);
      case Sgr(params) =>
        var b := ApplySgr(a, params);
        ApplySgrKeepsClean(a, params);
        StyleQuoteless(b);
        ItemsReadable(ts[1..], b, Style(b) != "");
    }
  }

  /** What a browser shows of a document with the wrapping pre element. */
  function Display(html: string): Option<seq<Glyph>> {
    if !Starts(html, PRE) || |html| < |PRE| + |END_PRE| || html[|html| - |END_PRE|..] != END_PRE then None
    else
      match ReadAll(html[|PRE|..|html| - |END_PRE|])
      case None => None
      case Some(items) => Show(items, None)
  }

  lemma Unwrap(body: string)
    ensures var h := PRE + body + END_PRE;
            && Starts(h, PRE) && |h| >= |PRE| + |END_PRE|
            && h[|h| - |END_PRE|..] == END_PRE && h[|PRE|..|h| - |END_PRE|] == body
  {
    var h := PRE + body + END_PRE;
    assert h[..|PRE|] == PRE;
  }

  /** On every input, the HTML is a well-formed document whose spans are balanced
      and never nested, and which shows exactly the visible bytes, each under the
      style folded from the SGR sequences before it. */
  lemma HtmlShowsStyledText(d: string)
    ensures Display(Html(d)) == Some(Styled(Lex(d, 0), PLAIN))
  {
    hide Items, ReadAll, Show, Styled, Lex, WriteAll;
    var items := Items(Lex(d, 0), PLAIN, false);
    Unwrap(WriteAll(items));
    ItemsReadable(Lex(d, 0), PLAIN, false);
    ReadBack(items);
    ShowItems(Lex(d, 0), PLAIN, false, None);
  }

  function Chars(gs: seq<Glyph>): string {
    if gs == [] then "" else [gs[0].c] + Chars(gs[1..])
  }

  lemma {:induction false} CharsOfStyled(ts: seq<Token>, a: Attr)
    ensures Chars(Styled(ts, a)) == VisibleText(ts)
    decreases |ts|
  {
    hide Style, ApplySgr;
    if ts != [] {
      match ts[0]
      case Visible(c) =>
        CharsOfStyled(ts[1..], a);
        assert ([Glyph(c, Style(a))] + Styled(ts[1..], a))[1..] == Styled(ts[1..], a);
      case Skip => CharsOfStyled(ts[1..], a);
      case Sgr(params) => CharsOfStyled(ts[1..], ApplySgr(a, params));
    }
  }

  /** The text of the HTML, unescaped, is what Strip returns, whenever every CSI
      sequence of the input has the form of section 5.4 of ECMA-48. */
  lemma HtmlTextIsStrip(d: string)
    requires InStep(d, 0)
    ensures Display(Html(d)).Some? && Chars(Display(Html(d)).value) == StripFrom(d, 0)
  {
    HtmlShowsStyledText(d);
    CharsOfStyled(Lex(d, 0), PLAIN);
    StripIsVisibleText(d, 0);
  }

  // ----- The loop -----

  method SkipCsi(data: string, start: nat) returns (i: nat)
    requires start <= |data|
    ensures i == CsiFinal(data, start)
  {
    i := start;
    while i < |data| && IsParameter(data[i])
      invariant start <= i <= |data|
      invariant SkipParameters(data, start) == SkipParameters(data, i)
    {
      i := i + 1;
    }
    ghost var p := i;
    while i < |data| && IsIntermediate(data[i])
      invariant p <= i <= |data|
      invariant SkipIntermediates(data, p) == SkipIntermediates(data, i)
    {
      i := i + 1;
    }
  }

  lemma ItemsStep(d: string, i: nat, a: Attr, open: bool)
    requires i < |d|
    ensures Items(Lex(d, i), a, open) ==
              match TokenAt(d, i).0 {
                case Visible(c) => [Char(c)] + Items(Lex(d, TokenAt(d, i).1), a, open)
                case Skip => Items(Lex(d, TokenAt(d, i).1), a, open)
                case Sgr(params) =>
                  var b := ApplySgr(a, params);
                  Restyle(open, b) + Items(Lex(d, TokenAt(d, i).1), b, Style(b) != "")
              }
  {
    hide TokenAt, Style, ApplySgr, Restyle;
    assert Lex(d, i)[1..] == Lex(d, TokenAt(d, i).1);
  }

  lemma WriteRestyle(open: bool, b: Attr)
    ensures WriteAll(Restyle(open, b)) ==
              (if open then CLOSE_SPAN else "") + (if Style(b) != "" then OPEN_SPAN + Style(b) + "\">" else "")
  {
    hide Style;
    WriteOne(Close);
    WriteOne(Open(Style(b)));
    var x: seq<Item> := if open then [Close] else [];
    WriteAppend(x, if Style(b) != "" then [Open(Style(b))] else []);
  }

  /** What the rest of the scan will write, given the state of the loop. */
  function Rest(d: string, i: nat, a: Attr, open: bool): string
    requires i <= |d|
  {
    WriteAll(Items(Lex(d, i), a, open))
  }

  lemma RestStep(d: string, i: nat, a: Attr, open: bool)
    requires i < |d|
    ensures Rest(d, i, a, open) ==
              match TokenAt(d, i).0 {
                case Visible(c) => Escape(c) + Rest(d, TokenAt(d, i).1, a, open)
                case Skip => Rest(d, TokenAt(d, i).1, a, open)
                case Sgr(params) =>
                  var b := ApplySgr(a, params);
                  ((if open then CLOSE_SPAN else "") + (if Style(b) != "" then OPEN_SPAN + Style(b) + "\">" else ""))
                  + Rest(d, TokenAt(d, i).1, b, Style(b) != "")
              }
  {
    hide TokenAt, Style, ApplySgr, Restyle, Items, Lex, WriteAll;
    ItemsStep(d, i, a, open);
    match TokenAt(d, i).0
    case Visible(c) =>
      WriteOne(Char(c));
      WriteAppend([Char(c)], Items(Lex(d, TokenAt(d, i).1), a, open));
    case Skip =>
    case Sgr(params) =>
      var b := ApplySgr(a, params);
      WriteRestyle(open, b);
      WriteAppend(Restyle(open, b), Items(Lex(d, TokenAt(d, i).1), b, Style(b) != ""));
  }

  lemma RestAtEnd(d: string, a: Attr, open: bool)
    ensures Rest(d, |d|, a, open) == if open then CLOSE_SPAN else ""
  {
    WriteOne(Close);
  }

  method ToHTML(data: string) returns (html: string)
    ensures html == Html(data)
  {
    hide Rest, TokenAt, Escape, Style, ApplySgr, CsiFinal, OscEnd;
    var b := "";
    var state, spanOpen, i := PLAIN, false, 0;
    while i < |data|
      invariant 0 <= i <= |data|
      invariant Rest(data, 0, PLAIN, false) == b + Rest(data, i, state, spanOpen)
    {
      RestStep(data, i, state, spanOpen);
      if data[i] != ESC {
        TokenIs(data, i, Visible(data[i]), i + 1);
        Assoc(b, Escape(data[i]), Rest(data, i + 1, state, spanOpen));
        b := b + Escape(data[i]);
        i := i + 1;
      } else if i + 1 == |data| {
        TokenIs(data, i, Skip, |data|);
        i := |data|;
      } else if data[i + 1] == '[' {
        var q := SkipCsi(data, i + 2);
        if q < |data| && data[q] == 'm' {
          var params := data[i + 2..q];
          TokenIs(data, i, Sgr(params), q + 1);
          var next := ApplySGR(state, params);
          var style := Style(next);
          var marks := (if spanOpen then CLOSE_SPAN else "") + (if style != "" then OPEN_SPAN + style + "\">" else "");
          Assoc(b, marks, Rest(data, q + 1, next, style != ""));
          b, state, spanOpen := b + marks, next, style != "";
          i := q + 1;
        } else {
          TokenIs(data, i, Skip, if q < |data| then q + 1 else q);
          i := if q < |data| then q + 1 else q;
        }
      } else if data[i + 1] == ']' {
        var e := SkipOsc(data, i + 2);
        TokenIs(data, i, Skip, e);
        i := e;
      } else {
        TokenIs(data, i, Skip, i + 2);
        i := i + 2;
      }
    }
    RestAtEnd(data, state, spanOpen);
    RestIsBody(data);
    html := PRE + (b + if spanOpen then CLOSE_SPAN else "") + END_PRE;
  }

  lemma RestIsBody(d: string)
    ensures Html(d) == PRE + Rest(d, 0, PLAIN, false) + END_PRE
  {
  }

  /** The token at `i`, case by case, as the loop decides it. */
  lemma TokenIs(d: string, i: nat, t: Token, next: nat)
    requires i < |d|
    requires var q := if IsCsi(d, i) then CsiFinal(d, i + 2) else 0;
             || (d[i] != ESC && t == Visible(d[i]) && next == i + 1)
             || (d[i] == ESC && i + 1 == |d| && t == Skip && next == |d|)
             || (IsCsi(d, i) && q == |d| && t == Skip && next == |d|)
             || (IsCsi(d, i) && q < |d| && d[q] == 'm' && t == Sgr(d[i + 2..q]) && next == q + 1)
             || (IsCsi(d, i) && q < |d| && d[q] != 'm' && t == Skip && next == q + 1)
             || (d[i] == ESC && i + 1 < |d| && d[i + 1] == ']' && t == Skip && next == OscEnd(d, i + 2))
             || (d[i] == ESC && i + 1 < |d| && d[i + 1] != '[' && d[i + 1] != ']' && t == Skip && next == i + 2)
    ensures TokenAt(d, i) == (t, next)
  {
  }
}
