/** Both ANSI scanners against an independent writer of terminal output: text, control sequences,
    operating system commands and two-byte escapes, written down by their byte values. */
module TerminalText {
  import opened Prelude
  import opened Text
  import opened Ansi
  import O = Osc
  import S = Scrollback
  import H = AnsiHtml

  /** One piece of output. */
  datatype Piece =
    | Plain(text: string)
    | Csi(parameters: string, intermediates: string, final: char)
    | Command(body: string, bel: bool)       // OSC, ended by BEL or by ESC \
    | Short(c: char)                         // ESC and one byte

  predicate Within(s: string, low: int, high: int) {
    forall c <- s :: low <= c as int <= high
  }

  /** The bytes section 5.4 of ECMA-48 allows in each place; a command must not contain its own end. */
  predicate Good(p: Piece) {
    match p
    case Plain(text) => ESC !in text
    case Csi(ps, im, f) => Within(ps, 0x30, 0x3F) && Within(im, 0x20, 0x2F) && 0x40 <= f as int <= 0x7E
    case Command(body, _) => ESC !in body && BEL !in body
    case Short(c) => c != '[' && c != ']'
  }

  function Print(p: Piece): string {
    match p
    case Plain(text) => text
    case Csi(ps, im, f) => "\U{1b}[" + ps + im + [f]
    case Command(body, bel) => "\U{1b}]" + body + (if bel then "\U{07}" else "\U{1b}\\")
    case Short(c) => "\U{1b}" + [c]
  }

  function PrintAll(ps: seq<Piece>): string {
    if ps == [] then "" else Print(ps[0]) + PrintAll(ps[1..])
  }

  /** What a reader sees: the text. */
  function TextOf(ps: seq<Piece>): string {
    if ps == [] then "" else (if ps[0].Plain? then ps[0].text else "") + TextOf(ps[1..])
  }

  // ----- Strip -----

  /** An OSC sequence ends one past BEL, two past the ESC of ST, or at the end of the data. */
  lemma {:induction false} OscEndIs(d: string, i: nat)
    requires i <= |d|
    ensures var e := O.FindEnd(d, i);
      OscEnd(d, i) == if e < 0 then |d| else if d[e] == '\U{07}' then e + 1 else e + 2
    decreases |d| - i
  {
    if i < |d| {
      OscEndIs(d, i + 1);
    }
  }

  /** The scan of a command, with any text behind it. */
  lemma CommandEnds(body: string, bel: bool, t: string)
    requires Good(Command(body, bel))
    ensures OscEnd(Print(Command(body, bel)) + t, 2) == |Print(Command(body, bel))|
  {
    var esc := Print(Command(body, bel));
    var d, e := esc + t, 2 + |body|;
    forall k | 2 <= k < e
      ensures !O.EndsAt(d, k)
    {
      assert d[k] == body[k - 2] && body[k - 2] in body;
    }
    assert d[e] == (if bel then '\U{07}' else '\U{1b}') && (!bel ==> d[e + 1] == '\\');
    O.FindEndIs(d, 2, e);
    OscEndIs(d, 2);
  }

  lemma {:induction false} CsiEndsAt(d: string, i: nat, e: nat)
    requires i <= e < |d| && 0x40 <= d[e] as int <= 0x7E && forall k :: i <= k < e ==> d[k] as int < 0x40
    ensures StripCsiEnd(d, i) == e + 1
    decreases e - i
  {
    if i < e {
      CsiEndsAt(d, i + 1, e);
    }
  }

  /** One round of Strip takes one whole escape. */
  lemma EscapeIsOneRound(p: Piece, t: string)
    requires Good(p) && !p.Plain?
    ensures Print(p) != "" && (Print(p) + t)[0] == ESC && StripNext(Print(p) + t, 0) == |Print(p)|
  {
    var d := Print(p) + t;
    match p
    case Csi(ps, im, f) =>
      var e := |Print(p)| - 1;
      forall k | 2 <= k < e
        ensures d[k] as int < 0x40
      {
        if k < 2 + |ps| {
          assert d[k] == ps[k - 2] && ps[k - 2] in ps;
        } else {
          assert d[k] == im[k - 2 - |ps|] && im[k - 2 - |ps|] in im;
        }
      }
      assert d[e] == f;
      CsiEndsAt(d, 2, e);
    case Command(body, bel) => CommandEnds(body, bel, t);
    case Short(c) =>
  }

  lemma StripOne(p: Piece, t: string)
    requires Good(p)
    ensures StripFrom(Print(p) + t, 0) == (if p.Plain? then p.text else "") + StripFrom(t, 0)
  {
    if p.Plain? {
      S.PlainPrefix(p.text, t, 0);
      assert p.text[0..] == p.text;
    } else {
      EscapeIsOneRound(p, t);
      StripStep(Print(p) + t, 0);
      S.StripShift(Print(p), t, 0);
    }
  }

  /** Strip keeps the text and nothing else: for any sequence of pieces, whatever the bytes of their
      escapes, the stripped output is the text between them. */
  lemma {:induction false} StripOfPrinted(ps: seq<Piece>)
    requires forall p <- ps :: Good(p)
    ensures StripFrom(PrintAll(ps), 0) == TextOf(ps)
    decreases |ps|
  {
    if ps == [] {
      StripOfNothing("");
    } else {
      hide Print, StripFrom;
      StripOfPrinted(ps[1..]);
      StripOne(ps[0], PrintAll(ps[1..]));
    }
  }

  // ----- ToHTML -----

  lemma {:induction false} ParametersEnd(d: string, i: nat, e: nat)
    requires i <= e < |d| && !(0x30 <= d[e] as int <= 0x3F) && forall k :: i <= k < e ==> 0x30 <= d[k] as int <= 0x3F
    ensures SkipParameters(d, i) == e
    decreases e - i
  {
    if i < e {
      ParametersEnd(d, i + 1, e);
    }
  }

  lemma {:induction false} IntermediatesEnd(d: string, i: nat, e: nat)
    requires i <= e < |d| && !(0x20 <= d[e] as int <= 0x2F) && forall k :: i <= k < e ==> 0x20 <= d[k] as int <= 0x2F
    ensures SkipIntermediates(d, i) == e
    decreases e - i
  {
    if i < e {
      IntermediatesEnd(d, i + 1, e);
    }
  }

  lemma CsiIsRead(p: Piece, t: string)
    requires Good(p) && p.Csi?
    ensures |Print(p)| > 2 && CsiFinal(Print(p) + t, 2) == |Print(p)| - 1
    ensures (Print(p) + t)[|Print(p)| - 1] == p.final
    ensures (Print(p) + t)[2..|Print(p)| - 1] == p.parameters + p.intermediates
  {
    var ps, im, d := p.parameters, p.intermediates, Print(p) + t;
    var a, e := 2 + |ps|, |Print(p)| - 1;
    assert d[2..e] == ps + im;
    forall k | 2 <= k < a
      ensures 0x30 <= d[k] as int <= 0x3F
    {
      assert d[k] == ps[k - 2] && ps[k - 2] in ps;
    }
    forall k | a <= k < e
      ensures 0x20 <= d[k] as int <= 0x2F
    {
      assert d[k] == im[k - a] && im[k - a] in im;
    }
    assert d[e] == p.final;
    ParametersEnd(d, 2, a);
    IntermediatesEnd(d, a, e);
  }

  /** The token of one escape: SGR sequences carry their parameters, all others are skipped. */
  function TokenOf(p: Piece): Token
    requires !p.Plain?
  {
    if p.Csi? && p.final == 'm' then Sgr(p.parameters + p.intermediates) else Skip
  }

  lemma EscapeIsOneToken(p: Piece, t: string)
    requires Good(p) && !p.Plain?
    ensures Print(p) != "" && TokenAt(Print(p) + t, 0) == (TokenOf(p), |Print(p)|)
  {
    var d := Print(p) + t;
    assert d[0] == '\U{1b}';
    match p
    case Csi(_, _, _) => CsiIsRead(p, t);
    case Command(body, bel) => CommandEnds(body, bel, t);
    case Short(c) => assert d[1] == c;
  }

  lemma {:induction false} ParametersShift(a: string, b: string, i: nat)
    requires i <= |b|
    ensures SkipParameters(a + b, |a| + i) == |a| + SkipParameters(b, i)
    decreases |b| - i
  {
    if i < |b| && IsParameter(b[i]) {
      ParametersShift(a, b, i + 1);
    }
  }

  lemma {:induction false} IntermediatesShift(a: string, b: string, i: nat)
    requires i <= |b|
    ensures SkipIntermediates(a + b, |a| + i) == |a| + SkipIntermediates(b, i)
    decreases |b| - i
  {
    if i < |b| && IsIntermediate(b[i]) {
      IntermediatesShift(a, b, i + 1);
    }
  }

  lemma TokenShift(a: string, b: string, i: nat)
    requires i < |b|
    ensures TokenAt(a + b, |a| + i) == (TokenAt(b, i).0, |a| + TokenAt(b, i).1)
  {
    if i + 1 < |b| {
      assert (a + b)[|a| + i + 1] == b[i + 1];
      ParametersShift(a, b, i + 2);
      IntermediatesShift(a, b, SkipParameters(b, i + 2));
      S.OscShift(a, b, i + 2);
      SliceOfSuffix(a, b, i + 2, CsiFinal(b, i + 2));
    }
    assert (a + b)[|a| + i] == b[i];
    hide SkipParameters, SkipIntermediates, OscEnd;
  }

  lemma {:induction false} LexShift(a: string, b: string, i: nat)
    requires i <= |b|
    ensures Lex(a + b, |a| + i) == Lex(b, i)
    decreases |b| - i
  {
    if i < |b| {
      TokenShift(a, b, i);
      hide TokenAt;
      LexShift(a, b, TokenAt(b, i).1);
    }
  }

  function Letters(s: string): seq<Token> {
    if s == "" then [] else [Visible(s[0])] + Letters(s[1..])
  }

  function Tokens(ps: seq<Piece>): seq<Token> {
    if ps == [] then [] else (if ps[0].Plain? then Letters(ps[0].text) else [TokenOf(ps[0])]) + Tokens(ps[1..])
  }

  lemma {:induction false} LexOfText(s: string, t: string)
    requires ESC !in s
    ensures Lex(s + t, 0) == Letters(s) + Lex(t, 0)
    decreases |s|
  {
    if s == "" {
      assert s + t == t;
    } else {
      var d := s + t;
      assert s[0] in s && d[0] == s[0] && d == [s[0]] + (s[1..] + t);
      LexOfText(s[1..], t);
      LexShift([s[0]], s[1..] + t, 0);
      assert TokenAt(d, 0) == (Visible(s[0]), 1);
      Assoc([Visible(s[0])], Letters(s[1..]), Lex(t, 0));
    }
  }

  lemma LexOfEscape(p: Piece, t: string)
    requires Good(p) && !p.Plain?
    ensures Lex(Print(p) + t, 0) == [TokenOf(p)] + Lex(t, 0)
  {
    EscapeIsOneToken(p, t);
    LexShift(Print(p), t, 0);
    hide TokenAt, Print;
  }

  /** Both scanners read any printed output as the tokens of its pieces. */
  lemma {:induction false} LexOfPrinted(ps: seq<Piece>)
    requires forall p <- ps :: Good(p)
    ensures Lex(PrintAll(ps), 0) == Tokens(ps)
    decreases |ps|
  {
    if ps != [] {
      var rest := PrintAll(ps[1..]);
      assert Good(ps[0]);
      LexOfPrinted(ps[1..]);
      if ps[0].Plain? {
        LexOfText(ps[0].text, rest);
      } else {
        hide Print, Lex;
        LexOfEscape(ps[0], rest);
      }
    }
  }

  /** What the document should show: every text in the style its SGR sequences before it have built. */
  function Shown(ps: seq<Piece>, a: H.Attr): seq<H.Glyph> {
    if ps == [] then []
    else match ps[0]
      case Plain(text) => Glyphs(text, H.Style(a)) + Shown(ps[1..], a)
      case Csi(params, im, f) => Shown(ps[1..], if f == 'm' then H.ApplySgr(a, params + im) else a)
      case _ => Shown(ps[1..], a)
  }

  function Glyphs(s: string, style: string): seq<H.Glyph> {
    if s == "" then [] else [H.Glyph(s[0], style)] + Glyphs(s[1..], style)
  }

  lemma {:induction false} StyledLetters(s: string, ts: seq<Token>, a: H.Attr)
    ensures H.Styled(Letters(s) + ts, a) == Glyphs(s, H.Style(a)) + H.Styled(ts, a)
    decreases |s|
  {
    if s == "" {
      assert Letters(s) + ts == ts;
    } else {
      var all := Letters(s) + ts;
      assert all[0] == Visible(s[0]) && all[1..] == Letters(s[1..]) + ts;
      StyledLetters(s[1..], ts, a);
      Assoc([H.Glyph(s[0], H.Style(a))], Glyphs(s[1..], H.Style(a)), H.Styled(ts, a));
    }
  }

  lemma {:induction false} StyledTokens(ps: seq<Piece>, a: H.Attr)
    ensures H.Styled(Tokens(ps), a) == Shown(ps, a)
    decreases |ps|
  {
    hide H.Style, H.ApplySgr;
    if ps != [] {
      var p, rest := ps[0], Tokens(ps[1..]);
      if p.Plain? {
        StyledTokens(ps[1..], a);
        StyledLetters(p.text, rest, a);
      } else {
        assert ([TokenOf(p)] + rest)[1..] == rest;
        StyledTokens(ps[1..], a);
        if p.Csi? && p.final == 'm' {
          StyledTokens(ps[1..], H.ApplySgr(a, p.parameters + p.intermediates));
        }
      }
    }
  }

  /** ToHTML shows exactly the text of any printed output, each piece in the style built by the SGR
      sequences before it: no escape shows, and none hides what follows it. */
  lemma HtmlOfPrinted(ps: seq<Piece>)
    requires forall p <- ps :: Good(p)
    ensures H.Display(H.Html(PrintAll(ps))) == Some(Shown(ps, H.PLAIN))
  {
    LexOfPrinted(ps);
    H.HtmlShowsStyledText(PrintAll(ps));
    StyledTokens(ps, H.PLAIN);
  }

  /** A command that is never ended swallows all that follows. */
  lemma UnendedCommandSwallows(body: string)
    requires ESC !in body && BEL !in body
    ensures StripFrom("\U{1b}]" + body, 0) == ""
    ensures H.Display(H.Html("\U{1b}]" + body)) == Some([])
  {
    var d := "\U{1b}]" + body;
    forall k | 2 <= k < |d|
      ensures !O.EndsAt(d, k)
    {
      assert d[k] == body[k - 2] && body[k - 2] in body;
    }
    O.FindEndIs(d, 2, -1);
    OscEndIs(d, 2);
    StripStep(d, 0);
    StripOfNothing(d);
    assert TokenAt(d, 0) == (Skip, |d|) && Lex(d, 0) == [Skip] + Lex(d, |d|);
    H.HtmlShowsStyledText(d);
    assert [Skip][1..] == [];
  }

  /** One escape that is not SGR, anywhere before `t`, changes neither what Strip leaves of `t` nor what
      the document shows of it; the window title every shell prints, ended by BEL, is one. */
  lemma EscapeIsInvisible(p: Piece, t: string)
    requires Good(p) && !p.Plain? && !(p.Csi? && p.final == 'm')
    ensures StripFrom(Print(p) + t, 0) == StripFrom(t, 0)
    ensures H.Display(H.Html(Print(p) + t)) == H.Display(H.Html(t))
  {
    StripOne(p, t);
    assert "" + StripFrom(t, 0) == StripFrom(t, 0);
    LexOfEscape(p, t);
    H.HtmlShowsStyledText(Print(p) + t);
    H.HtmlShowsStyledText(t);
    hide StripFrom, Lex, H.Display, H.Html, Print;
    assert ([Skip] + Lex(t, 0))[1..] == Lex(t, 0);
  }
}
