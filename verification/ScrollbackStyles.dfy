/** The styles under which the rendered scrollback shows its cells, on a terminal where a style's SGR
    string replaces whatever style was in force (addons/charmvt/render.go). */
module ScrollbackStyles {
  import opened Prelude
  import opened Text
  import opened Ansi
  import opened Scrollback
  import H = AnsiHtml

  datatype Glyph = Glyph(c: char, style: Style)

  function All(s: string, style: Style): seq<Glyph> {
    if s == "" then [] else [Glyph(s[0], style)] + All(s[1..], style)
  }

  function StyleOf(sgr: string): Style {
    if sgr == RESET then Zero else Styled(sgr)
  }

  /** The reset the renderer writes is an SGR sequence that takes every attribute back to its default. */
  lemma ResetIsPlain(a: H.Attr, t: string)
    ensures TokenAt(RESET + t, 0) == (Sgr(""), |RESET|) && H.ApplySgr(a, "") == H.PLAIN
    ensures IsSgrString(RESET)
  {
    var d := RESET + t;
    assert d[0] == ESC && d[1] == '[' && d[2] == 'm';
    assert SkipParameters(d, 2) == 2 && SkipIntermediates(d, 2) == 2;
    assert d[2..2] == "";
  }

  /** What a terminal shows of `d`, starting in `style`. */
  function Show(d: string, style: Style): seq<Glyph>
    decreases |d|
  {
    if d == "" then []
    else if d[0] != ESC then [Glyph(d[0], style)] + Show(d[1..], style)
    else
      var n := StripNext(d, 0);
      Show(d[n..], if IsSgrString(d[..n]) then StyleOf(d[..n]) else style)
  }

  /** Written in style `from`, `s` shows `glyphs` and leaves style `to`, whatever follows. */
  ghost predicate Paints(s: string, from: Style, glyphs: seq<Glyph>, to: Style) {
    forall t :: Show(s + t, from) == glyphs + Show(t, to)
  }

  lemma {:induction false} PlainShow(s: string, t: string, style: Style)
    requires ESC !in s
    ensures Show(s + t, style) == All(s, style) + Show(t, style)
  {
    if s == "" {
      assert s + t == t;
    } else {
      assert (s + t)[0] == s[0] && s[0] in s && (s + t)[1..] == s[1..] + t;
      PlainShow(s[1..], t, style);
      Assoc([Glyph(s[0], style)], All(s[1..], style), Show(t, style));
    }
  }

  lemma PaintsPlain(s: string, style: Style)
    requires ESC !in s
    ensures Paints(s, style, All(s, style), style)
  {
    forall t ensures Show(s + t, style) == All(s, style) + Show(t, style) {
      PlainShow(s, t, style);
    }
  }

  lemma PaintsSgr(sgr: string, from: Style)
    requires IsSgrString(sgr)
    ensures Paints(sgr, from, [], StyleOf(sgr))
  {
    forall t ensures Show(sgr + t, from) == [] + Show(t, StyleOf(sgr)) {
      SgrEnds(sgr, t, 2);
      assert StripNext(sgr + t, 0) == |sgr|;
      assert (sgr + t)[..|sgr|] == sgr && (sgr + t)[|sgr|..] == t;
    }
  }

  lemma PaintsAppend(a: string, from: Style, x: seq<Glyph>, mid: Style, b: string, y: seq<Glyph>, to: Style)
    requires Paints(a, from, x, mid) && Paints(b, mid, y, to)
    ensures Paints(a + b, from, x + y, to)
  {
    forall t ensures Show(a + b + t, from) == x + y + Show(t, to) {
      Assoc(a, b, t);
      Assoc(x, y, Show(t, to));
      assert Show(a + (b + t), from) == x + Show(b + t, mid);
      assert Show(b + t, mid) == y + Show(t, to);
    }
  }

  lemma PaintsNothing(style: Style)
    ensures Paints("", style, [], style)
  {
    PaintsPlain("", style);
  }

  lemma {:induction false} AllAppend(a: string, b: string, style: Style)
    ensures All(a + b, style) == All(a, style) + All(b, style)
  {
    if a == "" {
      assert a + b == b;
    } else {
      assert (a + b)[0] == a[0] && (a + b)[1..] == a[1..] + b;
      AllAppend(a[1..], b, style);
      Assoc([Glyph(a[0], style)], All(a[1..], style), All(b, style));
    }
  }

  // ----- One row -----

  /** A style's string is not the reset. */
  predicate Distinct(row: Row) {
    forall c <- row :: c.Some? && c.value.style.Styled? ==> c.value.style.sgr != RESET
  }

  /** The style of the nearest shown cell to the left of column `x`, or `prev`. */
  function StyleLeft(row: Row, x: nat, prev: Style): Style {
    if x == 0 then prev
    else if Blank(CellAt(row, x - 1)) then StyleLeft(row, x - 1, prev)
    else CellAt(row, x - 1).value.style
  }

  /** Shown cells appear in their own style, blanks in the style of what is to their left. */
  function Painted(row: Row, n: nat, prev: Style): seq<Glyph> {
    if n == 0 then []
    else
      var cell := CellAt(row, n - 1);
      Painted(row, n - 1, prev)
      + All(CellText(cell), if Blank(cell) then StyleLeft(row, n - 1, prev) else cell.value.style)
  }

  lemma {:induction false} StyleKept(row: Row, n: nat, prev: Style)
    ensures RowOut(row, n, prev).1 == StyleLeft(row, n, prev)
  {
    if n > 0 {
      hide Spaces, CellText;
      StyleKept(row, n - 1, prev);
    }
  }

  lemma PaintedStep(row: Row, x: nat, prev: Style)
    ensures Painted(row, 0, prev) == []
    ensures Painted(row, x + 1, prev) == Painted(row, x, prev)
      + All(CellText(CellAt(row, x)), if Blank(CellAt(row, x)) then StyleLeft(row, x, prev) else CellAt(row, x).value.style)
  {
    hide All, CellText, StyleLeft;
  }

  lemma OneMoreSpace(n: nat, style: Style)
    ensures Spaces(0) == "" && All("", style) == []
    ensures All(Spaces(n + 1), style) == All(Spaces(n), style) + All(" ", style)
  {
    AllAppend(Spaces(n), " ", style);
  }

  lemma {:induction false} HeldBackBlanks(row: Row, n: nat, prev: Style)
    ensures StyleLeft(row, LastShown(row, n), prev) == StyleLeft(row, n, prev)
    ensures Painted(row, n, prev) ==
      Painted(row, LastShown(row, n), prev) + All(Spaces(n - LastShown(row, n)), StyleLeft(row, n, prev))
    decreases n
  {
    hide Painted, All, Spaces;
    var k, style := LastShown(row, n), StyleLeft(row, n, prev);
    if n > 0 && Blank(CellAt(row, n - 1)) {
      HeldBackBlanks(row, n - 1, prev);
      PaintedStep(row, n - 1, prev);
      OneMoreSpace(n - 1 - k, style);
      Assoc(Painted(row, k, prev), All(Spaces(n - 1 - k), style), All(" ", style));
    } else {
      OneMoreSpace(0, style);
      assert Painted(row, n, prev) + [] == Painted(row, n, prev);
    }
  }

  lemma PaintsStyleChange(cell: Cell, style: Style)
    requires GoodCell(Some(cell)) && (cell.style.Styled? ==> cell.style.sgr != RESET)
    ensures Paints(if cell.style != style then SgrFor(cell.style) else "", style, [], cell.style)
  {
    hide Paints;
    if cell.style != style {
      PaintsSgr(SgrFor(cell.style), style);
    } else {
      PaintsNothing(style);
    }
  }

  lemma {:induction false} RowPaints(row: Row, n: nat, prev: Style)
    requires GoodRow(row) && Distinct(row)
    ensures Paints(RowOut(row, n, prev).0, prev, Painted(row, LastShown(row, n), prev), RowOut(row, n, prev).1)
    decreases n
  {
    hide Paints, Show, All, Spaces;
    if n == 0 {
      PaintsNothing(prev);
    } else {
      RowPaints(row, n - 1, prev);
      if !Blank(CellAt(row, n - 1)) {
        RowPaintsCell(row, n, prev);
      }
    }
  }

  lemma CellPaints(line: string, from: Style, shown: seq<Glyph>, style: Style, held: nat, cell: Cell)
    requires Paints(line, from, shown, style)
    requires GoodCell(Some(cell)) && (cell.style.Styled? ==> cell.style.sgr != RESET)
    ensures Paints(line + Spaces(held) + (if cell.style != style then SgrFor(cell.style) else "") + CellText(Some(cell)),
                   from, shown + All(Spaces(held), style) + All(CellText(Some(cell)), cell.style), cell.style)
  {
    hide Paints, All, Spaces, SgrFor;
    SpacesPlain(held);
    PaintsPlain(Spaces(held), style);
    var spaced := shown + All(Spaces(held), style);
    PaintsAppend(line, from, shown, style, Spaces(held), All(Spaces(held), style), style);
    PaintsStyleChange(cell, style);
    var change := if cell.style != style then SgrFor(cell.style) else "";
    PaintsAppend(line + Spaces(held), from, spaced, style, change, [], cell.style);
    assert spaced + [] == spaced;
    PaintsPlain(CellText(Some(cell)), cell.style);
    PaintsAppend(line + Spaces(held) + change, from, spaced, cell.style,
                 CellText(Some(cell)), All(CellText(Some(cell)), cell.style), cell.style);
  }

  lemma CellIsGood(row: Row, x: nat)
    requires GoodRow(row) && Distinct(row) && CellAt(row, x).Some?
    ensures var cell := CellAt(row, x).value;
      GoodCell(Some(cell)) && (cell.style.Styled? ==> cell.style.sgr != RESET)
  {
    assert row[x] in row;
  }

  lemma RowPaintsCell(row: Row, n: nat, prev: Style)
    requires GoodRow(row) && Distinct(row) && 0 < n && !Blank(CellAt(row, n - 1))
    requires Paints(RowOut(row, n - 1, prev).0, prev, Painted(row, LastShown(row, n - 1), prev), RowOut(row, n - 1, prev).1)
    ensures Paints(RowOut(row, n, prev).0, prev, Painted(row, n, prev), RowOut(row, n, prev).1)
  {
    var cell, held := CellAt(row, n - 1).value, n - 1 - LastShown(row, n - 1);
    CellIsGood(row, n - 1);
    hide *;
    RowOutCell(row, n, prev, cell, held);
    PaintedCell(row, n, prev, cell, held);
    CellPaints(RowOut(row, n - 1, prev).0, prev, Painted(row, LastShown(row, n - 1), prev),
               RowOut(row, n - 1, prev).1, held, cell);
  }

  lemma RowOutCell(row: Row, n: nat, prev: Style, cell: Cell, held: nat)
    requires 0 < n && CellAt(row, n - 1) == Some(cell) && !Blank(Some(cell)) && held == n - 1 - LastShown(row, n - 1)
    ensures var (line, style) := RowOut(row, n - 1, prev);
      RowOut(row, n, prev) ==
        (line + Spaces(held) + (if cell.style != style then SgrFor(cell.style) else "") + CellText(Some(cell)), cell.style)
  {
    hide RowOut, Spaces, SgrFor, CellText, CellAt, LastShown, Blank;
    RowOutStep(row, n - 1, prev);
  }

  lemma PaintedCell(row: Row, n: nat, prev: Style, cell: Cell, held: nat)
    requires 0 < n && CellAt(row, n - 1) == Some(cell) && !Blank(Some(cell)) && held == n - 1 - LastShown(row, n - 1)
    ensures Painted(row, n, prev) ==
      Painted(row, LastShown(row, n - 1), prev) + All(Spaces(held), RowOut(row, n - 1, prev).1)
      + All(CellText(Some(cell)), cell.style)
  {
    hide RowOut, Painted, All, Spaces, CellText, CellAt, LastShown, Blank, StyleLeft;
    PaintedStep(row, n - 1, prev);
    StyleKept(row, n - 1, prev);
    HeldBackBlanks(row, n - 1, prev);
  }

  // ----- When every cell appears in its own style -----

  function Own(row: Row, n: nat): seq<Glyph> {
    if n == 0 then []
    else
      var cell := CellAt(row, n - 1);
      Own(row, n - 1) + All(CellText(cell), if cell.None? then Zero else cell.value.style)
  }

  /** Column `x` is a default-styled blank to the right of a styled cell. */
  predicate Bleeds(row: Row, x: nat) {
    Blank(CellAt(row, x)) && StyleLeft(row, x, Zero) != Zero
  }

  lemma {:induction false} AllStyles(s: string, a: Style, b: Style)
    ensures |All(s, a)| == |s|
    ensures s != "" ==> (All(s, a) == All(s, b) <==> a == b)
  {
    if s != "" {
      AllStyles(s[1..], a, b);
      assert All(s, a)[0] == Glyph(s[0], a) && All(s, b)[0] == Glyph(s[0], b);
    }
  }

  lemma {:induction false} SameLength(row: Row, n: nat)
    ensures |Painted(row, n, Zero)| == |Own(row, n)|
  {
    if n > 0 {
      var cell := CellAt(row, n - 1);
      SameLength(row, n - 1);
      AllStyles(CellText(cell), Zero, StyleLeft(row, n - 1, Zero));
      if cell.Some? {
        AllStyles(CellText(cell), cell.value.style, Zero);
      }
    }
  }

  /** Of the first `n` columns each appears in its own style if and only if none of them is a
      default-styled blank to the right of a styled cell: such a blank takes over that style. */
  lemma {:induction false} OwnStyleExactly(row: Row, n: nat)
    ensures Painted(row, n, Zero) == Own(row, n) <==> forall x :: 0 <= x < n ==> !Bleeds(row, x)
    decreases n
  {
    if n > 0 {
      var cell := CellAt(row, n - 1);
      var a := if Blank(cell) then StyleLeft(row, n - 1, Zero) else cell.value.style;
      var b := if cell.None? then Zero else cell.value.style;
      OwnStyleExactly(row, n - 1);
      SameLength(row, n - 1);
      hide Painted, Own, All;
      OneColumn(row, n);
      SplitEqual(Painted(row, n - 1, Zero), Own(row, n - 1), All(CellText(cell), a), All(CellText(cell), b));
      AllStyles(CellText(cell), a, b);
      assert a == b <==> !Bleeds(row, n - 1);
    }
  }

  lemma OneColumn(row: Row, n: nat)
    requires 0 < n
    ensures var cell := CellAt(row, n - 1);
      && CellText(cell) != ""
      && Painted(row, n, Zero) == Painted(row, n - 1, Zero)
           + All(CellText(cell), if Blank(cell) then StyleLeft(row, n - 1, Zero) else cell.value.style)
      && Own(row, n) == Own(row, n - 1) + All(CellText(cell), if cell.None? then Zero else cell.value.style)
  {
    hide All;
  }

  lemma SplitEqual(a: seq<Glyph>, b: seq<Glyph>, x: seq<Glyph>, y: seq<Glyph>)
    requires |a| == |b|
    ensures a + x == b + y <==> a == b && x == y
  {
    if a + x == b + y {
      assert a == (a + x)[..|a|] && b == (b + y)[..|a|];
      assert x == (a + x)[|a|..] && y == (b + y)[|a|..];
    }
  }

  // ----- The whole scrollback -----

  /** Rows `first` up to `last` as shown; a line end that is not the last appears in the style of its row. */
  function Screen(rows: seq<Row>, cols: nat, first: nat, last: nat): seq<Glyph>
    requires first <= last <= |rows|
  {
    if last == first then []
    else
      Screen(rows, cols, first, last - 1)
      + (if last - 1 > first then All(CRLF, RowOut(rows[last - 2], cols, Zero).1) else [])
      + Painted(rows[last - 1], LastShown(rows[last - 1], cols), Zero)
  }

  lemma PaintsReset(style: Style)
    ensures Paints(ResetAfter(style), style, [], Zero)
  {
    hide Paints;
    if style == Zero {
      PaintsNothing(style);
    } else {
      PaintsSgr(RESET, style);
    }
  }

  lemma ScreenStep(rows: seq<Row>, cols: nat, first: nat, y: nat)
    requires first <= y < |rows|
    ensures Screen(rows, cols, first, y + 1) ==
      Screen(rows, cols, first, y)
      + (if y > first then All(CRLF, RowOut(rows[y - 1], cols, Zero).1) else [])
      + Painted(rows[y], LastShown(rows[y], cols), Zero)
  {
    hide RowOut, Painted, All;
  }

  lemma NoLines(rows: seq<Row>, cols: nat, first: nat)
    requires first <= |rows|
    ensures LinesOut(rows, cols, first, first) == ("", Zero) && Screen(rows, cols, first, first) == []
    ensures Paints("", Zero, [], Zero)
  {
    PaintsNothing(Zero);
    hide Paints;
  }

  lemma LinePaints(out: string, shown: seq<Glyph>, style: Style, row: Row, cols: nat, ends: bool)
    requires GoodRow(row) && Distinct(row) && Paints(out, Zero, shown, style)
    ensures Paints(out + (if ends then CRLF else "") + ResetAfter(style) + RowOut(row, cols, Zero).0, Zero,
                   shown + (if ends then All(CRLF, style) else []) + Painted(row, LastShown(row, cols), Zero),
                   RowOut(row, cols, Zero).1)
  {
    hide Paints, RowOut, Painted, All, ResetAfter;
    var crlf := if ends then CRLF else "";
    var end := if ends then All(CRLF, style) else [];
    if ends {
      PaintsPlain(CRLF, style);
    } else {
      PaintsNothing(style);
    }
    PaintsAppend(out, Zero, shown, style, crlf, end, style);
    PaintsReset(style);
    PaintsAppend(out + crlf, Zero, shown + end, style, ResetAfter(style), [], Zero);
    assert shown + end + [] == shown + end;
    RowPaints(row, cols, Zero);
    PaintsAppend(out + crlf + ResetAfter(style), Zero, shown + end, Zero, RowOut(row, cols, Zero).0,
                 Painted(row, LastShown(row, cols), Zero), RowOut(row, cols, Zero).1);
  }

  lemma {:induction false} LinesPaint(rows: seq<Row>, cols: nat, first: nat, last: nat)
    requires first <= last <= |rows| && forall row <- rows :: GoodRow(row) && Distinct(row)
    ensures Paints(LinesOut(rows, cols, first, last).0, Zero, Screen(rows, cols, first, last),
                   LinesOut(rows, cols, first, last).1)
    ensures last > first ==> LinesOut(rows, cols, first, last).1 == RowOut(rows[last - 1], cols, Zero).1
    decreases last
  {
    hide Paints, RowOut, Painted, All, ResetAfter, Screen, LinesOut, GoodRow, Distinct;
    if last == first {
      NoLines(rows, cols, first);
    } else {
      var y := last - 1;
      LinesPaint(rows, cols, first, y);
      LinesOutStep(rows, cols, first, y);
      ScreenStep(rows, cols, first, y);
      assert rows[y] in rows;
      LinePaints(LinesOut(rows, cols, first, y).0, Screen(rows, cols, first, y), LinesOut(rows, cols, first, y).1,
                 rows[y], cols, y > first);
    }
  }

  /** The output of RenderScrollbackFrom shows, row by row, every shown cell in its own style and
      every held-back blank in the style to its left, and ends in the default style. */
  lemma ScrollbackShows(rows: seq<Row>, cols: nat, first: nat)
    requires first < |rows| && forall row <- rows :: GoodRow(row) && Distinct(row)
    ensures var (out, style) := LinesOut(rows, cols, first, |rows|);
      Show(out + ResetAfter(style) + CRLF, Zero) == Screen(rows, cols, first, |rows|) + All(CRLF, Zero)
  {
    var (out, style) := LinesOut(rows, cols, first, |rows|);
    var shown := Screen(rows, cols, first, |rows|);
    LinesPaint(rows, cols, first, |rows|);
    PaintsReset(style);
    PaintsAppend(out, Zero, shown, style, ResetAfter(style), [], Zero);
    assert shown + [] == shown;
    PaintsPlain(CRLF, Zero);
    PaintsAppend(out + ResetAfter(style), Zero, shown, Zero, CRLF, All(CRLF, Zero), Zero);
    var whole := out + ResetAfter(style) + CRLF;
    assert whole + "" == whole && Show("", Zero) == [];
    assert Show(whole + "", Zero) == shown + All(CRLF, Zero) + Show("", Zero);
  }

  /** A blank between a styled and a plain letter takes the style of the first. */
  lemma BlankBleeds(sgr: string)
    ensures var row := [Some(Cell("a", Styled(sgr))), None, Some(Cell("b", Zero))];
      && LastShown(row, 3) == 3 && Bleeds(row, 1)
      && Painted(row, 3, Zero) == [Glyph('a', Styled(sgr)), Glyph(' ', Styled(sgr)), Glyph('b', Zero)]
      && Own(row, 3) == [Glyph('a', Styled(sgr)), Glyph(' ', Zero), Glyph('b', Zero)]
  {
    var row := [Some(Cell("a", Styled(sgr))), None, Some(Cell("b", Zero))];
    assert "a"[1..] == "" && "b"[1..] == "" && " "[1..] == "";
    assert Painted(row, 1, Zero) == [] + All("a", Styled(sgr));
    assert Painted(row, 2, Zero) == Painted(row, 1, Zero) + All(" ", Styled(sgr));
    assert Own(row, 1) == [] + All("a", Styled(sgr));
    assert Own(row, 2) == Own(row, 1) + All(" ", Zero);
  }
}
