/** The scrollback renderer (addons/charmvt/render.go): a grid of cells written
    as ANSI text, and what Strip makes of it. */
module Scrollback {
  import opened Prelude
  import opened Text
  import opened Ansi

  /** A style is zero, or the SGR string the terminal library gives for it. */
  datatype Style = Zero | Styled(sgr: string)

  datatype Cell = Cell(content: string, style: Style)

  type Row = seq<Option<Cell>>

  /** ESC [ followed by parameter bytes and m. */
  predicate IsSgrString(s: string) {
    && |s| >= 3 && s[0] == ESC && s[1] == '[' && s[|s| - 1] == 'm'
    && forall k :: 2 <= k < |s| - 1 ==> IsParameter(s[k])
  }

  predicate GoodCell(c: Option<Cell>) {
    c.Some? ==> ESC !in c.value.content && (c.value.style.Styled? ==> IsSgrString(c.value.style.sgr))
  }

  predicate GoodRow(row: Row) {
    forall c <- row :: GoodCell(c)
  }

  /** ScrollbackCellAt: nil beyond the stored cells. */
  function CellAt(row: Row, x: nat): Option<Cell> {
    if x < |row| then row[x] else None
  }

  const RESET: string := [ESC, '[', 'm']
  const CRLF := "\r\n"

  function SgrFor(s: Style): string {
    if s.Zero? then RESET else s.sgr
  }

  // ----- The text a reader expects -----

  /** Nil, or blank content in the default style. */
  predicate Blank(c: Option<Cell>) {
    c.None? || ((c.value.content == "" || c.value.content == " ") && c.value.style.Zero?)
  }

  function CellText(c: Option<Cell>): string {
    if c.None? || c.value.content == "" then " " else c.value.content
  }

  /** Text of the first `n` columns, blanks included. */
  function Columns(row: Row, n: nat): string {
    if n == 0 then "" else Columns(row, n - 1) + CellText(CellAt(row, n - 1))
  }

  /** The column after the last one that is not blank, among the first `n`. */
  function LastShown(row: Row, n: nat): (k: nat)
    ensures k <= n
  {
    if n == 0 then 0 else if Blank(CellAt(row, n - 1)) then LastShown(row, n - 1) else n
  }

  /** The cell is missing, or empty or a space, in no style: nothing of it needs to be shown. */
  predicate Shows(c: Option<Cell>) {
    c.Some? && (c.value.style != Zero || (c.value.content != "" && c.value.content != " "))
  }

  /** Every column from there on shows nothing, and the one before it does. */
  lemma {:induction false} LastShownExactly(row: Row, n: nat)
    ensures forall x :: LastShown(row, n) <= x < n ==> !Shows(CellAt(row, x))
    ensures LastShown(row, n) > 0 ==> Shows(CellAt(row, LastShown(row, n) - 1))
    decreases n
  {
    if n > 0 && Blank(CellAt(row, n - 1)) {
      LastShownExactly(row, n - 1);
    }
  }

  /** With cells of one character the text has one character per column: the cell's own, or a space. */
  lemma {:induction false} ColumnsAreCells(row: Row, n: nat, x: nat)
    requires x < n && forall c <- row :: c.Some? ==> |c.value.content| <= 1
    ensures |Columns(row, n)| == n
    ensures Columns(row, n)[x] ==
            if CellAt(row, x).None? || CellAt(row, x).value.content == "" then ' ' else CellAt(row, x).value.content[0]
    decreases n
  {
    if n > 1 {
      ColumnsAreCells(row, n - 1, if x < n - 1 then x else 0);
    }
  }

  /** The row with its trailing default-styled blanks removed. */
  function RowText(row: Row, cols: nat): string {
    Columns(row, LastShown(row, cols))
  }

  /** Rows from..to, one line each. */
  function Lines(rows: seq<Row>, cols: nat, from: nat, to: nat): string
    requires from <= to <= |rows|
  {
    if to == from then "" else Lines(rows, cols, from, to - 1) + RowText(rows[to - 1], cols) + CRLF
  }

  function Spaces(n: nat): string {
    if n == 0 then "" else Spaces(n - 1) + " "
  }

  lemma {:induction false} BlanksAreSpaces(row: Row, n: nat)
    ensures Columns(row, n) == Columns(row, LastShown(row, n)) + Spaces(n - LastShown(row, n))
    decreases n
  {
    if n > 0 && Blank(CellAt(row, n - 1)) {
      BlanksAreSpaces(row, n - 1);
      Assoc(Columns(row, LastShown(row, n)), Spaces(n - 1 - LastShown(row, n)), " ");
    }
  }

  lemma {:induction false} SpacesPlain(n: nat)
    ensures ESC !in Spaces(n)
  {
    if n > 0 {
      SpacesPlain(n - 1);
    }
  }

  // ----- Text that Strip can process piece by piece -----

  /** `s` strips to `text` on its own and before any continuation. */
  ghost predicate Strips(s: string, text: string) {
    forall t :: StripFrom(s + t, 0) == text + StripFrom(t, 0)
  }

  lemma {:induction false} StripShift(a: string, b: string, i: nat)
    requires i <= |b|
    ensures StripFrom(a + b, |a| + i) == StripFrom(b, i)
    decreases |b| - i
  {
    hide StripFrom, StripNext;
    if i < |b| {
      NextShift(a, b, i);
      StripStep(a + b, |a| + i);
      StripStep(b, i);
      assert (a + b)[|a| + i] == b[i];
      StripShift(a, b, StripNext(b, i));
    } else {
      StripOfNothing(a + b);
      StripOfNothing(b);
    }
  }

  lemma NextShift(a: string, b: string, i: nat)
    requires i < |b|
    ensures StripNext(a + b, |a| + i) == |a| + StripNext(b, i)
  {
    hide StripCsiEnd, OscEnd;
    if IsCsi(b, i) {
      CsiShift(a, b, i + 2);
    } else if b[i] == ESC && i + 1 < |b| && b[i + 1] == ']' {
      OscShift(a, b, i + 2);
    }
  }

  lemma {:induction false} CsiShift(a: string, b: string, i: nat)
    requires i <= |b|
    ensures StripCsiEnd(a + b, |a| + i) == |a| + StripCsiEnd(b, i)
    decreases |b| - i
  {
    if i < |b| && !IsFinal(b[i]) {
      CsiShift(a, b, i + 1);
    }
  }

  lemma {:induction false} OscShift(a: string, b: string, i: nat)
    requires i <= |b|
    ensures OscEnd(a + b, |a| + i) == |a| + OscEnd(b, i)
    decreases |b| - i
  {
    if i < |b| && b[i] != BEL && !(b[i] == ESC && i + 1 < |b| && b[i + 1] == '\\') {
      OscShift(a, b, i + 1);
    }
  }

  lemma {:induction false} PlainPrefix(s: string, t: string, i: nat)
    requires ESC !in s && i <= |s|
    ensures StripFrom(s + t, i) == s[i..] + StripFrom(t, 0)
    decreases |s| - i
  {
    if i == |s| {
      StripShift(s, t, 0);
    } else {
      assert s[i] in s;
      PlainPrefix(s, t, i + 1);
      assert s[i..] == [s[i]] + s[i + 1..];
      Assoc([s[i]], s[i + 1..], StripFrom(t, 0));
    }
  }

  lemma PlainStrips(s: string)
    requires ESC !in s
    ensures Strips(s, s)
  {
    forall t ensures StripFrom(s + t, 0) == s + StripFrom(t, 0) {
      PlainPrefix(s, t, 0);
    }
  }

  lemma {:induction false} SgrEnds(s: string, t: string, i: nat)
    requires IsSgrString(s) && 2 <= i < |s|
    ensures StripCsiEnd(s + t, i) == |s|
    decreases |s| - i
  {
    if i < |s| - 1 {
      assert IsParameter(s[i]);
      SgrEnds(s, t, i + 1);
    }
  }

  lemma SgrStrips(s: string)
    requires IsSgrString(s)
    ensures Strips(s, "")
  {
    forall t ensures StripFrom(s + t, 0) == "" + StripFrom(t, 0) {
      SgrEnds(s, t, 2);
      assert StripNext(s + t, 0) == |s|;
      StripStep(s + t, 0);
      StripShift(s, t, 0);
    }
  }

  lemma StripsAppend(a: string, x: string, b: string, y: string)
    requires Strips(a, x) && Strips(b, y)
    ensures Strips(a + b, x + y)
  {
    forall t ensures StripFrom(a + b + t, 0) == x + y + StripFrom(t, 0) {
      Assoc(a, b, t);
      Assoc(x, y, StripFrom(t, 0));
      assert StripFrom(a + (b + t), 0) == x + StripFrom(b + t, 0);
      assert StripFrom(b + t, 0) == y + StripFrom(t, 0);
    }
  }

  lemma StripsWhole(s: string, text: string)
    requires Strips(s, text)
    ensures StripFrom(s, 0) == text
  {
    assert s + "" == s;
    assert StripFrom(s + "", 0) == text + StripFrom("", 0);
  }

  // ----- The renderer -----

  /** What the first `n` columns write, and the style in force after them. */
  function RowOut(row: Row, n: nat, prev: Style): (string, Style) {
    if n == 0 then ("", prev)
    else
      var (line, style) := RowOut(row, n - 1, prev);
      var cell := CellAt(row, n - 1);
      if Blank(cell) then (line, style)
      else
        (line + Spaces(n - 1 - LastShown(row, n - 1))
              + (if cell.value.style != style then SgrFor(cell.value.style) else "")
              + CellText(cell), cell.value.style)
  }

  lemma RowOutStep(row: Row, x: nat, prev: Style)
    ensures var (line, style) := RowOut(row, x, prev);
      RowOut(row, x + 1, prev) ==
        if Blank(CellAt(row, x)) then (line, style)
        else (line + Spaces(x - LastShown(row, x))
                   + (if CellAt(row, x).value.style != style then SgrFor(CellAt(row, x).value.style) else "")
                   + CellText(CellAt(row, x)), CellAt(row, x).value.style)
    ensures RowOut(row, 0, prev) == ("", prev)
  {
    hide Spaces, SgrFor, CellText;
  }

  /** One line: spaces are held back until a shown cell follows, the style is
      written when it changes. Returns the style in force at the end. */
  method RenderRow(row: Row, cols: nat, prev: Style) returns (line: string, style: Style)
    requires GoodRow(row)
    ensures Strips(line, RowText(row, cols))
    ensures (line, style) == RowOut(row, cols, prev)
  {
    hide StripFrom, Strips, Columns, RowOut;
    line, style := "", prev;
    var trailing := 0;
    PlainStrips("");
    ColumnsOfNone(row);
    RowOutStep(row, 0, prev);
    for x := 0 to cols
      invariant trailing == x - LastShown(row, x)
      invariant (line, style) == RowOut(row, x, prev)
      invariant Strips(line, Columns(row, LastShown(row, x)))
    {
      var cell := CellAt(row, x);
      RowOutStep(row, x, prev);
      if Blank(cell) {
        trailing := trailing + 1;
        continue;
      }
      assert GoodCell(cell);
      BlanksAreSpaces(row, x);
      SpacesPlain(trailing);
      PlainStrips(Spaces(trailing));
      StripsAppend(line, Columns(row, LastShown(row, x)), Spaces(trailing), Spaces(trailing));
      line := line + Spaces(trailing);
      trailing := 0;
      ghost var text := Columns(row, x);
      if cell.value.style != style {
        SgrStrips(SgrFor(cell.value.style));
        StripsAppend(line, text, SgrFor(cell.value.style), "");
        assert text + "" == text;
        line := line + SgrFor(cell.value.style);
        style := cell.value.style;
      }
      assert line + "" == line;
      PlainStrips(CellText(cell));
      StripsAppend(line, text, CellText(cell), CellText(cell));
      line := line + if cell.value.content == "" then " " else cell.value.content;
      ColumnsStep(row, x);
    }
  }

  lemma ColumnsOfNone(row: Row)
    ensures Columns(row, 0) == ""
  {
  }

  lemma ColumnsStep(row: Row, x: nat)
    ensures Columns(row, x + 1) == Columns(row, x) + CellText(CellAt(row, x))
  {
  }

  function ResetAfter(style: Style): string {
    if style.Zero? then "" else RESET
  }

  /** The rows from..to as written, without the final reset and line end. */
  function LinesOut(rows: seq<Row>, cols: nat, from: nat, to: nat): (string, Style)
    requires from <= to <= |rows|
  {
    if to == from then ("", Zero)
    else
      var (out, style) := LinesOut(rows, cols, from, to - 1);
      var (line, after) := RowOut(rows[to - 1], cols, Zero);
      (out + (if to - 1 > from then CRLF else "") + ResetAfter(style) + line, after)
  }

  lemma LinesOutStep(rows: seq<Row>, cols: nat, from: nat, y: nat)
    requires from <= y < |rows|
    ensures LinesOut(rows, cols, from, y + 1) ==
      (LinesOut(rows, cols, from, y).0 + (if y > from then CRLF else "") + ResetAfter(LinesOut(rows, cols, from, y).1)
       + RowOut(rows[y], cols, Zero).0, RowOut(rows[y], cols, Zero).1)
    ensures LinesOut(rows, cols, from, from) == ("", Zero)
  {
    hide RowOut, ResetAfter;
  }

  /** A reset after styled text changes no text. */
  method ResetIfStyled(buf: string, style: Style, ghost text: string) returns (out: string, after: Style)
    requires Strips(buf, text)
    ensures Strips(out, text) && after == Zero && out == buf + ResetAfter(style)
  {
    if style.Zero? {
      assert buf + "" == buf;
      return buf, style;
    }
    SgrStrips(RESET);
    StripsAppend(buf, text, RESET, "");
    assert text + "" == text;
    out, after := buf + RESET, Zero;
  }

  /** Strip of the rendered scrollback is, line by line, each row's text without
      trailing default-styled blanks, each followed by one CRLF. */
  method RenderScrollbackFrom(rows: seq<Row>, cols: nat, from: nat) returns (out: string)
    requires forall row <- rows :: GoodRow(row)
    ensures from >= |rows| ==> out == ""
    ensures from < |rows| ==> StripFrom(out, 0) == Lines(rows, cols, from, |rows|)
    ensures from < |rows| ==>
      out == LinesOut(rows, cols, from, |rows|).0 + ResetAfter(LinesOut(rows, cols, from, |rows|).1) + CRLF
  {
    hide StripFrom, Strips, RowText, RowOut, LinesOut, ResetAfter;
    if |rows| == 0 || from >= |rows| {
      return "";
    }
    out := "";
    var style := Zero;
    ghost var text := "";
    PlainStrips("");
    PlainStrips(CRLF);
    LinesOutStep(rows, cols, from, from);
    for y := from to |rows|
      invariant Strips(out, text)
      invariant (out, style) == LinesOut(rows, cols, from, y)
      invariant y == from ==> text == ""
      invariant y > from ==> text + CRLF == Lines(rows, cols, from, y)
    {
      LinesOutStep(rows, cols, from, y);
      if y > from {
        StripsAppend(out, text, CRLF, CRLF);
        out, text := out + CRLF, text + CRLF;
      } else {
        assert out + "" == out;
      }
      out, style := ResetIfStyled(out, style, text);
      assert rows[y] in rows;
      var line, s := RenderRow(rows[y], cols, style);
      StripsAppend(out, text, line, RowText(rows[y], cols));
      out, style, text := out + line, s, text + RowText(rows[y], cols);
    }
    out, style := ResetIfStyled(out, style, text);
    StripsAppend(out, text, CRLF, CRLF);
    out := out + CRLF;
    StripsWhole(out, text + CRLF);
  }
}
