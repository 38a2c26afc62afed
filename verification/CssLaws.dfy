/** The CSS of a rendition: which declarations a style has, and which colours the palette holds. */
module CssLaws {
  import opened Prelude
  import opened Text
  import opened AnsiHtml
  import G = SgrLaws

  /** The declarations of a style attribute. */
  function Declarations(css: string): seq<string> {
    if css == "" then [] else Split(css, ';')
  }

  lemma {:induction false} JoinIsParams(parts: seq<string>)
    requires parts != []
    ensures Join(parts) == G.Params(parts)
    decreases |parts|
  {
    if |parts| > 1 {
      JoinIsParams(parts[1..]);
    }
  }

  lemma {:induction false} JoinNotEmpty(parts: seq<string>)
    requires parts != [] && forall p <- parts :: p != ""
    ensures Join(parts) != ""
  {
    assert parts[0] in parts;
  }

  lemma JoinReadsBack(parts: seq<string>)
    requires forall p <- parts :: p != "" && ';' !in p
    ensures Declarations(Join(parts)) == parts
  {
    hide Split, Join;
    if parts == [] {
      JoinOfNone();
    } else {
      JoinIsParams(parts);
      JoinNotEmpty(parts);
      G.SplitParams(parts);
    }
  }

  lemma JoinOfNone()
    ensures Join([]) == ""
  {
  }

  /** At most one declaration. */
  function When(b: bool, s: string): seq<string> {
    if b then [s] else []
  }

  /** Each attribute has its own declaration and no other: text is declared bold exactly if it is bold,
      and so on; the foreground is the `color`, the background the `background-color`. */
  lemma StyleDeclares(a: Attr)
    requires Clean(a)
    ensures Declarations(Style(a)) ==
      When(a.bold, "font-weight:bold") + When(a.italic, "font-style:italic")
      + When(a.underline, "text-decoration:underline")
      + When(a.fg != "", "color:" + a.fg) + When(a.bg != "", "background-color:" + a.bg)
  {
    var parts := When(a.bold, "font-weight:bold") + When(a.italic, "font-style:italic")
      + When(a.underline, "text-decoration:underline")
      + When(a.fg != "", "color:" + a.fg) + When(a.bg != "", "background-color:" + a.bg);
    JoinReadsBack(parts);
    assert Style(a) == Join(parts);
  }

  /** The colours of the palette: a 6x6x6 cube in steps of 51, then 24 greys from 8 in steps of 10; an
      index outside it is no colour. */
  lemma Palette(r: nat, g: nat, b: nat, k: nat, other: int)
    requires r < 6 && g < 6 && b < 6 && k < 24 && !(0 <= other <= 255)
    ensures Color256(16 + 36 * r + 6 * g + b) ==
            "rgb(" + Itoa(51 * r) + "," + Itoa(51 * g) + "," + Itoa(51 * b) + ")"
    ensures Color256(232 + k) ==
            "rgb(" + Itoa(8 + 10 * k) + "," + Itoa(8 + 10 * k) + "," + Itoa(8 + 10 * k) + ")"
    ensures Color256(other) == ""
  {
    hide Itoa;
    var i := 36 * r + 6 * g + b;
    assert i / 36 == r && i / 6 == 6 * r + g && i % 6 == b;
    assert i / 6 % 6 == g;
  }
}
