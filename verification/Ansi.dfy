/** The two ANSI scanners, Strip and ToHTML (internal/platform/ansi), against one
    reading of control sequences: CSI P..P I..I F (section 5.4 of ECMA-48), OSC
    ended by BEL or ST, and two-byte escapes. */
module Ansi {
  import opened Prelude
  import opened Text

  // ----- Control sequences -----

  predicate IsParameter(c: char) { '0' <= c <= '?' }
  predicate IsIntermediate(c: char) { ' ' <= c <= '/' }
  predicate IsFinal(c: char) { '@' <= c <= '~' }

  function SkipParameters(d: string, i: nat): (j: nat)
    requires i <= |d|
    ensures i <= j <= |d|
    decreases |d| - i
  {
    if i < |d| && IsParameter(d[i]) then SkipParameters(d, i + 1) else i
  }

  function SkipIntermediates(d: string, i: nat): (j: nat)
    requires i <= |d|
    ensures i <= j <= |d|
    decreases |d| - i
  {
    if i < |d| && IsIntermediate(d[i]) then SkipIntermediates(d, i + 1) else i
  }

  /** Where the final byte of the CSI sequence with body at `i` belongs. */
  function CsiFinal(d: string, i: nat): (j: nat)
    requires i <= |d|
    ensures i <= j <= |d|
  {
    SkipIntermediates(d, SkipParameters(d, i))
  }

  /** Past the terminator of the OSC sequence with body at `i`. */
  function OscEnd(d: string, i: nat): (j: nat)
    requires i <= |d|
    ensures i <= j <= |d|
    decreases |d| - i
  {
    if i == |d| then i
    else if d[i] == BEL then i + 1
    else if d[i] == ESC && i + 1 < |d| && d[i + 1] == '\\' then i + 2
    else OscEnd(d, i + 1)
  }

  datatype Token = Visible(c: char) | Sgr(params: string) | Skip

  /** The token at `i` and the position after it. */
  function TokenAt(d: string, i: nat): (r: (Token, nat))
    requires i < |d|
    ensures i < r.1 <= |d|
  {
    if d[i] != ESC then (Visible(d[i]), i + 1)
    else if i + 1 == |d| then (Skip, |d|)
    else if d[i + 1] == '[' then
      var q := CsiFinal(d, i + 2);
      if q == |d| then (Skip, |d|)
      else if d[q] == 'm' then (Sgr(d[i + 2..q]), q + 1)
      else (Skip, q + 1)
    else if d[i + 1] == ']' then (Skip, OscEnd(d, i + 2))
    else (Skip, i + 2)
  }

  function Lex(d: string, i: nat): seq<Token>
    requires i <= |d|
    decreases |d| - i
  {
    if i == |d| then [] else [TokenAt(d, i).0] + Lex(d, TokenAt(d, i).1)
  }

  function VisibleText(ts: seq<Token>): string {
    if ts == [] then "" else (if ts[0].Visible? then [ts[0].c] else "") + VisibleText(ts[1..])
  }

  // ----- Strip -----

  /** Strip leaves a CSI sequence after the first byte in the final range. */
  function StripCsiEnd(d: string, i: nat): (j: nat)
    requires i <= |d|
    ensures i <= j <= |d|
    decreases |d| - i
  {
    if i == |d| then i else if IsFinal(d[i]) then i + 1 else StripCsiEnd(d, i + 1)
  }

  function StripNext(d: string, i: nat): (j: nat)
    requires i < |d|
    ensures i < j <= |d|
  {
    if d[i] != ESC then i + 1
    else if i + 1 == |d| then |d|
    else if d[i + 1] == '[' then StripCsiEnd(d, i + 2)
    else if d[i + 1] == ']' then OscEnd(d, i + 2)
    else i + 2
  }

  function StripFrom(d: string, i: nat): string
    requires i <= |d|
    decreases |d| - i
  {
    if i == |d| then "" else (if d[i] != ESC then [d[i]] else "") + StripFrom(d, StripNext(d, i))
  }

  lemma StripStep(d: string, i: nat)
    requires i < |d|
    ensures StripFrom(d, i) == (if d[i] != ESC then [d[i]] else "") + StripFrom(d, StripNext(d, i))
    ensures StripFrom(d, |d|) == ""
  {
    hide StripNext;
  }

  method Strip(data: string) returns (text: string)
    ensures text == StripFrom(data, 0)
  {
    hide StripFrom;
    text := "";
    var i := 0;
    if data != "" {
      StripStep(data, 0);
    } else {
      StripOfNothing(data);
    }
    while i < |data|
      invariant 0 <= i <= |data|
      invariant StripFrom(data, 0) == text + StripFrom(data, i)
    {
      ghost var start := i;
      StripStep(data, i);
      if data[i] == ESC {
        i := i + 1;
        if i >= |data| {
          break;
        }
        match data[i]
        case '[' =>
          i := StripCsi(data, i + 1);
        case ']' =>
          i := SkipOsc(data, i + 1);
        case _ =>
          i := i + 1;
      } else {
        Assoc(text, [data[i]], StripFrom(data, i + 1));
        text := text + [data[i]];
        i := i + 1;
      }
      assert i == StripNext(data, start);
    }
  }

  lemma StripOfNothing(d: string)
    ensures StripFrom(d, |d|) == ""
  {
  }

  method StripCsi(data: string, start: nat) returns (i: nat)
    requires start <= |data|
    ensures i == StripCsiEnd(data, start)
  {
    i := start;
    while i < |data|
      invariant start <= i <= |data|
      invariant StripCsiEnd(data, start) == StripCsiEnd(data, i)
    {
      var b := data[i];
      i := i + 1;
      if IsFinal(b) {
        break;
      }
    }
  }

  method SkipOsc(data: string, start: nat) returns (i: nat)
    requires start <= |data|
    ensures i == OscEnd(data, start)
  {
    i := start;
    while i < |data|
      invariant start <= i <= |data|
      invariant OscEnd(data, start) == OscEnd(data, i)
    {
      if data[i] == BEL {
        i := i + 1;
        break;
      }
      if data[i] == ESC && i + 1 < |data| && data[i + 1] == '\\' {
        i := i + 2;
        break;
      }
      i := i + 1;
    }
  }

  // ----- Where the two scanners agree -----

  predicate IsCsi(d: string, i: nat) {
    i + 1 < |d| && d[i] == ESC && d[i + 1] == '['
  }

  /** The byte in final position is a final byte, or the data ends at or right after it. */
  predicate CsiAgrees(d: string, i: nat)
    requires IsCsi(d, i)
  {
    var q := CsiFinal(d, i + 2);
    q == |d| || IsFinal(d[q]) || q + 1 == |d|
  }

  lemma {:induction false} StripOverIntermediates(d: string, i: nat)
    requires i <= |d|
    ensures StripCsiEnd(d, i) == StripCsiEnd(d, SkipIntermediates(d, i))
    decreases |d| - i
  {
    if i < |d| && IsIntermediate(d[i]) {
      StripOverIntermediates(d, i + 1);
    }
  }

  lemma {:induction false} StripOverParameters(d: string, i: nat)
    requires i <= |d|
    ensures StripCsiEnd(d, i) == StripCsiEnd(d, SkipParameters(d, i))
    decreases |d| - i
  {
    if i < |d| && IsParameter(d[i]) {
      StripOverParameters(d, i + 1);
    }
  }

  /** Both scanners leave a CSI sequence at the same byte exactly when it agrees. */
  lemma SameCsiEndExactly(d: string, i: nat)
    requires IsCsi(d, i)
    ensures StripNext(d, i) == TokenAt(d, i).1 <==> CsiAgrees(d, i)
  {
    var q := CsiFinal(d, i + 2);
    StripOverParameters(d, i + 2);
    StripOverIntermediates(d, SkipParameters(d, i + 2));
    assert StripCsiEnd(d, i + 2) == StripCsiEnd(d, q);
    if q + 1 < |d| && !IsFinal(d[q]) {
      assert StripCsiEnd(d, q) == StripCsiEnd(d, q + 1);
    }
  }

  /** Every CSI sequence met from `i` on agrees. */
  predicate InStep(d: string, i: nat)
    requires i <= |d|
    decreases |d| - i
  {
    i == |d| || ((IsCsi(d, i) ==> CsiAgrees(d, i)) && InStep(d, TokenAt(d, i).1))
  }

  lemma StepsAgree(d: string, i: nat)
    requires i < |d| && InStep(d, i)
    ensures StripNext(d, i) == TokenAt(d, i).1
    ensures d[i] != ESC <==> TokenAt(d, i).0.Visible?
    ensures d[i] != ESC ==> TokenAt(d, i).0.c == d[i]
  {
    hide CsiFinal, StripCsiEnd, OscEnd;
    if IsCsi(d, i) {
      SameCsiEndExactly(d, i);
    }
  }

  lemma {:induction false} StripIsVisibleText(d: string, i: nat)
    requires i <= |d| && InStep(d, i)
    ensures StripFrom(d, i) == VisibleText(Lex(d, i))
    decreases |d| - i
  {
    hide StripNext, TokenAt, CsiAgrees;
    if i < |d| {
      StepsAgree(d, i);
      StripIsVisibleText(d, TokenAt(d, i).1);
      assert Lex(d, i)[1..] == Lex(d, TokenAt(d, i).1);
    }
  }

  // ----- Outside the agreement -----

  const STRAY: string := [ESC, '[', '\U{01}', 'A']

  lemma StraySteps()
    ensures CsiFinal(STRAY, 2) == 2 && StripCsiEnd(STRAY, 2) == 4
  {
    assert StripCsiEnd(STRAY, 3) == 4;
  }

  /** A control byte inside a CSI sequence makes the scanners differ: ToHTML takes
      it as the final byte and shows the A, Strip swallows the A. */
  lemma StrayByteDiffers()
    ensures !InStep(STRAY, 0) && StripFrom(STRAY, 0) == "" && VisibleText(Lex(STRAY, 0)) == "A"
  {
    StraySteps();
    StripStep(STRAY, 0);
    assert TokenAt(STRAY, 0) == (Skip, 3) && TokenAt(STRAY, 3) == (Visible('A'), 4);
    assert Lex(STRAY, 3) == [Visible('A')] + Lex(STRAY, 4);
    assert Lex(STRAY, 0) == [Skip] + Lex(STRAY, 3);
    assert Lex(STRAY, 0)[1..] == [Visible('A')] && [Visible('A')][1..] == [];
  }

  const CHANCE: string := [ESC, '[', '\U{01}', '5', ESC, '[', '5']

  lemma ChanceSteps()
    ensures CsiFinal(CHANCE, 2) == 2 && StripCsiEnd(CHANCE, 2) == 6 && CsiFinal(CHANCE, 6) == 7
  {
    assert StripCsiEnd(CHANCE, 5) == 6;
    assert StripCsiEnd(CHANCE, 4) == 6;
    assert StripCsiEnd(CHANCE, 3) == 6;
    assert SkipParameters(CHANCE, 7) == 7;
  }

  /** Out of step the texts may still coincide by accident, so agreement of the
      scanners is sufficient and not necessary for equal text. */
  lemma TextsMayCoincide()
    ensures !InStep(CHANCE, 0) && StripFrom(CHANCE, 0) == "5" == VisibleText(Lex(CHANCE, 0))
  {
    ChanceSteps();
    StripStep(CHANCE, 0);
    StripStep(CHANCE, 6);
    assert TokenAt(CHANCE, 0) == (Skip, 3) && TokenAt(CHANCE, 3) == (Visible('5'), 4) && TokenAt(CHANCE, 4) == (Skip, 7);
    assert Lex(CHANCE, 4) == [Skip] + Lex(CHANCE, 7) == [Skip];
    assert Lex(CHANCE, 3) == [Visible('5'), Skip];
    assert Lex(CHANCE, 0) == [Skip, Visible('5'), Skip];
    assert [Skip, Visible('5'), Skip][1..] == [Visible('5'), Skip] && [Visible('5'), Skip][1..] == [Skip];
    assert VisibleText([Skip]) == "" + VisibleText([Skip][1..]) == "";
    assert VisibleText([Visible('5'), Skip]) == "5";
  }

  /** Strip removes every ESC, so stripping again changes nothing. */
  lemma {:induction false} NoEscapeSurvives(d: string, i: nat)
    requires i <= |d|
    ensures ESC !in StripFrom(d, i)
    decreases |d| - i
  {
    hide StripNext;
    if i < |d| {
      NoEscapeSurvives(d, StripNext(d, i));
    }
  }

  lemma {:induction false} StripOfPlain(d: string, i: nat)
    requires i <= |d| && ESC !in d
    ensures StripFrom(d, i) == d[i..]
    decreases |d| - i
  {
    if i < |d| {
      assert d[i] in d;
      StripOfPlain(d, i + 1);
    }
  }

  lemma StripIsIdempotent(d: string)
    ensures StripFrom(StripFrom(d, 0), 0) == StripFrom(d, 0)
  {
    NoEscapeSurvives(d, 0);
    StripOfPlain(StripFrom(d, 0), 0);
  }
}
