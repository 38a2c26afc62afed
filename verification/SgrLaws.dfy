/** Select Graphic Rendition (section 8.3.117 of ECMA-48): the code loop against a declarative
    reading, "the newest parameter that concerns an attribute decides it". */
module SgrLaws {
  import opened Prelude
  import opened Text
  import opened AnsiHtml

  /** One rendition change: a single code, an indexed or direct colour with its operands, or words
      that change nothing. */
  datatype Op =
    | Code(n: int)
    | Indexed(foreground: bool, index: int)
    | Direct(foreground: bool, red: int, green: int, blue: int)
    | Nothing

  /** The change that begins with the word at `ci`, and where the next one begins. A word that is no
      number changes nothing; 38 and 48 take the following word as their mode, and without enough
      operands for it change nothing either. */
  function ReadOne(words: seq<string>, ci: nat): (r: (Op, nat))
    requires ci < |words|
    ensures ci < r.1
  {
    var (n, ok) := Atoi(words[ci]);
    if !ok then (Nothing, ci + 1)
    else if n != 38 && n != 48 then (Code(n), ci + 1)
    else if ci + 2 < |words| && Number(words, ci + 1) == 5 then (Indexed(n == 38, Number(words, ci + 2)), ci + 3)
    else if ci + 4 < |words| && Number(words, ci + 1) == 2 then
      (Direct(n == 38, Number(words, ci + 2), Number(words, ci + 3), Number(words, ci + 4)), ci + 5)
    else (Nothing, ci + 2)
  }

  /** The changes any parameter list stands for. */
  function Ops(words: seq<string>, ci: nat): seq<Op>
    decreases |words| - ci
  {
    if ci >= |words| then [] else [ReadOne(words, ci).0] + Ops(words, ReadOne(words, ci).1)
  }

  // ---- What each change says about each attribute -------------------------------------------------

  datatype Aspect = Bold | Italic | Underline | Foreground | Background

  datatype Value = Flag(on: bool) | Colour(css: string)

  function Get(a: Attr, x: Aspect): Value {
    match x
    case Bold => Flag(a.bold)
    case Italic => Flag(a.italic)
    case Underline => Flag(a.underline)
    case Foreground => Colour(a.fg)
    case Background => Colour(a.bg)
  }

  /** The codes that switch a flag on and off. */
  function Switch(x: Aspect): (int, int) {
    match x
    case Bold => (1, 22)
    case Italic => (3, 23)
    case _ => (4, 24)
  }

  /** The palette entry of code `n`, where `first` is the first dark colour. */
  function Named(n: int, first: int): Option<string> {
    if n == first + 9 then Some("")
    else if first <= n < first + 8 then Some(BASIC16[n - first])
    else if first + 60 <= n < first + 68 then Some(BASIC16[n - first - 60 + 8])
    else None
  }

  function Says(op: Op, x: Aspect): Option<Value> {
    if op == Code(0) then Some(Get(PLAIN, x))
    else if x.Foreground? || x.Background? then
      match op
      case Indexed(f, i) => if f == x.Foreground? then Some(Colour(Color256(i))) else None
      case Direct(f, r, g, b) => if f == x.Foreground? then Some(Colour(Rgb(r, g, b))) else None
      case Code(n) =>
        var c := Named(n, if x.Foreground? then 30 else 40);
        if c.Some? then Some(Colour(c.value)) else None
      case Nothing => None
    else if op == Code(Switch(x).0) then Some(Flag(true))
    else if op == Code(Switch(x).1) then Some(Flag(false))
    else None
  }

  /** No change of `ops` says anything about `x`. */
  predicate Silent(ops: seq<Op>, x: Aspect) {
    forall op <- ops :: Says(op, x).None?
  }

  /** Change `k` is the newest of `ops` that says anything about `x`. */
  predicate Newest(ops: seq<Op>, x: Aspect, k: int) {
    0 <= k < |ops| && Says(ops[k], x).Some? && Silent(ops[k + 1..], x)
  }

  /** `after` has, in aspect `x`, what the newest concerned change says, and the old value without one. */
  ghost predicate Decided(before: Attr, ops: seq<Op>, after: Attr, x: Aspect) {
    && (forall k :: Newest(ops, x, k) ==> Get(after, x) == Says(ops[k], x).value)
    && (Silent(ops, x) ==> Get(after, x) == Get(before, x))
  }

  // ---- The loop ------------------------------------------------------------------------------------

  /** One round of the loop reads one change and does what it says. */
  lemma RoundReads(a: Attr, words: seq<string>, ci: nat, x: Aspect)
    requires ci < |words|
    ensures CodeAt(a, words, ci).1 == ReadOne(words, ci).1
    ensures var said := Says(ReadOne(words, ci).0, x);
      Get(CodeAt(a, words, ci).0, x) == if said.Some? then said.value else Get(a, x)
  {
    hide Atoi, Color256, Rgb;
  }

  lemma DecidedCons(before: Attr, op: Op, mid: Attr, rest: seq<Op>, after: Attr, x: Aspect)
    requires Get(mid, x) == if Says(op, x).Some? then Says(op, x).value else Get(before, x)
    requires Decided(mid, rest, after, x)
    ensures Decided(before, [op] + rest, after, x)
  {
    hide Says, Get;
    var ops := [op] + rest;
    forall k | Newest(ops, x, k)
      ensures Get(after, x) == Says(ops[k], x).value
    {
      if k > 0 {
        assert ops[k + 1..] == rest[k..];
        assert Newest(rest, x, k - 1);
      } else {
        assert ops[1..] == rest;
      }
    }
    if Silent(ops, x) {
      assert op in ops;
    }
  }

  lemma {:induction false} LoopDecides(a: Attr, words: seq<string>, ci: nat, x: Aspect)
    ensures Decided(a, Ops(words, ci), ApplyCodes(a, words, ci), x)
    decreases |words| - ci
  {
    if ci < |words| {
      RoundReads(a, words, ci, x);
      hide CodeAt, ReadOne, Says, Get;
      var (mid, next) := CodeAt(a, words, ci);
      LoopDecides(mid, words, next, x);
      DecidedCons(a, ReadOne(words, ci).0, mid, Ops(words, next), ApplyCodes(mid, words, next), x);
    }
  }

  /** Main result, for every parameter string: each attribute ends as the newest change that concerns
      it says, and keeps its value if none does. An empty string resets everything. */
  lemma LastChangeWins(a: Attr, params: string, x: Aspect)
    ensures params == "" ==> ApplySgr(a, params) == PLAIN
    ensures params != "" ==> Decided(a, Ops(Split(params, ';'), 0), ApplySgr(a, params), x)
  {
    hide Split;
    LoopDecides(a, Split(params, ';'), 0, x);
  }

  // ---- Empty parameters ----------------------------------------------------------------------------

  /** The words as the standard reads them: an empty parameter stands for 0. */
  function Zeroed(words: seq<string>): (z: seq<string>)
    ensures |z| == |words|
  {
    if words == [] then [] else [if words[0] == "" then Itoa(0) else words[0]] + Zeroed(words[1..])
  }

  lemma {:induction false} ZeroedAt(words: seq<string>, i: nat)
    requires i < |words|
    ensures Zeroed(words)[i] == if words[i] == "" then Itoa(0) else words[i]
  {
    if i > 0 {
      ZeroedAt(words[1..], i - 1);
    }
  }

  lemma ZeroedNumber(words: seq<string>, i: nat)
    requires i < |words|
    ensures Number(Zeroed(words), i) == Number(words, i)
    ensures words[i] != "" ==> Zeroed(words)[i] == words[i]
    ensures words[i] == "" ==> Atoi(Zeroed(words)[i]) == (0, true) && Atoi(words[i]) == (0, false)
  {
    ZeroedAt(words, i);
    AtoiOfItoa(0);
    hide Itoa;
  }

  /** The round at an empty word resets in one reading and does nothing in the other; every other round
      is the same in both, since empty operands count as 0 anyway. */
  lemma ZeroedRound(a: Attr, words: seq<string>, ci: nat)
    requires ci < |words|
    ensures words[ci] == "" ==> CodeAt(a, words, ci) == (a, ci + 1)
    ensures words[ci] == "" ==> CodeAt(a, Zeroed(words), ci) == (PLAIN, ci + 1)
    ensures words[ci] != "" ==> CodeAt(a, Zeroed(words), ci) == CodeAt(a, words, ci)
  {
    ZeroedNumber(words, ci);
    if words[ci] == "" {
      hide Atoi, Zeroed, Extended;
    } else {
      forall i | ci < i < |words|
        ensures Number(Zeroed(words), i) == Number(words, i)
      {
        ZeroedNumber(words, i);
      }
      SameRound(a, words, Zeroed(words), ci);
    }
  }

  /** A round depends on its own word and on the numbers after it. */
  lemma SameRound(a: Attr, words: seq<string>, other: seq<string>, ci: nat)
    requires ci < |words| == |other| && other[ci] == words[ci]
    requires forall i :: ci < i < |words| ==> Number(other, i) == Number(words, i)
    ensures CodeAt(a, other, ci) == CodeAt(a, words, ci)
  {
    hide Atoi, Simple, Color256, Rgb, Number;
  }

  /** The last empty word that is read as a parameter of its own, from `ci` on. */
  function LastEmpty(words: seq<string>, ci: nat): (p: Option<nat>)
    ensures p.Some? ==> ci <= p.value < |words| && words[p.value] == ""
    decreases |words| - ci
  {
    if ci >= |words| then None
    else
      var later := LastEmpty(words, ReadOne(words, ci).1);
      if later.Some? then later else if words[ci] == "" then Some(ci) else None
  }

  lemma RoundNext(a: Attr, words: seq<string>, ci: nat)
    requires ci < |words|
    ensures CodeAt(a, words, ci).1 == ReadOne(words, ci).1
  {
    RoundReads(a, words, ci, Bold);
  }

  /** Without an empty parameter the two readings are the same. */
  lemma {:induction false} NoneEmpty(a: Attr, words: seq<string>, ci: nat)
    requires LastEmpty(words, ci) == None
    ensures ApplyCodes(a, Zeroed(words), ci) == ApplyCodes(a, words, ci)
    decreases |words| - ci
  {
    hide CodeAt, ReadOne, Zeroed;
    if ci < |words| {
      ZeroedRound(a, words, ci);
      RoundNext(a, words, ci);
      NoneEmpty(CodeAt(a, words, ci).0, words, CodeAt(a, words, ci).1);
    }
  }

  /** Both readings come to the last empty parameter, and what they make of it differs. */
  lemma {:induction false} UpToEmpty(a: Attr, b: Attr, words: seq<string>, ci: nat, p: nat)
    requires ci <= p && LastEmpty(words, ci) == Some(p)
    ensures ApplyCodes(a, words, ci) == ApplyCodes(ApplyCodes(a, words[..p], ci), words, p + 1)
    ensures ApplyCodes(b, Zeroed(words), ci) == ApplyCodes(PLAIN, words, p + 1)
    decreases |words| - ci
  {
    hide CodeAt, ReadOne, Zeroed;
    RoundNext(a, words, ci);
    RoundNext(b, words, ci);
    ZeroedRound(a, words, ci);
    ZeroedRound(b, words, ci);
    RoundNext(b, Zeroed(words), ci);
    if LastEmpty(words, ReadOne(words, ci).1) == None {
      assert p == ci;
      NoneEmpty(PLAIN, words, p + 1);
    } else {
      var next := ReadOne(words, ci).1;
      PrefixRound(a, words, ci, p);
      UpToEmpty(CodeAt(a, words, ci).0, CodeAt(b, Zeroed(words), ci).0, words, next, p);
    }
  }

  /** Cutting the list behind a round does not change the round. */
  lemma PrefixRound(a: Attr, words: seq<string>, ci: nat, p: nat)
    requires ci < |words| && ReadOne(words, ci).1 <= p <= |words|
    ensures CodeAt(a, words[..p], ci) == CodeAt(a, words, ci)
  {
    hide Atoi, Color256, Rgb;
  }

  /** From two different starts the same parameters lead to the same end exactly in the aspects that
      some parameter sets or that agreed before. */
  lemma SameEndExactly(a: Attr, b: Attr, words: seq<string>, ci: nat)
    ensures ApplyCodes(a, words, ci) == ApplyCodes(b, words, ci) <==>
            forall x :: Silent(Ops(words, ci), x) ==> Get(a, x) == Get(b, x)
  {
    var r, q := ApplyCodes(a, words, ci), ApplyCodes(b, words, ci);
    var ops := Ops(words, ci);
    forall x
      ensures Silent(ops, x) ==> Get(r, x) == Get(a, x) && Get(q, x) == Get(b, x)
      ensures !Silent(ops, x) ==> Get(r, x) == Get(q, x)
    {
      LoopDecides(a, words, ci, x);
      LoopDecides(b, words, ci, x);
      if !Silent(ops, x) {
        var k := NewestExists(ops, x);
        assert Newest(ops, x, k);
      }
    }
    SameAttr(r, q);
  }

  lemma {:induction false} NewestExists(ops: seq<Op>, x: Aspect) returns (k: nat)
    requires !Silent(ops, x)
    ensures Newest(ops, x, k)
    decreases |ops|
  {
    hide Says;
    var n := |ops| - 1;
    if Says(ops[n], x).Some? {
      k := n;
      assert ops[k + 1..] == [];
    } else {
      assert ops == ops[..n] + [ops[n]];
      k := NewestExists(ops[..n], x);
      assert ops[k + 1..] == ops[..n][k + 1..] + [ops[n]];
    }
  }

  lemma SameAttr(r: Attr, q: Attr)
    ensures r == q <==> forall x :: Get(r, x) == Get(q, x)
  {
    if forall x :: Get(r, x) == Get(q, x) {
      assert Get(r, Bold) == Get(q, Bold) && Get(r, Italic) == Get(q, Italic) && Get(r, Underline) == Get(q, Underline);
      assert Get(r, Foreground) == Get(q, Foreground) && Get(r, Background) == Get(q, Background);
    }
  }

  /** Every aspect is the default just before the last empty parameter, or is set again after it. */
  ghost predicate Harmless(a: Attr, words: seq<string>) {
    var p := LastEmpty(words, 0);
    p.Some? ==>
      forall x :: Silent(Ops(words, p.value + 1), x) ==> Get(ApplyCodes(a, words[..p.value], 0), x) == Get(PLAIN, x)
  }

  lemma EmptyWordsExactly(a: Attr, words: seq<string>)
    ensures ApplyCodes(a, words, 0) == ApplyCodes(a, Zeroed(words), 0) <==> Harmless(a, words)
  {
    var p := LastEmpty(words, 0);
    if p.Some? {
      UpToEmpty(a, a, words, 0, p.value);
      SameEndExactly(ApplyCodes(a, words[..p.value], 0), PLAIN, words, p.value + 1);
    } else {
      NoneEmpty(a, words, 0);
    }
  }

  /** The parameter string with every empty parameter written out as 0. */
  function Defaulted(params: string): string {
    if params == "" then "" else Params(Zeroed(Split(params, ';')))
  }

  /** The standard lets an empty parameter stand for 0, a reset; the loop skips it. For every parameter
      string the two readings give the same rendition if and only if, at the last empty parameter,
      every aspect is the default or is set again later. */
  lemma EmptyParameterExactly(a: Attr, params: string)
    ensures ApplySgr(a, params) == ApplySgr(a, Defaulted(params)) <==>
            params == "" || Harmless(a, Split(params, ';'))
  {
    if params != "" {
      var words := Split(params, ';');
      SplitPlain(params);
      ZeroedPlain(words);
      SplitParams(Zeroed(words));
      ParamsNotEmpty(Zeroed(words));
      EmptyWordsExactly(a, words);
      hide *;
      DefaultedApplies(a, params);
    }
  }

  lemma DefaultedApplies(a: Attr, params: string)
    requires params != "" && Params(Zeroed(Split(params, ';'))) != ""
    requires Split(Params(Zeroed(Split(params, ';'))), ';') == Zeroed(Split(params, ';'))
    ensures ApplySgr(a, params) == ApplyCodes(a, Split(params, ';'), 0)
    ensures ApplySgr(a, Defaulted(params)) == ApplyCodes(a, Zeroed(Split(params, ';')), 0)
  {
    hide Split, Zeroed, ApplyCodes, Params;
  }

  lemma {:induction false} SplitPlain(s: string)
    ensures forall w <- Split(s, ';') :: ';' !in w
    decreases |s|
  {
    CharIsFirst(s, ';', 0);
    match Cut(s, ';')
    case None =>
    case Some((head, tail)) => SplitPlain(tail);
  }

  lemma {:induction false} ZeroedPlain(words: seq<string>)
    requires forall w <- words :: ';' !in w
    ensures forall w <- Zeroed(words) :: ';' !in w && w != ""
    decreases |words|
  {
    ItoaPlain(0, ';');
    if words != [] {
      assert words[0] in words;
      ZeroedPlain(words[1..]);
    }
  }

  lemma ParamsNotEmpty(words: seq<string>)
    requires words != [] && forall w <- words :: w != ""
    ensures Params(words) != ""
  {
    assert words[0] in words;
  }

  /** Bold, then an empty parameter: the text stays bold, where the standard resets it. */
  lemma EmptyParameterKeepsBold()
    ensures ApplySgr(PLAIN, "1;") == PLAIN.(bold := true)
    ensures Defaulted("1;") == "1;0" && ApplySgr(PLAIN, "1;0") == PLAIN
  {
    assert "1;" == "1" + [';'] + "" && "1;0" == "1" + [';'] + "0";
    CutOf("1", ';', "");
    CutOf("1", ';', "0");
    CutNone("", ';');
    CutNone("0", ';');
    hide Cut;
    assert Split("1;", ';') == ["1"] + [""] && Split("1;0", ';') == ["1"] + ["0"];
    assert Itoa(0) == "0" && Itoa(1) == "1";
    AtoiOfItoa(0);
    AtoiOfItoa(1);
    hide Atoi, Itoa, Split;
    var one, two := ["1", ""], ["1", "0"];
    assert one[1..] == [""] && [""][1..] == [];
    assert Zeroed([""]) == ["0"] && Zeroed(one) == ["1"] + ["0"];
    assert two[1..] == ["0"] && Params(two) == "1" + [';'] + Params(["0"]);
    ZeroedRound(PLAIN.(bold := true), one, 1);
    assert ApplyCodes(PLAIN.(bold := true), one, 2) == PLAIN.(bold := true);
    assert ApplyCodes(PLAIN, two, 2) == PLAIN;
  }

  // ---- Well-formed parameters read back ------------------------------------------------------------

  predicate Representable(n: int) { -MAX_INT - 1 <= n <= MAX_INT }

  predicate GoodOp(op: Op) {
    match op
    case Code(n) => Representable(n) && n != 38 && n != 48
    case Indexed(_, i) => Representable(i)
    case Direct(_, r, g, b) => Representable(r) && Representable(g) && Representable(b)
    case Nothing => true
  }

  /** Nothing is written as an empty parameter. */
  function Words(op: Op): seq<string> {
    match op
    case Code(n) => [Itoa(n)]
    case Indexed(f, i) => [Itoa(if f then 38 else 48), Itoa(5), Itoa(i)]
    case Direct(f, r, g, b) => [Itoa(if f then 38 else 48), Itoa(2), Itoa(r), Itoa(g), Itoa(b)]
    case Nothing => [""]
  }

  function AllWords(ops: seq<Op>): seq<string> {
    if ops == [] then [] else Words(ops[0]) + AllWords(ops[1..])
  }

  function Params(words: seq<string>): string
    requires words != []
  {
    if |words| == 1 then words[0] else words[0] + [';'] + Params(words[1..])
  }

  lemma {:induction false} SplitParams(words: seq<string>)
    requires words != [] && forall w <- words :: ';' !in w
    ensures Split(Params(words), ';') == words
    decreases |words|
  {
    hide Cut;
    assert words[0] in words;
    if |words| == 1 {
      CutNone(words[0], ';');
    } else {
      CutOf(words[0], ';', Params(words[1..]));
      SplitParams(words[1..]);
      assert words == [words[0]] + words[1..];
    }
  }

  lemma ReadsCode(codes: seq<string>, ci: nat, n: int)
    requires GoodOp(Code(n)) && ci < |codes| && codes[ci] == Itoa(n)
    ensures ReadOne(codes, ci) == (Code(n), ci + 1)
  {
    hide Atoi, Itoa;
    AtoiOfItoa(n);
  }

  lemma ReadsIndexed(codes: seq<string>, ci: nat, f: bool, i: int)
    requires Representable(i) && ci + 2 < |codes|
    requires codes[ci] == Itoa(if f then 38 else 48) && codes[ci + 1] == Itoa(5) && codes[ci + 2] == Itoa(i)
    ensures ReadOne(codes, ci) == (Indexed(f, i), ci + 3)
  {
    hide Atoi, Itoa;
    AtoiOfItoa(if f then 38 else 48);
    AtoiOfItoa(5);
    AtoiOfItoa(i);
  }

  lemma ReadsDirect(codes: seq<string>, ci: nat, op: Op)
    requires op.Direct? && GoodOp(op) && ci + 4 < |codes|
    requires codes[ci] == Itoa(if op.foreground then 38 else 48) && codes[ci + 1] == Itoa(2)
    requires codes[ci + 2] == Itoa(op.red) && codes[ci + 3] == Itoa(op.green) && codes[ci + 4] == Itoa(op.blue)
    ensures ReadOne(codes, ci) == (op, ci + 5)
  {
    hide Atoi, Itoa;
    AtoiOfItoa(if op.foreground then 38 else 48);
    AtoiOfItoa(2);
    AtoiOfItoa(op.red);
    AtoiOfItoa(op.green);
    AtoiOfItoa(op.blue);
  }

  lemma ReadsOp(pre: seq<string>, op: Op, post: seq<string>)
    requires GoodOp(op)
    ensures ReadOne(pre + (Words(op) + post), |pre|) == (op, |pre| + |Words(op)|)
  {
    var codes := pre + (Words(op) + post);
    assert forall k :: 0 <= k < |Words(op)| ==> codes[|pre| + k] == Words(op)[k];
    hide Itoa;
    match op
    case Code(n) =>
      assert codes[|pre| + 0] == Itoa(n);
      ReadsCode(codes, |pre|, n);
    case Indexed(f, i) =>
      assert codes[|pre| + 0] == Itoa(if f then 38 else 48) && codes[|pre| + 1] == Itoa(5) && codes[|pre| + 2] == Itoa(i);
      ReadsIndexed(codes, |pre|, f, i);
    case Direct(f, r, g, b) =>
      assert codes[|pre| + 0] == Itoa(if f then 38 else 48) && codes[|pre| + 1] == Itoa(2);
      assert codes[|pre| + 2] == Itoa(r) && codes[|pre| + 3] == Itoa(g) && codes[|pre| + 4] == Itoa(b);
      ReadsDirect(codes, |pre|, op);
    case Nothing => assert codes[|pre| + 0] == "";
  }

  lemma {:induction false} ReadsAll(pre: seq<string>, ops: seq<Op>)
    requires forall op <- ops :: GoodOp(op)
    ensures Ops(pre + AllWords(ops), |pre|) == ops
    decreases |ops|
  {
    hide ReadOne, Words;
    if ops == [] {
      assert pre + AllWords(ops) == pre;
    } else {
      var op, rest := ops[0], AllWords(ops[1..]);
      ReadsOp(pre, op, rest);
      WordsNotEmpty(op);
      Assoc(pre, Words(op), rest);
      ReadsAll(pre + Words(op), ops[1..]);
      assert ops == [op] + ops[1..];
    }
  }

  lemma WordsNotEmpty(op: Op)
    ensures |Words(op)| > 0
  {
  }

  lemma {:induction false} WordsPlain(ops: seq<Op>)
    ensures forall w <- AllWords(ops) :: ';' !in w
    decreases |ops|
  {
    if ops != [] {
      WordsPlain(ops[1..]);
      forall w <- Words(ops[0]) ensures ';' !in w {
        if w != "" {
          var n :| w == Itoa(n);
          ItoaPlain(n, ';');
        }
      }
    }
  }

  /** Round trip: changes written as the parameters of one SGR sequence are read as those changes. */
  lemma WrittenIsRead(ops: seq<Op>)
    requires ops != [] && forall op <- ops :: GoodOp(op)
    ensures AllWords(ops) != [] && Ops(Split(Params(AllWords(ops)), ';'), 0) == ops
  {
    WordsNotEmpty(ops[0]);
    WordsPlain(ops);
    SplitParams(AllWords(ops));
    ReadsAll([], ops);
    assert [] + AllWords(ops) == AllWords(ops);
  }
}
