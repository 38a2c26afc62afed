/** Byte strings. A byte is modelled as the character with that code, so every
    statement about strings covers all byte strings. */
module Text {
  import opened Prelude

  const ESC: char := '\U{1b}'
  const BEL: char := '\U{07}'
  const NL: char := '\n'

  /** Index of the first `c` at or after `i`, or -1. */
  function FindChar(s: string, c: char, i: nat): (r: int)
    requires i <= |s|
    ensures r == -1 || (i <= r < |s| && s[r] == c)
    decreases |s| - i
  {
    if i == |s| then -1 else if s[i] == c then i else FindChar(s, c, i + 1)
  }

  predicate PairAt(s: string, a: char, b: char, k: int) {
    0 <= k && k + 1 < |s| && s[k] == a && s[k + 1] == b
  }

  /** Index of the first adjacent pair `a` `b` at or after `i`, or -1. */
  function FindPair(s: string, a: char, b: char, i: nat): (r: int)
    requires i <= |s|
    ensures r == -1 || (i <= r && PairAt(s, a, b, r))
    decreases |s| - i
  {
    if i + 1 >= |s| then -1 else if s[i] == a && s[i + 1] == b then i else FindPair(s, a, b, i + 1)
  }

  lemma {:induction false} CharIsFirst(s: string, c: char, i: nat)
    requires i <= |s|
    ensures var r := FindChar(s, c, i); forall k :: i <= k < (if r < 0 then |s| else r) ==> s[k] != c
    decreases |s| - i
  {
    if i < |s| && s[i] != c {
      CharIsFirst(s, c, i + 1);
    }
  }

  lemma {:induction false} PairIsFirst(s: string, a: char, b: char, i: nat)
    requires i <= |s|
    ensures var r := FindPair(s, a, b, i); forall k :: i <= k < (if r < 0 then |s| else r) ==> !PairAt(s, a, b, k)
    decreases |s| - i
  {
    if i + 1 < |s| && !PairAt(s, a, b, i) {
      PairIsFirst(s, a, b, i + 1);
    }
  }

  /** A pair with none before it is the one the search finds. */
  lemma FindPairIs(s: string, a: char, b: char, i: nat, r: int)
    requires i <= |s| && (r == -1 || (i <= r && PairAt(s, a, b, r)))
    requires forall k :: i <= k < (if r < 0 then |s| else r) ==> !PairAt(s, a, b, k)
    ensures FindPair(s, a, b, i) == r
  {
    PairIsFirst(s, a, b, i);
  }

  /** strings.SplitN(s, c, 2): the text before and after the first `c`. */
  function Cut(s: string, c: char): Option<(string, string)> {
    var k := FindChar(s, c, 0);
    if k < 0 then None else Some((s[..k], s[k + 1..]))
  }

  /** strings.Split(s, ";") */
  function Split(s: string, c: char): (parts: seq<string>)
    ensures |parts| > 0
    decreases |s|
  {
    match Cut(s, c)
    case None => [s]
    case Some((head, tail)) => [head] + Split(tail, c)
  }

  predicate IsDigit(c: char) {
    '0' <= c <= '9'
  }

  function Digits(s: string): nat
    requires forall c <- s :: IsDigit(c)
  {
    if s == [] then 0 else
      assert IsDigit(s[|s| - 1]);
      Digits(s[..|s| - 1]) * 10 + (s[|s| - 1] as int - '0' as int)
  }

  const MAX_INT := 0x7fff_ffff_ffff_ffff

  /** strconv.Atoi on 64-bit: the value it returns and whether its error is nil.
      A malformed number gives 0, one out of range is clamped. */
  function Atoi(s: string): (int, bool) {
    var signed := s != [] && (s[0] == '+' || s[0] == '-');
    var body := if signed then s[1..] else s;
    if body == [] || exists c <- body :: !IsDigit(c) then (0, false)
    else
      var v: int := Digits(body);
      if signed && s[0] == '-' then
        if v > MAX_INT + 1 then (-MAX_INT - 1, false) else (-v, true)
      else if v > MAX_INT then (MAX_INT, false) else (v, true)
  }

  function Digit(n: nat): char
    requires n < 10
  {
    '0' + n as char
  }

  /** strconv.Itoa */
  function Itoa(n: int): string
    decreases n < 0, if n < 0 then -n else n
  {
    if n < 0 then "-" + Itoa(-n)
    else if n < 10 then [Digit(n)]
    else Itoa(n / 10) + [Digit(n % 10)]
  }

  predicate AllDigits(s: string) {
    forall c <- s :: IsDigit(c)
  }

  lemma {:induction false} ItoaDigits(n: nat)
    ensures Itoa(n) != [] && AllDigits(Itoa(n)) && Digits(Itoa(n)) == n
  {
    if n >= 10 {
      ItoaDigits(n / 10);
      var s := Itoa(n / 10);
      assert Itoa(n) == s + [Digit(n % 10)];
      assert (s + [Digit(n % 10)])[..|s|] == s;
    } else {
      assert Itoa(n) == [Digit(n)] && [Digit(n)][..0] == [];
    }
  }

  /** Reading back a decimal number. */
  lemma AtoiOfItoa(n: int)
    requires -MAX_INT - 1 <= n <= MAX_INT
    ensures Atoi(Itoa(n)) == (n, true)
  {
    hide Digits;
    if n < 0 {
      ItoaDigits(-n);
      assert Itoa(n)[1..] == Itoa(-n);
    } else {
      ItoaDigits(n);
      assert Itoa(n)[0] in Itoa(n);
    }
  }

  /** A plus sign is accepted; a number out of range is clamped and reported as an error. */
  lemma AtoiOfOthers(n: nat)
    ensures Atoi("+" + Itoa(n)) == if n <= MAX_INT then (n, true) else (MAX_INT, false)
    ensures n > MAX_INT ==> Atoi(Itoa(n)) == (MAX_INT, false)
    ensures n > MAX_INT + 1 ==> Atoi("-" + Itoa(n)) == (-MAX_INT - 1, false)
  {
    hide Digits;
    ItoaDigits(n);
    assert Itoa(n)[0] in Itoa(n);
    assert ("+" + Itoa(n))[1..] == Itoa(n) && ("-" + Itoa(n))[1..] == Itoa(n);
  }

  /** Anything but digits after an optional sign, or no digits at all, is 0 and an error. */
  lemma AtoiOfMalformed(s: string, i: nat)
    requires s in {"", "+", "-"} || (i < |s| && !IsDigit(s[i]) && (i > 0 || (s[0] != '+' && s[0] != '-')))
    ensures Atoi(s) == (0, false)
  {
    if s !in {"", "+", "-"} {
      var body := if s[0] == '+' || s[0] == '-' then s[1..] else s;
      assert s[i] == body[if s[0] == '+' || s[0] == '-' then i - 1 else i];
      assert s[i] in body;
    }
  }

  lemma ItoaPlain(n: int, c: char)
    requires !IsDigit(c) && c != '-'
    ensures c !in Itoa(n)
  {
    if n < 0 {
      ItoaDigits(-n);
    } else {
      ItoaDigits(n);
    }
  }

  /** Cutting at the separator gives back both sides. */
  lemma CutOf(s: string, c: char, t: string)
    requires c !in s
    ensures Cut(s + [c] + t, c) == Some((s, t))
  {
    var u := s + [c] + t;
    CharIsFirst(u, c, 0);
    assert u[|s|] == c;
    assert forall k :: 0 <= k < |s| ==> u[k] == s[k] && s[k] in s;
    assert FindChar(u, c, 0) == |s|;
    assert u[..|s|] == s && u[|s| + 1..] == t;
  }

  lemma CutNone(s: string, c: char)
    requires c !in s
    ensures Cut(s, c) == None
  {
  }

  /** bytes.Count(s, "\n") */
  function Newlines(s: string): nat {
    if s == [] then 0 else (if s[0] == NL then 1 else 0) + Newlines(s[1..])
  }

  lemma {:induction false} NewlinesAppend(a: string, b: string)
    ensures Newlines(a + b) == Newlines(a) + Newlines(b)
  {
    if a == [] {
      assert a + b == b;
    } else {
      NewlinesAppend(a[1..], b);
      assert (a + b)[0] == a[0] && (a + b)[1..] == a[1..] + b;
    }
  }

  /** The positions before `n` that hold a line feed. */
  function LineFeeds(s: string, n: nat): set<nat>
    requires n <= |s|
  {
    set i: nat | i < n && s[i] == '\U{0a}'
  }

  /** It counts the line feeds, and nothing else. */
  lemma {:induction false} NewlinesAreLineFeeds(s: string, n: nat)
    requires n <= |s|
    ensures Newlines(s[..n]) == |LineFeeds(s, n)|
    decreases n
  {
    if n == 0 {
      assert s[..0] == [] && LineFeeds(s, 0) == {};
    } else {
      NewlinesAreLineFeeds(s, n - 1);
      NewlinesAppend(s[..n - 1], [s[n - 1]]);
      assert s[..n] == s[..n - 1] + [s[n - 1]] && [s[n - 1]][1..] == [];
      var before := LineFeeds(s, n - 1);
      if s[n - 1] == '\U{0a}' {
        assert LineFeeds(s, n) == before + {n - 1};
      } else {
        assert LineFeeds(s, n) == before;
      }
    }
  }
}
