/** The string functions of the standard library that the parsers and key encoders call. */
module Text {
  import opened Wrappers

  const MIN_INT64 := -0x8000_0000_0000_0000
  const MAX_INT64 := 0x7fff_ffff_ffff_ffff

  const SPACES := {' ', '\t', '\n', '\r', '\U{0B}', '\U{0C}', '\U{85}', '\U{A0}'}

  // ----- Splitting

  /** The pieces between separator characters; there is always at least one piece. */
  function Split(s: string, seps: set<char>): (pieces: seq<string>)
    ensures |pieces| >= 1
  {
    if s == "" then [""]
    else
      var rest := Split(s[1..], seps);
      if s[0] in seps then [""] + rest else [[s[0]] + rest[0]] + rest[1..]
  }

  /** Pieces hold no separator and only characters of the string. */
  lemma {:induction false} PiecesAreClean(s: string, seps: set<char>)
    ensures forall p, c :: p in Split(s, seps) && c in p ==> c in s && c !in seps
  {
    if s == "" {
    } else {
      PiecesAreClean(s[1..], seps);
      var rest := Split(s[1..], seps);
      forall p, c | p in Split(s, seps) && c in p ensures c in s && c !in seps {
        assert p in rest[1..] ==> p in rest;
      }
    }
  }

  /** A string without separators is one piece. */
  lemma {:induction false} SplitNone(s: string, seps: set<char>)
    requires forall c :: c in s ==> c !in seps
    ensures Split(s, seps) == [s]
  {
    if s == "" {
    } else {
      SplitNone(s[1..], seps);
      assert [s[0]] + s[1..] == s;
    }
  }

  /** Splitting at the first separator peels off the first piece. */
  lemma {:induction false} SplitFirst(a: string, sep: char, s: string)
    requires sep !in a
    ensures Split(a + [sep] + s, {sep}) == [a] + Split(s, {sep})
  {
    if a == "" {
      assert (a + [sep] + s)[1..] == s;
    } else {
      SplitFirst(a[1..], sep, s);
      assert (a + [sep] + s)[1..] == a[1..] + [sep] + s;
      assert [a[0]] + a[1..] == a;
    }
  }

  function Join(pieces: seq<string>, sep: char): string
    requires |pieces| >= 1
  {
    if |pieces| == 1 then pieces[0] else pieces[0] + [sep] + Join(pieces[1..], sep)
  }

  /** Joining the pieces gives the string back. */
  lemma {:induction false} JoinSplit(s: string, sep: char)
    ensures Join(Split(s, {sep}), sep) == s
  {
    if s == "" {
    } else {
      JoinSplit(s[1..], sep);
      var rest := Split(s[1..], {sep});
      assert [s[0]] + s[1..] == s;
      if s[0] == sep {
        assert Split(s, {sep})[1..] == rest;
      } else {
        JoinWithFront(s[0], rest, sep);
      }
    }
  }

  lemma JoinWithFront(c: char, pieces: seq<string>, sep: char)
    requires |pieces| >= 1
    ensures Join([[c] + pieces[0]] + pieces[1..], sep) == [c] + Join(pieces, sep)
  {
    assert ([[c] + pieces[0]] + pieces[1..])[1..] == pieces[1..];
    if |pieces| > 1 {
      var rest := Join(pieces[1..], sep);
      assert [c] + (pieces[0] + [sep] + rest) == ([c] + pieces[0]) + [sep] + rest;
    }
  }

  /** And the pieces, if they hold no separator, come back from the string. */
  lemma {:induction false} SplitJoin(pieces: seq<string>, sep: char)
    requires |pieces| >= 1 && forall p :: p in pieces ==> sep !in p
    ensures Split(Join(pieces, sep), {sep}) == pieces
  {
    if |pieces| == 1 {
      SplitNone(pieces[0], {sep});
    } else {
      SplitJoin(pieces[1..], sep);
      SplitFirst(pieces[0], sep, Join(pieces[1..], sep));
    }
  }

  /** The non-empty pieces, in order. */
  function NonEmpty(pieces: seq<string>): seq<string> {
    if pieces == [] then []
    else if pieces[0] == "" then NonEmpty(pieces[1..])
    else [pieces[0]] + NonEmpty(pieces[1..])
  }

  /** The maximal runs of non-separators. */
  function Fields(s: string, seps: set<char>): seq<string> { NonEmpty(Split(s, seps)) }

  lemma {:induction false} NonEmptyOfNonEmpty(pieces: seq<string>)
    requires "" !in pieces
    ensures NonEmpty(pieces) == pieces
  {
    if pieces == [] {
    } else {
      NonEmptyOfNonEmpty(pieces[1..]);
    }
  }

  function TrimSpace(s: string): string {
    if s != "" && s[0] in SPACES then TrimSpace(s[1..])
    else if s != "" && s[|s| - 1] in SPACES then TrimSpace(s[..|s| - 1])
    else s
  }

  /** Trimming takes white space away at both ends, and all of it. */
  lemma {:induction false} TrimSpaceStrips(s: string) returns (before: string, after: string)
    ensures s == before + TrimSpace(s) + after
    ensures forall c :: c in before || c in after ==>
              c in {' ', '\t', '\n', '\r', '\U{0B}', '\U{0C}', '\U{85}', '\U{A0}'}
    ensures var t := TrimSpace(s); t != "" ==> t[0] !in SPACES && t[|t| - 1] !in SPACES
  {
    if s != "" && s[0] in SPACES {
      before, after := TrimSpaceStrips(s[1..]);
      before := [s[0]] + before;
    } else if s != "" && s[|s| - 1] in SPACES {
      before, after := TrimSpaceStrips(s[..|s| - 1]);
      after := after + [s[|s| - 1]];
    } else {
      before, after := "", "";
    }
  }

  // ----- Decimal numbers

  predicate IsDigit(c: char) { '0' <= c <= '9' }

  predicate AllDigits(s: string) { forall i :: 0 <= i < |s| ==> IsDigit(s[i]) }

  function DigitsValue(s: string): nat
    requires AllDigits(s)
  {
    if s == "" then 0 else 10 * DigitsValue(s[..|s| - 1]) + (s[|s| - 1] as int - '0' as int)
  }

  /** Decimal integer with an optional sign; anything else, or a value outside 64 bits, is an error. */
  function Atoi(s: string): Option<int> {
    var signed := s != "" && (s[0] == '+' || s[0] == '-');
    var digits := if signed then s[1..] else s;
    if digits == "" || !AllDigits(digits) then None
    else
      var v: int := if signed && s[0] == '-' then -(DigitsValue(digits) as int) else DigitsValue(digits);
      if MIN_INT64 <= v <= MAX_INT64 then Some(v) else None
  }

  /** Characters a parsed number can contain. */
  lemma AtoiCharacters(s: string)
    requires Atoi(s).Some?
    ensures s != ""
    ensures forall i :: 0 <= i < |s| ==> IsDigit(s[i]) || (i == 0 && (s[i] == '+' || s[i] == '-'))
    ensures '-' in s ==> s[0] == '-' && Atoi(s).value <= 0
  {
    var digits := if s[0] == '+' || s[0] == '-' then s[1..] else s;
    assert AllDigits(digits);
    forall i | 0 <= i < |s| ensures IsDigit(s[i]) || (i == 0 && (s[i] == '+' || s[i] == '-')) {
      if digits != s && i > 0 { assert s[i] == digits[i - 1]; }
    }
  }

  function NatText(n: nat): string {
    var last := [('0' as int + n % 10) as char];
    if n < 10 then last else NatText(n / 10) + last
  }

  /** Canonical decimal text of an integer. */
  function Itoa(n: int): string {
    if n < 0 then "-" + NatText(-n) else NatText(n)
  }

  lemma {:induction false} NatTextRoundTrip(n: nat)
    ensures NatText(n) != "" && AllDigits(NatText(n)) && DigitsValue(NatText(n)) == n
  {
    var s := NatText(n);
    var last := [('0' as int + n % 10) as char];
    if n < 10 {
      assert s[..0] == "";
    } else {
      NatTextRoundTrip(n / 10);
      assert s[..|s| - 1] == NatText(n / 10);
    }
  }

  /** A 64-bit number read back from its text is itself. */
  lemma AtoiOfItoa(n: int)
    requires MIN_INT64 <= n <= MAX_INT64
    ensures Atoi(Itoa(n)) == Some(n)
  {
    var text := NatText(if n < 0 then -n else n);
    NatTextRoundTrip(if n < 0 then -n else n);
    hide NatText, DigitsValue;
    assert IsDigit(text[0]);
    if n < 0 {
      assert Itoa(n) == "-" + text && ("-" + text)[1..] == text;
    }
  }

  /** The base is ten, a sign is optional, and nothing else may stand beside the digits. */
  lemma NumbersInLiterals()
    ensures Itoa(10) == "10" && Itoa(-7) == "-7"
    ensures Atoi("10") == Atoi("+10") == Some(10) && Atoi("4.2") == Atoi("-") == Atoi("") == None
  {
    assert NatText(1) == "1" && NatText(7) == "7" && NatText(10) == "10";
    NatTextRoundTrip(10);
    hide NatText, DigitsValue;
    assert IsDigit("10"[0]) && IsDigit("10"[1]);
    assert "+10"[1..] == "10" && "-"[1..] == "";
    assert !IsDigit("4.2"[1]);
  }

  function LowerChar(c: char): char {
    if 'A' <= c <= 'Z' then (c as int + 32) as char else c
  }

  function ToLower(s: string): string {
    seq(|s|, i requires 0 <= i < |s| => LowerChar(s[i]))
  }
}
