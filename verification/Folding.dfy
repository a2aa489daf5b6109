/**
 Text search that ignores case: both texts are folded, character by character, before they are compared
 (internal/filter/render.go, store/db/sqlite/functions.go). Folding is a parameter; it may turn one character into
 several.
 */
module Folding {
  import opened TagText

  type CharFold = char -> string

  function FoldText(fold: CharFold, s: string): string {
    if s == "" then "" else fold(s[0]) + FoldText(fold, s[1..])
  }

  /** What every folding does: no character disappears, and the wildcards of LIKE stand for themselves only. */
  ghost predicate FoldsText(fold: CharFold) {
    && (forall c :: fold(c) != "")
    && (forall c :: c in {'%', '_', '\\'} ==> fold(c) == [c] && Caseless(fold, c))
  }

  /** Folding confuses the character with no other. */
  ghost predicate Caseless(fold: CharFold, c: char) {
    |fold(c)| == 1 && forall other :: other != c ==> fold(c)[0] !in fold(other)
  }

  ghost predicate CaselessText(fold: CharFold, s: string) { forall c :: c in s ==> Caseless(fold, c) }

  /** One character to one: no foldings such as that of a ligature. */
  ghost predicate Simple(fold: CharFold) { forall c :: |fold(c)| == 1 }

  /** The search as the database does it. */
  ghost predicate FoundFolded(fold: CharFold, needle: string, text: string) {
    Substring(FoldText(fold, needle), FoldText(fold, text))
  }

  lemma {:induction false} FoldOfSum(fold: CharFold, a: string, b: string)
    ensures FoldText(fold, a + b) == FoldText(fold, a) + FoldText(fold, b)
  {
    if a == "" {
      assert a + b == b;
    } else {
      FoldOfSum(fold, a[1..], b);
      assert (a + b)[1..] == a[1..] + b && (a + b)[0] == a[0];
      assert FoldText(fold, a + b) == fold(a[0]) + (FoldText(fold, a[1..]) + FoldText(fold, b));
    }
  }

  lemma FoldOfOne(fold: CharFold, c: char)
    ensures FoldText(fold, [c]) == fold(c)
  {
    assert [c][1..] == "";
  }

  /** A folded character comes from some character of the text. */
  lemma {:induction false} FoldedFrom(fold: CharFold, s: string, c: char)
    requires c in FoldText(fold, s)
    ensures exists x :: x in s && c in fold(x)
  {
    if s == "" {
    } else if c in fold(s[0]) {
      assert s[0] in s;
    } else {
      FoldedFrom(fold, s[1..], c);
      var x :| x in s[1..] && c in fold(x);
      assert x in s;
    }
  }

  // ----- When folding changes nothing

  lemma {:induction false} CaselessPrefix(fold: CharFold, x: string, s: string)
    requires FoldsText(fold) && CaselessText(fold, x)
    ensures FoldText(fold, x) <= FoldText(fold, s) <==> x <= s
  {
    if x == "" {
    } else if s == "" {
      assert x[0] in x;
    } else {
      var p, t := FoldText(fold, x), FoldText(fold, s);
      assert x[0] in x && fold(s[0])[0] in fold(s[0]);
      assert p[0] == fold(x[0])[0] && t[0] == fold(s[0])[0];
      if x[0] == s[0] {
        assert forall c :: c in x[1..] ==> c in x;
        CaselessPrefix(fold, x[1..], s[1..]);
        assert p[1..] == FoldText(fold, x[1..]) && t[1..] == FoldText(fold, s[1..]);
        assert p <= t <==> p[1..] <= t[1..];
        assert x <= s <==> x[1..] <= s[1..];
      }
    }
  }

  /** Text without the needle's first character can be skipped. */
  lemma {:induction false} SkipOther(x: string, before: string, rest: string)
    requires x != "" && x[0] !in before
    ensures Substring(x, before + rest) <==> Substring(x, rest)
    decreases |before|
  {
    if before == "" {
      assert before + rest == rest;
    } else {
      assert (before + rest)[1..] == before[1..] + rest;
      SubstringStep(x, before + rest);
      assert before[0] in before;
      SkipOther(x, before[1..], rest);
    }
  }

  lemma FoldedStep(fold: CharFold, x: string, s: string)
    requires FoldsText(fold) && CaselessText(fold, x) && x != "" && s != ""
    ensures FoundFolded(fold, x, s) <==> x <= s || FoundFolded(fold, x, s[1..])
  {
    var p, rest := FoldText(fold, x), FoldText(fold, s[1..]);
    CaselessPrefix(fold, x, s);
    assert x[0] in x && p[0] == fold(x[0])[0];
    SubstringStep(p, fold(s[0]) + rest);
    if s[0] == x[0] {
      assert (fold(s[0]) + rest)[1..] == rest;
    } else {
      SkipOther(p, fold(s[0]), rest);
    }
  }

  /** A needle without cased characters is found folded exactly where it is found. */
  lemma {:induction false} CaselessSearchIsExact(fold: CharFold, x: string, s: string)
    requires FoldsText(fold) && CaselessText(fold, x)
    ensures FoundFolded(fold, x, s) <==> Substring(x, s)
  {
    if x == "" {
      assert OccursAt("", s, 0) && OccursAt("", FoldText(fold, s), 0);
    } else if s == "" {
      assert x[0] in x && |FoldText(fold, x)| > 0;
    } else {
      FoldedStep(fold, x, s);
      SubstringStep(x, s);
      CaselessSearchIsExact(fold, x, s[1..]);
    }
  }

  // ----- When it does not

  /** Two characters that folding confuses: the text with the one is found by the needle with the other. */
  lemma CaseIsIgnored(fold: CharFold, x: string, i: nat, other: char)
    requires i < |x| && other != x[i] && fold(other) == fold(x[i])
    ensures FoundFolded(fold, x, x[i := other]) && !Substring(x, x[i := other])
  {
    var s := x[i := other];
    assert x == x[..i] + [x[i]] + x[i + 1..] && s == x[..i] + [other] + x[i + 1..];
    FoldOfSum(fold, x[..i] + [x[i]], x[i + 1..]);
    FoldOfSum(fold, x[..i], [x[i]]);
    FoldOfSum(fold, x[..i] + [other], x[i + 1..]);
    FoldOfSum(fold, x[..i], [other]);
    FoldOfOne(fold, x[i]);
    FoldOfOne(fold, other);
    var p := FoldText(fold, x);
    assert FoldText(fold, s) == p && p[0..|p|] == p;
    assert OccursAt(p, p, 0);
    assert s[0..|s|] == s && s[i] != x[i];
  }

  /**
   For simple foldings: the search finds what it should in every text if and only if the needle has no cased character.
   */
  lemma ExactIffCaseless(fold: CharFold, x: string)
    requires FoldsText(fold) && Simple(fold)
    ensures (forall s :: FoundFolded(fold, x, s) <==> Substring(x, s)) <==> CaselessText(fold, x)
  {
    hide Substring, FoldText;
    if CaselessText(fold, x) {
      forall s ensures FoundFolded(fold, x, s) <==> Substring(x, s) { CaselessSearchIsExact(fold, x, s); }
    } else {
      var c :| c in x && !Caseless(fold, c);
      var other :| other != c && fold(c)[0] in fold(other);
      assert fold(other) == fold(c);
      var i :| 0 <= i < |x| && x[i] == c;
      CaseIsIgnored(fold, x, i, other);
    }
  }

  // ----- LIKE over folded text

  lemma FoldedPattern(fold: CharFold, x: string)
    requires FoldsText(fold)
    ensures FoldText(fold, "%" + x + "%") == "%" + FoldText(fold, x) + "%"
  {
    FoldOfSum(fold, "%" + x, "%");
    FoldOfSum(fold, "%", x);
    FoldOfOne(fold, '%');
  }

  lemma FoldedIsPlain(fold: CharFold, escape: bool, x: string)
    requires FoldsText(fold) && Plain(escape, x)
    ensures Plain(escape, FoldText(fold, x))
  {
    forall c | c in FoldText(fold, x) ensures c != '%' && c != '_' && (escape ==> c != '\\') {
      FoldedFrom(fold, x, c);
      var y :| y in x && c in fold(y);
      assert fold('%')[0] == '%' && fold('_')[0] == '_' && fold('\\')[0] == '\\';
    }
  }

  /** The search as the database does it: LIKE, with both sides folded. */
  predicate SearchFinds(fold: CharFold, escape: bool, x: string, s: string) {
    Like(escape, FoldText(fold, "%" + x + "%"), FoldText(fold, s))
  }

  /** Where no character of the needle is a wildcard, the search looks for the folded needle. */
  lemma LikeIsFoldedSearch(fold: CharFold, escape: bool, x: string, s: string)
    requires FoldsText(fold) && Plain(escape, x)
    ensures SearchFinds(fold, escape, x, s) <==> FoundFolded(fold, x, s)
  {
    hide Like, Substring;
    FoldedPattern(fold, x);
    FoldedIsPlain(fold, escape, x);
    LikeSubstring(escape, FoldText(fold, x), FoldText(fold, s));
  }

  // ----- Wildcards in the needle

  lemma {:induction false} LiteralRun(escape: bool, run: string, pattern: string, text: string)
    requires Plain(escape, run) && Like(escape, pattern, text)
    ensures Like(escape, run + pattern, run + text)
  {
    if run == "" {
      assert run + pattern == pattern && run + text == text;
    } else {
      assert run[0] in run && forall c :: c in run[1..] ==> c in run;
      LiteralRun(escape, run[1..], pattern, text);
      assert (run + pattern)[1..] == run[1..] + pattern && (run + text)[1..] == run[1..] + text;
    }
  }

  /** What a character becomes, after an escaping backslash or where it is no wildcard, matches itself. */
  lemma FoldedCharMatches(fold: CharFold, escape: bool, c: char, pattern: string, text: string)
    requires FoldsText(fold) && Like(escape, pattern, text)
    ensures Plain(escape, [c]) ==> Like(escape, fold(c) + pattern, fold(c) + text)
    ensures escape ==> Like(escape, "\\" + (fold(c) + pattern), fold(c) + text)
  {
    var run := fold(c)[1..];
    assert fold(c) == [fold(c)[0]] + run;
    if Plain(true, [c]) {
      FoldOfOne(fold, c);
      FoldedIsPlain(fold, true, [c]);
      assert forall x :: x in run ==> x in fold(c);
    } else {
      assert c in {'%', '_', '\\'} && run == "";
    }
    LiteralRun(escape, run, pattern, text);
    assert fold(c) + pattern == [fold(c)[0]] + (run + pattern) && fold(c) + text == [fold(c)[0]] + (run + text);
    var p := "\\" + (fold(c) + pattern);
    assert p[2..] == run + pattern && p[1] == fold(c)[0] && (fold(c) + text)[1..] == run + text;
    assert (fold(c) + pattern)[1..] == run + pattern;
  }

  /** The sample of a needle is found, whatever the folding. */
  lemma {:induction false} SampleIsFound(fold: CharFold, escape: bool, x: string)
    requires FoldsText(fold)
    ensures Like(escape, FoldText(fold, x) + "%", FoldText(fold, Sample(escape, '%', x)))
  {
    if x == "" {
      MatchAll(escape, "");
      assert FoldText(fold, x) + "%" == "%";
    } else if x[0] == '%' || x[0] == '_' {
      SampleIsFound(fold, escape, x[1..]);
      WildcardStep(fold, escape, x);
    } else if escape && x[0] == '\\' {
      if |x| > 1 { SampleIsFound(fold, escape, x[2..]); }
      EscapeStep(fold, escape, x);
    } else {
      SampleIsFound(fold, escape, x[1..]);
      LiteralStep(fold, escape, x);
    }
  }

  ghost predicate SampleFound(fold: CharFold, escape: bool, x: string) {
    Like(escape, FoldText(fold, x) + "%", FoldText(fold, Sample(escape, '%', x)))
  }

  lemma WildcardStep(fold: CharFold, escape: bool, x: string)
    requires FoldsText(fold) && x != "" && (x[0] == '%' || x[0] == '_') && SampleFound(fold, escape, x[1..])
    ensures SampleFound(fold, escape, x)
  {
    var pattern, text := FoldText(fold, x[1..]) + "%", Sample(escape, '%', x[1..]);
    assert FoldText(fold, x) + "%" == [x[0]] + pattern;
    assert ([x[0]] + pattern)[1..] == pattern;
    if x[0] == '_' {
      assert FoldText(fold, "%" + text) == "%" + FoldText(fold, text) by { assert ("%" + text)[1..] == text; }
      assert ("%" + FoldText(fold, text))[1..] == FoldText(fold, text);
    }
  }

  lemma EscapeStep(fold: CharFold, escape: bool, x: string)
    requires FoldsText(fold) && x != "" && escape && x[0] == '\\' && (|x| > 1 ==> SampleFound(fold, escape, x[2..]))
    ensures SampleFound(fold, escape, x)
  {
    if |x| == 1 {
      assert x == "\\";
      FoldOfOne(fold, '\\');
      FoldOfOne(fold, '%');
      var p := "\\%";
      assert p[2..] == "" && "%"[1..] == "";
    } else {
      var pattern, text := FoldText(fold, x[2..]) + "%", Sample(escape, '%', x[2..]);
      assert x[1..][1..] == x[2..] && x[1..][0] == x[1];
      assert FoldText(fold, x) == "\\" + (fold(x[1]) + FoldText(fold, x[2..]));
      assert FoldText(fold, x) + "%" == "\\" + (fold(x[1]) + pattern);
      assert FoldText(fold, [x[1]] + text) == fold(x[1]) + FoldText(fold, text) by {
        assert ([x[1]] + text)[1..] == text;
      }
      FoldedCharMatches(fold, escape, x[1], pattern, FoldText(fold, text));
    }
  }

  lemma LiteralStep(fold: CharFold, escape: bool, x: string)
    requires FoldsText(fold) && x != "" && Plain(escape, [x[0]]) && SampleFound(fold, escape, x[1..])
    ensures SampleFound(fold, escape, x)
  {
    var pattern, text := FoldText(fold, x[1..]) + "%", Sample(escape, '%', x[1..]);
    assert x[0] in [x[0]];
    assert FoldText(fold, x) + "%" == fold(x[0]) + pattern;
    assert FoldText(fold, [x[0]] + text) == fold(x[0]) + FoldText(fold, text) by {
      assert ([x[0]] + text)[1..] == text;
    }
    FoldedCharMatches(fold, escape, x[0], pattern, FoldText(fold, text));
  }

  lemma {:induction false} FoldedSampleIsOther(fold: CharFold, escape: bool, x: string)
    requires FoldsText(fold)
    ensures |FoldText(fold, Sample(escape, '%', x))| <= |FoldText(fold, x)|
    ensures !Plain(escape, x) ==> FoldText(fold, Sample(escape, '%', x)) != FoldText(fold, x)
  {
    if x == "" {
    } else if x[0] == '%' || x[0] == '_' {
      FoldedSampleIsOther(fold, escape, x[1..]);
      var text := Sample(escape, '%', x[1..]);
      FoldCons(fold, '%', text);
      assert FoldText(fold, x) == [x[0]] + FoldText(fold, x[1..]);
      if x[0] == '_' {
        assert FoldText(fold, ['%'] + text)[0] == '%' && FoldText(fold, x)[0] == '_';
      }
    } else if escape && x[0] == '\\' {
      FoldOfOne(fold, '%');
      if |x| > 1 {
        FoldedSampleIsOther(fold, escape, x[2..]);
        FoldCons(fold, x[1], Sample(escape, '%', x[2..]));
        assert x[1..][1..] == x[2..] && x[1..][0] == x[1];
      } else {
        assert x == "\\";
        FoldOfOne(fold, '\\');
      }
    } else {
      FoldedSampleIsOther(fold, escape, x[1..]);
      var text := Sample(escape, '%', x[1..]);
      FoldCons(fold, x[0], text);
      assert forall c :: c in x <==> c == x[0] || c in x[1..];
      SameFront(fold(x[0]), FoldText(fold, text), FoldText(fold, x[1..]));
    }
  }

  lemma FoldCons(fold: CharFold, c: char, s: string)
    ensures FoldText(fold, [c] + s) == fold(c) + FoldText(fold, s)
  {
    assert ([c] + s)[1..] == s;
  }

  lemma SameFront(front: string, a: string, b: string)
    ensures front + a == front + b <==> a == b
  {
    assert (front + a)[|front|..] == a && (front + b)[|front|..] == b;
  }

  /** The search is one for the folded needle in every text if and only if no character of the needle is a wildcard. */
  lemma FoldedSearchIffPlain(fold: CharFold, escape: bool, x: string)
    requires FoldsText(fold)
    ensures (forall s :: SearchFinds(fold, escape, x, s) <==> FoundFolded(fold, x, s)) <==> Plain(escape, x)
  {
    hide SearchFinds, Substring, FoldsText, Plain, Sample, FoldText;
    if Plain(escape, x) {
      forall s ensures SearchFinds(fold, escape, x, s) <==> FoundFolded(fold, x, s) {
        LikeIsFoldedSearch(fold, escape, x, s);
      }
    } else {
      WildcardFindsOther(fold, escape, x);
      FoldedSampleIsOther(fold, escape, x);
      OtherNoLonger(FoldText(fold, x), FoldText(fold, Sample(escape, '%', x)));
    }
  }

  /** A needle that is not plain finds a text that does not contain it, whatever the folding. */
  lemma WildcardFindsOther(fold: CharFold, escape: bool, x: string)
    requires FoldsText(fold) && !Plain(escape, x)
    ensures SearchFinds(fold, escape, x, Sample(escape, '%', x)) && !Substring(x, Sample(escape, '%', x))
  {
    hide Like, Sample, Substring, Plain;
    FoldedPattern(fold, x);
    SampleIsFound(fold, escape, x);
    PercentSkips(escape, FoldText(fold, x) + "%", "", FoldText(fold, Sample(escape, '%', x)));
    assert "%" + (FoldText(fold, x) + "%") == "%" + FoldText(fold, x) + "%";
    assert "" + FoldText(fold, Sample(escape, '%', x)) == FoldText(fold, Sample(escape, '%', x));
    SampleIsOther(escape, '%', x);
    OtherNoLonger(x, Sample(escape, '%', x));
  }

  /**
   For simple foldings: the search finds the needle in exactly the texts that contain it if and only if the needle has
   neither wildcards nor cased characters. Backslashes are wildcards where LIKE has them escape.
   */
  lemma SearchExactIff(fold: CharFold, escape: bool, x: string)
    requires FoldsText(fold) && Simple(fold)
    ensures (forall s :: SearchFinds(fold, escape, x, s) <==> Substring(x, s)) <==>
              Plain(escape, x) && CaselessText(fold, x)
  {
    hide SearchFinds, Substring, FoundFolded, CaselessText, FoldsText, Simple, Plain;
    if Plain(escape, x) {
      forall s ensures SearchFinds(fold, escape, x, s) <==> FoundFolded(fold, x, s) {
        LikeIsFoldedSearch(fold, escape, x, s);
      }
      ExactIffCaseless(fold, x);
    } else {
      WildcardFindsOther(fold, escape, x);
    }
  }
}
