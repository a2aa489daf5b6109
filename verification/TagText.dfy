/**
 Pattern matching over the JSON text of a tag list: LIKE as the dialects define it, the text of a JSON
 array of strings (sections 5 and 7 of RFC 8259), and what the patterns the compiler writes select.
 */
module TagText {

  /** LIKE with `%` and `_`; under `escape` a backslash makes the next pattern character literal. */
  predicate Like(escape: bool, pattern: string, text: string)
    decreases |pattern| + |text|
  {
    if pattern == "" then text == ""
    else if pattern[0] == '%' then Like(escape, pattern[1..], text) || (text != "" && Like(escape, pattern, text[1..]))
    else if pattern[0] == '_' then text != "" && Like(escape, pattern[1..], text[1..])
    else if escape && pattern[0] == '\\' && |pattern| > 1 then
      text != "" && text[0] == pattern[1] && Like(escape, pattern[2..], text[1..])
    else text != "" && text[0] == pattern[0] && Like(escape, pattern[1..], text[1..])
  }

  /** Every character of the pattern stands for itself. */
  predicate Plain(escape: bool, s: string) {
    forall c :: c in s ==> c != '%' && c != '_' && (escape ==> c != '\\')
  }

  ghost predicate Substring(x: string, s: string) { exists i :: OccursAt(x, s, i) }

  predicate OccursAt(x: string, s: string, i: int) {
    0 <= i <= |s| - |x| && s[i..i + |x|] == x
  }

  /** A plain pattern followed by `%` matches exactly the texts that start with it. */
  lemma {:induction false} LikePrefix(escape: bool, x: string, text: string)
    requires Plain(escape, x)
    ensures Like(escape, x + "%", text) <==> x <= text
  {
    if x == "" {
      MatchAll(escape, text);
      assert x + "%" == "%";
    } else {
      assert (x + "%")[1..] == x[1..] + "%" && x[0] in x;
      assert forall c :: c in x[1..] ==> c in x;
      if text != "" {
        LikePrefix(escape, x[1..], text[1..]);
        assert x <= text <==> x[0] == text[0] && x[1..] <= text[1..];
      }
    }
  }

  lemma {:induction false} MatchAll(escape: bool, text: string)
    ensures Like(escape, "%", text)
  {
    assert "%"[1..] == "";
    if text == "" {
    } else {
      MatchAll(escape, text[1..]);
    }
  }

  /** A plain pattern between two `%` matches exactly the texts that contain it. */
  lemma {:induction false} LikeSubstring(escape: bool, x: string, text: string)
    requires Plain(escape, x)
    ensures Like(escape, "%" + x + "%", text) <==> Substring(x, text)
  {
    var p := "%" + x + "%";
    assert p[1..] == x + "%";
    LikePrefix(escape, x, text);
    SubstringStep(x, text);
    if text == "" {
    } else {
      LikeSubstring(escape, x, text[1..]);
    }
  }

  lemma SubstringStep(x: string, text: string)
    ensures Substring(x, text) <==> x <= text || (text != "" && Substring(x, text[1..]))
  {
    if i :| OccursAt(x, text, i) {
      if i > 0 {
        assert text[1..][i - 1..i - 1 + |x|] == text[i..i + |x|];
        assert OccursAt(x, text[1..], i - 1);
      }
    }
    if x <= text {
      assert OccursAt(x, text, 0);
    }
    if text != "" && Substring(x, text[1..]) {
      var i :| OccursAt(x, text[1..], i);
      assert text[1..][i..i + |x|] == text[i + 1..i + 1 + |x|];
      assert OccursAt(x, text, i + 1);
    }
  }

  // ----- Tags in JSON

  /**
   Characters a parsed tag can hold: letters, digits, symbols, marks and `_ - / &`. Beyond ASCII nothing
   is excluded. None of them is escaped in a JSON string.
   */
  predicate TagChar(c: char) {
    || 'a' <= c <= 'z' || 'A' <= c <= 'Z' || '0' <= c <= '9'
    || c in {'_', '-', '/', '&', '$', '+', '<', '=', '>', '^', '`', '|', '~'}
    || c >= '\U{80}'
  }

  predicate IsTag(s: string) { forall c :: c in s ==> TagChar(c) }

  ghost predicate AllTags(tags: seq<string>) { forall t :: t in tags ==> IsTag(t) }

  /** The text of a non-empty list of strings after the opening bracket, with the separator of the dialect. */
  function ItemsText(tags: seq<string>, sep: string): string
    requires tags != []
  {
    "\"" + tags[0] + "\"" + if |tags| == 1 then "]" else sep + ItemsText(tags[1..], sep)
  }

  function JsonText(tags: seq<string>, sep: string): string {
    if tags == [] then "[]" else "[" + ItemsText(tags, sep)
  }

  /** Separators between array elements: a comma, with or without a space. */
  predicate Separator(sep: string) { sep == "," || sep == ", " }

  /** A needle: an optional opening quote, tag characters, an optional closing quote. */
  function Needle(open: bool, s: string, close: bool): string {
    (if open then "\"" else "") + s + (if close then "\"" else "")
  }

  /** How the needle relates to one tag. */
  ghost predicate Selects(open: bool, s: string, close: bool, tag: string) {
    if open && close then tag == s
    else if open then s <= tag
    else if close then |s| <= |tag| && tag[|tag| - |s|..] == s
    else Substring(s, tag)
  }

  /** A string at the front of quoted text: the quote after the tag stops any run of tag characters. */
  lemma {:induction false} TagRunInQuoted(s: string, tag: string, rest: string, close: bool)
    requires IsTag(s) && IsTag(tag)
    ensures Needle(false, s, close) <= tag + "\"" + rest <==> if close then s == tag else s <= tag
  {
    var text := tag + "\"" + rest;
    var x := Needle(false, s, close);
    if s == "" {
      if close && tag != "" {
        assert text[0] == tag[0] && tag[0] in tag;
      }
    } else if tag == "" {
      assert s[0] in s && text[0] == '"' && x[0] == s[0];
    } else {
      TagRunInQuoted(s[1..], tag[1..], rest, close);
      assert text[1..] == tag[1..] + "\"" + rest;
      assert x[1..] == Needle(false, s[1..], close);
      assert x <= text <==> x[0] == text[0] && x[1..] <= text[1..];
      assert forall c :: c in s[1..] ==> c in s;
      assert forall c :: c in tag[1..] ==> c in tag;
    }
  }

  /** The needle without an opening quote, anywhere from inside a tag onwards. */
  lemma {:induction false} FindInTag(s: string, close: bool, tag: string, rest: string)
    requires s != "" && IsTag(s) && IsTag(tag)
    ensures Substring(Needle(false, s, close), tag + "\"" + rest) <==>
            Selects(false, s, close, tag) || Substring(Needle(false, s, close), rest)
    decreases |tag|
  {
    var x := Needle(false, s, close);
    var text := tag + "\"" + rest;
    SubstringStep(x, text);
    TagRunInQuoted(s, tag, rest, close);
    if tag == "" {
      assert text[1..] == rest;
      assert x[0] == s[0] && s[0] in s && text[0] == '"';
      assert Selects(false, s, close, tag) ==> false by { NoTextInEmpty(s); }
    } else {
      assert text[1..] == tag[1..] + "\"" + rest;
      assert forall c :: c in tag[1..] ==> c in tag;
      FindInTag(s, close, tag[1..], rest);
      SubstringStep(s, tag);
      assert |s| < |tag| ==> tag[1..][|tag[1..]| - |s|..] == tag[|tag| - |s|..];
    }
  }

  lemma NoTextInEmpty(s: string)
    requires s != ""
    ensures !Substring(s, "")
  {
  }

  /** The needle with an opening quote: it can only start at the quote that opens a tag. */
  lemma {:induction false} SkipToQuote(open: bool, s: string, close: bool, before: string, rest: string)
    requires s != "" && IsTag(s) && forall c :: c in before ==> if open then c != '"' else !TagChar(c)
    ensures Substring(Needle(open, s, close), before + rest) <==> Substring(Needle(open, s, close), rest)
    decreases |before|
  {
    if before == "" {
      assert before + rest == rest;
    } else {
      var x := Needle(open, s, close);
      assert (before + rest)[1..] == before[1..] + rest;
      SubstringStep(x, before + rest);
      assert x[0] == if open then '"' else s[0];
      assert s[0] in s && before[0] in before;
      SkipToQuote(open, s, close, before[1..], rest);
    }
  }

  /** One quoted tag at the front of the text. */
  lemma FindFromQuote(open: bool, s: string, close: bool, tag: string, after: string)
    requires s != "" && IsTag(s) && IsTag(tag) && after != "" && !TagChar(after[0]) && after[0] != '"'
    ensures Substring(Needle(open, s, close), "\"" + tag + "\"" + after) <==>
            Selects(open, s, close, tag) || Substring(Needle(open, s, close), after)
  {
    var x := Needle(open, s, close);
    var text := "\"" + tag + "\"" + after;
    SubstringStep(x, text);
    assert text[1..] == tag + "\"" + after;
    if open {
      assert x == "\"" + Needle(false, s, close);
      assert x <= text <==> Needle(false, s, close) <= text[1..];
      TagRunInQuoted(s, tag, after, close);
      SkipToQuote(true, s, close, tag, "\"" + after) by { assert forall c :: c in tag ==> TagChar(c); }
      assert tag + ("\"" + after) == text[1..];
      ClosingQuote(s, close, after);
    } else {
      FindInTag(s, close, tag, after);
      assert x[0] == s[0] && s[0] in s && text[0] == '"';
    }
  }

  /** The quote that closes a tag opens nothing: no tag character follows it. */
  lemma ClosingQuote(s: string, close: bool, after: string)
    requires s != "" && IsTag(s) && after != "" && !TagChar(after[0])
    ensures Substring(Needle(true, s, close), "\"" + after) <==> Substring(Needle(true, s, close), after)
  {
    var x := Needle(true, s, close);
    SubstringStep(x, "\"" + after);
    assert ("\"" + after)[1..] == after;
    assert x[1] == s[0] && s[0] in s && ("\"" + after)[1] == after[0];
  }

  lemma {:induction false} FindInItems(open: bool, s: string, close: bool, tags: seq<string>, sep: string)
    requires s != "" && IsTag(s) && tags != [] && AllTags(tags) && Separator(sep)
    ensures Substring(Needle(open, s, close), ItemsText(tags, sep)) <==>
              exists t :: t in tags && Selects(open, s, close, t)
  {
    hide TagChar, Selects, Substring;
    var x, tag := Needle(open, s, close), tags[0];
    if |tags| == 1 {
      assert ItemsText(tags, sep) == "\"" + tag + "\"" + "]";
      PunctuationIsNoTag();
      FindFromQuote(open, s, close, tag, "]");
      SkipToQuote(open, s, close, "]", "");
      assert "]" + "" == "]";
      EmptyHasNoNeedle(open, s, close);
      assert forall t :: t in tags <==> t == tag;
    } else {
      var more := ItemsText(tags[1..], sep);
      assert ItemsText(tags, sep) == "\"" + tag + "\"" + (sep + more);
      PunctuationIsNoTag();
      FindFromQuote(open, s, close, tag, sep + more);
      SkipToQuote(open, s, close, sep, more);
      FindInItems(open, s, close, tags[1..], sep);
      assert forall t :: t in tags <==> t == tag || t in tags[1..];
    }
  }

  lemma PunctuationIsNoTag()
    ensures !TagChar(',') && !TagChar(' ') && !TagChar('[') && !TagChar(']') && !TagChar('"')
  {
  }

  lemma EmptyHasNoNeedle(open: bool, s: string, close: bool)
    requires s != ""
    ensures !Substring(Needle(open, s, close), "")
  {
  }

  /**
   Looking for a needle of tag characters in the JSON text of a list of tags is exact: with both quotes it
   means membership, with one quote a prefix or a suffix of some tag, with none a part of some tag.
   */
  lemma TextMatchIsExact(open: bool, s: string, close: bool, tags: seq<string>, sep: string)
    requires s != "" && IsTag(s) && AllTags(tags) && Separator(sep)
    ensures Substring(Needle(open, s, close), JsonText(tags, sep)) <==>
              exists t :: t in tags && Selects(open, s, close, t)
  {
    hide TagChar, Selects, Substring, ItemsText;
    PunctuationIsNoTag();
    if tags == [] {
      SkipToQuote(open, s, close, "[]", "");
      assert "[]" + "" == "[]";
      EmptyHasNoNeedle(open, s, close);
    } else {
      SkipToQuote(open, s, close, "[", ItemsText(tags, sep));
      FindInItems(open, s, close, tags, sep);
    }
  }

  // ----- Patterns over the text

  /** Characters that a JSON string holds as they are. */
  predicate Verbatim(s: string) { forall c :: c in s ==> c >= ' ' && c != '"' && c != '\\' }

  /** A character that occurs neither in tags nor between them, and is no wildcard. */
  predicate Foreign(c: char) {
    c > ' ' && !TagChar(c) && c !in {'[', ']', ',', '"', '%', '_', '\\'}
  }

  /** Needles of tag characters without underscore, and needles that no tag can hold because of a foreign character. */
  predicate TagLiteral(s: string) {
    s != "" && ((IsTag(s) && '_' !in s) || (Verbatim(s) && exists c :: c in s && Foreign(c)))
  }

  /** The LIKE patterns over the JSON text: exact for such needles. */
  lemma LikeIsExact(escape: bool, open: bool, s: string, close: bool, tags: seq<string>, sep: string)
    requires TagLiteral(s) && AllTags(tags) && Separator(sep)
    ensures Like(escape, "%" + Needle(open, s, close) + "%", JsonText(tags, sep)) <==>
            exists t :: t in tags && Selects(open, s, close, t)
  {
    hide Selects, Substring, Like, Foreign;
    if IsTag(s) && '_' !in s {
      assert Plain(escape, Needle(open, s, close)) by {
        assert forall c :: c in Needle(open, s, close) ==> c in s || c == '"';
      }
      LikeSubstring(escape, Needle(open, s, close), JsonText(tags, sep));
      TextMatchIsExact(open, s, close, tags, sep);
    } else {
      var c :| c in s && Foreign(c);
      ForeignIsNowhere(escape, open, s, close, tags, sep, c);
    }
  }

  /** A literal character of the pattern has to occur in the text. */
  lemma {:induction false} LiteralOccurs(escape: bool, c: char, pattern: string, text: string)
    requires c in pattern && c !in {'%', '_', '\\'} && Like(escape, pattern, text)
    ensures c in text
    decreases |pattern| + |text|
  {
    if pattern[0] == '%' {
      if Like(escape, pattern[1..], text) {
        LiteralOccurs(escape, c, pattern[1..], text);
      } else {
        LiteralOccurs(escape, c, pattern, text[1..]);
      }
    } else if escape && pattern[0] == '\\' && |pattern| > 1 {
      assert c == pattern[1] || c in pattern[2..];
      if c != pattern[1] { LiteralOccurs(escape, c, pattern[2..], text[1..]); }
    } else if c != pattern[0] {
      LiteralOccurs(escape, c, pattern[1..], text[1..]);
    }
  }

  lemma NoForeignInTag(tag: string, c: char)
    requires Foreign(c)
    ensures IsTag(tag) ==> c !in tag
    ensures c !in {'[', ']', ',', ' ', '"', '%', '_', '\\'}
  {
  }

  lemma {:induction false} ItemsHoldNoForeign(tags: seq<string>, sep: string, c: char)
    requires tags != [] && AllTags(tags) && Separator(sep) && Foreign(c)
    ensures c !in ItemsText(tags, sep)
  {
    hide Foreign, IsTag;
    NoForeignInTag(tags[0], c);
    assert c !in "\"" + tags[0] + "\"";
    if |tags| == 1 {
    } else {
      ItemsHoldNoForeign(tags[1..], sep, c);
      assert c !in sep + ItemsText(tags[1..], sep);
    }
  }

  lemma ForeignIsNowhere(escape: bool, open: bool, s: string, close: bool, tags: seq<string>, sep: string, c: char)
    requires AllTags(tags) && Separator(sep) && c in s && Foreign(c)
    ensures !Like(escape, "%" + Needle(open, s, close) + "%", JsonText(tags, sep))
    ensures forall t :: t in tags ==> !Selects(open, s, close, t)
  {
    hide Like, Foreign, IsTag, Selects, ItemsText;
    NoForeignInTag("", c);
    if tags != [] { ItemsHoldNoForeign(tags, sep, c); }
    assert c !in JsonText(tags, sep);
    if Like(escape, "%" + Needle(open, s, close) + "%", JsonText(tags, sep)) {
      LiteralOccurs(escape, c, "%" + Needle(open, s, close) + "%", JsonText(tags, sep));
    }
    forall t | t in tags ensures !Selects(open, s, close, t) {
      NoForeignInTag(t, c);
      HeldByTag(open, s, close, t, c);
    }
  }

  /** Whatever is selected holds every character of the needle. */
  lemma HeldByTag(open: bool, s: string, close: bool, tag: string, c: char)
    requires c in s
    ensures Selects(open, s, close, tag) ==> c in tag
  {
    if Selects(open, s, close, tag) {
      var k :| 0 <= k < |s| && s[k] == c;
      SelectedHolds(open, s, close, tag);
      var i :| OccursAt(s, tag, i);
      assert tag[i..i + |s|][k] == tag[i + k];
    }
  }

  lemma SelectedHolds(open: bool, s: string, close: bool, tag: string)
    requires Selects(open, s, close, tag)
    ensures Substring(s, tag)
  {
    if open && |s| <= |tag| {
      assert OccursAt(s, tag, 0);
    } else if close {
      assert OccursAt(s, tag, |tag| - |s|);
    }
  }

  // ----- Why wildcards are excluded

  /**
   A text that the pattern followed by `%` matches: `%` left out, `_` replaced, escaped characters without their
   backslash.
   */
  function Sample(escape: bool, any: char, x: string): string {
    if x == "" then ""
    else if x[0] == '%' then Sample(escape, any, x[1..])
    else if x[0] == '_' then [any] + Sample(escape, any, x[1..])
    else if escape && x[0] == '\\' then
      if |x| > 1 then [x[1]] + Sample(escape, any, x[2..]) else "%"
    else [x[0]] + Sample(escape, any, x[1..])
  }

  /** Where the pattern is not plain, the sample differs from it and is no longer: it does not contain the pattern. */
  lemma {:induction false} SampleIsOther(escape: bool, any: char, x: string)
    requires any != '_'
    ensures |Sample(escape, any, x)| <= |x|
    ensures !Plain(escape, x) ==> Sample(escape, any, x) != x
  {
    if x == "" {
    } else if x[0] == '%' || x[0] == '_' {
      SampleIsOther(escape, any, x[1..]);
    } else if escape && x[0] == '\\' {
      if |x| > 1 { SampleIsOther(escape, any, x[2..]); }
    } else {
      SampleIsOther(escape, any, x[1..]);
      assert forall c :: c in x <==> c == x[0] || c in x[1..];
      assert ([x[0]] + Sample(escape, any, x[1..]))[1..] == Sample(escape, any, x[1..]);
    }
  }

  lemma OtherNoLonger(x: string, s: string)
    requires |s| <= |x| && s != x
    ensures !Substring(x, s)
  {
    if i :| OccursAt(x, s, i) {
      assert s[0..|s|] == s;
    }
  }

  function SampleOfOne(any: char, c: char): string { if c == '%' then "" else if c == '_' then [any] else [c] }

  lemma SampleOfNone(escape: bool, any: char)
    ensures Sample(escape, any, "") == ""
  {
  }

  lemma SampleCons(escape: bool, any: char, x: string)
    requires x != "" && x[0] != '\\'
    ensures Sample(escape, any, x) == SampleOfOne(any, x[0]) + Sample(escape, any, x[1..])
  {
  }

  lemma LikeStep(escape: bool, any: char, c: char, pattern: string, text: string)
    requires c != '\\' && Like(escape, pattern, text)
    ensures Like(escape, [c] + pattern, SampleOfOne(any, c) + text)
  {
    assert ([c] + pattern)[1..] == pattern;
    assert "" + text == text && ([any] + text)[1..] == text && ([c] + text)[1..] == text;
  }

  lemma {:induction false} SampleMatches(escape: bool, any: char, x: string, tail: string, rest: string)
    requires '\\' !in x && Like(escape, tail, rest)
    ensures Like(escape, x + tail, Sample(escape, any, x) + rest)
  {
    hide Like;
    if x == "" {
      assert x + tail == tail && Sample(escape, any, x) + rest == rest;
    } else {
      SampleMatches(escape, any, x[1..], tail, rest);
      var text := Sample(escape, any, x[1..]) + rest;
      assert (x + tail)[1..] == x[1..] + tail && x[0] in x;
      LikeStep(escape, any, x[0], (x + tail)[1..], text);
      assert x + tail == [x[0]] + (x + tail)[1..];
      SampleCons(escape, any, x);
      assert Sample(escape, any, x) + rest == SampleOfOne(any, x[0]) + text;
    }
  }

  lemma {:induction false} SampleOfSum(escape: bool, any: char, a: string, b: string)
    requires '\\' !in a
    ensures Sample(escape, any, a + b) == Sample(escape, any, a) + Sample(escape, any, b)
  {
    SampleOfNone(escape, any);
    hide Sample;
    if a == "" {
      assert a + b == b;
    } else {
      SampleOfSum(escape, any, a[1..], b);
      assert (a + b)[1..] == a[1..] + b && (a + b)[0] == a[0] && a[0] in a;
      SampleCons(escape, any, a);
      SampleCons(escape, any, a + b);
    }
  }

  lemma SampleOfNeedle(escape: bool, any: char, open: bool, s: string, close: bool)
    requires '\\' !in s
    ensures Sample(escape, any, Needle(open, s, close)) == Needle(open, Sample(escape, any, s), close)
  {
    var before, after := if open then "\"" else "", if close then "\"" else "";
    SampleOfSum(escape, any, before + s, after);
    SampleOfSum(escape, any, before, s);
    assert "\""[1..] == "";
  }

  lemma {:induction false} PercentSkips(escape: bool, pattern: string, before: string, text: string)
    requires Like(escape, pattern, text)
    ensures Like(escape, "%" + pattern, before + text)
  {
    assert ("%" + pattern)[1..] == pattern;
    if before == "" {
      assert before + text == text;
    } else {
      PercentSkips(escape, pattern, before[1..], text);
      assert (before + text)[1..] == before[1..] + text;
    }
  }

  /** Tag characters and the wildcard `%`; the other wildcard is a tag character. */
  predicate WildTag(s: string) { forall c :: c in s ==> TagChar(c) || c == '%' }

  lemma {:induction false} SampleOfTag(escape: bool, s: string)
    requires WildTag(s)
    ensures IsTag(Sample(escape, 'x', s)) && '\\' !in s
  {
    if s == "" {
    } else {
      assert s[0] in s;
      SampleOfTag(escape, s[1..]);
    }
  }

  /** The sample of a needle with wildcards is a tag that the needle does not select and the pattern finds. */
  lemma WildcardMatchesOther(escape: bool, open: bool, s: string, close: bool, sep: string)
    requires WildTag(s) && ('_' in s || '%' in s)
    ensures var t := Sample(escape, 'x', s);
            IsTag(t) && Like(escape, "%" + Needle(open, s, close) + "%", JsonText([t], sep)) &&
              !Selects(open, s, close, t)
  {
    hide Like, TagChar, IsTag, Needle, JsonText, Substring;
    var t := Sample(escape, 'x', s);
    SampleOfTag(escape, s);
    SampleIsOther(escape, 'x', s);
    OtherNoLonger(s, t);
    TextOfOne(open, t, close, sep);
    SampleOfNeedle(escape, 'x', open, s, close);
    var x, y := Needle(open, s, close), Needle(open, t, close);
    var before, rest := if open then "[" else "[\"", if close then "]" else "\"]";
    MatchAll(escape, rest);
    assert '\\' !in x by { NeedleHasNoBackslash(open, s, close); }
    SampleMatches(escape, 'x', x, "%", rest);
    PercentSkips(escape, x + "%", before, y + rest);
    assert "%" + (x + "%") == "%" + x + "%";
  }

  lemma NeedleHasNoBackslash(open: bool, s: string, close: bool)
    requires '\\' !in s
    ensures '\\' !in Needle(open, s, close)
  {
  }

  /** The text of one tag, cut where the needle would begin and end. */
  lemma TextOfOne(open: bool, tag: string, close: bool, sep: string)
    ensures var before, rest := if open then "[" else "[\"", if close then "]" else "\"]";
            JsonText([tag], sep) == before + (Needle(open, tag, close) + rest)
  {
  }

  ghost predicate ExactOn(escape: bool, open: bool, s: string, close: bool, tags: seq<string>, sep: string) {
    Like(escape, "%" + Needle(open, s, close) + "%", JsonText(tags, sep)) <==>
      exists t :: t in tags && Selects(open, s, close, t)
  }

  /**
   Over tag characters and `%` the pattern is exact for every list of tags if and only if the needle has neither
   wildcard.
   */
  lemma ExactIffNoWildcard(escape: bool, open: bool, s: string, close: bool, sep: string)
    requires s != "" && WildTag(s) && Separator(sep)
    ensures (forall tags :: AllTags(tags) ==> ExactOn(escape, open, s, close, tags, sep)) <==> '_' !in s && '%' !in s
  {
    hide Selects, Like, Needle, JsonText, Sample;
    if '_' in s || '%' in s {
      WildcardMatchesOther(escape, open, s, close, sep);
      assert !ExactOn(escape, open, s, close, [Sample(escape, 'x', s)], sep);
    } else {
      forall tags | AllTags(tags) ensures ExactOn(escape, open, s, close, tags, sep) {
        LikeIsExact(escape, open, s, close, tags, sep);
      }
    }
  }
}
