/** Crontab fields and expressions parsed into bit sets (internal/cron/parser.go). */
module CronParser {
  import opened Arithmetic
  import opened CronSpec
  import opened Text
  import opened Words
  import opened Wrappers

  const UINT64_COUNT := 0x1_0000_0000_0000_0000

  /** The values a field may take, with their names. */
  datatype Bounds = Bounds(min: nat, max: nat, names: map<string, nat>)

  const SECONDS := Bounds(0, 59, map[])
  const MINUTES := Bounds(0, 59, map[])
  const HOURS := Bounds(0, 23, map[])
  const DOM := Bounds(1, 31, map[])
  const MONTHS := Bounds(1, 12, map["jan" := 1, "feb" := 2, "mar" := 3, "apr" := 4, "may" := 5, "jun" := 6,
                                    "jul" := 7, "aug" := 8, "sep" := 9, "oct" := 10, "nov" := 11, "dec" := 12])
  const DOW := Bounds(0, 6, map["sun" := 0, "mon" := 1, "tue" := 2, "wed" := 3, "thu" := 4, "fri" := 5, "sat" := 6])

  predicate KnownBounds(b: Bounds) {
    b == SECONDS || b == MINUTES || b == HOURS || b == DOM || b == MONTHS || b == DOW
  }

  /** One comma-separated component: the values `start`, `start + step`, ... up to `end`. */
  datatype Range = Range(start: nat, end: nat, step: nat, star: bool)

  // ----- Components

  function MustParseInt(expr: string): Result<nat> {
    match Atoi(expr)
    case None => Err
    case Some(n) => if n < 0 then Err else Ok(n)
  }

  function ParseIntOrName(expr: string, names: map<string, nat>): Result<nat> {
    if ToLower(expr) in names then Ok(names[ToLower(expr)]) else MustParseInt(expr)
  }

  /** The values before the slash: first, last, star and whether there was a single number. */
  function ParseLimits(range: string, b: Bounds): Result<(nat, nat, bool, bool)> {
    var lowAndHigh := Split(range, {'-'});
    var single := |lowAndHigh| == 1;
    if lowAndHigh[0] == "*" || lowAndHigh[0] == "?" then Ok((b.min, b.max, true, single))
    else
      match ParseIntOrName(lowAndHigh[0], b.names)
      case Err => Err
      case Ok(start) =>
        if |lowAndHigh| == 1 then Ok((start, start, false, true))
        else if |lowAndHigh| == 2 then
          (match ParseIntOrName(lowAndHigh[1], b.names)
           case Err => Err
           case Ok(end) => Ok((start, end, false, false)))
        else Err
  }

  /** One component of a field: everything `getRange` does before it computes bits. */
  function ParseRange(expr: string, b: Bounds): Result<Range> {
    var rangeAndStep := Split(expr, {'/'});
    match ParseLimits(rangeAndStep[0], b)
    case Err => Err
    case Ok((start, end, star, single)) =>
      if |rangeAndStep| == 1 then CheckRange(Range(start, end, 1, star), b)
      else if |rangeAndStep| == 2 then
        (match MustParseInt(rangeAndStep[1])
         case Err => Err
         case Ok(step) => CheckRange(Range(start, if single then b.max else end, step, star && step <= 1), b))
      else Err
  }

  function CheckRange(r: Range, b: Bounds): Result<Range> {
    if r.start < b.min || r.end > b.max || r.start > r.end || r.step == 0 then Err else Ok(r)
  }

  // ----- What the text of a component means

  /** `number`, as a name or in digits. */
  predicate Denotes(text: string, b: Bounds, n: nat) { ParseIntOrName(text, b.names) == Ok(n) }

  /** The part before the slash: `*`, `?`, `n` or `n-m`; whatever follows a hyphen after a star is ignored. */
  ghost predicate LimitsGrammar(text: string, b: Bounds, lo: nat, hi: nat, star: bool, single: bool) {
    || (star && lo == b.min && hi == b.max && single && (text == "*" || text == "?"))
    || (star && lo == b.min && hi == b.max && !single && exists rest :: text == "*-" + rest || text == "?-" + rest)
    || (!star && lo == hi && single && '-' !in text && text != "*" && text != "?" && Denotes(text, b, lo))
    || (!star && !single && exists l, h :: text == l + "-" + h && '-' !in l && '-' !in h && l != "*" && l != "?" &&
                                           Denotes(l, b, lo) && Denotes(h, b, hi))
  }

  /** A whole component: limits, then optionally a slash and a step. `n/step` runs to the field's maximum. */
  ghost predicate RangeGrammar(text: string, b: Bounds, r: Range) {
    && b.min <= r.start <= r.end <= b.max && r.step >= 1
    && ((exists single :: '/' !in text && LimitsGrammar(text, b, r.start, r.end, r.star, single) && r.step == 1)
        || (exists limits, step, hi, star, single ::
              text == limits + "/" + step && '/' !in limits && '/' !in step &&
              LimitsGrammar(limits, b, r.start, hi, star, single) && MustParseInt(step) == Ok(r.step) &&
              r.end == (if single then b.max else hi) && r.star == (star && r.step == 1)))
  }

  lemma SplitTwo(a: string, sep: char, c: string)
    requires sep !in a && sep !in c
    ensures Split(a + [sep] + c, {sep}) == [a, c]
  {
    SplitFirst(a, sep, c);
    SplitNone(c, {sep});
  }

  /** Two pieces mean one separator. */
  lemma TwoPieces(s: string, sep: char)
    requires |Split(s, {sep})| == 2
    ensures var p := Split(s, {sep}); s == p[0] + [sep] + p[1] && sep !in p[0] && sep !in p[1]
  {
    JoinSplit(s, sep);
    PiecesAreClean(s, {sep});
    var p := Split(s, {sep});
    assert Join(p, sep) == p[0] + [sep] + Join(p[1..], sep);
  }

  lemma OnePiece(s: string, sep: char)
    ensures |Split(s, {sep})| == 1 <==> sep !in s
    ensures sep !in s ==> Split(s, {sep}) == [s]
  {
    JoinSplit(s, sep);
    PiecesAreClean(s, {sep});
    var p := Split(s, {sep});
    if |p| == 1 {
      assert p[0] in p;
    }
    if sep !in s {
      SplitNone(s, {sep});
    }
  }

  /** The first piece is everything up to the first separator. */
  lemma FirstPiece(s: string, sep: char)
    requires sep in s
    ensures exists rest :: s == Split(s, {sep})[0] + [sep] + rest
    ensures sep !in Split(s, {sep})[0]
  {
    JoinSplit(s, sep);
    PiecesAreClean(s, {sep});
    OnePiece(s, sep);
    var p := Split(s, {sep});
    assert p[0] in p;
    assert s == p[0] + [sep] + Join(p[1..], sep);
  }

  lemma LimitsComplete(text: string, b: Bounds, lo: nat, hi: nat, star: bool, single: bool)
    requires LimitsGrammar(text, b, lo, hi, star, single)
    ensures ParseLimits(text, b) == Ok((lo, hi, star, single))
  {
    hide Split, ParseIntOrName;
    if single {
      OnePiece(text, '-');
    } else if star {
      var rest :| text == "*-" + rest || text == "?-" + rest;
      assert text == ['*'] + "-" + rest || text == ['?'] + "-" + rest;
      StarThenHyphen(text, '*');
      StarThenHyphen(text, '?');
    } else {
      var l, h :| text == l + "-" + h && '-' !in l && '-' !in h && l != "*" && l != "?" && Denotes(l, b, lo) &&
        Denotes(h, b, hi);
      SplitTwo(l, '-', h);
    }
  }

  lemma StarThenHyphen(text: string, c: char)
    requires c != '-'
    ensures (exists rest :: text == [c] + "-" + rest) ==> |Split(text, {'-'})| > 1 && Split(text, {'-'})[0] == [c]
  {
    if rest :| text == [c] + "-" + rest {
      SplitFirst([c], '-', rest);
    }
  }

  lemma LimitsSound(text: string, b: Bounds, lo: nat, hi: nat, star: bool, single: bool)
    requires ParseLimits(text, b) == Ok((lo, hi, star, single))
    ensures LimitsGrammar(text, b, lo, hi, star, single)
  {
    hide Split, ParseIntOrName;
    OnePiece(text, '-');
    var p := Split(text, {'-'});
    if star && !single {
      FirstPiece(text, '-');
      var rest :| text == p[0] + ['-'] + rest;
      assert p[0] + ['-'] + rest == (if p[0] == "*" then "*-" else "?-") + rest;
    } else if !single {
      TwoPieces(text, '-');
      assert text == p[0] + "-" + p[1];
    }
  }

  /** The parser accepts exactly the grammar, with exactly its meaning. */
  lemma ParsesExactlyTheGrammar(text: string, b: Bounds, r: Range)
    ensures ParseRange(text, b) == Ok(r) <==> RangeGrammar(text, b, r)
  {
    if ParseRange(text, b) == Ok(r) {
      GrammarSound(text, b, r);
    }
    if RangeGrammar(text, b, r) {
      GrammarComplete(text, b, r);
    }
  }

  lemma GrammarSound(text: string, b: Bounds, r: Range)
    requires ParseRange(text, b) == Ok(r)
    ensures RangeGrammar(text, b, r)
  {
    OnePiece(text, '/');
    var p := Split(text, {'/'});
    var (start, end, star, single) := ParseLimits(p[0], b).value;
    LimitsSound(p[0], b, start, end, star, single);
    if |p| == 2 {
      TwoPieces(text, '/');
      assert text == p[0] + "/" + p[1];
    }
  }

  lemma GrammarComplete(text: string, b: Bounds, r: Range)
    requires RangeGrammar(text, b, r)
    ensures ParseRange(text, b) == Ok(r)
  {
    hide Split, ParseLimits, LimitsGrammar;
    if single :| '/' !in text && LimitsGrammar(text, b, r.start, r.end, r.star, single) && r.step == 1 {
      OnePiece(text, '/');
      LimitsComplete(text, b, r.start, r.end, r.star, single);
    } else {
      SteppedComplete(text, b, r);
    }
  }

  lemma SteppedComplete(text: string, b: Bounds, r: Range)
    requires RangeGrammar(text, b, r)
    requires forall single :: !('/' !in text && LimitsGrammar(text, b, r.start, r.end, r.star, single) && r.step == 1)
    ensures ParseRange(text, b) == Ok(r)
  {
    hide Split, ParseLimits, LimitsGrammar;
    var limits, step, hi, star, single :|
      text == limits + "/" + step && '/' !in limits && '/' !in step &&
      LimitsGrammar(limits, b, r.start, hi, star, single) && MustParseInt(step) == Ok(r.step) &&
      r.end == (if single then b.max else hi) && r.star == (star && r.step == 1);
    SplitTwo(limits, '/', step);
    LimitsComplete(limits, b, r.start, hi, star, single);
  }

  // ----- Bits

  /** Bit `i` belongs to a component: an element of its progression, or the mark of a star with step 1. */
  predicate InRange(r: Range, i: int)
    requires r.step > 0
  {
    InProgression(r.start, r.end, r.step, i) || (r.star && i == STAR_BIT)
  }

  predicate InProgression(min: nat, max: nat, step: nat, i: int)
    requires step > 0
  {
    min <= i <= max && (i - min) % step == 0
  }

  /** The word with exactly the bits of one progression. */
  function ProgressionWord(min: nat, max: nat, step: nat): Word
    requires step > 0
  {
    seq(WORD_BITS, i requires 0 <= i < WORD_BITS => InProgression(min, max, step, i))
  }

  /**
   Sets the bits of a progression, by shifting masks when the step is 1 and otherwise by a loop over
   64-bit unsigned counters. The counter cannot wrap around for the limits and steps a field may have.
   */
  method GetBits(min: nat, max: nat, step: nat) returns (bits: Word)
    requires 0 < step && max + step < UINT64_COUNT && max < STAR_BIT
    ensures bits == ProgressionWord(min, max, step)
  {
    if step == 1 {
      ShiftsGiveInterval(min, max);
      return And(Not(ShiftLeft(AllOnes(), max + 1)), ShiftLeft(AllOnes(), min));
    }
    bits := Zero();
    var i := min;
    while i <= max
      invariant min <= i && (i - min) % step == 0
      invariant Collected(bits, i, min, max, step)
      decreases max + step - i
    {
      CollectOne(bits, i, min, max, step);
      bits := Or(bits, ShiftLeft(One(), i));
      i := (i + step) % UINT64_COUNT;
    }
    assert bits == ProgressionWord(min, max, step);
  }

  /** The bits of the progression below `i` are set, and no others. */
  ghost predicate Collected(bits: Word, i: int, min: nat, max: nat, step: nat)
    requires step > 0
  {
    forall j :: 0 <= j < WORD_BITS ==> (bits[j] <==> j < i && InProgression(min, max, step, j))
  }

  lemma CollectOne(bits: Word, i: nat, min: nat, max: nat, step: nat)
    requires 0 < step && min <= i <= max < STAR_BIT && (i - min) % step == 0 && Collected(bits, i, min, max, step)
    ensures Collected(Or(bits, ShiftLeft(One(), i)), i + step, min, max, step) && (i + step - min) % step == 0
  {
    NextMultiple(i - min, step);
    forall j | 0 <= j < WORD_BITS
      ensures Or(bits, ShiftLeft(One(), i))[j] <==> j < i + step && InProgression(min, max, step, j)
    {
      if i < j < i + step {
        NoMultipleBetween(i - min, j - i, step);
      }
    }
  }

  /** The mask formula for step 1 is the closed interval. */
  lemma ShiftsGiveInterval(min: nat, max: nat)
    ensures And(Not(ShiftLeft(AllOnes(), max + 1)), ShiftLeft(AllOnes(), min)) == ProgressionWord(min, max, 1)
  {
  }

  /** Every component a parser accepts has limits and a step for which the bit computation is exact. */
  lemma AcceptedRangeFits(expr: string, b: Bounds)
    requires KnownBounds(b) && ParseRange(expr, b).Ok?
    ensures var r := ParseRange(expr, b).value;
            b.min <= r.start <= r.end <= b.max && 0 < r.step && r.end + r.step < UINT64_COUNT && r.end < STAR_BIT
  {
  }

  method GetRange(expr: string, b: Bounds) returns (bits: Result<Word>)
    requires KnownBounds(b)
    ensures bits == match ParseRange(expr, b) case Err => Err
            case Ok(r) => (AcceptedRangeFits(expr, b); Ok(RangeWord(r)))
  {
    match ParseRange(expr, b)
    case Err => return Err;
    case Ok(r) =>
      AcceptedRangeFits(expr, b);
      var progression := GetBits(r.start, r.end, r.step);
      var extra := if r.star then ShiftLeft(One(), STAR_BIT) else Zero();
      bits := Ok(Or(progression, extra));
      assert bits.value == RangeWord(r);
  }

  function RangeWord(r: Range): Word
    requires r.step > 0
  {
    seq(WORD_BITS, i requires 0 <= i < WORD_BITS => InRange(r, i))
  }

  /** The components of a field, in order; an error in any of them is an error of the field. */
  function ParseRanges(exprs: seq<string>, b: Bounds): (rs: Result<seq<Range>>)
    ensures rs.Ok? ==> forall r :: r in rs.value ==> r.step > 0
  {
    if exprs == [] then Ok([])
    else
      match (ParseRange(exprs[0], b), ParseRanges(exprs[1..], b))
      case (Ok(r), Ok(rest)) => Ok([r] + rest)
      case _ => Err
  }

  /** The set of values a field denotes: the union of its components. */
  function FieldWord(field: string, b: Bounds): Result<Word> {
    match ParseRanges(Fields(field, {','}), b)
    case Err => Err
    case Ok(rs) => Ok(UnionWord(rs))
  }

  function UnionWord(rs: seq<Range>): Word
    requires forall r :: r in rs ==> r.step > 0
  {
    seq(WORD_BITS, i requires 0 <= i < WORD_BITS => exists r :: r in rs && InRange(r, i))
  }

  method GetField(field: string, b: Bounds) returns (bits: Result<Word>)
    requires KnownBounds(b)
    ensures bits == FieldWord(field, b)
  {
    hide ParseRange, ParseRanges, UnionWord, RangeWord, Or, Zero, Fields, Prepend;
    var ranges := Fields(field, {','});
    var acc := Zero();
    ghost var done: seq<Range> := [];
    EmptyUnion(ranges, b);
    var k := 0;
    while k < |ranges|
      invariant 0 <= k <= |ranges|
      invariant forall r :: r in done ==> r.step > 0
      invariant acc == UnionWord(done)
      invariant ParseRanges(ranges, b) == Prepend(done, ParseRanges(ranges[k..], b))
    {
      TakeOne(done, ranges, k, b);
      var bit := GetRange(ranges[k], b);
      if bit.Err? { return Err; }
      ghost var r := ParseRange(ranges[k], b).value;
      AcceptedRangeFits(ranges[k], b);
      UnionGrows(done, r);
      acc := Or(acc, bit.value);
      done := done + [r];
      k := k + 1;
    }
    TakeNone(done, ranges, b);
    return Ok(acc);
  }

  lemma EmptyUnion(ranges: seq<string>, b: Bounds)
    ensures Zero() == UnionWord([])
    ensures ParseRanges(ranges, b) == Prepend([], ParseRanges(ranges[0..], b))
  {
    assert ranges[0..] == ranges;
    var all := ParseRanges(ranges, b);
    assert all.Ok? ==> [] + all.value == all.value;
  }

  lemma TakeOne(done: seq<Range>, ranges: seq<string>, k: nat, b: Bounds)
    requires k < |ranges|
    ensures Prepend(done, ParseRanges(ranges[k..], b)) ==
            match ParseRange(ranges[k], b)
            case Err => Err
            case Ok(r) => Prepend(done + [r], ParseRanges(ranges[k + 1..], b))
  {
    hide ParseRange;
    assert ranges[k..][1..] == ranges[k + 1..];
    var rest := ParseRanges(ranges[k + 1..], b);
    if ParseRange(ranges[k], b).Ok? && rest.Ok? {
      var r := ParseRange(ranges[k], b).value;
      assert done + ([r] + rest.value) == done + [r] + rest.value;
    }
  }

  lemma TakeNone(done: seq<Range>, ranges: seq<string>, b: Bounds)
    ensures Prepend(done, ParseRanges(ranges[|ranges|..], b)) == Ok(done)
  {
    assert ranges[|ranges|..] == [];
    assert done + [] == done;
  }

  ghost function Prepend(done: seq<Range>, rest: Result<seq<Range>>): Result<seq<Range>> {
    if rest.Ok? then Ok(done + rest.value) else Err
  }

  lemma UnionGrows(rs: seq<Range>, r: Range)
    requires r.step > 0 && forall x :: x in rs ==> x.step > 0
    ensures Or(UnionWord(rs), RangeWord(r)) == UnionWord(rs + [r])
  {
    forall i | 0 <= i < WORD_BITS ensures Or(UnionWord(rs), RangeWord(r))[i] == UnionWord(rs + [r])[i] {
      if UnionWord(rs)[i] {
        var x :| x in rs && InRange(x, i);
        assert x in rs + [r];
      }
      assert r in rs + [r];
    }
  }

  /** The component list holds one range per component text. */
  lemma {:induction false} RangesOfTexts(exprs: seq<string>, b: Bounds)
    ensures ParseRanges(exprs, b).Ok? <==> forall e :: e in exprs ==> ParseRange(e, b).Ok?
    ensures ParseRanges(exprs, b).Ok? ==>
              forall r :: r in ParseRanges(exprs, b).value <==> exists e :: e in exprs && ParseRange(e, b) == Ok(r)
  {
    if exprs == [] {
    } else {
      RangesOfTexts(exprs[1..], b);
      assert forall e :: e in exprs <==> e == exprs[0] || e in exprs[1..];
    }
  }

  /**
   A field is accepted exactly when every comma-separated component is in the grammar, and then it
   denotes exactly the union of the components' progressions. Bit 63 marks a star with step 1, and no
   other bit lies outside the field's bounds.
   */
  lemma FieldDenotesUnion(field: string, b: Bounds)
    requires KnownBounds(b)
    ensures var exprs := Fields(field, {','});
            match FieldWord(field, b)
            case Err => exists e :: e in exprs && forall r :: !RangeGrammar(e, b, r)
            case Ok(w) =>
              && (forall i :: 0 <= i < WORD_BITS ==>
                    (w[i] <==> exists e, r :: e in exprs && RangeGrammar(e, b, r) && InRange(r, i)))
              && (forall i :: 0 <= i < WORD_BITS && w[i] ==> b.min <= i <= b.max || i == STAR_BIT)
  {
    var exprs := Fields(field, {','});
    RangesOfTexts(exprs, b);
    forall e, r ensures ParseRange(e, b) == Ok(r) <==> RangeGrammar(e, b, r) { ParsesExactlyTheGrammar(e, b, r); }
    if FieldWord(field, b).Ok? {
      var rs := ParseRanges(exprs, b).value;
      UnionOfMembers(exprs, b, rs, FieldWord(field, b).value);
    } else {
      var e :| e in exprs && ParseRange(e, b).Err?;
      assert forall r :: !RangeGrammar(e, b, r);
    }
  }

  lemma UnionOfMembers(exprs: seq<string>, b: Bounds, rs: seq<Range>, w: Word)
    requires KnownBounds(b)
    requires forall r :: r in rs ==> r.step > 0
    requires forall r :: r in rs <==> exists e :: e in exprs && ParseRange(e, b) == Ok(r)
    requires forall e, r :: ParseRange(e, b) == Ok(r) <==> RangeGrammar(e, b, r)
    requires w == UnionWord(rs)
    ensures forall i :: 0 <= i < WORD_BITS ==>
              (w[i] <==> exists e, r :: e in exprs && RangeGrammar(e, b, r) && InRange(r, i))
    ensures forall i :: 0 <= i < WORD_BITS && w[i] ==> b.min <= i <= b.max || i == STAR_BIT
  {
    hide RangeGrammar, ParseRange;
    forall i | 0 <= i < WORD_BITS
      ensures w[i] <==> exists e, r :: e in exprs && RangeGrammar(e, b, r) && InRange(r, i)
      ensures w[i] ==> b.min <= i <= b.max || i == STAR_BIT
    {
      if w[i] {
        var r :| r in rs && InRange(r, i);
        var e :| e in exprs && ParseRange(e, b) == Ok(r);
        AcceptedRangeFits(e, b);
        assert RangeGrammar(e, b, r);
      }
      if e, r :| e in exprs && RangeGrammar(e, b, r) && InRange(r, i) {
        assert ParseRange(e, b) == Ok(r);
        assert r in rs;
      }
    }
  }

  // ----- Whole expressions

  datatype ParseOption = Second | SecondOptional | Minute | Hour | Dom | Month | Dow | DowOptional | Descriptor

  const PLACES := [Second, Minute, Hour, Dom, Month, Dow]
  const DEFAULTS := ["0", "0", "0", "*", "*", "*"]
  const STANDARD_OPTIONS := {Minute, Hour, Dom, Month, Dow, Descriptor}
  const WITH_SECONDS_OPTIONS := {Second, Minute, Hour, Dom, Month, Dow, Descriptor}

  /** Options with the optional fields counted as fields. */
  function WithOptionals(options: set<ParseOption>): set<ParseOption> {
    options + (if SecondOptional in options then {Second} else {}) + (if DowOptional in options then {Dow} else {})
  }

  /** How many of the first `i` places are among the options. */
  function Rank(options: set<ParseOption>, i: nat): nat
    requires i <= |PLACES|
  {
    if i == 0 then 0 else Rank(options, i - 1) + if PLACES[i - 1] in options then 1 else 0
  }

  /** The given fields with a missing optional one filled in, or an error for a wrong number of fields. */
  function CompleteFields(fields: seq<string>, options: set<ParseOption>): Result<seq<string>> {
    var both := SecondOptional in options && DowOptional in options;
    var optional := SecondOptional in options || DowOptional in options;
    var max := Rank(WithOptionals(options), |PLACES|);
    if both then Err
    else if |fields| == max then Ok(fields)
    else if optional && |fields| + 1 == max then
      Ok(if DowOptional in options then fields + ["*"] else ["0"] + fields)
    else Err
  }

  /** Six fields: each place is its own field, or the default if the place is not among the options. */
  ghost predicate IsNormalized(fields: seq<string>, options: set<ParseOption>, r: Result<seq<string>>) {
    match (CompleteFields(fields, options), r)
    case (Ok(full), Ok(six)) =>
      && |six| == |PLACES|
      && |full| == Rank(WithOptionals(options), |PLACES|)
      && forall i :: 0 <= i < |PLACES| ==>
           if PLACES[i] in WithOptionals(options)
           then Rank(WithOptionals(options), i) < |full| && six[i] == full[Rank(WithOptionals(options), i)]
           else six[i] == DEFAULTS[i]
    case (Err, Err) => true
    case _ => false
  }

  lemma {:induction false} RankGrows(options: set<ParseOption>, i: nat, j: nat)
    requires i < j <= |PLACES| && PLACES[i] in options
    ensures Rank(options, i) < Rank(options, j)
    decreases j
  {
    if i + 1 >= j {
    } else {
      RankGrows(options, i, j - 1);
    }
  }

  method NormalizeFields(fields: seq<string>, options: set<ParseOption>) returns (r: Result<seq<string>>)
    ensures IsNormalized(fields, options, r)
    ensures r.Ok? ==> |r.value| == |PLACES|
  {
    hide Rank;
    var complete := CompleteFields(fields, options);
    if complete.Err? { return Err; }
    var full, opts := complete.value, WithOptionals(options);
    var expanded := DEFAULTS;
    var n := 0;
    RankZero(opts);
    for i := 0 to |PLACES|
      invariant |expanded| == |PLACES| && n == Rank(opts, i)
      invariant forall j :: i <= j < |PLACES| ==> expanded[j] == DEFAULTS[j]
      invariant forall j :: 0 <= j < i ==>
        if PLACES[j] in opts then Rank(opts, j) < |full| && expanded[j] == full[Rank(opts, j)]
          else expanded[j] == DEFAULTS[j]
    {
      RankStep(opts, i);
      if PLACES[i] in opts {
        RankGrows(opts, i, |PLACES|);
        expanded := expanded[i := full[n]];
        n := n + 1;
      }
    }
    return Ok(expanded);
  }

  lemma RankZero(options: set<ParseOption>)
    ensures Rank(options, 0) == 0
  {
  }

  lemma RankStep(options: set<ParseOption>, i: nat)
    requires i < |PLACES|
    ensures Rank(options, i + 1) == Rank(options, i) + if PLACES[i] in options then 1 else 0
  {
  }

  /** The schedule of six normalised fields; the first field in error makes the expression an error. */
  function ScheduleOf(six: seq<string>): Result<SpecSchedule>
    requires |six| == |PLACES|
  {
    match (FieldWord(six[0], SECONDS), FieldWord(six[1], MINUTES), FieldWord(six[2], HOURS),
           FieldWord(six[3], DOM), FieldWord(six[4], MONTHS), FieldWord(six[5], DOW))
    case (Ok(second), Ok(minute), Ok(hour), Ok(dom), Ok(month), Ok(dow)) =>
      Ok(SpecSchedule(second, minute, hour, dom, month, dow))
    case _ => Err
  }

  /** Parses the whitespace-separated fields of an expression that is not a descriptor and names no zone. */
  method Parse(fields: seq<string>, options: set<ParseOption>) returns (s: Result<SpecSchedule>)
    ensures exists six :: IsNormalized(fields, options, six) &&
                          s == match six case Err => Err case Ok(fs) => ScheduleOf(fs)
  {
    hide FieldWord, IsNormalized;
    var six := NormalizeFields(fields, options);
    if six.Err? { return Err; }
    var words: seq<Word> := [];
    var bounds := [SECONDS, MINUTES, HOURS, DOM, MONTHS, DOW];
    for i := 0 to |PLACES|
      invariant |words| == i
      invariant forall j :: 0 <= j < i ==> FieldWord(six.value[j], bounds[j]) == Ok(words[j])
    {
      var word := GetField(six.value[i], bounds[i]);
      if word.Err? {
        assert ScheduleOf(six.value) == Err;
        return Err;
      }
      words := words + [word.value];
    }
    return Ok(SpecSchedule(words[0], words[1], words[2], words[3], words[4], words[5]));
  }
}
