/**
 The field-skipping search refines the minute-stepping one: which expressions, of those both parsers accept, mean the
 same times to both, and what the two searches then have in common.
 */
module Refinement {
  import opened Arithmetic
  import opened Calendar
  import opened Text
  import opened Words
  import opened Wrappers
  import opened CronSpec
  import Cron = CronParser
  import Simple = SchedulerParser

  predicate Clean(field: string) { forall c :: c in field ==> c !in SPACES }

  /** Matchers that accept every value because they were written with a star. */
  predicate Starred(m: Simple.FieldMatcher) { m.Wildcard? || (m.Every? && m.step == 1) }

  /** Matcher and word agree on every value of the field, and on whether the field has a star mark. */
  ghost predicate Agree(m: Simple.FieldMatcher, w: Word, b: Cron.Bounds) {
    && m.Valid()
    && b.max < WORD_BITS
    && (forall v :: b.min <= v <= b.max ==> (m.Matches(v) <==> w[v]))
    && (w[STAR_BIT] <==> Starred(m))
    && (Starred(m) ==> forall v :: b.min <= v <= b.max ==> m.Matches(v))
  }

  lemma TrimClean(s: string)
    requires Clean(s)
    ensures TrimSpace(s) == s
  {
  }

  /** A number in digits is never a name. */
  lemma NumberIsNoName(p: string, b: Cron.Bounds)
    requires Cron.KnownBounds(b) && Atoi(p).Some?
    ensures Cron.ParseIntOrName(p, b.names) == Cron.MustParseInt(p)
    ensures forall c :: c in p ==> c != ',' && c != '/' && c != '*'
  {
    hide Atoi;
    AtoiCharacters(p);
    assert ToLower(p)[0] == p[0];
  }

  /** An accepted component that is just a number denotes that number. */
  lemma NumberComponent(p: string, b: Cron.Bounds)
    requires Cron.KnownBounds(b) && Atoi(p).Some? && Cron.ParseRange(p, b).Ok?
    ensures '-' !in p && Atoi(p).value >= 0 &&
            Cron.ParseRange(p, b) == Ok(Cron.Range(Atoi(p).value, Atoi(p).value, 1, false))
  {
    hide Atoi, Split;
    NumberIsNoName(p, b);
    AtoiCharacters(p);
    Cron.OnePiece(p, '/');
    Cron.OnePiece(p, '-');
    assert p != "*" && p != "?" by { assert p[0] != '*' && p[0] != '?'; }
    if '-' in p {
      LeadingHyphen(p);
      EmptyIsNoNumber(b);
    }
  }

  lemma EmptyIsNoNumber(b: Cron.Bounds)
    requires Cron.KnownBounds(b)
    ensures Atoi("") == None && Cron.ParseIntOrName("", b.names).Err?
  {
    assert |ToLower("")| == 0;
  }

  lemma LeadingHyphen(p: string)
    requires p != "" && p[0] == '-'
    ensures Split(p, {'-'})[0] == ""
  {
  }

  lemma RangeWordBits(r: Cron.Range, i: int)
    requires r.step > 0 && 0 <= i < WORD_BITS
    ensures Cron.RangeWord(r)[i] <==> Cron.InRange(r, i)
  {
  }

  /** A field without commas has the bits of its one component. */
  lemma OneComponent(field: string, b: Cron.Bounds)
    requires field != "" && ',' !in field && Cron.KnownBounds(b) && Cron.FieldWord(field, b).Ok?
    ensures Cron.ParseRange(field, b).Ok? && Cron.ParseRange(field, b).value.step > 0
    ensures Cron.FieldWord(field, b) == Ok(Cron.RangeWord(Cron.ParseRange(field, b).value))
  {
    hide Split, Cron.ParseRange;
    Cron.OnePiece(field, ',');
    NonEmptyOfNonEmpty([field]);
    assert [field][1..] == [];
    var r := Cron.ParseRange(field, b).value;
    Cron.AcceptedRangeFits(field, b);
    assert Cron.ParseRanges([field], b) == Ok([r]) by { assert [r] + [] == [r]; }
    assert Cron.UnionWord([r]) == Cron.RangeWord(r);
  }

  lemma AgreeWildcard(b: Cron.Bounds)
    requires Cron.KnownBounds(b) && Cron.FieldWord("*", b).Ok?
    ensures Agree(Simple.Wildcard, Cron.FieldWord("*", b).value, b)
  {
    hide Split, Atoi, Cron.FieldWord;
    OneComponent("*", b);
    Cron.OnePiece("*", '/');
    Cron.OnePiece("*", '-');
  }

  lemma AgreeStep(field: string, min: int, max: int, b: Cron.Bounds)
    requires Cron.KnownBounds(b) && b.min == min && b.max <= max < STAR_BIT
    requires "*/" <= field && Simple.MatcherOf(field, min, max).Ok? && Cron.FieldWord(field, b).Ok?
    ensures Agree(Simple.MatcherOf(field, min, max).value, Cron.FieldWord(field, b).value, b)
  {
    hide Split, Atoi, Cron.FieldWord;
    var n := field[2..];
    assert field == "*" + ['/'] + n;
    AtoiCharacters(n);
    NumberIsNoName(n, b);
    assert ',' !in field;
    Cron.SplitTwo("*", '/', n);
    Cron.OnePiece("*", '-');
    OneComponent(field, b);
  }

  lemma AgreeBetween(field: string, min: int, max: int, b: Cron.Bounds)
    requires Cron.KnownBounds(b) && b.min == min && b.max <= max < STAR_BIT && Clean(field)
    requires !("*/" <= field) && ',' !in field && '-' in field && field != "*"
    requires Simple.MatcherOf(field, min, max).Ok? && Cron.FieldWord(field, b).Ok?
    ensures Agree(Simple.MatcherOf(field, min, max).value, Cron.FieldWord(field, b).value, b)
  {
    hide Split, Atoi, TrimSpace, Cron.FieldWord;
    var parts := Split(field, {'-'});
    Cron.TwoPieces(field, '-');
    PiecesAreClean(field, {'-'});
    assert parts[0] in parts && parts[1] in parts;
    TrimClean(parts[0]);
    TrimClean(parts[1]);
    NumberIsNoName(parts[0], b);
    NumberIsNoName(parts[1], b);
    OneComponent(field, b);
    assert '/' !in field;
    Cron.OnePiece(field, '/');
    assert parts[0] != "*" && parts[0] != "?" by {
      AtoiCharacters(parts[0]);
      assert parts[0][0] != '*' && parts[0][0] != '?';
    }
  }

  lemma AgreeExact(field: string, min: int, max: int, b: Cron.Bounds)
    requires Cron.KnownBounds(b) && b.min == min && b.max <= max < STAR_BIT && Clean(field)
    requires !("*/" <= field) && ',' !in field && '-' !in field && field != "*"
    requires Simple.MatcherOf(field, min, max).Ok? && Cron.FieldWord(field, b).Ok?
    ensures Agree(Simple.MatcherOf(field, min, max).value, Cron.FieldWord(field, b).value, b)
  {
    hide Split, Atoi, TrimSpace, Cron.FieldWord, Cron.ParseRange;
    EmptyIsNoNumber(b);
    OneComponent(field, b);
    NumberComponent(field, b);
    forall i | 0 <= i < WORD_BITS ensures Cron.FieldWord(field, b).value[i] <==> i == Atoi(field).value {
      RangeWordBits(Cron.ParseRange(field, b).value, i);
    }
  }

  /** A list of numbers parses to one single-value component per number. */
  lemma {:induction false} ListComponents(parts: seq<string>, min: int, max: int, b: Cron.Bounds)
    requires Cron.KnownBounds(b) && forall p :: p in parts ==> Clean(p)
    requires Simple.ListValues(parts, min, max).Ok? && Cron.ParseRanges(NonEmpty(parts), b).Ok?
    ensures var vs, rs := Simple.ListValues(parts, min, max).value, Cron.ParseRanges(NonEmpty(parts), b).value;
            |rs| == |vs| && forall k :: 0 <= k < |vs| ==>
                              0 <= vs[k] <= max && rs[k] == Cron.Range(vs[k], vs[k], 1, false)
  {
    hide Split, Atoi, TrimSpace, Cron.ParseRange;
    if parts == [] {
    } else {
      EmptyIsNoNumber(b);
      TrimClean(parts[0]);
      assert NonEmpty(parts)[1..] == NonEmpty(parts[1..]);
      NumberComponent(parts[0], b);
      ListComponents(parts[1..], min, max, b);
    }
  }

  lemma AgreeList(field: string, min: int, max: int, b: Cron.Bounds)
    requires Cron.KnownBounds(b) && b.min == min && b.max <= max < STAR_BIT && Clean(field)
    requires !("*/" <= field) && ',' in field && field != "*"
    requires Simple.MatcherOf(field, min, max).Ok? && Cron.FieldWord(field, b).Ok?
    ensures Agree(Simple.MatcherOf(field, min, max).value, Cron.FieldWord(field, b).value, b)
  {
    hide Split, Atoi, TrimSpace, Cron.ParseRange, Cron.ParseRanges, Simple.ListValues, NonEmpty;
    var parts := Split(field, {','});
    PiecesAreClean(field, {','});
    ListComponents(parts, min, max, b);
    var vs, rs := Simple.ListValues(parts, min, max).value, Cron.ParseRanges(NonEmpty(parts), b).value;
    UnionOfSingles(vs, rs);
  }

  lemma UnionOfSingles(vs: seq<int>, rs: seq<Cron.Range>)
    requires forall r :: r in rs ==> r.step > 0
    requires |rs| == |vs| && forall k :: 0 <= k < |vs| ==> vs[k] >= 0 && rs[k] == Cron.Range(vs[k], vs[k], 1, false)
    requires forall k :: 0 <= k < |vs| ==> vs[k] < STAR_BIT
    ensures forall v :: 0 <= v < WORD_BITS ==> (v in vs <==> Cron.UnionWord(rs)[v])
    ensures !Cron.UnionWord(rs)[STAR_BIT]
  {
    forall v | 0 <= v < WORD_BITS ensures v in vs <==> Cron.UnionWord(rs)[v] {
      if v in vs {
        var k :| 0 <= k < |vs| && vs[k] == v;
        assert rs[k] in rs && Cron.InRange(rs[k], v);
      }
    }
  }

  /** Any field both parsers accept means the same to both. */
  lemma FieldAgreement(field: string, min: int, max: int, b: Cron.Bounds)
    requires Cron.KnownBounds(b) && b.min == min && b.max <= max < STAR_BIT && Clean(field)
    requires Simple.MatcherOf(field, min, max).Ok? && Cron.FieldWord(field, b).Ok?
    ensures Agree(Simple.MatcherOf(field, min, max).value, Cron.FieldWord(field, b).value, b)
  {
    if field == "*" {
      AgreeWildcard(b);
    } else if "*/" <= field {
      AgreeStep(field, min, max, b);
    } else if ',' in field {
      AgreeList(field, min, max, b);
    } else if '-' in field {
      AgreeBetween(field, min, max, b);
    } else {
      AgreeExact(field, min, max, b);
    }
  }

  // ----- Whole expressions

  /** The options under which the crontab parser reads as many fields as the expression has. */
  function OptionsFor(fields: seq<string>): set<Cron.ParseOption> {
    if |fields| == 6 then Cron.WITH_SECONDS_OPTIONS else Cron.STANDARD_OPTIONS
  }

  function SixFields(fields: seq<string>): seq<string> {
    if |fields| == 5 then ["0"] + fields else fields
  }

  /** Normalising five fields puts second 0 in front; six fields stay as they are. */
  lemma NormalizedFields(fields: seq<string>, six: seq<string>)
    requires |fields| == 5 || |fields| == 6
    requires Cron.IsNormalized(fields, OptionsFor(fields), Ok(six))
    ensures six == SixFields(fields)
  {
    var opts := OptionsFor(fields);
    assert Cron.WithOptionals(opts) == opts;
    Ranks(opts);
    forall i | 0 <= i < |Cron.PLACES| ensures six[i] == SixFields(fields)[i] {}
  }

  lemma Ranks(opts: set<Cron.ParseOption>)
    requires opts == Cron.STANDARD_OPTIONS || opts == Cron.WITH_SECONDS_OPTIONS
    ensures forall i :: 0 <= i <= 6 ==> Cron.Rank(opts, i) == if Cron.Second in opts then i else if i == 0 then 0
              else i - 1
  {
    assert Cron.Rank(opts, 1) == if Cron.Second in opts then 1 else 0;
    assert Cron.Rank(opts, 2) == Cron.Rank(opts, 1) + 1;
    assert Cron.Rank(opts, 3) == Cron.Rank(opts, 2) + 1;
    assert Cron.Rank(opts, 4) == Cron.Rank(opts, 3) + 1;
    assert Cron.Rank(opts, 5) == Cron.Rank(opts, 4) + 1;
    assert Cron.Rank(opts, 6) == Cron.Rank(opts, 5) + 1;
  }

  /** Fields go to the places of their options, in order; other places get their defaults. */
  lemma HourAndMonth(r: Result<seq<string>>)
    ensures Cron.IsNormalized(["5", "7"], {Cron.Hour, Cron.Month}, r) <==> r == Ok(["0", "0", "5", "*", "7", "*"])
    ensures Cron.IsNormalized(["5"], {Cron.Hour, Cron.Month}, r) <==> r == Err
  {
    var opts := {Cron.Hour, Cron.Month};
    assert Cron.WithOptionals(opts) == opts;
    assert Cron.Rank(opts, 2) == Cron.Rank(opts, 1) == 0;
    assert Cron.Rank(opts, 3) == Cron.Rank(opts, 4) == 1;
    assert Cron.Rank(opts, 5) == Cron.Rank(opts, 6) == 2;
    assert Cron.CompleteFields(["5", "7"], opts) == Ok(["5", "7"]);
    if Cron.IsNormalized(["5", "7"], opts, r) {
      assert r.value == ["0", "0", "5", "*", "7", "*"];
    }
    if r == Ok(["0", "0", "5", "*", "7", "*"]) {
      assert r.value[0] == r.value[1] == "0" && r.value[3] == r.value[5] == "*";
      assert r.value[2] == "5" && r.value[4] == "7";
      assert Cron.IsNormalized(["5", "7"], opts, r);
    }
  }

  /** An optional second is put in front if it is missing; two optional fields are an error. */
  lemma OptionalSecond(fields: seq<string>, r: Result<seq<string>>)
    ensures Cron.IsNormalized(fields, Cron.WITH_SECONDS_OPTIONS - {Cron.Second} + {Cron.SecondOptional}, r) <==>
            r == if |fields| == 5 then Ok(["0"] + fields) else if |fields| == 6 then Ok(fields) else Err
    ensures Cron.IsNormalized(fields, {Cron.SecondOptional, Cron.DowOptional}, r) <==> r == Err
  {
    hide Cron.Rank;
    var opts := Cron.WITH_SECONDS_OPTIONS - {Cron.Second} + {Cron.SecondOptional};
    RanksOfAll(Cron.WithOptionals(opts));
    AllPlaces(fields, opts, r);
  }

  /** An optional weekday is a star if it is missing. */
  lemma OptionalWeekday(fields: seq<string>, r: Result<seq<string>>)
    ensures Cron.IsNormalized(fields, Cron.WITH_SECONDS_OPTIONS - {Cron.Dow} + {Cron.DowOptional}, r) <==>
            r == if |fields| == 5 then Ok(fields + ["*"]) else if |fields| == 6 then Ok(fields) else Err
  {
    hide Cron.Rank;
    var opts := Cron.WITH_SECONDS_OPTIONS - {Cron.Dow} + {Cron.DowOptional};
    RanksOfAll(Cron.WithOptionals(opts));
    AllPlaces(fields, opts, r);
  }

  lemma AllPlaces(fields: seq<string>, opts: set<Cron.ParseOption>, r: Result<seq<string>>)
    requires forall i :: 0 <= i < 6 ==> Cron.PLACES[i] in Cron.WithOptionals(opts)
    ensures Cron.IsNormalized(fields, opts, r) <==> r == Cron.CompleteFields(fields, opts)
  {
    hide Cron.Rank;
    RanksOfAll(Cron.WithOptionals(opts));
    var full := Cron.CompleteFields(fields, opts);
    if full.Ok? && r.Ok? && Cron.IsNormalized(fields, opts, r) {
      assert r.value == full.value;
    }
  }

  lemma RanksOfAll(opts: set<Cron.ParseOption>)
    requires forall i :: 0 <= i < 6 ==> Cron.PLACES[i] in opts
    ensures forall i :: 0 <= i <= 6 ==> Cron.Rank(opts, i) == i
  {
    assert Cron.Rank(opts, 1) == 1;
    assert Cron.Rank(opts, 2) == 2;
    assert Cron.Rank(opts, 3) == 3;
    assert Cron.Rank(opts, 4) == 4;
    assert Cron.Rank(opts, 5) == 5;
    assert Cron.Rank(opts, 6) == 6;
  }

  /** Both parsers accept the expression. */
  predicate Accepted(fields: seq<string>) {
    && (|fields| == 5 || |fields| == 6)
    && (forall f :: f in fields ==> Clean(f))
    && Simple.ScheduleOf(fields).Ok?
    && Cron.ScheduleOf(SixFields(fields)).Ok?
  }

  /** Field by field, the two parsed schedules agree. */
  ghost predicate AllAgree(s: Simple.Schedule, spec: SpecSchedule) {
    && Agree(s.seconds, spec.second, Cron.SECONDS)
    && Agree(s.minutes, spec.minute, Cron.MINUTES)
    && Agree(s.hours, spec.hour, Cron.HOURS)
    && Agree(s.days, spec.dom, Cron.DOM)
    && Agree(s.months, spec.month, Cron.MONTHS)
    && Agree(s.weekdays, spec.dow, Cron.DOW)
  }

  /** The default second `0` is the one value 0 for both parsers. */
  lemma DefaultSecond()
    ensures Cron.FieldWord("0", Cron.SECONDS).Ok? ==>
              Agree(Simple.Exact(0), Cron.FieldWord("0", Cron.SECONDS).value, Cron.SECONDS)
  {
    assert Atoi("0") == Some(0);
    if Cron.FieldWord("0", Cron.SECONDS).Ok? {
      AgreeExact("0", 0, 59, Cron.SECONDS);
    }
  }

  lemma AcceptedSchedulesAgree(fields: seq<string>)
    requires Accepted(fields)
    ensures AllAgree(Simple.ScheduleOf(fields).value, Cron.ScheduleOf(SixFields(fields)).value)
    ensures |fields| == 5 ==> Simple.ScheduleOf(fields).value.seconds == Simple.Exact(0)
  {
    hide Agree, Simple.MatcherOf, Cron.FieldWord, Clean;
    var six := SixFields(fields);
    var o := if |fields| == 6 then 1 else 0;
    if |fields| == 6 {
      FieldAgreement(fields[0], 0, 59, Cron.SECONDS);
    } else {
      DefaultSecond();
    }
    FieldAgreement(fields[o], 0, 59, Cron.MINUTES);
    FieldAgreement(fields[o + 1], 0, 23, Cron.HOURS);
    FieldAgreement(fields[o + 2], 1, 31, Cron.DOM);
    FieldAgreement(fields[o + 3], 1, 12, Cron.MONTHS);
    FieldAgreement(fields[o + 4], 0, 7, Cron.DOW);
  }

  // ----- Matching

  /** Star marks on both day fields, or on neither. */
  predicate DayFieldsAlike(spec: SpecSchedule) { spec.dom[STAR_BIT] <==> spec.dow[STAR_BIT] }

  lemma ClockAgrees(s: Simple.Schedule, spec: SpecSchedule, t: int)
    requires AllAgree(s, spec)
    ensures s.Valid()
    ensures s.seconds.Matches(Second(t)) <==> SecondMatches(spec, t)
    ensures s.minutes.Matches(Minute(t)) <==> MinuteMatches(spec, t)
    ensures s.hours.Matches(Hour(t)) <==> HourMatches(spec, t)
    ensures s.months.Matches(Month(t)) <==> MonthMatches(spec, t)
    ensures s.days.Matches(Day(t)) <==> Has(spec.dom, Day(t))
    ensures s.weekdays.Matches(Weekday(t)) <==> Has(spec.dow, Weekday(t))
  {
    hide Starred, MonthOfDay, MonthNumber, DayNumber, Day, Has;
    var sec, mi, h, mo, d, w := Second(t), Minute(t), Hour(t), Month(t), Day(t), Weekday(t);
    HasReadsBit(spec.second, sec);
    HasReadsBit(spec.minute, mi);
    HasReadsBit(spec.hour, h);
    HasReadsBit(spec.month, mo);
    HasReadsBit(spec.dom, d);
    HasReadsBit(spec.dow, w);
  }

  /** Under alike day fields the two schedules match the same times. */
  lemma MatchesAgree(s: Simple.Schedule, spec: SpecSchedule, t: int)
    requires AllAgree(s, spec) && DayFieldsAlike(spec)
    ensures s.Valid() && (s.Matches(t) <==> Matches(spec, t))
  {
    hide MonthOfDay, MonthNumber, DayNumber, Day, Has, Second, Minute, Hour, Month, Weekday;
    ClockAgrees(s, spec, t);
    StarCovers(s, spec, t);
    HasReadsBit(spec.dom, STAR_BIT);
    HasReadsBit(spec.dow, STAR_BIT);
  }

  /**
   With a star mark on exactly one day field they part: the stepping schedule then ignores both day
   fields, while the bit-set schedule still demands the other one. So the first over-approximates the second.
   */
  lemma OneStarIgnoresDays(s: Simple.Schedule, spec: SpecSchedule, t: int)
    requires AllAgree(s, spec) && !DayFieldsAlike(spec)
    ensures s.Valid()
    ensures s.Matches(t) <==> SecondMatches(spec, t) && MinuteMatches(spec, t) && HourMatches(spec, t) &&
                              MonthMatches(spec, t)
    ensures Matches(spec, t) <==> s.Matches(t) && Has(if spec.dom[STAR_BIT] then spec.dow else spec.dom,
                                                      if spec.dom[STAR_BIT] then Weekday(t) else Day(t))
  {
    hide MonthOfDay, MonthNumber, DayNumber, Day, Has, Second, Minute, Hour, Month, Weekday;
    ClockAgrees(s, spec, t);
    HasReadsBit(spec.dom, STAR_BIT);
    HasReadsBit(spec.dow, STAR_BIT);
    StarCovers(s, spec, t);
  }

  lemma StarCovers(s: Simple.Schedule, spec: SpecSchedule, t: int)
    requires AllAgree(s, spec)
    ensures s.Valid()
    ensures spec.dom[STAR_BIT] ==> s.days.Matches(Day(t))
    ensures spec.dow[STAR_BIT] ==> s.weekdays.Matches(Weekday(t))
  {
    hide MonthOfDay, MonthNumber, DayNumber;
    var d, w := Day(t), Weekday(t);
  }

  // ----- Which schedules match the same times

  /** The most days the month has, in a leap year. */
  function LongestMonth(month: int): (days: int)
    ensures 29 <= days <= 31
  {
    if month == 2 then 29 else if month in {4, 6, 9, 11} then 30 else 31
  }

  /** Star marks alike, or the field without one holds every weekday, respectively every day of every allowed month. */
  predicate SameDays(spec: SpecSchedule) {
    || DayFieldsAlike(spec)
    || (spec.dom[STAR_BIT] && forall w :: 0 <= w < 7 ==> spec.dow[w])
    || (spec.dow[STAR_BIT] && forall m, d :: 1 <= m <= 12 && spec.month[m] && 1 <= d <= LongestMonth(m) ==> spec.dom[d])
  }

  /** Some second, minute, hour and month are allowed. */
  ghost predicate Inhabited(spec: SpecSchedule) {
    && (exists v :: 0 <= v < 60 && spec.second[v])
    && (exists v :: 0 <= v < 60 && spec.minute[v])
    && (exists v :: 0 <= v < 24 && spec.hour[v])
    && (exists v :: 1 <= v <= 12 && spec.month[v])
  }

  /** A month has at most its longest length, and that length in a leap year. */
  lemma MonthLength(n: int)
    ensures MonthStart(n + 1) <= MonthStart(n) + LongestMonth(n % 12 + 1)
    ensures IsLeap(n / 12) ==> MonthStart(n + 1) == MonthStart(n) + LongestMonth(n % 12 + 1)
  {
    hide DaysBeforeYear, IsLeap;
    NextMonthStart(n);
  }

  lemma DayInMonth(t: int)
    ensures 1 <= Day(t) <= LongestMonth(Month(t))
  {
    hide MonthStart, MonthOfDay;
    MonthOfDayBounds(DayNumber(t));
    MonthLength(MonthNumber(t));
  }

  lemma SameDaysMatch(s: Simple.Schedule, spec: SpecSchedule, t: int)
    requires AllAgree(s, spec) && SameDays(spec)
    ensures s.Valid() && (s.Matches(t) <==> Matches(spec, t))
  {
    hide MonthOfDay, MonthNumber, DayNumber, Day, Has, Second, Minute, Hour, Month, Weekday, AllAgree,
         Simple.Schedule.Matches, Matches;
    if DayFieldsAlike(spec) {
      MatchesAgree(s, spec, t);
    } else {
      OneStarIgnoresDays(s, spec, t);
      HasReadsBit(spec.dow, Weekday(t));
      HasReadsBit(spec.dom, Day(t));
      HasReadsBit(spec.month, Month(t));
      DayInMonth(t);
    }
  }

  /** A time on a given day of an allowed month that the clock and month fields allow. */
  lemma TimeOn(spec: SpecSchedule, year: int, month: int, day: int) returns (t: int)
    requires Inhabited(spec) && 1 <= month <= 12 && spec.month[month] && 1 <= day
    requires MonthStart(12 * year + month - 1) + day - 1 < MonthStart(12 * year + month)
    ensures SecondMatches(spec, t) && MinuteMatches(spec, t) && HourMatches(spec, t) && MonthMatches(spec, t)
    ensures Month(t) == month && Day(t) == day && DayNumber(t) == MonthStart(12 * year + month - 1) + day - 1
  {
    hide MonthStart, MonthOfDay, Day, Has;
    var sec :| 0 <= sec < 60 && spec.second[sec];
    var mi :| 0 <= mi < 60 && spec.minute[mi];
    var h :| 0 <= h < 24 && spec.hour[h];
    t := Date(year, month, day, h, mi, sec);
    FieldsOfDate(year, month, day, h, mi, sec);
    FieldsOfClock(MonthStart(12 * year + month - 1) + day - 1, h, mi, sec);
    HasReadsBit(spec.second, sec);
    HasReadsBit(spec.minute, mi);
    HasReadsBit(spec.hour, h);
    HasReadsBit(spec.month, month);
  }

  /** Every month has every weekday in its first seven days. */
  lemma TimeOnWeekday(spec: SpecSchedule, weekday: int) returns (t: int)
    requires Inhabited(spec) && 0 <= weekday < 7
    ensures SecondMatches(spec, t) && MinuteMatches(spec, t) && HourMatches(spec, t) && MonthMatches(spec, t) &&
            Weekday(t) == weekday
  {
    hide MonthStart, MonthOfDay, Day, Has, SecondMatches, MinuteMatches, HourMatches, MonthMatches;
    var month :| 1 <= month <= 12 && spec.month[month];
    var first := MonthStart(12 * 2000 + month - 1);
    var k := (weekday - first - 1) % 7;
    NextMonthStart(12 * 2000 + month - 1);
    WeekdayOffset(first, weekday);
    t := TimeOn(spec, 2000, month, k + 1);
  }

  lemma WeekdayOffset(first: int, weekday: int)
    requires 0 <= weekday < 7
    ensures var k := (weekday - first - 1) % 7; 0 <= k < 7 && (first + k + 1) % 7 == weekday
  {
  }

  /** If the day fields are not the same in effect, some time matches for the stepping schedule alone. */
  lemma DifferingTime(s: Simple.Schedule, spec: SpecSchedule) returns (t: int)
    requires AllAgree(s, spec) && Inhabited(spec) && !SameDays(spec)
    ensures s.Valid() && s.Matches(t) && !Matches(spec, t)
  {
    hide MonthStart, MonthOfDay, DayNumber, Day, Weekday, Has, SecondMatches, MinuteMatches, HourMatches, MonthMatches,
         AllAgree, Simple.Schedule.Matches, Matches, Inhabited, LongestMonth, IsLeap;
    if spec.dom[STAR_BIT] {
      var weekday :| 0 <= weekday < 7 && !spec.dow[weekday];
      t := TimeOnWeekday(spec, weekday);
      HasReadsBit(spec.dow, weekday);
    } else {
      var month, day :| 1 <= month <= 12 && spec.month[month] && 1 <= day <= LongestMonth(month) && !spec.dom[day];
      LeapYear();
      MonthLength(12 * 2000 + month - 1);
      t := TimeOn(spec, 2000, month, day);
      HasReadsBit(spec.dom, day);
    }
    OneStarIgnoresDays(s, spec, t);
  }

  lemma LeapYear()
    ensures IsLeap(2000)
  {
  }

  /** The two schedules match the same times if and only if the day fields are the same in effect. */
  lemma SameTimesIff(s: Simple.Schedule, spec: SpecSchedule)
    requires AllAgree(s, spec) && Inhabited(spec)
    ensures s.Valid()
    ensures (forall t :: s.Matches(t) <==> Matches(spec, t)) <==> SameDays(spec)
  {
    hide Simple.Schedule.Matches, Matches, SameDays, Inhabited;
    if SameDays(spec) {
      forall t ensures s.Matches(t) <==> Matches(spec, t) { SameDaysMatch(s, spec, t); }
    } else {
      var t := DifferingTime(s, spec);
    }
  }

  // ----- Searching

  /** A candidate of the stepping search: any second, or any whole minute. */
  predicate Candidate(s: Simple.Schedule, t: int) { s.hasSecs || t % SECONDS_PER_MINUTE == 0 }

  /** The stepping search finds the least matching candidate, or there is none before the limit. */
  lemma {:induction false} SteppedIsLeast(s: Simple.Schedule, from: int, limit: int)
    requires s.Valid() && Candidate(s, from)
    ensures match Simple.SteppedMatch(s, from, limit)
            case None => forall u :: from <= u < limit && Candidate(s, u) ==> !s.Matches(u)
            case Some(u) => from <= u < limit && s.Matches(u) &&
                            forall v :: from <= v < u && Candidate(s, v) ==> !s.Matches(v)
    decreases limit - from
  {
    hide Simple.Schedule.Matches;
    if from >= limit || s.Matches(from) {
    } else {
      StepReachesNext(s, from);
      SteppedIsLeast(s, from + s.Step(), limit);
    }
  }

  /** One step leads to the next candidate. */
  lemma StepReachesNext(s: Simple.Schedule, from: int)
    requires Candidate(s, from)
    ensures Candidate(s, from + s.Step())
    ensures forall u :: from < u < from + s.Step() ==> !Candidate(s, u)
  {
  }

  /** The first candidate is the least one strictly after the instant. */
  lemma FirstCandidateIsNext(s: Simple.Schedule, nanos: int)
    ensures var from := Simple.FirstCandidate(s, nanos);
            Candidate(s, from) && UpcomingSecond(nanos) <= from < UpcomingSecond(nanos) + SECONDS_PER_MINUTE &&
            forall u :: UpcomingSecond(nanos) <= u < from ==> !Candidate(s, u)
  {
    var start := UpcomingSecond(nanos);
    var from := Simple.FirstCandidate(s, nanos);
    assert start == nanos / NANOS + 1;
    if s.hasSecs {
      assert from == start;
    } else {
      MinuteOfNanos(nanos);
      assert from == nanos / NANOS / 60 * 60 + 60;
    }
  }

  lemma MinuteOfNanos(nanos: int)
    ensures (nanos + 60 * NANOS) / (60 * NANOS) == nanos / NANOS / 60 + 1
  {
    var q := nanos / NANOS;
    assert nanos == q * NANOS + nanos % NANOS;
    Quotient(nanos + 60 * NANOS, q / 60 + 1, 60 * NANOS, q % 60 * NANOS + nanos % NANOS);
  }

  /** Four years on is at most the end of the fourth year after. */
  lemma FourYears(t: int)
    ensures Simple.SearchEnd(t) < YearBegin(Year(t) + 5)
  {
    hide MonthStart, MonthOfDay, MonthNumber, Hour, Minute, Second;
    var n := 12 * (Year(t) + 4) + Month(t) - 1;
    NextMonthStart(n);
    if Month(t) == 12 {
      DecemberHas31Days(n);
    } else {
      NextMonthStart(n + 1);
      MonthStartMonotone(n + 2, 12 * (Year(t) + 5));
    }
  }

  /**
   The stepping search gives up at the same date and clock four years on, or on 1 March where 29 February is missing.
   */
  lemma FourYearsLater(t: int)
    ensures var end := Simple.SearchEnd(t);
            && Year(end) == Year(t) + 4 && Hour(end) == Hour(t) && Minute(end) == Minute(t) && Second(end) == Second(t)
            && if Month(t) == 2 && Day(t) == 29 && !IsLeap(Year(t) + 4) then Month(end) == 3 && Day(end) == 1
               else Month(end) == Month(t) && Day(end) == Day(t)
  {
    hide MonthStart, MonthOfDay, MonthNumber, Day, IsLeap, Hour, Minute, Second;
    var year, month, day := Year(t), Month(t), Day(t);
    var h, mi, sec := Hour(t), Minute(t), Second(t);
    DayOfItsMonth(t);
    MonthLengths(year, month);
    MonthLengths(year + 4, month);
    assert IsLeap(year + 4) <==> (year + 4) % 4 == 0 && ((year + 4) % 100 != 0 || (year + 4) % 400 == 0) by {
      LeapRule(year + 4);
    }
    if month == 2 && day == 29 && !IsLeap(year + 4) {
      MonthLengths(year + 4, 3);
      FieldsOfDate(year + 4, 3, 1, h, mi, sec);
    } else {
      FieldsOfDate(year + 4, month, day, h, mi, sec);
    }
  }

  lemma LeapRule(year: int)
    ensures IsLeap(year) <==> year % 4 == 0 && (year % 100 != 0 || year % 400 == 0)
  {
  }

  lemma DayOfItsMonth(t: int)
    ensures 1 <= Day(t) <= MonthStart(12 * Year(t) + Month(t)) - MonthStart(12 * Year(t) + Month(t) - 1)
  {
    hide MonthStart, MonthOfDay;
    MonthOfDayBounds(DayNumber(t));
    assert 12 * Year(t) + Month(t) - 1 == MonthNumber(t);
  }

  lemma DecemberHas31Days(n: int)
    requires n % 12 == 11
    ensures MonthStart(n + 1) == MonthStart(n) + 31
  {
    NextMonthStart(n);
  }

  /** A minute later the year is at most one higher. */
  lemma YearOfCandidate(start: int, from: int)
    requires start <= from < start + SECONDS_PER_MINUTE
    ensures Year(from) <= Year(start) + 1
  {
    hide Year, YearBegin, MonthBegin;
    YearBound(start, Year(start) + 1);
    YearBound(from, Year(start) + 2);
    YearIsLong(Year(start) + 1);
  }

  lemma YearIsLong(year: int)
    ensures YearBegin(year) + SECONDS_PER_MINUTE <= YearBegin(year + 1)
  {
    hide MonthStart;
    MonthStartMonotone(12 * year, 12 * (year + 1));
  }

  /** The stepping search never looks past the limit of the field-skipping search. */
  lemma LimitsNest(start: int, from: int)
    requires start <= from < start + SECONDS_PER_MINUTE
    ensures Simple.SearchEnd(from) < SearchLimit(start)
  {
    hide Year, YearBegin, Simple.SearchEnd;
    FourYears(from);
    YearOfCandidate(start, from);
    YearsInOrder(Year(from) + 5, Year(start) + 6);
  }

  lemma YearsInOrder(a: int, b: int)
    requires a <= b
    ensures YearBegin(a) <= YearBegin(b)
  {
    hide MonthBegin;
    MonthBeginMonotone(12 * a, 12 * b);
  }

  /** Only whole minutes match a schedule without seconds. */
  lemma OnlyCandidatesMatch(s: Simple.Schedule, t: int)
    requires s.Valid() && (s.hasSecs || s.seconds == Simple.Exact(0))
    ensures s.Matches(t) ==> Candidate(s, t)
  {
    hide MonthOfDay, MonthNumber, Day, Month, Weekday, Hour, Minute;
  }

  /** The stepping search returns what the field-skipping search returns, cut off where the stepping search gives up. */
  predicate SearchesAgree(s: Simple.Schedule, spec: SpecSchedule, nanos: int)
    requires s.Valid()
  {
    var from := Simple.FirstCandidate(s, nanos);
    Simple.SteppedMatch(s, from, Simple.SearchEnd(from)) ==
    match NextActivation(spec, nanos)
    case Some(u) => if u < Simple.SearchEnd(from) then Some(u) else None
    case None => None
  }

  /**
   For an expression both parsers accept, with day fields the same in effect, the stepping search returns exactly what
   the field-skipping search returns, up to the limit of the stepping search. In particular, whenever the stepping
   search finds a time, the other finds the same one.
   */
  lemma FastRefinesSimple(fields: seq<string>, nanos: int)
    requires Accepted(fields) && SameDays(Cron.ScheduleOf(SixFields(fields)).value)
    ensures Simple.ScheduleOf(fields).value.Valid()
    ensures SearchesAgree(Simple.ScheduleOf(fields).value, Cron.ScheduleOf(SixFields(fields)).value, nanos)
  {
    hide Matches, Simple.ScheduleOf, Cron.ScheduleOf, Simple.SearchEnd, SearchLimit, Simple.FirstCandidate,
         UpcomingSecond, Simple.SteppedMatch, FirstMatch, Simple.Schedule.Matches, AllAgree, Accepted, SameDays,
         SixFields;
    var s, spec := SchedulesOf(fields);
    var start, from := UpcomingSecond(nanos), Simple.FirstCandidate(s, nanos);
    var end := Simple.SearchEnd(from);
    FirstCandidateIsNext(s, nanos);
    LimitsNest(start, from);
    forall t ensures s.Valid() && (s.Matches(t) <==> Matches(spec, t)) && (s.Matches(t) ==> Candidate(s, t)) {
      SameDaysMatch(s, spec, t);
      OnlyCandidatesMatch(s, t);
    }
    SteppedIsLeast(s, from, end);
    FirstMatchIsLeast(spec, start, SearchLimit(start));
  }

  lemma SearchEndIsLater(t: int)
    ensures t < Simple.SearchEnd(t)
  {
    hide MonthStart, MonthOfDay, MonthNumber, Hour, Minute, Second;
    var n := 12 * Year(t) + Month(t) - 1;
    DateOfFields(t);
    MonthStartMonotone(n, n + 48);
  }

  /** One second before a time that only the stepping schedule matches, the searches return different answers. */
  lemma SearchesPartBefore(s: Simple.Schedule, spec: SpecSchedule, t: int)
    requires s.Valid() && s.Matches(t) && !Matches(spec, t) && Candidate(s, t)
    ensures var nanos := (t - 1) * NANOS;
            Simple.FirstCandidate(s, nanos) == t && Simple.SteppedMatch(s, t, Simple.SearchEnd(t)) == Some(t) &&
            NextActivation(spec, nanos) != Some(t) && !SearchesAgree(s, spec, nanos)
  {
    hide Matches, Simple.SearchEnd, SearchLimit, Simple.FirstCandidate, FirstMatch, Simple.Schedule.Matches, Candidate;
    var nanos := (t - 1) * NANOS;
    assert UpcomingSecond(nanos) == t;
    FirstCandidateIsNext(s, nanos);
    SearchEndIsLater(t);
    FirstMatchIsLeast(spec, t, SearchLimit(t));
  }

  /**
   For any expression both parsers accept: the two searches agree at all instants if and only if the day fields are the
   same in effect.
   */
  lemma SearchesAgreeIff(fields: seq<string>)
    requires Accepted(fields)
    ensures Simple.ScheduleOf(fields).value.Valid()
    ensures var s, spec := Simple.ScheduleOf(fields).value, Cron.ScheduleOf(SixFields(fields)).value;
            (forall nanos :: SearchesAgree(s, spec, nanos)) <==> SameDays(spec)
  {
    hide Matches, Simple.ScheduleOf, Cron.ScheduleOf, Simple.Schedule.Matches, AllAgree, Accepted, SameDays, SixFields,
         SearchesAgree, Inhabited, Candidate, Simple.FirstCandidate, Simple.SteppedMatch, Simple.SearchEnd,
         NextActivation;
    var s, spec := SchedulesOf(fields);
    if SameDays(spec) {
      forall nanos ensures SearchesAgree(s, spec, nanos) { FastRefinesSimple(fields, nanos); }
    } else {
      AcceptedIsInhabited(fields);
      var t := DifferingTime(s, spec);
      OnlyCandidatesMatch(s, t);
      SearchesPartBefore(s, spec, t);
    }
  }

  /** An accepted field has a value in its range. */
  lemma AcceptedFieldHasValue(field: string, min: int, max: int) returns (v: int)
    requires Simple.MatcherOf(field, min, max).Ok? && min <= max
    ensures Simple.MatcherOf(field, min, max).value.Valid()
    ensures min <= v <= max && Simple.MatcherOf(field, min, max).value.Matches(v)
  {
    hide Atoi, TrimSpace, Split;
    match Simple.MatcherOf(field, min, max).value
    case Wildcard => v := min;
    case Exact(w) => v := w;
    case Between(start, _) => v := start;
    case Every(_, _, _) => v := min;
    case OneOf(values) =>
      FirstOfList(Split(field, {','}), min, max);
      v := values[0];
  }

  lemma FirstOfList(parts: seq<string>, min: int, max: int)
    requires parts != [] && Simple.ListValues(parts, min, max).Ok?
    ensures var values := Simple.ListValues(parts, min, max).value; values != [] && min <= values[0] <= max
  {
    hide Atoi, TrimSpace;
  }

  /** An accepted schedule allows some second, minute, hour and month. */
  lemma AcceptedIsInhabited(fields: seq<string>)
    requires Accepted(fields)
    ensures Inhabited(Cron.ScheduleOf(SixFields(fields)).value)
  {
    hide Simple.MatcherOf, Cron.FieldWord, Clean, Starred;
    var s, spec := Simple.ScheduleOf(fields).value, Cron.ScheduleOf(SixFields(fields)).value;
    AcceptedSchedulesAgree(fields);
    var o := if |fields| == 6 then 1 else 0;
    var sec := 0;
    if |fields| == 6 { sec := AcceptedFieldHasValue(fields[0], 0, 59); }
    var mi := AcceptedFieldHasValue(fields[o], 0, 59);
    var h := AcceptedFieldHasValue(fields[o + 1], 0, 23);
    var mo := AcceptedFieldHasValue(fields[o + 3], 1, 12);
    assert spec.second[sec] && spec.minute[mi] && spec.hour[h] && spec.month[mo];
  }

  lemma SchedulesOf(fields: seq<string>) returns (s: Simple.Schedule, spec: SpecSchedule)
    requires Accepted(fields)
    ensures Simple.ScheduleOf(fields) == Ok(s) && Cron.ScheduleOf(SixFields(fields)) == Ok(spec)
    ensures s.Valid() && AllAgree(s, spec) && (s.hasSecs || s.seconds == Simple.Exact(0))
  {
    hide Agree, Simple.MatcherOf, Cron.FieldWord, Clean;
    s, spec := Simple.ScheduleOf(fields).value, Cron.ScheduleOf(SixFields(fields)).value;
    AcceptedSchedulesAgree(fields);
    Simple.AcceptedSchedulesAreValid(fields);
  }

  // ----- Expressions the result speaks of

  lemma OneComponentText(field: string, b: Cron.Bounds)
    requires field != "" && ',' !in field && Cron.KnownBounds(b) && Cron.ParseRange(field, b).Ok?
    ensures Cron.FieldWord(field, b).Ok?
  {
    hide Split, Cron.ParseRange;
    Cron.OnePiece(field, ',');
    NonEmptyOfNonEmpty([field]);
    assert [field][1..] == [];
    Cron.AcceptedRangeFits(field, b);
    var r := Cron.ParseRange(field, b).value;
    assert Cron.ParseRanges([field], b) == Ok([r]) by { assert [r] + [] == [r]; }
  }

  lemma StarField(b: Cron.Bounds)
    requires Cron.KnownBounds(b)
    ensures Cron.FieldWord("*", b).Ok? && Cron.FieldWord("*", b).value[STAR_BIT]
  {
    hide Split, Atoi, Cron.FieldWord;
    Cron.OnePiece("*", '/');
    Cron.OnePiece("*", '-');
    OneComponentText("*", b);
    AgreeWildcard(b);
  }

  /** A field that is one number or name denotes that one value. */
  lemma SingleField(p: string, n: nat, b: Cron.Bounds)
    requires Cron.KnownBounds(b) && Cron.ParseIntOrName(p, b.names) == Ok(n) && b.min <= n <= b.max
    requires p != "" && p != "*" && p != "?" && ',' !in p && '/' !in p && '-' !in p
    ensures Cron.FieldWord(p, b).Ok?
    ensures forall i :: 0 <= i < WORD_BITS ==> (Cron.FieldWord(p, b).value[i] <==> i == n)
  {
    hide Split, Cron.FieldWord, Cron.ParseIntOrName;
    Cron.OnePiece(p, '/');
    Cron.OnePiece(p, '-');
    OneComponentText(p, b);
    OneComponent(p, b);
  }

  /** A number is a field exactly within the limits of its place, and then denotes itself. */
  lemma NumberFieldIff(p: string, n: nat)
    requires Atoi(p) == Some(n) && '-' !in p
    ensures Cron.FieldWord(p, Cron.SECONDS).Ok? <==> n <= 59
    ensures Cron.FieldWord(p, Cron.MINUTES).Ok? <==> n <= 59
    ensures Cron.FieldWord(p, Cron.HOURS).Ok? <==> n <= 23
    ensures Cron.FieldWord(p, Cron.DOM).Ok? <==> 1 <= n <= 31
    ensures Cron.FieldWord(p, Cron.MONTHS).Ok? <==> 1 <= n <= 12
    ensures Cron.FieldWord(p, Cron.DOW).Ok? <==> n <= 6
    ensures forall b, i :: Cron.KnownBounds(b) && Cron.FieldWord(p, b).Ok? && 0 <= i < WORD_BITS ==>
              (Cron.FieldWord(p, b).value[i] <==> i == n)
  {
    hide Cron.FieldWord, Cron.ParseIntOrName, Atoi;
    AtoiCharacters(p);
    forall b | Cron.KnownBounds(b)
      ensures Cron.FieldWord(p, b).Ok? <==> b.min <= n <= b.max
      ensures Cron.FieldWord(p, b).Ok? ==>
                forall i :: 0 <= i < WORD_BITS ==> (Cron.FieldWord(p, b).value[i] <==> i == n)
    {
      NumberIsNoName(p, b);
      assert p != "*" && p != "?" by { assert p[0] != '*' && p[0] != '?'; }
      if b.min <= n <= b.max {
        SingleField(p, n, b);
      } else if Cron.FieldWord(p, b).Ok? {
        OneComponent(p, b);
        NumberComponent(p, b);
        Cron.AcceptedRangeFits(p, b);
      }
    }
  }

  const MONTH_NAMES := ["jan", "feb", "mar", "apr", "may", "jun", "jul", "aug", "sep", "oct", "nov", "dec"]
  const DAY_NAMES := ["sun", "mon", "tue", "wed", "thu", "fri", "sat"]

  /** Months are named from January, number 1, and weekdays from Sunday, number 0, in letters of either case. */
  lemma NamesMeanNumbers(p: string, k: nat)
    ensures k < 12 && ToLower(p) == MONTH_NAMES[k] ==>
              Cron.FieldWord(p, Cron.MONTHS).Ok? &&
              forall i :: 0 <= i < WORD_BITS ==> (Cron.FieldWord(p, Cron.MONTHS).value[i] <==> i == k + 1)
    ensures k < 7 && ToLower(p) == DAY_NAMES[k] ==>
              Cron.FieldWord(p, Cron.DOW).Ok? &&
              forall i :: 0 <= i < WORD_BITS ==> (Cron.FieldWord(p, Cron.DOW).value[i] <==> i == k)
    ensures ToLower("MON") == "mon" == ToLower("Mon") && ToLower("Dec") == "dec"
  {
    hide Cron.FieldWord, Cron.ParseIntOrName;
    if k < 12 && ToLower(p) == MONTH_NAMES[k] {
      MonthIsNamed(p, k);
      SingleField(p, k + 1, Cron.MONTHS);
    }
    if k < 7 && ToLower(p) == DAY_NAMES[k] {
      DayIsNamed(p, k);
      SingleField(p, k, Cron.DOW);
    }
  }

  lemma MonthIsNamed(p: string, k: nat)
    requires k < 12 && ToLower(p) == MONTH_NAMES[k]
    ensures Cron.ParseIntOrName(p, Cron.MONTHS.names) == Ok(k + 1)
    ensures p != "" && p != "*" && p != "?" && ',' !in p && '/' !in p && '-' !in p
  {
    ThreeLetters(p, MONTH_NAMES[k]);
  }

  lemma DayIsNamed(p: string, k: nat)
    requires k < 7 && ToLower(p) == DAY_NAMES[k]
    ensures Cron.ParseIntOrName(p, Cron.DOW.names) == Ok(k)
    ensures p != "" && p != "*" && p != "?" && ',' !in p && '/' !in p && '-' !in p
  {
    ThreeLetters(p, DAY_NAMES[k]);
  }

  /** What is written in three letters has no character with a meaning of its own. */
  lemma ThreeLetters(p: string, name: string)
    requires ToLower(p) == name && |name| == 3 && forall i :: 0 <= i < 3 ==> 'a' <= name[i] <= 'z'
    ensures p != "" && p != "*" && p != "?" && ',' !in p && '/' !in p && '-' !in p
  {
    assert |p| == 3;
    forall i | 0 <= i < 3 ensures 'A' <= p[i] <= 'Z' || 'a' <= p[i] <= 'z' { assert name[i] == LowerChar(p[i]); }
  }

  lemma ZeroField(b: Cron.Bounds)
    requires b == Cron.SECONDS || b == Cron.MINUTES || b == Cron.HOURS
    ensures Cron.FieldWord("0", b).Ok?
    ensures forall i :: 0 <= i < WORD_BITS ==> (Cron.FieldWord("0", b).value[i] <==> i == 0)
  {
    hide Cron.FieldWord;
    assert Atoi("0") == Some(0);
    NumberIsNoName("0", b);
    SingleField("0", 0, b);
  }

  lemma OneField(b: Cron.Bounds)
    requires Cron.KnownBounds(b)
    ensures Cron.FieldWord("1", b).Ok?
    ensures forall i :: 0 <= i < WORD_BITS ==> (Cron.FieldWord("1", b).value[i] <==> i == 1)
  {
    hide Cron.FieldWord;
    assert Atoi("1") == Some(1);
    NumberIsNoName("1", b);
    SingleField("1", 1, b);
  }

  /** "Every minute" is an expression on which the searches agree. */
  lemma EveryMinuteIsAccepted()
    ensures var fields := ["*", "*", "*", "*", "*"];
            Accepted(fields) && SameDays(Cron.ScheduleOf(SixFields(fields)).value)
  {
    hide Cron.FieldWord;
    ZeroField(Cron.SECONDS);
    StarField(Cron.MINUTES);
    StarField(Cron.HOURS);
    StarField(Cron.DOM);
    StarField(Cron.MONTHS);
    StarField(Cron.DOW);
  }

  /** The first matching second after a whole second, if within five years, is the next activation. */
  lemma FirstIsNext(spec: SpecSchedule, t: int, u: int)
    requires t < u && Matches(spec, u) && Year(u) <= Year(t + 1) + 5
    requires forall v :: t < v < u ==> !Matches(spec, v)
    ensures NextActivation(spec, t * NANOS) == Some(u)
  {
    hide Matches, Year, NextActivation;
    NextActivationIsLeast(spec, t * NANOS);
    UpcomingOfWhole(t);
    assert t * NANOS < u * NANOS;
  }

  lemma UpcomingOfWhole(t: int)
    ensures UpcomingSecond(t * NANOS) == t + 1
  {
  }

  const MONTHLY: seq<string> := ["*", "*", "1", "*", "*"]

  /** "Every minute of the first of the month" is accepted, and its day fields are not the same in effect. */
  lemma MonthlyIsAccepted()
    ensures Accepted(MONTHLY)
    ensures var spec := Cron.ScheduleOf(SixFields(MONTHLY)).value;
            !SameDays(spec) && spec.dow[STAR_BIT] && !spec.dom[STAR_BIT] && !spec.dom[2]
  {
    hide Cron.FieldWord;
    ZeroField(Cron.SECONDS);
    StarField(Cron.MINUTES);
    StarField(Cron.HOURS);
    OneField(Cron.DOM);
    StarField(Cron.MONTHS);
    StarField(Cron.DOW);
    AgreeWildcard(Cron.MONTHS);
    assert Atoi("1") == Some(1);
    var spec := Cron.ScheduleOf(SixFields(MONTHLY)).value;
    assert spec.month[1] && 2 <= LongestMonth(1) && !spec.dom[2];
  }

  /** The schedule of `* * 1 * *` in the field-skipping search: on the first of a month at any minute. */
  lemma MonthlyMeans(t: int)
    requires Accepted(MONTHLY)
    ensures var s, spec := Simple.ScheduleOf(MONTHLY).value, Cron.ScheduleOf(SixFields(MONTHLY)).value;
            s.Valid() && !s.hasSecs && (s.Matches(t) <==> Second(t) == 0) &&
              (Matches(spec, t) <==> Second(t) == 0 && Day(t) == 1)
  {
    hide Cron.FieldWord, Day, Weekday, Month, Minute, Hour, Second;
    MonthlyIsAccepted();
    AcceptedSchedulesAgree(MONTHLY);
    var s, spec := Simple.ScheduleOf(MONTHLY).value, Cron.ScheduleOf(SixFields(MONTHLY)).value;
    assert Atoi("1") == Some(1);
    OneStarIgnoresDays(s, spec, t);
    ClockAgrees(s, spec, t);
  }

  /**
   Where they part: one second before 2 January 2001, 00:00, the stepping search answers that minute, the field-skipping
   search the first minute of February.
   */
  lemma MonthlySearchesDiffer()
    ensures Accepted(MONTHLY)
    ensures var s, spec := Simple.ScheduleOf(MONTHLY).value, Cron.ScheduleOf(SixFields(MONTHLY)).value;
            var t := Date(2001, 1, 2, 0, 0, 0);
            var nanos := (t - 1) * NANOS;
            s.Valid() && Simple.FirstCandidate(s, nanos) == t &&
              Simple.SteppedMatch(s, t, Simple.SearchEnd(t)) == Some(t) &&
            NextActivation(spec, nanos) == Some(Date(2001, 2, 1, 0, 0, 0))
  {
    hide Cron.ScheduleOf, Simple.ScheduleOf, Matches, Simple.Schedule.Matches, MonthStart, Simple.SearchEnd,
         Simple.SteppedMatch, Simple.FirstCandidate, NextActivation, Accepted, Day, Month, Year, Date;
    MonthlyIsAccepted();
    var s, spec := SchedulesOf(MONTHLY);
    var t, u := Date(2001, 1, 2, 0, 0, 0), Date(2001, 2, 1, 0, 0, 0);
    FirstOfFebruary();
    forall v
      ensures s.Valid() && !s.hasSecs && (s.Matches(v) <==> Second(v) == 0)
      ensures Matches(spec, v) <==> Second(v) == 0 && Day(v) == 1
    {
      MonthlyMeans(v);
    }
    SearchesPartBefore(s, spec, t);
    assert forall v :: t - 1 < v < u ==> !Matches(spec, v);
    FirstIsNext(spec, t - 1, u);
  }

  lemma FirstOfFebruary()
    ensures var t, u := Date(2001, 1, 2, 0, 0, 0), Date(2001, 2, 1, 0, 0, 0);
            && t % 60 == 0 && Second(t) == 0 && Day(t) == 2 && Year(t) == 2001
            && t < u && Second(u) == 0 && Day(u) == 1 && Year(u) == 2001
            && forall v :: t <= v < u ==> Day(v) != 1
  {
    hide MonthStart, MonthOfDay;
    var n := 12 * 2001;
    NextMonthStart(n);
    NextMonthStart(n + 1);
    FieldsOfDate(2001, 1, 2, 0, 0, 0);
    FieldsOfDate(2001, 2, 1, 0, 0, 0);
    var t, u := Date(2001, 1, 2, 0, 0, 0), Date(2001, 2, 1, 0, 0, 0);
    forall v | t <= v < u ensures Day(v) != 1 {
      InMonth(v, n);
      DayRange(v, MonthStart(n) + 1);
    }
  }

  // ----- A weekday

  const MONDAYS: seq<string> := ["0", "0", "*", "*", "1"]

  /** `0 0 * * 1` is midnight on Mondays, and nothing else. */
  lemma MondaysMean(t: int)
    ensures Cron.ScheduleOf(SixFields(MONDAYS)).Ok?
    ensures Matches(Cron.ScheduleOf(SixFields(MONDAYS)).value, t) <==> t % 86400 == 0 && Weekday(t) == 1
  {
    hide Cron.FieldWord, Has, MonthNumber, Day, Weekday;
    ZeroField(Cron.SECONDS);
    ZeroField(Cron.HOURS);
    StarField(Cron.DOM);
    StarField(Cron.MONTHS);
    OneField(Cron.DOW);
    AgreeWildcard(Cron.DOM);
    AgreeWildcard(Cron.MONTHS);
    MondayBits(Cron.ScheduleOf(SixFields(MONDAYS)).value, t);
  }

  lemma MondayBits(spec: SpecSchedule, t: int)
    requires forall i :: 0 <= i < WORD_BITS ==> (spec.second[i] <==> i == 0) && (spec.minute[i] <==> i == 0)
    requires forall i :: 0 <= i < WORD_BITS ==> (spec.hour[i] <==> i == 0) && (spec.dow[i] <==> i == 1)
    requires spec.dom[STAR_BIT] && forall i :: 1 <= i <= 31 ==> spec.dom[i]
    requires forall i :: 1 <= i <= 12 ==> spec.month[i]
    ensures Matches(spec, t) <==> t % 86400 == 0 && Weekday(t) == 1
  {
    hide Has, MonthNumber, Day, Weekday;
    HasReadsBit(spec.second, Second(t));
    HasReadsBit(spec.minute, Minute(t));
    HasReadsBit(spec.hour, Hour(t));
    HasReadsBit(spec.dom, Day(t));
    HasReadsBit(spec.dom, STAR_BIT);
    HasReadsBit(spec.month, Month(t));
    HasReadsBit(spec.dow, Weekday(t));
    ClockOfSeconds(t);
  }

  /** Asked on Saturday 30 December 2000 at noon, `0 0 * * 1` fires next on Monday 1 January 2001 at midnight. */
  lemma NextMonday()
    ensures Cron.ScheduleOf(["0", "0", "0", "*", "*", "1"]).Ok?
    ensures NextActivation(Cron.ScheduleOf(["0", "0", "0", "*", "*", "1"]).value,
                           Date(2000, 12, 30, 12, 0, 0) * 1_000_000_000) == Some(Date(2001, 1, 1, 0, 0, 0))
  {
    hide Cron.ScheduleOf, Matches, NextActivation, Weekday, Date, Year;
    var t, u := Date(2000, 12, 30, 12, 0, 0), Date(2001, 1, 1, 0, 0, 0);
    assert SixFields(MONDAYS) == ["0", "0", "0", "*", "*", "1"];
    MondaysMean(u);
    var spec := Cron.ScheduleOf(SixFields(MONDAYS)).value;
    FirstOfJanuary();
    forall v ensures Matches(spec, v) <==> v % 86400 == 0 && Weekday(v) == 1 { MondaysMean(v); }
    assert forall v :: t < v < u ==> !Matches(spec, v);
    FirstIsNext(spec, t, u);
  }

  lemma FirstOfJanuary()
    ensures var t, u := Date(2000, 12, 30, 12, 0, 0), Date(2001, 1, 1, 0, 0, 0);
            && u % 86400 == 0 && Weekday(u) == 1 && Year(u) == 2001 && Year(t + 1) == 2000
            && t < u && forall v :: t < v < u && v % 86400 == 0 ==> Weekday(v) == 0
  {
    hide MonthStart, MonthOfDay;
    MonthsAround2001();
    FieldsOfDate(2000, 12, 30, 12, 0, 1);
    FieldsOfDate(2001, 1, 1, 0, 0, 0);
    var t, u := Date(2000, 12, 30, 12, 0, 0), Date(2001, 1, 1, 0, 0, 0);
    assert u == 730485 * 86400 && t == u - 129600;
    forall v | t < v < u && v % 86400 == 0 ensures Weekday(v) == 0 { assert v == u - 86400; }
  }

  lemma MonthsAround2001()
    ensures MonthStart(12 * 2000 + 11) == 730454 && MonthStart(12 * 2001) == 730485
    ensures MonthStart(12 * 2001 + 1) == 730516
  {
    hide DaysBeforeYear, IsLeap;
    NextMonthStart(24010);
    NextMonthStart(24011);
    NextMonthStart(24012);
    assert DaysBeforeYear(2000) == 730119 && IsLeap(2000) && DaysBeforeYear(2001) == 730485 && !IsLeap(2001) by {
      Years2000And2001();
    }
  }

  lemma Years2000And2001()
    ensures DaysBeforeYear(2000) == 730119 && IsLeap(2000) && DaysBeforeYear(2001) == 730485 && !IsLeap(2001)
  {
  }
}
