/** Field-skipping search for the next activation of a crontab schedule (internal/cron/spec.go). */
module CronSpec {
  import opened Arithmetic
  import opened Calendar
  import opened Words
  import opened Wrappers

  /** Bit 63 of a field's word records that the field was written with a star. */
  const STAR_BIT := 63
  const NANOS := 1_000_000_000

  /** Six bit sets, one per crontab field. */
  datatype SpecSchedule = SpecSchedule(second: Word, minute: Word, hour: Word, dom: Word, month: Word, dow: Word)

  predicate DayMatches(s: SpecSchedule, t: int) {
    var domMatch := Has(s.dom, Day(t));
    var dowMatch := Has(s.dow, Weekday(t));
    if Has(s.dom, STAR_BIT) || Has(s.dow, STAR_BIT) then domMatch && dowMatch else domMatch || dowMatch
  }

  predicate MonthMatches(s: SpecSchedule, t: int) { Has(s.month, Month(t)) }
  predicate HourMatches(s: SpecSchedule, t: int) { Has(s.hour, Hour(t)) }
  predicate MinuteMatches(s: SpecSchedule, t: int) { Has(s.minute, Minute(t)) }
  predicate SecondMatches(s: SpecSchedule, t: int) { Has(s.second, Second(t)) }

  /** The schedule fires at second `t`. */
  predicate Matches(s: SpecSchedule, t: int) {
    MonthMatches(s, t) && DayMatches(s, t) && HourMatches(s, t) && MinuteMatches(s, t) && SecondMatches(s, t)
  }

  /** No activation in the half-open range from `a` to `b`. */
  ghost predicate Silent(s: SpecSchedule, a: int, b: int) {
    forall u :: a <= u < b ==> !Matches(s, u)
  }

  // ----- Reference search: look at every second

  function FirstMatch(s: SpecSchedule, from: int, limit: int): Option<int>
    decreases limit - from
  {
    if from >= limit then None
    else if Matches(s, from) then Some(from)
    else FirstMatch(s, from + 1, limit)
  }

  /** The reference search finds the least activation, or reports that the range has none. */
  lemma {:induction false} FirstMatchIsLeast(s: SpecSchedule, from: int, limit: int)
    ensures match FirstMatch(s, from, limit)
            case None => Silent(s, from, limit)
            case Some(u) => from <= u < limit && Matches(s, u) && Silent(s, from, u)
    decreases limit - from
  {
    hide Matches;
    if from >= limit || Matches(s, from) {
    } else {
      FirstMatchIsLeast(s, from + 1, limit);
    }
  }

  /** Skipping a silent range does not change what the reference search finds. */
  lemma {:induction false} SkipSilent(s: SpecSchedule, from: int, until: int, limit: int)
    requires from <= until && Silent(s, from, until)
    ensures until <= limit ==> FirstMatch(s, from, limit) == FirstMatch(s, until, limit)
    decreases until - from
  {
    hide Matches;
    if from >= until || until > limit {
    } else {
      SkipSilent(s, from + 1, until, limit);
    }
  }

  /** The first whole second strictly after an instant given in nanoseconds. */
  function UpcomingSecond(nanos: int): int {
    (nanos + NANOS - nanos % NANOS) / NANOS
  }

  lemma UpcomingSecondIsNext(nanos: int, u: int)
    ensures u * NANOS > nanos <==> u >= UpcomingSecond(nanos)
  {
  }

  /** One past the last second the search may return. */
  function SearchLimit(start: int): int { YearBegin(Year(start) + 5 + 1) }

  /** What `Next` returns, by looking at every second. */
  function NextActivation(s: SpecSchedule, nanos: int): Option<int> {
    var start := UpcomingSecond(nanos);
    FirstMatch(s, start, SearchLimit(start))
  }

  /**
   `Next` is the least whole second strictly after the instant at which the schedule fires; it is
   missing exactly when there is none through the end of the fifth year after the upcoming second's.
   */
  lemma NextActivationIsLeast(s: SpecSchedule, nanos: int)
    ensures var limitYear := Year(UpcomingSecond(nanos)) + 5;
            match NextActivation(s, nanos)
            case None => forall u :: nanos < u * NANOS && Year(u) <= limitYear ==> !Matches(s, u)
            case Some(u) => nanos < u * NANOS && Year(u) <= limitYear && Matches(s, u) &&
                            forall v :: nanos < v * NANOS && v < u ==> !Matches(s, v)
  {
    hide Matches, Year, YearBegin, UpcomingSecond, FirstMatch;
    var start := UpcomingSecond(nanos);
    var limit := SearchLimit(start);
    FirstMatchIsLeast(s, start, limit);
    forall u ensures nanos < u * NANOS <==> start <= u { UpcomingSecondIsNext(nanos, u); }
    forall u ensures Year(u) <= Year(start) + 5 <==> u < limit { YearBound(u, Year(start) + 6); }
  }

  // ----- Alignment

  predicate MonthAligned(t: int) { t == MonthBegin(MonthNumber(t)) }
  predicate DayAligned(t: int) { t % SECONDS_PER_DAY == 0 }
  predicate HourAligned(t: int) { t % SECONDS_PER_HOUR == 0 }
  predicate MinuteAligned(t: int) { t % SECONDS_PER_MINUTE == 0 }

  /** Below every field that does not match, the fields are at their minimum. */
  predicate Aligned(s: SpecSchedule, t: int) {
    && (MonthMatches(s, t) || MonthAligned(t))
    && (DayMatches(s, t) || DayAligned(t))
    && (HourMatches(s, t) || HourAligned(t))
    && (MinuteMatches(s, t) || MinuteAligned(t))
  }

  lemma SameDay(s: SpecSchedule, t: int, u: int)
    requires DayNumber(t) == DayNumber(u)
    ensures MonthNumber(t) == MonthNumber(u) && Day(t) == Day(u) && Weekday(t) == Weekday(u)
    ensures DayMatches(s, t) == DayMatches(s, u) && MonthMatches(s, t) == MonthMatches(s, u)
  {
  }

  /** Aligning nests: the first second of a month starts a day, of a day an hour, of an hour a minute. */
  lemma AlignmentNests(t: int)
    ensures MonthAligned(t) ==> DayAligned(t) && Day(t) == 1
    ensures DayAligned(t) ==> HourAligned(t) && Hour(t) == 0
    ensures HourAligned(t) ==> MinuteAligned(t) && Minute(t) == 0
    ensures MinuteAligned(t) ==> Second(t) == 0
  {
    hide MonthStart, MonthOfDay;
    if HourAligned(t) {
      Quotient(t, t / 3600 * 60, 60, 0);
      Quotient(t / 60, t / 3600, 60, 0);
    }
    if DayAligned(t) {
      Quotient(t, t / 86400 * 24, 3600, 0);
      Quotient(t / 3600, t / 86400, 24, 0);
    }
  }

  /**
   Crossing one second can only unmatch a field whose unit starts at that second. So a time is aligned
   whenever, field by field, either its predecessor matched or a unit starts here.
   */
  lemma CrossingAligns(s: SpecSchedule, t: int)
    requires MonthMatches(s, t - 1) || MonthAligned(t)
    requires DayMatches(s, t - 1) || DayAligned(t)
    requires HourMatches(s, t - 1) || HourAligned(t)
    requires MinuteMatches(s, t - 1) || MinuteAligned(t)
    ensures Aligned(s, t)
  {
    hide MonthStart, MonthOfDay, Has;
    if !MonthAligned(t) { SameMonthAsPredecessor(t); }
    if !DayAligned(t) { SameDayAsPredecessor(t); SameDay(s, t - 1, t); }
    SameClockAsPredecessor(t);
  }

  lemma SameMonthAsPredecessor(t: int)
    requires !MonthAligned(t)
    ensures MonthNumber(t - 1) == MonthNumber(t)
  {
    hide MonthBegin, MonthNumber;
    InMonth(t, MonthNumber(t));
    InMonth(t - 1, MonthNumber(t));
  }

  lemma SameDayAsPredecessor(t: int)
    requires !DayAligned(t)
    ensures DayNumber(t - 1) == DayNumber(t)
  {
  }

  lemma SameClockAsPredecessor(t: int)
    ensures !HourAligned(t) ==> Hour(t - 1) == Hour(t)
    ensures !MinuteAligned(t) ==> Minute(t - 1) == Minute(t)
  {
  }

  // ----- One step of each of the five loops
  // `a` is the truncated time, `b` the time the loop moves on to.

  /** Truncating a time that is already aligned changes nothing, so the loops may skip it once they have started. */
  lemma TruncationOfAligned(t: int)
    ensures MonthAligned(t) ==> Date(Year(t), Month(t), 1, 0, 0, 0) == t
    ensures DayAligned(t) ==> Date(Year(t), Month(t), Day(t), 0, 0, 0) == t
    ensures HourAligned(t) ==> Date(Year(t), Month(t), Day(t), Hour(t), 0, 0) == t
    ensures MinuteAligned(t) ==> Truncate(t, SECONDS_PER_MINUTE) == t
    ensures Truncate(t, 1) == t
  {
    hide MonthStart, MonthOfDay;
    DateOfFields(t);
    AlignmentNests(t);
    assert 12 * Year(t) + Month(t) - 1 == MonthNumber(t);
  }

  lemma MonthStep(s: SpecSchedule, t: int, a: int, b: int)
    requires !MonthMatches(s, t)
    requires a == Date(Year(t), Month(t), 1, 0, 0, 0) && b == AddDate(a, 0, 1, 0)
    ensures t < b && Silent(s, t, b) && Aligned(s, b)
    ensures Month(b) != 1 ==> Year(b) == Year(t)
  {
    hide MonthStart, MonthOfDay, DayMatches, HourMatches, MinuteMatches, SecondMatches, Has;
    var n := MonthNumber(t);
    InMonth(t, n);
    MonthBeginMonotone(n, n + 1);
    assert a == MonthBegin(n);
    InMonth(a, n);
    AddMonth(a);
    MonthBeginMonotone(n + 1, n + 2);
    InMonth(b, n + 1);
    AlignmentNests(b);
    forall u | t <= u < b ensures !Matches(s, u) { InMonth(u, n); }
  }

  lemma DayStep(s: SpecSchedule, t: int, a: int, b: int)
    requires MonthMatches(s, t) && !DayMatches(s, t)
    requires a == Date(Year(t), Month(t), Day(t), 0, 0, 0) && b == AddDate(a, 0, 0, 1)
    ensures t < b && Silent(s, t, b) && Aligned(s, b)
    ensures Day(b) != 1 ==> Year(b) == Year(t) && MonthMatches(s, b)
  {
    hide MonthStart, MonthOfDay, DayMatches, Has;
    NextMidnight(t, a, b);
    SameDay(s, t, b - 1);
    if !MonthAligned(b) { SameMonthAsPredecessor(b); }
    CrossingAligns(s, b) by { AlignmentNests(b); }
    forall u | t <= u < b ensures !Matches(s, u) { SameDay(s, t, u); }
  }

  lemma NextMidnight(t: int, a: int, b: int)
    requires a == Date(Year(t), Month(t), Day(t), 0, 0, 0) && b == AddDate(a, 0, 0, 1)
    ensures a == DayNumber(t) * SECONDS_PER_DAY && b == a + SECONDS_PER_DAY
    ensures DayAligned(b) && DayNumber(b - 1) == DayNumber(t)
    ensures Day(b) != 1 ==> !MonthAligned(b)
  {
    hide MonthStart, MonthOfDay;
    AddDays(a, 1);
    assert 12 * Year(t) + Month(t) - 1 == MonthNumber(t);
    Quotient(b, DayNumber(t) + 1, SECONDS_PER_DAY, 0);
    Quotient(b - 1, DayNumber(t), SECONDS_PER_DAY, SECONDS_PER_DAY - 1);
    AlignmentNests(b);
  }

  lemma HourStep(s: SpecSchedule, t: int, a: int, b: int)
    requires MonthMatches(s, t) && DayMatches(s, t) && !HourMatches(s, t)
    requires a == Date(Year(t), Month(t), Day(t), Hour(t), 0, 0) && b == a + SECONDS_PER_HOUR
    ensures t < b && Silent(s, t, b) && Aligned(s, b)
    ensures Hour(b) != 0 ==> Year(b) == Year(t) && MonthMatches(s, b) && DayMatches(s, b)
  {
    hide MonthStart, MonthOfDay, DayMatches, Has;
    DateOfFields(t);
    HourOfTruncated(t, a);
    SameDay(s, t, b - 1);
    if Hour(b) != 0 { SameDay(s, t, b); }
    CrossingAligns(s, b) by {
      if Hour(b) == 0 {
        if !MonthAligned(b) { SameMonthAsPredecessor(b); }
      }
    }
    forall u | t <= u < b ensures !Matches(s, u) { assert u / 3600 == t / 3600; }
  }

  lemma HourOfTruncated(t: int, a: int)
    requires a == t - Minute(t) * 60 - Second(t)
    ensures a == t / 3600 * 3600
    ensures a <= t < a + 3600
    ensures DayNumber(a + 3600 - 1) == DayNumber(t) && HourAligned(a + 3600)
    ensures Hour(a + 3600) != 0 ==> DayNumber(a + 3600) == DayNumber(t)
    ensures Hour(a + 3600) == 0 ==> DayAligned(a + 3600)
  {
    ClockOfSeconds(t);
    assert t / 60 == t / 3600 * 60 + t / 60 % 60;
    var h := t / 3600;
    assert h == h / 24 * 24 + h % 24;
    assert t / 86400 == h / 24;
    assert (a + 3600) / 3600 == h + 1;
    if (h + 1) % 24 != 0 { assert (h + 1) / 24 == h / 24; }
  }

  /** Rounds down to a multiple of `d`, as time truncation does on a whole-minute offset. */
  function Truncate(t: int, d: int): int
    requires d > 0
  {
    t - t % d
  }

  lemma MinuteStep(s: SpecSchedule, t: int, a: int, b: int)
    requires MonthMatches(s, t) && DayMatches(s, t) && HourMatches(s, t) && !MinuteMatches(s, t)
    requires a == Truncate(t, SECONDS_PER_MINUTE) && b == a + SECONDS_PER_MINUTE
    ensures t < b && Silent(s, t, b) && Aligned(s, b)
    ensures Minute(b) != 0 ==> Year(b) == Year(t) && MonthMatches(s, b) && DayMatches(s, b) && HourMatches(s, b)
  {
    hide MonthStart, MonthOfDay, DayMatches, Has;
    MinuteOfTruncated(t, a);
    SameDay(s, t, b - 1);
    if Minute(b) != 0 { SameDay(s, t, b); }
    CrossingAligns(s, b) by {
      if !MonthAligned(b) { SameMonthAsPredecessor(b); }
      if !DayAligned(b) { SameDayAsPredecessor(b); }
    }
    forall u | t <= u < b ensures !Matches(s, u) { assert u / 60 == t / 60; }
  }

  lemma MinuteOfTruncated(t: int, a: int)
    requires a == t - t % 60
    ensures DayNumber(a + 60 - 1) == DayNumber(t) && Hour(a + 60 - 1) == Hour(t)
    ensures Minute(a + 60) != 0 ==> DayNumber(a + 60) == DayNumber(t) && Hour(a + 60) == Hour(t)
    ensures Minute(a + 60) == 0 ==> HourAligned(a + 60)
    ensures MinuteAligned(a + 60)
  {
    var m := t / 60;
    assert m == m / 60 * 60 + m % 60;
    assert t / 3600 == m / 60 && t / 86400 == m / 60 / 24;
    assert (a + 59) / 60 == m && (a + 60) / 60 == m + 1;
    assert (a + 59) / 3600 == m / 60 && (a + 60) / 3600 == (m + 1) / 60;
    if (m + 1) % 60 != 0 { assert (m + 1) / 60 == m / 60; }
  }

  lemma SecondStep(s: SpecSchedule, t: int)
    requires MonthMatches(s, t) && DayMatches(s, t) && HourMatches(s, t) && MinuteMatches(s, t) && !SecondMatches(s, t)
    ensures Silent(s, t, t + 1) && Aligned(s, t + 1)
    ensures Second(t + 1) != 0 ==> Year(t + 1) == Year(t) && MonthMatches(s, t + 1) && DayMatches(s, t + 1) &&
                                   HourMatches(s, t + 1) &&
                                   MinuteMatches(s, t + 1)
  {
    hide MonthStart, MonthOfDay, MonthNumber, DayNumber, Day, Hour, Minute, Second, DayMatches, Has;
    NextSecond(t);
    if Second(t + 1) != 0 {
      SameDay(s, t, t + 1);
    }
    CrossingAligns(s, t + 1);
  }

  lemma NextSecond(t: int)
    ensures Second(t + 1) != 0 ==> DayNumber(t + 1) == DayNumber(t) && Hour(t + 1) == Hour(t) &&
                                   Minute(t + 1) == Minute(t)
  {
    if Second(t + 1) != 0 {
      assert t / 60 == (t + 1) / 60;
      assert t / 3600 == t / 60 / 60 && (t + 1) / 3600 == (t + 1) / 60 / 60;
      assert t / 86400 == t / 60 / 1440 && (t + 1) / 86400 == (t + 1) / 60 / 1440;
    }
  }

  /**
   The search: five nested field loops, each of which skips its field to the next value and goes back
   to the month whenever the field wraps around.
   */
  method Next(s: SpecSchedule, nanos: int) returns (r: Option<int>)
    ensures r == NextActivation(s, nanos)
  {
    hide MonthNumber, Year, Month, Day, Hour, Minute, Second, YearBegin, Date, AddDate, Truncate, UpcomingSecond,
         Matches, Aligned, MonthAligned, DayAligned, HourAligned, MinuteAligned, MonthMatches, DayMatches, HourMatches,
         MinuteMatches, SecondMatches, FirstMatch;
    var t := UpcomingSecond(nanos);
    ghost var start, limit := t, SearchLimit(t);
    var added := false;
    var yearLimit := Year(t) + 5;
    YearBound(start, yearLimit + 1);

    label wrap:
    while true
      invariant start <= t && Silent(s, start, t)
      invariant added ==> Aligned(s, t)
      decreases limit - t
    {
      YearBound(t, yearLimit + 1);
      if Year(t) > yearLimit {
        Stop(s, start, t, limit);
        return None;
      }
      ghost var entered := t;

      while !MonthMatches(s, t)
        invariant entered <= t < limit && Silent(s, start, t) && Year(t) <= yearLimit
        invariant added ==> Aligned(s, t)
        decreases limit - t
      {
        ghost var was := t;
        if added { AlignedAtMismatch(s, t); }
        TruncationOfAligned(t);
        if !added {
          added := true;
          t := Date(Year(t), Month(t), 1, 0, 0, 0);
        }
        t := AddDate(t, 0, 1, 0);
        MonthStep(s, was, Date(Year(was), Month(was), 1, 0, 0, 0), t);
        YearBound(t, yearLimit + 1);
        if Month(t) == 1 { continue wrap; }
      }

      while !DayMatches(s, t)
        invariant entered <= t < limit && Silent(s, start, t) && Year(t) <= yearLimit
        invariant MonthMatches(s, t)
        invariant added ==> Aligned(s, t)
        decreases limit - t
      {
        ghost var was := t;
        if added { AlignedAtMismatch(s, t); }
        TruncationOfAligned(t);
        if !added {
          added := true;
          t := Date(Year(t), Month(t), Day(t), 0, 0, 0);
        }
        t := AddDate(t, 0, 0, 1);
        DayStep(s, was, Date(Year(was), Month(was), Day(was), 0, 0, 0), t);
        YearBound(t, yearLimit + 1);
        if Day(t) == 1 { continue wrap; }
      }

      while !HourMatches(s, t)
        invariant entered <= t < limit && Silent(s, start, t) && Year(t) <= yearLimit
        invariant MonthMatches(s, t) && DayMatches(s, t)
        invariant added ==> Aligned(s, t)
        decreases limit - t
      {
        ghost var was := t;
        if added { AlignedAtMismatch(s, t); }
        TruncationOfAligned(t);
        if !added {
          added := true;
          t := Date(Year(t), Month(t), Day(t), Hour(t), 0, 0);
        }
        t := t + SECONDS_PER_HOUR;
        HourStep(s, was, Date(Year(was), Month(was), Day(was), Hour(was), 0, 0), t);
        YearBound(t, yearLimit + 1);
        if Hour(t) == 0 { continue wrap; }
      }

      while !MinuteMatches(s, t)
        invariant entered <= t < limit && Silent(s, start, t) && Year(t) <= yearLimit
        invariant MonthMatches(s, t) && DayMatches(s, t) && HourMatches(s, t)
        invariant added ==> Aligned(s, t)
        decreases limit - t
      {
        ghost var was := t;
        if added { AlignedAtMismatch(s, t); }
        TruncationOfAligned(t);
        if !added {
          added := true;
          t := Truncate(t, SECONDS_PER_MINUTE);
        }
        t := t + SECONDS_PER_MINUTE;
        MinuteStep(s, was, Truncate(was, SECONDS_PER_MINUTE), t);
        YearBound(t, yearLimit + 1);
        if Minute(t) == 0 { continue wrap; }
      }

      while !SecondMatches(s, t)
        invariant entered <= t < limit && Silent(s, start, t) && Year(t) <= yearLimit
        invariant MonthMatches(s, t) && DayMatches(s, t) && HourMatches(s, t) && MinuteMatches(s, t)
        invariant added ==> Aligned(s, t)
        decreases limit - t
      {
        ghost var was := t;
        if !added {
          added := true;
          t := Truncate(t, 1);
        }
        TruncationOfAligned(was);
        t := t + 1;
        SecondStep(s, was);
        YearBound(t, yearLimit + 1);
        if Second(t) == 0 { continue wrap; }
      }

      Found(s, start, t, limit);
      return Some(t);
    }
  }

  lemma AlignedAtMismatch(s: SpecSchedule, t: int)
    requires Aligned(s, t)
    ensures !MonthMatches(s, t) ==> MonthAligned(t)
    ensures !DayMatches(s, t) ==> DayAligned(t)
    ensures !HourMatches(s, t) ==> HourAligned(t)
    ensures !MinuteMatches(s, t) ==> MinuteAligned(t)
  {
  }

  /** The search ends without a result: everything up to the limit is silent. */
  lemma Stop(s: SpecSchedule, start: int, t: int, limit: int)
    requires start <= limit <= t && Silent(s, start, t)
    ensures FirstMatch(s, start, limit) == None
  {
    hide Matches;
    SkipSilent(s, start, limit, limit);
  }

  /** The search ends on a matching second with only silence before it. */
  lemma Found(s: SpecSchedule, start: int, t: int, limit: int)
    requires start <= t < limit && Silent(s, start, t)
    requires MonthMatches(s, t) && DayMatches(s, t) && HourMatches(s, t) && MinuteMatches(s, t) && SecondMatches(s, t)
    ensures FirstMatch(s, start, limit) == Some(t)
  {
    SkipSilent(s, start, t, limit);
  }
}
