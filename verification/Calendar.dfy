/**
 The proleptic Gregorian calendar in one fixed UTC offset.
 A time is a number of whole seconds of wall clock since 1 January of year 1, 00:00:00,
 and may be negative. Months are numbered consecutively across years: month `n` lies in
 year `n / 12` and is its `n % 12 + 1`-th month, which is how overflowing month numbers
 are normalised when a date is built.
 */
module Calendar {
  import opened Arithmetic

  const SECONDS_PER_MINUTE := 60
  const SECONDS_PER_HOUR := 3600
  const SECONDS_PER_DAY := 86400
  const DAYS_PER_400_YEARS := 146097

  predicate IsLeap(year: int) {
    year % 4 == 0 && (year % 100 != 0 || year % 400 == 0)
  }

  /** Number of days from 1 January of year 1 to 1 January of `year`. */
  function DaysBeforeYear(year: int): int {
    var y := year - 1;
    365 * y + y / 4 - y / 100 + y / 400
  }

  /** Days from 1 January to the first of month `m` (0 is January, 12 the next January). */
  function DaysBeforeMonth(leap: bool, m: nat): nat
    requires m <= 12
  {
    var common := [0, 31, 59, 90, 120, 151, 181, 212, 243, 273, 304, 334, 365];
    common[m] + if leap && m >= 2 then 1 else 0
  }

  /** Day number of the first day of month `n`. */
  function MonthStart(n: int): int {
    DaysBeforeYear(n / 12) + DaysBeforeMonth(IsLeap(n / 12), n % 12)
  }

  /** Days from the start of a 400-year cycle to its `k`-th year. */
  function DaysInCycle(k: int): int { 365 * k + k / 4 - k / 100 + k / 400 }

  /** The year containing a day: at most one off from a plain division inside its 400-year cycle. */
  function YearOfDay(day: int): int {
    var cycle, r := day / DAYS_PER_400_YEARS, day % DAYS_PER_400_YEARS;
    400 * cycle + r / 365 + if r < DaysInCycle(r / 365) then 0 else 1
  }

  lemma YearOfDayBounds(day: int)
    ensures DaysBeforeYear(YearOfDay(day)) <= day < DaysBeforeYear(YearOfDay(day) + 1)
  {
    hide DaysBeforeYear, DaysInCycle;
    var cycle, r := day / DAYS_PER_400_YEARS, day % DAYS_PER_400_YEARS;
    var k := r / 365;
    CycleStart(cycle, k - 1);
    CycleStart(cycle, k);
    CycleStart(cycle, k + 1);
    CycleBounds(k);
  }

  /** Inside a cycle the leap days never add up to a whole year. */
  lemma CycleBounds(k: int)
    requires 0 <= k <= 400
    ensures 365 * k <= DaysInCycle(k) && 365 * (k + 1) <= DaysInCycle(k + 1) && DaysInCycle(k - 1) <= 365 * k
  {
  }

  lemma DivisionSteps(y: int)
    ensures (y + 1) / 4 == y / 4 + if (y + 1) % 4 == 0 then 1 else 0
    ensures (y + 1) / 100 == y / 100 + if (y + 1) % 100 == 0 then 1 else 0
    ensures (y + 1) / 400 == y / 400 + if (y + 1) % 400 == 0 then 1 else 0
  {
  }

  lemma LeapSteps(y: int)
    ensures y % 400 == 0 ==> y % 100 == 0
    ensures y % 100 == 0 ==> y % 4 == 0
  {
  }

  lemma CycleStart(cycle: int, k: int)
    ensures DaysBeforeYear(400 * cycle + k + 1) == DAYS_PER_400_YEARS * cycle + DaysInCycle(k)
  {
    assert (400 * cycle + k) / 4 == 100 * cycle + k / 4;
    assert (400 * cycle + k) / 100 == 4 * cycle + k / 100;
    assert (400 * cycle + k) / 400 == cycle + k / 400;
  }

  function MonthInYear(leap: bool, d: nat): (m: nat)
    requires d < 365 + if leap then 1 else 0
    ensures m < 12 && DaysBeforeMonth(leap, m) <= d < DaysBeforeMonth(leap, m + 1)
  {
    if d < DaysBeforeMonth(leap, 1) then 0
    else if d < DaysBeforeMonth(leap, 2) then 1
    else if d < DaysBeforeMonth(leap, 3) then 2
    else if d < DaysBeforeMonth(leap, 4) then 3
    else if d < DaysBeforeMonth(leap, 5) then 4
    else if d < DaysBeforeMonth(leap, 6) then 5
    else if d < DaysBeforeMonth(leap, 7) then 6
    else if d < DaysBeforeMonth(leap, 8) then 7
    else if d < DaysBeforeMonth(leap, 9) then 8
    else if d < DaysBeforeMonth(leap, 10) then 9
    else if d < DaysBeforeMonth(leap, 11) then 10
    else 11
  }

  lemma YearLength(year: int)
    ensures DaysBeforeYear(year + 1) == DaysBeforeYear(year) + if IsLeap(year) then 366 else 365
  {
    DivisionSteps(year - 1);
    LeapSteps(year);
  }

  /** The month containing a day. */
  function MonthOfDay(day: int): int {
    var year := YearOfDay(day);
    YearOfDayBounds(day);
    YearLength(year);
    12 * year + MonthInYear(IsLeap(year), day - DaysBeforeYear(year))
  }

  lemma MonthOfDayBounds(day: int)
    ensures MonthStart(MonthOfDay(day)) <= day < MonthStart(MonthOfDay(day) + 1)
  {
    hide DaysBeforeYear, DaysBeforeMonth, IsLeap, YearOfDay;
    var year := YearOfDay(day);
    YearOfDayBounds(day);
    YearLength(year);
    var m := MonthInYear(IsLeap(year), day - DaysBeforeYear(year));
    var n := 12 * year + m;
    assert n / 12 == year && n % 12 == m;
    NextMonthStart(n);
  }

  lemma NextMonthStart(n: int)
    ensures MonthStart(n + 1) == DaysBeforeYear(n / 12) + DaysBeforeMonth(IsLeap(n / 12), n % 12 + 1)
    ensures MonthStart(n) + 28 <= MonthStart(n + 1) <= MonthStart(n) + 31
  {
    hide DaysBeforeYear, IsLeap;
    YearLength(n / 12);
    if n % 12 == 11 {
      assert (n + 1) / 12 == n / 12 + 1 && (n + 1) % 12 == 0;
    } else {
      assert (n + 1) / 12 == n / 12 && (n + 1) % 12 == n % 12 + 1;
    }
  }

  lemma {:induction false} MonthStartMonotone(a: int, b: int)
    requires a <= b
    ensures MonthStart(a) + 28 * (b - a) <= MonthStart(b)
    decreases b - a
  {
    hide MonthStart;
    if a >= b {
    } else {
      MonthStartMonotone(a, b - 1);
      NextMonthStart(b - 1);
    }
  }

  /** A day lies in exactly one month. */
  lemma MonthUnique(day: int, n: int)
    requires MonthStart(n) <= day < MonthStart(n + 1)
    ensures MonthOfDay(day) == n
  {
    hide MonthStart, MonthOfDay;
    var k := MonthOfDay(day);
    MonthOfDayBounds(day);
    if k < n {
      MonthStartMonotone(k + 1, n);
    } else if n < k {
      MonthStartMonotone(n + 1, k);
    }
  }

  // ----- The fields of a time

  function DayNumber(t: int): int { t / SECONDS_PER_DAY }
  function MonthNumber(t: int): int { MonthOfDay(DayNumber(t)) }
  function Year(t: int): int { MonthNumber(t) / 12 }
  function Month(t: int): (m: int) ensures 1 <= m <= 12 { MonthNumber(t) % 12 + 1 }
  function Day(t: int): (d: int)
    ensures 1 <= d <= 31
  {
    MonthOfDayBounds(DayNumber(t));
    NextMonthStart(MonthNumber(t));
    DayNumber(t) - MonthStart(MonthNumber(t)) + 1
  }
  /** Sunday is 0; 1 January of year 1 is a Monday. */
  function Weekday(t: int): (w: int) ensures 0 <= w < 7 { (DayNumber(t) + 1) % 7 }
  function Hour(t: int): (h: int) ensures 0 <= h < 24 { t / SECONDS_PER_HOUR % 24 }
  function Minute(t: int): (m: int) ensures 0 <= m < 60 { t / SECONDS_PER_MINUTE % 60 }
  function Second(t: int): (s: int) ensures 0 <= s < 60 { t % SECONDS_PER_MINUTE }

  /** The time with the given fields; month and day numbers outside their range carry over. */
  function Date(year: int, month: int, day: int, hour: int, minute: int, second: int): int {
    (MonthStart(12 * year + month - 1) + day - 1) * SECONDS_PER_DAY + hour * SECONDS_PER_HOUR +
      minute * SECONDS_PER_MINUTE + second
  }

  function AddDate(t: int, years: int, months: int, days: int): int {
    Date(Year(t) + years, Month(t) + months, Day(t) + days, Hour(t), Minute(t), Second(t))
  }

  /** The start of month `n` as a time. */
  function MonthBegin(n: int): int { MonthStart(n) * SECONDS_PER_DAY }

  /** The first second of a year. */
  function YearBegin(year: int): int { MonthBegin(12 * year) }

  /** Fields determine the time they came from. */
  lemma DateOfFields(t: int)
    ensures Date(Year(t), Month(t), Day(t), Hour(t), Minute(t), Second(t)) == t
  {
    hide MonthStart, MonthOfDay, DaysBeforeMonth, DaysBeforeYear;
    assert 12 * Year(t) + Month(t) - 1 == MonthNumber(t);
    ClockOfSeconds(t);
  }

  lemma ClockOfSeconds(t: int)
    ensures t == t / 86400 * 86400 + t / 3600 % 24 * 3600 + t / 60 % 60 * 60 + t % 60
  {
    assert t / 3600 == t / 86400 * 24 + t / 3600 % 24;
    assert t / 60 == t / 3600 * 60 + t / 60 % 60;
  }

  /** A time built from fields in range has those fields. */
  lemma FieldsOfDate(year: int, month: int, day: int, hour: int, minute: int, second: int)
    requires 1 <= month <= 12 && 1 <= day
    requires MonthStart(12 * year + month - 1) + day - 1 < MonthStart(12 * year + month)
    requires 0 <= hour < 24 && 0 <= minute < 60 && 0 <= second < 60
    ensures var t := Date(year, month, day, hour, minute, second);
            Year(t) == year && Month(t) == month && Day(t) == day && Hour(t) == hour && Minute(t) == minute &&
              Second(t) == second
  {
    hide MonthStart, MonthOfDay;
    var t := Date(year, month, day, hour, minute, second);
    var d := MonthStart(12 * year + month - 1) + day - 1;
    FieldsOfClock(d, hour, minute, second);
    MonthUnique(d, 12 * year + month - 1);
  }

  lemma FieldsOfClock(d: int, hour: int, minute: int, second: int)
    requires 0 <= hour < 24 && 0 <= minute < 60 && 0 <= second < 60
    ensures var t := d * 86400 + hour * 3600 + minute * 60 + second;
            t / 86400 == d && Hour(t) == hour && Minute(t) == minute && Second(t) == second
  {
    var t := d * 86400 + hour * 3600 + minute * 60 + second;
    var hours := d * 24 + hour;
    Quotient(t, hours, 3600, minute * 60 + second);
    Quotient(t, hours * 60 + minute, 60, second);
    Quotient(hours, d, 24, hour);
    Quotient(hours * 60 + minute, hours, 60, minute);
    Quotient(t, d, 86400, hour * 3600 + minute * 60 + second);
  }

  // ----- Ranges of times that share a field

  /** The times of month `n` are exactly those between its begin and the next month's begin. */
  lemma InMonth(t: int, n: int)
    ensures MonthNumber(t) == n <==> MonthBegin(n) <= t < MonthBegin(n + 1)
  {
    hide MonthStart, MonthOfDay;
    MonthOfDayBounds(DayNumber(t));
    DayRange(t, MonthStart(n));
    DayRange(t, MonthStart(n + 1));
    if MonthBegin(n) <= t < MonthBegin(n + 1) {
      MonthUnique(DayNumber(t), n);
    }
  }

  lemma DayRange(t: int, d: int)
    ensures d <= t / SECONDS_PER_DAY <==> d * SECONDS_PER_DAY <= t
  {
  }

  /** Months begin in order. */
  lemma MonthBeginMonotone(a: int, b: int)
    ensures a <= b <==> MonthBegin(a) <= MonthBegin(b)
    ensures a < b <==> MonthBegin(a) < MonthBegin(b)
  {
    hide MonthStart;
    if a <= b {
      MonthStartMonotone(a, b);
    } else {
      MonthStartMonotone(b, a);
    }
  }

  /** Years are ordered like times. */
  lemma YearBound(t: int, year: int)
    ensures Year(t) < year <==> t < YearBegin(year)
  {
    hide MonthBegin, MonthNumber;
    var n := MonthNumber(t);
    InMonth(t, n);
    if n < 12 * year {
      MonthBeginMonotone(n + 1, 12 * year);
    } else {
      MonthBeginMonotone(12 * year, n);
    }
  }

  /** Thirty days hath September, April, June and November. */
  lemma MonthLengths(year: int, month: int)
    requires 1 <= month <= 12
    ensures MonthStart(12 * year + month) - MonthStart(12 * year + month - 1) ==
            if month == 2 then if year % 4 == 0 && (year % 100 != 0 || year % 400 == 0) then 29 else 28
            else if month in {4, 6, 9, 11} then 30 else 31
  {
    hide DaysBeforeYear;
    var n := 12 * year + month - 1;
    assert n / 12 == year && n % 12 == month - 1;
    NextMonthStart(n);
  }

  /** Adding one month to the first second of a month gives the first second of the next. */
  lemma AddMonth(t: int)
    requires t == MonthBegin(MonthNumber(t))
    ensures AddDate(t, 0, 1, 0) == MonthBegin(MonthNumber(t) + 1)
  {
    hide MonthStart, MonthOfDay;
    FieldsOfClock(MonthStart(MonthNumber(t)), 0, 0, 0);
    assert 12 * Year(t) + Month(t) - 1 == MonthNumber(t);
  }

  /** Adding days keeps the clock and moves the day number. */
  lemma AddDays(t: int, days: int)
    ensures AddDate(t, 0, 0, days) == t + days * SECONDS_PER_DAY
  {
    hide MonthStart, MonthOfDay;
    DateOfFields(t);
  }

  // ----- Days of the week

  /** The next day has the next weekday, Sunday following Saturday. */
  lemma WeekdayFollows(t: int)
    ensures Weekday(t + 86400) == if Weekday(t) == 6 then 0 else Weekday(t) + 1
  {
  }

  /** 1 January 1970 is day 719162, a Thursday. */
  lemma Epoch()
    ensures Date(1970, 1, 1, 0, 0, 0) == 719162 * 86400
    ensures Weekday(Date(1970, 1, 1, 0, 0, 0)) == 4
  {
    JanuaryStart(1970);
    hide MonthStart;
    assert 12 * 1970 + 1 - 1 == 12 * 1970;
    Quotient(719162 * 86400, 719162, 86400, 0);
  }

  lemma JanuaryStart(year: int)
    ensures MonthStart(12 * year) == DaysBeforeYear(year)
  {
    hide DaysBeforeYear, IsLeap;
    assert 12 * year / 12 == year && 12 * year % 12 == 0;
  }

  /** Counted from that Thursday, every day has its weekday. */
  lemma WeekdaySinceEpoch(days: int, clock: int)
    requires 0 <= clock < 86400
    ensures Weekday(Date(1970, 1, 1, 0, 0, 0) + days * 86400 + clock) == (4 + days) % 7
  {
    Epoch();
    Quotient((719162 + days) * 86400 + clock, 719162 + days, 86400, clock);
    assert (719163 + days) % 7 == (4 + days) % 7;
  }
}
