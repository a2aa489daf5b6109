/** The minute-stepping schedule of the job scheduler (internal/scheduler/parser.go). */
module SchedulerParser {
  import opened Calendar
  import opened CronSpec
  import opened Text
  import opened Wrappers

  datatype FieldMatcher =
    | Wildcard
    | Exact(value: int)
    | Between(start: int, end: int)
    | OneOf(values: seq<int>)
    | Every(step: int, min: int, max: int)
  {
    predicate Valid() { Every? ==> step >= 1 }

    predicate Matches(value: int)
      requires Valid()
    {
      match this
      case Wildcard => true
      case Exact(v) => value == v
      case Between(start, end) => start <= value <= end
      case OneOf(values) => value in values
      case Every(step, min, max) => min <= value <= max && (value - min) % step == 0
    }
  }

  datatype Schedule = Schedule(seconds: FieldMatcher, minutes: FieldMatcher, hours: FieldMatcher, days: FieldMatcher,
                               months: FieldMatcher, weekdays: FieldMatcher, hasSecs: bool)
  {
    predicate Valid() {
      seconds.Valid() && minutes.Valid() && hours.Valid() && days.Valid() && months.Valid() && weekdays.Valid()
    }

    /** The seconds one search step advances by. */
    function Step(): int { if hasSecs then 1 else SECONDS_PER_MINUTE }

    predicate Matches(t: int)
      requires Valid()
    {
      seconds.Matches(Second(t)) && minutes.Matches(Minute(t)) && hours.Matches(Hour(t)) && months.Matches(Month(t)) &&
      (days.Matches(Day(t)) || weekdays.Matches(Weekday(t)))
    }
  }

  // ----- Parsing

  /** The values of a list; an entry that is no number or out of range is an error. */
  function ListValues(parts: seq<string>, min: int, max: int): Result<seq<int>> {
    if parts == [] then Ok([])
    else
      match (Atoi(TrimSpace(parts[0])), ListValues(parts[1..], min, max))
      case (Some(v), Ok(rest)) => if v < min || v > max then Err else Ok([v] + rest)
      case _ => Err
  }

  // A single field: a star, a star with a step, a list, a range or one value, tried in this order.
  function MatcherOf(field: string, min: int, max: int): Result<FieldMatcher> {
    if field == "*" then Ok(Wildcard)
    else if "*/" <= field then
      (match Atoi(field[2..])
       case None => Err
       case Some(step) => if step < 1 || step > max then Err else Ok(Every(step, min, max)))
    else if ',' in field then
      (match ListValues(Split(field, {','}), min, max)
       case Err => Err
       case Ok(values) => Ok(OneOf(values)))
    else if '-' in field then
      var parts := Split(field, {'-'});
      if |parts| != 2 then Err
      else
        match (Atoi(TrimSpace(parts[0])), Atoi(TrimSpace(parts[1])))
        case (Some(start), Some(end)) => if start < min || end > max || start > end then Err
          else Ok(Between(start, end))
        case _ => Err
    else
      match Atoi(field)
      case None => Err
      case Some(v) => if v < min || v > max then Err else Ok(Exact(v))
  }

  method ParseField(field: string, min: int, max: int) returns (m: Result<FieldMatcher>)
    ensures m == MatcherOf(field, min, max)
    ensures m.Ok? ==> m.value.Valid()
  {
    if field == "*" { return Ok(Wildcard); }
    if "*/" <= field {
      var step := Atoi(field[2..]);
      if step.None? || step.value < 1 || step.value > max { return Err; }
      return Ok(Every(step.value, min, max));
    }
    if ',' in field {
      var parts := Split(field, {','});
      var values: seq<int> := [];
      AppendEnds(values, parts, min, max);
      for i := 0 to |parts|
        invariant ListValues(parts, min, max) == Append(values, ListValues(parts[i..], min, max))
      {
        var v := Atoi(TrimSpace(parts[i]));
        AppendOne(values, parts, i, min, max);
        if v.None? || v.value < min || v.value > max { return Err; }
        values := values + [v.value];
      }
      AppendEnds(values, parts, min, max);
      return Ok(OneOf(values));
    }
    if '-' in field {
      var parts := Split(field, {'-'});
      if |parts| != 2 { return Err; }
      var start, end := Atoi(TrimSpace(parts[0])), Atoi(TrimSpace(parts[1]));
      if start.None? || end.None? || start.value < min || end.value > max || start.value > end.value { return Err; }
      return Ok(Between(start.value, end.value));
    }
    var v := Atoi(field);
    if v.None? || v.value < min || v.value > max { return Err; }
    return Ok(Exact(v.value));
  }

  ghost function Append(values: seq<int>, rest: Result<seq<int>>): Result<seq<int>> {
    if rest.Ok? then Ok(values + rest.value) else Err
  }

  lemma AppendOne(values: seq<int>, parts: seq<string>, i: nat, min: int, max: int)
    requires i < |parts|
    ensures var v := Atoi(TrimSpace(parts[i]));
            Append(values, ListValues(parts[i..], min, max)) ==
            if v.None? || v.value < min || v.value > max then Err
            else Append(values + [v.value], ListValues(parts[i + 1..], min, max))
  {
    hide Atoi, TrimSpace;
    assert parts[i..][1..] == parts[i + 1..];
    var v, rest := Atoi(TrimSpace(parts[i])), ListValues(parts[i + 1..], min, max);
    if v.Some? && rest.Ok? {
      assert values + ([v.value] + rest.value) == values + [v.value] + rest.value;
    }
  }

  lemma AppendEnds(values: seq<int>, parts: seq<string>, min: int, max: int)
    ensures ListValues(parts, min, max) == Append([], ListValues(parts[0..], min, max))
    ensures Append(values, ListValues(parts[|parts|..], min, max)) == Ok(values)
  {
    assert parts[0..] == parts && parts[|parts|..] == [];
    assert values + [] == values;
    var all := ListValues(parts, min, max);
    assert all.Ok? ==> [] + all.value == all.value;
  }

  /** Five fields start at minutes, six at seconds; weekdays run from 0 to 7. */
  function ScheduleOf(fields: seq<string>): (s: Result<Schedule>) {
    if |fields| != 5 && |fields| != 6 then Err
    else
      var hasSecs := |fields| == 6;
      var offset := if hasSecs then 1 else 0;
      var seconds := if hasSecs then MatcherOf(fields[0], 0, 59) else Ok(Exact(0));
      match (seconds, MatcherOf(fields[offset], 0, 59), MatcherOf(fields[offset + 1], 0, 23),
             MatcherOf(fields[offset + 2], 1, 31), MatcherOf(fields[offset + 3], 1, 12),
               MatcherOf(fields[offset + 4], 0, 7))
      case (Ok(s), Ok(mi), Ok(h), Ok(d), Ok(mo), Ok(w)) => Ok(Schedule(s, mi, h, d, mo, w, hasSecs))
      case _ => Err
  }

  lemma AcceptedSchedulesAreValid(fields: seq<string>)
    ensures ScheduleOf(fields).Ok? ==> ScheduleOf(fields).value.Valid()
  {
    hide Atoi, TrimSpace, Split, ListValues;
  }

  /** A star with a step is accepted if the step is at least 1 and at most the field's maximum. */
  lemma StepField(p: string, n: int, min: int, max: int)
    requires Atoi(p) == Some(n)
    ensures MatcherOf("*/" + p, min, max) == if 1 <= n <= max then Ok(Every(n, min, max)) else Err
  {
    hide Atoi;
    AtoiCharacters(p);
    assert ("*/" + p)[2..] == p && ("*/" + p)[..2] == "*/";
  }

  /** Two numbers with a hyphen are accepted if they are in order and in range. */
  lemma RangeField(p: string, q: string, m: int, n: int, min: int, max: int)
    requires Atoi(p) == Some(m) && Atoi(q) == Some(n) && '-' !in p && '-' !in q
    ensures MatcherOf(p + "-" + q, min, max) == if min <= m <= n <= max then Ok(Between(m, n)) else Err
  {
    hide Atoi, Split, TrimSpace;
    NumberIsTrimmed(p);
    NumberIsTrimmed(q);
    var field := p + "-" + q;
    assert field == p + ['-'] + q && [p, q][1..] == [q];
    assert Join([p, q], '-') == p + ['-'] + Join([q], '-') == field;
    SplitJoin([p, q], '-');
    assert field[0] == p[0] && field[|p|] == '-' && forall c :: c in field ==> c in p || c == '-' || c in q;
  }

  /** A number has nothing around it, and no character with a meaning of its own but a sign. */
  lemma NumberIsTrimmed(p: string)
    requires Atoi(p).Some?
    ensures p != "" && TrimSpace(p) == p && ',' !in p && '*' !in p && '/' !in p
  {
    AtoiCharacters(p);
    assert p[0] !in SPACES && p[|p| - 1] !in SPACES;
  }

  /** Two or more numbers with commas are accepted if all are in range. */
  lemma ListField(pieces: seq<string>, values: seq<int>, min: int, max: int)
    requires |pieces| == |values| >= 2 && forall i :: 0 <= i < |pieces| ==> Atoi(pieces[i]) == Some(values[i])
    ensures MatcherOf(Join(pieces, ','), min, max) ==
            if forall v :: v in values ==> min <= v <= max then Ok(OneOf(values)) else Err
  {
    hide Atoi, Split, TrimSpace, ListValues;
    forall p | p in pieces ensures p != "" && TrimSpace(p) == p && ',' !in p && '*' !in p && '/' !in p {
      NumberIsTrimmed(p);
    }
    SplitJoin(pieces, ',');
    ValuesOfNumbers(pieces, values, min, max);
    var field := Join(pieces, ',');
    assert pieces[0] in pieces;
    assert field == pieces[0] + [','] + Join(pieces[1..], ',');
    assert field[0] == pieces[0][0] && field[0] != '*' && field[|pieces[0]|] == ',';
  }

  lemma {:induction false} ValuesOfNumbers(pieces: seq<string>, values: seq<int>, min: int, max: int)
    requires |pieces| == |values| && forall i :: 0 <= i < |pieces| ==> Atoi(pieces[i]) == Some(values[i])
    ensures ListValues(pieces, min, max) == if forall v :: v in values ==> min <= v <= max then Ok(values) else Err
  {
    hide Atoi, TrimSpace;
    if pieces == [] {
    } else {
      NumberIsTrimmed(pieces[0]);
      ValuesOfNumbers(pieces[1..], values[1..], min, max);
      assert values == [values[0]] + values[1..] && Atoi(TrimSpace(pieces[0])) == Some(values[0]);
      var inRange := forall v :: v in values[1..] ==> min <= v <= max;
      assert forall v :: v in values <==> v == values[0] || v in values[1..];
      assert values[0] in values;
      assert (forall v :: v in values ==> min <= v <= max) <==> min <= values[0] <= max && inRange;
      assert ListValues(pieces[1..], min, max) == if inRange then Ok(values[1..]) else Err;
    }
  }

  /** A number is accepted in a field exactly within the limits of its place, and is then the one value there. */
  lemma NumberInItsPlace(p: string, n: int)
    requires Atoi(p) == Some(n) && '-' !in p
    ensures ScheduleOf([p, "*", "*", "*", "*"]) == if n <= 59
            then Ok(Schedule(Exact(0), Exact(n), Wildcard, Wildcard, Wildcard, Wildcard, false)) else Err
    ensures ScheduleOf(["*", p, "*", "*", "*"]) == if n <= 23
            then Ok(Schedule(Exact(0), Wildcard, Exact(n), Wildcard, Wildcard, Wildcard, false)) else Err
    ensures ScheduleOf(["*", "*", p, "*", "*"]) == if 1 <= n <= 31
            then Ok(Schedule(Exact(0), Wildcard, Wildcard, Exact(n), Wildcard, Wildcard, false)) else Err
    ensures ScheduleOf(["*", "*", "*", p, "*"]) == if 1 <= n <= 12
            then Ok(Schedule(Exact(0), Wildcard, Wildcard, Wildcard, Exact(n), Wildcard, false)) else Err
    ensures ScheduleOf(["*", "*", "*", "*", p]) == if n <= 7
            then Ok(Schedule(Exact(0), Wildcard, Wildcard, Wildcard, Wildcard, Exact(n), false)) else Err
    ensures ScheduleOf([p, "*", "*", "*", "*", "*"]) == if n <= 59
            then Ok(Schedule(Exact(n), Wildcard, Wildcard, Wildcard, Wildcard, Wildcard, true)) else Err
  {
    NumberMatcher(p, n);
    hide Atoi, MatcherOf;
    assert forall min, max :: MatcherOf("*", min, max) == Ok(Wildcard) by { StarMatcher(); }
  }

  lemma StarMatcher()
    ensures forall min, max :: MatcherOf("*", min, max) == Ok(Wildcard)
  {
  }

  lemma NumberMatcher(p: string, n: int)
    requires Atoi(p) == Some(n) && '-' !in p
    ensures n >= 0
    ensures forall min, max :: MatcherOf(p, min, max) == if min <= n <= max then Ok(Exact(n)) else Err
  {
    AtoiCharacters(p);
    assert n >= 0;
    hide Atoi;
    assert ',' !in p && p[0] != '*';
  }

  // ----- Searching

  /** The first matching time among `from`, `from + step`, ... before `limit`. */
  function SteppedMatch(s: Schedule, from: int, limit: int): Option<int>
    requires s.Valid()
    decreases limit - from
  {
    if from >= limit then None
    else if s.Matches(from) then Some(from)
    else SteppedMatch(s, from + s.Step(), limit)
  }

  /** The first candidate: the next whole second, or the next whole minute. */
  function FirstCandidate(s: Schedule, nanos: int): int {
    if s.hasSecs then (nanos + NANOS) / NANOS
    else (nanos + SECONDS_PER_MINUTE * NANOS) / (SECONDS_PER_MINUTE * NANOS) * SECONDS_PER_MINUTE
  }

  /** The search gives up four calendar years after the first candidate. */
  function SearchEnd(from: int): int { AddDate(from, 4, 0, 0) }

  method Next(s: Schedule, nanos: int) returns (r: Option<int>)
    requires s.Valid()
    ensures r == SteppedMatch(s, FirstCandidate(s, nanos), SearchEnd(FirstCandidate(s, nanos)))
  {
    hide FirstCandidate, SearchEnd;
    var from := FirstCandidate(s, nanos);
    var maxTime := SearchEnd(from);
    while from < maxTime
      invariant SteppedMatch(s, FirstCandidate(s, nanos), maxTime) == SteppedMatch(s, from, maxTime)
      decreases maxTime - from
    {
      if s.Matches(from) { return Some(from); }
      from := from + s.Step();
    }
    return None;
  }
}
