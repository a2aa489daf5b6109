/** The job runner as a state machine over its steps (internal/cron/cron.go): what holds over every run. */
module CronRuns {
  import opened Arithmetic
  import Calendar
  import opened CronSpec
  import opened Wrappers

  /** A constant delay in nanoseconds, as rounded when it is built: whole seconds, at least one. */
  type Delay = d: int | d >= NANOS && d % NANOS == 0 witness NANOS

  datatype Schedule = Spec(spec: SpecSchedule) | Every(delay: Delay)

  /** Rounds a duration to a delay: below one second up to one, otherwise down to the whole second. */
  function RoundedDelay(duration: int): (delay: Delay)
    ensures duration < NANOS ==> delay == NANOS
    ensures duration >= NANOS ==> delay <= duration < delay + NANOS
  {
    var d := if duration < NANOS then NANOS else duration;
    RoundDown(d);
    d - d % NANOS
  }

  lemma RoundDown(d: int)
    requires d >= NANOS
    ensures d - d % NANOS >= NANOS && (d - d % NANOS) % NANOS == 0
  {
    Quotient(d - d % NANOS, d / NANOS, NANOS, 0);
  }

  /** The next activation after an instant, in nanoseconds; missing is the zero time. */
  function Activation(s: Schedule, now: int): Option<int> {
    match s
    case Spec(spec) => (match NextActivation(spec, now) case None => None case Some(u) => Some(u * NANOS))
    case Every(delay) => Some(now + delay - now % NANOS)
  }

  /** Every schedule moves forward, and only to whole seconds. */
  lemma ActivationIsLater(s: Schedule, now: int)
    ensures Activation(s, now).Some? ==> Activation(s, now).value > now && Activation(s, now).value % NANOS == 0
  {
    hide NextActivation;
    if s.Spec? {
      SpecIsLater(s.spec, now);
    } else {
      DelayIsLater(s.delay, now);
    }
  }

  lemma SpecIsLater(spec: SpecSchedule, now: int)
    ensures NextActivation(spec, now).Some? ==>
              var u := NextActivation(spec, now).value; u * NANOS > now && u * NANOS % NANOS == 0
  {
    hide NextActivation, Calendar.Year, Matches, UpcomingSecond;
    NextActivationIsLeast(spec, now);
    if NextActivation(spec, now).Some? {
      var u := NextActivation(spec, now).value;
      Quotient(u * NANOS, u, NANOS, 0);
    }
  }

  lemma DelayIsLater(delay: Delay, now: int)
    ensures now + delay - now % NANOS > now && (now + delay - now % NANOS) % NANOS == 0
  {
    var q, d := now / NANOS, delay / NANOS;
    assert now == q * NANOS + now % NANOS && delay == d * NANOS;
    Quotient((q + d) * NANOS, q + d, NANOS, 0);
  }

  type EntryID = nat

  datatype EntryState = EntryState(schedule: Schedule, next: Option<int>, prev: Option<int>)

  datatype State = State(entries: map<EntryID, EntryState>, nextID: EntryID, running: bool)

  datatype Event =
    | Add(schedule: Schedule, now: int)
    | Remove(id: EntryID, now: int)
    | Start(now: int)
    | Wake(now: int)
    | Snapshot
    | Stop

  const INITIAL := State(map[], 0, false)

  predicate IsDue(e: EntryState, now: int) { e.next.Some? && e.next.value <= now }

  function AfterStart(e: EntryState, now: int): EntryState { e.(next := Activation(e.schedule, now)) }

  function AfterWake(e: EntryState, now: int): EntryState {
    if IsDue(e, now) then EntryState(e.schedule, Activation(e.schedule, now), e.next) else e
  }

  /** The state after one step. */
  function Step(st: State, ev: Event): State {
    match ev
    case Add(s, now) =>
      var id := st.nextID + 1;
      st.(entries := st.entries[id := EntryState(s, if st.running then Activation(s, now) else None, None)],
          nextID := id)
    case Remove(id, _) => st.(entries := st.entries - {id})
    case Start(now) =>
      if st.running then st
      else st.(entries := map id | id in st.entries :: AfterStart(st.entries[id], now), running := true)
    case Wake(now) =>
      if st.running then st.(entries := map id | id in st.entries :: AfterWake(st.entries[id], now)) else st
    case Snapshot => st
    case Stop => st.(running := false)
  }

  /** The activations a step fires: which entries are started, and for which scheduled time. */
  function Fired(st: State, ev: Event): map<EntryID, int> {
    if ev.Wake? && st.running then
      map id | id in st.entries && IsDue(st.entries[id], ev.now) :: st.entries[id].next.value
    else map[]
  }

  /** The state before step `i` of a run. */
  function StateAt(st: State, run: seq<Event>, i: nat): State
    requires i <= |run|
  {
    if i == 0 then st else Step(StateAt(st, run, i - 1), run[i - 1])
  }

  function FiredAt(st: State, run: seq<Event>, i: nat): map<EntryID, int>
    requires i < |run|
  {
    Fired(StateAt(st, run, i), run[i])
  }

  /** Every stored id has been issued. */
  predicate Issued(st: State) { forall id :: id in st.entries ==> 1 <= id <= st.nextID }

  lemma {:induction false} IssuedAlways(st: State, run: seq<Event>, i: nat)
    requires Issued(st) && i <= |run|
    ensures Issued(StateAt(st, run, i)) && st.nextID <= StateAt(st, run, i).nextID
  {
    if i == 0 {
    } else {
      IssuedAlways(st, run, i - 1);
    }
  }

  lemma StepIsIssued(st: State, ev: Event)
    requires Issued(st)
    ensures Issued(Step(st, ev))
  {
    hide Activation;
  }

  /** The id of a new entry has never been in use, so stored ids stay distinct and are never reused. */
  lemma NewIDIsFresh(st: State, run: seq<Event>, i: nat, j: nat)
    requires Issued(st) && i <= j < |run| && run[j].Add?
    ensures StateAt(st, run, j).nextID + 1 !in StateAt(st, run, i).entries
    ensures StateAt(st, run, j + 1).entries.Keys == StateAt(st, run, j).entries.Keys + {StateAt(st, run, j).nextID + 1}
  {
    IssuedAlways(st, run, i);
    NextIDGrows(st, run, i, j);
  }

  lemma {:induction false} NextIDGrows(st: State, run: seq<Event>, i: nat, j: nat)
    requires i <= j <= |run|
    ensures StateAt(st, run, i).nextID <= StateAt(st, run, j).nextID
    decreases j
  {
    if i == j {
    } else {
      NextIDGrows(st, run, i, j - 1);
    }
  }

  /** A removed entry is gone for the rest of the run. */
  lemma {:induction false} RemovedStaysOut(st: State, run: seq<Event>, i: nat, j: nat, id: EntryID)
    requires i < j <= |run| && run[i].Remove? && run[i].id == id && id <= StateAt(st, run, i).nextID
    ensures id !in StateAt(st, run, j).entries && id <= StateAt(st, run, j).nextID
    decreases j
  {
    if i + 1 == j {
    } else {
      RemovedStaysOut(st, run, i, j - 1, id);
    }
  }

  /** ... and is never started again. */
  lemma RemovedNeverStarts(st: State, run: seq<Event>, i: nat, j: nat, id: EntryID)
    requires i < j < |run| && run[i].Remove? && run[i].id == id && id <= StateAt(st, run, i).nextID
    ensures id !in FiredAt(st, run, j)
  {
    RemovedStaysOut(st, run, i, j, id);
  }

  /** Nothing starts between a stop and the next start. */
  lemma {:induction false} StoppedStaysQuiet(st: State, run: seq<Event>, i: nat, j: nat)
    requires i < j < |run| && run[i].Stop? && forall k :: i < k < j ==> !run[k].Start?
    ensures !StateAt(st, run, j).running && FiredAt(st, run, j) == map[]
    decreases j
  {
    if i + 1 == j {
    } else {
      StoppedStaysQuiet(st, run, i, j - 1);
    }
  }

  /**
   The activation after an instant: for bit sets the least whole second later than it that matches, missing exactly if
   none does through the fifth year on; for a delay, that much after the instant's own second.
   */
  ghost predicate IsNextAfter(s: Schedule, now: int, next: Option<int>) {
    match s
    case Spec(spec) =>
      var lastYear := Calendar.Year(now / 1_000_000_000 + 1) + 5;
      (match next
       case Some(n) =>
         && n > now && n % 1_000_000_000 == 0 && Matches(spec, n / 1_000_000_000)
         && Calendar.Year(n / 1_000_000_000) <= lastYear
         && forall u :: now < u * 1_000_000_000 < n ==> !Matches(spec, u)
       case None => forall u :: now < u * 1_000_000_000 && Calendar.Year(u) <= lastYear ==> !Matches(spec, u))
    case Every(delay) => next == Some(now / 1_000_000_000 * 1_000_000_000 + delay)
  }

  lemma ActivationIsNext(s: Schedule, now: int)
    ensures IsNextAfter(s, now, Activation(s, now))
  {
    if s.Spec? {
      SpecIsNext(s.spec, now);
    }
  }

  lemma SpecIsNext(spec: SpecSchedule, now: int)
    ensures IsNextAfter(Spec(spec), now, Activation(Spec(spec), now))
  {
    hide NextActivation, Calendar.Year, Matches;
    NextActivationIsLeast(spec, now);
    assert UpcomingSecond(now) == now / 1_000_000_000 + 1;
    if NextActivation(spec, now).Some? {
      var u := NextActivation(spec, now).value;
      Quotient(u * NANOS, u, NANOS, 0);
    }
  }

  /**
   What one wake does: exactly the due entries fire, each for its old Next, which becomes its Prev, and each gets the
   activation after `now` as its Next; all others stay as they are.
   */
  lemma WakeEffect(st: State, now: int)
    requires st.running
    ensures var st', fired := Step(st, Wake(now)), Fired(st, Wake(now));
            && st'.entries.Keys == st.entries.Keys && st'.running && st'.nextID == st.nextID
            && (forall id :: id in fired <==>
                  id in st.entries && st.entries[id].next.Some? && st.entries[id].next.value <= now)
            && (forall id :: id in st.entries && id !in fired ==> st'.entries[id] == st.entries[id])
            && (forall id :: id in fired ==>
                  && Some(fired[id]) == st.entries[id].next == st'.entries[id].prev
                  && IsNextAfter(st.entries[id].schedule, now, st'.entries[id].next)
                  && (st'.entries[id].next.Some? ==> st'.entries[id].next.value > now)
                  && st'.entries[id].schedule == st.entries[id].schedule)
  {
    hide Activation, IsNextAfter;
    forall id | id in st.entries
      ensures var s := st.entries[id].schedule; IsNextAfter(s, now, Activation(s, now))
      ensures var next := Activation(st.entries[id].schedule, now); next.Some? ==> next.value > now
    {
      ActivationIsLater(st.entries[id].schedule, now);
      ActivationIsNext(st.entries[id].schedule, now);
    }
  }

  /** Starting gives every entry the activation after `now` as its Next and changes nothing else. */
  lemma StartEffect(st: State, now: int)
    ensures var st' := Step(st, Start(now));
            && st'.running && st'.nextID == st.nextID && st'.entries.Keys == st.entries.Keys
            && (st.running ==> st'.entries == st.entries)
            && (!st.running ==> forall id :: id in st.entries ==>
                  && IsNextAfter(st.entries[id].schedule, now, st'.entries[id].next)
                  && st'.entries[id].schedule == st.entries[id].schedule
                  && st'.entries[id].prev == st.entries[id].prev)
  {
    hide Activation, IsNextAfter;
    forall id | id in st.entries { ActivationIsNext(st.entries[id].schedule, now); }
  }

  /**
   Adding puts one entry under the next id, with the activation after `now` as its Next if the runner is running, and
   changes no other. Removing takes one entry away; a snapshot and a stop touch none.
   */
  lemma AddEffect(st: State, s: Schedule, now: int)
    requires Issued(st)
    ensures var st', id := Step(st, Add(s, now)), st.nextID + 1;
            && id !in st.entries && st'.entries.Keys == st.entries.Keys + {id}
            && st'.nextID == id && st'.running == st.running
            && (forall other :: other in st.entries ==> st'.entries[other] == st.entries[other])
            && st'.entries[id].schedule == s && st'.entries[id].prev == None
            && (if st.running then IsNextAfter(s, now, st'.entries[id].next) else st'.entries[id].next == None)
    ensures forall id :: Step(st, Remove(id, now)) == State(st.entries - {id}, st.nextID, st.running)
    ensures Step(st, Snapshot) == st && Step(st, Stop) == State(st.entries, st.nextID, false)
  {
    hide Activation, IsNextAfter;
    ActivationIsNext(s, now);
  }

  // ----- The timer

  /** The earliest Next of all entries, or none if no entry has one: the time the timer is set for. */
  ghost predicate IsEarliest(st: State, timer: Option<int>) {
    && (timer.Some? ==> exists id :: id in st.entries && st.entries[id].next == timer)
    && (forall id :: id in st.entries && st.entries[id].next.Some? ==>
          timer.Some? && timer.value <= st.entries[id].next.value)
  }

  /** A wake starts something if and only if the timer has run off, and afterwards nothing is left that is due. */
  lemma WakeFiresIffTimerElapsed(st: State, timer: Option<int>, now: int)
    requires st.running && IsEarliest(st, timer)
    ensures Fired(st, Wake(now)) != map[] <==> timer.Some? && timer.value <= now
    ensures forall later :: IsEarliest(Step(st, Wake(now)), later) ==> later.Some? ==> later.value > now
  {
    hide Activation;
    WakeEffect(st, now);
    if timer.Some? && timer.value <= now {
      var id :| id in st.entries && st.entries[id].next == timer;
      assert id in Fired(st, Wake(now));
    } else {
      assert forall id :: id !in Fired(st, Wake(now));
    }
  }

  /** The entry leaves the list, or gets a new Next because the runner starts again. */
  predicate Dropped(st: State, ev: Event, id: EntryID) {
    (ev.Remove? && ev.id == id) || (ev.Start? && !st.running)
  }

  /** The activation of the entry is started in some step of the range. */
  ghost predicate StartedFor(st: State, run: seq<Event>, i: nat, j: nat, id: EntryID, next: int)
    requires j <= |run|
  {
    exists k :: i <= k < j && id in FiredAt(st, run, k) && FiredAt(st, run, k)[id] == next
  }

  /**
   No activation is lost: one that is pending at some step is, at any later step, either started meanwhile or still
   pending, and then the timer is set for it or for an earlier one; unless the entry was removed or the runner
   restarted.
   */
  lemma {:induction false} ActivationIsNotLost(st: State, run: seq<Event>, i: nat, j: nat, id: EntryID, next: int)
    requires Issued(st) && i <= j <= |run|
    requires id in StateAt(st, run, i).entries && StateAt(st, run, i).entries[id].next == Some(next)
    requires forall k :: i <= k < j ==> !Dropped(StateAt(st, run, k), run[k], id)
    ensures id in StateAt(st, run, j).entries
    ensures StartedFor(st, run, i, j, id, next) || StateAt(st, run, j).entries[id].next == Some(next)
    ensures StartedFor(st, run, i, j, id, next) ||
            forall timer :: IsEarliest(StateAt(st, run, j), timer) ==> timer.Some? && timer.value <= next
    decreases j
  {
    hide Activation, IsEarliest, StartedFor;
    if i == j {
      PendingBoundsTimer(StateAt(st, run, j), id, next);
    } else {
      ActivationIsNotLost(st, run, i, j - 1, id, next);
      IssuedAlways(st, run, j - 1);
      PendingStep(StateAt(st, run, j - 1), run[j - 1], id, next);
      assert StartedFor(st, run, i, j - 1, id, next) ==>
               StartedFor(st, run, i, j, id, next) by { StartedEarlier(st, run, i, j, id, next); }
      if !StartedFor(st, run, i, j, id, next) {
        NotStartedNow(st, run, i, j, id, next);
        PendingBoundsTimer(StateAt(st, run, j), id, next);
      }
    }
  }

  lemma StartedEarlier(st: State, run: seq<Event>, i: nat, j: nat, id: EntryID, next: int)
    requires i < j <= |run|
    ensures StartedFor(st, run, i, j - 1, id, next) ==> StartedFor(st, run, i, j, id, next)
  {
    hide StateAt, Fired;
  }

  lemma NotStartedNow(st: State, run: seq<Event>, i: nat, j: nat, id: EntryID, next: int)
    requires i < j <= |run| && !StartedFor(st, run, i, j, id, next)
    ensures !(id in FiredAt(st, run, j - 1) && FiredAt(st, run, j - 1)[id] == next)
  {
    hide StateAt, Fired;
  }

  lemma PendingBoundsTimer(st: State, id: EntryID, next: int)
    requires id in st.entries && st.entries[id].next == Some(next)
    ensures forall timer :: IsEarliest(st, timer) ==> timer.Some? && timer.value <= next
  {
  }

  /** One step keeps an entry that it does not drop, and its Next unless it starts it. */
  lemma PendingStep(st: State, ev: Event, id: EntryID, next: int)
    requires Issued(st) && id in st.entries && !Dropped(st, ev, id)
    ensures id in Step(st, ev).entries
    ensures st.entries[id].next == Some(next) ==>
              Step(st, ev).entries[id].next == Some(next) || (id in Fired(st, ev) && Fired(st, ev)[id] == next)
  {
    hide Activation;
  }

  /** A pending activation has been started by the end of the first wake at or after its time. */
  lemma PendingIsStarted(st: State, run: seq<Event>, i: nat, j: nat, id: EntryID, next: int)
    requires Issued(st) && i <= j < |run|
    requires id in StateAt(st, run, i).entries && StateAt(st, run, i).entries[id].next == Some(next)
    requires forall k :: i <= k < j ==> !Dropped(StateAt(st, run, k), run[k], id)
    requires run[j].Wake? && StateAt(st, run, j).running && next <= run[j].now
    ensures StartedFor(st, run, i, j + 1, id, next)
  {
    ActivationIsNotLost(st, run, i, j, id, next);
    hide StateAt;
    if !StartedFor(st, run, i, j, id, next) {
      WakeEffect(StateAt(st, run, j), run[j].now);
      assert id in FiredAt(st, run, j) && FiredAt(st, run, j)[id] == next;
    }
  }

  /**
   A started entry is started again: it gets the activation after the wake, and unless it is removed or the runner
   restarted, the next wake at or after that activation has started it for that activation.
   */
  lemma StartedIsStartedAgain(st: State, run: seq<Event>, i: nat, j: nat, id: EntryID)
    requires Issued(st) && i < j < |run| && run[i].Wake? && id in FiredAt(st, run, i)
    requires forall k :: i < k < j ==> !Dropped(StateAt(st, run, k), run[k], id)
    requires run[j].Wake? && StateAt(st, run, j).running
    ensures id in StateAt(st, run, i).entries && id in StateAt(st, run, i + 1).entries
    ensures var next := StateAt(st, run, i + 1).entries[id].next;
            && IsNextAfter(StateAt(st, run, i).entries[id].schedule, run[i].now, next)
            && (next.Some? && next.value <= run[j].now ==> StartedFor(st, run, i + 1, j + 1, id, next.value))
  {
    hide IsNextAfter, StartedFor, AfterWake, Activation;
    var before := StateAt(st, run, i);
    assert StateAt(st, run, i + 1) == Step(before, run[i]);
    WakeEffect(before, run[i].now);
    var next := StateAt(st, run, i + 1).entries[id].next;
    if next.Some? && next.value <= run[j].now {
      PendingIsStarted(st, run, i + 1, j, id, next.value);
    }
  }

  /** A job of every second that is started at some second gets the following second as its Next. */
  lemma EverySecond(n: nat)
    requires n >= 1
    ensures var st := State(map[1 := EntryState(Every(1_000_000_000), Some(n * 1_000_000_000), None)], 1, true);
            var wake := Wake(n * 1_000_000_000);
            && Fired(st, wake) == map[1 := n * 1_000_000_000]
            && Step(st, wake).entries[1].next == Some((n + 1) * 1_000_000_000)
  {
    var st := State(map[1 := EntryState(Every(1_000_000_000), Some(n * 1_000_000_000), None)], 1, true);
    Quotient(n * 1_000_000_000, n, 1_000_000_000, 0);
    WakeEffect(st, n * 1_000_000_000);
  }

  // ----- Under a clock that does not run backwards

  function Clock(ev: Event): Option<int> {
    match ev
    case Add(_, now) => Some(now)
    case Remove(_, now) => Some(now)
    case Start(now) => Some(now)
    case Wake(now) => Some(now)
    case _ => None
  }

  ghost predicate ClockFrom(run: seq<Event>, i: nat, now: int) {
    forall k :: i <= k < |run| && Clock(run[k]).Some? ==> Clock(run[k]).value >= now
  }

  /** Once an issued entry's Next lies after an instant, it stays after it. */
  lemma {:induction false} NextStaysAhead(st: State, run: seq<Event>, i: nat, j: nat, id: EntryID, now: int)
    requires i <= j <= |run| && ClockFrom(run, i, now) && id <= StateAt(st, run, i).nextID
    requires id in StateAt(st, run, i).entries ==> var n := StateAt(st, run, i).entries[id].next; n.Some? ==>
               n.value > now
    ensures id <= StateAt(st, run, j).nextID
    ensures id in StateAt(st, run, j).entries ==> var n := StateAt(st, run, j).entries[id].next; n.Some? ==>
              n.value > now
    decreases j
  {
    hide Activation;
    if i == j {
    } else {
      NextStaysAhead(st, run, i, j - 1, id, now);
      var before := StateAt(st, run, j - 1);
      if id in before.entries && Clock(run[j - 1]).Some? {
        ActivationIsLater(before.entries[id].schedule, Clock(run[j - 1]).value);
      }
    }
  }

  /** Of two starts of one entry, the later is for a strictly later activation: no activation runs twice. */
  lemma ActivationsIncrease(st: State, run: seq<Event>, i: nat, j: nat, id: EntryID)
    requires Issued(st) && i < j < |run| && run[i].Wake? && ClockFrom(run, i, run[i].now)
    requires id in FiredAt(st, run, i) && id in FiredAt(st, run, j)
    ensures FiredAt(st, run, i)[id] <= run[i].now < FiredAt(st, run, j)[id]
  {
    hide Activation, AfterWake;
    var before := StateAt(st, run, i);
    IssuedAlways(st, run, i);
    NoLongerDue(before, run[i].now, id);
    assert StateAt(st, run, i + 1) == Step(before, run[i]);
    NextStaysAhead(st, run, i + 1, j, id, run[i].now);
  }

  /** An entry fires for an activation that has come, and afterwards its Next has not. */
  lemma NoLongerDue(st: State, now: int, id: EntryID)
    requires id in Fired(st, Wake(now))
    ensures id in st.entries && id in Step(st, Wake(now)).entries && Fired(st, Wake(now))[id] <= now
    ensures var next := Step(st, Wake(now)).entries[id].next; next.Some? ==> next.value > now
  {
    hide Activation, IsNextAfter;
    WakeEffect(st, now);
  }
}
