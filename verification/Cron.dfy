/** The job runner itself: entries updated in place, sorted before every wait (internal/cron/cron.go). */
module Cron {
  import opened CronRuns
  import opened CronSpec
  import opened Wrappers

  class Entry {
    const id: EntryID
    const schedule: Schedule
    var next: Option<int>
    var prev: Option<int>

    constructor (id: EntryID, schedule: Schedule)
      ensures this.id == id && this.schedule == schedule && next == None && prev == None
    {
      this.id, this.schedule, next, prev := id, schedule, None, None;
    }

    function State(): EntryState
      reads this
    {
      EntryState(schedule, next, prev)
    }
  }

  /** The sort order of activation times: earlier first, entries that never run last. */
  predicate NotAfter(a: Option<int>, b: Option<int>) {
    b.None? || (a.Some? && a.value <= b.value)
  }

  ghost predicate Sorted(es: seq<Entry>)
    reads es
  {
    forall i, j :: 0 <= i < j < |es| ==> NotAfter(es[i].next, es[j].next)
  }

  ghost predicate Distinct(es: seq<Entry>) {
    forall i, j :: 0 <= i < j < |es| ==> es[i] != es[j]
  }

  method Insert(es: seq<Entry>, e: Entry) returns (r: seq<Entry>)
    requires Sorted(es) && Distinct(es) && e !in es
    ensures Sorted(r) && Distinct(r)
    ensures forall x :: x in r <==> x == e || x in es
  {
    var i := 0;
    while i < |es| && NotAfter(es[i].next, e.next)
      invariant 0 <= i <= |es|
      invariant forall k :: 0 <= k < i ==> NotAfter(es[k].next, e.next)
    {
      i := i + 1;
    }
    r := es[..i] + [e] + es[i..];
    assert es == es[..i] + es[i..];
  }

  method Sort(es: seq<Entry>) returns (r: seq<Entry>)
    requires Distinct(es)
    ensures Sorted(r) && Distinct(r)
    ensures forall x :: x in r <==> x in es
  {
    r := [];
    for i := 0 to |es|
      invariant Sorted(r) && Distinct(r)
      invariant forall x :: x in r <==> x in es[..i]
    {
      assert es[i] !in es[..i];
      r := Insert(r, es[i]);
      assert es[..i + 1] == es[..i] + [es[i]];
    }
    assert es[..|es|] == es;
  }

  /** The next activation of a schedule, computed by the search. */
  method NextOf(s: Schedule, now: int) returns (next: Option<int>)
    ensures next == Activation(s, now)
  {
    match s {
      case Spec(spec) =>
        var r := Next(spec, now);
        next := if r.None? then None else Some(r.value * NANOS);
      case Every(delay) =>
        next := Some(now + delay - now % NANOS);
    }
  }

  /** Gives every entry its first activation after `now`. */
  method Reschedule(entries: seq<Entry>, now: int)
    requires Distinct(entries)
    modifies entries
    ensures forall e :: e in entries ==> e.State() == AfterStart(old(e.State()), now)
  {
    hide Activation;
    for i := 0 to |entries|
      invariant forall k :: 0 <= k < i ==> entries[k].State() == AfterStart(old(entries[k].State()), now)
      invariant forall k :: i <= k < |entries| ==> entries[k].State() == old(entries[k].State())
    {
      entries[i].next := NextOf(entries[i].schedule, now);
    }
  }

  /**
   The timer fires: runs the sorted entries up to the first one that is not due. Stopping there is sound
   because the entries behind it are not due either. The result is how many were started.
   */
  method RunDue(entries: seq<Entry>, now: int) returns (n: nat)
    requires Distinct(entries) && Sorted(entries)
    modifies entries
    ensures n <= |entries| && forall k :: 0 <= k < |entries| ==> (k < n <==> IsDue(old(entries[k].State()), now))
    ensures forall k :: 0 <= k < |entries| ==> entries[k].State() == AfterWake(old(entries[k].State()), now)
  {
    hide Activation;
    n := 0;
    while n < |entries|
      invariant n <= |entries|
      invariant forall k :: 0 <= k < n ==> IsDue(old(entries[k].State()), now) &&
                                           entries[k].State() == AfterWake(old(entries[k].State()), now)
      invariant forall k :: n <= k < |entries| ==> entries[k].State() == old(entries[k].State())
    {
      var e := entries[n];
      if e.next.None? || e.next.value > now { break; }
      e.prev := e.next;
      e.next := NextOf(e.schedule, now);
      n := n + 1;
    }
    assert forall k :: n <= k < |entries| ==> NotAfter(old(entries[n].next), old(entries[k].next));
  }

  /** The entries of other ids. */
  method WithoutID(es: seq<Entry>, id: EntryID) returns (kept: seq<Entry>)
    requires Distinct(es)
    ensures Distinct(kept) && forall e :: e in kept <==> e in es && e.id != id
  {
    kept := [];
    for i := 0 to |es|
      invariant Distinct(kept) && forall e :: e in kept <==> e in es[..i] && e.id != id
    {
      assert es[i] !in es[..i];
      assert es[..i + 1] == es[..i] + [es[i]];
      if es[i].id != id {
        kept := kept + [es[i]];
      }
    }
    assert es[..|es|] == es;
  }

  ghost function States(es: seq<Entry>): (states: seq<EntryState>)
    reads es
    ensures |states| == |es| && forall k :: 0 <= k < |es| ==> states[k] == es[k].State()
  {
    if es == [] then [] else States(es[..|es| - 1]) + [es[|es| - 1].State()]
  }

  /** Gives every entry of a state its first activation; the entries of a state become those of the next. */
  method RescheduleAll(entries: seq<Entry>, ghost st: State, now: int)
    requires Distinct(entries) && !st.running && Holds(entries, st.entries)
    modifies entries
    ensures Holds(entries, Step(st, Event.Start(now)).entries)
  {
    hide Activation, AfterStart, Holds, Step, Lists, Distinct, States;
    ghost var olds := States(entries);
    HoldsLists(entries, olds, st.entries);
    Reschedule(entries, now);
    HoldsAfterStart(entries, olds, st, now);
  }

  /** Starts the due entries; those of a state become those of the next. The result lists what was started. */
  method StartDue(entries: seq<Entry>, ghost st: State, now: int) returns (started: seq<EntryID>)
    requires Distinct(entries) && Sorted(entries) && st.running && Holds(entries, st.entries)
    modifies entries
    ensures Holds(entries, Step(st, Event.Wake(now)).entries)
    ensures StartsExactly(started, Fired(st, Event.Wake(now)))
  {
    hide Activation, Sorted, AfterWake, Holds, Step, Fired, Lists, Distinct, IsDue, States;
    ghost var olds := States(entries);
    HoldsLists(entries, olds, st.entries);
    var n := RunDue(entries, now);
    started := seq(n, i requires 0 <= i < n => entries[i].id);
    StartedAreFired(entries, olds, started, st, now);
    HoldsAfterWake(entries, olds, st, now);
  }

  class Cron {
    var entries: seq<Entry>
    var nextID: EntryID
    var running: bool

    /** The abstract state that the steps of a run transform. */
    ghost var state: State

    ghost predicate Valid()
      reads this, entries
    {
      && Distinct(entries)
      && (running ==> Sorted(entries))
      && state.nextID == nextID && state.running == running
      && Issued(state)
      && Holds(entries, state.entries)
    }

    constructor ()
      ensures Valid() && state == INITIAL
    {
      entries, nextID, running := [], 0, false;
      state := INITIAL;
    }

    method Schedule(s: CronRuns.Schedule, now: int) returns (id: EntryID)
      requires Valid()
      modifies this
      ensures Valid() && state == Step(old(state), Add(s, now))
      ensures id == old(nextID) + 1 && id !in old(state).entries
      ensures forall e :: e in entries ==> e in old(entries) || fresh(e)
    {
      hide Activation, Sorted, Holds, Issued, Distinct;
      IdIsNew(state);
      StepIsIssued(state, Add(s, now));
      nextID := nextID + 1;
      var entry := new Entry(nextID, s);
      id := entry.id;
      state := Step(state, Add(s, now));
      if running {
        entry.next := NextOf(s, now);
      }
      HoldsOneMore(entries, entry, old(state).entries);
      DistinctOneMore(entries, entry);
      entries := entries + [entry];
      if running {
        var sorted := Sort(entries);
        HoldsAnyOrder(entries, sorted, state.entries);
        entries := sorted;
      }
    }

    method Remove(id: EntryID, now: int)
      requires Valid()
      modifies this
      ensures Valid() && state == Step(old(state), Event.Remove(id, now))
      ensures forall e :: e in entries <==> e in old(entries) && e.id != id
    {
      hide Activation, Sorted, Holds, Issued, Distinct;
      var kept := WithoutID(entries, id);
      HoldsWithout(entries, kept, id, state.entries);
      StepIsIssued(state, Event.Remove(id, now));
      state := Step(state, Event.Remove(id, now));
      entries := kept;
      if running {
        var sorted := Sort(kept);
        HoldsAnyOrder(kept, sorted, state.entries);
        entries := sorted;
      }
    }

    method Start(now: int)
      requires Valid()
      modifies this, entries
      ensures Valid() && state == Step(old(state), Event.Start(now))
      ensures forall e :: e in entries <==> e in old(entries)
    {
      hide Activation, Sorted, AfterStart, Holds, Distinct, Issued, States;
      if running { return; }
      RescheduleAll(entries, state, now);
      StepIsIssued(state, Event.Start(now));
      state := Step(state, Event.Start(now));
      running := true;
      var sorted := Sort(entries);
      HoldsAnyOrder(entries, sorted, state.entries);
      entries := sorted;
    }

    /** The time the timer is set for, that of the first entry in order; there is none if that entry never runs. */
    method Timer() returns (timer: Option<int>)
      requires Valid() && running
      ensures IsEarliest(state, timer)
    {
      timer := if |entries| == 0 then None else entries[0].next;
      forall id | id in state.entries ensures NotAfter(timer, state.entries[id].next) {
        var e :| e in entries && e.id == id;
        var k :| 0 <= k < |entries| && entries[k] == e;
      }
      if timer.Some? {
        assert entries[0] in entries && entries[0].id in state.entries;
      }
    }

    method Wake(now: int) returns (started: seq<EntryID>)
      requires Valid() && running
      modifies this, entries
      ensures Valid() && state == Step(old(state), Event.Wake(now))
      ensures StartsExactly(started, Fired(old(state), Event.Wake(now)))
      ensures forall e :: e in entries <==> e in old(entries)
    {
      hide Activation, Sorted, Holds, Step, Fired, Distinct, Issued, StartsExactly;
      WakeKeepsRunning(state, now);
      started := StartDue(entries, state, now);
      StepIsIssued(state, Event.Wake(now));
      state := Step(state, Event.Wake(now));
      var sorted := Sort(entries);
      HoldsAnyOrder(entries, sorted, state.entries);
      entries := sorted;
    }

    method Stop()
      requires Valid()
      modifies this
      ensures Valid() && state == Step(old(state), Event.Stop) && entries == old(entries)
    {
      running := false;
      state := Step(state, Event.Stop);
    }

    /** A copy of the current entries. */
    method Entries() returns (copy: seq<(EntryID, EntryState)>)
      requires Valid()
      ensures forall p :: p in copy <==> p.0 in state.entries && p.1 == state.entries[p.0]
    {
      copy := seq(|entries|, i requires 0 <= i < |entries| reads this, entries => (entries[i].id, entries[i].State()));
      forall p: (EntryID, EntryState) | p.0 in state.entries && p.1 == state.entries[p.0] ensures p in copy {
        var e :| e in entries && e.id == p.0;
        var k :| 0 <= k < |entries| && entries[k] == e;
        assert copy[k] == p;
      }
    }
  }

  /** The entry objects and the stored map hold the same entries. */
  ghost predicate Holds(es: seq<Entry>, m: map<EntryID, EntryState>)
    reads es
  {
    && (forall e :: e in es ==> e.id in m && m[e.id] == e.State())
    && (forall id :: id in m ==> exists e :: e in es && e.id == id)
    && (forall e, f :: e in es && f in es && e.id == f.id ==> e == f)
  }

  lemma HoldsOneMore(es: seq<Entry>, e: Entry, m: map<EntryID, EntryState>)
    requires Holds(es, m) && e.id !in m
    ensures Holds(es + [e], m[e.id := e.State()])
  {
    var m' := m[e.id := e.State()];
    forall id | id in m' ensures exists x :: x in es + [e] && x.id == id {
      if id == e.id {
        assert e in es + [e];
      } else {
        var x :| x in es && x.id == id;
        assert x in es + [e];
      }
    }
  }

  /** The states, entry by entry, are what the map holds. */
  ghost predicate Lists(es: seq<Entry>, states: seq<EntryState>, m: map<EntryID, EntryState>) {
    && |states| == |es|
    && (forall k :: 0 <= k < |es| ==> es[k].id in m && m[es[k].id] == states[k])
    && (forall id :: id in m ==> exists k :: 0 <= k < |es| && es[k].id == id)
    && (forall j, k :: 0 <= j < k < |es| ==> es[j].id != es[k].id)
  }

  lemma HoldsLists(es: seq<Entry>, states: seq<EntryState>, m: map<EntryID, EntryState>)
    requires Distinct(es) && Holds(es, m) && |states| == |es| && forall k :: 0 <= k < |es| ==>
                                                                   states[k] == es[k].State()
    ensures Lists(es, states, m)
  {
    forall id | id in m ensures exists k :: 0 <= k < |es| && es[k].id == id {
      var e :| e in es && e.id == id;
      var k :| 0 <= k < |es| && es[k] == e;
    }
  }

  lemma ListsHold(es: seq<Entry>, states: seq<EntryState>, m: map<EntryID, EntryState>)
    requires Lists(es, states, m) && forall k :: 0 <= k < |es| ==> states[k] == es[k].State()
    ensures Holds(es, m)
  {
    forall id | id in m ensures exists e :: e in es && e.id == id {
      var k :| 0 <= k < |es| && es[k].id == id;
      assert es[k] in es;
    }
  }

  lemma HoldsWithout(es: seq<Entry>, kept: seq<Entry>, id: EntryID, m: map<EntryID, EntryState>)
    requires Holds(es, m) && forall e :: e in kept <==> e in es && e.id != id
    ensures Holds(kept, m - {id})
  {
    forall other | other in m - {id} ensures exists e :: e in kept && e.id == other {
      var e :| e in es && e.id == other;
    }
  }

  lemma DistinctOneMore(es: seq<Entry>, e: Entry)
    requires Distinct(es) && e !in es
    ensures Distinct(es + [e])
  {
  }

  lemma IdIsNew(st: State)
    requires Issued(st)
    ensures st.nextID + 1 !in st.entries
  {
  }

  /** When the runner has started, the entries are those of the next state. */
  lemma HoldsAfterStart(es: seq<Entry>, olds: seq<EntryState>, before: State, now: int)
    requires !before.running && Lists(es, olds, before.entries)
    requires forall k :: 0 <= k < |es| ==> es[k].State() == AfterStart(olds[k], now)
    ensures Holds(es, Step(before, Event.Start(now)).entries)
  {
    hide AfterStart, Holds;
    ListsHold(es, seq(|es|, k requires 0 <= k < |olds| => AfterStart(olds[k], now)),
              Step(before, Event.Start(now)).entries);
  }

  /** When the timer has fired, the entries are those of the next state. */
  lemma HoldsAfterWake(es: seq<Entry>, olds: seq<EntryState>, before: State, now: int)
    requires before.running && Lists(es, olds, before.entries)
    requires forall k :: 0 <= k < |es| ==> es[k].State() == AfterWake(olds[k], now)
    ensures Holds(es, Step(before, Event.Wake(now)).entries)
  {
    hide AfterWake, Holds;
    ListsHold(es, seq(|es|, k requires 0 <= k < |olds| => AfterWake(olds[k], now)),
              Step(before, Event.Wake(now)).entries);
  }

  /** Of distinct entries, the due ones are those that fire. */
  lemma StartedAreFired(es: seq<Entry>, olds: seq<EntryState>, started: seq<EntryID>, before: State, now: int)
    requires before.running && Lists(es, olds, before.entries) && |started| <= |es|
    requires forall k :: 0 <= k < |es| ==> (k < |started| <==> IsDue(olds[k], now))
    requires forall k :: 0 <= k < |started| ==> started[k] == es[k].id
    ensures StartsExactly(started, Fired(before, Event.Wake(now)))
  {
    forall id | id in Fired(before, Event.Wake(now)) ensures id in started {
      var k :| 0 <= k < |es| && es[k].id == id;
      assert started[k] == id;
    }
  }

  lemma WakeKeepsRunning(before: State, now: int)
    requires before.running
    ensures var after := Step(before, Event.Wake(now)); after.nextID == before.nextID && after.running
  {
  }

  /** Holding the same entries does not depend on their order. */
  lemma HoldsAnyOrder(es: seq<Entry>, r: seq<Entry>, m: map<EntryID, EntryState>)
    requires Holds(es, m) && forall e :: e in r <==> e in es
    ensures Holds(r, m)
  {
  }

  /**
   Any run of the runner goes through the states of the state machine, each step starts exactly the entries that fire in
   it, each once, and before each step the timer is set for the earliest activation. What holds over all runs of the
   machine thus holds of the runner.
   */
  method Drive(c: Cron, run: seq<Event>) returns (log: seq<seq<EntryID>>, timers: seq<Option<int>>)
    requires c.Valid()
    modifies c, c.entries
    ensures c.Valid() && c.state == StateAt(old(c.state), run, |run|)
    ensures |log| == |timers| == |run|
    ensures forall i :: 0 <= i < |run| ==> StartsExactly(log[i], FiredAt(old(c.state), run, i))
    ensures forall i :: 0 <= i < |run| && StateAt(old(c.state), run, i).running ==>
              IsEarliest(StateAt(old(c.state), run, i), timers[i])
  {
    hide StateAt, Activation, StartsExactly, IsEarliest, Holds, Sorted, Distinct, Issued;
    log, timers := [], [];
    FirstState(c.state, run);
    for i := 0 to |run|
      invariant c.Valid() && c.state == StateAt(old(c.state), run, i)
      invariant forall e :: e in c.entries ==> e in old(c.entries) || fresh(e)
      invariant |log| == |timers| == i && forall k :: 0 <= k < i ==>
                                            StartsExactly(log[k], FiredAt(old(c.state), run, k))
      invariant forall k :: 0 <= k < i && StateAt(old(c.state), run, k).running ==>
                  IsEarliest(StateAt(old(c.state), run, k), timers[k])
    {
      var timer: Option<int> := None;
      if c.running { timer := c.Timer(); }
      timers := timers + [timer];
      assert forall k :: 0 <= k < |c.entries| ==> c.entries[k] in c.entries;
      var started := Perform(c, run[i]);
      NextState(old(c.state), run, i);
      log := log + [started];
    }
  }

  ghost predicate StartsExactly(started: seq<EntryID>, fired: map<EntryID, int>) {
    && (forall id :: id in started <==> id in fired)
    && (forall i, j :: 0 <= i < j < |started| ==> started[i] != started[j])
  }

  lemma FirstState(st: State, run: seq<Event>)
    ensures StateAt(st, run, 0) == st
  {
  }

  lemma NextState(st: State, run: seq<Event>, i: nat)
    requires i < |run|
    ensures StateAt(st, run, i + 1) == Step(StateAt(st, run, i), run[i])
  {
  }

  /** Performs one step; a timer can only fire while the runner is running. */
  method Perform(c: Cron, ev: Event) returns (started: seq<EntryID>)
    requires c.Valid()
    modifies c, c.entries
    ensures c.Valid() && c.state == Step(old(c.state), ev)
    ensures StartsExactly(started, Fired(old(c.state), ev))
    ensures forall e :: e in c.entries ==> e in old(c.entries) || fresh(e)
  {
    hide Activation;
    started := [];
    match ev {
      case Add(s, now) => var _ := c.Schedule(s, now);
      case Remove(id, now) => c.Remove(id, now);
      case Start(now) => c.Start(now);
      case Wake(now) =>
        if c.running {
          started := c.Wake(now);
        }
      case Snapshot => var _ := c.Entries();
      case Stop => c.Stop();
    }
  }
}
