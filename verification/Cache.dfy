/** The in-memory TTL cache (store/cache/cache.go), with its methods taken as atomic steps. */
module Cache {
  import opened Wrappers

  datatype Item<V> = Item(value: V, expiration: int)

  /** The calls a cache has seen, with the clock readings they made. */
  datatype Op<V> =
    | SetOp(key: string, value: V, ttl: int, now: int)
    | DeleteOp(key: string)
    | ClearOp

  /** For every key, what its last Set stored, unless a Delete or Clear came after it. */
  ghost function LastSets<V>(ops: seq<Op<V>>): map<string, Item<V>> {
    if ops == [] then map[] else Record(LastSets(ops[..|ops| - 1]), ops[|ops| - 1])
  }

  ghost function Record<V>(sets: map<string, Item<V>>, op: Op<V>): map<string, Item<V>> {
    match op
    case SetOp(key, value, ttl, now) => sets[key := Item(value, now + ttl)]
    case DeleteOp(key) => sets - {key}
    case ClearOp => map[]
  }

  ghost predicate Touches<V>(op: Op<V>, key: string) {
    match op case SetOp(k, _, _, _) => k == key case DeleteOp(k) => k == key case ClearOp => true
  }

  /** The reading of the history: an entry is there exactly when the last call that touched its key was a Set of it. */
  lemma {:induction false} LastSetIsLast<V>(ops: seq<Op<V>>, key: string, item: Item<V>)
    ensures key in LastSets(ops) && LastSets(ops)[key] == item <==>
            exists i :: IsLastTouch(ops, key, i) && ops[i].SetOp? && Item(ops[i].value, ops[i].now + ops[i].ttl) == item
  {
    if ops == [] {
    } else {
      var n := |ops| - 1;
      LastSetIsLast(ops[..n], key, item);
      if Touches(ops[n], key) {
        assert forall i :: IsLastTouch(ops, key, i) <==> i == n;
      } else {
        assert forall i :: IsLastTouch(ops, key, i) <==> IsLastTouch(ops[..n], key, i);
      }
    }
  }

  ghost predicate IsLastTouch<V>(ops: seq<Op<V>>, key: string, i: int) {
    0 <= i < |ops| && Touches(ops[i], key) && forall j :: i < j < |ops| ==> !Touches(ops[j], key)
  }

  lemma LastSetsOfOneMore<V>(ops: seq<Op<V>>, op: Op<V>)
    ensures LastSets(ops + [op]) == Record(LastSets(ops), op)
  {
    assert (ops + [op])[..|ops|] == ops;
  }

  datatype Candidate<V> = Candidate(key: string, value: V, expiration: int)

  class Cache<V> {
    const maxItems: int
    const defaultTTL: int
    const notifies: bool

    var data: map<string, Item<V>>
    var itemCount: int

    /** What the eviction callback has been told, in order. */
    var evictions: seq<(string, V)>

    ghost var ops: seq<Op<V>>

    /** The counter is right, the bound holds, and every stored item is the last Set of its key. */
    ghost predicate Valid()
      reads this
    {
      && itemCount == |data|
      && (maxItems > 0 ==> |data| <= maxItems)
      && Recorded(data, ops)
    }

    constructor (maxItems: int, defaultTTL: int, notifies: bool)
      ensures Valid() && data == map[] && evictions == [] && ops == []
      ensures this.maxItems == maxItems && this.defaultTTL == defaultTTL && this.notifies == notifies
    {
      this.maxItems, this.defaultTTL, this.notifies := maxItems, defaultTTL, notifies;
      data, itemCount, evictions, ops := map[], 0, [], [];
    }

    method Set(key: string, value: V, now: int)
      requires Valid()
      modifies this
      ensures Valid() && ops == old(ops) + [SetOp(key, value, defaultTTL, now)]
      ensures AfterSet(old(data), data, key, Item(value, now + defaultTTL), maxItems)
      ensures var stored := old(data)[key := Item(value, now + defaultTTL)];
              if notifies then Reports(old(evictions), evictions, stored, stored.Keys - data.Keys)
                else evictions == old(evictions)
    {
      SetWithTTL(key, value, defaultTTL, now);
    }

    /** Stores the item, and if that exceeds the bound evicts the entries that expire first. */
    method SetWithTTL(key: string, value: V, ttl: int, now: int)
      requires Valid()
      modifies this
      ensures Valid() && ops == old(ops) + [SetOp(key, value, ttl, now)]
      ensures AfterSet(old(data), data, key, Item(value, now + ttl), maxItems)
      ensures var stored := old(data)[key := Item(value, now + ttl)];
              if notifies then Reports(old(evictions), evictions, stored, stored.Keys - data.Keys)
                else evictions == old(evictions)
    {
      hide LastSets, Record, Recorded, OldestEvicted, EvictionCount, Reports;
      RecordedSet(data, ops, key, value, ttl, now);
      CountOfSet(data, key, Item(value, now + ttl));
      ops := ops + [SetOp(key, value, ttl, now)];
      if key in data {
        data := data - {key};
      } else {
        itemCount := itemCount + 1;
      }
      data := data[key := Item(value, now + ttl)];
      assert data == old(data)[key := Item(value, now + ttl)];
      EvictionCountBound(maxItems);
      if maxItems > 0 && itemCount > maxItems {
        CleanupOldest();
      } else {
        NothingReported(evictions, data);
        assert data.Keys - data.Keys == {};
      }
    }

    /** The live value of a key; an expired entry is dropped. */
    method Get(key: string, now: int) returns (r: Option<V>)
      requires Valid()
      modifies this
      ensures Valid() && ops == old(ops)
      ensures r.Some? <==> key in old(data) && now <= old(data)[key].expiration
      ensures r.Some? ==> r.value == old(data)[key].value && data == old(data)
      ensures r.None? ==> data == old(data) - {key}
      ensures evictions == old(evictions) + if notifies && r.None? && key in old(data) then
                [(key, old(data)[key].value)] else []
      ensures r.Some? ==> key in LastSets(ops) && LastSets(ops)[key].value == r.value &&
                          now <= LastSets(ops)[key].expiration
    {
      if key !in data {
        assert data - {key} == data;
        return None;
      }
      var item := data[key];
      if now > item.expiration {
        RemoveEntry(key);
        return None;
      }
      return Some(item.value);
    }

    /** Drops a stored entry and reports it. */
    method RemoveEntry(key: string)
      requires Valid() && key in data
      modifies this
      ensures Valid() && ops == old(ops) && data == old(data) - {key}
      ensures evictions == old(evictions) + if notifies then [(key, old(data)[key].value)] else []
    {
      hide LastSets, Recorded;
      var value := data[key].value;
      CountOfDelete(data, {key});
      RecordedFewer(data, data - {key}, ops);
      data := data - {key};
      itemCount := itemCount - 1;
      if notifies {
        evictions := evictions + [(key, value)];
      }
    }

    method Delete(key: string)
      requires Valid()
      modifies this
      ensures Valid() && ops == old(ops) + [DeleteOp(key)] && data == old(data) - {key}
      ensures evictions == old(evictions) + if notifies && key in old(data) then [(key, old(data)[key].value)] else []
    {
      hide LastSets, Recorded;
      RecordedDelete(data, ops, key);
      if key in data {
        RemoveEntry(key);
      } else {
        assert data - {key} == data;
      }
      ops := ops + [DeleteOp(key)];
    }

    method Clear()
      requires Valid()
      modifies this
      ensures Valid() && ops == old(ops) + [ClearOp] && data == map[]
      ensures if notifies then Reports(old(evictions), evictions, old(data), old(data).Keys)
              else evictions == old(evictions)
    {
      hide LastSets, Recorded, Reports;
      DropEach();
      itemCount := 0;
      NothingRecorded(ops + [ClearOp]);
      ops := ops + [ClearOp];
    }

    /** Drops and reports all entries, in any order. */
    method DropEach()
      modifies this`data, this`evictions
      ensures data == map[]
      ensures if notifies then Reports(old(evictions), evictions, old(data), old(data).Keys)
              else evictions == old(evictions)
    {
      hide Reports;
      var keys := data.Keys;
      ghost var all := data;
      NothingReported(evictions, all);
      assert all.Keys - keys == {};
      while keys != {}
        invariant keys <= all.Keys && data == all - (all.Keys - keys)
        invariant if notifies then Reports(old(evictions), evictions, all, all.Keys - keys)
                  else evictions == old(evictions)
        decreases keys
      {
        var key :| key in keys;
        assert all.Keys - (keys - {key}) == (all.Keys - keys) + {key};
        if notifies {
          ReportOne(old(evictions), evictions, all, all.Keys - keys, key);
          evictions := evictions + [(key, data[key].value)];
        }
        data := data - {key};
        keys := keys - {key};
      }
      assert all.Keys - {} == all.Keys;
    }

    /** Drops and reports exactly the entries that the clock, read once for each of them, shows as expired. */
    method Cleanup(clock: string -> int)
      requires Valid()
      modifies this
      ensures Valid() && ops == old(ops)
      ensures data == map k | k in old(data) && clock(k) <= old(data)[k].expiration :: old(data)[k]
      ensures if notifies then Reports(old(evictions), evictions, old(data), old(data).Keys - data.Keys)
              else evictions == old(evictions)
    {
      hide LastSets, Recorded, Reports, Unexpired, Expired;
      var keys := data.Keys;
      var evicted: map<string, V> := map[];
      var count := 0;
      ghost var all := data;
      NothingExpired(all, clock);
      NothingReported(evictions, all);
      while keys != {}
        invariant keys <= all.Keys && ops == old(ops) && itemCount == old(itemCount) && evictions == old(evictions)
        invariant data == Unexpired(all, clock, keys)
        invariant |data| + count == |all|
        invariant evicted == Expired(all, clock, keys, notifies)
        decreases keys
      {
        var key :| key in keys;
        ExpireOne(all, clock, keys, key, notifies);
        if clock(key) > data[key].expiration {
          CountOfDelete(data, {key});
          if notifies {
            evicted := evicted[key := data[key].value];
          }
          data := data - {key};
          count := count + 1;
        }
        keys := keys - {key};
      }
      ExpiredAre(all, clock, notifies);
      LiveAre(all, clock);
      RecordedFewer(all, data, ops);
      if count > 0 {
        itemCount := itemCount - count;
        if notifies {
          Notify(evicted, all);
        }
      } else {
        assert data == all && all.Keys - all.Keys == {};
      }
    }

    /** Reports every entry collected, in any order. */
    method Notify(evicted: map<string, V>, ghost all: map<string, Item<V>>)
      requires evicted.Keys <= all.Keys && forall k :: k in evicted ==> evicted[k] == all[k].value
      modifies this`evictions
      ensures Reports(old(evictions), evictions, all, evicted.Keys)
    {
      hide Reports;
      NothingReported(evictions, all);
      var keys := evicted.Keys;
      assert evicted.Keys - keys == {};
      while keys != {}
        invariant keys <= evicted.Keys && Reports(old(evictions), evictions, all, evicted.Keys - keys)
        decreases keys
      {
        var key :| key in keys;
        ReportOne(old(evictions), evictions, all, evicted.Keys - keys, key);
        assert evicted.Keys - (keys - {key}) == evicted.Keys - keys + {key};
        evictions := evictions + [(key, evicted[key])];
        keys := keys - {key};
      }
      assert evicted.Keys - keys == evicted.Keys;
    }

    /** The position of a candidate that expires last. */
    method NewestIndex(candidates: seq<Candidate<V>>) returns (newest: nat)
      requires candidates != []
      ensures newest < |candidates| && forall i :: 0 <= i < |candidates| ==>
                                         candidates[i].expiration <= candidates[newest].expiration
    {
      newest := 0;
      for i := 1 to |candidates|
        invariant newest < |candidates| && forall j :: 0 <= j < i ==>
                                             candidates[j].expiration <= candidates[newest].expiration
      {
        if candidates[i].expiration > candidates[newest].expiration {
          newest := i;
        }
      }
    }

    /**
     Picks, in one pass over the entries in any order, as many candidates as are to go, none of which expires
     after an entry that stays.
     */
    method OldestCandidates(threshold: nat) returns (candidates: seq<Candidate<V>>)
      requires 0 < threshold <= |data|
      ensures |candidates| == threshold && Chosen(data, candidates, data.Keys)
    {
      hide Chosen;
      candidates := [];
      var keys := data.Keys;
      ghost var seen: set<string> := {};
      NothingChosen(data);
      while keys != {}
        invariant keys !! seen && keys + seen == data.Keys
        invariant Chosen(data, candidates, seen)
        invariant |candidates| == if |seen| < threshold then |seen| else threshold
        decreases keys
      {
        var key :| key in keys;
        var item := data[key];
        var candidate := Candidate(key, item.value, item.expiration);
        if |candidates| < threshold {
          ChooseOneMore(data, candidates, seen, key);
          candidates := candidates + [candidate];
        } else {
          var newest := NewestIndex(candidates);
          ReplaceNewest(data, candidates, seen, newest, key);
          if item.expiration < candidates[newest].expiration {
            candidates := candidates[newest := candidate];
          }
        }
        seen := seen + {key};
        keys := keys - {key};
      }
      assert seen == data.Keys;
    }

    /** Evicts a fifth of the bound, at least one entry: those that expire first. */
    method CleanupOldest()
      requires itemCount == |data| && Recorded(data, ops) && maxItems > 0
      modifies this
      ensures itemCount == |data| && Recorded(data, ops) && ops == old(ops)
      ensures |old(data)| <= maxItems ==> data == old(data)
      ensures |old(data)| > maxItems ==> |data| == |old(data)| - EvictionCount(maxItems) &&
                                         OldestEvicted(old(data), data)
      ensures if notifies then Reports(old(evictions), evictions, old(data), old(data).Keys - data.Keys)
              else evictions == old(evictions)
    {
      hide LastSets, Recorded, Chosen, CandidateKeys, OldestEvicted, EvictionCount, Remaining, Told, Reports;
      var threshold := EvictionCount(maxItems);
      EvictionCountBound(maxItems);
      if itemCount <= maxItems {
        NothingReported(evictions, data);
        assert data.Keys - data.Keys == {};
        return;
      }
      var candidates := OldestCandidates(threshold);
      ghost var all := data;
      ChosenAreOldest(all, candidates, evictions);
      RecordedFewer(all, Remaining(all, candidates, |candidates|), ops);
      var deletedCount := EvictEach(candidates, all);
      if deletedCount > 0 {
        itemCount := itemCount - deletedCount;
      }
    }

    /** Drops and reports the candidates one after another. */
    method EvictEach(candidates: seq<Candidate<V>>, ghost all: map<string, Item<V>>) returns (deletedCount: nat)
      requires data == all
      modifies this`data, this`evictions
      ensures deletedCount == |candidates| && data == Remaining(all, candidates, |candidates|)
      ensures evictions == old(evictions) + if notifies then Told(candidates, |candidates|) else []
    {
      hide CandidateKeys, Remaining, Told;
      NothingEvicted(all, candidates);
      deletedCount := 0;
      while deletedCount < |candidates|
        invariant 0 <= deletedCount <= |candidates|
        invariant data == Remaining(all, candidates, deletedCount)
        invariant evictions == old(evictions) + if notifies then Told(candidates, deletedCount) else []
      {
        var candidate := candidates[deletedCount];
        EvictOneMore(all, candidates, deletedCount);
        data := data - {candidate.key};
        if notifies {
          evictions := evictions + [(candidate.key, candidate.value)];
        }
        deletedCount := deletedCount + 1;
      }
    }

    method Size() returns (n: int)
      requires Valid()
      ensures n == |data|
    {
      n := itemCount;
    }
  }

  ghost predicate Recorded<V>(data: map<string, Item<V>>, ops: seq<Op<V>>) {
    forall k :: k in data ==> k in LastSets(ops) && LastSets(ops)[k] == data[k]
  }

  lemma RecordedSet<V>(data: map<string, Item<V>>, ops: seq<Op<V>>, key: string, value: V, ttl: int, now: int)
    requires Recorded(data, ops)
    ensures Recorded(data[key := Item(value, now + ttl)], ops + [SetOp(key, value, ttl, now)])
  {
    hide LastSets;
    LastSetsOfOneMore(ops, SetOp(key, value, ttl, now));
  }

  lemma RecordedDelete<V>(data: map<string, Item<V>>, ops: seq<Op<V>>, key: string)
    requires Recorded(data, ops)
    ensures Recorded(data - {key}, ops + [DeleteOp(key)])
  {
    hide LastSets;
    LastSetsOfOneMore(ops, DeleteOp(key));
  }

  lemma RecordedFewer<V>(data: map<string, Item<V>>, after: map<string, Item<V>>, ops: seq<Op<V>>)
    requires Recorded(data, ops) && forall k :: k in after ==> k in data && after[k] == data[k]
    ensures Recorded(after, ops)
  {
    hide LastSets;
  }

  lemma CountOfSet<V>(data: map<string, Item<V>>, key: string, item: Item<V>)
    ensures |data[key := item]| == |data| + if key in data then 0 else 1
  {
    assert data[key := item].Keys == data.Keys + {key};
  }

  lemma CountOfDelete<V>(data: map<string, Item<V>>, keys: set<string>)
    requires keys <= data.Keys
    ensures |data - keys| == |data| - |keys|
  {
    assert (data - keys).Keys == data.Keys - keys;
  }

  function EvictionCount(maxItems: int): (n: nat) {
    if maxItems / 5 > 1 then maxItems / 5 else 1
  }

  lemma EvictionCountBound(maxItems: int)
    ensures EvictionCount(maxItems) >= 1 && (maxItems > 0 ==> EvictionCount(maxItems) <= maxItems)
    ensures maxItems < 10 <==> EvictionCount(maxItems) == 1
    ensures maxItems >= 5 ==> 5 * EvictionCount(maxItems) <= maxItems < 5 * EvictionCount(maxItems) + 5
  {
  }

  /** The entries not yet looked at, and the others the clock does not show as expired. */
  ghost function Unexpired<V>(data: map<string, Item<V>>, clock: string -> int, pending: set<string>)
    : map<string, Item<V>>
  {
    map k | k in data && (k in pending || clock(k) <= data[k].expiration) :: data[k]
  }

  /** What is collected for the callback: the values of the entries dropped so far. */
  ghost function Expired<V>(data: map<string, Item<V>>, clock: string -> int, pending: set<string>, notifies: bool)
    : map<string, V>
  {
    map k | k in data && notifies && k !in pending && clock(k) > data[k].expiration :: data[k].value
  }

  lemma NothingExpired<V>(data: map<string, Item<V>>, clock: string -> int)
    ensures Unexpired(data, clock, data.Keys) == data
    ensures forall notifies :: Expired(data, clock, data.Keys, notifies) == map[]
  {
  }

  lemma ExpireOne<V>(data: map<string, Item<V>>, clock: string -> int, pending: set<string>, key: string,
                     notifies: bool)
    requires key in pending && pending <= data.Keys
    ensures key in Unexpired(data, clock, pending) && Unexpired(data, clock, pending)[key] == data[key]
    ensures Unexpired(data, clock, pending - {key}) ==
            if clock(key) > data[key].expiration then Unexpired(data, clock, pending) - {key}
              else Unexpired(data, clock, pending)
    ensures Expired(data, clock, pending - {key}, notifies) ==
            if clock(key) > data[key].expiration && notifies then
              Expired(data, clock, pending, notifies)[key := data[key].value]
            else Expired(data, clock, pending, notifies)
  {
  }

  lemma ExpiredAre<V>(data: map<string, Item<V>>, clock: string -> int, notifies: bool)
    ensures var live := Unexpired(data, clock, {});
            && (forall k :: k in live ==> k in data && live[k] == data[k])
            && (|live| == |data| ==> live == data)
            && (notifies ==> Expired(data, clock, {}, notifies).Keys == data.Keys - live.Keys)
            && (forall k :: k in Expired(data, clock, {}, notifies) ==>
                  k in data && Expired(data, clock, {}, notifies)[k] == data[k].value)
  {
    var live := Unexpired(data, clock, {});
    if |live| == |data| { KeysWithin(live.Keys, data.Keys); }
  }

  lemma LiveAre<V>(data: map<string, Item<V>>, clock: string -> int)
    ensures Unexpired(data, clock, {}) == map k | k in data && clock(k) <= data[k].expiration :: data[k]
  {
  }

  lemma KeysWithin(a: set<string>, b: set<string>)
    requires a <= b && |a| == |b|
    ensures a == b
  {
    assert |b - a| == 0;
  }

  /** What stays is unchanged, and nothing that went expires after anything that stays. */
  ghost predicate OldestEvicted<V>(before: map<string, Item<V>>, after: map<string, Item<V>>) {
    && (forall k :: k in after ==> k in before && after[k] == before[k])
    && (forall gone, kept :: gone in before && gone !in after && kept in after ==>
          before[gone].expiration <= after[kept].expiration)
  }

  /** The entries after a Set: the new item is stored, and beyond the bound the entries expiring first are gone. */
  ghost predicate AfterSet<V>(before: map<string, Item<V>>, after: map<string, Item<V>>, key: string, item: Item<V>,
                              maxItems: int) {
    var stored := before[key := item];
    if maxItems > 0 && |stored| > maxItems
    then |after| == |stored| - EvictionCount(maxItems) && OldestEvicted(stored, after)
    else after == stored
  }

  ghost function CandidateKeys<V>(cs: seq<Candidate<V>>): set<string> {
    set i | 0 <= i < |cs| :: cs[i].key
  }

  /** Distinct entries of the cache among those seen, none expiring after a seen entry that was not chosen. */
  ghost predicate Chosen<V>(data: map<string, Item<V>>, cs: seq<Candidate<V>>, seen: set<string>) {
    && seen <= data.Keys
    && (forall i, j :: 0 <= i < j < |cs| ==> cs[i].key != cs[j].key)
    && (forall i :: 0 <= i < |cs| ==> cs[i].key in seen && data[cs[i].key] == Item(cs[i].value, cs[i].expiration))
    && (forall i, k :: 0 <= i < |cs| && k in seen && k !in CandidateKeys(cs) ==> cs[i].expiration <= data[k].expiration)
  }

  lemma NothingChosen<V>(data: map<string, Item<V>>)
    ensures Chosen(data, [], {})
  {
  }

  /** While fewer are chosen than wanted, all seen entries are chosen. */
  lemma ChooseOneMore<V>(data: map<string, Item<V>>, cs: seq<Candidate<V>>, seen: set<string>, key: string)
    requires Chosen(data, cs, seen) && |cs| == |seen| && key in data && key !in seen
    ensures Chosen(data, cs + [Candidate(key, data[key].value, data[key].expiration)], seen + {key})
  {
    var c := Candidate(key, data[key].value, data[key].expiration);
    KeyCount(cs);
    KeysWithin(CandidateKeys(cs), seen);
    KeysOfOneMore(cs, c);
    hide CandidateKeys;
    assert CandidateKeys(cs + [c]) == seen + {key};
  }

  lemma KeysOfOneMore<V>(cs: seq<Candidate<V>>, c: Candidate<V>)
    ensures CandidateKeys(cs + [c]) == CandidateKeys(cs) + {c.key}
  {
    var more := cs + [c];
    forall k | k in CandidateKeys(cs) + {c.key} ensures k in CandidateKeys(more) {
      if k == c.key {
        assert more[|cs|].key == k;
      } else {
        var i :| 0 <= i < |cs| && cs[i].key == k;
        assert more[i].key == k;
      }
    }
  }

  /** A newly seen entry takes the place of the candidate that expires last, if it expires before it. */
  lemma ReplaceNewest<V>(data: map<string, Item<V>>, cs: seq<Candidate<V>>, seen: set<string>, newest: nat, key: string)
    requires Chosen(data, cs, seen) && key in data && key !in seen && newest < |cs|
    requires forall i :: 0 <= i < |cs| ==> cs[i].expiration <= cs[newest].expiration
    ensures Chosen(data, if data[key].expiration < cs[newest].expiration
                         then cs[newest := Candidate(key, data[key].value, data[key].expiration)] else cs, seen + {key})
  {
    if data[key].expiration < cs[newest].expiration {
      var now := cs[newest := Candidate(key, data[key].value, data[key].expiration)];
      KeysAfterReplacing(cs, newest, Candidate(key, data[key].value, data[key].expiration));
      hide CandidateKeys;
      forall i, k | 0 <= i < |now| && k in seen + {key} && k !in CandidateKeys(now)
        ensures now[i].expiration <= data[k].expiration
      {
        assert now[i].expiration <= cs[newest].expiration;
        if k != cs[newest].key {
          assert k in seen && k !in CandidateKeys(cs);
          assert cs[newest].expiration <= data[k].expiration;
        }
      }
    }
  }

  lemma KeysAfterReplacing<V>(cs: seq<Candidate<V>>, i: nat, c: Candidate<V>)
    requires i < |cs|
    requires forall i, j :: 0 <= i < j < |cs| ==> cs[i].key != cs[j].key
    ensures CandidateKeys(cs[i := c]) == CandidateKeys(cs) - {cs[i].key} + {c.key}
  {
    var now := cs[i := c];
    forall k ensures k in CandidateKeys(now) <==> k in CandidateKeys(cs) - {cs[i].key} + {c.key} {
      if k in CandidateKeys(cs) && k != cs[i].key {
        var j :| 0 <= j < |cs| && cs[j].key == k;
        assert now[j].key == k;
      }
      assert now[i].key == c.key;
    }
  }

  /** The entries left, and the reports made, once the first n candidates are gone. */
  ghost function Remaining<V>(all: map<string, Item<V>>, cs: seq<Candidate<V>>, n: int): map<string, Item<V>>
    requires 0 <= n <= |cs|
  {
    all - CandidateKeys(cs[..n])
  }

  ghost function Told<V>(cs: seq<Candidate<V>>, n: int): seq<(string, V)>
    requires 0 <= n <= |cs|
  {
    seq(n, i requires 0 <= i < n => (cs[i].key, cs[i].value))
  }

  lemma NothingEvicted<V>(all: map<string, Item<V>>, cs: seq<Candidate<V>>)
    ensures Remaining(all, cs, 0) == all && Told(cs, 0) == []
  {
  }

  lemma EvictOneMore<V>(all: map<string, Item<V>>, cs: seq<Candidate<V>>, n: nat)
    requires n < |cs|
    ensures Remaining(all, cs, n + 1) == Remaining(all, cs, n) - {cs[n].key}
    ensures Told(cs, n + 1) == Told(cs, n) + [(cs[n].key, cs[n].value)]
  {
    assert CandidateKeys(cs[..n + 1]) == CandidateKeys(cs[..n]) + {cs[n].key};
  }

  /** Dropping the chosen entries evicts the oldest, and reports exactly those. */
  lemma ChosenAreOldest<V>(all: map<string, Item<V>>, cs: seq<Candidate<V>>, log: seq<(string, V)>)
    requires Chosen(all, cs, all.Keys)
    ensures var left := Remaining(all, cs, |cs|);
            && OldestEvicted(all, left) && |left| == |all| - |cs| &&
               (forall k :: k in left ==> k in all && left[k] == all[k])
            && Reports(log, log + Told(cs, |cs|), all, all.Keys - left.Keys)
  {
    assert cs[..|cs|] == cs;
    KeyCount(cs);
    CountOfDelete(all, CandidateKeys(cs));
    assert all.Keys - Remaining(all, cs, |cs|).Keys == CandidateKeys(cs);
    TellingReports(all, cs, log);
  }

  lemma TellingReports<V>(all: map<string, Item<V>>, cs: seq<Candidate<V>>, log: seq<(string, V)>)
    requires Chosen(all, cs, all.Keys)
    ensures Reports(log, log + Told(cs, |cs|), all, CandidateKeys(cs))
  {
    KeyCount(cs);
    var after := log + Told(cs, |cs|);
    forall i | |log| <= i < |after| ensures after[i].0 in CandidateKeys(cs) && after[i].1 == all[after[i].0].value {
      assert after[i] == (cs[i - |log|].key, cs[i - |log|].value);
    }
  }

  lemma {:induction false} KeyCount<V>(cs: seq<Candidate<V>>)
    requires forall i, j :: 0 <= i < j < |cs| ==> cs[i].key != cs[j].key
    ensures |CandidateKeys(cs)| == |cs|
  {
    if cs == [] {
    } else {
      var n := |cs| - 1;
      KeyCount(cs[..n]);
      assert CandidateKeys(cs) == CandidateKeys(cs[..n]) + {cs[n].key};
    }
  }

  /** The callback was told of exactly the given keys with their values, each once. */
  ghost predicate Reports<V>(before: seq<(string, V)>, after: seq<(string, V)>, data: map<string, Item<V>>,
                             keys: set<string>) {
    && keys <= data.Keys
    && |after| == |before| + |keys| && after[..|before|] == before
    && (forall i :: |before| <= i < |after| ==> after[i].0 in keys && after[i].1 == data[after[i].0].value)
    && (forall i, j :: |before| <= i < j < |after| ==> after[i].0 != after[j].0)
  }

  lemma NothingReported<V>(before: seq<(string, V)>, data: map<string, Item<V>>)
    ensures Reports(before, before, data, {})
  {
  }

  lemma NothingRecorded<V>(ops: seq<Op<V>>)
    ensures Recorded(map[], ops)
  {
  }

  lemma ReportOne<V>(before: seq<(string, V)>, after: seq<(string, V)>, data: map<string, Item<V>>, keys: set<string>,
                     key: string)
    requires Reports(before, after, data, keys) && key in data && key !in keys
    ensures Reports(before, after + [(key, data[key].value)], data, keys + {key})
  {
    assert (after + [(key, data[key].value)])[..|before|] == after[..|before|];
  }
}
