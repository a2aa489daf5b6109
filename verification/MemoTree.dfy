/**
 The memos that go with a user: their own, the comments on these, the comments on those, and so on
 (store/user_delete.go). MySQL searches for them level by level; the other databases run a recursive query.
 */
module MemoTree {
  import opened Lists
  import opened Tables
  import opened Wrappers

  const BATCH_SIZE := 500

  const COMMENT := "COMMENT"

  datatype MemoRef = MemoRef(id: int, uid: string)

  predicate IsRoot(t: Tables, userID: int, id: int) {
    id in t.memos && t.memos[id].creatorID == userID
  }

  predicate IsCommentOn(t: Tables, child: int, parent: int) {
    child in t.memos && Relation(child, parent, COMMENT) in t.relations
  }

  /** The given parents' comments are all among the children. */
  ghost predicate CommentsWithin(t: Tables, parents: set<int>, children: set<int>) {
    forall c, p :: p in parents && IsCommentOn(t, c, p) ==> c in children
  }

  ghost predicate Closed(t: Tables, userID: int, ids: set<int>) {
    (forall id :: IsRoot(t, userID, id) ==> id in ids) && CommentsWithin(t, ids, ids)
  }

  /** The ids belong to every closed set. */
  ghost predicate Needed(t: Tables, userID: int, ids: set<int>) {
    forall closed: set<int> :: Closed(t, userID, closed) ==> ids <= closed
  }

  /** The least set that holds the user's memos and the comments on its own members. */
  ghost predicate IsTree(t: Tables, userID: int, ids: set<int>) {
    Closed(t, userID, ids) && Needed(t, userID, ids)
  }

  lemma TreeIsUnique(t: Tables, userID: int, a: set<int>, b: set<int>)
    requires IsTree(t, userID, a) && IsTree(t, userID, b)
    ensures a == b
  {
  }

  /** A chain of comments that leads from the memo down to one of the user's own. */
  ghost predicate LeadsToRoot(t: Tables, userID: int, chain: seq<int>) {
    && chain != []
    && IsRoot(t, userID, chain[|chain| - 1])
    && forall i :: 0 <= i < |chain| - 1 ==> IsCommentOn(t, chain[i], chain[i + 1])
  }

  /** The memos from which following comments upward can reach a memo of the user. */
  ghost function Tree(t: Tables, userID: int): set<int> {
    set m | m in t.memos && Reached(t, userID, m)
  }

  lemma ReachedAreClosed(t: Tables, userID: int)
    ensures Closed(t, userID, Tree(t, userID))
  {
    forall m | IsRoot(t, userID, m) ensures m in Tree(t, userID) { assert LeadsToRoot(t, userID, [m]); }
    forall c, p | p in Tree(t, userID) && IsCommentOn(t, c, p) ensures c in Tree(t, userID) {
      ReachedByComment(t, userID, c, p);
    }
  }

  lemma ReachedAreNeeded(t: Tables, userID: int)
    ensures Needed(t, userID, Tree(t, userID))
  {
    forall closed: set<int>, id | Closed(t, userID, closed) && id in Tree(t, userID) ensures id in closed {
      var chain :| LeadsToRoot(t, userID, chain) && chain[0] == id;
      ChainStaysIn(t, userID, closed, chain);
    }
  }

  /** The least closed set is the set of memos that lead to one of the user's, and there is no other. */
  lemma TreeIsReachability(t: Tables, userID: int, ids: set<int>)
    ensures IsTree(t, userID, ids) <==> ids == Tree(t, userID)
  {
    ReachedAreClosed(t, userID);
    ReachedAreNeeded(t, userID);
    if IsTree(t, userID, ids) { TreeIsUnique(t, userID, ids, Tree(t, userID)); }
  }

  /** A memo goes if and only if it is the user's or a comment on one that goes. */
  lemma InTreeIff(t: Tables, userID: int, m: int)
    requires m in t.memos
    ensures m in Tree(t, userID) <==>
            t.memos[m].creatorID == userID || exists p :: p in Tree(t, userID) &&
                                                Relation(m, p, "COMMENT") in t.relations
  {
    ReachedAreClosed(t, userID);
    if m in Tree(t, userID) && t.memos[m].creatorID != userID {
      var chain :| LeadsToRoot(t, userID, chain) && chain[0] == m;
      assert IsCommentOn(t, chain[0], chain[1]);
      var rest := chain[1..];
      forall i | 0 <= i < |rest| - 1 ensures IsCommentOn(t, rest[i], rest[i + 1]) {
        assert rest[i] == chain[i + 1] && rest[i + 1] == chain[i + 2];
      }
      assert LeadsToRoot(t, userID, rest) && Reached(t, userID, rest[0]);
      assert rest[0] in t.memos by {
        if |rest| > 1 { assert IsCommentOn(t, rest[0], rest[1]); }
      }
    } else if m !in Tree(t, userID) {
      assert !IsRoot(t, userID, m);
    }
  }

  /** And no more go than that: any set with the user's memos and all comments on its members holds them. */
  lemma TreeIsLeast(t: Tables, userID: int, ids: set<int>)
    requires forall m :: m in t.memos && t.memos[m].creatorID == userID ==> m in ids
    requires forall c, p :: c in t.memos && p in ids && Relation(c, p, "COMMENT") in t.relations ==> c in ids
    ensures Tree(t, userID) <= ids
  {
    assert Closed(t, userID, ids);
    ReachedAreNeeded(t, userID);
  }

  ghost predicate Reached(t: Tables, userID: int, id: int) {
    exists chain :: LeadsToRoot(t, userID, chain) && chain[0] == id
  }

  lemma ReachedByComment(t: Tables, userID: int, child: int, parent: int)
    requires Reached(t, userID, parent) && IsCommentOn(t, child, parent)
    ensures Reached(t, userID, child)
  {
    var chain :| LeadsToRoot(t, userID, chain) && chain[0] == parent;
    var longer := [child] + chain;
    forall i | 0 <= i < |longer| - 1 ensures IsCommentOn(t, longer[i], longer[i + 1]) {
      if i > 0 { assert longer[i] == chain[i - 1] && longer[i + 1] == chain[i]; }
    }
    assert LeadsToRoot(t, userID, longer);
  }

  lemma {:induction false} ChainStaysIn(t: Tables, userID: int, ids: set<int>, chain: seq<int>)
    requires Closed(t, userID, ids) && LeadsToRoot(t, userID, chain)
    ensures chain[0] in ids
  {
    if |chain| <= 1 {
    } else {
      assert LeadsToRoot(t, userID, chain[1..]) by {
        forall i | 0 <= i < |chain| - 2 ensures IsCommentOn(t, chain[1..][i], chain[1..][i + 1]) {
          assert chain[1..][i] == chain[i + 1] && chain[1..][i + 1] == chain[i + 2];
        }
      }
      ChainStaysIn(t, userID, ids, chain[1..]);
      assert IsCommentOn(t, chain[0], chain[1]);
    }
  }

  // Batches.

  function Concat<T>(batches: seq<seq<T>>): seq<T> {
    if batches == [] then [] else Concat(batches[..|batches| - 1]) + batches[|batches| - 1]
  }

  lemma ConcatOneMore<T>(batches: seq<seq<T>>, n: nat)
    requires n < |batches|
    ensures Concat(batches[..n + 1]) == Concat(batches[..n]) + batches[n]
  {
    assert batches[..n + 1][..n] == batches[..n];
  }

  /** Cuts the values, in order, into full batches and a last one that may be shorter; without a size, into one. */
  method Batches<T>(values: seq<T>, size: int) returns (batches: seq<seq<T>>)
    ensures Concat(batches) == values
    ensures forall i :: 0 <= i < |batches| ==> batches[i] != [] && (size > 0 ==> |batches[i]| <= size)
    ensures size > 0 ==> forall i :: 0 <= i < |batches| - 1 ==> |batches[i]| == size
    ensures size <= 0 && values != [] ==> batches == [values]
  {
    batches := [];
    if |values| == 0 { return; }
    var step := if size <= 0 then |values| else size;
    var start := 0;
    while start < |values|
      invariant 0 <= start && Concat(batches) == values[..if start < |values| then start else |values|]
      invariant forall i :: 0 <= i < |batches| ==> batches[i] != [] && |batches[i]| <= step
      invariant start < |values| ==> forall i :: 0 <= i < |batches| ==> |batches[i]| == step
      invariant forall i :: 0 <= i < |batches| - 1 ==> |batches[i]| == step
      invariant size <= 0 ==> batches == if start == 0 then [] else [values]
      decreases |values| - start
    {
      var end := start + step;
      if end > |values| { end := |values|; }
      ghost var was := batches;
      batches := batches + [values[start..end]];
      assert batches[..|batches| - 1] == was;
      assert values[..end] == values[..start] + values[start..end];
      assert size <= 0 ==> values[start..end] == values;
      start := start + step;
    }
    assert values[..|values|] == values;
  }

  // Lists of memos.

  function Ids(refs: seq<MemoRef>): set<int> {
    set i | 0 <= i < |refs| :: refs[i].id
  }

  /** Every listed memo exists under its id with its uid. */
  predicate Listed(t: Tables, refs: seq<MemoRef>) {
    forall i :: 0 <= i < |refs| ==> refs[i].id in t.memos && refs[i].uid == t.memos[refs[i].id].uid
  }

  predicate Distinct(refs: seq<MemoRef>) {
    forall i, j :: 0 <= i < j < |refs| ==> refs[i].id != refs[j].id
  }

  lemma IdsOfOneMore(refs: seq<MemoRef>, ref: MemoRef)
    ensures Ids(refs + [ref]) == Ids(refs) + {ref.id}
  {
    var more := refs + [ref];
    forall id | id in Ids(refs) + {ref.id} ensures id in Ids(more) {
      if id in Ids(refs) {
        var i :| 0 <= i < |refs| && refs[i].id == id;
        assert more[i].id == id;
      } else {
        assert more[|refs|].id == id;
      }
    }
  }

  lemma ListedOneMore(t: Tables, refs: seq<MemoRef>, ref: MemoRef)
    requires Listed(t, refs) && Distinct(refs) && ref.id !in Ids(refs)
    requires ref.id in t.memos && ref.uid == t.memos[ref.id].uid
    ensures Listed(t, refs + [ref]) && Distinct(refs + [ref]) && Ids(refs + [ref]) == Ids(refs) + {ref.id}
  {
    IdsOfOneMore(refs, ref);
  }

  /** There are as many ids as distinct references, and no more than memos. */
  lemma {:induction false} IdCount(t: Tables, refs: seq<MemoRef>)
    requires Listed(t, refs) && Distinct(refs)
    ensures |Ids(refs)| == |refs| <= |t.memos|
  {
    IdCountOnly(refs);
    assert Ids(refs) <= t.memos.Keys;
    SubsetCount(Ids(refs), t.memos.Keys);
  }

  lemma {:induction false} IdCountOnly(refs: seq<MemoRef>)
    requires Distinct(refs)
    ensures |Ids(refs)| == |refs|
  {
    if refs == [] {
    } else {
      var n := |refs| - 1;
      IdCountOnly(refs[..n]);
      IdsOfOneMore(refs[..n], refs[n]);
      assert refs[..n] + [refs[n]] == refs;
    }
  }

  lemma SubsetCount(a: set<int>, b: set<int>)
    requires a <= b
    ensures |a| <= |b|
  {
    assert b == a + (b - a);
  }

  // The search.

  /** The comments on the given parents that some of the relations record. */
  function CommentsAmong(t: Tables, relations: set<Relation>, parents: set<int>): set<int> {
    set r | r in relations && r.kind == COMMENT && r.relatedMemoID in parents && r.memoID in t.memos :: r.memoID
  }

  function CommentsOn(t: Tables, parents: set<int>): set<int> {
    CommentsAmong(t, t.relations, parents)
  }

  lemma CommentsWithinOfCommentsOn(t: Tables, parents: set<int>, children: set<int>)
    ensures CommentsWithin(t, parents, children) <==> CommentsOn(t, parents) <= children
  {
    if CommentsOn(t, parents) <= children {
      forall c, p | p in parents && IsCommentOn(t, c, p) ensures c in children {
        assert Relation(c, p, COMMENT) in t.relations && Relation(c, p, COMMENT).memoID in CommentsOn(t, parents);
      }
    }
  }

  lemma NeededUnion(t: Tables, userID: int, a: set<int>, b: set<int>)
    requires Needed(t, userID, a) && Needed(t, userID, b)
    ensures Needed(t, userID, a + b)
  {
  }

  /** Whatever closed set holds the parents holds their comments. */
  lemma CommentsAreNeeded(t: Tables, userID: int, parents: set<int>, seen: set<int>)
    requires Needed(t, userID, seen) && parents <= seen
    ensures Needed(t, userID, CommentsOn(t, parents))
  {
    forall closed: set<int> | Closed(t, userID, closed) ensures CommentsOn(t, parents) <= closed {
      CommentsWithinOfCommentsOn(t, parents, closed);
    }
  }

  /** Once a batch's comments are seen, those of the batch and of everything done before are. */
  lemma BatchDone(t: Tables, done: set<int>, batch: set<int>, before: set<int>, seen: set<int>)
    requires CommentsWithin(t, done, before) && seen == before + CommentsOn(t, batch)
    ensures CommentsWithin(t, done + batch, seen)
  {
    CommentsWithinOfCommentsOn(t, batch, seen);
  }

  function Roots(t: Tables, userID: int): set<int> {
    set id | id in t.memos && t.memos[id].creatorID == userID
  }

  lemma RootsAreNeeded(t: Tables, userID: int)
    ensures Needed(t, userID, Roots(t, userID))
  {
    forall closed: set<int> | Closed(t, userID, closed) ensures Roots(t, userID) <= closed {
      forall id | id in Roots(t, userID) ensures id in closed { assert IsRoot(t, userID, id); }
    }
  }

  lemma TreeWhenDone(t: Tables, userID: int, seen: set<int>)
    requires Needed(t, userID, seen) && Roots(t, userID) <= seen && CommentsWithin(t, seen, seen)
    ensures IsTree(t, userID, seen)
  {
    forall id | IsRoot(t, userID, id) ensures id in seen { assert id in Roots(t, userID); }
  }

  /** What the search has seen so far: distinct memos, each in every closed set. */
  ghost predicate Seen(t: Tables, userID: int, memos: seq<MemoRef>, seen: set<int>) {
    Listed(t, memos) && Distinct(memos) && Ids(memos) == seen && Needed(t, userID, seen)
  }

  lemma SeeOneMore(t: Tables, userID: int, memos: seq<MemoRef>, seen: set<int>, ref: MemoRef)
    requires Seen(t, userID, memos, seen) && ref.id !in seen && Needed(t, userID, {ref.id})
    requires ref.id in t.memos && ref.uid == t.memos[ref.id].uid
    ensures Seen(t, userID, memos + [ref], seen + {ref.id})
  {
    hide Needed, Listed, Distinct, Ids;
    assert Listed(t, memos + [ref]) && Distinct(memos + [ref]) && Ids(memos + [ref]) == Ids(memos) + {ref.id} by {
      ListedOneMore(t, memos, ref);
    }
    NeededUnion(t, userID, seen, {ref.id});
  }

  /** The tree, each memo once. */
  ghost predicate IsTreeList(t: Tables, userID: int, memos: seq<MemoRef>) {
    Listed(t, memos) && Distinct(memos) && IsTree(t, userID, Ids(memos))
  }

  /** The tables as one transaction sees them. A reliable one meets no database error. */
  class Transaction {
    var tables: Tables
    const reliable: bool

    constructor (tables: Tables, reliable: bool)
      ensures this.tables == tables && this.reliable == reliable
    {
      this.tables, this.reliable := tables, reliable;
    }

    /** The user's own memos, in any order. */
    method QueryRoots(userID: int) returns (r: Result<seq<MemoRef>>)
      ensures r.Ok? ==> Listed(tables, r.value) && Ids(r.value) == Roots(tables, userID)
      ensures reliable ==> r.Ok?
    {
      if !reliable { if * { return Err; } }
      var rows: seq<MemoRef> := [];
      var rest := tables.memos.Items;
      while rest != {}
        invariant rest <= tables.memos.Items && Listed(tables, rows)
        invariant Ids(rows) == set id | id in Roots(tables, userID) && (id, tables.memos[id]) !in rest
        decreases rest
      {
        var row :| row in rest;
        if row.1.creatorID == userID {
          IdsOfOneMore(rows, MemoRef(row.0, row.1.uid));
          rows := rows + [MemoRef(row.0, row.1.uid)];
        }
        rest := rest - {row};
      }
      return Ok(rows);
    }

    /** The comments on the given memos, in any order, once for every relation that makes them one. */
    method QueryComments(parents: seq<int>) returns (r: Result<seq<MemoRef>>)
      ensures r.Ok? ==> Listed(tables, r.value) && Ids(r.value) == CommentsOn(tables, RangeOf(parents))
      ensures reliable ==> r.Ok?
    {
      if !reliable { if * { return Err; } }
      var rows: seq<MemoRef> := [];
      var rest := tables.relations;
      while rest != {}
        invariant rest <= tables.relations && Listed(tables, rows)
        invariant Ids(rows) == CommentsAmong(tables, tables.relations - rest, RangeOf(parents))
        decreases rest
      {
        var rel :| rel in rest;
        JoinOneMore(tables, tables.relations - rest, rel, RangeOf(parents));
        assert tables.relations - (rest - {rel}) == tables.relations - rest + {rel};
        if rel.kind == COMMENT && rel.relatedMemoID in parents && rel.memoID in tables.memos {
          IdsOfOneMore(rows, MemoRef(rel.memoID, tables.memos[rel.memoID].uid));
          rows := rows + [MemoRef(rel.memoID, tables.memos[rel.memoID].uid)];
        }
        rest := rest - {rel};
      }
      assert tables.relations - {} == tables.relations;
      return Ok(rows);
    }

    /** Takes over the rows not seen before, in their order. */
    method Absorb(ghost userID: int, rows: seq<MemoRef>, memos: seq<MemoRef>, seen: set<int>, next: seq<int>)
      returns (memos': seq<MemoRef>, seen': set<int>, next': seq<int>)
      requires Seen(tables, userID, memos, seen) && Listed(tables, rows) && Needed(tables, userID, Ids(rows))
      ensures Seen(tables, userID, memos', seen') && seen' == seen + Ids(rows) && memos <= memos'
      ensures RangeOf(next') == RangeOf(next) + (seen' - seen)
      ensures |next'| - |next| == |memos'| - |memos|
    {
      hide Seen, Needed, Distinct;
      memos', seen', next' := memos, seen, next;
      for i := 0 to |rows|
        invariant Seen(tables, userID, memos', seen') && memos <= memos'
        invariant seen' == seen + Ids(rows[..i])
        invariant RangeOf(next') == RangeOf(next) + (seen' - seen)
        invariant |next'| - |next| == |memos'| - |memos|
      {
        var memo := rows[i];
        assert rows[..i + 1] == rows[..i] + [memo];
        IdsOfOneMore(rows[..i], memo);
        if memo.id in seen' { continue; }
        OneIsNeeded(tables, userID, rows, i);
        SeeOneMore(tables, userID, memos', seen', memo);
        seen' := seen' + {memo.id};
        memos' := memos' + [memo];
        RangeOfSum(next', [memo.id]);
        OneInRange(memo.id);
        next' := next' + [memo.id];
      }
      assert rows[..|rows|] == rows;
    }

    /** Level by level: the comments on one frontier, asked for in batches, are the next. */
    method ListMemoTreeIterative(userID: int) returns (r: Result<seq<MemoRef>>)
      ensures r.Ok? ==> IsTreeList(tables, userID, r.value)
      ensures reliable ==> r.Ok?
    {
      hide Seen, Needed, IsTree, IsTreeList, CommentsWithin, CommentsAmong, CommentsOn, Listed, Ids, Roots, RangeOf,
           Closed;
      var roots := QueryRoots(userID);
      if roots.Err? { return Err; }
      RootsAreNeeded(tables, userID);
      SeenNothing(tables, userID);
      var memos, seen, frontier := Absorb(userID, roots.value, [], {}, []);
      NothingWithin(tables, seen);
      assert seen - RangeOf(frontier) == {};
      while |frontier| > 0
        invariant Seen(tables, userID, memos, seen) && Roots(tables, userID) <= seen
        invariant RangeOf(frontier) <= seen && CommentsWithin(tables, seen - RangeOf(frontier), seen)
        decreases |tables.memos| - |memos|, |frontier|
      {
        ghost var before, wasMemos := seen, |memos|;
        ghost var done := seen - RangeOf(frontier);
        var nextFrontier: seq<int> := [];
        EmptyRange<int>();
        var batches := Batches(frontier, BATCH_SIZE);
        assert done + RangeOf(Concat(batches[..0])) == done;
        for i := 0 to |batches|
          invariant Seen(tables, userID, memos, seen) && before <= seen
          invariant seen == before + RangeOf(nextFrontier) && |memos| == wasMemos + |nextFrontier|
          invariant CommentsWithin(tables, done + RangeOf(Concat(batches[..i])), seen)
        {
          var children := QueryComments(batches[i]);
          if children.Err? { return Err; }
          BatchIsPart(batches, i);
          assert RangeOf(batches[i]) <= seen;
          SeenIsNeeded(tables, userID, memos, seen);
          CommentsAreNeeded(tables, userID, RangeOf(batches[i]), seen);
          ghost var was := seen;
          memos, seen, nextFrontier := Absorb(userID, children.value, memos, seen, nextFrontier);
          BatchDone(tables, done + RangeOf(Concat(batches[..i])), RangeOf(batches[i]), was, seen);
          assert done + RangeOf(Concat(batches[..i + 1])) == done + RangeOf(Concat(batches[..i])) + RangeOf(batches[i]);
        }
        assert batches[..|batches|] == batches;
        assert done + RangeOf(frontier) == before;
        FewerWithin(tables, before, seen - RangeOf(nextFrontier), seen);
        MemosBound(tables, userID, memos, seen);
        frontier := nextFrontier;
      }
      assert seen - RangeOf(frontier) == seen by { EmptyRange<int>(); }
      TreeListWhenDone(tables, userID, memos, seen);
      return Ok(memos);
    }

    /**
     The recursive query: rows not seen before join a queue, and each row of the queue is joined with its comments in
     turn.
     */
    method ListMemoTreeRecursive(userID: int) returns (r: Result<seq<MemoRef>>)
      ensures r.Ok? ==> IsTreeList(tables, userID, r.value)
      ensures reliable ==> r.Ok?
    {
      hide Seen, Needed, IsTree, IsTreeList, CommentsWithin, CommentsAmong, CommentsOn, Listed, Ids, Roots, RangeOf,
           Closed;
      var roots := QueryRoots(userID);
      if roots.Err? { return Err; }
      RootsAreNeeded(tables, userID);
      SeenNothing(tables, userID);
      var memos, seen, queue := Absorb(userID, roots.value, [], {}, []);
      NothingWithin(tables, seen);
      var head := 0;
      MemosBound(tables, userID, memos, seen);
      assert Ids(memos[..0]) == {} by { NoIds(); }
      while head < |memos|
        invariant Seen(tables, userID, memos, seen) && Roots(tables, userID) <= seen
        invariant head <= |memos| <= |tables.memos|
        invariant CommentsWithin(tables, Ids(memos[..head]), seen)
        decreases |tables.memos| - head
      {
        var row := memos[head];
        var children := QueryComments([row.id]);
        if children.Err? { return Err; }
        assert RangeOf([row.id]) == {row.id} by { OneInRange(row.id); }
        SeenHere(tables, userID, memos, seen, head);
        SeenIsNeeded(tables, userID, memos, seen);
        CommentsAreNeeded(tables, userID, {row.id}, seen);
        ghost var was, wasMemos := seen, memos;
        memos, seen, queue := Absorb(userID, children.value, memos, seen, queue);
        BatchDone(tables, Ids(wasMemos[..head]), {row.id}, was, seen);
        IdsOfOneMore(memos[..head], row);
        assert memos[..head + 1] == memos[..head] + [row] && memos[..head] == wasMemos[..head];
        MemosBound(tables, userID, memos, seen);
        head := head + 1;
      }
      assert memos[..head] == memos;
      assert Ids(memos) == seen by { SeenAreIds(tables, userID, memos, seen); }
      TreeListWhenDone(tables, userID, memos, seen);
      return Ok(memos);
    }
  }

  lemma JoinOneMore(t: Tables, relations: set<Relation>, rel: Relation, parents: set<int>)
    ensures CommentsAmong(t, relations + {rel}, parents) == CommentsAmong(t, relations, parents) +
            if rel.kind == COMMENT && rel.relatedMemoID in parents && rel.memoID in t.memos then {rel.memoID} else {}
  {
  }

  lemma OneIsNeeded(t: Tables, userID: int, rows: seq<MemoRef>, i: nat)
    requires i < |rows| && Needed(t, userID, Ids(rows))
    ensures Needed(t, userID, {rows[i].id})
  {
    assert rows[i].id in Ids(rows);
  }

  lemma SeenNothing(t: Tables, userID: int)
    ensures Seen(t, userID, [], {}) && RangeOf<int>([]) == {}
  {
  }

  lemma NothingWithin(t: Tables, seen: set<int>)
    ensures CommentsWithin(t, {}, seen)
  {
  }

  lemma NoIds()
    ensures Ids([]) == {}
  {
  }

  lemma SeenIsNeeded(t: Tables, userID: int, memos: seq<MemoRef>, seen: set<int>)
    requires Seen(t, userID, memos, seen)
    ensures Needed(t, userID, seen)
  {
  }

  lemma SeenAreIds(t: Tables, userID: int, memos: seq<MemoRef>, seen: set<int>)
    requires Seen(t, userID, memos, seen)
    ensures Ids(memos) == seen
  {
  }

  lemma SeenHere(t: Tables, userID: int, memos: seq<MemoRef>, seen: set<int>, i: nat)
    requires Seen(t, userID, memos, seen) && i < |memos|
    ensures memos[i].id in seen
  {
  }

  lemma MemosBound(t: Tables, userID: int, memos: seq<MemoRef>, seen: set<int>)
    requires Seen(t, userID, memos, seen)
    ensures |memos| <= |t.memos|
  {
    IdCount(t, memos);
  }

  lemma FewerWithin(t: Tables, parents: set<int>, fewer: set<int>, children: set<int>)
    requires CommentsWithin(t, parents, children) && fewer <= parents
    ensures CommentsWithin(t, fewer, children)
  {
  }

  /** A batch is part of what is cut up, and the parts up to it add up. */
  lemma BatchIsPart<T>(batches: seq<seq<T>>, i: nat)
    requires i < |batches|
    ensures RangeOf(batches[i]) <= RangeOf(Concat(batches))
    ensures RangeOf(Concat(batches[..i + 1])) == RangeOf(Concat(batches[..i])) + RangeOf(batches[i])
  {
    ConcatOneMore(batches, i);
    RangeOfSum(Concat(batches[..i]), batches[i]);
    PrefixRange(batches, i + 1);
  }

  lemma {:induction false} PrefixRange<T>(batches: seq<seq<T>>, i: nat)
    requires i <= |batches|
    ensures RangeOf(Concat(batches[..i])) <= RangeOf(Concat(batches))
    decreases |batches| - i
  {
    if i == |batches| {
      assert batches[..i] == batches;
    } else {
      ConcatOneMore(batches, i);
      RangeOfSum(Concat(batches[..i]), batches[i]);
      PrefixRange(batches, i + 1);
    }
  }

  lemma TreeListWhenDone(t: Tables, userID: int, memos: seq<MemoRef>, seen: set<int>)
    requires Seen(t, userID, memos, seen) && Roots(t, userID) <= seen
    requires CommentsWithin(t, seen, seen)
    ensures IsTreeList(t, userID, memos)
  {
    TreeWhenDone(t, userID, seen);
  }
}
