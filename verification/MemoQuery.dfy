/**
 The query behind a listing of memos: the filters and then the driver's own criteria, in one WHERE clause with one list
 of arguments, and the memos it selects (store/db/sqlite/memo.go, store/db/mysql/memo.go, store/db/postgres/memo.go).
 */
module MemoQuery {
  import opened FilterIr
  import opened FilterMeaning
  import opened FilterPlan
  import opened FilterRender
  import opened FilterWhere
  import opened Folding
  import opened Sql
  import opened Wrappers

  // ----- Memos and criteria

  datatype RowStatus = Normal | Archived

  datatype Visibility = Public | Protected | Private

  function VisibilityText(v: Visibility): string {
    match v case Public => "PUBLIC" case Protected => "PROTECTED" case Private => "PRIVATE"
  }

  function StatusText(s: RowStatus): string {
    match s case Normal => "NORMAL" case Archived => "ARCHIVED"
  }

  lemma TextsDiffer()
    ensures "PUBLIC" != "PROTECTED" && "PUBLIC" != "PRIVATE" && "PROTECTED" != "PRIVATE" && "NORMAL" != "ARCHIVED"
  {
    assert "PUBLIC"[1] != "PROTECTED"[1] && "PROTECTED"[2] != "PRIVATE"[2] && "NORMAL"[0] != "ARCHIVED"[0];
  }

  /** A memo and the row that a query sees of it; `parent` is the memo it comments on. */
  datatype Memo = Memo(id: int, uid: string, creatorID: int, rowStatus: RowStatus, visibility: Visibility,
                       parent: Option<string>,
                       row: Row)
  {
    /** Users have positive ids, and the row shows the memo's own columns. */
    predicate Valid() {
      && creatorID > 0
      && ColumnValue(row, "id") == IntV(id)
      && ColumnValue(row, "uid") == StrV(uid)
      && ColumnValue(row, "creator_id") == IntV(creatorID)
      && ColumnValue(row, "row_status") == StrV(StatusText(rowStatus))
      && ColumnValue(row, "visibility") == StrV(VisibilityText(visibility))
      && ColumnValue(row, "parent_uid") == (if parent.Some? then StrV(parent.value) else Null)
    }
  }

  /** What a listing asks for. */
  datatype Criteria = Criteria(id: Option<int>, idList: seq<int>, uid: Option<string>, uidList: seq<string>,
                               creatorID: Option<int>, rowStatus: Option<RowStatus>, visibilityList: seq<Visibility>,
                               excludeComments: bool, filters: seq<Condition>)

  /** The criteria besides the filters, on a memo. */
  predicate Meets(c: Criteria, memo: Memo) {
    && (c.id.Some? ==> memo.id == c.id.value)
    && (c.idList != [] ==> memo.id in c.idList)
    && (c.uid.Some? ==> memo.uid == c.uid.value)
    && (c.uidList != [] ==> memo.uid in c.uidList)
    && (c.creatorID.Some? ==> memo.creatorID == c.creatorID.value)
    && (c.rowStatus.Some? ==> memo.rowStatus == c.rowStatus.value)
    && (c.visibilityList != [] ==> memo.visibility in c.visibilityList)
    && (c.excludeComments ==> memo.parent.None?)
  }

  class FindMemo {
    var id: Option<int>
    var idList: seq<int>
    var uid: Option<string>
    var uidList: seq<string>
    var creatorID: Option<int>
    var rowStatus: Option<RowStatus>
    var visibilityList: seq<Visibility>
    var excludeComments: bool
    var filters: seq<Condition>

    constructor (c: Criteria)
      ensures Current() == c
    {
      id, idList, uid, uidList := c.id, c.idList, c.uid, c.uidList;
      creatorID, rowStatus, visibilityList := c.creatorID, c.rowStatus, c.visibilityList;
      excludeComments, filters := c.excludeComments, c.filters;
    }

    function Current(): Criteria
      reads this
    {
      Criteria(id, idList, uid, uidList, creatorID, rowStatus, visibilityList, excludeComments, filters)
    }
  }

  // ----- The query

  function OptionalInt(o: Option<int>): Option<Value> { if o.Some? then Some(IntV(o.value)) else None }

  function OptionalText(o: Option<string>): Option<Value> { if o.Some? then Some(StrV(o.value)) else None }

  function OptionalStatus(o: Option<RowStatus>): Option<Value> {
    if o.Some? then Some(StrV(StatusText(o.value))) else None
  }

  function Ints(xs: seq<int>): seq<Value> { seq(|xs|, i requires 0 <= i < |xs| => IntV(xs[i])) }

  function Texts(xs: seq<string>): seq<Value> { seq(|xs|, i requires 0 <= i < |xs| => StrV(xs[i])) }

  function VisibilityTexts(xs: seq<Visibility>): seq<Value> {
    seq(|xs|, i requires 0 <= i < |xs| => StrV(VisibilityText(xs[i])))
  }

  function Compared(column: string, v: Option<Value>): seq<Sql<Value>> {
    if v.Some? then [Atom(ColumnCompare(column, Eq), [v.value])] else []
  }

  function Listed(column: string, vs: seq<Value>): seq<Sql<Value>> {
    if vs != [] then [Atom(ColumnIn(column), vs)] else []
  }

  /** The criteria in the drivers' order. */
  function OwnAtoms(c: Criteria): seq<Sql<Value>> {
    Compared("id", OptionalInt(c.id)) + Listed("id", Ints(c.idList)) +
    Compared("uid", OptionalText(c.uid)) + Listed("uid", Texts(c.uidList)) +
    Compared("creator_id", OptionalInt(c.creatorID)) + Compared("row_status", OptionalStatus(c.rowStatus)) +
    Listed("visibility", VisibilityTexts(c.visibilityList))
  }

  function NoParent(excludeComments: bool): seq<Sql<Value>> {
    if excludeComments then [Atom(ColumnIsNull("parent_uid"), [])] else []
  }

  /** MySQL asks for the missing parent in a HAVING clause, the others behind the other criteria. */
  function WhereAtoms(d: Dialect, c: Criteria): seq<Sql<Value>> {
    OwnAtoms(c) + NoParent(c.excludeComments && !d.MySQL?)
  }

  function HavingAtoms(d: Dialect, c: Criteria): seq<Sql<Value>> { NoParent(c.excludeComments && d.MySQL?) }

  /** The texts of the two clauses and the arguments; a missing HAVING is as good as `1 = 1`. */
  datatype Query = Query(where: Text, having: Text, args: seq<Value>)

  function QueryOf(schema: Schema, d: Dialect, c: Criteria): Result<Query> {
    match AddedBy(schema, d, c.filters, 0)
    case Err => Err
    case Ok(added) =>
      var atoms := WhereAtoms(d, c);
      Ok(Query(WhereText(added.parts, NumberingAll(atoms, d, |added.args|)),
               WhereText([], NumberingAll(HavingAtoms(d, c), d, 0)),
               added.args + ParamsOfAll(atoms)))
  }

  // ----- Building it

  /** The clause and its arguments grew by the given conditions. */
  ghost predicate Grown(d: Dialect, where: seq<Text>, args: seq<Value>, atoms: seq<Sql<Value>>, where': seq<Text>,
                        args': seq<Value>) {
    where' == where + PrintEach(NumberingAll(atoms, d, |args|)) && args' == args + ParamsOfAll(atoms)
  }

  lemma {:induction false} ParamsOfSum<P>(a: seq<Sql<P>>, b: seq<Sql<P>>)
    ensures ParamsOfAll(a + b) == ParamsOfAll(a) + ParamsOfAll(b)
  {
    if a == [] {
      assert a + b == b;
    } else {
      assert (a + b)[1..] == a[1..] + b;
      ParamsOfSum(a[1..], b);
    }
  }

  lemma {:induction false} NumberingOfSum(a: seq<Sql<Value>>, b: seq<Sql<Value>>, d: Dialect, n: nat)
    ensures NumberingAll(a + b, d, n) == NumberingAll(a, d, n) + NumberingAll(b, d, n + |ParamsOfAll(a)|)
  {
    hide Numbering, Params;
    if a == [] {
      assert a + b == b;
    } else {
      var k := n + |Params(a[0])|;
      assert (a + b)[1..] == a[1..] + b && (a + b)[0] == a[0];
      NumberingOfSum(a[1..], b, d, k);
      assert n + |ParamsOfAll(a)| == k + |ParamsOfAll(a[1..])|;
      assert NumberingAll(a, d, n) == [Numbering(a[0], d, n)] + NumberingAll(a[1..], d, k);
      assert NumberingAll(a + b, d, n) == [Numbering(a[0], d, n)] + NumberingAll(a[1..] + b, d, k) by {
        hide ParamsOfAll;
      }
    }
  }

  lemma GrownTwice(d: Dialect, w0: seq<Text>, a0: seq<Value>, s: seq<Sql<Value>>, w1: seq<Text>, a1: seq<Value>,
                   t: seq<Sql<Value>>,
                   w2: seq<Text>, a2: seq<Value>)
    requires Grown(d, w0, a0, s, w1, a1) && Grown(d, w1, a1, t, w2, a2)
    ensures Grown(d, w0, a0, s + t, w2, a2)
  {
    hide NumberingAll, ParamsOfAll, Print;
    NumberingOfSum(s, t, d, |a0|);
    ParamsOfSum(s, t);
    var x, y := NumberingAll(s, d, |a0|), NumberingAll(t, d, |a1|);
    assert PrintEach(x + y) == PrintEach(x) + PrintEach(y);
  }

  lemma GrownByOne(d: Dialect, where: seq<Text>, args: seq<Value>, kind: AtomKind, params: seq<Value>)
    ensures Grown(d, where, args, [Atom(kind, params)], where + [[Word(kind, PlaceholdersFrom(d, |args|, |params|))]],
                  args + params)
    ensures Grown(d, where, args, [], where, args)
  {
    var atom: Sql<Value> := Atom(kind, params);
    assert [atom][1..] == [] && ParamsOfAll([atom]) == params + [] == params;
    assert NumberingAll([atom], d, |args|) == [Numbering(atom, d, |args|)] + [];
    assert PrintEach([Numbering(atom, d, |args|)]) == [[Word(kind, PlaceholdersFrom(d, |args|, |params|))]];
  }

  method AppendEqual(d: Dialect, column: string, v: Option<Value>, where: seq<Text>, args: seq<Value>)
    returns (where': seq<Text>, args': seq<Value>)
    ensures Grown(d, where, args, Compared(column, v), where', args')
  {
    where', args' := where, args;
    GrownByOne(d, where, args, ColumnCompare(column, Eq), if v.Some? then [v.value] else []);
    if v.Some? {
      assert PlaceholdersFrom(d, |args|, 1) == [PlaceholderFor(d, |args|)];
      where', args' := where + [[Word(ColumnCompare(column, Eq), [PlaceholderFor(d, |args|)])]], args + [v.value];
    }
  }

  method AppendIn(d: Dialect, column: string, values: seq<Value>, where: seq<Text>, args: seq<Value>)
    returns (where': seq<Text>, args': seq<Value>)
    ensures Grown(d, where, args, Listed(column, values), where', args')
  {
    where', args' := where, args;
    GrownByOne(d, where, args, ColumnIn(column), values);
    if values == [] { return; }
    var holders: seq<Placeholder> := [];
    for i := 0 to |values|
      invariant holders == PlaceholdersFrom(d, |args|, i) && args' == args + values[..i]
    {
      holders := holders + [PlaceholderFor(d, |args'|)];
      args' := args' + [values[i]];
      assert values[..i] + [values[i]] == values[..i + 1];
    }
    assert values[..|values|] == values;
    where' := where + [[Word(ColumnIn(column), holders)]];
  }

  method AppendNoParent(d: Dialect, excludeComments: bool, where: seq<Text>, args: seq<Value>)
    returns (where': seq<Text>)
    ensures Grown(d, where, args, NoParent(excludeComments), where', args)
  {
    where' := where;
    GrownByOne(d, where, args, ColumnIsNull("parent_uid"), []);
    if excludeComments {
      where' := where + [[Word(ColumnIsNull("parent_uid"), [])]];
      assert args + [] == args && PlaceholdersFrom(d, |args|, 0) == [];
    }
  }

  /** The criteria besides the filters, one after the other. */
  method AppendCriteria(d: Dialect, find: FindMemo, where0: seq<Text>, args0: seq<Value>)
    returns (where: seq<Text>, args: seq<Value>)
    ensures Grown(d, where0, args0, OwnAtoms(find.Current()), where, args)
  {
    hide Grown, Compared, Listed;
    var w1, a1 := AppendEqual(d, "id", OptionalInt(find.id), where0, args0);
    var w2, a2 := AppendIn(d, "id", Ints(find.idList), w1, a1);
    GrownTwice(d, where0, args0, Compared("id", OptionalInt(find.id)), w1, a1, Listed("id", Ints(find.idList)), w2, a2);
    ghost var done := Compared("id", OptionalInt(find.id)) + Listed("id", Ints(find.idList));
    var w3, a3 := AppendEqual(d, "uid", OptionalText(find.uid), w2, a2);
    GrownTwice(d, where0, args0, done, w2, a2, Compared("uid", OptionalText(find.uid)), w3, a3);
    done := done + Compared("uid", OptionalText(find.uid));
    var w4, a4 := AppendIn(d, "uid", Texts(find.uidList), w3, a3);
    GrownTwice(d, where0, args0, done, w3, a3, Listed("uid", Texts(find.uidList)), w4, a4);
    done := done + Listed("uid", Texts(find.uidList));
    var w5, a5 := AppendEqual(d, "creator_id", OptionalInt(find.creatorID), w4, a4);
    GrownTwice(d, where0, args0, done, w4, a4, Compared("creator_id", OptionalInt(find.creatorID)), w5, a5);
    done := done + Compared("creator_id", OptionalInt(find.creatorID));
    var w6, a6 := AppendEqual(d, "row_status", OptionalStatus(find.rowStatus), w5, a5);
    GrownTwice(d, where0, args0, done, w5, a5, Compared("row_status", OptionalStatus(find.rowStatus)), w6, a6);
    done := done + Compared("row_status", OptionalStatus(find.rowStatus));
    where, args := AppendIn(d, "visibility", VisibilityTexts(find.visibilityList), w6, a6);
    GrownTwice(d, where0, args0, done, w6, a6, Listed("visibility", VisibilityTexts(find.visibilityList)), where, args);
  }

  /** The query a driver sends for a listing. */
  method BuildQuery(schema: Schema, d: Dialect, find: FindMemo) returns (r: Result<Query>)
    ensures r == QueryOf(schema, d, find.Current())
  {
    hide AddedBy, OwnAtoms, NumberingAll, ParamsOfAll, JoinTexts, BracketEach;
    var one: Text := [Word(OneEqualsOne, [])];
    var ok, where, args := AppendConditions(schema, d, find.filters, [one], []);
    if !ok { return Err; }
    ghost var c, added := find.Current(), AddedBy(schema, d, find.filters, 0).value;
    assert args == added.args && where == [one] + BracketEach(added.parts);
    var where1, args1 := AppendCriteria(d, find, where, args);
    var where2 := AppendNoParent(d, find.excludeComments && !d.MySQL?, where1, args1);
    GrownTwice(d, where, args, OwnAtoms(c), where1, args1, NoParent(find.excludeComments && !d.MySQL?), where2, args1);
    var having := AppendNoParent(d, find.excludeComments && d.MySQL?, [one], []);
    NoBrackets();
    assert [one] + BracketEach([]) == [one];
    r := Ok(Query(JoinTexts(where2, AndWord), JoinTexts(having, AndWord), args1));
  }

  lemma NoBrackets()
    ensures BracketEach([]) == []
  {
  }

  // ----- What the query selects

  /** A schema in a dialect, with the folding of its text search. */
  datatype Place = Place(schema: Schema, d: Dialect, fold: CharFold)

  /**
   Arguments go to the placeholders by number in PostgreSQL and in text order elsewhere, where a surplus is ignored.
   */
  function Bound(d: Dialect, s: Sql<Placeholder>, args: seq<Value>): Option<Sql<Value>> {
    if d.Postgres? then Some(BindNumbered(s, args))
    else if |Params(s)| <= |args| then Some(Fill(s, args[..|Params(s)|]))
    else None
  }

  /** The text is a condition that is true of the row with these arguments. */
  predicate TextHolds(p: Place, row: Row, text: Text, args: seq<Value>) {
    var s := Parse(text);
    s.Some? && Bound(p.d, s.value, args).Some? &&
      Eval(Meaning(p.d, p.fold, row), Bound(p.d, s.value, args).value) == True
  }

  /** The memos a listing returns: those of which the texts of its query, parsed and bound, are true. */
  predicate Selected(p: Place, c: Criteria, memo: Memo) {
    match QueryOf(p.schema, p.d, c)
    case Err => false
    case Ok(q) => TextHolds(p, memo.row, q.where, q.args) && TextHolds(p, memo.row, q.having, [])
  }

  /** The memos it should return. */
  predicate Wanted(p: Place, c: Criteria, memo: Memo) {
    EvalFilters(Meaning(p.d, p.fold, memo.row), p.schema, p.d, c.filters) == True && Meets(c, memo)
  }

  // ----- Binding a clause of two groups

  lemma {:induction false} BindSum(a: seq<Sql<Placeholder>>, b: seq<Sql<Placeholder>>, args: seq<Value>)
    ensures BindNumberedAll(a + b, args) == BindNumberedAll(a, args) + BindNumberedAll(b, args)
  {
    if a == [] {
      assert a + b == b;
    } else {
      assert (a + b)[1..] == a[1..] + b;
      BindSum(a[1..], b, args);
    }
  }

  lemma FillOfHead(es: seq<Sql<Placeholder>>, args: seq<Value>)
    requires es != [] && |args| == |ParamsOfAll(es)|
    ensures var n := |Params(es[0])|;
            n <= |args| && |args[n..]| == |ParamsOfAll(es[1..])| &&
            FillAll(es, args) == [Fill(es[0], args[..n])] + FillAll(es[1..], args[n..])
  {
  }

  lemma FillOfNone()
    ensures |ParamsOfAll<Placeholder>([])| == 0 && FillAll([], []) == []
  {
  }

  lemma {:induction false} FillSum(a: seq<Sql<Placeholder>>, b: seq<Sql<Placeholder>>, x: seq<Value>, y: seq<Value>)
    requires |x| == |ParamsOfAll(a)| && |y| == |ParamsOfAll(b)|
    ensures |x + y| == |ParamsOfAll(a + b)| && FillAll(a + b, x + y) == FillAll(a, x) + FillAll(b, y)
  {
    hide Fill, Params, FillAll, ParamsOfAll;
    ParamsOfSum(a, b);
    FillOfNone();
    if a == [] {
      assert a + b == b && x + y == y && x == [];
    } else {
      var n := |Params(a[0])|;
      FillOfHead(a, x);
      FillOfHead(a + b, x + y);
      assert (a + b)[0] == a[0] && (a + b)[1..] == a[1..] + b;
      assert (x + y)[..n] == x[..n] && (x + y)[n..] == x[n..] + y;
      FillSum(a[1..], b, x[n..], y);
    }
  }

  lemma {:induction false} EvalSum(m: AtomMeaning, a: seq<Sql<Value>>, b: seq<Sql<Value>>)
    ensures EvalConj(m, a + b) == KAnd(EvalConj(m, a), EvalConj(m, b))
  {
    hide Eval;
    if a == [] {
      assert a + b == b;
    } else {
      assert (a + b)[1..] == a[1..] + b;
      EvalSum(m, a[1..], b);
    }
  }

  // ----- The leading `1 = 1`

  /** The leading `1 = 1` adds nothing. */
  lemma LeadingTrue(m: AtomMeaning, parts: seq<Sql<Value>>)
    requires m(OneEqualsOne, []) == True
    ensures Eval(m, ClauseOf(parts)) == EvalConj(m, parts)
  {
    var one: Sql<Value> := Atom(OneEqualsOne, []);
    assert ([one] + parts)[1..] == parts;
    assert EvalConj(m, [one] + parts) == KAnd(Eval(m, one), EvalConj(m, parts));
  }

  lemma ConstantAtoms(d: Dialect, fold: CharFold, row: Row)
    ensures Meaning(d, fold, row)(OneEqualsZero, []) == False && Meaning(d, fold, row)(OneEqualsOne, []) == True
  {
  }

  lemma BindLeadingTrue(parts: seq<Sql<Placeholder>>, args: seq<Value>)
    ensures BindNumbered(ClauseOf(parts), args) == ClauseOf(BindNumberedAll(parts, args))
  {
    var one: Sql<Placeholder> := Atom(OneEqualsOne, []);
    assert ([one] + parts)[1..] == parts;
    assert BindNumbered(one, args) == Atom(OneEqualsOne, []) by {
      assert BindNumbered(one, args).params == [];
    }
  }

  lemma ParamsWithLeadingTrue(parts: seq<Sql<Placeholder>>)
    ensures Params(ClauseOf(parts)) == ParamsOfAll(parts)
  {
    var one: Sql<Placeholder> := Atom(OneEqualsOne, []);
    assert ([one] + parts)[1..] == parts;
    assert ParamsOfAll([one] + parts) == [] + ParamsOfAll(parts) == ParamsOfAll(parts);
  }

  lemma FillLeadingTrue(parts: seq<Sql<Placeholder>>, args: seq<Value>)
    requires |args| == |ParamsOfAll(parts)|
    ensures |args| == |Params(ClauseOf(parts))|
    ensures Fill(ClauseOf(parts), args) == ClauseOf(FillAll(parts, args))
  {
    ParamsWithLeadingTrue(parts);
    var one: Sql<Placeholder> := Atom(OneEqualsOne, []);
    assert ([one] + parts)[1..] == parts;
    assert args[..0] == [] && args[0..] == args;
    assert FillAll([one] + parts, args) == [Fill(one, [])] + FillAll(parts, args);
  }

  // ----- Which texts hold

  ghost predicate AtomsOnly(atoms: seq<Sql<Value>>) { forall a :: a in atoms ==> a.Atom? }

  lemma {:induction false} NumberedAtomsAreWellFormed(atoms: seq<Sql<Value>>, d: Dialect, n: nat)
    requires AtomsOnly(atoms)
    ensures forall a :: a in NumberingAll(atoms, d, n) ==> WellFormed(a)
  {
    NumberingAllIsWellFormed(atoms, d, n);
  }

  /** The clause of parts with their arguments, and of atoms with theirs behind them. */
  function ClauseText(d: Dialect, parts: seq<Sql<Placeholder>>, args: seq<Value>, atoms: seq<Sql<Value>>): Text {
    WhereText(parts, NumberingAll(atoms, d, |args|))
  }

  lemma ClauseReads(d: Dialect, parts: seq<Sql<Placeholder>>, args: seq<Value>, atoms: seq<Sql<Value>>)
    requires AtomsOnly(atoms) && forall s :: s in parts ==> WellFormed(s)
    ensures Parse(ClauseText(d, parts, args, atoms)) == Some(ClauseOf(parts + NumberingAll(atoms, d, |args|)))
  {
    hide Parse, WhereText, ClauseOf, NumberingAll, AtomsOnly, WellFormed;
    NumberedAtomsAreWellFormed(atoms, d, |args|);
    WhereTextMeansConjunction(parts, NumberingAll(atoms, d, |args|));
  }

  lemma NumberedClauseHolds(p: Place, row: Row, parts: seq<Sql<Placeholder>>, args: seq<Value>, atoms: seq<Sql<Value>>)
    requires p.d.Postgres? && AtomsOnly(atoms) && forall s :: s in parts ==> WellFormed(s)
    ensures var m, all := Meaning(p.d, p.fold, row), args + ParamsOfAll(atoms);
            TextHolds(p, row, ClauseText(p.d, parts, args, atoms), all) <==>
            EvalConj(m, BindNumberedAll(parts, all)) == True && EvalConj(m, atoms) == True
  {
    hide Parse, ClauseText, ClauseOf, Eval, EvalConj, NumberingAll, BindNumbered, BindNumberedAll, AtomsOnly,
         WellFormed, AtomValue, ParamsOfAll;
    var m, all, plain := Meaning(p.d, p.fold, row), args + ParamsOfAll(atoms), NumberingAll(atoms, p.d, |args|);
    ConstantAtoms(p.d, p.fold, row);
    ClauseReads(p.d, parts, args, atoms);
    BindLeadingTrue(parts + plain, all);
    BindSum(parts, plain, all);
    assert all[|args|..|args| + |ParamsOfAll(atoms)|] == ParamsOfAll(atoms);
    NumberedBindsBackAll(atoms, all, |args|);
    LeadingTrue(m, BindNumberedAll(parts, all) + atoms);
    EvalSum(m, BindNumberedAll(parts, all), atoms);
  }

  lemma PositionalClauseHolds(p: Place, row: Row, parts: seq<Sql<Placeholder>>, args: seq<Value>,
                              atoms: seq<Sql<Value>>)
    requires !p.d.Postgres? && AtomsOnly(atoms) && (forall s :: s in parts ==> WellFormed(s)) &&
             |args| == |ParamsOfAll(parts)|
    ensures var m := Meaning(p.d, p.fold, row);
            TextHolds(p, row, ClauseText(p.d, parts, args, atoms), args + ParamsOfAll(atoms)) <==>
            EvalConj(m, FillAll(parts, args)) == True && EvalConj(m, atoms) == True
  {
    hide Parse, ClauseText, ClauseOf, Eval, EvalConj, NumberingAll, Fill, FillAll, AtomsOnly, WellFormed, AtomValue,
         ParamsOfAll, Params;
    var m, all, plain := Meaning(p.d, p.fold, row), args + ParamsOfAll(atoms), NumberingAll(atoms, p.d, |args|);
    ConstantAtoms(p.d, p.fold, row);
    ClauseReads(p.d, parts, args, atoms);
    FillsBackAll(atoms, p.d, |args|);
    FillSum(parts, plain, args, ParamsOfAll(atoms));
    FillLeadingTrue(parts + plain, all);
    assert all[..|all|] == all;
    LeadingTrue(m, FillAll(parts, args) + atoms);
    EvalSum(m, FillAll(parts, args), atoms);
  }

  /** A clause without filters: what it says is the conjunction of its conditions. */
  lemma OwnClauseHolds(p: Place, row: Row, atoms: seq<Sql<Value>>)
    requires AtomsOnly(atoms) && ParamsOfAll(atoms) == []
    ensures TextHolds(p, row, ClauseText(p.d, [], [], atoms), []) <==>
              EvalConj(Meaning(p.d, p.fold, row), atoms) == True
  {
    hide ClauseText, AtomValue, TextHolds, AtomsOnly;
    assert [] + ParamsOfAll(atoms) == [];
    if p.d.Postgres? {
      NumberedClauseHolds(p, row, [], [], atoms);
    } else {
      PositionalClauseHolds(p, row, [], [], atoms);
    }
  }

  // ----- What the criteria mean

  lemma ComparedMeans(p: Place, row: Row, column: string, v: Option<Value>)
    requires v.Some? ==> (v.value.IntV? && ColumnValue(row, column).IntV?) ||
                         (v.value.StrV? && ColumnValue(row, column).StrV?)
    ensures EvalConj(Meaning(p.d, p.fold, row), Compared(column, v)) == True <==>
              (v.Some? ==> ColumnValue(row, column) == v.value)
  {
    hide Less;
    if v.Some? { EvalOne(Meaning(p.d, p.fold, row), ColumnCompare(column, Eq), [v.value]); }
  }

  lemma EvalOne(m: AtomMeaning, kind: AtomKind, params: seq<Value>)
    ensures EvalConj(m, [Atom(kind, params)]) == KAnd(m(kind, params), True)
  {
    var atom: Sql<Value> := Atom(kind, params);
    assert [atom][1..] == [];
  }

  lemma {:induction false} CompareAnyIsMember(v: Value, vs: seq<Value>)
    requires (v.IntV? && forall x :: x in vs ==> x.IntV?) || (v.StrV? && forall x :: x in vs ==> x.StrV?)
    ensures CompareAny(v, vs) == Known(v in vs)
  {
    hide Less;
    if vs == [] {
    } else {
      CompareAnyIsMember(v, vs[1..]);
      assert v in vs <==> v == vs[0] || v in vs[1..];
    }
  }

  lemma ListedMeans(p: Place, row: Row, column: string, vs: seq<Value>)
    requires var v := ColumnValue(row, column);
             (v.IntV? && forall x :: x in vs ==> x.IntV?) || (v.StrV? && forall x :: x in vs ==> x.StrV?)
    ensures EvalConj(Meaning(p.d, p.fold, row), Listed(column, vs)) == True <==>
              (vs != [] ==> ColumnValue(row, column) in vs)
  {
    if vs != [] {
      EvalOne(Meaning(p.d, p.fold, row), ColumnIn(column), vs);
      CompareAnyIsMember(ColumnValue(row, column), vs);
    }
  }

  lemma ListsHold(c: Criteria, memo: Memo)
    ensures IntV(memo.id) in Ints(c.idList) <==> memo.id in c.idList
    ensures StrV(memo.uid) in Texts(c.uidList) <==> memo.uid in c.uidList
    ensures StrV(VisibilityText(memo.visibility)) in VisibilityTexts(c.visibilityList) <==>
              memo.visibility in c.visibilityList
  {
    IntsHold(c.idList, memo.id);
    TextsHold(c.uidList, memo.uid);
    VisibilitiesHold(c.visibilityList, memo.visibility);
  }

  lemma IntsHold(xs: seq<int>, x: int)
    ensures IntV(x) in Ints(xs) <==> x in xs
  {
    if x in xs {
      var i :| 0 <= i < |xs| && xs[i] == x;
      assert Ints(xs)[i] == IntV(x);
    }
  }

  lemma TextsHold(xs: seq<string>, x: string)
    ensures StrV(x) in Texts(xs) <==> x in xs
  {
    if x in xs {
      var i :| 0 <= i < |xs| && xs[i] == x;
      assert Texts(xs)[i] == StrV(x);
    }
  }

  lemma VisibilitiesHold(xs: seq<Visibility>, x: Visibility)
    ensures StrV(VisibilityText(x)) in VisibilityTexts(xs) <==> x in xs
  {
    TextsDiffer();
    if x in xs {
      var i :| 0 <= i < |xs| && xs[i] == x;
      assert VisibilityTexts(xs)[i] == StrV(VisibilityText(x));
    }
  }

  lemma NoParentMeans(p: Place, row: Row, excludeComments: bool)
    ensures EvalConj(Meaning(p.d, p.fold, row), NoParent(excludeComments)) == True <==>
            (excludeComments ==> ColumnValue(row, "parent_uid").Null?)
  {
    if excludeComments { EvalOne(Meaning(p.d, p.fold, row), ColumnIsNull("parent_uid"), []); }
  }

  /** The atoms of the criteria are true exactly of the memos that meet the criteria. */
  lemma OwnAtomsMean(p: Place, c: Criteria, memo: Memo)
    requires memo.Valid()
    ensures EvalConj(Meaning(p.d, p.fold, memo.row), OwnAtoms(c)) == True <==> Meets(c.(excludeComments := false), memo)
  {
    hide EvalConj, AtomValue, Compared, Listed, Ints, Texts, VisibilityTexts, VisibilityText;
    var m := Meaning(p.d, p.fold, memo.row);
    var a, b := Compared("id", OptionalInt(c.id)), Listed("id", Ints(c.idList));
    var e, f := Compared("uid", OptionalText(c.uid)), Listed("uid", Texts(c.uidList));
    var g, h := Compared("creator_id", OptionalInt(c.creatorID)), Compared("row_status", OptionalStatus(c.rowStatus));
    var i := Listed("visibility", VisibilityTexts(c.visibilityList));
    EvalSum(m, a, b);
    EvalSum(m, a + b, e);
    EvalSum(m, a + b + e, f);
    EvalSum(m, a + b + e + f, g);
    EvalSum(m, a + b + e + f + g, h);
    EvalSum(m, a + b + e + f + g + h, i);
    OwnPiecesMean(p, c, memo);
    TextsDiffer();
    ListsHold(c, memo);
    assert |Ints(c.idList)| == |c.idList| && |Texts(c.uidList)| == |c.uidList| &&
           |VisibilityTexts(c.visibilityList)| == |c.visibilityList| by {
      ListsKeepLength(c);
    }
  }

  lemma ListsKeepLength(c: Criteria)
    ensures |Ints(c.idList)| == |c.idList| && |Texts(c.uidList)| == |c.uidList|
    ensures |VisibilityTexts(c.visibilityList)| == |c.visibilityList|
  {
  }

  lemma OwnPiecesMean(p: Place, c: Criteria, memo: Memo)
    requires memo.Valid()
    ensures var m := Meaning(p.d, p.fold, memo.row);
            && (EvalConj(m, Compared("id", OptionalInt(c.id))) == True <==> (c.id.Some? ==> memo.id == c.id.value))
            && (EvalConj(m, Listed("id", Ints(c.idList))) == True <==>
                (Ints(c.idList) != [] ==> IntV(memo.id) in Ints(c.idList)))
            && (EvalConj(m, Compared("uid", OptionalText(c.uid))) == True <==>
                (c.uid.Some? ==> memo.uid == c.uid.value))
            && (EvalConj(m, Listed("uid", Texts(c.uidList))) == True <==>
                (Texts(c.uidList) != [] ==> StrV(memo.uid) in Texts(c.uidList)))
            && (EvalConj(m, Compared("creator_id", OptionalInt(c.creatorID))) == True <==>
                (c.creatorID.Some? ==> memo.creatorID == c.creatorID.value))
            && (EvalConj(m, Compared("row_status", OptionalStatus(c.rowStatus))) == True <==>
                (c.rowStatus.Some? ==> memo.rowStatus == c.rowStatus.value))
            && (EvalConj(m, Listed("visibility", VisibilityTexts(c.visibilityList))) == True <==>
                (VisibilityTexts(c.visibilityList) != [] ==>
                   StrV(VisibilityText(memo.visibility)) in VisibilityTexts(c.visibilityList)))
  {
    hide EvalConj, AtomValue, Compared, Listed, VisibilityText;
    ComparedMeans(p, memo.row, "id", OptionalInt(c.id));
    ListedMeans(p, memo.row, "id", Ints(c.idList));
    ComparedMeans(p, memo.row, "uid", OptionalText(c.uid));
    ListedMeans(p, memo.row, "uid", Texts(c.uidList));
    ComparedMeans(p, memo.row, "creator_id", OptionalInt(c.creatorID));
    ComparedMeans(p, memo.row, "row_status", OptionalStatus(c.rowStatus));
    ListedMeans(p, memo.row, "visibility", VisibilityTexts(c.visibilityList));
    TextsDiffer();
  }

  // ----- The listing returns what it should

  /** Every filter reaches the clause in a form whose text can be read back. */
  ghost predicate Readable(p: Place, c: Criteria) {
    (forall f :: f in c.filters ==> NonEmptyLists(f)) && AddedBy(p.schema, p.d, c.filters, 0).Ok?
  }

  /** Binding puts every argument where it belongs: always by number, in text order if the filters are clean. */
  predicate BindsRight(p: Place, c: Criteria) { p.d.Postgres? || CleanFilters(p.schema, p.d, c.filters) }

  lemma WhereHolds(p: Place, c: Criteria, row: Row)
    requires Readable(p, c) && BindsRight(p, c)
    ensures var q, m := QueryOf(p.schema, p.d, c).value, Meaning(p.d, p.fold, row);
            TextHolds(p, row, q.where, q.args) <==>
            EvalFilters(m, p.schema, p.d, c.filters) == True && EvalConj(m, WhereAtoms(p.d, c)) == True
  {
    hide AddedBy, TextHolds, EvalFilters, EvalConj, AtomValue, CleanFilters, NonEmptyLists, WhereAtoms, NumberingAll,
         ParamsOfAll, WhereText, AtomsOnly;
    var added, m, atoms := AddedBy(p.schema, p.d, c.filters, 0).value, Meaning(p.d, p.fold, row), WhereAtoms(p.d, c);
    ConstantAtoms(p.d, p.fold, row);
    PartsAreWellFormed(p.schema, p.d, c.filters, 0);
    OwnAtomsAreAtoms(p.d, c);
    if p.d.Postgres? {
      var all := added.args + ParamsOfAll(atoms);
      assert all[0..0 + |added.args|] == added.args;
      NumberedWhere(m, p.schema, c.filters, 0, all);
      NumberedClauseHolds(p, row, added.parts, added.args, atoms);
    } else {
      PositionalWhere(m, p.schema, p.d, c.filters, 0);
      PositionalClauseHolds(p, row, added.parts, added.args, atoms);
    }
  }

  lemma OwnAtomsAreAtoms(d: Dialect, c: Criteria)
    ensures AtomsOnly(WhereAtoms(d, c)) && AtomsOnly(HavingAtoms(d, c)) && ParamsOfAll(HavingAtoms(d, c)) == []
  {
    hide Ints, Texts, VisibilityTexts, Compared, Listed, NoParent, ParamsOfAll;
    forall column, v ensures AtomsOnly(Compared(column, v)) { PiecesAreAtoms(column, v, []); }
    forall column, vs ensures AtomsOnly(Listed(column, vs)) { PiecesAreAtoms(column, None, vs); }
    NoParentIsAtom(c.excludeComments && !d.MySQL?);
    NoParentIsAtom(c.excludeComments && d.MySQL?);
  }

  lemma PiecesAreAtoms(column: string, v: Option<Value>, vs: seq<Value>)
    ensures AtomsOnly(Compared(column, v)) && AtomsOnly(Listed(column, vs))
  {
  }

  lemma NoParentIsAtom(excludeComments: bool)
    ensures AtomsOnly(NoParent(excludeComments)) && ParamsOfAll(NoParent(excludeComments)) == []
  {
    var none: Sql<Value> := Atom(ColumnIsNull("parent_uid"), []);
    assert [none][1..] == [] && ParamsOfAll([none]) == [] + [];
  }

  /**
   The query of a listing, as text, read by the grammar of SQL and bound to its arguments, selects exactly the memos
   that meet the criteria and of which every filter is true.
   */
  lemma QueryIsExact(p: Place, c: Criteria, memo: Memo)
    requires memo.Valid() && Readable(p, c) && BindsRight(p, c)
    ensures Selected(p, c, memo) <==> Wanted(p, c, memo)
  {
    hide AddedBy, TextHolds, EvalFilters, EvalConj, AtomValue, CleanFilters, NonEmptyLists, OwnAtoms, NumberingAll,
         ParamsOfAll, WhereText, AtomsOnly, NoParent;
    var m := Meaning(p.d, p.fold, memo.row);
    WhereHolds(p, c, memo.row);
    OwnAtomsAreAtoms(p.d, c);
    OwnClauseHolds(p, memo.row, HavingAtoms(p.d, c));
    EvalSum(m, OwnAtoms(c), NoParent(c.excludeComments && !p.d.MySQL?));
    OwnAtomsMean(p, c, memo);
    NoParentMeans(p, memo.row, c.excludeComments && !p.d.MySQL?);
    NoParentMeans(p, memo.row, c.excludeComments && p.d.MySQL?);
  }

  /** In text order there are as many placeholders as arguments if and only if the filters are clean. */
  lemma CountsMatchIffClean(p: Place, c: Criteria)
    requires Readable(p, c)
    ensures var q := QueryOf(p.schema, p.d, c).value;
            Parse(q.where).Some? && (|Params(Parse(q.where).value)| == |q.args| <==>
                                     CleanFilters(p.schema, p.d, c.filters))
  {
    hide AddedBy, Parse, ClauseOf, CleanFilters, NonEmptyLists, WhereAtoms, NumberingAll, ParamsOfAll, WhereText,
         AtomsOnly, Params;
    var added, atoms := AddedBy(p.schema, p.d, c.filters, 0).value, WhereAtoms(p.d, c);
    var m: AtomMeaning := (kind, _) => if kind == OneEqualsZero then False else True;
    PartsAreWellFormed(p.schema, p.d, c.filters, 0);
    OwnAtomsAreAtoms(p.d, c);
    ClauseReads(p.d, added.parts, added.args, atoms);
    PositionalWhere(m, p.schema, p.d, c.filters, 0);
    FillsBackAll(atoms, p.d, |added.args|);
    ParamsOfSum(added.parts, NumberingAll(atoms, p.d, |added.args|));
    ParamsWithLeadingTrue(added.parts + NumberingAll(atoms, p.d, |added.args|));
  }

  // ----- A swallowed argument

  /** Only filters and a row status. */
  function StatusAndFilters(rowStatus: Option<RowStatus>, filters: seq<Condition>): Criteria {
    Criteria(None, [], None, [], None, rowStatus, [], false, filters)
  }

  lemma SurplusIsIgnored(p: Place, row: Row, text: Text, args: seq<Value>, more: seq<Value>)
    requires !p.d.Postgres? && Parse(text).Some? && |Params(Parse(text).value)| == |args|
    ensures TextHolds(p, row, text, args + more) <==> TextHolds(p, row, text, args)
  {
    assert (args + more)[..|args|] == args && args[..|args|] == args;
  }

  /** The atoms of a query for one row status. */
  lemma StatusAtoms(p: Place, rowStatus: RowStatus, filters: seq<Condition>)
    ensures WhereAtoms(p.d, StatusAndFilters(Some(rowStatus), filters)) == [StatusAtom(StatusText(rowStatus))]
    ensures HavingAtoms(p.d, StatusAndFilters(Some(rowStatus), filters)) == []
  {
    assert Ints([]) == [] && Texts([]) == [] && VisibilityTexts([]) == [];
  }

  function StatusAtom(text: string): Sql<Value> { Atom(ColumnCompare("row_status", Eq), [StrV(text)]) }

  function ContentPart(): Sql<Placeholder> { Atom(ColumnCompare("content", Eq), [Positional]) }

  lemma NumberingOfStatus(d: Dialect, text: string, n: nat)
    requires !d.Postgres?
    ensures NumberingAll([StatusAtom(text)], d, n) == [Atom(ColumnCompare("row_status", Eq), [Positional])]
  {
    assert PlaceholdersFrom(d, n, 1) == [PlaceholderFor(d, n)];
    assert [StatusAtom(text)][1..] == [];
  }

  /** The parts of clean conditions in text order, and behind them one that compares the content. */
  function WithContentPart(d: Dialect, before: seq<Sql<Value>>): seq<Sql<Placeholder>> {
    NumberingAll(before, d, 0) + [ContentPart()]
  }

  /** In text order the same text reads whichever argument is the row status's own. */
  lemma SameText(d: Dialect, before: seq<Sql<Value>>, x: string, y: string, own: string)
    requires !d.Postgres? && forall s :: s in before ==> WellFormed(s)
    ensures var parts, args := WithContentPart(d, before), ParamsOfAll(before);
            ClauseText(d, parts, args + [StrV(x), StrV(y)], [StatusAtom(own)]) ==
              ClauseText(d, parts, args + [StrV(x)], [StatusAtom(y)])
    ensures var s := Parse(ClauseText(d, WithContentPart(d, before), ParamsOfAll(before) + [StrV(x)], [StatusAtom(y)]));
            s.Some? && |Params(s.value)| == |ParamsOfAll(before)| + 2
  {
    hide WhereText, ClauseOf, Parse, NumberingAll, ParamsOfAll, WellFormed, Params;
    var one := Atom(ColumnCompare("row_status", Eq), [Positional]);
    var parts, args := WithContentPart(d, before), ParamsOfAll(before);
    NumberingOfStatus(d, own, |args| + 2);
    NumberingOfStatus(d, y, |args| + 1);
    ContentPartsAreWellFormed(d, before);
    ClauseReads(d, parts, args + [StrV(x)], [StatusAtom(y)]);
    ParamsWithLeadingTrue(parts + [one]);
    ParamsOfSum(parts, [one]);
    ParamsOfSum(NumberingAll(before, d, 0), [ContentPart()]);
    FillsBackAll(before, d, 0);
    ParamsOfTwo(y);
    ParamsOfAtom(one.kind, one.params);
  }

  lemma ContentPartsAreWellFormed(d: Dialect, before: seq<Sql<Value>>)
    requires forall s :: s in before ==> WellFormed(s)
    ensures forall s :: s in WithContentPart(d, before) ==> WellFormed(s)
    ensures forall text :: AtomsOnly([StatusAtom(text)])
  {
    NumberingAllIsWellFormed(before, d, 0);
  }

  lemma ParamsOfAtom<P>(kind: AtomKind, params: seq<P>)
    ensures ParamsOfAll([Atom(kind, params)]) == params
  {
    var atom: Sql<P> := Atom(kind, params);
    assert [atom][1..] == [] && ParamsOfAll([atom]) == Params(atom) + [];
  }

  /** Behind clean conditions, x and the row status are asked for, but the status is the argument y left behind. */
  lemma StatusTakesWrongArgument(p: Place, row: Row, before: seq<Sql<Value>>, x: string, y: string, own: string)
    requires !p.d.Postgres? && ColumnValue(row, "content").StrV? && ColumnValue(row, "row_status").StrV?
    requires forall s :: s in before ==> WellFormed(s)
    ensures var parts, args := WithContentPart(p.d, before), ParamsOfAll(before) + [StrV(x), StrV(y)];
            TextHolds(p, row, ClauseText(p.d, parts, args, [StatusAtom(own)]), args + [StrV(own)]) <==>
              EvalConj(Meaning(p.d, p.fold, row), before) == True &&
              ColumnValue(row, "content") == StrV(x) && ColumnValue(row, "row_status") == StrV(y)
  {
    hide ClauseText, TextHolds, Parse, Params, AtomValue, WellFormed, NumberingAll, ParamsOfAll, EvalConj, FillAll;
    var m, content := Meaning(p.d, p.fold, row), Atom(ColumnCompare("content", Eq), [StrV(x)]);
    var parts, args := WithContentPart(p.d, before), ParamsOfAll(before);
    SameText(p.d, before, x, y, own);
    SurplusIsIgnored(p, row, ClauseText(p.d, parts, args + [StrV(x)], [StatusAtom(y)]), args + [StrV(x), StrV(y)],
                     [StrV(own)]);
    ParamsOfTwo(y);
    ContentPartsAreWellFormed(p.d, before);
    FillsBackAll(before, p.d, 0);
    FillOfOne(x);
    FillSum(NumberingAll(before, p.d, 0), [ContentPart()], args, [StrV(x)]);
    PositionalClauseHolds(p, row, parts, args + [StrV(x)], [StatusAtom(y)]);
    assert args + [StrV(x)] + [StrV(y)] == args + [StrV(x), StrV(y)];
    EvalSum(m, before, [content]);
    EvalOne(m, ColumnCompare("content", Eq), [StrV(x)]);
    EvalOne(m, ColumnCompare("row_status", Eq), [StrV(y)]);
    EqualTexts(p, row, "content", x);
    EqualTexts(p, row, "row_status", y);
  }

  lemma ParamsOfTwo(y: string)
    ensures ParamsOfAll([ContentPart()]) == [Positional] && ParamsOfAll([StatusAtom(y)]) == [StrV(y)]
  {
    assert [ContentPart()][1..] == [] && [StatusAtom(y)][1..] == [];
    assert Params(ContentPart()) == [Positional] && Params(StatusAtom(y)) == [StrV(y)];
  }

  lemma FillOfOne(x: string)
    requires |ParamsOfAll([ContentPart()])| == 1
    ensures FillAll([ContentPart()], [StrV(x)]) == [Atom(ColumnCompare("content", Eq), [StrV(x)])]
  {
    assert [ContentPart()][1..] == [] && [StrV(x)][..1] == [StrV(x)] && [StrV(x)][1..] == [];
    assert FillAll([ContentPart()], [StrV(x)]) == [Fill(ContentPart(), [StrV(x)])] + FillAll([], []);
  }

  lemma EqualTexts(p: Place, row: Row, column: string, x: string)
    requires ColumnValue(row, column).StrV?
    ensures Meaning(p.d, p.fold, row)(ColumnCompare(column, Eq), [StrV(x)]) ==
              Known(ColumnValue(row, column) == StrV(x))
  {
    hide Less;
  }

  /**
   A filter that is not clean, in text order: the row status is compared with the argument the filter left behind. The
   listing of normal memos whose content is x returns the archived ones instead.
   */
  lemma SwallowedArgumentMisleads(p: Place, x: string, memo: Memo)
    requires !p.d.Postgres? && "content" in p.schema && p.schema["content"].kind == FieldKind.Scalar &&
             p.schema["content"].ty == StringType
    requires memo.Valid() && ColumnValue(memo.row, "content").StrV?
    ensures var c := StatusAndFilters(Some(Normal), [SwallowingFilter("content", x, "ARCHIVED")]);
            && Readable(p, c) && !BindsRight(p, c)
            && (Selected(p, c, memo) <==> ColumnValue(memo.row, "content") == StrV(x) && memo.rowStatus == Archived)
            && (Wanted(p, c, memo) <==> ColumnValue(memo.row, "content") == StrV(x) && memo.rowStatus == Normal)
  {
    hide AddedBy, TextHolds, EvalFilters, EvalConj, CleanFilters, NumberingAll, ParamsOfAll, WhereText, AtomsOnly,
         Parse, Params, WhereAtoms, HavingAtoms, AtomValue;
    var f := SwallowingFilter("content", x, "ARCHIVED");
    var c := StatusAndFilters(Some(Normal), [f]);
    SwallowedArgumentStays(p.schema, p.d, "content", x, "ARCHIVED", 0);
    StatusAtoms(p, Normal, [f]);
    assert NonEmptyLists(f);
    ParamsOfTwo("NORMAL");
    NothingBefore(p, memo.row);
    StatusTakesWrongArgument(p, memo.row, [], x, "ARCHIVED", "NORMAL");
    EqualTexts(p, memo.row, "content", x);
    TextsDiffer();
    NoHaving(p, memo.row);
  }

  lemma NothingBefore(p: Place, row: Row)
    ensures NumberingAll([], p.d, 0) == [] && ParamsOfAll<Value>([]) == [] &&
            EvalConj(Meaning(p.d, p.fold, row), []) == True
    ensures WithContentPart(p.d, []) == [ContentPart()]
    ensures forall args: seq<Value> :: [] + args == args
  {
  }

  lemma NoHaving(p: Place, row: Row)
    ensures TextHolds(p, row, WhereText([], NumberingAll([], p.d, 0)), [])
  {
    hide AtomValue, TextHolds, WhereText;
    OwnClauseHolds(p, row, []);
  }
}
