/** Read access to memos, checked one memo at a time and as a filter on queries (server/router/mcp/access.go). */
module Access {
  import opened Cel
  import opened FilterIr
  import opened FilterLeaves
  import opened FilterMeaning
  import opened FilterPlan
  import opened FilterWhere
  import opened Folding
  import opened MemoQuery
  import opened Selection
  import opened Sql
  import opened Wrappers

  /** May the user read the memo? User 0 is anonymous. */
  predicate CheckMemoAccess(memo: Memo, userID: int) {
    if memo.rowStatus.Archived? && memo.creatorID != userID then false
    else
      match memo.visibility
      case Protected => userID != 0
      case Private => memo.creatorID == userID
      case Public => true
  }

  /**
   The check on what the row stores: public for all, protected for users, the rest for the owner; archived likewise.
   */
  lemma AccessInStoredText(memo: Memo, userID: int)
    requires memo.Valid()
    ensures var visibility, status := ColumnValue(memo.row, "visibility"), ColumnValue(memo.row, "row_status");
            var own := ColumnValue(memo.row, "creator_id") == IntV(userID);
            CheckMemoAccess(memo, userID) <==>
            (own || visibility == StrV("PUBLIC") || (visibility == StrV("PROTECTED") && userID != 0)) &&
            (own || status != StrV("ARCHIVED"))
  {
    assert "ARCHIVED"[0] != "NORMAL"[0] && |"PUBLIC"| == 6 && |"PRIVATE"| == 7 && |"PROTECTED"| == 9;
  }

  /** The expression `creator_id == <user> || visibility in ["PUBLIC", "PROTECTED"]`. */
  function AccessExpr(userID: int): Expr {
    Call("_||_", None, [
      Call("_==_", None, [Ident("creator_id"), Expr.Const(IntC(userID))]),
      Call("@in", None,
           [Ident("visibility"), ListExpr([Expr.Const(StringC("PUBLIC")), Expr.Const(StringC("PROTECTED"))])])])
  }

  function AccessCondition(userID: int): Condition {
    Logical(LogicalOr, Comparison(FieldRef("creator_id"), Eq, Literal(IntV(userID))),
            In(FieldRef("visibility"), [Literal(StrV("PUBLIC")), Literal(StrV("PROTECTED"))]))
  }

  /** What the filter needs of the schema; the memo schema provides it. */
  predicate HasAccessFields(schema: Schema) {
    && "creator_id" in schema && schema["creator_id"] ==
         Plain("creator_id", FieldKind.Scalar, IntType).(allowedOps := EQUALITY)
    && "visibility" in schema && schema["visibility"] ==
         Plain("visibility", FieldKind.Scalar, StringType).(allowedOps := EQUALITY)
  }

  lemma MemoSchemaHasAccessFields()
    ensures HasAccessFields(MemoSchema())
  {
    hide MemoSchema;
    MemoColumnsInLiterals();
  }

  /** The filter text compiles to the access condition. */
  lemma AccessExprBuilds(schema: Schema, userID: int, now: int)
    requires HasAccessFields(schema)
    ensures BuildCondition(schema, AccessExpr(userID), now) == Ok(AccessCondition(userID))
  {
    hide EvaluateNumeric, EvaluateBool;
    var e := AccessExpr(userID);
    var es := [Expr.Const(StringC("PUBLIC")), Expr.Const(StringC("PROTECTED"))];
    assert es[1..] == [Expr.Const(StringC("PROTECTED"))] && es[1..][1..] == [];
    assert BuildValues(schema, es[1..], now) == Ok([Literal(StrV("PROTECTED"))] + []);
    assert BuildValues(schema, es, now) == Ok([Literal(StrV("PUBLIC"))] + ([Literal(StrV("PROTECTED"))] + []));
    assert [Literal(StrV("PUBLIC"))] + ([Literal(StrV("PROTECTED"))] + []) ==
             [Literal(StrV("PUBLIC")), Literal(StrV("PROTECTED"))];
    assert BuildCondition(schema, e.args[0], now) == Ok(Comparison(FieldRef("creator_id"), Eq, Literal(IntV(userID))));
    assert BuildCondition(schema, e.args[1], now) == BuildIn(schema, e.args[1].args, now);
  }

  /** The criteria after the restriction to what the user may see. */
  function Restricted(c: Criteria, userID: int, rowStatus: Option<RowStatus>): Criteria {
    if rowStatus == Some(Archived) then c.(creatorID := Some(if userID == 0 then -1 else userID))
    else if userID == 0 then c.(visibilityList := [Public])
    else c.(filters := c.filters + [AccessCondition(userID)])
  }

  // ----- What a restricted query selects

  /** The access condition on a memo's row, in SQL. */
  lemma AccessConditionMeans(p: Place, memo: Memo, userID: int)
    requires HasAccessFields(p.schema) && memo.Valid()
    ensures Translate(p.schema, p.d, AccessCondition(userID)).Ok?
    ensures EvalLogic(Meaning(p.d, p.fold, memo.row), Translate(p.schema, p.d, AccessCondition(userID)).value) ==
            Known(memo.creatorID == userID || memo.visibility != Private)
  {
    hide Meaning, Eval;
    AccessConditionTranslates(p, userID);
    AccessAtomsMean(p, memo, userID);
  }

  function OwnAtom(userID: int): Sql<Value> { Atom(ColumnCompare("creator_id", Eq), [IntV(userID)]) }

  function OpenAtom(): Sql<Value> { Atom(ColumnIn("visibility"), [StrV("PUBLIC"), StrV("PROTECTED")]) }

  lemma AccessConditionTranslates(p: Place, userID: int)
    requires HasAccessFields(p.schema)
    ensures Translate(p.schema, p.d, AccessCondition(userID)) == Ok(Either(Leaf(OwnAtom(userID)), Leaf(OpenAtom())))
  {
    hide InArguments;
    VisibilityListTranslates(p.schema);
    assert "visibility" != "tag" by { assert |"tag"| == 3; }
    assert Translate(p.schema, p.d, AccessCondition(userID).left) == Ok(Leaf(OwnAtom(userID)));
    assert Translate(p.schema, p.d, AccessCondition(userID).right) == Ok(Leaf(OpenAtom()));
  }

  lemma AccessAtomsMean(p: Place, memo: Memo, userID: int)
    requires memo.Valid()
    ensures Eval(Meaning(p.d, p.fold, memo.row), OwnAtom(userID)) == Known(memo.creatorID == userID)
    ensures Eval(Meaning(p.d, p.fold, memo.row), OpenAtom()) == Known(memo.visibility != Private)
  {
    hide Less, CompareAny, StatusText, VisibilityText;
    VisibilityListMeans(memo);
  }

  lemma VisibilityListTranslates(schema: Schema)
    requires HasAccessFields(schema)
    ensures InArguments(schema["visibility"], [Literal(StrV("PUBLIC")), Literal(StrV("PROTECTED"))]) ==
              Ok([StrV("PUBLIC"), StrV("PROTECTED")])
  {
    var values := [Literal(StrV("PUBLIC")), Literal(StrV("PROTECTED"))];
    assert values[1..] == [Literal(StrV("PROTECTED"))] && values[1..][1..] == [];
    assert InArguments(schema["visibility"], values[1..]) == Ok([StrV("PROTECTED")] + []);
    assert [StrV("PUBLIC")] + ([StrV("PROTECTED")] + []) == [StrV("PUBLIC"), StrV("PROTECTED")];
  }

  lemma VisibilityListMeans(memo: Memo)
    ensures CompareAny(StrV(VisibilityText(memo.visibility)), [StrV("PUBLIC"), StrV("PROTECTED")]) ==
              Known(memo.visibility != Private)
  {
    hide Less;
    var args := [StrV("PUBLIC"), StrV("PROTECTED")];
    assert args[1..] == [StrV("PROTECTED")] && args[1..][1..] == [];
    TextsDiffer();
    var text := StrV(VisibilityText(memo.visibility));
    assert CompareAny(text, args[1..]) == Known(memo.visibility == Protected);
  }

  lemma {:induction false} FiltersWithOneMore(m: AtomMeaning, schema: Schema, d: Dialect, filters: seq<Condition>,
                                              c: Condition)
    requires Translate(schema, d, c).Ok?
    ensures EvalFilters(m, schema, d, filters + [c]) == True <==>
            EvalFilters(m, schema, d, filters) == True && EvalLogic(m, Translate(schema, d, c).value) == True
  {
    hide Translate, EvalLogic;
    if filters == [] {
      assert [] + [c] == [c] && [c][1..] == [];
    } else {
      assert (filters + [c])[1..] == filters[1..] + [c];
      FiltersWithOneMore(m, schema, d, filters[1..], c);
    }
  }

  /** Criteria as the callers build them: neither creator nor visibilities. */
  predicate Unrestricted(c: Criteria) { c.creatorID.None? && c.visibilityList == [] }

  /** The query's texts can be read back, and its arguments get to their places. */
  ghost predicate Sound(p: Place, c: Criteria) { Readable(p, c) && BindsRight(p, c) }

  lemma AccessConditionIsClean(p: Place, userID: int)
    requires HasAccessFields(p.schema)
    ensures NonEmptyLists(AccessCondition(userID)) && CleanFilters(p.schema, p.d, [AccessCondition(userID)])
    ensures Translate(p.schema, p.d, AccessCondition(userID)).Ok?
  {
    hide Translate;
    AccessConditionTranslates(p, userID);
    ConstantFreeIsClean(Translate(p.schema, p.d, AccessCondition(userID)).value);
  }

  lemma CreatorIsPositive(memo: Memo)
    requires memo.Valid()
    ensures memo.creatorID > 0
  {
  }

  /** The restriction keeps a sound query sound: its own filter is clean. */
  lemma RestrictedIsSound(p: Place, c: Criteria, userID: int)
    requires HasAccessFields(p.schema) && Sound(p, c)
    ensures Sound(p, Restricted(c, userID, c.rowStatus))
  {
    hide AddedBy, Translate, NonEmptyLists, Clean, Fold, HasAccessFields, AccessCondition;
    var x := AccessCondition(userID);
    AccessConditionIsClean(p, userID);
    assert x in [x];
    AddedIffTranslated(p.schema, p.d, c.filters, 0);
    AddedIffTranslated(p.schema, p.d, c.filters + [x], 0);
  }

  /**
   Restricting a query for one row status makes it select exactly the memos it selected before that pass the access
   check, for every user; the queries are compared as bound text. In SQLite and MySQL the query's filters have to be
   clean, because an argument that a filter leaves behind reaches the row status (SwallowedArgumentMisleads).
   */
  lemma RestrictionIsAccessCheck(p: Place, c: Criteria, memo: Memo, userID: int)
    requires HasAccessFields(p.schema) && memo.Valid() && Unrestricted(c) && c.rowStatus.Some? && Sound(p, c)
    ensures Selected(p, Restricted(c, userID, c.rowStatus), memo) <==>
              Selected(p, c, memo) && CheckMemoAccess(memo, userID)
  {
    hide EvalFilters, Translate, EvalLogic, HasAccessFields, Selected, Memo.Valid, Readable, BindsRight;
    RestrictedIsSound(p, c, userID);
    QueryIsExact(p, c, memo);
    QueryIsExact(p, Restricted(c, userID, c.rowStatus), memo);
    AccessConditionMeans(p, memo, userID);
    FiltersWithOneMore(Meaning(p.d, p.fold, memo.row), p.schema, p.d, c.filters, AccessCondition(userID));
    CreatorIsPositive(memo);
  }

  /**
   Without a row status the restriction is exact for a memo if and only if the memo is not archived, or belongs
   to the user, or is hidden from the user by its visibility anyway.
   */
  lemma UnfilteredStatusIsExactIff(p: Place, c: Criteria, memo: Memo, userID: int)
    requires HasAccessFields(p.schema) && memo.Valid() && Unrestricted(c) && c.rowStatus.None? && Sound(p, c)
    requires Selected(p, c, memo)
    ensures (Selected(p, Restricted(c, userID, None), memo) <==> CheckMemoAccess(memo, userID)) <==>
            memo.rowStatus.Normal? || memo.creatorID == userID || memo.visibility == Private ||
            (memo.visibility == Protected && userID == 0)
  {
    hide EvalFilters, Translate, EvalLogic, HasAccessFields, Selected, Memo.Valid, Readable, BindsRight;
    RestrictedIsSound(p, c, userID);
    QueryIsExact(p, c, memo);
    QueryIsExact(p, Restricted(c, userID, None), memo);
    AccessConditionMeans(p, memo, userID);
    FiltersWithOneMore(Meaning(p.d, p.fold, memo.row), p.schema, p.d, c.filters, AccessCondition(userID));
    CreatorIsPositive(memo);
  }

  /** Another user's archived public memo stays in a listing that does not fix the row status. */
  lemma ArchivedMemoStaysListed(p: Place, c: Criteria, memo: Memo, userID: int)
    requires HasAccessFields(p.schema) && memo.Valid() && Unrestricted(c) && c.rowStatus.None? && Sound(p, c)
    requires Selected(p, c, memo) && memo.rowStatus.Archived? && memo.visibility == Public && memo.creatorID != userID
    ensures Selected(p, Restricted(c, userID, None), memo) && !CheckMemoAccess(memo, userID)
  {
    hide HasAccessFields, Selected, Memo.Valid, Sound, Unrestricted, Restricted;
    UnfilteredStatusIsExactIff(p, c, memo, userID);
  }

  /** A user-supplied filter added afterwards cannot widen the selection beyond the access check. */
  lemma FurtherFiltersStayInside(p: Place, c: Criteria, more: seq<Condition>, memo: Memo, userID: int)
    requires HasAccessFields(p.schema) && memo.Valid() && Unrestricted(c) && c.rowStatus.Some?
    requires var r := Restricted(c, userID, c.rowStatus);
             Sound(p, r.(filters := r.filters + more)) && Selected(p, r.(filters := r.filters + more), memo)
    ensures CheckMemoAccess(memo, userID)
  {
    hide EvalFilters, Translate, EvalLogic, HasAccessFields, Selected, Memo.Valid, Readable, BindsRight;
    var r, m := Restricted(c, userID, c.rowStatus), Meaning(p.d, p.fold, memo.row);
    QueryIsExact(p, r.(filters := r.filters + more), memo);
    MoreFiltersNarrow(m, p.schema, p.d, r.filters, more);
    AccessConditionMeans(p, memo, userID);
    FiltersWithOneMore(m, p.schema, p.d, c.filters, AccessCondition(userID));
    CreatorIsPositive(memo);
  }

  /** The access condition as one part of a clause. */
  function AccessPart(userID: int): Sql<Value> { Disj([OwnAtom(userID), OpenAtom()]) }

  lemma AccessPartIsNumbered(d: Dialect, userID: int)
    ensures var l := Either(Leaf(OwnAtom(userID)), Leaf(OpenAtom()));
            Fold(NumberingLogic(l, d, 0)) == Live(Numbering(AccessPart(userID), d, 0)) &&
            AllParams(l) == Params(AccessPart(userID)) && |AllParams(l)| == 3
    ensures WellFormed(AccessPart(userID))
  {
    var a, b := OwnAtom(userID), OpenAtom();
    ParamsOfPair(a, b);
    assert Params(a) == [IntV(userID)];
    assert [a, b][1..] == [b] && [b][1..] == [];
    assert NumberingAll([b], d, 1) == [Numbering(b, d, 1)] + [];
    assert NumberingAll([a, b], d, 0) == [Numbering(a, d, 0)] + NumberingAll([b], d, 1);
    assert NumberingAll([a, b], d, 0) == [Numbering(a, d, 0), Numbering(b, d, 1)];
    assert Params(b) == [StrV("PUBLIC"), StrV("PROTECTED")] && Params(a) + Params(b) == [IntV(userID)] + Params(b);
    assert AllParams<Value>(Leaf(a)) == Params(a) && AllParams<Value>(Leaf(b)) == Params(b);
  }

  /** The restriction's filter and a swallowing one behind it: what they add to the query in text order. */
  lemma RestrictedSwallowing(p: Place, x: string, y: string, userID: int)
    requires !p.d.Postgres? && HasAccessFields(p.schema)
    requires "content" in p.schema && p.schema["content"].kind == FieldKind.Scalar &&
             p.schema["content"].ty == StringType
    ensures var filters, before := [AccessCondition(userID), SwallowingFilter("content", x, y)], [AccessPart(userID)];
            && AddedBy(p.schema, p.d, filters, 0) ==
                 Ok(Added(WithContentPart(p.d, before), ParamsOfAll(before) + [StrV(x), StrV(y)]))
            && !CleanFilters(p.schema, p.d, filters)
  {
    hide Translate, Fold, NumberingLogic, AllParams, Numbering, Params, Clean;
    var access, f := AccessCondition(userID), SwallowingFilter("content", x, y);
    var filters, part := [access, f], AccessPart(userID);
    AccessConditionTranslates(p, userID);
    AccessPartIsNumbered(p.d, userID);
    SwallowedArgumentStays(p.schema, p.d, "content", x, y, 3);
    assert filters[1..] == [f] && f in filters;
    assert [part][1..] == [] && ParamsOfAll([part]) == Params(part) + [] == Params(part);
    assert NumberingAll([part], p.d, 0) == [Numbering(part, p.d, 0)] + [] == [Numbering(part, p.d, 0)];
  }

  /**
   Clean filters are needed: with the filter `content == x || (false && content == "ARCHIVED")` behind the restriction,
   a listing of normal memos in SQLite or MySQL selects another user's archived public memo with the content x, which
   fails the access check.
   */
  lemma SwallowedArgumentPassesRestriction(p: Place, x: string, memo: Memo, userID: int)
    requires !p.d.Postgres? && HasAccessFields(p.schema)
    requires "content" in p.schema && p.schema["content"].kind == FieldKind.Scalar &&
             p.schema["content"].ty == StringType
    requires memo.Valid() && ColumnValue(memo.row, "content") == StrV(x) && userID != 0
    requires memo.rowStatus.Archived? && memo.visibility == Public && memo.creatorID != userID
    ensures var r := Restricted(StatusAndFilters(Some(Normal), []), userID, Some(Normal));
            var c := r.(filters := r.filters + [SwallowingFilter("content", x, "ARCHIVED")]);
            Readable(p, c) && !BindsRight(p, c) && Selected(p, c, memo) && !CheckMemoAccess(memo, userID)
  {
    hide AddedBy, TextHolds, EvalConj, CleanFilters, NumberingAll, ParamsOfAll, WhereText, Parse, Params, WhereAtoms,
         HavingAtoms, AtomValue, Eval, AccessPart, WellFormed, HasAccessFields, SwallowingFilter, AccessCondition;
    var filters, before := [AccessCondition(userID), SwallowingFilter("content", x, "ARCHIVED")], [AccessPart(userID)];
    assert [] + [AccessCondition(userID)] + [SwallowingFilter("content", x, "ARCHIVED")] == filters;
    RestrictedSwallowing(p, x, "ARCHIVED", userID);
    AccessConditionIsClean(p, userID);
    SwallowingHasNoLists("content", x, "ARCHIVED");
    StatusAtoms(p, Normal, filters);
    AccessPartIsNumbered(p.d, userID);
    StatusTakesWrongArgument(p, memo.row, before, x, "ARCHIVED", "NORMAL");
    AccessPartHolds(p, memo, userID);
    ParamsOfTwo("NORMAL");
    NoHaving(p, memo.row);
    NothingBefore(p, memo.row);
  }

  lemma SwallowingHasNoLists(field: string, x: string, y: string)
    ensures NonEmptyLists(SwallowingFilter(field, x, y))
  {
  }

  lemma AccessPartHolds(p: Place, memo: Memo, userID: int)
    requires memo.Valid() && memo.visibility == Public
    ensures EvalConj(Meaning(p.d, p.fold, memo.row), [AccessPart(userID)]) == True
  {
    hide AtomValue;
    var m := Meaning(p.d, p.fold, memo.row);
    AccessAtomsMean(p, memo, userID);
    EvalPair(m, OwnAtom(userID), OpenAtom());
    assert [AccessPart(userID)][1..] == [];
  }

  /** Both shortfalls happen to an ordinary memo under the schema of memos. */
  lemma OrdinaryArchivedMemo(d: Dialect, fold: CharFold, id: int, creatorID: int, userID: int, content: string)
    requires creatorID > 0 && creatorID != userID
    ensures var p, memo := Place(MemoSchema(), d, fold), OrdinaryMemo(id, creatorID, Archived, Public, content);
            var r := Restricted(StatusAndFilters(Some(Normal), []), userID, Some(Normal));
            && memo.Valid() && !CheckMemoAccess(memo, userID)
            && Selected(p, Restricted(StatusAndFilters(None, []), userID, None), memo)
            && (!d.Postgres? && userID != 0 ==>
                  Selected(p, r.(filters := r.filters + [SwallowingFilter("content", content, "ARCHIVED")]), memo))
  {
    hide MemoSchema, Selected, Memo.Valid, Restricted, HasAccessFields;
    var p, memo := Place(MemoSchema(), d, fold), OrdinaryMemo(id, creatorID, Archived, Public, content);
    MemoSchemaHasAccessFields();
    MemoColumnsInLiterals();
    OrdinaryMemoIsValid(id, creatorID, Archived, Public, content);
    EverythingIsListed(p, memo);
    ArchivedMemoStaysListed(p, StatusAndFilters(None, []), memo, userID);
    if !d.Postgres? && userID != 0 {
      SwallowedArgumentPassesRestriction(p, content, memo, userID);
    }
  }

  /** A query without any criteria is sound and selects every memo. */
  lemma EverythingIsListed(p: Place, memo: Memo)
    requires memo.Valid()
    ensures Sound(p, StatusAndFilters(None, [])) && Selected(p, StatusAndFilters(None, []), memo)
  {
    hide Selected, Memo.Valid;
    QueryIsExact(p, StatusAndFilters(None, []), memo);
  }

  /**
   The second query selects, of what the first selects, exactly what the user may read: everywhere, for every memo, as
   long as the first query is sound and asks for the row status that the restriction is told.
   */
  ghost predicate RestrictsExactly(before: Criteria, after: Criteria, userID: int, rowStatus: Option<RowStatus>) {
    forall p: Place, memo: Memo ::
      HasAccessFields(p.schema) && memo.Valid() && Unrestricted(before) && rowStatus.Some? &&
        before.rowStatus == rowStatus && Sound(p, before)
      ==> (Selected(p, after, memo) <==> Selected(p, before, memo) && CheckMemoAccess(memo, userID))
  }

  lemma RestrictionRestricts(c: Criteria, userID: int, rowStatus: Option<RowStatus>)
    ensures RestrictsExactly(c, Restricted(c, userID, rowStatus), userID, rowStatus)
  {
    hide HasAccessFields, Memo.Valid, Unrestricted, Sound, Selected, CheckMemoAccess, Restricted;
    forall p: Place, memo: Memo |
      HasAccessFields(p.schema) && memo.Valid() && Unrestricted(c) && rowStatus.Some? && c.rowStatus == rowStatus &&
        Sound(p, c)
      ensures Selected(p, Restricted(c, userID, rowStatus), memo) <==>
                Selected(p, c, memo) && CheckMemoAccess(memo, userID)
    {
      RestrictionIsAccessCheck(p, c, memo, userID);
    }
  }

  /** Restricts a query to the memos the user may read. */
  method ApplyVisibilityFilter(find: FindMemo, userID: int, rowStatus: Option<RowStatus>)
    modifies find
    ensures find.Current() == Restricted(old(find.Current()), userID, rowStatus)
    ensures RestrictsExactly(old(find.Current()), find.Current(), userID, rowStatus)
  {
    RestrictionRestricts(find.Current(), userID, rowStatus);
    if rowStatus == Some(Archived) {
      if userID == 0 {
        var impossibleCreatorID := -1;
        find.creatorID := Some(impossibleCreatorID);
        return;
      }
      find.creatorID := Some(userID);
      return;
    }
    if userID == 0 {
      find.visibilityList := [Public];
      return;
    }
    find.filters := find.filters + [AccessCondition(userID)];
  }
}
