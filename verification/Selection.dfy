/**
 The whole path of a listing: filters compiled from CEL, rendered, joined with the driver's own criteria into the text
 of a WHERE clause, read back by the grammar of SQL, bound to the arguments and evaluated.
 */
module Selection {
  import opened Cel
  import opened CelMeaning
  import opened FilterIr
  import opened FilterLeaves
  import opened FilterMeaning
  import opened FilterPlan
  import opened FilterWhere
  import opened Folding
  import opened MemoQuery
  import opened Sql
  import TagText
  import opened Wrappers

  /**
   A filter that the compiler accepts, whose literals are plain, and for which enough of the row is there: the compared
   columns, and such flags and lists as the filter would not read aright without.
   */
  ghost predicate Accepted(w: World, e: Expr) {
    && Checked(e) && NoOverflow(e, w.now)
    && BuildCondition(w.schema, e, w.now).Ok?
    && var c := BuildCondition(w.schema, e, w.now).value;
       Typed(w.schema, c) && PlainLiterals(w.d, w.fold, c) && Settled(w.schema, w.d, w.row, c, true) &&
       NonEmptyLists(c) && Translate(w.schema, w.d, c).Ok?
  }

  /** Everything the filters compare is there. */
  predicate AllComplete(w: World, es: seq<Expr>) {
    forall e :: e in es ==>
      match BuildCondition(w.schema, e, w.now) case Err => true case Ok(c) => Complete(w.schema, w.d, w.row, c)
  }

  ghost predicate AllAccepted(w: World, es: seq<Expr>) {
    TypedRow(w.schema, w.row) && PlainSchema(w.schema) && FoldsText(w.fold) && InInt64(w.now) &&
    forall i :: 0 <= i < |es| ==> Accepted(w, es[i])
  }

  ghost function Conditions(w: World, es: seq<Expr>): seq<Condition>
    requires AllAccepted(w, es)
  {
    seq(|es|, i requires 0 <= i < |es| => BuildCondition(w.schema, es[i], w.now).value)
  }

  /** Every filter is true of the row, by the rules of CEL. */
  ghost predicate AllTrue(w: World, es: seq<Expr>) {
    forall e :: e in es ==> CelEval(w, map[], e) == Some(CBool(true))
  }

  /** The filters' Kleene value is true exactly if all are true of the row, and never unknown if nothing is missing. */
  lemma {:induction false} FiltersAreExact(w: World, es: seq<Expr>)
    requires AllAccepted(w, es)
    ensures var value := EvalFilters(Meaning(w.d, w.fold, w.row), w.schema, w.d, Conditions(w, es));
            (value == True <==> AllTrue(w, es)) && (AllComplete(w, es) ==> value == Known(AllTrue(w, es)))
  {
    hide Accepted, TypedRow, PlainSchema, FoldsText, Translate, EvalLogic, CelEval, BuildCondition, Complete;
    if es == [] {
    } else {
      FiltersAreExact(w, es[1..]);
      assert Conditions(w, es)[1..] == Conditions(w, es[1..]);
      assert forall e :: e in es <==> e == es[0] || e in es[1..];
      assert es[0] in es;
      FilterIsExact(w, es[0]);
    }
  }

  lemma FilterIsExact(w: World, e: Expr)
    requires TypedRow(w.schema, w.row) && PlainSchema(w.schema) && FoldsText(w.fold) && InInt64(w.now) && Accepted(w, e)
    ensures BuildCondition(w.schema, e, w.now).Ok?
    ensures var c := BuildCondition(w.schema, e, w.now).value;
            Translate(w.schema, w.d, c).Ok? &&
            var value := EvalLogic(Meaning(w.d, w.fold, w.row), Translate(w.schema, w.d, c).value);
            && (value == True <==> CelEval(w, map[], e) == Some(CBool(true)))
            && (Complete(w.schema, w.d, w.row, c) ==> value == Known(CelEval(w, map[], e) == Some(CBool(true))))
  {
    hide CelEval, BuildCondition, Translate, Fold, EvalFolded, EvalLogic, TypedRow, PlainSchema, FoldsText, Checked,
         NoOverflow, Typed, PlainLiterals, Complete, Settled;
    var c := BuildCondition(w.schema, e, w.now).value;
    CompiledFilterSelects(w, e);
    if Complete(w.schema, w.d, w.row, c) { CompiledFilterIsExact(w, e); }
    FoldPreservesMeaning(Meaning(w.d, w.fold, w.row), Translate(w.schema, w.d, c).value);
  }

  lemma AcceptedListsAreNonEmpty(w: World, es: seq<Expr>)
    requires AllAccepted(w, es)
    ensures forall c :: c in Conditions(w, es) ==> NonEmptyLists(c)
  {
    hide TypedRow, PlainSchema, FoldsText, Translate, BuildCondition, Typed, PlainLiterals, Checked, NoOverflow,
         Settled;
    forall c | c in Conditions(w, es) ensures NonEmptyLists(c) {
      var i :| 0 <= i < |es| && Conditions(w, es)[i] == c;
      assert es[i] in es && Accepted(w, es[i]);
    }
  }

  lemma AcceptedFiltersAreReadable(w: World, es: seq<Expr>, n: nat)
    requires AllAccepted(w, es)
    ensures (forall c :: c in Conditions(w, es) ==> NonEmptyLists(c)) &&
            AddedBy(w.schema, w.d, Conditions(w, es), n).Ok?
  {
    hide AddedBy, TypedRow, PlainSchema, FoldsText, Translate, BuildCondition, Typed, PlainLiterals, Checked,
         NoOverflow, Settled;
    AcceptedListsAreNonEmpty(w, es);
    forall c | c in Conditions(w, es) ensures Translate(w.schema, w.d, c).Ok? {
      var i :| 0 <= i < |es| && Conditions(w, es)[i] == c;
      assert Accepted(w, es[i]);
    }
    AddedIffTranslated(w.schema, w.d, Conditions(w, es), n);
  }

  /**
   PostgreSQL: for all filters, whatever arguments stand before and behind theirs, the WHERE text read by the
   SQL grammar and bound by number is true on a row exactly when every filter is true of it in CEL. It is never unknown
   if everything the filters compare is there.
   */
  lemma PostgresClauseIsExact(w: World, es: seq<Expr>, before: seq<Value>, behind: seq<Value>)
    requires w.d == Postgres && AllAccepted(w, es)
    ensures AddedBy(w.schema, w.d, Conditions(w, es), |before|).Ok?
    ensures var added := AddedBy(w.schema, w.d, Conditions(w, es), |before|).value;
            var clause := Parse(WhereText(added.parts, []));
            clause.Some? &&
            var value := Eval(Meaning(w.d, w.fold, w.row), BindNumbered(clause.value, before + added.args + behind));
            (value == True <==> AllTrue(w, es)) && (AllComplete(w, es) ==> value == Known(AllTrue(w, es)))
  {
    hide AddedBy, Parse, WhereText, EvalFilters, AllTrue, AllAccepted, AllComplete, Conditions, Eval, AtomValue,
         ClauseOf;
    var cs, m := Conditions(w, es), Meaning(w.d, w.fold, w.row);
    AcceptedFiltersAreReadable(w, es, |before|);
    var added := AddedBy(w.schema, w.d, cs, |before|).value;
    var args := before + added.args + behind;
    ConstantAtoms(w.d, w.fold, w.row);
    PartsAreWellFormed(w.schema, w.d, cs, |before|);
    WhereTextMeansConjunction(added.parts, []);
    assert added.parts + [] == added.parts;
    assert PlacedAt(added.args, args, |before|) by {
      assert args[|before|..|before| + |added.args|] == added.args;
    }
    NumberedWhere(m, w.schema, cs, |before|, args);
    FiltersAreExact(w, es);
    BindLeadingTrue(added.parts, args);
    LeadingTrue(m, BindNumberedAll(added.parts, args));
  }

  /** The memo of a world is listed under these criteria with these filters. */
  predicate ListedIn(w: World, c: Criteria, memo: Memo) { Selected(Place(w.schema, w.d, w.fold), c, memo) }

  /**
   A whole listing: for all filters and all criteria, the query's texts, read by the grammar of SQL and bound to all
   arguments, the filters' and the driver's own, select a memo exactly when it meets the criteria and every filter is
   true of it in CEL. In SQLite and MySQL the filters have to be clean.
   */
  lemma ListingIsExact(w: World, es: seq<Expr>, c: Criteria, memo: Memo)
    requires AllAccepted(w, es) && c.filters == Conditions(w, es)
    requires memo.Valid() && memo.row == w.row && (w.d.Postgres? || CleanFilters(w.schema, w.d, c.filters))
    ensures ListedIn(w, c, memo) <==> AllTrue(w, es) && Meets(c, memo)
  {
    hide AddedBy, Selected, EvalFilters, AllTrue, AllAccepted, AllComplete, Conditions, AtomValue, CleanFilters,
         Memo.Valid;
    AcceptedFiltersAreReadable(w, es, 0);
    QueryIsExact(Place(w.schema, w.d, w.fold), c, memo);
    FiltersAreExact(w, es);
  }

  /** That condition can be read off the query: as many placeholders as arguments. */
  lemma CleanIffCountsMatch(w: World, es: seq<Expr>, c: Criteria)
    requires AllAccepted(w, es) && c.filters == Conditions(w, es)
    ensures QueryOf(w.schema, w.d, c).Ok?
    ensures var q := QueryOf(w.schema, w.d, c).value;
            Parse(q.where).Some? && (CleanFilters(w.schema, w.d, c.filters) <==>
                                     |Params(Parse(q.where).value)| == |q.args|)
  {
    hide AddedBy, Parse, Params, AllAccepted, Conditions, CleanFilters, WhereText;
    AcceptedFiltersAreReadable(w, es, 0);
    CountsMatchIffClean(Place(w.schema, w.d, w.fold), c);
  }

  /** The expression `content == <text>`. */
  function ContentExpr(text: string): Expr {
    Call("_==_", None, [Ident("content"), Expr.Const(StringC(text))])
  }

  lemma MemoSchemaIsPlain()
    ensures PlainSchema(MemoSchema())
  {
    hide SchemaOf, MemoFields;
    SchemaHoldsFields(MemoFields());
    PrefixesArePlain();
  }

  lemma PrefixesArePlain()
    ensures forall f :: f in MemoFields() ==> TagText.Plain(true, f.mimePrefix)
  {
    hide MemoFields;
    MemoPrefixes();
    PlainPrefixes();
  }

  lemma MemoPrefixes()
    ensures forall f :: f in MemoFields() ==> f.mimePrefix in {"", "image/", "audio/", "video/"}
  {
    hide TagText.Plain;
  }

  lemma PlainPrefixes()
    ensures forall prefix :: prefix in {"", "image/", "audio/", "video/"} ==> TagText.Plain(true, prefix)
  {
  }

  /** A memo that holds a content and nothing else besides its own columns: no tags, no flags, no parent. */
  function OrdinaryMemo(id: int, creatorID: int, rowStatus: RowStatus, visibility: Visibility, content: string): Memo {
    Memo(id, "m", creatorID, rowStatus, visibility, None, Row(map[
      "id" := IntV(id), "uid" := StrV("m"), "creator_id" := IntV(creatorID), "row_status" :=
        StrV(StatusText(rowStatus)),
      "visibility" := StrV(VisibilityText(visibility)), "content" := StrV(content)], map[], map[], []))
  }

  lemma OrdinaryMemoIsValid(id: int, creatorID: int, rowStatus: RowStatus, visibility: Visibility, content: string)
    requires creatorID > 0
    ensures var memo := OrdinaryMemo(id, creatorID, rowStatus, visibility, content);
            memo.Valid() && ColumnValue(memo.row, "content") == StrV(content) && TypedRow(MemoSchema(), memo.row)
  {
    hide MemoSchema, StatusText, VisibilityText;
    var memo := OrdinaryMemo(id, creatorID, rowStatus, visibility, content);
    NamesDiffer();
    MemoColumnsInLiterals();
    OtherNamesAreNoFields();
    forall f | f in MemoSchema() ensures TypedField(MemoSchema()[f], memo.row) {
    }
  }

  lemma NamesDiffer()
    ensures |{"id", "uid", "creator_id", "row_status", "visibility", "content"}| == 6
    ensures "parent_uid" !in {"id", "uid", "creator_id", "row_status", "visibility", "content"}
  {
    assert |"id"| == 2 && |"uid"| == 3 && |"content"| == 7 && |"creator_id"| == |"row_status"| == |"visibility"| == 10;
    assert "creator_id"[0] == 'c' && "row_status"[0] == 'r' && "visibility"[0] == 'v' && "parent_uid"[0] == 'p';
  }

  lemma OtherNamesAreNoFields()
    ensures "id" !in MemoSchema() && "uid" !in MemoSchema() && "row_status" !in MemoSchema()
  {
    hide SchemaOf, MemoFields;
    SchemaHoldsFields(MemoFields());
    MemoFieldNames();
    FieldNamesDiffer();
    hide FieldName;
  }

  /** The names of the fields, by their length. */
  predicate FieldName(name: string) {
    || name in {"tag", "tags", "pinned", "content", "creator"}
    || name in {"has_link", "has_code", "has_image", "has_audio", "has_video"}
    || name in {"visibility", "creator_id", "created_ts", "updated_ts"}
    || name in {"has_task_list", "has_attachment", "has_incomplete_tasks"}
  }

  lemma MemoFieldNames()
    ensures forall f :: f in MemoFields() ==> FieldName(f.name)
  {
    hide FieldName, MemoColumns, MemoLists, MemoFlags, MemoAttachments;
    ColumnNames();
    OtherFieldNames();
  }

  lemma ColumnNames()
    ensures forall f :: f in MemoColumns() ==> FieldName(f.name)
  {
  }

  lemma OtherFieldNames()
    ensures forall f :: f in MemoLists() || f in MemoFlags() || f in MemoAttachments() ==> FieldName(f.name)
  {
  }

  lemma FieldNamesDiffer()
    ensures !FieldName("id") && !FieldName("uid") && !FieldName("row_status")
  {
    assert |"id"| == 2 && "uid"[0] == 'u' && "tag"[0] == 't' && |"row_status"| == 10 && "row_status"[0] == 'r';
  }

  lemma ContentExprIsChecked(x: string, now: int)
    ensures Checked(ContentExpr(x)) && NoOverflow(ContentExpr(x), now)
  {
    var e := ContentExpr(x);
    assert TrueNumber(e.args[0], now) == None;
    assert Checked(e.args[0]) && Checked(e.args[1]) && NoOverflow(e.args[0], now) && NoOverflow(e.args[1], now);
    assert forall a :: a in e.args <==> a == e.args[0] || a == e.args[1];
  }

  /** A filter on the content is accepted on a row of a typed memo with a content. */
  lemma ContentFilterIsAccepted(w: World, x: string)
    requires w.schema == MemoSchema() && TypedRow(w.schema, w.row) && FoldsText(w.fold) && InInt64(w.now)
    requires ColumnValue(w.row, "content").StrV?
    ensures AllAccepted(w, [ContentExpr(x)])
    ensures BuildCondition(w.schema, ContentExpr(x), w.now) ==
              Ok(Comparison(FieldRef("content"), Eq, Literal(StrV(x))))
  {
    hide MemoSchema, PlainSchema, FoldsText, TypedRow, Checked, NoOverflow;
    MemoSchemaIsPlain();
    MemoColumnsInLiterals();
    var c, e := Comparison(FieldRef("content"), Eq, Literal(StrV(x))), ContentExpr(x);
    assert BuildCondition(w.schema, e, w.now) == Ok(c);
    assert Translate(w.schema, w.d, c).Ok?;
    ContentExprIsChecked(x, w.now);
    assert PlainLeaf(w.d, w.fold, c) && PlainLiterals(w.d, w.fold, c);
    assert Typed(w.schema, c) && Complete(w.schema, w.d, w.row, c) && NonEmptyLists(c);
    assert Accepted(w, e);
  }

  /**
   The hypotheses hold together: an ordinary memo is valid, a filter on its content is accepted, and the listing of its
   row status under that filter, in any dialect, holds the memo.
   */
  lemma OrdinaryMemoIsListed(d: Dialect, fold: CharFold, memo: Memo, id: int, creatorID: int, content: string, now: int)
    requires FoldsText(fold) && InInt64(now) && creatorID > 0
    requires memo == OrdinaryMemo(id, creatorID, memo.rowStatus, memo.visibility, content)
    ensures var w, es := World(MemoSchema(), d, fold, memo.row, now), [ContentExpr(content)];
            && memo.Valid() && AllAccepted(w, es)
            && ListedIn(w, StatusAndFilters(Some(memo.rowStatus), Conditions(w, es)), memo)
  {
    hide MemoSchema, FoldsText, TypedRow, AllAccepted, Selected, Memo.Valid, CleanFilters;
    var w, es := World(MemoSchema(), d, fold, memo.row, now), [ContentExpr(content)];
    OrdinaryMemoIsValid(id, creatorID, memo.rowStatus, memo.visibility, content);
    ContentFilterIsAccepted(w, content);
    var c := Comparison(FieldRef("content"), Eq, Literal(StrV(content)));
    assert Conditions(w, es) == [c];
    ContentFilterIsClean(w, content);
    ContentFilterIsTrue(w, content);
    ListingIsExact(w, es, StatusAndFilters(Some(memo.rowStatus), [c]), memo);
  }

  lemma ContentFilterIsClean(w: World, x: string)
    requires w.schema == MemoSchema()
    ensures CleanFilters(w.schema, w.d, [Comparison(FieldRef("content"), Eq, Literal(StrV(x)))])
  {
    hide MemoSchema;
    MemoColumnsInLiterals();
  }

  lemma ContentFilterIsTrue(w: World, content: string)
    requires w.schema == MemoSchema() && ColumnValue(w.row, "content") == StrV(content)
    ensures AllTrue(w, [ContentExpr(content)])
  {
    hide MemoSchema, Less;
    MemoColumnsInLiterals();
    var e := ContentExpr(content);
    assert CelEval(w, map[], e.args[0]) == Some(CString(content)) == CelEval(w, map[], e.args[1]);
    assert CelEval(w, map[], e) == CelCall2(w, map[], e);
  }

  // ----- Filters in literals

  /** The SQL value on a row of a filter that is accepted. */
  function FilterValue(w: World, e: Expr): Option<Kleene> {
    match BuildCondition(w.schema, e, w.now)
    case Err => None
    case Ok(c) =>
      match Translate(w.schema, w.d, c)
      case Err => None
      case Ok(l) => Some(EvalLogic(Meaning(w.d, w.fold, w.row), l))
  }

  lemma ValueOfLeaf(w: World, e: Expr, c: Condition, kind: AtomKind, params: seq<Value>)
    requires BuildCondition(w.schema, e, w.now) == Ok(c)
    requires Translate(w.schema, w.d, c) == Ok(Leaf(Atom(kind, params)))
    ensures FilterValue(w, e) == Some(AtomValue(w.d, w.fold, w.row, kind, params))
  {
    hide BuildCondition, Translate, AtomValue;
    EvalAtom(w.d, w.fold, w.row, kind, params);
  }

  /** The value of `created_ts <fn> n`. */
  function CreatedFilter(w: World, fn: string, n: int): Option<Kleene> {
    FilterValue(w, Call(fn, None, [Ident("created_ts"), Expr.Const(IntC(n))]))
  }

  /** Each of the six comparisons is accepted and selects the memos it says, whatever the dialect. */
  lemma CreatedFilters(w: World, n: int, t: int)
    requires w.schema == MemoSchema() && ColumnValue(w.row, "created_ts") == IntV(t)
    ensures CreatedFilter(w, "_==_", n) == Some(if t == n then True else False)
    ensures CreatedFilter(w, "_!=_", n) == Some(if t == n then False else True)
    ensures CreatedFilter(w, "_<_", n) == Some(if t < n then True else False)
    ensures CreatedFilter(w, "_>_", n) == Some(if t > n then True else False)
    ensures CreatedFilter(w, "_<=_", n) == Some(if t <= n then True else False)
    ensures CreatedFilter(w, "_>=_", n) == Some(if t >= n then True else False)
  {
    hide MemoSchema, CreatedFilter;
    CreatedFilterMeans(w, "_==_", n, t);
    CreatedFilterMeans(w, "_!=_", n, t);
    CreatedFilterMeans(w, "_<_", n, t);
    CreatedFilterMeans(w, "_>_", n, t);
    CreatedFilterMeans(w, "_<=_", n, t);
    CreatedFilterMeans(w, "_>=_", n, t);
  }

  lemma CreatedFilterMeans(w: World, fn: string, n: int, t: int)
    requires w.schema == MemoSchema() && ColumnValue(w.row, "created_ts") == IntV(t) && ComparisonOperator(fn).Some?
    ensures CreatedFilter(w, fn, n) == Some(Known(OrderHolds(ComparisonOperator(fn).value, t < n, t == n)))
  {
    hide MemoSchema, ComparisonOperator;
    MemoColumnsInLiterals();
    var e, op := Call(fn, None, [Ident("created_ts"), Expr.Const(IntC(n))]), ComparisonOperator(fn).value;
    var c := Comparison(FieldRef("created_ts"), op, Literal(IntV(n)));
    assert BuildComparison(w.schema, op, e.args, w.now) == Ok(c);
    assert BuildCondition(w.schema, e, w.now) == Ok(c) by { OperatorNames(fn); }
    var sql: Sql<Value> := Atom(ColumnCompare("created_ts", op), [IntV(n)]);
    assert Translate(w.schema, w.d, c) == Ok(Leaf(sql));
    hide BuildCondition, BuildComparison, Translate, FilterValue;
    ValueOfLeaf(w, e, c, ColumnCompare("created_ts", op), [IntV(n)]);
  }

  lemma OperatorNames(fn: string)
    requires ComparisonOperator(fn).Some?
    ensures fn != "_&&_" && fn != "_||_" && fn != "!_"
  {
  }

  /** The attachment flags hold of the memos with an attachment, respectively with one of the type they name. */
  lemma AttachmentFilters(w: World)
    requires w.schema == MemoSchema()
    ensures FilterValue(w, Ident("has_attachment")) == Some(Known(w.row.attachments != []))
    ensures FilterValue(w, Ident("has_image")) == Some(Known(exists t :: t in w.row.attachments && "image/" <= t))
    ensures FilterValue(w, Ident("has_audio")) == Some(Known(exists t :: t in w.row.attachments && "audio/" <= t))
    ensures FilterValue(w, Ident("has_video")) == Some(Known(exists t :: t in w.row.attachments && "video/" <= t))
  {
    hide MemoSchema, FilterValue, TagText.Plain;
    MemoAttachmentsInLiterals();
    PlainPrefixes();
    AttachmentFilterMeans(w, "has_attachment");
    AttachmentFilterMeans(w, "has_image");
    AttachmentFilterMeans(w, "has_audio");
    AttachmentFilterMeans(w, "has_video");
    if w.row.attachments != [] {
      assert w.row.attachments[0] in w.row.attachments && "" <= w.row.attachments[0];
    }
  }

  lemma AttachmentFilterMeans(w: World, name: string)
    requires name in w.schema && w.schema[name].kind == Attachment && w.schema[name].ty == BoolType
    requires TagText.Plain(true, w.schema[name].mimePrefix)
    ensures FilterValue(w, Ident(name)) == Some(Known(HasAttachmentOf(w.row, w.schema[name].mimePrefix)))
  {
    hide TagText.Plain, AttachmentLeaf, HasAttachmentOf;
    AttachmentExact(w.d, w.fold, w.row, w.schema[name]);
    assert BuildCondition(w.schema, Ident(name), w.now) == Ok(FieldPredicate(name));
    assert Translate(w.schema, w.d, FieldPredicate(name)) == Ok(Leaf(AttachmentLeaf(w.schema[name])));
  }

  /** The test of an `exists` on its variable `t`, as it is written. */
  function TestExpr(p: TagPredicate): Expr {
    match p
    case Equals(text) => Call("_==_", None, [Ident("t"), Expr.Const(StringC(text))])
    case StartsWith(text) => Call("startsWith", Some(Ident("t")), [Expr.Const(StringC(text))])
    case EndsWith(text) => Call("endsWith", Some(Ident("t")), [Expr.Const(StringC(text))])
    case ContainsText(text) => Call("contains", Some(Ident("t")), [Expr.Const(StringC(text))])
  }

  /** What the macro makes of `tags.exists(t, ...)`. */
  function ExistsExpr(test: Expr): Expr {
    Expr.Comprehension("t", Ident("tags"), "@result", Expr.Const(BoolC(false)),
                       Call("_||_", None, [Ident("@result"), test]), Ident("@result"))
  }

  /** All four tests are accepted and checked, and true of the memos some tag of which satisfies them. */
  lemma ExistsFilters(w: World, p: TagPredicate)
    requires w.schema == MemoSchema()
    ensures var e := ExistsExpr(TestExpr(p));
            && Checked(e) && BuildCondition(w.schema, e, w.now) == Ok(ListComprehension("tags", p))
            && Translate(w.schema, w.d, ListComprehension("tags", p)).Ok?
            && CelEval(w, map[], e) == Some(CBool(exists t :: t in ItemsOf(w.row, "tags") && TagHolds(p, t)))
  {
    hide MemoSchema, CelEval, BuildComprehension, TestExpr, TagHolds, TagPredicateLeaf;
    TagsField();
    ExistsBuilds(w.schema, p, w.now);
    ComprehensionBuilt(w, ExistsExpr(TestExpr(p)));
  }

  lemma ExistsBuilds(schema: Schema, p: TagPredicate, now: int)
    requires "tags" in schema && schema["tags"].kind == JsonList
    ensures var e := ExistsExpr(TestExpr(p));
            IsExists(e) && BuildComprehension(schema, e) == Ok(ListComprehension("tags", p))
  {
    assert Ident("t") != Ident("@result");
  }

  /** `size(tags) > n` is accepted, and true in SQL of the memos with more tags than that. */
  lemma SizeFilter(w: World, n: int)
    requires w.schema == MemoSchema()
    ensures FilterValue(w, Call("_>_", None, [Call("size", None, [Ident("tags")]), Expr.Const(IntC(n))])) ==
            Some(Known(|ItemsOf(w.row, "tags")| > n))
  {
    hide MemoSchema, FilterValue;
    TagsField();
    SizeFilterMeans(w, n);
  }

  lemma TagsField()
    ensures "tags" in MemoSchema() && MemoSchema()["tags"].kind == JsonList
  {
    hide MemoSchema;
    MemoPayloadInLiterals();
  }

  lemma SizeFilterMeans(w: World, n: int)
    requires "tags" in w.schema && w.schema["tags"].kind == JsonList
    ensures FilterValue(w, Call("_>_", None, [Call("size", None, [Ident("tags")]), Expr.Const(IntC(n))])) ==
            Some(Known(|ItemsOf(w.row, "tags")| > n))
  {
    var e := Call("_>_", None, [Call("size", None, [Ident("tags")]), Expr.Const(IntC(n))]);
    var c := Comparison(FunctionValue("size", [FieldRef("tags")]), Gt, Literal(IntV(n)));
    SizeBuilds(w.schema, n, w.now);
    SizeTranslates(w.schema, w.d, n);
    hide BuildCondition, Translate, FilterValue;
    ValueOfLeaf(w, e, c, ListLength("tags", Gt), [IntV(n)]);
  }

  lemma SizeTranslates(schema: Schema, d: Dialect, n: int)
    requires "tags" in schema && schema["tags"].kind == JsonList
    ensures Translate(schema, d, Comparison(FunctionValue("size", [FieldRef("tags")]), Gt, Literal(IntV(n)))) ==
            Ok(Leaf(Atom(ListLength("tags", Gt), [IntV(n)])))
  {
  }

  lemma SizeBuilds(schema: Schema, n: int, now: int)
    requires "tags" in schema && ResolveAlias(schema, "tags").Some?
    ensures BuildCondition(schema, Call("_>_", None, [Call("size", None, [Ident("tags")]), Expr.Const(IntC(n))]),
                           now) ==
            Ok(Comparison(FunctionValue("size", [FieldRef("tags")]), Gt, Literal(IntV(n))))
  {
    var size := Call("size", None, [Ident("tags")]);
    assert BuildValue(schema, size.args[0], now) == Ok(FieldRef("tags"));
    assert BuildSize(schema, size, now) == Ok(FunctionValue("size", [FieldRef("tags")]));
    assert EvaluateNumeric(size, now) == Ok(None) && EvaluateBool(size) == Ok(None);
    assert BuildValue(schema, size, now) == Ok(FunctionValue("size", [FieldRef("tags")]));
    var args := [size, Expr.Const(IntC(n))];
    assert BuildValue(schema, args[1], now) == Ok(Literal(IntV(n)));
    hide BuildValue, EvaluateNumeric, EvaluateBool, BuildSize;
    assert BuildComparison(schema, Gt, args, now) ==
             Ok(Comparison(FunctionValue("size", [FieldRef("tags")]), Gt, Literal(IntV(n))));
  }

  /** The filter `pinned` is accepted, and true in SQL of the pinned memos. */
  lemma PinnedFilter(w: World, n: int)
    requires w.schema == MemoSchema() && ColumnValue(w.row, "pinned") == IntV(n)
    ensures FilterValue(w, Ident("pinned")) == Some(Known(n != 0))
  {
    hide MemoSchema;
    MemoColumnsInLiterals();
    assert BuildCondition(w.schema, Ident("pinned"), w.now) == Ok(FieldPredicate("pinned"));
    var sql: Sql<Value> := Atom(ColumnIsTrue("pinned"), []);
    assert Translate(w.schema, w.d, FieldPredicate("pinned")) == Ok(Leaf(sql));
    ValueOfLeaf(w, Ident("pinned"), FieldPredicate("pinned"), ColumnIsTrue("pinned"), []);
  }
}
