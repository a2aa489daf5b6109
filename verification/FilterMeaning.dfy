/**
 What the rendered atoms mean on a row, and what the conditions mean: the SQL of a condition is true on
 exactly the rows that satisfy the condition (internal/filter/render.go).
 */
module FilterMeaning {
  import opened FilterIr
  import opened FilterLeaves
  import opened FilterPlan
  import opened Folding
  import opened Sql
  import opened TagText
  import opened Wrappers

  // ----- Rows

  /** A row: scalar columns, JSON flags and lists by field name (a missing one is NULL), attachment types. */
  datatype Row = Row(scalars: map<string, Value>, flags: map<string, bool>, lists: map<string, seq<string>>,
                     attachments: seq<string>)

  function ColumnValue(row: Row, field: string): Value {
    if field in row.scalars then row.scalars[field] else Null
  }

  /** Dictionary order on strings. */
  predicate Less(a: string, b: string) {
    if b == "" then false
    else if a == "" then true
    else a[0] < b[0] || (a[0] == b[0] && Less(a[1..], b[1..]))
  }

  predicate OrderHolds(op: CompareOp, less: bool, equal: bool) {
    match op
    case Eq => equal
    case Neq => !equal
    case Lt => less
    case Lte => less || equal
    case Gt => !less && !equal
    case Gte => !less
  }

  /** Booleans compare as 0 and 1. */
  function AsNumber(v: Value): Option<int> {
    match v
    case IntV(i) => Some(i)
    case BoolV(b) => Some(if b then 1 else 0)
    case _ => None
  }

  /** SQL comparison; NULL on either side is unknown, and values of different kinds are never compared. */
  function Compare(op: CompareOp, a: Value, b: Value): Kleene {
    if a.Null? || b.Null? then Unknown
    else if a.StrV? && b.StrV? then Known(OrderHolds(op, Less(a.s, b.s), a.s == b.s))
    else
      match (AsNumber(a), AsNumber(b))
      case (Some(x), Some(y)) => Known(OrderHolds(op, x < y, x == y))
      case _ => Unknown
  }

  function CompareAny(a: Value, vs: seq<Value>): Kleene {
    if vs == [] then False else KOr(Compare(Eq, a, vs[0]), CompareAny(a, vs[1..]))
  }

  /** SQLite has no default escape character in LIKE. */
  predicate Escapes(d: Dialect) { !d.SQLite? }

  function ItemSeparator(d: Dialect): string { if d.SQLite? then "," else ", " }

  /**
   The truth value of an atom with its arguments on a row; text searches fold both sides, each dialect in its own way.
   */
  function AtomValue(d: Dialect, fold: CharFold, row: Row, kind: AtomKind, params: seq<Value>): Kleene {
    match kind
    case OneEqualsOne => True
    case OneEqualsZero => False
    case ColumnIsTrue(f) => Known(AsNumber(ColumnValue(row, f)).Some? && AsNumber(ColumnValue(row, f)).value != 0)
    case ColumnIsNull(f) => Known(ColumnValue(row, f).Null?)
    case ColumnIsNotNull(f) => Known(!ColumnValue(row, f).Null?)
    case ColumnCompare(f, op) => if |params| == 1 then Compare(op, ColumnValue(row, f), params[0]) else Unknown
    case ColumnIn(f) => CompareAny(ColumnValue(row, f), params)
    case ColumnLike(f, _) =>
      if |params| == 1 && params[0].StrV? && ColumnValue(row, f).StrV? then
        Known(Like(Escapes(d), FoldText(fold, params[0].s), FoldText(fold, ColumnValue(row, f).s)))
      else Unknown
    case JsonIsTrue(f) => Known(f in row.flags && row.flags[f])
    case JsonEquals(f, op, literal) => if f in row.flags then Compare(op, BoolV(row.flags[f]), BoolV(literal))
      else Unknown
    case JsonCompare(f, op) => if f in row.flags && |params| == 1 then Compare(op, BoolV(row.flags[f]), params[0])
      else Unknown
    case ListLike(f) =>
      if f in row.lists && |params| == 1 && params[0].StrV? then
        Known(Like(Escapes(d), params[0].s, JsonText(row.lists[f], ItemSeparator(d))))
      else Unknown
    case ListHas(f) =>
      if f in row.lists && |params| == 1 && params[0].StrV? then
        Known(exists t :: t in row.lists[f] && Quoted(t) == params[0].s)
      else Unknown
    case ListIsNotNull(f) => Known(f in row.lists)
    case ListIsNotEmpty(f) => if f in row.lists then Known(row.lists[f] != []) else Unknown
    case ListLength(f, op) =>
      if |params| == 1 then Compare(op, IntV(if f in row.lists then |row.lists[f]| else 0), params[0]) else Unknown
    case AttachmentExists =>
      if params == [] then Known(row.attachments != [])
      else if |params| == 1 && params[0].StrV? then
        Known(exists t :: t in row.attachments && Like(Escapes(d), params[0].s, t))
      else Unknown
  }

  function Meaning(d: Dialect, fold: CharFold, row: Row): AtomMeaning {
    (kind, params) => AtomValue(d, fold, row, kind, params)
  }

  lemma EvalTriple(m: AtomMeaning, a: Sql<Value>, b: Sql<Value>, c: Sql<Value>)
    ensures Eval(m, Conj([a, b, c])) == KAnd(Eval(m, a), KAnd(Eval(m, b), Eval(m, c)))
  {
    EvalPair(m, b, c);
    assert [a, b, c][1..] == [b, c];
  }

  // ----- Comprehensions are two-valued

  ghost predicate TwoValued(t: Kleene) { t != Unknown }

  /** A null-checked list condition is never unknown, as long as its core is known on present lists. */
  lemma NullCheckIsTwoValued(d: Dialect, fold: CharFold, row: Row, field: string, s: Sql<Value>)
    requires field in row.lists ==> TwoValued(Eval(Meaning(d, fold, row), s))
    ensures TwoValued(Eval(Meaning(d, fold, row), NullChecked(field, s)))
    ensures Eval(Meaning(d, fold, row), NullChecked(field, s)) == True <==>
            field in row.lists && row.lists[field] != [] && Eval(Meaning(d, fold, row), s) == True
  {
    hide Eval;
    var u: Sql<Value>, v: Sql<Value> := Atom(ListIsNotNull(field), []), Atom(ListIsNotEmpty(field), []);
    EvalTriple(Meaning(d, fold, row), s, u, v);
    EvalAtom(d, fold, row, ListIsNotNull(field), []);
    EvalAtom(d, fold, row, ListIsNotEmpty(field), []);
  }

  lemma EvalAtom(d: Dialect, fold: CharFold, row: Row, kind: AtomKind, params: seq<Value>)
    ensures Eval(Meaning(d, fold, row), Atom(kind, params)) == AtomValue(d, fold, row, kind, params)
  {
  }

  lemma TagPredicateIsTwoValued(d: Dialect, fold: CharFold, row: Row, field: string, p: TagPredicate)
    requires field in row.lists
    ensures TwoValued(Eval(Meaning(d, fold, row), TagPredicateLeaf(d, field, p)))
  {
    hide Like, JsonText;
    if p.StartsWith? {
      EvalPair(Meaning(d, fold, row), PatternOrHas(d, field, p.text),
               Atom(ListLike(field), [StrV("%\"" + p.text + "%")]));
    }
  }

  /** `tags.exists(...)` is never NULL, in any dialect, even when the list is NULL or empty. */
  lemma ComprehensionIsTwoValued(schema: Schema, d: Dialect, fold: CharFold, row: Row, field: string, p: TagPredicate)
    requires LeafComprehension(schema, d, field, p).Ok?
    ensures TwoValued(Eval(Meaning(d, fold, row), LeafComprehension(schema, d, field, p).value))
  {
    hide Eval;
    if field in row.lists {
      TagPredicateIsTwoValued(d, fold, row, field, p);
    }
    NullCheckIsTwoValued(d, fold, row, field, TagPredicateLeaf(d, field, p));
  }

  /** Conditions built from comprehensions and constants alone. */
  predicate ComprehensionsOnly(cond: Condition) {
    match cond
    case Logical(_, l, r) => ComprehensionsOnly(l) && ComprehensionsOnly(r)
    case Negation(e) => ComprehensionsOnly(e)
    case ListComprehension(_, _) => true
    case Constant(_) => true
    case _ => false
  }

  /** Under any nesting of AND, OR and NOT a comprehension filter and its negation partition all rows. */
  lemma {:induction false} ComprehensionsPartitionRows(schema: Schema, d: Dialect, fold: CharFold, row: Row,
                                                       cond: Condition)
    requires ComprehensionsOnly(cond) && Translate(schema, d, cond).Ok?
    ensures TwoValued(EvalLogic(Meaning(d, fold, row), Translate(schema, d, cond).value))
    ensures EvalLogic(Meaning(d, fold, row), Negate(Translate(schema, d, cond).value)) == True <==>
            EvalLogic(Meaning(d, fold, row), Translate(schema, d, cond).value) != True
  {
    hide Eval, LeafComprehension, Meaning;
    match cond
    case Logical(_, l, r) =>
      ComprehensionsPartitionRows(schema, d, fold, row, l);
      ComprehensionsPartitionRows(schema, d, fold, row, r);
    case Negation(e) => ComprehensionsPartitionRows(schema, d, fold, row, e);
    case ListComprehension(field, p) => ComprehensionIsTwoValued(schema, d, fold, row, field, p);
    case Constant(_) =>
  }

  // ----- What conditions mean, without SQL

  predicate HasAttachmentOf(row: Row, mimePrefix: string) {
    exists t :: t in row.attachments && mimePrefix <= t
  }

  predicate BoolHolds(op: CompareOp, x: bool, y: bool) { OrderHolds(op, !x && y, x == y) }

  ghost predicate TagHolds(p: TagPredicate, tag: string) {
    match p
    case Equals(s) => tag == s
    case StartsWith(s) => s <= tag
    case EndsWith(s) => |s| <= |tag| && tag[|tag| - |s|..] == s
    case ContainsText(s) => Substring(s, tag)
  }

  /** A tag equals the text or lies below it in the hierarchy. */
  predicate UnderTag(text: string, tag: string) { tag == text || text + "/" <= tag }

  /** Below a tag lie those that continue it with a slash: `work` has `work/todo` below it, and not `workshop`. */
  lemma UnderTagIff(text: string, tag: string)
    ensures UnderTag(text, tag) <==>
            tag == text || (|text| < |tag| && tag[..|text|] == text && tag[|text|] == '/')
    ensures UnderTag("work", "work/todo") && !UnderTag("work", "workshop")
  {
    assert |text| < |tag| ==> tag[..|text| + 1] == tag[..|text|] + [tag[|text|]];
    assert "work" + "/" == "work/" && "work/todo"[..5] == "work/" && "workshop"[4] == 's';
  }

  /** The value of a boolean field on a row. */
  predicate FlagHolds(field: Field, row: Row) {
    match field.kind
    case BoolColumn => AsNumber(ColumnValue(row, field.name)) == Some(1)
    case JsonBool => field.name in row.flags && row.flags[field.name]
    case Attachment => HasAttachmentOf(row, field.mimePrefix)
    case _ => false
  }

  /** The integer a numeric literal stands for. */
  function NumberOf(v: Value): int {
    match ToInt64(v) case Ok(IntV(i)) => i case _ => 0
  }

  predicate ScalarHolds(op: CompareOp, column: Value, v: Value) {
    match v
    case Null => (op == Eq && column.Null?) || (op == Neq && !column.Null?)
    case StrV(s) => column.StrV? && OrderHolds(op, Less(column.s, s), column.s == s)
    case _ => column.IntV? && OrderHolds(op, column.i < NumberOf(v), column.i == NumberOf(v))
  }

  /** The Boolean reading of a leaf condition on a row. */
  ghost predicate LeafHolds(schema: Schema, row: Row, cond: Condition) {
    match cond
    case FieldPredicate(f) => f in schema && FlagHolds(schema[f], row)
    case Comparison(FieldRef(f), op, Literal(v)) =>
      f in schema && if schema[f].kind == FieldKind.Scalar then ScalarHolds(op, ColumnValue(row, f), v)
                     else v.BoolV? && BoolHolds(op, FlagHolds(schema[f], row), v.b)
    case Comparison(FunctionValue(_, args), op, Literal(v)) =>
      |args| == 1 && args[0].FieldRef? &&
      var n := if args[0].name in row.lists then |row.lists[args[0].name]| else 0;
      OrderHolds(op, n < NumberOf(v), n == NumberOf(v))
    case In(FieldRef(f), values) =>
      if f == "tag" then
        var field := ResolveAlias(schema, f);
        field.Some? && field.value.name in row.lists &&
        exists t, v :: t in row.lists[field.value.name] && v in values && v.Literal? && v.value.StrV? &&
          UnderTag(v.value.s, t)
      else exists v :: v in values && v.Literal? && !v.value.Null? && ScalarHolds(Eq, ColumnValue(row, f), v.value)
    case ElementIn(Literal(v), f) => v.StrV? && f in row.lists && v.s in row.lists[f]
    case Contains(f, text) => ColumnValue(row, f).StrV? && Substring(text, ColumnValue(row, f).s)
    case ListComprehension(f, p) => f in row.lists && exists t :: t in row.lists[f] && TagHolds(p, t)
    case _ => false
  }

  ghost predicate Holds(schema: Schema, row: Row, cond: Condition) {
    match cond
    case Logical(operator, l, r) =>
      if operator.LogicalAnd? then Holds(schema, row, l) && Holds(schema, row, r)
      else Holds(schema, row, l) || Holds(schema, row, r)
    case Negation(e) => !Holds(schema, row, e)
    case Constant(value) => value
    case _ => LeafHolds(schema, row, cond)
  }

  // ----- Rows of the right types, atoms without NULL, literals without wildcards

  ghost predicate TypedField(field: Field, row: Row) {
    match field.kind
    case Scalar => var v := ColumnValue(row, field.name); v.Null? || (if field.ty.StringType? then v.StrV? else v.IntV?)
    case BoolColumn => var v := ColumnValue(row, field.name); v.Null? || AsNumber(v) in {Some(0), Some(1)}
    case JsonList => field.name in row.lists ==> AllTags(row.lists[field.name])
    case _ => true
  }

  /** Whatever the row holds is of its column's type, and lists hold parsed tags. Anything may be missing. */
  ghost predicate TypedRow(schema: Schema, row: Row) {
    forall f :: f in schema ==> TypedField(schema[f], row)
  }

  predicate Present(field: Field, row: Row) {
    match field.kind
    case Scalar => !ColumnValue(row, field.name).Null?
    case BoolColumn => !ColumnValue(row, field.name).Null?
    case JsonBool => field.name in row.flags
    case JsonList => field.name in row.lists
    case _ => true
  }

  /** SQLite compares a flag that the payload omits as false, apart from one field; the others get NULL. */
  predicate ReadsMissingFlag(d: Dialect, name: string) { d.SQLite? && name != "has_task_list" }

  /**
   No atom of the condition meets a NULL: the fields it compares are there. Flags on their own, `exists`, `size`
   and comparisons with null do not need the field.
   */
  predicate Complete(schema: Schema, d: Dialect, row: Row, cond: Condition) {
    match cond
    case Logical(_, l, r) => Complete(schema, d, row, l) && Complete(schema, d, row, r)
    case Negation(e) => Complete(schema, d, row, e)
    case Comparison(FieldRef(f), _, Literal(v)) =>
      f in schema ==> v.Null? || Present(schema[f], row) || (schema[f].kind == JsonBool && ReadsMissingFlag(d, f))
    case In(FieldRef(f), _) => ResolveAlias(schema, f).Some? ==> Present(ResolveAlias(schema, f).value, row)
    case ElementIn(_, f) => f in schema ==> Present(schema[f], row)
    case Contains(f, _) => f in schema ==> Present(schema[f], row)
    case _ => true
  }

  /**
   A flag or list that the payload omits, of which the leaf's reading as false or empty is not the one asked about.
   */
  predicate OnMissing(schema: Schema, d: Dialect, row: Row, cond: Condition, wanted: bool) {
    match cond
    case Comparison(FieldRef(f), op, Literal(v)) =>
      f in schema && schema[f].kind == JsonBool && !Present(schema[f], row) && !ReadsMissingFlag(d, f) &&
      v.BoolV? && BoolHolds(op, false, v.b) != wanted
    case In(FieldRef(f), _) =>
      f == "tag" && wanted && ResolveAlias(schema, f).Some? &&
      ResolveAlias(schema, f).value.kind == JsonList && ResolveAlias(schema, f).value.name !in row.lists
    case ElementIn(_, f) => wanted && f !in row.lists
    case _ => false
  }

  /**
   Enough is there to tell whether the condition has the wanted value: an atom that meets a NULL does not matter where
   it would not have led to that value anyway. Negation turns around what is wanted.
   */
  predicate Settled(schema: Schema, d: Dialect, row: Row, cond: Condition, wanted: bool) {
    match cond
    case Logical(_, l, r) => Settled(schema, d, row, l, wanted) && Settled(schema, d, row, r, wanted)
    case Negation(e) => Settled(schema, d, row, e, !wanted)
    case Constant(_) => true
    case _ => Complete(schema, d, row, cond) || OnMissing(schema, d, row, cond, wanted)
  }

  /** The columns that the condition compares with something are there. */
  predicate ColumnsPresent(schema: Schema, row: Row, cond: Condition) {
    match cond
    case Logical(_, l, r) => ColumnsPresent(schema, row, l) && ColumnsPresent(schema, row, r)
    case Negation(e) => ColumnsPresent(schema, row, e)
    case Comparison(FieldRef(f), _, Literal(v)) =>
      f in schema && schema[f].kind == FieldKind.Scalar ==> v.Null? || Present(schema[f], row)
    case In(FieldRef(f), _) =>
      f in schema && schema[f].kind == FieldKind.Scalar ==> Present(schema[f], row)
    case Contains(f, _) => f in schema ==> Present(schema[f], row)
    case _ => true
  }

  lemma {:induction false} SettledByColumns(schema: Schema, d: Dialect, row: Row, cond: Condition, wanted: bool)
    ensures Complete(schema, d, row, cond) ==> Settled(schema, d, row, cond, wanted)
    ensures Settled(schema, d, row, cond, wanted) ==> ColumnsPresent(schema, row, cond)
  {
    match cond
    case Logical(_, l, r) =>
      SettledByColumns(schema, d, row, l, wanted);
      SettledByColumns(schema, d, row, r, wanted);
    case Negation(e) => SettledByColumns(schema, d, row, e, !wanted);
    case _ =>
  }

  /** A literal of a list condition: for LIKE, or for the JSON functions, which read it as a string. */
  predicate LiteralFor(like: bool, s: string) { if like then TagLiteral(s) else Verbatim(s) }

  predicate PlainTest(d: Dialect, p: TagPredicate) { LiteralFor(!p.Equals? || !d.Postgres?, p.text) }

  /** No wildcards where LIKE meets them, and no cased characters where the database ignores case. */
  ghost predicate PlainLeaf(d: Dialect, fold: CharFold, cond: Condition) {
    match cond
    case In(FieldRef(f), values) =>
      f == "tag" ==> forall v :: v in values && v.Literal? && v.value.StrV? ==> TagLiteral(v.value.s)
    case ElementIn(Literal(v), _) => v.StrV? ==> LiteralFor(d.SQLite?, v.s)
    case Contains(_, text) => TagText.Plain(Escapes(d), text) && CaselessText(fold, text)
    case ListComprehension(_, p) => PlainTest(d, p)
    case _ => true
  }

  ghost predicate PlainLiterals(d: Dialect, fold: CharFold, cond: Condition) {
    match cond
    case Logical(_, l, r) => PlainLiterals(d, fold, l) && PlainLiterals(d, fold, r)
    case Negation(e) => PlainLiterals(d, fold, e)
    case Constant(_) => true
    case _ => PlainLeaf(d, fold, cond)
  }

  /** Attachment prefixes of the schema have no wildcards. */
  predicate PlainSchema(schema: Schema) {
    forall f :: f in schema ==> TagText.Plain(true, schema[f].mimePrefix)
  }

  // ----- Exactness, leaf by leaf

  ghost predicate SaysExactly(d: Dialect, fold: CharFold, row: Row, s: Sql<Value>, holds: bool) {
    Eval(Meaning(d, fold, row), s) == Known(holds)
  }

  lemma ListLikeExact(d: Dialect, fold: CharFold, row: Row, field: string, open: bool, s: string, close: bool)
    requires field in row.lists && AllTags(row.lists[field]) && TagLiteral(s)
    ensures SaysExactly(d, fold, row, Atom(ListLike(field), [StrV("%" + Needle(open, s, close) + "%")]),
                        exists t :: t in row.lists[field] && Selects(open, s, close, t))
  {
    hide Like, JsonText, Selects, Needle;
    LikeIsExact(Escapes(d), open, s, close, row.lists[field], ItemSeparator(d));
  }

  lemma QuotedNeedle(s: string)
    ensures Needle(true, s, true) == Quoted(s)
    ensures "%" + Needle(true, s, false) + "%" == "%\"" + s + "%"
    ensures "%" + Needle(false, s, true) + "%" == "%" + s + "\"%"
    ensures "%" + Needle(false, s, false) + "%" == "%" + s + "%"
    ensures "%" + Needle(true, s + "/", false) + "%" == "%\"" + s + "/%"
  {
  }

  lemma QuotedIsInjective(a: string, b: string)
    ensures Quoted(a) == Quoted(b) <==> a == b
  {
    assert Quoted(a)[1..|a| + 1] == a && Quoted(b)[1..|b| + 1] == b;
  }

  lemma TagLiteralIsVerbatim(s: string)
    requires TagLiteral(s)
    ensures Verbatim(s)
  {
  }

  /** Exact membership by pattern. */
  lemma LikeMembershipExact(d: Dialect, fold: CharFold, row: Row, field: string, s: string)
    requires field in row.lists && AllTags(row.lists[field]) && TagLiteral(s)
    ensures SaysExactly(d, fold, row, Atom(ListLike(field), [StrV("%" + Quoted(s) + "%")]), s in row.lists[field])
  {
    hide Like, JsonText, Needle, Quoted, TagLiteral, AllTags;
    ListLikeExact(d, fold, row, field, true, s, true);
    QuotedNeedle(s);
  }

  /** ... and by the JSON functions. */
  lemma HasMembershipExact(d: Dialect, fold: CharFold, row: Row, field: string, s: string)
    requires field in row.lists && Verbatim(s)
    ensures SaysExactly(d, fold, row, Atom(ListHas(field), [StrV(Quoted(s))]), s in row.lists[field])
  {
    hide Quoted;
    forall t ensures Quoted(t) == Quoted(s) <==> t == s { QuotedIsInjective(t, s); }
    EvalAtom(d, fold, row, ListHas(field), [StrV(Quoted(s))]);
  }

  /** Exact membership, however the dialect expresses it. */
  lemma MembershipExact(d: Dialect, fold: CharFold, row: Row, field: string, s: string)
    requires field in row.lists && AllTags(row.lists[field])
    ensures LiteralFor(d.SQLite?, s) ==> SaysExactly(d, fold, row, ExactTagLeaf(d, field, s), s in row.lists[field])
    ensures LiteralFor(!d.Postgres?, s) ==> SaysExactly(d, fold, row, PatternOrHas(d, field, s), s in row.lists[field])
  {
    hide TagLiteral, Verbatim, AllTags, SaysExactly, Quoted;
    if TagLiteral(s) { LikeMembershipExact(d, fold, row, field, s); }
    if Verbatim(s) { HasMembershipExact(d, fold, row, field, s); }
  }

  lemma KOrOfKnown(a: bool, b: bool)
    ensures KOr(Known(a), Known(b)) == Known(a || b) && KAnd(Known(a), Known(b)) == Known(a && b) &&
            KNot(Known(a)) == Known(!a)
  {
  }

  lemma TagPredicateExact(d: Dialect, fold: CharFold, row: Row, field: string, p: TagPredicate)
    requires field in row.lists && AllTags(row.lists[field]) && PlainTest(d, p)
    ensures SaysExactly(d, fold, row, TagPredicateLeaf(d, field, p), exists t :: t in row.lists[field] &&
                                                                       TagHolds(p, t))
  {
    hide Like, JsonText, Needle, Quoted, TagLiteral, Verbatim, AllTags, Eval, ExactTagLeaf;
    var s, tags := p.text, row.lists[field];
    QuotedNeedle(s);
    if !p.Equals? { TagLiteralIsVerbatim(s); }
    match p
    case Equals(_) => MembershipExact(d, fold, row, field, s);
    case StartsWith(_) =>
      MembershipExact(d, fold, row, field, s);
      ListLikeExact(d, fold, row, field, true, s, false);
      EvalPair(Meaning(d, fold, row), PatternOrHas(d, field, s), Atom(ListLike(field), [StrV("%\"" + s + "%")]));
    case EndsWith(_) => ListLikeExact(d, fold, row, field, false, s, true);
    case ContainsText(_) =>
      ListLikeExact(d, fold, row, field, false, s, false);
  }

  lemma ComprehensionExact(schema: Schema, d: Dialect, fold: CharFold, row: Row, field: string, p: TagPredicate)
    requires TypedRow(schema, row) && PlainTest(d, p) && LeafComprehension(schema, d, field, p).Ok?
    ensures SaysExactly(d, fold, row, LeafComprehension(schema, d, field, p).value,
                        LeafHolds(schema, row, ListComprehension(field, p)))
  {
    hide Eval, TagPredicateLeaf, TagHolds, PlainTest;
    assert TypedField(schema[field], row);
    if field in row.lists {
      TagPredicateExact(d, fold, row, field, p);
    }
    NullCheckIsTwoValued(d, fold, row, field, TagPredicateLeaf(d, field, p));
  }

  /** A tag item means the hierarchical relation. */
  lemma TagItemExact(d: Dialect, fold: CharFold, row: Row, field: string, s: string)
    requires field in row.lists && AllTags(row.lists[field]) && TagLiteral(s)
    ensures SaysExactly(d, fold, row, TagItemLeaf(d, field, s), exists t :: t in row.lists[field] && UnderTag(s, t))
  {
    hide Like, JsonText, Needle, Quoted, AllTags, Eval, ExactTagLeaf, TagLiteral, Verbatim;
    QuotedNeedle(s);
    TagLiteralIsVerbatim(s);
    MembershipExact(d, fold, row, field, s);
    LiteralWithSlash(s);
    ListLikeExact(d, fold, row, field, true, s + "/", false);
    EvalPair(Meaning(d, fold, row), ExactTagLeaf(d, field, s), Atom(ListLike(field), [StrV("%\"" + s + "/%")]));
  }

  lemma LiteralWithSlash(s: string)
    requires TagLiteral(s)
    ensures TagLiteral(s + "/")
  {
    hide Foreign, TagChar;
    SlashIsTagChar();
    assert forall c :: c in s + "/" <==> c in s || c == '/';
  }

  lemma SlashIsTagChar()
    ensures TagChar('/') && '/' != '_' && Verbatim("/")
  {
  }

  lemma {:induction false} AnyTagItem(d: Dialect, fold: CharFold, row: Row, field: string, texts: seq<string>)
    requires field in row.lists && AllTags(row.lists[field]) && forall s :: s in texts ==> TagLiteral(s)
    ensures EvalDisj(Meaning(d, fold, row), TagItemLeaves(d, field, texts)) ==
            Known(exists t, s :: t in row.lists[field] && s in texts && UnderTag(s, t))
  {
    hide Eval, TagItemLeaf, TagLiteral, AllTags, UnderTag;
    if texts == [] {
    } else {
      TagItemExact(d, fold, row, field, texts[0]);
      assert TagItemLeaves(d, field, texts)[1..] == TagItemLeaves(d, field, texts[1..]);
      AnyTagItem(d, fold, row, field, texts[1..]);
      assert forall s :: s in texts <==> s == texts[0] || s in texts[1..];
      KOrOfKnown(exists t :: t in row.lists[field] && UnderTag(texts[0], t),
                 exists t, s :: t in row.lists[field] && s in texts[1..] && UnderTag(s, t));
    }
  }

  lemma TagInListExact(d: Dialect, fold: CharFold, row: Row, field: string, texts: seq<string>)
    requires field in row.lists && AllTags(row.lists[field]) && forall s :: s in texts ==> TagLiteral(s)
    ensures SaysExactly(d, fold, row, TagInList(d, field, texts), exists t, s :: t in row.lists[field] && s in texts &&
                                                                    UnderTag(s, t))
  {
    hide TagItemLeaf, TagLiteral, AllTags, UnderTag;
    AnyTagItem(d, fold, row, field, texts);
    var items := TagItemLeaves(d, field, texts);
    if |items| == 1 {
      assert items == [items[0]] && items[1..] == [];
      assert EvalDisj(Meaning(d, fold, row), items) == KOr(Eval(Meaning(d, fold, row), items[0]), False);
    }
  }

  lemma AttachmentExact(d: Dialect, fold: CharFold, row: Row, field: Field)
    requires TagText.Plain(true, field.mimePrefix)
    ensures SaysExactly(d, fold, row, AttachmentLeaf(field), HasAttachmentOf(row, field.mimePrefix))
  {
    hide Like;
    if field.mimePrefix == "" {
      assert row.attachments != [] ==> row.attachments[0] in row.attachments && "" <= row.attachments[0];
    } else {
      forall t ensures Like(Escapes(d), field.mimePrefix + "%", t) <==> field.mimePrefix <= t {
        LikePrefix(Escapes(d), field.mimePrefix, t);
      }
    }
  }

  lemma PredicateExact(schema: Schema, d: Dialect, fold: CharFold, row: Row, f: string)
    requires TypedRow(schema, row) && PlainSchema(schema) && LeafPredicate(schema, f).Ok?
    ensures SaysExactly(d, fold, row, LeafPredicate(schema, f).value, LeafHolds(schema, row, FieldPredicate(f)))
  {
    hide AttachmentLeaf, HasAttachmentOf, TagText.Plain;
    assert TypedField(schema[f], row);
    if schema[f].kind.Attachment? {
      AttachmentExact(d, fold, row, schema[f]);
    }
  }

  lemma NotOfKnown(d: Dialect, fold: CharFold, row: Row, s: Sql<Value>, b: bool)
    requires SaysExactly(d, fold, row, s, b)
    ensures SaysExactly(d, fold, row, Not(s), !b)
  {
  }

  lemma FlagComparisonExact(schema: Schema, d: Dialect, fold: CharFold, row: Row, f: string, op: CompareOp, v: Value)
    requires TypedRow(schema, row) && PlainSchema(schema) && f in schema && schema[f].kind != FieldKind.Scalar
    requires Complete(schema, d, row, Comparison(FieldRef(f), op, Literal(v)))
    requires LeafComparison(schema, d, FieldRef(f), op, Literal(v)).Ok?
    ensures v.BoolV? && SaysExactly(d, fold, row, LeafComparison(schema, d, FieldRef(f), op, Literal(v)).value,
                                    BoolHolds(op, FlagHolds(schema[f], row), v.b))
  {
    hide LeafJsonBool, FlagHolds, BoolHolds, SaysExactly, TagText.Plain, BoolArgument;
    assert TypedField(schema[f], row);
    match schema[f].kind
    case BoolColumn => BoolColumnExact(d, fold, row, schema[f], op, v.b);
    case JsonBool => JsonBoolExact(d, fold, row, schema[f], op, v);
    case Attachment => AttachmentComparisonExact(d, fold, row, schema[f], op, v.b);
    case _ =>
  }

  lemma BoolColumnExact(d: Dialect, fold: CharFold, row: Row, field: Field, op: CompareOp, b: bool)
    requires field.kind == BoolColumn && TypedField(field, row) && Present(field, row)
    ensures SaysExactly(d, fold, row, Atom(ColumnCompare(field.name, op), [BoolArgument(d, b)]),
                        BoolHolds(op, FlagHolds(field, row), b))
  {
  }

  /**
   Comparing a JSON flag is exact if and only if the payload has the flag or the dialect reads a missing one as
   false; otherwise the comparison is NULL, whatever it compares with.
   */
  lemma JsonBoolExact(d: Dialect, fold: CharFold, row: Row, field: Field, op: CompareOp, v: Value)
    requires field.kind == JsonBool && LeafJsonBool(d, field.name, op, Literal(v)).Ok?
    ensures v.BoolV?
    ensures var sql := LeafJsonBool(d, field.name, op, Literal(v)).value;
            && (SaysExactly(d, fold, row, sql, BoolHolds(op, FlagHolds(field, row), v.b)) <==>
                Present(field, row) || ReadsMissingFlag(d, field.name))
            && (!Present(field, row) && !ReadsMissingFlag(d, field.name) ==>
                Eval(Meaning(d, fold, row), sql) == Unknown)
  {
    NotOfKnown(d, fold, row, Atom(JsonIsTrue(field.name), []), FlagHolds(field, row));
  }

  lemma AttachmentComparisonExact(d: Dialect, fold: CharFold, row: Row, field: Field, op: CompareOp, b: bool)
    requires field.kind == Attachment && TagText.Plain(true, field.mimePrefix) && (op == Eq || op == Neq)
    ensures SaysExactly(d, fold, row, if (op == Eq) == b then AttachmentLeaf(field) else Not(AttachmentLeaf(field)),
                        BoolHolds(op, FlagHolds(field, row), b))
  {
    hide AttachmentLeaf, HasAttachmentOf, TagText.Plain, Eval;
    AttachmentExact(d, fold, row, field);
    NotOfKnown(d, fold, row, AttachmentLeaf(field), HasAttachmentOf(row, field.mimePrefix));
  }

  lemma ScalarComparisonExact(d: Dialect, fold: CharFold, row: Row, field: Field, op: CompareOp, v: Value)
    requires field.kind == FieldKind.Scalar && TypedField(field, row) && LeafScalar(field, op, Literal(v)).Ok?
    requires v.Null? || Present(field, row)
    ensures SaysExactly(d, fold, row, LeafScalar(field, op, Literal(v)).value,
                        ScalarHolds(op, ColumnValue(row, field.name), v))
  {
    hide Less;
  }

  lemma SizeExact(schema: Schema, d: Dialect, fold: CharFold, row: Row, fn: string, args: seq<ValueExpr>, op: CompareOp,
                  v: Value)
    requires LeafComparison(schema, d, FunctionValue(fn, args), op, Literal(v)).Ok?
    ensures SaysExactly(d, fold, row, LeafComparison(schema, d, FunctionValue(fn, args), op, Literal(v)).value,
                        LeafHolds(schema, row, Comparison(FunctionValue(fn, args), op, Literal(v))))
  {
    hide Less;
  }

  lemma {:induction false} InArgumentsExact(row: Row, field: Field, values: seq<ValueExpr>)
    requires TypedField(field, row) && Present(field, row) && field.kind == FieldKind.Scalar &&
             InArguments(field, values).Ok?
    ensures CompareAny(ColumnValue(row, field.name), InArguments(field, values).value) ==
            Known(exists v :: v in values && v.Literal? && !v.value.Null? &&
                    ScalarHolds(Eq, ColumnValue(row, field.name), v.value))
  {
    if values == [] {
    } else {
      InArgumentsExact(row, field, values[1..]);
      assert InArguments(field, values).value[1..] == InArguments(field, values[1..]).value;
      assert forall v :: v in values <==> v == values[0] || v in values[1..];
      ScalarArgumentExact(row, field, values[0].value);
    }
  }

  lemma ScalarArgumentExact(row: Row, field: Field, v: Value)
    requires TypedField(field, row) && Present(field, row) && field.kind == FieldKind.Scalar &&
             ScalarArgument(field, v).Ok?
    ensures !v.Null?
    ensures Compare(Eq, ColumnValue(row, field.name), ScalarArgument(field, v).value) ==
            Known(ScalarHolds(Eq, ColumnValue(row, field.name), v))
  {
    hide Less;
  }

  lemma {:induction false} TagItemsAreLiterals(values: seq<ValueExpr>)
    requires TagItems(values).Ok?
    ensures forall s :: s in TagItems(values).value <==> Literal(StrV(s)) in values
    ensures forall v :: v in values ==> v.Literal? && v.value.StrV?
  {
    if values == [] {
    } else {
      TagItemsAreLiterals(values[1..]);
      assert forall v :: v in values <==> v == values[0] || v in values[1..];
    }
  }

  lemma InExact(schema: Schema, d: Dialect, fold: CharFold, row: Row, f: string, values: seq<ValueExpr>)
    requires TypedRow(schema, row) && PlainLeaf(d, fold, In(FieldRef(f), values)) &&
             LeafIn(schema, d, FieldRef(f), values).Ok?
    requires f == "tag" ==> ResolveAlias(schema, f).Some? && ResolveAlias(schema, f).value.kind == JsonList
    requires Complete(schema, d, row, In(FieldRef(f), values))
    ensures SaysExactly(d, fold, row, LeafIn(schema, d, FieldRef(f), values).value,
                        LeafHolds(schema, row, In(FieldRef(f), values)))
  {
    hide TagInList, UnderTag, AllTags, TagItems, InArguments, ScalarHolds, TagLiteral;
    if f == "tag" {
      TagInPresent(schema, d, fold, row, values);
    } else {
      assert TypedField(schema[f], row);
      InArgumentsExact(row, schema[f], values);
      EvalAtom(d, fold, row, ColumnIn(f), InArguments(schema[f], values).value);
    }
  }

  lemma TagInPresent(schema: Schema, d: Dialect, fold: CharFold, row: Row, values: seq<ValueExpr>)
    requires TypedRow(schema, row) && PlainLeaf(d, fold, In(FieldRef("tag"), values))
    requires LeafIn(schema, d, FieldRef("tag"), values).Ok? && ResolveAlias(schema, "tag").value.kind == JsonList
    requires ResolveAlias(schema, "tag").value.name in row.lists
    ensures SaysExactly(d, fold, row, LeafIn(schema, d, FieldRef("tag"), values).value,
                        LeafHolds(schema, row, In(FieldRef("tag"), values)))
  {
    hide TagInList, UnderTag, AllTags, TagItems, TagLiteral;
    var field := ResolveAlias(schema, "tag").value;
    assert TypedField(field, row) by { assert field.name in schema && schema[field.name] == field; }
    TagItemsAreLiterals(values);
    var texts := TagItems(values).value;
    TagInListExact(d, fold, row, field.name, texts);
    TagValuesSame(row, field.name, texts, values);
  }

  /** A pattern or membership over a list that the payload omits is NULL, and so is any disjunction of them. */
  lemma {:induction false} MissingItems(d: Dialect, fold: CharFold, row: Row, field: string, texts: seq<string>)
    requires field !in row.lists && texts != []
    ensures EvalDisj(Meaning(d, fold, row), TagItemLeaves(d, field, texts)) == Unknown
  {
    var m, items := Meaning(d, fold, row), TagItemLeaves(d, field, texts);
    EvalPair(m, ExactTagLeaf(d, field, texts[0]), Atom(ListLike(field), [StrV("%\"" + texts[0] + "/%")]));
    assert Eval(m, items[0]) == Unknown;
    assert items[1..] == TagItemLeaves(d, field, texts[1..]);
    if |texts| == 1 {
      assert items[1..] == [];
    } else {
      MissingItems(d, fold, row, field, texts[1..]);
    }
  }

  lemma MissingTagIn(d: Dialect, fold: CharFold, row: Row, field: string, texts: seq<string>)
    requires field !in row.lists && texts != []
    ensures Eval(Meaning(d, fold, row), TagInList(d, field, texts)) == Unknown
  {
    hide TagItemLeaf;
    MissingItems(d, fold, row, field, texts);
    var items := TagItemLeaves(d, field, texts);
    if |items| == 1 {
      assert items[1..] == [];
      assert EvalDisj(Meaning(d, fold, row), items) == KOr(Eval(Meaning(d, fold, row), items[0]), False);
    }
  }

  /** `tag in [...]` is exact if and only if the payload has the list; otherwise it is NULL. */
  lemma TagInExactIff(schema: Schema, d: Dialect, fold: CharFold, row: Row, values: seq<ValueExpr>)
    requires TypedRow(schema, row) && PlainLeaf(d, fold, In(FieldRef("tag"), values)) && values != []
    requires LeafIn(schema, d, FieldRef("tag"), values).Ok? && ResolveAlias(schema, "tag").value.kind == JsonList
    ensures var sql, list := LeafIn(schema, d, FieldRef("tag"), values).value, ResolveAlias(schema, "tag").value.name;
            && (SaysExactly(d, fold, row, sql, LeafHolds(schema, row, In(FieldRef("tag"), values))) <==>
                list in row.lists)
            && (list !in row.lists ==> Eval(Meaning(d, fold, row), sql) == Unknown)
  {
    hide TagInList, UnderTag, AllTags, TagItems, TagLiteral, TypedRow, PlainLeaf, LeafHolds;
    var list := ResolveAlias(schema, "tag").value.name;
    if list in row.lists {
      TagInPresent(schema, d, fold, row, values);
    } else {
      TagItemsAreMany(values);
      MissingTagIn(d, fold, row, list, TagItems(values).value);
    }
  }

  lemma TagItemsAreMany(values: seq<ValueExpr>)
    requires TagItems(values).Ok?
    ensures TagItems(values).value == [] <==> values == []
  {
  }

  lemma TagValuesSame(row: Row, field: string, texts: seq<string>, values: seq<ValueExpr>)
    requires field in row.lists && forall s :: s in texts <==> Literal(StrV(s)) in values
    ensures (exists t, s :: t in row.lists[field] && s in texts && UnderTag(s, t)) <==>
            (exists t, v :: t in row.lists[field] && v in values && v.Literal? && v.value.StrV? &&
               UnderTag(v.value.s, t))
  {
    hide UnderTag;
    if t, s :| t in row.lists[field] && s in texts && UnderTag(s, t) {
      assert Literal(StrV(s)) in values && Literal(StrV(s)).value.s == s;
    }
    if t, v :| t in row.lists[field] && v in values && v.Literal? && v.value.StrV? && UnderTag(v.value.s, t) {
      assert v == Literal(StrV(v.value.s));
    }
  }

  /** `"x" in tags` is exact if and only if the payload has the list; otherwise it is NULL. */
  lemma ElementInExactIff(schema: Schema, d: Dialect, fold: CharFold, row: Row, element: ValueExpr, f: string)
    requires TypedRow(schema, row) && PlainLeaf(d, fold, ElementIn(element, f)) &&
             LeafElementIn(schema, d, element, f).Ok?
    ensures var sql := LeafElementIn(schema, d, element, f).value;
            && (SaysExactly(d, fold, row, sql, LeafHolds(schema, row, ElementIn(element, f))) <==> f in row.lists)
            && (f !in row.lists ==> Eval(Meaning(d, fold, row), sql) == Unknown)
  {
    hide AllTags, LiteralFor, Quoted;
    assert TypedField(schema[f], row);
    if f in row.lists {
      hide ExactTagLeaf, Eval;
      MembershipExact(d, fold, row, f, element.value.s);
    }
  }

  /** The search of a column is what LIKE makes of the folded texts. */
  lemma ContainsIsSearch(schema: Schema, d: Dialect, fold: CharFold, row: Row, f: string, text: string)
    requires LeafContains(schema, d, f, text).Ok? && ColumnValue(row, f).StrV?
    ensures SaysExactly(d, fold, row, LeafContains(schema, d, f, text).value,
                        SearchFinds(fold, Escapes(d), text, ColumnValue(row, f).s))
  {
    hide Like, FoldText;
  }

  lemma ContainsExact(schema: Schema, d: Dialect, fold: CharFold, row: Row, f: string, text: string)
    requires TypedRow(schema, row) && FoldsText(fold) && PlainLeaf(d, fold, Contains(f, text)) &&
             LeafContains(schema, d, f, text).Ok?
    requires schema[f].kind == FieldKind.Scalar && schema[f].ty == StringType &&
             Complete(schema, d, row, Contains(f, text))
    ensures SaysExactly(d, fold, row, LeafContains(schema, d, f, text).value, LeafHolds(schema, row, Contains(f, text)))
  {
    hide Substring, FoundFolded, FoldsText, CaselessText, SearchFinds;
    assert TypedField(schema[f], row);
    ContainsIsSearch(schema, d, fold, row, f, text);
    LikeIsFoldedSearch(fold, Escapes(d), text, ColumnValue(row, f).s);
    CaselessSearchIsExact(fold, text, ColumnValue(row, f).s);
  }

  /** The row that differs from an empty one only in one column. */
  function RowWith(f: string, text: string): Row { Row(map[f := StrV(text)], map[], map[], []) }

  /**
   A row that holds one text and nothing else is typed; conditions on that text, on flags and on tests of lists are
   complete on it, and that some text is in a list is settled.
   */
  lemma SparseRowIsCovered(schema: Schema, d: Dialect, f: string, text: string, op: CompareOp, v: Value, flag: string,
                           list: string,
                           p: TagPredicate)
    requires f in schema && schema[f].kind == FieldKind.Scalar && schema[f].ty == StringType
    ensures TypedRow(schema, RowWith(f, text))
    ensures Complete(schema, d, RowWith(f, text), Comparison(FieldRef(f), op, Literal(v)))
    ensures Complete(schema, d, RowWith(f, text), Negation(FieldPredicate(flag)))
    ensures Complete(schema, d, RowWith(f, text), ListComprehension(list, p))
    ensures Settled(schema, d, RowWith(f, text), ElementIn(Literal(v), list), true)
  {
    forall name | name in schema ensures TypedField(schema[name], RowWith(f, text)) {
    }
  }

  lemma SearchSaysWhatItFinds(schema: Schema, d: Dialect, fold: CharFold, f: string, text: string, content: string,
                              says: bool)
    requires LeafContains(schema, d, f, text).Ok?
    ensures SaysExactly(d, fold, RowWith(f, content), LeafContains(schema, d, f, text).value, says) <==>
              (says <==> SearchFinds(fold, Escapes(d), text, content))
  {
    hide SearchFinds, LeafContains;
    ContainsIsSearch(schema, d, fold, RowWith(f, content), f, text);
  }

  /** The search finds the folded needle, in every content, if and only if no character of the needle is a wildcard. */
  lemma ContainsFindsFoldedIffPlain(schema: Schema, d: Dialect, fold: CharFold, f: string, text: string)
    requires FoldsText(fold) && LeafContains(schema, d, f, text).Ok?
    ensures (forall content ::
               SaysExactly(d, fold, RowWith(f, content), LeafContains(schema, d, f, text).value,
                           FoundFolded(fold, text, content)))
            <==> TagText.Plain(Escapes(d), text)
  {
    hide SearchFinds, FoundFolded, SaysExactly, FoldsText, LeafContains, TagText.Plain;
    forall content
      ensures SaysExactly(d, fold, RowWith(f, content), LeafContains(schema, d, f, text).value,
                          FoundFolded(fold, text, content)) <==>
                (SearchFinds(fold, Escapes(d), text, content) <==> FoundFolded(fold, text, content))
    {
      SearchSaysWhatItFinds(schema, d, fold, f, text, content, FoundFolded(fold, text, content));
    }
    FoldedSearchIffPlain(fold, Escapes(d), text);
  }

  /**
   Where folding is one character to one, `contains` selects what it should for every content of the column if and
   only if the needle has neither wildcards (a backslash is one where LIKE has it escape) nor cased characters.
   */
  lemma ContainsExactIff(schema: Schema, d: Dialect, fold: CharFold, f: string, text: string)
    requires FoldsText(fold) && Simple(fold) && LeafContains(schema, d, f, text).Ok?
    ensures (forall content ::
               SaysExactly(d, fold, RowWith(f, content), LeafContains(schema, d, f, text).value,
                           Substring(text, content)))
            <==> TagText.Plain(Escapes(d), text) && CaselessText(fold, text)
  {
    hide SearchFinds, Substring, CaselessText, SaysExactly, FoldsText, Simple, LeafContains, TagText.Plain;
    forall content
      ensures SaysExactly(d, fold, RowWith(f, content), LeafContains(schema, d, f, text).value,
                          Substring(text, content)) <==>
                (SearchFinds(fold, Escapes(d), text, content) <==> Substring(text, content))
    {
      SearchSaysWhatItFinds(schema, d, fold, f, text, content, Substring(text, content));
    }
    SearchExactIff(fold, Escapes(d), text);
  }

  /** The search finds text that differs from the needle in case only: `contains("a")` selects the content "A". */
  lemma ContainsIgnoresCase(schema: Schema, d: Dialect, fold: CharFold, f: string)
    requires FoldsText(fold) && fold('A') == fold('a') && LeafContains(schema, d, f, "a").Ok?
    ensures SaysExactly(d, fold, RowWith(f, "A"), LeafContains(schema, d, f, "a").value, true) && !Substring("a", "A")
  {
    hide FoundFolded, SaysExactly, SearchFinds;
    ContainsIsSearch(schema, d, fold, RowWith(f, "A"), f, "a");
    LikeIsFoldedSearch(fold, Escapes(d), "a", "A");
    CaseIsIgnored(fold, "a", 0, 'A');
    assert "a"[0 := 'A'] == "A";
  }

  /** A needle with wildcards finds a content that does not hold it, whatever the folding. */
  lemma ContainsMatchesWildcard(schema: Schema, d: Dialect, fold: CharFold, f: string, text: string)
    requires FoldsText(fold) && LeafContains(schema, d, f, text).Ok? && !TagText.Plain(Escapes(d), text)
    ensures var content := Sample(Escapes(d), '%', text);
            SaysExactly(d, fold, RowWith(f, content), LeafContains(schema, d, f, text).value, true) &&
              !Substring(text, content)
  {
    hide Substring, SaysExactly, SearchFinds, Sample, LeafContains, TagText.Plain;
    WildcardFindsOther(fold, Escapes(d), text);
    ContainsIsSearch(schema, d, fold, RowWith(f, Sample(Escapes(d), '%', text)), f, text);
  }

  /** What the front end guarantees of a condition: aliases lead to lists and contains() is about text. */
  predicate Typed(schema: Schema, cond: Condition) {
    match cond
    case Logical(_, l, r) => Typed(schema, l) && Typed(schema, r)
    case Negation(e) => Typed(schema, e)
    case In(FieldRef(f), _) => f == "tag" ==>
      ResolveAlias(schema, f).Some? && ResolveAlias(schema, f).value.kind == JsonList
    case Contains(f, _) => f in schema ==> schema[f].kind == FieldKind.Scalar && schema[f].ty == StringType
    case _ => true
  }

  lemma LeafExact(schema: Schema, d: Dialect, fold: CharFold, row: Row, cond: Condition)
    requires !cond.Logical? && !cond.Negation? && !cond.Constant?
    requires TypedRow(schema, row) && PlainSchema(schema) && FoldsText(fold) && PlainLeaf(d, fold, cond) &&
             Typed(schema, cond)
    requires Complete(schema, d, row, cond) && LeafOf(schema, d, cond).Ok?
    ensures SaysExactly(d, fold, row, LeafOf(schema, d, cond).value, LeafHolds(schema, row, cond))
  {
    hide LeafPredicate, LeafComparison, LeafIn, LeafElementIn, LeafContains, LeafComprehension, LeafHolds, SaysExactly,
         TypedRow, PlainSchema, TypedField;
    match cond
    case FieldPredicate(f) => PredicateExact(schema, d, fold, row, f);
    case Comparison(lhs, op, rhs) => ComparisonExact(schema, d, fold, row, lhs, op, rhs);
    case In(lhs, values) =>
      InNeedsField(schema, d, lhs, values);
      InExact(schema, d, fold, row, lhs.name, values);
    case ElementIn(element, f) =>
      ElementInNeedsField(schema, d, element, f);
      ElementInExactIff(schema, d, fold, row, element, f);
    case Contains(f, text) =>
      ContainsNeedsField(schema, d, f, text);
      ContainsExact(schema, d, fold, row, f, text);
    case ListComprehension(f, p) => ComprehensionExact(schema, d, fold, row, f, p);
  }

  lemma ElementInNeedsField(schema: Schema, d: Dialect, element: ValueExpr, f: string)
    ensures LeafElementIn(schema, d, element, f).Ok? ==> f in schema && schema[f].kind == JsonList
  {
  }

  lemma InNeedsField(schema: Schema, d: Dialect, lhs: ValueExpr, values: seq<ValueExpr>)
    ensures LeafIn(schema, d, lhs, values).Ok? ==> lhs.FieldRef?
  {
  }

  lemma ContainsNeedsField(schema: Schema, d: Dialect, f: string, text: string)
    ensures LeafContains(schema, d, f, text).Ok? ==> f in schema
  {
  }

  lemma ComparisonExact(schema: Schema, d: Dialect, fold: CharFold, row: Row, lhs: ValueExpr, op: CompareOp,
                        rhs: ValueExpr)
    requires TypedRow(schema, row) && PlainSchema(schema) && LeafComparison(schema, d, lhs, op, rhs).Ok?
    requires Complete(schema, d, row, Comparison(lhs, op, rhs))
    ensures SaysExactly(d, fold, row, LeafComparison(schema, d, lhs, op, rhs).value,
                        LeafHolds(schema, row, Comparison(lhs, op, rhs)))
  {
    hide TypedField, SaysExactly, LeafJsonBool, ToInt64, ScalarHolds, FlagHolds, BoolHolds, PlainSchema;
    ComparisonNeedsLiteral(schema, d, lhs, op, rhs);
    if lhs.FunctionValue? {
      SizeExact(schema, d, fold, row, lhs.fn, lhs.args, op, rhs.value);
    } else if schema[lhs.name].kind == FieldKind.Scalar {
      assert TypedField(schema[lhs.name], row);
      ScalarComparisonExact(d, fold, row, schema[lhs.name], op, rhs.value);
    } else {
      FlagComparisonExact(schema, d, fold, row, lhs.name, op, rhs.value);
    }
  }

  lemma ComparisonNeedsLiteral(schema: Schema, d: Dialect, lhs: ValueExpr, op: CompareOp, rhs: ValueExpr)
    requires LeafComparison(schema, d, lhs, op, rhs).Ok?
    ensures rhs.Literal? && (lhs.FunctionValue? || (lhs.FieldRef? && lhs.name in schema))
  {
  }

  /**
   Where no atom of the condition meets a NULL, and with plain literals, the Kleene reading of the translated
   condition is the Boolean meaning of the condition, in every dialect.
   */
  lemma {:induction false} TranslationIsExact(schema: Schema, d: Dialect, fold: CharFold, row: Row, cond: Condition)
    requires TypedRow(schema, row) && PlainSchema(schema) && FoldsText(fold) && PlainLiterals(d, fold, cond) &&
             Typed(schema, cond)
    requires Complete(schema, d, row, cond) && Translate(schema, d, cond).Ok?
    ensures EvalLogic(Meaning(d, fold, row), Translate(schema, d, cond).value) == Known(Holds(schema, row, cond))
  {
    hide LeafOf, LeafHolds, TypedRow, PlainSchema, Meaning, PlainLeaf, FoldsText;
    match cond
    case Logical(_, l, r) =>
      TranslationIsExact(schema, d, fold, row, l);
      TranslationIsExact(schema, d, fold, row, r);
      KOrOfKnown(Holds(schema, row, l), Holds(schema, row, r));
    case Negation(e) => TranslationIsExact(schema, d, fold, row, e);
    case Constant(_) =>
    case _ => LeafExact(schema, d, fold, row, cond);
  }

  lemma LeafSettles(schema: Schema, d: Dialect, fold: CharFold, row: Row, cond: Condition, wanted: bool)
    requires !cond.Logical? && !cond.Negation? && !cond.Constant?
    requires TypedRow(schema, row) && PlainSchema(schema) && FoldsText(fold) && PlainLeaf(d, fold, cond) &&
             Typed(schema, cond)
    requires Settled(schema, d, row, cond, wanted) && LeafOf(schema, d, cond).Ok?
    ensures Eval(Meaning(d, fold, row), LeafOf(schema, d, cond).value) == Known(wanted) <==>
              LeafHolds(schema, row, cond) == wanted
  {
    hide LeafComparison, LeafIn, LeafElementIn, LeafContains, LeafComprehension, LeafPredicate, LeafHolds, TypedRow,
         PlainSchema, FoldsText, PlainLeaf, Meaning, Eval, Complete, OnMissing;
    if Complete(schema, d, row, cond) {
      LeafExact(schema, d, fold, row, cond);
    } else {
      MissingLeaf(schema, d, fold, row, cond, wanted);
    }
  }

  /** A flag or list that the payload omits: NULL in SQL, and not as wanted in its reading as false or empty. */
  lemma MissingLeaf(schema: Schema, d: Dialect, fold: CharFold, row: Row, cond: Condition, wanted: bool)
    requires !cond.Logical? && !cond.Negation? && !cond.Constant?
    requires OnMissing(schema, d, row, cond, wanted) && Typed(schema, cond) && LeafOf(schema, d, cond).Ok?
    ensures Eval(Meaning(d, fold, row), LeafOf(schema, d, cond).value) != Known(wanted)
    ensures LeafHolds(schema, row, cond) != wanted
  {
    hide LeafComparison, LeafIn, LeafElementIn;
    match cond
    case Comparison(lhs, op, rhs) => MissingFlag(schema, d, fold, row, lhs.name, op, rhs.value);
    case In(_, values) => MissingTags(schema, d, fold, row, values);
    case ElementIn(element, f) => MissingList(schema, d, fold, row, element, f);
  }

  lemma MissingFlag(schema: Schema, d: Dialect, fold: CharFold, row: Row, f: string, op: CompareOp, v: Value)
    requires f in schema && schema[f].kind == JsonBool && f !in row.flags && !ReadsMissingFlag(d, f)
    requires LeafComparison(schema, d, FieldRef(f), op, Literal(v)).Ok?
    ensures Eval(Meaning(d, fold, row), LeafComparison(schema, d, FieldRef(f), op, Literal(v)).value) == Unknown
    ensures v.BoolV? ==> LeafHolds(schema, row, Comparison(FieldRef(f), op, Literal(v))) == BoolHolds(op, false, v.b)
  {
    hide LeafJsonBool, Eval;
    JsonBoolExact(d, fold, row, schema[f], op, v);
  }

  lemma MissingTags(schema: Schema, d: Dialect, fold: CharFold, row: Row, values: seq<ValueExpr>)
    requires LeafIn(schema, d, FieldRef("tag"), values).Ok? && ResolveAlias(schema, "tag").value.name !in row.lists
    ensures Eval(Meaning(d, fold, row), LeafIn(schema, d, FieldRef("tag"), values).value) != True
    ensures !LeafHolds(schema, row, In(FieldRef("tag"), values))
  {
    hide TagItems;
    var texts := TagItems(values).value;
    if texts == [] {
    } else {
      MissingTagIn(d, fold, row, ResolveAlias(schema, "tag").value.name, texts);
      hide TagInList;
    }
  }

  lemma MissingList(schema: Schema, d: Dialect, fold: CharFold, row: Row, element: ValueExpr, f: string)
    requires LeafElementIn(schema, d, element, f).Ok? && f !in row.lists
    ensures Eval(Meaning(d, fold, row), LeafElementIn(schema, d, element, f).value) == Unknown
    ensures !LeafHolds(schema, row, ElementIn(element, f))
  {
    hide Quoted;
  }

  /**
   On any row where the condition is settled, the SQL has the wanted value exactly if the condition does; in particular
   it selects the rows that satisfy the condition, an untagged memo under `"x" in tags` among those it does not.
   */
  lemma {:induction false} TranslationSettles(schema: Schema, d: Dialect, fold: CharFold, row: Row, cond: Condition,
                                              wanted: bool)
    requires TypedRow(schema, row) && PlainSchema(schema) && FoldsText(fold) && PlainLiterals(d, fold, cond) &&
             Typed(schema, cond)
    requires Settled(schema, d, row, cond, wanted) && Translate(schema, d, cond).Ok?
    ensures EvalLogic(Meaning(d, fold, row), Translate(schema, d, cond).value) == Known(wanted) <==>
              Holds(schema, row, cond) == wanted
  {
    hide LeafOf, LeafHolds, TypedRow, PlainSchema, Meaning, PlainLeaf, FoldsText, Complete, OnMissing;
    match cond
    case Logical(_, l, r) =>
      TranslationSettles(schema, d, fold, row, l, wanted);
      TranslationSettles(schema, d, fold, row, r, wanted);
    case Negation(e) => TranslationSettles(schema, d, fold, row, e, !wanted);
    case Constant(_) =>
    case _ => LeafSettles(schema, d, fold, row, cond, wanted);
  }
}
