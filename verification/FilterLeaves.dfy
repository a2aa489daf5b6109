/** The SQL of the conditions at the leaves of a filter, with their literals in place (internal/filter/render.go). */
module FilterLeaves {
  import opened FilterIr
  import opened Sql
  import opened Wrappers

  /** Conversion to a 64-bit integer; fractions are cut off. */
  function ToInt64(v: Value): Result<Value> {
    match v
    case IntV(i) => Ok(IntV(i))
    case RealV(r) => Ok(IntV(if r >= 0.0 then r.Floor else -((-r).Floor)))
    case _ => Err
  }

  /** Cutting off goes towards zero. */
  lemma FractionIsCutOff(r: real)
    ensures ToInt64(RealV(r)).Ok? && ToInt64(RealV(r)).value.IntV?
    ensures var n := ToInt64(RealV(r)).value.i as real;
            if r >= 0.0 then n <= r < n + 1.0 else n - 1.0 < r <= n
  {
  }

  function ExpectBool(v: ValueExpr): Result<bool> {
    if v.Literal? && v.value.BoolV? then Ok(v.value.b) else Err
  }

  /** SQLite stores booleans as 0 and 1. */
  function BoolArgument(d: Dialect, b: bool): Value {
    if d.SQLite? then IntV(if b then 1 else 0) else BoolV(b)
  }

  function Quoted(s: string): string { "\"" + s + "\"" }

  function LeafPredicate(schema: Schema, name: string): Result<Sql<Value>> {
    if name !in schema then Err
    else
      match schema[name].kind
      case BoolColumn => Ok(Atom(ColumnIsTrue(name), []))
      case JsonBool => Ok(Atom(JsonIsTrue(name), []))
      case Attachment => Ok(AttachmentLeaf(schema[name]))
      case _ => Err
  }

  function AttachmentLeaf(field: Field): Sql<Value> {
    Atom(AttachmentExists, if field.mimePrefix != "" then [StrV(field.mimePrefix + "%")] else [])
  }

  function LeafComparison(schema: Schema, d: Dialect, lhs: ValueExpr, op: CompareOp,
                          rhs: ValueExpr): Result<Sql<Value>> {
    match lhs
    case FieldRef(name) =>
      if name !in schema then Err
      else
        (match schema[name].kind
         case BoolColumn =>
           (match ExpectBool(rhs)
            case Err => Err
            case Ok(b) => Ok(Atom(ColumnCompare(name, op), [BoolArgument(d, b)])))
         case JsonBool => LeafJsonBool(d, name, op, rhs)
         case Attachment =>
           (match ExpectBool(rhs)
            case Err => Err
            case Ok(b) =>
              if op != Eq && op != Neq then Err
              else if (op == Eq) == b then Ok(AttachmentLeaf(schema[name]))
              else Ok(Not(AttachmentLeaf(schema[name]))))
         case Scalar => LeafScalar(schema[name], op, rhs)
         case _ => Err)
    case FunctionValue(fn, args) =>
      if fn == "size" && |args| == 1 && args[0].FieldRef? && args[0].name in schema &&
         schema[args[0].name].kind == JsonList && rhs.Literal? && ToInt64(rhs.value).Ok? then
        Ok(Atom(ListLength(args[0].name, op), [ToInt64(rhs.value).value]))
      else Err
    case Literal(_) => Err
  }

  function LeafJsonBool(d: Dialect, name: string, op: CompareOp, rhs: ValueExpr): Result<Sql<Value>> {
    match ExpectBool(rhs)
    case Err => Err
    case Ok(b) =>
      match d
      case SQLite =>
        if op != Eq && op != Neq then Err
        else if name == "has_task_list" then Ok(Atom(JsonEquals(name, op, b), []))
        else if (op == Eq) == b then Ok(Atom(JsonIsTrue(name), []))
        else Ok(Not(Atom(JsonIsTrue(name), [])))
      case MySQL => Ok(Atom(JsonEquals(name, op, b), []))
      case Postgres => Ok(Atom(JsonCompare(name, op), [BoolV(b)]))
  }

  function LeafScalar(field: Field, op: CompareOp, rhs: ValueExpr): Result<Sql<Value>> {
    if !rhs.Literal? then Err
    else if rhs.value.Null? then
      if op == Eq then Ok(Atom(ColumnIsNull(field.name), []))
      else if op == Neq then Ok(Atom(ColumnIsNotNull(field.name), []))
      else Err
    else
      match ScalarArgument(field, rhs.value)
      case Err => Err
      case Ok(v) => Ok(Atom(ColumnCompare(field.name, op), [v]))
  }

  function ScalarArgument(field: Field, v: Value): Result<Value> {
    match field.ty
    case StringType => if v.StrV? then Ok(v) else Err
    case IntType => ToInt64(v)
    case TimestampType => ToInt64(v)
    case BoolType => Err
  }

  function LeafIn(schema: Schema, d: Dialect, lhs: ValueExpr, values: seq<ValueExpr>): Result<Sql<Value>> {
    if !lhs.FieldRef? then Err
    else if lhs.name == "tag" then
      (match (ResolveAlias(schema, "tag"), TagItems(values))
       case (Some(field), Ok(texts)) => Ok(TagInList(d, field.name, texts))
       case _ => Err)
    else if lhs.name !in schema || schema[lhs.name].kind != Scalar then Err
    else
      match InArguments(schema[lhs.name], values)
      case Err => Err
      case Ok(args) => Ok(Atom(ColumnIn(lhs.name), args))
  }

  function InArguments(field: Field, values: seq<ValueExpr>): Result<seq<Value>> {
    if values == [] then Ok([])
    else if !values[0].Literal? || field.ty.TimestampType? then Err
    else
      match (ScalarArgument(field, values[0].value), InArguments(field, values[1..]))
      case (Ok(v), Ok(rest)) => Ok([v] + rest)
      case _ => Err
  }

  /** The texts of a tag list, all of which must be string literals. */
  function TagItems(values: seq<ValueExpr>): Result<seq<string>> {
    if values == [] then Ok([])
    else if !values[0].Literal? || !values[0].value.StrV? then Err
    else
      match TagItems(values[1..])
      case Err => Err
      case Ok(rest) => Ok([values[0].value.s] + rest)
  }

  /** A tag equal to the text, or below it in the hierarchy. */
  function TagItemLeaf(d: Dialect, field: string, text: string): Sql<Value> {
    Disj([ExactTagLeaf(d, field, text), Atom(ListLike(field), [StrV("%\"" + text + "/%")])])
  }

  /** Exact membership: by pattern in SQLite, by the JSON functions elsewhere. */
  function ExactTagLeaf(d: Dialect, field: string, text: string): Sql<Value> {
    if d.SQLite? then Atom(ListLike(field), [StrV("%" + Quoted(text) + "%")])
      else Atom(ListHas(field), [StrV(Quoted(text))])
  }

  function TagInList(d: Dialect, field: string, texts: seq<string>): Sql<Value> {
    var items := TagItemLeaves(d, field, texts);
    if |items| == 1 then items[0] else Disj(items)
  }

  function TagItemLeaves(d: Dialect, field: string, texts: seq<string>): seq<Sql<Value>> {
    seq(|texts|, i requires 0 <= i < |texts| => TagItemLeaf(d, field, texts[i]))
  }

  function LeafElementIn(schema: Schema, d: Dialect, element: ValueExpr, field: string): Result<Sql<Value>> {
    if field in schema && schema[field].kind == JsonList && element.Literal? && element.value.StrV? then
      Ok(ExactTagLeaf(d, field, element.value.s))
    else Err
  }

  function SearchOf(d: Dialect): SearchOperator {
    match d case SQLite => FoldedLike case Postgres => ILike case MySQL => CollatedLike
  }

  function LeafContains(schema: Schema, d: Dialect, field: string, text: string): Result<Sql<Value>> {
    if field in schema then Ok(Atom(ColumnLike(field, SearchOf(d)), [StrV("%" + text + "%")])) else Err
  }

  /** A search is for the text with anything around it, by the operator that the dialect has for it. */
  lemma ContainsSearches(schema: Schema, field: string, text: string)
    requires field in schema
    ensures LeafContains(schema, SQLite, field, text) ==
              Ok(Atom(ColumnLike(field, FoldedLike), [StrV("%" + text + "%")]))
    ensures LeafContains(schema, MySQL, field, text) ==
              Ok(Atom(ColumnLike(field, CollatedLike), [StrV("%" + text + "%")]))
    ensures LeafContains(schema, Postgres, field, text) == Ok(Atom(ColumnLike(field, ILike), [StrV("%" + text + "%")]))
  {
  }

  function LeafComprehension(schema: Schema, d: Dialect, field: string, p: TagPredicate): Result<Sql<Value>> {
    if field !in schema || schema[field].kind != JsonList then Err
    else Ok(NullChecked(field, TagPredicateLeaf(d, field, p)))
  }

  function TagPredicateLeaf(d: Dialect, field: string, p: TagPredicate): Sql<Value> {
    match p
    case Equals(s) => PatternOrHas(d, field, s)
    case StartsWith(s) => Disj([PatternOrHas(d, field, s), Atom(ListLike(field), [StrV("%\"" + s + "%")])])
    case EndsWith(s) => Atom(ListLike(field), [StrV("%" + s + "\"%")])
    case ContainsText(s) => Atom(ListLike(field), [StrV("%" + s + "%")])
  }

  /** Inside comprehensions MySQL matches by pattern too. */
  function PatternOrHas(d: Dialect, field: string, s: string): Sql<Value> {
    if d.Postgres? then Atom(ListHas(field), [StrV(Quoted(s))])
      else Atom(ListLike(field), [StrV("%" + Quoted(s) + "%")])
  }

  /** A condition on a list that must be neither NULL nor empty. */
  function NullChecked<P>(field: string, s: Sql<P>): Sql<P> {
    Conj([s, Atom(ListIsNotNull(field), []), Atom(ListIsNotEmpty(field), [])])
  }

  /** The SQL of a leaf condition, or an error if the schema does not allow it. */
  function LeafOf(schema: Schema, d: Dialect, cond: Condition): Result<Sql<Value>>
    requires !cond.Logical? && !cond.Negation? && !cond.Constant?
  {
    match cond
    case FieldPredicate(field) => LeafPredicate(schema, field)
    case Comparison(lhs, op, rhs) => LeafComparison(schema, d, lhs, op, rhs)
    case In(lhs, values) => LeafIn(schema, d, lhs, values)
    case ElementIn(element, field) => LeafElementIn(schema, d, element, field)
    case Contains(field, text) => LeafContains(schema, d, field, text)
    case ListComprehension(field, p) => LeafComprehension(schema, d, field, p)
  }
}
