/** The renderer: writes SQL text and collects arguments in place (internal/filter/render.go). */
module FilterRender {
  import opened FilterIr
  import opened FilterLeaves
  import opened FilterPlan
  import opened Sql
  import opened Wrappers

  type Text = seq<Token<Placeholder>>

  datatype RenderResult = RenderResult(sql: Text, trivial: bool, unsatisfiable: bool)

  /** A rendered filter; the empty text selects everything. */
  datatype Statement = Statement(sql: Text, args: seq<Value>)

  const ONE_EQUALS_ZERO: Text := [Word(OneEqualsZero, [])]

  /** The result that stands for a folded condition. */
  function ResultOf(f: Folded<Placeholder>): RenderResult {
    match f
    case Trivial => RenderResult([], true, false)
    case Unsatisfiable => RenderResult(ONE_EQUALS_ZERO, false, true)
    case Live(sql) => RenderResult(Print(sql), false, false)
  }

  function StatementText(f: Folded<Placeholder>): Text {
    match f
    case Trivial => []
    case Unsatisfiable => ONE_EQUALS_ZERO
    case Live(sql) => Print(sql)
  }

  function JoinTexts(texts: seq<Text>, sep: Token<Placeholder>): Text {
    if texts == [] then []
    else if |texts| == 1 then texts[0]
    else texts[0] + [sep] + JoinTexts(texts[1..], sep)
  }

  function PrintEach(es: seq<Sql<Placeholder>>): seq<Text> {
    seq(|es|, i requires 0 <= i < |es| => Print(es[i]))
  }

  lemma {:induction false} JoinIsPrintJoined(es: seq<Sql<Placeholder>>, sep: Token<Placeholder>)
    ensures JoinTexts(PrintEach(es), sep) == PrintJoined(es, sep)
  {
    if |es| <= 1 {
    } else {
      JoinIsPrintJoined(es[1..], sep);
      assert PrintEach(es)[1..] == PrintEach(es[1..]);
    }
  }

  /** Combining results is combining what they stand for. */
  function CombineAndResults(l: RenderResult, r: RenderResult): RenderResult {
    if l.unsatisfiable || r.unsatisfiable then RenderResult(ONE_EQUALS_ZERO, false, true)
    else if l.trivial then r
    else if r.trivial then l
    else RenderResult([LParen] + l.sql + [AndWord] + r.sql + [RParen], false, false)
  }

  function CombineOrResults(l: RenderResult, r: RenderResult): RenderResult {
    if l.trivial || r.trivial then RenderResult([], true, false)
    else if l.unsatisfiable then r
    else if r.unsatisfiable then l
    else RenderResult([LParen] + l.sql + [OrWord] + r.sql + [RParen], false, false)
  }

  function NegateResult(e: RenderResult): RenderResult {
    if e.trivial then RenderResult(ONE_EQUALS_ZERO, false, true)
    else if e.unsatisfiable then RenderResult([], true, false)
    else RenderResult([NotWord, LParen] + e.sql + [RParen], false, false)
  }

  lemma ResultsCombine(a: Folded<Placeholder>, b: Folded<Placeholder>)
    ensures CombineAndResults(ResultOf(a), ResultOf(b)) == ResultOf(CombineAnd(a, b))
    ensures CombineOrResults(ResultOf(a), ResultOf(b)) == ResultOf(CombineOr(a, b))
    ensures NegateResult(ResultOf(a)) == ResultOf(CombineNot(a))
  {
    if a.Live? && b.Live? {
      var x, y := a.sql, b.sql;
      assert [x, y][1..] == [y];
      forall sep: Token<Placeholder> ensures PrintJoined([x, y], sep) == Print(x) + [sep] + Print(y) {
        assert PrintJoined([y], sep) == Print(y);
      }
      assert Print(Conj([x, y])) == [LParen] + Print(x) + [AndWord] + Print(y) + [RParen];
      assert Print(Disj([x, y])) == [LParen] + Print(x) + [OrWord] + Print(y) + [RParen];
    }
  }

  class Renderer {
    const schema: Schema
    const dialect: Dialect
    const placeholderOffset: nat
    var placeholderCounter: nat
    var args: seq<Value>

    constructor (schema: Schema, dialect: Dialect, placeholderOffset: nat)
      ensures this.schema == schema && this.dialect == dialect && this.placeholderOffset == placeholderOffset
      ensures Valid() && args == []
    {
      this.schema, this.dialect, this.placeholderOffset := schema, dialect, placeholderOffset;
      placeholderCounter, args := 0, [];
    }

    ghost predicate Valid()
      reads this
    {
      placeholderCounter == |args|
    }

    /** The position in the whole argument list that the next argument gets. */
    ghost function NextIndex(): nat
      reads this
    {
      placeholderOffset + placeholderCounter
    }

    /** What rendering a leaf must do: write its text with numbered placeholders and collect its arguments. */
    twostate predicate Wrote(leaf: Result<Sql<Value>>, new r: Result<Text>)
      reads this
    {
      match leaf
      case Err => r.Err?
      case Ok(s) => r == Ok(Print(Numbering(s, dialect, old(NextIndex())))) && args == old(args) + Params(s)
    }

    method AddArg(v: Value) returns (p: Placeholder)
      requires Valid()
      modifies this
      ensures Valid() && args == old(args) + [v]
      ensures p == PlaceholderFor(dialect, old(NextIndex()))
    {
      placeholderCounter := placeholderCounter + 1;
      args := args + [v];
      if dialect.Postgres? {
        p := Numbered(placeholderOffset + placeholderCounter);
      } else {
        p := Positional;
      }
    }

    /** An atom with one argument. */
    method WriteAtom(kind: AtomKind, v: Value) returns (text: Text)
      requires Valid()
      modifies this
      ensures Valid() && Wrote(Ok(Atom(kind, [v])), Ok(text))
    {
      var p := AddArg(v);
      text := [Word(kind, [p])];
      assert PlaceholdersFrom(dialect, old(NextIndex()), 1) == [p];
    }

    method RenderFieldPredicate(field: string) returns (r: Result<Text>)
      requires Valid()
      modifies this
      ensures Valid() && Wrote(LeafPredicate(schema, field), r)
    {
      assert PlaceholdersFrom(dialect, NextIndex(), 0) == [];
      if field !in schema { return Err; }
      match schema[field].kind {
        case BoolColumn => r := Ok([Word(ColumnIsTrue(field), [])]);
        case JsonBool => r := Ok([Word(JsonIsTrue(field), [])]);
        case Attachment =>
          var text := RenderAttachmentPredicate(schema[field]);
          r := Ok(text);
        case _ => r := Err;
      }
    }

    method RenderAttachmentPredicate(field: Field) returns (text: Text)
      requires Valid()
      modifies this
      ensures Valid() && Wrote(Ok(AttachmentLeaf(field)), Ok(text))
    {
      assert PlaceholdersFrom(dialect, NextIndex(), 0) == [];
      if field.mimePrefix != "" {
        text := WriteAtom(AttachmentExists, StrV(field.mimePrefix + "%"));
      } else {
        text := [Word(AttachmentExists, [])];
      }
    }

    method RenderComparison(lhs: ValueExpr, op: CompareOp, rhs: ValueExpr) returns (r: Result<Text>)
      requires Valid()
      modifies this
      ensures Valid() && Wrote(LeafComparison(schema, dialect, lhs, op, rhs), r)
    {
      match lhs {
        case FieldRef(name) =>
          if name !in schema { return Err; }
          match schema[name].kind {
            case BoolColumn =>
              var b := ExpectBool(rhs);
              if b.Err? { return Err; }
              var text := WriteAtom(ColumnCompare(name, op), BoolArgument(dialect, b.value));
              r := Ok(text);
            case JsonBool => r := RenderJsonBoolComparison(name, op, rhs);
            case Attachment => r := RenderAttachmentComparison(name, op, rhs);
            case Scalar => r := RenderScalarComparison(schema[name], op, rhs);
            case _ => r := Err;
          }
        case FunctionValue(fn, fnArgs) =>
          if fn != "size" || |fnArgs| != 1 || !fnArgs[0].FieldRef? || fnArgs[0].name !in schema ||
             schema[fnArgs[0].name].kind != JsonList || !rhs.Literal? { return Err; }
          var n := ToInt64(rhs.value);
          if n.Err? { return Err; }
          var text := WriteAtom(ListLength(fnArgs[0].name, op), n.value);
          r := Ok(text);
        case Literal(_) => r := Err;
      }
    }

    method RenderAttachmentComparison(name: string, op: CompareOp, rhs: ValueExpr) returns (r: Result<Text>)
      requires Valid() && name in schema && schema[name].kind == Attachment
      modifies this
      ensures Valid() && Wrote(LeafComparison(schema, dialect, FieldRef(name), op, rhs), r)
    {
      var b := ExpectBool(rhs);
      if b.Err? || (op != Eq && op != Neq) { return Err; }
      var text := RenderAttachmentPredicate(schema[name]);
      if (op == Eq && !b.value) || (op == Neq && b.value) {
        return Ok([NotWord, LParen] + text + [RParen]);
      }
      return Ok(text);
    }

    method RenderJsonBoolComparison(name: string, op: CompareOp, rhs: ValueExpr) returns (r: Result<Text>)
      requires Valid()
      modifies this
      ensures Valid() && Wrote(LeafJsonBool(dialect, name, op, rhs), r)
    {
      assert PlaceholdersFrom(dialect, NextIndex(), 0) == [];
      var b := ExpectBool(rhs);
      if b.Err? { return Err; }
      match dialect {
        case SQLite =>
          if op != Eq && op != Neq { return Err; }
          if name == "has_task_list" {
            r := Ok([Word(JsonEquals(name, op, b.value), [])]);
          } else if (op == Eq && b.value) || (op == Neq && !b.value) {
            r := Ok([Word(JsonIsTrue(name), [])]);
          } else {
            r := Ok([NotWord, LParen] + [Word(JsonIsTrue(name), [])] + [RParen]);
          }
        case MySQL => r := Ok([Word(JsonEquals(name, op, b.value), [])]);
        case Postgres =>
          var text := WriteAtom(JsonCompare(name, op), BoolV(b.value));
          r := Ok(text);
      }
    }

    method RenderScalarComparison(field: Field, op: CompareOp, rhs: ValueExpr) returns (r: Result<Text>)
      requires Valid()
      modifies this
      ensures Valid() && Wrote(LeafScalar(field, op, rhs), r)
    {
      assert PlaceholdersFrom(dialect, NextIndex(), 0) == [];
      if !rhs.Literal? { return Err; }
      if rhs.value.Null? {
        if op == Eq { return Ok([Word(ColumnIsNull(field.name), [])]); }
        if op == Neq { return Ok([Word(ColumnIsNotNull(field.name), [])]); }
        return Err;
      }
      var v := ScalarArgument(field, rhs.value);
      if v.Err? { return Err; }
      var text := WriteAtom(ColumnCompare(field.name, op), v.value);
      return Ok(text);
    }

    /** Membership of a tag by the dialect's own means. */
    method WriteExactTag(field: string, text: string) returns (t: Text)
      requires Valid()
      modifies this
      ensures Valid() && Wrote(Ok(ExactTagLeaf(dialect, field, text)), Ok(t))
    {
      if dialect.SQLite? {
        t := WriteAtom(ListLike(field), StrV("%" + Quoted(text) + "%"));
      } else {
        t := WriteAtom(ListHas(field), StrV(Quoted(text)));
      }
    }

    method RenderElementIn(element: ValueExpr, field: string) returns (r: Result<Text>)
      requires Valid()
      modifies this
      ensures Valid() && Wrote(LeafElementIn(schema, dialect, element, field), r)
    {
      if field !in schema || schema[field].kind != JsonList || !element.Literal? || !element.value.StrV? { return Err; }
      var text := WriteExactTag(field, element.value.s);
      return Ok(text);
    }

    method RenderContains(field: string, text: string) returns (r: Result<Text>)
      requires Valid()
      modifies this
      ensures Valid() && Wrote(LeafContains(schema, dialect, field, text), r)
    {
      if field !in schema { return Err; }
      var arg := StrV("%" + text + "%");
      var t: Text;
      match dialect {
        case SQLite => t := WriteAtom(ColumnLike(field, FoldedLike), arg);
        case Postgres => t := WriteAtom(ColumnLike(field, ILike), arg);
        case MySQL => t := WriteAtom(ColumnLike(field, CollatedLike), arg);
      }
      return Ok(t);
    }

    method RenderIn(lhs: ValueExpr, values: seq<ValueExpr>) returns (r: Result<Text>)
      requires Valid()
      modifies this
      ensures Valid() && Wrote(LeafIn(schema, dialect, lhs, values), r)
    {
      if !lhs.FieldRef? { return Err; }
      if lhs.name == "tag" {
        var field := ResolveAlias(schema, "tag");
        if field.None? { return Err; }
        r := RenderTagInList(field.value.name, values);
      } else {
        if lhs.name !in schema || schema[lhs.name].kind != Scalar { return Err; }
        r := RenderScalarIn(schema[lhs.name], values);
      }
    }

    method RenderScalarIn(field: Field, values: seq<ValueExpr>) returns (r: Result<Text>)
      requires Valid()
      modifies this
      ensures Valid()
      ensures Wrote(match InArguments(field, values) case Err => Err
                    case Ok(vs) => Ok(Atom(ColumnIn(field.name), vs)), r)
    {
      var placeholders: seq<Placeholder> := [];
      ghost var done: seq<Value> := [];
      InArgumentsEnds(field, values, done);
      for i := 0 to |values|
        invariant Valid() && args == old(args) + done && |done| == i
        invariant placeholders == PlaceholdersFrom(dialect, old(NextIndex()), i)
        invariant InArguments(field, values) == AppendValues(done, InArguments(field, values[i..]))
      {
        InArgumentsStep(field, values, i, done);
        if !values[i].Literal? || field.ty.TimestampType? { return Err; }
        var v := ScalarArgument(field, values[i].value);
        if v.Err? { return Err; }
        var p := AddArg(v.value);
        placeholders := placeholders + [p];
        done := done + [v.value];
      }
      InArgumentsEnds(field, values, done);
      return Ok([Word(ColumnIn(field.name), placeholders)]);
    }

    method RenderTagInList(field: string, values: seq<ValueExpr>) returns (r: Result<Text>)
      requires Valid()
      modifies this
      ensures Valid()
      ensures Wrote(match TagItems(values) case Err => Err case Ok(texts) => Ok(TagInList(dialect, field, texts)), r)
    {
      hide Numbering, NumberingAll, Print, PrintEach, ParamsOfAll, TagItems, TagInList, PlaceholdersFrom, JoinTexts;
      var conditions: seq<Text> := [];
      ghost var done: seq<string> := [];
      NoItems(dialect, field, NextIndex());
      ghost var k := NextIndex();
      TagItemsEnds(values, done);
      for i := 0 to |values|
        invariant Valid() && |done| == i && NextIndex() == k + 2 * i
        invariant args == old(args) + ParamsOfAll(TagItemLeaves(dialect, field, done))
        invariant conditions == PrintEach(NumberingAll(TagItemLeaves(dialect, field, done), dialect, k))
        invariant TagItems(values) == AppendTexts(done, TagItems(values[i..]))
      {
        TagItemsStep(values, i, done);
        if !values[i].Literal? || !values[i].value.StrV? { return Err; }
        var str := values[i].value.s;
        var exact := WriteExactTag(field, str);
        var prefix := WriteAtom(ListLike(field), StrV("%\"" + str + "/%"));
        var condition := [LParen] + exact + [OrWord] + prefix + [RParen];
        PairText(ExactTagLeaf(dialect, field, str), Atom(ListLike(field), [StrV("%\"" + str + "/%")]), dialect,
                 k + 2 * i);
        OneMoreItem(dialect, field, done, str, k);
        conditions := conditions + [condition];
        done := done + [str];
      }
      TagItemsEnds(values, done);
      TagListText(dialect, field, done, k);
      if |conditions| == 1 { return Ok(conditions[0]); }
      return Ok([LParen] + JoinTexts(conditions, OrWord) + [RParen]);
    }

    method RenderListComprehension(field: string, p: TagPredicate) returns (r: Result<Text>)
      requires Valid()
      modifies this
      ensures Valid() && Wrote(LeafComprehension(schema, dialect, field, p), r)
    {
      if field !in schema || schema[field].kind != JsonList { return Err; }
      ghost var k := NextIndex();
      var condition: Text;
      match p {
        case Equals(s) => condition := WritePatternOrHas(field, s);
        case StartsWith(s) =>
          var exact := WritePatternOrHas(field, s);
          var prefix := WriteAtom(ListLike(field), StrV("%\"" + s + "%"));
          condition := [LParen] + exact + [OrWord] + prefix + [RParen];
          PairText(PatternOrHas(dialect, field, s), Atom(ListLike(field), [StrV("%\"" + s + "%")]), dialect, k);
        case EndsWith(s) => condition := WriteAtom(ListLike(field), StrV("%" + s + "\"%"));
        case ContainsText(s) => condition := WriteAtom(ListLike(field), StrV("%" + s + "%"));
      }
      NullCheckedText(field, TagPredicateLeaf(dialect, field, p), dialect, k);
      return Ok(WrapWithNullCheck(field, condition));
    }

    method WritePatternOrHas(field: string, s: string) returns (t: Text)
      requires Valid()
      modifies this
      ensures Valid() && Wrote(Ok(PatternOrHas(dialect, field, s)), Ok(t))
    {
      if dialect.Postgres? {
        t := WriteAtom(ListHas(field), StrV(Quoted(s)));
      } else {
        t := WriteAtom(ListLike(field), StrV("%" + Quoted(s) + "%"));
      }
    }

    method RenderCondition(cond: Condition) returns (r: Result<RenderResult>)
      requires Valid()
      modifies this
      ensures Valid()
      ensures match Translate(schema, dialect, cond)
              case Err => r.Err?
              case Ok(l) => r == Ok(ResultOf(Fold(NumberingLogic(l, dialect, old(NextIndex()))))) &&
                            args == old(args) + AllParams(l)
      decreases cond
    {
      hide LeafOf, Fold, ResultOf, Params, Numbering;
      match cond {
        case Logical(operator, left, right) =>
          var l := RenderCondition(left);
          if l.Err? { return Err; }
          var rr := RenderCondition(right);
          if rr.Err? { return Err; }
          r := Ok(if operator.LogicalAnd? then CombineAndResults(l.value, rr.value)
                  else CombineOrResults(l.value, rr.value));
          ghost var a, b := Translate(schema, dialect, left).value, Translate(schema, dialect, right).value;
          LogicalResult(a, b, dialect, old(NextIndex()));
        case Negation(expr) =>
          var e := RenderCondition(expr);
          if e.Err? { return Err; }
          r := Ok(NegateResult(e.value));
          ghost var a := Translate(schema, dialect, expr).value;
          NegationResult(a, dialect, old(NextIndex()));
        case Constant(value) =>
          ConstantResult(value);
          r := Ok(if value then RenderResult([], true, false) else RenderResult(ONE_EQUALS_ZERO, false, true));
        case _ =>
          var text := RenderLeaf(cond);
          if text.Err? { return Err; }
          r := Ok(RenderResult(text.value, false, false));
          LeafResult(LeafOf(schema, dialect, cond).value, dialect, old(NextIndex()));
      }
    }

    method RenderLeaf(cond: Condition) returns (r: Result<Text>)
      requires Valid() && !cond.Logical? && !cond.Negation? && !cond.Constant?
      modifies this
      ensures Valid() && Wrote(LeafOf(schema, dialect, cond), r)
    {
      hide LeafPredicate, LeafComparison, LeafIn, LeafElementIn, LeafContains, LeafComprehension;
      match cond {
        case FieldPredicate(field) => r := RenderFieldPredicate(field);
        case Comparison(lhs, op, rhs) => r := RenderComparison(lhs, op, rhs);
        case In(lhs, values) => r := RenderIn(lhs, values);
        case ElementIn(element, field) => r := RenderElementIn(element, field);
        case Contains(field, text) => r := RenderContains(field, text);
        case ListComprehension(field, p) => r := RenderListComprehension(field, p);
      }
    }

    /** Renders a whole filter: `1 = 0` if it can never hold, the empty text if it always does. */
    method Render(cond: Condition) returns (r: Result<Statement>)
      requires Valid() && args == []
      modifies this
      ensures match Translate(schema, dialect, cond)
              case Err => r.Err?
              case Ok(l) =>
                r == Ok(Statement(StatementText(Fold(NumberingLogic(l, dialect, placeholderOffset))), AllParams(l)))
    {
      hide Fold, Translate;
      var result := RenderCondition(cond);
      ghost var l := Translate(schema, dialect, cond);
      assert l.Ok? ==> [] + AllParams(l.value) == AllParams(l.value);
      match result {
        case Err => r := Err;
        case Ok(res) =>
          r := Ok(Statement(if res.unsatisfiable then ONE_EQUALS_ZERO else if res.trivial then [] else res.sql, args));
      }
    }
  }

  function WrapWithNullCheck(field: string, condition: Text): Text {
    [LParen] + condition + [AndWord, Word(ListIsNotNull(field), []), AndWord, Word(ListIsNotEmpty(field), []), RParen]
  }

  // ----- What the texts written by the leaves denote

  lemma PairText(a: Sql<Value>, b: Sql<Value>, d: Dialect, k: nat)
    ensures Print(Numbering(Disj([a, b]), d, k)) ==
            [LParen] + Print(Numbering(a, d, k)) + [OrWord] + Print(Numbering(b, d, k + |Params(a)|)) + [RParen]
    ensures Params(Disj([a, b])) == Params(a) + Params(b)
  {
    ParamsOfPair(a, b);
    var x, y := Numbering(a, d, k), Numbering(b, d, k + |Params(a)|);
    assert [a, b][1..] == [b] && [b][1..] == [];
    assert NumberingAll([b], d, k + |Params(a)|) == [y];
    assert NumberingAll([a, b], d, k) == [x, y];
    assert [x, y][1..] == [y];
    assert PrintJoined([y], OrWord) == Print(y);
    assert PrintJoined([x, y], OrWord) == Print(x) + [OrWord] + Print(y);
  }

  lemma NullCheckedNumbering(field: string, s: Sql<Value>, d: Dialect, k: nat)
    ensures Numbering(NullChecked(field, s), d, k) == NullChecked(field, Numbering(s, d, k))
    ensures Params(NullChecked(field, s)) == Params(s)
  {
    hide Numbering, Params;
    var u: Sql<Value>, v: Sql<Value> := Atom(ListIsNotNull(field), []), Atom(ListIsNotEmpty(field), []);
    WithoutArguments(ListIsNotNull(field), ListIsNotEmpty(field), d, k + |Params(s)|);
    OfConsed(s, [u, v], d, k);
    assert [s] + [u, v] == [s, u, v];
  }

  /** Two atoms without arguments have no placeholders either. */
  lemma WithoutArguments(a: AtomKind, b: AtomKind, d: Dialect, k: nat)
    ensures ParamsOfAll<Value>([Atom(a, []), Atom(b, [])]) == []
    ensures NumberingAll([Atom(a, []), Atom(b, [])], d, k) == [Atom(a, []), Atom(b, [])]
  {
    var u: Sql<Value>, v: Sql<Value> := Atom(a, []), Atom(b, []);
    assert [u, v][1..] == [v] && [v][1..] == [];
    assert PlaceholdersFrom(d, k, 0) == [] && Numbering(u, d, k) == Atom(a, []) && Numbering(v, d, k) == Atom(b, []);
    assert ParamsOfAll([v]) == Params(v) + ParamsOfAll<Value>([]);
    assert ParamsOfAll([u, v]) == Params(u) + ParamsOfAll([v]);
    assert NumberingAll([v], d, k) == [Atom(b, [])] + NumberingAll([], d, k);
    assert NumberingAll([u, v], d, k) == [Atom(a, [])] + NumberingAll([v], d, k);
  }

  lemma OfConsed(s: Sql<Value>, rest: seq<Sql<Value>>, d: Dialect, k: nat)
    ensures Params(Conj([s] + rest)) == Params(s) + ParamsOfAll(rest)
    ensures Numbering(Conj([s] + rest), d, k) == Conj([Numbering(s, d, k)] + NumberingAll(rest, d, k + |Params(s)|))
  {
    assert ([s] + rest)[1..] == rest;
  }

  lemma NullCheckedPrint(field: string, x: Sql<Placeholder>)
    ensures Print(NullChecked(field, x)) == WrapWithNullCheck(field, Print(x))
  {
    var u: Sql<Placeholder>, v: Sql<Placeholder> := Atom(ListIsNotNull(field), []), Atom(ListIsNotEmpty(field), []);
    assert [x, u, v][1..] == [u, v] && [u, v][1..] == [v];
    assert PrintJoined([v], AndWord) == Print(v);
    assert PrintJoined([u, v], AndWord) == Print(u) + [AndWord] + Print(v);
  }

  lemma NullCheckedText(field: string, s: Sql<Value>, d: Dialect, k: nat)
    ensures Print(Numbering(NullChecked(field, s), d, k)) == WrapWithNullCheck(field, Print(Numbering(s, d, k)))
    ensures Params(NullChecked(field, s)) == Params(s)
  {
    hide *;
    NullCheckedNumbering(field, s, d, k);
    NullCheckedPrint(field, Numbering(s, d, k));
  }

  ghost function AppendValues(done: seq<Value>, rest: Result<seq<Value>>): Result<seq<Value>> {
    if rest.Ok? then Ok(done + rest.value) else Err
  }

  lemma InArgumentsStep(field: Field, values: seq<ValueExpr>, i: nat, done: seq<Value>)
    requires i < |values|
    ensures AppendValues(done, InArguments(field, values[i..])) ==
            if !values[i].Literal? || field.ty.TimestampType? || ScalarArgument(field, values[i].value).Err? then Err
            else AppendValues(done + [ScalarArgument(field, values[i].value).value],
                              InArguments(field, values[i + 1..]))
  {
    hide ScalarArgument;
    assert values[i..][1..] == values[i + 1..];
    var rest := InArguments(field, values[i + 1..]);
    if values[i].Literal? && ScalarArgument(field, values[i].value).Ok? && rest.Ok? {
      var v := ScalarArgument(field, values[i].value).value;
      assert done + ([v] + rest.value) == done + [v] + rest.value;
    }
  }

  lemma InArgumentsEnds(field: Field, values: seq<ValueExpr>, done: seq<Value>)
    ensures InArguments(field, values) == AppendValues([], InArguments(field, values[0..]))
    ensures AppendValues(done, InArguments(field, values[|values|..])) == Ok(done)
  {
    assert values[0..] == values && values[|values|..] == [] && done + [] == done;
    var all := InArguments(field, values);
    assert all.Ok? ==> [] + all.value == all.value;
  }

  ghost function AppendTexts(done: seq<string>, rest: Result<seq<string>>): Result<seq<string>> {
    if rest.Ok? then Ok(done + rest.value) else Err
  }

  lemma TagItemsStep(values: seq<ValueExpr>, i: nat, done: seq<string>)
    requires i < |values|
    ensures AppendTexts(done, TagItems(values[i..])) ==
            if !values[i].Literal? || !values[i].value.StrV? then Err
            else AppendTexts(done + [values[i].value.s], TagItems(values[i + 1..]))
  {
    assert values[i..][1..] == values[i + 1..];
    var rest := TagItems(values[i + 1..]);
    if values[i].Literal? && values[i].value.StrV? && rest.Ok? {
      var v := values[i].value.s;
      assert done + ([v] + rest.value) == done + [v] + rest.value;
    }
  }

  lemma TagItemsEnds(values: seq<ValueExpr>, done: seq<string>)
    ensures TagItems(values) == AppendTexts([], TagItems(values[0..]))
    ensures AppendTexts(done, TagItems(values[|values|..])) == Ok(done)
  {
    assert values[0..] == values && values[|values|..] == [] && done + [] == done;
    var all := TagItems(values);
    assert all.Ok? ==> [] + all.value == all.value;
  }

  lemma TagItemParams(d: Dialect, field: string, text: string)
    ensures |Params(TagItemLeaf(d, field, text))| == 2 && |Params(ExactTagLeaf(d, field, text))| == 1
  {
    ParamsOfPair(ExactTagLeaf(d, field, text), Atom(ListLike(field), [StrV("%\"" + text + "/%")]));
  }

  /** One more item at the end of a list of conditions. */
  lemma {:induction false} NumberingSnoc(es: seq<Sql<Value>>, e: Sql<Value>, d: Dialect, k: nat)
    ensures ParamsOfAll(es + [e]) == ParamsOfAll(es) + Params(e)
    ensures NumberingAll(es + [e], d, k) == NumberingAll(es, d, k) + [Numbering(e, d, k + |ParamsOfAll(es)|)]
  {
    hide Params, Numbering;
    if es == [] {
      assert es + [e] == [e] && [e][1..] == [];
    } else {
      var first := k + |Params(es[0])|;
      assert (es + [e])[1..] == es[1..] + [e] && (es + [e])[0] == es[0];
      NumberingSnoc(es[1..], e, d, first);
      assert NumberingAll(es + [e], d, k) == [Numbering(es[0], d, k)] + NumberingAll(es[1..] + [e], d, first);
      assert ParamsOfAll(es + [e]) == Params(es[0]) + ParamsOfAll(es[1..] + [e]);
    }
  }

  lemma {:induction false} TagItemsParams(d: Dialect, field: string, texts: seq<string>)
    ensures |ParamsOfAll(TagItemLeaves(d, field, texts))| == 2 * |texts|
  {
    hide Params;
    if texts == [] {
    } else {
      assert TagItemLeaves(d, field, texts)[1..] == TagItemLeaves(d, field, texts[1..]);
      TagItemParams(d, field, texts[0]);
      TagItemsParams(d, field, texts[1..]);
    }
  }

  lemma NoItems(d: Dialect, field: string, k: nat)
    ensures ParamsOfAll(TagItemLeaves(d, field, [])) == []
    ensures PrintEach(NumberingAll(TagItemLeaves(d, field, []), d, k)) == []
  {
  }

  lemma OneMoreItem(d: Dialect, field: string, done: seq<string>, text: string, k: nat)
    ensures var es, e := TagItemLeaves(d, field, done), TagItemLeaf(d, field, text);
            ParamsOfAll(TagItemLeaves(d, field, done + [text])) == ParamsOfAll(es) + Params(e) &&
            PrintEach(NumberingAll(TagItemLeaves(d, field, done + [text]), d, k)) ==
            PrintEach(NumberingAll(es, d, k)) + [Print(Numbering(e, d, k + 2 * |done|))]
    ensures |Params(ExactTagLeaf(d, field, text))| == 1
  {
    hide Params, Numbering, Print, NumberingAll, ParamsOfAll, TagItemLeaf;
    var es, e := TagItemLeaves(d, field, done), TagItemLeaf(d, field, text);
    assert TagItemLeaves(d, field, done + [text]) == es + [e];
    TagItemsParams(d, field, done);
    TagItemParams(d, field, text);
    NumberingSnoc(es, e, d, k);
    var n := NumberingAll(es, d, k);
    var m := Numbering(e, d, k + 2 * |done|);
    assert PrintEach(n + [m]) == PrintEach(n) + [Print(m)];
  }

  lemma TagListText(d: Dialect, field: string, texts: seq<string>, k: nat)
    ensures var es := TagItemLeaves(d, field, texts);
            var conditions := PrintEach(NumberingAll(es, d, k));
            Params(TagInList(d, field, texts)) == ParamsOfAll(es) &&
            Print(Numbering(TagInList(d, field, texts), d, k)) ==
            if |conditions| == 1 then conditions[0] else [LParen] + JoinTexts(conditions, OrWord) + [RParen]
  {
    hide TagItemLeaf;
    var es := TagItemLeaves(d, field, texts);
    JoinIsPrintJoined(NumberingAll(es, d, k), OrWord);
    if |es| == 1 {
      assert es == [es[0]] && es[1..] == [];
    }
  }

  lemma LogicalResult(a: Logic<Value>, b: Logic<Value>, d: Dialect, k: nat)
    ensures ResultOf(Fold(NumberingLogic(Both(a, b), d, k))) ==
            CombineAndResults(ResultOf(Fold(NumberingLogic(a, d, k))),
                              ResultOf(Fold(NumberingLogic(b, d, k + |AllParams(a)|))))
    ensures ResultOf(Fold(NumberingLogic(Either(a, b), d, k))) ==
            CombineOrResults(ResultOf(Fold(NumberingLogic(a, d, k))),
                             ResultOf(Fold(NumberingLogic(b, d, k + |AllParams(a)|))))
  {
    ResultsCombine(Fold(NumberingLogic(a, d, k)), Fold(NumberingLogic(b, d, k + |AllParams(a)|)));
  }

  lemma NegationResult(a: Logic<Value>, d: Dialect, k: nat)
    ensures ResultOf(Fold(NumberingLogic(Negate(a), d, k))) == NegateResult(ResultOf(Fold(NumberingLogic(a, d, k))))
  {
    ResultsCombine(Fold(NumberingLogic(a, d, k)), Trivial);
  }

  lemma ConstantResult(value: bool)
    ensures ResultOf(Fold(Const(value))) == if value then RenderResult([], true, false)
            else RenderResult(ONE_EQUALS_ZERO, false, true)
  {
  }

  lemma LeafResult(s: Sql<Value>, d: Dialect, k: nat)
    ensures ResultOf(Fold(NumberingLogic(Leaf(s), d, k))) == RenderResult(Print(Numbering(s, d, k)), false, false)
  {
  }
}
