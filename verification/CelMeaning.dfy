/**
 The CEL value of a filter expression on a memo, and the end-to-end result: the rows a compiled filter
 selects are those on which its expression is true.
 */
module CelMeaning {
  import opened Cel
  import opened FilterIr
  import opened FilterLeaves
  import opened FilterMeaning
  import opened FilterPlan
  import opened Folding
  import opened Sql
  import opened TagText
  import opened Wrappers

  datatype CelValue = CBool(b: bool) | CInt(i: int) | CString(s: string) | CList(items: seq<string>) | CNull

  type Bindings = map<string, CelValue>

  function ConstantOf(c: ConstantValue): Option<CelValue> {
    match c
    case StringC(s) => Some(CString(s))
    case IntC(i) => Some(CInt(i))
    case UintC(u) => Some(CInt(u))
    case BoolC(b) => Some(CBool(b))
    case NullC => Some(CNull)
    case DoubleC(_) => None
  }

  /** A list that the payload omits is empty. */
  function ItemsOf(row: Row, list: string): seq<string> {
    if list in row.lists then row.lists[list] else []
  }

  /** The value of a field of a row, a flag that the payload omits being false; the alias `tag` has none of its own. */
  function FieldValue(field: Field, row: Row): Option<CelValue> {
    match field.kind
    case Scalar =>
      (match ColumnValue(row, field.name)
       case StrV(s) => Some(CString(s))
       case IntV(i) => Some(CInt(i))
       case Null => Some(CNull)
       case _ => None)
    case JsonList => Some(CList(ItemsOf(row, field.name)))
    case VirtualAlias => None
    case _ => Some(CBool(FlagHolds(field, row)))
  }

  function CelCompare(op: CompareOp, a: CelValue, b: CelValue): Option<CelValue> {
    if a.CInt? && b.CInt? then Some(CBool(OrderHolds(op, a.i < b.i, a.i == b.i)))
    else if a.CString? && b.CString? then Some(CBool(OrderHolds(op, Less(a.s, b.s), a.s == b.s)))
    else if a.CBool? && b.CBool? then Some(CBool(BoolHolds(op, a.b, b.b)))
    else if b.CNull? && op == Eq then Some(CBool(a.CNull?))
    else if b.CNull? && op == Neq then Some(CBool(!a.CNull?))
    else None
  }

  /** Values of one kind are equal or not, and every value can be compared with null. */
  predicate Comparable(a: CelValue, b: CelValue) {
    b.CNull? || (a.CInt? && b.CInt?) || (a.CString? && b.CString?) || (a.CBool? && b.CBool?)
  }

  /** Integers by size, texts in dictionary order, false before true. */
  function CelBefore(a: CelValue, b: CelValue): Option<bool> {
    match (a, b)
    case (CInt(x), CInt(y)) => Some(x < y)
    case (CString(x), CString(y)) => Some(Less(x, y))
    case (CBool(x), CBool(y)) => Some(!x && y)
    case _ => None
  }

  /** The value of an operator by its name in CEL. */
  function CelOperator(fn: string, a: CelValue, b: CelValue): Option<CelValue> {
    if fn == "_+_" then if a.CInt? && b.CInt? then Some(CInt(a.i + b.i)) else None
    else if fn == "_-_" then if a.CInt? && b.CInt? then Some(CInt(a.i - b.i)) else None
    else if fn == "_*_" then if a.CInt? && b.CInt? then Some(CInt(a.i * b.i)) else None
    else if fn == "_==_" then if Comparable(a, b) then Some(CBool(a == b)) else None
    else if fn == "_!=_" then if Comparable(a, b) then Some(CBool(a != b)) else None
    else
      match (CelBefore(a, b), CelBefore(b, a))
      case (Some(less), Some(greater)) =>
        if fn == "_<_" then Some(CBool(less))
        else if fn == "_>_" then Some(CBool(greater))
        else if fn == "_<=_" then Some(CBool(!greater))
        else if fn == "_>=_" then Some(CBool(!less))
        else None
      case _ => None
  }

  /** The texts are alike up to a position, and there the first has the smaller character. */
  predicate SmallerAt(a: string, b: string, k: nat) { k < |a| && k < |b| && a[..k] == b[..k] && a[k] < b[k] }

  /** Dictionary order: the first difference decides, and a proper prefix comes first. */
  lemma {:induction false} LessIsDictionaryOrder(a: string, b: string)
    ensures Less(a, b) <==> a < b || exists k: nat :: SmallerAt(a, b, k)
  {
    if a == "" || b == "" {
    } else if a[0] == b[0] {
      hide SmallerAt;
      LessIsDictionaryOrder(a[1..], b[1..]);
      assert a == [a[0]] + a[1..] && b == [b[0]] + b[1..];
      NotSmallerAtStart(a, b);
      if k: nat :| SmallerAt(a, b, k) {
        SmallerLater(a, b, k - 1);
      }
      if k: nat :| SmallerAt(a[1..], b[1..], k) {
        SmallerLater(a, b, k);
      }
    } else if a[0] < b[0] {
      assert SmallerAt(a, b, 0);
    } else {
      assert forall k: nat :: SmallerAt(a, b, k) ==> a[..k] == b[..k] && k > 0;
      assert forall k: nat :: 0 < k <= |a| && k <= |b| ==> a[..k][0] != b[..k][0];
    }
  }

  lemma NotSmallerAtStart(a: string, b: string)
    requires a != "" && b != "" && a[0] == b[0]
    ensures !SmallerAt(a, b, 0)
  {
  }

  lemma SmallerLater(a: string, b: string, k: nat)
    requires a != "" && b != "" && a[0] == b[0]
    ensures SmallerAt(a, b, k + 1) <==> SmallerAt(a[1..], b[1..], k)
  {
    if k < |a| - 1 && k < |b| - 1 {
      assert a[..k + 1] == [a[0]] + a[1..][..k] && b[..k + 1] == [b[0]] + b[1..][..k];
      assert a[..k + 1][1..] == a[1..][..k] && b[..k + 1][1..] == b[1..][..k];
    }
  }

  /** Of two texts one comes first, unless they are the same. */
  lemma {:induction false} LessIsTotal(a: string, b: string)
    ensures Less(b, a) <==> !Less(a, b) && a != b
  {
    if a == "" || b == "" {
    } else {
      LessIsTotal(a[1..], b[1..]);
      assert a == [a[0]] + a[1..] && b == [b[0]] + b[1..];
    }
  }

  /** The compiler's operator for a function name compares as CEL does. */
  lemma OperatorIsCel(fn: string, a: CelValue, b: CelValue)
    requires ComparisonOperator(fn).Some?
    ensures CelCompare(ComparisonOperator(fn).value, a, b) == CelOperator(fn, a, b)
  {
    hide Less;
    if a.CString? && b.CString? { LessIsTotal(a.s, b.s); }
  }

  ghost function CelMethod(fn: string, x: CelValue, y: CelValue): Option<CelValue> {
    if !x.CString? || !y.CString? then None
    else if fn == "startsWith" then Some(CBool(y.s <= x.s))
    else if fn == "endsWith" then Some(CBool(|y.s| <= |x.s| && x.s[|x.s| - |y.s|..] == y.s))
    else if fn == "contains" then Some(CBool(Substring(y.s, x.s)))
    else None
  }

  ghost function CelNot(a: Option<CelValue>): Option<CelValue> {
    if a.Some? && a.value.CBool? then Some(CBool(!a.value.b)) else None
  }

  ghost function CelLogic(and: bool, a: Option<CelValue>, b: Option<CelValue>): Option<CelValue> {
    if a.Some? && a.value.CBool? && b.Some? && b.value.CBool? then
      Some(CBool(if and then a.value.b && b.value.b else a.value.b || b.value.b))
    else None
  }

  /** A memo in a database at a time. The value of an expression depends on neither dialect nor folding. */
  datatype World = World(schema: Schema, d: Dialect, fold: CharFold, row: Row, now: int)

  /** The value of an expression; missing where CEL reports an error. Integers are unbounded here. */
  ghost function CelEval(w: World, env: Bindings, e: Expr): Option<CelValue>
    decreases e, 3
  {
    match e
    case Const(c) => ConstantOf(c)
    case Ident(name) =>
      if name in env then Some(env[name]) else if name in w.schema then FieldValue(w.schema[name], w.row) else None
    case ListExpr(_) => None
    case Comprehension(_, range, accuVar, accuInit, _, result) =>
      (match (CelEval(w, env, range), CelEval(w, env, accuInit))
       case (Some(CList(items)), Some(init)) =>
         (match CelFold(w, env, e, items, init)
          case None => None
          case Some(accu) => CelEval(w, env[accuVar := accu], result))
       case _ => None)
    case Call(fn, target, args) =>
      if fn == "now" then Some(CInt(w.now))
      else if |args| == 1 then CelCall1(w, env, e)
      else if |args| == 2 then CelCall2(w, env, e)
      else None
  }

  ghost function CelCall1(w: World, env: Bindings, e: Expr): Option<CelValue>
    requires e.Call? && |e.args| == 1
    decreases e, 2
  {
    var a := CelEval(w, env, e.args[0]);
    if e.fn == "!_" then CelNot(a)
    else if e.fn == "size" then
      if a.Some? && a.value.CList? then Some(CInt(|a.value.items|)) else None
    else if e.target.Some? then
      match (CelEval(w, env, e.target.value), a)
      case (Some(x), Some(y)) => CelMethod(e.fn, x, y)
      case _ => None
    else None
  }

  ghost function CelCall2(w: World, env: Bindings, e: Expr): Option<CelValue>
    requires e.Call? && |e.args| == 2
    decreases e, 2
  {
    var a, b := e.args[0], e.args[1];
    if e.fn == "_&&_" || e.fn == "_||_" then CelLogic(e.fn == "_&&_", CelEval(w, env, a), CelEval(w, env, b))
    else if e.fn == "@in" then
      if b.ListExpr? then
        match CelEvalAll(w, env, b.elements)
        case None => None
        case Some(values) =>
          if a == Ident("tag") && "tag" !in env then TagIn(w, values)
          else
            match CelEval(w, env, a)
            case None => None
            case Some(x) => Some(CBool(x in values))
      else
        match (CelEval(w, env, a), CelEval(w, env, b))
        case (Some(CString(s)), Some(CList(items))) => Some(CBool(s in items))
        case _ => None
    else
      match (CelEval(w, env, a), CelEval(w, env, b))
      case (Some(x), Some(y)) => CelOperator(e.fn, x, y)
      case _ => None
  }

  /** `tag in [...]`: some tag of the memo equals an entry or lies below it in the hierarchy. */
  ghost function TagIn(w: World, values: seq<CelValue>): Option<CelValue> {
    var field := ResolveAlias(w.schema, "tag");
    if field.None? then None
    else Some(CBool(exists t, v :: t in ItemsOf(w.row, field.value.name) && v in values && v.CString? &&
                      UnderTag(v.s, t)))
  }

  ghost function CelEvalAll(w: World, env: Bindings, es: seq<Expr>): Option<seq<CelValue>>
    decreases es, 0
  {
    if es == [] then Some([])
    else
      match (CelEval(w, env, es[0]), CelEvalAll(w, env, es[1..]))
      case (Some(v), Some(rest)) => Some([v] + rest)
      case _ => None
  }

  /** The comprehension loop over the items. */
  ghost function CelFold(w: World, env: Bindings, e: Expr, items: seq<string>, accu: CelValue): Option<CelValue>
    requires e.Comprehension?
    decreases e, 1, |items|
  {
    if items == [] then Some(accu)
    else
      match CelEval(w, env[e.accuVar := accu][e.iterVar := CString(items[0])], e.loopStep)
      case None => None
      case Some(next) => CelFold(w, env, e, items[1..], next)
  }

  // ----- What the type checker and the macro expander guarantee

  /** No arithmetic leaves the 64-bit range, and literals are strings, 64-bit integers, booleans or null. */
  predicate NoOverflow(e: Expr, now: int) {
    match e
    case Const(c) => !c.DoubleC? && (c.IntC? ==> InInt64(c.i)) && (c.UintC? ==> InInt64(c.u))
    case Call(fn, target, args) =>
      (target.Some? ==> NoOverflow(target.value, now)) && (forall a :: a in args ==> NoOverflow(a, now)) &&
      (fn != "now" && TrueNumber(e, now).Some? ==> InInt64(TrueNumber(e, now).value))
    case ListExpr(elements) => forall x :: x in elements ==> NoOverflow(x, now)
    case _ => true
  }

  /** The expansion of `range.exists(iterVar, test)`, as the macro produces it. */
  predicate IsExists(e: Expr) {
    && e.Comprehension?
    && e.accuInit == Expr.Const(BoolC(false))
    && e.result == Ident(e.accuVar)
    && e.iterVar != e.accuVar
    && e.loopStep.Call? && |e.loopStep.args| == 2 && e.loopStep.args[0] == Ident(e.accuVar)
  }

  /** Function calls the checker lets through: declared overloads, and comprehensions from the exists macro. */
  predicate Checked(e: Expr) {
    match e
    case Comprehension(_, _, _, _, _, _) => IsExists(e)
    case Call(fn, target, args) =>
      (fn == "contains" || target.None?) && (fn == "now" ==> args == []) && forall a :: a in args ==> Checked(a)
    case _ => true
  }

  // ----- Values

  function AsCel(v: Value): Option<CelValue> {
    match v
    case StrV(s) => Some(CString(s))
    case IntV(i) => Some(CInt(i))
    case BoolV(b) => Some(CBool(b))
    case Null => Some(CNull)
    case RealV(_) => None
  }

  lemma {:induction false} NumericExact(w: World, e: Expr)
    requires NoOverflow(e, w.now) && InInt64(w.now)
    requires EvaluateNumeric(e, w.now).Ok? && EvaluateNumeric(e, w.now).value.Some?
    ensures var n := EvaluateNumeric(e, w.now).value.value;
            TrueNumber(e, w.now) == Some(n) && CelEval(w, map[], e) == Some(CInt(n))
  {
    hide Wrap;
    match e
    case Const(c) =>
      if c.UintC? { WrapInRange(c.u); }
    case Call(fn, _, args) =>
      if fn != "now" {
        assert args[0] in args && args[1] in args;
        NumericExact(w, args[0]);
        NumericExact(w, args[1]);
        WrapInRange(TrueNumber(e, w.now).value);
      }
  }

  lemma {:induction false} BoolExact(w: World, e: Expr)
    requires EvaluateBool(e).Ok? && EvaluateBool(e).value.Some?
    ensures CelEval(w, map[], e) == Some(CBool(EvaluateBool(e).value.value))
  {
    match e
    case Const(_) =>
    case Call(_, _, args) => BoolExact(w, args[0]);
  }

  /** A literal built from an expression is the expression's value. */
  lemma LiteralExact(w: World, e: Expr)
    requires NoOverflow(e, w.now) && InInt64(w.now)
    requires BuildValue(w.schema, e, w.now).Ok? && BuildValue(w.schema, e, w.now).value.Literal?
    ensures CelEval(w, map[], e).Some? && CelEval(w, map[], e) == AsCel(BuildValue(w.schema, e, w.now).value.value)
  {
    hide EvaluateNumeric, EvaluateBool, Wrap;
    if e.Const? {
      if e.c.UintC? { WrapInRange(e.c.u); }
    } else if EvaluateNumeric(e, w.now).value.Some? {
      NumericExact(w, e);
    } else if EvaluateBool(e).value.Some? {
      BoolExact(w, e);
    }
  }

  /** Where field references and size() come from. */
  lemma ValueShape(schema: Schema, e: Expr, now: int)
    requires BuildValue(schema, e, now).Ok?
    ensures var v := BuildValue(schema, e, now).value;
            (v.FieldRef? ==> e == Ident(v.name) && v.name in schema) &&
            (v.FunctionValue? ==> e.Call? && e.fn == "size" && v.fn == "size" && |e.args| == 1 && |v.args| == 1 &&
                                  BuildValue(schema, e.args[0], now) == Ok(v.args[0]))
  {
    hide EvaluateNumeric, EvaluateBool;
  }

  // ----- Conditions

  lemma FieldComparison(w: World, f: string, op: CompareOp, v: Value)
    requires f in w.schema && TypedField(w.schema[f], w.row) && !v.RealV?
    requires ColumnsPresent(w.schema, w.row, Comparison(FieldRef(f), op, Literal(v)))
    requires LeafComparison(w.schema, w.d, FieldRef(f), op, Literal(v)).Ok?
    ensures FieldValue(w.schema[f], w.row).Some?
    ensures CelCompare(op, FieldValue(w.schema[f], w.row).value, AsCel(v).value) ==
            Some(CBool(LeafHolds(w.schema, w.row, Comparison(FieldRef(f), op, Literal(v)))))
  {
    hide Less, HasAttachmentOf;
  }

  lemma ComparisonBuilt(w: World, op: CompareOp, args: seq<Expr>)
    requires TypedRow(w.schema, w.row) && InInt64(w.now) && forall a :: a in args ==> NoOverflow(a, w.now)
    requires BuildComparison(w.schema, op, args, w.now).Ok?
    requires var c := BuildComparison(w.schema, op, args, w.now).value;
             LeafComparison(w.schema, w.d, c.lhs, op, c.rhs).Ok? && ColumnsPresent(w.schema, w.row, c)
    ensures CelEval(w, map[], args[0]).Some? && CelEval(w, map[], args[1]).Some?
    ensures CelCompare(op, CelEval(w, map[], args[0]).value, CelEval(w, map[], args[1]).value) ==
            Some(CBool(LeafHolds(w.schema, w.row, BuildComparison(w.schema, op, args, w.now).value)))
  {
    hide BuildValue, FieldValue, CelCompare, AsCel, TypedField, ScalarHolds, FlagHolds, BoolHolds;
    var c := BuildComparison(w.schema, op, args, w.now).value;
    assert args[0] in args && args[1] in args;
    ComparisonNeedsLiteral(w.schema, w.d, c.lhs, op, c.rhs);
    ValueShape(w.schema, args[0], w.now);
    LiteralExact(w, args[1]);
    LiteralIsNoReal(w, args[1], c.rhs.value);
    if c.lhs.FieldRef? {
      assert TypedField(w.schema[c.lhs.name], w.row);
      FieldComparison(w, c.lhs.name, op, c.rhs.value);
    } else {
      SizeComparison(w, args[0], op, c.lhs.args, c.rhs.value);
    }
  }

  lemma LiteralIsNoReal(w: World, e: Expr, v: Value)
    requires AsCel(v).Some?
    ensures !v.RealV?
  {
  }

  lemma SizeComparison(w: World, e: Expr, op: CompareOp, args: seq<ValueExpr>, v: Value)
    requires TypedRow(w.schema, w.row) && !v.RealV?
    requires e.Call? && e.fn == "size" && |e.args| == 1 && |args| == 1 &&
             BuildValue(w.schema, e.args[0], w.now) == Ok(args[0])
    requires LeafComparison(w.schema, w.d, FunctionValue("size", args), op, Literal(v)).Ok?
    ensures CelEval(w, map[], e).Some?
    ensures CelCompare(op, CelEval(w, map[], e).value, AsCel(v).value) ==
            Some(CBool(LeafHolds(w.schema, w.row, Comparison(FunctionValue("size", args), op, Literal(v)))))
  {
    hide Less, TypedField;
    ValueShape(w.schema, e.args[0], w.now);
    var f := args[0].name;
    assert CelEval(w, map[], e.args[0]) == Some(CList(ItemsOf(w.row, f)));
  }

  /** The values of a literal list. */
  lemma {:induction false} ValuesExact(w: World, es: seq<Expr>)
    requires InInt64(w.now) && forall x :: x in es ==> NoOverflow(x, w.now)
    requires BuildValues(w.schema, es, w.now).Ok? && forall v :: v in BuildValues(w.schema, es, w.now).value ==>
                                                       v.Literal?
    ensures var vs := BuildValues(w.schema, es, w.now).value;
            CelEvalAll(w, map[], es).Some? &&
            (forall c :: c in CelEvalAll(w, map[], es).value <==> exists v :: v in vs && AsCel(v.value) == Some(c)) &&
            (forall v :: v in vs ==> !v.value.RealV?)
  {
    hide BuildValue, CelEval, NoOverflow;
    if es == [] {
    } else {
      var vs := BuildValues(w.schema, es, w.now).value;
      assert vs[0] in vs && vs[1..] == BuildValues(w.schema, es[1..], w.now).value;
      LiteralExact(w, es[0]);
      ValuesExact(w, es[1..]);
      LiteralIsNoReal(w, es[0], vs[0].value);
      assert forall v :: v in vs <==> v == vs[0] || v in vs[1..];
      var c0, cs := CelEval(w, map[], es[0]).value, CelEvalAll(w, map[], es[1..]).value;
      assert CelEvalAll(w, map[], es).value == [c0] + cs;
      assert forall c :: c in [c0] + cs <==> c == c0 || c in cs;
    }
  }

  lemma {:induction false} InArgumentsAreLiterals(field: Field, values: seq<ValueExpr>)
    requires InArguments(field, values).Ok?
    ensures forall v :: v in values ==> v.Literal? && ScalarArgument(field, v.value).Ok?
  {
    hide ScalarArgument;
    if values == [] {
    } else {
      InArgumentsAreLiterals(field, values[1..]);
      assert forall v :: v in values <==> v == values[0] || v in values[1..];
    }
  }

  /** An accepted element of a scalar list equals the column in CEL exactly when it does in the condition. */
  lemma ElementEquals(field: Field, row: Row, v: Value)
    requires field.kind == FieldKind.Scalar && TypedField(field, row) && Present(field, row) &&
             ScalarArgument(field, v).Ok? && !v.RealV?
    ensures FieldValue(field, row).Some? && !v.Null?
    ensures AsCel(v) == FieldValue(field, row) <==> ScalarHolds(Eq, ColumnValue(row, field.name), v)
  {
    hide Less;
  }

  lemma ScalarInBuilt(w: World, f: string, es: seq<Expr>)
    requires TypedRow(w.schema, w.row) && InInt64(w.now) && (forall x :: x in es ==> NoOverflow(x, w.now)) && f != "tag"
    requires f in w.schema && BuildValues(w.schema, es, w.now).Ok?
    requires var c := In(FieldRef(f), BuildValues(w.schema, es, w.now).value);
             LeafIn(w.schema, w.d, c.lhs, c.values).Ok? && ColumnsPresent(w.schema, w.row, c)
    ensures CelEvalAll(w, map[], es).Some? && FieldValue(w.schema[f], w.row).Some?
    ensures FieldValue(w.schema[f], w.row).value in CelEvalAll(w, map[], es).value <==>
            LeafHolds(w.schema, w.row, In(FieldRef(f), BuildValues(w.schema, es, w.now).value))
  {
    hide BuildValues, ScalarArgument, ScalarHolds, FieldValue, AsCel, CelEvalAll, TypedField, NoOverflow;
    var vs, field := BuildValues(w.schema, es, w.now).value, w.schema[f];
    assert TypedField(field, w.row);
    InArgumentsAreLiterals(field, vs);
    ValuesExact(w, es);
    forall v | v in vs
      ensures FieldValue(field, w.row).Some? && !v.value.Null?
      ensures AsCel(v.value) == FieldValue(field, w.row) <==> ScalarHolds(Eq, ColumnValue(w.row, f), v.value)
    {
      ElementEquals(field, w.row, v.value);
    }
    ScalarHasValue(field, w.row);
  }

  lemma ScalarHasValue(field: Field, row: Row)
    requires field.kind == FieldKind.Scalar && TypedField(field, row) && Present(field, row)
    ensures FieldValue(field, row).Some?
  {
  }

  /** Whether the texts come as values or as literals. */
  lemma SameTagTexts(tags: seq<string>, cs: seq<CelValue>, vs: seq<ValueExpr>)
    requires forall v :: v in vs ==> v.Literal? && v.value.StrV?
    requires forall c :: c in cs <==> exists v :: v in vs && AsCel(v.value) == Some(c)
    ensures (exists t, c :: t in tags && c in cs && c.CString? && UnderTag(c.s, t)) <==>
            (exists t, v :: t in tags && v in vs && v.Literal? && v.value.StrV? && UnderTag(v.value.s, t))
  {
    hide UnderTag;
    if t, c :| t in tags && c in cs && c.CString? && UnderTag(c.s, t) {
      var v :| v in vs && AsCel(v.value) == Some(c);
      assert v.value.StrV? && UnderTag(v.value.s, t);
    }
    if t, v :| t in tags && v in vs && v.Literal? && v.value.StrV? && UnderTag(v.value.s, t) {
      assert AsCel(v.value) == Some(CString(v.value.s));
      assert CString(v.value.s) in cs;
    }
  }

  lemma TagInBuilt(w: World, es: seq<Expr>)
    requires TypedRow(w.schema, w.row) && InInt64(w.now) && forall x :: x in es ==> NoOverflow(x, w.now)
    requires ResolveAlias(w.schema, "tag").Some? && ResolveAlias(w.schema, "tag").value.kind == JsonList
    requires BuildValues(w.schema, es, w.now).Ok?
    requires var c := In(FieldRef("tag"), BuildValues(w.schema, es, w.now).value);
             LeafIn(w.schema, w.d, c.lhs, c.values).Ok? && ColumnsPresent(w.schema, w.row, c)
    ensures CelEvalAll(w, map[], es).Some?
    ensures TagIn(w, CelEvalAll(w, map[], es).value) ==
            Some(CBool(LeafHolds(w.schema, w.row, In(FieldRef("tag"), BuildValues(w.schema, es, w.now).value))))
  {
    hide BuildValues, TagItems, UnderTag, CelEvalAll, TagInList, NoOverflow;
    var vs := BuildValues(w.schema, es, w.now).value;
    var field := ResolveAlias(w.schema, "tag").value;
    TagItemsAreLiterals(vs);
    ValuesExact(w, es);
    var cs, tags := CelEvalAll(w, map[], es).value, ItemsOf(w.row, field.name);
    SameTagTexts(tags, cs, vs);
    assert TagIn(w, cs) == Some(CBool(exists t, c :: t in tags && c in cs && c.CString? && UnderTag(c.s, t)));
    assert LeafHolds(w.schema, w.row, In(FieldRef("tag"), vs)) <==>
           exists t, v :: t in tags && v in vs && v.Literal? && v.value.StrV? && UnderTag(v.value.s, t);
  }

  // ----- Comprehensions

  /** One turn of the loop: the accumulator becomes true if the test holds of the item. */
  lemma LoopStep(w: World, e: Expr, p: TagPredicate, t: string, b: bool)
    requires IsExists(e) && e.loopStep.fn == "_||_" && ExtractPredicate(e.iterVar, e.loopStep) == Ok(p)
    ensures CelEval(w, map[][e.accuVar := CBool(b)][e.iterVar := CString(t)], e.loopStep) ==
              Some(CBool(b || TagHolds(p, t)))
  {
    hide Substring, Less;
    var env: Bindings := map[][e.accuVar := CBool(b)][e.iterVar := CString(t)];
    var test := e.loopStep.args[1];
    assert CelEval(w, env, e.loopStep.args[0]) == Some(CBool(b));
    assert CelEval(w, env, Ident(e.iterVar)) == Some(CString(t));
    assert CelEval(w, env, test) == Some(CBool(TagHolds(p, t))) by {
      if test.fn == "_==_" {
        EqualsTest(w, env, e.iterVar, test.args, t);
      } else {
        assert GetConst(test.args[0]) == Ok(StrV(p.text));
        assert CelEval(w, env, test.args[0]) == Some(CString(p.text));
        assert CelEval(w, env, test) == CelCall1(w, env, test);
      }
    }
  }

  lemma EqualsTest(w: World, env: Bindings, iterVar: string, args: seq<Expr>, t: string)
    requires iterVar in env && env[iterVar] == CString(t) && BuildEquals(iterVar, args).Ok?
    ensures BuildEquals(iterVar, args).value.Equals?
    ensures CelEval(w, env, args[0]).Some? && CelEval(w, env, args[1]).Some?
    ensures CelCompare(Eq, CelEval(w, env, args[0]).value, CelEval(w, env, args[1]).value) ==
            Some(CBool(t == BuildEquals(iterVar, args).value.text))
  {
    hide Less;
  }

  lemma {:induction false} LoopIsExists(w: World, e: Expr, p: TagPredicate, items: seq<string>, b: bool)
    requires IsExists(e) && e.loopStep.fn == "_||_" && ExtractPredicate(e.iterVar, e.loopStep) == Ok(p)
    ensures CelFold(w, map[], e, items, CBool(b)) == Some(CBool(b || exists t :: t in items && TagHolds(p, t)))
    decreases |items|
  {
    hide TagHolds, IsExists, ExtractPredicate, CelEval;
    if items == [] {
    } else {
      LoopStep(w, e, p, items[0], b);
      LoopIsExists(w, e, p, items[1..], b || TagHolds(p, items[0]));
      assert forall t :: t in items <==> t == items[0] || t in items[1..];
    }
  }

  lemma ComprehensionBuilt(w: World, e: Expr)
    requires IsExists(e) && BuildComprehension(w.schema, e).Ok?
    ensures CelEval(w, map[], e) == Some(CBool(LeafHolds(w.schema, w.row, BuildComprehension(w.schema, e).value)))
  {
    hide TagHolds, ExtractPredicate, TypedField, CelFold;
    var p := ExtractPredicate(e.iterVar, e.loopStep).value;
    var f := e.range.name;
    assert CelEval(w, map[], e.range) == Some(CList(ItemsOf(w.row, f)));
    LoopIsExists(w, e, p, ItemsOf(w.row, f), false);
  }

  /** The built condition means what the expression means. */
  lemma {:induction false} BuildIsExact(w: World, e: Expr)
    requires TypedRow(w.schema, w.row) && Checked(e) && NoOverflow(e, w.now) && InInt64(w.now)
    requires BuildCondition(w.schema, e, w.now).Ok?
    requires Typed(w.schema, BuildCondition(w.schema, e, w.now).value)
    requires ColumnsPresent(w.schema, w.row, BuildCondition(w.schema, e, w.now).value)
    requires Translate(w.schema, w.d, BuildCondition(w.schema, e, w.now).value).Ok?
    ensures CelEval(w, map[], e) == Some(CBool(Holds(w.schema, w.row, BuildCondition(w.schema, e, w.now).value)))
  {
    hide LeafHolds, LeafOf, TypedRow, BuildComparison, BuildIn, BuildContains, BuildComprehension, CelFold, TrueNumber,
         EvaluateNumeric;
    match e
    case Const(_) =>
    case Ident(name) => FlagBuilt(w, name);
    case Comprehension(_, _, _, _, _, _) =>
      ShapeOfComprehension(w.schema, e);
      ComprehensionBuilt(w, e);
    case Call(fn, target, args) =>
      if fn == "_&&_" || fn == "_||_" {
        assert args[0] in args && args[1] in args;
        BuildIsExact(w, args[0]);
        BuildIsExact(w, args[1]);
      } else if fn == "!_" {
        assert args[0] in args;
        BuildIsExact(w, args[0]);
      } else {
        LeafCallShape(w.schema, e, w.now);
        LeafCallBuilt(w, e);
      }
  }

  lemma LeafCallShape(schema: Schema, e: Expr, now: int)
    requires e.Call? && e.fn != "_&&_" && e.fn != "_||_" && e.fn != "!_" && BuildCondition(schema, e, now).Ok?
    ensures var c := BuildCondition(schema, e, now).value;
            if ComparisonOperator(e.fn).Some? then c.Comparison?
            else if e.fn == "@in" then c.In? || c.ElementIn?
            else e.fn == "contains" && c.Contains?
  {
    hide BuildValue, BuildValues;
  }

  lemma ShapeOfComprehension(schema: Schema, e: Expr)
    requires e.Comprehension? && BuildComprehension(schema, e).Ok?
    ensures BuildComprehension(schema, e).value.ListComprehension?
  {
  }

  lemma FlagBuilt(w: World, name: string)
    requires TypedRow(w.schema, w.row) && name in w.schema && LeafOf(w.schema, w.d, FieldPredicate(name)).Ok?
    ensures FieldValue(w.schema[name], w.row) == Some(CBool(LeafHolds(w.schema, w.row, FieldPredicate(name))))
  {
    assert TypedField(w.schema[name], w.row);
  }

  /** Comparisons, membership and contains(). */
  lemma LeafCallBuilt(w: World, e: Expr)
    requires TypedRow(w.schema, w.row) && Checked(e) && NoOverflow(e, w.now) && InInt64(w.now)
    requires e.Call? && e.fn != "_&&_" && e.fn != "_||_" && e.fn != "!_" && BuildCondition(w.schema, e, w.now).Ok?
    requires var c := BuildCondition(w.schema, e, w.now).value;
             !c.Logical? && !c.Negation? && !c.Constant? && Typed(w.schema, c) && LeafOf(w.schema, w.d, c).Ok? &&
             ColumnsPresent(w.schema, w.row, c)
    ensures CelEval(w, map[], e) == Some(CBool(LeafHolds(w.schema, w.row, BuildCondition(w.schema, e, w.now).value)))
  {
    hide LeafHolds, TypedRow, BuildComparison, BuildIn, BuildContains, TrueNumber, LeafComparison, LeafIn,
         LeafElementIn, LeafContains;
    var c := BuildCondition(w.schema, e, w.now).value;
    LeafCallShape(w.schema, e, w.now);
    if ComparisonOperator(e.fn).Some? {
      ShapeOfComparison(w.schema, ComparisonOperator(e.fn).value, e.args, w.now);
      ComparisonBuilt(w, ComparisonOperator(e.fn).value, e.args);
      OperatorIsCel(e.fn, CelEval(w, map[], e.args[0]).value, CelEval(w, map[], e.args[1]).value);
    } else if e.fn == "@in" {
      InBuilt(w, e, c);
    } else {
      ContainsBuilt(w, e, c);
    }
  }

  lemma ShapeOfComparison(schema: Schema, op: CompareOp, args: seq<Expr>, now: int)
    requires BuildComparison(schema, op, args, now).Ok?
    ensures |args| == 2 && BuildComparison(schema, op, args, now).value.Comparison? &&
            BuildComparison(schema, op, args, now).value.op == op
  {
  }

  lemma InBuilt(w: World, e: Expr, c: Condition)
    requires TypedRow(w.schema, w.row) && NoOverflow(e, w.now) && InInt64(w.now)
    requires e.Call? && e.fn == "@in" && BuildIn(w.schema, e.args, w.now) == Ok(c) && (c.In? || c.ElementIn?)
    requires Typed(w.schema, c) && LeafOf(w.schema, w.d, c).Ok? && ColumnsPresent(w.schema, w.row, c)
    ensures CelEval(w, map[], e) == Some(CBool(LeafHolds(w.schema, w.row, c)))
  {
    hide BuildValue, BuildValues, LeafIn, TagIn, FieldValue, CelEvalAll, TypedField, UnderTag, ScalarHolds, TypedRow,
         LeafHolds;
    var a, b := e.args[0], e.args[1];
    assert a in e.args && b in e.args;
    assert CelEval(w, map[], e) == CelCall2(w, map[], e);
    if c.In? {
      var f := c.lhs.name;
      assert a == Ident(f) && b.ListExpr?;
      if f == "tag" {
        TagInBuilt(w, b.elements);
      } else {
        ScalarInBuilt(w, f, b.elements);
        assert CelEval(w, map[], a) == FieldValue(w.schema[f], w.row);
      }
    } else {
      ElementInBuilt(w, a, b, c);
    }
  }

  lemma ElementInBuilt(w: World, a: Expr, b: Expr, c: Condition)
    requires TypedRow(w.schema, w.row) && NoOverflow(a, w.now) && InInt64(w.now)
    requires c.ElementIn? && b == Ident(c.field) && BuildValue(w.schema, a, w.now) == Ok(c.element)
    requires LeafElementIn(w.schema, w.d, c.element, c.field).Ok? && ColumnsPresent(w.schema, w.row, c)
    ensures CelEval(w, map[], b) == Some(CList(ItemsOf(w.row, c.field)))
    ensures c.element.Literal? && c.element.value.StrV? && CelEval(w, map[], a) == Some(CString(c.element.value.s))
    ensures LeafHolds(w.schema, w.row, c) <==> c.element.value.s in ItemsOf(w.row, c.field)
  {
    hide BuildValue;
    LiteralExact(w, a);
  }

  lemma ContainsBuilt(w: World, e: Expr, c: Condition)
    requires TypedRow(w.schema, w.row) && e.Call? && e.fn == "contains" &&
             BuildContains(w.schema, e.target, e.args) == Ok(c)
    requires c.Contains? && Typed(w.schema, c) && ColumnsPresent(w.schema, w.row, c)
    ensures CelEval(w, map[], e) == Some(CBool(LeafHolds(w.schema, w.row, c)))
  {
    hide Substring, Less;
    var f := e.target.value.name;
    assert TypedField(w.schema[f], w.row);
    assert GetConst(e.args[0]) == Ok(StrV(c.text));
    assert CelEval(w, map[], e.args[0]) == Some(CString(c.text));
    assert CelEval(w, map[], e.target.value) == FieldValue(w.schema[f], w.row);
    assert CelEval(w, map[], e) == CelCall1(w, map[], e);
  }

  /**
   End to end: for every filter expression the compiler accepts, in every dialect and on every row on which no
   compared field is missing, the SQL value of the compiled filter is the CEL value of the expression. Needles of
   contains() have no wildcards and no cased characters; ContainsFilterMatchesWildcard and ContainsFilterIgnoresCase
   show why.
   */
  lemma CompiledFilterIsExact(w: World, e: Expr)
    requires TypedRow(w.schema, w.row) && PlainSchema(w.schema) && FoldsText(w.fold)
    requires Checked(e) && NoOverflow(e, w.now) && InInt64(w.now) && BuildCondition(w.schema, e, w.now).Ok?
    requires var c := BuildCondition(w.schema, e, w.now).value;
             Typed(w.schema, c) && PlainLiterals(w.d, w.fold, c) && Complete(w.schema, w.d, w.row, c) &&
               Translate(w.schema, w.d, c).Ok?
    ensures var l := Translate(w.schema, w.d, BuildCondition(w.schema, e, w.now).value).value;
            CelEval(w, map[], e) == Some(CBool(EvalFolded(Meaning(w.d, w.fold, w.row), Fold(l)) == True)) &&
            EvalFolded(Meaning(w.d, w.fold, w.row), Fold(l)) != Unknown
  {
    hide CelEval, BuildCondition, Translate, Fold, EvalFolded, EvalLogic, Holds, TypedRow, FoldsText, Complete,
         ColumnsPresent, Settled;
    var c := BuildCondition(w.schema, e, w.now).value;
    SettledByColumns(w.schema, w.d, w.row, c, true);
    BuildIsExact(w, e);
    TranslationIsExact(w.schema, w.d, w.fold, w.row, c);
    FoldPreservesMeaning(Meaning(w.d, w.fold, w.row), Translate(w.schema, w.d, c).value);
  }

  /**
   The compiled filter selects the row exactly if the expression is true of it, also where the payload omits flags and
   lists that are compared, as long as the value they are read as does not make their comparison true, or false under
   a negation; MissingFlagIsNotSelected and MissingListIsNotSelected show why.
   */
  lemma CompiledFilterSelects(w: World, e: Expr)
    requires TypedRow(w.schema, w.row) && PlainSchema(w.schema) && FoldsText(w.fold)
    requires Checked(e) && NoOverflow(e, w.now) && InInt64(w.now) && BuildCondition(w.schema, e, w.now).Ok?
    requires var c := BuildCondition(w.schema, e, w.now).value;
             Typed(w.schema, c) && PlainLiterals(w.d, w.fold, c) && Settled(w.schema, w.d, w.row, c, true) &&
               Translate(w.schema, w.d, c).Ok?
    ensures var l := Translate(w.schema, w.d, BuildCondition(w.schema, e, w.now).value).value;
            EvalFolded(Meaning(w.d, w.fold, w.row), Fold(l)) == True <==> CelEval(w, map[], e) == Some(CBool(true))
  {
    hide CelEval, BuildCondition, Translate, Fold, EvalFolded, EvalLogic, Holds, TypedRow, FoldsText, ColumnsPresent,
         Settled;
    var c := BuildCondition(w.schema, e, w.now).value;
    SettledByColumns(w.schema, w.d, w.row, c, true);
    BuildIsExact(w, e);
    TranslationSettles(w.schema, w.d, w.fold, w.row, c, true);
    FoldPreservesMeaning(Meaning(w.d, w.fold, w.row), Translate(w.schema, w.d, c).value);
  }

  /** The expression `field.contains(text)`. */
  function ContainsExpr(f: string, text: string): Expr {
    Call("contains", Some(Ident(f)), [Expr.Const(StringC(text))])
  }

  /**
   `content.contains("a")` is false of the content "A" in CEL, and its SQL selects it, whenever the database ignores the
   case of "a".
   */
  lemma ContainsFilterIgnoresCase(w: World, f: string)
    requires FoldsText(w.fold) && w.fold('A') == w.fold('a') && w.row == RowWith(f, "A")
    requires f in w.schema && w.schema[f].kind == FieldKind.Scalar && w.schema[f].ty == StringType &&
             w.schema[f].supportsContains
    ensures BuildCondition(w.schema, ContainsExpr(f, "a"), w.now) == Ok(Contains(f, "a"))
    ensures CelEval(w, map[], ContainsExpr(f, "a")) == Some(CBool(false))
    ensures Translate(w.schema, w.d, Contains(f, "a")).Ok?
    ensures EvalLogic(Meaning(w.d, w.fold, w.row), Translate(w.schema, w.d, Contains(f, "a")).value) == True
  {
    hide FoldsText, Substring;
    ContainsIgnoresCase(w.schema, w.d, w.fold, f);
    ContainsOnContent(w, f, "a", "A");
  }

  /** What the expression and its condition are on a row with one text. */
  lemma ContainsOnContent(w: World, f: string, text: string, content: string)
    requires w.row == RowWith(f, content)
    requires f in w.schema && w.schema[f].kind == FieldKind.Scalar && w.schema[f].supportsContains
    ensures BuildCondition(w.schema, ContainsExpr(f, text), w.now) == Ok(Contains(f, text))
    ensures CelEval(w, map[], ContainsExpr(f, text)) == Some(CBool(Substring(text, content)))
    ensures LeafContains(w.schema, w.d, f, text).Ok?
    ensures Translate(w.schema, w.d, Contains(f, text)) == Ok(Leaf(LeafContains(w.schema, w.d, f, text).value))
  {
    hide Substring;
    var e := ContainsExpr(f, text);
    assert CelEval(w, map[], e.args[0]) == Some(CString(text));
    assert CelEval(w, map[], e.target.value) == Some(CString(content));
    assert CelEval(w, map[], e) == CelCall1(w, map[], e);
  }

  /**
   A needle with wildcards, whatever the folding: `contains` is false of its sample in CEL, and the SQL selects it. The
   needle "@#$%" finds "@#$".
   */
  lemma ContainsFilterMatchesWildcard(w: World, f: string, text: string)
    requires FoldsText(w.fold) && !TagText.Plain(Escapes(w.d), text)
    requires w.row == RowWith(f, Sample(Escapes(w.d), '%', text))
    requires f in w.schema && w.schema[f].kind == FieldKind.Scalar && w.schema[f].supportsContains
    ensures BuildCondition(w.schema, ContainsExpr(f, text), w.now) == Ok(Contains(f, text))
    ensures CelEval(w, map[], ContainsExpr(f, text)) == Some(CBool(false))
    ensures Translate(w.schema, w.d, Contains(f, text)).Ok?
    ensures EvalLogic(Meaning(w.d, w.fold, w.row), Translate(w.schema, w.d, Contains(f, text)).value) == True
    ensures text == "@#$%" ==> w.row == RowWith(f, "@#$")
  {
    hide FoldsText, Substring, TagText.Plain, Sample, LeafContains, CelEval, BuildCondition, Translate;
    ContainsOnContent(w, f, text, Sample(Escapes(w.d), '%', text));
    ContainsMatchesWildcard(w.schema, w.d, w.fold, f, text);
    SampleOfSpecial(Escapes(w.d));
  }

  lemma SampleOfSpecial(escape: bool)
    ensures Sample(escape, '%', "@#$%") == "@#$"
  {
    hide Sample;
    SampleOfNone(escape, '%');
    SampleCons(escape, '%', "%");
    SampleCons(escape, '%', "$%");
    SampleCons(escape, '%', "#$%");
    SampleCons(escape, '%', "@#$%");
    assert "%"[1..] == "" && "$%"[1..] == "%" && "#$%"[1..] == "$%" && "@#$%"[1..] == "#$%";
  }

  /** The expression `flag == false`. */
  function UnsetExpr(flag: string): Expr {
    Call("_==_", None, [Ident(flag), Expr.Const(BoolC(false))])
  }

  /**
   A flag that the payload omits is false, so `flag == false` is true in CEL; except for most flags in SQLite, the SQL
   is NULL and does not select the memo.
   */
  lemma MissingFlagIsNotSelected(w: World, flag: string)
    requires flag in w.schema && w.schema[flag].kind == JsonBool && flag !in w.row.flags && !ReadsMissingFlag(w.d, flag)
    requires w.schema[flag].allowedOps.None? || Eq in w.schema[flag].allowedOps.value
    ensures CelEval(w, map[], UnsetExpr(flag)) == Some(CBool(true))
    ensures BuildCondition(w.schema, UnsetExpr(flag), w.now) ==
              Ok(Comparison(FieldRef(flag), Eq, Literal(BoolV(false))))
    ensures var l := Translate(w.schema, w.d, Comparison(FieldRef(flag), Eq, Literal(BoolV(false))));
            l.Ok? && EvalLogic(Meaning(w.d, w.fold, w.row), l.value) == Unknown
  {
    hide Less;
    var e := UnsetExpr(flag);
    assert CelEval(w, map[], e.args[0]) == Some(CBool(false)) && CelEval(w, map[], e.args[1]) == Some(CBool(false));
    assert CelEval(w, map[], e) == CelCall2(w, map[], e);
    JsonBoolExact(w.d, w.fold, w.row, w.schema[flag], Eq, BoolV(false));
  }

  /** The expression `!(<text> in list)`. */
  function NotInExpr(text: string, list: string): Expr {
    Call("!_", None, [Call("@in", None, [Expr.Const(StringC(text)), Ident(list)])])
  }

  /**
   A list that the payload omits is empty, so `!("x" in tags)` is true of an untagged memo in CEL; the SQL is NULL and
   does not select it.
   */
  lemma MissingListIsNotSelected(w: World, list: string, text: string)
    requires list in w.schema && w.schema[list].kind == JsonList && list !in w.row.lists
    ensures CelEval(w, map[], NotInExpr(text, list)) == Some(CBool(true))
    ensures BuildCondition(w.schema, NotInExpr(text, list), w.now) ==
              Ok(Negation(ElementIn(Literal(StrV(text)), list)))
    ensures var l := Translate(w.schema, w.d, Negation(ElementIn(Literal(StrV(text)), list)));
            l.Ok? && EvalLogic(Meaning(w.d, w.fold, w.row), l.value) == Unknown
  {
    hide CelEval, BuildCondition, Translate;
    NotInIsTrue(w, list, text);
    NotInBuilds(w, list, text);
    var sql := LeafElementIn(w.schema, w.d, Literal(StrV(text)), list).value;
    MissingList(w.schema, w.d, w.fold, w.row, Literal(StrV(text)), list);
    assert EvalLogic(Meaning(w.d, w.fold, w.row), Negate(Leaf(sql))) == KNot(Unknown);
  }

  lemma NotInIsTrue(w: World, list: string, text: string)
    requires list in w.schema && w.schema[list].kind == JsonList && list !in w.row.lists
    ensures CelEval(w, map[], NotInExpr(text, list)) == Some(CBool(true))
  {
    var e := NotInExpr(text, list);
    var inner := e.args[0];
    assert CelEval(w, map[], inner.args[0]) == Some(CString(text));
    assert CelEval(w, map[], inner.args[1]) == Some(CList([]));
    assert CelEval(w, map[], inner) == CelCall2(w, map[], inner) == Some(CBool(false));
    assert CelEval(w, map[], e) == CelCall1(w, map[], e);
  }

  lemma NotInBuilds(w: World, list: string, text: string)
    requires list in w.schema && w.schema[list].kind == JsonList
    ensures BuildCondition(w.schema, NotInExpr(text, list), w.now) ==
              Ok(Negation(ElementIn(Literal(StrV(text)), list)))
    ensures LeafElementIn(w.schema, w.d, Literal(StrV(text)), list).Ok?
    ensures Translate(w.schema, w.d, Negation(ElementIn(Literal(StrV(text)), list))) ==
              Ok(Negate(Leaf(LeafElementIn(w.schema, w.d, Literal(StrV(text)), list).value)))
  {
    hide LeafElementIn;
    var inner := NotInExpr(text, list).args[0];
    assert BuildValue(w.schema, inner.args[0], w.now) == Ok(Literal(StrV(text)));
    assert BuildCondition(w.schema, inner, w.now) == Ok(ElementIn(Literal(StrV(text)), list));
    ElementInIsAccepted(w.schema, w.d, text, list);
    assert Translate(w.schema, w.d, ElementIn(Literal(StrV(text)), list)) ==
             Ok(Leaf(LeafElementIn(w.schema, w.d, Literal(StrV(text)), list).value));
  }

  lemma ElementInIsAccepted(schema: Schema, d: Dialect, text: string, list: string)
    requires list in schema && schema[list].kind == JsonList
    ensures LeafElementIn(schema, d, Literal(StrV(text)), list).Ok?
  {
  }
}
