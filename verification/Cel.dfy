/** From type-checked CEL expressions to condition trees (internal/filter/parser.go). */
module Cel {
  import opened Arithmetic
  import opened FilterIr
  import opened FilterLeaves
  import opened Sql
  import opened Text
  import opened Wrappers

  const WORD := 0x1_0000_0000_0000_0000
  const HALF := 0x8000_0000_0000_0000

  datatype ConstantValue = StringC(s: string) | IntC(i: int) | UintC(u: nat) | DoubleC(r: real) | BoolC(b: bool) | NullC

  datatype Expr =
    | Const(c: ConstantValue)
    | Ident(name: string)
    | Call(fn: string, target: Option<Expr>, args: seq<Expr>)
    | ListExpr(elements: seq<Expr>)
    | Comprehension(iterVar: string, range: Expr, accuVar: string, accuInit: Expr, loopStep: Expr, result: Expr)

  // ----- Constants

  /** Reduction to 64-bit two's complement. */
  function Wrap(n: int): int { (n + HALF) % WORD - HALF }

  predicate InInt64(n: int) { MIN_INT64 <= n <= MAX_INT64 }

  function GetConst(e: Expr): Result<Value> {
    if !e.Const? then Err
    else
      match e.c
      case StringC(s) => Ok(StrV(s))
      case IntC(i) => Ok(IntV(i))
      case UintC(u) => Ok(IntV(Wrap(u)))
      case DoubleC(r) => Ok(RealV(r))
      case BoolC(b) => Ok(BoolV(b))
      case NullC => Ok(Null)
  }

  predicate IsArithmetic(fn: string) { fn == "_+_" || fn == "_-_" || fn == "_*_" }

  function Compute(fn: string, a: int, b: int): int {
    if fn == "_+_" then a + b else if fn == "_-_" then a - b else a * b
  }

  /** Folds integer arithmetic over literals and `now()`; `Ok(None)` means the expression is not of that form. */
  function EvaluateNumeric(e: Expr, now: int): Result<Option<int>> {
    match e
    case Const(_) =>
      (match GetConst(e)
       case Ok(IntV(i)) => Ok(Some(i))
       case Ok(RealV(r)) => Ok(Some(Wrap(if r >= 0.0 then r.Floor else -((-r).Floor))))
       case _ => Ok(None))
    case Call(fn, _, args) =>
      if fn == "now" then Ok(Some(now))
      else if IsArithmetic(fn) then
        if |args| != 2 then Err
        else
          (match EvaluateNumeric(args[0], now)
           case Err => Err
           case Ok(None) => Ok(None)
           case Ok(Some(left)) =>
             match EvaluateNumeric(args[1], now)
             case Err => Err
             case Ok(None) => Ok(None)
             case Ok(Some(right)) => Ok(Some(Wrap(Compute(fn, left, right)))))
      else Ok(None)
    case _ => Ok(None)
  }

  function EvaluateBool(e: Expr): Result<Option<bool>> {
    match e
    case Const(BoolC(b)) => Ok(Some(b))
    case Call(fn, _, args) =>
      if fn != "!_" then Ok(None)
      else if |args| != 1 then Err
      else
        (match EvaluateBool(args[0])
         case Err => Err
         case Ok(None) => Ok(None)
         case Ok(Some(b)) => Ok(Some(!b)))
    case _ => Ok(None)
  }

  // ----- Constant arithmetic is exact modulo 2^64

  /** The integer an arithmetic expression denotes, without any bound. */
  function TrueNumber(e: Expr, now: int): Option<int> {
    match e
    case Const(IntC(i)) => Some(i)
    case Const(UintC(u)) => Some(u)
    case Call(fn, _, args) =>
      if fn == "now" then Some(now)
      else if |args| == 2 then
        (match (TrueNumber(args[0], now), TrueNumber(args[1], now))
         case (Some(a), Some(b)) =>
           if fn == "_+_" then Some(a + b)
           else if fn == "_-_" then Some(a - b)
           else if fn == "_*_" then Some(a * b)
           else None
         case _ => None)
      else None
    case _ => None
  }

  /** Integer literals are 64-bit, and there are no floating-point literals. */
  predicate IntegerLiterals(e: Expr) {
    match e
    case Const(IntC(i)) => InInt64(i)
    case Const(DoubleC(_)) => false
    case Call(_, _, args) => forall a :: a in args ==> IntegerLiterals(a)
    case _ => true
  }

  lemma WrapDifference(n: int)
    ensures exists k :: Wrap(n) == n + k * WORD
  {
    var q := (n + HALF) / WORD;
    assert Wrap(n) == n + (-q) * WORD;
  }

  lemma WrapPeriodic(n: int, k: int)
    ensures Wrap(n + k * WORD) == Wrap(n)
  {
    var q, r := (n + HALF) / WORD, (n + HALF) % WORD;
    assert n + k * WORD + HALF == (q + k) * WORD + r by { Distribute(q, -k, WORD); }
    Quotient(n + k * WORD + HALF, q + k, WORD, r);
  }

  lemma WrapInRange(n: int)
    ensures InInt64(Wrap(n))
    ensures InInt64(n) ==> Wrap(n) == n
  {
  }

  /** Reducing the operands first does not change the reduced result. */
  lemma WrapOperands(fn: string, a: int, b: int)
    ensures Wrap(Compute(fn, Wrap(a), Wrap(b))) == Wrap(Compute(fn, a, b))
  {
    hide Wrap;
    WrapDifference(a);
    WrapDifference(b);
    var j :| Wrap(a) == a + j * WORD;
    var k :| Wrap(b) == b + k * WORD;
    if fn == "_+_" {
      Distribute(j, -k, WORD);
      WrapPeriodic(a + b, j + k);
    } else if fn == "_-_" {
      Distribute(j, k, WORD);
      WrapPeriodic(a - b, j - k);
    } else {
      ProductExpands(a, j, b, k);
      WrapPeriodic(a * b, a * k + j * b + j * k * WORD);
    }
  }

  lemma ProductExpands(a: int, j: int, b: int, k: int)
    ensures (a + j * WORD) * (b + k * WORD) == a * b + (a * k + j * b + j * k * WORD) * WORD
  {
    var w := WORD;
    assert (a + j * w) * (b + k * w) == a * (b + k * w) + j * w * (b + k * w);
    assert a * (b + k * w) == a * b + a * k * w;
    assert j * w * (b + k * w) == j * b * w + j * k * w * w;
  }

  /**
   Constant arithmetic folds exactly where there is an integer value, namely to that value reduced to 64-bit two's
   complement, for every expression tree; so to the exact value precisely when that value fits in 64 bits.
   */
  lemma {:induction false} NumericFoldsModulo(e: Expr, now: int)
    requires IntegerLiterals(e) && InInt64(now)
    ensures EvaluateNumeric(e, now).Ok? && EvaluateNumeric(e, now).value.Some? <==> TrueNumber(e, now).Some?
    ensures TrueNumber(e, now).Some? ==> EvaluateNumeric(e, now) == Ok(Some(Wrap(TrueNumber(e, now).value)))
    ensures TrueNumber(e, now).Some? ==>
              (EvaluateNumeric(e, now).value.value == TrueNumber(e, now).value <==> InInt64(TrueNumber(e, now).value))
  {
    hide Wrap;
    if TrueNumber(e, now).Some? { WrapInRange(TrueNumber(e, now).value); }
    match e
    case Const(_) =>
    case Call(fn, _, args) =>
      if fn != "now" && |args| == 2 {
        assert args[0] in args && args[1] in args;
        NumericFoldsModulo(args[0], now);
        NumericFoldsModulo(args[1], now);
        if TrueNumber(args[0], now).Some? && TrueNumber(args[1], now).Some? {
          WrapOperands(fn, TrueNumber(args[0], now).value, TrueNumber(args[1], now).value);
        }
      }
    case _ =>
  }

  // ----- Values and conditions

  function BuildValue(schema: Schema, e: Expr, now: int): Result<ValueExpr>
    decreases e, 1
  {
    match e
    case Ident(name) => if name in schema then Ok(FieldRef(name)) else Err
    case _ =>
      match GetConst(e)
      case Ok(v) => Ok(Literal(v))
      case Err =>
        match EvaluateNumeric(e, now)
        case Err => Err
        case Ok(Some(n)) => Ok(Literal(IntV(n)))
        case Ok(None) =>
          match EvaluateBool(e)
          case Err => Err
          case Ok(Some(b)) => Ok(Literal(BoolV(b)))
          case Ok(None) => BuildSize(schema, e, now)
  }

  function BuildSize(schema: Schema, e: Expr, now: int): Result<ValueExpr>
    requires !e.Ident?
    decreases e, 0
  {
    if e.Call? && e.fn == "size" && |e.args| == 1 then
      match BuildValue(schema, e.args[0], now)
      case Err => Err
      case Ok(arg) => Ok(FunctionValue("size", [arg]))
    else Err
  }

  function ComparisonOperator(fn: string): Option<CompareOp> {
    if fn == "_==_" then Some(Eq)
    else if fn == "_!=_" then Some(Neq)
    else if fn == "_<_" then Some(Lt)
    else if fn == "_>_" then Some(Gt)
    else if fn == "_<=_" then Some(Lte)
    else if fn == "_>=_" then Some(Gte)
    else None
  }

  /** The operators a field allows; an alias allows what its target allows. */
  predicate OperatorAllowed(schema: Schema, name: string, op: CompareOp) {
    var field := ResolveAlias(schema, name);
    field.Some? && (field.value.allowedOps.None? || op in field.value.allowedOps.value)
  }

  function BuildComparison(schema: Schema, op: CompareOp, args: seq<Expr>, now: int): Result<Condition> {
    if |args| != 2 then Err
    else
      match (BuildValue(schema, args[0], now), BuildValue(schema, args[1], now))
      case (Ok(left), Ok(right)) =>
        if left.FieldRef? && !OperatorAllowed(schema, left.name, op) then Err else Ok(Comparison(left, op, right))
      case _ => Err
  }

  function BuildValues(schema: Schema, es: seq<Expr>, now: int): Result<seq<ValueExpr>> {
    if es == [] then Ok([])
    else
      match (BuildValue(schema, es[0], now), BuildValues(schema, es[1..], now))
      case (Ok(v), Ok(rest)) => Ok([v] + rest)
      case _ => Err
  }

  function BuildIn(schema: Schema, args: seq<Expr>, now: int): Result<Condition> {
    if |args| != 2 then Err
    else if args[0].Ident? && (args[0].name !in schema || ResolveAlias(schema, args[0].name).None?) then Err
    else if args[0].Ident? && args[1].ListExpr? then
      match BuildValues(schema, args[1].elements, now)
      case Err => Err
      case Ok(values) => Ok(In(FieldRef(args[0].name), values))
    else if args[1].Ident? && args[1].name in schema then
      match BuildValue(schema, args[0], now)
      case Err => Err
      case Ok(element) => Ok(ElementIn(element, args[1].name))
    else Err
  }

  function BuildContains(schema: Schema, target: Option<Expr>, args: seq<Expr>): Result<Condition> {
    if target.None? || !target.value.Ident? || target.value.name !in schema ||
      !schema[target.value.name].supportsContains then Err
    else if |args| != 1 then Err
    else
      match GetConst(args[0])
      case Ok(StrV(s)) => Ok(Contains(target.value.name, s))
      case _ => Err
  }

  /** The predicate in the loop step of `exists`: a test of the iteration variable against a string constant. */
  function ExtractPredicate(iterVar: string, step: Expr): Result<TagPredicate> {
    if !step.Call? || |step.args| != 2 || !step.args[1].Call? then Err
    else
      var p := step.args[1];
      if p.fn == "_==_" then BuildEquals(iterVar, p.args)
      else if p.target.None? || p.target.value != Ident(iterVar) || |p.args| != 1 then Err
      else
        match GetConst(p.args[0])
        case Ok(StrV(s)) =>
          if p.fn == "startsWith" then Ok(StartsWith(s))
          else if p.fn == "endsWith" then Ok(EndsWith(s))
          else if p.fn == "contains" then Ok(ContainsText(s))
          else Err
        case _ => Err
  }

  /** Equality may be written either way round. */
  function BuildEquals(iterVar: string, args: seq<Expr>): Result<TagPredicate> {
    if |args| != 2 then Err
    else
      var other := if args[0] == Ident(iterVar) then Some(args[1]) else if args[1] == Ident(iterVar) then Some(args[0])
        else None;
      if other.None? then Err
      else
        match GetConst(other.value)
        case Ok(StrV(s)) => Ok(Equals(s))
        case _ => Err
  }

  /** Only `exists` is supported: an accumulator that starts false and a step that is a disjunction. */
  function BuildComprehension(schema: Schema, e: Expr): Result<Condition>
    requires e.Comprehension?
  {
    if !e.accuInit.Const? || e.accuInit.c == BoolC(true) then Err
    else if !e.loopStep.Call? || e.loopStep.fn != "_||_" then Err
    else if !e.range.Ident? || e.range.name !in schema || schema[e.range.name].kind != JsonList then Err
    else
      match ExtractPredicate(e.iterVar, e.loopStep)
      case Err => Err
      case Ok(p) => Ok(ListComprehension(e.range.name, p))
  }

  function BuildCondition(schema: Schema, e: Expr, now: int): Result<Condition> {
    match e
    case Const(c) => if c.BoolC? then Ok(Constant(c.b)) else Err
    case Ident(name) =>
      if name in schema && schema[name].ty == BoolType then Ok(FieldPredicate(name)) else Err
    case Comprehension(_, _, _, _, _, _) => BuildComprehension(schema, e)
    case Call(fn, target, args) =>
      if fn == "_&&_" || fn == "_||_" then
        if |args| != 2 then Err
        else
          (match (BuildCondition(schema, args[0], now), BuildCondition(schema, args[1], now))
           case (Ok(l), Ok(r)) => Ok(Logical(if fn == "_&&_" then LogicalAnd else LogicalOr, l, r))
           case _ => Err)
      else if fn == "!_" then
        if |args| != 1 then Err
        else
          (match BuildCondition(schema, args[0], now)
           case Err => Err
           case Ok(c) => Ok(Negation(c)))
      else if ComparisonOperator(fn).Some? then BuildComparison(schema, ComparisonOperator(fn).value, args, now)
      else if fn == "@in" then BuildIn(schema, args, now)
      else if fn == "contains" then BuildContains(schema, target, args)
      else Err
    case ListExpr(_) => Err
  }
}
