/**
 Several filters in one WHERE clause (internal/filter/helpers.go): the text they add, the arguments they
 add, and which rows the clause selects once the arguments are bound.
 */
module FilterWhere {
  import opened FilterIr
  import opened FilterLeaves
  import opened FilterPlan
  import opened FilterRender
  import opened Sql
  import opened Wrappers

  /** The conditions and arguments that a list of filters adds after `n` earlier arguments. */
  datatype Added = Added(parts: seq<Sql<Placeholder>>, args: seq<Value>)

  function SqlOf<P>(f: Folded<P>): Sql<P>
    requires !f.Trivial?
  {
    if f.Live? then f.sql else Atom(OneEqualsZero, [])
  }

  function AddedBy(schema: Schema, d: Dialect, filters: seq<Condition>, n: nat): Result<Added> {
    if filters == [] then Ok(Added([], []))
    else
      match Translate(schema, d, filters[0])
      case Err => Err
      case Ok(l) =>
        var f := Fold(NumberingLogic(l, d, n));
        if f.Trivial? then AddedBy(schema, d, filters[1..], n)
        else
          match AddedBy(schema, d, filters[1..], n + |AllParams(l)|)
          case Err => Err
          case Ok(more) => Ok(Added([SqlOf(f)] + more.parts, AllParams(l) + more.args))
  }

  function Bracketed(s: Sql<Placeholder>): Text { [LParen] + Print(s) + [RParen] }

  function BracketEach(parts: seq<Sql<Placeholder>>): seq<Text> {
    seq(|parts|, i requires 0 <= i < |parts| => Bracketed(parts[i]))
  }

  /** Appends the filters to a WHERE clause; on an error the clause is not used. */
  method AppendConditions(schema: Schema, d: Dialect, filters: seq<Condition>, where0: seq<Text>, args0: seq<Value>)
    returns (ok: bool, where: seq<Text>, args: seq<Value>)
    ensures match AddedBy(schema, d, filters, |args0|)
            case Err => !ok
            case Ok(added) => ok && where == where0 + BracketEach(added.parts) && args == args0 + added.args
  {
    hide Fold, Translate, NumberingLogic, AllParams, Print, AddedBy;
    where, args := where0, args0;
    ghost var parts: seq<Sql<Placeholder>>, more: seq<Value> := [], [];
    AddedStart(schema, d, filters, |args0|);
    for i := 0 to |filters|
      invariant where == where0 + BracketEach(parts) && args == args0 + more
      invariant AddedBy(schema, d, filters, |args0|) == Prefixed(parts, more, AddedBy(schema, d, filters[i..], |args|))
    {
      AddedStep(schema, d, filters, i, parts, more, |args|);
      var renderer := new Renderer(schema, d, |args|);
      var stmt := renderer.Render(filters[i]);
      if stmt.Err? { return false, where, args; }
      ghost var l := Translate(schema, d, filters[i]).value;
      ghost var f := Fold(NumberingLogic(l, d, |args|));
      TextIsEmptyIffTrivial(f);
      if stmt.value.sql == [] { continue; }
      ghost var part := SqlOf(f);
      assert BracketEach(parts + [part]) == BracketEach(parts) + [Bracketed(part)];
      where := where + [[LParen] + stmt.value.sql + [RParen]];
      args := args + stmt.value.args;
      parts, more := parts + [part], more + AllParams(l);
    }
    AddedEnd(schema, d, filters, parts, more, |args|);
    ok := true;
  }

  ghost function Prefixed(parts: seq<Sql<Placeholder>>, args: seq<Value>, rest: Result<Added>): Result<Added> {
    if rest.Ok? then Ok(Added(parts + rest.value.parts, args + rest.value.args)) else Err
  }

  lemma AddedStart(schema: Schema, d: Dialect, filters: seq<Condition>, n: nat)
    ensures AddedBy(schema, d, filters, n) == Prefixed([], [], AddedBy(schema, d, filters[0..], n))
  {
    hide AddedBy;
    assert filters[0..] == filters;
    var all := AddedBy(schema, d, filters, n);
    assert all.Ok? ==> [] + all.value.parts == all.value.parts && [] + all.value.args == all.value.args;
  }

  lemma AddedStep(schema: Schema, d: Dialect, filters: seq<Condition>, i: nat, parts: seq<Sql<Placeholder>>,
                  args: seq<Value>, n: nat)
    requires i < |filters|
    ensures Prefixed(parts, args, AddedBy(schema, d, filters[i..], n)) ==
            match Translate(schema, d, filters[i])
            case Err => Err
            case Ok(l) =>
              var f := Fold(NumberingLogic(l, d, n));
              if f.Trivial? then Prefixed(parts, args, AddedBy(schema, d, filters[i + 1..], n))
              else Prefixed(parts + [SqlOf(f)], args + AllParams(l),
                            AddedBy(schema, d, filters[i + 1..], n + |AllParams(l)|))
  {
    hide Translate, Fold, NumberingLogic, AllParams;
    assert filters[i..][1..] == filters[i + 1..];
    if Translate(schema, d, filters[i]).Ok? {
      var l := Translate(schema, d, filters[i]).value;
      var f := Fold(NumberingLogic(l, d, n));
      var rest := AddedBy(schema, d, filters[i + 1..], n + |AllParams(l)|);
      if !f.Trivial? && rest.Ok? {
        assert parts + ([SqlOf(f)] + rest.value.parts) == parts + [SqlOf(f)] + rest.value.parts;
        assert args + (AllParams(l) + rest.value.args) == args + AllParams(l) + rest.value.args;
      }
    }
  }

  lemma AddedEnd(schema: Schema, d: Dialect, filters: seq<Condition>, parts: seq<Sql<Placeholder>>, args: seq<Value>,
                 n: nat)
    ensures Prefixed(parts, args, AddedBy(schema, d, filters[|filters|..], n)) == Ok(Added(parts, args))
  {
    assert filters[|filters|..] == [];
    assert parts + [] == parts && args + [] == args;
  }

  lemma TextIsEmptyIffTrivial(f: Folded<Placeholder>)
    ensures StatementText(f) == [] <==> f.Trivial?
    ensures !f.Trivial? ==> StatementText(f) == Print(SqlOf(f))
  {
  }

  // ----- The clause as text

  /**
   The clause the drivers send: `1 = 1`, the filters' parts in brackets and the driver's own conditions, joined by AND.
   */
  function WhereText(parts: seq<Sql<Placeholder>>, plain: seq<Sql<Placeholder>>): Text {
    JoinTexts([[Word(OneEqualsOne, [])]] + BracketEach(parts) + PrintEach(plain), AndWord)
  }

  /** `1 = 1` and the given conditions; alone it stands without AND. */
  function ClauseOf<P>(parts: seq<Sql<P>>): Sql<P> {
    if parts == [] then Atom(OneEqualsOne, []) else Conj([Atom(OneEqualsOne, [])] + parts)
  }

  /** Whatever follows the text, the grammar reads it as one operand. */
  ghost predicate ReadsAs(text: Text, s: Sql<Placeholder>) {
    forall after :: ParseUnary(text + after) == Parsed(s, |after|)
  }

  lemma ReadBracketed(s: Sql<Placeholder>, after: Text)
    requires WellFormed(s)
    ensures ParseUnary(Bracketed(s) + after) == Parsed(s, |after|)
  {
    hide Print, ParseUnary, ParseOr;
    ReadAlone(s, [RParen] + after);
    var inner := Print(s) + ([RParen] + after);
    assert Bracketed(s) + after == [LParen] + inner;
    UnaryOfParens(inner, s, after);
  }

  lemma BracketedIsOperand(s: Sql<Placeholder>)
    requires WellFormed(s)
    ensures ReadsAs(Bracketed(s), s)
  {
    hide Bracketed, ParseUnary;
    forall after ensures ParseUnary(Bracketed(s) + after) == Parsed(s, |after|) { ReadBracketed(s, after); }
  }

  lemma PrintedIsOperand(s: Sql<Placeholder>)
    requires WellFormed(s)
    ensures ReadsAs(Print(s), s)
  {
    hide Print, ParseUnary;
    forall after ensures ParseUnary(Print(s) + after) == Parsed(s, |after|) { ReadUnary(s, after); }
  }

  lemma {:induction false} ReadOperands(texts: seq<Text>, ss: seq<Sql<Placeholder>>)
    requires |texts| == |ss| >= 1 && forall i :: 0 <= i < |ss| ==> ReadsAs(texts[i], ss[i])
    ensures ParseAndList(JoinTexts(texts, AndWord)) == Parsed(ss, 0)
  {
    hide ParseUnary, ParseAndList, ReadsAs;
    if |texts| == 1 {
      ReadInFront(texts[0], ss[0], []);
      assert texts[0] + [] == texts[0] && ss == [ss[0]];
      AndListOfUnary(texts[0], ss[0], []);
    } else {
      var more := JoinTexts(texts[1..], AndWord);
      ReadOperands(texts[1..], ss[1..]);
      ReadInFront(texts[0], ss[0], [AndWord] + more);
      var ts := JoinTexts(texts, AndWord);
      assert ts == texts[0] + ([AndWord] + more);
      AndListCons(ts, ss[0], more, ss[1..], []);
      assert [ss[0]] + ss[1..] == ss;
    }
  }

  lemma ReadInFront(text: Text, s: Sql<Placeholder>, after: Text)
    requires ReadsAs(text, s)
    ensures ParseUnary(text + after) == Parsed(s, |after|)
  {
  }

  /** The clause reads as the conjunction of `1 = 1` and exactly the given conditions. */
  lemma WhereTextMeansConjunction(parts: seq<Sql<Placeholder>>, plain: seq<Sql<Placeholder>>)
    requires (forall p :: p in parts ==> WellFormed(p)) && (forall p :: p in plain ==> WellFormed(p))
    ensures Parse(WhereText(parts, plain)) == Some(ClauseOf(parts + plain))
  {
    hide Bracketed, ParseUnary, ParseAndList, ParseOrList, ParseAnd, WellFormed, ReadsAs, Print, JoinTexts;
    var one: Sql<Placeholder> := Atom(OneEqualsOne, []);
    var texts := [[Word(OneEqualsOne, [])]] + BracketEach(parts) + PrintEach(plain);
    var ss := [one] + (parts + plain);
    OneIsOperand();
    forall i | 0 <= i < |ss| ensures ReadsAs(texts[i], ss[i]) {
      if i == 0 {
      } else if i <= |parts| {
        BracketedIsOperand(parts[i - 1]);
      } else {
        PrintedIsOperand(plain[i - 1 - |parts|]);
      }
    }
    ReadOperands(texts, ss);
    ParseOfAndList(WhereText(parts, plain), ss);
  }

  lemma OneIsOperand()
    ensures ReadsAs([Word(OneEqualsOne, [])], Atom(OneEqualsOne, []))
  {
    hide ParseUnary;
    forall after ensures ParseUnary([Word(OneEqualsOne, [])] + after) == Parsed(Atom(OneEqualsOne, []), |after|) {
      UnaryOfWord<Placeholder>(OneEqualsOne, [], after);
    }
  }

  /** A text that is a list of operands joined by AND and nothing else. */
  lemma ParseOfAndList(ts: Text, ss: seq<Sql<Placeholder>>)
    requires ParseAndList(ts) == Parsed(ss, 0) && |ss| >= 1
    ensures Parse(ts) == Some(if |ss| == 1 then ss[0] else Conj(ss))
  {
    hide ParseAndList, ParseOr;
    if |ss| == 1 {
      OrListOfAnd(ts, ss[0], []);
    } else {
      OrOfAndList(ts, ss, []);
    }
  }

  // ----- Which conditions print brackets with something to join

  /** No empty value list. */
  predicate NonEmptyLists(cond: Condition) {
    match cond
    case Logical(_, l, r) => NonEmptyLists(l) && NonEmptyLists(r)
    case Negation(e) => NonEmptyLists(e)
    case In(_, values) => values != []
    case _ => true
  }

  ghost predicate WellFormedLogic<P(!new)>(l: Logic<P>) {
    match l
    case Leaf(sql) => WellFormed(sql)
    case Const(_) => true
    case Negate(e) => WellFormedLogic(e)
    case Both(a, b) => WellFormedLogic(a) && WellFormedLogic(b)
    case Either(a, b) => WellFormedLogic(a) && WellFormedLogic(b)
  }

  lemma LeavesAreWellFormed(schema: Schema, d: Dialect, cond: Condition)
    requires !cond.Logical? && !cond.Negation? && !cond.Constant? && NonEmptyLists(cond)
    ensures LeafOf(schema, d, cond).Ok? ==> WellFormed(LeafOf(schema, d, cond).value)
  {
    hide LeafJsonBool, LeafScalar, InArguments, TagItems, ToInt64;
    match cond
    case In(lhs, values) =>
      if LeafOf(schema, d, cond).Ok? && lhs.name == "tag" {
        TagListIsWellFormed(d, ResolveAlias(schema, "tag").value.name, values);
      }
    case Comparison(lhs, op, rhs) =>
      JsonBoolIsWellFormed(d, op, rhs);
      ScalarIsWellFormed(op, rhs);
    case ListComprehension(field, p) =>
      TagPredicateIsWellFormed(d, field, p);
    case _ =>
  }

  lemma TagPredicateIsWellFormed(d: Dialect, field: string, p: TagPredicate)
    ensures WellFormed(TagPredicateLeaf(d, field, p)) && WellFormed(NullChecked(field, TagPredicateLeaf(d, field, p)))
  {
    assert WellFormed(TagPredicateLeaf(d, field, p)) by {
      if p.StartsWith? {
        assert WellFormed(PatternOrHas(d, field, p.text));
      }
    }
    NullCheckIsWellFormed(field, TagPredicateLeaf(d, field, p));
  }

  lemma NullCheckIsWellFormed(field: string, s: Sql<Value>)
    requires WellFormed(s)
    ensures WellFormed(NullChecked(field, s))
  {
  }

  lemma JsonBoolIsWellFormed(d: Dialect, op: CompareOp, rhs: ValueExpr)
    ensures forall name :: LeafJsonBool(d, name, op, rhs).Ok? ==> WellFormed(LeafJsonBool(d, name, op, rhs).value)
  {
  }

  lemma ScalarIsWellFormed(op: CompareOp, rhs: ValueExpr)
    ensures forall field :: LeafScalar(field, op, rhs).Ok? ==> WellFormed(LeafScalar(field, op, rhs).value)
  {
    hide ScalarArgument;
  }

  lemma TagListIsWellFormed(d: Dialect, field: string, values: seq<ValueExpr>)
    requires values != [] && TagItems(values).Ok?
    ensures WellFormed(TagInList(d, field, TagItems(values).value))
  {
    var texts := TagItems(values).value;
    forall i | 0 <= i < |texts| ensures WellFormed(TagItemLeaf(d, field, texts[i])) {
    }
  }

  lemma {:induction false} TranslationIsWellFormed(schema: Schema, d: Dialect, cond: Condition)
    requires NonEmptyLists(cond) && Translate(schema, d, cond).Ok?
    ensures WellFormedLogic(Translate(schema, d, cond).value)
  {
    hide LeafOf, WellFormed;
    match cond
    case Logical(_, l, r) =>
      TranslationIsWellFormed(schema, d, l);
      TranslationIsWellFormed(schema, d, r);
    case Negation(e) => TranslationIsWellFormed(schema, d, e);
    case Constant(_) =>
    case _ => LeavesAreWellFormed(schema, d, cond);
  }

  lemma {:induction false} NumberingIsWellFormed(s: Sql<Value>, d: Dialect, k: nat)
    requires WellFormed(s)
    ensures WellFormed(Numbering(s, d, k))
    decreases s, 1
  {
    match s
    case Atom(_, _) =>
    case Not(e) => NumberingIsWellFormed(e, d, k);
    case Conj(es) => NumberingAllIsWellFormed(es, d, k);
    case Disj(es) => NumberingAllIsWellFormed(es, d, k);
  }

  lemma {:induction false} NumberingAllIsWellFormed(es: seq<Sql<Value>>, d: Dialect, k: nat)
    requires forall e :: e in es ==> WellFormed(e)
    ensures forall e :: e in NumberingAll(es, d, k) ==> WellFormed(e)
    decreases es, 0
  {
    if es == [] {
    } else {
      NumberingIsWellFormed(es[0], d, k);
      NumberingAllIsWellFormed(es[1..], d, k + |Params(es[0])|);
    }
  }

  lemma {:induction false} FoldIsWellFormed(l: Logic<Value>, d: Dialect, k: nat)
    requires WellFormedLogic(l)
    ensures var f := Fold(NumberingLogic(l, d, k)); f.Live? ==> WellFormed(f.sql)
  {
    match l
    case Leaf(s) => NumberingIsWellFormed(s, d, k);
    case Const(_) =>
    case Negate(e) => FoldIsWellFormed(e, d, k);
    case Both(a, b) =>
      FoldIsWellFormed(a, d, k);
      FoldIsWellFormed(b, d, k + |AllParams(a)|);
    case Either(a, b) =>
      FoldIsWellFormed(a, d, k);
      FoldIsWellFormed(b, d, k + |AllParams(a)|);
  }

  /** Filters without empty lists add conditions whose text can be read back. */
  lemma {:induction false} PartsAreWellFormed(schema: Schema, d: Dialect, filters: seq<Condition>, n: nat)
    requires (forall c :: c in filters ==> NonEmptyLists(c)) && AddedBy(schema, d, filters, n).Ok?
    ensures forall p :: p in AddedBy(schema, d, filters, n).value.parts ==> WellFormed(p)
  {
    hide Translate, Fold, NumberingLogic, AllParams, NonEmptyLists, WellFormedLogic;
    if filters == [] {
    } else {
      TranslationIsWellFormed(schema, d, filters[0]);
      var l := Translate(schema, d, filters[0]).value;
      FoldIsWellFormed(l, d, n);
      var f := Fold(NumberingLogic(l, d, n));
      PartsAreWellFormed(schema, d, filters[1..], if f.Trivial? then n else n + |AllParams(l)|);
    }
  }

  // ----- Meaning

  /** The Kleene reading of a list of filters: all of them. */
  function EvalFilters(m: AtomMeaning, schema: Schema, d: Dialect, filters: seq<Condition>): Kleene {
    if filters == [] then True
    else
      match Translate(schema, d, filters[0])
      case Err => Unknown
      case Ok(l) => KAnd(EvalLogic(m, l), EvalFilters(m, schema, d, filters[1..]))
  }

  /** A further filter can only narrow the selection. */
  lemma {:induction false} MoreFiltersNarrow(m: AtomMeaning, schema: Schema, d: Dialect, filters: seq<Condition>,
                                             more: seq<Condition>)
    requires EvalFilters(m, schema, d, filters + more) == True
    ensures EvalFilters(m, schema, d, filters) == True
  {
    hide Translate, EvalLogic;
    if filters == [] {
    } else {
      assert (filters + more)[1..] == filters[1..] + more;
      MoreFiltersNarrow(m, schema, d, filters[1..], more);
    }
  }

  /** The filters are added exactly if every one of them renders. */
  lemma {:induction false} AddedIffTranslated(schema: Schema, d: Dialect, filters: seq<Condition>, n: nat)
    ensures AddedBy(schema, d, filters, n).Ok? <==> forall c :: c in filters ==> Translate(schema, d, c).Ok?
  {
    hide Translate, Fold, NumberingLogic, AllParams;
    if filters == [] {
    } else {
      var l := Translate(schema, d, filters[0]);
      AddedIffTranslated(schema, d, filters[1..], n);
      assert filters[0] in filters;
      if l.Ok? { AddedIffTranslated(schema, d, filters[1..], n + |AllParams(l.value)|); }
      assert forall c :: c in filters <==> c == filters[0] || c in filters[1..];
    }
  }

  lemma EvalSqlOf(m: AtomMeaning, f: Folded<Value>)
    requires m(OneEqualsZero, []) == False && !f.Trivial?
    ensures Eval(m, SqlOf(f)) == EvalFolded(m, f)
  {
  }

  lemma BindSqlOf(f: Folded<Placeholder>, args: seq<Value>)
    requires !f.Trivial?
    ensures BindNumbered(SqlOf(f), args) == SqlOf(BindFolded(f, args))
  {
    if f.Unsatisfiable? {
      assert BindNumbered(Atom(OneEqualsZero, []), args).params == [];
    }
  }

  /**
   Numbered placeholders: however many filters are appended, whatever folds away and whichever trivial filters
   are skipped, the clause bound to the final argument list has the Kleene value of all the filters. Arguments
   that later conditions add behind do not matter.
   */
  lemma {:induction false} NumberedWhere(m: AtomMeaning, schema: Schema, filters: seq<Condition>, n: nat,
                                         args: seq<Value>)
    requires m(OneEqualsZero, []) == False
    requires AddedBy(schema, Postgres, filters, n).Ok? &&
             PlacedAt(AddedBy(schema, Postgres, filters, n).value.args, args, n)
    ensures EvalConj(m, BindNumberedAll(AddedBy(schema, Postgres, filters, n).value.parts, args)) ==
            EvalFilters(m, schema, Postgres, filters)
  {
    hide Translate, Fold, NumberingLogic, AllParams, EvalLogic, Eval, BindNumbered, PlacedAt, SqlOf, BindFolded,
         EvalFolded;
    if filters == [] {
    } else {
      var l := Translate(schema, Postgres, filters[0]).value;
      var f := Fold(NumberingLogic(l, Postgres, n));
      FoldOfNumbering(l, Postgres, n);
      FoldPreservesMeaning(m, l);
      if f.Trivial? {
        NumberedWhere(m, schema, filters[1..], n, args);
        TrivialIsTrue(m, l);
      } else {
        var more := AddedBy(schema, Postgres, filters[1..], n + |AllParams(l)|).value;
        PlacedParts(AllParams(l), more.args, args, n);
        NumberedWhere(m, schema, filters[1..], n + |AllParams(l)|, args);
        FoldedBindsBack(l, args, n);
        BindSqlOf(f, args);
        EvalSqlOf(m, Fold(l));
        assert ([SqlOf(f)] + more.parts)[1..] == more.parts;
        var bound := BindNumberedAll([SqlOf(f)] + more.parts, args);
        assert bound[1..] == BindNumberedAll(more.parts, args);
      }
    }
  }

  lemma TrivialIsTrue(m: AtomMeaning, l: Logic<Value>)
    requires Fold(l).Trivial?
    ensures EvalLogic(m, l) == True
  {
    FoldPreservesMeaning(m, l);
  }

  /** Every filter that reaches the clause is clean. */
  predicate CleanFilters(schema: Schema, d: Dialect, filters: seq<Condition>) {
    forall c :: c in filters ==>
      match Translate(schema, d, c) case Err => true case Ok(l) => Fold(l).Trivial? || Clean(l)
  }

  /**
   Positional placeholders: the clause has as many as there are added arguments if and only if every filter
   that reaches it is clean, and then, filled in text order, it has the Kleene value of all the filters.
   */
  lemma {:induction false} PositionalWhere(m: AtomMeaning, schema: Schema, d: Dialect, filters: seq<Condition>, n: nat)
    requires m(OneEqualsZero, []) == False && AddedBy(schema, d, filters, n).Ok?
    ensures var added := AddedBy(schema, d, filters, n).value;
            |ParamsOfAll(added.parts)| <= |added.args| &&
            (|ParamsOfAll(added.parts)| == |added.args| <==> CleanFilters(schema, d, filters)) &&
            (CleanFilters(schema, d, filters) ==>
               EvalConj(m, FillAll(added.parts, added.args)) == EvalFilters(m, schema, d, filters))
  {
    hide Translate, Fold, NumberingLogic, AllParams, EvalLogic, Eval, Fill, SqlOf, EvalFolded, Clean, Params;
    if filters == [] {
    } else {
      var l := Translate(schema, d, filters[0]).value;
      var f := Fold(NumberingLogic(l, d, n));
      FoldOfNumbering(l, d, n);
      FoldPreservesMeaning(m, l);
      CleanFiltersStep(schema, d, filters);
      if f.Trivial? {
        PositionalWhere(m, schema, d, filters[1..], n);
        TrivialIsTrue(m, l);
      } else {
        PositionalWhere(m, schema, d, filters[1..], n + |AllParams(l)|);
        var more := AddedBy(schema, d, filters[1..], n + |AllParams(l)|).value;
        PositionalPart(m, l, d, n);
        assert ([SqlOf(f)] + more.parts)[1..] == more.parts;
        if CleanFilters(schema, d, filters) {
          var all := AllParams(l) + more.args;
          assert all[..|AllParams(l)|] == AllParams(l) && all[|AllParams(l)|..] == more.args;
          var filled := FillAll([SqlOf(f)] + more.parts, all);
          assert filled[1..] == FillAll(more.parts, more.args);
        }
      }
    }
  }

  lemma CleanFiltersStep(schema: Schema, d: Dialect, filters: seq<Condition>)
    requires filters != [] && Translate(schema, d, filters[0]).Ok?
    ensures var l := Translate(schema, d, filters[0]).value;
            CleanFilters(schema, d, filters) <==>
              (Fold(l).Trivial? || Clean(l)) && CleanFilters(schema, d, filters[1..])
  {
    hide Translate, Fold, Clean;
    assert forall c :: c in filters <==> c == filters[0] || c in filters[1..];
  }

  /** One part of a positional clause. */
  lemma PositionalPart(m: AtomMeaning, l: Logic<Value>, d: Dialect, n: nat)
    requires m(OneEqualsZero, []) == False && !Fold(NumberingLogic(l, d, n)).Trivial?
    ensures var s := SqlOf(Fold(NumberingLogic(l, d, n)));
            |Params(s)| <= |AllParams(l)| && (|Params(s)| == |AllParams(l)| <==> Clean(l)) &&
            (Clean(l) ==> Eval(m, Fill(s, AllParams(l))) == EvalLogic(m, l))
  {
    hide Fold, NumberingLogic, AllParams, EvalLogic, Eval;
    PositionalIffClean(l, d, n);
    KeptParams(l);
    FoldOfNumbering(l, d, n);
    FoldPreservesMeaning(m, l);
    EvalSqlOf(m, Fold(l));
  }

  /** `field == x || (false && field == y)`. */
  function SwallowingFilter(field: string, x: string, y: string): Condition {
    Logical(LogicalOr, Comparison(FieldRef(field), Eq, Literal(StrV(x))),
            Logical(LogicalAnd, Constant(false), Comparison(FieldRef(field), Eq, Literal(StrV(y)))))
  }

  /**
   Why cleanness matters: a constant that swallows a comparison leaves its argument behind. The filter adds one
   placeholder and two arguments, so every later positional placeholder takes the argument before its own.
   */
  lemma SwallowedArgumentStays(schema: Schema, d: Dialect, field: string, x: string, y: string, n: nat)
    requires field in schema && schema[field].kind == Scalar && schema[field].ty == StringType
    ensures !CleanFilters(schema, d, [SwallowingFilter(field, x, y)])
    ensures AddedBy(schema, d, [SwallowingFilter(field, x, y)], n) ==
            Ok(Added([Atom(ColumnCompare(field, Eq), [PlaceholderFor(d, n)])], [StrV(x), StrV(y)]))
    ensures forall m :: EvalFilters(m, schema, d, [SwallowingFilter(field, x, y)]) == True <==>
                        m(ColumnCompare(field, Eq), [StrV(x)]) == True
  {
    hide Translate, Clean;
    var f, l := SwallowingFilter(field, x, y), SwallowingLogic(field, x, y);
    SwallowingFilterTranslates(schema, d, field, x, y);
    SwallowingLogicFolds(d, field, x, y, n);
    var part := Atom(ColumnCompare(field, Eq), [PlaceholderFor(d, n)]);
    assert [f][1..] == [] && [part] + [] == [part] && [StrV(x), StrV(y)] + [] == [StrV(x), StrV(y)];
    assert f in [f];
    forall m: AtomMeaning ensures EvalFilters(m, schema, d, [f]) == KAnd(m(ColumnCompare(field, Eq), [StrV(x)]), True) {
      assert EvalFilters(m, schema, d, []) == True;
      assert EvalLogic(m, l.r.r) == m(ColumnCompare(field, Eq), [StrV(y)]) &&
             EvalLogic(m, l.r) == KAnd(False, EvalLogic(m, l.r.r));
      assert EvalLogic(m, l) ==
               KOr(m(ColumnCompare(field, Eq), [StrV(x)]), KAnd(False, m(ColumnCompare(field, Eq), [StrV(y)])));
    }
  }

  function SwallowingLogic(field: string, x: string, y: string): Logic<Value> {
    Either(Leaf(Atom(ColumnCompare(field, Eq), [StrV(x)])),
           Both(Const(false), Leaf(Atom(ColumnCompare(field, Eq), [StrV(y)]))))
  }

  lemma SwallowingFilterTranslates(schema: Schema, d: Dialect, field: string, x: string, y: string)
    requires field in schema && schema[field].kind == Scalar && schema[field].ty == StringType
    ensures Translate(schema, d, SwallowingFilter(field, x, y)) == Ok(SwallowingLogic(field, x, y))
  {
    var f := SwallowingFilter(field, x, y);
    assert Translate(schema, d, f.left) == Ok(Leaf(Atom(ColumnCompare(field, Eq), [StrV(x)])));
    assert Translate(schema, d, f.right.right) == Ok(Leaf(Atom(ColumnCompare(field, Eq), [StrV(y)])));
    assert Translate(schema, d, f.right.left) == Ok(Const(false));
    assert Translate(schema, d, f.right) == Ok(Both(Const(false), Leaf(Atom(ColumnCompare(field, Eq), [StrV(y)]))));
  }

  lemma SwallowingLogicFolds(d: Dialect, field: string, x: string, y: string, n: nat)
    ensures AllParams(SwallowingLogic(field, x, y)) == [StrV(x), StrV(y)] && !Clean(SwallowingLogic(field, x, y))
    ensures Fold(NumberingLogic(SwallowingLogic(field, x, y), d, n)) ==
              Live(Atom(ColumnCompare(field, Eq), [PlaceholderFor(d, n)]))
    ensures !Fold(SwallowingLogic(field, x, y)).Trivial?
  {
    var l := SwallowingLogic(field, x, y);
    assert AllParams(l.r.r) == [StrV(y)] && AllParams(l.r) == [] + [StrV(y)];
    assert AllParams(l) == [StrV(x)] + [StrV(y)];
    assert PlaceholdersFrom(d, n, 1) == [PlaceholderFor(d, n)];
    assert Fold(l.r).Unsatisfiable? && !Clean(l.r);
    FoldOfNumbering(l.r, d, n + 1);
  }
}
