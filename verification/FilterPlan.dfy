/**
 From condition trees to SQL: translation, folding of constants, numbering of placeholders, and the proofs
 that folding keeps the three-valued meaning and numbering keeps every argument with its atom
 (internal/filter/render.go, internal/filter/helpers.go).
 */
module FilterPlan {
  import opened FilterIr
  import opened FilterLeaves
  import opened Sql
  import opened Wrappers

  /** A condition with its leaves translated and nothing folded yet. */
  datatype Logic<P> =
    | Leaf(sql: Sql<P>)
    | Const(value: bool)
    | Negate(e: Logic<P>)
    | Both(l: Logic<P>, r: Logic<P>)
    | Either(l: Logic<P>, r: Logic<P>)

  function Translate(schema: Schema, d: Dialect, cond: Condition): Result<Logic<Value>> {
    match cond
    case Logical(operator, left, right) =>
      (match (Translate(schema, d, left), Translate(schema, d, right))
       case (Ok(l), Ok(r)) => Ok(if operator.LogicalAnd? then Both(l, r) else Either(l, r))
       case _ => Err)
    case Negation(expr) =>
      (match Translate(schema, d, expr)
       case Err => Err
       case Ok(e) => Ok(Negate(e)))
    case Constant(value) => Ok(Const(value))
    case _ =>
      (match LeafOf(schema, d, cond)
       case Err => Err
       case Ok(sql) => Ok(Leaf(sql)))
  }

  // ----- Folding

  /** A rendered condition: always true, never true, or SQL. */
  datatype Folded<P> = Trivial | Unsatisfiable | Live(sql: Sql<P>)

  function CombineAnd<P>(l: Folded<P>, r: Folded<P>): Folded<P> {
    if l.Unsatisfiable? || r.Unsatisfiable? then Unsatisfiable
    else if l.Trivial? then r
    else if r.Trivial? then l
    else Live(Conj([l.sql, r.sql]))
  }

  function CombineOr<P>(l: Folded<P>, r: Folded<P>): Folded<P> {
    if l.Trivial? || r.Trivial? then Trivial
    else if l.Unsatisfiable? then r
    else if r.Unsatisfiable? then l
    else Live(Disj([l.sql, r.sql]))
  }

  function CombineNot<P>(e: Folded<P>): Folded<P> {
    match e case Trivial => Unsatisfiable case Unsatisfiable => Trivial case Live(sql) => Live(Not(sql))
  }

  function Fold<P>(l: Logic<P>): Folded<P> {
    match l
    case Leaf(sql) => Live(sql)
    case Const(value) => if value then Trivial else Unsatisfiable
    case Negate(e) => CombineNot(Fold(e))
    case Both(a, b) => CombineAnd(Fold(a), Fold(b))
    case Either(a, b) => CombineOr(Fold(a), Fold(b))
  }

  // ----- Meaning, for any meaning of the atoms

  type AtomMeaning = (AtomKind, seq<Value>) -> Kleene

  function Eval(m: AtomMeaning, s: Sql<Value>): Kleene
    decreases s, 1
  {
    match s
    case Atom(kind, params) => m(kind, params)
    case Not(e) => KNot(Eval(m, e))
    case Conj(es) => EvalConj(m, es)
    case Disj(es) => EvalDisj(m, es)
  }

  function EvalConj(m: AtomMeaning, es: seq<Sql<Value>>): Kleene
    decreases es, 0
  {
    if es == [] then True else KAnd(Eval(m, es[0]), EvalConj(m, es[1..]))
  }

  function EvalDisj(m: AtomMeaning, es: seq<Sql<Value>>): Kleene
    decreases es, 0
  {
    if es == [] then False else KOr(Eval(m, es[0]), EvalDisj(m, es[1..]))
  }

  /** The unfolded Kleene reading of a condition. */
  function EvalLogic(m: AtomMeaning, l: Logic<Value>): Kleene {
    match l
    case Leaf(sql) => Eval(m, sql)
    case Const(value) => Known(value)
    case Negate(e) => KNot(EvalLogic(m, e))
    case Both(a, b) => KAnd(EvalLogic(m, a), EvalLogic(m, b))
    case Either(a, b) => KOr(EvalLogic(m, a), EvalLogic(m, b))
  }

  function EvalFolded(m: AtomMeaning, f: Folded<Value>): Kleene {
    match f case Trivial => True case Unsatisfiable => False case Live(sql) => Eval(m, sql)
  }

  lemma EvalPair(m: AtomMeaning, a: Sql<Value>, b: Sql<Value>)
    ensures Eval(m, Conj([a, b])) == KAnd(Eval(m, a), Eval(m, b))
    ensures Eval(m, Disj([a, b])) == KOr(Eval(m, a), Eval(m, b))
  {
    assert [a, b][1..] == [b] && [b][1..] == [];
    assert EvalConj(m, [b]) == KAnd(Eval(m, b), EvalConj(m, [])) == Eval(m, b);
    assert EvalDisj(m, [b]) == KOr(Eval(m, b), EvalDisj(m, [])) == Eval(m, b);
    assert EvalConj(m, [a, b]) == KAnd(Eval(m, a), EvalConj(m, [b]));
    assert EvalDisj(m, [a, b]) == KOr(Eval(m, a), EvalDisj(m, [b]));
  }

  /** Folding keeps the three-valued meaning, whatever the atoms mean. */
  lemma {:induction false} FoldPreservesMeaning(m: AtomMeaning, l: Logic<Value>)
    ensures EvalFolded(m, Fold(l)) == EvalLogic(m, l)
  {
    match l
    case Leaf(_) =>
    case Const(_) =>
    case Negate(e) => FoldPreservesMeaning(m, e);
    case Both(a, b) =>
      FoldPreservesMeaning(m, a);
      FoldPreservesMeaning(m, b);
      if Fold(a).Live? && Fold(b).Live? { EvalPair(m, Fold(a).sql, Fold(b).sql); }
    case Either(a, b) =>
      FoldPreservesMeaning(m, a);
      FoldPreservesMeaning(m, b);
      if Fold(a).Live? && Fold(b).Live? { EvalPair(m, Fold(a).sql, Fold(b).sql); }
  }

  // ----- Arguments in text order

  function Params<P>(s: Sql<P>): seq<P>
    decreases s, 1
  {
    match s
    case Atom(_, params) => params
    case Not(e) => Params(e)
    case Conj(es) => ParamsOfAll(es)
    case Disj(es) => ParamsOfAll(es)
  }

  function ParamsOfAll<P>(es: seq<Sql<P>>): seq<P>
    decreases es, 0
  {
    if es == [] then [] else Params(es[0]) + ParamsOfAll(es[1..])
  }

  /** All arguments collected while rendering, those of folded parts included. */
  function AllParams<P>(l: Logic<P>): seq<P> {
    match l
    case Leaf(sql) => Params(sql)
    case Const(_) => []
    case Negate(e) => AllParams(e)
    case Both(a, b) => AllParams(a) + AllParams(b)
    case Either(a, b) => AllParams(a) + AllParams(b)
  }

  function FoldedParams<P>(f: Folded<P>): seq<P> {
    if f.Live? then Params(f.sql) else []
  }

  /** The placeholder written for argument number `k`, counting from 0. */
  function PlaceholderFor(d: Dialect, k: nat): Placeholder {
    if d.Postgres? then Numbered(k + 1) else Positional
  }

  function PlaceholdersFrom(d: Dialect, k: nat, count: nat): seq<Placeholder> {
    seq(count, i requires 0 <= i < count => PlaceholderFor(d, k + i))
  }

  /** Replaces arguments by placeholders, counting on from `k` in text order. */
  function Numbering(s: Sql<Value>, d: Dialect, k: nat): Sql<Placeholder>
    decreases s, 1
  {
    match s
    case Atom(kind, params) => Atom(kind, PlaceholdersFrom(d, k, |params|))
    case Not(e) => Not(Numbering(e, d, k))
    case Conj(es) => Conj(NumberingAll(es, d, k))
    case Disj(es) => Disj(NumberingAll(es, d, k))
  }

  function NumberingAll(es: seq<Sql<Value>>, d: Dialect, k: nat): (r: seq<Sql<Placeholder>>)
    ensures |r| == |es|
    decreases es, 0
  {
    if es == [] then [] else [Numbering(es[0], d, k)] + NumberingAll(es[1..], d, k + |Params(es[0])|)
  }

  function NumberingLogic(l: Logic<Value>, d: Dialect, k: nat): Logic<Placeholder> {
    match l
    case Leaf(sql) => Leaf(Numbering(sql, d, k))
    case Const(value) => Const(value)
    case Negate(e) => Negate(NumberingLogic(e, d, k))
    case Both(a, b) => Both(NumberingLogic(a, d, k), NumberingLogic(b, d, k + |AllParams(a)|))
    case Either(a, b) => Either(NumberingLogic(a, d, k), NumberingLogic(b, d, k + |AllParams(a)|))
  }

  // ----- Numbered binding

  /** The argument a numbered placeholder denotes. */
  function Lookup(p: Placeholder, args: seq<Value>): Value {
    if p.Numbered? && 1 <= p.n <= |args| then args[p.n - 1] else Null
  }

  /** Postgres counts its placeholders from 1; the others take the arguments as they come. */
  lemma NumbersStartAtOne(args: seq<Value>, k: nat)
    requires k < |args|
    ensures PlaceholderFor(Postgres, k) == Numbered(k + 1) && Lookup(Numbered(k + 1), args) == args[k]
    ensures PlaceholderFor(SQLite, k) == PlaceholderFor(MySQL, k) == Positional
  {
  }

  function BindNumbered(s: Sql<Placeholder>, args: seq<Value>): Sql<Value>
    decreases s, 1
  {
    match s
    case Atom(kind, params) => Atom(kind, seq(|params|, i requires 0 <= i < |params| => Lookup(params[i], args)))
    case Not(e) => Not(BindNumbered(e, args))
    case Conj(es) => Conj(BindNumberedAll(es, args))
    case Disj(es) => Disj(BindNumberedAll(es, args))
  }

  function BindNumberedAll(es: seq<Sql<Placeholder>>, args: seq<Value>): seq<Sql<Value>>
    decreases es, 0
  {
    if es == [] then [] else [BindNumbered(es[0], args)] + BindNumberedAll(es[1..], args)
  }

  function BindFolded(f: Folded<Placeholder>, args: seq<Value>): Folded<Value> {
    match f case Trivial => Trivial case Unsatisfiable => Unsatisfiable case Live(sql) => Live(BindNumbered(sql, args))
  }

  /** `part` stands in `args` at position `k`. */
  predicate PlacedAt(part: seq<Value>, args: seq<Value>, k: nat) {
    k + |part| <= |args| && args[k..k + |part|] == part
  }

  lemma PlacedParts(a: seq<Value>, b: seq<Value>, args: seq<Value>, k: nat)
    requires PlacedAt(a + b, args, k)
    ensures PlacedAt(a, args, k) && PlacedAt(b, args, k + |a|)
  {
    assert args[k..k + |a|] == (a + b)[..|a|] == a;
    assert args[k + |a|..k + |a| + |b|] == (a + b)[|a|..] == b;
  }

  /** Every `$n` in numbered SQL denotes the literal it was written for. */
  lemma {:induction false} NumberedBindsBack(s: Sql<Value>, args: seq<Value>, k: nat)
    requires PlacedAt(Params(s), args, k)
    ensures BindNumbered(Numbering(s, Postgres, k), args) == s
    decreases s, 1
  {
    match s
    case Atom(kind, params) =>
      var ps := PlaceholdersFrom(Postgres, k, |params|);
      forall i | 0 <= i < |params| ensures Lookup(ps[i], args) == params[i] {
        assert args[k..k + |params|][i] == params[i];
      }
      assert BindNumbered(Numbering(s, Postgres, k), args).params == params;
    case Not(e) => NumberedBindsBack(e, args, k);
    case Conj(es) => NumberedBindsBackAll(es, args, k);
    case Disj(es) => NumberedBindsBackAll(es, args, k);
  }

  lemma {:induction false} NumberedBindsBackAll(es: seq<Sql<Value>>, args: seq<Value>, k: nat)
    requires PlacedAt(ParamsOfAll(es), args, k)
    ensures BindNumberedAll(NumberingAll(es, Postgres, k), args) == es
    decreases es, 0
  {
    if es == [] {
    } else {
      PlacedParts(Params(es[0]), ParamsOfAll(es[1..]), args, k);
      NumberedBindsBack(es[0], args, k);
      NumberedBindsBackAll(es[1..], args, k + |Params(es[0])|);
      assert [es[0]] + es[1..] == es;
      var r := NumberingAll(es, Postgres, k);
      assert r[1..] == NumberingAll(es[1..], Postgres, k + |Params(es[0])|);
    }
  }

  /**
   Folding does not disturb numbered placeholders: whatever is dropped, each that remains denotes the literal
   of its own atom, because dropped arguments stay in the list.
   */
  lemma {:induction false} FoldedBindsBack(l: Logic<Value>, args: seq<Value>, k: nat)
    requires PlacedAt(AllParams(l), args, k)
    ensures BindFolded(Fold(NumberingLogic(l, Postgres, k)), args) == Fold(l)
  {
    hide PlacedAt, Numbering;
    match l
    case Leaf(sql) => NumberedBindsBack(sql, args, k);
    case Const(_) =>
    case Negate(e) => FoldedBindsBack(e, args, k);
    case Both(a, b) =>
      PlacedParts(AllParams(a), AllParams(b), args, k);
      FoldedBindsBack(a, args, k);
      FoldedBindsBack(b, args, k + |AllParams(a)|);
      BindPair(Fold(NumberingLogic(a, Postgres, k)), Fold(NumberingLogic(b, Postgres, k + |AllParams(a)|)), args);
    case Either(a, b) =>
      PlacedParts(AllParams(a), AllParams(b), args, k);
      FoldedBindsBack(a, args, k);
      FoldedBindsBack(b, args, k + |AllParams(a)|);
      BindPair(Fold(NumberingLogic(a, Postgres, k)), Fold(NumberingLogic(b, Postgres, k + |AllParams(a)|)), args);
  }

  lemma BindPair(a: Folded<Placeholder>, b: Folded<Placeholder>, args: seq<Value>)
    ensures BindFolded(CombineAnd(a, b), args) == CombineAnd(BindFolded(a, args), BindFolded(b, args))
    ensures BindFolded(CombineOr(a, b), args) == CombineOr(BindFolded(a, args), BindFolded(b, args))
  {
    if a.Live? && b.Live? {
      assert [a.sql, b.sql][1..] == [b.sql] && [b.sql][1..] == [];
      assert BindNumberedAll([b.sql], args) == [BindNumbered(b.sql, args)];
      assert BindNumberedAll([a.sql, b.sql], args) == [BindNumbered(a.sql, args), BindNumbered(b.sql, args)];
    }
  }

  // ----- Positional binding

  /** Fills positional placeholders from the arguments, in text order. */
  function Fill(s: Sql<Placeholder>, args: seq<Value>): Sql<Value>
    requires |args| == |Params(s)|
    decreases s, 1
  {
    match s
    case Atom(kind, params) => Atom(kind, args)
    case Not(e) => Not(Fill(e, args))
    case Conj(es) => Conj(FillAll(es, args))
    case Disj(es) => Disj(FillAll(es, args))
  }

  function FillAll(es: seq<Sql<Placeholder>>, args: seq<Value>): seq<Sql<Value>>
    requires |args| == |ParamsOfAll(es)|
    decreases es, 0
  {
    if es == [] then []
    else
      var n := |Params(es[0])|;
      [Fill(es[0], args[..n])] + FillAll(es[1..], args[n..])
  }

  function FillFolded(f: Folded<Placeholder>, args: seq<Value>): Folded<Value>
    requires |args| == |FoldedParams(f)|
  {
    match f case Trivial => Trivial case Unsatisfiable => Unsatisfiable case Live(sql) => Live(Fill(sql, args))
  }

  /** Numbering writes one placeholder per argument, and filling in text order puts every argument back. */
  lemma {:induction false} FillsBack(s: Sql<Value>, d: Dialect, k: nat)
    ensures |Params(Numbering(s, d, k))| == |Params(s)|
    ensures Fill(Numbering(s, d, k), Params(s)) == s
    decreases s, 1
  {
    match s
    case Atom(_, _) =>
    case Not(e) => FillsBack(e, d, k);
    case Conj(es) => FillsBackAll(es, d, k);
    case Disj(es) => FillsBackAll(es, d, k);
  }

  lemma {:induction false} FillsBackAll(es: seq<Sql<Value>>, d: Dialect, k: nat)
    ensures |ParamsOfAll(NumberingAll(es, d, k))| == |ParamsOfAll(es)|
    ensures FillAll(NumberingAll(es, d, k), ParamsOfAll(es)) == es
    decreases es, 0
  {
    if es == [] {
    } else {
      var n := |Params(es[0])|;
      FillsBack(es[0], d, k);
      FillsBackAll(es[1..], d, k + n);
      var r := NumberingAll(es, d, k);
      assert r[1..] == NumberingAll(es[1..], d, k + n);
      assert ParamsOfAll(es)[..n] == Params(es[0]) && ParamsOfAll(es)[n..] == ParamsOfAll(es[1..]);
      assert [es[0]] + es[1..] == es;
    }
  }

  /** No part that folds to a constant collected an argument. */
  predicate Clean<P(==)>(l: Logic<P>) {
    && (Fold(l).Live? || AllParams(l) == [])
    && match l
       case Leaf(_) => true
       case Const(_) => true
       case Negate(e) => Clean(e)
       case Both(a, b) => Clean(a) && Clean(b)
       case Either(a, b) => Clean(a) && Clean(b)
  }

  predicate ConstantFree<P>(l: Logic<P>) {
    match l
    case Leaf(_) => true
    case Const(_) => false
    case Negate(e) => ConstantFree(e)
    case Both(a, b) => ConstantFree(a) && ConstantFree(b)
    case Either(a, b) => ConstantFree(a) && ConstantFree(b)
  }

  lemma {:induction false} ConstantFreeIsClean<P>(l: Logic<P>)
    requires ConstantFree(l)
    ensures Fold(l).Live? && Clean(l)
  {
    match l
    case Leaf(_) =>
    case Negate(e) => ConstantFreeIsClean(e);
    case Both(a, b) => ConstantFreeIsClean(a); ConstantFreeIsClean(b);
    case Either(a, b) => ConstantFreeIsClean(a); ConstantFreeIsClean(b);
  }

  lemma ParamsOfPair<P>(a: Sql<P>, b: Sql<P>)
    ensures Params(Conj([a, b])) == Params(a) + Params(b) && Params(Disj([a, b])) == Params(a) + Params(b)
  {
    assert [a, b][1..] == [b] && [b][1..] == [];
    assert ParamsOfAll([b]) == Params(b);
  }

  /** Folding can only lose arguments, and it loses none exactly when the tree is clean. */
  lemma {:induction false} KeptParams<P>(l: Logic<P>)
    ensures |FoldedParams(Fold(l))| <= |AllParams(l)|
    ensures |FoldedParams(Fold(l))| == |AllParams(l)| <==> Clean(l)
    ensures Clean(l) ==> FoldedParams(Fold(l)) == AllParams(l)
  {
    match l
    case Leaf(_) =>
    case Const(_) =>
    case Negate(e) => KeptParams(e);
    case Both(a, b) =>
      KeptParams(a);
      KeptParams(b);
      if Fold(a).Live? && Fold(b).Live? { ParamsOfPair(Fold(a).sql, Fold(b).sql); }
    case Either(a, b) =>
      KeptParams(a);
      KeptParams(b);
      if Fold(a).Live? && Fold(b).Live? { ParamsOfPair(Fold(a).sql, Fold(b).sql); }
  }

  /** Numbering does not change what folds away. */
  lemma {:induction false} FoldOfNumbering(l: Logic<Value>, d: Dialect, k: nat)
    ensures |AllParams(NumberingLogic(l, d, k))| == |AllParams(l)|
    ensures |FoldedParams(Fold(NumberingLogic(l, d, k)))| == |FoldedParams(Fold(l))|
    ensures Fold(NumberingLogic(l, d, k)).Trivial? == Fold(l).Trivial?
    ensures Fold(NumberingLogic(l, d, k)).Unsatisfiable? == Fold(l).Unsatisfiable?
    ensures FillFolded(Fold(NumberingLogic(l, d, k)), FoldedParams(Fold(l))) == Fold(l)
  {
    match l
    case Leaf(sql) => FillsBack(sql, d, k);
    case Const(_) =>
    case Negate(e) => FoldOfNumbering(e, d, k);
    case Both(a, b) =>
      FoldOfNumbering(a, d, k);
      FoldOfNumbering(b, d, k + |AllParams(a)|);
      FillPair(Fold(NumberingLogic(a, d, k)), Fold(NumberingLogic(b, d, k + |AllParams(a)|)), Fold(a), Fold(b));
    case Either(a, b) =>
      FoldOfNumbering(a, d, k);
      FoldOfNumbering(b, d, k + |AllParams(a)|);
      FillPair(Fold(NumberingLogic(a, d, k)), Fold(NumberingLogic(b, d, k + |AllParams(a)|)), Fold(a), Fold(b));
  }

  lemma FillPair(a: Folded<Placeholder>, b: Folded<Placeholder>, va: Folded<Value>, vb: Folded<Value>)
    requires |FoldedParams(a)| == |FoldedParams(va)| && |FoldedParams(b)| == |FoldedParams(vb)|
    requires FillFolded(a, FoldedParams(va)) == va && FillFolded(b, FoldedParams(vb)) == vb
    ensures |FoldedParams(CombineAnd(a, b))| == |FoldedParams(CombineAnd(va, vb))|
    ensures |FoldedParams(CombineOr(a, b))| == |FoldedParams(CombineOr(va, vb))|
    ensures FillFolded(CombineAnd(a, b), FoldedParams(CombineAnd(va, vb))) == CombineAnd(va, vb)
    ensures FillFolded(CombineOr(a, b), FoldedParams(CombineOr(va, vb))) == CombineOr(va, vb)
  {
    if a.Live? && b.Live? {
      ParamsOfPair(a.sql, b.sql);
      ParamsOfPair(va.sql, vb.sql);
      var p, q := Params(va.sql), Params(vb.sql);
      assert (p + q)[..|p|] == p && (p + q)[|p|..] == q;
      assert [a.sql, b.sql][1..] == [b.sql] && [b.sql][1..] == [];
      assert q[..|q|] == q && q[|q|..] == [];
      assert FillAll([b.sql], q) == [vb.sql];
      assert FillAll([a.sql, b.sql], p + q) == [va.sql, vb.sql];
    }
  }

  /**
   With positional placeholders, the text has as many of them as there are arguments if and only if no
   constant-folded part holds an argument; then the k-th placeholder gets the literal it was written for.
   */
  lemma PositionalIffClean(l: Logic<Value>, d: Dialect, k: nat)
    ensures var f := Fold(NumberingLogic(l, d, k));
            (|FoldedParams(f)| == |AllParams(l)| <==> Clean(l)) &&
            (Clean(l) ==> FillFolded(f, AllParams(l)) == Fold(l))
  {
    KeptParams(l);
    FoldOfNumbering(l, d, k);
  }
}
