/**
 SQL conditions as the filter compiler writes them: trees over atoms, their text as tokens, and their
 value in SQL's three-valued logic.
 */
module Sql {
  import opened Wrappers

  // ----- Three-valued logic

  datatype Kleene = True | False | Unknown

  function KNot(a: Kleene): Kleene {
    match a case True => False case False => True case Unknown => Unknown
  }

  function KAnd(a: Kleene, b: Kleene): Kleene {
    if a.False? || b.False? then False else if a.True? && b.True? then True else Unknown
  }

  function KOr(a: Kleene, b: Kleene): Kleene {
    if a.True? || b.True? then True else if a.False? && b.False? then False else Unknown
  }

  function Known(b: bool): Kleene { if b then True else False }

  // ----- Conditions

  datatype Dialect = SQLite | MySQL | Postgres

  datatype CompareOp = Eq | Neq | Lt | Lte | Gt | Gte

  /** Literals and arguments. */
  datatype Value = Null | IntV(i: int) | RealV(r: real) | StrV(s: string) | BoolV(b: bool)

  /** A place in the text where an argument goes: the next one, or a numbered one. */
  datatype Placeholder = Positional | Numbered(n: nat)

  /** How a dialect searches a column: LIKE between folded texts, ILIKE, or LIKE under the column's collation. */
  datatype SearchOperator = FoldedLike | ILike | CollatedLike

  /** The text of an atom up to its arguments. `field` names the column or JSON expression it is about. */
  datatype AtomKind =
    | OneEqualsOne
    | OneEqualsZero
    | ColumnIsTrue(field: string)
    | ColumnIsNull(field: string)
    | ColumnIsNotNull(field: string)
    | ColumnCompare(field: string, op: CompareOp)
    | ColumnIn(field: string)
    | ColumnLike(field: string, search: SearchOperator)
    | JsonIsTrue(field: string)
    | JsonEquals(field: string, op: CompareOp, literal: bool)
    | JsonCompare(field: string, op: CompareOp)
    | ListLike(field: string)
    | ListHas(field: string)
    | ListIsNotNull(field: string)
    | ListIsNotEmpty(field: string)
    | ListLength(field: string, op: CompareOp)
    | AttachmentExists

  /** Conditions over arguments of type `P`: placeholders in the text, values once they are bound. */
  datatype Sql<P> =
    | Atom(kind: AtomKind, params: seq<P>)
    | Not(e: Sql<P>)
    | Conj(es: seq<Sql<P>>)
    | Disj(es: seq<Sql<P>>)

  /** The text has something to join in every bracket. */
  ghost predicate WellFormed<P(!new)>(s: Sql<P>) {
    match s
    case Atom(_, _) => true
    case Not(e) => WellFormed(e)
    case Conj(es) => |es| >= 2 && forall e :: e in es ==> WellFormed(e)
    case Disj(es) => |es| >= 2 && forall e :: e in es ==> WellFormed(e)
  }

  // ----- Text

  datatype Token<P> = LParen | RParen | AndWord | OrWord | NotWord | Word(kind: AtomKind, params: seq<P>)

  /** The text of a condition: every conjunction and disjunction in parentheses, and what NOT applies to. */
  function Print<P>(s: Sql<P>): (text: seq<Token<P>>)
    ensures |text| > 0
    decreases s, 1
  {
    match s
    case Atom(kind, params) => [Word(kind, params)]
    case Not(e) => [NotWord, LParen] + Print(e) + [RParen]
    case Conj(es) => [LParen] + PrintJoined(es, AndWord) + [RParen]
    case Disj(es) => [LParen] + PrintJoined(es, OrWord) + [RParen]
  }

  function PrintJoined<P>(es: seq<Sql<P>>, sep: Token<P>): seq<Token<P>>
    decreases es, 0
  {
    if es == [] then []
    else if |es| == 1 then Print(es[0])
    else Print(es[0]) + [sep] + PrintJoined(es[1..], sep)
  }

  datatype Parsed<+T> = Failed | Parsed(value: T, rest: nat)

  // The grammar of SQL conditions: OR binds weakest, then AND, then NOT. `rest` counts the tokens left.

  function ParseOr<P>(ts: seq<Token<P>>): (r: Parsed<Sql<P>>)
    ensures r.Parsed? ==> r.rest < |ts|
    decreases |ts|, 5
  {
    match ParseOrList(ts)
    case Failed => Failed
    case Parsed(es, rest) => Parsed(if |es| == 1 then es[0] else Disj(es), rest)
  }

  function ParseOrList<P>(ts: seq<Token<P>>): (r: Parsed<seq<Sql<P>>>)
    ensures r.Parsed? ==> r.rest < |ts| && |r.value| >= 1
    decreases |ts|, 4
  {
    match ParseAnd(ts)
    case Failed => Failed
    case Parsed(e, rest) =>
      if rest > 0 && ts[|ts| - rest] == OrWord then
        (match ParseOrList(ts[|ts| - rest + 1..])
         case Failed => Failed
         case Parsed(es, rest') => Parsed([e] + es, rest'))
      else Parsed([e], rest)
  }

  function ParseAnd<P>(ts: seq<Token<P>>): (r: Parsed<Sql<P>>)
    ensures r.Parsed? ==> r.rest < |ts|
    decreases |ts|, 3
  {
    match ParseAndList(ts)
    case Failed => Failed
    case Parsed(es, rest) => Parsed(if |es| == 1 then es[0] else Conj(es), rest)
  }

  function ParseAndList<P>(ts: seq<Token<P>>): (r: Parsed<seq<Sql<P>>>)
    ensures r.Parsed? ==> r.rest < |ts| && |r.value| >= 1
    decreases |ts|, 2
  {
    match ParseUnary(ts)
    case Failed => Failed
    case Parsed(e, rest) =>
      if rest > 0 && ts[|ts| - rest] == AndWord then
        (match ParseAndList(ts[|ts| - rest + 1..])
         case Failed => Failed
         case Parsed(es, rest') => Parsed([e] + es, rest'))
      else Parsed([e], rest)
  }

  function ParseUnary<P>(ts: seq<Token<P>>): (r: Parsed<Sql<P>>)
    ensures r.Parsed? ==> r.rest < |ts|
    decreases |ts|, 1
  {
    if ts == [] then Failed
    else
      match ts[0]
      case Word(kind, params) => Parsed(Atom(kind, params), |ts| - 1)
      case NotWord =>
        (match ParseUnary(ts[1..])
         case Failed => Failed
         case Parsed(e, rest) => Parsed(Not(e), rest))
      case LParen =>
        (match ParseOr(ts[1..])
         case Failed => Failed
         case Parsed(e, rest) => if rest > 0 && ts[|ts| - rest] == RParen then Parsed(e, rest - 1) else Failed)
      case _ => Failed
  }

  /** The condition a whole text denotes. */
  function Parse<P>(ts: seq<Token<P>>): Option<Sql<P>> {
    match ParseOr(ts)
    case Failed => None
    case Parsed(e, rest) => if rest == 0 then Some(e) else None
  }

  /** A printed condition is one operand: whatever follows it, the grammar reads back that condition. */
  lemma {:induction false} ReadUnary<P(!new)>(s: Sql<P>, after: seq<Token<P>>)
    requires WellFormed(s)
    ensures ParseUnary(Print(s) + after) == Parsed(s, |after|)
    decreases s, 1
  {
    hide ParseUnary, ParseOr, ParseAnd, ParseAndList, ParseOrList, PrintJoined;
    match s
    case Atom(kind, params) =>
      UnaryOfWord(kind, params, after);
    case Not(e) =>
      var inner := Print(e) + ([RParen] + after);
      assert Print(s) + after == [NotWord] + ([LParen] + inner);
      ReadAlone(e, [RParen] + after);
      UnaryOfParens(inner, e, after);
      UnaryOfNot([LParen] + inner, e, after);
    case Conj(es) =>
      var inner := PrintJoined(es, AndWord) + ([RParen] + after);
      assert Print(s) + after == [LParen] + inner;
      ReadAndList(es, [RParen] + after);
      OrOfAndList(inner, es, [RParen] + after);
      UnaryOfParens(inner, s, after);
    case Disj(es) =>
      var inner := PrintJoined(es, OrWord) + ([RParen] + after);
      assert Print(s) + after == [LParen] + inner;
      ReadOrList(es, [RParen] + after);
      OrOfOrList(inner, es, [RParen] + after);
      UnaryOfParens(inner, s, after);
  }

  /** A printed condition before a closing parenthesis or the end of the text. */
  lemma {:induction false} ReadAlone<P(!new)>(s: Sql<P>, after: seq<Token<P>>)
    requires WellFormed(s) && (after == [] || after[0] == RParen)
    ensures ParseOr(Print(s) + after) == Parsed(s, |after|)
    decreases s, 2
  {
    hide ParseUnary, Print;
    ReadUnary(s, after);
    AndListOfUnary(Print(s) + after, s, after);
    OrListOfAnd(Print(s) + after, s, after);
  }

  lemma {:induction false} ReadAndList<P(!new)>(es: seq<Sql<P>>, after: seq<Token<P>>)
    requires |es| >= 1 && (forall e :: e in es ==> WellFormed(e)) && |after| > 0 && after[0] == RParen
    ensures ParseAndList(PrintJoined(es, AndWord) + after) == Parsed(es, |after|)
    decreases es, 0
  {
    hide ParseUnary, ParseAndList, Print, WellFormed;
    if |es| == 1 {
      ReadUnary(es[0], after);
      AndListOfUnary(Print(es[0]) + after, es[0], after);
      assert es == [es[0]];
    } else {
      var more := PrintJoined(es[1..], AndWord) + after;
      ReadUnary(es[0], [AndWord] + more);
      ReadAndList(es[1..], after);
      var ts := PrintJoined(es, AndWord) + after;
      assert ts == Print(es[0]) + ([AndWord] + more);
      AndListCons(ts, es[0], more, es[1..], after);
      assert [es[0]] + es[1..] == es;
    }
  }

  lemma {:induction false} ReadOrList<P(!new)>(es: seq<Sql<P>>, after: seq<Token<P>>)
    requires |es| >= 1 && (forall e :: e in es ==> WellFormed(e)) && |after| > 0 && after[0] == RParen
    ensures ParseOrList(PrintJoined(es, OrWord) + after) == Parsed(es, |after|)
    decreases es, 0
  {
    hide ParseUnary, ParseAnd, ParseOrList, Print, WellFormed;
    if |es| == 1 {
      ReadUnary(es[0], after);
      AndListOfUnary(Print(es[0]) + after, es[0], after);
      OrListOfAnd(Print(es[0]) + after, es[0], after);
      assert es == [es[0]];
    } else {
      var more := PrintJoined(es[1..], OrWord) + after;
      ReadUnary(es[0], [OrWord] + more);
      AndListOfUnary(Print(es[0]) + ([OrWord] + more), es[0], [OrWord] + more);
      ReadOrList(es[1..], after);
      var ts := PrintJoined(es, OrWord) + after;
      assert ts == Print(es[0]) + ([OrWord] + more);
      OrListCons(ts, es[0], more, es[1..], after);
      assert [es[0]] + es[1..] == es;
    }
  }

  // ----- Single steps of the grammar

  lemma UnaryOfWord<P>(kind: AtomKind, params: seq<P>, after: seq<Token<P>>)
    ensures ParseUnary([Word(kind, params)] + after) == Parsed(Atom(kind, params), |after|)
  {
  }

  lemma UnaryOfNot<P>(operand: seq<Token<P>>, e: Sql<P>, after: seq<Token<P>>)
    requires ParseUnary(operand) == Parsed(e, |after|)
    ensures ParseUnary([NotWord] + operand) == Parsed(Not(e), |after|)
  {
    assert ([NotWord] + operand)[1..] == operand;
  }

  lemma UnaryOfParens<P>(inner: seq<Token<P>>, e: Sql<P>, after: seq<Token<P>>)
    requires ParseOr(inner) == Parsed(e, |after| + 1) && |inner| > |after| && inner[|inner| - |after| - 1] == RParen
    ensures ParseUnary([LParen] + inner) == Parsed(e, |after|)
  {
    assert ([LParen] + inner)[1..] == inner;
  }

  lemma AndListOfUnary<P>(ts: seq<Token<P>>, e: Sql<P>, after: seq<Token<P>>)
    requires ParseUnary(ts) == Parsed(e, |after|) && |after| <= |ts| && ts[|ts| - |after|..] == after
    requires after == [] || after[0] != AndWord
    ensures ParseAndList(ts) == Parsed([e], |after|) && ParseAnd(ts) == Parsed(e, |after|)
  {
    assert after != [] ==> ts[|ts| - |after|] == after[0];
  }

  lemma AndListCons<P>(ts: seq<Token<P>>, e: Sql<P>, more: seq<Token<P>>, es: seq<Sql<P>>, after: seq<Token<P>>)
    requires ParseUnary(ts) == Parsed(e, |more| + 1) && |more| < |ts| && ts[|ts| - |more| - 1..] == [AndWord] + more
    requires ParseAndList(more) == Parsed(es, |after|)
    ensures ParseAndList(ts) == Parsed([e] + es, |after|)
  {
    assert ts[|ts| - |more| - 1] == AndWord && ts[|ts| - |more|..] == more;
  }

  lemma OrListCons<P>(ts: seq<Token<P>>, e: Sql<P>, more: seq<Token<P>>, es: seq<Sql<P>>, after: seq<Token<P>>)
    requires ParseAnd(ts) == Parsed(e, |more| + 1) && |more| < |ts| && ts[|ts| - |more| - 1..] == [OrWord] + more
    requires ParseOrList(more) == Parsed(es, |after|)
    ensures ParseOrList(ts) == Parsed([e] + es, |after|)
  {
    hide ParseAnd, ParseOr;
    assert ts[|ts| - |more| - 1] == OrWord && ts[|ts| - |more|..] == more;
  }

  lemma OrListOfAnd<P>(ts: seq<Token<P>>, e: Sql<P>, after: seq<Token<P>>)
    requires ParseAnd(ts) == Parsed(e, |after|) && |after| <= |ts| && ts[|ts| - |after|..] == after
    requires after == [] || after[0] != OrWord
    ensures ParseOrList(ts) == Parsed([e], |after|) && ParseOr(ts) == Parsed(e, |after|)
  {
    assert after != [] ==> ts[|ts| - |after|] == after[0];
  }

  lemma OrOfAndList<P>(ts: seq<Token<P>>, es: seq<Sql<P>>, after: seq<Token<P>>)
    requires |es| >= 2 && ParseAndList(ts) == Parsed(es, |after|) && |after| <= |ts| && ts[|ts| - |after|..] == after
    requires after == [] || after[0] != OrWord
    ensures ParseOr(ts) == Parsed(Conj(es), |after|)
  {
    OrListOfAnd(ts, Conj(es), after);
  }

  lemma OrOfOrList<P>(ts: seq<Token<P>>, es: seq<Sql<P>>, after: seq<Token<P>>)
    requires |es| >= 2 && ParseOrList(ts) == Parsed(es, |after|)
    ensures ParseOr(ts) == Parsed(Disj(es), |after|)
  {
  }

  /** Reading the text of a condition gives back that condition: the brackets fix the meaning. */
  lemma ParseOfPrint<P(!new)>(s: Sql<P>)
    requires WellFormed(s)
    ensures Parse(Print(s)) == Some(s)
  {
    hide Print, ParseOr;
    ReadAlone(s, []);
    assert Print(s) + [] == Print(s);
  }
}
