/** The values of a sequence as a set, and sets listed in any order. */
module Lists {
  function RangeOf<T(==)>(values: seq<T>): set<T> {
    set i | 0 <= i < |values| :: values[i]
  }

  lemma RangeOfSum<T>(a: seq<T>, b: seq<T>)
    ensures RangeOf(a + b) == RangeOf(a) + RangeOf(b)
  {
    forall i | 0 <= i < |a| ensures a[i] in RangeOf(a + b) { assert (a + b)[i] == a[i]; }
    forall i | 0 <= i < |b| ensures b[i] in RangeOf(a + b) { assert (a + b)[|a| + i] == b[i]; }
  }

  lemma EmptyRange<T>()
    ensures RangeOf<T>([]) == {}
  {
  }

  lemma OneInRange<T>(id: T)
    ensures RangeOf([id]) == {id}
  {
    assert [id][0] == id;
  }

  lemma RangeStep<T>(rows: seq<T>, i: nat)
    requires i < |rows|
    ensures RangeOf(rows[..i + 1]) == RangeOf(rows[..i]) + {rows[i]} && rows[i] in RangeOf(rows)
  {
    assert rows[..i + 1] == rows[..i] + [rows[i]];
    RangeOfSum(rows[..i], [rows[i]]);
    OneInRange(rows[i]);
  }

  /** The result of a query, whose rows come in any order. */
  method InAnyOrder<T(==)>(rows: set<T>) returns (list: seq<T>)
    ensures RangeOf(list) == rows
    ensures forall i, j :: 0 <= i < j < |list| ==> list[i] != list[j]
  {
    list := [];
    var rest := rows;
    while rest != {}
      invariant rest <= rows && RangeOf(list) == rows - rest
      invariant forall i, j :: 0 <= i < j < |list| ==> list[i] != list[j]
      decreases rest
    {
      var row :| row in rest;
      RangeOfSum(list, [row]);
      OneInRange(row);
      list := list + [row];
      rest := rest - {row};
    }
  }
}
