/**
 The two repository operations every service is built on: `find(where)` and `update(where, set)`.
 A table is the sequence of its rows; `update` reports how many rows matched.
*/
module Rows {
  /** `repository.find({ where })`: the matching rows, in table order. */
  function Find<R(!new)>(rows: seq<R>, where: R -> bool): (found: seq<R>)
    ensures |found| <= |rows|
    ensures forall row :: row in found <==> row in rows && where(row)
  {
    if rows == [] then [] else
      var last := rows[|rows| - 1];
      Find(rows[..|rows| - 1], where) + if where(last) then [last] else []
  }

  /** The table after `repository.update(where, change)`. */
  function Updated<R(!new)>(rows: seq<R>, where: R -> bool, change: R -> R): (updated: seq<R>)
    ensures |updated| == |rows|
    ensures forall i :: 0 <= i < |rows| ==> updated[i] == if where(rows[i]) then change(rows[i]) else rows[i]
  {
    if rows == [] then [] else
      var last := rows[|rows| - 1];
      Updated(rows[..|rows| - 1], where, change) + [if where(last) then change(last) else last]
  }

  function Column<R, C>(rows: seq<R>, column: R -> C): (values: seq<C>)
    ensures |values| == |rows|
    ensures forall i :: 0 <= i < |rows| ==> values[i] == column(rows[i])
  {
    seq(|rows|, i requires 0 <= i < |rows| => column(rows[i]))
  }

  /** `repository.update(where, change)` row by row, with TypeORM's `affected` count. */
  method Update<R(!new)>(rows: seq<R>, where: R -> bool, change: R -> R) returns (updated: seq<R>, affected: nat)
    ensures updated == Updated(rows, where, change)
    ensures affected == |Find(rows, where)|
  {
    updated, affected := [], 0;
    for i := 0 to |rows|
      invariant updated == Updated(rows[..i], where, change)
      invariant affected == |Find(rows[..i], where)|
    {
      assert rows[..i + 1][..i] == rows[..i];
      if where(rows[i]) {
        updated, affected := updated + [change(rows[i])], affected + 1;
      } else {
        updated := updated + [rows[i]];
      }
    }
    assert rows[..|rows|] == rows;
  }

  /** A relation between every two rows of a table also holds between every two rows that a query returns. */
  lemma {:induction false} FindKeepsPairs<R(!new)>(rows: seq<R>, where: R -> bool, related: (R, R) -> bool)
    requires forall i, j :: 0 <= i < j < |rows| ==> related(rows[i], rows[j])
    ensures forall i, j :: 0 <= i < j < |Find(rows, where)| ==> related(Find(rows, where)[i], Find(rows, where)[j])
  {
    if rows == [] {
    } else {
      var front, last := rows[..|rows| - 1], rows[|rows| - 1];
      FindKeepsPairs(front, where, related);
      var before, found := Find(front, where), Find(rows, where);
      forall i, j | 0 <= i < j < |found| ensures related(found[i], found[j]) {
        if j == |before| {
          var k :| 0 <= k < |front| && front[k] == before[i] by { assert before[i] in front; }
          assert related(rows[k], last);
        }
      }
    }
  }

  /** A query that every row satisfies returns the table; one that no row satisfies returns nothing. */
  lemma {:induction false} FindAllOrNothing<R(!new)>(rows: seq<R>, where: R -> bool)
    ensures (forall row :: row in rows ==> where(row)) ==> Find(rows, where) == rows
    ensures (forall row :: row in rows ==> !where(row)) ==> Find(rows, where) == []
  {
    if rows == [] {
    } else {
      FindAllOrNothing(rows[..|rows| - 1], where);
      assert rows == rows[..|rows| - 1] + [rows[|rows| - 1]];
    }
  }

  lemma {:induction false} FindConcat<R(!new)>(first: seq<R>, second: seq<R>, where: R -> bool)
    ensures Find(first + second, where) == Find(first, where) + Find(second, where)
  {
    if second == [] {
      assert first + second == first;
    } else {
      var front, last := second[..|second| - 1], second[|second| - 1];
      var tail := if where(last) then [last] else [];
      calc {
        Find(first + second, where);
        { assert (first + second)[..|first + second| - 1] == first + front; }
        Find(first + front, where) + tail;
        { FindConcat(first, front, where); }
        (Find(first, where) + Find(front, where)) + tail;
        Find(first, where) + (Find(front, where) + tail);
        Find(first, where) + Find(second, where);
      }
    }
  }

  /** Querying twice keeps the rows that meet both conditions; a condition that implies the other wins. */
  lemma {:induction false} FindWithin<R(!new)>(rows: seq<R>, outer: R -> bool, inner: R -> bool)
    requires forall row :: row in rows && inner(row) ==> outer(row)
    ensures Find(Find(rows, outer), inner) == Find(rows, inner)
  {
    if rows == [] {
    } else {
      var front, last := rows[..|rows| - 1], rows[|rows| - 1];
      FindWithin(front, outer, inner);
      var tail := if outer(last) then [last] else [];
      FindConcat(Find(front, outer), tail, inner);
      assert inner(last) ==> outer(last);
      assert Find(tail, inner) == if inner(last) then [last] else [];
    }
  }

  /** Two counts of one table agree exactly when the narrower condition misses no row of the wider one. */
  lemma {:induction false} CountsAgree<R(!new)>(rows: seq<R>, wide: R -> bool, narrow: R -> bool)
    requires forall row :: row in rows && narrow(row) ==> wide(row)
    ensures |Find(rows, narrow)| <= |Find(rows, wide)|
    ensures |Find(rows, wide)| == |Find(rows, narrow)| <==> forall row :: row in rows && wide(row) ==> narrow(row)
  {
    if rows == [] {
    } else {
      var front, last := rows[..|rows| - 1], rows[|rows| - 1];
      CountsAgree(front, wide, narrow);
      assert forall row :: row in rows <==> row in front || row == last;
    }
  }

  /** A condition that no two rows share is met by one row at most. */
  lemma {:induction false} AtMostOneFound<R(!new)>(rows: seq<R>, where: R -> bool)
    requires forall i, j :: 0 <= i < j < |rows| ==> !(where(rows[i]) && where(rows[j]))
    ensures |Find(rows, where)| <= 1
  {
    if rows == [] {
    } else {
      var front, last := rows[..|rows| - 1], rows[|rows| - 1];
      AtMostOneFound(front, where);
      if where(last) {
        FindAllOrNothing(front, where);
      }
    }
  }

  /** Two rows that meet a condition are both found. */
  lemma {:induction false} TwoFound<R(!new)>(rows: seq<R>, where: R -> bool, i: nat, j: nat)
    requires i < j < |rows| && where(rows[i]) && where(rows[j])
    ensures |Find(rows, where)| >= 2
  {
    var front := rows[..|rows| - 1];
    if j < |front| {
      TwoFound(front, where, i, j);
    } else {
      assert front[i] in front && front[i] in Find(front, where);
    }
  }

  /** Conditions that agree on every row find the same rows. */
  lemma {:induction false} SameFound<R(!new)>(rows: seq<R>, where: R -> bool, where': R -> bool)
    requires forall row :: row in rows ==> (where(row) <==> where'(row))
    ensures Find(rows, where) == Find(rows, where')
  {
    if rows == [] {
    } else {
      SameFound(rows[..|rows| - 1], where, where');
    }
  }

  /** The first row found is the first row of the table that meets the condition. */
  lemma {:induction false} FirstFound<R(!new)>(rows: seq<R>, where: R -> bool, k: nat)
    requires k < |rows| && where(rows[k]) && forall i :: 0 <= i < k ==> !where(rows[i])
    ensures Find(rows, where) != [] && Find(rows, where)[0] == rows[k]
  {
    var front := rows[..|rows| - 1];
    if k == |front| {
      FindAllOrNothing(front, where);
    } else {
      FirstFound(front, where, k);
    }
  }
}
