/**
 * The mapper calls `updateById` and `deleteById` over a table held as a
 * sequence of rows. `WHERE id = ?` matches no row for a null id; the
 * affected-row count is the number of rows the WHERE clause matched.
 */
module TableStore {
  import opened Nullable
  import opened RowOrder

  /** The row's id equals a non-null `id`. */
  predicate HasId(rowId: Option<int>, id: Option<int>) {
    id.Some? && rowId == id
  }

  /** The number of rows `WHERE id = ?` matches. */
  function MatchCount<T>(rows: seq<T>, idOf: T -> Option<int>, id: Option<int>): (n: nat)
    ensures n <= |rows|
    ensures n > 0 <==> exists i :: 0 <= i < |rows| && HasId(idOf(rows[i]), id)
  {
    if |rows| == 0 then 0
    else
      assert forall i :: 1 <= i < |rows| ==> rows[i] == rows[1..][i - 1];
      (if HasId(idOf(rows[0]), id) then 1 else 0) + MatchCount(rows[1..], idOf, id)
  }

  /** `UPDATE ... WHERE id = ?`: `apply` rewrites each matching row. */
  function UpdateWhereId<T>(rows: seq<T>, idOf: T -> Option<int>, id: Option<int>, apply: T -> T): (r: seq<T>)
    ensures |r| == |rows|
    ensures forall i :: 0 <= i < |rows| ==>
      r[i] == (if HasId(idOf(rows[i]), id) then apply(rows[i]) else rows[i])
  {
    if |rows| == 0 then []
    else
      [if HasId(idOf(rows[0]), id) then apply(rows[0]) else rows[0]]
      + UpdateWhereId(rows[1..], idOf, id, apply)
  }

  /** `DELETE ... WHERE id = ?`: the other rows, in order. */
  function DeleteWhereId<T(!new)>(rows: seq<T>, idOf: T -> Option<int>, id: Option<int>): (r: seq<T>)
    ensures |r| == |rows| - MatchCount(rows, idOf, id)
    ensures forall i :: 0 <= i < |r| ==> r[i] in rows && !HasId(idOf(r[i]), id)
    ensures forall i :: 0 <= i < |rows| && !HasId(idOf(rows[i]), id) ==> rows[i] in r
    ensures forall x :: multiset(r)[x] == if HasId(idOf(x), id) then 0 else multiset(rows)[x]
  {
    KeptCount(rows, idOf, id);
    Where(rows, Unmatched(idOf, id))
  }

  /** The rows `WHERE id = ?` does not match. */
  function Unmatched<T>(idOf: T -> Option<int>, id: Option<int>): T -> bool {
    x => !HasId(idOf(x), id)
  }

  /** The unmatched rows and the matched ones together make up the table. */
  lemma {:induction false} KeptCount<T(!new)>(rows: seq<T>, idOf: T -> Option<int>, id: Option<int>)
    ensures |Where(rows, Unmatched(idOf, id))| == |rows| - MatchCount(rows, idOf, id)
  {
    if |rows| > 0 {
      KeptCount(rows[1..], idOf, id);
    }
  }
}
