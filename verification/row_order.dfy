/**
 * `ORDER BY key ASC|DESC` and `LIMIT n` over a sequence of rows. The
 * database leaves the relative order of rows with equal keys unspecified;
 * the model sorts stably, and every contract below holds for any tie order.
 */
module RowOrder {
  import opened SqlValues

  /** `a` may come before `b` in the requested direction. */
  predicate Before<T>(key: T -> SqlValue, asc: bool, a: T, b: T) {
    if asc then ValueLe(key(a), key(b)) else ValueLe(key(b), key(a))
  }

  predicate SortedBy<T>(rows: seq<T>, key: T -> SqlValue, asc: bool) {
    forall i, j :: 0 <= i < j < |rows| ==> Before(key, asc, rows[i], rows[j])
  }

  lemma BeforeTotal<T>(key: T -> SqlValue, asc: bool, a: T, b: T)
    ensures Before(key, asc, a, b) || Before(key, asc, b, a)
  {
    ValueLeTotal(key(a), key(b));
  }

  lemma BeforeTransitive<T>(key: T -> SqlValue, asc: bool, a: T, b: T, c: T)
    requires Before(key, asc, a, b) && Before(key, asc, b, c)
    ensures Before(key, asc, a, c)
  {
    if asc {
      ValueLeTransitive(key(a), key(b), key(c));
    } else {
      ValueLeTransitive(key(c), key(b), key(a));
    }
  }

  /** Places `x` in front of the first row it may precede. */
  function Insert<T>(x: T, rows: seq<T>, key: T -> SqlValue, asc: bool): (r: seq<T>)
    ensures multiset(r) == multiset(rows) + multiset{x}
    ensures |r| == |rows| + 1
  {
    if |rows| == 0 then [x]
    else if Before(key, asc, x, rows[0]) then [x] + rows
    else
      assert rows == [rows[0]] + rows[1..];
      [rows[0]] + Insert(x, rows[1..], key, asc)
  }

  lemma {:induction false} InsertSorted<T>(x: T, rows: seq<T>, key: T -> SqlValue, asc: bool)
    requires SortedBy(rows, key, asc)
    ensures SortedBy(Insert(x, rows, key, asc), key, asc)
  {
    if |rows| == 0 {
    } else if Before(key, asc, x, rows[0]) {
      forall j | 0 <= j < |rows| ensures Before(key, asc, x, rows[j]) {
        if j > 0 {
          BeforeTransitive(key, asc, x, rows[0], rows[j]);
        }
      }
      PrependSorted(x, rows, key, asc);
    } else {
      BeforeTotal(key, asc, x, rows[0]);
      var t := Insert(x, rows[1..], key, asc);
      InsertSorted(x, rows[1..], key, asc);
      forall j | 0 <= j < |t| ensures Before(key, asc, rows[0], t[j]) {
        assert t[j] in multiset(t);
        if t[j] != x {
          HeadBeforeTail(rows, t[j], key, asc);
        }
      }
      PrependSorted(rows[0], t, key, asc);
    }
  }

  /** A row that ranks before every row of a sorted sequence may lead it. */
  lemma PrependSorted<T>(y: T, t: seq<T>, key: T -> SqlValue, asc: bool)
    requires SortedBy(t, key, asc)
    requires forall j :: 0 <= j < |t| ==> Before(key, asc, y, t[j])
    ensures SortedBy([y] + t, key, asc)
  {
    var r := [y] + t;
    forall i, j | 0 <= i < j < |r| ensures Before(key, asc, r[i], r[j]) {
      assert r[j] == t[j - 1];
      if i > 0 {
        assert r[i] == t[i - 1];
      }
    }
  }

  /** The head of a sorted sequence ranks before every row of its tail. */
  lemma HeadBeforeTail<T>(rows: seq<T>, y: T, key: T -> SqlValue, asc: bool)
    requires |rows| > 0 && SortedBy(rows, key, asc)
    requires y in multiset(rows[1..])
    ensures Before(key, asc, rows[0], y)
  {
    var k :| 0 <= k < |rows[1..]| && rows[1..][k] == y;
    assert rows[k + 1] == y;
  }

  /** `ORDER BY key`: a sorted permutation of `rows`. */
  function Sort<T>(rows: seq<T>, key: T -> SqlValue, asc: bool): (r: seq<T>)
    ensures multiset(r) == multiset(rows)
    ensures |r| == |rows|
  {
    if |rows| == 0 then []
    else
      var rest := Sort(rows[1..], key, asc);
      assert rows == [rows[0]] + rows[1..];
      Insert(rows[0], rest, key, asc)
  }

  lemma {:induction false} SortSorted<T>(rows: seq<T>, key: T -> SqlValue, asc: bool)
    ensures SortedBy(Sort(rows, key, asc), key, asc)
  {
    if |rows| > 0 {
      SortSorted(rows[1..], key, asc);
      InsertSorted(rows[0], Sort(rows[1..], key, asc), key, asc);
    }
  }

  function Min(a: int, b: int): int {
    if a <= b then a else b
  }

  /** The acceptable answers to `ORDER BY key LIMIT limit` over
      `candidates`, whatever order the database gives to equal keys: as many
      rows as the limit allows, drawn from the candidates, in order, and
      none of the rows left out ranks above a row kept. */
  ghost predicate IsOrderedTopK<T>(r: seq<T>, candidates: seq<T>, key: T -> SqlValue, asc: bool, limit: nat) {
    && |r| == Min(limit, |candidates|)
    && multiset(r) <= multiset(candidates)
    && SortedBy(r, key, asc)
    && forall x, i :: x in multiset(candidates) - multiset(r) && 0 <= i < |r| ==> Before(key, asc, r[i], x)
  }

  /** `ORDER BY key LIMIT limit`. */
  function TopK<T>(candidates: seq<T>, key: T -> SqlValue, asc: bool, limit: nat): (r: seq<T>)
    ensures IsOrderedTopK(r, candidates, key, asc, limit)
  {
    var sorted := Sort(candidates, key, asc);
    var k := Min(limit, |candidates|);
    SortSorted(candidates, key, asc);
    TopKOfSorted(sorted, key, asc, k);
    sorted[..k]
  }

  lemma TopKOfSorted<T>(sorted: seq<T>, key: T -> SqlValue, asc: bool, k: nat)
    requires k <= |sorted| && SortedBy(sorted, key, asc)
    ensures multiset(sorted[..k]) <= multiset(sorted)
    ensures SortedBy(sorted[..k], key, asc)
    ensures forall x, i :: x in multiset(sorted) - multiset(sorted[..k]) && 0 <= i < k ==>
      Before(key, asc, sorted[i], x)
  {
    assert sorted == sorted[..k] + sorted[k..];
    assert multiset(sorted) == multiset(sorted[..k]) + multiset(sorted[k..]);
    forall x, i | x in multiset(sorted) - multiset(sorted[..k]) && 0 <= i < k
      ensures Before(key, asc, sorted[i], x)
    {
      assert x in sorted[k..];
      var j :| 0 <= j < |sorted[k..]| && sorted[k..][j] == x;
      assert sorted[k + j] == x;
    }
  }

  /** Keeping the rows that satisfy `p`, in their original order. */
  function Where<T(!new)>(rows: seq<T>, p: T -> bool): (r: seq<T>)
    ensures |r| <= |rows|
    ensures forall i :: 0 <= i < |r| ==> r[i] in rows && p(r[i])
    ensures forall i :: 0 <= i < |rows| && p(rows[i]) ==> rows[i] in r
    ensures forall x :: multiset(r)[x] == if p(x) then multiset(rows)[x] else 0
  {
    if |rows| == 0 then []
    else
      var rest := Where(rows[1..], p);
      assert rows == [rows[0]] + rows[1..];
      if p(rows[0]) then [rows[0]] + rest else rest
  }

  /** A condition no row meets selects nothing. */
  lemma {:induction false} WhereNone<T(!new)>(rows: seq<T>, p: T -> bool)
    requires forall i :: 0 <= i < |rows| ==> !p(rows[i])
    ensures Where(rows, p) == []
  {
    if |rows| > 0 {
      WhereNone(rows[1..], p);
    }
  }

  /** Filtering distributes over concatenation. */
  lemma {:induction false} WhereAppend<T(!new)>(a: seq<T>, b: seq<T>, p: T -> bool)
    ensures Where(a + b, p) == Where(a, p) + Where(b, p)
  {
    if |a| == 0 {
      assert a + b == b;
    } else {
      assert (a + b)[1..] == a[1..] + b;
      WhereAppend(a[1..], b, p);
    }
  }
}
