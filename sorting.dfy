/**
 * The meaning of `ORDER BY`: a query returns the rows of a finite set in the
 * one order that a strict total order on the rows allows. Ties of the SQL key
 * are broken by the row's identifier, so every listing is deterministic.
 */
module Sorting {

  /** `before` is a strict total order on the elements of `s`. */
  ghost predicate StrictTotalOn<T>(s: set<T>, before: (T, T) -> bool)
  {
    && (forall x | x in s :: !before(x, x))
    && (forall x, y, z | x in s && y in s && z in s && before(x, y) && before(y, z) :: before(x, z))
    && (forall x, y | x in s && y in s && x != y :: before(x, y) || before(y, x))
  }

  /** `m` is the first element of `s` in the order `before`. */
  predicate IsLeast<T(==)>(m: T, s: set<T>, before: (T, T) -> bool)
  {
    m in s && forall y | y in s && y != m :: before(m, y)
  }

  /** Every element of `q` comes strictly before every later one. */
  predicate Sorted<T>(q: seq<T>, before: (T, T) -> bool)
  {
    forall i, j | 0 <= i < j < |q| :: before(q[i], q[j])
  }

  lemma {:induction false} LeastExists<T>(s: set<T>, before: (T, T) -> bool)
    requires s != {} && StrictTotalOn(s, before)
    ensures exists m :: IsLeast(m, s, before)
    decreases |s|
  {
    var x :| x in s;
    if s == {x} {
      assert IsLeast(x, s, before);
    } else {
      var rest := s - {x};
      assert StrictTotalOn(rest, before);
      LeastExists(rest, before);
      var m :| IsLeast(m, rest, before);
      if before(x, m) {
        assert IsLeast(x, s, before);
      } else {
        assert IsLeast(m, s, before);
      }
    }
  }

  lemma LeastUnique<T>(s: set<T>, before: (T, T) -> bool, m1: T, m2: T)
    requires StrictTotalOn(s, before)
    requires IsLeast(m1, s, before) && IsLeast(m2, s, before)
    ensures m1 == m2
  {
    assert m1 != m2 ==> before(m1, m2) && before(m2, m1);
  }

  /** The elements of `s`, listed in the order `before`. */
  function SortBy<T(==)>(s: set<T>, before: (T, T) -> bool): (r: seq<T>)
    requires StrictTotalOn(s, before)
    ensures |r| == |s|
    ensures forall x | x in r :: x in s
    ensures forall x | x in s :: x in r
    ensures Sorted(r, before)
    decreases |s|
  {
    if s == {} then []
    else
      LeastExists(s, before);
      assert forall m1, m2 | m1 in s && m2 in s && IsLeast(m1, s, before) && IsLeast(m2, s, before) :: m1 == m2 by {
        forall m1, m2 | m1 in s && m2 in s && IsLeast(m1, s, before) && IsLeast(m2, s, before) ensures m1 == m2 {
          LeastUnique(s, before, m1, m2);
        }
      }
      var m :| IsLeast(m, s, before);
      assert StrictTotalOn(s - {m}, before);
      [m] + SortBy(s - {m}, before)
  }

  lemma SortedHeadIsLeast<T>(q: seq<T>, s: set<T>, before: (T, T) -> bool)
    requires forall x :: x in q <==> x in s
    requires Sorted(q, before) && q != []
    ensures IsLeast(q[0], s, before)
  {
    forall y | y in s && y != q[0] ensures before(q[0], y) {
      var j :| 0 <= j < |q| && q[j] == y;
    }
  }

  lemma SortedTail<T>(q: seq<T>, s: set<T>, before: (T, T) -> bool)
    requires StrictTotalOn(s, before)
    requires forall x :: x in q <==> x in s
    requires Sorted(q, before) && q != []
    ensures forall x :: x in q[1..] <==> x in s - {q[0]}
    ensures Sorted(q[1..], before)
  {
    forall x | x in q[1..] ensures x != q[0] {
      var j :| 1 <= j < |q| && q[j] == x;
      assert before(q[0], q[j]);
    }
    forall x | x in s - {q[0]} ensures x in q[1..] {
      var j :| 0 <= j < |q| && q[j] == x;
      assert j != 0;
    }
  }

  /** A sorted listing of `s` without repetitions is the one `SortBy` gives. */
  lemma {:induction false} SortedUnique<T>(q: seq<T>, s: set<T>, before: (T, T) -> bool)
    requires StrictTotalOn(s, before)
    requires forall x :: x in q <==> x in s
    requires Sorted(q, before)
    ensures q == SortBy(s, before)
    decreases |s|
  {
    var r := SortBy(s, before);
    if q == [] {
      assert s == {};
    } else {
      assert q[0] in q;
      SortedHeadIsLeast(q, s, before);
      SortedHeadIsLeast(r, s, before);
      LeastUnique(s, before, q[0], r[0]);
      var m := q[0];
      assert StrictTotalOn(s - {m}, before);
      assert r[1..] == SortBy(s - {m}, before);
      SortedTail(q, s, before);
      SortedUnique(q[1..], s - {m}, before);
      assert q == [m] + q[1..];
      assert r == [m] + r[1..];
    }
  }

  /** The elements of `q` that satisfy `p`, in their original order. */
  function Filter<T>(q: seq<T>, p: T -> bool): (r: seq<T>)
    ensures forall x | x in r :: x in q && p(x)
    ensures forall x | x in q && p(x) :: x in r
  {
    if q == [] then []
    else if p(q[0]) then [q[0]] + Filter(q[1..], p)
    else Filter(q[1..], p)
  }

  /** The elements of `s` that satisfy `p`: a `WHERE` clause. */
  function Where<T>(s: set<T>, p: T -> bool): set<T>
  {
    set x | x in s && p(x)
  }

  lemma {:induction false} FilterKeepsOrder<T>(q: seq<T>, p: T -> bool, before: (T, T) -> bool)
    requires Sorted(q, before)
    ensures Sorted(Filter(q, p), before)
  {
    if q != [] {
      FilterKeepsOrder(q[1..], p, before);
      var rest := Filter(q[1..], p);
      forall y | y in rest ensures before(q[0], y) {
        var j :| 0 <= j < |q[1..]| && q[1..][j] == y;
        assert q[j + 1] == y;
      }
    }
  }

  /** Restricting the listed set is the same as filtering the listing. */
  lemma FilterOfSortBy<T>(s: set<T>, p: T -> bool, before: (T, T) -> bool)
    requires StrictTotalOn(s, before)
    ensures StrictTotalOn(Where(s, p), before)
    ensures SortBy(Where(s, p), before) == Filter(SortBy(s, before), p)
  {
    var sub := Where(s, p);
    var q := Filter(SortBy(s, before), p);
    FilterKeepsOrder(SortBy(s, before), p, before);
    SortedUnique(q, sub, before);
  }
}
