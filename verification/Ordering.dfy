/**
  ORDER BY over a set of rows: the one ascending sequence of the rows under a strict total order.
  The key scan, the outbox claim and the list queries all read their rows this way.
*/
module Ordering {
  ghost predicate StrictTotalOrder<T(!new)>(less: (T, T) -> bool) {
    && (forall a :: !less(a, a))
    && (forall a, b, c :: less(a, b) && less(b, c) ==> less(a, c))
    && (forall a, b :: a == b || less(a, b) || less(b, a))
  }

  ghost predicate Ascending<T>(s: seq<T>, less: (T, T) -> bool) {
    forall i, j :: 0 <= i < j < |s| ==> less(s[i], s[j])
  }

  predicate IsLeast<T>(m: T, rows: set<T>, less: (T, T) -> bool) {
    m in rows && forall r :: r in rows ==> r == m || less(m, r)
  }

  lemma {:induction false} LeastExists<T(!new)>(rows: set<T>, less: (T, T) -> bool) returns (m: T)
    requires StrictTotalOrder(less) && rows != {}
    ensures IsLeast(m, rows, less)
    decreases |rows|
  {
    var r :| r in rows;
    if rows == {r} {
      m := r;
    } else {
      assert r !in rows - {r} && |rows - {r}| < |rows|;
      var m' := LeastExists(rows - {r}, less);
      m := if less(r, m') then r else m';
      forall x | x in rows ensures x == m || less(m, x) {
        assert x == r || x in rows - {r};
      }
    }
  }

  function Least<T(!new,==)>(rows: set<T>, less: (T, T) -> bool): (m: T)
    requires StrictTotalOrder(less) && rows != {}
    ensures IsLeast(m, rows, less)
  {
    assert exists m :: IsLeast(m, rows, less) by { var m := LeastExists(rows, less); }
    var m :| m in rows && IsLeast(m, rows, less);
    m
  }

  function OrderBy<T(!new,==)>(rows: set<T>, less: (T, T) -> bool): seq<T>
    requires StrictTotalOrder(less)
    decreases |rows|
  {
    if rows == {} then []
    else
      var m := Least(rows, less);
      assert |rows - {m}| < |rows|;
      [m] + OrderBy(rows - {m}, less)
  }

  ghost function Elements<T>(s: seq<T>): set<T> { set x | x in s }

  lemma LeastFirst<T>(m: T, tail: seq<T>, rows: set<T>, less: (T, T) -> bool)
    requires IsLeast(m, rows, less) && Ascending(tail, less) && Elements(tail) == rows - {m}
    ensures Ascending([m] + tail, less) && Elements([m] + tail) == rows
  {
    var s := [m] + tail;
    forall i, j | 0 <= i < j < |s| ensures less(s[i], s[j]) {
      assert s[j] == tail[j - 1] && s[j] in Elements(tail);
      if i > 0 { assert s[i] == tail[i - 1]; }
    }
    assert Elements(s) == {m} + Elements(tail);
  }

  /** ORDER BY returns every row exactly once, in ascending order. */
  lemma {:induction false} OrderByIsSorted<T(!new)>(rows: set<T>, less: (T, T) -> bool)
    requires StrictTotalOrder(less)
    ensures Ascending(OrderBy(rows, less), less)
    ensures Elements(OrderBy(rows, less)) == rows
    ensures |OrderBy(rows, less)| == |rows|
    decreases |rows|
  {
    hide StrictTotalOrder, Ascending, Elements, IsLeast;
    if rows == {} {
      NothingIsSorted(less);
    } else {
      var m := Least(rows, less);
      LeastIsElement(m, rows, less);
      OrderByIsSorted(rows - {m}, less);
      LeastFirst(m, OrderBy(rows - {m}, less), rows, less);
    }
  }

  lemma NothingIsSorted<T>(less: (T, T) -> bool)
    ensures Ascending([], less) && Elements<T>([]) == {}
  {}

  lemma LeastIsElement<T>(m: T, rows: set<T>, less: (T, T) -> bool)
    requires IsLeast(m, rows, less)
    ensures m in rows && |rows - {m}| == |rows| - 1
  {}

  /** The ascending sequence of a set of rows is unique. */
  lemma {:induction false} OrderByIsUnique<T(!new)>(rows: set<T>, s: seq<T>, less: (T, T) -> bool)
    requires StrictTotalOrder(less)
    requires Ascending(s, less) && Elements(s) == rows
    ensures s == OrderBy(rows, less)
    decreases |s|
  {
    if s == [] {
    } else {
      assert s[0] in Elements(s);
      var m := Least(rows, less);
      assert m in Elements(s);
      var i :| 0 <= i < |s| && s[i] == m;
      assert i == 0;
      forall x ensures x in Elements(s[1..]) <==> x in rows - {m} {
        if x in Elements(s[1..]) { var j :| 0 <= j < |s[1..]| && s[1..][j] == x; assert s[j + 1] == x; assert x in Elements(s); assert less(s[0], s[j + 1]); }
        if x in rows - {m} { assert x in Elements(s); var j :| 0 <= j < |s| && s[j] == x; assert s[1..][j - 1] == x; }
      }
      forall j, k | 0 <= j < k < |s[1..]| ensures less(s[1..][j], s[1..][k]) {
        assert less(s[j + 1], s[k + 1]);
      }
      OrderByIsUnique(rows - {m}, s[1..], less);
      assert s == [s[0]] + s[1..];
    }
  }

  /** Rows that all come before the others form a prefix of the ordering. */
  lemma OrderByConcat<T(!new)>(front: set<T>, back: set<T>, less: (T, T) -> bool)
    requires StrictTotalOrder(less)
    requires forall a, b :: a in front && b in back ==> less(a, b)
    ensures OrderBy(front + back, less) == OrderBy(front, less) + OrderBy(back, less)
  {
    OrderByIsSorted(front, less);
    OrderByIsSorted(back, less);
    var s, t := OrderBy(front, less), OrderBy(back, less);
    forall i, j | 0 <= i < j < |s + t| ensures less((s + t)[i], (s + t)[j]) {
      if i < |s| <= j {
        assert s[i] in Elements(s) && t[j - |s|] in Elements(t);
      } else if i >= |s| {
        assert less(t[i - |s|], t[j - |s|]);
      }
    }
    assert Elements(s + t) == Elements(s) + Elements(t);
    OrderByIsUnique(front + back, s + t, less);
  }

  lemma At<T>(s: seq<T>, x: T) returns (i: nat)
    requires x in Elements(s)
    ensures i < |s| && s[i] == x
  {
    i :| 0 <= i < |s| && s[i] == x;
  }

  lemma InOrder<T>(s: seq<T>, less: (T, T) -> bool, i: nat, j: nat)
    requires Ascending(s, less) && i < j < |s|
    ensures less(s[i], s[j])
  {}

  lemma ConcatOrders<T(!new)>(front: set<T>, back: set<T>, less: (T, T) -> bool, a: T, b: T)
    requires StrictTotalOrder(less) && a in front && b in back
    requires OrderBy(front + back, less) == OrderBy(front, less) + OrderBy(back, less)
    ensures less(a, b)
  {
    hide StrictTotalOrder, OrderBy, Ascending, Elements;
    OrderByIsSorted(front, less);
    OrderByIsSorted(back, less);
    OrderByIsSorted(front + back, less);
    var s, t := OrderBy(front, less), OrderBy(back, less);
    var i := At(s, a);
    var j := At(t, b);
    InOrder(s + t, less, i, |s| + j);
  }

  /** One set of rows is read entirely before another exactly when each of its rows comes before each of the other's. */
  lemma OrderByConcatIff<T(!new)>(front: set<T>, back: set<T>, less: (T, T) -> bool)
    requires StrictTotalOrder(less) && front !! back
    ensures OrderBy(front + back, less) == OrderBy(front, less) + OrderBy(back, less)
      <==> forall a, b :: a in front && b in back ==> less(a, b)
  {
    hide StrictTotalOrder, OrderBy;
    if OrderBy(front + back, less) == OrderBy(front, less) + OrderBy(back, less) {
      forall a, b | a in front && b in back ensures less(a, b) { ConcatOrders(front, back, less, a, b); }
    }
    if forall a, b :: a in front && b in back ==> less(a, b) {
      OrderByConcat(front, back, less);
    }
  }

  lemma AscendingIsDistinct<T(!new)>(s: seq<T>, less: (T, T) -> bool)
    requires StrictTotalOrder(less) && Ascending(s, less)
    ensures forall i, j :: 0 <= i < j < |s| ==> s[i] != s[j]
  {
    forall i, j | 0 <= i < j < |s| ensures s[i] != s[j] {
      assert less(s[i], s[j]);
    }
  }

  lemma DistinctParts<T>(s: seq<T>, n: nat)
    requires n <= |s| && forall i, j :: 0 <= i < j < |s| ==> s[i] != s[j]
    ensures Elements(s[..n]) == Elements(s) - Elements(s[n..])
    ensures Elements(s[n..]) == Elements(s) - Elements(s[..n])
  {
    assert s == s[..n] + s[n..];
    assert Elements(s) == Elements(s[..n]) + Elements(s[n..]);
    forall x | x in s[..n] ensures x !in s[n..] {
      var i :| 0 <= i < n && s[i] == x;
      assert forall j :: n <= j < |s| ==> s[j] != x;
    }
    assert Elements(s[..n]) !! Elements(s[n..]);
  }

  lemma PartsAscend<T>(s: seq<T>, n: nat, less: (T, T) -> bool)
    requires n <= |s| && Ascending(s, less)
    ensures Ascending(s[..n], less) && Ascending(s[n..], less)
  {
    forall i, j | 0 <= i < j < |s[n..]| ensures less(s[n..][i], s[n..][j]) {
      assert less(s[n + i], s[n + j]);
    }
  }

  /** Deleting the first n rows leaves the rest of the ordering; deleting the rest leaves the first n. */
  lemma OrderByDropTake<T(!new)>(rows: set<T>, less: (T, T) -> bool, n: nat)
    requires StrictTotalOrder(less) && n <= |OrderBy(rows, less)|
    ensures var s := OrderBy(rows, less);
      && OrderBy(rows - Elements(s[..n]), less) == s[n..]
      && OrderBy(rows - Elements(s[n..]), less) == s[..n]
  {
    hide StrictTotalOrder, OrderBy;
    OrderByIsSorted(rows, less);
    var s := OrderBy(rows, less);
    AscendingIsDistinct(s, less);
    DistinctParts(s, n);
    PartsAscend(s, n, less);
    OrderByIsUnique(rows - Elements(s[..n]), s[n..], less);
    OrderByIsUnique(rows - Elements(s[n..]), s[..n], less);
  }
}
