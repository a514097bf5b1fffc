/** Sorting by a caller-supplied "less" relation, standing for Go's
    `sort.Strings`, `sort.Ints` and `sort.Slice`. The result is always a
    permutation of the input; it is ordered whenever the relation is a
    strict total order. */
module Sorting {

  /** No element is strictly less than one placed before it. */
  predicate SortedBy<T>(s: seq<T>, less: (T, T) -> bool) {
    forall i, j :: 0 <= i < j < |s| ==> !less(s[j], s[i])
  }

  ghost predicate Irreflexive<T(!new)>(less: (T, T) -> bool) {
    forall a :: !less(a, a)
  }

  ghost predicate Transitive<T(!new)>(less: (T, T) -> bool) {
    forall a, b, c :: less(a, b) && less(b, c) ==> less(a, c)
  }

  ghost predicate Connected<T(!new)>(less: (T, T) -> bool) {
    forall a, b :: a != b ==> less(a, b) || less(b, a)
  }

  ghost predicate StrictTotalOrder<T(!new)>(less: (T, T) -> bool) {
    Irreflexive(less) && Transitive(less) && Connected(less)
  }

  /** Inserts `x` in front of the first element that is not less than it. */
  function Insert<T>(x: T, s: seq<T>, less: (T, T) -> bool): (r: seq<T>)
    ensures |r| == |s| + 1
    ensures multiset(r) == multiset(s) + multiset{x}
  {
    if |s| == 0 || !less(s[0], x) then [x] + s
    else
      var t := Insert(x, s[1..], less);
      assert s == [s[0]] + s[1..];
      [s[0]] + t
  }

  function SortBy<T>(s: seq<T>, less: (T, T) -> bool): (r: seq<T>)
    ensures |r| == |s|
    ensures multiset(r) == multiset(s)
  {
    if |s| == 0 then []
    else
      assert s == [s[0]] + s[1..];
      Insert(s[0], SortBy(s[1..], less), less)
  }

  lemma {:induction false} InsertSorted<T(!new)>(x: T, s: seq<T>, less: (T, T) -> bool)
    requires StrictTotalOrder(less)
    requires SortedBy(s, less)
    ensures SortedBy(Insert(x, s, less), less)
  {
    if |s| == 0 {
    } else if !less(s[0], x) {
      var r := [x] + s;
      forall i, j | 0 <= i < j < |r|
        ensures !less(r[j], r[i])
      {
        if i == 0 {
          // every later element is s[0] or above it, and x is not above s[0]
          var y := s[j - 1];
          assert r[j] == y;
          assert y == s[0] || less(s[0], y) by {
            if j - 1 > 0 {
              assert !less(s[j - 1], s[0]);
            }
          }
        } else {
          assert r[i] == s[i - 1] && r[j] == s[j - 1];
        }
      }
    } else {
      InsertSorted(x, s[1..], less);
      var t := Insert(x, s[1..], less);
      var r := [s[0]] + t;
      assert multiset(t) == multiset(s[1..]) + multiset{x};
      forall j | 0 <= j < |t|
        ensures !less(t[j], s[0])
      {
        assert t[j] in multiset(t);
        if t[j] == x {
        } else {
          assert t[j] in multiset(s[1..]);
          var k :| 0 <= k < |s[1..]| && s[1..][k] == t[j];
          assert s[k + 1] == t[j];
        }
      }
      forall i, j | 0 <= i < j < |r|
        ensures !less(r[j], r[i])
      {
        if i == 0 {
          assert r[j] == t[j - 1];
        } else {
          assert r[i] == t[i - 1] && r[j] == t[j - 1];
        }
      }
    }
  }

  lemma {:induction false} SortBySorted<T(!new)>(s: seq<T>, less: (T, T) -> bool)
    requires StrictTotalOrder(less)
    ensures SortedBy(SortBy(s, less), less)
  {
    if |s| > 0 {
      SortBySorted(s[1..], less);
      InsertSorted(s[0], SortBy(s[1..], less), less);
    }
  }
}
