/** Whole-sequence operations the scripts get from list comprehensions,
    boolean-mask selection and `sort`: order-preserving filtering and a
    stable insertion sort, with the facts the other modules rely on. */
module Seqs {

  /** `[x for x in s if p(x)]`. */
  function Filter<T(!new)>(s: seq<T>, p: T -> bool): (r: seq<T>)
    ensures |r| <= |s|
    ensures forall x :: x in r <==> x in s && p(x)
  {
    if s == [] then []
    else (if p(s[0]) then [s[0]] else []) + Filter(s[1..], p)
  }

  /** Filtering distributes over concatenation, so it keeps the relative
      order of the elements it keeps. */
  lemma {:induction false} FilterAppend<T(!new)>(a: seq<T>, b: seq<T>, p: T -> bool)
    ensures Filter(a + b, p) == Filter(a, p) + Filter(b, p)
  {
    if a == [] {
      assert a + b == b;
    } else {
      assert (a + b)[0] == a[0] && (a + b)[1..] == a[1..] + b;
      FilterAppend(a[1..], b, p);
    }
  }

  /** Filtering twice with the same test removes nothing more. */
  lemma {:induction false} FilterIdempotent<T(!new)>(s: seq<T>, p: T -> bool)
    ensures Filter(Filter(s, p), p) == Filter(s, p)
  {
    if s != [] {
      FilterIdempotent(s[1..], p);
      var f := Filter(s, p);
      if p(s[0]) {
        assert f == [s[0]] + Filter(s[1..], p);
        assert f[1..] == Filter(s[1..], p);
        assert f[0] == s[0];
        assert Filter(f, p) == [f[0]] + Filter(f[1..], p);
      } else {
        assert f == Filter(s[1..], p);
      }
    }
  }

  ghost predicate TotalPreorder<T(!new)>(le: (T, T) -> bool) {
    && (forall a, b :: le(a, b) || le(b, a))
    && (forall a, b, c :: le(a, b) && le(b, c) ==> le(a, c))
  }

  predicate SortedBy<T>(s: seq<T>, le: (T, T) -> bool) {
    forall i, j :: 0 <= i < j < |s| ==> le(s[i], s[j])
  }

  /** Puts `x` in front of the first element it is not after. */
  function InsertSorted<T>(x: T, s: seq<T>, le: (T, T) -> bool): (r: seq<T>)
    ensures |r| == |s| + 1
    ensures multiset(r) == multiset(s) + multiset{x}
  {
    if s == [] then [x]
    else if le(x, s[0]) then [x] + s
    else
      assert s == [s[0]] + s[1..];
      [s[0]] + InsertSorted(x, s[1..], le)
  }

  lemma {:induction false} InsertSortedKeepsOrder<T(!new)>(x: T, s: seq<T>, le: (T, T) -> bool)
    requires TotalPreorder(le) && SortedBy(s, le)
    ensures SortedBy(InsertSorted(x, s, le), le)
  {
    if s != [] && !le(x, s[0]) {
      InsertSortedKeepsOrder(x, s[1..], le);
      var r := InsertSorted(x, s, le);
      var t := InsertSorted(x, s[1..], le);
      assert r == [s[0]] + t;
      forall k | 0 < k < |r| ensures le(s[0], r[k]) {
        assert r[k] in multiset(t);
        assert r[k] in multiset(s[1..]) + multiset{x};
        if r[k] != x {
          var m :| 0 <= m < |s[1..]| && s[1..][m] == r[k];
          assert s[m + 1] == r[k];
        }
      }
    }
  }

  /** A stable insertion sort: `sorted(s, key=...)` for the order `le`. */
  function Sort<T>(s: seq<T>, le: (T, T) -> bool): (r: seq<T>)
    ensures |r| == |s|
    ensures multiset(r) == multiset(s)
  {
    if s == [] then []
    else
      assert s == [s[0]] + s[1..];
      InsertSorted(s[0], Sort(s[1..], le), le)
  }

  lemma {:induction false} SortIsSorted<T(!new)>(s: seq<T>, le: (T, T) -> bool)
    requires TotalPreorder(le)
    ensures SortedBy(Sort(s, le), le)
  {
    if s != [] {
      SortIsSorted(s[1..], le);
      InsertSortedKeepsOrder(s[0], Sort(s[1..], le), le);
    }
  }

  /** No two elements share a key. */
  predicate DistinctBy<T, K(==)>(s: seq<T>, key: T -> K) {
    forall i, j :: 0 <= i < j < |s| ==> key(s[i]) != key(s[j])
  }

  lemma {:induction false} InsertSortedKeepsDistinct<T, K>(x: T, s: seq<T>, le: (T, T) -> bool, key: T -> K)
    requires DistinctBy(s, key) && forall y :: y in s ==> key(y) != key(x)
    ensures DistinctBy(InsertSorted(x, s, le), key)
  {
    if s != [] && !le(x, s[0]) {
      InsertSortedKeepsDistinct(x, s[1..], le, key);
      var r := InsertSorted(x, s, le);
      var t := InsertSorted(x, s[1..], le);
      assert r == [s[0]] + t;
      forall k | 0 < k < |r| ensures key(s[0]) != key(r[k]) {
        assert r[k] in multiset(t);
        assert r[k] in multiset(s[1..]) + multiset{x};
        if r[k] != x {
          var m :| 0 <= m < |s[1..]| && s[1..][m] == r[k];
          assert s[m + 1] == r[k];
        }
      }
    }
  }

  /** Sorting keeps keys distinct: it only reorders the elements. */
  lemma {:induction false} SortKeepsDistinct<T, K>(s: seq<T>, le: (T, T) -> bool, key: T -> K)
    requires DistinctBy(s, key)
    ensures DistinctBy(Sort(s, le), key)
  {
    if s != [] {
      SortKeepsDistinct(s[1..], le, key);
      forall y | y in Sort(s[1..], le) ensures key(y) != key(s[0]) {
        assert y in multiset(Sort(s[1..], le));
        var m :| 0 <= m < |s[1..]| && s[1..][m] == y;
        assert s[m + 1] == y;
      }
      InsertSortedKeepsDistinct(s[0], Sort(s[1..], le), le, key);
    }
  }
}
