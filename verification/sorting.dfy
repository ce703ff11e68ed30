/** Ordering a table by an integer column, as a database `ORDER BY` does. */
module Sorting {

  /** `s` is in non-decreasing order of `key`. */
  predicate SortedBy<T>(s: seq<T>, key: T -> int)
  {
    forall i, j :: 0 <= i < j < |s| ==> key(s[i]) <= key(s[j])
  }

  /** No two elements of `s` agree on `f` (a primary-key column). */
  predicate DistinctBy<T>(s: seq<T>, f: T -> int)
  {
    forall i, j :: 0 <= i < j < |s| ==> f(s[i]) != f(s[j])
  }

  /** In a sorted sequence, a strictly smaller key sits strictly earlier. */
  lemma SortedIndexOrder<T>(s: seq<T>, key: T -> int, i: nat, j: nat)
    requires SortedBy(s, key)
    requires i < |s| && j < |s|
    requires key(s[i]) < key(s[j])
    ensures i < j
  {
  }

  /** Inserts `x` into the sorted `s`, after every element whose key is not larger. */
  function Insert<T>(x: T, s: seq<T>, key: T -> int): (r: seq<T>)
    requires SortedBy(s, key)
    ensures SortedBy(r, key)
    ensures multiset(r) == multiset(s) + multiset{x}
    ensures |r| == |s| + 1
    ensures key(r[0]) == key(x) || (|s| > 0 && key(r[0]) == key(s[0]))
    decreases |s|
  {
    if |s| == 0 then [x]
    else if key(x) < key(s[0]) then [x] + s
    else
      assert s == [s[0]] + s[1..];
      [s[0]] + Insert(x, s[1..], key)
  }

  /** Insertion sort: a permutation of `s` in non-decreasing `key` order. */
  function SortBy<T>(s: seq<T>, key: T -> int): (r: seq<T>)
    ensures SortedBy(r, key)
    ensures multiset(r) == multiset(s)
    decreases |s|
  {
    if |s| == 0 then []
    else
      assert s == s[..|s| - 1] + [s[|s| - 1]];
      Insert(s[|s| - 1], SortBy(s[..|s| - 1], key), key)
  }

  lemma {:induction false} InsertKeepsDistinct<T>(x: T, s: seq<T>, key: T -> int, f: T -> int)
    requires SortedBy(s, key)
    requires DistinctBy(s, f)
    requires forall e :: e in s ==> f(e) != f(x)
    ensures DistinctBy(Insert(x, s, key), f)
    decreases |s|
  {
    if |s| > 0 && key(s[0]) <= key(x) {
      var tail := s[1..];
      assert DistinctBy(tail, f) by {
        forall i, j | 0 <= i < j < |tail| ensures f(tail[i]) != f(tail[j]) {
          assert tail[i] == s[i + 1] && tail[j] == s[j + 1];
        }
      }
      InsertKeepsDistinct(x, tail, key, f);
      var inner := Insert(x, tail, key);
      forall e | e in inner ensures f(e) != f(s[0]) {
        assert e in multiset(inner);
        if e != x {
          assert e in tail;
          var k :| 0 <= k < |tail| && tail[k] == e;
          assert s[k + 1] == e;
        }
      }
      assert Insert(x, s, key) == [s[0]] + inner;
    }
  }

  /** Sorting never merges two rows: distinct keys stay distinct. */
  lemma {:induction false} SortKeepsDistinct<T>(s: seq<T>, key: T -> int, f: T -> int)
    requires DistinctBy(s, f)
    ensures DistinctBy(SortBy(s, key), f)
    decreases |s|
  {
    if |s| > 0 {
      var n := |s| - 1;
      var front := s[..n];
      assert DistinctBy(front, f);
      SortKeepsDistinct(front, key, f);
      var sorted := SortBy(front, key);
      forall e | e in sorted ensures f(e) != f(s[n]) {
        assert e in multiset(sorted);
        assert e in front;
        var k :| 0 <= k < n && front[k] == e;
      }
      InsertKeepsDistinct(s[n], sorted, key, f);
    }
  }
}
