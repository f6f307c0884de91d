/** Ordering of query results (`orderBy` in the store, `Array.prototype.sort`
    on the client) as a stable insertion sort on an integer key. */
module Sorting {

  predicate SortedBy<T>(s: seq<T>, key: T -> int) {
    forall i, j :: 0 <= i < j < |s| ==> key(s[i]) <= key(s[j])
  }

  /** An element no larger than every element of a sorted sequence may go in front of it. */
  lemma ConsSorted<T>(y: T, rest: seq<T>, key: T -> int)
    requires SortedBy(rest, key)
    requires forall k :: 0 <= k < |rest| ==> key(y) <= key(rest[k])
    ensures SortedBy([y] + rest, key)
  {
    var r := [y] + rest;
    forall i, j | 0 <= i < j < |r| ensures key(r[i]) <= key(r[j]) {
      assert r[j] == rest[j - 1];
      if i > 0 { assert r[i] == rest[i - 1]; }
    }
  }

  /** A key below every key of `s` and below `key(x)` is below every key of a
      sequence holding `x` and the elements of `s`. */
  lemma BelowAll<T>(y: T, x: T, s: seq<T>, rest: seq<T>, key: T -> int)
    requires multiset(rest) == multiset(s) + multiset{x}
    requires key(y) <= key(x) && forall k :: 0 <= k < |s| ==> key(y) <= key(s[k])
    ensures forall k :: 0 <= k < |rest| ==> key(y) <= key(rest[k])
  {
    forall k | 0 <= k < |rest| ensures key(y) <= key(rest[k]) {
      assert rest[k] in multiset(rest);
      if rest[k] != x {
        assert rest[k] in multiset(s);
        var m :| 0 <= m < |s| && s[m] == rest[k];
      }
    }
  }

  function InsertBy<T(==)>(x: T, s: seq<T>, key: T -> int): (r: seq<T>)
    requires SortedBy(s, key)
    ensures SortedBy(r, key)
    ensures multiset(r) == multiset(s) + multiset{x}
    ensures |r| == |s| + 1
  {
    if s == [] || key(x) <= key(s[0]) then
      ConsSorted(x, s, key);
      [x] + s
    else
      var tail := s[1..];
      assert s == [s[0]] + tail;
      var rest := InsertBy(x, tail, key);
      BelowAll(s[0], x, tail, rest, key);
      ConsSorted(s[0], rest, key);
      [s[0]] + rest
  }

  /** The elements of `s` ordered by ascending key; elements with equal keys
      keep their relative order. */
  function SortBy<T(==)>(s: seq<T>, key: T -> int): (r: seq<T>)
    ensures SortedBy(r, key)
    ensures multiset(r) == multiset(s)
    ensures |r| == |s|
  {
    if s == [] then []
    else
      assert s == [s[0]] + s[1..];
      InsertBy(s[0], SortBy(s[1..], key), key)
  }

  lemma SortByMembers<T>(s: seq<T>, key: T -> int, x: T)
    ensures x in SortBy(s, key) <==> x in s
  {
    assert x in SortBy(s, key) <==> x in multiset(SortBy(s, key));
    assert x in s <==> x in multiset(s);
  }
}
