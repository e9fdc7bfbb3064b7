/** Ordering rows by an integer key. The stores order query results by a
    timestamp and the reconciliation engine orders reserved packages by their
    nominal duration; both use this stable insertion sort. */
module Sorting {

  ghost predicate SortedBy<T>(s: seq<T>, key: T -> int) {
    forall i, j :: 0 <= i < j < |s| ==> key(s[i]) <= key(s[j])
  }

  /** `x` placed after every element whose key is not larger than its own. */
  function Insert<T>(x: T, s: seq<T>, key: T -> int): (r: seq<T>)
    requires SortedBy(s, key)
    ensures SortedBy(r, key)
    ensures multiset(r) == multiset(s) + multiset{x}
    ensures |r| == |s| + 1
    decreases |s|
  {
    if |s| == 0 then [x]
    else if key(x) < key(s[0]) then [x] + s
    else
      var rest := Insert(x, s[1..], key);
      assert s == [s[0]] + s[1..];
      BoundedCopy(rest, s[1..], x, key, key(s[0]));
      [s[0]] + rest
  }

  /** A rearrangement of `s` plus `x` keeps every key above a bound that
      `x` and all of `s` respect. */
  lemma BoundedCopy<T>(r: seq<T>, s: seq<T>, x: T, key: T -> int, bound: int)
    requires multiset(r) == multiset(s) + multiset{x}
    requires bound <= key(x) && forall j :: 0 <= j < |s| ==> bound <= key(s[j])
    ensures forall j :: 0 <= j < |r| ==> bound <= key(r[j])
  {
    forall j | 0 <= j < |r| ensures bound <= key(r[j]) {
      assert r[j] in multiset(r);
      if r[j] in multiset(s) {
        var i :| 0 <= i < |s| && s[i] == r[j];
      }
    }
  }

  /** The elements of `s` in ascending key order; equal keys keep their input
      order. */
  function SortBy<T>(s: seq<T>, key: T -> int): (r: seq<T>)
    ensures SortedBy(r, key)
    ensures multiset(r) == multiset(s)
    ensures |r| == |s|
    decreases |s|
  {
    if |s| == 0 then []
    else
      assert s == s[..|s| - 1] + [s[|s| - 1]];
      Insert(s[|s| - 1], SortBy(s[..|s| - 1], key), key)
  }

  /** A sorted copy holds the same rows. */
  lemma SortedMembers<T>(s: seq<T>, sorted: seq<T>)
    requires multiset(sorted) == multiset(s)
    ensures forall x :: x in sorted <==> x in s
  {
    forall x ensures x in sorted <==> x in s {
      assert x in sorted <==> x in multiset(sorted);
      assert x in s <==> x in multiset(s);
    }
  }
}
