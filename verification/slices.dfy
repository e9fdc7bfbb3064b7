/** The generic slice helpers of pkg/util/slices.go. The two grouping helpers
    are the same algorithms as those of internal/util and reuse them. */
module Slices {
  import Util

  /** GetStructsField: projects every element through `f`, keeping order;
      the same loop as SliceMap. */
  method GetStructsField<T, V>(s: seq<T>, f: T -> V) returns (r: seq<V>)
    ensures |r| == |s|
    ensures forall i :: 0 <= i < |s| ==> r[i] == f(s[i])
  {
    r := Util.SliceMap(s, f);
  }

  /** MapSlice: overwrites each slot of the slice in place with `f` of its old
      value; the slice value after the call is `r`. */
  method MapSlice<T>(s: seq<T>, f: T -> T) returns (r: seq<T>)
    ensures |r| == |s|
    ensures forall i :: 0 <= i < |s| ==> r[i] == f(s[i])
  {
    r := s;
    var i := 0;
    while i < |r|
      invariant |r| == |s|
      invariant 0 <= i <= |s|
      invariant forall j :: 0 <= j < i ==> r[j] == f(s[j])
      invariant forall j :: i <= j < |s| ==> r[j] == s[j]
    {
      r := r[i := f(r[i])];
      i := i + 1;
    }
  }

  /** MapStructsByField: each element goes into the group of its key, groups
      keep input order, and the keys are exactly the keys that occur. */
  function MapStructsByField<T, K(==,!new)>(s: seq<T>, f: T -> K): (r: map<K, seq<T>>)
    ensures forall k :: k in r <==> exists i :: 0 <= i < |s| && f(s[i]) == k
    ensures forall k | k in r :: r[k] == Util.Filter(s, f, k)
  {
    Util.MapElementsBy(s, f)
  }

  /** MapStructsByUniqueField: each key that occurs is mapped to the last
      element carrying it. */
  function MapStructsByUniqueField<T, K(==,!new)>(s: seq<T>, f: T -> K): (r: map<K, T>)
    ensures forall k :: k in r <==> exists i :: 0 <= i < |s| && f(s[i]) == k
    ensures forall k | k in r :: Util.IsLastWithKey(s, f, k, r[k])
  {
    Util.MapUniqueElementsBy(s, f)
  }
}
