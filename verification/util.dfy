/** The generic helpers of internal/util: grouping a slice into a map of
    slices, indexing it by a key with the last element winning, listing a
    map's keys, summing and mapping a slice. */
module Util {

  /** `order` lists every element of `keys` exactly once: the shape of a Go
      map's key set as its `range` loop visits it, in some unspecified order. */
  ghost predicate IsEnumeration<K(!new)>(order: seq<K>, keys: set<K>) {
    && (forall i, j :: 0 <= i < j < |order| ==> order[i] != order[j])
    && (forall k :: k in keys <==> k in order)
  }

  /** The elements of `s` whose key is `k`, in input order: the reference
      definition of one group. */
  function Filter<V, K(==)>(s: seq<V>, key: V -> K, k: K): (r: seq<V>)
    ensures |r| <= |s|
    ensures forall x :: x in r ==> x in s && key(x) == k
  {
    if |s| == 0 then []
    else (if key(s[0]) == k then [s[0]] else []) + Filter(s[1..], key, k)
  }

  lemma {:induction false} FilterAppend<V, K>(a: seq<V>, b: seq<V>, key: V -> K, k: K)
    ensures Filter(a + b, key, k) == Filter(a, key, k) + Filter(b, key, k)
    decreases |a|
  {
    if |a| == 0 {
      assert a + b == b;
    } else {
      assert (a + b)[1..] == a[1..] + b;
      FilterAppend(a[1..], b, key, k);
    }
  }

  /** Every element carrying key `k` is in `k`'s group. */
  lemma {:induction false} FilterHas<V, K>(s: seq<V>, key: V -> K, k: K)
    ensures forall x :: x in s && key(x) == k ==> x in Filter(s, key, k)
    decreases |s|
  {
    if |s| > 0 {
      FilterHas(s[1..], key, k);
      assert forall x :: x in s ==> x == s[0] || x in s[1..];
    }
  }

  /** A group is empty exactly when no element carries its key. */
  lemma {:induction false} FilterEmpty<V, K>(s: seq<V>, key: V -> K, k: K)
    ensures Filter(s, key, k) == [] <==> forall i :: 0 <= i < |s| ==> key(s[i]) != k
    decreases |s|
  {
    if |s| > 0 {
      FilterEmpty(s[1..], key, k);
      if key(s[0]) != k {
        forall i | 0 <= i < |s| ensures key(s[i]) != k <== forall i :: 0 <= i < |s[1..]| ==> key(s[1..][i]) != k {
          if i > 0 { assert s[i] == s[1..][i - 1]; }
        }
      }
    }
  }

  /** `x` appended to the group stored under `k`. */
  function AddToGroup<V, K(==)>(m: map<K, seq<V>>, k: K, x: V): map<K, seq<V>> {
    m[k := (if k in m then m[k] else []) + [x]]
  }

  /** Go's MapElementsBy (internal/util/map.go): every element is appended to
      the slice stored under its key, visiting the input from left to right. */
  function MapElementsBy<V, K(==,!new)>(s: seq<V>, key: V -> K): (r: map<K, seq<V>>)
    ensures forall k :: k in r <==> exists i :: 0 <= i < |s| && key(s[i]) == k
    ensures forall k | k in r :: r[k] == Filter(s, key, k)
    decreases |s|
  {
    if |s| == 0 then map[]
    else
      var m := MapElementsBy(s[..|s| - 1], key);
      GroupStep(s, key, m);
      AddToGroup(m, key(s[|s| - 1]), s[|s| - 1])
  }

  /** Appending the last element to its group turns the grouping of all but
      the last element into the grouping of the whole input. */
  lemma GroupStep<V, K(!new)>(s: seq<V>, key: V -> K, m: map<K, seq<V>>)
    requires |s| > 0
    requires forall k :: k in m <==> exists i :: 0 <= i < |s| - 1 && key(s[i]) == k
    requires forall k | k in m :: m[k] == Filter(s[..|s| - 1], key, k)
    ensures var r := AddToGroup(m, key(s[|s| - 1]), s[|s| - 1]);
      && (forall k :: k in r <==> exists i :: 0 <= i < |s| && key(s[i]) == k)
      && (forall k | k in r :: r[k] == Filter(s, key, k))
  {
    var r := AddToGroup(m, key(s[|s| - 1]), s[|s| - 1]);
    forall k ensures k in r <==> exists i :: 0 <= i < |s| && key(s[i]) == k {
      GroupStepKey(s, key, m, k);
    }
    forall k | k in r ensures r[k] == Filter(s, key, k) {
      GroupStepValue(s, key, m, k);
    }
  }

  lemma GroupStepKey<V, K(!new)>(s: seq<V>, key: V -> K, m: map<K, seq<V>>, k: K)
    requires |s| > 0
    requires forall k :: k in m <==> exists i :: 0 <= i < |s| - 1 && key(s[i]) == k
    ensures k in AddToGroup(m, key(s[|s| - 1]), s[|s| - 1])
        <==> exists i :: 0 <= i < |s| && key(s[i]) == k
  {
    if k in m {
      var i :| 0 <= i < |s| - 1 && key(s[i]) == k;
    }
    if exists i :: 0 <= i < |s| && key(s[i]) == k {
      var i :| 0 <= i < |s| && key(s[i]) == k;
      if i < |s| - 1 { assert k in m; }
    }
  }

  lemma GroupStepValue<V, K(!new)>(s: seq<V>, key: V -> K, m: map<K, seq<V>>, k: K)
    requires |s| > 0
    requires forall k :: k in m <==> exists i :: 0 <= i < |s| - 1 && key(s[i]) == k
    requires forall k | k in m :: m[k] == Filter(s[..|s| - 1], key, k)
    requires k in AddToGroup(m, key(s[|s| - 1]), s[|s| - 1])
    ensures AddToGroup(m, key(s[|s| - 1]), s[|s| - 1])[k] == Filter(s, key, k)
  {
    var init := s[..|s| - 1];
    var last := s[|s| - 1];
    var r := AddToGroup(m, key(last), last);
    assert s == init + [last];
    FilterAppend(init, [last], key, k);
    assert [last][1..] == [];
    var tail := Filter([last], key, k);
    assert tail == if key(last) == k then [last] else [];
    var head := Filter(init, key, k);
    if k in m {
      assert m[k] == head;
    } else {
      assert forall i :: 0 <= i < |init| ==> key(init[i]) != k by {
        forall i | 0 <= i < |init| ensures key(init[i]) != k {
          assert init[i] == s[i];
        }
      }
      FilterEmpty(init, key, k);
      assert head == [];
    }
  }

  /** The last element of `s` with key `k` is `v`. */
  ghost predicate IsLastWithKey<V, K>(s: seq<V>, key: V -> K, k: K, v: V) {
    exists i :: 0 <= i < |s| && s[i] == v && key(v) == k
      && forall j :: i < j < |s| ==> key(s[j]) != k
  }

  /** Go's MapUniqueElementsBy (internal/util/map.go): every element is stored
      under its key, so a later element overwrites an earlier one. */
  function MapUniqueElementsBy<V, K(==,!new)>(s: seq<V>, key: V -> K): (r: map<K, V>)
    ensures forall k :: k in r <==> exists i :: 0 <= i < |s| && key(s[i]) == k
    ensures forall k | k in r :: IsLastWithKey(s, key, k, r[k])
    decreases |s|
  {
    if |s| == 0 then map[]
    else
      var m := MapUniqueElementsBy(s[..|s| - 1], key);
      assert s == s[..|s| - 1] + [s[|s| - 1]];
      UniqueStep(s[..|s| - 1], s[|s| - 1], key, m);
      m[key(s[|s| - 1]) := s[|s| - 1]]
  }

  /** Storing `last` over the map of `init` gives the map of `init + [last]`. */
  lemma UniqueStep<V, K(!new)>(init: seq<V>, last: V, key: V -> K, m: map<K, V>)
    requires forall k :: k in m <==> exists i :: 0 <= i < |init| && key(init[i]) == k
    requires forall k | k in m :: IsLastWithKey(init, key, k, m[k])
    ensures var s, r := init + [last], m[key(last) := last];
      && (forall k :: k in r <==> exists i :: 0 <= i < |s| && key(s[i]) == k)
      && (forall k | k in r :: IsLastWithKey(s, key, k, r[k]))
  {
    var s := init + [last];
    var r := m[key(last) := last];
    forall k ensures k in r <==> exists i :: 0 <= i < |s| && key(s[i]) == k {
      if k in m && k != key(last) {
        var i :| 0 <= i < |init| && key(init[i]) == k;
        assert key(s[i]) == k;
      }
      if k == key(last) {
        assert key(s[|s| - 1]) == k;
      }
      if exists i :: 0 <= i < |s| && key(s[i]) == k {
        var i :| 0 <= i < |s| && key(s[i]) == k;
        if i < |s| - 1 { assert key(init[i]) == k; }
      }
    }
    forall k | k in r ensures IsLastWithKey(s, key, k, r[k]) {
      if k == key(last) {
        assert s[|s| - 1] == last;
      } else {
        var i :| 0 <= i < |init| && init[i] == m[k] && key(m[k]) == k
          && forall j :: i < j < |init| ==> key(init[j]) != k;
        assert s[i] == init[i];
        assert forall j :: i < j < |s| ==> key(s[j]) != k by {
          forall j | i < j < |s| ensures key(s[j]) != k {
            if j < |s| - 1 { assert s[j] == init[j]; }
          }
        }
      }
    }
  }

  /** Go's MapKeys (internal/util/map.go): the keys of `m`, each exactly once,
      in an order the map leaves unspecified. */
  method MapKeys<K(!new), V>(m: map<K, V>) returns (keys: seq<K>)
    ensures IsEnumeration(keys, m.Keys)
    ensures |keys| == |m|
  {
    keys := [];
    var rest := m.Keys;
    while rest != {}
      invariant rest <= m.Keys
      invariant forall k :: k in keys <==> k in m.Keys && k !in rest
      invariant forall i, j :: 0 <= i < j < |keys| ==> keys[i] != keys[j]
      invariant |keys| + |rest| == |m.Keys|
      decreases rest
    {
      var k :| k in rest;
      keys := keys + [k];
      rest := rest - {k};
    }
  }

  /** The sum of `f` over `s`: the reference definition for SumFunc. */
  function Sum<T>(s: seq<T>, f: T -> int): int {
    if |s| == 0 then 0 else f(s[0]) + Sum(s[1..], f)
  }

  /** The sum over a sequence with one more element in front. */
  lemma SumCons<T>(x: T, s: seq<T>, f: T -> int)
    ensures Sum([x] + s, f) == f(x) + Sum(s, f)
  {
    assert ([x] + s)[1..] == s;
  }

  /** Summing a concatenation is summing both halves. */
  lemma {:induction false} SumAppend<T>(a: seq<T>, b: seq<T>, f: T -> int)
    ensures Sum(a + b, f) == Sum(a, f) + Sum(b, f)
    decreases |a|
  {
    if |a| == 0 {
      assert a + b == b;
    } else {
      assert (a + b)[1..] == a[1..] + b;
      SumAppend(a[1..], b, f);
    }
  }

  /** The elements of `s` satisfying `keep`, in input order: a WHERE clause
      over a table scan. */
  function Select<T(!new)>(s: seq<T>, keep: T -> bool): (r: seq<T>)
    ensures |r| <= |s|
    ensures forall x :: x in r <==> x in s && keep(x)
  {
    if |s| == 0 then []
    else (if keep(s[0]) then [s[0]] else []) + Select(s[1..], keep)
  }

  /** Selecting from a sequence grown at the end extends the selection at
      the end. */
  lemma {:induction false} SelectSnoc<T(!new)>(a: seq<T>, x: T, keep: T -> bool)
    ensures Select(a + [x], keep) == Select(a, keep) + (if keep(x) then [x] else [])
    decreases |a|
  {
    if |a| == 0 {
      assert a + [x] == [x];
    } else {
      assert (a + [x])[1..] == a[1..] + [x];
      SelectSnoc(a[1..], x, keep);
    }
  }

  /** Selecting twice is selecting once with both tests. */
  lemma {:induction false} SelectSelect<T(!new)>(s: seq<T>, a: T -> bool, b: T -> bool, both: T -> bool)
    requires forall x :: both(x) == (a(x) && b(x))
    ensures Select(Select(s, a), b) == Select(s, both)
    decreases |s|
  {
    if |s| > 0 {
      SelectSelect(s[1..], a, b, both);
      if a(s[0]) {
        assert Select(s, a) == [s[0]] + Select(s[1..], a);
        assert Select(s, a)[1..] == Select(s[1..], a);
      } else {
        assert Select(s, a) == Select(s[1..], a);
      }
    }
  }

  /** Selecting from a concatenation selects from each half. */
  lemma {:induction false} SelectAppend<T(!new)>(a: seq<T>, b: seq<T>, keep: T -> bool)
    ensures Select(a + b, keep) == Select(a, keep) + Select(b, keep)
    decreases |a|
  {
    if |a| == 0 {
      assert a + b == b;
    } else {
      assert (a + b)[1..] == a[1..] + b;
      SelectAppend(a[1..], b, keep);
    }
  }

  /** `i` is the position of the first element of `s` that `keep` accepts. */
  ghost predicate IsFirst<T>(s: seq<T>, i: int, keep: T -> bool) {
    0 <= i < |s| && keep(s[i]) && forall j :: 0 <= j < i ==> !keep(s[j])
  }

  /** The head of a selection is the first element that qualifies. */
  lemma {:induction false} FirstSelected<T(!new)>(s: seq<T>, keep: T -> bool)
    requires |Select(s, keep)| > 0
    ensures exists i :: IsFirst(s, i, keep) && s[i] == Select(s, keep)[0]
    decreases |s|
  {
    if keep(s[0]) {
      assert IsFirst(s, 0, keep);
    } else {
      FirstSelected(s[1..], keep);
      var i :| IsFirst(s[1..], i, keep) && s[1..][i] == Select(s[1..], keep)[0];
      assert s[i + 1] == s[1..][i];
      forall j | 0 <= j < i + 1 ensures !keep(s[j]) {
        if j > 0 { assert s[j] == s[1..][j - 1]; }
      }
      assert IsFirst(s, i + 1, keep);
    }
  }

  /** Selecting keeps a strictly increasing key strictly increasing. */
  lemma {:induction false} SelectIncreasing<T(!new)>(s: seq<T>, keep: T -> bool, key: T -> int)
    requires forall i, j :: 0 <= i < j < |s| ==> key(s[i]) < key(s[j])
    ensures forall i, j :: 0 <= i < j < |Select(s, keep)| ==> key(Select(s, keep)[i]) < key(Select(s, keep)[j])
    decreases |s|
  {
    if |s| > 0 {
      var tail := Select(s[1..], keep);
      SelectIncreasing(s[1..], keep, key);
      assert forall i, j :: 0 <= i < j < |tail| ==> key(tail[i]) < key(tail[j]);
      forall x | x in tail ensures key(s[0]) < key(x) {
        var k :| 0 <= k < |s[1..]| && s[1..][k] == x;
        assert s[k + 1] == x;
      }
      if keep(s[0]) {
        assert Select(s, keep) == [s[0]] + tail;
        ConsIncreasing(s[0], tail, key);
      } else {
        assert Select(s, keep) == [] + tail;
      }
    }
  }

  /** A strictly increasing sequence stays so with a smaller element in
      front. */
  lemma ConsIncreasing<T>(x: T, s: seq<T>, key: T -> int)
    requires forall i, j :: 0 <= i < j < |s| ==> key(s[i]) < key(s[j])
    requires forall y :: y in s ==> key(x) < key(y)
    ensures forall i, j :: 0 <= i < j < |[x] + s| ==> key(([x] + s)[i]) < key(([x] + s)[j])
  {
    var r := [x] + s;
    forall i, j | 0 <= i < j < |r| ensures key(r[i]) < key(r[j]) {
      assert r[j] == s[j - 1] && s[j - 1] in s;
      if i > 0 { assert r[i] == s[i - 1]; }
    }
  }

  /** The distinct values `f` takes on `s`: what a `count(distinct …)`
      counts. */
  function Image<T(==), K>(s: seq<T>, f: T -> K): set<K> {
    set x | x in s :: f(x)
  }

  /** There are no more distinct values than elements. */
  lemma {:induction false} ImageAtMost<T, K>(s: seq<T>, f: T -> K)
    ensures |Image(s, f)| <= |s|
    decreases |s|
  {
    if |s| > 0 {
      ImageAtMost(s[1..], f);
      ImageCons(s, f);
    }
  }

  /** An injective `f` takes as many distinct values as there are elements. */
  lemma {:induction false} ImageOfInjective<T, K>(s: seq<T>, f: T -> K)
    requires forall i, j :: 0 <= i < j < |s| ==> f(s[i]) != f(s[j])
    ensures |Image(s, f)| == |s|
    decreases |s|
  {
    if |s| > 0 {
      ImageOfInjective(s[1..], f);
      ImageCons(s, f);
      forall x | x in s[1..] ensures f(x) != f(s[0]) {
        var i :| 0 <= i < |s[1..]| && s[1..][i] == x;
        assert s[i + 1] == x;
      }
    }
  }

  lemma ImageCons<T, K>(s: seq<T>, f: T -> K)
    requires |s| > 0
    ensures Image(s, f) == Image(s[1..], f) + {f(s[0])}
  {
    forall x | x in s ensures f(x) in Image(s[1..], f) + {f(s[0])} {
      if x != s[0] {
        var i :| 0 <= i < |s| && s[i] == x;
        assert s[1..][i - 1] == x;
      }
    }
  }

  /** Sums agree on sequences whose elements agree under `f`. */
  lemma {:induction false} SumPointwise<T>(a: seq<T>, b: seq<T>, f: T -> int)
    requires |a| == |b|
    requires forall i :: 0 <= i < |a| ==> f(a[i]) == f(b[i])
    ensures Sum(a, f) == Sum(b, f)
    decreases |a|
  {
    if |a| > 0 {
      SumPointwise(a[1..], b[1..], f);
    }
  }

  /** Go's SumFunc (internal/util/slice.go): accumulates `f` from left to right. */
  method SumFunc<T>(s: seq<T>, f: T -> int) returns (r: int)
    ensures r == Sum(s, f)
    ensures |s| == 0 ==> r == 0
  {
    r := 0;
    var i := 0;
    while i < |s|
      invariant 0 <= i <= |s|
      invariant r == Sum(s[..i], f)
    {
      SumAppend(s[..i], [s[i]], f);
      assert s[..i + 1] == s[..i] + [s[i]];
      r := r + f(s[i]);
      i := i + 1;
    }
    assert s[..i] == s;
  }

  /** Go's SliceMap (internal/util/slice.go): `f` applied to each element, in order. */
  method SliceMap<T, P>(s: seq<T>, f: T -> P) returns (r: seq<P>)
    ensures |r| == |s|
    ensures forall i :: 0 <= i < |s| ==> r[i] == f(s[i])
  {
    r := [];
    var i := 0;
    while i < |s|
      invariant 0 <= i <= |s|
      invariant |r| == i
      invariant forall j :: 0 <= j < i ==> r[j] == f(s[j])
    {
      r := r + [f(s[i])];
      i := i + 1;
    }
  }

  /** The groups of `m` listed in the order `ks`, concatenated. */
  function Gather<K, V>(m: map<K, seq<V>>, ks: seq<K>): seq<V> {
    if |ks| == 0 then []
    else (if ks[0] in m then m[ks[0]] else []) + Gather(m, ks[1..])
  }

  /** The elements of `s` whose key occurs in `ks`, in input order. */
  function FilterIn<V, K(==)>(s: seq<V>, key: V -> K, ks: seq<K>): (r: seq<V>)
    ensures |r| <= |s|
  {
    if |s| == 0 then []
    else (if key(s[0]) in ks then [s[0]] else []) + FilterIn(s[1..], key, ks)
  }

  /** Keeping the keys `[k] + rest` is keeping `k`'s group and the keys `rest`,
      as multisets, when `k` is not in `rest`. */
  lemma {:induction false} FilterInCons<V, K>(s: seq<V>, key: V -> K, k: K, rest: seq<K>)
    requires k !in rest
    ensures multiset(FilterIn(s, key, [k] + rest))
         == multiset(Filter(s, key, k)) + multiset(FilterIn(s, key, rest))
    decreases |s|
  {
    if |s| > 0 {
      FilterInCons(s[1..], key, k, rest);
    }
  }

  /** Keeping every key that occurs keeps everything. */
  lemma {:induction false} FilterInAll<V, K>(s: seq<V>, key: V -> K, ks: seq<K>)
    requires forall i :: 0 <= i < |s| ==> key(s[i]) in ks
    ensures FilterIn(s, key, ks) == s
    decreases |s|
  {
    if |s| > 0 {
      FilterInAll(s[1..], key, ks);
    }
  }

  /** Concatenating the groups of MapElementsBy over distinct keys gives the
      elements carrying those keys, as a multiset. */
  lemma {:induction false} GatherGroupsIn<V, K(!new)>(s: seq<V>, key: V -> K, ks: seq<K>)
    requires forall i, j :: 0 <= i < j < |ks| ==> ks[i] != ks[j]
    ensures multiset(Gather(MapElementsBy(s, key), ks)) == multiset(FilterIn(s, key, ks))
    decreases |ks|
  {
    var m := MapElementsBy(s, key);
    if |ks| == 0 {
      assert FilterIn(s, key, ks) == [] by { FilterInNone(s, key, ks); }
    } else {
      var k := ks[0];
      assert k !in ks[1..];
      GatherGroupsIn(s, key, ks[1..]);
      assert ks == [k] + ks[1..];
      FilterInCons(s, key, k, ks[1..]);
      if k !in m {
        FilterEmpty(s, key, k);
      }
    }
  }

  lemma {:induction false} FilterInNone<V, K>(s: seq<V>, key: V -> K, ks: seq<K>)
    requires |ks| == 0
    ensures FilterIn(s, key, ks) == []
    decreases |s|
  {
    if |s| > 0 { FilterInNone(s[1..], key, ks); }
  }

  /** MapElementsBy loses no element and duplicates none: listing its groups
      in any enumeration of its keys gives back the input as a multiset, so the
      group sizes sum to the input length. */
  lemma GroupsPartitionInput<V, K(!new)>(s: seq<V>, key: V -> K, ks: seq<K>)
    requires IsEnumeration(ks, MapElementsBy(s, key).Keys)
    ensures multiset(Gather(MapElementsBy(s, key), ks)) == multiset(s)
    ensures |Gather(MapElementsBy(s, key), ks)| == |s|
  {
    GatherGroupsIn(s, key, ks);
    forall i | 0 <= i < |s| ensures key(s[i]) in ks {
      assert key(s[i]) in MapElementsBy(s, key);
    }
    FilterInAll(s, key, ks);
    assert |multiset(Gather(MapElementsBy(s, key), ks))| == |multiset(s)|;
  }
}
