/** Maps kept as lists sorted by key, for any order: the merges of hstore and what they compute. */
module SortedMaps {

  datatype Pair<+K, +V> = Pair(key: K, val: V)

  /** A three-way comparison that is a strict total order. */
  ghost predicate IsOrder<K(!new)>(cmp: (K, K) -> int) {
    && (forall a, b :: cmp(a, b) == 0 <==> a == b)
    && (forall a, b :: cmp(a, b) < 0 <==> cmp(b, a) > 0)
    && (forall a, b, c :: cmp(a, b) < 0 && cmp(b, c) < 0 ==> cmp(a, c) < 0)
  }

  ghost predicate Sorted<K, V>(cmp: (K, K) -> int, ps: seq<Pair<K, V>>) {
    forall i, j :: 0 <= i < j < |ps| ==> cmp(ps[i].key, ps[j].key) < 0
  }

  ghost predicate SortedKeys<K>(cmp: (K, K) -> int, ks: seq<K>) {
    forall i, j :: 0 <= i < j < |ks| ==> cmp(ks[i], ks[j]) < 0
  }

  /** All keys of ps come after k. */
  ghost predicate After<K, V>(cmp: (K, K) -> int, k: K, ps: seq<Pair<K, V>>) {
    forall i :: 0 <= i < |ps| ==> cmp(k, ps[i].key) < 0
  }

  function MapOf<K(==), V>(ps: seq<Pair<K, V>>): map<K, V> {
    if ps == [] then map[] else MapOf(ps[1..])[ps[0].key := ps[0].val]
  }

  lemma {:induction false} MapKeys<K, V>(ps: seq<Pair<K, V>>, k: K)
    ensures k in MapOf(ps) <==> exists i :: 0 <= i < |ps| && ps[i].key == k
    decreases |ps|
  {
    if ps != [] {
      MapKeys(ps[1..], k);
      if k in MapOf(ps[1..]) {
        var i :| 0 <= i < |ps[1..]| && ps[1..][i].key == k;
        assert ps[i + 1].key == k;
      }
    }
  }

  /** The map of a sorted list holds exactly the pairs of the list. */
  lemma {:induction false} MapAt<K(!new), V>(cmp: (K, K) -> int, ps: seq<Pair<K, V>>, i: nat)
    requires IsOrder(cmp) && Sorted(cmp, ps) && i < |ps|
    ensures ps[i].key in MapOf(ps) && MapOf(ps)[ps[i].key] == ps[i].val
    decreases |ps|
  {
    if i > 0 {
      assert ps[1..][i - 1] == ps[i];
      MapAt(cmp, ps[1..], i - 1);
      assert cmp(ps[0].key, ps[i].key) < 0;
    }
  }

  /** A key before all others is not in the map. */
  lemma NotAfter<K(!new), V>(cmp: (K, K) -> int, k: K, ps: seq<Pair<K, V>>)
    requires IsOrder(cmp) && After(cmp, k, ps)
    ensures k !in MapOf(ps)
  {
    MapKeys(ps, k);
  }

  lemma AfterTail<K(!new), V>(cmp: (K, K) -> int, k: K, ps: seq<Pair<K, V>>)
    requires IsOrder(cmp) && Sorted(cmp, ps) && ps != []
    requires cmp(k, ps[0].key) <= 0
    ensures After(cmp, k, ps[1..]) && Sorted(cmp, ps[1..]) && (cmp(k, ps[0].key) < 0 ==> After(cmp, k, ps))
  {
    forall i | 0 < i < |ps| ensures cmp(k, ps[i].key) < 0 {
      assert cmp(ps[0].key, ps[i].key) < 0;
    }
  }

  lemma SortedCons<K(!new), V>(cmp: (K, K) -> int, p: Pair<K, V>, ps: seq<Pair<K, V>>)
    requires Sorted(cmp, ps) && After(cmp, p.key, ps)
    ensures Sorted(cmp, [p] + ps) && ([p] + ps)[1..] == ps && MapOf([p] + ps) == MapOf(ps)[p.key := p.val]
  {
    assert ([p] + ps)[1..] == ps;
  }

  /** Of two sorted lists with the same keys, neither begins before the other. */
  lemma HeadNotBefore<K(!new), V>(cmp: (K, K) -> int, a: seq<Pair<K, V>>, b: seq<Pair<K, V>>)
    requires IsOrder(cmp) && Sorted(cmp, b) && MapOf(a) == MapOf(b) && a != [] && b != []
    ensures cmp(a[0].key, b[0].key) >= 0
  {
    MapKeys(b, a[0].key);
    MapKeys(a, a[0].key);
    var i :| 0 <= i < |b| && b[i].key == a[0].key;
    if i > 0 { assert cmp(b[0].key, b[i].key) < 0; }
  }

  lemma UpdateRemove<K, V>(m: map<K, V>, k: K, v: V)
    requires k !in m
    ensures m[k := v] - {k} == m
  {
  }

  lemma TailMap<K(!new), V>(cmp: (K, K) -> int, a: seq<Pair<K, V>>)
    requires IsOrder(cmp) && Sorted(cmp, a) && a != []
    ensures Sorted(cmp, a[1..]) && MapOf(a[1..]) == MapOf(a) - {a[0].key}
  {
    AfterTail(cmp, a[0].key, a);
    NotAfter(cmp, a[0].key, a[1..]);
    UpdateRemove(MapOf(a[1..]), a[0].key, a[0].val);
  }

  lemma Nonempty<K, V>(a: seq<Pair<K, V>>)
    ensures a != [] ==> MapOf(a) != map[]
  {
    if a != [] { assert a[0].key in MapOf(a); }
  }

  /** A sorted list is determined by its map. */
  lemma {:induction false} SortedUnique<K(!new), V>(cmp: (K, K) -> int, a: seq<Pair<K, V>>, b: seq<Pair<K, V>>)
    requires IsOrder(cmp) && Sorted(cmp, a) && Sorted(cmp, b) && MapOf(a) == MapOf(b)
    ensures a == b
    decreases |a|
  {
    Nonempty(a);
    Nonempty(b);
    if a != [] {
      HeadNotBefore(cmp, a, b);
      HeadNotBefore(cmp, b, a);
      assert MapOf(a)[a[0].key] == a[0].val;
      TailMap(cmp, a);
      TailMap(cmp, b);
      SortedUnique(cmp, a[1..], b[1..]);
      assert a == [a[0]] + a[1..] && b == [b[0]] + b[1..];
    }
  }

  // ----- concatenation: the second list wins -----

  function Merge<K, V>(cmp: (K, K) -> int, a: seq<Pair<K, V>>, b: seq<Pair<K, V>>): seq<Pair<K, V>>
    decreases |a| + |b|
  {
    if a == [] then b else if b == [] then a else
    var d := cmp(a[0].key, b[0].key);
    if d < 0 then [a[0]] + Merge(cmp, a[1..], b)
    else if d == 0 then [b[0]] + Merge(cmp, a[1..], b[1..])
    else [b[0]] + Merge(cmp, a, b[1..])
  }

  lemma {:induction false} MergeAfter<K(!new), V>(cmp: (K, K) -> int, k: K, a: seq<Pair<K, V>>, b: seq<Pair<K, V>>)
    requires After(cmp, k, a) && After(cmp, k, b)
    ensures After(cmp, k, Merge(cmp, a, b))
    decreases |a| + |b|
  {
    if a != [] && b != [] {
      var d := cmp(a[0].key, b[0].key);
      if d < 0 { MergeAfter(cmp, k, a[1..], b); }
      else if d == 0 { MergeAfter(cmp, k, a[1..], b[1..]); }
      else { MergeAfter(cmp, k, a, b[1..]); }
    }
  }

  lemma UpdateLeft<K, V>(m: map<K, V>, n: map<K, V>, k: K, v: V)
    requires k !in n
    ensures m[k := v] + n == (m + n)[k := v]
  {
  }

  lemma UpdateRight<K, V>(m: map<K, V>, n: map<K, V>, k: K, v: V)
    ensures m + n[k := v] == (m + n)[k := v]
  {
  }

  lemma UpdateBoth<K, V>(m: map<K, V>, n: map<K, V>, k: K, v: V, w: V)
    ensures m[k := v] + n[k := w] == (m + n)[k := w]
  {
  }

  /** The merge of sorted lists is sorted, and its map is the union in which b overrides a. */
  lemma {:induction false} MergeIsUnion<K(!new), V>(cmp: (K, K) -> int, a: seq<Pair<K, V>>, b: seq<Pair<K, V>>)
    requires IsOrder(cmp) && Sorted(cmp, a) && Sorted(cmp, b)
    ensures Sorted(cmp, Merge(cmp, a, b)) && MapOf(Merge(cmp, a, b)) == MapOf(a) + MapOf(b)
    decreases |a| + |b|
  {
    if a == [] {
      assert MapOf(a) + MapOf(b) == MapOf(b);
    } else if b == [] {
      assert MapOf(a) + MapOf(b) == MapOf(a);
    } else if cmp(a[0].key, b[0].key) < 0 {
      MergeFirst(cmp, a, b);
    } else {
      MergeSecond(cmp, a, b);
    }
  }

  lemma {:induction false} MergeFirst<K(!new), V>(cmp: (K, K) -> int, a: seq<Pair<K, V>>, b: seq<Pair<K, V>>)
    requires IsOrder(cmp) && Sorted(cmp, a) && Sorted(cmp, b) && a != [] && b != [] && cmp(a[0].key, b[0].key) < 0
    ensures Sorted(cmp, Merge(cmp, a, b)) && MapOf(Merge(cmp, a, b)) == MapOf(a) + MapOf(b)
    decreases |a| + |b|, 0
  {
    AfterTail(cmp, a[0].key, a);
    AfterTail(cmp, a[0].key, b);
    MergeAfter(cmp, a[0].key, a[1..], b);
    MergeIsUnion(cmp, a[1..], b);
    SortedCons(cmp, a[0], Merge(cmp, a[1..], b));
    NotAfter(cmp, a[0].key, b);
    UpdateLeft(MapOf(a[1..]), MapOf(b), a[0].key, a[0].val);
  }

  lemma {:induction false} MergeSecond<K(!new), V>(cmp: (K, K) -> int, a: seq<Pair<K, V>>, b: seq<Pair<K, V>>)
    requires IsOrder(cmp) && Sorted(cmp, a) && Sorted(cmp, b) && a != [] && b != [] && cmp(a[0].key, b[0].key) >= 0
    ensures Sorted(cmp, Merge(cmp, a, b)) && MapOf(Merge(cmp, a, b)) == MapOf(a) + MapOf(b)
    decreases |a| + |b|, 0
  {
    AfterTail(cmp, b[0].key, a);
    AfterTail(cmp, b[0].key, b);
    var a' := if cmp(a[0].key, b[0].key) == 0 then a[1..] else a;
    MergeAfter(cmp, b[0].key, a', b[1..]);
    MergeIsUnion(cmp, a', b[1..]);
    SortedCons(cmp, b[0], Merge(cmp, a', b[1..]));
    UpdateBoth(MapOf(a[1..]), MapOf(b[1..]), a[0].key, a[0].val, b[0].val);
    UpdateRight(MapOf(a), MapOf(b[1..]), b[0].key, b[0].val);
  }

  /** One round of a merge loop at positions i and j, with the comparison result d it acts on. */
  lemma MergeStep<K, V>(cmp: (K, K) -> int, a: seq<Pair<K, V>>, b: seq<Pair<K, V>>, i: nat, j: nat, d: int)
    requires i <= |a| && j <= |b| && (i < |a| || j < |b|)
    requires d == if i >= |a| then 1 else if j >= |b| then -1 else cmp(a[i].key, b[j].key)
    ensures d < 0 ==> Merge(cmp, a[i..], b[j..]) == [a[i]] + Merge(cmp, a[i + 1..], b[j..])
    ensures d == 0 ==> Merge(cmp, a[i..], b[j..]) == [b[j]] + Merge(cmp, a[i + 1..], b[j + 1..])
    ensures d > 0 ==> Merge(cmp, a[i..], b[j..]) == [b[j]] + Merge(cmp, a[i..], b[j + 1..])
  {
    if i < |a| { assert a[i..][1..] == a[i + 1..]; }
    if j < |b| { assert b[j..][1..] == b[j + 1..]; }
    if i >= |a| {
      assert b[j..] == [b[j]] + b[j + 1..];
    } else if j >= |b| {
      assert a[i..] == [a[i]] + a[i + 1..];
    }
  }

  // ----- removal of keys -----

  function KeySet<K(==)>(ks: seq<K>): set<K> { if ks == [] then {} else {ks[0]} + KeySet(ks[1..]) }

  lemma {:induction false} KeySetHas<K>(ks: seq<K>, k: K)
    ensures k in KeySet(ks) <==> k in ks
    decreases |ks|
  {
    if ks != [] { KeySetHas(ks[1..], k); }
  }

  function Remove<K, V>(cmp: (K, K) -> int, a: seq<Pair<K, V>>, ks: seq<K>): seq<Pair<K, V>>
    decreases |a| + |ks|
  {
    if a == [] then [] else if ks == [] then a else
    var d := cmp(a[0].key, ks[0]);
    if d > 0 then Remove(cmp, a, ks[1..])
    else if d == 0 then Remove(cmp, a[1..], ks[1..])
    else [a[0]] + Remove(cmp, a[1..], ks)
  }

  lemma {:induction false} RemoveAfter<K(!new), V>(cmp: (K, K) -> int, k: K, a: seq<Pair<K, V>>, ks: seq<K>)
    requires After(cmp, k, a)
    ensures After(cmp, k, Remove(cmp, a, ks))
    decreases |a| + |ks|
  {
    if a != [] && ks != [] {
      var d := cmp(a[0].key, ks[0]);
      RemoveAfter(cmp, k, if d > 0 then a else a[1..], if d < 0 then ks else ks[1..]);
    }
  }

  lemma KeysAfter<K(!new)>(cmp: (K, K) -> int, k: K, ks: seq<K>)
    requires IsOrder(cmp) && SortedKeys(cmp, ks) && ks != [] && cmp(k, ks[0]) <= 0
    ensures SortedKeys(cmp, ks[1..]) && k !in KeySet(ks[1..]) && (cmp(k, ks[0]) < 0 ==> k !in KeySet(ks))
  {
    KeySetHas(ks[1..], k);
    KeySetHas(ks, k);
    forall i | 0 < i < |ks| ensures cmp(k, ks[i]) < 0 { assert cmp(ks[0], ks[i]) < 0; }
  }

  lemma SubtractUpdate<K, V>(m: map<K, V>, x: set<K>, k: K, v: V)
    requires k !in x
    ensures m[k := v] - x == (m - x)[k := v]
  {
  }

  lemma SubtractMore<K, V>(m: map<K, V>, x: set<K>, k: K)
    requires k !in m
    ensures m - ({k} + x) == m - x
  {
  }

  lemma SubtractBoth<K, V>(m: map<K, V>, x: set<K>, k: K, v: V)
    requires k !in m
    ensures m[k := v] - ({k} + x) == m - x
  {
  }

  /** Removal from a sorted list keeps it sorted and removes exactly the given keys. */
  lemma {:induction false} RemoveIsDifference<K(!new), V>(cmp: (K, K) -> int, a: seq<Pair<K, V>>, ks: seq<K>)
    requires IsOrder(cmp) && Sorted(cmp, a) && SortedKeys(cmp, ks)
    ensures Sorted(cmp, Remove(cmp, a, ks)) && MapOf(Remove(cmp, a, ks)) == MapOf(a) - KeySet(ks)
    decreases |a| + |ks|
  {
    if a != [] && ks != [] {
      var d := cmp(a[0].key, ks[0]);
      AfterTail(cmp, a[0].key, a);
      NotAfter(cmp, a[0].key, a[1..]);
      if d > 0 {
        AfterTail(cmp, ks[0], a);
        NotAfter(cmp, ks[0], a);
        RemoveIsDifference(cmp, a, ks[1..]);
        SubtractMore(MapOf(a), KeySet(ks[1..]), ks[0]);
      } else if d == 0 {
        RemoveIsDifference(cmp, a[1..], ks[1..]);
        SubtractBoth(MapOf(a[1..]), KeySet(ks[1..]), a[0].key, a[0].val);
      } else {
        KeysAfter(cmp, a[0].key, ks);
        RemoveIsDifference(cmp, a[1..], ks);
        RemoveAfter(cmp, a[0].key, a[1..], ks);
        SortedCons(cmp, a[0], Remove(cmp, a[1..], ks));
        SubtractUpdate(MapOf(a[1..]), KeySet(ks), a[0].key, a[0].val);
      }
    }
  }

  lemma RemoveStep<K, V>(cmp: (K, K) -> int, a: seq<Pair<K, V>>, ks: seq<K>, i: nat, j: nat, d: int)
    requires i < |a| && j <= |ks|
    requires d == if j >= |ks| then -1 else cmp(a[i].key, ks[j])
    ensures d < 0 ==> Remove(cmp, a[i..], ks[j..]) == [a[i]] + Remove(cmp, a[i + 1..], ks[j..])
    ensures d == 0 ==> Remove(cmp, a[i..], ks[j..]) == Remove(cmp, a[i + 1..], ks[j + 1..])
    ensures d > 0 ==> Remove(cmp, a[i..], ks[j..]) == Remove(cmp, a[i..], ks[j + 1..])
  {
    assert a[i..][1..] == a[i + 1..];
    if j < |ks| { assert ks[j..][1..] == ks[j + 1..]; } else { assert a[i..] == [a[i]] + a[i + 1..]; }
  }

  // ----- removal of one key -----

  function Without<K(==), V>(a: seq<Pair<K, V>>, k: K): seq<Pair<K, V>> {
    if a == [] then [] else (if a[0].key == k then [] else [a[0]]) + Without(a[1..], k)
  }

  lemma {:induction false} WithoutAfter<K(!new), V>(cmp: (K, K) -> int, x: K, a: seq<Pair<K, V>>, k: K)
    requires After(cmp, x, a)
    ensures After(cmp, x, Without(a, k))
    decreases |a|
  {
    if a != [] { WithoutAfter(cmp, x, a[1..], k); }
  }

  lemma RemoveAbsent<K, V>(m: map<K, V>, k: K)
    requires k !in m
    ensures m - {k} == m
  {
  }

  lemma WithoutHead<K, V>(a: seq<Pair<K, V>>, k: K)
    requires a != []
    ensures Without(a, k) == if a[0].key == k then Without(a[1..], k) else [a[0]] + Without(a[1..], k)
  {
    assert [] + Without(a[1..], k) == Without(a[1..], k);
  }

  /** Filtering a sorted list keeps it sorted and removes exactly the one key. */
  lemma {:induction false} WithoutIsDifference<K(!new), V>(cmp: (K, K) -> int, a: seq<Pair<K, V>>, k: K)
    requires IsOrder(cmp) && Sorted(cmp, a)
    ensures Sorted(cmp, Without(a, k)) && MapOf(Without(a, k)) == MapOf(a) - {k}
    decreases |a|
  {
    if a != [] {
      WithoutHead(a, k);
      AfterTail(cmp, a[0].key, a);
      WithoutIsDifference(cmp, a[1..], k);
      if a[0].key == k {
        NotAfter(cmp, k, a[1..]);
        RemoveAbsent(MapOf(a[1..]), k);
        TailMap(cmp, a);
      } else {
        WithoutAfter(cmp, a[0].key, a[1..], k);
        SortedCons(cmp, a[0], Without(a[1..], k));
        SubtractUpdate(MapOf(a[1..]), {k}, a[0].key, a[0].val);
      }
    }
  }

  // ----- removal of equal pairs -----

  function RemoveEqual<K, V(==)>(cmp: (K, K) -> int, a: seq<Pair<K, V>>, b: seq<Pair<K, V>>): seq<Pair<K, V>>
    decreases |a| + |b|
  {
    if a == [] then [] else if b == [] then a else
    var d := cmp(a[0].key, b[0].key);
    if d > 0 then RemoveEqual(cmp, a, b[1..])
    else if d == 0 then if a[0].val == b[0].val then RemoveEqual(cmp, a[1..], b[1..])
        else [a[0]] + RemoveEqual(cmp, a[1..], b[1..])
    else [a[0]] + RemoveEqual(cmp, a[1..], b)
  }

  /** The pairs of m that n does not have. */
  function PairsNotIn<K, V(==)>(m: map<K, V>, n: map<K, V>): map<K, V> {
    map k | k in m && !(k in n && n[k] == m[k]) :: m[k]
  }

  lemma {:induction false} RemoveEqualAfter<K(!new), V>(cmp: (K, K) -> int, k: K, a: seq<Pair<K, V>>,
      b: seq<Pair<K, V>>)
    requires After(cmp, k, a)
    ensures After(cmp, k, RemoveEqual(cmp, a, b))
    decreases |a| + |b|
  {
    if a != [] && b != [] {
      var d := cmp(a[0].key, b[0].key);
      RemoveEqualAfter(cmp, k, if d > 0 then a else a[1..], if d < 0 then b else b[1..]);
    }
  }

  lemma NotInUpdate<K, V>(m: map<K, V>, n: map<K, V>, k: K, v: V)
    requires k !in n
    ensures PairsNotIn(m[k := v], n) == PairsNotIn(m, n)[k := v]
  {
  }

  lemma NotInMore<K, V>(m: map<K, V>, n: map<K, V>, k: K, w: V)
    requires k !in m
    ensures PairsNotIn(m, n[k := w]) == PairsNotIn(m, n)
  {
  }

  lemma NotInBoth<K, V>(m: map<K, V>, n: map<K, V>, k: K, v: V, w: V)
    requires k !in m
    ensures PairsNotIn(m[k := v], n[k := w]) == if v == w then PairsNotIn(m, n) else PairsNotIn(m, n)[k := v]
  {
  }

  lemma {:induction false} RemoveEqualIsDifference<K(!new), V>(cmp: (K, K) -> int, a: seq<Pair<K, V>>,
      b: seq<Pair<K, V>>)
    requires IsOrder(cmp) && Sorted(cmp, a) && Sorted(cmp, b)
    ensures Sorted(cmp, RemoveEqual(cmp, a, b)) && MapOf(RemoveEqual(cmp, a, b)) == PairsNotIn(MapOf(a), MapOf(b))
    decreases |a| + |b|
  {
    if a == [] || b == [] {
      assert PairsNotIn(MapOf(a), MapOf(b)) == MapOf(a);
    } else {
      var d := cmp(a[0].key, b[0].key);
      AfterTail(cmp, a[0].key, a);
      NotAfter(cmp, a[0].key, a[1..]);
      if d > 0 {
        AfterTail(cmp, b[0].key, a);
        NotAfter(cmp, b[0].key, a);
        RemoveEqualIsDifference(cmp, a, b[1..]);
        NotInMore(MapOf(a), MapOf(b[1..]), b[0].key, b[0].val);
      } else if d == 0 {
        RemoveEqualIsDifference(cmp, a[1..], b[1..]);
        RemoveEqualAfter(cmp, a[0].key, a[1..], b[1..]);
        SortedCons(cmp, a[0], RemoveEqual(cmp, a[1..], b[1..]));
        NotInBoth(MapOf(a[1..]), MapOf(b[1..]), a[0].key, a[0].val, b[0].val);
      } else {
        AfterTail(cmp, a[0].key, b);
        NotAfter(cmp, a[0].key, b);
        RemoveEqualIsDifference(cmp, a[1..], b);
        RemoveEqualAfter(cmp, a[0].key, a[1..], b);
        SortedCons(cmp, a[0], RemoveEqual(cmp, a[1..], b));
        NotInUpdate(MapOf(a[1..]), MapOf(b), a[0].key, a[0].val);
      }
    }
  }

  lemma RemoveEqualStep<K, V>(cmp: (K, K) -> int, a: seq<Pair<K, V>>, b: seq<Pair<K, V>>, i: nat, j: nat, d: int)
    requires i < |a| && j <= |b|
    requires d == if j >= |b| then -1 else cmp(a[i].key, b[j].key)
    ensures d < 0 ==> RemoveEqual(cmp, a[i..], b[j..]) == [a[i]] + RemoveEqual(cmp, a[i + 1..], b[j..])
    ensures d == 0 ==>
      RemoveEqual(cmp, a[i..], b[j..]) == (if a[i].val == b[j].val then [] else [a[i]]) +
          RemoveEqual(cmp, a[i + 1..], b[j + 1..])
    ensures d > 0 ==> RemoveEqual(cmp, a[i..], b[j..]) == RemoveEqual(cmp, a[i..], b[j + 1..])
  {
    assert a[i..][1..] == a[i + 1..];
    if j < |b| { assert b[j..][1..] == b[j + 1..]; } else { assert a[i..] == [a[i]] + a[i + 1..]; }
  }

  // ----- removal of duplicates -----

  /** Sorted by key, equal keys side by side. */
  ghost predicate InOrder<K, V>(cmp: (K, K) -> int, ps: seq<Pair<K, V>>) {
    forall i, j :: 0 <= i < j < |ps| ==> cmp(ps[i].key, ps[j].key) <= 0
  }

  ghost predicate HasKey<K, V>(ps: seq<Pair<K, V>>, k: K) { exists i :: 0 <= i < |ps| && ps[i].key == k }

  /** The first pair of each run of equal keys. */
  function Unique<K(==), V>(ps: seq<Pair<K, V>>): (u: seq<Pair<K, V>>)
    ensures |u| <= |ps| && (ps != [] ==> u != [])
  {
    if |ps| <= 1 then ps else
    var front := Unique(ps[..|ps| - 1]);
    if front[|front| - 1].key == ps[|ps| - 1].key then front else front + [ps[|ps| - 1]]
  }

  lemma UniqueLast<K, V>(ps: seq<Pair<K, V>>, i: nat)
    requires 0 < i < |ps|
    ensures var u := Unique(ps[..i]);
      Unique(ps[..i + 1]) == if u[|u| - 1].key == ps[i].key then u else u + [ps[i]]
  {
    assert ps[..i + 1][..i] == ps[..i];
  }

  lemma {:induction false} UniqueKeys<K, V>(ps: seq<Pair<K, V>>, i: nat)
    requires i < |ps|
    ensures HasKey(Unique(ps), ps[i].key)
    decreases |ps|
  {
    if |ps| > 1 {
      var front, last := Unique(ps[..|ps| - 1]), ps[|ps| - 1];
      if i < |ps| - 1 {
        UniqueKeys(ps[..|ps| - 1], i);
        var j :| 0 <= j < |front| && front[j].key == ps[i].key;
        assert Unique(ps)[j].key == ps[i].key;
      } else if front[|front| - 1].key != last.key {
        assert (front + [last])[|front|].key == last.key;
      }
    }
  }

  lemma {:induction false} UniqueFrom<K, V>(ps: seq<Pair<K, V>>, p: Pair<K, V>)
    requires p in Unique(ps)
    ensures p in ps
    decreases |ps|
  {
    if |ps| > 1 {
      if p in Unique(ps[..|ps| - 1]) { UniqueFrom(ps[..|ps| - 1], p); }
    }
  }

  lemma {:induction false} UniqueSorted<K(!new), V>(cmp: (K, K) -> int, ps: seq<Pair<K, V>>)
    requires IsOrder(cmp) && InOrder(cmp, ps) && ps != []
    ensures Sorted(cmp, Unique(ps)) && Unique(ps)[|Unique(ps)| - 1].key == ps[|ps| - 1].key
    decreases |ps|
  {
    if |ps| > 1 {
      OrderFront(cmp, ps);
      UniqueSorted(cmp, ps[..|ps| - 1]);
      SortedSnoc(cmp, Unique(ps[..|ps| - 1]), ps[|ps| - 1], Unique(ps));
    }
  }

  lemma OrderFront<K, V>(cmp: (K, K) -> int, ps: seq<Pair<K, V>>)
    requires InOrder(cmp, ps) && |ps| > 1
    ensures InOrder(cmp, ps[..|ps| - 1]) && cmp(ps[..|ps| - 1][|ps| - 2].key, ps[|ps| - 1].key) <= 0
  {
    assert cmp(ps[|ps| - 2].key, ps[|ps| - 1].key) <= 0;
  }

  lemma SortedSnoc<K(!new), V>(cmp: (K, K) -> int, u: seq<Pair<K, V>>, last: Pair<K, V>, v: seq<Pair<K, V>>)
    requires IsOrder(cmp) && Sorted(cmp, u) && u != [] && cmp(u[|u| - 1].key, last.key) <= 0
    requires v == if u[|u| - 1].key == last.key then u else u + [last]
    ensures Sorted(cmp, v) && v != [] && v[|v| - 1].key == last.key
  {
    forall i | 0 <= i < |u| && cmp(u[|u| - 1].key, last.key) < 0 ensures cmp(u[i].key, last.key) < 0 {
      if i < |u| - 1 { assert cmp(u[i].key, u[|u| - 1].key) < 0; }
    }
  }

  /** Strictly sorted lists have no duplicates to remove. */
  lemma {:induction false} UniqueOfSorted<K(!new), V>(cmp: (K, K) -> int, ps: seq<Pair<K, V>>)
    requires IsOrder(cmp) && Sorted(cmp, ps)
    ensures Unique(ps) == ps
    decreases |ps|
  {
    if |ps| > 1 {
      LastDiffers(cmp, ps);
      UniqueOfSorted(cmp, ps[..|ps| - 1]);
    }
  }

  lemma LastDiffers<K(!new), V>(cmp: (K, K) -> int, ps: seq<Pair<K, V>>)
    requires IsOrder(cmp) && Sorted(cmp, ps) && |ps| > 1
    ensures ps[|ps| - 2].key != ps[|ps| - 1].key && Sorted(cmp, ps[..|ps| - 1]) && ps[..|ps| - 1] + [ps[|ps| - 1]] == ps
  {
    assert cmp(ps[|ps| - 2].key, ps[|ps| - 1].key) < 0;
  }

  lemma MultisetTail<T>(a: seq<T>)
    requires a != []
    ensures multiset(a[1..]) == multiset(a) - multiset{a[0]} && a == [a[0]] + a[1..]
  {
    assert a == [a[0]] + a[1..];
  }

  lemma SameLength<T>(a: seq<T>, b: seq<T>)
    requires multiset(a) == multiset(b)
    ensures |a| == |b|
  {
    assert |multiset(a)| == |a| && |multiset(b)| == |b|;
  }

  lemma OrderedTails<K(!new), V>(cmp: (K, K) -> int, a: seq<Pair<K, V>>, b: seq<Pair<K, V>>)
    requires Sorted(cmp, a) && InOrder(cmp, b) && a != [] && b != []
    ensures Sorted(cmp, a[1..]) && InOrder(cmp, b[1..])
  {
  }

  /** An ordered permutation of a strictly sorted list is that list. */
  lemma {:induction false} OrderedPermutation<K(!new), V>(cmp: (K, K) -> int, a: seq<Pair<K, V>>, b: seq<Pair<K, V>>)
    requires IsOrder(cmp) && Sorted(cmp, a) && InOrder(cmp, b) && multiset(a) == multiset(b)
    ensures a == b
    decreases |a|
  {
    SameLength(a, b);
    if a != [] {
      SameFirst(cmp, a, b);
      MultisetTail(a);
      MultisetTail(b);
      OrderedTails(cmp, a, b);
      OrderedPermutation(cmp, a[1..], b[1..]);
    }
  }

  lemma SameFirst<K(!new), V>(cmp: (K, K) -> int, a: seq<Pair<K, V>>, b: seq<Pair<K, V>>)
    requires IsOrder(cmp) && Sorted(cmp, a) && InOrder(cmp, b) && multiset(a) == multiset(b) && a != [] && b != []
    ensures a[0] == b[0]
  {
    assert a[0] in multiset(b) && b[0] in multiset(a);
    var i :| 0 <= i < |b| && b[i] == a[0];
    var j :| 0 <= j < |a| && a[j] == b[0];
    if i > 0 { assert cmp(b[0].key, b[i].key) <= 0; }
    if j > 0 { assert cmp(a[0].key, a[j].key) < 0; }
  }

  // ----- sorting -----

  function Insert<K, V>(cmp: (K, K) -> int, ps: seq<Pair<K, V>>, p: Pair<K, V>): seq<Pair<K, V>> {
    if ps == [] || cmp(ps[|ps| - 1].key, p.key) <= 0 then ps + [p]
    else Insert(cmp, ps[..|ps| - 1], p) + [ps[|ps| - 1]]
  }

  lemma {:induction false} InsertPermutes<K, V>(cmp: (K, K) -> int, ps: seq<Pair<K, V>>, p: Pair<K, V>)
    ensures multiset(Insert(cmp, ps, p)) == multiset(ps) + multiset{p}
    decreases |ps|
  {
    if ps != [] {
      InsertPermutes(cmp, ps[..|ps| - 1], p);
      assert ps == ps[..|ps| - 1] + [ps[|ps| - 1]];
    }
  }

  ghost predicate AllUpTo<K, V>(cmp: (K, K) -> int, ps: seq<Pair<K, V>>, k: K) {
    forall i :: 0 <= i < |ps| ==> cmp(ps[i].key, k) <= 0
  }

  lemma {:induction false} InsertUpTo<K, V>(cmp: (K, K) -> int, ps: seq<Pair<K, V>>, p: Pair<K, V>, k: K)
    requires AllUpTo(cmp, ps, k) && cmp(p.key, k) <= 0
    ensures AllUpTo(cmp, Insert(cmp, ps, p), k)
    decreases |ps|
  {
    if ps != [] { InsertUpTo(cmp, ps[..|ps| - 1], p, k); }
  }

  lemma UpToLast<K(!new), V>(cmp: (K, K) -> int, ps: seq<Pair<K, V>>, k: K)
    requires IsOrder(cmp) && InOrder(cmp, ps) && ps != [] && cmp(ps[|ps| - 1].key, k) <= 0
    ensures AllUpTo(cmp, ps, k)
  {
    forall i | 0 <= i < |ps| - 1 ensures cmp(ps[i].key, k) <= 0 {
      assert cmp(ps[i].key, ps[|ps| - 1].key) <= 0;
    }
  }

  lemma OrderSnoc<K, V>(cmp: (K, K) -> int, ps: seq<Pair<K, V>>, p: Pair<K, V>)
    requires InOrder(cmp, ps) && AllUpTo(cmp, ps, p.key)
    ensures InOrder(cmp, ps + [p])
  {
  }

  lemma {:induction false} InsertOrders<K(!new), V>(cmp: (K, K) -> int, ps: seq<Pair<K, V>>, p: Pair<K, V>)
    requires IsOrder(cmp) && InOrder(cmp, ps)
    ensures InOrder(cmp, Insert(cmp, ps, p))
    decreases |ps|
  {
    if ps == [] {
    } else if cmp(ps[|ps| - 1].key, p.key) <= 0 {
      UpToLast(cmp, ps, p.key);
      OrderSnoc(cmp, ps, p);
    } else {
      var front, last := ps[..|ps| - 1], ps[|ps| - 1];
      InsertOrders(cmp, front, p);
      FrontUpTo(cmp, ps);
      InsertUpTo(cmp, front, p, last.key);
      OrderSnoc(cmp, Insert(cmp, front, p), last);
    }
  }

  lemma FrontUpTo<K, V>(cmp: (K, K) -> int, ps: seq<Pair<K, V>>)
    requires InOrder(cmp, ps) && ps != []
    ensures AllUpTo(cmp, ps[..|ps| - 1], ps[|ps| - 1].key)
  {
  }
}
