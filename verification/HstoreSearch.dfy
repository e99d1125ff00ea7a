/** Lookups in packed hstore values: binary search with a bound carried from key to key. */
module HstoreSearch {
  import opened Machine
  import opened Wrappers
  import opened ByteStrings
  import opened SortedMaps
  import opened HstoreLayout
  import opened HstoreOps

  /** All pairs before `low` have smaller keys: where a search for k may start. */
  ghost predicate Below(ps: seq<KeyValue>, low: nat, k: Bytes) {
    low <= |ps| && forall i :: 0 <= i < low ==> Cmp(ps[i].key, k) < 0
  }

  /** All pairs from `high` on have larger keys. */
  ghost predicate Above(ps: seq<KeyValue>, high: nat, k: Bytes) {
    high <= |ps| && forall i :: high <= i < |ps| ==> Cmp(ps[i].key, k) > 0
  }

  lemma Narrow(ps: seq<KeyValue>, mid: nat, k: Bytes)
    requires Sorted(Cmp, ps) && mid < |ps|
    ensures Cmp(ps[mid].key, k) <= 0 ==> Below(ps, mid, k)
    ensures Cmp(ps[mid].key, k) < 0 ==> Below(ps, mid + 1, k)
    ensures Cmp(ps[mid].key, k) > 0 ==> Above(ps, mid, k)
  {
    CmpIsOrder();
    forall i | 0 <= i < mid && Cmp(ps[mid].key, k) <= 0 ensures Cmp(ps[i].key, k) < 0 {
      assert Cmp(ps[i].key, ps[mid].key) < 0;
    }
    forall i | mid < i < |ps| && Cmp(ps[mid].key, k) > 0 ensures Cmp(ps[i].key, k) > 0 {
      assert Cmp(ps[mid].key, ps[i].key) < 0 && Cmp(k, ps[mid].key) < 0;
    }
  }

  /** What a search leaves behind: the place of the key, or the gap where it would be. */
  ghost predicate Located(ps: seq<KeyValue>, k: Bytes, idx: int, low: nat) {
    && (idx >= 0 ==> idx < |ps| && ps[idx].key == k && low == idx + 1)
    && (idx < 0 ==> Below(ps, low, k) && Above(ps, low, k))
  }

  /** hstoreFindKey with its lower bound passed in and out. */
  method FindKey(h: HStore, ghost ps: seq<KeyValue>, lowbound: nat, key: Bytes) returns (idx: int, low: nat)
    requires Encodes(h, ps) && Sorted(Cmp, ps) && Below(ps, lowbound, key)
    ensures Located(ps, key, idx, low)
  {
    var stopLow: nat, stopHigh: nat := lowbound, Count(h);
    CountOf(h, ps);
    while stopLow < stopHigh
      invariant stopLow <= stopHigh && Below(ps, stopLow, key) && Above(ps, stopHigh, key)
    {
      var stopMiddle := stopLow + (stopHigh - stopLow) / 2;
      ReadsPair(h, ps, stopMiddle);
      Narrow(ps, stopMiddle, key);
      var difference := Cmp(KeyAt(h, stopMiddle), key);
      if difference == 0 { return stopMiddle, stopMiddle + 1; }
      if difference < 0 { stopLow := stopMiddle + 1; } else { stopHigh := stopMiddle; }
    }
    return -1, stopLow;
  }

  /** The bound left by one search may start the search for any later key. */
  lemma BoundCarries(ps: seq<KeyValue>, k: Bytes, idx: int, low: nat, next: Bytes)
    requires Sorted(Cmp, ps) && Located(ps, k, idx, low) && Cmp(k, next) < 0
    ensures Below(ps, low, next)
  {
    CmpIsOrder();
    if idx >= 0 { Narrow(ps, idx, k); }
    forall i | 0 <= i < low ensures Cmp(ps[i].key, next) < 0 {
      if i != idx { assert Cmp(ps[i].key, k) < 0; }
    }
  }

  /** A search finds a key exactly when the map has it, and then its value. */
  lemma LocatedIff(ps: seq<KeyValue>, k: Bytes, idx: int, low: nat)
    requires Sorted(Cmp, ps) && Located(ps, k, idx, low)
    ensures idx >= 0 <==> k in MapOf(ps)
    ensures idx >= 0 ==> MapOf(ps)[k] == ps[idx].val
  {
    CmpIsOrder();
    MapKeys(ps, k);
    if idx >= 0 {
      MapAt(Cmp, ps, idx);
    } else {
      forall i | 0 <= i < |ps| ensures ps[i].key != k {
        if i < low { assert Cmp(ps[i].key, k) < 0; } else { assert Cmp(ps[i].key, k) > 0; }
      }
    }
  }

  /** hstore_exists */
  method Exists(h: HStore, key: Bytes) returns (res: bool)
    requires WellFormed(h)
    ensures res <==> key in Abs(h)
  {
    var idx, low := FindKey(h, PairsOf(h), 0, key);
    LocatedIff(PairsOf(h), key, idx, low);
    res := idx >= 0;
  }

  /** hstore_defined and the subscript fetch: absent keys and null values both give null. */
  method Fetch(h: HStore, key: Bytes) returns (r: Option<Bytes>)
    requires WellFormed(h)
    ensures r == if key in Abs(h) then Abs(h)[key] else None
  {
    ghost var ps := PairsOf(h);
    var idx, low := FindKey(h, ps, 0, key);
    LocatedIff(ps, key, idx, low);
    if idx < 0 { return None; }
    ReadsPair(h, ps, idx);
    r := ValAt(h, idx);
  }

  /** The bound for key i of a sorted key list, after the searches for the keys before it. */
  ghost predicate Ready(ps: seq<KeyValue>, low: nat, ks: seq<Bytes>, i: nat) {
    i < |ks| ==> Below(ps, low, ks[i])
  }

  lemma ReadyNext(ps: seq<KeyValue>, ks: seq<Bytes>, i: nat, idx: int, low: nat)
    requires Sorted(Cmp, ps) && SortedKeys(Cmp, ks) && i < |ks| && Located(ps, ks[i], idx, low)
    ensures Ready(ps, low, ks, i + 1)
  {
    if i + 1 < |ks| { BoundCarries(ps, ks[i], idx, low, ks[i + 1]); }
  }

  /** hstore_exists_any */
  method ExistsAny(h: HStore, ks: seq<Bytes>) returns (res: bool)
    requires WellFormed(h) && SortedKeys(Cmp, ks)
    ensures res <==> exists i :: 0 <= i < |ks| && ks[i] in Abs(h)
  {
    ghost var ps := PairsOf(h);
    var low: nat := 0;
    for i := 0 to |ks|
      invariant Ready(ps, low, ks, i) && forall k :: 0 <= k < i ==> ks[k] !in Abs(h)
    {
      var idx;
      idx, low := FindKey(h, ps, low, ks[i]);
      LocatedIff(ps, ks[i], idx, low);
      ReadyNext(ps, ks, i, idx, low);
      if idx >= 0 { return true; }
    }
    res := false;
  }

  /** hstore_exists_all */
  method ExistsAll(h: HStore, ks: seq<Bytes>) returns (res: bool)
    requires WellFormed(h) && SortedKeys(Cmp, ks)
    ensures res <==> forall i :: 0 <= i < |ks| ==> ks[i] in Abs(h)
  {
    ghost var ps := PairsOf(h);
    var low: nat := 0;
    for i := 0 to |ks|
      invariant Ready(ps, low, ks, i) && forall k :: 0 <= k < i ==> ks[k] in Abs(h)
    {
      var idx;
      idx, low := FindKey(h, ps, low, ks[i]);
      LocatedIff(ps, ks[i], idx, low);
      ReadyNext(ps, ks, i, idx, low);
      if idx < 0 { return false; }
    }
    res := true;
  }

  ghost predicate SubMap<K, V>(m: map<K, V>, n: map<K, V>) { forall k :: k in m ==> k in n && n[k] == m[k] }

  /** Pair i of a sorted list is in n. */
  ghost predicate Matched(ps: seq<KeyValue>, n: map<Bytes, Option<Bytes>>, i: nat) {
    i < |ps| ==> ps[i].key in n && n[ps[i].key] == ps[i].val
  }

  lemma SubMapOf(ps: seq<KeyValue>, n: map<Bytes, Option<Bytes>>)
    requires Sorted(Cmp, ps)
    ensures SubMap(MapOf(ps), n) <==> forall i: nat :: i < |ps| ==> Matched(ps, n, i)
  {
    CmpIsOrder();
    forall i: nat | i < |ps| && SubMap(MapOf(ps), n) ensures Matched(ps, n, i) { MapAt(Cmp, ps, i); }
    if forall i: nat :: i < |ps| ==> Matched(ps, n, i) {
      forall k | k in MapOf(ps) ensures k in n && n[k] == MapOf(ps)[k] {
        MapKeys(ps, k);
        var i: nat :| i < |ps| && ps[i].key == k;
        MapAt(Cmp, ps, i);
        assert Matched(ps, n, i);
      }
    }
  }

  lemma NextKey(ts: seq<KeyValue>, ps: seq<KeyValue>, i: nat, idx: int, low: nat)
    requires Sorted(Cmp, ts) && Sorted(Cmp, ps) && i < |ts| && Located(ps, ts[i].key, idx, low)
    ensures i + 1 < |ts| ==> Below(ps, low, ts[i + 1].key)
  {
    if i + 1 < |ts| { BoundCarries(ps, ts[i].key, idx, low, ts[i + 1].key); }
  }

  /** hstore_contains: exactly the sub-map relation, with null matching only null. */
  method Contains(val: HStore, tmpl: HStore) returns (res: bool)
    requires WellFormed(val) && WellFormed(tmpl)
    ensures res <==> SubMap(Abs(tmpl), Abs(val))
  {
    ghost var ts, ps := PairsOf(tmpl), PairsOf(val);
    CountOf(tmpl, ts);
    SubMapOf(ts, Abs(val));
    var lastidx: nat := 0;
    for i := 0 to Count(tmpl)
      invariant i < |ts| ==> Below(ps, lastidx, ts[i].key)
      invariant forall k: nat :: k < i ==> Matched(ts, Abs(val), k)
    {
      ReadsPair(tmpl, ts, i);
      var idx;
      idx, lastidx := FindKey(val, ps, lastidx, KeyAt(tmpl, i));
      LocatedIff(ps, ts[i].key, idx, lastidx);
      NextKey(ts, ps, i, idx, lastidx);
      if idx < 0 {
        assert !Matched(ts, Abs(val), i);
        return false;
      }
      var same := SameValue(tmpl, val, ts, ps, i, idx);
      if !same {
        assert !Matched(ts, Abs(val), i);
        return false;
      }
    }
    res := true;
  }

  // ----- slices -----

  /** The pairs of m whose keys are in ks, in the order of ks. */
  function SliceList(m: map<Bytes, Option<Bytes>>, ks: seq<Bytes>): seq<KeyValue> {
    if ks == [] then [] else
    var k := ks[|ks| - 1];
    SliceList(m, ks[..|ks| - 1]) + if k in m then [Pair(k, m[k])] else []
  }

  ghost function Restrict(m: map<Bytes, Option<Bytes>>, ks: seq<Bytes>): map<Bytes, Option<Bytes>> {
    map k | k in m && k in ks :: m[k]
  }

  lemma {:induction false} SliceIn(m: map<Bytes, Option<Bytes>>, ks: seq<Bytes>, p: KeyValue)
    ensures p in SliceList(m, ks) <==> p.key in ks && p.key in m && m[p.key] == p.val
    decreases |ks|
  {
    if ks != [] { SliceIn(m, ks[..|ks| - 1], p); }
  }

  ghost predicate UpTo(ps: seq<KeyValue>, k: Bytes) { forall i :: 0 <= i < |ps| ==> Cmp(ps[i].key, k) < 0 }

  lemma {:induction false} SliceUpTo(m: map<Bytes, Option<Bytes>>, ks: seq<Bytes>, k: Bytes)
    requires forall i :: 0 <= i < |ks| ==> Cmp(ks[i], k) < 0
    ensures UpTo(SliceList(m, ks), k)
    decreases |ks|
  {
    if ks != [] { SliceUpTo(m, ks[..|ks| - 1], k); }
  }

  lemma SortedPush(ps: seq<KeyValue>, p: KeyValue)
    requires Sorted(Cmp, ps) && UpTo(ps, p.key)
    ensures Sorted(Cmp, ps + [p])
  {
  }

  lemma {:induction false} SliceSorted(m: map<Bytes, Option<Bytes>>, ks: seq<Bytes>)
    requires SortedKeys(Cmp, ks)
    ensures Sorted(Cmp, SliceList(m, ks))
    decreases |ks|
  {
    if ks != [] {
      var k, front := ks[|ks| - 1], ks[..|ks| - 1];
      SliceSorted(m, front);
      SliceUpTo(m, front, k);
      if k in m { SortedPush(SliceList(m, front), Pair(k, m[k])); }
    }
  }

  lemma SliceKeys(m: map<Bytes, Option<Bytes>>, ks: seq<Bytes>, k: Bytes)
    ensures k in MapOf(SliceList(m, ks)) <==> k in m && k in ks
  {
    var ps := SliceList(m, ks);
    MapKeys(ps, k);
    if k in m && k in ks {
      SliceIn(m, ks, Pair(k, m[k]));
      var i :| 0 <= i < |ps| && ps[i] == Pair(k, m[k]);
    }
    if k in MapOf(ps) {
      var i :| 0 <= i < |ps| && ps[i].key == k;
      SliceIn(m, ks, ps[i]);
    }
  }

  lemma SliceMap(m: map<Bytes, Option<Bytes>>, ks: seq<Bytes>)
    requires SortedKeys(Cmp, ks)
    ensures Sorted(Cmp, SliceList(m, ks)) && MapOf(SliceList(m, ks)) == Restrict(m, ks)
  {
    SliceSorted(m, ks);
    forall k ensures k in MapOf(SliceList(m, ks)) <==> k in m && k in ks { SliceKeys(m, ks, k); }
    forall k | k in MapOf(SliceList(m, ks)) ensures k in m && MapOf(SliceList(m, ks))[k] == m[k] {
      SliceValue(m, ks, k);
    }
  }

  lemma SliceValue(m: map<Bytes, Option<Bytes>>, ks: seq<Bytes>, k: Bytes)
    requires Sorted(Cmp, SliceList(m, ks)) && k in MapOf(SliceList(m, ks))
    ensures k in m && MapOf(SliceList(m, ks))[k] == m[k]
  {
    var ps := SliceList(m, ks);
    CmpIsOrder();
    MapKeys(ps, k);
    var i :| 0 <= i < |ps| && ps[i].key == k;
    MapAt(Cmp, ps, i);
    SliceIn(m, ks, ps[i]);
  }

  /** hstore_slice_to_hstore: the map restricted to the given keys. */
  method Slice(h: HStore, ks: seq<Bytes>) returns (r: Option<HStore>)
    requires WellFormed(h) && SortedKeys(Cmp, ks)
    ensures var s := SliceList(Abs(h), ks); r.None? <==> 8 * |s| + HEADER + |Flat(s)| > MAX_ALLOC
    ensures r.Some? ==> WellFormed(r.value) && Abs(r.value) == Restrict(Abs(h), ks) && Exact(r.value)
  {
    var pairs, bufsiz := SlicePairs(h, ks);
    SliceMap(Abs(h), ks);
    r := Pack(pairs, bufsiz);
    if r.Some? { AbsOf(r.value, pairs); }
  }

  /** The loop, with the running length of the strings. */
  method SlicePairs(h: HStore, ks: seq<Bytes>) returns (pairs: seq<KeyValue>, bufsiz: nat)
    requires WellFormed(h) && SortedKeys(Cmp, ks)
    ensures pairs == SliceList(Abs(h), ks) && bufsiz == |Flat(pairs)|
  {
    ghost var ps := PairsOf(h);
    var low: nat := 0;
    pairs, bufsiz := [], 0;
    for i := 0 to |ks|
      invariant Ready(ps, low, ks, i) && pairs == SliceList(Abs(h), ks[..i]) && bufsiz == |Flat(pairs)|
    {
      var idx;
      idx, low := FindKey(h, ps, low, ks[i]);
      LocatedIff(ps, ks[i], idx, low);
      ReadyNext(ps, ks, i, idx, low);
      assert ks[..i + 1][..i] == ks[..i];
      if idx >= 0 {
        ReadsPair(h, ps, idx);
        Reads(h, ps, idx);
        var p := Pair(ks[i], ValAt(h, idx));
        FlatPush(pairs, p);
        pairs := pairs + [p];
        bufsiz := bufsiz + |ks[i]| + Len(h.entries, 2 * idx + 1);
      }
    }
    assert ks[..|ks|] == ks;
  }
}
