/** The hstore functions on arguments as SQL passes them: text arrays in any order, with nulls and
    repeated keys, and values that may be null. */
module HstoreArgs {
  import opened Machine
  import opened Wrappers
  import opened ByteStrings
  import opened SortedMaps
  import opened HstoreLayout
  import opened HstoreOps
  import opened HstoreSearch
  import opened HstoreIo

  predicate TooMany(keys: seq<Option<Bytes>>) { |keys| > MAX_ALLOC / PAIR_SIZE }

  /** The key list is strictly sorted and holds exactly the keys of the array that are not null. */
  ghost predicate Lists(ks: seq<Bytes>, keys: seq<Option<Bytes>>) {
    SortedKeys(Cmp, ks) && forall k :: k in ks <==> Some(k) in keys
  }

  /** hstoreArrayToPairs */
  method ArrayToKeys(keys: seq<Option<Bytes>>) returns (r: Option<seq<Bytes>>)
    ensures r.None? <==> TooMany(keys)
    ensures r.Some? ==> Lists(r.value, keys)
  {
    if TooMany(keys) { return None; }
    var ps := KeyPairs(keys);
    var u, buflen := SortUnique(ps);
    UniqueLists(keys, ps, u);
    r := Some(KeysOf(u));
  }

  function KeysOf(ps: seq<KeyValue>): (ks: seq<Bytes>)
    ensures |ks| == |ps| && forall i :: 0 <= i < |ps| ==> ks[i] == ps[i].key
  {
    seq(|ps|, i requires 0 <= i < |ps| => ps[i].key)
  }

  /** The pairs that stand for the keys of an array. */
  ghost predicate Stand(ps: seq<KeyValue>, keys: seq<Option<Bytes>>) {
    (forall k :: Pair(k, None) in ps <==> Some(k) in keys) && (forall p :: p in ps ==> p.val.None?)
  }

  /** The loop that skips nulls. */
  method KeyPairs(keys: seq<Option<Bytes>>) returns (ps: seq<KeyValue>)
    ensures Stand(ps, keys)
  {
    ps := [];
    for i := 0 to |keys|
      invariant Stand(ps, keys[..i])
    {
      if keys[i].Some? { ps := ps + [Pair(keys[i].value, None)]; }
    }
    assert keys[..|keys|] == keys;
  }

  lemma UniqueLists(keys: seq<Option<Bytes>>, ps: seq<KeyValue>, u: seq<KeyValue>)
    requires Stand(ps, keys) && Sorted(Cmp, u) && SameKeys(ps, u)
    ensures Lists(KeysOf(u), keys)
  {
    var ks := KeysOf(u);
    forall k | k in ks ensures Some(k) in keys {
      var i :| 0 <= i < |ks| && ks[i] == k;
      assert u[i] in u && u[i] == Pair(k, None);
    }
    forall k | Some(k) in keys ensures k in ks {
      assert Pair(k, None) in ps;
      var i :| 0 <= i < |u| && u[i].key == k;
      assert ks[i] == k;
    }
  }

  /** hstore_exists_any */
  method AnyKey(h: HStore, keys: seq<Option<Bytes>>) returns (r: Option<bool>)
    requires WellFormed(h)
    ensures r.None? <==> TooMany(keys)
    ensures r.Some? ==> (r.value <==> exists k :: k in Abs(h) && Some(k) in keys)
  {
    var ks := ArrayToKeys(keys);
    if ks.None? { return None; }
    var res := ExistsAny(h, ks.value);
    r := Some(res);
    if res {
      ghost var i :| 0 <= i < |ks.value| && ks.value[i] in Abs(h);
      assert ks.value[i] in ks.value;
    }
  }

  /** hstore_exists_all */
  method AllKeys(h: HStore, keys: seq<Option<Bytes>>) returns (r: Option<bool>)
    requires WellFormed(h)
    ensures r.None? <==> TooMany(keys)
    ensures r.Some? ==> (r.value <==> forall k :: Some(k) in keys ==> k in Abs(h))
  {
    var ks := ArrayToKeys(keys);
    if ks.None? { return None; }
    var res := ExistsAll(h, ks.value);
    r := Some(res);
    if res {
      forall k | Some(k) in keys ensures k in Abs(h) { assert k in ks.value; }
    } else {
      ghost var i :| 0 <= i < |ks.value| && ks.value[i] !in Abs(h);
      assert ks.value[i] in ks.value;
    }
  }

  /** hstore_delete_array */
  method DeleteArray(h: HStore, keys: seq<Option<Bytes>>) returns (r: Option<HStore>)
    requires WellFormed(h)
    ensures r.None? <==> TooMany(keys)
    ensures r.Some? ==> WellFormed(r.value) && Exact(r.value)
    ensures r.Some? ==> Abs(r.value) == map k | k in Abs(h) && Some(k) !in keys :: Abs(h)[k]
  {
    var ks := ArrayToKeys(keys);
    if ks.None? { return None; }
    var out := DeleteKeys(h, ks.value);
    forall k ensures k in KeySet(ks.value) <==> Some(k) in keys { KeySetHas(ks.value, k); }
    assert Abs(out) == map k | k in Abs(h) && Some(k) !in keys :: Abs(h)[k];
    r := Some(out);
  }

  /** hstore_slice_to_hstore; the result can also be too large to pack. */
  method SliceArray(h: HStore, keys: seq<Option<Bytes>>) returns (r: Option<HStore>, ghost ks: seq<Bytes>)
    requires WellFormed(h)
    ensures TooMany(keys) ==> r.None?
    ensures !TooMany(keys) ==> Lists(ks, keys)
    ensures !TooMany(keys) ==>
              var s := SliceList(Abs(h), ks); r.None? <==> 8 * |s| + HEADER + |Flat(s)| > MAX_ALLOC
    ensures r.Some? ==> WellFormed(r.value) && Exact(r.value)
    ensures r.Some? ==> Abs(r.value) == map k | k in Abs(h) && Some(k) in keys :: Abs(h)[k]
  {
    ks := [];
    var list := ArrayToKeys(keys);
    if list.None? { return None, []; }
    ks := list.value;
    r := Slice(h, list.value);
    if r.Some? {
      assert Restrict(Abs(h), ks) == map k | k in Abs(h) && Some(k) in keys :: Abs(h)[k];
    }
  }

  // ----- subscript assignment -----

  datatype Assigned = Stored(h: HStore) | NullSubscript | NoMemory

  /** Size of the allocation: a null hstore gives way to a value of one pair. */
  function NewSize(h: Option<HStore>, p: KeyValue): nat {
    if h.None? then 8 + HEADER + |p.key| + |ValBytes(p)| else AssignSize(h.value, p)
  }

  /** hstore_subscript_assign */
  method AssignTo(h: Option<HStore>, key: Option<Bytes>, val: Option<Bytes>) returns (r: Assigned)
    requires h.Some? ==> WellFormed(h.value)
    ensures r.NullSubscript? <==> key.None?
    ensures key.Some? ==> (r.NoMemory? <==> NewSize(h, Pair(key.value, val)) > MAX_ALLOC)
    ensures r.Stored? ==> WellFormed(r.h) && Exact(r.h)
    ensures r.Stored? ==> Abs(r.h) == (if h.None? then map[] else Abs(h.value))[key.value := val]
  {
    if key.None? { return NullSubscript; }
    var out;
    if h.None? {
      var p := Pair(key.value, val);
      OnePair(p);
      out := Pack([p], |p.key| + |ValBytes(p)|);
      if out.Some? { AbsOf(out.value, [p]); }
    } else {
      out := Assign(h.value, key.value, val);
    }
    r := if out.None? then NoMemory else Stored(out.value);
  }
}
