/** Signature keys of the hstore GiST index: hash bits of keys and values, united on the way up. */
module HstoreGist {
  import opened Wrappers
  import opened ByteStrings
  import opened SortedMaps
  import opened HstoreLayout
  import opened HstoreOps
  import opened HstoreSearch
  import opened GistTree

  /** ALLISTRUE, or one boolean per bit of the signature. */
  datatype Key = AllTrue | Bits(sign: seq<bool>)

  type Map = map<Bytes, Option<Bytes>>

  /** Hash function and signature length in bits. */
  datatype Hash = Hash(crc: Bytes -> nat, bits: nat)

  /** HASHVAL of a string. */
  function BitOf(h: Hash, s: Bytes): (b: nat)
    requires h.bits > 0
    ensures b < h.bits
  {
    h.crc(s) % h.bits
  }

  lemma BitIsHash(h: Hash, s: Bytes)
    requires h.bits > 0
    ensures BitOf(h, s) == h.crc(s) % h.bits
  {
  }

  predicate Has(h: Hash, sign: seq<bool>, s: Bytes)
    requires h.bits > 0
  {
    |sign| == h.bits && sign[BitOf(h, s)]
  }

  predicate HasPair(h: Hash, sign: seq<bool>, k: Bytes, v: Option<Bytes>)
    requires h.bits > 0
  {
    Has(h, sign, k) && (v.Some? ==> Has(h, sign, v.value))
  }

  /** A key stands for the maps whose keys and values all have their bits set. */
  ghost predicate Admits(h: Hash, key: Key, m: Map)
    requires h.bits > 0
  {
    key.AllTrue? || (|key.sign| == h.bits && forall k :: k in m ==> HasPair(h, key.sign, k, m[k]))
  }

  ghost predicate Below(a: seq<bool>, b: seq<bool>) { |a| == |b| && forall i :: 0 <= i < |a| && a[i] ==> b[i] }

  lemma AdmitsMore(h: Hash, a: seq<bool>, b: seq<bool>, m: Map)
    requires h.bits > 0 && Admits(h, Bits(a), m) && Below(a, b)
    ensures Admits(h, Bits(b), m)
  {
    forall k | k in m ensures HasPair(h, b, k, m[k]) { assert HasPair(h, a, k, m[k]); }
  }

  // ----- compression -----

  method SetBit(h: Hash, sign: array<bool>, s: Bytes)
    requires h.bits > 0 && sign.Length == h.bits
    modifies sign
    ensures Below(old(sign[..]), sign[..]) && Has(h, sign[..], s)
    ensures forall b :: 0 <= b < sign.Length && sign[b] ==> old(sign[b]) || b == BitOf(h, s)
  {
    sign[BitOf(h, s)] := true;
  }

  lemma HasStays(h: Hash, a: seq<bool>, b: seq<bool>, ps: seq<KeyValue>, n: nat)
    requires h.bits > 0 && Below(a, b) && n <= |ps| && forall k :: 0 <= k < n ==> HasPair(h, a, ps[k].key, ps[k].val)
    ensures forall k :: 0 <= k < n ==> HasPair(h, b, ps[k].key, ps[k].val)
  {
  }

  /** Bit b is that of the key or the value of the pair. */
  predicate Lights(h: Hash, p: KeyValue, b: nat)
    requires h.bits > 0
  {
    b == BitOf(h, p.key) || (p.val.Some? && b == BitOf(h, p.val.value))
  }

  /** Every bit of the signature is that of one of the first n pairs. */
  ghost predicate OnlyFrom(h: Hash, sign: seq<bool>, ps: seq<KeyValue>, n: nat)
    requires h.bits > 0 && n <= |ps|
  {
    forall b :: 0 <= b < |sign| && sign[b] ==> exists k :: 0 <= k < n && Lights(h, ps[k], b)
  }

  lemma OnlyFromNext(h: Hash, was: seq<bool>, sign: seq<bool>, ps: seq<KeyValue>, n: nat)
    requires h.bits > 0 && n < |ps| && |was| == |sign| && OnlyFrom(h, was, ps, n)
    requires forall b :: 0 <= b < |sign| && sign[b] ==> was[b] || Lights(h, ps[n], b)
    ensures OnlyFrom(h, sign, ps, n + 1)
  {
    forall b | 0 <= b < |sign| && sign[b] ensures exists k :: 0 <= k < n + 1 && Lights(h, ps[k], b) {
      if was[b] {
        var k :| 0 <= k < n && Lights(h, ps[k], b);
      } else {
        assert Lights(h, ps[n], b);
      }
    }
  }

  /** The signature has exactly the bits of the keys and values of the map. */
  ghost predicate Signs(h: Hash, sign: seq<bool>, m: Map)
    requires h.bits > 0
  {
    |sign| == h.bits && forall b :: 0 <= b < h.bits ==> (sign[b] <==> LitBy(h, m, b))
  }

  ghost predicate LitBy(h: Hash, m: Map, b: nat)
    requires h.bits > 0
  {
    exists k :: k in m && Lights(h, Pair(k, m[k]), b)
  }

  lemma SetIsLit(h: Hash, sign: seq<bool>, ps: seq<KeyValue>, b: nat)
    requires h.bits > 0 && Sorted(Cmp, ps) && OnlyFrom(h, sign, ps, |ps|) && b < |sign| && sign[b]
    ensures LitBy(h, MapOf(ps), b)
  {
    CmpIsOrder();
    var i :| 0 <= i < |ps| && Lights(h, ps[i], b);
    MapAt(Cmp, ps, i);
    assert ps[i] == Pair(ps[i].key, MapOf(ps)[ps[i].key]);
  }

  lemma LitIsSet(h: Hash, sign: seq<bool>, m: Map, b: nat)
    requires h.bits > 0 && Admits(h, Bits(sign), m) && LitBy(h, m, b)
    ensures b < |sign| && sign[b]
  {
    var k :| k in m && Lights(h, Pair(k, m[k]), b);
    assert HasPair(h, sign, k, m[k]);
  }

  lemma SignsPairs(h: Hash, sign: seq<bool>, ps: seq<KeyValue>)
    requires h.bits > 0 && |sign| == h.bits && Sorted(Cmp, ps) && OnlyFrom(h, sign, ps, |ps|)
    requires Admits(h, Bits(sign), MapOf(ps))
    ensures Signs(h, sign, MapOf(ps))
  {
    forall b | 0 <= b < h.bits ensures sign[b] <==> LitBy(h, MapOf(ps), b) {
      if sign[b] { SetIsLit(h, sign, ps, b); }
      if LitBy(h, MapOf(ps), b) { LitIsSet(h, sign, MapOf(ps), b); }
    }
  }

  /** The signature has exactly the bits of the first n pairs. */
  ghost predicate Signed(h: Hash, sign: seq<bool>, ps: seq<KeyValue>, n: nat)
    requires h.bits > 0 && n <= |ps|
  {
    && |sign| == h.bits && OnlyFrom(h, sign, ps, n)
    && forall k :: 0 <= k < n ==> HasPair(h, sign, ps[k].key, ps[k].val)
  }

  lemma SignedNext(h: Hash, was: seq<bool>, sign: seq<bool>, ps: seq<KeyValue>, n: nat)
    requires h.bits > 0 && n < |ps| && Signed(h, was, ps, n) && Below(was, sign)
    requires HasPair(h, sign, ps[n].key, ps[n].val)
    requires forall b :: 0 <= b < |sign| && sign[b] ==> was[b] || Lights(h, ps[n], b)
    ensures Signed(h, sign, ps, n + 1)
  {
    HasStays(h, was, sign, ps, n);
    OnlyFromNext(h, was, sign, ps, n);
  }

  /** ghstore_compress of a leaf entry. */
  method CompressLeaf(h: Hash, val: HStore) returns (key: Key)
    requires h.bits > 0 && WellFormed(val)
    ensures key.Bits? && Admits(h, key, Abs(val)) && Signs(h, key.sign, Abs(val))
  {
    ghost var ps := PairsOf(val);
    CountOf(val, ps);
    var sign := new bool[h.bits](_ => false);
    for i := 0 to Count(val)
      invariant Signed(h, sign[..], ps, i)
    {
      ghost var was := sign[..];
      ReadsPair(val, ps, i);
      SetPair(h, sign, KeyAt(val, i), ValAt(val, i));
      assert Pair(KeyAt(val, i), ValAt(val, i)) == ps[i];
      SignedNext(h, was, sign[..], ps, i);
    }
    key := Bits(sign[..]);
    AdmitsPairs(h, sign[..], ps);
    SignsPairs(h, sign[..], ps);
  }

  /** The bits of one key and, unless it is null, its value. */
  method SetPair(h: Hash, sign: array<bool>, k: Bytes, v: Option<Bytes>)
    requires h.bits > 0 && sign.Length == h.bits
    modifies sign
    ensures Below(old(sign[..]), sign[..]) && HasPair(h, sign[..], k, v)
    ensures forall b :: 0 <= b < sign.Length && sign[b] ==> old(sign[b]) || Lights(h, Pair(k, v), b)
  {
    SetBit(h, sign, k);
    if v.Some? { SetBit(h, sign, v.value); }
  }

  lemma AdmitsPairs(h: Hash, sign: seq<bool>, ps: seq<KeyValue>)
    requires h.bits > 0 && |sign| == h.bits && Sorted(Cmp, ps)
    requires forall k :: 0 <= k < |ps| ==> HasPair(h, sign, ps[k].key, ps[k].val)
    ensures Admits(h, Bits(sign), MapOf(ps))
  {
    CmpIsOrder();
    forall k | k in MapOf(ps) ensures HasPair(h, sign, k, MapOf(ps)[k]) {
      MapKeys(ps, k);
      var i :| 0 <= i < |ps| && ps[i].key == k;
      MapAt(Cmp, ps, i);
    }
  }

  /** ghstore_compress of an inner entry: a full signature becomes ALLISTRUE. */
  method CompressInner(h: Hash, key: Key) returns (r: Key)
    requires h.bits > 0 && (key.Bits? ==> |key.sign| == h.bits)
    ensures r == key || r.AllTrue?
    ensures r.AllTrue? <==> key.AllTrue? || forall i :: 0 <= i < |key.sign| ==> key.sign[i]
    ensures forall m :: Admits(h, key, m) ==> Admits(h, r, m)
  {
    if key.AllTrue? { return key; }
    for i := 0 to |key.sign|
      invariant forall k :: 0 <= k < i ==> key.sign[k]
    {
      if !key.sign[i] { return key; }
    }
    r := AllTrue;
  }

  // ----- union -----

  /** unionkey: true when the added key is ALLISTRUE, else its bits are or-ed into the base. */
  method UnionKey(h: Hash, base: array<bool>, add: Key) returns (all: bool)
    requires base.Length == h.bits && (add.Bits? ==> |add.sign| == h.bits)
    modifies base
    ensures all <==> add.AllTrue?
    ensures Below(old(base[..]), base[..]) && (!all ==> Below(add.sign, base[..]))
    ensures !all ==> forall i :: 0 <= i < base.Length && base[i] ==> old(base[i]) || add.sign[i]
  {
    if add.AllTrue? { return true; }
    for i := 0 to base.Length
      invariant forall k :: 0 <= k < i ==> base[k] == (old(base[k]) || add.sign[k])
      invariant forall k :: i <= k < base.Length ==> base[k] == old(base[k])
    {
      base[i] := base[i] || add.sign[i];
    }
    all := false;
  }

  /** Some key has the bit set. */
  ghost predicate SomeBit(keys: seq<Key>, b: nat) {
    exists i :: 0 <= i < |keys| && keys[i].Bits? && b < |keys[i].sign| && keys[i].sign[b]
  }

  /** ghstore_union stands for whatever one of its keys stands for, and has no bit of its own. */
  method Union(h: Hash, keys: seq<Key>) returns (r: Key)
    requires h.bits > 0 && forall i :: 0 <= i < |keys| && keys[i].Bits? ==> |keys[i].sign| == h.bits
    ensures r.Bits? ==> |r.sign| == h.bits
    ensures forall i, m :: 0 <= i < |keys| && Admits(h, keys[i], m) ==> Admits(h, r, m)
    ensures r.AllTrue? <==> exists i :: 0 <= i < |keys| && keys[i].AllTrue?
    ensures r.Bits? ==> forall b :: 0 <= b < h.bits ==> (r.sign[b] <==> SomeBit(keys, b))
  {
    var base := new bool[h.bits](_ => false);
    for i := 0 to |keys|
      invariant forall k :: 0 <= k < i ==> keys[k].Bits? && Below(keys[k].sign, base[..])
      invariant forall b :: 0 <= b < base.Length && base[b] ==> SomeBit(keys, b)
    {
      var all := UnionKey(h, base, keys[i]);
      if all { return AllTrue; }
      assert forall b :: 0 <= b < base.Length && keys[i].sign[b] ==> SomeBit(keys, b);
    }
    r := Bits(base[..]);
    forall i, m | 0 <= i < |keys| && Admits(h, keys[i], m) ensures Admits(h, r, m) {
      AdmitsMore(h, keys[i].sign, base[..], m);
    }
    forall b | 0 <= b < h.bits && SomeBit(keys, b) ensures r.sign[b] {
      var i :| 0 <= i < |keys| && keys[i].Bits? && b < |keys[i].sign| && keys[i].sign[b];
      assert Below(keys[i].sign, base[..]);
    }
  }

  // ----- search -----

  datatype Query = Contains(tmpl: Map) | Exists(key: Bytes) | ExistsAll(keys: seq<Bytes>) | ExistsAny(keys: seq<Bytes>)

  /** The exact operators. */
  ghost predicate Holds(q: Query, m: Map) {
    match q
    case Contains(tmpl) => SubMap(tmpl, m)
    case Exists(key) => key in m
    case ExistsAll(keys) => forall i :: 0 <= i < |keys| ==> keys[i] in m
    case ExistsAny(keys) => exists i :: 0 <= i < |keys| && keys[i] in m
  }

  /** ghstore_consistent */
  ghost predicate Consistent(h: Hash, key: Key, q: Query)
    requires h.bits > 0
  {
    key.AllTrue? ||
    match q
    case Contains(tmpl) => forall k :: k in tmpl ==> HasPair(h, key.sign, k, tmpl[k])
    case Exists(k) => Has(h, key.sign, k)
    case ExistsAll(keys) => forall i :: 0 <= i < |keys| ==> Has(h, key.sign, keys[i])
    case ExistsAny(keys) => exists i :: 0 <= i < |keys| && Has(h, key.sign, keys[i])
  }

  /** A key is never rejected when a map it stands for satisfies the query. */
  lemma AdmittedIsConsistent(h: Hash, key: Key, m: Map, q: Query)
    requires h.bits > 0 && Admits(h, key, m) && Holds(q, m)
    ensures Consistent(h, key, q)
  {
    if key.Bits? {
      if q.Contains? {
        forall k | k in q.tmpl ensures HasPair(h, key.sign, k, q.tmpl[k]) { assert HasPair(h, key.sign, k, m[k]); }
      } else if q.Exists? {
        assert HasPair(h, key.sign, q.key, m[q.key]);
      } else if q.ExistsAll? {
        forall i | 0 <= i < |q.keys| ensures Has(h, key.sign, q.keys[i]) {
          assert HasPair(h, key.sign, q.keys[i], m[q.keys[i]]);
        }
      } else {
        var i :| 0 <= i < |q.keys| && q.keys[i] in m;
        assert HasPair(h, key.sign, q.keys[i], m[q.keys[i]]);
      }
    }
  }

  /** Nor is it followed without need: unless it is ALLISTRUE, it stands for a map that satisfies the
      query. */
  lemma ConsistentIff(h: Hash, key: Key, q: Query)
    requires h.bits > 0 && Sized(h, key)
    ensures Consistent(h, key, q) <==> key.AllTrue? || exists m :: Admits(h, key, m) && Holds(q, m)
  {
    if m :| Admits(h, key, m) && Holds(q, m) { AdmittedIsConsistent(h, key, m, q); }
    if key.Bits? && Consistent(h, key, q) {
      var m: Map := Wanted(h, key, q);
      assert Admits(h, key, m) && Holds(q, m);
    }
  }

  /** The least map that satisfies a query the key is consistent with. */
  ghost function Wanted(h: Hash, key: Key, q: Query): (m: Map)
    requires h.bits > 0 && key.Bits? && Sized(h, key) && Consistent(h, key, q)
    ensures Admits(h, key, m) && Holds(q, m)
  {
    match q
    case Contains(tmpl) => tmpl
    case Exists(k) => map[k := None]
    case ExistsAll(keys) => map k | k in keys :: None
    case ExistsAny(keys) =>
      var i :| 0 <= i < |keys| && Has(h, key.sign, keys[i]);
      map[keys[i] := None]
  }

  /** The loop of ghstore_consistent for the contains strategies. */
  method ConsistentContains(h: Hash, key: Key, query: HStore) returns (res: bool)
    requires h.bits > 0 && WellFormed(query)
    ensures res <==> Consistent(h, key, Contains(Abs(query)))
  {
    if key.AllTrue? { return true; }
    ghost var ps := PairsOf(query);
    CountOf(query, ps);
    PairsTested(h, key.sign, ps);
    for i := 0 to Count(query)
      invariant forall k :: 0 <= k < i ==> HasPair(h, key.sign, ps[k].key, ps[k].val)
    {
      ReadsPair(query, ps, i);
      if !Has(h, key.sign, KeyAt(query, i)) { return false; }
      if !query.entries[2 * i + 1].isNull && !Has(h, key.sign, ValAt(query, i).value) { return false; }
    }
    res := true;
  }

  lemma PairsTested(h: Hash, sign: seq<bool>, ps: seq<KeyValue>)
    requires h.bits > 0 && Sorted(Cmp, ps)
    ensures Consistent(h, Bits(sign), Contains(MapOf(ps))) <==> forall k :: 0 <= k < |ps| ==>
        HasPair(h, sign, ps[k].key, ps[k].val)
  {
    CmpIsOrder();
    if Consistent(h, Bits(sign), Contains(MapOf(ps))) {
      forall k | 0 <= k < |ps| ensures HasPair(h, sign, ps[k].key, ps[k].val) { MapAt(Cmp, ps, k); }
    }
    if forall k :: 0 <= k < |ps| ==> HasPair(h, sign, ps[k].key, ps[k].val) {
      forall k | k in MapOf(ps) ensures HasPair(h, sign, k, MapOf(ps)[k]) {
        MapKeys(ps, k);
        var i :| 0 <= i < |ps| && ps[i].key == k;
        MapAt(Cmp, ps, i);
      }
    }
  }

  // ----- trees -----

  /** Every key stands for what the nodes just below it stand for; leaf entries are inner nodes
      over one map. */
  ghost predicate Built(t: Tree<Key, Map>, h: Hash)
    requires h.bits > 0
  {
    t.Inner? ==> forall c :: c in t.children ==> Built(c, h) && Includes(h, t.key, c)
  }

  ghost predicate Includes(h: Hash, key: Key, c: Tree<Key, Map>)
    requires h.bits > 0
  {
    (c.Data? ==> Admits(h, key, c.v)) && (c.Inner? ==> forall m :: Admits(h, c.key, m) ==> Admits(h, key, m))
  }

  /** A leaf entry, from the value it is made of. */
  method GrowLeaf(h: Hash, val: HStore) returns (key: Key, ghost t: Tree<Key, Map>)
    requires h.bits > 0 && WellFormed(val)
    ensures t == Inner(key, [Data(Abs(val))]) && Built(t, h) && Sized(h, key)
  {
    key := CompressLeaf(h, val);
    t := Inner(key, [Data(Abs(val))]);
  }

  predicate Sized(h: Hash, key: Key) { key.Bits? ==> |key.sign| == h.bits }

  /** A new inner entry over given children: union, then compression. */
  method GrowNode(h: Hash, keys: seq<Key>, ghost children: seq<Tree<Key, Map>>)
      returns (key: Key, ghost t: Tree<Key, Map>)
    requires h.bits > 0 && |keys| == |children|
    requires forall i :: 0 <= i < |keys| ==>
               Sized(h, keys[i]) && children[i].Inner? && children[i].key == keys[i] && Built(children[i], h)
    ensures t == Inner(key, children) && Built(t, h) && Sized(h, key)
    ensures key.AllTrue? <==>
              (exists i :: 0 <= i < |keys| && keys[i].AllTrue?) || forall b :: 0 <= b < h.bits ==> SomeBit(keys, b)
  {
    var union := Union(h, keys);
    key := CompressInner(h, union);
    t := Inner(key, children);
  }

  lemma {:induction false} BuiltGrown(t: Tree<Key, Map>, h: Hash, admits: (Key, Map) -> bool)
    requires h.bits > 0 && Built(t, h) && forall k, m :: admits(k, m) == Admits(h, k, m)
    ensures Grown(t, admits)
    decreases t
  {
    if t.Inner? {
      forall c | c in t.children ensures Grown(c, admits) && forall m :: Stands(c, admits, m) ==> admits(t.key, m) {
        BuiltGrown(c, h, admits);
      }
    }
  }

  /** An index search with recheck returns exactly what a scan of all values returns. */
  lemma SearchFindsAll(t: Tree<Key, Map>, h: Hash, q: Query, admits: (Key, Map) -> bool, consistent: Key -> bool,
      holds: Map -> bool)
    requires h.bits > 0 && Built(t, h)
    requires forall k, m :: admits(k, m) == Admits(h, k, m)
    requires forall k :: consistent(k) == Consistent(h, k, q)
    requires forall m :: holds(m) == Holds(q, m)
    ensures Search(t, consistent, holds) == Scan(t, holds)
  {
    BuiltGrown(t, h, admits);
    forall k, m | admits(k, m) && holds(m) ensures consistent(k) { AdmittedIsConsistent(h, k, m, q); }
    SearchIsScan(t, admits, consistent, holds);
  }
}
