/** Operations on packed hstore values that merge one or two values into a new one. */
module HstoreOps {
  import opened Machine
  import opened Wrappers
  import opened ByteStrings
  import opened SortedMaps
  import opened HstoreLayout

  lemma FlatPush(ps: seq<KeyValue>, p: KeyValue)
    ensures Flat(ps + [p]) == Flat(ps) + (p.key + ValBytes(p))
    ensures |Flat(ps + [p])| == |Flat(ps)| + |p.key| + |ValBytes(p)|
  {
    assert (ps + [p])[..|ps|] == ps;
  }

  lemma EndsPush(ps: seq<KeyValue>, p: KeyValue)
    ensures KeyEnd(ps + [p], |ps|) == |Flat(ps)| + |p.key|
    ensures ValEnd(ps + [p], |ps|) == |Flat(ps)| + |p.key| + |ValBytes(p)|
  {
    assert (ps + [p])[..|ps|] == ps;
  }

  lemma EntriesPush(ps: seq<KeyValue>, p: KeyValue)
    ensures Entries(ps + [p], false) == Entries(ps, false) +
        [KeyEntry(false, KeyEnd(ps + [p], |ps|)), ValEntry(p, ValEnd(ps + [p], |ps|))]
  {
    assert (ps + [p])[..|ps|] == ps;
  }

  lemma PushFacts(ps: seq<KeyValue>, p: KeyValue, key: Entry, val: Entry)
    requires key == KeyEntry(false, |Flat(ps)| + |p.key|) && val == ValEntry(p, |Flat(ps + [p])|)
    ensures Entries(ps + [p], false) == Entries(ps, false) + [key, val]
  {
    FlatPush(ps, p);
    EndsPush(ps, p);
    EntriesPush(ps, p);
  }

  lemma PushTwo<T>(a: seq<T>, was: seq<T>, x: T, y: T)
    requires |was| + 2 <= |a| && was == a[..|was|] && a[|was|] == x && a[|was| + 1] == y
    ensures a[..|was| + 2] == was + [x, y]
  {
  }

  /** An hstore under construction: entry array, string buffer and the two write positions. */
  class Builder {
    const ents: array<Entry>
    const buf: array<byte>
    var n: nat
    var ptr: nat
    /** The pairs written so far. */
    ghost var done: seq<KeyValue>

    ghost predicate Valid()
      reads this, ents, buf
    {
      && n == 2 * |done| <= ents.Length && ptr == |Flat(done)| <= buf.Length
      && ents[..n] == Entries(done, false) && buf[..ptr] == Flat(done)
    }

    constructor (count: nat, buflen: nat)
      ensures Valid() && done == [] && fresh(ents) && fresh(buf) && ents.Length == 2 * count && buf.Length == buflen
    {
      ents := new Entry[2 * count](_ => Entry(false, false, 0));
      buf := new byte[buflen](_ => 0);
      n, ptr, done := 0, 0, [];
    }

    /** memcpy to the current position. */
    method Write(src: Bytes)
      requires Valid() && ptr + |src| <= buf.Length
      modifies this`ptr, buf
      ensures ptr == old(ptr) + |src| && buf[..ptr] == old(buf[..ptr]) + src
    {
      forall i | 0 <= i < |src| { buf[ptr + i] := src[i]; }
      ptr := ptr + |src|;
    }

    method PushEntries(key: Entry, val: Entry, ghost p: KeyValue)
      requires n == 2 * |done| && n + 2 <= ents.Length && ents[..n] == Entries(done, false)
      requires ptr == |Flat(done + [p])| <= buf.Length && buf[..ptr] == Flat(done + [p])
      requires key == KeyEntry(false, |Flat(done)| + |p.key|) && val == ValEntry(p, ptr)
      modifies this`n, this`done, ents
      ensures Valid() && done == old(done) + [p]
    {
      ghost var was := ents[..n];
      PushFacts(done, p, key, val);
      ents[n], ents[n + 1] := key, val;
      PushTwo(ents[..], was, key, val);
      n := n + 2;
      done := done + [p];
    }

    /** HS_COPYITEM: one pair, contiguous in the source buffer. */
    method CopyItem(src: Bytes, at: nat, klen: nat, vlen: nat, isNull: bool, ghost p: KeyValue)
      requires Valid() && n + 2 <= ents.Length && ptr + klen + vlen <= buf.Length
      requires at + klen + vlen <= |src| && src[at..at + klen + vlen] == p.key + ValBytes(p)
      requires klen == |p.key| && vlen == |ValBytes(p)| && isNull == p.val.None?
      modifies this, ents, buf
      ensures Valid() && done == old(done) + [p]
    {
      FlatPush(done, p);
      Write(src[at..at + klen + vlen]);
      PushEntries(Entry(false, false, Mask(ptr - vlen)), Entry(false, isNull, Mask(ptr)), p);
    }

    /** HS_ADDITEM: one pair given by its strings. */
    method AddItem(p: KeyValue)
      requires Valid() && n + 2 <= ents.Length && ptr + |p.key| + |ValBytes(p)| <= buf.Length
      modifies this, ents, buf
      ensures Valid() && done == old(done) + [p]
    {
      FlatPush(done, p);
      ghost var was := buf[..ptr];
      Write(p.key + ValBytes(p));
      PushEntries(Entry(false, false, Mask(ptr - |ValBytes(p)|)), Entry(false, p.val.None?, Mask(ptr)), p);
    }

    /** HS_FINALIZE: mark the first entry, cut both areas to what was written. */
    method Finalize() returns (h: HStore)
      requires Valid() && |Flat(done)| <= POSMASK
      modifies ents
      ensures Encodes(h, done) && |h.buf| == |Flat(done)|
    {
      if n > 0 {
        MarkFirst(done);
        ents[0] := ents[0].(first := true);
      }
      h := HStore(ents[..n], buf[..ptr]);
    }
  }

  /** Copies pair i of a packed value. */
  method CopyFrom(b: Builder, h: HStore, ghost ps: seq<KeyValue>, i: nat)
    requires b.Valid() && Encodes(h, ps) && i < |ps|
    requires b.n + 2 <= b.ents.Length && b.ptr + |ps[i].key| + |ValBytes(ps[i])| <= b.buf.Length
    modifies b, b.ents, b.buf
    ensures b.Valid() && b.done == old(b.done) + [ps[i]]
  {
    Reads(h, ps, i);
    b.CopyItem(h.buf, Off(h.entries, 2 * i), Len(h.entries, 2 * i), Len(h.entries, 2 * i + 1),
        h.entries[2 * i + 1].isNull, ps[i]);
  }

  lemma Snoc<T>(x: seq<T>, p: T, y: seq<T>)
    ensures (x + [p]) + y == x + ([p] + y)
  {
  }

  lemma StartMax(ps: seq<KeyValue>, i: nat)
    requires i <= |ps|
    ensures Start(ps, i) <= |Flat(ps)|
  {
    if i < |ps| { FlatSplit(ps, i); } else { assert ps[..i] == ps; }
  }

  // ----- concatenation -----

  /** Progress of a merge: what is written, plus the merge of what is left, is the whole merge. */
  ghost predicate Merging(done: seq<KeyValue>, a: seq<KeyValue>, b: seq<KeyValue>, i: nat, j: nat) {
    && i <= |a| && j <= |b| && |done| <= i + j && |Flat(done)| <= Start(a, i) + Start(b, j) <= |Flat(a)| + |Flat(b)|
    && done + Merge(Cmp, a[i..], b[j..]) == Merge(Cmp, a, b)
  }

  lemma MergeTakesSecond(done: seq<KeyValue>, a: seq<KeyValue>, b: seq<KeyValue>, i: nat, j: nat, i': nat)
    requires Merging(done, a, b, i, j) && j < |b| && i <= i' <= i + 1 && i' <= |a|
    requires Merge(Cmp, a[i..], b[j..]) == [b[j]] + Merge(Cmp, a[i'..], b[j + 1..])
    ensures Merging(done + [b[j]], a, b, i', j + 1)
  {
    Snoc(done, b[j], Merge(Cmp, a[i'..], b[j + 1..]));
    FlatPush(done, b[j]);
    FlatSplit(b, j);
    if i < i' { FlatSplit(a, i); }
    StartMax(a, i');
  }

  lemma MergeTakesFirst(done: seq<KeyValue>, a: seq<KeyValue>, b: seq<KeyValue>, i: nat, j: nat)
    requires Merging(done, a, b, i, j) && i < |a|
    requires Merge(Cmp, a[i..], b[j..]) == [a[i]] + Merge(Cmp, a[i + 1..], b[j..])
    ensures Merging(done + [a[i]], a, b, i + 1, j)
  {
    Snoc(done, a[i], Merge(Cmp, a[i + 1..], b[j..]));
    FlatPush(done, a[i]);
    FlatSplit(a, i);
    StartMax(b, j);
  }

  lemma MergeStarts(a: seq<KeyValue>, b: seq<KeyValue>)
    ensures Merging([], a, b, 0, 0)
  {
    assert a[..0] == [] && b[..0] == [];
    Whole(a);
    Whole(b);
    Empty(Merge(Cmp, a, b));
  }

  lemma MergeEnds(done: seq<KeyValue>, a: seq<KeyValue>, b: seq<KeyValue>, i: nat, j: nat)
    requires Merging(done, a, b, i, j) && i >= |a| && j >= |b|
    ensures done == Merge(Cmp, a, b) && |Flat(done)| <= |Flat(a)| + |Flat(b)|
  {
    Whole(a);
    Whole(b);
    Empty(done);
    assert Merge<Bytes, Option<Bytes>>(Cmp, [], []) == [];
  }

  lemma Whole<T>(x: seq<T>)
    ensures x[0..] == x && x[|x|..] == []
  {
  }

  lemma Empty<T>(x: seq<T>)
    ensures x + [] == x && [] + x == x
  {
  }

  /** HSTORE_KEY comparison of pair i of one value with pair j of another. */
  method Difference(h1: HStore, h2: HStore, ghost a: seq<KeyValue>, ghost b: seq<KeyValue>, i: nat, j: nat)
      returns (d: int)
    requires Encodes(h1, a) && Encodes(h2, b) && i < |a| && j < |b|
    ensures d == Cmp(a[i].key, b[j].key)
  {
    ReadsPair(h1, a, i);
    ReadsPair(h2, b, j);
    d := Cmp(KeyAt(h1, i), KeyAt(h2, j));
  }

  ghost predicate Roomy(bd: Builder, count: nat, buflen: nat) { bd.ents.Length == 2 * count && buflen <= bd.buf.Length }

  function Count(h: HStore): nat { |h.entries| / 2 }

  lemma CountOf(h: HStore, ps: seq<KeyValue>)
    requires Encodes(h, ps)
    ensures Count(h) == |ps| && |Flat(ps)| <= |h.buf|
  {
  }

  /** One round of the loop of hstore_concat. */
  method MergeRound(bd: Builder, h1: HStore, h2: HStore, ghost a: seq<KeyValue>, ghost b: seq<KeyValue>, i: nat, j: nat)
      returns (i': nat, j': nat)
    requires bd.Valid() && Roomy(bd, |a| + |b|, |Flat(a)| + |Flat(b)|)
    requires Merging(bd.done, a, b, i, j) && Encodes(h1, a) && Encodes(h2, b) && (i < |a| || j < |b|)
    modifies bd, bd.ents, bd.buf
    ensures bd.Valid() && Merging(bd.done, a, b, i', j') && i' + j' > i + j
  {
    var d := 0;
    if i >= Count(h1) { d := 1; } else if j >= Count(h2) { d := -1; } else { d := Difference(h1, h2, a, b, i, j); }
    MergeStep(Cmp, a, b, i, j, d);
    i', j' := if d <= 0 then i + 1 else i, if d >= 0 then j + 1 else j;
    if d >= 0 {
      MergeTakesSecond(bd.done, a, b, i, j, i');
      FlatPush(bd.done, b[j]);
      CopyFrom(bd, h2, b, j);
    } else {
      MergeTakesFirst(bd.done, a, b, i, j);
      FlatPush(bd.done, a[i]);
      CopyFrom(bd, h1, a, i);
    }
  }

  /** The loop of hstore_concat. */
  method MergeLoop(bd: Builder, h1: HStore, h2: HStore, ghost a: seq<KeyValue>, ghost b: seq<KeyValue>)
    requires bd.Valid() && bd.done == [] && Roomy(bd, |a| + |b|, |Flat(a)| + |Flat(b)|) && Encodes(h1, a) &&
        Encodes(h2, b)
    modifies bd, bd.ents, bd.buf
    ensures bd.Valid() && bd.done == Merge(Cmp, a, b) && |Flat(bd.done)| <= |Flat(a)| + |Flat(b)|
  {
    var i: nat, j: nat := 0, 0;
    CountOf(h1, a);
    CountOf(h2, b);
    MergeStarts(a, b);
    while i < Count(h1) || j < Count(h2)
      invariant bd.Valid() && Merging(bd.done, a, b, i, j)
      decreases |a| + |b| - i - j
    {
      i, j := MergeRound(bd, h1, h2, a, b, i, j);
    }
    MergeEnds(bd.done, a, b, i, j);
  }

  method MergeValues(h1: HStore, h2: HStore, ghost a: seq<KeyValue>, ghost b: seq<KeyValue>) returns (h: HStore)
    requires Encodes(h1, a) && Encodes(h2, b) && |h1.buf| + |h2.buf| <= POSMASK
    ensures Encodes(h, Merge(Cmp, a, b)) && |h.buf| == |Flat(Merge(Cmp, a, b))|
  {
    CountOf(h1, a);
    CountOf(h2, b);
    var bd := new Builder(Count(h1) + Count(h2), |h1.buf| + |h2.buf| + HEADER);
    MergeLoop(bd, h1, h2, a, b);
    h := bd.Finalize();
  }

  /** HS_FIXSIZE: a copy without trailing slop. */
  function FixSize(h: HStore): HStore
    requires h.entries != [] ==> h.entries[|h.entries| - 1].pos <= |h.buf|
  {
    HStore(h.entries, if h.entries == [] then [] else h.buf[..h.entries[|h.entries| - 1].pos])
  }

  lemma FixSizeEncodes(h: HStore, ps: seq<KeyValue>)
    requires Encodes(h, ps)
    ensures h.entries != [] ==> h.entries[|h.entries| - 1].pos == |Flat(ps)| <= |h.buf|
    ensures Encodes(FixSize(h), ps) && |FixSize(h).buf| == |Flat(ps)|
  {
    if ps != [] {
      ReadsAt(h, ps, |ps| - 1);
      FlatSplit(ps, |ps| - 1);
      assert ps[..|ps|] == ps;
    }
  }

  lemma MergeNothing(a: seq<KeyValue>, b: seq<KeyValue>)
    ensures a == [] ==> Merge(Cmp, a, b) == b
    ensures b == [] ==> Merge(Cmp, a, b) == a
  {
  }

  lemma UnionOf(h: HStore, a: seq<KeyValue>, b: seq<KeyValue>)
    requires Sorted(Cmp, a) && Sorted(Cmp, b) && Encodes(h, Merge(Cmp, a, b))
    ensures WellFormed(h) && Abs(h) == MapOf(a) + MapOf(b)
  {
    CmpIsOrder();
    MergeIsUnion(Cmp, a, b);
    AbsOf(h, Merge(Cmp, a, b));
  }

  /** A finished value carries no slop. */
  ghost predicate Exact(h: HStore) requires WellFormed(h) { |h.buf| == |Flat(PairsOf(h))| }

  /** The packed form of a list without slop is unique. */
  lemma EncodesExactly(h: HStore, g: HStore, ps: seq<KeyValue>)
    requires Encodes(h, ps) && Encodes(g, ps) && |h.buf| == |g.buf| == |Flat(ps)|
    ensures h == g
  {
  }

  /** Exact values are canonical: two of them with the same map are the same, byte for byte. */
  lemma SameMapSameValue(h: HStore, g: HStore)
    requires WellFormed(h) && WellFormed(g) && Exact(h) && Exact(g) && Abs(h) == Abs(g)
    ensures h == g
  {
    CmpIsOrder();
    SortedUnique(Cmp, PairsOf(h), PairsOf(g));
    EncodesExactly(h, g, PairsOf(h));
  }

  /** hstore_concat: union, the second value wins; an error when the result cannot be allocated. */
  method Concat(h1: HStore, h2: HStore) returns (r: Option<HStore>)
    requires WellFormed(h1) && WellFormed(h2)
    ensures r.None? <==> VarSize(h1) + VarSize(h2) > MAX_ALLOC
    ensures r.Some? ==> WellFormed(r.value) && Abs(r.value) == Abs(h1) + Abs(h2) && Exact(r.value)
  {
    if VarSize(h1) + VarSize(h2) > MAX_ALLOC { return None; }
    ghost var a, b := PairsOf(h1), PairsOf(h2);
    FixSizeEncodes(h1, a);
    FixSizeEncodes(h2, b);
    MergeNothing(a, b);
    CountOf(h1, a);
    CountOf(h2, b);
    var h;
    if Count(h1) == 0 { h := FixSize(h2); }
    else if Count(h2) == 0 { h := FixSize(h1); }
    else { h := MergeValues(h1, h2, a, b); }
    UnionOf(h, a, b);
    EncodesOne(h, PairsOf(h), Merge(Cmp, a, b));
    r := Some(h);
  }

  // ----- subscript assignment -----

  method AssignRound(bd: Builder, h: HStore, p: KeyValue, ghost a: seq<KeyValue>, i: nat, j: nat)
      returns (i': nat, j': nat)
    requires bd.Valid() && Roomy(bd, |a| + 1, |Flat(a)| + |Flat([p])|)
    requires Merging(bd.done, a, [p], i, j) && Encodes(h, a) && (i < |a| || j < 1)
    modifies bd, bd.ents, bd.buf
    ensures bd.Valid() && Merging(bd.done, a, [p], i', j') && i' + j' > i + j
  {
    var d := 0;
    if i >= Count(h) { d := 1; } else if j >= 1 { d := -1; } else {
      ReadsPair(h, a, i);
      d := Cmp(KeyAt(h, i), p.key);
    }
    MergeStep(Cmp, a, [p], i, j, d);
    i', j' := if d <= 0 then i + 1 else i, if d >= 0 then j + 1 else j;
    if d >= 0 {
      MergeTakesSecond(bd.done, a, [p], i, j, i');
      FlatPush(bd.done, p);
      bd.AddItem(p);
    } else {
      MergeTakesFirst(bd.done, a, [p], i, j);
      FlatPush(bd.done, a[i]);
      CopyFrom(bd, h, a, i);
    }
  }

  method AssignLoop(bd: Builder, h: HStore, p: KeyValue, ghost a: seq<KeyValue>)
    requires bd.Valid() && bd.done == [] && Roomy(bd, |a| + 1, |Flat(a)| + |Flat([p])|) && Encodes(h, a)
    modifies bd, bd.ents, bd.buf
    ensures bd.Valid() && bd.done == Merge(Cmp, a, [p]) && |Flat(bd.done)| <= |Flat(a)| + |Flat([p])|
  {
    var i: nat, j: nat := 0, 0;
    CountOf(h, a);
    MergeStarts(a, [p]);
    while i < Count(h) || j < 1
      invariant bd.Valid() && Merging(bd.done, a, [p], i, j)
      decreases |a| + 1 - i - j
    {
      i, j := AssignRound(bd, h, p, a, i, j);
    }
    MergeEnds(bd.done, a, [p], i, j);
  }

  lemma OnePair(p: KeyValue)
    ensures Flat([p]) == p.key + ValBytes(p) && Sorted(Cmp, [p]) && MapOf([p]) == map[p.key := p.val]
  {
    FlatPush([], p);
    assert [] + [p] == [p];
  }

  /** Size of the allocation for an assignment: duplicates are not considered, and the old
      value is counted with its header and entries. */
  function AssignSize(h: HStore, p: KeyValue): nat {
    (Count(h) + 1) * 8 + HEADER + VarSize(h) + |p.key| + |ValBytes(p)|
  }

  /** hstore_subscript_assign on a value that is not null. */
  method Assign(h: HStore, key: Bytes, val: Option<Bytes>) returns (r: Option<HStore>)
    requires WellFormed(h)
    ensures r.None? <==> AssignSize(h, Pair(key, val)) > MAX_ALLOC
    ensures r.Some? ==> WellFormed(r.value) && Abs(r.value) == Abs(h)[key := val] && Exact(r.value)
  {
    var p := Pair(key, val);
    if AssignSize(h, p) > MAX_ALLOC { return None; }
    ghost var a := PairsOf(h);
    CountOf(h, a);
    OnePair(p);
    var bd := new Builder(Count(h) + 1, VarSize(h) + |p.key| + |ValBytes(p)|);
    AssignLoop(bd, h, p, a);
    var out := bd.Finalize();
    UnionOf(out, a, [p]);
    UpdateIsUnion(MapOf(a), key, val);
    EncodesOne(out, PairsOf(out), Merge(Cmp, a, [p]));
    r := Some(out);
  }

  lemma UpdateIsUnion<K, V>(m: map<K, V>, k: K, v: V)
    ensures m + map[k := v] == m[k := v]
  {
  }

  // ----- construction from pairs -----

  /** hstorePairs: packs a list, given the total length of its strings. */
  method Pack(ps: seq<KeyValue>, buflen: nat) returns (r: Option<HStore>)
    requires buflen == |Flat(ps)|
    ensures r.None? <==> 8 * |ps| + HEADER + buflen > MAX_ALLOC
    ensures r.Some? ==> Encodes(r.value, ps) && |r.value.buf| == buflen
  {
    if 8 * |ps| + HEADER + buflen > MAX_ALLOC { return None; }
    var bd := new Builder(|ps|, buflen);
    for i := 0 to |ps|
      invariant fresh(bd) && fresh(bd.ents) && fresh(bd.buf) && bd.ents.Length == 2 * |ps| && bd.buf.Length == buflen
      invariant bd.Valid() && bd.done == ps[..i]
    {
      PackRoom(ps, i);
      bd.AddItem(ps[i]);
    }
    assert ps[..|ps|] == ps;
    var h := bd.Finalize();
    r := Some(h);
  }

  lemma PackRoom(ps: seq<KeyValue>, i: nat)
    requires i < |ps|
    ensures ps[..i + 1] == ps[..i] + [ps[i]] && |Flat(ps[..i])| + |ps[i].key| + |ValBytes(ps[i])| <= |Flat(ps)|
  {
    FlatSplit(ps, i);
  }

  // ----- removal -----

  /** Progress of a removal: what is written, followed by what is left of the result. */
  ghost predicate Removing(done: seq<KeyValue>, a: seq<KeyValue>, i: nat, rest: seq<KeyValue>, all: seq<KeyValue>) {
    i <= |a| && |done| <= i && |Flat(done)| <= Start(a, i) <= |Flat(a)| && done + rest == all
  }

  lemma RemovingSkip(done: seq<KeyValue>, a: seq<KeyValue>, i: nat, rest: seq<KeyValue>, all: seq<KeyValue>)
    requires Removing(done, a, i, rest, all) && i < |a|
    ensures Removing(done, a, i + 1, rest, all)
  {
    FlatSplit(a, i);
  }

  lemma RemovingKeep(done: seq<KeyValue>, a: seq<KeyValue>, i: nat, rest: seq<KeyValue>, all: seq<KeyValue>)
    requires i < |a| && Removing(done, a, i, [a[i]] + rest, all)
    ensures Removing(done + [a[i]], a, i + 1, rest, all)
    ensures |Flat(done)| + |a[i].key| + |ValBytes(a[i])| <= |Flat(a)|
  {
    FlatPush(done, a[i]);
    FlatSplit(a, i);
    Snoc(done, a[i], rest);
  }

  lemma RemovingStarts(a: seq<KeyValue>, all: seq<KeyValue>)
    ensures Removing([], a, 0, all, all)
  {
    assert a[..0] == [];
    Empty(all);
  }

  method DeleteRound(bd: Builder, h: HStore, ks: seq<Bytes>, ghost a: seq<KeyValue>, i: nat, j: nat)
      returns (i': nat, j': nat)
    requires bd.Valid() && Roomy(bd, |a|, |Flat(a)|) && Encodes(h, a) && i < |a| && j <= |ks|
    requires Removing(bd.done, a, i, Remove(Cmp, a[i..], ks[j..]), Remove(Cmp, a, ks))
    modifies bd, bd.ents, bd.buf
    ensures bd.Valid() && i' <= |a| && j' <= |ks| && i' + j' > i + j
    ensures Removing(bd.done, a, i', Remove(Cmp, a[i'..], ks[j'..]), Remove(Cmp, a, ks))
  {
    var d := -1;
    if j < |ks| {
      ReadsPair(h, a, i);
      d := Cmp(KeyAt(h, i), ks[j]);
    }
    RemoveStep(Cmp, a, ks, i, j, d);
    i', j' := if d <= 0 then i + 1 else i, if d >= 0 then j + 1 else j;
    ghost var rest, all := Remove(Cmp, a[i'..], ks[j'..]), Remove(Cmp, a, ks);
    if d == 0 {
      RemovingSkip(bd.done, a, i, rest, all);
    } else if d < 0 {
      RemovingKeep(bd.done, a, i, rest, all);
      CopyFrom(bd, h, a, i);
    }
  }

  method DeleteLoop(bd: Builder, h: HStore, ks: seq<Bytes>, ghost a: seq<KeyValue>)
    requires bd.Valid() && bd.done == [] && Roomy(bd, |a|, |Flat(a)|) && Encodes(h, a)
    modifies bd, bd.ents, bd.buf
    ensures bd.Valid() && bd.done == Remove(Cmp, a, ks) && |Flat(bd.done)| <= |Flat(a)|
  {
    var i: nat, j: nat := 0, 0;
    CountOf(h, a);
    RemovingStarts(a, Remove(Cmp, a, ks));
    Whole(a);
    Whole(ks);
    while i < Count(h)
      invariant i <= |a| && j <= |ks| && bd.Valid()
      invariant Removing(bd.done, a, i, Remove(Cmp, a[i..], ks[j..]), Remove(Cmp, a, ks))
      decreases |a| + |ks| - i - j
    {
      i, j := DeleteRound(bd, h, ks, a, i, j);
    }
    Empty(bd.done);
  }

  lemma RemoveNothing(a: seq<KeyValue>)
    ensures Remove(Cmp, a, []) == a && RemoveEqual(Cmp, a, []) == a
  {
  }

  /** hstore_delete_array: removes the given keys, which arrive sorted and without duplicates. */
  method DeleteKeys(h: HStore, ks: seq<Bytes>) returns (out: HStore)
    requires WellFormed(h) && SortedKeys(Cmp, ks)
    ensures WellFormed(out) && Abs(out) == Abs(h) - KeySet(ks) && Exact(out)
  {
    ghost var a := PairsOf(h);
    FixSizeEncodes(h, a);
    CountOf(h, a);
    if |ks| == 0 {
      out := FixSize(h);
      RemoveNothing(a);
    } else {
      var bd := new Builder(Count(h), |h.buf|);
      DeleteLoop(bd, h, ks, a);
      out := bd.Finalize();
    }
    CmpIsOrder();
    RemoveIsDifference(Cmp, a, ks);
    AbsOf(out, Remove(Cmp, a, ks));
  }

  /** One round of hstore_delete. */
  method DropRound(bd: Builder, h: HStore, key: Bytes, ghost a: seq<KeyValue>, i: nat)
    requires bd.Valid() && Roomy(bd, |a|, |Flat(a)|) && Encodes(h, a) && i < |a|
    requires Removing(bd.done, a, i, Without(a[i..], key), Without(a, key))
    modifies bd, bd.ents, bd.buf
    ensures bd.Valid() && Removing(bd.done, a, i + 1, Without(a[i + 1..], key), Without(a, key))
  {
    ghost var rest, all := Without(a[i + 1..], key), Without(a, key);
    assert a[i..][1..] == a[i + 1..];
    Empty(rest);
    ReadsPair(h, a, i);
    if KeyAt(h, i) == key {
      RemovingSkip(bd.done, a, i, rest, all);
    } else {
      RemovingKeep(bd.done, a, i, rest, all);
      CopyFrom(bd, h, a, i);
    }
  }

  method DropLoop(bd: Builder, h: HStore, key: Bytes, ghost a: seq<KeyValue>)
    requires bd.Valid() && bd.done == [] && Roomy(bd, |a|, |Flat(a)|) && Encodes(h, a)
    modifies bd, bd.ents, bd.buf
    ensures bd.Valid() && bd.done == Without(a, key) && |Flat(bd.done)| <= |Flat(a)|
  {
    CountOf(h, a);
    RemovingStarts(a, Without(a, key));
    Whole(a);
    for i := 0 to Count(h)
      invariant bd.Valid() && Removing(bd.done, a, i, Without(a[i..], key), Without(a, key))
    {
      DropRound(bd, h, key, a, i);
    }
    RemovingEnds(bd.done, a, Without(a, key));
  }

  lemma RemovingEnds(done: seq<KeyValue>, a: seq<KeyValue>, all: seq<KeyValue>)
    requires Removing(done, a, |a|, [], all)
    ensures done == all && |Flat(done)| <= |Flat(a)|
  {
    Empty(done);
  }

  /** hstore_delete: removes one key. */
  method Delete(h: HStore, key: Bytes) returns (out: HStore)
    requires WellFormed(h)
    ensures WellFormed(out) && Abs(out) == Abs(h) - {key} && Exact(out)
  {
    ghost var a := PairsOf(h);
    CountOf(h, a);
    var bd := new Builder(Count(h), |h.buf|);
    DropLoop(bd, h, key, a);
    out := bd.Finalize();
    CmpIsOrder();
    WithoutIsDifference(Cmp, a, key);
    AbsOf(out, Without(a, key));
  }

  /** Comparison of values: null equals only null. */
  method SameValue(h1: HStore, h2: HStore, ghost a: seq<KeyValue>, ghost b: seq<KeyValue>, i: nat, j: nat)
      returns (same: bool)
    requires Encodes(h1, a) && Encodes(h2, b) && i < |a| && j < |b|
    ensures same <==> a[i].val == b[j].val
  {
    ReadsPair(h1, a, i);
    ReadsPair(h2, b, j);
    var null1, null2 := h1.entries[2 * i + 1].isNull, h2.entries[2 * j + 1].isNull;
    same := !(null1 != null2
              || (!null1 && (Len(h1.entries, 2 * i + 1) != Len(h2.entries, 2 * j + 1)
                             || ValAt(h1, i) != ValAt(h2, j))));
  }

  method DeleteEqualRound(bd: Builder, h: HStore, h2: HStore, ghost a: seq<KeyValue>, ghost b: seq<KeyValue>, i: nat,
      j: nat)
      returns (i': nat, j': nat)
    requires bd.Valid() && Roomy(bd, |a|, |Flat(a)|) && Encodes(h, a) && Encodes(h2, b) && i < |a| && j <= |b|
    requires Removing(bd.done, a, i, RemoveEqual(Cmp, a[i..], b[j..]), RemoveEqual(Cmp, a, b))
    modifies bd, bd.ents, bd.buf
    ensures bd.Valid() && i' <= |a| && j' <= |b| && i' + j' > i + j
    ensures Removing(bd.done, a, i', RemoveEqual(Cmp, a[i'..], b[j'..]), RemoveEqual(Cmp, a, b))
  {
    var d, same := -1, false;
    CountOf(h2, b);
    if j < Count(h2) {
      d := Difference(h, h2, a, b, i, j);
      if d == 0 { same := SameValue(h, h2, a, b, i, j); }
    }
    RemoveEqualStep(Cmp, a, b, i, j, d);
    i', j' := if d <= 0 then i + 1 else i, if d >= 0 then j + 1 else j;
    ghost var rest, all := RemoveEqual(Cmp, a[i'..], b[j'..]), RemoveEqual(Cmp, a, b);
    Empty(rest);
    if d <= 0 {
      if same {
        RemovingSkip(bd.done, a, i, rest, all);
      } else {
        RemovingKeep(bd.done, a, i, rest, all);
        CopyFrom(bd, h, a, i);
      }
    }
  }

  method DeleteEqualLoop(bd: Builder, h: HStore, h2: HStore, ghost a: seq<KeyValue>, ghost b: seq<KeyValue>)
    requires bd.Valid() && bd.done == [] && Roomy(bd, |a|, |Flat(a)|) && Encodes(h, a) && Encodes(h2, b)
    modifies bd, bd.ents, bd.buf
    ensures bd.Valid() && bd.done == RemoveEqual(Cmp, a, b) && |Flat(bd.done)| <= |Flat(a)|
  {
    var i: nat, j: nat := 0, 0;
    CountOf(h, a);
    RemovingStarts(a, RemoveEqual(Cmp, a, b));
    Whole(a);
    Whole(b);
    while i < Count(h)
      invariant i <= |a| && j <= |b| && bd.Valid()
      invariant Removing(bd.done, a, i, RemoveEqual(Cmp, a[i..], b[j..]), RemoveEqual(Cmp, a, b))
      decreases |a| + |b| - i - j
    {
      i, j := DeleteEqualRound(bd, h, h2, a, b, i, j);
    }
    Empty(bd.done);
  }

  /** hstore_delete_hstore: removes the pairs that the second value also has. */
  method DeletePairs(h: HStore, h2: HStore) returns (out: HStore)
    requires WellFormed(h) && WellFormed(h2)
    ensures WellFormed(out) && Abs(out) == PairsNotIn(Abs(h), Abs(h2)) && Exact(out)
  {
    ghost var a, b := PairsOf(h), PairsOf(h2);
    FixSizeEncodes(h, a);
    CountOf(h, a);
    CountOf(h2, b);
    if Count(h2) == 0 {
      out := FixSize(h);
      RemoveNothing(a);
    } else {
      var bd := new Builder(Count(h), |h.buf|);
      DeleteEqualLoop(bd, h, h2, a, b);
      out := bd.Finalize();
    }
    CmpIsOrder();
    RemoveEqualIsDifference(Cmp, a, b);
    AbsOf(out, RemoveEqual(Cmp, a, b));
  }
}
