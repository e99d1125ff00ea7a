/** The packed form of an hstore: end positions in an entry array, all strings in one buffer. */
module HstoreLayout {
  import opened Wrappers
  import opened ByteStrings
  import opened SortedMaps

  /** A key with its value; None is the null value. */
  type KeyValue = Pair<Bytes, Option<Bytes>>

  const ISFIRST := 0x8000_0000
  const ISNULL := 0x4000_0000
  const POSMASK := 0x3FFF_FFFF
  const HEADER := 8

  /** Bytes of a Pairs structure, the unpacked form of one pair. */
  const PAIR_SIZE := 40

  /** The bit fields of an HEntry word. */
  datatype Entry = Entry(first: bool, isNull: bool, pos: nat)

  datatype HStore = HStore(entries: seq<Entry>, buf: Bytes)

  function VarSize(h: HStore): nat { HEADER + 4 * |h.entries| + |h.buf| }

  /** n & POSMASK */
  function Mask(n: nat): nat { if n <= POSMASK then n else n % (POSMASK + 1) }

  // ----- key order -----

  /** Shorter keys first, then memcmp. */
  function Cmp(a: Bytes, b: Bytes): int {
    if |a| == |b| then if a == b then 0 else if Lt(a, b) then -1 else 1
    else if |a| > |b| then 1 else -1
  }

  /** A key comes before another if it is shorter, or as long and smaller where they first differ. */
  lemma CmpIff(a: Bytes, b: Bytes)
    ensures Cmp(a, b) < 0 <==> |a| < |b| || (|a| == |b| && exists k :: 0 <= k && SmallerAt(a, b, k))
    ensures Cmp(a, b) == 0 <==> a == b
  {
    LeqIff(a, b);
    LeqTotal(a, b);
    if |a| == |b| && a <= b { assert a == b; }
    if k :| 0 <= k && SmallerAt(a, b, k) { assert a[k] != b[k]; }
  }

  lemma CmpFlips(a: Bytes, b: Bytes)
    ensures Cmp(a, b) < 0 <==> Cmp(b, a) > 0
  {
    LeqTotal(a, b);
  }

  lemma CmpTrans(a: Bytes, b: Bytes, c: Bytes)
    requires Cmp(a, b) < 0 && Cmp(b, c) < 0
    ensures Cmp(a, c) < 0
  {
    if |a| == |c| {
      LeqTotal(a, b);
      LeqTotal(b, c);
      LeqTotal(a, c);
      LeqTrans(a, b, c);
      if Leq(c, a) { LeqTrans(c, a, b); }
    }
  }

  lemma CmpIsOrder()
    ensures IsOrder(Cmp)
  {
    forall a, b ensures Cmp(a, b) < 0 <==> Cmp(b, a) > 0 { CmpFlips(a, b); }
    forall a, b, c | Cmp(a, b) < 0 && Cmp(b, c) < 0 ensures Cmp(a, c) < 0 { CmpTrans(a, b, c); }
  }

  // ----- encoding -----

  function ValBytes(p: KeyValue): Bytes { if p.val.Some? then p.val.value else [] }

  function Flat(ps: seq<KeyValue>): Bytes {
    if ps == [] then [] else
    var p := ps[|ps| - 1];
    Flat(ps[..|ps| - 1]) + (p.key + ValBytes(p))
  }

  /** Where pair i starts, where its key ends and where its value ends. */
  function Start(ps: seq<KeyValue>, i: nat): nat requires i <= |ps| { |Flat(ps[..i])| }
  function KeyEnd(ps: seq<KeyValue>, i: nat): nat requires i < |ps| { Start(ps, i) + |ps[i].key| }
  function ValEnd(ps: seq<KeyValue>, i: nat): nat requires i < |ps| { KeyEnd(ps, i) + |ValBytes(ps[i])| }

  function KeyEntry(first: bool, end: nat): Entry { Entry(first, false, Mask(end)) }
  function ValEntry(p: KeyValue, end: nat): Entry { Entry(false, p.val.None?, Mask(end)) }

  /** The entries of ps; the first one is marked only when the value is finished. */
  function Entries(ps: seq<KeyValue>, marked: bool): (es: seq<Entry>)
    ensures |es| == 2 * |ps|
  {
    if ps == [] then [] else
    var i := |ps| - 1;
    Entries(ps[..i], marked) + [KeyEntry(marked && i == 0, KeyEnd(ps, i)), ValEntry(ps[i], ValEnd(ps, i))]
  }

  ghost predicate Encodes(h: HStore, ps: seq<KeyValue>) {
    h.entries == Entries(ps, true) && Flat(ps) <= h.buf && |Flat(ps)| <= POSMASK
  }

  lemma {:induction false} FlatSplit(ps: seq<KeyValue>, i: nat)
    requires i < |ps|
    ensures Start(ps, i) <= KeyEnd(ps, i) <= ValEnd(ps, i) == Start(ps, i + 1) <= |Flat(ps)|
    ensures Flat(ps)[Start(ps, i)..ValEnd(ps, i)] == ps[i].key + ValBytes(ps[i])
    decreases |ps|
  {
    var front := ps[..|ps| - 1];
    if i < |front| {
      FlatSplit(front, i);
      assert front[..i] == ps[..i] && front[..i + 1] == ps[..i + 1];
    } else {
      assert ps[..i + 1] == ps;
    }
  }

  lemma StartFront(ps: seq<KeyValue>, i: nat)
    requires i < |ps| - 1
    ensures KeyEnd(ps[..|ps| - 1], i) == KeyEnd(ps, i) && ValEnd(ps[..|ps| - 1], i) == ValEnd(ps, i)
  {
    assert ps[..|ps| - 1][..i] == ps[..i];
  }

  lemma {:induction false} EntriesAt(ps: seq<KeyValue>, marked: bool, i: nat)
    requires i < |ps|
    ensures Entries(ps, marked)[2 * i] == KeyEntry(marked && i == 0, KeyEnd(ps, i))
    ensures Entries(ps, marked)[2 * i + 1] == ValEntry(ps[i], ValEnd(ps, i))
    decreases |ps|
  {
    if i < |ps| - 1 {
      EntriesAt(ps[..|ps| - 1], marked, i);
      StartFront(ps, i);
    }
  }

  /** The position mask drops no bits of a value that fits. */
  lemma Unmasked(ps: seq<KeyValue>, i: nat)
    requires i < |ps| && |Flat(ps)| <= POSMASK
    ensures Mask(KeyEnd(ps, i)) == KeyEnd(ps, i) && Mask(ValEnd(ps, i)) == ValEnd(ps, i) == Start(ps, i + 1)
  {
    FlatSplit(ps, i);
  }

  /** Marking the first entry finishes the entry array. */
  lemma {:induction false} MarkFirst(ps: seq<KeyValue>)
    requires ps != []
    ensures Entries(ps, true) == Entries(ps, false)[0 := Entries(ps, false)[0].(first := true)]
    decreases |ps|
  {
    if |ps| > 1 { MarkFirst(ps[..|ps| - 1]); }
  }

  // ----- reading -----

  /** Start and length of entry k, from it and the entry before it. */
  function Off(es: seq<Entry>, k: nat): nat
    requires k < |es|
  {
    if es[k].first || k == 0 then 0 else es[k - 1].pos
  }

  function Len(es: seq<Entry>, k: nat): int
    requires k < |es|
  {
    es[k].pos - Off(es, k)
  }

  /** The positions of pair i of an encoded list. */
  lemma ReadsAt(h: HStore, ps: seq<KeyValue>, i: nat)
    requires Encodes(h, ps) && i < |ps|
    ensures 2 * i + 1 < |h.entries|
    ensures Off(h.entries, 2 * i) == Start(ps, i) && h.entries[2 * i].pos == Off(h.entries, 2 * i + 1) == KeyEnd(ps, i)
    ensures h.entries[2 * i + 1].pos == ValEnd(ps, i) && h.entries[2 * i + 1].isNull == ps[i].val.None?
  {
    Unmasked(ps, i);
    EntriesAt(ps, true, i);
    if i > 0 {
      EntriesAt(ps, true, i - 1);
      Unmasked(ps, i - 1);
    } else {
      assert ps[..0] == [];
    }
  }

  /** Entry i of an encoded list reads back as its pair. */
  lemma Reads(h: HStore, ps: seq<KeyValue>, i: nat)
    requires Encodes(h, ps) && i < |ps|
    ensures 2 * i + 1 < |h.entries| == 2 * |ps|
    ensures Off(h.entries, 2 * i) == Start(ps, i) && Len(h.entries, 2 * i) == |ps[i].key|
    ensures Off(h.entries, 2 * i + 1) == KeyEnd(ps, i) && Len(h.entries, 2 * i + 1) == |ValBytes(ps[i])|
    ensures h.entries[2 * i + 1].isNull == ps[i].val.None?
    ensures Start(ps, i) <= KeyEnd(ps, i) <= ValEnd(ps, i) == Start(ps, i + 1) <= |Flat(ps)| <= |h.buf|
    ensures h.buf[Start(ps, i)..ValEnd(ps, i)] == ps[i].key + ValBytes(ps[i])
  {
    FlatSplit(ps, i);
    ReadsAt(h, ps, i);
    SliceOfPrefix(Flat(ps), h.buf, Start(ps, i), ValEnd(ps, i));
  }

  lemma SliceOfPrefix(a: Bytes, b: Bytes, i: nat, j: nat)
    requires a <= b && i <= j <= |a|
    ensures b[i..j] == a[i..j]
  {
  }

  function KeyAt(h: HStore, i: nat): Bytes
    requires 2 * i < |h.entries| && Len(h.entries, 2 * i) >= 0 && h.entries[2 * i].pos <= |h.buf|
  {
    h.buf[Off(h.entries, 2 * i)..h.entries[2 * i].pos]
  }

  function ValAt(h: HStore, i: nat): Option<Bytes>
    requires 2 * i + 1 < |h.entries| && Len(h.entries, 2 * i + 1) >= 0 && h.entries[2 * i + 1].pos <= |h.buf|
  {
    if h.entries[2 * i + 1].isNull then None else Some(h.buf[Off(h.entries, 2 * i + 1)..h.entries[2 * i + 1].pos])
  }

  lemma ReadsPair(h: HStore, ps: seq<KeyValue>, i: nat)
    requires Encodes(h, ps) && i < |ps|
    ensures 2 * i + 1 < |h.entries| && 0 <= Len(h.entries, 2 * i) && 0 <= Len(h.entries, 2 * i + 1)
    ensures h.entries[2 * i].pos <= h.entries[2 * i + 1].pos <= |h.buf|
    ensures KeyAt(h, i) == ps[i].key && ValAt(h, i) == ps[i].val
  {
    Reads(h, ps, i);
    PairRead(h, i, Start(ps, i), KeyEnd(ps, i), ValEnd(ps, i), ps[i]);
  }

  /** A pair between the positions that its entries give. */
  lemma PairRead(h: HStore, i: nat, lo: nat, mid: nat, hi: nat, p: KeyValue)
    requires 2 * i + 1 < |h.entries| && Off(h.entries, 2 * i) == lo && Off(h.entries, 2 * i + 1) == mid
    requires Len(h.entries, 2 * i) == |p.key| == mid - lo && Len(h.entries, 2 * i + 1) == |ValBytes(p)| == hi - mid
    requires h.entries[2 * i + 1].isNull == p.val.None? && hi <= |h.buf| && h.buf[lo..hi] == p.key + ValBytes(p)
    ensures h.entries[2 * i].pos == mid <= hi == h.entries[2 * i + 1].pos
    ensures KeyAt(h, i) == p.key && ValAt(h, i) == p.val
  {
    SplitSlice(h.buf, lo, mid, hi, p.key, ValBytes(p));
  }

  lemma SplitSlice(b: Bytes, lo: nat, mid: nat, hi: nat, x: Bytes, y: Bytes)
    requires lo <= mid <= hi <= |b| && b[lo..hi] == x + y && mid - lo == |x|
    ensures b[lo..mid] == x && b[mid..hi] == y
  {
    assert b[lo..mid] == b[lo..hi][..|x|] && b[mid..hi] == b[lo..hi][|x|..];
  }

  /** A packed value encodes at most one list. */
  lemma EncodesOne(h: HStore, ps: seq<KeyValue>, qs: seq<KeyValue>)
    requires Encodes(h, ps) && Encodes(h, qs)
    ensures ps == qs
  {
    forall i | 0 <= i < |ps| ensures ps[i] == qs[i] {
      ReadsPair(h, ps, i);
      ReadsPair(h, qs, i);
    }
  }

  ghost predicate WellFormed(h: HStore) { exists ps :: Encodes(h, ps) && Sorted(Cmp, ps) }

  /** The list a well-formed value stands for, and the map. */
  ghost function PairsOf(h: HStore): (ps: seq<KeyValue>)
    requires WellFormed(h)
    ensures Encodes(h, ps) && Sorted(Cmp, ps)
  {
    var ps :| Encodes(h, ps) && Sorted(Cmp, ps);
    ps
  }

  ghost function Abs(h: HStore): map<Bytes, Option<Bytes>>
    requires WellFormed(h)
  {
    MapOf(PairsOf(h))
  }

  lemma AbsOf(h: HStore, ps: seq<KeyValue>)
    requires Encodes(h, ps) && Sorted(Cmp, ps)
    ensures WellFormed(h) && PairsOf(h) == ps && Abs(h) == MapOf(ps)
  {
    EncodesOne(h, ps, PairsOf(h));
  }
}
