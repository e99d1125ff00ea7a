/** Index trees with truncated keys: what unions and page splits keep, and what a search finds. */
module VarTrees {
  import opened ByteStrings
  import opened VarKeys
  import opened GistTree

  /** What a key in good order stands for. */
  predicate Promises(k: Key, x: Bytes) { Ordered(k) && Admits(k, x) }

  /** A union stands for everything its entries stand for. */
  lemma UnionAdmits(es: seq<Key>, e: Key, x: Bytes)
    requires e in es && (forall f :: f in es ==> Ordered(f)) && Admits(e, x)
    ensures Promises(UnionKey(es), x)
  {
    UnionIsCut(es);
    CutOverAdmits(UnionKey(es), es, CpLen(Hull(es)) + 2, e, x);
  }

  function NodeKey(t: Tree<Key, Bytes>): Key { match t case Data(x) => Key(x, x) case Inner(k, _) => k }

  /** A key made of entries by a common cut under which all of them are safe. Unions and the halves
      of leaf splits are such keys, and so are the halves of an inner split that loses nothing. */
  ghost predicate CutOver(k: Key, es: seq<Key>, n: nat) {
    && es != [] && (forall e :: e in es ==> Ordered(e) && Safe(e, Hull(es), n))
    && n >= CpLen(Hull(es)) + 2 && k == CutKey(Hull(es), n)
  }

  lemma UnionIsCut(es: seq<Key>)
    requires es != [] && forall e :: e in es ==> Ordered(e)
    ensures CutOver(UnionKey(es), es, CpLen(Hull(es)) + 2)
  {
    forall e | e in es ensures Safe(e, Hull(es), CpLen(Hull(es)) + 2) {
      var i :| 0 <= i < |es| && es[i] == e;
      HullBounds(es, i);
      EntryPrefix(e, Hull(es));
    }
  }

  lemma CutOverAdmits(k: Key, es: seq<Key>, n: nat, e: Key, x: Bytes)
    requires CutOver(k, es, n) && e in es && Admits(e, x)
    ensures Promises(k, x)
  {
    var i :| 0 <= i < |es| && es[i] == e;
    HullBounds(es, i);
    HullOrdered(es);
    CutFacts(Hull(es), n);
    CutAdmits(e, Hull(es), n, x);
  }

  /** A tree grown by the index: each inner key is a cut over entries, among them, for every child,
      its key or an older key that already stood for it. */
  ghost predicate Built(t: Tree<Key, Bytes>) {
    t.Inner? ==>
      && (forall c :: c in t.children ==> Built(c))
      && exists es: seq<Key>, n: nat :: CutOver(t.key, es, n) && AllReplaced(es, t.children)
  }

  ghost predicate AllReplaced(es: seq<Key>, children: seq<Tree<Key, Bytes>>) {
    forall c :: c in children ==> exists e :: e in es && Replaces(e, c)
  }

  /** The entry is the child's key, or stands for as much as the child does. */
  ghost predicate Replaces(e: Key, c: Tree<Key, Bytes>) {
    e == NodeKey(c) || forall x :: Stands(c, Promises, x) ==> Promises(e, x)
  }

  lemma {:induction false} BuiltGrown(t: Tree<Key, Bytes>)
    requires Built(t)
    ensures Grown(t, Promises)
    decreases t
  {
    if t.Inner? {
      var es: seq<Key>, n: nat :| CutOver(t.key, es, n) && AllReplaced(es, t.children);
      forall c | c in t.children
        ensures Grown(c, Promises) && forall x :: Stands(c, Promises, x) ==> Promises(t.key, x)
      {
        BuiltGrown(c);
        var e :| e in es && Replaces(e, c);
        forall x | Stands(c, Promises, x) ensures Promises(t.key, x) {
          LeqTotal(x, x);
          CutOverAdmits(t.key, es, n, e, x);
        }
      }
    }
  }

  /** The index search returns exactly what a scan of all values returns, for every operator. At
      the leaves the consistency test is the operator itself (LeafExact). */
  lemma SearchFindsAll(t: Tree<Key, Bytes>, s: Strategy, q: Bytes, consistent: Key -> bool, holds: Bytes -> bool)
    requires Built(t)
    requires forall k :: consistent(k) == Consistent(k, q, s, false)
    requires forall x :: holds(x) == Holds(x, s, q)
    ensures Search(t, consistent, holds) == Scan(t, holds)
  {
    BuiltGrown(t);
    forall k, x | Promises(k, x) && holds(x) ensures consistent(k) { AdmittedIsFound(k, x, s, q); }
    SearchIsScan(t, Promises, consistent, holds);
  }

  // ----- splitting a page -----

  /** gbt_var_picksplit on entries already sorted by their bounds: both halves are truncated by
      the longer of the two common prefixes. */
  method PickSplit(sorted: seq<Key>) returns (l: Key, r: Key)
    requires |sorted| >= 2
    ensures l == LeftHalf(sorted) && r == RightHalf(sorted)
  {
    var m := |sorted| / 2;
    l := Bounds(sorted[..m]);
    r := Bounds(sorted[m..]);
    var ll := NodeCpLen(l);
    var lr := NodeCpLen(r);
    ll := (if ll > lr then ll else lr) + 1;
    assert ll + 1 == SplitLength(sorted);
    l, r := Truncate(l, ll), Truncate(r, ll);
  }

  function SplitLength(sorted: seq<Key>): nat
    requires |sorted| >= 2
  {
    var m := |sorted| / 2;
    var ll, lr := CpLen(Hull(sorted[..m])), CpLen(Hull(sorted[m..]));
    (if ll > lr then ll else lr) + 2
  }

  function LeftHalf(sorted: seq<Key>): Key
    requires |sorted| >= 2
  {
    CutKey(Hull(sorted[..|sorted| / 2]), SplitLength(sorted))
  }

  function RightHalf(sorted: seq<Key>): Key
    requires |sorted| >= 2
  {
    CutKey(Hull(sorted[|sorted| / 2..]), SplitLength(sorted))
  }

  /** One half of a split keeps every value of its entries exactly when each entry is safe
      under the common cut. */
  lemma SplitHalfSoundIff(es: seq<Key>, n: nat)
    requires es != [] && (forall e :: e in es ==> Ordered(e)) && n >= CpLen(Hull(es)) + 2
    ensures (forall e, x :: e in es && Admits(e, x) ==> Admits(CutKey(Hull(es), n), x))
       <==> (forall e :: e in es ==> Safe(e, Hull(es), n))
  {
    var h := Hull(es);
    HullOrdered(es);
    if forall e :: e in es ==> Safe(e, h, n) {
      forall e, x | e in es && Admits(e, x) ensures Admits(CutKey(h, n), x) {
        var i :| 0 <= i < |es| && es[i] == e;
        HullBounds(es, i);
        CutAdmits(e, h, n, x);
      }
    } else {
      var e :| e in es && !Safe(e, h, n);
      var x := UnsafeLoses(e, h, n);
    }
  }

  /** A search loses nothing below one half of a split, whatever the operator, exactly when each
      entry is reached: it is safe, or the kept part of the lower bound is a prefix of its upper
      bound. */
  lemma SplitHalfFindsIff(es: seq<Key>, n: nat)
    requires es != [] && (forall e :: e in es ==> Ordered(e)) && n >= CpLen(Hull(es)) + 2
    ensures (forall e, x, s, q :: e in es && Admits(e, x) && Holds(x, s, q) ==>
        Consistent(CutKey(Hull(es), n), q, s, false))
       <==> (forall e :: e in es ==> Reached(e, Hull(es), n))
  {
    var h := Hull(es);
    HullOrdered(es);
    if forall e :: e in es ==> Reached(e, h, n) {
      forall e, x, s, q | e in es && Admits(e, x) && Holds(x, s, q) ensures Consistent(CutKey(h, n), q, s, false) {
        var i :| 0 <= i < |es| && es[i] == e;
        HullBounds(es, i);
        ReachedIsFound(e, h, n, x, s, q);
      }
    } else {
      var e :| e in es && !Reached(e, h, n);
      var i :| 0 <= i < |es| && es[i] == e;
      HullBounds(es, i);
      var x := UnreachedLoses(e, h, n);
    }
  }

  /** Splitting a leaf page is always sound: leaf entries are closed. */
  lemma LeafEntriesSafe(x: Bytes, h: Key, n: nat)
    ensures Safe(Key(x, x), h, n)
  {
    CommonPrefixUnique(x, x, |x|);
  }

  /** Both halves of a leaf split are keys of trees that lose nothing. */
  lemma LeafSplitIsCut(sorted: seq<Key>)
    requires |sorted| >= 2 && forall e :: e in sorted ==> e.lower == e.upper
    ensures CutOver(LeftHalf(sorted), sorted[..|sorted| / 2], SplitLength(sorted))
    ensures CutOver(RightHalf(sorted), sorted[|sorted| / 2..], SplitLength(sorted))
  {
    forall e | e in sorted ensures Ordered(e) && forall h :: Safe(e, h, SplitLength(sorted)) {
      LeqTotal(e.lower, e.upper);
      forall h ensures Safe(e, h, SplitLength(sorted)) { LeafEntriesSafe(e.lower, h, SplitLength(sorted)); }
    }
  }

  /** On inner pages the common cut can lose a value: the left half of this split of four pages
      with two values each no longer leads to a value stored below its first entry. */
  lemma InnerSplitCanLose() returns (x: Bytes, a: Tree<Key, Bytes>, b: Tree<Key, Bytes>, c: Tree<Key, Bytes>,
      d: Tree<Key, Bytes>)
    ensures Built(a) && Built(b) && Built(c) && Built(d) && a.Inner? && Data(x) in a.children
    ensures !Consistent(LeftHalf([NodeKey(a), NodeKey(b), NodeKey(c), NodeKey(d)]), x, Equal, false)
  {
    x := [5, 7, 9];
    a := Pair([0], x, 0);
    assert a.key == Key([0], [5, 7]) by { assert Cut(x, 2) == [5, 7]; }
    b := Pair([5, 7, 0, 0], [5, 7, 0, 1], 3);
    assert b.key == Key([5, 7, 0, 0], [5, 7, 0, 1]);
    c := Pair([6, 0, 1], [6, 0, 2], 2);
    assert c.key == Key([6, 0, 1], [6, 0, 2]);
    d := Pair([6, 0, 3], [6, 0, 4], 2);
    assert d.key == Key([6, 0, 3], [6, 0, 4]);
    LostValue(x, a.key, b.key, c.key, d.key);
  }

  lemma LostValue(x: Bytes, a: Key, b: Key, c: Key, d: Key)
    requires x == [5, 7, 9] && a == Key([0], [5, 7]) && b == Key([5, 7, 0, 0], [5, 7, 0, 1])
    requires c == Key([6, 0, 1], [6, 0, 2]) && d == Key([6, 0, 3], [6, 0, 4])
    ensures !Consistent(LeftHalf([a, b, c, d]), x, Equal, false)
  {
    var sorted := [a, b, c, d];
    assert sorted[..2] == [a, b] && sorted[2..] == [c, d];
    PairHull(a, b, 0, 2);
    PairHull(c, d, 2, 2);
    CommonPrefixUnique([0], [5, 7, 0, 1], 0);
    CommonPrefixUnique([6, 0, 1], [6, 0, 4], 2);
    CommonPrefixUnique(x, [5, 7, 0, 1], 2);
    assert LeftHalf(sorted) == Key([0], [5, 7, 0, 1]);
  }

  /** A page with two values that differ at byte `c`, and its key. */
  lemma Pair(x: Bytes, y: Bytes, c: nat) returns (t: Tree<Key, Bytes>)
    requires c < |x| && c < |y| && x[c] < y[c] && forall i :: 0 <= i < c ==> x[i] == y[i]
    ensures Built(t) && t.Inner? && Data(y) in t.children && t.key == Key(Cut(x, c + 2), Cut(y, c + 2))
  {
    var es := [Key(x, x), Key(y, y)];
    t := Inner(UnionKey(es), [Data(x), Data(y)]);
    PairHull(es[0], es[1], c, c);
    CommonPrefixUnique(x, y, c);
    LeqTotal(x, x);
    LeqTotal(y, y);
    assert es[0] in es && Replaces(es[0], Data(x)) && es[1] in es && Replaces(es[1], Data(y));
    UnionIsCut(es);
    assert AllReplaced(es, t.children);
  }

  lemma PairHull(e: Key, f: Key, cl: nat, cu: nat)
    requires cl < |e.lower| && cl < |f.lower| && e.lower[cl] < f.lower[cl] && forall i :: 0 <= i < cl ==>
        e.lower[i] == f.lower[i]
    requires cu < |f.upper| && cu <= |e.upper| && (cu == |e.upper| || e.upper[cu] < f.upper[cu])
    requires forall i :: 0 <= i < cu ==> e.upper[i] == f.upper[i]
    ensures Hull([e, f]) == Key(e.lower, f.upper)
  {
    CommonPrefixUnique(e.lower, f.lower, cl);
    CommonPrefixUnique(f.upper, e.upper, cu);
    assert [e, f][..1] == [e];
  }
}
