/** btree_gist keys of variable length, as bytea uses them: bounds truncated to two bytes more
    than their common prefix, and a search that makes up for it by prefix matching. */
module VarKeys {
  import opened ByteStrings

  /** A leaf entry has the stored value as both bounds. */
  datatype Key = Key(lower: Bytes, upper: Bytes)

  // ----- operations -----

  /** gbt_var_node_cp_len for single-byte encodings. */
  method NodeCpLen(k: Key) returns (r: nat)
    ensures r == CommonPrefix(k.lower, k.upper)
  {
    var ml := if |k.lower| < |k.upper| then |k.lower| else |k.upper|;
    var i := 0;
    while i < ml
      invariant 0 <= i <= ml && forall j :: 0 <= j < i ==> k.lower[j] == k.upper[j]
    {
      if k.lower[i] != k.upper[i] {
        CommonPrefixUnique(k.lower, k.upper, i);
        return i;
      }
      i := i + 1;
    }
    CommonPrefixUnique(k.lower, k.upper, ml);
    return ml;
  }

  function Cut(b: Bytes, n: nat): Bytes { if |b| <= n then b else b[..n] }

  /** Both bounds cut to `n` bytes. */
  function CutKey(h: Key, n: nat): Key { Key(Cut(h.lower, n), Cut(h.upper, n)) }

  /** gbt_var_node_truncate keeps one byte more than the length it is given. */
  function Truncate(k: Key, cpf: nat): Key { CutKey(k, cpf + 1) }

  /** gbt_var_bin_union on a key that is already there. */
  function BinUnion(u: Key, e: Key): Key {
    Key(if Leq(u.lower, e.lower) then u.lower else e.lower,
        if Leq(e.upper, u.upper) then u.upper else e.upper)
  }

  /** The bounds of a set of entries before truncation. */
  function Hull(es: seq<Key>): (k: Key)
    requires es != []
  {
    if |es| == 1 then es[0] else BinUnion(Hull(es[..|es| - 1]), es[|es| - 1])
  }

  function CpLen(k: Key): nat { CommonPrefix(k.lower, k.upper) }

  /** The loop over gbt_var_bin_union that collects the bounds of a set of entries. */
  method Bounds(es: seq<Key>) returns (out: Key)
    requires es != []
    ensures out == Hull(es)
  {
    out := es[0];
    assert es[..1] == [es[0]];
    for i := 1 to |es|
      invariant out == Hull(es[..i])
    {
      assert es[..i + 1][..i] == es[..i];
      out := BinUnion(out, es[i]);
    }
    assert es[..|es|] == es;
  }

  /** gbt_var_union */
  method VarUnion(es: seq<Key>) returns (out: Key)
    requires es != []
    ensures out == UnionKey(es) == CutKey(Hull(es), CpLen(Hull(es)) + 2)
  {
    out := Bounds(es);
    var plen := NodeCpLen(out);
    out := Truncate(out, plen + 1);
  }

  function UnionKey(es: seq<Key>): Key
    requires es != []
  {
    Truncate(Hull(es), CpLen(Hull(es)) + 1)
  }

  predicate IsPrefix(p: Bytes, x: Bytes) { |p| <= |x| && x[..|p|] == p }

  /** gbt_var_node_pf_match */
  predicate PrefixMatch(k: Key, q: Bytes) { IsPrefix(k.lower, q) || IsPrefix(k.upper, q) }

  datatype Strategy = Less | LessEqual | Equal | GreaterEqual | Greater | NotEqual

  /** The operator a strategy stands for. */
  predicate Holds(x: Bytes, s: Strategy, q: Bytes) {
    match s
    case Less => Lt(x, q)
    case LessEqual => Leq(x, q)
    case Equal => x == q
    case GreaterEqual => Leq(q, x)
    case Greater => Lt(q, x)
    case NotEqual => x != q
  }

  /** gbt_var_consistent */
  predicate Consistent(k: Key, q: Bytes, s: Strategy, isLeaf: bool) {
    match s
    case LessEqual => if isLeaf then Leq(k.lower, q) else Leq(k.lower, q) || PrefixMatch(k, q)
    case Less => if isLeaf then Lt(k.lower, q) else Leq(k.lower, q) || PrefixMatch(k, q)
    case Equal => if isLeaf then q == k.lower else (Leq(k.lower, q) && Leq(q, k.upper)) || PrefixMatch(k, q)
    case Greater => if isLeaf then Lt(q, k.upper) else Leq(q, k.upper) || PrefixMatch(k, q)
    case GreaterEqual => if isLeaf then Leq(q, k.upper) else Leq(q, k.upper) || PrefixMatch(k, q)
    case NotEqual => !(q == k.lower && q == k.upper)
  }

  // ----- what an inner key promises -----

  /** A cut-off upper bound leaves at least two bytes behind the common prefix. */
  predicate Open(k: Key) { |k.upper| >= CpLen(k) + 2 }

  /** The values a key stands for: those between the bounds, and those that extend a cut-off
      upper bound. */
  predicate Admits(k: Key, x: Bytes) {
    Leq(k.lower, x) && (Leq(x, k.upper) || (Open(k) && IsPrefix(k.upper, x)))
  }

  predicate Ordered(k: Key) { Leq(k.lower, k.upper) }

  lemma PrefixLeq(p: Bytes, x: Bytes)
    requires IsPrefix(p, x)
    ensures Leq(p, x)
  {
    assert forall i :: 0 <= i < |p| ==> p[i] == x[..|p|][i];
    CommonPrefixUnique(p, x, |p|);
  }

  /** A string between a prefix and its extension is an extension, too. */
  lemma PrefixConvex(p: Bytes, q: Bytes, x: Bytes)
    requires IsPrefix(p, x) && Leq(p, q) && Leq(q, x)
    ensures IsPrefix(p, q)
  {
    assert forall i :: 0 <= i < |p| ==> p[i] == x[..|p|][i];
    CommonPrefixUnique(p, x, |p|);
    Between(p, q, x);
  }

  // ----- searching -----

  lemma LeafExact(x: Bytes, q: Bytes, s: Strategy)
    ensures Consistent(Key(x, x), q, s, true) <==> Holds(x, s, q)
  {
  }

  /** An inner key is followed whenever some value it stands for satisfies the operator. */
  lemma AdmittedIsFound(k: Key, x: Bytes, s: Strategy, q: Bytes)
    requires Ordered(k) && Admits(k, x) && Holds(x, s, q)
    ensures Consistent(k, q, s, false)
  {
    match s {
      case Less | LessEqual =>
        LeqTotal(x, q);
        LeqTrans(k.lower, x, q);
      case Equal =>
      case GreaterEqual | Greater =>
        LeqTotal(q, x);
        LeqTotal(q, k.upper);
        if Leq(x, k.upper) { LeqTrans(q, x, k.upper); }
        else if !Leq(q, k.upper) { PrefixConvex(k.upper, q, x); }
      case NotEqual =>
        // equal bounds are closed, so only the bound itself is admitted
        CommonPrefixUnique(k.lower, k.lower, |k.lower|);
        LeqTotal(x, k.upper);
    }
  }

  // ----- building keys from entries -----

  lemma {:induction false} HullBounds(es: seq<Key>, i: nat)
    requires i < |es|
    ensures Leq(Hull(es).lower, es[i].lower) && Leq(es[i].upper, Hull(es).upper)
    decreases |es|
  {
    LeqTotal(es[i].lower, es[i].lower);
    LeqTotal(es[i].upper, es[i].upper);
    if |es| > 1 {
      var h, e := Hull(es[..|es| - 1]), es[|es| - 1];
      LeqTotal(h.lower, e.lower);
      LeqTotal(e.upper, h.upper);
      if i < |es| - 1 {
        HullBounds(es[..|es| - 1], i);
        LeqTrans(Hull(es).lower, h.lower, es[i].lower);
        LeqTrans(es[i].upper, h.upper, Hull(es).upper);
      }
    }
  }

  /** The hull is no wider than need be: both its bounds are bounds of entries. */
  lemma {:induction false} HullAttained(es: seq<Key>) returns (i: nat, j: nat)
    requires es != []
    ensures i < |es| && j < |es| && Hull(es) == Key(es[i].lower, es[j].upper)
    decreases |es|
  {
    if |es| == 1 {
      i, j := 0, 0;
    } else {
      i, j := HullAttained(es[..|es| - 1]);
      var h, e := Hull(es[..|es| - 1]), es[|es| - 1];
      if !Leq(h.lower, e.lower) { i := |es| - 1; }
      if !Leq(e.upper, h.upper) { j := |es| - 1; }
    }
  }

  lemma HullOrdered(es: seq<Key>)
    requires es != [] && Ordered(es[0])
    ensures Ordered(Hull(es))
  {
    HullBounds(es, 0);
    LeqTrans(Hull(es).lower, es[0].lower, es[0].upper);
    LeqTrans(Hull(es).lower, es[0].upper, Hull(es).upper);
  }

  /** A cut at least two bytes beyond the common prefix changes neither that prefix nor the order. */
  lemma CutFacts(h: Key, n: nat)
    requires Ordered(h) && n >= CpLen(h) + 2
    ensures CpLen(CutKey(h, n)) == CpLen(h) && Ordered(CutKey(h, n))
    ensures Leq(Cut(h.lower, n), h.lower)
  {
    CommonPrefixUnique(Cut(h.lower, n), Cut(h.upper, n), CpLen(h));
    PrefixLeq(Cut(h.lower, n), h.lower);
  }

  /** An entry under a larger hull shares at least the hull's common prefix. */
  lemma EntryPrefix(e: Key, h: Key)
    requires Ordered(e) && Leq(h.lower, e.lower) && Leq(e.upper, h.upper)
    ensures CpLen(h) <= CpLen(e)
  {
    LeqTrans(h.lower, e.lower, e.upper);
    LeqTrans(e.lower, e.upper, h.upper);
    Between(h.lower, e.lower, h.upper);
    Between(h.lower, e.upper, h.upper);
  }

  /** Cutting the hull keeps every value the entry admits: its open upper bound is not a proper
      prefix of the new one, or only maximal bytes follow it there. */
  predicate Safe(e: Key, h: Key, n: nat) {
    Open(e) && IsPrefix(e.upper, h.upper) ==>
      forall j :: |e.upper| <= j < |Cut(h.upper, n)| ==> Cut(h.upper, n)[j] == 255
  }

  lemma CutAdmits(e: Key, h: Key, n: nat, x: Bytes)
    requires Ordered(e) && Ordered(h) && Leq(h.lower, e.lower) && Leq(e.upper, h.upper)
    requires n >= CpLen(h) + 2 && Safe(e, h, n) && Admits(e, x)
    ensures Admits(CutKey(h, n), x)
  {
    var k := CutKey(h, n);
    CutFacts(h, n);
    LeqTrans(k.lower, h.lower, e.lower);
    LeqTrans(k.lower, e.lower, x);
    if !Leq(x, k.upper) {
      LeqTotal(x, k.upper);
      if Leq(x, h.upper) {
        PrefixConvex(k.upper, x, h.upper);
      } else {
        BeyondHull(e, h, n, x);
      }
    }
  }

  /** A value beyond the hull extends the entry's open upper bound, and so the cut one. */
  lemma BeyondHull(e: Key, h: Key, n: nat, x: Bytes)
    requires Ordered(e) && Ordered(h) && Leq(h.lower, e.lower) && Leq(e.upper, h.upper)
    requires n >= CpLen(h) + 2 && Safe(e, h, n) && Admits(e, x)
    requires !Leq(x, h.upper) && !Leq(x, Cut(h.upper, n))
    ensures Open(CutKey(h, n)) && IsPrefix(Cut(h.upper, n), x)
  {
    if Leq(x, e.upper) { LeqTrans(x, e.upper, h.upper); }
    EntryPrefix(e, h);
    CutFacts(h, n);
    LeqTotal(x, h.upper);
    PrefixConvex(e.upper, h.upper, x);
  }

  /** The cut is sharp: an unsafe entry loses a value. */
  lemma UnsafeLoses(e: Key, h: Key, n: nat) returns (x: Bytes)
    requires Ordered(e) && Ordered(h) && !Safe(e, h, n)
    ensures Admits(e, x) && !Admits(CutKey(h, n), x)
    ensures IsPrefix(e.upper, x) && !Leq(x, Cut(h.upper, n)) && !IsPrefix(Cut(h.upper, n), x)
  {
    var t := Cut(h.upper, n);
    var j :| |e.upper| <= j < |t| && t[j] != 255;
    x := t[..j] + [t[j] + 1];
    PrefixLeq(e.upper, x);
    LeqTrans(e.lower, e.upper, x);
    CommonPrefixUnique(x, t, j);
  }

  // ----- what a cut loses for a search -----

  /** The search finds whatever the entry admits, although its key may not: the kept part of the
      lower bound is a prefix of the entry's upper bound. */
  predicate Reached(e: Key, h: Key, n: nat) { Safe(e, h, n) || IsPrefix(Cut(h.lower, n), e.upper) }

  /** Values up to the entry's upper bound are always kept. */
  lemma CutAdmitsWithin(e: Key, h: Key, n: nat, x: Bytes)
    requires Ordered(h) && Leq(h.lower, e.lower) && Leq(e.upper, h.upper) && n >= CpLen(h) + 2
    requires Leq(e.lower, x) && Leq(x, e.upper)
    ensures Admits(CutKey(h, n), x)
  {
    var k := CutKey(h, n);
    CutFacts(h, n);
    LeqTrans(k.lower, h.lower, e.lower);
    LeqTrans(k.lower, e.lower, x);
    LeqTrans(x, e.upper, h.upper);
    if !Leq(x, k.upper) {
      LeqTotal(x, k.upper);
      PrefixConvex(k.upper, x, h.upper);
    }
  }

  /** A value that extends the lower bound is found. */
  lemma ExtensionIsFound(k: Key, x: Bytes, s: Strategy, q: Bytes)
    requires Ordered(k) && k.lower != k.upper && IsPrefix(k.lower, x) && Holds(x, s, q)
    ensures Consistent(k, q, s, false)
  {
    PrefixLeq(k.lower, x);
    match s {
      case Less | LessEqual =>
        LeqTotal(x, q);
        LeqTrans(k.lower, x, q);
      case Equal =>
      case GreaterEqual | Greater =>
        LeqTotal(q, x);
        LeqTotal(q, k.lower);
        if Leq(k.lower, q) { PrefixConvex(k.lower, q, x); } else { LeqTrans(q, k.lower, k.upper); }
      case NotEqual =>
    }
  }

  /** Equal cut bounds leave no room for an open entry. */
  lemma CutBoundsDiffer(e: Key, h: Key, n: nat)
    requires Ordered(e) && Ordered(h) && Leq(h.lower, e.lower) && Leq(e.upper, h.upper) && n >= CpLen(h) + 2 && Open(e)
    ensures Cut(h.lower, n) != Cut(h.upper, n)
  {
    CutFacts(h, n);
    EntryPrefix(e, h);
    var l := Cut(h.lower, n);
    if l == Cut(h.upper, n) {
      CommonPrefixUnique(l, l, |l|);
      assert h.lower == h.upper;
      LeqTrans(h.lower, e.lower, e.upper);
      LeqTotal(h.lower, e.upper);
      LeqTrans(e.lower, e.upper, h.upper);
      LeqTotal(h.lower, e.lower);
    }
  }

  lemma ReachedIsFound(e: Key, h: Key, n: nat, x: Bytes, s: Strategy, q: Bytes)
    requires Ordered(e) && Ordered(h) && Leq(h.lower, e.lower) && Leq(e.upper, h.upper) && n >= CpLen(h) + 2
    requires Reached(e, h, n) && Admits(e, x) && Holds(x, s, q)
    ensures Consistent(CutKey(h, n), q, s, false)
  {
    var k := CutKey(h, n);
    CutFacts(h, n);
    if Safe(e, h, n) {
      CutAdmits(e, h, n, x);
      AdmittedIsFound(k, x, s, q);
    } else if Leq(x, e.upper) {
      CutAdmitsWithin(e, h, n, x);
      AdmittedIsFound(k, x, s, q);
    } else {
      CutBoundsDiffer(e, h, n);
      assert IsPrefix(k.lower, x) by { assert e.upper[..|k.lower|] == x[..|e.upper|][..|k.lower|]; }
      ExtensionIsFound(k, x, s, q);
    }
  }

  /** Otherwise an equality search misses an admitted value. */
  lemma UnreachedLoses(e: Key, h: Key, n: nat) returns (x: Bytes)
    requires Ordered(e) && Ordered(h) && Leq(h.lower, e.lower) && Leq(e.upper, h.upper) && n >= CpLen(h) + 2
    requires !Reached(e, h, n)
    ensures Admits(e, x) && Holds(x, Equal, x) && !Consistent(CutKey(h, n), x, Equal, false)
  {
    x := UnsafeLoses(e, h, n);
    var l := Cut(h.lower, n);
    CutFacts(h, n);
    LeqTrans(l, h.lower, e.lower);
    LeqTrans(l, e.lower, e.upper);
    PrefixLeq(e.upper, x);
    if IsPrefix(l, x) { PrefixConvex(l, e.upper, x); }
  }
}
