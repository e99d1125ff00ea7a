/** The GiST index on integer arrays as a whole: compressed inner keys, element searches and
    Boolean queries. */
module IntIndex {
  import opened Machine
  import opened QueryGrammar
  import opened QueryEval
  import opened IntRanges
  import opened IntCompress
  import opened IntExpand
  import opened IntLeaves
  import opened IntUnion
  import opened GistTree

  // ----- tests on sorted arrays -----

  /** inner_int_contains */
  method InnerContains(a: seq<int>, b: seq<int>) returns (r: bool)
    requires Increasing(a) && Increasing(b)
    ensures r <==> forall j :: 0 <= j < |b| ==> b[j] in a
  {
    var i, j, n := 0, 0, 0;
    while i < |a| && j < |b|
      invariant 0 <= i <= |a| && 0 <= j == n <= |b|
      invariant forall k :: 0 <= k < j ==> b[k] in a
      invariant j < |b| ==> forall k :: 0 <= k < i ==> a[k] < b[j]
    {
      if a[i] < b[j] {
        i := i + 1;
      } else if a[i] == b[j] {
        n, i, j := n + 1, i + 1, j + 1;
      } else {
        break;
      }
    }
    r := n == |b|;
  }

  /** inner_int_overlap */
  method InnerOverlap(a: seq<int>, b: seq<int>) returns (r: bool)
    requires Increasing(a) && Increasing(b)
    ensures r <==> exists j :: 0 <= j < |b| && b[j] in a
  {
    var i, j := 0, 0;
    while i < |a| && j < |b|
      invariant 0 <= i <= |a| && 0 <= j <= |b|
      invariant forall k :: 0 <= k < j ==> b[k] !in a
      invariant j < |b| ==> forall k :: 0 <= k < i ==> a[k] < b[j]
    {
      if a[i] < b[j] {
        i := i + 1;
      } else if a[i] == b[j] {
        return true;
      } else {
        j := j + 1;
      }
    }
    return false;
  }

  // ----- queries -----

  datatype IntQuery = Overlap(q: seq<int>) | Contains(q: seq<int>) | Same(q: seq<int>) | Boolean(e: Expr)

  /** What an array must be like to satisfy a query. */
  ghost predicate Matches(a: seq<int>, query: IntQuery) {
    match query
    case Overlap(q) => exists x :: x in q && x in a
    case Contains(q) => forall x :: x in q ==> x in a
    case Same(q) => a == q
    case Boolean(e) => Eval(e, x => x in a)
  }

  /** g_int_consistent on an inner entry. */
  ghost predicate Follow(key: seq<int>, query: IntQuery) {
    match query
    case Overlap(q) => exists x :: x in q && x in key
    case Contains(q) => forall x :: x in q ==> x in key
    case Same(q) => forall x :: x in q ==> x in key
    case Boolean(e) => Lax(e, x => x in key)
  }

  /** A key stands for the arrays all of whose elements it has. */
  predicate Includes(key: seq<int>, a: seq<int>) { forall i :: 0 <= i < |a| ==> a[i] in key }

  lemma IncludedIsFollowed(key: seq<int>, a: seq<int>, query: IntQuery)
    requires Includes(key, a) && Matches(a, query)
    ensures Follow(key, query)
  {
    assert forall x :: x in a ==> x in key;
    if query.Boolean? { LaxCoversEval(query.e, x => x in a, x => x in key); }
  }

  // ----- leaves -----

  /** Whether a search returns a stored array: g_int_consistent on a leaf applies the operator to
      the array as it is read, and only "same" is rechecked on the row itself. */
  ghost predicate Returned(a: seq<int>, n: nat, query: IntQuery) {
    ReadLeaf(a, n).Expanded? && Matches(ReadLeaf(a, n).s, query) && (query.Same? ==> Matches(a, query))
  }

  /** The leaf test is the operator, for every query, if and only if the array reads back as itself. */
  lemma LeafExactIff(a: seq<int>, n: nat)
    ensures (forall query :: Returned(a, n, query) <==> Matches(a, query)) <==> ReadLeaf(a, n) == Expanded(a)
  {
    if forall query :: Returned(a, n, query) <==> Matches(a, query) {
      assert Matches(a, IntQuery.Same(a)) && Returned(a, n, IntQuery.Same(a));
    }
  }

  /** With num_ranges 1 the array {1,3} is read as {1,2,3}: it is returned for "contains 2" and for
      no "same" query at all. */
  lemma LeafMisread()
    ensures ReadLeaf([1, 3], 1) == Expanded([1, 2, 3])
    ensures Returned([1, 3], 1, Contains([2])) && !Matches([1, 3], Contains([2]))
    ensures !Returned([1, 3], 1, IntQuery.Same([1, 3])) && Matches([1, 3], IntQuery.Same([1, 3]))
  {
    assert [1, 3][..0] == [] && Count(1, 3) == [1, 2, 3];
    assert RangeTotal([1, 3]) == 3 && Expand([1, 3]) == [] + [1, 2, 3];
    assert 2 in [2] && 2 !in [1, 3];
  }

  /** With num_ranges 1 the two largest integers are a pair of neighbours, and yet cannot be read. */
  lemma LeafOverrun()
    ensures Paired([INT_MAX - 1, INT_MAX]) && ReadLeaf([INT_MAX - 1, INT_MAX], 1) == Overrun
  {
    assert [INT_MAX - 1, INT_MAX][..0] == [];
    assert RangeTotal([INT_MAX - 1, INT_MAX]) == 2;
  }

  /** The key under which a leaf is united. */
  function LeafKey(a: seq<int>, n: nat): seq<int> { if ReadLeaf(a, n).Expanded? then ReadLeaf(a, n).s else [] }

  // ----- trees -----

  type IntTree = Tree<seq<int>, seq<int>>

  function NodeKey(t: IntTree, n: nat): seq<int> { match t case Data(a) => LeafKey(a, n) case Inner(k, _) => k }

  /** Every inner key has the elements of the keys just below it. */
  ghost predicate Built(t: IntTree, n: nat) {
    t.Inner? ==> forall c :: c in t.children ==> Built(c, n) && Includes(t.key, NodeKey(c, n))
  }

  lemma IncludesTrans(k: seq<int>, l: seq<int>, a: seq<int>)
    requires Includes(k, l) && Includes(l, a)
    ensures Includes(k, a)
  {
    forall i | 0 <= i < |a| ensures a[i] in k {
      var j :| 0 <= j < |l| && l[j] == a[i];
    }
  }

  /** A key stands for the arrays whose reading it includes. */
  lemma {:induction false} BuiltGrown(t: IntTree, n: nat, stands: (seq<int>, seq<int>) -> bool)
    requires Built(t, n) && forall k, a :: stands(k, a) == Includes(k, LeafKey(a, n))
    ensures Grown(t, stands)
    decreases t
  {
    if t.Inner? {
      forall c | c in t.children
        ensures Grown(c, stands) && forall a :: Stands(c, stands, a) ==> stands(t.key, a)
      {
        BuiltGrown(c, n, stands);
        forall a | Stands(c, stands, a) ensures stands(t.key, a) {
          if c.Inner? { IncludesTrans(t.key, c.key, LeafKey(a, n)); }
        }
      }
    }
  }

  /** In every tree whose leaves can be read, the pruned search returns exactly the arrays that pass
      the leaf test. */
  lemma SearchReturns(t: IntTree, n: nat, query: IntQuery, stands: (seq<int>, seq<int>) -> bool,
      follow: seq<int> -> bool, returned: seq<int> -> bool, readable: seq<int> -> bool)
    requires Built(t, n) && AllData(t, readable)
    requires forall a :: readable(a) == ReadLeaf(a, n).Expanded?
    requires forall k, a :: stands(k, a) == Includes(k, LeafKey(a, n))
    requires forall k :: follow(k) == Follow(k, query)
    requires forall a :: returned(a) == Returned(a, n, query)
    ensures Search(t, follow, returned) == Scan(t, returned)
  {
    BuiltGrown(t, n, stands);
    forall k, a | stands(k, a) && returned(a) ensures follow(k) { IncludedIsFollowed(k, LeafKey(a, n), query); }
    SearchIsScan(t, stands, follow, returned);
  }

  /** If all arrays of the tree read back as themselves, that is what a full scan with the operator
      returns, for element and Boolean queries alike. */
  lemma SearchFindsAll(t: IntTree, n: nat, query: IntQuery, stands: (seq<int>, seq<int>) -> bool,
      follow: seq<int> -> bool, returned: seq<int> -> bool, matches: seq<int> -> bool, faithful: seq<int> -> bool)
    requires Built(t, n) && AllData(t, faithful)
    requires forall a :: faithful(a) == (ReadLeaf(a, n) == Expanded(a))
    requires forall k, a :: stands(k, a) == Includes(k, LeafKey(a, n))
    requires forall k :: follow(k) == Follow(k, query)
    requires forall a :: returned(a) == Returned(a, n, query)
    requires forall a :: matches(a) == Matches(a, query)
    ensures Search(t, follow, returned) == Scan(t, matches)
  {
    var readable := a => ReadLeaf(a, n).Expanded?;
    AllDataWeaker(t, faithful, readable);
    SearchReturns(t, n, query, stands, follow, returned, readable);
    forall a | faithful(a) ensures returned(a) == matches(a) { LeafExactIff(a, n); }
    ScansAgree(t, faithful, returned, matches);
  }

  // ----- a new node -----

  function NodeKeys(children: seq<IntTree>, n: nat): (keys: seq<seq<int>>)
    ensures |keys| == |children| && forall i :: 0 <= i < |keys| ==> keys[i] == NodeKey(children[i], n)
  {
    seq(|children|, i requires 0 <= i < |children| => NodeKey(children[i], n))
  }

  /** A child can be united: it is an inner node, or a leaf that can be read. */
  predicate Readable(c: IntTree, n: nat) { c.Data? ==> ReadLeaf(c.v, n).Expanded? }

  ghost predicate AllReadable(children: seq<IntTree>, n: nat) { forall c :: c in children ==> Readable(c, n) }

  ghost predicate Int32Key(k: seq<int>) { forall i :: 0 <= i < |k| ==> IsInt32(k[i]) }

  /** Why a node cannot be made. */
  datatype Trouble = BadLeaf | OutOfMemory | Uncounted | TooSparseKey | Unstoppable

  datatype Joint = Joined(u: seq<int>) | NotJoined(why: Trouble)

  /** Each way in which the children cannot be united has its condition. */
  ghost predicate Unites(j: Joint, children: seq<IntTree>, n: nat) {
    var readable, keys := AllReadable(children, n), NodeKeys(children, n);
    match j
    case Joined(u) => readable && OVERHEAD + 4 * TotalLen(keys) <= MAX_ALLOC && IsUnion(u, keys)
    case NotJoined(why) =>
      && (why == BadLeaf <==> !readable)
      && (why == Uncounted <==> readable && !Countable(keys))
      && (why == OutOfMemory <==> readable && Countable(keys) && OVERHEAD + 4 * TotalLen(keys) > MAX_ALLOC)
  }

  /** The keys of the children, read and united. */
  method Join(children: seq<IntTree>, n: nat) returns (j: Joint)
    requires forall c :: c in children ==> Int32Key(NodeKey(c, n))
    ensures Unites(j, children, n) && (j.Joined? ==> Int32Key(j.u))
  {
    for i := 0 to |children|
      invariant forall k :: 0 <= k < i ==> Readable(children[k], n)
    {
      if !Readable(children[i], n) { return NotJoined(BadLeaf); }
    }
    assert AllReadable(children, n);
    var r := UnionOf(NodeKeys(children, n));
    match r
    case Unsized => return NotJoined(Uncounted);
    case NoMemory => return NotJoined(OutOfMemory);
    case Union(u) =>
      UnionInt32(u, NodeKeys(children, n));
      return Joined(u);
  }

  datatype Growth = Node(t: IntTree) | Stopped(why: Trouble)

  /** A new inner node over given children, which are united as they are read: union, compression
      for storage, decompression on reading. The node keeps the invariant of the tree, and its key
      is as small as it can be. */
  method GrowNode(children: seq<IntTree>, n: nat) returns (g: Growth, j: Joint)
    requires n >= 1 && forall c :: c in children ==> Built(c, n) && Int32Key(NodeKey(c, n))
    ensures Unites(j, children, n)
    ensures if j.Joined? then Outcome(g, j.u, n) else g == Stopped(j.why)
    ensures g.Node? ==> g.t.Inner? && g.t.children == children && Built(g.t, n)
  {
    j := Join(children, n);
    if j.NotJoined? { return Stopped(j.why), j; }
    g := NodeOver(children, j.u, n);
  }

  /** Storage and loading of the united key. */
  method NodeOver(children: seq<IntTree>, u: seq<int>, n: nat) returns (g: Growth)
    requires n >= 1 && (forall c :: c in children ==> Built(c, n))
    requires IsUnion(u, NodeKeys(children, n)) && Int32Key(u)
    ensures Outcome(g, u, n)
    ensures g.Node? ==> g.t.Inner? && g.t.children == children && Built(g.t, n)
  {
    var l := StoreAndLoad(u, n);
    match l
    case Sparse => g := Stopped(TooSparseKey);
    case Endless => g := Stopped(Unstoppable);
    case Key(k) =>
      g := Node(Inner(k, children));
      GrownBuilt(children, n, u, k);
  }

  /** What becomes of a union: it is too sparse, cannot be expanded, or gives the smallest key. */
  ghost predicate Outcome(g: Growth, u: seq<int>, n: nat) {
    var sparse := |u| >= 2 * n && NoneSmaller(u, n, MAXNUMELTS + 1);
    && (g == Stopped(TooSparseKey) <==> sparse)
    && (g == Stopped(Unstoppable) <==> !sparse && |u| >= 2 * n && u != [] && u[|u| - 1] == INT_MAX)
    && (g.Node? ==> g.t.Inner? && Increasing(g.t.key) && (|u| >= 2 * n ==> NoneSmaller(u, n, |g.t.key|)))
    && (g.Stopped? ==> g.why == TooSparseKey || g.why == Unstoppable)
  }

  lemma GrownBuilt(children: seq<IntTree>, n: nat, u: seq<int>, key: seq<int>)
    requires (forall c :: c in children ==> Built(c, n)) && IsUnion(u, NodeKeys(children, n)) && Includes(key, u)
    ensures Built(Inner(key, children), n)
  {
    forall c | c in children ensures Includes(key, NodeKey(c, n)) {
      var i :| 0 <= i < |children| && children[i] == c;
      ChildIncluded(u, NodeKeys(children, n), i, key);
    }
  }

  lemma UnionInt32(u: seq<int>, keys: seq<seq<int>>)
    requires IsUnion(u, keys) && forall k :: 0 <= k < |keys| ==> Int32Key(keys[k])
    ensures Int32Key(u)
  {
    forall i | 0 <= i < |u| ensures IsInt32(u[i]) {
      assert u[i] in u;
      var k :| 0 <= k < |keys| && u[i] in keys[k];
    }
  }

  lemma ChildIncluded(union: seq<int>, keys: seq<seq<int>>, i: nat, key: seq<int>)
    requires i < |keys| && IsUnion(union, keys) && Includes(key, union)
    ensures Includes(key, keys[i])
  {
    forall j | 0 <= j < |keys[i]| ensures keys[i][j] in key {
      assert InSome(keys, keys[i][j]);
      var k :| 0 <= k < |union| && union[k] == keys[i][j];
    }
  }
}
