/** g_int_union: the keys of a page concatenated, sorted and freed of duplicates. */
module IntUnion {
  import opened Machine
  import opened IntRanges

  ghost predicate InSome(keys: seq<seq<int>>, x: int) { exists k :: 0 <= k < |keys| && x in keys[k] }

  /** The strictly increasing union of the keys. */
  ghost predicate IsUnion(u: seq<int>, keys: seq<seq<int>>) {
    Increasing(u) && forall x :: x in u <==> InSome(keys, x)
  }

  function TotalLen(keys: seq<seq<int>>): nat {
    if keys == [] then 0 else TotalLen(keys[..|keys| - 1]) + |keys[|keys| - 1]|
  }

  /** Bytes of an integer array without its elements. */
  const OVERHEAD := 24

  /** The size of the concatenation fits in 32 bits, counted in bytes. */
  predicate Countable(keys: seq<seq<int>>) { OVERHEAD + 4 * TotalLen(keys) < 0x1_0000_0000 }

  /** Refused by the allocator; a byte count that wraps around is an outcome of its own. */
  datatype United = Union(u: seq<int>) | NoMemory | Unsized

  method UnionOf(keys: seq<seq<int>>) returns (r: United)
    ensures r.Unsized? <==> !Countable(keys)
    ensures r.NoMemory? <==> Countable(keys) && OVERHEAD + 4 * TotalLen(keys) > MAX_ALLOC
    ensures r.Union? ==> IsUnion(r.u, keys)
  {
    var totlen := 0;
    for i := 0 to |keys|
      invariant totlen == TotalLen(keys[..i])
    {
      TotalNext(keys, i);
      totlen := totlen + |keys[i]|;
    }
    assert keys[..|keys|] == keys;
    if OVERHEAD + 4 * totlen >= 0x1_0000_0000 { return Unsized; }
    if OVERHEAD + 4 * totlen > MAX_ALLOC { return NoMemory; }
    var all := Concat(keys);
    var sorted := Sort(all);
    var u := Unique(sorted);
    r := Union(u);
  }

  lemma TotalNext(keys: seq<seq<int>>, i: nat)
    requires i < |keys|
    ensures TotalLen(keys[..i + 1]) == TotalLen(keys[..i]) + |keys[i]|
  {
    assert keys[..i + 1][..i] == keys[..i];
  }

  method Concat(keys: seq<seq<int>>) returns (all: seq<int>)
    ensures forall x :: x in all <==> InSome(keys, x)
  {
    all := [];
    for i := 0 to |keys|
      invariant forall x :: x in all <==> InSome(keys[..i], x)
    {
      forall x ensures InSome(keys[..i + 1], x) <==> InSome(keys[..i], x) || x in keys[i] { InSomeNext(keys, i, x); }
      all := all + keys[i];
    }
    assert keys[..|keys|] == keys;
  }

  lemma InSomeNext(keys: seq<seq<int>>, i: nat, x: int)
    requires i < |keys|
    ensures InSome(keys[..i + 1], x) <==> InSome(keys[..i], x) || x in keys[i]
  {
    if InSome(keys[..i], x) {
      var k :| 0 <= k < i && x in keys[..i][k];
      assert keys[..i + 1][k] == keys[..i][k];
    }
    if x in keys[i] { assert keys[..i + 1][i] == keys[i]; }
    if InSome(keys[..i + 1], x) {
      var k :| 0 <= k < i + 1 && x in keys[..i + 1][k];
      if k < i { assert keys[..i][k] == keys[..i + 1][k]; }
    }
  }

  predicate InOrder(s: seq<int>) { forall i, j :: 0 <= i < j < |s| ==> s[i] <= s[j] }

  /** `x` put behind all elements that are not greater. */
  function Insert(s: seq<int>, x: int): seq<int> {
    if s == [] || s[|s| - 1] <= x then s + [x] else Insert(s[..|s| - 1], x) + [s[|s| - 1]]
  }

  lemma {:induction false} InsertFacts(s: seq<int>, x: int)
    requires InOrder(s)
    ensures InOrder(Insert(s, x)) && forall y :: y in Insert(s, x) <==> y == x || y in s
    decreases |s|
  {
    if s != [] && s[|s| - 1] > x {
      var front, last := s[..|s| - 1], s[|s| - 1];
      InsertFacts(front, x);
      assert s == front + [last];
      var t := Insert(front, x);
      forall i | 0 <= i < |t| ensures t[i] <= last { assert t[i] in t && (t[i] == x || t[i] in front); }
    }
  }

  /** qsort by its contract, carried out by insertion. */
  method Sort(s: seq<int>) returns (r: seq<int>)
    ensures InOrder(r) && forall x :: x in r <==> x in s
  {
    r := [];
    for i := 0 to |s|
      invariant InOrder(r) && forall x :: x in r <==> x in s[..i]
    {
      InsertFacts(r, s[i]);
      r := Insert(r, s[i]);
      assert s[..i + 1] == s[..i] + [s[i]];
    }
    assert s[..|s|] == s;
  }

  /** qunique by its contract. */
  method Unique(s: seq<int>) returns (u: seq<int>)
    requires InOrder(s)
    ensures Increasing(u) && forall x :: x in u <==> x in s
  {
    u := [];
    for i := 0 to |s|
      invariant Increasing(u) && (forall x :: x in u <==> x in s[..i])
      invariant u != [] ==> i > 0 && u[|u| - 1] == s[i - 1]
      invariant u == [] ==> i == 0
    {
      assert s[..i + 1] == s[..i] + [s[i]];
      if u == [] || u[|u| - 1] != s[i] { u := u + [s[i]]; }
    }
    assert s[..|s|] == s;
  }
}
