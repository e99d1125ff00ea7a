/** Leaf keys of the GiST index on integer arrays: stored as they are, yet decompressed on reading. */
module IntLeaves {
  import opened Machine
  import opened IntRanges
  import opened IntCompress
  import opened IntExpand

  /** Two by two, consecutive integers. */
  predicate Paired(a: seq<int>) {
    |a| < 2 || (a[|a| - 1] == a[|a| - 2] + 1 && Paired(a[..|a| - 2]))
  }

  /** Ascending endpoints span at least as many integers as there are endpoints, and exactly as
      many only in consecutive pairs. */
  lemma {:induction false} PairedTotal(a: seq<int>)
    requires Increasing(a) && |a| % 2 == 0
    ensures WellRanged(a) && RangeTotal(a) >= |a| && (RangeTotal(a) == |a| <==> Paired(a))
    decreases |a|
  {
    if |a| >= 2 { PairedTotal(a[..|a| - 2]); }
  }

  lemma {:induction false} PairedExpands(a: seq<int>)
    requires Paired(a) && |a| % 2 == 0
    ensures Expand(a) == a
    decreases |a|
  {
    if |a| >= 2 {
      PairedExpands(a[..|a| - 2]);
      assert Count(a[|a| - 2], a[|a| - 1]) == [a[|a| - 2], a[|a| - 1]];
    }
  }

  /** What an array stored in a leaf is read as. Leaves are stored as they are, whatever their
      length, and decompressed like any other key. */
  function ReadLeaf(a: seq<int>, n: nat): Decompressed {
    var d := Decompression(a, n);
    if d.Plain? then Expanded(a) else d
  }

  /** A leaf reads back as itself if and only if it is shorter than 2 * num_ranges, or is made of
      pairs of consecutive integers below the largest one. */
  lemma ReadLeafIff(a: seq<int>, n: nat)
    requires Increasing(a)
    ensures ReadLeaf(a, n) == Expanded(a) <==>
        !Long(a, n) || (|a| % 2 == 0 && Paired(a) && |a| <= MAXNUMELTS && a[|a| - 1] != INT_MAX)
  {
    if |a| % 2 == 0 {
      PairedTotal(a);
      ExpandSize(a);
      if Paired(a) { PairedExpands(a); }
    }
  }

  /** What is read is ascending and has all the elements. */
  lemma ReadLeafIncludes(a: seq<int>, n: nat)
    requires Increasing(a) && ReadLeaf(a, n).Expanded?
    ensures Increasing(ReadLeaf(a, n).s) && forall i :: 0 <= i < |a| ==> a[i] in ReadLeaf(a, n).s
  {
    if Long(a, n) { ExpandIncludes(a); }
  }

  lemma ExpandIncludes(a: seq<int>)
    requires Increasing(a) && |a| % 2 == 0
    ensures Increasing(Expand(a)) && forall i :: 0 <= i < |a| ==> a[i] in Expand(a)
  {
    PairedTotal(a);
    ExpandFacts(a);
    forall i | 0 <= i < |a| ensures a[i] in Expand(a) { EndpointIn(a, i); }
  }

  lemma {:induction false} EndpointIn(a: seq<int>, i: nat)
    requires Increasing(a) && |a| % 2 == 0 && i < |a|
    ensures a[i] in Expand(a)
    decreases |a|
  {
    if i < |a| - 2 { EndpointIn(a[..|a| - 2], i); } else { CountHas(a[|a| - 2], a[|a| - 1], a[i]); }
  }

  /** g_int_compress and g_int_decompress of a leaf entry. */
  method LoadLeaf(a: seq<int>, n: nat) returns (r: Decompressed)
    requires Increasing(a) && forall k :: 0 <= k < |a| ==> IsInt32(a[k])
    ensures r == ReadLeaf(a, n)
  {
    if |a| % 2 == 0 { PairedTotal(a); }
    r := Decompress(a, n);
    if r.Plain? { r := Expanded(a); }
  }
}
