/** g_int_compress: inner keys as the fewest integers that num_ranges ranges allow. */
module IntCompress {
  import opened Machine
  import opened IntRanges

  const MAXNUMELTS := 67_108_863

  // ----- a key cut into ranges -----

  /** Positions where the ranges start, with the length of the key as the last one. */
  ghost predicate IsCuts(key: seq<int>, cuts: seq<int>) {
    && |cuts| >= 2 && cuts[|cuts| - 1] == |key|
    && Increasing(cuts) && 0 <= cuts[0]
  }

  /** The ranges as endpoints in a row. */
  ghost function Flat(key: seq<int>, cuts: seq<int>): (r: seq<int>)
    requires IsCuts(key, cuts)
    ensures |r| == 2 * (|cuts| - 1)
  {
    seq(2 * (|cuts| - 1), i requires 0 <= i < 2 * (|cuts| - 1) =>
      if i % 2 == 0 then key[cuts[i / 2]] else key[cuts[i / 2 + 1] - 1])
  }

  lemma FlatAt(key: seq<int>, cuts: seq<int>, k: nat)
    requires IsCuts(key, cuts) && k < |cuts| - 1
    ensures Flat(key, cuts)[2 * k] == key[cuts[k]] && Flat(key, cuts)[2 * k + 1] == key[cuts[k + 1] - 1]
  {
  }

  lemma FlatPrepend(key: seq<int>, c: int, cuts: seq<int>)
    requires IsCuts(key, cuts) && 0 <= c < cuts[0]
    ensures IsCuts(key, [c] + cuts)
    ensures Flat(key, [c] + cuts) == [key[c], key[cuts[0] - 1]] + Flat(key, cuts)
  {
    var l, r := Flat(key, [c] + cuts), [key[c], key[cuts[0] - 1]] + Flat(key, cuts);
    forall i | 0 <= i < |l| ensures l[i] == r[i] {
      if i >= 2 { assert (i - 2) % 2 == i % 2 && (i - 2) / 2 == i / 2 - 1; }
    }
  }

  /** Without cut m, the end of the range before it and the start of the one at it are gone. */
  lemma FlatRemove(key: seq<int>, cuts: seq<int>, m: nat)
    requires IsCuts(key, cuts) && 0 < m < |cuts| - 1
    ensures IsCuts(key, cuts[..m] + cuts[m + 1..])
    ensures Flat(key, cuts[..m] + cuts[m + 1..]) == Flat(key, cuts)[..2 * m - 1] + Flat(key, cuts)[2 * m + 1..]
  {
    var c := cuts[..m] + cuts[m + 1..];
    var l, r := Flat(key, c), Flat(key, cuts)[..2 * m - 1] + Flat(key, cuts)[2 * m + 1..];
    forall i | 0 <= i < |l| ensures l[i] == r[i] {
      if i >= 2 * m - 1 { assert (i + 2) % 2 == i % 2 && (i + 2) / 2 == i / 2 + 1; }
    }
  }

  // ----- phase one: runs of consecutive integers -----

  /** Only gaps of one have been closed from position lo on. */
  ghost predicate RunsOnly(key: seq<int>, cuts: seq<int>, lo: int) {
    forall p :: 0 < p < |key| && lo <= p && p !in cuts ==> Gap(key, p) == 1
  }

  /** The backward pass. It writes the ranges at the upper end of the same array it reads the key
      from; what is not yet read is never overwritten. */
  method MergeRuns(dr: array<int>, ghost key: seq<int>, len: nat, n: nat) returns (j: int, ghost cuts: seq<int>)
    requires len == |key| && dr.Length == 2 * len && dr[..len] == key && Increasing(key)
    requires 1 <= n && 2 * n <= len
    modifies dr
    ensures 0 <= j <= len - n && |cuts| == len - j + 1
    ensures IsCuts(key, cuts) && cuts[0] == 0 && dr[2 * j..] == Flat(key, cuts)
    ensures RunsOnly(key, cuts, 0)
  {
    assert forall k :: 0 <= k < len ==> dr[k] == dr[..len][k];
    var lenr := len - n;
    var i := len - 1;
    j := i;
    cuts := [len];
    while i > 0 && lenr > 0
      invariant -1 <= i <= j < len && 0 <= lenr == len - n - (j - i)
      invariant forall k :: 0 <= k <= i ==> dr[k] == key[k]
      invariant Tail(dr[..], key, cuts, i, j) && RunsOnly(key, cuts, i + 1)
    {
      ghost var e := i;
      var rEnd := dr[i];
      var rStart;
      i, lenr, rStart := ReadRun(dr, key, i, lenr);
      WriteRange(dr, j, rStart, rEnd, key, cuts, i, e);
      cuts := [i] + cuts;
      i, j := i - 1, j - 1;
    }
    j, cuts := CopyRest(dr, key, i, j, cuts);
  }

  /** The rest of the key as trivial ranges. */
  method CopyRest(dr: array<int>, ghost key: seq<int>, i0: int, j0: int, ghost cuts0: seq<int>)
      returns (j: int, ghost cuts: seq<int>)
    requires |key| > 0 && dr.Length == 2 * |key| && -1 <= i0 <= j0 < |key|
    requires (forall k :: 0 <= k <= i0 ==> dr[k] == key[k]) && Tail(dr[..], key, cuts0, i0, j0) &&
        RunsOnly(key, cuts0, i0 + 1)
    modifies dr
    ensures j == j0 - i0 && |cuts| == |key| - j + 1
    ensures IsCuts(key, cuts) && cuts[0] == 0 && dr[2 * j..] == Flat(key, cuts)
    ensures RunsOnly(key, cuts, 0)
  {
    var i := i0;
    j, cuts := j0, cuts0;
    while i >= 0
      invariant j - i == j0 - i0 && Pending(dr[..], key, cuts, i, j)
    {
      CopyOne(dr, key, cuts, i, j);
      cuts := [i] + cuts;
      i, j := i - 1, j - 1;
    }
    TailDone(dr[..], key, cuts, j);
    j := j + 1;
  }

  /** The elements up to position i are still to be read, those above are in the tail. */
  ghost predicate Pending(a: seq<int>, key: seq<int>, cuts: seq<int>, i: int, j: int) {
    && Tail(a, key, cuts, i, j) && RunsOnly(key, cuts, i + 1)
    && forall k :: 0 <= k <= i ==> a[k] == key[k]
  }

  method CopyOne(dr: array<int>, ghost key: seq<int>, ghost cuts: seq<int>, i: int, j: int)
    requires i >= 0 && Pending(dr[..], key, cuts, i, j) && dr.Length == 2 * |key|
    modifies dr
    ensures Pending(dr[..], key, [i] + cuts, i - 1, j - 1)
  {
    assert forall k :: 0 <= k <= i ==> dr[k] == dr[..][k];
    WriteRange(dr, j, dr[i], dr[i], key, cuts, i, i);
  }

  lemma TailDone(a: seq<int>, key: seq<int>, cuts: seq<int>, j: int)
    requires |key| > 0 && Tail(a, key, cuts, -1, j)
    ensures |cuts| == |key| - j && IsCuts(key, cuts) && cuts[0] == 0 && a[2 * (j + 1)..] == Flat(key, cuts)
  {
  }

  /** The ranges for the elements above position i fill the array above index 2 * j + 1. */
  ghost predicate Tail(a: seq<int>, key: seq<int>, cuts: seq<int>, i: int, j: int) {
    && |cuts| == |key| - j && -1 <= i <= j < |key| && |a| == 2 * |key|
    && (if |cuts| == 1 then cuts == [|key|] && i == |key| - 1
        else IsCuts(key, cuts) && cuts[0] == i + 1 && a[2 * j + 2..] == Flat(key, cuts))
  }

  /** Stores one range at slot j and leaves the unread elements below position i alone. */
  method WriteRange(dr: array<int>, j: nat, lo: int, hi: int, ghost key: seq<int>, ghost cuts: seq<int>, ghost i: int,
      ghost e: int)
    requires 0 <= i <= e <= j < |key| && dr.Length == 2 * |key|
    requires Tail(dr[..], key, cuts, e, j) && RunsOnly(key, cuts, e + 1)
    requires lo == key[i] && hi == key[e]
    requires forall p :: i < p <= e ==> Gap(key, p) == 1
    modifies dr
    ensures Tail(dr[..], key, [i] + cuts, i - 1, j - 1) && RunsOnly(key, [i] + cuts, i)
    ensures forall k :: 0 <= k < i ==> dr[k] == old(dr[k])
  {
    ghost var was := dr[..];
    dr[2 * j + 1] := hi;
    dr[2 * j] := lo;
    assert dr[..][2 * j + 2..] == was[2 * j + 2..];
    PushRange(dr[..], key, cuts, i, e, j);
  }

  /** The inner loop: walks down a run of consecutive integers while there is something to save. */
  method ReadRun(dr: array<int>, ghost key: seq<int>, e: nat, budget: nat) returns (i: nat, lenr: nat, rStart: int)
    requires e < |key| && e < dr.Length && forall k :: 0 <= k <= e ==> dr[k] == key[k]
    ensures i <= e && lenr == budget - (e - i) && rStart == key[i]
    ensures forall p :: i < p <= e ==> Gap(key, p) == 1
  {
    i, lenr, rStart := e, budget, dr[e];
    while i > 0 && lenr > 0 && dr[i - 1] == rStart - 1
      invariant i <= e && rStart == key[i] && lenr == budget - (e - i)
      invariant forall p :: i < p <= e ==> Gap(key, p) == 1
    {
      rStart, i, lenr := rStart - 1, i - 1, lenr - 1;
    }
  }

  lemma PushRange(a: seq<int>, key: seq<int>, cuts: seq<int>, i: int, e: int, j: int)
    requires 0 <= i <= e <= j < |key|
    requires Tail(a, key, cuts, e, j) && RunsOnly(key, cuts, e + 1)
    requires a[2 * j] == key[i] && a[2 * j + 1] == key[e]
    requires forall p :: i < p <= e ==> Gap(key, p) == 1
    ensures Tail(a, key, [i] + cuts, i - 1, j - 1) && RunsOnly(key, [i] + cuts, i)
  {
    if |cuts| == 1 {
      assert [i] + cuts == [i, |key|];
      assert a[2 * j..] == Flat(key, [i, |key|]);
    } else {
      FlatPrepend(key, i, cuts);
      assert a[2 * j..] == [a[2 * j], a[2 * j + 1]] + a[2 * j + 2..];
    }
  }

  // ----- phase two: the smallest gap, again and again -----

  ghost predicate CutsThreshold(key: seq<int>, cuts: seq<int>, t: int) {
    t >= 1 && forall p :: 0 < p < |key| ==> if p in cuts then Gap(key, p) >= t else Gap(key, p) <= t
  }

  /** Index of the first smallest gap between ranges; the search starts from the largest 64-bit
      integer. */
  method SmallestGap(dr: array<int>, len: nat) returns (cand: nat)
    requires 4 <= len <= dr.Length && len % 2 == 0
    requires forall k :: 0 <= k < len ==> IsInt32(dr[k])
    ensures 2 <= cand < len && cand % 2 == 0
    ensures forall i :: 2 <= i < len && i % 2 == 0 ==> dr[cand] - dr[cand - 1] <= dr[i] - dr[i - 1]
  {
    var min := 0x7fff_ffff_ffff_ffff;
    cand := 1;
    var i := 2;
    while i < len
      invariant 2 <= i <= len && i % 2 == 0
      invariant i == 2 ==> min == 0x7fff_ffff_ffff_ffff
      invariant i > 2 ==> 2 <= cand < i && cand % 2 == 0 && min == dr[cand] - dr[cand - 1]
      invariant forall k :: 2 <= k < i && k % 2 == 0 ==> min <= dr[k] - dr[k - 1]
    {
      if min > dr[i] - dr[i - 1] {
        min := dr[i] - dr[i - 1];
        cand := i;
      }
      i := i + 2;
    }
  }

  /** memmove within one array */
  method MemMove(a: array<int>, dst: nat, src: nat, count: nat)
    requires dst + count <= a.Length && src + count <= a.Length
    modifies a
    ensures a[dst..dst + count] == old(a[src..src + count])
    ensures a[..dst] == old(a[..dst]) && a[dst + count..] == old(a[dst + count..])
  {
    forall k | 0 <= k < count { a[dst + k] := a[src + k]; }
  }

  method DropPair(dr: array<int>, len: nat, at: nat)
    requires at + 2 <= len <= dr.Length
    modifies dr
    ensures dr[..len - 2] == old(dr[..len][..at] + dr[..len][at + 2..])
  {
    ghost var was := dr[..len];
    MemMove(dr, at, at + 2, len - at - 2);
    assert dr[..len - 2] == dr[..at] + dr[at..len - 2];
    assert was[..at] == old(dr[..at]) && was[at + 2..] == old(dr[at + 2..len]);
  }

  lemma MemberAfterRemove(cuts: seq<int>, m: nat, p: int)
    requires Increasing(cuts) && m < |cuts|
    ensures p in cuts[..m] + cuts[m + 1..] <==> p in cuts && p != cuts[m]
  {
    var c := cuts[..m] + cuts[m + 1..];
    if p in cuts && p != cuts[m] {
      var k :| 0 <= k < |cuts| && cuts[k] == p;
      assert c[if k < m then k else k - 1] == p;
    }
  }

  /** The widest gap closed so far is the new threshold. */
  lemma RemoveCut(key: seq<int>, cuts: seq<int>, m: nat, t: int)
    requires Increasing(key) && IsCuts(key, cuts) && cuts[0] == 0 && 0 < m < |cuts| - 1 && CutsThreshold(key, cuts, t)
    requires forall k :: 0 < k < |cuts| - 1 ==> Gap(key, cuts[m]) <= Gap(key, cuts[k])
    ensures CutsThreshold(key, cuts[..m] + cuts[m + 1..], Gap(key, cuts[m]))
  {
    var c := cuts[..m] + cuts[m + 1..];
    assert cuts[m] in cuts && Gap(key, cuts[m]) >= t;
    forall p | 0 < p < |key| ensures if p in c then Gap(key, p) >= Gap(key, cuts[m])
        else Gap(key, p) <= Gap(key, cuts[m]) {
      MemberAfterRemove(cuts, m, p);
      if p in c { var k :| 0 <= k < |cuts| && cuts[k] == p; }
    }
  }

  /** Gaps between neighbouring ranges are gaps of the key at the cuts. */
  lemma FlatGap(key: seq<int>, cuts: seq<int>, k: nat)
    requires IsCuts(key, cuts) && 0 < k < |cuts| - 1
    ensures Flat(key, cuts)[2 * k] - Flat(key, cuts)[2 * k - 1] == Gap(key, cuts[k])
  {
    FlatAt(key, cuts, k);
    FlatAt(key, cuts, k - 1);
  }

  lemma SmallestCut(key: seq<int>, cuts: seq<int>, m: nat)
    requires IsCuts(key, cuts) && 0 < m < |cuts| - 1
    requires var flat := Flat(key, cuts);
             forall i :: 2 <= i < |flat| && i % 2 == 0 ==> flat[2 * m] - flat[2 * m - 1] <= flat[i] - flat[i - 1]
    ensures forall k :: 0 < k < |cuts| - 1 ==> Gap(key, cuts[m]) <= Gap(key, cuts[k])
  {
    var flat := Flat(key, cuts);
    FlatGap(key, cuts, m);
    forall k | 0 < k < |cuts| - 1 ensures Gap(key, cuts[m]) <= Gap(key, cuts[k]) {
      FlatGap(key, cuts, k);
      assert 2 <= 2 * k < |flat| && (2 * k) % 2 == 0;
    }
  }

  method CloseGaps(dr: array<int>, ghost key: seq<int>, len0: nat, n: nat, ghost cuts0: seq<int>)
      returns (len: nat, ghost cuts: seq<int>, ghost t: int)
    requires Increasing(key) && (forall k :: 0 <= k < |key| ==> IsInt32(key[k]))
    requires IsCuts(key, cuts0) && cuts0[0] == 0 && CutsThreshold(key, cuts0, 1)
    requires 1 <= n <= |cuts0| - 1 && len0 == 2 * (|cuts0| - 1) <= dr.Length && dr[..len0] == Flat(key, cuts0)
    modifies dr
    ensures len == 2 * n && |cuts| == n + 1 && IsCuts(key, cuts) && cuts[0] == 0
    ensures dr[..len] == Flat(key, cuts) && CutsThreshold(key, cuts, t)
  {
    len, cuts, t := len0, cuts0, 1;
    while len > 2 * n
      invariant IsCuts(key, cuts) && cuts[0] == 0 && n <= |cuts| - 1 && len == 2 * (|cuts| - 1) <= dr.Length
      invariant dr[..len] == Flat(key, cuts) && CutsThreshold(key, cuts, t)
    {
      cuts, t := CloseOne(dr, key, len, cuts, t);
      len := len - 2;
    }
  }

  /** One turn of the merging loop. */
  method CloseOne(dr: array<int>, ghost key: seq<int>, len: nat, ghost cuts: seq<int>, ghost t: int)
      returns (ghost cuts': seq<int>, ghost t': int)
    requires Increasing(key) && (forall k :: 0 <= k < |key| ==> IsInt32(key[k]))
    requires IsCuts(key, cuts) && cuts[0] == 0 && CutsThreshold(key, cuts, t)
    requires 4 <= len == 2 * (|cuts| - 1) <= dr.Length && dr[..len] == Flat(key, cuts)
    modifies dr
    ensures |cuts'| == |cuts| - 1 && IsCuts(key, cuts') && cuts'[0] == 0 && CutsThreshold(key, cuts', t')
    ensures dr[..len - 2] == Flat(key, cuts')
  {
    var cand := NarrowestGap(dr, key, len, cuts);
    ghost var m := cand / 2;
    assert cand == 2 * m;
    FlatRemove(key, cuts, m);
    RemoveCut(key, cuts, m, t);
    cuts', t' := cuts[..m] + cuts[m + 1..], Gap(key, cuts[m]);
    DropPair(dr, len, cand - 1);
  }

  method NarrowestGap(dr: array<int>, ghost key: seq<int>, len: nat, ghost cuts: seq<int>) returns (cand: nat)
    requires IsCuts(key, cuts) && 4 <= len == 2 * (|cuts| - 1) <= dr.Length && dr[..len] == Flat(key, cuts)
    requires forall k :: 0 <= k < |key| ==> IsInt32(key[k])
    ensures 2 <= cand < len && cand % 2 == 0
    ensures forall k :: 0 < k < |cuts| - 1 ==> Gap(key, cuts[cand / 2]) <= Gap(key, cuts[k])
  {
    ghost var flat := Flat(key, cuts);
    assert forall k :: 0 <= k < len ==> dr[k] == dr[..len][k] == flat[k];
    cand := SmallestGap(dr, len);
    assert 2 * (cand / 2) == cand;
    SmallestCut(key, cuts, cand / 2);
  }

  // ----- size -----

  /** Endpoints of disjoint ranges in ascending order. */
  predicate WellRanged(r: seq<int>) {
    |r| % 2 == 0 && forall i :: 0 <= i < |r| - 1 ==> if i % 2 == 0 then r[i] <= r[i + 1] else r[i] < r[i + 1]
  }

  function RangeTotal(r: seq<int>): int {
    if |r| < 2 then 0 else RangeTotal(r[..|r| - 2]) + (r[|r| - 1] - r[|r| - 2] + 1)
  }

  /** internal_size; -1 stands for a count that does not fit in an int. */
  method InternalSize(a: seq<int>) returns (size: int)
    requires WellRanged(a)
    ensures RangeTotal(a) >= 0 && size == if RangeTotal(a) > INT_MAX then -1 else RangeTotal(a)
  {
    size := 0;
    var i := 0;
    while i < |a|
      invariant 0 <= i <= |a| && i % 2 == 0 && size == RangeTotal(a[..i]) >= 0
    {
      assert a[..i + 2][..i] == a[..i];
      if i == 0 || a[i] != a[i - 1] {
        size := size + (a[i + 1] - a[i] + 1);
      }
      i := i + 2;
    }
    assert a[..i] == a;
    if size > INT_MAX { size := -1; }
  }

  lemma FlatWellRanged(key: seq<int>, cuts: seq<int>)
    requires Increasing(key) && IsCuts(key, cuts)
    ensures WellRanged(Flat(key, cuts))
  {
    var r := Flat(key, cuts);
    forall i | 0 <= i < |r| - 1 ensures if i % 2 == 0 then r[i] <= r[i + 1] else r[i] < r[i + 1] {
      if i % 2 == 0 { assert (i + 1) / 2 == i / 2; } else { assert (i + 1) / 2 == i / 2 + 1; }
    }
  }

  /** Inside a range every gap is filled. */
  lemma {:induction false} InsideRange(key: seq<int>, cuts: seq<int>, open: int -> bool, k: nat, q: nat)
    requires IsCuts(key, cuts) && cuts[0] == 0 && k < |cuts| - 1 && cuts[k] <= q < cuts[k + 1]
    requires forall p :: open(p) == (p in cuts)
    ensures Filled(key, open, q) == key[q] - key[cuts[k]] + 1 + (if k == 0 then 0 else Filled(key, open, cuts[k] - 1))
    ensures OpenCount(open, q) == (if k == 0 then 0 else 1 + OpenCount(open, cuts[k] - 1))
    decreases q
  {
    if q > cuts[k] {
      InsideRange(key, cuts, open, k, q - 1);
      assert q !in cuts;
    } else {
      assert q in cuts;
    }
  }

  lemma TotalStep(r: seq<int>, k: nat)
    requires 1 <= k && 2 * k <= |r|
    ensures RangeTotal(r[..2 * k]) == RangeTotal(r[..2 * (k - 1)]) + (r[2 * (k - 1) + 1] - r[2 * (k - 1)] + 1)
    ensures k == 1 ==> RangeTotal(r[..2 * (k - 1)]) == 0
  {
    assert r[..2 * k][..2 * k - 2] == r[..2 * (k - 1)];
  }

  /** `fill` grows by the size of one range after the other. */
  ghost predicate FillStep(key: seq<int>, cuts: seq<int>, fill: seq<int>, k: int)
    requires IsCuts(key, cuts) && |fill| == |cuts| && 0 < k < |cuts|
  {
    fill[k] == fill[k - 1] + (key[cuts[k] - 1] - key[cuts[k - 1]] + 1)
  }

  lemma {:induction false} SumRanges(key: seq<int>, cuts: seq<int>, fill: seq<int>, k: nat)
    requires IsCuts(key, cuts) && |fill| == |cuts| && fill[0] == 0 && k < |cuts|
    requires forall i :: 0 < i < |cuts| ==> FillStep(key, cuts, fill, i)
    ensures RangeTotal(Flat(key, cuts)[..2 * k]) == fill[k]
    decreases k
  {
    if k > 0 {
      SumRanges(key, cuts, fill, k - 1);
      TotalStep(Flat(key, cuts), k);
      FlatAt(key, cuts, k - 1);
      assert FillStep(key, cuts, fill, k);
    }
  }

  ghost function FillSeq(key: seq<int>, cuts: seq<int>, open: int -> bool): (fill: seq<int>)
    requires IsCuts(key, cuts) && cuts[0] == 0
    ensures |fill| == |cuts| && fill[0] == 0 && forall k :: 0 < k < |cuts| ==> fill[k] == Filled(key, open, cuts[k] - 1)
  {
    seq(|cuts|, k requires 0 <= k < |cuts| => if k == 0 then 0 else Filled(key, open, cuts[k] - 1))
  }

  lemma FillSeqSteps(key: seq<int>, cuts: seq<int>, open: int -> bool)
    requires IsCuts(key, cuts) && cuts[0] == 0
    requires forall p :: open(p) == (p in cuts)
    ensures forall k :: 0 < k < |cuts| ==> FillStep(key, cuts, FillSeq(key, cuts, open), k)
  {
    forall k | 0 < k < |cuts| ensures FillStep(key, cuts, FillSeq(key, cuts, open), k) {
      InsideRange(key, cuts, open, k - 1, cuts[k] - 1);
    }
  }

  /** The total size of the ranges, counted by gaps. */
  lemma TotalIsFilled(key: seq<int>, cuts: seq<int>, open: int -> bool)
    requires IsCuts(key, cuts) && cuts[0] == 0
    requires forall p :: open(p) == (p in cuts)
    ensures RangeTotal(Flat(key, cuts)) == Filled(key, open, |key| - 1)
  {
    var n := |cuts| - 1;
    FillSeqSteps(key, cuts, open);
    SumRanges(key, cuts, FillSeq(key, cuts, open), n);
    assert Flat(key, cuts)[..2 * n] == Flat(key, cuts);
  }

  lemma {:induction false} OpenIsCuts(key: seq<int>, cuts: seq<int>, open: int -> bool, k: nat)
    requires IsCuts(key, cuts) && cuts[0] == 0 && 1 <= k < |cuts|
    requires forall p :: open(p) == (p in cuts)
    ensures OpenCount(open, cuts[k] - 1) == k - 1
    decreases k
  {
    InsideRange(key, cuts, open, k - 1, cuts[k] - 1);
    if k > 1 { OpenIsCuts(key, cuts, open, k - 1); }
  }

  // ----- compression -----

  function Pairs(r: seq<int>): (fs: seq<Interval>)
    ensures |fs| == |r| / 2
  {
    seq(|r| / 2, k requires 0 <= k < |r| / 2 => Interval(r[2 * k], r[2 * k + 1]))
  }

  /** No cover of the key by at most n intervals has fewer integers than `total`. */
  ghost predicate NoneSmaller(key: seq<int>, n: nat, total: int) {
    forall fs :: |fs| <= n && Covers(fs, key) ==> |Ints(fs)| >= total
  }

  lemma {:induction false} BlockOf(key: seq<int>, cuts: seq<int>, i: nat, k: nat) returns (b: nat)
    requires IsCuts(key, cuts) && cuts[0] == 0 && k < |cuts| && i < cuts[k]
    ensures b < |cuts| - 1 && cuts[b] <= i < cuts[b + 1]
    decreases k
  {
    if cuts[k - 1] <= i { b := k - 1; } else { b := BlockOf(key, cuts, i, k - 1); }
  }

  lemma FlatCovers(key: seq<int>, cuts: seq<int>)
    requires Increasing(key) && IsCuts(key, cuts) && cuts[0] == 0
    ensures Covers(Pairs(Flat(key, cuts)), key)
  {
    var fs := Pairs(Flat(key, cuts));
    forall i | 0 <= i < |key| ensures InFamily(fs, key[i]) {
      var b := BlockOf(key, cuts, i, |cuts| - 1);
      FlatAt(key, cuts, b);
      assert Has(fs[b], key[i]);
    }
  }

  lemma FlatIsBest(key: seq<int>, cuts: seq<int>, n: nat, t: int)
    requires Increasing(key) && IsCuts(key, cuts) && cuts[0] == 0 && |cuts| == n + 1 && CutsThreshold(key, cuts, t)
    ensures NoneSmaller(key, n, RangeTotal(Flat(key, cuts)))
  {
    var open := p => p in cuts;
    TotalIsFilled(key, cuts, open);
    OpenIsCuts(key, cuts, open, n);
    forall fs | |fs| <= n && Covers(fs, key) ensures |Ints(fs)| >= RangeTotal(Flat(key, cuts)) {
      CoverAtLeast(fs, key, open, t);
    }
  }

  datatype Compressed = Same | Ranges(r: seq<int>) | TooSparse

  /** g_int_compress on an inner key. */
  method Compress(key: seq<int>, n: nat) returns (c: Compressed)
    requires n >= 1 && Increasing(key) && forall k :: 0 <= k < |key| ==> IsInt32(key[k])
    ensures c.Same? <==> |key| < 2 * n
    ensures c.Ranges? ==> |c.r| == 2 * n && WellRanged(c.r) && Covers(Pairs(c.r), key)
    ensures c.Ranges? ==> forall k :: 0 <= k < |c.r| ==> key[0] <= c.r[k] <= key[|key| - 1]
    ensures c.Ranges? ==> c.r[|c.r| - 1] == key[|key| - 1]
    ensures c.Ranges? ==> RangeTotal(c.r) <= MAXNUMELTS && NoneSmaller(key, n, RangeTotal(c.r))
    ensures c.TooSparse? <==> |key| >= 2 * n && NoneSmaller(key, n, MAXNUMELTS + 1)
  {
    if |key| < 2 * n { return Same; }
    var r := BestRanges(key, n);
    var lenr := InternalSize(r);
    if lenr < 0 || lenr > MAXNUMELTS {
      NoneSmallerMono(key, n, RangeTotal(r), MAXNUMELTS + 1);
      return TooSparse;
    }
    RangesFew(r);
    assert |Ints(Pairs(r))| < MAXNUMELTS + 1;
    return Ranges(r);
  }

  /** Ranges hold no more integers than their lengths add up to. */
  lemma {:induction false} RangesFew(r: seq<int>)
    requires WellRanged(r)
    ensures |Ints(Pairs(r))| <= RangeTotal(r)
    decreases |r|
  {
    if |r| >= 2 {
      RangesFew(r[..|r| - 2]);
      PairsPush(r);
      IntsPush(Pairs(r[..|r| - 2]), Interval(r[|r| - 2], r[|r| - 1]));
    }
  }

  lemma PairsPush(r: seq<int>)
    requires |r| >= 2 && |r| % 2 == 0
    ensures Pairs(r) == Pairs(r[..|r| - 2]) + [Interval(r[|r| - 2], r[|r| - 1])]
  {
  }

  lemma NoneSmallerMono(key: seq<int>, n: nat, a: int, b: int)
    requires NoneSmaller(key, n, a) && b <= a
    ensures NoneSmaller(key, n, b)
  {
  }

  method BestRanges(key: seq<int>, n: nat) returns (r: seq<int>)
    requires 1 <= n && 2 * n <= |key| && Increasing(key) && forall k :: 0 <= k < |key| ==> IsInt32(key[k])
    ensures |r| == 2 * n && WellRanged(r) && Covers(Pairs(r), key) && NoneSmaller(key, n, RangeTotal(r))
    ensures forall k :: 0 <= k < |r| ==> key[0] <= r[k] <= key[|key| - 1]
    ensures r[|r| - 1] == key[|key| - 1]
  {
    ghost var cuts, t;
    r, cuts, t := BuildRanges(key, n);
    FlatWellRanged(key, cuts);
    FlatCovers(key, cuts);
    FlatIsBest(key, cuts, n, t);
    FlatWithin(key, cuts);
    FlatLast(key, cuts);
  }

  lemma FlatWithin(key: seq<int>, cuts: seq<int>)
    requires IsCuts(key, cuts) && Increasing(key)
    ensures forall k :: 0 <= k < |Flat(key, cuts)| ==> key[0] <= Flat(key, cuts)[k] <= key[|key| - 1]
  {
  }

  lemma FlatLast(key: seq<int>, cuts: seq<int>)
    requires IsCuts(key, cuts) && |cuts| > 1
    ensures var r := Flat(key, cuts); r[|r| - 1] == key[|key| - 1]
  {
    FlatAt(key, cuts, |cuts| - 2);
  }

  /** Both passes, on one array of twice the key's length. */
  method BuildRanges(key: seq<int>, n: nat) returns (r: seq<int>, ghost cuts: seq<int>, ghost t: int)
    requires 1 <= n && 2 * n <= |key| && Increasing(key) && forall k :: 0 <= k < |key| ==> IsInt32(key[k])
    ensures |cuts| == n + 1 && IsCuts(key, cuts) && cuts[0] == 0 && CutsThreshold(key, cuts, t)
    ensures r == Flat(key, cuts)
  {
    var len := |key|;
    var dr := new int[2 * len](i => 0);
    forall k | 0 <= k < len { dr[k] := key[k]; }
    var j;
    j, cuts := MergeRuns(dr, key, len, n);
    ShiftDown(dr, 2 * j);
    len := 2 * (len - j);
    len, cuts, t := CloseGaps(dr, key, len, n, cuts);
    r := dr[..len];
  }

  /** Moves everything from index `from` on to the front, unless it is there already. */
  method ShiftDown(dr: array<int>, from: nat)
    requires from <= dr.Length
    modifies dr
    ensures dr[..dr.Length - from] == old(dr[from..])
  {
    if from != 0 { MemMove(dr, 0, from, dr.Length - from); }
    assert from == 0 ==> dr[..dr.Length] == dr[from..];
  }
}
