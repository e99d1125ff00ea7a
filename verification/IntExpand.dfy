/** g_int_decompress, and what storing and loading a key gives. */
module IntExpand {
  import opened Machine
  import opened IntRanges
  import opened IntCompress

  /** a, a + 1, ..., b */
  function Count(a: int, b: int): (s: seq<int>)
    ensures |s| == if a <= b then b - a + 1 else 0
    ensures forall k :: 0 <= k < |s| ==> s[k] == a + k
    decreases b - a
  {
    if a > b then [] else Count(a, b - 1) + [b]
  }

  function Expand(r: seq<int>): seq<int> {
    if |r| < 2 then [] else Expand(r[..|r| - 2]) + Count(r[|r| - 2], r[|r| - 1])
  }

  lemma {:induction false} ExpandSize(r: seq<int>)
    requires WellRanged(r)
    ensures |Expand(r)| == RangeTotal(r) && (r != [] ==> |Expand(r)| > 0 && Expand(r)[|Expand(r)| - 1] == r[|r| - 1])
    decreases |r|
  {
    if |r| >= 2 { ExpandSize(r[..|r| - 2]); }
  }

  lemma {:induction false} PrefixTotal(r: seq<int>, i: nat)
    requires WellRanged(r) && i <= |r| && i % 2 == 0
    ensures WellRanged(r[..i]) && 0 <= RangeTotal(r[..i]) <= RangeTotal(r)
    decreases |r|
  {
    if i < |r| {
      PrefixTotal(r[..|r| - 2], i);
      assert r[..|r| - 2][..i] == r[..i];
    } else {
      assert r[..i] == r;
      if |r| >= 2 { PrefixTotal(r[..|r| - 2], |r| - 2); }
    }
  }

  /** Outcomes of decompression. Of a long key of odd length the source reads one integer past the
      end; of one that ends at the largest integer it never stops writing, because the counter of
      the inner loop overflows. */
  datatype Decompressed = Plain | Expanded(s: seq<int>) | TooBig | PastEnd | Overrun

  /** Endpoints are taken for ranges by their number alone. */
  predicate Long(din: seq<int>, n: nat) { din != [] && |din| >= 2 * n }

  function Decompression(din: seq<int>, n: nat): Decompressed {
    if !Long(din, n) then Plain
    else if |din| % 2 == 1 then PastEnd
    else if RangeTotal(din) > MAXNUMELTS then TooBig
    else if din[|din| - 1] == INT_MAX then Overrun
    else Expanded(Expand(din))
  }

  /** g_int_decompress */
  method Decompress(din: seq<int>, n: nat) returns (d: Decompressed)
    requires |din| < 2 * n || |din| % 2 == 1 || WellRanged(din)
    requires forall k :: 0 <= k < |din| ==> IsInt32(din[k])
    ensures d == Decompression(din, n)
  {
    if din == [] || |din| < 2 * n { return Plain; }
    if |din| % 2 == 1 { return PastEnd; }
    var lenr := InternalSize(din);
    if lenr < 0 || lenr > MAXNUMELTS { return TooBig; }
    if din[|din| - 1] == INT_MAX { return Overrun; }
    forall k | 0 <= k < |din| ensures din[k] < INT_MAX { RisesToLast(din, k); }
    var out := new int[lenr];
    var d' := 0;
    var i := 0;
    while i < |din|
      invariant 0 <= i <= |din| && i % 2 == 0 && 0 <= d' <= lenr && out[..d'] == Expand(din[..i])
    {
      d' := ExpandOne(out, d', din, i);
      i := i + 2;
    }
    assert din[..i] == din;
    ExpandSize(din);
    return Expanded(out[..d']);
  }

  lemma {:induction false} RisesToLast(r: seq<int>, k: nat)
    requires WellRanged(r) && k < |r|
    ensures r[k] <= r[|r| - 1]
    decreases |r| - k
  {
    if k < |r| - 1 {
      RisesToLast(r, k + 1);
      assert if k % 2 == 0 then r[k] <= r[k + 1] else r[k] < r[k + 1];
    }
  }

  /** The inner loop: one range. The test against the value written last never skips one. */
  method ExpandOne(out: array<int>, d0: nat, din: seq<int>, i: nat) returns (d: nat)
    requires WellRanged(din) && i < |din| && i % 2 == 0 && out.Length == RangeTotal(din)
    requires d0 <= out.Length && out[..d0] == Expand(din[..i])
    requires forall k :: 0 <= k < |din| ==> din[k] < INT_MAX
    modifies out
    ensures d <= out.Length && out[..d] == Expand(din[..i + 2])
  {
    ExpandNext(din, i);
    assert i > 0 ==> out[..d0][d0 - 1] == out[d0 - 1];
    d := WriteRun(out, d0, din[i], din[i + 1], i == 0);
  }

  /** Room and order for the next range. */
  lemma ExpandNext(din: seq<int>, i: nat)
    requires WellRanged(din) && i < |din| && i % 2 == 0
    ensures i + 1 < |din| && din[i] <= din[i + 1] &&
        Expand(din[..i + 2]) == Expand(din[..i]) + Count(din[i], din[i + 1])
    ensures |Expand(din[..i])| + (din[i + 1] - din[i] + 1) <= RangeTotal(din)
    ensures i > 0 ==> var e := Expand(din[..i]); |e| > 0 && e[|e| - 1] < din[i]
  {
    PairAt(din, i);
    ExpandPair(din, i);
    PrefixTotal(din, i);
    PrefixTotal(din, i + 2);
    ExpandSize(din[..i]);
    if i > 0 { assert din[..i][i - 1] == din[i - 1]; }
  }

  lemma PairAt(din: seq<int>, i: nat)
    requires WellRanged(din) && i < |din| && i % 2 == 0
    ensures i + 1 < |din| && din[i] <= din[i + 1] && (i > 0 ==> din[i - 1] < din[i])
  {
    if i > 0 { assert (i - 1) % 2 == 1; }
  }

  lemma ExpandPair(din: seq<int>, i: nat)
    requires i + 2 <= |din|
    ensures Expand(din[..i + 2]) == Expand(din[..i]) + Count(din[i], din[i + 1])
    ensures RangeTotal(din[..i + 2]) == RangeTotal(din[..i]) + (din[i + 1] - din[i] + 1)
  {
    assert din[..i + 2][..i] == din[..i];
  }

  method WriteRun(out: array<int>, d0: nat, lo: int, hi: int, first: bool) returns (d: nat)
    requires lo <= hi && d0 + (hi - lo + 1) <= out.Length
    requires !first ==> d0 > 0 && out[d0 - 1] < lo
    modifies out
    ensures d == d0 + (hi - lo + 1) && out[..d] == old(out[..d0]) + Count(lo, hi)
  {
    d := d0;
    var j := lo;
    while j <= hi
      invariant lo <= j <= hi + 1 && d == d0 + (j - lo)
      invariant out[..d] == old(out[..d0]) + Count(lo, j - 1)
      invariant !first ==> d > 0 && out[d - 1] < j
    {
      if first || out[d - 1] != j {
        ghost var was := out[..d];
        out[d] := j;
        assert out[..d + 1] == was + [j];
        d := d + 1;
      }
      j := j + 1;
    }
  }

  lemma {:induction false} ExpandFacts(r: seq<int>)
    requires WellRanged(r)
    ensures Increasing(Expand(r)) && forall x :: x in Expand(r) <==> InFamily(Pairs(r), x)
    decreases |r|
  {
    if |r| >= 2 {
      var front, lo, hi := r[..|r| - 2], r[|r| - 2], r[|r| - 1];
      ExpandFacts(front);
      ExpandSize(front);
      PairAt(r, |r| - 2);
      PairsPush(r);
      IncreasingJoin(Expand(front), Count(lo, hi));
      forall x ensures x in Expand(r) <==> InFamily(Pairs(r), x) {
        CountHas(lo, hi, x);
        InFamilyAppend(Pairs(front), Interval(lo, hi), x);
      }
    }
  }

  lemma IncreasingJoin(a: seq<int>, b: seq<int>)
    requires Increasing(a) && Increasing(b) && (a != [] && b != [] ==> a[|a| - 1] < b[0])
    ensures Increasing(a + b)
  {
    forall i, j | 0 <= i < |a| && 0 <= j < |b| ensures a[i] < b[j] {
      assert a[i] <= a[|a| - 1] && b[0] <= b[j];
    }
  }

  lemma CountHas(a: int, b: int, x: int)
    ensures x in Count(a, b) <==> a <= x <= b
  {
    if a <= x <= b { assert Count(a, b)[x - a] == x; }
  }

  datatype Loaded = Key(k: seq<int>) | Sparse | Endless

  /** Storing and loading an inner key gives an ascending superset of it, of the least size any
      n intervals allow, unless the key is too sparse or is long and has the largest integer. */
  method StoreAndLoad(key: seq<int>, n: nat) returns (l: Loaded)
    requires n >= 1 && Increasing(key) && forall i :: 0 <= i < |key| ==> IsInt32(key[i])
    ensures l.Key? ==> Increasing(l.k) && forall i :: 0 <= i < |key| ==> key[i] in l.k
    ensures l.Key? ==> if |key| < 2 * n then l.k == key else NoneSmaller(key, n, |l.k|)
    ensures l.Sparse? <==> |key| >= 2 * n && NoneSmaller(key, n, MAXNUMELTS + 1)
    ensures l.Endless? <==> !l.Sparse? && |key| >= 2 * n && key[|key| - 1] == INT_MAX
  {
    var c := Compress(key, n);
    match c
    case TooSparse => return Sparse;
    case Same => return Key(key);
    case Ranges(r) => l := Load(r, n);
  }

  /** Decompression of what compression stored. */
  method Load(r: seq<int>, n: nat) returns (l: Loaded)
    requires 1 <= n && |r| == 2 * n && WellRanged(r) && RangeTotal(r) <= MAXNUMELTS
    requires forall i :: 0 <= i < |r| ==> IsInt32(r[i])
    ensures !l.Sparse? && (l.Endless? <==> r[|r| - 1] == INT_MAX)
    ensures l.Key? ==> Increasing(l.k) && |l.k| == RangeTotal(r) && forall x :: x in l.k <==> InFamily(Pairs(r), x)
  {
    var d := Decompress(r, n);
    if d.Overrun? { return Endless; }
    ExpandFacts(r);
    ExpandSize(r);
    l := Key(d.s);
  }
}
