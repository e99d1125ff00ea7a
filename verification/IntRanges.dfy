/** Lossy keys of the GiST integer-array index: a sorted set squeezed into a fixed number of
    ranges, in place, by closing the smallest gaps. */
module IntRanges {

  predicate Increasing(s: seq<int>) { forall i, j :: 0 <= i < j < |s| ==> s[i] < s[j] }

  function Gap(key: seq<int>, p: int): int
    requires 0 < p < |key|
  {
    key[p] - key[p - 1]
  }

  // ----- families of intervals -----

  datatype Interval = Interval(lo: int, hi: int)

  predicate Has(f: Interval, x: int) { f.lo <= x <= f.hi }

  ghost predicate Covers(fs: seq<Interval>, key: seq<int>) {
    forall i :: 0 <= i < |key| ==> InFamily(fs, key[i])
  }

  /** The integers above `a` up to `b`. */
  ghost function Run(a: int, b: int): (r: set<int>)
    ensures forall x :: x in r <==> a < x <= b
    ensures a <= b ==> |r| == b - a
    decreases b - a
  {
    if a < b then Run(a, b - 1) + {b} else {}
  }

  ghost predicate InFamily(fs: seq<Interval>, x: int) { exists k :: 0 <= k < |fs| && Has(fs[k], x) }

  lemma InFamilyAppend(fs: seq<Interval>, f: Interval, x: int)
    ensures InFamily(fs + [f], x) <==> InFamily(fs, x) || Has(f, x)
  {
    var gs := fs + [f];
    if InFamily(fs, x) {
      var k :| 0 <= k < |fs| && Has(fs[k], x);
      assert Has(gs[k], x);
    } else if Has(f, x) {
      assert Has(gs[|fs|], x);
    }
  }

  /** All integers in the family, each counted once. */
  ghost function Ints(fs: seq<Interval>): (r: set<int>)
    ensures forall x :: x in r <==> InFamily(fs, x)
  {
    if fs == [] then {}
    else
      var rest, f := fs[..|fs| - 1], fs[|fs| - 1];
      assert forall x :: InFamily(fs, x) <==> InFamily(rest, x) || Has(f, x) by {
        assert fs == rest + [f];
        forall x ensures InFamily(fs, x) <==> InFamily(rest, x) || Has(f, x) { InFamilyAppend(rest, f, x); }
      }
      Ints(rest) + Run(f.lo - 1, f.hi)
  }

  // ----- counting by gaps -----

  /** Number of integers up to key[p] when the gaps at the positions where `open` holds stay open
      and all other gaps are filled. */
  ghost function Filled(key: seq<int>, open: int -> bool, p: nat): int
    requires p < |key|
  {
    if p == 0 then 1 else Filled(key, open, p - 1) + if open(p) then 1 else Gap(key, p)
  }

  ghost function OpenCount(open: int -> bool, p: nat): nat {
    if p == 0 then 0 else OpenCount(open, p - 1) + if open(p) then 1 else 0
  }

  /** The gaps left open are at least `t` wide, the filled ones at most. */
  ghost predicate Threshold(key: seq<int>, open: int -> bool, t: int) {
    t >= 1 && forall q :: 0 < q < |key| ==> if open(q) then Gap(key, q) >= t else Gap(key, q) <= t
  }

  /** Filling the smallest gaps is at least as good as any choice that leaves no more gaps open. */
  lemma {:induction false} SmallGapsFirst(key: seq<int>, g: int -> bool, f: int -> bool, t: int, p: nat)
    requires p < |key| && Threshold(key, g, t)
    ensures Filled(key, f, p) - Filled(key, g, p) >= (t - 1) * (OpenCount(g, p) - OpenCount(f, p))
    decreases p
  {
    if p > 0 {
      SmallGapsFirst(key, g, f, t, p - 1);
      var d := OpenCount(g, p - 1) - OpenCount(f, p - 1);
      assert (t - 1) * (d + 1) == (t - 1) * d + (t - 1);
      assert (t - 1) * (d - 1) == (t - 1) * d - (t - 1);
    }
  }

  // ----- what any cover costs -----

  /** The gap at position q is spanned by no interval of the family. */
  ghost predicate Broken(fs: seq<Interval>, key: seq<int>, q: int) {
    0 < q < |key| && forall k :: 0 <= k < |fs| ==> !(Has(fs[k], key[q - 1]) && Has(fs[k], key[q]))
  }

  lemma SubsetSize<T>(a: set<T>, b: set<T>)
    requires a <= b
    ensures |a| <= |b|
  {
    assert b == a + (b - a);
  }

  lemma IntsPush(fs: seq<Interval>, f: Interval)
    requires f.lo <= f.hi
    ensures |Ints(fs + [f])| <= |Ints(fs)| + (f.hi - f.lo + 1)
  {
    assert (fs + [f])[..|fs|] == fs;
    assert Ints(fs + [f]) == Ints(fs) + Run(f.lo - 1, f.hi);
  }

  ghost function UpTo(fs: seq<Interval>, x: int): set<int> { set y | y in Ints(fs) && y <= x }

  /** From one element to the next a cover gains the element itself, and the whole gap if it
      spans it. */
  lemma CoverGrows(fs: seq<Interval>, a: int, b: int)
    requires a < b && InFamily(fs, b)
    ensures |UpTo(fs, b)| >= |UpTo(fs, a)| + 1
    ensures (exists k :: 0 <= k < |fs| && Has(fs[k], a) && Has(fs[k], b)) ==> |UpTo(fs, b)| >= |UpTo(fs, a)| + (b - a)
  {
    SubsetSize(UpTo(fs, a) + {b}, UpTo(fs, b));
    if m :| 0 <= m < |fs| && Has(fs[m], a) && Has(fs[m], b) {
      var run := Run(a, b);
      forall x | x in run ensures x in UpTo(fs, b) { assert Has(fs[m], x); }
      SubsetSize(UpTo(fs, a) + run, UpTo(fs, b));
    }
  }

  /** A cover holds at least the elements and everything in the gaps it spans. */
  lemma {:induction false} CoverSize(fs: seq<Interval>, key: seq<int>, open: int -> bool, p: nat)
    requires Increasing(key) && Covers(fs, key) && p < |key|
    requires forall q :: open(q) == Broken(fs, key, q)
    ensures |UpTo(fs, key[p])| >= Filled(key, open, p)
    decreases p
  {
    if p == 0 {
      SubsetSize({key[0]}, UpTo(fs, key[0]));
    } else {
      CoverSize(fs, key, open, p - 1);
      CoverGrows(fs, key[p - 1], key[p]);
      assert open(p) == Broken(fs, key, p);
    }
  }

  /** The intervals that start at or before x. */
  ghost function Started(fs: seq<Interval>, x: int): set<int> { set k | 0 <= k < |fs| && fs[k].lo <= x }

  lemma StartedGrows(fs: seq<Interval>, a: int, b: int)
    requires a < b && InFamily(fs, b)
    ensures |Started(fs, b)| >= |Started(fs, a)|
    ensures (forall k :: 0 <= k < |fs| ==> !(Has(fs[k], a) && Has(fs[k], b))) ==>
        |Started(fs, b)| >= |Started(fs, a)| + 1
  {
    var k :| 0 <= k < |fs| && Has(fs[k], b);
    SubsetSize(Started(fs, a), Started(fs, b));
    if k !in Started(fs, a) { SubsetSize(Started(fs, a) + {k}, Started(fs, b)); }
  }

  /** Every broken gap costs a further interval. */
  lemma {:induction false} BreaksNeedIntervals(fs: seq<Interval>, key: seq<int>, open: int -> bool, p: nat)
    requires Increasing(key) && Covers(fs, key) && p < |key|
    requires forall q :: open(q) == Broken(fs, key, q)
    ensures OpenCount(open, p) + 1 <= |Started(fs, key[p])|
    decreases p
  {
    assert InFamily(fs, key[p]);
    if p == 0 {
      var k :| 0 <= k < |fs| && Has(fs[k], key[0]);
      SubsetSize({k}, Started(fs, key[0]));
    } else {
      BreaksNeedIntervals(fs, key, open, p - 1);
      StartedGrows(fs, key[p - 1], key[p]);
      assert open(p) == Broken(fs, key, p);
    }
  }

  lemma FewerOpenCostsMore(key: seq<int>, g: int -> bool, f: int -> bool, t: int, p: nat)
    requires p < |key| && Threshold(key, g, t) && OpenCount(f, p) <= OpenCount(g, p)
    ensures Filled(key, f, p) >= Filled(key, g, p)
  {
    SmallGapsFirst(key, g, f, t, p);
    Product(t - 1, OpenCount(g, p) - OpenCount(f, p));
  }

  lemma Product(a: int, b: int)
    requires a >= 0 && b >= 0
    ensures a * b >= 0
  {
  }

  /** Lower bound for every cover by at most as many intervals as `g` leaves pieces. */
  lemma CoverAtLeast(fs: seq<Interval>, key: seq<int>, g: int -> bool, t: int)
    requires key != [] && Increasing(key) && Covers(fs, key) && Threshold(key, g, t)
    requires |fs| <= OpenCount(g, |key| - 1) + 1
    ensures |Ints(fs)| >= Filled(key, g, |key| - 1)
  {
    var last := |key| - 1;
    var open := q => Broken(fs, key, q);
    assert |Ints(fs)| >= Filled(key, open, last) by {
      CoverSize(fs, key, open, last);
      SubsetSize(UpTo(fs, key[last]), Ints(fs));
    }
    assert OpenCount(open, last) <= OpenCount(g, last) by {
      BreaksNeedIntervals(fs, key, open, last);
      SubsetSize(Started(fs, key[last]), Run(-1, |fs| - 1));
    }
    FewerOpenCostsMore(key, g, open, t, last);
  }
}
