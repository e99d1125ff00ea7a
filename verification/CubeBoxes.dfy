/** Boxes of the cube type over the reals: union, predicates and distances; missing dimensions count
    as zero. */
module CubeBoxes {

  /** Two opposite corners, in any order. */
  datatype Box = Box(ll: seq<real>, ur: seq<real>)

  ghost predicate Valid(b: Box) { |b.ll| == |b.ur| }

  function Dim(b: Box): nat { |b.ll| }

  function Min(x: real, y: real): real { if x < y then x else y }
  function Max(x: real, y: real): real { if x > y then x else y }

  /** The extent of a box along axis i. */
  function Lo(b: Box, i: nat): real requires Valid(b) { if i < Dim(b) then Min(b.ll[i], b.ur[i]) else 0.0 }
  function Hi(b: Box, i: nat): real requires Valid(b) { if i < Dim(b) then Max(b.ll[i], b.ur[i]) else 0.0 }

  // ----- union -----

  /** u includes x along every axis, and has its dimensions. */
  ghost predicate Includes(u: Box, x: Box) {
    Valid(u) && Valid(x) && Dim(x) <= Dim(u) && forall i: nat :: Lo(u, i) <= Lo(x, i) && Hi(x, i) <= Hi(u, i)
  }

  lemma IncludesTrans(u: Box, v: Box, x: Box)
    requires Includes(u, v) && Includes(v, x)
    ensures Includes(u, x)
  {
    forall i: nat ensures Lo(u, i) <= Lo(x, i) && Hi(x, i) <= Hi(u, i) {
      assert Lo(u, i) <= Lo(v, i) && Hi(v, i) <= Hi(u, i);
    }
  }

  /** cube_union_v0: the least box that includes both. */
  method Union(a0: Box, b0: Box) returns (r: Box)
    requires Valid(a0) && Valid(b0)
    ensures Valid(r) && Dim(r) == if Dim(a0) < Dim(b0) then Dim(b0) else Dim(a0)
    ensures Includes(r, a0) && Includes(r, b0)
    ensures forall v :: Includes(v, a0) && Includes(v, b0) ==> Includes(v, r)
  {
    var a, b := a0, b0;
    if Dim(a) < Dim(b) { a, b := b, a; }
    var ll, ur := [], [];
    for i := 0 to Dim(b)
      invariant |ll| == |ur| == i
      invariant forall k: nat :: k < i ==> ll[k] == Min(Lo(a, k), Lo(b, k)) && ur[k] == Max(Hi(a, k), Hi(b, k))
    {
      ll := ll + [Min(Min(a.ll[i], a.ur[i]), Min(b.ll[i], b.ur[i]))];
      ur := ur + [Max(Max(a.ll[i], a.ur[i]), Max(b.ll[i], b.ur[i]))];
    }
    for i := Dim(b) to Dim(a)
      invariant |ll| == |ur| == i
      invariant forall k: nat :: k < i ==> ll[k] == Min(Lo(a, k), Lo(b, k)) && ur[k] == Max(Hi(a, k), Hi(b, k))
    {
      ll := ll + [Min(0.0, Min(a.ll[i], a.ur[i]))];
      ur := ur + [Max(0.0, Max(a.ll[i], a.ur[i]))];
    }
    r := Box(ll, ur);
    forall i: nat ensures Lo(r, i) == Min(Lo(a, i), Lo(b, i)) && Hi(r, i) == Max(Hi(a, i), Hi(b, i)) { }
    forall v | Includes(v, a0) && Includes(v, b0) ensures Includes(v, r) { LeastUnion(a, b, r, v); }
  }

  lemma LeastUnion(a: Box, b: Box, r: Box, v: Box)
    requires Valid(a) && Valid(b) && Valid(r) && Dim(r) == Dim(a) >= Dim(b)
    requires forall i: nat :: Lo(r, i) == Min(Lo(a, i), Lo(b, i)) && Hi(r, i) == Max(Hi(a, i), Hi(b, i))
    requires Includes(v, a) && Includes(v, b)
    ensures Includes(v, r)
  {
    forall i: nat ensures Lo(v, i) <= Lo(r, i) && Hi(r, i) <= Hi(v, i) {
      assert Lo(v, i) <= Lo(a, i) && Lo(v, i) <= Lo(b, i);
    }
  }

  // ----- predicates -----

  ghost predicate Overlaps(a: Box, b: Box) {
    Valid(a) && Valid(b) && forall i: nat :: Lo(a, i) <= Hi(b, i) && Lo(b, i) <= Hi(a, i)
  }

  /** Containment as the code has it: excess dimensions of a are ignored. */
  ghost predicate Contains(a: Box, b: Box) {
    && Valid(a) && Valid(b)
    && (forall i: nat :: Dim(a) <= i < Dim(b) ==> Lo(b, i) == 0.0 == Hi(b, i))
    && (forall i: nat :: i < Dim(a) && i < Dim(b) ==> Lo(a, i) <= Lo(b, i) && Hi(b, i) <= Hi(a, i))
  }

  /** cube_cmp_v0(a, b) == 0 */
  ghost predicate Same(a: Box, b: Box) {
    Valid(a) && Valid(b) && Dim(a) == Dim(b) && forall i: nat :: Lo(a, i) == Lo(b, i) && Hi(a, i) == Hi(b, i)
  }

  /** cube_overlap_v0 */
  method Overlap(a0: Box, b0: Box) returns (res: bool)
    requires Valid(a0) && Valid(b0)
    ensures res <==> Overlaps(a0, b0)
  {
    var a, b := a0, b0;
    if Dim(a) < Dim(b) { a, b := b, a; }
    for i := 0 to Dim(b)
      invariant forall k: nat :: k < i ==> Lo(a, k) <= Hi(b, k) && Lo(b, k) <= Hi(a, k)
    {
      if Min(a.ll[i], a.ur[i]) > Max(b.ll[i], b.ur[i]) { assert Lo(a, i) > Hi(b, i); return false; }
      if Max(a.ll[i], a.ur[i]) < Min(b.ll[i], b.ur[i]) { assert Hi(a, i) < Lo(b, i); return false; }
    }
    for i := Dim(b) to Dim(a)
      invariant forall k: nat :: k < i ==> Lo(a, k) <= Hi(b, k) && Lo(b, k) <= Hi(a, k)
    {
      if Min(a.ll[i], a.ur[i]) > 0.0 { assert Lo(a, i) > Hi(b, i); return false; }
      if Max(a.ll[i], a.ur[i]) < 0.0 { assert Hi(a, i) < Lo(b, i); return false; }
    }
    res := true;
  }

  /** cube_contains_v0 */
  method Contain(a: Box, b: Box) returns (res: bool)
    requires Valid(a) && Valid(b)
    ensures res <==> Contains(a, b)
  {
    if Dim(a) < Dim(b) {
      for i := Dim(a) to Dim(b)
        invariant forall k: nat :: Dim(a) <= k < i ==> Lo(b, k) == 0.0 == Hi(b, k)
      {
        if b.ll[i] != 0.0 || b.ur[i] != 0.0 {
          assert !(Lo(b, i) == 0.0 == Hi(b, i));
          return false;
        }
      }
    }
    for i := 0 to if Dim(a) < Dim(b) then Dim(a) else Dim(b)
      invariant forall k: nat :: k < i ==> Lo(a, k) <= Lo(b, k) && Hi(b, k) <= Hi(a, k)
    {
      if Min(a.ll[i], a.ur[i]) > Min(b.ll[i], b.ur[i]) { assert Lo(a, i) > Lo(b, i); return false; }
      if Max(a.ll[i], a.ur[i]) < Max(b.ll[i], b.ur[i]) { assert Hi(a, i) < Hi(b, i); return false; }
    }
    res := true;
  }

  datatype Strategy = Overlapping | Containing | Equal | ContainedBy

  /** g_cube_leaf_consistent and g_cube_internal_consistent */
  ghost predicate LeafConsistent(x: Box, q: Box, s: Strategy) {
    match s
    case Overlapping => Overlaps(x, q)
    case Containing => Contains(x, q)
    case Equal => Same(x, q)
    case ContainedBy => Contains(q, x)
  }

  ghost predicate InnerConsistent(u: Box, q: Box, s: Strategy) {
    match s
    case Overlapping => Overlaps(u, q)
    case Containing => Contains(u, q)
    case Equal => Contains(u, q)
    case ContainedBy => Overlaps(u, q)
  }

  /** Overlap, containment and equality are never lost under an including key. */
  lemma IncludedIsConsistent(u: Box, x: Box, q: Box, s: Strategy)
    requires Includes(u, x) && LeafConsistent(x, q, s) && s != ContainedBy
    ensures InnerConsistent(u, q, s)
  {
    assert forall i: nat :: Lo(u, i) <= Lo(x, i) && Hi(x, i) <= Hi(u, i);
    if s == Overlapping {
      forall i: nat ensures Lo(u, i) <= Hi(q, i) && Lo(q, i) <= Hi(u, i) {
        assert Lo(x, i) <= Hi(q, i) && Lo(q, i) <= Hi(x, i);
      }
    } else {
      forall i: nat | i < Dim(u) && i < Dim(q) ensures Lo(u, i) <= Lo(q, i) && Hi(q, i) <= Hi(u, i) {
        assert Lo(x, i) == Lo(x, i) && Lo(q, i) == Lo(q, i);
      }
      forall i: nat | Dim(u) <= i < Dim(q) ensures Lo(q, i) == 0.0 == Hi(q, i) { assert Dim(x) <= i; }
    }
  }

  /** The excess dimensions of the query straddle zero. */
  ghost predicate ExcessAtZero(q: Box, x: Box)
    requires Valid(q) && Valid(x)
  {
    forall i: nat :: Dim(x) <= i ==> Lo(q, i) <= 0.0 <= Hi(q, i)
  }

  /** "Contained by" survives every including key if and only if the dimensions that the query has
      in excess of the stored box straddle zero. */
  lemma ContainedByIff(x: Box, q: Box)
    requires Valid(x) && Valid(q) && Contains(q, x)
    ensures (forall u :: Includes(u, x) ==> InnerConsistent(u, q, ContainedBy)) <==> ExcessAtZero(q, x)
  {
    if ExcessAtZero(q, x) {
      forall u | Includes(u, x) ensures Overlaps(u, q) {
        forall i: nat ensures Lo(u, i) <= Hi(q, i) && Lo(q, i) <= Hi(u, i) {
          assert Lo(u, i) <= Lo(x, i) <= Hi(x, i) <= Hi(u, i);
          assert i < Dim(q) && i < Dim(x) ==> Lo(q, i) <= Lo(x, i) && Hi(x, i) <= Hi(q, i);
        }
      }
    }
    if forall u :: Includes(u, x) ==> InnerConsistent(u, q, ContainedBy) {
      assert Includes(x, x);
      assert Overlaps(x, q);
      forall i: nat | Dim(x) <= i ensures Lo(q, i) <= 0.0 <= Hi(q, i) { assert Lo(x, i) == 0.0 == Hi(x, i); }
    }
  }

  /** A stored point (1) is contained by the query (0,1),(2,1) but its own key does not pass. */
  lemma ContainedByCanLose()
    ensures var x, q := Box([1.0], [1.0]), Box([0.0, 1.0], [2.0, 1.0]);
      LeafConsistent(x, q, ContainedBy) && Includes(x, x) && !InnerConsistent(x, q, ContainedBy)
  {
    var x, q := Box([1.0], [1.0]), Box([0.0, 1.0], [2.0, 1.0]);
    assert Lo(q, 1) == 1.0 && Hi(x, 1) == 0.0;
  }

  // ----- distances -----

  /** distance_1D of two extents. */
  function Gap(a1: real, a2: real, b1: real, b2: real): (d: real)
    ensures d >= 0.0 && d == Max(0.0, Max(Min(b1, b2) - Max(a1, a2), Min(a1, a2) - Max(b1, b2)))
  {
    if a1 <= b1 && a2 <= b1 && a1 <= b2 && a2 <= b2 then Min(b1, b2) - Max(a1, a2)
    else if a1 > b1 && a2 > b1 && a1 > b2 && a2 > b2 then Min(a1, a2) - Max(b1, b2)
    else 0.0
  }

  function AxisGap(a: Box, b: Box, i: nat): real
    requires Valid(a) && Valid(b)
  {
    Gap(Lo(a, i), Hi(a, i), Lo(b, i), Hi(b, i))
  }

  lemma GapShrinks(u: Box, x: Box, q: Box, i: nat)
    requires Includes(u, x) && Valid(q)
    ensures AxisGap(u, q, i) <= AxisGap(x, q, i) && AxisGap(x, q, i) == AxisGap(q, x, i)
  {
    assert Lo(u, i) <= Lo(x, i) && Hi(x, i) <= Hi(u, i);
  }

  datatype Metric = Taxicab | Chebyshev | SquaredEuclid

  /** One more axis. */
  function Combine(m: Metric, total: real, d: real): real {
    match m
    case Taxicab => total + d
    case Chebyshev => if d > total then d else total
    case SquaredEuclid => total + d * d
  }

  function Distance(m: Metric, a: Box, b: Box, n: nat): (r: real)
    requires Valid(a) && Valid(b)
    ensures r >= 0.0
  {
    if n == 0 then 0.0 else Combine(m, Distance(m, a, b, n - 1), AxisGap(a, b, n - 1))
  }

  function MaxDim(a: Box, b: Box): nat { if Dim(a) < Dim(b) then Dim(b) else Dim(a) }

  /** distance_taxicab, distance_chebyshev and cube_distance before the square root. */
  method ComputeDistance(m: Metric, a0: Box, b0: Box) returns (r: real)
    requires Valid(a0) && Valid(b0)
    ensures r == Distance(m, a0, b0, MaxDim(a0, b0))
  {
    var a, b := a0, b0;
    if Dim(a) < Dim(b) { a, b := b, a; }
    r := 0.0;
    for i := 0 to Dim(b)
      invariant r == Distance(m, a0, b0, i)
    {
      r := Combine(m, r, Gap(a.ll[i], a.ur[i], b.ll[i], b.ur[i]));
      assert Gap(a.ll[i], a.ur[i], b.ll[i], b.ur[i]) == AxisGap(a0, b0, i);
    }
    for i := Dim(b) to Dim(a)
      invariant r == Distance(m, a0, b0, i)
    {
      r := Combine(m, r, Gap(a.ll[i], a.ur[i], 0.0, 0.0));
      assert Gap(a.ll[i], a.ur[i], 0.0, 0.0) == AxisGap(a0, b0, i);
    }
  }

  lemma CombineMonotone(m: Metric, s: real, t: real, d: real, e: real)
    requires 0.0 <= s <= t && 0.0 <= d <= e
    ensures Combine(m, s, d) <= Combine(m, t, e)
  {
    assert d * d <= e * e;
  }

  lemma {:induction false} DistanceShrinks(m: Metric, u: Box, x: Box, q: Box, n: nat)
    requires Includes(u, x) && Valid(q)
    ensures Distance(m, u, q, n) <= Distance(m, x, q, n)
    decreases n
  {
    if n > 0 {
      DistanceShrinks(m, u, x, q, n - 1);
      GapShrinks(u, x, q, n - 1);
      CombineMonotone(m, Distance(m, u, q, n - 1), Distance(m, x, q, n - 1), AxisGap(u, q, n - 1),
          AxisGap(x, q, n - 1));
    }
  }

  /** Axes that neither box has add nothing. */
  lemma {:induction false} DistanceSettles(m: Metric, x: Box, q: Box, n: nat)
    requires Valid(x) && Valid(q) && n >= MaxDim(x, q)
    ensures Distance(m, x, q, n) == Distance(m, x, q, MaxDim(x, q))
    decreases n
  {
    if n > MaxDim(x, q) { DistanceSettles(m, x, q, n - 1); }
  }

  /** The distance to an including box never overstates the distance to a box below it. */
  lemma DistanceBound(m: Metric, u: Box, x: Box, q: Box)
    requires Includes(u, x) && Valid(q)
    ensures Distance(m, u, q, MaxDim(u, q)) <= Distance(m, x, q, MaxDim(x, q))
  {
    DistanceShrinks(m, u, x, q, MaxDim(u, q));
    DistanceSettles(m, x, q, MaxDim(u, q));
  }

  /** g_cube_distance for a signed coordinate number other than zero. */
  function Coord(b: Box, coord: int, leaf: bool): real
    requires Valid(b) && coord != 0
  {
    var inverse, c := coord < 0, if coord < 0 then -coord else coord;
    var index, upper := (c - 1) / 2, (c - 1) % 2 == 1;
    var v :=
      if c > 2 * Dim(b) then 0.0
      else if (if leaf then upper else inverse) then Max(b.ll[index], b.ur[index])
      else Min(b.ll[index], b.ur[index]);
    if inverse then -v else v
  }

  /** Ordering by a coordinate: the inner value is at most every value below it. */
  lemma CoordBound(u: Box, x: Box, coord: int)
    requires Includes(u, x) && coord != 0
    ensures Coord(u, coord, false) <= Coord(x, coord, true)
    ensures Coord(u, coord, false) <= Coord(x, coord, false)
  {
    var c := if coord < 0 then -coord else coord;
    var i := (c - 1) / 2;
    assert Lo(u, i) <= Lo(x, i) && Hi(x, i) <= Hi(u, i);
  }
}
