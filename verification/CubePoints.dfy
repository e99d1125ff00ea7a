/** What boxes, their predicates and their distances are in terms of points. */
module CubePoints {
  import opened CubeBoxes

  /** Points have all axes; those that are not written are zero. */
  type Point = seq<real>

  function At(p: Point, i: nat): real { if i < |p| then p[i] else 0.0 }

  ghost predicate In(p: Point, b: Box)
    requires Valid(b)
  {
    forall i: nat :: Lo(b, i) <= At(p, i) <= Hi(b, i)
  }

  // ----- extents -----

  /** The corner with the upper bound along one axis and the lower ones along all others. */
  function Corner(b: Box, top: nat): (p: Point)
    requires Valid(b)
    ensures |p| == Dim(b) && forall i :: 0 <= i < |p| ==> p[i] == if i == top then Hi(b, i) else Lo(b, i)
  {
    seq(Dim(b), i requires 0 <= i < Dim(b) => if i == top then Hi(b, i) else Lo(b, i))
  }

  /** The extent along an axis is the least and the greatest coordinate of a point. */
  lemma ExtentAttained(b: Box, i: nat)
    requires Valid(b)
    ensures In(Corner(b, i), b) && At(Corner(b, i), i) == Hi(b, i)
    ensures In(Corner(b, i + 1), b) && At(Corner(b, i + 1), i) == Lo(b, i)
  {
  }

  /** Inclusion is inclusion of the points. */
  lemma IncludesIff(u: Box, x: Box)
    requires Valid(u) && Valid(x)
    ensures Includes(u, x) <==> Dim(x) <= Dim(u) && forall p :: In(p, x) ==> In(p, u)
  {
    if Includes(u, x) {
      forall p | In(p, x) ensures In(p, u) {
        forall i: nat ensures Lo(u, i) <= At(p, i) <= Hi(u, i) {
          assert Lo(u, i) <= Lo(x, i) && Lo(x, i) <= At(p, i) <= Hi(x, i);
        }
      }
    }
    if forall p :: In(p, x) ==> In(p, u) {
      forall i: nat ensures Lo(u, i) <= Lo(x, i) && Hi(x, i) <= Hi(u, i) {
        ExtentAttained(x, i);
        assert In(Corner(x, i), u) && In(Corner(x, i + 1), u);
        assert At(Corner(x, i), i) <= Hi(u, i) && At(Corner(x, i + 1), i) >= Lo(u, i);
      }
    }
  }

  /** Boxes overlap if and only if they have a point in common. */
  lemma OverlapsIff(a: Box, b: Box)
    requires Valid(a) && Valid(b)
    ensures Overlaps(a, b) <==> exists p :: In(p, a) && In(p, b)
  {
    if Overlaps(a, b) {
      var p := seq(MaxDim(a, b), i requires i >= 0 => Max(Lo(a, i), Lo(b, i)));
      forall i: nat ensures Lo(a, i) <= At(p, i) <= Hi(a, i) && Lo(b, i) <= At(p, i) <= Hi(b, i) {
        assert Lo(a, i) <= Hi(b, i) && Lo(b, i) <= Hi(a, i);
      }
      assert In(p, a) && In(p, b);
    }
    if p :| In(p, a) && In(p, b) {
      forall i: nat ensures Lo(a, i) <= Hi(b, i) && Lo(b, i) <= Hi(a, i) {
        assert Lo(a, i) <= At(p, i) <= Hi(a, i) && Lo(b, i) <= At(p, i) <= Hi(b, i);
      }
    }
  }

  /** The point lies in the box along the axes that the box has. */
  ghost predicate InAlong(p: Point, b: Box, n: nat)
    requires Valid(b)
  {
    forall i: nat :: i < n && i < Dim(b) ==> Lo(b, i) <= At(p, i) <= Hi(b, i)
  }

  /** A box contains another if and only if the points of that one lie in it along the axes both have,
      and are zero along the axes it has not. */
  lemma ContainsIff(a: Box, b: Box)
    requires Valid(a) && Valid(b)
    ensures Contains(a, b) <==>
      forall p :: In(p, b) ==> InAlong(p, a, Dim(b)) && forall i: nat :: i >= Dim(a) ==> At(p, i) == 0.0
  {
    if Contains(a, b) {
      forall p | In(p, b) ensures InAlong(p, a, Dim(b)) && forall i: nat :: i >= Dim(a) ==> At(p, i) == 0.0 {
        forall i: nat | i < Dim(b) && i < Dim(a) ensures Lo(a, i) <= At(p, i) <= Hi(a, i) {
          assert Lo(b, i) <= At(p, i) <= Hi(b, i);
        }
        forall i: nat | i >= Dim(a) ensures At(p, i) == 0.0 {
          assert Lo(b, i) <= At(p, i) <= Hi(b, i);
        }
      }
    }
    if forall p :: In(p, b) ==> InAlong(p, a, Dim(b)) && forall i: nat :: i >= Dim(a) ==> At(p, i) == 0.0 {
      forall i: nat ensures Dim(a) <= i < Dim(b) ==> Lo(b, i) == 0.0 == Hi(b, i)
        ensures i < Dim(a) && i < Dim(b) ==> Lo(a, i) <= Lo(b, i) && Hi(b, i) <= Hi(a, i)
      {
        ExtentAttained(b, i);
        assert InAlong(Corner(b, i), a, Dim(b)) && InAlong(Corner(b, i + 1), a, Dim(b));
      }
    }
  }

  // ----- distances of points -----

  function Abs(x: real): real { if x < 0.0 then -x else x }

  /** The sum of the differences along the first n axes. */
  function SumOf(p: Point, q: Point, n: nat): real {
    if n == 0 then 0.0 else SumOf(p, q, n - 1) + Abs(At(p, n - 1) - At(q, n - 1))
  }

  /** The greatest difference. */
  function MaxOf(p: Point, q: Point, n: nat): real {
    if n == 0 then 0.0 else Max(MaxOf(p, q, n - 1), Abs(At(p, n - 1) - At(q, n - 1)))
  }

  /** The sum of the squared differences. */
  function SquaresOf(p: Point, q: Point, n: nat): real {
    if n == 0 then 0.0
    else SquaresOf(p, q, n - 1) + (At(p, n - 1) - At(q, n - 1)) * (At(p, n - 1) - At(q, n - 1))
  }

  function PointDistance(m: Metric, p: Point, q: Point, n: nat): real {
    match m
    case Taxicab => SumOf(p, q, n)
    case Chebyshev => MaxOf(p, q, n)
    case SquaredEuclid => SquaresOf(p, q, n)
  }

  // ----- distances of boxes -----

  /** One more axis, with difference d. */
  function Add(m: Metric, t: real, d: real): real {
    match m
    case Taxicab => t + Abs(d)
    case Chebyshev => Max(t, Abs(d))
    case SquaredEuclid => t + d * d
  }

  lemma PointAdds(m: Metric, p: Point, q: Point, n: nat)
    ensures PointDistance(m, p, q, n + 1) == Add(m, PointDistance(m, p, q, n), At(p, n) - At(q, n))
    ensures PointDistance(m, p, q, 0) == 0.0
  {
  }

  lemma Square(x: real)
    ensures Abs(x) * Abs(x) == x * x
  {
    if x < 0.0 { assert (-x) * (-x) == x * x; }
  }

  lemma SquareGrows(x: real, y: real)
    requires 0.0 <= x <= y
    ensures x * x <= y * y
  {
    assert x * x <= x * y <= y * y;
  }

  lemma CombineAdds(m: Metric, s: real, t: real, g: real, d: real)
    requires s <= t && 0.0 <= g <= Abs(d)
    ensures Combine(m, s, g) <= Add(m, t, d)
    ensures s == t && g == Abs(d) ==> Combine(m, s, g) == Add(m, t, d)
  {
    Square(d);
    SquareGrows(g, Abs(d));
  }

  lemma GapLeast(a: Box, b: Box, p: Point, q: Point, i: nat)
    requires Valid(a) && Valid(b) && In(p, a) && In(q, b)
    ensures 0.0 <= AxisGap(a, b, i) <= Abs(At(p, i) - At(q, i))
  {
    assert Lo(a, i) <= At(p, i) <= Hi(a, i) && Lo(b, i) <= At(q, i) <= Hi(b, i);
  }

  /** No two points of the boxes are closer than the boxes. */
  lemma {:induction false} NoneNearer(m: Metric, a: Box, b: Box, p: Point, q: Point, n: nat)
    requires Valid(a) && Valid(b) && In(p, a) && In(q, b)
    ensures Distance(m, a, b, n) <= PointDistance(m, p, q, n)
    decreases n
  {
    PointAdds(m, p, q, 0);
    if n > 0 {
      var i := n - 1;
      NoneNearer(m, a, b, p, q, i);
      GapLeast(a, b, p, q, i);
      PointAdds(m, p, q, i);
      CombineAdds(m, Distance(m, a, b, i), PointDistance(m, p, q, i), AxisGap(a, b, i), At(p, i) - At(q, i));
    }
  }

  /** The coordinate of a nearest point of the first box along an axis. */
  function Toward(a: Box, b: Box, i: nat): (x: real)
    requires Valid(a) && Valid(b)
    ensures Lo(a, i) <= x <= Hi(a, i)
  {
    if Hi(a, i) < Lo(b, i) then Hi(a, i) else if Hi(b, i) < Lo(a, i) then Lo(a, i) else Max(Lo(a, i), Lo(b, i))
  }

  function NearPoint(a: Box, b: Box): (p: Point)
    requires Valid(a) && Valid(b)
    ensures |p| == MaxDim(a, b) && forall i :: 0 <= i < |p| ==> p[i] == Toward(a, b, i)
  {
    seq(MaxDim(a, b), i requires 0 <= i < MaxDim(a, b) => Toward(a, b, i))
  }

  lemma NearPointIn(a: Box, b: Box)
    requires Valid(a) && Valid(b)
    ensures In(NearPoint(a, b), a)
  {
  }

  lemma GapMet(a: Box, b: Box, i: nat)
    requires Valid(a) && Valid(b)
    ensures AxisGap(a, b, i) == Abs(Toward(a, b, i) - Toward(b, a, i))
  {
  }

  lemma {:induction false} NearestMeet(m: Metric, a: Box, b: Box, n: nat)
    requires Valid(a) && Valid(b) && n <= MaxDim(a, b)
    ensures PointDistance(m, NearPoint(a, b), NearPoint(b, a), n) == Distance(m, a, b, n)
    decreases n
  {
    var p, q := NearPoint(a, b), NearPoint(b, a);
    PointAdds(m, p, q, 0);
    if n > 0 {
      var i := n - 1;
      NearestMeet(m, a, b, i);
      GapMet(a, b, i);
      PointAdds(m, p, q, i);
      CombineAdds(m, Distance(m, a, b, i), PointDistance(m, p, q, i), AxisGap(a, b, i), At(p, i) - At(q, i));
    }
  }

  /** The distance of two boxes is that of a nearest pair of points: the sum of the differences of
      their coordinates, the greatest difference, or the sum of the squares. */
  lemma DistanceIsNearest(m: Metric, a: Box, b: Box) returns (p: Point, q: Point)
    requires Valid(a) && Valid(b)
    ensures var n := MaxDim(a, b);
      && In(p, a) && In(q, b) && PointDistance(m, p, q, n) == Distance(m, a, b, n)
      && forall p', q' :: In(p', a) && In(q', b) ==> Distance(m, a, b, n) <= PointDistance(m, p', q', n)
  {
    p, q := NearPoint(a, b), NearPoint(b, a);
    NearPointIn(a, b);
    NearPointIn(b, a);
    NearestMeet(m, a, b, MaxDim(a, b));
    forall p', q' | In(p', a) && In(q', b)
      ensures Distance(m, a, b, MaxDim(a, b)) <= PointDistance(m, p', q', MaxDim(a, b))
    {
      NoneNearer(m, a, b, p', q', MaxDim(a, b));
    }
  }

  // ----- ordering by a coordinate -----

  /** Odd numbers stand for lower bounds, even ones for upper bounds, of one axis after the other. */
  function Axis(coord: int): nat
    requires coord != 0
  {
    ((if coord < 0 then -coord else coord) - 1) / 2
  }

  predicate Upper(coord: int) { (if coord < 0 then -coord else coord) % 2 == 0 }

  function Signed(coord: int, v: real): real { if coord < 0 then -v else v }

  /** On a leaf the value is the least or the greatest coordinate of the box along the axis, with the
      sign of the coordinate number. */
  lemma CoordIsExtreme(b: Box, coord: int) returns (p: Point)
    requires Valid(b) && coord != 0
    ensures In(p, b) && Coord(b, coord, true) == Signed(coord, At(p, Axis(coord)))
    ensures forall p' :: In(p', b) ==>
      if Upper(coord) then At(p', Axis(coord)) <= At(p, Axis(coord)) else At(p, Axis(coord)) <= At(p', Axis(coord))
  {
    var i := Axis(coord);
    ExtentAttained(b, i);
    p := Corner(b, if Upper(coord) then i else i + 1);
    forall p' | In(p', b) ensures if Upper(coord) then At(p', i) <= At(p, i) else At(p, i) <= At(p', i) {
      assert Lo(b, i) <= At(p', i) <= Hi(b, i);
    }
  }

  /** On an inner page it is the least value that a box below the key can have. */
  lemma CoordIsLeast(u: Box, coord: int) returns (x: Box)
    requires Valid(u) && coord != 0
    ensures Includes(u, x) && Coord(x, coord, true) == Coord(u, coord, false)
    ensures forall y :: Includes(u, y) ==> Coord(u, coord, false) <= Coord(y, coord, true)
  {
    var p := Corner(u, if coord < 0 then Axis(coord) else Axis(coord) + 1);
    x := Box(p, p);
    forall i: nat ensures Lo(u, i) <= Lo(x, i) && Hi(x, i) <= Hi(u, i) { }
    forall y | Includes(u, y) ensures Coord(u, coord, false) <= Coord(y, coord, true) { CoordBound(u, y, coord); }
  }
}
