/** GiST trees of boxes: pruned search and nearest-first order. */
module CubeIndex {
  import opened CubeBoxes
  import opened GistTree

  type BoxTree = Tree<Box, Box>

  /** g_cube_union: the least box that includes all entries. */
  method UnionAll(boxes: seq<Box>) returns (r: Box)
    requires |boxes| >= 2 && forall i :: 0 <= i < |boxes| ==> Valid(boxes[i])
    ensures Valid(r) && forall i :: 0 <= i < |boxes| ==> Includes(r, boxes[i])
    ensures forall v :: (forall i :: 0 <= i < |boxes| ==> Includes(v, boxes[i])) ==> Includes(v, r)
  {
    r := boxes[0];
    for i := 1 to |boxes|
      invariant Valid(r) && forall k :: 0 <= k < i ==> Includes(r, boxes[k])
      invariant forall v :: (forall k :: 0 <= k < i ==> Includes(v, boxes[k])) ==> Includes(v, r)
    {
      var next := Union(r, boxes[i]);
      forall k | 0 <= k < i ensures Includes(next, boxes[k]) { IncludesTrans(next, r, boxes[k]); }
      r := next;
    }
  }

  function NodeKey(t: BoxTree): Box { match t case Data(x) => x case Inner(u, _) => u }

  /** Every inner key includes the keys just below it. */
  ghost predicate Built(t: BoxTree) {
    t.Inner? ==> forall c :: c in t.children ==> Built(c) && Includes(t.key, NodeKey(c))
  }

  /** A new inner node over given children; an only child is united with itself. */
  method GrowNode(children: seq<BoxTree>) returns (t: BoxTree)
    requires children != [] && forall c :: c in children ==> Built(c) && Valid(NodeKey(c))
    ensures t.Inner? && t.children == children && Built(t) && Valid(t.key)
    ensures forall v :: (forall c :: c in children ==> Includes(v, NodeKey(c))) ==> Includes(v, t.key)
  {
    var keys := seq(|children|, i requires 0 <= i < |children| => NodeKey(children[i]));
    if |keys| == 1 { keys := keys + keys; }
    var key := UnionAll(keys);
    assert forall i :: 0 <= i < |children| ==> keys[i] == NodeKey(children[i]);
    t := Inner(key, children);
  }

  lemma {:induction false} BuiltGrown(t: BoxTree, includes: (Box, Box) -> bool)
    requires Built(t) && forall u, x :: includes(u, x) == Includes(u, x)
    ensures Grown(t, includes)
    decreases t
  {
    if t.Inner? {
      forall c | c in t.children
        ensures Grown(c, includes) && forall x :: Stands(c, includes, x) ==> includes(t.key, x)
      {
        BuiltGrown(c, includes);
        forall x | Stands(c, includes, x) ensures includes(t.key, x) {
          if c.Inner? { IncludesTrans(t.key, c.key, x); }
        }
      }
    }
  }

  /** Search for overlapping, containing or equal boxes returns exactly what a scan returns. */
  lemma SearchFindsAll(t: BoxTree, q: Box, s: Strategy, includes: (Box, Box) -> bool, consistent: Box -> bool,
      holds: Box -> bool)
    requires Built(t) && s != ContainedBy
    requires forall u, x :: includes(u, x) == Includes(u, x)
    requires forall u :: consistent(u) == InnerConsistent(u, q, s)
    requires forall x :: holds(x) == LeafConsistent(x, q, s)
    ensures Search(t, consistent, holds) == Scan(t, holds)
  {
    BuiltGrown(t, includes);
    forall u, x | includes(u, x) && holds(x) ensures consistent(u) { IncludedIsConsistent(u, x, q, s); }
    SearchIsScan(t, includes, consistent, holds);
  }

  /** Nearest-first order: no key overstates the distance, or the coordinate, of a box below it. */
  lemma NearestFirst(t: BoxTree, m: Metric, q: Box, coord: int, x: Box, includes: (Box, Box) -> bool, all: Box -> bool)
    requires Built(t) && t.Inner? && Valid(q) && coord != 0
    requires (forall u, y :: includes(u, y) == Includes(u, y)) && (forall y :: all(y)) && x in Scan(t, all)
    ensures Includes(t.key, x)
    ensures Distance(m, t.key, q, MaxDim(t.key, q)) <= Distance(m, x, q, MaxDim(x, q))
    ensures Coord(t.key, coord, false) <= Coord(x, coord, true)
  {
    BuiltGrown(t, includes);
    ScannedStands(t, includes, all, x);
    DistanceBound(m, t.key, x, q);
    CoordBound(t.key, x, coord);
  }
}
