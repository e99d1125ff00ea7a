/** Lossy search trees, for any key type: what a key must promise for a pruned search to find
    everything a full scan finds. */
module GistTree {

  datatype Tree<K, V> = Data(v: V) | Inner(key: K, children: seq<Tree<K, V>>)

  /** The values a node stands for. */
  predicate Stands<K, V(==)>(t: Tree<K, V>, admits: (K, V) -> bool, v: V) {
    match t case Data(x) => v == x case Inner(k, _) => admits(k, v)
  }

  /** Every inner key stands for whatever the nodes just below it stand for. */
  ghost predicate Grown<K(!new), V(!new)>(t: Tree<K, V>, admits: (K, V) -> bool) {
    t.Inner? ==> forall c :: c in t.children ==> Grown(c, admits) && forall v :: Stands(c, admits, v) ==>
        admits(t.key, v)
  }

  /** All values of the tree that satisfy `holds`, in order. */
  function Scan<K, V>(t: Tree<K, V>, holds: V -> bool): seq<V>
    decreases t, 1
  {
    if t.Inner? then ScanAll(t.children, holds) else if holds(t.v) then [t.v] else []
  }

  function ScanAll<K, V>(ts: seq<Tree<K, V>>, holds: V -> bool): seq<V>
    decreases ts, 0
  {
    if ts == [] then [] else Scan(ts[0], holds) + ScanAll(ts[1..], holds)
  }

  /** Descent into the subtrees whose keys are consistent with the query only. */
  function Search<K, V>(t: Tree<K, V>, consistent: K -> bool, holds: V -> bool): seq<V>
    decreases t, 1
  {
    if t.Data? then if holds(t.v) then [t.v] else []
    else if consistent(t.key) then SearchAll(t.children, consistent, holds) else []
  }

  function SearchAll<K, V>(ts: seq<Tree<K, V>>, consistent: K -> bool, holds: V -> bool): seq<V>
    decreases ts, 0
  {
    if ts == [] then [] else Search(ts[0], consistent, holds) + SearchAll(ts[1..], consistent, holds)
  }

  /** What a scan returns satisfies the query, and every node above it stands for it. */
  lemma {:induction false} ScannedStands<K(!new), V(!new)>(t: Tree<K, V>, admits: (K, V) -> bool, holds: V -> bool,
      v: V)
    requires Grown(t, admits) && v in Scan(t, holds)
    ensures holds(v) && Stands(t, admits, v)
    decreases t, 1
  {
    if t.Inner? {
      var c := ScannedStandsAll(t.children, admits, holds, v);
    }
  }

  lemma {:induction false} ScannedStandsAll<K(!new), V(!new)>(ts: seq<Tree<K, V>>, admits: (K, V) -> bool,
      holds: V -> bool, v: V) returns (c: Tree<K, V>)
    requires (forall c :: c in ts ==> Grown(c, admits)) && v in ScanAll(ts, holds)
    ensures holds(v) && c in ts && Stands(c, admits, v)
    decreases ts, 0
  {
    if v in Scan(ts[0], holds) {
      ScannedStands(ts[0], admits, holds, v);
      c := ts[0];
    } else {
      c := ScannedStandsAll(ts[1..], admits, holds, v);
    }
  }

  /** If a key is consistent with a query whenever some value it stands for satisfies it, the
      pruned search returns exactly what the scan returns. */
  lemma {:induction false} SearchIsScan<K(!new), V(!new)>(t: Tree<K, V>, admits: (K, V) -> bool, consistent: K -> bool,
      holds: V -> bool)
    requires Grown(t, admits)
    requires forall k, v :: admits(k, v) && holds(v) ==> consistent(k)
    ensures Search(t, consistent, holds) == Scan(t, holds)
    decreases t, 1
  {
    if t.Inner? {
      SearchAllIsScanAll(t.children, admits, consistent, holds);
      if Scan(t, holds) != [] {
        ScannedStands(t, admits, holds, Scan(t, holds)[0]);
      }
    }
  }

  lemma {:induction false} SearchAllIsScanAll<K(!new), V(!new)>(ts: seq<Tree<K, V>>, admits: (K, V) -> bool,
      consistent: K -> bool, holds: V -> bool)
    requires forall c :: c in ts ==> Grown(c, admits)
    requires forall k, v :: admits(k, v) && holds(v) ==> consistent(k)
    ensures SearchAll(ts, consistent, holds) == ScanAll(ts, holds)
    decreases ts, 0
  {
    if ts != [] {
      SearchIsScan(ts[0], admits, consistent, holds);
      SearchAllIsScanAll(ts[1..], admits, consistent, holds);
    }
  }

  ghost predicate AllData<K(!new), V(!new)>(t: Tree<K, V>, ok: V -> bool) {
    if t.Data? then ok(t.v) else forall c :: c in t.children ==> AllData(c, ok)
  }

  lemma {:induction false} AllDataWeaker<K(!new), V(!new)>(t: Tree<K, V>, p: V -> bool, q: V -> bool)
    requires AllData(t, p) && forall v :: p(v) ==> q(v)
    ensures AllData(t, q)
    decreases t
  {
    if t.Inner? {
      forall c | c in t.children ensures AllData(c, q) { AllDataWeaker(c, p, q); }
    }
  }

  /** Scans with tests that agree on all data of the tree agree. */
  lemma {:induction false} ScansAgree<K(!new), V(!new)>(t: Tree<K, V>, ok: V -> bool, p: V -> bool, q: V -> bool)
    requires AllData(t, ok) && forall v :: ok(v) ==> p(v) == q(v)
    ensures Scan(t, p) == Scan(t, q)
    decreases t, 1
  {
    if t.Inner? { ScansAgreeAll(t.children, ok, p, q); }
  }

  lemma {:induction false} ScansAgreeAll<K(!new), V(!new)>(ts: seq<Tree<K, V>>, ok: V -> bool, p: V -> bool,
      q: V -> bool)
    requires (forall c :: c in ts ==> AllData(c, ok)) && forall v :: ok(v) ==> p(v) == q(v)
    ensures ScanAll(ts, p) == ScanAll(ts, q)
    decreases ts, 0
  {
    if ts != [] {
      ScansAgree(ts[0], ok, p, q);
      ScansAgreeAll(ts[1..], ok, p, q);
    }
  }
}
