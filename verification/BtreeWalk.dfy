/** Read-only check of one leaf level of a B-tree: the walk along right links, and what its silence
    says about the data. */
module BtreeWalk {
  import opened SortedMaps
  import opened Wrappers
  import opened BtreeCheck

  // ----- one target -----

  /** The tests on a live target before its page check. `begun` says that a live page came before. */
  ghost predicate Fitting<K>(pages: seq<Page<K>>, level: nat, trueRoot: bool, begun: bool, left: nat, b: nat) {
    && b < |pages| && !Ignorable(pages[b]) && pages[b].prev == left && pages[b].level == level
    && (!begun ==> left == P_NONE && (trueRoot ==> pages[b].root))
  }

  /** The target on which the check would never finish: its own items are in order, and the search
      for its right neighbour runs in a circle of ignorable pages. */
  ghost predicate Stuck<K>(cmp: (K, K) -> int, pages: seq<Page<K>>, level: nat, trueRoot: bool, begun: bool,
      left: nat, b: nat) {
    && Fitting(pages, level, trueRoot, begun, left, b)
    && InItems(cmp, pages[b]) && Items(pages[b]) != [] && RightKey(pages, b) == Endless
  }

  /** The targets that pass. Half-dead pages are skipped with hardly a look at them. */
  ghost predicate Accepts<K>(cmp: (K, K) -> int, pages: seq<Page<K>>, level: nat, trueRoot: bool, begun: bool,
      left: nat, b: nat) {
    && b < |pages| && !pages[b].deleted && b != left
    && if pages[b].halfDead then !Rightmost(pages[b]) && b != pages[b].prev
       else Fitting(pages, level, trueRoot, begun, left, b) && PageOk(cmp, pages, b)
  }

  /** One turn of the loop of bt_check_level_from_leftmost, up to the step to the right. */
  method CheckTarget<K>(cmp: (K, K) -> int, pages: seq<Page<K>>, level: nat, trueRoot: bool, begun: bool,
      left: nat, current: nat)
      returns (r: Verdict<bool>)
    ensures r.Silent? <==> Accepts(cmp, pages, level, trueRoot, begun, left, current)
    ensures r.Endless? <==> Stuck(cmp, pages, level, trueRoot, begun, left, current)
  {
    if current >= |pages| { return Corrupt(NoSuchBlock); }
    var p := pages[current];
    if p.deleted { return Corrupt(DeletedBlock); }
    if p.halfDead {
      if Rightmost(p) { return Corrupt(FellOffEnd); }
    } else {
      if !begun {
        if p.prev != P_NONE { return Corrupt(NotLeftmost); }
        if trueRoot && !p.root { return Corrupt(NotRoot); }
      }
      if p.prev != left { return Corrupt(LinksDisagree); }
      if level != p.level { return Corrupt(WrongLevel); }
      r := CheckPage(cmp, pages, current);
      if !r.Silent? { return; }
    }
    if current == left || current == p.prev { return Corrupt(CircularLinks); }
    r := Silent(true);
  }

  // ----- chains of targets -----

  /** Block b passed as right sibling of `left`, or as leftmost page. */
  ghost predicate Linked<K>(cmp: (K, K) -> int, pages: seq<Page<K>>, level: nat, left: nat, b: nat) {
    && 0 < b < |pages| && !pages[b].deleted && b != left
    && (left != P_NONE ==> left < |pages| && pages[left].next == b)
    && if pages[b].halfDead then !Rightmost(pages[b]) && b != pages[b].prev
       else pages[b].level == level && pages[b].prev == left && PageOk(cmp, pages, b)
  }

  function Last(c: seq<nat>): nat { if c == [] then P_NONE else c[|c| - 1] }

  /** Blocks that follow one another. */
  ghost predicate Chain<K>(cmp: (K, K) -> int, pages: seq<Page<K>>, c: seq<nat>, level: nat) {
    c == [] || (Chain(cmp, pages, c[..|c| - 1], level) && Linked(cmp, pages, level, Last(c[..|c| - 1]), c[|c| - 1]))
  }

  lemma {:induction false} ChainAt<K>(cmp: (K, K) -> int, pages: seq<Page<K>>, c: seq<nat>, level: nat, i: nat)
    requires Chain(cmp, pages, c, level) && i < |c|
    ensures Linked(cmp, pages, level, if i == 0 then P_NONE else c[i - 1], c[i])
    decreases |c|
  {
    if i < |c| - 1 { ChainAt(cmp, pages, c[..|c| - 1], level, i); }
  }

  lemma ChainPush<K>(cmp: (K, K) -> int, pages: seq<Page<K>>, c: seq<nat>, level: nat, b: nat)
    requires Chain(cmp, pages, c, level) && Linked(cmp, pages, level, Last(c), b)
    ensures Chain(cmp, pages, c + [b], level)
  {
    assert (c + [b])[..|c|] == c;
  }

  lemma ChainFits<K>(cmp: (K, K) -> int, pages: seq<Page<K>>, c: seq<nat>, level: nat)
    requires Chain(cmp, pages, c, level) && AllDistinct(c)
    ensures |c| <= |pages|
  {
    forall i | 0 <= i < |c| ensures c[i] < |pages| { ChainAt(cmp, pages, c, level, i); }
    Pigeonhole(c, |pages|);
  }

  /** Agreement of left links rules out a second visit of a live page. */
  lemma NoRevisit<K>(cmp: (K, K) -> int, pages: seq<Page<K>>, c: seq<nat>, level: nat, b: nat)
    requires Chain(cmp, pages, c, level) && AllDistinct(c) && Linked(cmp, pages, level, Last(c), b) && b in c
    ensures pages[b].halfDead
  {
    var k :| 0 <= k < |c| && c[k] == b;
    ChainAt(cmp, pages, c, level, k);
    ChainAt(cmp, pages, c, level, |c| - 1);
  }

  lemma NextOf<K>(cmp: (K, K) -> int, pages: seq<Page<K>>, c: seq<nat>, level: nat, i: nat)
    requires Chain(cmp, pages, c, level) && i + 1 < |c|
    ensures c[i] < |pages| && pages[c[i]].next == c[i + 1] != P_NONE
  {
    ChainAt(cmp, pages, c, level, i);
    ChainAt(cmp, pages, c, level, i + 1);
  }

  /** Right links lead from equal blocks to equal blocks. */
  lemma {:induction false} SameAhead<K>(cmp: (K, K) -> int, pages: seq<Page<K>>, c: seq<nat>, level: nat,
      i: nat, j: nat, m: nat)
    requires Chain(cmp, pages, c, level) && i < j && j + m < |c| && c[i] == c[j]
    ensures c[i + m] == c[j + m]
    decreases m
  {
    if m > 0 {
      SameAhead(cmp, pages, c, level, i, j, m - 1);
      NextOf(cmp, pages, c, level, i + m - 1);
      NextOf(cmp, pages, c, level, j + m - 1);
    }
  }

  /** A chain that ends at the rightmost page has no block twice. */
  lemma EndedDistinct<K>(cmp: (K, K) -> int, pages: seq<Page<K>>, c: seq<nat>, level: nat)
    requires Chain(cmp, pages, c, level) && c != [] && Last(c) < |pages| && Rightmost(pages[Last(c)])
    ensures AllDistinct(c)
  {
    forall i, j | 0 <= i < j < |c| ensures c[i] != c[j] {
      if c[i] == c[j] {
        var m := |c| - 1 - j;
        SameAhead(cmp, pages, c, level, i, j, m);
        NextOf(cmp, pages, c, level, i + m);
      }
    }
  }

  // ----- the walk -----

  /** The leftmost page is half-dead; then no live page is accepted any more. */
  predicate Lead<K>(pages: seq<Page<K>>, leftmost: nat) { leftmost < |pages| && pages[leftmost].halfDead }

  /** The walk goes on for n more targets from `cur`, reached from `left`. */
  ghost predicate Goes<K>(cmp: (K, K) -> int, pages: seq<Page<K>>, level: nat, trueRoot: bool, lead: bool,
      left: nat, cur: nat, n: nat)
    decreases n
  {
    n == 0 ||
    (cur != P_NONE && Accepts(cmp, pages, level, trueRoot, left != P_NONE && !lead, left, cur) &&
     Goes(cmp, pages, level, trueRoot, lead, cur, pages[cur].next, n - 1))
  }

  /** A level in good order: a chain from its leftmost to its rightmost page. */
  ghost predicate Level<K>(cmp: (K, K) -> int, pages: seq<Page<K>>, c: seq<nat>, leftmost: nat, level: nat,
      trueRoot: bool) {
    && Chain(cmp, pages, c, level) && c != [] && c[0] == leftmost && Last(c) < |pages| && Rightmost(pages[Last(c)])
    && leftmost < |pages| && !pages[leftmost].halfDead && (trueRoot ==> pages[leftmost].root)
  }

  /** The state of the walk: the blocks passed and the target they lead to. */
  ghost predicate Walked<K>(cmp: (K, K) -> int, pages: seq<Page<K>>, leftmost: nat, level: nat, trueRoot: bool,
      passed: seq<nat>, target: nat) {
    && Chain(cmp, pages, passed, level) && AllDistinct(passed) && |passed| <= |pages|
    && if passed == [] then target == leftmost
       else
         passed[0] == leftmost < |pages| && 0 < Last(passed) < |pages| && pages[Last(passed)].next == target &&
         Opened(pages, leftmost, trueRoot, passed)
  }

  /** Either all pages passed are half-dead, or the leftmost one is live and as expected. */
  ghost predicate Opened<K>(pages: seq<Page<K>>, leftmost: nat, trueRoot: bool, passed: seq<nat>)
    requires leftmost < |pages|
  {
    if pages[leftmost].halfDead then forall i :: 0 <= i < |passed| ==> passed[i] < |pages| && pages[passed[i]].halfDead
    else trueRoot ==> pages[leftmost].root
  }

  /** A live page came before. */
  predicate Begun<K>(pages: seq<Page<K>>, leftmost: nat, passed: seq<nat>) { passed != [] && !Lead(pages, leftmost) }

  lemma WalkStep<K>(cmp: (K, K) -> int, pages: seq<Page<K>>, leftmost: nat, level: nat, trueRoot: bool,
      passed: seq<nat>, target: nat)
    requires Walked(cmp, pages, leftmost, level, trueRoot, passed, target) && target != P_NONE
    requires Accepts(cmp, pages, level, trueRoot, Begun(pages, leftmost, passed), Last(passed), target)
    ensures Linked(cmp, pages, level, Last(passed), target)
    ensures target !in passed ==>
      Walked(cmp, pages, leftmost, level, trueRoot, passed + [target], pages[target].next)
  {
    if target !in passed {
      ChainPush(cmp, pages, passed, level, target);
      ChainFits(cmp, pages, passed + [target], level);
    }
  }

  function LeftOf(passed: seq<nat>, i: nat): nat
    requires i <= |passed|
  {
    if i == 0 then P_NONE else passed[i - 1]
  }

  /** Every block passed is accepted where it stands. */
  lemma AcceptedAt<K>(cmp: (K, K) -> int, pages: seq<Page<K>>, leftmost: nat, level: nat, trueRoot: bool,
      passed: seq<nat>, target: nat, i: nat)
    requires Walked(cmp, pages, leftmost, level, trueRoot, passed, target) && i < |passed|
    ensures var left := LeftOf(passed, i);
      && passed[i] != P_NONE && passed[i] < |pages|
      && Accepts(cmp, pages, level, trueRoot, left != P_NONE && !Lead(pages, leftmost), left, passed[i])
      && pages[passed[i]].next == if i + 1 < |passed| then passed[i + 1] else target
  {
    ChainAt(cmp, pages, passed, level, i);
    if i > 0 { ChainAt(cmp, pages, passed, level, i - 1); }
    if i + 1 < |passed| { NextOf(cmp, pages, passed, level, i); }
  }

  lemma GoesStep<K>(cmp: (K, K) -> int, pages: seq<Page<K>>, level: nat, trueRoot: bool, lead: bool,
      left: nat, cur: nat, n: nat)
    requires cur != P_NONE && Accepts(cmp, pages, level, trueRoot, left != P_NONE && !lead, left, cur)
    ensures Goes(cmp, pages, level, trueRoot, lead, left, cur, n + 1) <==>
      Goes(cmp, pages, level, trueRoot, lead, cur, pages[cur].next, n)
  {
  }

  /** From block i on, the walk goes as far as from its target, and on to it. */
  lemma {:induction false} GoesThrough<K>(cmp: (K, K) -> int, pages: seq<Page<K>>, leftmost: nat, level: nat,
      trueRoot: bool, passed: seq<nat>, target: nat, i: nat, m: nat)
    requires Walked(cmp, pages, leftmost, level, trueRoot, passed, target) && i < |passed|
    ensures Goes(cmp, pages, level, trueRoot, Lead(pages, leftmost), LeftOf(passed, i), passed[i], |passed| - i + m)
      <==> Goes(cmp, pages, level, trueRoot, Lead(pages, leftmost), Last(passed), target, m)
    decreases |passed| - i
  {
    AcceptedAt(cmp, pages, leftmost, level, trueRoot, passed, target, i);
    GoesStep(cmp, pages, level, trueRoot, Lead(pages, leftmost), LeftOf(passed, i), passed[i], |passed| - i - 1 + m);
    if i + 1 < |passed| { GoesThrough(cmp, pages, leftmost, level, trueRoot, passed, target, i + 1, m); }
  }

  /** The walk goes |passed| + m targets far if and only if it goes m more from its target. */
  lemma GoesOn<K>(cmp: (K, K) -> int, pages: seq<Page<K>>, leftmost: nat, level: nat, trueRoot: bool,
      passed: seq<nat>, target: nat, m: nat)
    requires Walked(cmp, pages, leftmost, level, trueRoot, passed, target)
    ensures Goes(cmp, pages, level, trueRoot, Lead(pages, leftmost), P_NONE, leftmost, |passed| + m) <==>
      Goes(cmp, pages, level, trueRoot, Lead(pages, leftmost), Last(passed), target, m)
  {
    if passed != [] { GoesThrough(cmp, pages, leftmost, level, trueRoot, passed, target, 0, m); }
  }

  /** Fewer targets are no obstacle. */
  lemma {:induction false} GoesLess<K>(cmp: (K, K) -> int, pages: seq<Page<K>>, level: nat, trueRoot: bool,
      lead: bool, left: nat, cur: nat, m: nat, n: nat)
    requires m <= n && Goes(cmp, pages, level, trueRoot, lead, left, cur, n)
    ensures Goes(cmp, pages, level, trueRoot, lead, left, cur, m)
    decreases m
  {
    if m > 0 { GoesLess(cmp, pages, level, trueRoot, lead, cur, pages[cur].next, m - 1, n - 1); }
  }

  /** Once a half-dead page is accepted a second time, the walk never ends. */
  lemma {:induction false} GoesRound<K>(cmp: (K, K) -> int, pages: seq<Page<K>>, leftmost: nat, level: nat,
      trueRoot: bool, passed: seq<nat>, target: nat, m: nat)
    requires Walked(cmp, pages, leftmost, level, trueRoot, passed, target) && target in passed
    requires Accepts(cmp, pages, level, trueRoot, Begun(pages, leftmost, passed), Last(passed), target)
    ensures Goes(cmp, pages, level, trueRoot, Lead(pages, leftmost), Last(passed), target, m)
    decreases m
  {
    if m > 0 {
      var lead := Lead(pages, leftmost);
      var k :| 0 <= k < |passed| && passed[k] == target;
      AcceptedAt(cmp, pages, leftmost, level, trueRoot, passed, target, k);
      GoesRound(cmp, pages, leftmost, level, trueRoot, passed, target, m - 1);
      GoesThrough(cmp, pages, leftmost, level, trueRoot, passed, target, k + 1, m - 1);
      GoesLess(cmp, pages, level, trueRoot, lead, target, passed[k + 1], m - 1, |passed| - (k + 1) + (m - 1));
    }
  }

  /** The walk has come along c so far. */
  ghost predicate Along(c: seq<nat>, visited: seq<nat>, current: nat) {
    visited <= c && current == if |visited| < |c| then c[|visited|] else P_NONE
  }

  ghost predicate OnTrack<K>(cmp: (K, K) -> int, pages: seq<Page<K>>, leftmost: nat, level: nat, trueRoot: bool,
      c: seq<nat>, passed: seq<nat>, target: nat) {
    Level(cmp, pages, c, leftmost, level, trueRoot) ==> Along(c, passed, target)
  }

  lemma AlongNext<K>(cmp: (K, K) -> int, pages: seq<Page<K>>, c: seq<nat>, leftmost: nat, level: nat, trueRoot: bool,
      visited: seq<nat>, current: nat)
    requires Level(cmp, pages, c, leftmost, level, trueRoot) && Along(c, visited, current) && current != P_NONE
    ensures Accepts(cmp, pages, level, trueRoot, Begun(pages, leftmost, visited), Last(visited), current)
    ensures current !in visited && Along(c, visited + [current], pages[current].next)
  {
    var n := |visited|;
    assert c[..n] == visited;
    ChainAt(cmp, pages, c, level, n);
    if n > 0 {
      ChainAt(cmp, pages, c, level, n - 1);
      assert Last(visited) == c[n - 1];
    }
    EndedDistinct(cmp, pages, c, level);
    assert c[..n + 1] == visited + [current];
    if n + 1 < |c| { ChainAt(cmp, pages, c, level, n + 1); }
  }

  lemma TrackAccepts<K>(cmp: (K, K) -> int, pages: seq<Page<K>>, leftmost: nat, level: nat, trueRoot: bool,
      c: seq<nat>, passed: seq<nat>, target: nat)
    requires OnTrack(cmp, pages, leftmost, level, trueRoot, c, passed, target) && target != P_NONE
    ensures Level(cmp, pages, c, leftmost, level, trueRoot) ==>
      && Accepts(cmp, pages, level, trueRoot, Begun(pages, leftmost, passed), Last(passed), target)
      && target !in passed && Along(c, passed + [target], pages[target].next)
  {
    if Level(cmp, pages, c, leftmost, level, trueRoot) {
      AlongNext(cmp, pages, c, leftmost, level, trueRoot, passed, target);
    }
  }

  lemma WalkEnds<K>(cmp: (K, K) -> int, pages: seq<Page<K>>, leftmost: nat, level: nat, trueRoot: bool, c: seq<nat>,
      passed: seq<nat>)
    requires leftmost != P_NONE && Walked(cmp, pages, leftmost, level, trueRoot, passed, P_NONE)
    requires OnTrack(cmp, pages, leftmost, level, trueRoot, c, passed, P_NONE)
    ensures Level(cmp, pages, passed, leftmost, level, trueRoot)
    ensures Level(cmp, pages, c, leftmost, level, trueRoot) ==> passed == c
  {
    ChainAt(cmp, pages, passed, level, |passed| - 1);
    if Level(cmp, pages, c, leftmost, level, trueRoot) && |passed| < |c| {
      ChainAt(cmp, pages, c, level, |passed|);
    }
  }

  /** The verdict on the walk that stands at `target`. */
  ghost predicate Judged<K>(cmp: (K, K) -> int, pages: seq<Page<K>>, leftmost: nat, level: nat, trueRoot: bool,
      r: Verdict<bool>, passed: seq<nat>, target: nat)
  {
    var begun := Begun(pages, leftmost, passed);
    && (r.Silent? <==> target == P_NONE)
    && (r.Endless? <==>
          && target != P_NONE
          && (Stuck(cmp, pages, level, trueRoot, begun, Last(passed), target) ||
              (target in passed && Accepts(cmp, pages, level, trueRoot, begun, Last(passed), target))))
    && (r.Corrupt? ==> !Accepts(cmp, pages, level, trueRoot, begun, Last(passed), target))
  }

  /** bt_check_level_from_leftmost on a leaf level: the verdict, the blocks passed and the target
      reached. However corrupt the file, the blocks passed are linked and distinct, hence no more than
      the file has. The walk is silent exactly on levels in good order. It hangs exactly on a stuck
      target, or when it comes back to a half-dead page; it is stopped here where it does so. */
  method CheckLevel<K>(cmp: (K, K) -> int, pages: seq<Page<K>>, leftmost: nat, level: nat, trueRoot: bool,
      ghost c: seq<nat>)
      returns (r: Verdict<bool>, passed: seq<nat>, target: nat)
    requires leftmost != P_NONE
    ensures Walked(cmp, pages, leftmost, level, trueRoot, passed, target)
    ensures Judged(cmp, pages, leftmost, level, trueRoot, r, passed, target)
    ensures r.Silent? ==> Level(cmp, pages, passed, leftmost, level, trueRoot)
    ensures Level(cmp, pages, c, leftmost, level, trueRoot) ==> r.Silent? && passed == c
  {
    passed, target := [], leftmost;
    var begun := false;
    while target != P_NONE
      invariant Walked(cmp, pages, leftmost, level, trueRoot, passed, target)
      invariant OnTrack(cmp, pages, leftmost, level, trueRoot, c, passed, target)
      invariant begun == Begun(pages, leftmost, passed)
      decreases |pages| - |passed|
    {
      TrackAccepts(cmp, pages, leftmost, level, trueRoot, c, passed, target);
      r := CheckTarget(cmp, pages, level, trueRoot, begun, Last(passed), target);
      if !r.Silent? { return; }
      if target in passed { return Endless, passed, target; }
      WalkStep(cmp, pages, leftmost, level, trueRoot, passed, target);
      begun := begun || !pages[target].halfDead;
      passed, target := passed + [target], pages[target].next;
    }
    WalkEnds(cmp, pages, leftmost, level, trueRoot, c, passed);
    r := Silent(true);
  }

  /** The walk goes on for ever if and only if it has come back to a page it accepts again, which is
      half-dead. */
  lemma ForeverIff<K>(cmp: (K, K) -> int, pages: seq<Page<K>>, leftmost: nat, level: nat, trueRoot: bool,
      r: Verdict<bool>, passed: seq<nat>, target: nat)
    requires Walked(cmp, pages, leftmost, level, trueRoot, passed, target)
    requires Judged(cmp, pages, leftmost, level, trueRoot, r, passed, target)
    ensures (forall n :: Goes(cmp, pages, level, trueRoot, Lead(pages, leftmost), P_NONE, leftmost, n)) <==>
      target != P_NONE && target in passed &&
      Accepts(cmp, pages, level, trueRoot, Begun(pages, leftmost, passed), Last(passed), target)
    ensures target != P_NONE && target in passed ==>
      Accepts(cmp, pages, level, trueRoot, Begun(pages, leftmost, passed), Last(passed), target) ==>
        pages[target].halfDead
  {
    var lead, begun := Lead(pages, leftmost), Begun(pages, leftmost, passed);
    if target != P_NONE && target in passed && Accepts(cmp, pages, level, trueRoot, begun, Last(passed), target) {
      WalkStep(cmp, pages, leftmost, level, trueRoot, passed, target);
      NoRevisit(cmp, pages, passed, level, target);
      forall n ensures Goes(cmp, pages, level, trueRoot, lead, P_NONE, leftmost, n) {
        GoesRound(cmp, pages, leftmost, level, trueRoot, passed, target, n);
        GoesOn(cmp, pages, leftmost, level, trueRoot, passed, target, n);
        GoesLess(cmp, pages, level, trueRoot, lead, P_NONE, leftmost, n, |passed| + n);
      }
    } else {
      GoesOn(cmp, pages, leftmost, level, trueRoot, passed, target, 1);
      assert !Goes(cmp, pages, level, trueRoot, lead, P_NONE, leftmost, |passed| + 1);
    }
  }

  /** For example at two half-dead pages that link to each other. */
  lemma HalfDeadCycle(cmp: (int, int) -> int, pages: seq<Page<int>>, n: nat)
    requires |pages| == 3
    requires pages[1] == Page(false, true, false, 0, 2, 0, [1]) && pages[2] == Page(false, true, false, 1, 1, 0, [1])
    ensures Goes(cmp, pages, 0, false, true, P_NONE, 1, n)
  {
    HalfDeadTurn(cmp, pages, P_NONE, n);
  }

  lemma {:induction false} HalfDeadTurn(cmp: (int, int) -> int, pages: seq<Page<int>>, left: nat, n: nat)
    requires |pages| == 3 && (left == P_NONE || left == 2)
    requires pages[1] == Page(false, true, false, 0, 2, 0, [1]) && pages[2] == Page(false, true, false, 1, 1, 0, [1])
    ensures Goes(cmp, pages, 0, false, true, left, 1, n)
    decreases n
  {
    if n > 1 { HalfDeadTurn(cmp, pages, 2, n - 2); }
  }

  // ----- what silence means -----

  /** The items a scan would see on a page. */
  function LiveItems<K>(p: Page<K>): seq<K> { if p.halfDead then [] else Items(p) }

  ghost predicate OnFile<K>(pages: seq<Page<K>>, c: seq<nat>) { forall i :: 0 <= i < |c| ==> c[i] < |pages| }

  /** All items along a chain. */
  ghost function AllItems<K>(pages: seq<Page<K>>, c: seq<nat>): seq<K>
    requires OnFile(pages, c)
  {
    if c == [] then [] else AllItems(pages, c[..|c| - 1]) + LiveItems(pages[c[|c| - 1]])
  }

  ghost predicate Rising<K>(cmp: (K, K) -> int, s: seq<K>) { forall i, j :: 0 <= i < j < |s| ==> cmp(s[i], s[j]) < 0 }

  lemma {:induction false} AdjacentRises<K(!new)>(cmp: (K, K) -> int, s: seq<K>, i: nat, j: nat)
    requires IsOrder(cmp) && (forall k :: 0 < k < |s| ==> cmp(s[k - 1], s[k]) < 0) && i < j < |s|
    ensures cmp(s[i], s[j]) < 0
    decreases j
  {
    assert cmp(s[j - 1], s[j]) < 0;
    if i < j - 1 { AdjacentRises(cmp, s, i, j - 1); }
  }

  lemma PageRises<K(!new)>(cmp: (K, K) -> int, p: Page<K>)
    requires IsOrder(cmp) && InItems(cmp, p)
    ensures Rising(cmp, Items(p))
  {
    forall i, j | 0 <= i < j < |Items(p)| ensures cmp(Items(p)[i], Items(p)[j]) < 0 {
      AdjacentRises(cmp, Items(p), i, j);
    }
  }

  lemma RisingJoin<K(!new)>(cmp: (K, K) -> int, a: seq<K>, b: seq<K>)
    requires IsOrder(cmp) && Rising(cmp, a) && Rising(cmp, b) && a != [] && b != [] && cmp(a[|a| - 1], b[0]) < 0
    ensures Rising(cmp, a + b)
  {
    forall i | 0 <= i < |a| ensures cmp(a[i], b[0]) < 0 {
      if i < |a| - 1 { assert cmp(a[i], a[|a| - 1]) < 0; }
    }
    forall i, j | 0 <= i < |a| && 0 <= j < |b| ensures cmp(a[i], b[j]) < 0 {
      if j > 0 { assert cmp(b[0], b[j]) < 0; }
    }
  }

  /** The last live page of a chain. */
  ghost function LastLive<K>(pages: seq<Page<K>>, c: seq<nat>): (l: Option<nat>)
    requires OnFile(pages, c)
    ensures l.Some? ==> l.value < |pages|
  {
    if c == [] then None else
    var b := c[|c| - 1];
    if pages[b].halfDead then LastLive(pages, c[..|c| - 1]) else Some(b)
  }

  /** From the last live page the search for the right neighbour skips the half-dead pages after it. */
  lemma {:induction false} SkipsAhead<K>(cmp: (K, K) -> int, pages: seq<Page<K>>, c: seq<nat>, level: nat,
      next: nat, b: nat, n: nat) returns (m: nat)
    requires Chain(cmp, pages, c, level) && OnFile(pages, c) && c != [] && pages[Last(c)].next == next != P_NONE
    requires Skip(pages, next, n) == Some(b) && LastLive(pages, c).Some?
    ensures var p := pages[LastLive(pages, c).value]; !Rightmost(p) && Skip(pages, p.next, m) == Some(b)
    decreases |c|
  {
    var front, h := c[..|c| - 1], c[|c| - 1];
    if pages[h].halfDead {
      m := SkipsAhead(cmp, pages, front, level, h, b, n + 1);
    } else {
      m := n;
    }
  }

  /** The page check of the last live page compares its last item with the first one of b. */
  lemma CrossPage<K(!new)>(cmp: (K, K) -> int, pages: seq<Page<K>>, c: seq<nat>, level: nat, b: nat)
    requires IsOrder(cmp) && Chain(cmp, pages, c, level) && OnFile(pages, c) && c != []
    requires Linked(cmp, pages, level, Last(c), b) && !pages[b].halfDead && Items(pages[b]) != []
    requires LastLive(pages, c).Some? && Items(pages[LastLive(pages, c).value]) != []
    ensures var s := Items(pages[LastLive(pages, c).value]); cmp(s[|s| - 1], Items(pages[b])[0]) < 0
  {
    var l := LastLive(pages, c).value;
    assert Skip(pages, b, 0) == Some(b);
    ChainAt(cmp, pages, c, level, |c| - 1);
    var m := SkipsAhead(cmp, pages, c, level, b, b, 0);
    SkipBound(pages, pages[l].next, m);
    LiveOk(cmp, pages, c, level);
  }

  lemma {:induction false} LiveOk<K>(cmp: (K, K) -> int, pages: seq<Page<K>>, c: seq<nat>, level: nat)
    requires Chain(cmp, pages, c, level) && OnFile(pages, c) && LastLive(pages, c).Some?
    ensures PageOk(cmp, pages, LastLive(pages, c).value)
    decreases |c|
  {
    if pages[c[|c| - 1]].halfDead { LiveOk(cmp, pages, c[..|c| - 1], level); }
  }

  ghost predicate NoneEmpty<K>(pages: seq<Page<K>>, c: seq<nat>) {
    forall i :: 0 <= i < |c| ==> c[i] < |pages| && (!pages[c[i]].halfDead ==> Items(pages[c[i]]) != [])
  }

  /** The items along a silently checked level are globally strictly increasing. */
  lemma {:induction false} SilentRises<K(!new)>(cmp: (K, K) -> int, pages: seq<Page<K>>, c: seq<nat>, level: nat)
    requires IsOrder(cmp) && Chain(cmp, pages, c, level) && NoneEmpty(pages, c)
    ensures Rising(cmp, AllItems(pages, c))
    decreases |c|
  {
    if c != [] {
      var front, b := c[..|c| - 1], c[|c| - 1];
      SilentRises(cmp, pages, front, level);
      if pages[b].halfDead {
        assert AllItems(pages, c) == AllItems(pages, front) + [] == AllItems(pages, front);
      } else {
        PageRises(cmp, pages[b]);
        LastItem(pages, front);
        if LastLive(pages, front).None? {
          assert AllItems(pages, c) == [] + Items(pages[b]) == Items(pages[b]);
        } else {
          LiveOk(cmp, pages, front, level);
          CrossPage(cmp, pages, front, level, b);
          RisingJoin(cmp, AllItems(pages, front), Items(pages[b]));
        }
      }
    }
  }

  /** The items of a chain end with those of its last live page. */
  lemma {:induction false} LastItem<K>(pages: seq<Page<K>>, c: seq<nat>)
    requires NoneEmpty(pages, c)
    ensures match LastLive(pages, c)
      case None => AllItems(pages, c) == []
      case Some(l) =>
        var s := AllItems(pages, c);
        s != [] && Items(pages[l]) != [] && s[|s| - 1] == Items(pages[l])[|Items(pages[l])| - 1]
    decreases |c|
  {
    if c != [] && pages[c[|c| - 1]].halfDead {
      LastItem(pages, c[..|c| - 1]);
      assert AllItems(pages, c) == AllItems(pages, c[..|c| - 1]);
    }
  }

  /** And every item of a live page is at most its high key. */
  lemma SilentBounds<K>(cmp: (K, K) -> int, pages: seq<Page<K>>, c: seq<nat>, level: nat, i: nat, k: nat)
    requires Chain(cmp, pages, c, level) && i < |c| && c[i] < |pages| && k < |LiveItems(pages[c[i]])|
    requires !Rightmost(pages[c[i]])
    ensures pages[c[i]].tuples != [] && cmp(LiveItems(pages[c[i]])[k], pages[c[i]].tuples[0]) <= 0
  {
    ChainAt(cmp, pages, c, level, i);
  }

  /** Three pages, the middle one empty, with 10 on the left and 5 on the right. */
  ghost predicate OutOfOrder(pages: seq<Page<int>>) {
    && |pages| == 4
    && pages[1] == Page(false, false, false, 0, 2, 0, [20, 10])
    && pages[2] == Page(false, false, false, 1, 3, 0, [20])
    && pages[3] == Page(false, false, false, 2, 0, 0, [5])
  }

  lemma OutOfOrderPages(cmp: (int, int) -> int, pages: seq<Page<int>>)
    requires OutOfOrder(pages) && forall a, b :: cmp(a, b) == a - b
    ensures Items(pages[1]) == [10] && Items(pages[2]) == [] && Items(pages[3]) == [5]
    ensures Linked(cmp, pages, 0, 0, 1) && Linked(cmp, pages, 0, 1, 2) && Linked(cmp, pages, 0, 2, 3)
  {
    assert Skip(pages, 2, 4) == Some(2);
    assert RightKey(pages, 1) == Silent(None);
  }

  lemma OutOfOrderItems(pages: seq<Page<int>>)
    requires OutOfOrder(pages) && Items(pages[1]) == [10] && Items(pages[2]) == [] && Items(pages[3]) == [5]
    ensures AllItems(pages, [1, 2, 3]) == [10, 5]
  {
    assert [1, 2, 3][..2] == [1, 2] && [1, 2][..1] == [1] && [1][..0] == [];
    assert AllItems(pages, []) == [];
    assert AllItems(pages, [1]) == [] + [10];
    assert AllItems(pages, [1, 2]) == [10] + [];
    assert AllItems(pages, [1, 2, 3]) == [10] + [5];
  }

  /** Silence is not enough when a page is empty: its neighbours are not compared with each other. */
  lemma EmptyPageHides(cmp: (int, int) -> int, pages: seq<Page<int>>)
    requires OutOfOrder(pages) && forall a, b :: cmp(a, b) == a - b
    ensures IsOrder(cmp) && Chain(cmp, pages, [1, 2, 3], 0) && Rightmost(pages[3])
    ensures !Rising(cmp, AllItems(pages, [1, 2, 3]))
  {
    OutOfOrderPages(cmp, pages);
    OutOfOrderItems(pages);
    ChainPush(cmp, pages, [], 0, 1);
    ChainPush(cmp, pages, [1], 0, 2);
    ChainPush(cmp, pages, [1, 2], 0, 3);
    assert [] + [1] == [1] && [1] + [2] == [1, 2] && [1, 2] + [3] == [1, 2, 3];
    var s := AllItems(pages, [1, 2, 3]);
    assert cmp(s[0], s[1]) == 5;
  }
}
