/** The check of a leaf level raises no false alarm: a level in good order, described by its links and
    items alone, is passed in silence. */
module BtreeHealth {
  import opened SortedMaps
  import opened Wrappers
  import opened BtreeCheck
  import opened BtreeWalk

  /** A page with a right sibling has a high key, which no item exceeds. */
  ghost predicate InBounds<K>(cmp: (K, K) -> int, p: Page<K>) {
    !Rightmost(p) ==> p.tuples != [] && forall k :: 0 <= k < |Items(p)| ==> cmp(Items(p)[k], p.tuples[0]) <= 0
  }

  /** What a page is like that stands at place i of a level. */
  ghost predicate PageFits<K>(cmp: (K, K) -> int, pages: seq<Page<K>>, c: seq<nat>, level: nat, i: nat)
    requires i < |c|
  {
    && P_NONE < c[i] < |pages|
    && var p := pages[c[i]];
       && !p.deleted && p.next == (if i + 1 < |c| then c[i + 1] else P_NONE)
       && if p.halfDead then p.prev != c[i]
          else p.level == level && p.prev == LeftOf(c, i) && InBounds(cmp, p)
  }

  /** A level in good order: a chain of right links from a live leftmost page to a live rightmost one,
      left links of live pages that agree, and items that increase from page to page. */
  ghost predicate Healthy<K>(cmp: (K, K) -> int, pages: seq<Page<K>>, c: seq<nat>, leftmost: nat, level: nat,
      trueRoot: bool) {
    && c != [] && c[0] == leftmost && AllDistinct(c)
    && (forall i :: 0 <= i < |c| ==> PageFits(cmp, pages, c, level, i))
    && OnFile(pages, c) && !pages[leftmost].halfDead && !pages[Last(c)].halfDead && (trueRoot ==> pages[leftmost].root)
    && Rising(cmp, AllItems(pages, c))
  }

  // ----- places of items -----

  function Join<T>(ls: seq<seq<T>>): seq<T> { if ls == [] then [] else Join(ls[..|ls| - 1]) + ls[|ls| - 1] }

  lemma {:induction false} Somewhere<T>(ls: seq<seq<T>>, i: nat, j: nat) returns (x: nat)
    requires i < |ls| && j < |ls[i]|
    ensures x < |Join(ls)| && Join(ls)[x] == ls[i][j]
    decreases |ls|
  {
    if i < |ls| - 1 { x := Somewhere(ls[..|ls| - 1], i, j); } else { x := |Join(ls[..i])| + j; }
  }

  lemma RisingParts<T>(cmp: (T, T) -> int, a: seq<T>, b: seq<T>)
    requires Rising(cmp, a + b)
    ensures Rising(cmp, a) && Rising(cmp, b)
    ensures forall i, j :: 0 <= i < |a| && 0 <= j < |b| ==> cmp(a[i], b[j]) < 0
  {
    var s := a + b;
    assert forall i :: 0 <= i < |a| ==> s[i] == a[i];
    assert forall j :: 0 <= j < |b| ==> s[|a| + j] == b[j];
  }

  /** Items of an earlier place, in the same list or an earlier one, are smaller. */
  lemma {:induction false} JoinRises<T>(cmp: (T, T) -> int, ls: seq<seq<T>>, i: nat, j: nat, i': nat, j': nat)
    requires Rising(cmp, Join(ls)) && i <= i' < |ls| && j < |ls[i]| && j' < |ls[i']| && (i == i' ==> j < j')
    ensures cmp(ls[i][j], ls[i'][j']) < 0
    decreases |ls|
  {
    var front, last := ls[..|ls| - 1], ls[|ls| - 1];
    RisingParts(cmp, Join(front), last);
    if i' < |ls| - 1 {
      JoinRises(cmp, front, i, j, i', j');
    } else if i < i' {
      var x := Somewhere(front, i, j);
    }
  }

  /** The items of the pages of a chain. */
  ghost function Lists<K>(pages: seq<Page<K>>, c: seq<nat>): (ls: seq<seq<K>>)
    requires OnFile(pages, c)
    ensures |ls| == |c| && forall i :: 0 <= i < |c| ==> ls[i] == LiveItems(pages[c[i]])
  {
    seq(|c|, i requires 0 <= i < |c| => LiveItems(pages[c[i]]))
  }

  lemma {:induction false} JoinLists<K>(pages: seq<Page<K>>, c: seq<nat>)
    requires OnFile(pages, c)
    ensures AllItems(pages, c) == Join(Lists(pages, c))
    decreases |c|
  {
    if c != [] {
      JoinLists(pages, c[..|c| - 1]);
      assert Lists(pages, c)[..|c| - 1] == Lists(pages, c[..|c| - 1]);
    }
  }

  lemma ItemsRise<K>(cmp: (K, K) -> int, pages: seq<Page<K>>, c: seq<nat>, i: nat, j: nat, i': nat, j': nat)
    requires OnFile(pages, c) && Rising(cmp, AllItems(pages, c)) && i <= i' < |c| && (i == i' ==> j < j')
    requires j < |LiveItems(pages[c[i]])| && j' < |LiveItems(pages[c[i']])|
    ensures cmp(LiveItems(pages[c[i]])[j], LiveItems(pages[c[i']])[j']) < 0
  {
    JoinLists(pages, c);
    JoinRises(cmp, Lists(pages, c), i, j, i', j');
  }

  // ----- pages -----

  /** The next live page, and how the search for a right neighbour gets there. */
  lemma {:induction false} NextLive<K>(cmp: (K, K) -> int, pages: seq<Page<K>>, c: seq<nat>, level: nat, i: nat)
    returns (k: nat)
    requires i < |c| && (forall m :: 0 <= m < |c| ==> PageFits(cmp, pages, c, level, m))
    requires OnFile(pages, c) && !pages[Last(c)].halfDead
    ensures i <= k < |c| && !pages[c[k]].halfDead && Skip(pages, c[i], k - i) == Some(c[k])
    decreases |c| - i
  {
    assert PageFits(cmp, pages, c, level, i);
    if pages[c[i]].halfDead {
      assert PageFits(cmp, pages, c, level, i + 1);
      k := NextLive(cmp, pages, c, level, i + 1);
    } else {
      k := i;
    }
  }

  lemma LiveFits<K(!new)>(cmp: (K, K) -> int, pages: seq<Page<K>>, c: seq<nat>, leftmost: nat, level: nat,
      trueRoot: bool, i: nat)
    requires IsOrder(cmp) && Healthy(cmp, pages, c, leftmost, level, trueRoot)
    requires i < |c| && !pages[c[i]].halfDead
    ensures PageOk(cmp, pages, c[i])
  {
    var p := pages[c[i]];
    assert PageFits(cmp, pages, c, level, i);
    forall k | 0 < k < |Items(p)| ensures cmp(Items(p)[k - 1], Items(p)[k]) < 0 {
      ItemsRise(cmp, pages, c, i, k - 1, i, k);
    }
    if Items(p) != [] && !Rightmost(p) { RightFits(cmp, pages, c, leftmost, level, trueRoot, i); }
  }

  /** The item to the right of a page is greater than its last one. */
  lemma RightFits<K(!new)>(cmp: (K, K) -> int, pages: seq<Page<K>>, c: seq<nat>, leftmost: nat, level: nat,
      trueRoot: bool, i: nat)
    requires IsOrder(cmp) && Healthy(cmp, pages, c, leftmost, level, trueRoot)
    requires i < |c| && !pages[c[i]].halfDead && !Rightmost(pages[c[i]]) && Items(pages[c[i]]) != []
    ensures var r, s := RightKey(pages, c[i]), Items(pages[c[i]]);
            r.Silent? && (r.value.Some? ==> cmp(r.value.value, s[|s| - 1]) > 0)
  {
    var s := Items(pages[c[i]]);
    assert PageFits(cmp, pages, c, level, i);
    var k := NextLive(cmp, pages, c, level, i + 1);
    SkipBound(pages, c[i + 1], k - (i + 1));
    if Items(pages[c[k]]) != [] {
      ItemsRise(cmp, pages, c, i, |s| - 1, k, 0);
      assert cmp(s[|s| - 1], Items(pages[c[k]])[0]) < 0;
    }
  }

  // ----- the level -----

  lemma PageLinks<K(!new)>(cmp: (K, K) -> int, pages: seq<Page<K>>, c: seq<nat>, leftmost: nat, level: nat,
      trueRoot: bool, i: nat)
    requires IsOrder(cmp) && Healthy(cmp, pages, c, leftmost, level, trueRoot) && i < |c|
    ensures Linked(cmp, pages, level, LeftOf(c, i), c[i])
  {
    assert PageFits(cmp, pages, c, level, i);
    if i > 0 { assert PageFits(cmp, pages, c, level, i - 1); }
    if pages[c[i]].halfDead {
      assert i < |c| - 1;
      assert PageFits(cmp, pages, c, level, i + 1);
    } else {
      LiveFits(cmp, pages, c, leftmost, level, trueRoot, i);
    }
  }

  ghost predicate AllLinked<K>(cmp: (K, K) -> int, pages: seq<Page<K>>, c: seq<nat>, level: nat) {
    forall i :: 0 <= i < |c| ==> Linked(cmp, pages, level, LeftOf(c, i), c[i])
  }

  lemma {:induction false} LinkedChain<K>(cmp: (K, K) -> int, pages: seq<Page<K>>, c: seq<nat>, level: nat)
    requires AllLinked(cmp, pages, c, level)
    ensures Chain(cmp, pages, c, level)
    decreases |c|
  {
    if c != [] {
      var front, n := c[..|c| - 1], |c| - 1;
      forall i | 0 <= i < n ensures Linked(cmp, pages, level, LeftOf(front, i), front[i]) {
        assert LeftOf(front, i) == LeftOf(c, i);
      }
      LinkedChain(cmp, pages, front, level);
      assert Last(front) == LeftOf(c, n);
    }
  }

  /** The check is silent on every level in good order, and passes exactly its pages. */
  lemma HealthyPasses<K(!new)>(cmp: (K, K) -> int, pages: seq<Page<K>>, c: seq<nat>, leftmost: nat, level: nat,
      trueRoot: bool)
    requires IsOrder(cmp) && Healthy(cmp, pages, c, leftmost, level, trueRoot)
    ensures Level(cmp, pages, c, leftmost, level, trueRoot)
  {
    forall i | 0 <= i < |c| ensures Linked(cmp, pages, level, LeftOf(c, i), c[i]) {
      PageLinks(cmp, pages, c, leftmost, level, trueRoot, i);
    }
    LinkedChain(cmp, pages, c, level);
    assert PageFits(cmp, pages, c, level, |c| - 1);
  }

  lemma ChainPageFits<K>(cmp: (K, K) -> int, pages: seq<Page<K>>, c: seq<nat>, level: nat, i: nat)
    requires Chain(cmp, pages, c, level) && i < |c| && Last(c) < |pages| && Rightmost(pages[Last(c)])
    ensures PageFits(cmp, pages, c, level, i)
  {
    ChainAt(cmp, pages, c, level, i);
    if i + 1 < |c| { NextOf(cmp, pages, c, level, i); }
  }

  /** Where no live page is empty, only levels in good order are passed. */
  lemma PassedHealthy<K(!new)>(cmp: (K, K) -> int, pages: seq<Page<K>>, c: seq<nat>, leftmost: nat, level: nat,
      trueRoot: bool)
    requires IsOrder(cmp) && NoneEmpty(pages, c) && Level(cmp, pages, c, leftmost, level, trueRoot)
    ensures Healthy(cmp, pages, c, leftmost, level, trueRoot)
  {
    EndedDistinct(cmp, pages, c, level);
    SilentRises(cmp, pages, c, level);
    ChainAt(cmp, pages, c, level, |c| - 1);
    forall i | 0 <= i < |c| ensures PageFits(cmp, pages, c, level, i) { ChainPageFits(cmp, pages, c, level, i); }
  }

  /** bt_check_level_from_leftmost on a level in good order. */
  method CheckHealthy<K(!new)>(cmp: (K, K) -> int, pages: seq<Page<K>>, leftmost: nat, level: nat, trueRoot: bool,
      ghost c: seq<nat>)
      returns (r: Verdict<bool>, passed: seq<nat>)
    requires IsOrder(cmp) && leftmost != P_NONE
    ensures Healthy(cmp, pages, c, leftmost, level, trueRoot) ==> r.Silent? && passed == c
    ensures r.Silent? && NoneEmpty(pages, passed) ==> Healthy(cmp, pages, passed, leftmost, level, trueRoot)
  {
    var target;
    r, passed, target := CheckLevel(cmp, pages, leftmost, level, trueRoot, c);
    if Healthy(cmp, pages, c, leftmost, level, trueRoot) {
      HealthyPasses(cmp, pages, c, leftmost, level, trueRoot);
    }
    if r.Silent? && NoneEmpty(pages, passed) {
      PassedHealthy(cmp, pages, passed, leftmost, level, trueRoot);
    }
  }
}
