/** Read-only check of one leaf page of a B-tree, with the search for its right neighbour. The file
    may hold anything. */
module BtreeCheck {
  import opened SortedMaps
  import opened Wrappers

  /** A page as found on disk. On a page with a right sibling the first tuple is the high key. */
  datatype Page<K> = Page(deleted: bool, halfDead: bool, root: bool, prev: nat, next: nat, level: nat, tuples: seq<K>)

  const P_NONE: nat := 0

  predicate Ignorable<K>(p: Page<K>) { p.deleted || p.halfDead }
  predicate Rightmost<K>(p: Page<K>) { p.next == P_NONE }

  /** Index of the first data item. */
  function FirstData<K>(p: Page<K>): nat { if Rightmost(p) then 0 else 1 }

  function Items<K>(p: Page<K>): seq<K> { if FirstData(p) <= |p.tuples| then p.tuples[FirstData(p)..] else [] }

  datatype Corruption =
    | NoSuchBlock | DeletedBlock | FellOffEnd | NotLeftmost | NotRoot | LinksDisagree | WrongLevel
    | NoHighKey | HighKeyViolated | OrderViolated | CrossPageOrderViolated | CircularLinks

  datatype Verdict<+T> = Silent(value: T) | Corrupt(what: Corruption) | Endless

  // ----- the right sibling -----

  /** Where bt_right_page_check_scankey stops: a live page, the rightmost one, or outside the file. */
  predicate Stops<K>(pages: seq<Page<K>>, b: nat) { b >= |pages| || !Ignorable(pages[b]) || Rightmost(pages[b]) }

  /** The page where the skipping loop stops within n links. */
  function Skip<K>(pages: seq<Page<K>>, b: nat, n: nat): (r: Option<nat>)
    ensures r.Some? ==> Stops(pages, r.value)
    decreases n
  {
    if Stops(pages, b) then Some(b) else if n == 0 then None else Skip(pages, pages[b].next, n - 1)
  }

  lemma {:induction false} SkipMore<K>(pages: seq<Page<K>>, b: nat, m: nat, n: nat)
    requires m <= n && Skip(pages, b, m).Some?
    ensures Skip(pages, b, n) == Skip(pages, b, m)
    decreases m
  {
    if !Stops(pages, b) { SkipMore(pages, pages[b].next, m - 1, n - 1); }
  }

  /** n links are needed, and enough. */
  ghost predicate Exactly<K>(pages: seq<Page<K>>, b: nat, n: nat) {
    Skip(pages, b, n).Some? && (n > 0 ==> Skip(pages, b, n - 1).None?)
  }

  lemma {:induction false} ExactlyExists<K>(pages: seq<Page<K>>, b: nat, m: nat) returns (n: nat)
    requires Skip(pages, b, m).Some?
    ensures n <= m && Exactly(pages, b, n)
    decreases m
  {
    if m > 0 && Skip(pages, b, m - 1).Some? { n := ExactlyExists(pages, b, m - 1); } else { n := m; }
  }

  lemma ExactlyOnce<K>(pages: seq<Page<K>>, b: nat, m: nat, n: nat)
    requires Exactly(pages, b, m) && Exactly(pages, b, n)
    ensures m == n
  {
    if m < n { SkipMore(pages, b, m, n - 1); }
    if n < m { SkipMore(pages, b, n, m - 1); }
  }

  /** The blocks skipped on the way. */
  lemma {:induction false} Trail<K>(pages: seq<Page<K>>, b: nat, n: nat) returns (t: seq<nat>)
    requires Exactly(pages, b, n)
    ensures |t| == n && forall i :: 0 <= i < n ==> t[i] < |pages| && Exactly(pages, t[i], n - i)
    decreases n
  {
    if n == 0 {
      t := [];
    } else {
      var rest := Trail(pages, pages[b].next, n - 1);
      t := [b] + rest;
    }
  }

  ghost predicate AllDistinct(t: seq<nat>) { forall i, j :: 0 <= i < j < |t| ==> t[i] != t[j] }

  /** Distinct numbers below m are at most m many. */
  lemma {:induction false} Pigeonhole(t: seq<nat>, m: nat)
    requires AllDistinct(t) && forall i :: 0 <= i < |t| ==> t[i] < m
    ensures |t| <= m
    decreases m
  {
    if t == [] {
    } else if exists i :: 0 <= i < |t| && t[i] == m - 1 {
      var i :| 0 <= i < |t| && t[i] == m - 1;
      var u := t[..i] + t[i + 1..];
      forall k | 0 <= k < |u| ensures u[k] < m - 1 { assert u[k] == t[if k < i then k else k + 1]; }
      forall j, k | 0 <= j < k < |u| ensures u[j] != u[k] {
        assert u[j] == t[if j < i then j else j + 1] && u[k] == t[if k < i then k else k + 1];
      }
      Pigeonhole(u, m - 1);
    } else {
      assert t[0] < m;
      Pigeonhole(t, m - 1);
    }
  }

  /** If the skipping loop ends at all it does so within as many links as the file has pages. */
  lemma SkipBound<K>(pages: seq<Page<K>>, b: nat, m: nat)
    requires Skip(pages, b, m).Some?
    ensures Skip(pages, b, |pages|) == Skip(pages, b, m)
  {
    var n := ExactlyExists(pages, b, m);
    var t := Trail(pages, b, n);
    forall i, j | 0 <= i < j < |t| ensures t[i] != t[j] {
      if t[i] == t[j] { ExactlyOnce(pages, t[i], n - i, n - j); }
    }
    Pigeonhole(t, |pages|);
    SkipMore(pages, b, n, |pages|);
    SkipMore(pages, b, n, m);
  }

  /** The skipping loop, stopped after as many links as there are pages: None means it would
      never end. */
  method FindRight<K>(pages: seq<Page<K>>, b: nat) returns (r: Option<nat>)
    ensures r == Skip(pages, b, |pages|)
    ensures r.None? <==> forall m: nat :: Skip(pages, b, m).None?
  {
    var at: nat, n: nat := b, |pages|;
    while n > 0 && !Stops(pages, at)
      invariant Skip(pages, at, n) == Skip(pages, b, |pages|)
    {
      at, n := pages[at].next, n - 1;
    }
    r := if Stops(pages, at) then Some(at) else None;
    forall m: nat | Skip(pages, b, m).Some? ensures Skip(pages, b, |pages|).Some? { SkipBound(pages, b, m); }
  }

  /** A deleted page whose right link leads back to it keeps the loop going for ever. */
  lemma {:induction false} DeletedCycle<K>(pages: seq<Page<K>>, b: nat, m: nat)
    requires P_NONE < b < |pages| && pages[b].deleted && pages[b].next == b
    ensures Skip(pages, b, m).None?
    decreases m
  {
    if m > 0 { DeletedCycle(pages, b, m - 1); }
  }

  // ----- one page -----

  /** Key of the first item to the right of page b, None when there is none to compare with. */
  function RightKey<K>(pages: seq<Page<K>>, b: nat): Verdict<Option<K>>
    requires b < |pages|
  {
    if Rightmost(pages[b]) then Silent(None) else
    var r := Skip(pages, pages[b].next, |pages|);
    if r.None? then Endless else if r.value >= |pages| then Corrupt(NoSuchBlock)
    else if Items(pages[r.value]) == [] then Silent(None) else Silent(Some(Items(pages[r.value])[0]))
  }

  /** bt_right_page_check_scankey */
  method ReadRightKey<K>(pages: seq<Page<K>>, b: nat) returns (r: Verdict<Option<K>>)
    requires b < |pages|
    ensures r == RightKey(pages, b)
  {
    if Rightmost(pages[b]) { return Silent(None); }
    var at := FindRight(pages, pages[b].next);
    if at.None? { return Endless; }
    if at.value >= |pages| { return Corrupt(NoSuchBlock); }
    r := Silent(if Items(pages[at.value]) == [] then None else Some(Items(pages[at.value])[0]));
  }

  ghost predicate InItems<K>(cmp: (K, K) -> int, p: Page<K>) {
    && (forall i :: 0 < i < |Items(p)| ==> cmp(Items(p)[i - 1], Items(p)[i]) < 0)
    && (!Rightmost(p) ==> p.tuples != [] && forall i :: 0 <= i < |Items(p)| ==> cmp(Items(p)[i], p.tuples[0]) <= 0)
  }

  /** What a page has to be like to pass bt_target_page_check. */
  ghost predicate PageOk<K>(cmp: (K, K) -> int, pages: seq<Page<K>>, b: nat)
    requires b < |pages|
  {
    InItems(cmp, pages[b]) &&
    (Items(pages[b]) != [] ==>
       var r := RightKey(pages, b);
       r.Silent? && (r.value.Some? ==> cmp(r.value.value, Items(pages[b])[|Items(pages[b])| - 1]) > 0))
  }

  /** The tests on data item i that stay on the page. */
  method CheckItem<K>(cmp: (K, K) -> int, p: Page<K>, i: nat) returns (r: Verdict<bool>)
    requires i < |Items(p)| && (!Rightmost(p) ==> p.tuples != [])
    ensures !r.Endless?
    ensures r.Silent? <==>
        (Rightmost(p) || cmp(Items(p)[i], p.tuples[0]) <= 0) &&
        (i + 1 < |Items(p)| ==> cmp(Items(p)[i], Items(p)[i + 1]) < 0)
  {
    if !Rightmost(p) && !(cmp(Items(p)[i], p.tuples[0]) <= 0) { return Corrupt(HighKeyViolated); }
    if i + 1 < |Items(p)| && !(cmp(Items(p)[i], Items(p)[i + 1]) < 0) { return Corrupt(OrderViolated); }
    r := Silent(true);
  }

  /** bt_target_page_check on a leaf page. */
  method CheckPage<K>(cmp: (K, K) -> int, pages: seq<Page<K>>, b: nat) returns (r: Verdict<bool>)
    requires b < |pages|
    ensures r.Silent? <==> PageOk(cmp, pages, b)
    ensures r.Endless? <==> InItems(cmp, pages[b]) && Items(pages[b]) != [] && RightKey(pages, b) == Endless
  {
    var p := pages[b];
    if !Rightmost(p) && p.tuples == [] { return Corrupt(NoHighKey); }
    var items := Items(p);
    for i := 0 to |items|
      invariant forall k :: 0 <= k < i ==> (Rightmost(p) || cmp(items[k], p.tuples[0]) <= 0)
      invariant forall k :: 0 < k <= i && k < |items| ==> cmp(items[k - 1], items[k]) < 0
    {
      r := CheckItem(cmp, p, i);
      if !r.Silent? {
        assert !InItems(cmp, p) by { if i + 1 < |items| { assert items[i + 1 - 1] == items[i]; } }
        return;
      }
    }
    assert InItems(cmp, p);
    if |items| > 0 {
      var right := ReadRightKey(pages, b);
      if right.Endless? { return Endless; }
      if right.Corrupt? { return Corrupt(right.what); }
      if right.value.Some? && !(cmp(right.value.value, items[|items| - 1]) > 0) {
        return Corrupt(CrossPageOrderViolated);
      }
    }
    r := Silent(true);
  }
}
