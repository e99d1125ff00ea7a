/** A newly built bloom index is a state from which the protocol can start. */
module BloomStart {
  import opened Wrappers
  import opened BloomSign
  import opened BloomPages
  import opened BloomProtocol

  ghost predicate TidIn(items: seq<Item>, t: nat) { exists i :: 0 <= i < |items| && items[i].tid == t }

  /** No heap pointer is indexed twice. */
  predicate Distinct(items: seq<Item>) { forall i, j :: 0 <= i < j < |items| ==> items[i].tid != items[j].tid }

  /** Where the tuples of page b are at home. */
  function PageMap(items: seq<Item>, b: nat): map<nat, Spot> {
    if items == [] then map[] else
    var last := items[|items| - 1];
    PageMap(items[..|items| - 1], b)[last.tid := Spot(b, last.sign)]
  }

  lemma {:induction false} PageMapFacts(items: seq<Item>, b: nat)
    requires Distinct(items)
    ensures forall i :: 0 <= i < |items| ==> BloomProtocol.At(PageMap(items, b), items[i], b)
    ensures forall t :: t in PageMap(items, b) ==> TidIn(items, t) && PageMap(items, b)[t].blk == b
    decreases |items|
  {
    if items != [] {
      var front, last := items[..|items| - 1], items[|items| - 1];
      PageMapFacts(front, b);
      forall t | t in PageMap(items, b) ensures TidIn(items, t) && PageMap(items, b)[t].blk == b {
        if t == last.tid {
          assert items[|items| - 1].tid == t;
        } else {
          var i :| 0 <= i < |front| && front[i].tid == t;
          assert items[i].tid == t;
        }
      }
    }
  }

  /** Data pages, the first of them at block 1, as the index holds them. */
  function HomeOf(pages: seq<Image>): map<nat, Spot> {
    if pages == [] then map[] else
    var last := pages[|pages| - 1];
    HomeOf(pages[..|pages| - 1]) + if last.DataPage? then PageMap(last.items, |pages|) else map[]
  }

  function OnFile(pages: seq<Image>): seq<Image> { [MetaPage] + pages }

  ghost predicate AllData(pages: seq<Image>) { forall i :: 0 <= i < |pages| ==> pages[i].DataPage? }

  lemma DistinctParts(a: seq<Item>, b: seq<Item>)
    requires Distinct(a + b)
    ensures Distinct(a) && Distinct(b) && forall t :: TidIn(a, t) ==> !TidIn(b, t)
  {
    var c := a + b;
    assert forall i :: 0 <= i < |a| ==> c[i] == a[i];
    assert forall i :: 0 <= i < |b| ==> c[|a| + i] == b[i];
    forall t | TidIn(a, t) ensures !TidIn(b, t) {
      var i :| 0 <= i < |a| && a[i].tid == t;
      forall j | 0 <= j < |b| ensures b[j].tid != t { assert c[i].tid != c[|a| + j].tid; }
    }
  }

  lemma TidInCat(a: seq<Item>, b: seq<Item>, t: nat)
    ensures TidIn(a + b, t) <==> TidIn(a, t) || TidIn(b, t)
  {
    var c := a + b;
    if TidIn(a, t) {
      var i :| 0 <= i < |a| && a[i].tid == t;
      assert c[i].tid == t;
    }
    if TidIn(b, t) {
      var i :| 0 <= i < |b| && b[i].tid == t;
      assert c[|a| + i].tid == t;
    }
  }

  /** The tuples of built pages are at home where they were put. */
  lemma {:induction false} BuiltPlaced(pages: seq<Image>)
    requires AllData(pages) && Distinct(Contents(pages))
    ensures Placed(OnFile(pages), HomeOf(pages))
    ensures forall t :: t in HomeOf(pages) <==> TidIn(Contents(pages), t)
    decreases |pages|
  {
    if pages != [] {
      var front, last := pages[..|pages| - 1], pages[|pages| - 1];
      DistinctParts(Contents(front), last.items);
      BuiltPlaced(front);
      PageMapFacts(last.items, |pages|);
      AddPage(front, last);
      assert pages == front + [last];
    }
  }

  lemma AddPage(front: seq<Image>, last: Image)
    requires last.DataPage? && Distinct(last.items) && Placed(OnFile(front), HomeOf(front))
    requires forall t :: t in HomeOf(front) <==> TidIn(Contents(front), t)
    requires forall t :: TidIn(Contents(front), t) ==> !TidIn(last.items, t)
    ensures Placed(OnFile(front + [last]), HomeOf(front + [last]))
    ensures forall t :: t in HomeOf(front + [last]) <==> TidIn(Contents(front + [last]), t)
  {
    var pages, b := front + [last], |front| + 1;
    var was, added := HomeOf(front), PageMap(last.items, b);
    assert pages[..|pages| - 1] == front;
    PageMapFacts(last.items, b);
    forall i | 0 <= i < |last.items| ensures last.items[i].tid in added {
      assert BloomProtocol.At(added, last.items[i], b);
    }
    assert HomeOf(pages) == was + added && Contents(pages) == Contents(front) + last.items;
    forall t ensures t in HomeOf(pages) <==> TidIn(Contents(pages), t) {
      TidInCat(Contents(front), last.items, t);
    }
    PlacedMore(OnFile(front), last, was, added);
    assert OnFile(pages) == OnFile(front) + [last];
  }

  lemma PlacedMore(pages: seq<Image>, last: Image, was: map<nat, Spot>, added: map<nat, Spot>)
    requires Placed(pages, was) && PageHome(last, added, |pages|) && was.Keys !! added.Keys
    requires last.DataPage? && forall t :: t in added ==> TidIn(last.items, t) && added[t].blk == |pages|
    ensures Placed(pages + [last], was + added)
  {
    var all, home := pages + [last], was + added;
    forall b | 0 <= b < |all| ensures PageHome(all[b], home, b) {
      if b < |pages| { assert PageHome(pages[b], was, b); }
    }
    forall t | t in home ensures home[t].blk < |all| && Has(all[home[t].blk], t) {
      if t in added { assert TidIn(last.items, t); } else { assert Has(pages[was[t].blk], t); }
    }
  }

  /** What blbuild leaves on file. */
  ghost predicate Packed(words: nat, pages: seq<Image>) {
    pages != [] ==>
      && AllFull(words, pages[..|pages| - 1])
      && var last := pages[|pages| - 1]; last.DataPage? && !last.deleted && |last.items| <= Capacity(words)
  }

  lemma PackedOk(words: nat, pages: seq<Image>)
    requires words <= MAX_WORDS && Packed(words, pages)
    ensures AllData(pages) && PagesOk(words, OnFile(pages))
  {
    forall i | 0 <= i < |pages| ensures pages[i].DataPage? && PageOk(words, pages[i]) {
      if i < |pages| - 1 { assert Full(words, pages[..|pages| - 1][i]); }
    }
  }

  /** The index with nobody at work on it. */
  function StartState(words: nat, pages: seq<Image>): State {
    State(words, OnFile(pages), Meta(0, 0, seq(META_BLOCKS, _ => 0)), {}, None, map[], Idle, map[], HomeOf(pages))
  }

  /** The abstract content of the index is the list of tuples. */
  ghost predicate Holds(home: map<nat, Spot>, items: seq<Item>) {
    && (forall t :: t in home <==> TidIn(items, t))
    && (forall i :: 0 <= i < |items| ==> items[i].tid in home && home[items[i].tid].sign == items[i].sign)
  }

  lemma BuiltHolds(pages: seq<Image>)
    requires AllData(pages) && Distinct(Contents(pages))
    ensures Holds(HomeOf(pages), Contents(pages))
  {
    BuiltPlaced(pages);
    forall i | 0 <= i < |Contents(pages)|
      ensures var it := Contents(pages)[i]; it.tid in HomeOf(pages) && HomeOf(pages)[it.tid].sign == it.sign
    {
      SignKept(pages, i);
    }
  }

  /** blbuild, and the state of the index when it is done: an initial state of the protocol that holds
      exactly the given tuples. */
  method Start(words: nat, items: seq<Item>) returns (s: State)
    requires words <= MAX_WORDS && Distinct(items)
    ensures Initial(s) && s.words == words && Holds(s.home, items)
  {
    var pages := Build(words, items);
    assert Packed(words, pages);
    StartInitial(words, pages);
    s := StartState(words, pages);
  }

  lemma StartInitial(words: nat, pages: seq<Image>)
    requires words <= MAX_WORDS && Packed(words, pages) && Distinct(Contents(pages))
    ensures Initial(StartState(words, pages)) && Holds(HomeOf(pages), Contents(pages))
  {
    PackedOk(words, pages);
    BuiltPlaced(pages);
    BuiltHolds(pages);
  }

  lemma {:induction false} SignKept(pages: seq<Image>, i: nat)
    requires AllData(pages) && Distinct(Contents(pages)) && i < |Contents(pages)|
    ensures var it := Contents(pages)[i]; it.tid in HomeOf(pages) && HomeOf(pages)[it.tid].sign == it.sign
    decreases |pages|
  {
    var front, last := pages[..|pages| - 1], pages[|pages| - 1];
    var n := |Contents(front)|;
    DistinctParts(Contents(front), last.items);
    PageMapFacts(last.items, |pages|);
    if i < n {
      SignKept(front, i);
      assert TidIn(Contents(front), Contents(front)[i].tid);
    } else {
      assert BloomProtocol.At(PageMap(last.items, |pages|), last.items[i - n], |pages|);
    }
  }
}
