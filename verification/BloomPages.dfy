/** Pages of a bloom index: adding a tuple, removing the flagged ones in place, building, scanning. */
module BloomPages {
  import opened BloomSign

  /** An index tuple: heap pointer and signature. */
  datatype Item = Item(tid: nat, sign: Sign)

  /** What a page holds, as the lock holder sees it. */
  datatype Image = MetaPage | NewPage | DataPage(deleted: bool, items: seq<Item>)

  const BLCKSZ := 8192
  const PAGE_HEADER := 24
  const PAGE_OPAQUE := 8
  const MAX_WORDS := 256

  function TupleSize(words: nat): nat { 6 + 2 * words }

  function FreeSpace(words: nat, maxoff: nat): int {
    BLCKSZ - PAGE_HEADER - maxoff * TupleSize(words) - PAGE_OPAQUE
  }

  function Quotient(a: nat, d: nat): (q: nat)
    requires d > 0
    ensures q * d <= a < q * d + d
  {
    a / d
  }

  /** Number of tuples that fit on a page. */
  function Capacity(words: nat): nat { Quotient(BLCKSZ - PAGE_HEADER - PAGE_OPAQUE, TupleSize(words)) }

  lemma {:induction false} RoomIff(words: nat, maxoff: nat)
    ensures FreeSpace(words, maxoff) >= TupleSize(words) <==> maxoff < Capacity(words)
    ensures words <= MAX_WORDS ==> Capacity(words) >= 1
  {
    if maxoff < Capacity(words) {
      MulMonotone(maxoff + 1, Capacity(words), TupleSize(words));
    } else {
      MulMonotone(Capacity(words), maxoff, TupleSize(words));
    }
  }

  lemma MulMonotone(a: nat, b: nat, c: nat)
    requires a <= b
    ensures a * c <= b * c
  {
  }

  function Kept(items: seq<Item>, dead: nat -> bool): seq<Item> {
    if items == [] then [] else
    var front := Kept(items[..|items| - 1], dead);
    if dead(items[|items| - 1].tid) then front else front + [items[|items| - 1]]
  }

  /** Insertion takes over a new or deleted page, and fails on a full one. */
  predicate Fits(words: nat, page: Image)
    requires !page.MetaPage?
  {
    page.NewPage? || page.deleted || |page.items| < Capacity(words)
  }

  function Inserted(page: Image, it: Item): Image
    requires !page.MetaPage?
  {
    if page.NewPage? || page.deleted then DataPage(false, [it]) else DataPage(false, page.items + [it])
  }

  function Swept(page: Image, dead: nat -> bool): Image {
    if page.DataPage? && !page.deleted && |Kept(page.items, dead)| < |page.items|
    then DataPage(Kept(page.items, dead) == [], Kept(page.items, dead))
    else page
  }

  function Matching(items: seq<Item>, sign: Sign): seq<nat> {
    if items == [] then [] else
    var front := Matching(items[..|items| - 1], sign);
    if Covers(items[|items| - 1].sign, sign) then front + [items[|items| - 1].tid] else front
  }

  lemma {:induction false} KeptLength(items: seq<Item>, dead: nat -> bool)
    ensures |Kept(items, dead)| <= |items|
    ensures |Kept(items, dead)| == |items| ==> Kept(items, dead) == items
    decreases |items|
  {
    if items != [] {
      KeptLength(items[..|items| - 1], dead);
      assert items[..|items| - 1] + [items[|items| - 1]] == items;
    }
  }

  /** A page buffer: tuple slots, the counters of the page header and of the special space. */
  class Buffer {
    const words: nat
    var isNew: bool
    var deleted: bool
    var maxoff: nat
    var pdLower: nat
    var slots: array<Item>

    ghost predicate Valid()
      reads this
    {
      && words <= MAX_WORDS && slots.Length == Capacity(words) && maxoff <= slots.Length
      && (isNew || (pdLower == PAGE_HEADER + maxoff * TupleSize(words) && pdLower <= BLCKSZ - PAGE_OPAQUE))
      && (deleted ==> maxoff == 0)
    }

    function Image(): Image
      requires Valid()
      reads this, slots
    {
      if isNew then NewPage else DataPage(deleted, slots[..maxoff])
    }

    constructor (w: nat)
      requires w <= MAX_WORDS
      ensures Valid() && Image() == NewPage && words == w && fresh(slots)
    {
      words := w;
      isNew, deleted, maxoff, pdLower := true, false, 0, 0;
      slots := new Item[Capacity(w)](_ => Item(0, []));
    }

    method InitPage()
      requires Valid()
      modifies this
      ensures Valid() && slots == old(slots) && Image() == DataPage(false, [])
    {
      isNew, deleted, maxoff, pdLower := false, false, 0, PAGE_HEADER;
    }

    method AddItem(it: Item) returns (ok: bool)
      requires Valid() && !isNew && !deleted
      modifies this, slots
      ensures Valid() && slots == old(slots)
      ensures ok <==> |old(Image()).items| < Capacity(words)
      ensures Image() == if ok then Inserted(old(Image()), it) else old(Image())
    {
      RoomIff(words, maxoff);
      if FreeSpace(words, maxoff) < TupleSize(words) { return false; }
      slots[maxoff] := it;
      maxoff := maxoff + 1;
      pdLower := PAGE_HEADER + maxoff * TupleSize(words);
      ok := true;
    }

    /** The page part of blinsert: reinitialise what vacuum left, then add. */
    method Insert(it: Item) returns (ok: bool)
      requires Valid()
      modifies this, slots
      ensures Valid() && slots == old(slots)
      ensures ok <==> Fits(words, old(Image()))
      ensures Image() == if ok then Inserted(old(Image()), it) else old(Image())
    {
      RoomIff(words, 0);
      if isNew || deleted { InitPage(); }
      ok := AddItem(it);
    }

    /** The tuple loop of blbulkdelete: `put` trails `i`, and tuples only move towards the front. */
    method Compact(dead: nat -> bool) returns (put: nat, removed: nat)
      requires maxoff <= slots.Length
      modifies this`maxoff, slots
      ensures put == maxoff <= old(maxoff) && removed == old(maxoff) - maxoff
      ensures slots[..maxoff] == Kept(old(slots[..maxoff]), dead)
    {
      ghost var was := slots[..maxoff];
      var n, i := maxoff, 0;
      put, removed := 0, 0;
      assert was[..0] == [];
      while i < n
        invariant 0 <= put <= i <= n == |was| <= slots.Length && removed == i - put && maxoff == n - removed
        invariant forall k :: i <= k < n ==> slots[k] == was[k]
        invariant slots[..put] == Kept(was[..i], dead)
      {
        KeptStep(was, i, dead);
        if dead(slots[i].tid) {
          maxoff := maxoff - 1;
          removed := removed + 1;
        } else {
          slots[put] := slots[i];
          put := put + 1;
        }
        i := i + 1;
      }
      assert was[..i] == was;
    }

    /** The page part of blbulkdelete. */
    method Sweep(dead: nat -> bool) returns (removed: nat, spare: bool)
      requires Valid()
      modifies this, slots
      ensures Valid() && slots == old(slots) && Image() == Swept(old(Image()), dead)
      ensures spare <==> Spare(words, Image())
      ensures spare <==> !deleted && maxoff > 0 && !isNew && Fits(words, Image())
      ensures removed == Size(old(Image())) - Size(Image())
    {
      removed, spare := 0, false;
      if isNew || deleted { return; }
      ghost var was := slots[..maxoff];
      KeptLength(was, dead);
      var n, put := maxoff, 0;
      put, removed := Compact(dead);
      RoomIff(words, maxoff);
      spare := maxoff != 0 && FreeSpace(words, maxoff) >= TupleSize(words);
      if put != n {
        if maxoff == 0 { deleted := true; }
        MulMonotone(put, n, TupleSize(words));
        pdLower := PAGE_HEADER + put * TupleSize(words);
      }
    }

    /** The page part of blgetbitmap. */
    method Scan(sign: Sign) returns (tids: seq<nat>)
      requires Valid() && forall i :: 0 <= i < maxoff ==> |slots[i].sign| == |sign|
      ensures tids == ScanOf(Image(), sign)
    {
      tids := [];
      if isNew || deleted { return; }
      for i := 0 to maxoff
        invariant tids == Matching(slots[..i], sign)
      {
        assert slots[..i + 1][..i] == slots[..i];
        var res := SignMatches(slots[i].sign, sign);
        if res { tids := tids + [slots[i].tid]; }
      }
    }
  }

  lemma KeptStep(was: seq<Item>, i: nat, dead: nat -> bool)
    requires i < |was|
    ensures Kept(was[..i + 1], dead) == if dead(was[i].tid) then Kept(was[..i], dead)
        else Kept(was[..i], dead) + [was[i]]
  {
    assert was[..i + 1][..i] == was[..i];
  }

  /** Tuples on a page. */
  function Size(page: Image): nat { if page.DataPage? then |page.items| else 0 }

  /** Pages that vacuum offers to later insertions. */
  predicate Spare(words: nat, page: Image) {
    page.DataPage? && !page.deleted && 0 < |page.items| < Capacity(words)
  }

  function ScanOf(page: Image, sign: Sign): seq<nat> {
    if page.DataPage? && !page.deleted then Matching(page.items, sign) else []
  }

  // ----- building a new index -----

  /** Data pages as blbuild leaves them: full, live and in insertion order. */
  function Contents(pages: seq<Image>): seq<Item> {
    if pages == [] then [] else
    Contents(pages[..|pages| - 1]) + if pages[|pages| - 1].DataPage? then pages[|pages| - 1].items else []
  }

  predicate Full(words: nat, page: Image) { page.DataPage? && !page.deleted && |page.items| == Capacity(words) }

  ghost predicate AllFull(words: nat, pages: seq<Image>) { forall i :: 0 <= i < |pages| ==> Full(words, pages[i]) }

  lemma ContentsPush(pages: seq<Image>, page: Image)
    requires page.DataPage?
    ensures Contents(pages + [page]) == Contents(pages) + page.items
  {
    assert (pages + [page])[..|pages|] == pages;
  }

  /** One call of bloomBuildCallback. */
  method BuildCallback(words: nat, cached: Buffer, pages: seq<Image>, it: Item) returns (flushed: seq<Image>)
    requires cached.Valid() && cached.words == words && !cached.isNew && !cached.deleted && AllFull(words, pages)
    modifies cached, cached.slots
    ensures cached.Valid() && !cached.isNew && !cached.deleted && cached.maxoff > 0 && cached.slots == old(cached.slots)
    ensures AllFull(words, flushed)
    ensures Contents(flushed) + cached.slots[..cached.maxoff] == Contents(pages) + old(cached.slots[..cached.maxoff]) +
        [it]
  {
    flushed := pages;
    var ok := cached.AddItem(it);
    if !ok {
      flushed := pages + [cached.Image()];
      ContentsPush(pages, cached.Image());
      cached.InitPage();
      RoomIff(words, 0);
      ok := cached.AddItem(it);
    }
  }

  /** blbuild: every tuple is stored once, in order, and only the last page may have room. */
  method Build(words: nat, items: seq<Item>) returns (pages: seq<Image>)
    requires words <= MAX_WORDS
    ensures Contents(pages) == items
    ensures pages == [] <==> items == []
    ensures pages != [] ==> AllFull(words, pages[..|pages| - 1])
    ensures pages != [] ==> var last := pages[|pages| - 1];
              last.DataPage? && !last.deleted && 0 < |last.items| <= Capacity(words)
  {
    var cached := new Buffer(words);
    cached.InitPage();
    pages := [];
    for i := 0 to |items|
      invariant fresh(cached) && fresh(cached.slots) && cached.Valid() && cached.words == words
      invariant !cached.isNew && !cached.deleted && AllFull(words, pages) && (i > 0 ==> cached.maxoff > 0)
      invariant i == 0 ==> pages == [] && cached.maxoff == 0
      invariant Contents(pages) + cached.slots[..cached.maxoff] == items[..i]
    {
      assert items[..i + 1] == items[..i] + [items[i]];
      pages := BuildCallback(words, cached, pages, items[i]);
    }
    assert items[..|items|] == items;
    if cached.maxoff > 0 {
      ContentsPush(pages, cached.Image());
      assert (pages + [cached.Image()])[..|pages|] == pages;
      pages := pages + [cached.Image()];
    }
  }
}
