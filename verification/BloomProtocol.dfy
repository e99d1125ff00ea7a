/** Concurrent insertions, vacuum, page recycling and scans of a bloom index, as steps that each
    hold the page locks they need. */
module BloomProtocol {
  import opened Wrappers
  import opened BloomSign
  import opened BloomPages

  const META_BLOCKS := 2004

  /** Page and signature of a stored tuple. */
  datatype Spot = Spot(blk: nat, sign: Sign)

  datatype Meta = Meta(nStart: nat, nEnd: nat, notFull: seq<nat>)

  /** A running blinsert: about to try the page it read from the metapage; about to lock the
      metapage; holding that lock and at entry k; holding it with a page it just appended. */
  datatype Insertion =
    | Fast(it: Item, blk: nat)
    | Slow(it: Item, tried: Option<nat>)
    | Holding(it: Item, k: nat)
    | Extended(it: Item, blk: nat)

  datatype Vacuum =
    | Idle
    | Sweeping(dead: set<nat>, next: nat, npages: nat, list: seq<nat>)
    | Cleaning(next: nat, npages: nat)

  /** A running scan. `due` remembers the tuples stored when it began and not vacuumed since. */
  datatype Search = Search(sign: Sign, next: nat, npages: nat, found: set<nat>, due: set<nat>)

  /** `home` is the abstract content of the index; `lock` is the exclusive lock on the metapage. */
  datatype State = State(
    words: nat, pages: seq<Image>, meta: Meta, fsm: set<nat>, lock: Option<nat>,
    inserts: map<nat, Insertion>, vacuum: Vacuum, scans: map<nat, Search>, home: map<nat, Spot>)

  datatype Label =
    | BeginInsert(p: nat, it: Item) | FastTry(p: nat) | Lock(p: nat) | TryNext(p: nat)
    | RecycleUse(p: nat, b: nat) | RecycleSkip(p: nat, b: nat) | Extend(p: nat) | InitNew(p: nat) | Abort(p: nat)
    | VacuumStart(dead: set<nat>) | VacuumPage | VacuumMeta | VacuumStop
    | CleanStart | CleanPage
    | ScanStart(sid: nat, sign: Sign) | ScanPage(sid: nat)

  function InSet(dead: set<nat>): nat -> bool { t => t in dead }

  // ----- steps -----

  predicate Enabled(s: State, l: Label) {
    match l
    case BeginInsert(p, it) =>
      && s.lock.None? && p !in s.inserts && it.tid !in s.home && Unused(s.inserts, it.tid)
      && (s.vacuum.Sweeping? ==> it.tid !in s.vacuum.dead)
    case FastTry(p) => p in s.inserts && s.inserts[p].Fast? && OnDisk(s.pages, s.inserts[p].blk)
    case Lock(p) => p in s.inserts && s.inserts[p].Slow? && s.lock.None?
    case TryNext(p) => AtEntry(s, p) && s.inserts[p].k < s.meta.nEnd && OnDisk(s.pages, s.meta.notFull[s.inserts[p].k])
    case RecycleUse(p, b) => PastEntries(s, p) && b in s.fsm && OnDisk(s.pages, b) && Reusable(s.pages[b])
    case RecycleSkip(p, b) => PastEntries(s, p) && b in s.fsm
    case Extend(p) => PastEntries(s, p)
    case InitNew(p) => p in s.inserts && s.inserts[p].Extended? && OnDisk(s.pages, s.inserts[p].blk) &&
        |s.meta.notFull| > 0
    case Abort(p) => p in s.inserts
    case VacuumStart(dead) => s.vacuum.Idle? && forall p :: p in s.inserts ==> s.inserts[p].it.tid !in dead
    case VacuumPage => s.vacuum.Sweeping? && s.vacuum.next < s.vacuum.npages && OnDisk(s.pages, s.vacuum.next)
    case VacuumMeta => s.vacuum.Sweeping? && s.vacuum.next >= s.vacuum.npages && s.lock.None? &&
        |s.vacuum.list| <= |s.meta.notFull|
    case VacuumStop => !s.vacuum.Idle?
    case CleanStart => s.vacuum.Idle?
    case CleanPage => s.vacuum.Cleaning? && s.vacuum.next < s.vacuum.npages && OnDisk(s.pages, s.vacuum.next)
    case ScanStart(sid, sign) => sid !in s.scans
    case ScanPage(sid) =>
        sid in s.scans && s.scans[sid].next < s.scans[sid].npages &&
        OnDisk(s.pages, s.scans[sid].next)
  }

  predicate OnDisk(pages: seq<Image>, b: nat) { 1 <= b < |pages| && !pages[b].MetaPage? }

  predicate Reusable(page: Image) { page.NewPage? || (page.DataPage? && page.deleted) }

  /** No insertion is under way for a heap pointer. The heap hands a pointer to one insertion at a
      time, and not again before every index is rid of the tuple that vacuum found dead there. */
  predicate Unused(inserts: map<nat, Insertion>, t: nat) { forall p :: p in inserts ==> inserts[p].it.tid != t }

  predicate AtEntry(s: State, p: nat) { p in s.inserts && s.inserts[p].Holding? && s.inserts[p].k < |s.meta.notFull| }

  predicate PastEntries(s: State, p: nat) {
    p in s.inserts && s.inserts[p].Holding? && s.inserts[p].k >= s.meta.nEnd && |s.meta.notFull| > 0
  }

  /** The tuple is on page b, the insertion is over and no longer locks the metapage. */
  function Put(s: State, p: nat, b: nat): State
    requires p in s.inserts && OnDisk(s.pages, b)
  {
    var it := s.inserts[p].it;
    s.(pages := s.pages[b := Inserted(s.pages[b], it)],
       inserts := s.inserts - {p}, lock := Release(s.lock, p),
       home := s.home[it.tid := Spot(b, it.sign)])
  }

  function Release(lock: Option<nat>, p: nat): Option<nat> { if lock == Some(p) then None else lock }

  function StepTo(s: State, p: nat, i: Insertion): State { s.(inserts := s.inserts[p := i]) }

  /** First entry to try once the metapage is locked: not the one that was just found full. */
  function FirstEntry(meta: Meta, tried: Option<nat>): nat {
    if meta.nStart < meta.nEnd && meta.nStart < |meta.notFull| && tried == Some(meta.notFull[meta.nStart])
    then meta.nStart + 1 else meta.nStart
  }

  /** A fresh page becomes the only entry of the metapage. */
  function OnlyEntry(meta: Meta, b: nat): Meta
    requires |meta.notFull| > 0
  {
    Meta(0, 1, meta.notFull[0 := b])
  }

  function SweepPage(s: State): State
    requires Enabled(s, VacuumPage)
  {
    var v := s.vacuum;
    var page := Swept(s.pages[v.next], InSet(v.dead));
    var list := if Spare(s.words, page) && |v.list| < META_BLOCKS then v.list + [v.next] else v.list;
    var gone := Gone(s.home, v.dead, v.next);
    s.(pages := s.pages[v.next := page],
       vacuum := Sweeping(v.dead, v.next + 1, v.npages, list),
       home := s.home - gone,
       scans := map i | i in s.scans :: s.scans[i].(due := s.scans[i].due - gone))
  }

  function ReadPage(s: State, sid: nat): State
    requires Enabled(s, ScanPage(sid))
  {
    var r := s.scans[sid];
    var tids := ScanOf(s.pages[r.next], r.sign);
    s.(scans := s.scans[sid := r.(next := r.next + 1, found := r.found + set t | t in tids)])
  }

  function Apply(s: State, l: Label): State
    requires Enabled(s, l)
  {
    match l
    case BeginInsert(p, it) =>
      if s.meta.nEnd > s.meta.nStart && s.meta.nStart < |s.meta.notFull|
      then StepTo(s, p, Fast(it, s.meta.notFull[s.meta.nStart])) else StepTo(s, p, Slow(it, None))
    case FastTry(p) =>
      var i := s.inserts[p];
      if Fits(s.words, s.pages[i.blk]) then Put(s, p, i.blk) else StepTo(s, p, Slow(i.it, Some(i.blk)))
    case Lock(p) =>
      var i := s.inserts[p];
      StepTo(s, p, Holding(i.it, FirstEntry(s.meta, i.tried))).(lock := Some(p))
    case TryNext(p) =>
      var i := s.inserts[p];
      var b := s.meta.notFull[i.k];
      if Fits(s.words, s.pages[b]) then Put(s, p, b).(meta := s.meta.(nStart := i.k))
      else StepTo(s, p, Holding(i.it, i.k + 1))
    case RecycleUse(p, b) => Put(s, p, b).(meta := OnlyEntry(s.meta, b), fsm := s.fsm - {b})
    case RecycleSkip(p, b) => s.(fsm := s.fsm - {b})
    case Extend(p) => StepTo(s, p, Extended(s.inserts[p].it, |s.pages|)).(pages := s.pages + [NewPage])
    case InitNew(p) => Put(s, p, s.inserts[p].blk).(meta := OnlyEntry(s.meta, s.inserts[p].blk))
    case Abort(p) => s.(inserts := s.inserts - {p}, lock := Release(s.lock, p))
    case VacuumStart(dead) => s.(vacuum := Sweeping(dead, 1, |s.pages|, []))
    case VacuumPage => SweepPage(s)
    case VacuumMeta =>
      var list := s.vacuum.list;
      s.(meta := Meta(0, |list|, list + s.meta.notFull[|list|..]), vacuum := Idle)
    case VacuumStop => s.(vacuum := Idle)
    case CleanStart => s.(vacuum := Cleaning(1, |s.pages|))
    case CleanPage =>
      var v := s.vacuum;
      s.(fsm := if Reusable(s.pages[v.next]) then s.fsm + {v.next} else s.fsm, vacuum := Cleaning(v.next + 1, v.npages))
    case ScanStart(sid, sign) => s.(scans := s.scans[sid := Search(sign, 1, |s.pages|, {}, s.home.Keys)])
    case ScanPage(sid) => ReadPage(s, sid)
  }

  // ----- invariant -----

  predicate Known(pages: seq<Image>, b: nat) { 1 <= b < |pages| && pages[b].DataPage? }

  predicate PageOk(words: nat, page: Image) {
    !page.MetaPage? && (page.DataPage? ==> |page.items| <= Capacity(words) && (page.deleted ==> page.items == []))
  }

  ghost predicate PagesOk(words: nat, pages: seq<Image>) {
    && |pages| >= 1 && pages[0] == MetaPage && words <= MAX_WORDS
    && forall b :: 1 <= b < |pages| ==> PageOk(words, pages[b])
  }

  predicate At(home: map<nat, Spot>, it: Item, b: nat) { it.tid in home && home[it.tid] == Spot(b, it.sign) }

  /** The tuples of one page are exactly those at home there, each once. */
  ghost predicate PageHome(page: Image, home: map<nat, Spot>, b: nat) {
    page.DataPage? ==>
      && (forall i :: 0 <= i < |page.items| ==> At(home, page.items[i], b))
      && (forall i, j :: 0 <= i < j < |page.items| ==> page.items[i].tid != page.items[j].tid)
  }

  ghost predicate Has(page: Image, t: nat) {
    page.DataPage? && exists i :: 0 <= i < |page.items| && page.items[i].tid == t
  }

  /** Every stored tuple is on its home page, on no other, and nothing else is stored. */
  ghost predicate Placed(pages: seq<Image>, home: map<nat, Spot>) {
    && (forall b :: 0 <= b < |pages| ==> PageHome(pages[b], home, b))
    && (forall t :: t in home ==> home[t].blk < |pages| && Has(pages[home[t].blk], t))
  }

  ghost predicate MetaOk(pages: seq<Image>, meta: Meta) {
    && meta.nStart <= meta.nEnd <= |meta.notFull| == META_BLOCKS
    && forall i :: meta.nStart <= i < meta.nEnd ==> Known(pages, meta.notFull[i])
  }

  ghost predicate InsertionOk(s: State, p: nat, i: Insertion) {
    && ((i.Holding? || i.Extended?) <==> s.lock == Some(p))
    && i.it.tid !in s.home
    && (i.Fast? ==> Known(s.pages, i.blk))
    && (i.Holding? ==> s.meta.nStart <= i.k)
    && (i.Extended? ==> 1 <= i.blk < |s.pages| && s.pages[i.blk].NewPage?)
  }

  ghost predicate InsertsOk(s: State) {
    && (s.lock.Some? ==> s.lock.value in s.inserts)
    && (forall p :: p in s.inserts ==> InsertionOk(s, p, s.inserts[p]))
    && (forall p, q :: p in s.inserts && q in s.inserts && p != q ==> s.inserts[p].it.tid != s.inserts[q].it.tid)
  }

  ghost predicate VacuumOk(pages: seq<Image>, v: Vacuum) {
    && (!v.Idle? ==> 1 <= v.next && v.npages <= |pages|)
    && (v.Sweeping? ==> |v.list| <= META_BLOCKS && forall i :: 0 <= i < |v.list| ==> Known(pages, v.list[i]))
  }

  /** Flagged tuples are all on pages the sweep has yet to visit. */
  ghost predicate DeadAhead(v: Vacuum, inserts: map<nat, Insertion>, home: map<nat, Spot>) {
    v.Sweeping? ==>
      && (forall p :: p in inserts ==> inserts[p].it.tid !in v.dead)
      && (forall t :: t in v.dead && t in home ==> v.next <= home[t].blk < v.npages)
  }

  ghost predicate FsmOk(pages: seq<Image>, fsm: set<nat>) { forall b :: b in fsm ==> 1 <= b < |pages| }

  /** What the scan owes: a due tuple lies before `npages`, and once its page is read it is found. */
  ghost predicate Owed(home: map<nat, Spot>, r: Search, t: nat) {
    && t in home && home[t].blk < r.npages
    && (home[t].blk < r.next && Covers(home[t].sign, r.sign) ==> t in r.found)
  }

  ghost predicate SearchOk(pages: seq<Image>, home: map<nat, Spot>, r: Search) {
    && 1 <= r.next && r.npages <= |pages|
    && forall t :: t in r.due ==> Owed(home, r, t)
  }

  ghost predicate ScansOk(pages: seq<Image>, home: map<nat, Spot>, scans: map<nat, Search>) {
    forall i :: i in scans ==> SearchOk(pages, home, scans[i])
  }

  ghost predicate Inv(s: State) {
    && PagesOk(s.words, s.pages) && Placed(s.pages, s.home) && MetaOk(s.pages, s.meta) && InsertsOk(s)
    && VacuumOk(s.pages, s.vacuum) && FsmOk(s.pages, s.fsm) && ScansOk(s.pages, s.home, s.scans)
    && DeadAhead(s.vacuum, s.inserts, s.home)
  }

  // ----- pages -----

  lemma PutPages(words: nat, pages: seq<Image>, home: map<nat, Spot>, b: nat, it: Item)
    requires PagesOk(words, pages) && Placed(pages, home) && OnDisk(pages, b) && Fits(words, pages[b]) &&
        it.tid !in home
    ensures PagesOk(words, pages[b := Inserted(pages[b], it)])
    ensures Placed(pages[b := Inserted(pages[b], it)], home[it.tid := Spot(b, it.sign)])
  {
    RoomIff(words, 0);
    var page := Inserted(pages[b], it);
    var pages', home' := pages[b := page], home[it.tid := Spot(b, it.sign)];
    assert PageHome(pages[b], home, b);
    assert page.items[|page.items| - 1] == it;
    forall t | t in home' ensures home'[t].blk < |pages'| && Has(pages'[home'[t].blk], t) {
      if t != it.tid && home[t].blk == b {
        var i :| 0 <= i < |pages[b].items| && pages[b].items[i].tid == t;
        assert page.items[i].tid == t;
      }
    }
    forall c | 0 <= c < |pages'| ensures PageHome(pages'[c], home', c) {
      assert PageHome(pages[c], home, c);
    }
  }

  ghost predicate Distinct(items: seq<Item>) { forall i, j :: 0 <= i < j < |items| ==> items[i].tid != items[j].tid }

  lemma {:induction false} KeptFacts(items: seq<Item>, dead: nat -> bool)
    requires Distinct(items)
    ensures Distinct(Kept(items, dead))
    ensures forall it :: it in Kept(items, dead) <==> it in items && !dead(it.tid)
    decreases |items|
  {
    if items != [] {
      var front, last := items[..|items| - 1], items[|items| - 1];
      KeptFacts(front, dead);
      assert items == front + [last];
      assert forall it :: it in front ==> it.tid != last.tid;
    }
  }

  /** The tuples that a sweep of page b removes. */
  function Gone(home: map<nat, Spot>, dead: set<nat>, b: nat): set<nat> {
    set t | t in dead && t in home && home[t].blk == b
  }

  lemma SweepOne(page: Image, home: map<nat, Spot>, dead: set<nat>, b: nat)
    requires PageHome(page, home, b) && (page.DataPage? && page.deleted ==> page.items == [])
    requires forall t :: t in home && home[t].blk == b ==> Has(page, t)
    ensures PageHome(Swept(page, InSet(dead)), home - Gone(home, dead, b), b)
    ensures forall t :: t in home && home[t].blk == b && t !in dead ==> Has(Swept(page, InSet(dead)), t)
  {
    if page.DataPage? {
      var kept := Kept(page.items, InSet(dead));
      KeptFacts(page.items, InSet(dead));
      KeptLength(page.items, InSet(dead));
      var page', home' := Swept(page, InSet(dead)), home - Gone(home, dead, b);
      forall i | 0 <= i < |page'.items| ensures At(home', page'.items[i], b) {
        assert page'.items[i] in kept;
      }
      forall t | t in home && home[t].blk == b && t !in dead ensures Has(page', t) {
        var i :| 0 <= i < |page.items| && page.items[i].tid == t;
        assert page.items[i] in kept;
      }
    }
  }

  lemma SweepOther(page: Image, home: map<nat, Spot>, dead: set<nat>, b: nat, c: nat)
    requires PageHome(page, home, c) && b != c
    ensures PageHome(page, home - Gone(home, dead, b), c)
  {
    if page.DataPage? {
      forall i | 0 <= i < |page.items| ensures At(home - Gone(home, dead, b), page.items[i], c) {
        assert At(home, page.items[i], c);
      }
    }
  }

  lemma SweptOk(words: nat, page: Image, dead: nat -> bool)
    requires PageOk(words, page)
    ensures PageOk(words, Swept(page, dead))
  {
    if page.DataPage? { KeptLength(page.items, dead); }
  }

  lemma SweepPages(words: nat, pages: seq<Image>, home: map<nat, Spot>, dead: set<nat>, b: nat, page: Image,
      home': map<nat, Spot>)
    requires PagesOk(words, pages) && Placed(pages, home) && OnDisk(pages, b)
    requires page == Swept(pages[b], InSet(dead)) && home' == home - Gone(home, dead, b)
    ensures PagesOk(words, pages[b := page]) && Placed(pages[b := page], home')
  {
    var pages' := pages[b := page];
    SweptOk(words, pages[b], InSet(dead));
    SweepOne(pages[b], home, dead, b);
    forall c | 0 <= c < |pages'| ensures PageHome(pages'[c], home', c) {
      if c != b { SweepOther(pages[c], home, dead, b, c); }
    }
    forall t | t in home' ensures home'[t].blk < |pages'| && Has(pages'[home'[t].blk], t) {
      assert t in home && home[t] == home'[t];
    }
  }

  lemma GrowPages(words: nat, pages: seq<Image>, home: map<nat, Spot>)
    requires PagesOk(words, pages) && Placed(pages, home)
    ensures PagesOk(words, pages + [NewPage]) && Placed(pages + [NewPage], home)
  {
    var pages' := pages + [NewPage];
    forall c | 0 <= c < |pages'| ensures PageHome(pages'[c], home, c) {
      if c < |pages| { assert PageHome(pages[c], home, c); }
    }
  }

  /** Pages are only added, and a data page stays one. */
  ghost predicate Grows(pages: seq<Image>, pages': seq<Image>) {
    |pages| <= |pages'| && forall b: nat :: Known(pages, b) ==> Known(pages', b)
  }

  lemma GrowsKeeps(pages: seq<Image>, pages': seq<Image>, meta: Meta, v: Vacuum, fsm: set<nat>)
    requires Grows(pages, pages') && MetaOk(pages, meta) && VacuumOk(pages, v) && FsmOk(pages, fsm)
    ensures MetaOk(pages', meta) && VacuumOk(pages', v) && FsmOk(pages', fsm)
  {
  }

  // ----- insertions -----

  lemma PutInserts(s: State, p: nat, b: nat)
    requires InsertsOk(s) && p in s.inserts && OnDisk(s.pages, b) && (s.lock == Some(p) || Known(s.pages, b))
    ensures InsertsOk(Put(s, p, b))
  {
    var s' := Put(s, p, b);
    assert InsertionOk(s, p, s.inserts[p]);
    forall q | q in s'.inserts ensures InsertionOk(s', q, s'.inserts[q]) {
      assert InsertionOk(s, q, s.inserts[q]);
    }
  }

  /** A scan owes what it owed as long as its due tuples stay where they are. */
  lemma ScansStay(pages: seq<Image>, home: map<nat, Spot>, pages': seq<Image>, home': map<nat, Spot>,
      scans: map<nat, Search>)
    requires ScansOk(pages, home, scans) && |pages| <= |pages'|
    requires forall t :: t in home ==> t in home' && home'[t] == home[t]
    ensures ScansOk(pages', home', scans)
  {
    forall i | i in scans ensures SearchOk(pages', home', scans[i]) {
      assert SearchOk(pages, home, scans[i]);
      forall t | t in scans[i].due ensures Owed(home', scans[i], t) { assert Owed(home, scans[i], t); }
    }
  }

  lemma PutKeeps(s: State, p: nat, b: nat)
    requires Inv(s) && p in s.inserts && OnDisk(s.pages, b) && Fits(s.words, s.pages[b])
    requires s.lock == Some(p) || Known(s.pages, b)
    ensures Inv(Put(s, p, b)) && Known(Put(s, p, b).pages, b)
  {
    var s' := Put(s, p, b);
    assert InsertionOk(s, p, s.inserts[p]);
    PutPages(s.words, s.pages, s.home, b, s.inserts[p].it);
    GrowsKeeps(s.pages, s'.pages, s.meta, s.vacuum, s.fsm);
    ScansStay(s.pages, s.home, s'.pages, s'.home, s.scans);
    PutInserts(s, p, b);
  }

  /** While nobody holds the metapage, its list may be replaced by any list of data pages. */
  lemma MetaKeeps(s: State, meta: Meta)
    requires Inv(s) && s.lock.None? && MetaOk(s.pages, meta)
    ensures Inv(s.(meta := meta))
  {
    forall q | q in s.inserts ensures InsertionOk(s.(meta := meta), q, s.inserts[q]) {
      assert InsertionOk(s, q, s.inserts[q]);
    }
  }

  /** A new step of an insertion, possibly together with taking the metapage lock. */
  lemma StepToKeeps(s: State, p: nat, i: Insertion, lock: Option<nat>)
    requires Inv(s) && p in s.inserts && i.it == s.inserts[p].it
    requires lock == s.lock || (s.lock.None? && lock == Some(p))
    requires InsertionOk(s.(lock := lock), p, i)
    ensures Inv(StepTo(s, p, i).(lock := lock))
  {
    var s' := StepTo(s, p, i).(lock := lock);
    forall q | q in s'.inserts ensures InsertionOk(s', q, s'.inserts[q]) {
      if q != p { assert InsertionOk(s, q, s.inserts[q]); }
    }
  }

  lemma AddInsertion(s: State, p: nat, i: Insertion)
    requires Inv(s) && p !in s.inserts && InsertionOk(s, p, i) && Unused(s.inserts, i.it.tid)
    requires s.vacuum.Sweeping? ==> i.it.tid !in s.vacuum.dead
    ensures Inv(StepTo(s, p, i))
  {
    var s' := StepTo(s, p, i);
    forall q | q in s'.inserts ensures InsertionOk(s', q, s'.inserts[q]) {
      if q != p { assert InsertionOk(s, q, s.inserts[q]); }
    }
  }

  lemma BeginKeeps(s: State, p: nat, it: Item)
    requires Inv(s) && Enabled(s, BeginInsert(p, it))
    ensures Inv(Apply(s, BeginInsert(p, it)))
  {
    AddInsertion(s, p, Apply(s, BeginInsert(p, it)).inserts[p]);
  }

  lemma AbortKeeps(s: State, p: nat)
    requires Inv(s) && p in s.inserts
    ensures Inv(Apply(s, Abort(p)))
  {
    var s' := Apply(s, Abort(p));
    forall q | q in s'.inserts ensures InsertionOk(s', q, s'.inserts[q]) {
      assert InsertionOk(s, q, s.inserts[q]);
    }
  }

  lemma ExtendKeeps(s: State, p: nat)
    requires Inv(s) && Enabled(s, Extend(p))
    ensures Inv(Apply(s, Extend(p)))
  {
    var s' := Apply(s, Extend(p));
    GrowPages(s.words, s.pages, s.home);
    GrowsKeeps(s.pages, s'.pages, s.meta, s.vacuum, s.fsm);
    ScansStay(s.pages, s.home, s'.pages, s'.home, s.scans);
    assert InsertionOk(s, p, s.inserts[p]);
    forall q | q in s'.inserts ensures InsertionOk(s', q, s'.inserts[q]) {
      if q != p { assert InsertionOk(s, q, s.inserts[q]); }
    }
  }

  lemma TryKeeps(s: State, p: nat)
    requires Inv(s) && Enabled(s, TryNext(p))
    ensures Inv(Apply(s, TryNext(p)))
  {
    var i := s.inserts[p];
    assert InsertionOk(s, p, i);
    if Fits(s.words, s.pages[s.meta.notFull[i.k]]) {
      PutKeeps(s, p, s.meta.notFull[i.k]);
      var s' := Put(s, p, s.meta.notFull[i.k]);
      MetaKeeps(s', s'.meta.(nStart := i.k));
    } else {
      StepToKeeps(s, p, Holding(i.it, i.k + 1), s.lock);
    }
  }

  lemma FreshKeeps(s: State, p: nat, b: nat)
    requires Inv(s) && p in s.inserts && s.lock == Some(p) && OnDisk(s.pages, b) && Reusable(s.pages[b])
    ensures Inv(Put(s, p, b).(meta := OnlyEntry(s.meta, b)))
  {
    PutKeeps(s, p, b);
    MetaKeeps(Put(s, p, b), OnlyEntry(s.meta, b));
  }

  lemma InsertKeeps(s: State, l: Label)
    requires Inv(s) && Enabled(s, l) && (l.FastTry? || l.Lock? || l.RecycleUse? || l.RecycleSkip? || l.InitNew?)
    ensures Inv(Apply(s, l))
  {
    if !l.RecycleSkip? {
      var p := l.p;
      assert InsertionOk(s, p, s.inserts[p]);
      if l.Lock? { StepToKeeps(s, p, Holding(s.inserts[p].it, FirstEntry(s.meta, s.inserts[p].tried)), Some(p)); }
      if l.RecycleUse? { FreshKeeps(s, p, l.b); }
      if l.InitNew? { FreshKeeps(s, p, s.inserts[p].blk); }
      if l.FastTry? {
        var i := s.inserts[p];
        if Fits(s.words, s.pages[i.blk]) {
          PutKeeps(s, p, i.blk);
        } else {
          StepToKeeps(s, p, Slow(i.it, Some(i.blk)), s.lock);
        }
      }
    }
  }

  // ----- vacuum and scans -----

  lemma SweepScans(s: State)
    requires Inv(s) && Enabled(s, VacuumPage)
    ensures ScansOk(SweepPage(s).pages, SweepPage(s).home, SweepPage(s).scans)
  {
    var s' := SweepPage(s);
    forall i | i in s'.scans ensures SearchOk(s'.pages, s'.home, s'.scans[i]) {
      assert SearchOk(s.pages, s.home, s.scans[i]);
      forall t | t in s'.scans[i].due ensures Owed(s'.home, s'.scans[i], t) { assert Owed(s.home, s.scans[i], t); }
    }
  }

  lemma SweepInserts(s: State)
    requires Inv(s) && Enabled(s, VacuumPage)
    ensures InsertsOk(SweepPage(s))
  {
    var s' := SweepPage(s);
    forall q | q in s'.inserts ensures InsertionOk(s', q, s'.inserts[q]) {
      assert InsertionOk(s, q, s.inserts[q]);
    }
  }

  lemma SweepKeeps(s: State)
    requires Inv(s) && Enabled(s, VacuumPage)
    ensures Inv(SweepPage(s))
  {
    var s' := SweepPage(s);
    var v := s.vacuum;
    SweepPages(s.words, s.pages, s.home, v.dead, v.next, s'.pages[v.next], s'.home);
    GrowsKeeps(s.pages, s'.pages, s.meta, v, s.fsm);
    SweepScans(s);
    SweepInserts(s);
  }

  lemma VacuumKeeps(s: State, l: Label)
    requires Inv(s) && Enabled(s, l) && (l.VacuumStart? || l.VacuumMeta? || l.VacuumStop? || l.CleanStart? ||
        l.CleanPage?)
    ensures Inv(Apply(s, l))
  {
    if l.VacuumMeta? {
      MetaKeeps(s, Apply(s, l).meta);
    }
    var s' := Apply(s, l);
    forall q | q in s'.inserts ensures InsertionOk(s', q, s'.inserts[q]) {
      assert InsertionOk(s, q, s.inserts[q]);
    }
    forall t | t in s.home ensures 1 <= s.home[t].blk < |s.pages| {
      assert Has(s.pages[s.home[t].blk], t);
    }
  }

  lemma {:induction false} MatchingHas(items: seq<Item>, sign: Sign, i: nat)
    requires i < |items| && Covers(items[i].sign, sign)
    ensures items[i].tid in Matching(items, sign)
    decreases |items|
  {
    if i < |items| - 1 { MatchingHas(items[..|items| - 1], sign, i); }
  }

  lemma ScanFinds(s: State, r: Search, t: nat)
    requires Inv(s) && OnDisk(s.pages, r.next) && t in s.home && s.home[t].blk == r.next &&
        Covers(s.home[t].sign, r.sign)
    ensures t in ScanOf(s.pages[r.next], r.sign)
  {
    var page := s.pages[r.next];
    assert PageHome(page, s.home, r.next) && PageOk(s.words, page);
    var i :| 0 <= i < |page.items| && page.items[i].tid == t;
    assert At(s.home, page.items[i], r.next);
    MatchingHas(page.items, r.sign, i);
  }

  lemma ScanKeeps(s: State, l: Label)
    requires Inv(s) && Enabled(s, l) && (l.ScanStart? || l.ScanPage?)
    ensures Inv(Apply(s, l))
  {
    var s' := Apply(s, l);
    forall q | q in s'.inserts ensures InsertionOk(s', q, s'.inserts[q]) { assert InsertionOk(s, q, s.inserts[q]); }
    forall i | i in s'.scans ensures SearchOk(s'.pages, s'.home, s'.scans[i]) {
      if i != l.sid {
        assert SearchOk(s.pages, s.home, s.scans[i]);
      } else {
        forall t | t in s'.scans[i].due ensures Owed(s'.home, s'.scans[i], t) {
          if l.ScanStart? {
            assert Has(s.pages[s.home[t].blk], t);
          } else {
            assert SearchOk(s.pages, s.home, s.scans[i]) && Owed(s.home, s.scans[i], t);
            if s.home[t].blk == s.scans[i].next && Covers(s.home[t].sign, s.scans[i].sign) {
              ScanFinds(s, s.scans[i], t);
            }
          }
        }
      }
    }
  }

  // ----- whole runs -----

  /** A newly built index, with nobody at work on it. */
  ghost predicate Initial(s: State) {
    && PagesOk(s.words, s.pages) && Placed(s.pages, s.home)
    && s.meta.nStart == s.meta.nEnd == 0 && |s.meta.notFull| == META_BLOCKS
    && s.fsm == {} && s.lock.None? && s.inserts == map[] && s.vacuum.Idle? && s.scans == map[]
  }

  lemma StepKeeps(s: State, l: Label)
    requires Inv(s) && Enabled(s, l)
    ensures Inv(Apply(s, l))
  {
    if l.BeginInsert? { BeginKeeps(s, l.p, l.it); }
    else if l.Abort? { AbortKeeps(s, l.p); }
    else if l.Extend? { ExtendKeeps(s, l.p); }
    else if l.TryNext? { TryKeeps(s, l.p); }
    else if l.VacuumPage? { SweepKeeps(s); }
    else if l.ScanStart? || l.ScanPage? { ScanKeeps(s, l); }
    else if l.VacuumStart? || l.VacuumMeta? || l.VacuumStop? || l.CleanStart? || l.CleanPage? { VacuumKeeps(s, l); }
    else { InsertKeeps(s, l); }
  }

  /** A run: one enabled step after the other. */
  ghost predicate Run(ss: seq<State>, ls: seq<Label>) {
    |ss| == |ls| + 1 && forall i :: 0 <= i < |ls| ==> Enabled(ss[i], ls[i]) && ss[i + 1] == Apply(ss[i], ls[i])
  }

  lemma RunPrefix(ss: seq<State>, ls: seq<Label>)
    requires Run(ss, ls) && ls != []
    ensures Run(ss[..|ls|], ls[..|ls| - 1])
    ensures Enabled(ss[|ls| - 1], ls[|ls| - 1]) && ss[|ls|] == Apply(ss[|ls| - 1], ls[|ls| - 1])
  {
  }

  /** From a new index, every reachable state satisfies the invariant. */
  lemma {:induction false} RunKeeps(ss: seq<State>, ls: seq<Label>)
    requires Run(ss, ls) && (Initial(ss[0]) || Inv(ss[0]))
    ensures Inv(ss[|ls|])
    decreases |ls|
  {
    if ls != [] {
      RunPrefix(ss, ls);
      RunKeeps(ss[..|ls|], ls[..|ls| - 1]);
      StepKeeps(ss[|ls| - 1], ls[|ls| - 1]);
    }
  }

  /** Steps that complete an insertion of p. */
  predicate Completes(s: State, l: Label)
    requires Enabled(s, l)
  {
    match l
    case FastTry(p) => Fits(s.words, s.pages[s.inserts[p].blk])
    case TryNext(p) => Fits(s.words, s.pages[s.meta.notFull[s.inserts[p].k]])
    case RecycleUse(_, _) => true
    case InitNew(_) => true
    case _ => false
  }

  /** Conservation: a completed insertion adds its tuple and nothing else, a swept page loses its
      flagged tuples and nothing else, and no other step changes the content. */
  lemma ContentChanges(s: State, l: Label) returns (b: nat)
    requires Inv(s) && Enabled(s, l)
    ensures Completes(s, l) ==> l.p in s.inserts && s.inserts[l.p].it.tid !in s.home
    ensures Completes(s, l) ==> Apply(s, l).home == s.home[s.inserts[l.p].it.tid := Spot(b, s.inserts[l.p].it.sign)]
    ensures l.VacuumPage? ==> Apply(s, l).home == s.home - Gone(s.home, s.vacuum.dead, s.vacuum.next)
    ensures !Completes(s, l) && !l.VacuumPage? ==> Apply(s, l).home == s.home
  {
    b := 0;
    if Completes(s, l) {
      assert InsertionOk(s, l.p, s.inserts[l.p]);
      b := if l.TryNext? then s.meta.notFull[s.inserts[l.p].k] else if l.RecycleUse? then l.b else s.inserts[l.p].blk;
    }
  }

  /** No vacuum of the run flags the tuple. */
  ghost predicate Unflagged(s: State, ls: seq<Label>, t: nat) {
    && (s.vacuum.Sweeping? ==> t !in s.vacuum.dead)
    && forall i :: 0 <= i < |ls| && ls[i].VacuumStart? ==> t !in ls[i].dead
  }

  lemma StepVacuum(s: State, l: Label)
    requires Enabled(s, l) && Apply(s, l).vacuum.Sweeping?
    ensures (l.VacuumStart? && Apply(s, l).vacuum.dead == l.dead) ||
        (s.vacuum.Sweeping? && Apply(s, l).vacuum.dead == s.vacuum.dead)
  {
  }

  lemma {:induction false} UnflaggedStays(ss: seq<State>, ls: seq<Label>, t: nat)
    requires Run(ss, ls) && Unflagged(ss[0], ls, t)
    ensures ss[|ls|].vacuum.Sweeping? ==> t !in ss[|ls|].vacuum.dead
    decreases |ls|
  {
    if ls != [] {
      RunPrefix(ss, ls);
      UnflaggedStays(ss[..|ls|], ls[..|ls| - 1], t);
      if ss[|ls|].vacuum.Sweeping? { StepVacuum(ss[|ls| - 1], ls[|ls| - 1]); }
    }
  }

  /** A stored tuple that no vacuum flags is still stored, on the same page, after any run. */
  lemma {:induction false} TupleStays(ss: seq<State>, ls: seq<Label>, t: nat)
    requires Run(ss, ls) && Inv(ss[0]) && t in ss[0].home && Unflagged(ss[0], ls, t)
    ensures t in ss[|ls|].home && ss[|ls|].home[t] == ss[0].home[t]
    decreases |ls|
  {
    if ls != [] {
      RunPrefix(ss, ls);
      TupleStays(ss[..|ls|], ls[..|ls| - 1], t);
      UnflaggedStays(ss[..|ls|], ls[..|ls| - 1], t);
      RunKeeps(ss[..|ls|], ls[..|ls| - 1]);
      var b := ContentChanges(ss[|ls| - 1], ls[|ls| - 1]);
    }
  }

  /** In terms of pages: in every reachable state a stored tuple is in one slot of one data page. */
  lemma StoredOnce(s: State, t: nat, b: nat, i: nat)
    requires Inv(s) && b < |s.pages| && s.pages[b].DataPage? && i < |s.pages[b].items| && s.pages[b].items[i].tid == t
    ensures t in s.home && s.home[t].blk == b && !s.pages[b].deleted
    ensures forall c, j ::
        0 <= c < |s.pages| && s.pages[c].DataPage? && 0 <= j < |s.pages[c].items| && s.pages[c].items[j].tid == t ==>
        c == b && j == i
  {
    assert PageHome(s.pages[b], s.home, b) && At(s.home, s.pages[b].items[i], b);
    assert PageOk(s.words, s.pages[b]);
    forall c, j | 0 <= c < |s.pages| && s.pages[c].DataPage? && 0 <= j < |s.pages[c].items| &&
        s.pages[c].items[j].tid == t
      ensures c == b && j == i
    {
      assert PageHome(s.pages[c], s.home, c) && At(s.home, s.pages[c].items[j], c);
    }
  }

  /** What one step does to a running scan. */
  lemma StepScan(s: State, l: Label, sid: nat)
    requires Enabled(s, l) && sid in s.scans
    ensures sid in Apply(s, l).scans && Apply(s, l).scans[sid].sign == s.scans[sid].sign
    ensures forall t :: t in s.scans[sid].due && (s.vacuum.Sweeping? ==> t !in s.vacuum.dead) ==>
        t in Apply(s, l).scans[sid].due
    ensures forall t :: t in Apply(s, l).scans[sid].found ==>
      t in s.scans[sid].found || (l == ScanPage(sid) && t in ScanOf(s.pages[s.scans[sid].next], s.scans[sid].sign))
  {
  }

  lemma {:induction false} DueStays(ss: seq<State>, ls: seq<Label>, sid: nat, t: nat)
    requires Run(ss, ls) && Inv(ss[0]) && t in ss[0].home && Unflagged(ss[0], ls, t)
    requires sid in ss[0].scans && t in ss[0].scans[sid].due
    ensures sid in ss[|ls|].scans && t in ss[|ls|].scans[sid].due && ss[|ls|].scans[sid].sign == ss[0].scans[sid].sign
    decreases |ls|
  {
    if ls != [] {
      RunPrefix(ss, ls);
      DueStays(ss[..|ls|], ls[..|ls| - 1], sid, t);
      UnflaggedStays(ss[..|ls|], ls[..|ls| - 1], t);
      StepScan(ss[|ls| - 1], ls[|ls| - 1], sid);
    }
  }

  /** A scan that begins with the run and has read its last page returns every tuple that was
      stored before it, is flagged by no vacuum and has the bits of the scan signature. */
  lemma ScanComplete(ss: seq<State>, ls: seq<Label>, sid: nat, sign: Sign, t: nat)
    requires Run(ss, ls) && Inv(ss[0]) && ls != [] && ls[0] == ScanStart(sid, sign)
    requires t in ss[0].home && Covers(ss[0].home[t].sign, sign) && Unflagged(ss[0], ls, t)
    requires sid in ss[|ls|].scans && ss[|ls|].scans[sid].next >= ss[|ls|].scans[sid].npages
    ensures t in ss[|ls|].scans[sid].found
  {
    assert Run(ss[1..], ls[1..]);
    StepKeeps(ss[0], ls[0]);
    DueStays(ss[1..], ls[1..], sid, t);
    TupleStays(ss, ls, t);
    RunKeeps(ss, ls);
    var r := ss[|ls|].scans[sid];
    assert SearchOk(ss[|ls|].pages, ss[|ls|].home, r) && Owed(ss[|ls|].home, r, t);
  }

  /** No false negatives: keys equal to columns of a stored tuple find it in every interleaving. */
  lemma EqualKeysFound(ss: seq<State>, ls: seq<Label>, sid: nat, c: Config, cols: seq<Entry>, keys: seq<Entry>, t: nat)
    requires Run(ss, ls) && Inv(ss[0]) && ls != []
    requires AllUsable(c, cols) && AllUsable(c, keys) && forall i :: 0 <= i < |keys| ==> keys[i] in cols
    requires ls[0] == ScanStart(sid, SignOf(c, keys))
    requires t in ss[0].home && ss[0].home[t].sign == SignOf(c, cols) && Unflagged(ss[0], ls, t)
    requires sid in ss[|ls|].scans && ss[|ls|].scans[sid].next >= ss[|ls|].scans[sid].npages
    ensures t in ss[|ls|].scans[sid].found
  {
    EqualColumnsMatch(c, cols, keys);
    ScanComplete(ss, ls, sid, SignOf(c, keys), t);
  }

  lemma {:induction false} MatchingOnly(items: seq<Item>, sign: Sign, t: nat) returns (i: nat)
    requires t in Matching(items, sign)
    ensures i < |items| && items[i].tid == t && Covers(items[i].sign, sign)
    decreases |items|
  {
    if Covers(items[|items| - 1].sign, sign) && t == items[|items| - 1].tid { i := |items| - 1; }
    else { i := MatchingOnly(items[..|items| - 1], sign, t); }
  }

  lemma ReadSound(s: State, r: Search, t: nat)
    requires Inv(s) && OnDisk(s.pages, r.next) && t in ScanOf(s.pages[r.next], r.sign)
    ensures t in s.home && Covers(s.home[t].sign, r.sign)
  {
    var page := s.pages[r.next];
    var i := MatchingOnly(page.items, r.sign, t);
    assert PageHome(page, s.home, r.next) && At(s.home, page.items[i], r.next);
  }

  /** A scan invents nothing: what it returns was stored, with the bits of the scan signature, in
      some state of the run. */
  lemma {:induction false} ScanSound(ss: seq<State>, ls: seq<Label>, sid: nat, sign: Sign, t: nat) returns (k: nat)
    requires Run(ss, ls) && Inv(ss[0]) && ls != [] && ls[0] == ScanStart(sid, sign)
    requires sid in ss[|ls|].scans && t in ss[|ls|].scans[sid].found
    ensures k < |ss| && t in ss[k].home && Covers(ss[k].home[t].sign, sign)
    decreases |ls|
  {
    RunPrefix(ss, ls);
    var n := |ls| - 1;
    if n > 0 {
      ScanSign(ss[..|ls|], ls[..n], sid, sign);
      StepScan(ss[n], ls[n], sid);
      if t in ss[n].scans[sid].found {
        k := ScanSound(ss[..|ls|], ls[..n], sid, sign, t);
      } else {
        RunKeeps(ss[..|ls|], ls[..n]);
        ReadSound(ss[n], ss[n].scans[sid], t);
        k := n;
      }
    }
  }

  lemma {:induction false} ScanSign(ss: seq<State>, ls: seq<Label>, sid: nat, sign: Sign)
    requires Run(ss, ls) && ls != [] && ls[0] == ScanStart(sid, sign)
    ensures sid in ss[|ls|].scans && ss[|ls|].scans[sid].sign == sign
    decreases |ls|
  {
    RunPrefix(ss, ls);
    if |ls| > 1 {
      ScanSign(ss[..|ls|], ls[..|ls| - 1], sid, sign);
      StepScan(ss[|ls| - 1], ls[|ls| - 1], sid);
    }
  }

  /** When vacuum has visited all its pages no flagged tuple is left. */
  lemma VacuumComplete(s: State)
    requires Inv(s) && s.vacuum.Sweeping? && s.vacuum.next >= s.vacuum.npages
    ensures s.vacuum.dead !! s.home.Keys
  {
  }

  /** Reachable insertions never get stuck: a step of their own is enabled, except while somebody
      else holds the metapage, and then that holder has a step. */
  lemma InsertionAdvances(s: State, p: nat) returns (l: Label)
    requires Inv(s) && p in s.inserts
    ensures Enabled(s, l) && !l.Abort?
    ensures (l.FastTry? || l.Lock? || l.TryNext? || l.Extend? || l.InitNew?)
    ensures l.p == p || (s.inserts[p].Slow? && s.lock == Some(l.p))
  {
    var q := if s.inserts[p].Slow? && s.lock.Some? then s.lock.value else p;
    var i := s.inserts[q];
    assert InsertionOk(s, q, i);
    if i.Fast? { l := FastTry(q); }
    else if i.Slow? { l := Lock(q); }
    else if i.Extended? { l := InitNew(q); }
    else if i.k < s.meta.nEnd {
      assert Known(s.pages, s.meta.notFull[i.k]);
      l := TryNext(q);
    }
    else { l := Extend(q); }
  }

  /** Nor do vacuum and scans: their next step is enabled, except that vacuum may have to wait for
      the metapage. */
  lemma WalksAdvance(s: State, sid: nat)
    requires Inv(s)
    ensures s.vacuum.Sweeping? && s.vacuum.next < s.vacuum.npages ==> Enabled(s, VacuumPage)
    ensures s.vacuum.Sweeping? && s.vacuum.next >= s.vacuum.npages && s.lock.None? ==> Enabled(s, VacuumMeta)
    ensures s.vacuum.Cleaning? && s.vacuum.next < s.vacuum.npages ==> Enabled(s, CleanPage)
    ensures sid in s.scans && s.scans[sid].next < s.scans[sid].npages ==> Enabled(s, ScanPage(sid))
  {
    if sid in s.scans { assert SearchOk(s.pages, s.home, s.scans[sid]); }
    forall b | 1 <= b < |s.pages| ensures OnDisk(s.pages, b) { assert PageOk(s.words, s.pages[b]); }
  }
}
