/** hstore_in and hstore_out: scanner with growing word buffer, duplicate removal, bounded printer. */
module HstoreIo {
  import opened Machine
  import opened Wrappers
  import opened ByteStrings
  import opened SortedMaps
  import opened HstoreLayout
  import opened HstoreOps
  import opened HstoreText
  import HstoreGrammar

  /** A C string: no NUL before its end. */
  predicate CString(t: Bytes) { forall i :: 0 <= i < |t| ==> t[i] != 0 }

  datatype Status = Continue | Done | Absent | Fail(failure: Failure)

  lemma Tail(t: Bytes, i: nat)
    requires i < |t|
    ensures t[i..] != [] && t[i..][0] == t[i] && t[i..][1..] == t[i + 1..]
  {
  }

  /** Doubling the array of pairs is refused at the largest size only. */
  lemma PairsDouble(plen: nat)
    requires BufferSize(plen) && plen <= PAIRS_MAX
    ensures PAIR_SIZE * (2 * plen) > MAX_ALLOC <==> plen == PAIRS_MAX
    ensures plen != PAIRS_MAX ==> BufferSize(2 * plen) && 2 * plen <= PAIRS_MAX
  {
  }

  class Parser {
    const text: Bytes
    var ptr: nat
    var word: array<byte>
    var cur: nat
    var pairs: seq<KeyValue>
    var plen: nat

    constructor (t: Bytes)
      ensures text == t && ptr == 0 && pairs == [] && plen == 16 && cur == 0 && word.Length == 32 && fresh(word)
    {
      text := t;
      ptr, pairs, plen, cur := 0, [], 16, 0;
      word := new byte[32](_ => 0);
    }

    /** The character under the pointer, NUL at the end. */
    function At(): byte
      requires ptr <= |text|
      reads this
    {
      if ptr < |text| then text[ptr] else 0
    }

    ghost predicate Valid()
      reads this
    {
      CString(text) && ptr <= |text| && cur < word.Length && BufferSize(word.Length)
    }

    /** RESIZEPRSBUF, then store one character. */
    method Push(c: byte) returns (ok: bool)
      requires Valid()
      modifies this`word, this`cur, word
      ensures Valid() && (word == old(word) || fresh(word))
      ensures ok <==> old(cur) < WORD_MAX
      ensures ok ==> cur == old(cur) + 1 && word[..cur] == old(word[..cur]) + [c]
    {
      Doubles(word.Length);
      if cur + 1 >= word.Length {
        if 2 * word.Length > MAX_ALLOC { return false; }
        var bigger := new byte[2 * word.Length](_ => 0);
        forall i | 0 <= i < cur { bigger[i] := word[i]; }
        assert bigger[..cur] == word[..cur];
        word := bigger;
      }
      Store(c);
      ok := true;
    }

    /** Store one character without a look at the size. */
    method Store(c: byte)
      requires Valid() && cur + 1 < word.Length
      modifies this`cur, word
      ensures Valid() && cur == old(cur) + 1 && word[..cur] == old(word[..cur]) + [c]
    {
      word[cur] := c;
      cur := cur + 1;
    }

    /** What get_val makes of the rest of the text, from mode st on. */
    ghost function Expect(st: Mode, escaped: bool, ig: bool): Got
      requires Valid()
      reads this, word
    {
      HstoreText.GetVal(text[ptr..], st, word[..cur], escaped, ig)
    }

    ghost predicate Delivers(status: Status, escaped: bool, g: Got)
      requires Valid()
      reads this, word
    {
      && (status.Done? ==> ptr < |text| && g == Word(word[..cur], escaped, text[ptr + 1..]))
      && (status.Absent? ==> g == NoVal)
      && (status.Fail? ==> g == Bad(status.failure))
    }

    /** One round of get_val. */
    method Step(st: Mode, escaped: bool, ig: bool) returns (status: Status, st': Mode, escaped': bool)
      requires Valid() && (st.InVal? ==> ptr > 0) && (st.WaitVal? ==> cur == 0)
      modifies this`ptr, this`word, this`cur, word
      ensures Valid() && (word == old(word) || fresh(word))
      ensures status.Continue? ==> ptr == old(ptr) + 1 && (st'.WaitVal? ==> cur == 0)
      ensures status.Continue? ==> Expect(st', escaped', ig) == old(Expect(st, escaped, ig))
      ensures Delivers(status, escaped', old(Expect(st, escaped, ig)))
    {
      status, st', escaped' := Continue, st, escaped;
      var c := At();
      if ptr < |text| { Tail(text, ptr); }
      match st {
        case WaitVal =>
          status, st', escaped' := FirstStep(escaped, ig);
        case InVal =>
          if c == BACKSLASH { st' := WaitEscIn; ptr := ptr + 1; }
          else if (c == EQUALS && !ig) || (c == COMMA && ig) { ptr := ptr - 1; return Done, st, escaped; }
          else if IsSpace(c) { return Done, st, escaped; }
          else if c == 0 { ptr := ptr - 1; return Done, st, escaped; }
          else { status := Keep(c); }
        case _ =>
          status, st' := EscStep(st, escaped, ig);
      }
    }

    /** A round inside quotes or after a backslash. */
    method EscStep(st: Mode, escaped: bool, ig: bool) returns (status: Status, st': Mode)
      requires Valid() && !st.WaitVal? && !st.InVal?
      modifies this`ptr, this`word, this`cur, word
      ensures Valid() && (word == old(word) || fresh(word))
      ensures status.Continue? ==> ptr == old(ptr) + 1 && !st'.WaitVal?
      ensures status.Continue? ==> Expect(st', escaped, ig) == old(Expect(st, escaped, ig))
      ensures Delivers(status, escaped, old(Expect(st, escaped, ig)))
    {
      status, st' := Continue, st;
      var c := At();
      if ptr < |text| { Tail(text, ptr); }
      if c == 0 { return Fail(UnexpectedEnd), st; }
      if st.InEscVal? && c == BACKSLASH {
        st' := WaitEscEscIn;
        ptr := ptr + 1;
      } else if st.InEscVal? && c == QUOTE {
        return Done, st;
      } else {
        st' := if st.WaitEscIn? then InVal else InEscVal;
        status := Keep(c);
      }
    }

    /** A round before the first character of the word. */
    method FirstStep(escaped: bool, ig: bool) returns (status: Status, st': Mode, escaped': bool)
      requires Valid() && cur == 0
      modifies this`ptr, this`cur, word
      ensures Valid() && !status.Done?
      ensures status.Continue? ==> ptr == old(ptr) + 1 && (st'.WaitVal? ==> cur == 0)
      ensures status.Continue? ==> Expect(st', escaped', ig) == old(Expect(WaitVal, escaped, ig))
      ensures Delivers(status, escaped', old(Expect(WaitVal, escaped, ig)))
    {
      status, st', escaped' := Continue, WaitVal, escaped;
      var c := At();
      if ptr < |text| { Tail(text, ptr); }
      Doubles(word.Length);
      if c == QUOTE { escaped', st' := true, InEscVal; }
      else if c == 0 { return Absent, WaitVal, escaped; }
      else if c == EQUALS && !ig { return Fail(SyntaxError(|text| - ptr)), WaitVal, escaped; }
      else if c == BACKSLASH { st' := WaitEscIn; }
      else if !IsSpace(c) { Store(c); st' := InVal; }
      ptr := ptr + 1;
    }

    /** Adds the character under the pointer to the word and moves on. */
    method Keep(c: byte) returns (status: Status)
      requires Valid() && ptr < |text| && c == text[ptr]
      modifies this`ptr, this`word, this`cur, word
      ensures Valid() && (word == old(word) || fresh(word))
      ensures status == if old(cur) < WORD_MAX then Continue else Fail(NoMemory)
      ensures status.Continue? ==> ptr == old(ptr) + 1 && word[..cur] == old(word[..cur]) + [c]
    {
      var ok := Push(c);
      if !ok { return Fail(NoMemory); }
      ptr := ptr + 1;
      status := Continue;
    }

    method GetVal(ig: bool) returns (status: Status, escaped: bool)
      requires Valid()
      modifies this`ptr, this`word, this`cur
      ensures Valid() && !status.Continue? && fresh(word)
      ensures Delivers(status, escaped, HstoreText.GetVal(old(text[ptr..]), WaitVal, [], false, ig))
      ensures status.Done? ==> ptr >= old(ptr)
      ensures status.Done? ==> |word[..cur]| <= WORD_MAX
    {
      word := new byte[32](_ => 0);
      cur := 0;
      var st := WaitVal;
      escaped := false;
      ghost var g := Expect(st, escaped, ig);
      assert word[..0] == [];
      status := Continue;
      while status.Continue?
        invariant Valid() && fresh(word)
        invariant status.Continue? ==> (if st == WaitVal then cur == 0 else ptr > 0) && Expect(st, escaped, ig) == g
        invariant Delivers(status, escaped, g)
        decreases status.Continue?, |text| - ptr
      {
        status, st, escaped := Step(st, escaped, ig);
      }
    }

    /** What parse_hstore makes of the rest of the text, from phase st on. */
    ghost function Awaits(st: Phase, key: Bytes): Parsed
      requires Valid()
      reads this
    {
      HstoreText.Parse(text[ptr..], st, key, pairs)
    }

    /** The array of pairs has its size, and a place for the pair that is being read. */
    ghost predicate Room(st: Phase)
      reads this
    {
      BufferSize(plen) && plen <= PAIRS_MAX && |pairs| <= plen && (st != WKey && st != WDel ==> |pairs| < plen)
    }

    /** Doubles the array of pairs when it is full. */
    method GrowPairs() returns (ok: bool)
      requires Room(WKey)
      modifies this`plen
      ensures ok <==> |pairs| < PAIRS_MAX
      ensures ok ==> Room(WEq)
    {
      if |pairs| >= plen {
        PairsDouble(plen);
        if PAIR_SIZE * (2 * plen) > MAX_ALLOC { return false; }
        plen := 2 * plen;
      }
      ok := true;
    }

    /** A round of parse_hstore that reads a key or a value. */
    method WordStep(st: Phase, key: Bytes) returns (status: Status, st': Phase, key': Bytes)
      requires Valid() && Room(st) && (st == WKey || st == WVal)
      modifies this`ptr, this`word, this`cur, this`pairs, this`plen
      ensures Valid() && !status.Absent?
      ensures status.Continue? ==> ptr > old(ptr) && Room(st') && Awaits(st', key') == old(Awaits(st, key))
      ensures status.Done? ==> old(Awaits(st, key)) == Ok(pairs)
      ensures status.Fail? ==> old(Awaits(st, key)) == Failed(status.failure)
    {
      status, st', key' := Continue, st, key;
      var got, escaped := GetVal(st == WVal);
      if got.Absent? { return if st == WKey then Done else Fail(UnexpectedEnd), st, key; }
      if got.Fail? { return got, st, key; }
      if st == WKey {
        var ok := GrowPairs();
        if !ok { return Fail(NoMemory), st, key; }
        key', st' := word[..cur], WEq;
      } else {
        pairs := pairs + [Pair(key, ValueOf(word[..cur], escaped))];
        key', st' := [], WDel;
      }
      ptr := ptr + 1;
    }

    /** A round of parse_hstore that looks at one character. */
    method MarkStep(st: Phase, key: Bytes) returns (status: Status, st': Phase, key': Bytes)
      requires Valid() && Room(st) && st != WKey && st != WVal
      modifies this`ptr
      ensures Valid() && !status.Absent?
      ensures status.Continue? ==> ptr > old(ptr) && Room(st') && Awaits(st', key') == old(Awaits(st, key))
      ensures status.Done? ==> old(Awaits(st, key)) == Ok(pairs)
      ensures status.Fail? ==> old(Awaits(st, key)) == Failed(status.failure)
    {
      status, st', key' := Continue, st, key;
      var c := At();
      if ptr < |text| { Tail(text, ptr); }
      if st == WEq {
        if c == EQUALS { st' := WGt; }
        else if c == 0 { return Fail(UnexpectedEnd), st, key; }
        else if !IsSpace(c) { return Fail(SyntaxError(|text| - ptr)), st, key; }
      } else if st == WGt {
        if c == GREATER { st' := WVal; }
        else if c == 0 { return Fail(UnexpectedEnd), st, key; }
        else { return Fail(SyntaxError(|text| - ptr)), st, key; }
      } else {
        key' := [];
        if c == COMMA { st' := WKey; }
        else if c == 0 { return Done, st, key; }
        else if !IsSpace(c) { return Fail(SyntaxError(|text| - ptr)), st, key; }
      }
      ptr := ptr + 1;
    }

    /** parse_hstore */
    method Run() returns (r: Parsed)
      requires CString(text) && ptr == 0 && pairs == [] && plen == 16 && cur == 0 && word.Length == 32
      modifies this
      ensures r == HstoreText.Parse(text, WKey, [], [])
    {
      var st, key, status := WKey, [], Continue;
      assert text[0..] == text;
      while status.Continue?
        invariant Valid() && !status.Absent?
        invariant status.Continue? ==> Room(st)
        invariant status.Continue? ==> Awaits(st, key) == HstoreText.Parse(text, WKey, [], [])
        invariant status.Done? ==> HstoreText.Parse(text, WKey, [], []) == Ok(pairs)
        invariant status.Fail? ==> HstoreText.Parse(text, WKey, [], []) == Failed(status.failure)
        decreases status.Continue?, |text| - ptr
      {
        if st == WKey || st == WVal { status, st, key := WordStep(st, key); }
        else { status, st, key := MarkStep(st, key); }
      }
      r := if status.Done? then Ok(pairs) else Failed(status.failure);
    }
  }

  // ----- duplicate removal -----

  /** The loop of hstoreUniquePairs, in place; it also adds up the string lengths. */
  method UniquePairs(a: array<KeyValue>) returns (n: nat, buflen: nat)
    modifies a
    ensures n <= a.Length && a[..n] == Unique(old(a[..])) && buflen == |Flat(Unique(old(a[..])))|
  {
    ghost var was := a[..];
    if a.Length == 0 { return 0, 0; }
    if a.Length == 1 {
      assert was == [a[0]] && [] + [a[0]] == [a[0]];
      buflen := AddLength([], a[0], 0);
      return 1, buflen;
    }
    buflen, n := 0, 1;
    var ptr := 1;
    assert was[..1] == [was[0]] && a[..0] == [];
    while ptr < a.Length
      invariant 1 <= n <= ptr <= a.Length && a[..n] == Unique(was[..ptr]) && buflen == |Flat(a[..n - 1])|
      invariant forall k :: ptr <= k < a.Length ==> a[k] == was[k]
    {
      n, buflen := UniqueRound(a, was, ptr, n, buflen);
      ptr := ptr + 1;
    }
    assert was[..a.Length] == was;
    assert a[..n - 1] + [a[n - 1]] == a[..n];
    buflen := AddLength(a[..n - 1], a[n - 1], buflen);
  }

  /** One round: n - 1 is the index of the pair kept last. */
  method UniqueRound(a: array<KeyValue>, ghost was: seq<KeyValue>, ptr: nat, n: nat, buflen: nat)
      returns (n': nat, buflen': nat)
    requires 1 <= n <= ptr < a.Length == |was| && a[..n] == Unique(was[..ptr]) && buflen == |Flat(a[..n - 1])| &&
        a[ptr] == was[ptr]
    modifies a
    ensures n <= n' <= ptr + 1 && a[..n'] == Unique(was[..ptr + 1]) && buflen' == |Flat(a[..n' - 1])|
    ensures forall k :: ptr < k < a.Length ==> a[k] == old(a[k])
  {
    n', buflen' := n, buflen;
    UniqueLast(was, ptr);
    ghost var kept := a[..n];
    assert kept[n - 1] == a[n - 1] && kept[..n - 1] == a[..n - 1];
    if a[ptr].key != a[n - 1].key {
      SplitLast(kept);
      buflen' := AddLength(kept[..n - 1], a[n - 1], buflen);
      a[n] := a[ptr];
      n' := n + 1;
      assert a[..n] == kept;
      Pushed(a[..], kept, was[ptr]);
    }
  }

  lemma SplitLast<T>(s: seq<T>)
    requires s != []
    ensures s[..|s| - 1] + [s[|s| - 1]] == s
  {
  }

  lemma Pushed<T>(a: seq<T>, kept: seq<T>, x: T)
    requires |kept| < |a| && kept == a[..|kept|] && a[|kept|] == x
    ensures a[..|kept| + 1] == kept + [x]
  {
  }

  method AddLength(ghost ps: seq<KeyValue>, p: KeyValue, buflen: nat) returns (r: nat)
    requires buflen == |Flat(ps)|
    ensures r == |Flat(ps + [p])|
  {
    FlatPush(ps, p);
    r := buflen + |p.key| + if p.val.None? then 0 else |p.val.value|;
  }

  // ----- hstore_in -----

  lemma {:induction false} InsertFlat(ps: seq<KeyValue>, p: KeyValue)
    ensures |Flat(Insert(Cmp, ps, p))| == |Flat(ps)| + |p.key| + |ValBytes(p)|
    decreases |ps|
  {
    FlatPush(ps, p);
    if ps != [] && Cmp(ps[|ps| - 1].key, p.key) > 0 {
      InsertFlat(ps[..|ps| - 1], p);
      FlatPush(Insert(Cmp, ps[..|ps| - 1], p), ps[|ps| - 1]);
    }
  }

  /** Dropping duplicates drops bytes. */
  lemma {:induction false} UniqueFlat(ps: seq<KeyValue>)
    ensures |Unique(ps)| <= |ps| && |Flat(Unique(ps))| <= |Flat(ps)|
    decreases |ps|
  {
    if |ps| > 1 {
      UniqueFlat(ps[..|ps| - 1]);
      FlatPush(Unique(ps[..|ps| - 1]), ps[|ps| - 1]);
    }
  }

  /** qsort by its contract, carried out by insertion. */
  method Sort(ps: seq<KeyValue>) returns (r: seq<KeyValue>)
    ensures InOrder(Cmp, r) && multiset(r) == multiset(ps)
    ensures |r| == |ps| && |Flat(r)| == |Flat(ps)|
  {
    r := [];
    CmpIsOrder();
    for i := 0 to |ps|
      invariant InOrder(Cmp, r) && multiset(r) == multiset(ps[..i]) && |Flat(r)| == |Flat(ps[..i])|
    {
      SortStep(ps, i, r);
      r := Insert(Cmp, r, ps[i]);
    }
    assert ps[..|ps|] == ps;
    SameLength(r, ps);
  }

  lemma SortStep(ps: seq<KeyValue>, i: nat, r: seq<KeyValue>)
    requires i < |ps| && InOrder(Cmp, r) && multiset(r) == multiset(ps[..i]) && |Flat(r)| == |Flat(ps[..i])|
    ensures InOrder(Cmp, Insert(Cmp, r, ps[i])) && multiset(Insert(Cmp, r, ps[i])) == multiset(ps[..i + 1])
    ensures |Flat(Insert(Cmp, r, ps[i]))| == |Flat(ps[..i + 1])|
  {
    CmpIsOrder();
    PackRoom(ps, i);
    InsertPermutes(Cmp, r, ps[i]);
    InsertOrders(Cmp, r, ps[i]);
    InsertFlat(r, ps[i]);
    FlatPush(ps[..i], ps[i]);
  }

  /** The second list has pairs of the first only, and all its keys. */
  ghost predicate SameKeys(ps: seq<KeyValue>, u: seq<KeyValue>) {
    (forall p :: p in u ==> p in ps) && (forall p :: p in ps ==> HasKey(u, p.key))
  }

  lemma UniqueSame(ps: seq<KeyValue>, sorted: seq<KeyValue>)
    requires InOrder(Cmp, sorted) && multiset(sorted) == multiset(ps)
    ensures Sorted(Cmp, Unique(sorted)) && SameKeys(ps, Unique(sorted))
  {
    var u := Unique(sorted);
    CmpIsOrder();
    if sorted != [] { UniqueSorted(Cmp, sorted); }
    forall p | p in u ensures p in ps {
      UniqueFrom(sorted, p);
      assert p in multiset(sorted);
    }
    forall p | p in ps ensures HasKey(u, p.key) {
      assert p in multiset(ps);
      var j :| 0 <= j < |sorted| && sorted[j] == p;
      UniqueKeys(sorted, j);
    }
  }

  lemma SortedStays(sorted: seq<KeyValue>, ps: seq<KeyValue>)
    requires InOrder(Cmp, sorted) && multiset(sorted) == multiset(ps) && Sorted(Cmp, ps)
    ensures Unique(sorted) == ps
  {
    CmpIsOrder();
    OrderedPermutation(Cmp, ps, sorted);
    UniqueOfSorted(Cmp, ps);
  }

  /** hstoreUniquePairs: a strictly sorted list with the same keys, and the length of its strings. */
  method SortUnique(ps: seq<KeyValue>) returns (u: seq<KeyValue>, buflen: nat)
    ensures Sorted(Cmp, u) && SameKeys(ps, u) && (Sorted(Cmp, ps) ==> u == ps)
    ensures |u| <= |ps| && buflen == |Flat(u)| <= |Flat(ps)|
  {
    var sorted := Sort(ps);
    var a := new KeyValue[|sorted|](i requires 0 <= i < |sorted| => sorted[i]);
    assert a[..] == sorted;
    var n;
    n, buflen := UniquePairs(a);
    u := a[..n];
    UniqueSame(ps, sorted);
    UniqueFlat(sorted);
    if Sorted(Cmp, ps) { SortedStays(sorted, ps); }
  }

  datatype Input = Value(h: HStore) | Rejected(failure: Failure) | TooBig

  /** The value holds exactly the keys of the list, each with one of the values listed for it. */
  ghost predicate Represents(h: HStore, ps: seq<KeyValue>) {
    && WellFormed(h) && Exact(h)
    && (forall i :: 0 <= i < |ps| ==> ps[i].key in Abs(h))
    && (forall k :: k in Abs(h) ==> Pair(k, Abs(h)[k]) in ps)
  }

  lemma RepresentsUnique(h: HStore, u: seq<KeyValue>, ps: seq<KeyValue>)
    requires Sorted(Cmp, u) && SameKeys(ps, u) && Encodes(h, u) && |h.buf| == |Flat(u)|
    ensures Represents(h, ps)
  {
    CmpIsOrder();
    AbsOf(h, u);
    forall i | 0 <= i < |ps| ensures ps[i].key in Abs(h) {
      assert ps[i] in ps;
      MapKeys(u, ps[i].key);
    }
    forall k | k in Abs(h) ensures Pair(k, Abs(h)[k]) in ps {
      MapKeys(u, k);
      var i :| 0 <= i < |u| && u[i].key == k;
      MapAt(Cmp, u, i);
      assert u[i] in u;
    }
  }

  /** hstore_in: scan, sort, drop duplicates, pack. */
  method In(t: Bytes) returns (r: Input)
    requires CString(t)
    ensures r.Value? ==> exists ps :: HstoreGrammar.Derives(t, ps) && |ps| <= PAIRS_MAX && Represents(r.h, ps)
    ensures r.Rejected? <==> forall ps :: HstoreGrammar.Derives(t, ps) ==> |ps| > PAIRS_MAX
    ensures var g := Parse(t, WKey, [], []); g.Failed? <==> r.Rejected?
    ensures var g := Parse(t, WKey, [], []); g.Failed? ==> r == Rejected(g.failure)
    ensures var g := Parse(t, WKey, [], []); g.Ok? && r.Value? ==> Represents(r.h, g.pairs)
    ensures var g := Parse(t, WKey, [], []);
      g.Ok? && r.TooBig? ==> 8 * |g.pairs| + HEADER + |Flat(g.pairs)| > MAX_ALLOC
    ensures var g := Parse(t, WKey, [], []); g.Ok? && Sorted(Cmp, g.pairs) ==>
      && (r.TooBig? <==> 8 * |g.pairs| + HEADER + |Flat(g.pairs)| > MAX_ALLOC)
      && (r.Value? ==> Encodes(r.h, g.pairs))
  {
    var parser := new Parser(t);
    var g := parser.Run();
    forall ps { HstoreGrammar.ParseIff(t, ps); }
    if g.Failed? { return Rejected(g.failure); }
    var u, buflen := SortUnique(g.pairs);
    var out := Pack(u, buflen);
    if out.None? { return TooBig; }
    RepresentsUnique(out.value, u, g.pairs);
    r := Value(out.value);
  }

  // ----- hstore_out -----

  /** The bytes hstore_out reserves for a pair. */
  function Allowance(p: KeyValue): nat {
    6 + 2 * |p.key| + 2 + if p.val.None? then 2 else 2 * |p.val.value|
  }

  function Reserved(ps: seq<KeyValue>, i: nat): nat
    requires i <= |ps|
  {
    if i == 0 then 0 else Reserved(ps, i - 1) + Allowance(ps[i - 1])
  }

  function Before(pieces: seq<Bytes>, i: nat): Bytes
    requires i <= |pieces|
  {
    if i == 0 then [] else Before(pieces, i - 1) + pieces[i - 1]
  }

  lemma {:induction false} BeforeFrom(pieces: seq<Bytes>, i: nat)
    requires i <= |pieces|
    ensures Before(pieces, i) + From(pieces, i) == From(pieces, 0)
    decreases i
  {
    if i > 0 {
      BeforeFrom(pieces, i - 1);
      Cat(Before(pieces, i - 1), pieces[i - 1], From(pieces, i));
    }
  }

  /** All pairs printed one after the other are the text. */
  lemma PrintedAll(ps: seq<KeyValue>)
    ensures Before(Pieces(ps), |ps|) == TextFrom(ps, 0)
  {
    BeforeFrom(Pieces(ps), |ps|);
    Empty(Before(Pieces(ps), |ps|));
  }

  lemma {:induction false} EscLength(w: Bytes)
    ensures |Esc(w)| <= 2 * |w|
  {
    if w != [] { EscLength(w[1..]); }
  }

  /** A pair fits its allowance, and the last one leaves room for the terminating NUL. */
  lemma PieceFits(ps: seq<KeyValue>, k: nat)
    requires k < |ps|
    ensures |Piece(ps, k)| <= Allowance(ps[k]) && (k + 1 == |ps| ==> |Piece(ps, k)| + 2 <= Allowance(ps[k]))
  {
    EscLength(ps[k].key);
    if ps[k].val.Some? { EscLength(ps[k].val.value); }
  }

  lemma {:induction false} ReservedGrows(ps: seq<KeyValue>, i: nat, j: nat)
    requires i <= j <= |ps|
    ensures Reserved(ps, i) <= Reserved(ps, j)
    decreases j - i
  {
    if i < j { ReservedGrows(ps, i, j - 1); }
  }

  /** The computed length fits an int for every value that can exist. */
  lemma {:induction false} ReservedInt(ps: seq<KeyValue>, i: nat)
    requires i <= |ps|
    ensures Reserved(ps, i) <= 10 * i + 2 * Start(ps, i)
    ensures HEADER + 8 * |ps| + |Flat(ps)| <= MAX_ALLOC ==> Reserved(ps, i) < 0x8000_0000
    decreases i
  {
    StartMax(ps, i);
    if i > 0 {
      ReservedInt(ps, i - 1);
      FlatSplit(ps, i - 1);
    }
  }

  /** Stores a run of bytes at the write position. */
  method Store(out: array<byte>, ptr: nat, s: Bytes) returns (p: nat)
    requires ptr + |s| <= out.Length
    modifies out
    ensures p == ptr + |s| && out[..p] == old(out[..ptr]) + s
  {
    forall i | 0 <= i < |s| { out[ptr + i] := s[i]; }
    p := ptr + |s|;
  }

  lemma {:induction false} EscPush(w: Bytes, c: byte)
    ensures Esc(w + [c]) == Esc(w) + Esc([c])
    decreases |w|
  {
    if w == [] {
      Empty(Esc([c]));
      Empty([c]);
    } else {
      EscPush(w[1..], c);
      assert (w + [c])[1..] == w[1..] + [c];
      Cat(if w[0] == QUOTE || w[0] == BACKSLASH then [BACKSLASH, w[0]] else [w[0]], Esc(w[1..]), Esc([c]));
    }
  }

  /** cpw */
  method CopyEscaped(out: array<byte>, ptr: nat, src: Bytes) returns (p: nat)
    requires ptr + 2 * |src| <= out.Length
    modifies out
    ensures p == ptr + |Esc(src)| <= out.Length && out[..p] == old(out[..ptr]) + Esc(src)
  {
    p := ptr;
    ghost var was := out[..ptr];
    Empty(was);
    for i := 0 to |src|
      invariant ptr <= p <= ptr + 2 * i && p == ptr + |Esc(src[..i])| && out[..p] == was + Esc(src[..i])
    {
      assert src[..i + 1] == src[..i] + [src[i]];
      EscPush(src[..i], src[i]);
      ghost var one := Esc([src[i]]);
      Cat(was, Esc(src[..i]), one);
      EscOne(src[i]);
      if src[i] == QUOTE || src[i] == BACKSLASH {
        p := Store(out, p, [BACKSLASH, src[i]]);
      } else {
        p := Store(out, p, [src[i]]);
      }
    }
    assert src[..|src|] == src;
  }

  lemma EscOne(c: byte)
    ensures Esc([c]) == if c == QUOTE || c == BACKSLASH then [BACKSLASH, c] else [c]
  {
    Empty(if c == QUOTE || c == BACKSLASH then [BACKSLASH, c] else [c]);
  }

  method StoreQuoted(out: array<byte>, ptr: nat, src: Bytes) returns (p: nat)
    requires ptr + 2 * |src| + 2 <= out.Length
    modifies out
    ensures p == ptr + |Quoted(src)| <= ptr + 2 * |src| + 2 && out[..p] == old(out[..ptr]) + Quoted(src)
  {
    ghost var was := out[..ptr];
    EscLength(src);
    p := Store(out, ptr, [QUOTE]);
    p := CopyEscaped(out, p, src);
    p := Store(out, p, [QUOTE]);
    Cat(was, [QUOTE], Esc(src));
    Cat(was, [QUOTE] + Esc(src), [QUOTE]);
    Cat([QUOTE], Esc(src), [QUOTE]);
  }

  /** The body of the output loop. */
  method StorePair(out: array<byte>, ptr: nat, h: HStore, ghost ps: seq<KeyValue>, i: nat) returns (p: nat)
    requires Encodes(h, ps) && i < |ps| && ptr + Allowance(ps[i]) <= out.Length
    modifies out
    ensures p == ptr + |Piece(ps, i)| <= out.Length && out[..p] == old(out[..ptr]) + Piece(ps, i)
  {
    ghost var was := out[..ptr];
    CountOf(h, ps);
    ReadsPair(h, ps, i);
    p := StoreQuoted(out, ptr, KeyAt(h, i));
    p := Store(out, p, [EQUALS, GREATER]);
    ghost var head := Quoted(ps[i].key);
    Cat(was, head, [EQUALS, GREATER]);
    if h.entries[2 * i + 1].isNull {
      p := Store(out, p, NULL_TEXT);
    } else {
      p := StoreQuoted(out, p, ValAt(h, i).value);
    }
    Cat(was, head + [EQUALS, GREATER], ValText(ps[i].val));
    Cat(head, [EQUALS, GREATER], ValText(ps[i].val));
    PieceFits(ps, i);
    if i + 1 != Count(h) {
      p := Store(out, p, [COMMA, BLANK]);
      Cat(was, PairText(ps[i]), [COMMA, BLANK]);
    } else {
      Empty(PairText(ps[i]));
    }
  }

  /** The first loop of hstore_out. */
  method Reserve(h: HStore) returns (buflen: nat)
    requires WellFormed(h)
    ensures buflen == Reserved(PairsOf(h), |PairsOf(h)|)
  {
    ghost var ps := PairsOf(h);
    CountOf(h, ps);
    buflen := 0;
    for i := 0 to Count(h)
      invariant buflen == Reserved(ps, i)
    {
      Reads(h, ps, i);
      buflen := buflen + 6 + 2 * Len(h.entries, 2 * i);
      buflen := buflen + 2 + if h.entries[2 * i + 1].isNull then 2 else 2 * Len(h.entries, 2 * i + 1);
    }
  }

  /** The second loop of hstore_out. */
  method StoreAll(out: array<byte>, h: HStore, ghost ps: seq<KeyValue>) returns (ptr: nat)
    requires Encodes(h, ps) && ps != [] && out.Length == Reserved(ps, |ps|)
    modifies out
    ensures ptr + 2 <= out.Length && out[..ptr] == Before(Pieces(ps), |ps|)
  {
    CountOf(h, ps);
    ptr := 0;
    for i := 0 to Count(h)
      invariant ptr <= Reserved(ps, i) <= out.Length && (i == |ps| ==> ptr + 2 <= Reserved(ps, i))
      invariant out[..ptr] == Before(Pieces(ps), i)
    {
      ReservedGrows(ps, i + 1, |ps|);
      PieceFits(ps, i);
      ptr := StorePair(out, ptr, h, ps, i);
    }
  }

  /** hstore_out: no store, not even that of the final NUL, lies outside the computed length. */
  method Out(h: HStore) returns (r: Option<Bytes>)
    requires WellFormed(h)
    ensures r.None? <==> Reserved(PairsOf(h), |PairsOf(h)|) > MAX_ALLOC
    ensures r.Some? ==> r.value == TextFrom(PairsOf(h), 0)
  {
    ghost var ps := PairsOf(h);
    CountOf(h, ps);
    if Count(h) == 0 { return Some([]); }
    var buflen := Reserve(h);
    if buflen > MAX_ALLOC { return None; }
    var out := new byte[buflen](_ => 0);
    var ptr := StoreAll(out, h, ps);
    PrintedAll(ps);
    out[ptr] := 0;
    r := Some(out[..ptr]);
  }

  // ----- round trip -----

  ghost predicate NoNul(ps: seq<KeyValue>) {
    forall i :: 0 <= i < |ps| ==> CString(ps[i].key) && (ps[i].val.Some? ==> CString(ps[i].val.value))
  }

  lemma {:induction false} EscCString(w: Bytes)
    requires CString(w)
    ensures CString(Esc(w))
  {
    if w != [] { EscCString(w[1..]); }
  }

  lemma PieceCString(ps: seq<KeyValue>, i: nat)
    requires i < |ps| && NoNul(ps)
    ensures CString(Piece(ps, i))
  {
    EscCString(ps[i].key);
    if ps[i].val.Some? { EscCString(ps[i].val.value); }
  }

  lemma {:induction false} PiecesCString(pieces: seq<Bytes>, i: nat)
    requires i <= |pieces| && forall k :: 0 <= k < |pieces| ==> CString(pieces[k])
    ensures CString(From(pieces, i))
    decreases |pieces| - i
  {
    if i < |pieces| {
      PiecesCString(pieces, i + 1);
      CStringCat(pieces[i], From(pieces, i + 1));
    }
  }

  lemma TextCString(ps: seq<KeyValue>)
    requires NoNul(ps)
    ensures CString(TextFrom(ps, 0))
  {
    forall k | 0 <= k < |ps| ensures CString(Pieces(ps)[k]) { PieceCString(ps, k); }
    PiecesCString(Pieces(ps), 0);
  }

  lemma CStringCat(a: Bytes, b: Bytes)
    requires CString(a) && CString(b)
    ensures CString(a + b)
  {
  }

  /** What can be printed has no word too long for the scanner. */
  lemma {:induction false} ShortPairs(ps: seq<KeyValue>, n: nat)
    requires n <= |ps| && Reserved(ps, n) <= MAX_ALLOC
    ensures forall k :: 0 <= k < n ==> Short(ps[k])
    decreases n
  {
    if n > 0 { ShortPairs(ps, n - 1); }
  }

  /** hstore_in(hstore_out(h)) is h, whatever quotes, backslashes, blanks or "NULL" strings h holds,
      if and only if h has at most PAIRS_MAX pairs; a text with more pairs is refused. */
  method PrintAndRead(h: HStore) returns (t: Option<Bytes>, r: Input)
    requires WellFormed(h) && Exact(h) && VarSize(h) <= MAX_ALLOC && NoNul(PairsOf(h))
    ensures t.None? <==> Reserved(PairsOf(h), |PairsOf(h)|) > MAX_ALLOC
    ensures t.Some? ==> r == if |PairsOf(h)| <= PAIRS_MAX then Value(h) else Rejected(NoMemory)
  {
    ghost var ps := PairsOf(h);
    t := Out(h);
    r := TooBig;
    if t.Some? {
      TextCString(ps);
      ShortPairs(ps, |ps|);
      assert ps[..0] == [];
      if ps != [] { ParsesText(ps, 0); }
      assert Parse(t.value, WKey, [], []) == if |ps| <= PAIRS_MAX then Ok(ps) else Failed(NoMemory);
      r := In(t.value);
      if |ps| <= PAIRS_MAX { ReadBack(h, ps, r); }
    }
  }

  lemma ReadBack(h: HStore, ps: seq<KeyValue>, r: Input)
    requires WellFormed(h) && Exact(h) && VarSize(h) <= MAX_ALLOC && ps == PairsOf(h)
    requires !r.Rejected? && (r.TooBig? <==> 8 * |ps| + HEADER + |Flat(ps)| > MAX_ALLOC)
    requires r.Value? ==> Encodes(r.h, ps) && Exact(r.h)
    ensures r == Value(h)
  {
    CountOf(h, ps);
    AbsOf(r.h, ps);
    EncodesExactly(h, r.h, ps);
  }
}
