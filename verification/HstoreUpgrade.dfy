/** In-place conversion of values written by the old hstore format. */
module HstoreUpgrade {
  import opened Machine
  import opened Wrappers
  import opened ByteStrings
  import opened SortedMaps
  import opened HstoreLayout
  import opened HstoreOps

  // ----- the two readings of a slot -----

  type Word32 = w: nat | w < 0x1_0000_0000

  /** Eight bytes: one entry of the old format, or two of the new one. */
  datatype Slot = Slot(w0: Word32, w1: Word32)

  /** Old reading: 16-bit lengths in the first word; null bit and 31-bit position in the second. */
  function KeyLen(s: Slot): nat { s.w0 % 0x1_0000 }
  function ValLen(s: Slot): nat { s.w0 / 0x1_0000 }
  function IsNull(s: Slot): bool { s.w1 % 2 == 1 }
  function Pos(s: Slot): nat { s.w1 / 2 }

  /** Bytes of the value: the length field of a null is not looked at. */
  function ValSize(s: Slot): nat { if IsNull(s) then 0 else ValLen(s) }

  /** New reading: two flag bits and a 30-bit end position. */
  function Unpack(w: Word32): Entry { Entry(w >= ISFIRST, w % ISFIRST >= ISNULL, w % ISNULL) }

  function NewEntries(ss: seq<Slot>): seq<Entry> {
    if ss == [] then [] else NewEntries(ss[..|ss| - 1]) + [Unpack(ss[|ss| - 1].w0), Unpack(ss[|ss| - 1].w1)]
  }

  function Bit30(b: bool): nat { if b then ISNULL else 0 }

  lemma UnpackFacts(pos: nat, isNull: bool)
    requires pos <= POSMASK
    ensures Unpack(pos + Bit30(isNull)) == Entry(false, isNull, pos)
    ensures Unpack(pos + ISFIRST) == Entry(true, false, pos)
  {
  }

  // ----- old values -----

  /** The pair list ps extended by the pair that an old entry describes, if the entry starts where
      ps ends and lies inside the buffer. */
  function OldNext(s: Slot, buf: Bytes, ps: seq<KeyValue>): (r: Option<seq<KeyValue>>)
    ensures r.Some? ==> |r.value| == |ps| + 1
  {
    var at := |Flat(ps)|;
    if Pos(s) != at || at + KeyLen(s) + ValSize(s) > |buf| then None
    else Some(ps + [Cut(buf, at, KeyLen(s), ValSize(s), IsNull(s))])
  }

  function Cut(buf: Bytes, at: nat, klen: nat, vlen: nat, isNull: bool): KeyValue
    requires at + klen + vlen <= |buf|
  {
    Pair(buf[at..at + klen], if isNull then None else Some(buf[at + klen..at + klen + vlen]))
  }

  /** The pairs of a list of contiguous old entries. */
  function OldPairs(ss: seq<Slot>, buf: Bytes): (r: Option<seq<KeyValue>>)
    ensures r.Some? ==> |r.value| == |ss|
  {
    if ss == [] then Some([]) else
    var prev := OldPairs(ss[..|ss| - 1], buf);
    if prev.None? then None else OldNext(ss[|ss| - 1], buf, prev.value)
  }

  ghost predicate KeyLensGrow(ss: seq<Slot>) { forall i :: 1 <= i < |ss| ==> KeyLen(ss[i - 1]) <= KeyLen(ss[i]) }

  lemma CutBytes(buf: Bytes, at: nat, klen: nat, vlen: nat, isNull: bool)
    requires at + klen + vlen <= |buf| && (isNull ==> vlen == 0)
    ensures var p := Cut(buf, at, klen, vlen, isNull); p.key + ValBytes(p) == buf[at..at + klen + vlen]
  {
    Slices(buf, at, at + klen, at + klen + vlen);
    if isNull { assert buf[at..at + klen] + [] == buf[at..at + klen]; }
  }

  lemma CutFlat(buf: Bytes, at: nat, klen: nat, vlen: nat, isNull: bool, ps: seq<KeyValue>)
    requires at == |Flat(ps)| && Flat(ps) <= buf && at + klen + vlen <= |buf| && (isNull ==> vlen == 0)
    ensures Flat(ps + [Cut(buf, at, klen, vlen, isNull)]) == buf[..at + klen + vlen]
  {
    FlatPush(ps, Cut(buf, at, klen, vlen, isNull));
    CutBytes(buf, at, klen, vlen, isNull);
    Slices(buf, at, at, at + klen + vlen);
    assert Flat(ps) == buf[..at];
  }

  lemma Slices(buf: Bytes, i: nat, j: nat, k: nat)
    requires i <= j <= k <= |buf|
    ensures buf[i..j] + buf[j..k] == buf[i..k] && buf[..i] + buf[i..k] == buf[..k]
  {
  }

  lemma OldNextFlat(s: Slot, buf: Bytes, ps: seq<KeyValue>)
    requires OldNext(s, buf, ps).Some? && Flat(ps) <= buf
    ensures var qs := OldNext(s, buf, ps).value; |Flat(qs)| == |Flat(ps)| + KeyLen(s) + ValSize(s) && Flat(qs) <= buf
  {
    CutFlat(buf, |Flat(ps)|, KeyLen(s), ValSize(s), IsNull(s), ps);
  }

  /** The strings of an old value are one prefix of its buffer. */
  lemma {:induction false} OldFlat(ss: seq<Slot>, buf: Bytes)
    requires OldPairs(ss, buf).Some?
    ensures Flat(OldPairs(ss, buf).value) <= buf
    decreases |ss|
  {
    if ss != [] {
      OldFlat(ss[..|ss| - 1], buf);
      OldNextFlat(ss[|ss| - 1], buf, OldPairs(ss[..|ss| - 1], buf).value);
    }
  }

  /** An old entry and the pair it describes. */
  ghost predicate Describes(s: Slot, ps: seq<KeyValue>, i: nat) {
    i < |ps| && Pos(s) == Start(ps, i) && KeyLen(s) == |ps[i].key| && ValSize(s) == |ValBytes(ps[i])| &&
        IsNull(s) == ps[i].val.None?
  }

  lemma DescribesMore(s: Slot, ps: seq<KeyValue>, i: nat, p: KeyValue)
    requires Describes(s, ps, i)
    ensures Describes(s, ps + [p], i)
  {
    assert (ps + [p])[..i] == ps[..i];
  }

  lemma OldNextDescribes(s: Slot, buf: Bytes, ps: seq<KeyValue>)
    requires OldNext(s, buf, ps).Some?
    ensures Describes(s, OldNext(s, buf, ps).value, |ps|)
  {
    assert OldNext(s, buf, ps).value[..|ps|] == ps;
  }

  lemma {:induction false} OldAt(ss: seq<Slot>, buf: Bytes, i: nat)
    requires i < |ss| && OldPairs(ss, buf).Some?
    ensures Describes(ss[i], OldPairs(ss, buf).value, i)
    decreases |ss|
  {
    var front := OldPairs(ss[..|ss| - 1], buf).value;
    if i < |ss| - 1 {
      OldAt(ss[..|ss| - 1], buf, i);
      DescribesMore(ss[i], front, i, OldPairs(ss, buf).value[|front|]);
    } else {
      OldNextDescribes(ss[i], buf, front);
    }
  }

  /** lastpos of hstoreValidOldFormat. */
  function LastPos(ss: seq<Slot>): nat {
    if ss == [] then 0 else LastPos(ss[..|ss| - 1]) + (KeyLen(ss[|ss| - 1]) + ValSize(ss[|ss| - 1]))
  }

  ghost predicate Contiguous(ss: seq<Slot>) { forall i :: 0 <= i < |ss| ==> Pos(ss[i]) == LastPos(ss[..i]) }

  lemma ContiguousFront(ss: seq<Slot>)
    requires ss != []
    ensures Contiguous(ss) <==> Contiguous(ss[..|ss| - 1]) && Pos(ss[|ss| - 1]) == LastPos(ss[..|ss| - 1])
  {
    var front := ss[..|ss| - 1];
    assert forall i :: 0 <= i < |front| ==> front[..i] == ss[..i];
  }

  /** The running sum is the length of the strings, and checking its end is enough. */
  lemma {:induction false} LastPosIff(ss: seq<Slot>, buf: Bytes)
    ensures OldPairs(ss, buf).Some? <==> Contiguous(ss) && LastPos(ss) <= |buf|
    ensures OldPairs(ss, buf).Some? ==> |Flat(OldPairs(ss, buf).value)| == LastPos(ss)
    decreases |ss|
  {
    if ss != [] {
      LastPosIff(ss[..|ss| - 1], buf);
      ContiguousFront(ss);
      if OldPairs(ss, buf).Some? {
        OldFlat(ss[..|ss| - 1], buf);
        OldNextFlat(ss[|ss| - 1], buf, OldPairs(ss[..|ss| - 1], buf).value);
      }
    }
  }

  /** VARSIZE of a value. */
  function VarLen(ss: seq<Slot>, buf: Bytes): nat { HEADER + 8 * |ss| + |buf| }

  /** Addition of signed 32-bit integers, where it can only overflow upwards. */
  function WrapAdd(a: int, b: nat): int { if a + b > 0x7fff_ffff then a + b - 0x1_0000_0000 else a + b }

  /** A signed 32-bit integer compared with an unsigned one. */
  function Unsigned(a: int): int { if a < 0 then a + 0x1_0000_0000 else a }

  /** vsize comes out exact whether or not the sum of the positions has overflowed. */
  lemma SizeExact(lastpos: nat, front: nat)
    requires lastpos < 0x8002_0000 && front <= MAX_ALLOC
    ensures Unsigned(WrapAdd(WrapAdd(0, lastpos), front)) == lastpos + front
  {
  }

  /** The slots of a value whose header announces `size` entries: as many, or only the whole ones
      of a value that is too short for them. */
  predicate Announced(size: Word32, ss: seq<Slot>, buf: Bytes) {
    var count := size % 0x1000_0000;
    |ss| == count || (|ss| < count && |buf| < 8)
  }

  lemma AnnouncedIff(size: Word32, ss: seq<Slot>, buf: Bytes)
    requires Announced(size, ss, buf) && size <= 0x0FFF_FFFF
    ensures HEADER + 8 * size > VarLen(ss, buf) <==> |ss| != size
  {
  }

  /** hstoreValidOldFormat: 0 invalid, 1 with slop, 2 exact. */
  method ValidOld(size: Word32, ss: seq<Slot>, buf: Bytes) returns (code: nat)
    requires Announced(size, ss, buf) && VarLen(ss, buf) <= MAX_ALLOC
    ensures code <= 2
    ensures code != 0 <==> |ss| == size && OldPairs(ss, buf).Some? && KeyLensGrow(ss)
    ensures code == 2 <==> code != 0 && (ss != [] ==> LastPos(ss) == |buf|)
  {
    if size >= ISFIRST { return 0; }
    if size == 0 { return 2; }
    if size > 0x0FFF_FFFF { return 0; }
    AnnouncedIff(size, ss, buf);
    if HEADER + 8 * size > VarLen(ss, buf) { return 0; }
    code := CheckEntries(ss, buf);
  }

  /** The checks behind those of the header. */
  method CheckEntries(ss: seq<Slot>, buf: Bytes) returns (code: nat)
    requires ss != [] && VarLen(ss, buf) <= MAX_ALLOC
    ensures code <= 2
    ensures code != 0 <==> OldPairs(ss, buf).Some? && KeyLensGrow(ss)
    ensures code == 2 <==> code != 0 && LastPos(ss) == |buf|
  {
    LastPosIff(ss, buf);
    FirstPos(ss);
    if Pos(ss[0]) != 0 { return 0; }
    var grows := CheckKeyLens(ss);
    if !grows { return 0; }
    var ok, lastpos := SumPositions(ss);
    if !ok { return 0; }
    var vsize := Unsigned(WrapAdd(lastpos, HEADER + 8 * |ss|));
    SizeExact(LastPos(ss), HEADER + 8 * |ss|);
    if vsize > VarLen(ss, buf) { return 0; }
    code := if vsize != VarLen(ss, buf) then 1 else 2;
  }

  lemma FirstPos(ss: seq<Slot>)
    requires ss != []
    ensures Contiguous(ss) ==> Pos(ss[0]) == 0
  {
    assert ss[..0] == [];
  }

  method CheckKeyLens(ss: seq<Slot>) returns (ok: bool)
    ensures ok <==> KeyLensGrow(ss)
  {
    if ss == [] { return true; }
    for i := 1 to |ss|
      invariant forall k :: 1 <= k < i ==> KeyLen(ss[k - 1]) <= KeyLen(ss[k])
    {
      if KeyLen(ss[i]) < KeyLen(ss[i - 1]) { return false; }
    }
    ok := true;
  }

  /** The position loop. The 32-bit sum can overflow in the last round only, because a position
      is never negative. */
  method SumPositions(ss: seq<Slot>) returns (ok: bool, lastpos: int)
    ensures ok <==> Contiguous(ss)
    ensures ok ==> LastPos(ss) < 0x8002_0000 && lastpos == WrapAdd(0, LastPos(ss))
  {
    lastpos := 0;
    for i := 0 to |ss|
      invariant LastPos(ss[..i]) < 0x8002_0000 && lastpos == WrapAdd(0, LastPos(ss[..i]))
      invariant forall k :: 0 <= k < i ==> Pos(ss[k]) == LastPos(ss[..k])
    {
      SlotSizes(ss[i]);
      NextSum(LastPos(ss[..i]), Pos(ss[i]), KeyLen(ss[i]) + ValSize(ss[i]));
      if Pos(ss[i]) != lastpos { return false, 0; }
      LastPosPush(ss, i);
      lastpos := WrapAdd(lastpos, KeyLen(ss[i]) + if IsNull(ss[i]) then 0 else ValLen(ss[i]));
    }
    assert ss[..|ss|] == ss;
    ok := true;
  }

  lemma SlotSizes(s: Slot)
    ensures KeyLen(s) < 0x1_0000 && ValSize(s) < 0x1_0000 && Pos(s) < 0x8000_0000
  {
  }

  /** A position equals the sum exactly if it equals what 32 bits hold of it. */
  lemma NextSum(sum: nat, pos: nat, add: nat)
    requires sum < 0x8002_0000 && pos < 0x8000_0000 && add < 0x2_0000
    ensures pos == WrapAdd(0, sum) <==> pos == sum
    ensures pos == sum ==> sum + add < 0x8002_0000 && WrapAdd(pos, add) == WrapAdd(0, sum + add)
  {
  }

  lemma LastPosPush(ss: seq<Slot>, i: nat)
    requires i < |ss|
    ensures LastPos(ss[..i + 1]) == LastPos(ss[..i]) + (KeyLen(ss[i]) + ValSize(ss[i]))
  {
    assert ss[..i + 1][..i] == ss[..i];
  }

  // ----- conversion -----

  /** A slot that holds the new entries of pair i. */
  ghost predicate SlotOk(s: Slot, ps: seq<KeyValue>, i: nat, marked: bool) {
    && i < |ps| && Unpack(s.w0) == KeyEntry(marked && i == 0, KeyEnd(ps, i))
    && Unpack(s.w1) == ValEntry(ps[i], ValEnd(ps, i))
  }

  lemma SlotFront(s: Slot, ps: seq<KeyValue>, i: nat, marked: bool)
    requires SlotOk(s, ps, i, marked) && i < |ps| - 1
    ensures SlotOk(s, ps[..|ps| - 1], i, marked)
  {
    StartFront(ps, i);
  }

  lemma {:induction false} SlotsEncode(ss: seq<Slot>, ps: seq<KeyValue>, marked: bool)
    requires |ss| == |ps| && forall i :: 0 <= i < |ss| ==> SlotOk(ss[i], ps, i, marked)
    ensures NewEntries(ss) == Entries(ps, marked)
    decreases |ss|
  {
    if ss != [] {
      forall i | 0 <= i < |ss| - 1 ensures SlotOk(ss[i], ps[..|ps| - 1], i, marked) { SlotFront(ss[i], ps, i, marked); }
      SlotsEncode(ss[..|ss| - 1], ps[..|ps| - 1], marked);
      assert SlotOk(ss[|ss| - 1], ps, |ss| - 1, marked);
    }
  }

  /** The body of the conversion loop. */
  function NewSlot(s: Slot): (r: Slot)
  {
    var pos, keylen := Pos(s), KeyLen(s);
    var vallen := if IsNull(s) then 0 else ValLen(s);
    Slot(Mask(pos + keylen), Mask(pos + keylen + vallen) + Bit30(IsNull(s)))
  }

  lemma NewSlotOk(s: Slot, ps: seq<KeyValue>, i: nat)
    requires Describes(s, ps, i) && |Flat(ps)| <= POSMASK
    ensures SlotOk(NewSlot(s), ps, i, false)
  {
    Unmasked(ps, i);
    FlatSplit(ps, i);
    UnpackFacts(KeyEnd(ps, i), false);
    UnpackFacts(ValEnd(ps, i), IsNull(s));
  }

  lemma Marks(s: Slot, ps: seq<KeyValue>)
    requires SlotOk(s, ps, 0, false) && |Flat(ps)| <= POSMASK
    ensures s.w0 + ISFIRST < 0x1_0000_0000 && SlotOk(Slot(s.w0 + ISFIRST, s.w1), ps, 0, true)
  {
    Unmasked(ps, 0);
    FlatSplit(ps, 0);
    UnpackFacts(KeyEnd(ps, 0), false);
  }

  /** The conversion in place: the new slots encode the pairs of the old ones, the position mask
      drops no bit, and the size becomes exact. */
  method Convert(ss: array<Slot>, buf: Bytes) returns (h: HStore)
    requires OldPairs(ss[..], buf).Some? && |buf| <= POSMASK
    modifies ss
    ensures h.entries == NewEntries(ss[..])
    ensures var ps := old(OldPairs(ss[..], buf)).value; Encodes(h, ps) && |h.buf| == |Flat(ps)|
  {
    ghost var ps := OldPairs(ss[..], buf).value;
    OldFlat(ss[..], buf);
    ConvertLoop(ss, buf, ps);
    if ss.Length > 0 {
      Marks(ss[0], ps);
      ss[0] := Slot(ss[0].w0 + ISFIRST, ss[0].w1);
    }
    SlotsEncode(ss[..], ps, true);
    var all := HStore(NewEntries(ss[..]), buf);
    FixSizeEncodes(all, ps);
    h := FixSize(all);
  }

  lemma SlotConverted(ss: seq<Slot>, buf: Bytes, ps: seq<KeyValue>, i: nat)
    requires OldPairs(ss, buf) == Some(ps) && |Flat(ps)| <= POSMASK && i < |ss|
    ensures SlotOk(NewSlot(ss[i]), ps, i, false)
  {
    OldAt(ss, buf, i);
    NewSlotOk(ss[i], ps, i);
  }

  /** Each slot is read whole before it is overwritten. */
  method ConvertLoop(ss: array<Slot>, ghost buf: Bytes, ghost ps: seq<KeyValue>)
    requires OldPairs(ss[..], buf) == Some(ps) && |Flat(ps)| <= POSMASK
    modifies ss
    ensures forall k :: 0 <= k < ss.Length ==> SlotOk(ss[k], ps, k, false)
  {
    ghost var was := ss[..];
    for i := 0 to ss.Length
      invariant forall k :: i <= k < ss.Length ==> ss[k] == was[k]
      invariant forall k :: 0 <= k < i ==> ss[k] == NewSlot(was[k])
    {
      ss[i] := NewSlot(ss[i]);
    }
    forall k | 0 <= k < ss.Length ensures SlotOk(ss[k], ps, k, false) { SlotConverted(was, buf, ps, k); }
  }

  // ----- hstoreUpgrade -----

  /** The shortcut for values that look new already. */
  predicate Shortcut(ss: seq<Slot>, buf: Bytes) {
    ss == [] || (VarLen(ss, buf) < 32768 && Unpack(ss[0].w0).first)
  }

  /** The shortcut takes an old value for a new one exactly when its first value is null with a
      length field of 32768 or more, and the whole value is shorter than 32768 bytes. */
  lemma ShortcutIff(ss: seq<Slot>, buf: Bytes)
    requires OldPairs(ss, buf).Some? && ss != []
    ensures Shortcut(ss, buf) <==>
      VarLen(ss, buf) < 32768 && OldPairs(ss, buf).value[0].val.None? && ValLen(ss[0]) >= 32768
  {
    OldAt(ss, buf, 0);
    OldFlat(ss, buf);
    FlatSplit(OldPairs(ss, buf).value, 0);
  }

  /** What the shortcut makes of such a value: the null comes out as a string. */
  lemma {:induction false} MisreadNull(ss: seq<Slot>, buf: Bytes)
    requires OldPairs(ss, buf).Some? && ss != [] && OldPairs(ss, buf).value[0].val.None?
    ensures |NewEntries(ss)| == 2 * |ss| && !NewEntries(ss)[1].isNull
    decreases |ss|
  {
    if |ss| > 1 {
      MisreadNull(ss[..|ss| - 1], buf);
    } else {
      OldAt(ss, buf, 0);
    }
  }

  /** For example the old value "a"=>NULL, written with 32768 left in the unused length field. */
  lemma MisreadExample(s: Slot, buf: Bytes, p: KeyValue)
    requires s == Slot(1 + 32768 * 0x1_0000, 1) && buf == [97] && p == Pair([97], None)
    ensures OldPairs([s], buf) == Some([p]) && Shortcut([s], buf) && !Encodes(HStore(NewEntries([s]), buf), [p])
  {
    assert KeyLen(s) == 1 && IsNull(s) && Pos(s) == 0 && ValSize(s) == 0;
    assert [s][..0] == [];
    assert buf[0..1] == buf && Cut(buf, 0, 1, 0, true) == p;
    assert OldNext(s, buf, []) == Some([] + [p]) && [] + [p] == [p];
    ShortcutIff([s], buf);
    MisreadNull([s], buf);
    EntriesAt([p], true, 0);
  }

  /** End position of a slot's second word in the new reading. */
  function EndSeen(s: Slot): nat { 2 * Pos(s) + if IsNull(s) then 1 else 0 }

  lemma EndUnpacked(s: Slot)
    requires Pos(s) < 32768
    ensures Unpack(s.w1).pos == EndSeen(s)
  {
  }

  /** The end position that the shortcut takes from the last entry: twice the position of its
      string, plus the null bit. */
  lemma {:induction false} ShortcutEnd(ss: seq<Slot>, buf: Bytes)
    requires OldPairs(ss, buf).Some? && ss != [] && |buf| < 32768
    ensures |NewEntries(ss)| == 2 * |ss| && NewEntries(ss)[2 * |ss| - 1].pos == EndSeen(ss[|ss| - 1])
  {
    OldAt(ss, buf, |ss| - 1);
    OldFlat(ss, buf);
    FlatSplit(OldPairs(ss, buf).value, |ss| - 1);
    EndUnpacked(ss[|ss| - 1]);
    LastUnpacked(ss);
  }

  lemma LastUnpacked(ss: seq<Slot>)
    requires ss != []
    ensures |NewEntries(ss)| == 2 * |ss| && NewEntries(ss)[2 * |ss| - 1] == Unpack(ss[|ss| - 1].w1)
  {
    NewEntriesLength(ss);
    NewEntriesLength(ss[..|ss| - 1]);
  }

  lemma {:induction false} NewEntriesLength(ss: seq<Slot>)
    ensures |NewEntries(ss)| == 2 * |ss|
    decreases |ss|
  {
    if ss != [] { NewEntriesLength(ss[..|ss| - 1]); }
  }

  /** End of the last entry. */
  function LastEnd(h: HStore): nat { if h.entries == [] then 0 else h.entries[|h.entries| - 1].pos }

  /** The shortcut: the entries stay as they are, and HS_FIXSIZE believes the last of them, even
      where it lies past the buffer. */
  method TakeShortcut(ss: seq<Slot>, buf: Bytes) returns (h: HStore, size: nat)
    requires Shortcut(ss, buf) && OldPairs(ss, buf).Some?
    ensures ss == [] ==> h == HStore([], [])
    ensures h.entries == NewEntries(ss) && size == HEADER + 8 * |ss| + LastEnd(h) && h.buf <= buf
    ensures ss != [] ==> (size > VarLen(ss, buf) <==> EndSeen(ss[|ss| - 1]) > |buf|)
  {
    var all := HStore(NewEntries(ss), buf);
    var end := LastEnd(all);
    if ss != [] { ShortcutEnd(ss, buf); }
    h := HStore(all.entries, buf[..if end <= |buf| then end else |buf|]);
    size := HEADER + 8 * |ss| + end;
  }

  /** The condition under which hstoreUpgrade misreads an old value. */
  predicate Misread(ss: seq<Slot>, buf: Bytes) {
    ss != [] && VarLen(ss, buf) < 32768 && IsNull(ss[0]) && ValLen(ss[0]) >= 32768
  }

  /** hstoreUpgrade keeps the pairs of an old value if and only if it does not take the shortcut
      or the value is empty, and then the new size is exact. */
  method Upgrade(ss: array<Slot>, buf: Bytes) returns (h: HStore, size: nat)
    requires OldPairs(ss[..], buf).Some? && KeyLensGrow(ss[..]) && VarLen(ss[..], buf) <= MAX_ALLOC
    modifies ss
    ensures Encodes(h, old(OldPairs(ss[..], buf)).value) <==> !old(Misread(ss[..], buf))
    ensures size == HEADER + 8 * ss.Length + LastEnd(h)
    ensures Encodes(h, old(OldPairs(ss[..], buf)).value) ==> size == VarSize(h)
  {
    ghost var was := ss[..];
    ghost var ps := OldPairs(was, buf).value;
    if was != [] {
      ShortcutIff(was, buf);
      OldAt(was, buf, 0);
    }
    if Shortcut(ss[..], buf) {
      h, size := TakeShortcut(ss[..], buf);
      if was != [] {
        MisreadNull(was, buf);
        EntriesAt(ps, true, 0);
      }
      return;
    }
    var validOld := ValidOld(ss.Length, ss[..], buf);
    assert validOld != 0;
    h := Convert(ss, buf);
    FixSizeEncodes(h, ps);
    size := HEADER + 8 * ss.Length + LastEnd(h);
    NewEntriesLength(ss[..]);
  }
}
