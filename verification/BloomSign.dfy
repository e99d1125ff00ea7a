/** Bloom signatures: which bits a value sets, and why a tuple with equal columns always passes
    the signature test of a scan. */
module BloomSign {
  import opened BloomRandom

  /** A 16-bit word is the set of its one bits; bitwise and and or are intersection and union. */
  type Word = set<nat>
  type Sign = seq<Word>

  const WORDBITS := 16

  // ----- bits in words -----

  /** SETBIT */
  function SetBit(sign: Sign, n: nat): Sign
    requires n < |sign| * WORDBITS
  {
    sign[n / WORDBITS := sign[n / WORDBITS] + {n % WORDBITS}]
  }

  /** A word-by-word superset: the test of blgetbitmap. */
  predicate Covers(t: Sign, s: Sign) {
    |t| == |s| && forall i :: 0 <= i < |s| ==> t[i] * s[i] == s[i]
  }

  method SignMatches(t: Sign, s: Sign) returns (res: bool)
    requires |t| == |s|
    ensures res <==> Covers(t, s)
  {
    res := true;
    for i := 0 to |s|
      invariant res && forall k :: 0 <= k < i ==> t[k] * s[k] == s[k]
    {
      if t[i] * s[i] != s[i] { return false; }
    }
  }

  ghost predicate HasBit(t: Sign, n: nat) { n < |t| * WORDBITS && n % WORDBITS in t[n / WORDBITS] }

  predicate Below(bits: seq<nat>, m: nat) { forall k :: 0 <= k < |bits| ==> bits[k] < m }

  function SetBits(sign: Sign, bits: seq<nat>): (r: Sign)
    requires Below(bits, |sign| * WORDBITS)
    ensures |r| == |sign|
  {
    if bits == [] then sign else SetBit(SetBits(sign, bits[..|bits| - 1]), bits[|bits| - 1])
  }

  lemma {:induction false} BitsStay(sign: Sign, bits: seq<nat>, n: nat)
    requires Below(bits, |sign| * WORDBITS)
    requires HasBit(sign, n) || exists k :: 0 <= k < |bits| && bits[k] == n
    ensures HasBit(SetBits(sign, bits), n)
    decreases |bits|
  {
    if bits != [] && n != bits[|bits| - 1] { BitsStay(sign, bits[..|bits| - 1], n); }
  }

  lemma SetBitExact(sign: Sign, b: nat, n: nat)
    requires b < |sign| * WORDBITS
    ensures HasBit(SetBit(sign, b), n) <==> HasBit(sign, n) || n == b
  {
    assert n == n / WORDBITS * WORDBITS + n % WORDBITS && b == b / WORDBITS * WORDBITS + b % WORDBITS;
  }

  /** Exactly the given bits are added. */
  lemma {:induction false} BitsExact(sign: Sign, bits: seq<nat>, n: nat)
    requires Below(bits, |sign| * WORDBITS)
    ensures HasBit(SetBits(sign, bits), n) <==> HasBit(sign, n) || n in bits
    decreases |bits|
  {
    if bits != [] {
      var front, last := bits[..|bits| - 1], bits[|bits| - 1];
      BitsExact(sign, front, n);
      SetBitExact(SetBits(sign, front), last, n);
      assert bits == front + [last];
    }
  }

  ghost predicate HasBits(t: Sign, bits: seq<nat>) { forall k :: 0 <= k < |bits| ==> HasBit(t, bits[k]) }

  /** A signature that has all the given bits covers the signature made of them. */
  lemma {:induction false} CoversBits(t: Sign, zero: Sign, bits: seq<nat>)
    requires |t| == |zero| && (forall i :: 0 <= i < |zero| ==> zero[i] == {})
    requires Below(bits, |t| * WORDBITS) && HasBits(t, bits)
    ensures Covers(t, SetBits(zero, bits))
    decreases |bits|
  {
    if bits != [] {
      CoversBits(t, zero, bits[..|bits| - 1]);
    }
  }

  lemma {:induction false} SetBitsAppend(sign: Sign, a: seq<nat>, b: seq<nat>)
    requires Below(a, |sign| * WORDBITS) && Below(b, |sign| * WORDBITS)
    ensures SetBits(sign, a + b) == SetBits(SetBits(sign, a), b)
    decreases |b|
  {
    if b == [] {
      assert a + b == a;
    } else {
      assert (a + b)[..|a + b| - 1] == a + b[..|b| - 1];
      SetBitsAppend(sign, a, b[..|b| - 1]);
    }
  }

  // ----- the bits of a value -----

  /** Exclusive or of the bits below the power of two m. */
  function XorBelow(a: nat, b: nat, m: nat): (r: nat)
    ensures m >= 1 ==> r < m
    decreases m, a, b
  {
    if m <= 1 then 0 else 2 * XorBelow(a / 2, b / 2, m / 2) + if a % 2 == b % 2 then 0 else 1
  }

  function Xor32(a: nat, b: nat): (r: nat)
    ensures r < 0x1_0000_0000
  {
    XorBelow(a, b, 0x1_0000_0000)
  }

  /** The bit numbers of the first draws from a state. */
  function Draw(state: int, count: nat, m: nat): (bits: seq<nat>)
    requires -P < state < P && state != 0 && m > 0
    ensures |bits| == count && Below(bits, m)
    decreases count
  {
    if count == 0 then [] else
    DrawFrom(state, count);
    Draw(state, count - 1, m) + [(Run(state, count) - 1) % m]
  }

  lemma {:induction false} DrawAt(state: int, count: nat, m: nat, k: nat)
    requires -P < state < P && state != 0 && m > 0 && k < count
    ensures Draw(state, count, m)[k] == (Run(state, k + 1) - 1) % m
    decreases count
  {
    if k < count - 1 { DrawAt(state, count - 1, m, k); }
  }

  /** One of the first draws from the state is n, reduced by m. */
  ghost predicate DrawnFrom(state: int, count: nat, m: nat, n: nat)
    requires m > 0
  {
    exists j: nat :: 1 <= j <= count && n == (Run(state, j) - 1) % m
  }

  lemma DrawMember(state: int, count: nat, m: nat, n: nat)
    requires -P < state < P && state != 0 && m > 0
    ensures n in Draw(state, count, m) <==> DrawnFrom(state, count, m, n)
  {
    var bits := Draw(state, count, m);
    if k: nat :| k < |bits| && bits[k] == n {
      DrawAt(state, count, m, k);
      assert n == (Run(state, k + 1) - 1) % m;
    }
    if j: nat :| 1 <= j <= count && n == (Run(state, j) - 1) % m {
      DrawAt(state, count, m, j - 1);
      assert bits[j - 1] == n;
    }
  }

  /** Bit number k of a. */
  function BitAt(a: nat, k: nat): nat
    decreases k
  {
    if k == 0 then a % 2 else BitAt(a / 2, k - 1)
  }

  function Power2(k: nat): (p: nat) ensures p >= 1 { if k == 0 then 1 else 2 * Power2(k - 1) }

  /** Each bit of the exclusive or is set if and only if it is set in one of the two numbers only. */
  lemma {:induction false} XorBits(a: nat, b: nat, m: nat, k: nat)
    requires TwoPower(m) && Power2(k) < m
    ensures BitAt(XorBelow(a, b, m), k) == if BitAt(a, k) == BitAt(b, k) then 0 else 1
    decreases k
  {
    var r := XorBelow(a, b, m);
    assert r % 2 == (if a % 2 == b % 2 then 0 else 1) && r / 2 == XorBelow(a / 2, b / 2, m / 2);
    if k > 0 { XorBits(a / 2, b / 2, m / 2, k - 1); }
  }

  /** The second seed of signValue: the hash mixed with the first draw for the column. */
  function ValueSeed(attno: nat, hash: int): int
    requires attno < 32 && 0 <= hash < 0x1_0000_0000
  {
    SeedState(attno);
    MyRandMultiplies(MySrand(attno));
    Xor32(hash, MyRand(MySrand(attno)) - 1)
  }

  lemma SeedIs(attno: nat, hash: int, r: nat)
    requires attno < 32 && 0 <= hash < 0x1_0000_0000 && r == MyRand(MySrand(attno)) - 1
    ensures Xor32(hash, r) == ValueSeed(attno, hash)
  {
  }

  predicate TwoPower(m: nat) { m == 1 || (m > 1 && m % 2 == 0 && TwoPower(m / 2)) }

  lemma {:induction false} XorUndone(a: nat, b: nat, m: nat)
    requires TwoPower(m) && a < m
    ensures XorBelow(XorBelow(a, b, m), b, m) == a
    decreases m
  {
    if m > 1 {
      XorUndone(a / 2, b / 2, m / 2);
      var r := XorBelow(a, b, m);
      assert r / 2 == XorBelow(a / 2, b / 2, m / 2) && r % 2 == if a % 2 == b % 2 then 0 else 1;
    }
  }

  lemma TwoPower32()
    ensures TwoPower(0x1_0000_0000)
  {
    assert TwoPower(0x1_0000);
  }

  lemma Xor32Iff(a: nat, b: nat, c: nat)
    requires a < 0x1_0000_0000 && c < 0x1_0000_0000
    ensures Xor32(a, b) == c <==> a == Xor32(c, b)
  {
    TwoPower32();
    XorUndone(a, b, 0x1_0000_0000);
    XorUndone(c, b, 0x1_0000_0000);
  }

  /** Each column has exactly two hashes for which signValue starts from a bad seed. */
  lemma BadHashes(attno: nat, hash: int)
    requires attno < 32 && 0 <= hash < 0x1_0000_0000
    ensures var draw := MyRand(MySrand(attno)) - 1;
            draw >= 0 && Xor32(0x8000_0001, draw) != Xor32(0xffff_ffff, draw) &&
            (!GoodSeed(ValueSeed(attno, hash)) <==>
               hash == Xor32(0x8000_0001, draw) || hash == Xor32(0xffff_ffff, draw))
  {
    SeedState(attno);
    MyRandMultiplies(MySrand(attno));
    var draw := MyRand(MySrand(attno)) - 1;
    SeedIs(attno, hash, draw);
    Xor32Iff(hash, draw, 0x8000_0001);
    Xor32Iff(hash, draw, 0xffff_ffff);
    Xor32Iff(0x8000_0001, draw, Xor32(0xffff_ffff, draw));
    Xor32Iff(0xffff_ffff, draw, Xor32(0xffff_ffff, draw));
  }

  /** The bits that a value with the given hash sets in column `attno`. */
  function ValueBits(attno: nat, hash: int, count: nat, m: nat): (bits: seq<nat>)
    requires attno < 32 && 0 <= hash < 0x1_0000_0000 && m > 0 && GoodSeed(ValueSeed(attno, hash))
    ensures |bits| == count && Below(bits, m)
  {
    SeedState(ValueSeed(attno, hash));
    Draw(MySrand(ValueSeed(attno, hash)), count, m)
  }

  lemma ValueBitsAre(attno: nat, hash: int, count: nat, m: nat, state: int)
    requires attno < 32 && 0 <= hash < 0x1_0000_0000 && m > 0 && GoodSeed(ValueSeed(attno, hash))
    requires state == MySrand(ValueSeed(attno, hash)) && -P < state < P && state != 0
    ensures ValueBits(attno, hash, count, m) == Draw(state, count, m)
  {
  }

  lemma Pushed(sign: Sign, state: int, j: nat, m: nat)
    requires -P < state < P && state != 0 && m == |sign| * WORDBITS > 0
    ensures 0 < Run(state, j + 1) < P
    ensures SetBits(sign, Draw(state, j + 1, m))
        == SetBit(SetBits(sign, Draw(state, j, m)), (Run(state, j + 1) - 1) % m)
  {
    DrawFrom(state, j + 1);
    var bits := Draw(state, j + 1, m);
    assert bits[..j] == Draw(state, j, m);
  }

  /** The static generator state and the calls on it. */
  class Generator {
    var next: int

    method Srand(seed: int)
      requires 0 <= seed < 0x1_0000_0000
      modifies this
      ensures next == MySrand(seed)
    {
      next := ToInt32(seed);
      next := Rem(next, 0x7fff_fffe) + 1;
    }

    method Rand() returns (r: int)
      modifies this
      ensures next == MyRand(old(next)) && r == next - 1
    {
      var hi := Div(next, 127773);
      var lo := Rem(next, 127773);
      var x := 16807 * lo - 2836 * hi;
      if x < 0 { x := x + P; }
      next := x;
      r := x - 1;
    }

    /** signValue sets its bits in place. */
    method SignValue(sign: array<Word>, attno: nat, hash: int, count: nat)
      requires attno < 32 && 0 <= hash < 0x1_0000_0000 && sign.Length > 0 && GoodSeed(ValueSeed(attno, hash))
      modifies this, sign
      ensures sign[..] == SetBits(old(sign[..]), ValueBits(attno, hash, count, sign.Length * WORDBITS))
    {
      Reseed(attno, hash);
      ValueBitsAre(attno, hash, count, sign.Length * WORDBITS, next);
      DrawBits(sign, count);
    }

    /** Seeding with the column, one draw, seeding with the hash mixed with it. */
    method Reseed(attno: nat, hash: int)
      requires attno < 32 && 0 <= hash < 0x1_0000_0000 && GoodSeed(ValueSeed(attno, hash))
      modifies this
      ensures next == MySrand(ValueSeed(attno, hash)) && -P < next < P && next != 0
    {
      var r := FirstDraw(attno);
      var seed := Xor32(hash, r);
      SeedIs(attno, hash, r);
      SeedState(seed);
      Srand(seed);
    }

    method FirstDraw(attno: nat) returns (r: nat)
      requires attno < 32
      modifies this
      ensures r == MyRand(MySrand(attno)) - 1
    {
      SeedState(attno);
      Srand(attno);
      MyRandMultiplies(next);
      r := Rand();
    }

    /** The loop of signValue. */
    method DrawBits(sign: array<Word>, count: nat)
      requires -P < next < P && next != 0 && sign.Length > 0
      modifies this, sign
      ensures sign[..] == SetBits(old(sign[..]), Draw(old(next), count, sign.Length * WORDBITS))
    {
      ghost var state := next;
      for j := 0 to count
        invariant next == Run(state, j)
        invariant sign[..] == SetBits(old(sign[..]), Draw(state, j, sign.Length * WORDBITS))
      {
        DrawOne(sign, state, j);
        Pushed(old(sign[..]), state, j, sign.Length * WORDBITS);
      }
    }

    method DrawOne(sign: array<Word>, ghost state: int, ghost j: nat)
      requires -P < state < P && state != 0 && next == Run(state, j) && sign.Length > 0
      modifies this, sign
      ensures next == Run(state, j + 1) && 0 < next < P
      ensures sign[..] == SetBit(old(sign[..]), (next - 1) % (sign.Length * WORDBITS))
    {
      DrawFrom(state, j + 1);
      var nBit := Rand();
      SetOne(sign, nBit % (sign.Length * WORDBITS));
    }

    static method SetOne(sign: array<Word>, n: nat)
      requires n < sign.Length * WORDBITS
      modifies sign
      ensures sign[..] == SetBit(old(sign[..]), n)
    {
      sign[n / WORDBITS] := sign[n / WORDBITS] + {n % WORDBITS};
    }
  }

  // ----- tuples and scans -----

  /** One column value or scan key, given by its column number and hash. */
  datatype Entry = Entry(attno: nat, hash: int)

  /** Signature length in words and bits per column, as frozen in the metapage. */
  datatype Config = Config(words: nat, bitSize: seq<nat>)

  predicate Usable(c: Config, e: Entry) {
    && c.words > 0 && |c.bitSize| <= 32 && e.attno < |c.bitSize| && 0 <= e.hash < 0x1_0000_0000
    && GoodSeed(ValueSeed(e.attno, e.hash))
  }

  function EntryBits(c: Config, e: Entry): (bits: seq<nat>)
    requires Usable(c, e)
    ensures Below(bits, c.words * WORDBITS)
  {
    ValueBits(e.attno, e.hash, c.bitSize[e.attno], c.words * WORDBITS)
  }

  predicate AllUsable(c: Config, es: seq<Entry>) { c.words > 0 && forall i :: 0 <= i < |es| ==> Usable(c, es[i]) }

  function Flatten(parts: seq<seq<nat>>): seq<nat> {
    if parts == [] then [] else Flatten(parts[..|parts| - 1]) + parts[|parts| - 1]
  }

  lemma {:induction false} FlattenBelow(parts: seq<seq<nat>>, m: nat)
    requires forall i :: 0 <= i < |parts| ==> Below(parts[i], m)
    ensures Below(Flatten(parts), m)
    decreases |parts|
  {
    if parts != [] { FlattenBelow(parts[..|parts| - 1], m); }
  }

  lemma {:induction false} FlattenHas(parts: seq<seq<nat>>, e: nat, k: nat) returns (i: nat)
    requires e < |parts| && k < |parts[e]|
    ensures i < |Flatten(parts)| && Flatten(parts)[i] == parts[e][k]
    decreases |parts|
  {
    if e == |parts| - 1 { i := |Flatten(parts[..e])| + k; } else { i := FlattenHas(parts[..|parts| - 1], e, k); }
  }

  function Parts(c: Config, es: seq<Entry>): (parts: seq<seq<nat>>)
    requires AllUsable(c, es)
    ensures |parts| == |es| && forall i :: 0 <= i < |parts| ==> parts[i] == EntryBits(c, es[i])
  {
    seq(|es|, i requires 0 <= i < |es| => EntryBits(c, es[i]))
  }

  function AllBits(c: Config, es: seq<Entry>): (bits: seq<nat>)
    requires AllUsable(c, es)
    ensures Below(bits, c.words * WORDBITS)
  {
    FlattenBelow(Parts(c, es), c.words * WORDBITS);
    Flatten(Parts(c, es))
  }

  function Zero(words: nat): (z: Sign)
    ensures |z| == words && forall i :: 0 <= i < |z| ==> z[i] == {}
  {
    seq(words, _ => {})
  }

  function SignOf(c: Config, es: seq<Entry>): Sign
    requires AllUsable(c, es)
  {
    SetBits(Zero(c.words), AllBits(c, es))
  }

  lemma SignOfStep(c: Config, es: seq<Entry>, i: nat)
    requires AllUsable(c, es) && i < |es|
    ensures AllUsable(c, es[..i + 1]) && AllUsable(c, es[..i])
    ensures SignOf(c, es[..i + 1]) == SetBits(SignOf(c, es[..i]), EntryBits(c, es[i]))
  {
    var parts := Parts(c, es[..i + 1]);
    assert parts[..i] == Parts(c, es[..i]);
    SetBitsAppend(Zero(c.words), AllBits(c, es[..i]), EntryBits(c, es[i]));
  }

  lemma {:induction false} FlattenMember(parts: seq<seq<nat>>, x: nat)
    ensures x in Flatten(parts) <==> exists e :: 0 <= e < |parts| && x in parts[e]
    decreases |parts|
  {
    if parts != [] {
      var front, last := parts[..|parts| - 1], parts[|parts| - 1];
      FlattenMember(front, x);
      if e :| 0 <= e < |parts| && x in parts[e] {
        if e < |front| { assert front[e] == parts[e]; }
      }
      if e :| 0 <= e < |front| && x in front[e] { assert parts[e] == front[e]; }
    }
  }

  /** Bit n is one of those drawn for the entry, one draw for each bit of its column. */
  ghost predicate Drawn(c: Config, e: Entry, n: nat)
    requires Usable(c, e)
  {
    DrawnFrom(MySrand(ValueSeed(e.attno, e.hash)), c.bitSize[e.attno], c.words * WORDBITS, n)
  }

  lemma EntryDraws(c: Config, e: Entry, n: nat)
    requires Usable(c, e)
    ensures n in EntryBits(c, e) <==> Drawn(c, e, n)
  {
    ValueDraws(e.attno, e.hash, c.bitSize[e.attno], c.words * WORDBITS, MySrand(ValueSeed(e.attno, e.hash)), n);
  }

  lemma ValueDraws(attno: nat, hash: int, count: nat, m: nat, state: int, n: nat)
    requires attno < 32 && 0 <= hash < 0x1_0000_0000 && m > 0 && GoodSeed(ValueSeed(attno, hash))
    requires state == MySrand(ValueSeed(attno, hash))
    ensures n in ValueBits(attno, hash, count, m) <==> DrawnFrom(state, count, m, n)
  {
    SeedState(ValueSeed(attno, hash));
    ValueBitsAre(attno, hash, count, m, state);
    DrawMember(state, count, m, n);
  }

  /** A signature has exactly the bits drawn for its entries. */
  ghost predicate SignedBy(sign: Sign, c: Config, es: seq<Entry>)
    requires AllUsable(c, es)
  {
    |sign| == c.words && forall n: nat :: HasBit(sign, n) <==> exists i :: 0 <= i < |es| && Drawn(c, es[i], n)
  }

  lemma SignDraws(c: Config, es: seq<Entry>)
    requires AllUsable(c, es)
    ensures SignedBy(SignOf(c, es), c, es)
  {
    forall n: nat ensures HasBit(SignOf(c, es), n) <==> exists i :: 0 <= i < |es| && Drawn(c, es[i], n) {
      BitsExact(Zero(c.words), AllBits(c, es), n);
      FlattenMember(Parts(c, es), n);
      forall i | 0 <= i < |es| ensures n in Parts(c, es)[i] <==> Drawn(c, es[i], n) { EntryDraws(c, es[i], n); }
    }
  }

  /** The loop that both BloomFormTuple (over the columns that are not null) and the start of a
      scan (over the keys) run on a zeroed signature. */
  method MakeSign(gen: Generator, c: Config, es: seq<Entry>) returns (r: Sign)
    requires AllUsable(c, es)
    modifies gen
    ensures r == SignOf(c, es) && SignedBy(r, c, es)
  {
    var sign := new Word[c.words](_ => {});
    assert sign[..] == Zero(c.words);
    for i := 0 to |es|
      invariant AllUsable(c, es[..i]) && sign[..] == SignOf(c, es[..i])
    {
      SignOfStep(c, es, i);
      gen.SignValue(sign, es[i].attno, es[i].hash, c.bitSize[es[i].attno]);
    }
    assert es[..|es|] == es;
    SignDraws(c, es);
    r := sign[..];
  }

  /** If every part of q is a part of p, all bits of q are set in the signature of p. */
  lemma {:induction false} PartsSet(p: seq<seq<nat>>, q: seq<seq<nat>>, zero: Sign)
    requires Below(Flatten(p), |zero| * WORDBITS)
    requires forall i :: 0 <= i < |q| ==> q[i] in p
    ensures HasBits(SetBits(zero, Flatten(p)), Flatten(q))
    decreases |q|
  {
    if q != [] {
      var last := q[|q| - 1];
      PartsSet(p, q[..|q| - 1], zero);
      var e :| 0 <= e < |p| && p[e] == last;
      forall k | 0 <= k < |last| ensures HasBit(SetBits(zero, Flatten(p)), last[k]) {
        var i := FlattenHas(p, e, k);
        BitsStay(zero, Flatten(p), last[k]);
      }
    }
  }

  lemma PartsCover(p: seq<seq<nat>>, q: seq<seq<nat>>, words: nat)
    requires Below(Flatten(p), words * WORDBITS) && Below(Flatten(q), words * WORDBITS)
    requires forall i :: 0 <= i < |q| ==> q[i] in p
    ensures Covers(SetBits(Zero(words), Flatten(p)), SetBits(Zero(words), Flatten(q)))
  {
    PartsSet(p, q, Zero(words));
    CoversBits(SetBits(Zero(words), Flatten(p)), Zero(words), Flatten(q));
  }

  lemma PartsAmong(c: Config, cols: seq<Entry>, keys: seq<Entry>)
    requires AllUsable(c, cols) && AllUsable(c, keys)
    requires forall i :: 0 <= i < |keys| ==> keys[i] in cols
    ensures forall i :: 0 <= i < |Parts(c, keys)| ==> Parts(c, keys)[i] in Parts(c, cols)
  {
    forall i | 0 <= i < |keys| ensures Parts(c, keys)[i] in Parts(c, cols) {
      var j :| 0 <= j < |cols| && cols[j] == keys[i];
      assert Parts(c, cols)[j] == Parts(c, keys)[i];
    }
  }

  /** No false negatives: a tuple passes the test for every scan whose keys are among its columns. */
  lemma EqualColumnsMatch(c: Config, cols: seq<Entry>, keys: seq<Entry>)
    requires AllUsable(c, cols) && AllUsable(c, keys)
    requires forall i :: 0 <= i < |keys| ==> keys[i] in cols
    ensures Covers(SignOf(c, cols), SignOf(c, keys))
  {
    PartsAmong(c, cols, keys);
    assert Below(AllBits(c, cols), c.words * WORDBITS) && Below(AllBits(c, keys), c.words * WORDBITS);
    PartsCover(Parts(c, cols), Parts(c, keys), c.words);
  }
}
