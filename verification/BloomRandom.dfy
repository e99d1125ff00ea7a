/** The random number generator of the bloom index, with its 32-bit arithmetic. */
module BloomRandom {
  import opened Machine

  const P := 0x7fff_ffff

  /** C division and remainder: truncation toward zero. */
  function Div(a: int, b: int): int
    requires b > 0
  {
    if a >= 0 then a / b else -((-a) / b)
  }

  function Rem(a: int, b: int): int
    requires b > 0
  {
    a - b * Div(a, b)
  }

  /** The new state that myRand computes from the old one; myRand returns one less. */
  function MyRand(next: int): int {
    var hi, lo := Div(next, 127773), Rem(next, 127773);
    var x := 16807 * lo - 2836 * hi;
    if x < 0 then x + P else x
  }

  lemma SplitState(next: int)
    requires -P < next < P
    ensures var hi, lo := Div(next, 127773), Rem(next, 127773);
            next == 127773 * hi + lo && -16807 <= hi <= 16807 && -127772 <= lo <= 127772 &&
            if next >= 0 then hi >= 0 && lo >= 0 else hi <= 0 && lo <= 0
  {
  }

  /** The difference vanishes for the zero state only: 16807 and 2836 are coprime. */
  lemma DifferenceNotZero(hi: int, lo: int)
    requires -16807 <= hi <= 16807 && -127772 <= lo <= 127772 && 16807 * lo == 2836 * hi
    requires -P < 127773 * hi + lo < P
    ensures 127773 * hi + lo == 0
  {
    var k := 5790 * lo - 977 * hi;
    assert hi == 16807 * k;
  }

  lemma RemainderIs(a: int, q: int, r: int)
    requires a == P * q + r && 0 <= r < P
    ensures a % P == r
  {
  }

  /** The split computation is the multiplication modulo 2^31 - 1, no intermediate value leaves
      32 bits, and from a state that is not zero the new one is not zero either. */
  lemma MyRandMultiplies(next: int)
    requires -P < next < P
    ensures IsInt32(16807 * Rem(next, 127773)) && IsInt32(2836 * Div(next, 127773))
    ensures IsInt32(16807 * Rem(next, 127773) - 2836 * Div(next, 127773))
    ensures MyRand(next) == (16807 * next) % P
    ensures if next == 0 then MyRand(next) == 0 else 1 <= MyRand(next) <= P - 1
  {
    var hi, lo := Div(next, 127773), Rem(next, 127773);
    var x := 16807 * lo - 2836 * hi;
    SplitState(next);
    if x == 0 { DifferenceNotZero(hi, lo); }
    RemainderIs(16807 * next, if x < 0 then hi - 1 else hi, MyRand(next));
  }

  /** The state after k calls. */
  function Run(next: int, k: nat): int { if k == 0 then next else MyRand(Run(next, k - 1)) }

  function Pow(b: int, k: nat): int { if k == 0 then 1 else b * Pow(b, k - 1) }

  /** Any run from a usable state stays usable, and is the power sequence modulo 2^31 - 1. */
  lemma {:induction false} RunMultiplies(next: int, k: nat)
    requires 1 <= next <= P - 1
    ensures 1 <= Run(next, k) <= P - 1 && Run(next, k) == (Pow(16807, k) * next) % P
    decreases k
  {
    if k == 0 {
      RemainderIs(next, 0, next);
    } else {
      RunMultiplies(next, k - 1);
      var s, y := Run(next, k - 1), Pow(16807, k - 1) * next;
      MyRandMultiplies(s);
      assert Pow(16807, k) * next == 16807 * y;
      MultiplyRemainder(y, s);
    }
  }

  lemma MultiplyRemainder(y: int, s: int)
    requires s == y % P
    ensures (16807 * s) % P == (16807 * y) % P
  {
    var q, r := (16807 * s) / P, (16807 * s) % P;
    RemainderIs(16807 * y, 16807 * (y / P) + q, r);
  }

  // ----- seeding -----

  function ToInt32(u: int): int { if u < 0x8000_0000 then u else u - 0x1_0000_0000 }

  /** mySrand on an unsigned 32-bit seed. */
  function MySrand(seed: int): int
    requires 0 <= seed < 0x1_0000_0000
  {
    Rem(ToInt32(seed), 0x7fff_fffe) + 1
  }

  /** Seeding leaves the signed seed, reduced toward zero by 2^31 - 2, plus one. */
  lemma SrandIs(seed: int)
    requires 0 <= seed < 0x1_0000_0000
    ensures var s, r := (if seed < 0x8000_0000 then seed else seed - 0x1_0000_0000), MySrand(seed) - 1;
      (s - r) % 0x7fff_fffe == 0 && (if s >= 0 then 0 <= r < 0x7fff_fffe else -0x7fff_fffe < r <= 0)
  {
  }

  /** The range the source documents for a seeded state is met exactly by these seeds. */
  lemma DocumentedRangeIff(seed: int)
    requires 0 <= seed < 0x1_0000_0000
    ensures 1 <= MySrand(seed) <= P - 1 <==> seed < 0x8000_0000 || seed == 0x8000_0002
  {
  }

  predicate GoodSeed(seed: int) { seed != 0x8000_0001 && seed != 0xffff_ffff }

  /** Every number drawn after seeding is in the documented range 0 .. 2^31 - 3 exactly when the
      seed is not one of two values, for which every call returns -1. */
  lemma DrawsInRangeIff(seed: int, k: nat)
    requires 0 <= seed < 0x1_0000_0000 && k >= 1
    ensures GoodSeed(seed) ==> 0 <= Run(MySrand(seed), k) - 1 <= P - 2
    ensures !GoodSeed(seed) ==> Run(MySrand(seed), k) - 1 == -1
  {
    SeedState(seed);
    DrawFrom(MySrand(seed), k);
  }

  lemma SeedState(seed: int)
    requires 0 <= seed < 0x1_0000_0000
    ensures -P < MySrand(seed) < P && (MySrand(seed) == 0 <==> !GoodSeed(seed))
  {
  }

  lemma {:induction false} DrawFrom(next: int, k: nat)
    requires -P < next < P && k >= 1
    ensures if next == 0 then Run(next, k) == 0 else 1 <= Run(next, k) <= P - 1
    decreases k
  {
    if k == 1 {
      MyRandMultiplies(next);
      assert Run(next, 1) == MyRand(Run(next, 0));
    } else {
      DrawFrom(next, k - 1);
      MyRandMultiplies(Run(next, k - 1));
    }
  }
}
