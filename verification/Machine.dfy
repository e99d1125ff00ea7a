/** Limits of the machine: 32-bit integers, and what the memory allocator grants. */
module Machine {
  const INT_MAX := 0x7fff_ffff

  predicate IsInt32(v: int) { -0x8000_0000 <= v <= INT_MAX }

  /** The largest request the allocator grants. */
  const MAX_ALLOC := 0x3fff_ffff

  /** The largest size a buffer that only ever doubles can reach. */
  const LARGEST := 0x2000_0000

  /** The sizes a buffer of 16 or 32 bytes can be doubled to. */
  predicate BufferSize(b: nat) {
    b in {0x10, 0x20, 0x40, 0x80, 0x100, 0x200, 0x400, 0x800, 0x1000, 0x2000, 0x4000, 0x8000,
          0x1_0000, 0x2_0000, 0x4_0000, 0x8_0000, 0x10_0000, 0x20_0000, 0x40_0000, 0x80_0000,
          0x100_0000, 0x200_0000, 0x400_0000, 0x800_0000, 0x1000_0000, LARGEST}
  }

  /** Doubling is refused at the largest size only. */
  lemma Doubles(b: nat)
    requires BufferSize(b)
    ensures 16 <= b <= LARGEST && (2 * b > MAX_ALLOC <==> b == LARGEST) && (b != LARGEST ==> BufferSize(2 * b))
  {
  }
}
