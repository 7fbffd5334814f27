// Capacity check and index masking of the ring buffer, on the source's own
// 32-bit unsigned words. The rest of the model counts indices in `nat` with
// `% capacity`; the lemmas here are what justify that reading of `& ring_mask`.

module Mask {

  /** The `IS_POWER_OF_TWO` macro exactly as written: `(n & (n - 1)) == 0` on uint32. */
  predicate IsPowerOfTwoMacro(n: bv32)
    ensures IsPowerOfTwoMacro(n) <==> n == 0 || n in PowersOfTwo()
  {
    n & (n - 1) == 0
  }

  /** The 32 powers of two that fit in 32 bits. */
  function PowersOfTwo(): set<bv32>
  {
    {
     1, 2, 4, 8, 16, 32, 64, 128,
     256, 512, 1024, 2048, 4096, 8192, 16384, 32768,
     0x10000, 0x20000, 0x40000, 0x80000, 0x100000, 0x200000, 0x400000, 0x800000,
     0x1000000, 0x2000000, 0x4000000, 0x8000000, 0x10000000, 0x20000000, 0x40000000, 0x80000000
    }
  }

  /**
   * The capacity check that was evidently intended: a power of two that is not zero.
   * `ringbuffer_init` asserts only the macro, which also lets 0 through.
   */
  predicate ValidCapacity(n: bv32)
    ensures ValidCapacity(n) <==> n in PowersOfTwo()
  {
    n != 0 && IsPowerOfTwoMacro(n)
  }

  /** One index step, `(i + 1) & ring_mask`. */
  function MaskedAdvance(i: bv32, mask: bv32): (j: bv32)
    ensures j <= mask && j & mask == j
  {
    (i + 1) & mask
  }

  /**
   * As written, the macro accepts 0. The mask is then 0xFFFFFFFF and the first
   * put advances the write index to 1, past the end of a zero-byte storage area.
   */
  lemma MacroAcceptsZero()
    ensures IsPowerOfTwoMacro(0)
    ensures !ValidCapacity(0)
    ensures (0 as bv32) - 1 == 0xFFFF_FFFF
    ensures MaskedAdvance(0, (0 as bv32) - 1) == 1
  {
  }

  /** Every power of two that fits in 32 bits passes the corrected check. */
  lemma PowersOfTwoAreValid(k: bv32)
    requires k < 32
    ensures ValidCapacity(1 << k)
  {
  }

  /** Masking leaves a value below a valid capacity unchanged. */
  lemma MaskKeepsSmall(y: bv32, cap: bv32)
    requires ValidCapacity(cap) && y < cap
    ensures y & (cap - 1) == y
  {
  }

  /** A valid capacity is at most 2^31, the largest power of two in 32 bits. */
  lemma ValidCapacityAtMostHalf(cap: bv32)
    requires ValidCapacity(cap)
    ensures cap <= 0x8000_0000
  {
  }

  /**
   * Masking cannot tell two words apart that differ by one capacity. With
   * `d == head - tail` (wrapped) and `r == head + cap - tail`, this is why
   * `(head - tail) & ring_mask` is the live count `(head - tail) mod cap`.
   */
  lemma MaskIgnoresCap(d: bv32, r: bv32, cap: bv32)
    requires ValidCapacity(cap) && d == r - cap
    ensures d & (cap - 1) == r & (cap - 1)
  {
  }

  /** For a valid capacity, one step from a slot stays in `[0, cap)` and wraps only from the last slot. */
  lemma AdvanceWraps(i: bv32, cap: bv32)
    requires ValidCapacity(cap) && i < cap
    ensures MaskedAdvance(i, cap - 1) < cap
    ensures MaskedAdvance(i, cap - 1) == if i == cap - 1 then 0 else i + 1
  {
  }
}
