/**
 * Alignment arithmetic of the rolling recorder.
 *
 * Every frame in the ring is rounded up to a multiple of ALIGN bytes. The
 * recorder computes the padding and the rounded-up length with bit masks on
 * unsigned C++ integers: `(ALIGN - size) & (ALIGN - 1)` on a 64-bit size_t,
 * `(ALIGN - length) & (ALIGN - 1)` and `(length + ALIGN - 1) & ~(ALIGN - 1)`
 * on a 32-bit unsigned int. Here the unsigned wrap-around is written out
 * (U32, U64) and the masks are written as remainders (MaskLow, ClearLow); the
 * bit-vector lemmas at the end show that on 32- and 64-bit words the masks
 * compute exactly these remainders.
 */
module Align {

  /** Frame alignment inside the ring; a power of two. */
  const ALIGN: nat := 16

  const TWO_32: nat := 0x1_0000_0000
  const TWO_64: nat := 0x1_0000_0000_0000_0000

  /** The largest payload whose 32-bit round-up does not wrap around. */
  const MAX_LENGTH: nat := TWO_32 - ALIGN

  /** Value of a C++ `unsigned int` expression: arithmetic modulo 2^32. */
  function U32(x: int): (r: nat)
    ensures r < TWO_32 && (x - r) % TWO_32 == 0
  {
    x % TWO_32
  }

  /** Value of a C++ `size_t` expression: arithmetic modulo 2^64. */
  function U64(x: int): (r: nat)
    ensures r < TWO_64 && (x - r) % TWO_64 == 0
  {
    x % TWO_64
  }

  /**
   * `x & (ALIGN - 1)` on an unsigned value. ALIGN is a power of two, so the
   * mask keeps the remainder modulo ALIGN (MaskIsRemainder32/64).
   */
  function MaskLow(x: nat): (r: nat)
    ensures r < ALIGN && (x - r) % ALIGN == 0
  {
    x % ALIGN
  }

  /** Reducing modulo a multiple of ALIGN keeps the remainder modulo ALIGN. */
  lemma ModMultipleOfAlign(y: int, m: nat)
    requires m > 0
    ensures (y % (ALIGN * m)) % ALIGN == y % ALIGN
  {
    var q := y / (ALIGN * m);
    var r := y % (ALIGN * m);
    assert y == ALIGN * (m * q) + r;
  }

  /** `x & ~(ALIGN - 1)`: clears the low four bits. */
  function ClearLow(x: nat): (r: nat)
    ensures r <= x && r % ALIGN == 0 && x - r < ALIGN
  {
    x - MaskLow(x)
  }

  /**
   * The padding appended after a payload of `size` bytes
   * (`(ALIGN - size) & (ALIGN - 1)` on a size_t): the least amount that brings
   * the payload to a multiple of ALIGN.
   */
  function PadOf(size: nat): (pad: nat)
    ensures pad < ALIGN
    ensures (size + pad) % ALIGN == 0
  {
    (ALIGN - size % ALIGN) % ALIGN
  }

  /** The padding as the recorder computes it, `(ALIGN - size) & (ALIGN - 1)` on a size_t. */
  function PadMask(size: nat): (pad: nat)
    ensures pad == PadOf(size)
  {
    ModMultipleOfAlign(ALIGN - size, TWO_64 / ALIGN);
    MaskLow(U64(ALIGN - size))
  }

  /** No smaller padding reaches the alignment boundary. */
  lemma PadOfIsLeast(size: nat, p: nat)
    requires (size + p) % ALIGN == 0
    ensures PadOf(size) <= p
  {
  }

  /**
   * The padding skipped after a payload that has been written out
   * (`(ALIGN - length) & (ALIGN - 1)` on a 32-bit unsigned int): it is the
   * padding that was appended after that payload.
   */
  function SkipAfterPayload(length: nat): (skip: nat)
    requires length < TWO_32
    ensures skip == PadOf(length)
  {
    ModMultipleOfAlign(ALIGN - length, TWO_32 / ALIGN);
    MaskLow(U32(ALIGN - length))
  }

  /**
   * The rounded-up payload length skipped when a frame is evicted or discarded
   * (`(length + ALIGN - 1) & ~(ALIGN - 1)` on a 32-bit unsigned int): payload
   * plus the padding that was appended after it, unless the sum wraps around.
   */
  function RoundUp(length: nat): (r: nat)
    requires length < TWO_32
    ensures length <= MAX_LENGTH ==> r == length + PadOf(length)
  {
    ClearLow(U32(length + ALIGN - 1))
  }

  /** On a 64-bit word, `x & (ALIGN - 1)` is the remainder modulo ALIGN. */
  lemma MaskIsRemainder64(x: bv64)
    ensures x & 15 == x % 16
  {
  }

  /** On a 32-bit word, `x & (ALIGN - 1)` is the remainder modulo ALIGN. */
  lemma MaskIsRemainder32(x: bv32)
    ensures x & 15 == x % 16
  {
  }

  /** On a 32-bit word, `x & ~(ALIGN - 1)` subtracts that remainder. */
  lemma ClearLowIsRoundDown(x: bv32)
    ensures x & !15 == x - x % 16
  {
  }

  /** Sums and differences of multiples of ALIGN are multiples of ALIGN. */
  lemma AddAligned(x: int, y: int)
    requires x % ALIGN == 0 && y % ALIGN == 0
    ensures (x + y) % ALIGN == 0 && (x - y) % ALIGN == 0
  {
    var a, b := x / ALIGN, y / ALIGN;
    assert x == ALIGN * a && y == ALIGN * b;
    assert x + y == ALIGN * (a + b) && x - y == ALIGN * (a - b);
  }
}
