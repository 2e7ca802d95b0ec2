/** Word-level helpers shared by the oracles, on `bv32`/`bv64`: single-bit tests, the
    subset test `flags & mask == mask`, Rust's `count_ones` and `leading_zeros`, and
    rotations whose amount is reduced modulo the width as Rust does. */
module Bits {
  import opened Saturating

  // ---------------------------------------------------------------- single bits and masks

  /** Bit `i` of a 32-bit word. */
  predicate Bit32(x: bv32, i: nat)
    requires i < 32
  {
    x & (1 << i) != 0
  }

  // ---------------------------------------------------------------- popcount and leading zeros

  /** Number of set bits among bits `i..31`. */
  function PopCountFrom32(x: bv32, i: nat): (r: nat)
    requires i <= 32
    ensures r <= 32 - i
    decreases 32 - i
  {
    if i == 32 then 0 else (if Bit32(x, i) then 1 else 0) + PopCountFrom32(x, i + 1)
  }

  /** Rust's `u32::count_ones`. */
  function PopCount32(x: bv32): (r: nat)
    ensures r <= 32
  {
    PopCountFrom32(x, 0)
  }

  /** Rust's `u32::leading_zeros`: the number of zero bits above the highest set bit. */
  function LeadingZeros32(x: bv32): (r: nat)
    ensures r <= 32
    ensures forall i :: 32 - r <= i < 32 ==> !Bit32(x, i)
    ensures r < 32 ==> Bit32(x, 31 - r)
  {
    LeadingZerosBelow(x, 32)
  }

  /** Zero bits counted downward from bit `top - 1`. */
  function LeadingZerosBelow(x: bv32, top: nat): (r: nat)
    requires top <= 32
    ensures r <= top
    ensures forall i :: top - r <= i < top ==> !Bit32(x, i)
    ensures r < top ==> Bit32(x, top - 1 - r)
    decreases top
  {
    if top == 0 then 0
    else if Bit32(x, top - 1) then 0
    else 1 + LeadingZerosBelow(x, top - 1)
  }

  /** Bits that are all zero contribute nothing to the count. */
  lemma {:induction false} PopCountOfClearBits(x: bv32, i: nat, top: nat)
    requires i <= top <= 32
    requires forall j :: top <= j < 32 ==> !Bit32(x, j)
    ensures PopCountFrom32(x, i) <= top - i
    decreases 32 - i
  {
    if i < 32 {
      if i == top {
        PopCountOfClearBits(x, i + 1, top + 1);
      } else {
        PopCountOfClearBits(x, i + 1, top);
      }
    }
  }

  /** A word with `k` leading zeros has at most `32 - k` set bits. */
  lemma PopCountPlusLeadingZeros(x: bv32)
    ensures PopCount32(x) + LeadingZeros32(x) <= 32
  {
    PopCountOfClearBits(x, 0, 32 - LeadingZeros32(x));
  }

  // ---------------------------------------------------------------- rotations

  /** Rust's `u32::rotate_left`, whose amount is taken modulo 32. */
  function RotateLeft32(x: bv32, k: nat): bv32 {
    x.RotateLeft(k % 32)
  }

  /** Rust's `u64::rotate_left` on an unsigned number; the amount is taken modulo 64. */
  function RotateLeftU64(w: uint64, k: nat): uint64 {
    (w as bv64).RotateLeft(k % 64) as int
  }

  /** Rust's `u64::rotate_right` on an unsigned number; the amount is taken modulo 64. */
  function RotateRightU64(w: uint64, k: nat): uint64 {
    (w as bv64).RotateRight(k % 64) as int
  }

  // ---------------------------------------------------------------- conversions

  /** A 32-bit word read as an unsigned integer (`as u32`, or `as u64` after widening). */
  function Unsigned32(x: bv32): uint32 {
    x as int
  }

  // ---------------------------------------------------------------- big integers

  /** The lowest base-2^64 digit of a big integer (`to_u64_digits()[0]`), or 0 when the digit
      list is empty, which it is exactly for 0. */
  function LowDigit64(v: nat): (r: uint64)
    ensures r == v % 0x1_0000_0000_0000_0000
  {
    if v == 0 then 0 else v % 0x1_0000_0000_0000_0000
  }
}

/** The subset test `flags & mask == mask` used by three of the oracles. */
module Masks {
  /** `flags & mask == mask`, the subset test of three of the oracles. */
  predicate HasAllBits(flags: bv32, mask: bv32) {
    flags & mask == mask
  }

  /** The subset test holds exactly when no bit of `mask` is missing from `flags`. */
  lemma HasAllBitsMeansNoMissingBit(flags: bv32, mask: bv32)
    ensures HasAllBits(flags, mask) <==> mask & !flags == 0
  {
    if HasAllBits(flags, mask) {
      NoBitMissing(flags, mask);
    }
    if mask & !flags == 0 {
      NoBitMissingMeansHasAllBits(flags, mask);
    }
  }

  lemma NoBitMissing(flags: bv32, mask: bv32)
    requires flags & mask == mask
    ensures mask & !flags == 0
  {
  }

  lemma NoBitMissingMeansHasAllBits(flags: bv32, mask: bv32)
    requires mask & !flags == 0
    ensures flags & mask == mask
  {
  }

  /** Requiring the union of two masks is requiring each of them. */
  lemma HasAllBitsOfUnion(flags: bv32, m1: bv32, m2: bv32)
    ensures HasAllBits(flags, m1 | m2) <==> HasAllBits(flags, m1) && HasAllBits(flags, m2)
  {
    if HasAllBits(flags, m1 | m2) {
      UnionSplits(flags, m1, m2);
    }
    if HasAllBits(flags, m1) && HasAllBits(flags, m2) {
      UnionJoins(flags, m1, m2);
    }
  }

  lemma UnionSplits(flags: bv32, m1: bv32, m2: bv32)
    requires flags & (m1 | m2) == m1 | m2
    ensures flags & m1 == m1 && flags & m2 == m2
  {
  }

  lemma UnionJoins(flags: bv32, m1: bv32, m2: bv32)
    requires flags & m1 == m1 && flags & m2 == m2
    ensures flags & (m1 | m2) == m1 | m2
  {
  }
}
