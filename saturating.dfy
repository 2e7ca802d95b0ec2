/** Fixed-width integers and the clamping ("safe") arithmetic that every oracle uses.
    Rust's `checked_op(..).unwrap_or(LIMIT)` is modelled literally: a checked operation
    yields `None` outside the type's range and the caller substitutes a limit. */
module Saturating {

  const U32_MAX: int := 0xFFFF_FFFF
  const U64_MAX: int := 0xFFFF_FFFF_FFFF_FFFF
  const I32_MIN: int := -0x8000_0000
  const I32_MAX: int := 0x7FFF_FFFF
  const I64_MIN: int := -0x8000_0000_0000_0000
  const I64_MAX: int := 0x7FFF_FFFF_FFFF_FFFF

  type uint32 = x: int | 0 <= x <= 0xFFFF_FFFF
  type uint64 = x: int | 0 <= x <= 0xFFFF_FFFF_FFFF_FFFF
  type int32 = x: int | -0x8000_0000 <= x <= 0x7FFF_FFFF
  type int64 = x: int | -0x8000_0000_0000_0000 <= x <= 0x7FFF_FFFF_FFFF_FFFF

  datatype Option<T> = None | Some(value: T) {
    /** Rust's `unwrap_or`. */
    function UnwrapOr(default: T): T {
      match this
      case Some(v) => v
      case None => default
    }
  }

  function Min(a: int, b: int): int { if a <= b then a else b }
  function Max(a: int, b: int): int { if a >= b then a else b }
  function Abs(a: int): nat { if a < 0 then -a else a }

  /** Rust's integer `/`, which truncates toward zero (Dafny's `/` is Euclidean): the
      magnitude of the quotient is the largest whose multiple of `|b|` does not pass `|a|`,
      and a nonzero quotient is negative exactly when the signs of the operands differ. */
  function TruncDiv(a: int, b: int): (r: int)
    requires b != 0
    ensures Abs(r) * Abs(b) <= Abs(a) < (Abs(r) + 1) * Abs(b)
    ensures r == 0 || (r < 0 <==> (a < 0) != (b < 0))
  {
    var r := if (a < 0) == (b < 0) then Abs(a) / Abs(b) else -(Abs(a) / Abs(b));
    TruncatedQuotient(a, b, r);
    r
  }

  /** The quotient of the magnitudes, signed by the operands, truncates toward zero. */
  lemma TruncatedQuotient(a: int, b: int, r: int)
    requires b != 0
    requires r == if (a < 0) == (b < 0) then Abs(a) / Abs(b) else -(Abs(a) / Abs(b))
    ensures Abs(r) * Abs(b) <= Abs(a) < (Abs(r) + 1) * Abs(b)
    ensures r == 0 || (r < 0 <==> (a < 0) != (b < 0))
  {
    var x, y := Abs(a), Abs(b);
    QuotientBounds(x, y);
    assert Abs(r) == x / y;
  }

  /** The floor quotient `q` of `x` by `y` is the one with `q * y <= x < (q + 1) * y`. */
  lemma QuotientBounds(x: nat, y: nat)
    requires y > 0
    ensures (x / y) * y <= x < (x / y + 1) * y
  {
    var q := x / y;
    assert x == q * y + x % y;
    assert (q + 1) * y == q * y + y;
  }

  // ---------------------------------------------------------------- u64

  function CheckedAddU64(a: uint64, b: uint64): Option<uint64> {
    if a + b <= U64_MAX then Some(a + b) else None
  }

  function CheckedSubU64(a: uint64, b: uint64): Option<uint64> {
    if a >= b then Some(a - b) else None
  }

  function CheckedMulU64(a: uint64, b: uint64): Option<uint64> {
    if a * b <= U64_MAX then Some(a * b) else None
  }

  /** `safe_add_u64`: the exact sum, clamped at u64::MAX. */
  function SafeAddU64(a: uint64, b: uint64): (r: uint64)
    ensures r == Min(a + b, U64_MAX)
  {
    CheckedAddU64(a, b).UnwrapOr(U64_MAX)
  }

  /** `safe_sub_u64`: the difference, floored at 0. */
  function SafeSubU64(a: uint64, b: uint64): (r: uint64)
    ensures r == Max(a - b, 0)
  {
    CheckedSubU64(a, b).UnwrapOr(0)
  }

  /** `safe_mul_u64`: the exact product, clamped at u64::MAX. */
  function SafeMulU64(a: uint64, b: uint64): (r: uint64)
    ensures r == Min(a * b, U64_MAX)
    ensures a > 0 && b > 0 ==> r > 0
  {
    CheckedMulU64(a, b).UnwrapOr(U64_MAX)
  }

  /** `safe_div_u64`: division, with 0 for a zero divisor. */
  function SafeDivU64(a: uint64, b: uint64): (r: uint64)
    ensures b == 0 ==> r == 0
    ensures b != 0 ==> r * b <= a < r * b + b
  {
    if b == 0 then 0 else a / b
  }

  // ---------------------------------------------------------------- u32

  function CheckedAddU32(a: uint32, b: uint32): Option<uint32> {
    if a + b <= U32_MAX then Some(a + b) else None
  }

  function CheckedSubU32(a: uint32, b: uint32): Option<uint32> {
    if a >= b then Some(a - b) else None
  }

  function CheckedMulU32(a: uint32, b: uint32): Option<uint32> {
    if a * b <= U32_MAX then Some(a * b) else None
  }

  /** `safe_add_u32`: the exact sum, clamped at u32::MAX. */
  function SafeAddU32(a: uint32, b: uint32): (r: uint32)
    ensures r == Min(a + b, U32_MAX)
  {
    CheckedAddU32(a, b).UnwrapOr(U32_MAX)
  }

  /** `safe_sub_u32`: the difference, floored at 0. */
  function SafeSubU32(a: uint32, b: uint32): (r: uint32)
    ensures r == Max(a - b, 0)
  {
    CheckedSubU32(a, b).UnwrapOr(0)
  }

  /** `safe_mul_u32`: the exact product, clamped at u32::MAX. */
  function SafeMulU32(a: uint32, b: uint32): (r: uint32)
    ensures r == Min(a * b, U32_MAX)
  {
    CheckedMulU32(a, b).UnwrapOr(U32_MAX)
  }

  /** `safe_div_u32`: division, with 0 for a zero divisor. */
  function SafeDivU32(a: uint32, b: uint32): (r: uint32)
    ensures b == 0 ==> r == 0
    ensures b != 0 ==> r * b <= a < r * b + b
  {
    if b == 0 then 0 else a / b
  }

  // ---------------------------------------------------------------- i64

  function CheckedAddI64(a: int64, b: int64): Option<int64> {
    if I64_MIN <= a + b <= I64_MAX then Some(a + b) else None
  }

  function CheckedSubI64(a: int64, b: int64): Option<int64> {
    if I64_MIN <= a - b <= I64_MAX then Some(a - b) else None
  }

  function CheckedMulI64(a: int64, b: int64): Option<int64> {
    if I64_MIN <= a * b <= I64_MAX then Some(a * b) else None
  }

  /** `safe_add_i64`: the sum, or i64::MAX on overflow in EITHER direction. */
  function SafeAddI64(a: int64, b: int64): (r: int64)
    ensures I64_MIN <= a + b <= I64_MAX ==> r == a + b
    ensures a + b < I64_MIN || a + b > I64_MAX ==> r == I64_MAX
  {
    CheckedAddI64(a, b).UnwrapOr(I64_MAX)
  }

  /** `safe_sub_i64`: the difference, or i64::MIN on overflow in EITHER direction. */
  function SafeSubI64(a: int64, b: int64): (r: int64)
    ensures I64_MIN <= a - b <= I64_MAX ==> r == a - b
    ensures a - b < I64_MIN || a - b > I64_MAX ==> r == I64_MIN
  {
    CheckedSubI64(a, b).UnwrapOr(I64_MIN)
  }

  /** `safe_mul_i64`: the product, or i64::MAX on overflow in EITHER direction. */
  function SafeMulI64(a: int64, b: int64): (r: int64)
    ensures I64_MIN <= a * b <= I64_MAX ==> r == a * b
    ensures a * b < I64_MIN || a * b > I64_MAX ==> r == I64_MAX
  {
    CheckedMulI64(a, b).UnwrapOr(I64_MAX)
  }

  /** `safe_div_i64`: truncating division, 0 for a zero divisor. The one overflowing
      quotient, i64::MIN / -1, is excluded. */
  function SafeDivI64(a: int64, b: int64): (r: int64)
    requires !(a == I64_MIN && b == -1)
    ensures b == 0 ==> r == 0
    ensures a >= 0 && b > 0 ==> r == a / b
  {
    if b == 0 then 0 else TruncDiv(a, b)
  }

  // ---------------------------------------------------------------- i32

  function CheckedAddI32(a: int32, b: int32): Option<int32> {
    if I32_MIN <= a + b <= I32_MAX then Some(a + b) else None
  }

  function CheckedSubI32(a: int32, b: int32): Option<int32> {
    if I32_MIN <= a - b <= I32_MAX then Some(a - b) else None
  }

  function CheckedMulI32(a: int32, b: int32): Option<int32> {
    if I32_MIN <= a * b <= I32_MAX then Some(a * b) else None
  }

  /** `safe_add_i32`: the sum, or i32::MAX on overflow in either direction. */
  function SafeAddI32(a: int32, b: int32): (r: int32)
    ensures I32_MIN <= a + b <= I32_MAX ==> r == a + b
    ensures a + b < I32_MIN || a + b > I32_MAX ==> r == I32_MAX
  {
    CheckedAddI32(a, b).UnwrapOr(I32_MAX)
  }

  /** `safe_sub_i32`: the difference, or i32::MIN on overflow in either direction. */
  function SafeSubI32(a: int32, b: int32): (r: int32)
    ensures I32_MIN <= a - b <= I32_MAX ==> r == a - b
    ensures a - b < I32_MIN || a - b > I32_MAX ==> r == I32_MIN
  {
    CheckedSubI32(a, b).UnwrapOr(I32_MIN)
  }

  /** `safe_mul_i32`: the product, or i32::MAX on overflow in either direction. */
  function SafeMulI32(a: int32, b: int32): (r: int32)
    ensures I32_MIN <= a * b <= I32_MAX ==> r == a * b
    ensures a * b < I32_MIN || a * b > I32_MAX ==> r == I32_MAX
  {
    CheckedMulI32(a, b).UnwrapOr(I32_MAX)
  }

  /** `safe_div_i32`: truncating division, 0 for a zero divisor; i32::MIN / -1 excluded. */
  function SafeDivI32(a: int32, b: int32): (r: int32)
    requires !(a == I32_MIN && b == -1)
    ensures b == 0 ==> r == 0
    ensures a >= 0 && b > 0 ==> r == a / b
  {
    if b == 0 then 0 else TruncDiv(a, b)
  }
}
