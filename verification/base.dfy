/** Vocabulary shared by every part of the ledger model: an optional value
    standing for a C pointer that may be NULL, the fixed-width integer bounds
    the C code relies on, and C's truncating division. */
module Base {

  /** A value that may be absent; `None` plays the part of a NULL return. */
  datatype Option<T> = None | Some(value: T)

  const INT64_MIN: int := -0x8000_0000_0000_0000
  const INT64_MAX: int := 0x7FFF_FFFF_FFFF_FFFF
  const INT_MIN: int := -0x8000_0000
  const INT_MAX: int := 0x7FFF_FFFF
  const UINT64_MOD: int := 0x1_0000_0000_0000_0000

  predicate IsInt64(x: int) { INT64_MIN <= x <= INT64_MAX }
  predicate IsInt(x: int) { INT_MIN <= x <= INT_MAX }

  function Abs(x: int): nat { if x < 0 then -x else x }

  /** C's `a / b` for a positive divisor: the quotient is truncated toward
      zero, unlike Dafny's `/`, which rounds toward negative infinity. */
  function CDiv(a: int, b: int): int
    requires b > 0
  {
    if a >= 0 then a / b else -((-a) / b)
  }

  /** C's `a % b` for a positive divisor: the remainder has the sign of `a`. */
  function CMod(a: int, b: int): int
    requires b > 0
  {
    a - b * CDiv(a, b)
  }
}
