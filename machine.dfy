/**
 * The few pieces of Rust's integer semantics the rest of the model needs.
 *
 * Values of type `u64` are the naturals below 2^64. Arithmetic that leaves
 * that range panics in a debug build; the model writes such a panic as
 * `None`, so a computation that would panic returns `None` and one that
 * finishes returns `Some` of its value.
 */
module Machine {

  /** 2^64, one more than the largest `u64`. */
  const TWO_TO_THE_64: nat := 0x1_0000_0000_0000_0000

  /** Rust's `u64`. */
  type U64 = x: int | 0 <= x < 0x1_0000_0000_0000_0000

  /** The outcome of an operation that may panic: `None` is the panic. */
  datatype Option<+T> = None | Some(value: T)

  /** `a * b` on `u64`, panicking on overflow. */
  function CheckedMul(a: U64, b: U64): Option<U64>
  {
    if a * b < TWO_TO_THE_64 then Some(a * b) else None
  }

  /** `a - b` on `u64`, panicking when the difference would be negative. */
  function CheckedSub(a: U64, b: U64): Option<U64>
  {
    if b <= a then Some(a - b) else None
  }

  /** `a / b` on `u64`, panicking on division by zero (it never overflows). */
  function CheckedDiv(a: U64, b: U64): Option<U64>
  {
    if b == 0 then None else Some(a / b)
  }
}
