/** Shared vocabulary of the Base62 codec: the machine word it works on, the
    error kinds `decode` reports, and the Option/Result shapes that carry them. */
module Types {

  /** `usize` is fixed at 64 bits in this model. */
  const USIZE_MAX: nat := 0xFFFF_FFFF_FFFF_FFFF

  /** A value that fits in an unsigned 64-bit machine word. */
  type Usize = n: nat | n <= USIZE_MAX

  /** The two ways decoding can fail. Equality between errors is Dafny's
      structural equality: two errors are equal exactly when they are the same
      variant. */
  datatype Base62Error =
    | NonAlphanumeric  // a character that is not one of the 62 alphabet symbols
    | Overflow         // the accumulated value does not fit in a usize

  datatype Option<+T> = None | Some(value: T)

  /** The result of a fallible lookup or of decoding; the error side is always
      a `Base62Error`. */
  datatype Result<+T> = Ok(value: T) | Err(error: Base62Error)

  /** Multiplication that reports, instead of wrapping, a product that leaves
      the usize range. */
  function CheckedMul(a: Usize, b: Usize): Option<Usize>
  {
    if a * b <= USIZE_MAX then Some(a * b) else None
  }

  /** Addition that reports, instead of wrapping, a sum that leaves the usize
      range. */
  function CheckedAdd(a: Usize, b: Usize): Option<Usize>
  {
    if a + b <= USIZE_MAX then Some(a + b) else None
  }
}
