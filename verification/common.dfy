/** Small shared vocabulary: an optional value and a byte. */
module Common {

  /** NULL-or-value, for the C functions that return a pointer or NULL. */
  datatype Option<+T> = None | Some(value: T)

  /** An 8-bit unsigned quantity, as memory is read byte by byte. */
  type byte = x: int | 0 <= x < 256

  /** 2^32 and 2^64: the moduli of C's `unsigned int` and `size_t`/`uintptr_t` arithmetic. */
  const U32: nat := 0x1_0000_0000
  const U64: nat := 0x1_0000_0000_0000_0000
}
