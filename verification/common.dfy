/** Types that several components share. */
module Common {
  datatype Option<T> = None | Some(value: T)

  type Byte = x: int | 0 <= x < 256

  /** A Rust `i16`; storing into it is an obligation that the value does not overflow. */
  type I16 = x: int | -0x8000 <= x < 0x8000

  /** A Rust `u64`. */
  type U64 = x: int | 0 <= x < 0x1_0000_0000_0000_0000
}
