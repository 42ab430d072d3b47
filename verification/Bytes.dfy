/** The types that every module shares. */
module Bytes {
  type byte = bv8

  type u64 = x: int | 0 <= x < 0x1_0000_0000_0000_0000

  datatype Option<+T> = None | Some(value: T)
}
