/** The failure-carrying datatypes and the machine word that the other modules share. */
module Wrappers {
  datatype Option<+T> = None | Some(value: T)

  datatype Result<+T, +E> = Ok(value: T) | Err(error: E)

  /** One past the largest 64-bit word. */
  const U64: nat := 0x1_0000_0000_0000_0000
}
