/** What several modules share. */
module Wrappers {
  datatype Option<+T> = None | Some(value: T)

  // The values a 64-bit word can hold are those below.
  const U64: nat := 0x1_0000_0000_0000_0000
}
