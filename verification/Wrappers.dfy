/** Definitions shared by the modules. */
module Wrappers {
  datatype Option<+T> = None | Some(value: T)

  type u8 = x: nat | x < 0x100
  type u32 = x: nat | x < 0x1_0000_0000

  function Min(a: int, b: int): int {
    if a < b then a else b
  }

  function Max(a: int, b: int): int {
    if a > b then a else b
  }
}
