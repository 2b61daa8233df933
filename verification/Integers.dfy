/** The fixed-width integers of the source. */
module Integers {
  const UINT32: nat := 0x1_0000_0000
  const UINT64: nat := 0x1_0000_0000_0000_0000

  type uint32 = x: int | 0 <= x < UINT32
  type uint64 = x: int | 0 <= x < UINT64
}
