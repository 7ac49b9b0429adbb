/** The fixed-width C types and constants the modelled sources use, and an optional value. */
module CTypes {
  type uint8 = x: int | 0 <= x < 0x100
  type uint16 = x: int | 0 <= x < 0x1_0000
  type uint32 = x: int | 0 <= x < 0x1_0000_0000
  type int32 = x: int | -0x8000_0000 <= x < 0x8000_0000

  const WRAP := 0x1_0000_0000
  const INT_MAX := 0x7fff_ffff
  const PAGE_SIZE := 4096

  /** What an `int` holds after 32-bit arithmetic came to x. */
  function AsInt32(x: int): int32 {
    if x % WRAP <= INT_MAX then x % WRAP else x % WRAP - WRAP
  }

  datatype Option<+T> = None | Some(value: T)
}
