/** Small shared vocabulary. */
module Basics {
  datatype Option<+T> = None | Some(value: T)

  const UINT32_SIZE := 0x1_0000_0000
  const HARDENED := 0x8000_0000

  /** A Go uint32. */
  type uint32 = n: int | 0 <= n < UINT32_SIZE
}
