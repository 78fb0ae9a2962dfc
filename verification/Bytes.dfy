/** Bytes and the width of `unsigned int`. */
module Bytes {
  type byte = b: int | 0 <= b < 256

  const UINT_LIMIT := 0x1_0000_0000
}
