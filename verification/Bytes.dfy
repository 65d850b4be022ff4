/** Bytes, as file data holds them. */
module Bytes {
  newtype Byte = x: int | 0 <= x < 0x100
}
