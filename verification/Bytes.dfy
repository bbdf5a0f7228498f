/** The type of a byte. */
module Bytes {
  type Byte = x: int | 0 <= x < 0x100
}
