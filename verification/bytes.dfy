/** Fixed-width unsigned integers of the C structures exchanged with the kernel. */
module Bytes {
  type Byte = x: int | 0 <= x < 0x100
  type Uint16 = x: int | 0 <= x < 0x1_0000
  type Uint32 = x: int | 0 <= x < 0x1_0000_0000
}
