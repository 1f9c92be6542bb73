/** Bytes and 32-bit words as numbers. */
module Words {
  const BASE := 0x1_0000_0000
  type Word = x: int | 0 <= x < 0x1_0000_0000
  type Byte = x: int | 0 <= x < 256
}
