/** The two views of an unsigned char: a bit pattern, and a number. */
module Bytes {

  type byte = bv8

  newtype uint8 = x: int | 0 <= x < 0x100
}
