/** The byte type shared by the configuration strings and the loop's data. */
module Bytes {

  /** An `uint8_t`: one byte of a string, of the output stream, or one received bit. */
  type Byte = x: int | 0 <= x < 0x100
}
