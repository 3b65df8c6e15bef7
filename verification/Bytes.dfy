/** Bytes, and where UTF-8 lets a character begin. */
module Bytes {

  type Byte = b: int | 0 <= b < 256

  /** Whether a byte begins a character. */
  predicate RuneStart(b: Byte) {
    !(0x80 <= b < 0xC0)
  }

  const CR: Byte := 13
  const LF: Byte := 10

  /** " …[line truncated]" in UTF-8, which marks a line or a message that was cut. */
  const TRUNCATION_NOTE: seq<Byte> := [
    0x20, 0xE2, 0x80, 0xA6, 0x5B, 0x6C, 0x69, 0x6E, 0x65, 0x20,
    0x74, 0x72, 0x75, 0x6E, 0x63, 0x61, 0x74, 0x65, 0x64, 0x5D
  ]
}
