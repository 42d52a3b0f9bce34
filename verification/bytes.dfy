/**
  Machine-level vocabulary shared by the buffer, the integer parser, the
  prefix matcher and the request parser: unsigned bytes, 64-bit unsigned
  integers, an optional value, and the ASCII code points the parser treats
  specially.
 */
module Bytes {

  /** An `uint8_t`. */
  type uint8 = x: int | 0 <= x < 256

  const TWO_32: int := 0x1_0000_0000
  const TWO_64: int := 0x1_0000_0000_0000_0000
  const UINT32_MAX: int := TWO_32 - 1
  const UINT64_MAX: int := TWO_64 - 1

  /** An `uint64_t` (`uintmax_t` on the targets the parser is built for). */
  type uint64 = x: int | 0 <= x < 0x1_0000_0000_0000_0000

  /** A value that may be absent (an indeterminate C++ field, an unwritten
      out-parameter). */
  datatype Option<+T> = None | Some(value: T)

  const NUL: uint8 := 0
  const LF: uint8 := 10
  const CR: uint8 := 13
  const SP: uint8 := 32
  const COLON: uint8 := 58
  const DIGIT_ZERO: uint8 := 48
  const DIGIT_NINE: uint8 := 57

  /** The bytes of a string literal whose characters are all ASCII. */
  function Ascii(s: string): (b: seq<uint8>)
    requires forall i :: 0 <= i < |s| ==> s[i] < 128 as char
    ensures |b| == |s|
    ensures forall i :: 0 <= i < |s| ==> b[i] == s[i] as int
  {
    seq(|s|, i requires 0 <= i < |s| => s[i] as int)
  }

  function Min(a: int, b: int): int
  {
    if a < b then a else b
  }
}
