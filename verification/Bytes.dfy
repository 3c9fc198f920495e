/** Bytes as the C code sees them through `unsigned char`. */
module Bytes {

  type byte = b: int | 0 <= b < 256

  const NUL: byte := 0
  const NEWLINE: byte := 10

  const INT_MAX: int := 0x7fff_ffff

  /** A C string's contents: everything before the terminating NUL. */
  predicate NoNul(s: seq<byte>) {
    NUL !in s
  }
}
