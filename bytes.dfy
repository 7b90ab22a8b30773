/** Byte strings, as Python's `bytes`. */
module Bytes {

  newtype byte = x: int | 0 <= x < 256

  /** Python's `content.startswith(prefix)` on bytes. */
  predicate StartsWith(content: seq<byte>, prefix: seq<byte>) {
    |prefix| <= |content| && content[..|prefix|] == prefix
  }
}
