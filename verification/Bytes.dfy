/** Bytes as numbers. */
module Bytes {
  type byte = x: int | 0 <= x < 256 witness 0
}
