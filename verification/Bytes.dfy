/** Bytes as numbers, shared by every component that works on raw memory or text. */
module Bytes {
  type Byte = x: int | 0 <= x < 256
  type Bytes = seq<Byte>
}
