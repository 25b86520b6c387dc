/** Octets, as held by a Node `Buffer` or a browser `ArrayBuffer`. */
module Bytes {
  newtype byte = x: int | 0 <= x < 256
}
