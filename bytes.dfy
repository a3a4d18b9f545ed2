/** Octets, as in a `Uint8Array`. */
module Bytes {

  type byte = x: int | 0 <= x < 256
}
