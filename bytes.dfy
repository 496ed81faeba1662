/** Octets, as the drafts' `u8` and Python's `bytes` elements. */
module Bytes {

  type byte = x: int | 0 <= x < 256
}
