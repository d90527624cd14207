/** Bytes as bit vectors, for code that works on their bits. */
module Octets {
  type Octet = bv8
}
