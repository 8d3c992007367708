// Bytes as bit vectors.

module Octets {
  type Octet = bv8

  lemma OctetIs(x: nat)
    requires x < 256
    ensures (x as Octet) as int == x
  {
  }
}
