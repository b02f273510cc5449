/** Conversions between byte-sized numbers and bit-vectors. */
module Bits {
  lemma ByteRound(n: nat)
    requires n < 256
    ensures (n as bv8) as int == n
  {
  }

  lemma ByteWiden(b: bv8)
    ensures (b as bv64) as bv8 == b && (b as bv64) < 256
  {
  }
}
