/** Conversions between small naturals and bytes. */
module Bytes {
  /** A natural number below 256 survives the round trip through a byte. */
  lemma ByteValue(n: nat)
    requires n < 256
    ensures (n as bv8) as int == n
  {
  }
}
