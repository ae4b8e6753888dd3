/** Bytes, as the C code's unsigned chars. */
module Octets {
  newtype Byte = x: int | 0 <= x < 256
  type Bytes = seq<Byte>

  lemma SmallNumber(n: nat)
    requires n < 256
    ensures (n as bv8) as nat == n
  {
    assert n % 256 == n;
  }
}
