/** Bytes, and 16-bit numbers in network order. */
module Octets {
  newtype Byte = x: int | 0 <= x < 256
  type Bytes = seq<Byte>

  function U16(hi: Byte, lo: Byte): nat { (hi as nat) * 256 + lo as nat }

  function TwoBytes(n: nat): (r: Bytes)
    requires n < 0x1_0000
    ensures |r| == 2 && U16(r[0], r[1]) == n
  {
    [(n / 256) as Byte, (n % 256) as Byte]
  }

  lemma TwoBytesOf(hi: Byte, lo: Byte)
    ensures U16(hi, lo) < 0x1_0000 && TwoBytes(U16(hi, lo)) == [hi, lo]
  {
  }
}
