/** Bytes and little-endian 16-bit numbers, shared by the byte-level components. */
module Bytes {
  type Byte = x: int | 0 <= x < 256

  function U16(lo: Byte, hi: Byte): (n: nat)
    ensures n < 65536
  {
    lo + 256 * hi
  }

  /** `(unsigned char)n` and `(unsigned char)(n >> 8)` of a non-negative number. */
  function LowByte(n: nat): Byte {
    n % 256
  }

  function HighByte(n: nat): Byte {
    n / 256 % 256
  }

  lemma {:induction false} U16RoundTrip(n: nat)
    ensures U16(LowByte(n), HighByte(n)) == n % 65536
    ensures n < 65536 ==> U16(LowByte(n), HighByte(n)) == n
  {
    var q, r := n / 256, n % 256;
    assert n == 256 * q + r;
    assert q == 256 * (q / 256) + q % 256;
    assert n == 65536 * (q / 256) + (256 * (q % 256) + r);
    assert 256 * (q % 256) + r < 65536;
  }
}
