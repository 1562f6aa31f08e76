/** Bytes, the wildcard characters and 16-bit big-endian numbers. */
module Bytes {
  type byte = b: int | 0 <= b < 256
  type uint16 = v: int | 0 <= v < 65536

  const HASH: byte := 0x23
  const PLUS: byte := 0x2b

  /** binary.BigEndian.PutUint16 */
  function PutUint16(v: uint16): (s: seq<byte>)
    ensures |s| == 2
  {
    [v / 256, v % 256]
  }

  /** binary.BigEndian.Uint16 */
  function Uint16(s: seq<byte>): (v: uint16)
    requires |s| >= 2
  {
    var hi: int, lo: int := s[0], s[1];
    hi * 256 + lo
  }

  lemma Uint16RoundTrip(v: uint16, rest: seq<byte>)
    ensures Uint16(PutUint16(v) + rest) == v
  {
  }
}
