/** Bytes and 32-bit words. */
module Bytes {
  type Byte = b: int | 0 <= b < 256

  const WORD := 0x1_0000_0000

  /** The same byte n times. */
  function Repeat(b: Byte, n: nat): (bytes: seq<Byte>)
    ensures |bytes| == n && forall i :: 0 <= i < n ==> bytes[i] == b
  {
    seq(n, _ => b)
  }

  /** 32-bit addition. */
  function Add32(x: int, y: int): int { (x + y) % WORD }
}
