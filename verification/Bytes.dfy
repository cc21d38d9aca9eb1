/** Bytes as numbers. */
module Bytes {

  type Byte = b: int | 0 <= b < 256

  function Zeros(n: nat): (z: seq<Byte>)
    ensures |z| == n
  {
    seq(n, i => 0)
  }
}
