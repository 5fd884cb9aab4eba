/** Fixed-width words, bytes, error numbers and the option type the other modules share. */
module Basics {

  const TWO64: int := 0x1_0000_0000_0000_0000

  type u16 = x: int | 0 <= x < 0x1_0000
  type u32 = x: int | 0 <= x < 0x1_0000_0000
  type u64 = x: int | 0 <= x < 0x1_0000_0000_0000_0000

  type byte = bv8

  function Zeros(n: nat): (z: seq<byte>)
    ensures |z| == n && forall i :: 0 <= i < n ==> z[i] == 0
  {
    seq(n, _ => 0)
  }

  datatype Option<+T> = None | Some(value: T)

  const ENOENT: int := 2
  const EIO: int := 5
  const EAGAIN: int := 11
  const ENOMEM: int := 12
  const ERANGE: int := 34
  const ECONNRESET: int := 104
  const ENOTCONN: int := 107
  const ESTALE: int := 116

  /** The 64-bit word left of an integer after wrap-around. */
  function Wrap(x: int): (w: u64) {
    x % 0x1_0000_0000_0000_0000
  }
}
