/** The unsigned widths the sources use. */
module Bytes {
  type Byte = bv8

  newtype uint8 = x: int | 0 <= x < 0x100

  /** seq filled with one byte, as memset leaves it. */
  function Fill(n: nat, b: Byte): (s: seq<Byte>)
    ensures |s| == n && forall i :: 0 <= i < n ==> s[i] == b
  {
    seq(n, _ => b)
  }
}
