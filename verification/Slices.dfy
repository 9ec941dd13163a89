/** Cutting data into pieces of one size, the last of which may be shorter. */
module Slices {
  import opened Bytes

  function Slice(data: seq<Byte>, width: nat, k: nat): (s: seq<Byte>)
    requires k * width <= |data|
    ensures |s| <= width
  {
    if |data| - k * width <= width then data[k * width..] else data[k * width..(k + 1) * width]
  }
}
