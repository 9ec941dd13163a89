/** NOR flash: erasing sets every bit of a range, programming only clears bits. */
module Nor {
  import opened Bytes

  /** Every bit of d is still set in f: programming d over f yields d. */
  predicate Above(f: Byte, d: Byte) {
    f & d == d
  }

  /** Bytes [at, at + |d|) after programming d; kept names the bits an interrupted write did not reach. */
  function Program(f: seq<Byte>, at: nat, d: seq<Byte>, kept: seq<Byte>): (g: seq<Byte>)
    requires at + |d| <= |f| && |kept| == |d|
    ensures |g| == |f|
    ensures forall i :: 0 <= i < |f| && !(at <= i < at + |d|) ==> g[i] == f[i]
    ensures forall i :: at <= i < at + |d| ==> g[i] == f[i] & (d[i - at] | kept[i - at])
  {
    seq(|f|, i requires 0 <= i < |f| => if at <= i < at + |d| then f[i] & (d[i - at] | kept[i - at]) else f[i])
  }

  /** [at, at + n) erased, the rest as it was. */
  function Erase(f: seq<Byte>, at: nat, n: nat): (g: seq<Byte>)
    requires at + n <= |f|
    ensures |g| == |f|
    ensures forall i :: 0 <= i < |f| ==> g[i] == if at <= i < at + n then 0xFF else f[i]
  {
    f[..at] + Fill(n, 0xFF) + f[at + n..]
  }

  lemma ErasedIsAbove(d: Byte)
    ensures Above(0xFF, d)
  {
  }

  /** Whatever an interrupted write reached, every bit of the intended byte is still there. */
  lemma AboveAfterProgram(f: Byte, d: Byte, kept: Byte)
    requires Above(f, d)
    ensures Above(f & (d | kept), d)
    ensures kept == 0 ==> f & (d | kept) == d
    ensures f == d ==> f & (d | kept) == d
  {
  }
}
