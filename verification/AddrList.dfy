/** Device addresses and the address lists that mwifi.c and mupgrade_root.c shrink in place. */
module AddrList {
  import opened Bytes

  datatype Addr = Addr(a0: Byte, a1: Byte, a2: Byte, a3: Byte, a4: Byte, a5: Byte)

  const ADDR_LEN := 6
  const ADDR_ANY := Addr(0xFF, 0xFF, 0xFF, 0xFF, 0xFF, 0xFF)
  const ADDR_BROADCAST := Addr(0xFF, 0xFF, 0xFF, 0xFF, 0xFF, 0xFE)

  /** list without its first occurrence of a. */
  function RemoveFirst(list: seq<Addr>, a: Addr): (r: seq<Addr>)
    ensures a !in list ==> r == list
    ensures a in list ==> |r| == |list| - 1
  {
    if list == [] then []
    else if list[0] == a then list[1..]
    else [list[0]] + RemoveFirst(list[1..], a)
  }

  lemma {:induction false} RemoveFirstMultiset(list: seq<Addr>, a: Addr)
    ensures multiset(RemoveFirst(list, a)) == multiset(list) - multiset{a}
  {
    if list == [] {
    } else {
      assert list == [list[0]] + list[1..];
      if list[0] != a {
        RemoveFirstMultiset(list[1..], a);
      }
    }
  }

  lemma {:induction false} RemoveFirstAt(list: seq<Addr>, a: Addr, i: nat)
    requires i < |list| && list[i] == a && a !in list[..i]
    ensures RemoveFirst(list, a) == list[..i] + list[i + 1..]
  {
    if i == 0 {
    } else {
      assert list[0] in list[..i];
      assert list[..i] == [list[0]] + list[1..][..i - 1];
      RemoveFirstAt(list[1..], a, i - 1);
    }
  }

  /** memcpy of n addresses one place down. */
  method ShiftDown(list: array<Addr>, i: nat, n: nat)
    requires i + n + 1 <= list.Length
    modifies list
    ensures forall k :: 0 <= k < list.Length ==> list[k] == old(if i <= k < i + n then list[k + 1] else list[k])
  {
    var j := 0;
    while j < n
      invariant 0 <= j <= n
      invariant forall k :: 0 <= k < list.Length ==> list[k] == old(if i <= k < i + j then list[k + 1] else list[k])
    {
      list[i + j] := list[i + j + 1];
      j := j + 1;
    }
  }

  /** The found case: the count drops by one and the tail moves down unless nothing is left. */
  method RemoveAt(list: array<Addr>, num: nat, i: nat) returns (left: nat)
    requires i < num <= list.Length
    modifies list
    ensures left == num - 1
    ensures list[..left] == old(list[..num])[..i] + old(list[..num])[i + 1..]
    ensures forall k :: num <= k < list.Length ==> list[k] == old(list[k])
  {
    left := num - 1;
    if left > 0 {
      ShiftDown(list, i, left - i);
    }
  }

  /** addrs_remove: the list is the first num entries of the array; the count shrinks by one and the
      tail moves down when a is found. */
  method AddrsRemove(list: array<Addr>, num: nat, a: Addr) returns (found: bool, left: nat)
    requires num <= list.Length
    modifies list
    ensures left <= num
    ensures found <==> a in old(list[..num])
    ensures list[..left] == RemoveFirst(old(list[..num]), a)
    ensures forall k :: num <= k < list.Length ==> list[k] == old(list[k])
  {
    ghost var was := list[..num];
    var i := 0;
    while i < num && list[i] != a
      modifies {}
      invariant 0 <= i <= num
      invariant a !in was[..i]
    {
      i := i + 1;
    }
    if i == num {
      return false, num;
    }
    RemoveFirstAt(was, a, i);
    left := RemoveAt(list, num, i);
    found := true;
  }
}
