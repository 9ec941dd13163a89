/** Multicast down the mesh tree (mwifi.c): splitting an address list among the children in place,
    forwarding at every hop, and what the nodes of any finite tree deliver.
 */
module Multicast {
  import opened Bytes
  import opened AddrList
  import opened Wrappers
  import MeshFragments

  /** The forwarding fields of the message header. */
  datatype Head = Head(self: bool, all: bool, num: nat)

  /** A node and, for each child, the subnet table the mesh stack answers with; a table may be stale. */
  datatype Mesh = Mesh(addr: Addr, links: seq<Link>)
  datatype Link = Link(child: Mesh, table: seq<Addr>)

  datatype Dest = Child(i: nat) | Peer(a: Addr)
  datatype Send = Send(to: Dest, head: Head, data: seq<Byte>)

  datatype Delivery = Delivery(at: Addr, payload: seq<Byte>)

  /** What follows when the node at an address sends a message and the tree does not determine it. Either its
      header cannot describe it: the total size is then cut to 13 bits, so a reader shrinks its buffer below
      what it has received, and what it goes on with is not determined. Or it goes directly to a node, which
      may be anywhere, and tells it to forward. */
  type Unsettled = (Addr, Send) -> multiset<Delivery>

  /** But what follows from a message too large is always less than the whole: no delivery has all of the
      payload. */
  ghost predicate Cuts(o: Unsettled) {
    forall at: Addr, send: Send, d: Delivery :: |send.data| >= SIZE_LIMIT && d in o(at, send) ==>
      ADDR_LEN * send.head.num + |d.payload| < |send.data|
  }

  /** transmit_num has 10 bits. */
  const NUM_LIMIT := 1024
  /** The total size has 13 bits. */
  const SIZE_LIMIT := 8192
  /** The payloads mwifi_root_write accepts are shorter. */
  const WRITE_LIMIT := 8096
  const ADDR_EMPTY := Addr(0, 0, 0, 0, 0, 0)

  predicate IsSpecial(a: Addr) {
    a == ADDR_ANY || a == ADDR_BROADCAST
  }

  predicate Ordinary(list: seq<Addr>) {
    ADDR_ANY !in list && ADDR_BROADCAST !in list
  }

  // ---- Addresses on the wire ----

  function Octets(a: Addr): (s: seq<Byte>)
    ensures |s| == ADDR_LEN
  {
    [a.a0, a.a1, a.a2, a.a3, a.a4, a.a5]
  }

  function Flatten(list: seq<Addr>): (s: seq<Byte>)
    ensures |s| == ADDR_LEN * |list|
  {
    if list == [] then [] else Octets(list[0]) + Flatten(list[1..])
  }

  /** The first num addresses of a received buffer. */
  function Unflatten(data: seq<Byte>, num: nat): (list: seq<Addr>)
    requires ADDR_LEN * num <= |data|
    ensures |list| == num
  {
    if num == 0 then []
    else [Addr(data[0], data[1], data[2], data[3], data[4], data[5])] + Unflatten(data[ADDR_LEN..], num - 1)
  }

  lemma {:induction false} UnflattenFlatten(list: seq<Addr>, rest: seq<Byte>)
    ensures Unflatten(Flatten(list) + rest, |list|) == list
    ensures (Flatten(list) + rest)[ADDR_LEN * |list|..] == rest
  {
    if list == [] {
    } else {
      UnflattenFlatten(list[1..], rest);
      assert (Flatten(list) + rest)[ADDR_LEN..] == Flatten(list[1..]) + rest;
    }
  }

  // ---- One node's sends ----

  /** The listed addresses found in a subnet table from entry j on, after those already picked, and
      what is left of the list. */
  function PickFrom(list: seq<Addr>, table: seq<Addr>, j: nat, picked: seq<Addr>): (r: (seq<Addr>, seq<Addr>))
    requires j <= |table|
    decreases |table| - j
  {
    if j == |table| || list == [] then (picked, list)
    else
      PickFrom(RemoveFirst(list, table[j]), table, j + 1, if table[j] in list then picked + [table[j]] else picked)
  }

  function Pick(list: seq<Addr>, table: seq<Addr>): (seq<Addr>, seq<Addr>) {
    PickFrom(list, table, 0, [])
  }

  /** Picking moves addresses; it neither drops nor copies any. */
  lemma {:induction false} PickConserves(list: seq<Addr>, table: seq<Addr>, j: nat, picked: seq<Addr>)
    requires j <= |table|
    ensures var (taken, left) := PickFrom(list, table, j, picked);
            multiset(list) + multiset(picked) == multiset(taken) + multiset(left) &&
            |list| + |picked| == |taken| + |left|
    decreases |table| - j
  {
    hide RemoveFirst;
    if j == |table| || list == [] {
    } else {
      if table[j] in list {
        RemoveFirstMultiset(list, table[j]);
        PickConserves(RemoveFirst(list, table[j]), table, j + 1, picked + [table[j]]);
        assert multiset(picked + [table[j]]) == multiset(picked) + multiset{table[j]};
      } else {
        PickConserves(list, table, j + 1, picked);
      }
    }
  }

  /** What a buffer indexed by a 10-bit counter still holds after all of picked has been written. */
  function Wrapped(picked: seq<Addr>): (kept: seq<Addr>)
    ensures |kept| < NUM_LIMIT && (|picked| < NUM_LIMIT ==> kept == picked)
  {
    if picked == [] then []
    else
      var last := |picked| - 1;
      var grown := Wrapped(picked[..last]) + [picked[last]];
      if |grown| == NUM_LIMIT then [] else grown
  }

  lemma {:induction false} WrappedOrdinary(picked: seq<Addr>)
    requires Ordinary(picked)
    ensures Ordinary(Wrapped(picked))
  {
    if picked == [] {
    } else {
      WrappedOrdinary(picked[..|picked| - 1]);
    }
  }

  function ToPeers(list: seq<Addr>, payload: seq<Byte>): (s: seq<Send>)
    ensures |s| == |list|
  {
    seq(|list|, i requires 0 <= i < |list| => Send(Peer(list[i]), Head(true, false, 0), payload))
  }

  /** What goes to child i for an address list. */
  function ToChild(links: seq<Link>, i: nat, list: seq<Addr>, payload: seq<Byte>): (sends: seq<Send>)
    requires i < |links|
    ensures sends == [] || (|sends| == 1 && sends[0].to == Child(i))
  {
    var child := links[i].child.addr;
    var kept := Wrapped(Pick(RemoveFirst(list, child), links[i].table).0);
    if child in list || kept != [] then
      [Send(Child(i), Head(child in list, false, |kept|), Flatten(kept) + payload)]
    else []
  }

  /** What a child and its subnet leave of the list. */
  function LeftBy(link: Link, list: seq<Addr>): seq<Addr> {
    Pick(RemoveFirst(list, link.child.addr), link.table).1
  }

  /** Sends for an address list, from child i on. */
  function ToListed(links: seq<Link>, i: nat, list: seq<Addr>, payload: seq<Byte>): (s: seq<Send>)
    requires i <= |links|
    decreases |links| - i
  {
    if i == |links| || list == [] then ToPeers(list, payload)
    else
      ToChild(links, i, list, payload) + ToListed(links, i + 1, LeftBy(links[i], list), payload)
  }

  /** Sends to every child, from child i on. */
  function ToAll(links: seq<Link>, i: nat, head: Head, payload: seq<Byte>): (s: seq<Send>)
    requires i <= |links|
    ensures |s| == |links| - i
    decreases |links| - i
  {
    if i == |links| then []
    else [Send(Child(i), Head(head.self, true, head.num), payload)] + ToAll(links, i + 1, head, payload)
  }

  /** What mwifi_transmit_write sends. */
  function Transmit(m: Mesh, list: seq<Addr>, head: Head, payload: seq<Byte>, isRoot: bool): (s: seq<Send>)
    requires list != []
  {
    if head.all || IsSpecial(list[0]) then
      ToAll(m.links, 0, head, payload) +
      (if list[0] == ADDR_ANY && isRoot then ToPeers([m.addr] + list[1..], payload) else [])
    else ToListed(m.links, 0, list, payload)
  }

  lemma WrappedGrows(picked: seq<Addr>, a: Addr)
    ensures Wrapped(picked + [a]) == if |Wrapped(picked)| + 1 == NUM_LIMIT then [] else Wrapped(picked) + [a]
  {
    assert (picked + [a])[..|picked|] == picked;
  }

  /** transmit_addr[transmit_num] = a; transmit_num++. */
  method Store(buffer: array<Addr>, n: nat, a: Addr) returns (next: nat)
    requires n < buffer.Length && n < NUM_LIMIT
    modifies buffer
    ensures next <= n + 1 && buffer[..next] == if n + 1 == NUM_LIMIT then [] else old(buffer[..n]) + [a]
  {
    buffer[n] := a;
    next := (n + 1) % NUM_LIMIT;
  }

  /** One subnet entry: off the list and into the transmit buffer when it is listed. */
  method PickOne(list: array<Addr>, num: nat, buffer: array<Addr>, n: nat, a: Addr, ghost picked: seq<Addr>)
    returns (left: nat, next: nat, ghost more: seq<Addr>)
    requires num <= list.Length && n < buffer.Length && n < NUM_LIMIT && list != buffer
    requires buffer[..n] == Wrapped(picked)
    modifies list, buffer
    ensures left <= num && next <= n + 1 && next < NUM_LIMIT && buffer[..next] == Wrapped(more)
    ensures list[..left] == RemoveFirst(old(list[..num]), a)
    ensures more == if a in old(list[..num]) then picked + [a] else picked
  {
    var found;
    found, left := AddrsRemove(list, num, a);
    next, more := n, picked;
    if found {
      WrappedGrows(picked, a);
      next := Store(buffer, n, a);
      more := picked + [a];
      assert |buffer[..next]| == next;
    }
  }

  lemma PickFromStep(list: seq<Addr>, table: seq<Addr>, j: nat, picked: seq<Addr>)
    requires j < |table|
    ensures PickFrom(list, table, j, picked) ==
            PickFrom(RemoveFirst(list, table[j]), table, j + 1, if table[j] in list then picked +
              [table[j]] else picked)
  {
    if list == [] {
      assert PickFrom([], table, j + 1, picked) == (picked, []);
    }
  }

  lemma PickFromEnds(list: seq<Addr>, table: seq<Addr>, j: nat, picked: seq<Addr>)
    requires j <= |table| && (j == |table| || list == [])
    ensures PickFrom(list, table, j, picked) == (picked, list)
  {
  }

  /** The loop over a subnet's entries, with the transmit buffer it fills. */
  method PickInto(list: array<Addr>, num: nat, table: seq<Addr>, buffer: array<Addr>)
    returns (left: nat, n: nat, ghost picked: seq<Addr>)
    requires num <= list.Length && buffer.Length == |table| && list != buffer
    modifies list, buffer
    ensures left <= num && n <= buffer.Length
    ensures buffer[..n] == Wrapped(picked)
    ensures (picked, list[..left]) == Pick(old(list[..num]), table)
  {
    hide PickFrom, Wrapped, RemoveFirst;
    left, n, picked := num, 0, [];
    var j: nat := 0;
    ghost var rest := list[..num];
    ghost var goal := Pick(rest, table);
    while j < |table| && left > 0
      invariant j <= |table| && left <= num && rest == list[..left]
      invariant n < NUM_LIMIT && n <= j
      invariant buffer[..n] == Wrapped(picked)
      invariant PickFrom(rest, table, j, picked) == goal
      decreases |table| - j
    {
      PickFromStep(rest, table, j, picked);
      left, n, picked := PickOne(list, left, buffer, n, table[j], picked);
      rest := RemoveFirst(rest, table[j]);
      j := j + 1;
    }
    PickFromEnds(rest, table, j, picked);
  }

  /** Removing a subnet's addresses from the list into a transmit buffer. */
  method PickInPlace(list: array<Addr>, num: nat, table: seq<Addr>) returns (kept: seq<Addr>, left: nat)
    requires num <= list.Length
    modifies list
    ensures left <= num
    ensures kept == Wrapped(Pick(old(list[..num]), table).0)
    ensures list[..left] == Pick(old(list[..num]), table).1
  {
    var buffer := new Addr[|table|](_ => ADDR_ANY);
    var n;
    ghost var picked;
    left, n, picked := PickInto(list, num, table, buffer);
    kept := buffer[..n];
  }

  /** The body of the child loop. */
  method SendToChild(m: Mesh, i: nat, list: array<Addr>, num: nat, payload: seq<Byte>)
    returns (sends: seq<Send>, left: nat)
    requires i < |m.links| && num <= list.Length
    modifies list
    ensures left <= num
    ensures sends == ToChild(m.links, i, old(list[..num]), payload) &&
            list[..left] == LeftBy(m.links[i], old(list[..num]))
  {
    var self, kept;
    self, left := AddrsRemove(list, num, m.links[i].child.addr);
    kept, left := PickInPlace(list, left, m.links[i].table);
    sends := [];
    if self || kept != [] {
      sends := [Send(Child(i), Head(self, false, |kept|), Flatten(kept) + payload)];
    }
  }

  lemma ToListedUnfolds(links: seq<Link>, i: nat, list: seq<Addr>, payload: seq<Byte>)
    requires i < |links| && list != []
    ensures ToListed(links, i, list, payload) ==
            ToChild(links, i, list, payload) + ToListed(links, i + 1, LeftBy(links[i], list), payload)
  {
  }

  lemma ConcatAssociates(a: seq<Send>, b: seq<Send>, c: seq<Send>)
    ensures a + (b + c) == (a + b) + c
  {
  }

  lemma ToListedStep(links: seq<Link>, i: nat, list: seq<Addr>, payload: seq<Byte>, sent: seq<Send>)
    requires i < |links| && list != []
    ensures sent + ToListed(links, i, list, payload) ==
            (sent + ToChild(links, i, list, payload)) + ToListed(links, i + 1, LeftBy(links[i], list), payload)
  {
    ToListedUnfolds(links, i, list, payload);
    ConcatAssociates(sent, ToChild(links, i, list, payload), ToListed(links, i + 1, LeftBy(links[i], list), payload));
  }

  /** The child loop for an address list; ends when no address or no child is left. */
  method SendToListed(m: Mesh, list: array<Addr>, num: nat, payload: seq<Byte>) returns (sends: seq<Send>, left: nat)
    requires num <= list.Length
    modifies list
    ensures left <= num
    ensures sends + ToPeers(list[..left], payload) == ToListed(m.links, 0, old(list[..num]), payload)
  {
    sends, left := [], num;
    ghost var goal := ToListed(m.links, 0, list[..num], payload);
    var i := 0;
    while i < |m.links| && left > 0
      invariant 0 <= i <= |m.links| && left <= num
      invariant sends + ToListed(m.links, i, list[..left], payload) == goal
      decreases |m.links| - i
    {
      ToListedStep(m.links, i, list[..left], payload, sends);
      var out;
      out, left := SendToChild(m, i, list, left, payload);
      sends := sends + out;
      i := i + 1;
    }
  }

  method SendToAll(m: Mesh, head: Head, payload: seq<Byte>) returns (sends: seq<Send>)
    ensures sends == ToAll(m.links, 0, head, payload)
  {
    sends := [];
    var i := 0;
    while i < |m.links|
      invariant 0 <= i <= |m.links|
      invariant sends + ToAll(m.links, i, head, payload) == ToAll(m.links, 0, head, payload)
    {
      var out := Send(Child(i), Head(head.self, true, head.num), payload);
      assert sends + ToAll(m.links, i, head, payload) == (sends + [out]) + ToAll(m.links, i + 1, head, payload);
      sends := sends + [out];
      i := i + 1;
    }
  }

  /** Direct sends to the addresses no child took. */
  method SendToPeers(list: array<Addr>, num: nat, payload: seq<Byte>) returns (sends: seq<Send>)
    requires num <= list.Length
    ensures sends == ToPeers(list[..num], payload)
  {
    sends := [];
    var i := 0;
    while i < num
      invariant 0 <= i <= num
      invariant sends == ToPeers(list[..i], payload)
    {
      sends := sends + [Send(Peer(list[i]), Head(true, false, 0), payload)];
      i := i + 1;
    }
  }

  /** mwifi_transmit_write: the list is the first num entries of the caller's array and is used up. */
  method TransmitWrite(m: Mesh, list: array<Addr>, num: nat, head: Head, payload: seq<Byte>, isRoot: bool)
    returns (sends: seq<Send>)
    requires 0 < num <= list.Length
    modifies list
    ensures sends == Transmit(m, old(list[..num]), head, payload, isRoot)
  {
    var all := head.all || IsSpecial(list[0]);
    var left := num;
    if all {
      sends := SendToAll(m, head, payload);
    } else {
      sends, left := SendToListed(m, list, num, payload);
    }
    if left > 0 && list[0] == ADDR_ANY && all && isRoot {
      list[0] := m.addr;
      assert list[..left] == [m.addr] + old(list[..num])[1..];
      all := false;
    }
    if !all {
      var direct := SendToPeers(list, left, payload);
      sends := sends + direct;
    }
  }

  // ---- What a tree delivers ----

  /** The header can describe the message: the total size has 13 bits and is not zero. */
  predicate Describable(data: seq<Byte>) {
    1 <= |data| < SIZE_LIMIT
  }

  /** What follows when a node transmits a list. */
  ghost function Forward(o: Unsettled, m: Mesh, list: seq<Addr>, head: Head, payload: seq<Byte>,
                         isRoot: bool): multiset<Delivery>
    requires list != []
    decreases m, 1, 0
  {
    Fan(o, m, Transmit(m, list, head, payload, isRoot))
  }

  ghost function Own(m: Mesh, self: bool, payload: seq<Byte>): multiset<Delivery> {
    if self then multiset{Delivery(m.addr, payload)} else multiset{}
  }

  /** A node's read of one message: forward what is to be forwarded, then deliver its own copy if it is told
      to keep one. */
  ghost function Receive(o: Unsettled, m: Mesh, head: Head, data: seq<Byte>): multiset<Delivery>
    decreases m, 2, 0
  {
    if head.all then Forward(o, m, [ADDR_BROADCAST], head, data, false) + Own(m, head.self, data)
    else if head.num == 0 then Own(m, head.self, data)
    else if ADDR_LEN * head.num > |data| then multiset{}
    else
      var list, payload := Unflatten(data, head.num), data[ADDR_LEN * head.num..];
      Forward(o, m, list, head, payload, false) + Own(m, head.self, payload)
  }

  /** Everything that follows from a node's sends. */
  ghost function Fan(o: Unsettled, m: Mesh, sends: seq<Send>): multiset<Delivery>
    decreases m, 0, |sends|
  {
    if sends == [] then multiset{}
    else
      (if sends[0].data == [] then multiset{}
       else if |sends[0].data| >= SIZE_LIMIT then o(m.addr, sends[0])
       else match sends[0].to
            case Child(i) => if i >= |m.links| then multiset{} else Receive(o, m.links[i].child, sends[0].head,
              sends[0].data)
            case Peer(a) => Direct(o, m.addr, a, sends[0]))
      + Fan(o, m, sends[1..])
  }

  /** The same read at the node a that a message is sent to directly. */
  ghost function Direct(o: Unsettled, from: Addr, a: Addr, send: Send): multiset<Delivery> {
    if send.head.all || send.head.num > 0 then o(from, send)
    else Own(Mesh(a, []), send.head.self, send.data)
  }

  /** The parameter checks of mwifi_root_write. */
  predicate Accepted(addrs: seq<Addr>, payload: seq<Byte>) {
    addrs != [] && addrs[0] != ADDR_EMPTY && 0 < |payload| < WRITE_LIMIT
  }

  /** A multicast with mwifi_root_write at the root m: its deliveries, or None for an invalid argument. */
  ghost function RootMulticast(o: Unsettled, m: Mesh, addrs: seq<Addr>,
                               payload: seq<Byte>): Option<multiset<Delivery>> {
    if Accepted(addrs, payload) then Some(Forward(o, m, addrs, Head(true, false, 0), payload, true)) else None
  }

  // ---- Exactness ----

  /** One delivery of payload for each entry of list. */
  ghost function Spread(list: seq<Addr>, payload: seq<Byte>): multiset<Delivery> {
    if list == [] then multiset{} else multiset{Delivery(list[0], payload)} + Spread(list[1..], payload)
  }

  lemma {:induction false} SpreadConcat(a: seq<Addr>, b: seq<Addr>, payload: seq<Byte>)
    ensures Spread(a + b, payload) == Spread(a, payload) + Spread(b, payload)
  {
    if a == [] {
      assert a + b == b;
    } else {
      assert (a + b)[1..] == a[1..] + b;
      SpreadConcat(a[1..], b, payload);
    }
  }

  lemma {:induction false} SpreadAfterRemove(list: seq<Addr>, a: Addr, payload: seq<Byte>)
    requires a in list
    ensures Spread(list, payload) == multiset{Delivery(a, payload)} + Spread(RemoveFirst(list, a), payload)
  {
    if list[0] == a {
    } else {
      SpreadAfterRemove(list[1..], a, payload);
      assert RemoveFirst(list, a)[1..] == RemoveFirst(list[1..], a);
    }
  }

  lemma SpreadOne(a: Addr, payload: seq<Byte>)
    ensures Spread([a], payload) == multiset{Delivery(a, payload)}
  {
    assert [a][1..] == [];
  }

  lemma RegroupPick(list: multiset<Delivery>, one: multiset<Delivery>, rest: multiset<Delivery>,
                    picked: multiset<Delivery>, more: multiset<Delivery>, all: multiset<Delivery>)
    requires list == one + rest && more == picked + one && rest + more == all
    ensures list + picked == all
  {
  }

  lemma {:induction false} SpreadAfterPick(list: seq<Addr>, table: seq<Addr>, j: nat, picked: seq<Addr>,
                                           payload: seq<Byte>)
    requires j <= |table|
    ensures var r := PickFrom(list, table, j, picked);
            Spread(list, payload) + Spread(picked, payload) == Spread(r.0, payload) + Spread(r.1, payload)
    decreases |table| - j
  {
    hide PickFrom, Spread, RemoveFirst;
    if j == |table| || list == [] {
      PickFromEnds(list, table, j, picked);
    } else {
      PickFromStep(list, table, j, picked);
      var r := PickFrom(list, table, j, picked);
      if table[j] in list {
        var rest, more := RemoveFirst(list, table[j]), picked + [table[j]];
        SpreadAfterRemove(list, table[j], payload);
        SpreadConcat(picked, [table[j]], payload);
        SpreadOne(table[j], payload);
        SpreadAfterPick(rest, table, j + 1, more, payload);
        RegroupPick(Spread(list, payload), Spread([table[j]], payload), Spread(rest, payload),
                    Spread(picked, payload), Spread(more, payload), Spread(r.0, payload) + Spread(r.1, payload));
      } else {
        RemoveUnlisted(list, table[j]);
        SpreadAfterPick(list, table, j + 1, picked, payload);
      }
    }
  }

  lemma RemoveUnlisted(list: seq<Addr>, a: Addr)
    requires a !in list
    ensures RemoveFirst(list, a) == list
  {
  }

  lemma {:induction false} FanConcat(o: Unsettled, m: Mesh, a: seq<Send>, b: seq<Send>)
    ensures Fan(o, m, a + b) == Fan(o, m, a) + Fan(o, m, b)
  {
    if a == [] {
      assert a + b == b;
    } else {
      assert (a + b)[1..] == a[1..] + b;
      FanConcat(o, m, a[1..], b);
    }
  }

  lemma {:induction false} FanToPeers(o: Unsettled, m: Mesh, list: seq<Addr>, payload: seq<Byte>)
    requires Describable(payload)
    ensures Fan(o, m, ToPeers(list, payload)) == Spread(list, payload)
  {
    if list == [] {
    } else {
      assert ToPeers(list, payload)[1..] == ToPeers(list[1..], payload);
      FanToPeers(o, m, list[1..], payload);
    }
  }

  /** The list is short enough for the header everywhere: at most 1023 addresses, and payload plus
      addresses below 8192 bytes. */
  predicate FitsHeader(list: seq<Addr>, payload: seq<Byte>) {
    |list| < NUM_LIMIT && 1 <= |payload| && |payload| + ADDR_LEN * |list| < SIZE_LIMIT
  }

  lemma PickedFits(list: seq<Addr>, table: seq<Addr>, child: Addr, payload: seq<Byte>)
    requires FitsHeader(list, payload) && Ordinary(list)
    ensures var (picked, left) := Pick(RemoveFirst(list, child), table);
            Wrapped(picked) == picked && FitsHeader(picked, payload) && FitsHeader(left, payload) &&
            Ordinary(picked) && Ordinary(left)
  {
    var l := RemoveFirst(list, child);
    PickConserves(l, table, 0, []);
    RemoveFirstMultiset(list, child);
    var (picked, left) := Pick(l, table);
    forall a | a in picked || a in left ensures a in list {
      assert a in multiset(picked) + multiset(left);
      assert a in multiset(l);
      assert a in multiset(list);
    }
  }

  lemma FanOne(o: Unsettled, m: Mesh, send: Send)
    requires send.to.Child? && send.to.i < |m.links| && Describable(send.data)
    ensures Fan(o, m, [send]) == Receive(o, m.links[send.to.i].child, send.head, send.data)
  {
    assert [send][1..] == [];
  }

  lemma Regroup(whole: multiset<Delivery>, own: multiset<Delivery>, list: multiset<Delivery>,
                picked: multiset<Delivery>, left: multiset<Delivery>)
    requires whole == own + list && list == picked + left
    ensures whole == picked + own + left
  {
  }

  /** A list splits into the child itself, the addresses picked for it, and what is left. */
  lemma ListSplits(list: seq<Addr>, child: Mesh, table: seq<Addr>, payload: seq<Byte>)
    ensures var (picked, left) := Pick(RemoveFirst(list, child.addr), table);
            Spread(list, payload) ==
            Spread(picked, payload) + Own(child, child.addr in list, payload) + Spread(left, payload)
  {
    var l := RemoveFirst(list, child.addr);
    var (picked, left) := Pick(l, table);
    SpreadAfterPick(l, table, 0, [], payload);
    assert Spread(l, payload) + multiset{} == Spread(l, payload);
    if child.addr in list {
      SpreadAfterRemove(list, child.addr, payload);
    }
    Regroup(Spread(list, payload), Own(child, child.addr in list, payload), Spread(l, payload),
            Spread(picked, payload), Spread(left, payload));
  }

  /** A node told to keep a copy or not, and to forward to picked, delivers exactly that. */
  ghost predicate ForwardsExactly(o: Unsettled, m: Mesh, payload: seq<Byte>) {
    forall self: bool, picked: seq<Addr> :: FitsHeader(picked, payload) && Ordinary(picked) ==>
      Receive(o, m, Head(self, false, |picked|), Flatten(picked) + payload) ==
        Spread(picked, payload) + Own(m, self, payload)
  }

  ghost predicate ChildrenForward(o: Unsettled, m: Mesh, payload: seq<Byte>) {
    forall k: nat :: k < |m.links| ==> ForwardsExactly(o, m.links[k].child, payload)
  }

  /** The share of child i: what it delivers and what is left add up to what was listed. */
  lemma ChildShare(o: Unsettled, m: Mesh, i: nat, list: seq<Addr>, payload: seq<Byte>)
    requires i < |m.links| && FitsHeader(list, payload) && Ordinary(list)
    requires ForwardsExactly(o, m.links[i].child, payload)
    ensures Spread(list, payload) ==
            Fan(o, m, ToChild(m.links, i, list, payload)) + Spread(LeftBy(m.links[i], list), payload)
  {
    var child, table := m.links[i].child, m.links[i].table;
    var out := ToChild(m.links, i, list, payload);
    var self, picked := child.addr in list, Pick(RemoveFirst(list, child.addr), table).0;
    PickedFits(list, table, child.addr, payload);
    ListSplits(list, child, table, payload);
    if out != [] {
      assert out == [out[0]];
      FanOne(o, m, out[0]);
      assert Receive(o, child, Head(self, false, |picked|), Flatten(picked) + payload) ==
             Spread(picked, payload) + Own(child, self, payload);
    }
  }

  /** From child i on, the list is delivered exactly. */
  ghost predicate DeliversListed(o: Unsettled, m: Mesh, i: nat, list: seq<Addr>, payload: seq<Byte>) {
    i <= |m.links| && Fan(o, m, ToListed(m.links, i, list, payload)) == Spread(list, payload)
  }

  lemma ListedEnds(o: Unsettled, m: Mesh, i: nat, list: seq<Addr>, payload: seq<Byte>)
    requires i <= |m.links| && (i == |m.links| || list == []) && FitsHeader(list, payload)
    ensures DeliversListed(o, m, i, list, payload)
  {
    FanToPeers(o, m, list, payload);
  }

  /** What child i leaves over; if the rest of the children deliver that, child i and they deliver the list. */
  lemma ListedStep(o: Unsettled, m: Mesh, i: nat, list: seq<Addr>, payload: seq<Byte>) returns (left: seq<Addr>)
    requires i < |m.links| && list != [] && FitsHeader(list, payload) && Ordinary(list) &&
             ChildrenForward(o, m, payload)
    ensures FitsHeader(left, payload) && Ordinary(left)
    ensures DeliversListed(o, m, i + 1, left, payload) ==> DeliversListed(o, m, i, list, payload)
  {
    left := LeftBy(m.links[i], list);
    PickedFits(list, m.links[i].table, m.links[i].child.addr, payload);
    ChildShare(o, m, i, list, payload);
    ToListedUnfolds(m.links, i, list, payload);
    FanConcat(o, m, ToChild(m.links, i, list, payload), ToListed(m.links, i + 1, left, payload));
  }

  lemma {:induction false} ListedExactly(o: Unsettled, m: Mesh, i: nat, list: seq<Addr>, payload: seq<Byte>)
    requires i <= |m.links| && FitsHeader(list, payload) && Ordinary(list) && ChildrenForward(o, m, payload)
    ensures DeliversListed(o, m, i, list, payload)
    decreases |m.links| - i
  {
    hide *;
    if i == |m.links| || list == [] {
      ListedEnds(o, m, i, list, payload);
    } else {
      var left := ListedStep(o, m, i, list, payload);
      ListedExactly(o, m, i + 1, left, payload);
    }
  }

  /** By induction on the tree. */
  lemma {:induction false} ForwardedExactly(o: Unsettled, m: Mesh, payload: seq<Byte>)
    ensures ForwardsExactly(o, m, payload)
  {
    forall k: nat | k < |m.links| ensures ForwardsExactly(o, m.links[k].child, payload) {
      ForwardedExactly(o, m.links[k].child, payload);
    }
    forall self: bool, picked: seq<Addr> | FitsHeader(picked, payload) && Ordinary(picked)
      ensures Receive(o, m, Head(self, false, |picked|), Flatten(picked) + payload) ==
              Spread(picked, payload) + Own(m, self, payload)
    {
      UnflattenFlatten(picked, payload);
      if picked != [] {
        assert picked[0] in picked;
        ListedExactly(o, m, 0, picked, payload);
      }
    }
  }

  /** Multicast exactness: over any tree, any subnet tables, stale or not, and any list with repeats, the
      deliveries are exactly one per listed entry, each with the exact payload. */
  lemma MulticastExact(o: Unsettled, m: Mesh, addrs: seq<Addr>, payload: seq<Byte>)
    requires Accepted(addrs, payload) && FitsHeader(addrs, payload) && Ordinary(addrs)
    ensures RootMulticast(o, m, addrs, payload) == Some(Spread(addrs, payload))
  {
    forall k: nat | k < |m.links| ensures ForwardsExactly(o, m.links[k].child, payload) {
      ForwardedExactly(o, m.links[k].child, payload);
    }
    assert addrs[0] in addrs;
    ListedExactly(o, m, 0, addrs, payload);
  }

  // ---- Messages to all ----

  /** One delivery at every node of the tree. */
  ghost function Everyone(m: Mesh, payload: seq<Byte>): multiset<Delivery>
    decreases m, 1, 0
  {
    multiset{Delivery(m.addr, payload)} + EveryoneBelow(m, 0, payload)
  }

  /** One delivery at every node below m, from child i on. */
  ghost function EveryoneBelow(m: Mesh, i: nat, payload: seq<Byte>): multiset<Delivery>
    requires i <= |m.links|
    decreases m, 0, |m.links| - i
  {
    if i == |m.links| then multiset{}
    else Everyone(m.links[i].child, payload) + EveryoneBelow(m, i + 1, payload)
  }

  /** Every node below m reads a message to all as it should. */
  ghost predicate ChildrenReceive(o: Unsettled, m: Mesh, payload: seq<Byte>) {
    forall k: nat :: k < |m.links| ==>
      Receive(o, m.links[k].child, Head(true, true, 0), payload) == Everyone(m.links[k].child, payload)
  }

  lemma AllUnfolds(m: Mesh, i: nat, h: Head, payload: seq<Byte>)
    requires i < |m.links| && h.self && h.num == 0
    ensures ToAll(m.links, i, h, payload) ==
            [Send(Child(i), Head(true, true, 0), payload)] + ToAll(m.links, i + 1, h, payload)
    ensures EveryoneBelow(m, i, payload) == Everyone(m.links[i].child, payload) + EveryoneBelow(m, i + 1, payload)
  {
  }

  /** From child i on, a message to all is delivered once at every node. */
  ghost predicate DeliversAll(o: Unsettled, m: Mesh, i: nat, h: Head, payload: seq<Byte>) {
    i <= |m.links| && Fan(o, m, ToAll(m.links, i, h, payload)) == EveryoneBelow(m, i, payload)
  }

  lemma AllEnds(o: Unsettled, m: Mesh, h: Head, payload: seq<Byte>)
    ensures DeliversAll(o, m, |m.links|, h, payload)
  {
  }

  lemma AllStep(o: Unsettled, m: Mesh, i: nat, h: Head, payload: seq<Byte>)
    requires i < |m.links| && Describable(payload) && h.self && h.num == 0 && ChildrenReceive(o, m, payload)
    requires DeliversAll(o, m, i + 1, h, payload)
    ensures DeliversAll(o, m, i, h, payload)
  {
    hide Fan, ToAll, EveryoneBelow, Everyone, Receive;
    var first := Send(Child(i), Head(true, true, 0), payload);
    AllUnfolds(m, i, h, payload);
    FanConcat(o, m, [first], ToAll(m.links, i + 1, h, payload));
    FanOne(o, m, first);
  }

  lemma {:induction false} AllExactly(o: Unsettled, m: Mesh, i: nat, h: Head, payload: seq<Byte>)
    requires i <= |m.links| && Describable(payload) && h.self && h.num == 0 && ChildrenReceive(o, m, payload)
    ensures DeliversAll(o, m, i, h, payload)
    decreases |m.links| - i
  {
    hide *;
    if i == |m.links| {
      AllEnds(o, m, h, payload);
    } else {
      AllExactly(o, m, i + 1, h, payload);
      AllStep(o, m, i, h, payload);
    }
  }

  /** By induction on the tree. */
  lemma {:induction false} ReceivedByAll(o: Unsettled, m: Mesh, payload: seq<Byte>)
    requires Describable(payload)
    ensures Receive(o, m, Head(true, true, 0), payload) == Everyone(m, payload)
    decreases m, 1
  {
    AllReceive(o, m, payload);
    var h := Head(true, true, 0);
    AllExactly(o, m, 0, h, payload);
    assert Transmit(m, [ADDR_BROADCAST], h, payload, false) == ToAll(m.links, 0, h, payload);
  }

  lemma {:induction false} AllReceive(o: Unsettled, m: Mesh, payload: seq<Byte>)
    requires Describable(payload)
    ensures ChildrenReceive(o, m, payload)
    decreases m, 0
  {
    forall k: nat | k < |m.links|
      ensures Receive(o, m.links[k].child, Head(true, true, 0), payload) == Everyone(m.links[k].child, payload)
    {
      ReceivedByAll(o, m.links[k].child, payload);
    }
  }

  /** A root multicast to MWIFI_ADDR_ANY reaches every node of the tree once, the root included, and any
      addresses listed after it once more each. */
  lemma AnyCoversAll(o: Unsettled, m: Mesh, rest: seq<Addr>, payload: seq<Byte>)
    ensures RootMulticast(o, m, [ADDR_ANY] + rest, payload) ==
            if 0 < |payload| < WRITE_LIMIT then Some(Everyone(m, payload) + Spread(rest, payload)) else None
  {
    if 0 < |payload| < WRITE_LIMIT {
      var h := Head(true, false, 0);
      AllReceive(o, m, payload);
      AllExactly(o, m, 0, h, payload);
      assert ([ADDR_ANY] + rest)[1..] == rest;
      var all, peers := ToAll(m.links, 0, h, payload), ToPeers([m.addr] + rest, payload);
      assert Transmit(m, [ADDR_ANY] + rest, h, payload, true) == all + peers;
      FanConcat(o, m, all, peers);
      FanToPeers(o, m, [m.addr] + rest, payload);
      assert ([m.addr] + rest)[1..] == rest;
      assert Fan(o, m, all + peers) == Everyone(m, payload) + Spread(rest, payload);
    }
  }

  /** A root multicast to MWIFI_ADDR_BROADCAST reaches every node but the root once; addresses listed after
      it are ignored. */
  lemma BroadcastCoversAllButRoot(o: Unsettled, m: Mesh, rest: seq<Addr>, payload: seq<Byte>)
    ensures RootMulticast(o, m, [ADDR_BROADCAST] + rest, payload) ==
            if 0 < |payload| < WRITE_LIMIT then Some(EveryoneBelow(m, 0, payload)) else None
    ensures Everyone(m, payload) == multiset{Delivery(m.addr, payload)} + EveryoneBelow(m, 0, payload)
  {
    if 0 < |payload| < WRITE_LIMIT {
      var h := Head(true, false, 0);
      AllReceive(o, m, payload);
      AllExactly(o, m, 0, h, payload);
      assert Transmit(m, [ADDR_BROADCAST] + rest, h, payload, true) == ToAll(m.links, 0, h, payload);
    }
  }

  // ---- The 10-bit counter ----

  lemma {:induction false} PickAll(list: seq<Addr>, j: nat)
    requires j <= |list|
    ensures PickFrom(list[j..], list, j, list[..j]) == (list, [])
    decreases |list| - j
  {
    if j < |list| {
      assert RemoveFirst(list[j..], list[j]) == list[j + 1..];
      assert list[..j] + [list[j]] == list[..j + 1];
      PickAll(list, j + 1);
    } else {
      assert list[..j] == list && list[j..] == [];
    }
  }

  lemma {:induction false} SpreadSize(list: seq<Addr>, payload: seq<Byte>)
    ensures |Spread(list, payload)| == |list|
  {
    if list == [] {
    } else {
      SpreadSize(list[1..], payload);
    }
  }

  // ---- The limit ----

  const DIGITS: seq<Byte> := [0, 1, 2, 3, 4, 5, 6, 7, 8, 9, 10]

  /** Some addresses a station can have, numbered. */
  const STATIONS := 1331

  function Station(n: nat): (a: Addr)
    requires n < STATIONS
    ensures !IsSpecial(a) && a != ADDR_EMPTY && a.a1 == 0
  {
    Addr(2, 0, 0, DIGITS[n / 11 / 11], DIGITS[n / 11 % 11], DIGITS[n % 11])
  }

  lemma DigitsDiffer(i: nat, j: nat)
    requires i < 11 && j < 11
    ensures DIGITS[i] == DIGITS[j] ==> i == j
  {
  }

  lemma ElevenfoldAndRest(i: nat, j: nat)
    requires i / 11 == j / 11 && i % 11 == j % 11
    ensures i == j
  {
    assert i == 11 * (i / 11) + i % 11 && j == 11 * (j / 11) + j % 11;
  }

  lemma StationsDiffer(i: nat, j: nat)
    requires i < STATIONS && j < STATIONS
    ensures Station(i) == Station(j) ==> i == j
  {
    if Station(i) == Station(j) {
      DigitsDiffer(i / 11 / 11, j / 11 / 11);
      DigitsDiffer(i / 11 % 11, j / 11 % 11);
      DigitsDiffer(i % 11, j % 11);
      ElevenfoldAndRest(i / 11, j / 11);
      ElevenfoldAndRest(i, j);
    }
  }

  lemma StaysListed(list: seq<Addr>, a: Addr, x: Addr)
    requires x in list && x != a
    ensures x in RemoveFirst(list, a)
  {
    RemoveFirstMultiset(list, a);
    assert x in multiset(list);
    assert x in multiset(RemoveFirst(list, a));
  }

  /** A list that names the first n stations has at least n entries. */
  lemma {:induction false} NamesMany(list: seq<Addr>, n: nat)
    requires n <= STATIONS && forall i: nat :: i < n ==> Station(i) in list
    ensures n <= |list|
    decreases n
  {
    hide Station, RemoveFirst;
    if n == 0 {
    } else {
      var last := Station(n - 1);
      forall i: nat | i < n - 1 ensures Station(i) in RemoveFirst(list, last) {
        StationsDiffer(i, n - 1);
        StaysListed(list, last, Station(i));
      }
      NamesMany(RemoveFirst(list, last), n - 1);
    }
  }

  lemma UnlistedStation(list: seq<Addr>) returns (a: Addr)
    requires |list| <= NUM_LIMIT
    ensures !IsSpecial(a) && a != ADDR_EMPTY && a != ROOT && a !in list
  {
    if i: nat :| i < NUM_LIMIT + 1 && Station(i) !in list {
      a := Station(i);
    } else {
      NamesMany(list, NUM_LIMIT + 1);
      assert false;
    }
  }

  /** No station among those numbered. */
  const ROOT := Addr(2, 1, 0, 0, 0, 0)

  /** A root with one child, whose subnet table names everyone listed but the child. */
  function OneSubnet(list: seq<Addr>, child: Addr): Mesh {
    Mesh(ROOT, [Link(Mesh(child, []), RemoveFirst(list, child))])
  }

  /** What the 10-bit counter leaves of a list that goes to one child. */
  function OneSubnetSends(list: seq<Addr>, child: Addr, payload: seq<Byte>): (sends: seq<Send>)
    ensures |sends| <= 1
  {
    var kept := Wrapped(RemoveFirst(list, child));
    if child in list || kept != [] then [Send(Child(0), Head(child in list, false, |kept|), Flatten(kept) +
      payload)] else []
  }

  lemma OneSubnetTransmits(list: seq<Addr>, child: Addr, payload: seq<Byte>)
    requires list != [] && Ordinary(list)
    ensures Transmit(OneSubnet(list, child), list, Head(true, false, 0), payload, true) ==
            OneSubnetSends(list, child, payload)
  {
    var m, rest := OneSubnet(list, child), RemoveFirst(list, child);
    PickAll(rest, 0);
    assert rest[0..] == rest && rest[..0] == [];
    assert list[0] in list;
    assert ToChild(m.links, 0, list, payload) == OneSubnetSends(list, child, payload) && LeftBy(m.links[0], list) == [];
    ToListedUnfolds(m.links, 0, list, payload);
    assert ToListed(m.links, 1, [], payload) == [];
  }

  lemma DeliversKept(o: Unsettled, m: Mesh, self: bool, kept: seq<Addr>, payload: seq<Byte>)
    requires |m.links| == 1 && Ordinary(kept) && FitsHeader(kept, payload)
    ensures Fan(o, m, [Send(Child(0), Head(self, false, |kept|), Flatten(kept) + payload)]) ==
            Spread(kept, payload) + Own(m.links[0].child, self, payload)
  {
    FanOne(o, m, Send(Child(0), Head(self, false, |kept|), Flatten(kept) + payload));
    ForwardedExactly(o, m.links[0].child, payload);
  }

  lemma RemainsOrdinary(list: seq<Addr>, a: Addr)
    requires Ordinary(list)
    ensures Ordinary(RemoveFirst(list, a))
  {
    RemoveFirstMultiset(list, a);
    forall x | x in RemoveFirst(list, a) ensures x in list {
      assert x in multiset(RemoveFirst(list, a));
      assert x in multiset(list);
    }
  }

  /** One child delivers what the counter left for it, if the header can describe it; else all depends on
      what becomes of an oversized message. */
  lemma OneSubnetShare(o: Unsettled, list: seq<Addr>, child: Addr, payload: seq<Byte>)
    requires list != [] && Ordinary(list) && |payload| >= 1
    ensures var m, kept := OneSubnet(list, child), Wrapped(RemoveFirst(list, child));
            Fan(o, m, OneSubnetSends(list, child, payload)) ==
            if child !in list && kept == [] then multiset{}
            else if |Flatten(kept) + payload| >= SIZE_LIMIT then o(m.addr, OneSubnetSends(list, child, payload)[0])
            else Spread(kept, payload) + Own(m.links[0].child, child in list, payload)
  {
    var m, kept, out := OneSubnet(list, child), Wrapped(RemoveFirst(list, child)), OneSubnetSends(list, child, payload);
    if out == [] {
    } else if |out[0].data| < SIZE_LIMIT {
      RemainsOrdinary(list, child);
      WrappedOrdinary(RemoveFirst(list, child));
      DeliversKept(o, m, child in list, kept, payload);
    } else {
      assert out[1..] == [];
    }
  }

  /** What a leaf makes of any message it could have read from the fragments of an oversized one: each
      delivery is short of the whole payload, whatever follows from what it sends on. */
  lemma LeafCuts(o: Unsettled, at: Addr, head: Head, data: seq<Byte>, magic: nat, magics: seq<nat>, x: seq<Byte>)
    requires Cuts(o) && !head.all && |data| >= SIZE_LIMIT
    requires var m := MeshFragments.Message(data, magics);
             |magics| == m.Count() &&
               x in MeshFragments.ReadAll(false, MeshFragments.Start(magic), MeshFragments.Frames(m))
    ensures forall d :: d in Receive(o, Mesh(at, []), head, x) ==> ADDR_LEN * head.num + |d.payload| < |data|
  {
    MeshFragments.OversizedIsCut(false, magic, MeshFragments.Message(data, magics));
    var m := Mesh(at, []);
    if 0 < ADDR_LEN * head.num <= |x| {
      var list, payload := Unflatten(x, head.num), x[ADDR_LEN * head.num..];
      LeafTransmits(m, list, head, payload);
      PeersCut(o, m, ToPeers(list, payload), payload);
      assert Receive(o, m, head, x) == Fan(o, m, Transmit(m, list, head, payload, false)) + Own(m, head.self, payload);
      assert Fan(o, m, []) == multiset{};
    }
  }

  lemma LeafTransmits(m: Mesh, list: seq<Addr>, head: Head, payload: seq<Byte>)
    requires m.links == [] && list != [] && !head.all
    ensures Transmit(m, list, head, payload, false) == if IsSpecial(list[0]) then [] else ToPeers(list, payload)
  {
  }

  lemma {:induction false} PeersCut(o: Unsettled, m: Mesh, sends: seq<Send>, payload: seq<Byte>)
    requires Cuts(o) && forall i :: 0 <= i < |sends| ==> sends[i].data == payload && sends[i].to.Peer?
    requires forall i :: 0 <= i < |sends| ==> !sends[i].head.all && sends[i].head.num == 0
    ensures forall d :: d in Fan(o, m, sends) ==> |d.payload| <= |payload|
    decreases |sends|
  {
    if sends == [] {
    } else {
      PeersCut(o, m, sends[1..], payload);
    }
  }

  lemma SpreadHasFirst(list: seq<Addr>, payload: seq<Byte>)
    requires list != []
    ensures Delivery(list[0], payload) in Spread(list, payload)
  {
  }

  /** There a multicast that does not fit fails, whatever becomes of oversized messages. */
  lemma OneSubnetFails(o: Unsettled, list: seq<Addr>, child: Addr, payload: seq<Byte>)
    requires Cuts(o) && Accepted(list, payload) && Ordinary(list) && !FitsHeader(list, payload)
    requires |list| <= NUM_LIMIT ==> child !in list
    ensures RootMulticast(o, OneSubnet(list, child), list, payload) != Some(Spread(list, payload))
  {
    var m, kept, out := OneSubnet(list, child), Wrapped(RemoveFirst(list, child)), OneSubnetSends(list, child, payload);
    OneSubnetTransmits(list, child, payload);
    OneSubnetShare(o, list, child, payload);
    SpreadSize(list, payload);
    SpreadSize(kept, payload);
    if out != [] && |out[0].data| >= SIZE_LIMIT {
      SpreadHasFirst(list, payload);
      assert Delivery(list[0], payload) !in o(m.addr, out[0]);
    } else {
      assert |Fan(o, m, out)| < |list|;
    }
  }

  /** However oversized messages are cut, a multicast of ordinary addresses is exact on every tree with any
      tables exactly when mwifi_root_write accepts it, the list has at most 1023 entries, and payload and
      addresses together stay below 8192 bytes. */
  lemma ExactEverywhereIffFits(o: Unsettled, list: seq<Addr>, payload: seq<Byte>)
    requires Cuts(o) && Ordinary(list)
    ensures (forall m: Mesh :: RootMulticast(o, m, list, payload) == Some(Spread(list, payload))) <==>
            1 <= |list| <= 1023 && list[0] != ADDR_EMPTY && 1 <= |payload| <= 8095 && |payload| + 6 * |list| <= 8191
  {
    if Accepted(list, payload) && FitsHeader(list, payload) {
      forall m: Mesh ensures RootMulticast(o, m, list, payload) == Some(Spread(list, payload)) {
        MulticastExact(o, m, list, payload);
      }
    } else if Accepted(list, payload) {
      var child := Station(0);
      if |list| <= NUM_LIMIT {
        child := UnlistedStation(list);
      }
      OneSubnetFails(o, list, child, payload);
    } else {
      assert RootMulticast(o, OneSubnet([], Station(0)), list, payload) == None;
    }
  }
}
