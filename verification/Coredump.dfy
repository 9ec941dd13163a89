/** The core dump transfer: the send loop of mdebug_cmd.c and the receive states of debug_recv.cpp. */
module Coredump {
  import opened Bytes
  import opened Slices
  import opened AddrList

  const DATA_SIZE := 230
  /** Sizes and sequence numbers are 16-bit signed. */
  const INT16_LIMIT := 0x8000
  /** Up to here sequence numbers do not wrap; the size does from 32768 on. */
  const DUMP_LIMIT := INT16_LIMIT * DATA_SIZE

  datatype Kind = Begin | Data | End

  datatype Packet = Packet(kind: Kind, size: int, seqno: nat, data: seq<Byte>)

  /** The size of a data packet stays within its array. */
  predicate WellFormed(p: Packet) {
    p.kind == Data ==> p.size <= |p.data|
  }

  /** The value of a 16-bit signed field. */
  function Int16(n: nat): (i: int)
    ensures n < INT16_LIMIT ==> i == n
  {
    var r := n % 0x10000;
    if r < INT16_LIMIT then r else r - 0x10000
  }

  function PacketCount(dump: seq<Byte>): nat {
    |dump| / DATA_SIZE + (if |dump| % DATA_SIZE != 0 then 1 else 0)
  }

  /** A data packet: its array is always full, and size says how much of it counts. */
  predicate IsData(dump: seq<Byte>, k: nat, p: Packet) {
    p.kind == Data && k < PacketCount(dump) && p.seqno == k && k * DATA_SIZE <= |dump| &&
    p.size == |Slice(dump, DATA_SIZE, k)| && |p.data| == DATA_SIZE && p.data[..p.size] == Slice(dump, DATA_SIZE, k)
  }

  /** Everything the command sends for a dump. */
  predicate Genuine(dump: seq<Byte>, p: Packet) {
    match p.kind
    case Begin => p.size == Int16(|dump|)
    case Data => IsData(dump, p.seqno, p)
    case End => p.size == Int16(|dump|) && p.seqno == PacketCount(dump)
  }

  lemma IsPacketOf(dump: seq<Byte>, flash: seq<Byte>, k: nat, p: Packet)
    requires dump <= flash && |flash| >= |dump| + DATA_SIZE && k * DATA_SIZE < |dump|
    requires var left := |dump| - k * DATA_SIZE;
             p == Packet(Data, if left < DATA_SIZE then left else DATA_SIZE, k,
                         flash[k * DATA_SIZE..(k + 1) * DATA_SIZE])
    ensures IsData(dump, k, p) && Genuine(dump, p) && k + 1 <= PacketCount(dump)
  {
    var at := k * DATA_SIZE;
    assert p.data[..p.size] == flash[at..at + p.size] == dump[at..at + p.size] == Slice(dump, DATA_SIZE, k);
  }

  /** The send loop from packet first on. flash is what follows the four length bytes, at least one packet
      beyond the dump; tries says, packet by packet, whether one of the five attempts succeeded. Sent are, after
      BEGIN at the start of a dump, exactly the packets from first up to the first that fails, and END. */
  method SendDump(dump: seq<Byte>, flash: seq<Byte>, first: nat, tries: seq<bool>) returns (sent: seq<Packet>)
    requires |dump| < DUMP_LIMIT && dump <= flash && |flash| >= |dump| + DATA_SIZE
    requires |tries| >= PacketCount(dump)
    ensures forall i :: 0 <= i < |sent| ==> Genuine(dump, sent[i])
    ensures var b, end := if first == 0 then 1 else 0, FirstFailure(tries, first, PacketCount(dump));
            |sent| == b + (end - first) + 1 && (first == 0 ==> sent[0].kind == Begin) &&
            (forall i :: b <= i < |sent| - 1 ==> IsData(dump, first + i - b, sent[i])) &&
            sent[|sent| - 1].kind == End
  {
    hide IsData;
    sent := [];
    if first == 0 {
      sent := [Packet(Begin, Int16(|dump|), 0, [])];
    }
    var k := first;
    ghost var b := |sent|;
    while k * DATA_SIZE < |dump|
      invariant k >= first && (k * DATA_SIZE >= |dump| ==> k >= PacketCount(dump))
      invariant FirstFailure(tries, first, PacketCount(dump)) == FirstFailure(tries, k, PacketCount(dump))
      invariant |sent| == b + (k - first) && (first == 0 ==> sent[0].kind == Begin)
      invariant forall i :: 0 <= i < |sent| ==> Genuine(dump, sent[i])
      invariant forall i :: b <= i < |sent| ==> IsData(dump, first + i - b, sent[i])
      decreases |dump| - k * DATA_SIZE
    {
      var left := |dump| - k * DATA_SIZE;
      var size := if left < DATA_SIZE then left else DATA_SIZE;
      var p := Packet(Data, size, k, flash[k * DATA_SIZE..(k + 1) * DATA_SIZE]);
      IsPacketOf(dump, flash, k, p);
      if !tries[k] {
        break;
      }
      sent := sent + [p];
      k := k + 1;
    }
    sent := sent + [Packet(End, Int16(|dump|), PacketCount(dump), [])];
  }

  /** The first packet from k on that fails, or n when none does. */
  function FirstFailure(tries: seq<bool>, k: nat, n: nat): (end: nat)
    requires |tries| >= n
    ensures k <= end && (end == k || end <= n) && forall i :: k <= i < end ==> tries[i]
    ensures end < n ==> !tries[end]
    decreases n - k
  {
    if k >= n || !tries[k] then k else FirstFailure(tries, k + 1, n)
  }

  // ---- Receiving ----

  /** The statics of the receive task and what it has stored; encode is the base64 encoder. */
  datatype Receiver = Receiver(awaited: int, from: Addr, written: nat, stored: seq<Byte>)

  /** One received packet; true when it is the END that completes a dump. */
  function Receive(encode: seq<Byte> -> seq<Byte>, r: Receiver, src: Addr, p: Packet): (Receiver, bool)
    requires WellFormed(p)
  {
    if p.size <= 0 then (r, false)
    else
      match p.kind
      case Begin => (Receiver(0, src, 0, []), false)
      case Data =>
        if r.from != src || p.seqno != r.awaited then (r, false)
        else
          var text := encode(p.data[..p.size]);
          var kept := if r.written <= |r.stored| then r.stored[..r.written] else r.stored;
          (Receiver(r.awaited + 1, r.from, r.written + |text|, kept + text), false)
      case End => (r, r.from == src && p.seqno == r.awaited)
  }

  class DumpReceiver {
    const encode: seq<Byte> -> seq<Byte>
    var expectSeq: int
    var expectAddr: Addr
    var writtenSize: nat
    var stored: seq<Byte>

    function State(): Receiver
      reads this
    {
      Receiver(expectSeq, expectAddr, writtenSize, stored)
    }

    constructor (encode: seq<Byte> -> seq<Byte>)
      ensures State() == Receiver(0, Addr(0, 0, 0, 0, 0, 0), 0, []) && this.encode == encode
    {
      this.encode := encode;
      expectSeq, expectAddr, writtenSize, stored := 0, Addr(0, 0, 0, 0, 0, 0), 0, [];
    }

    method OnPacket(src: Addr, p: Packet) returns (complete: bool)
      requires WellFormed(p)
      modifies this
      ensures (State(), complete) == Receive(encode, old(State()), src, p)
    {
      complete := false;
      if p.size <= 0 {
        return;
      }
      match p.kind {
        case Begin =>
          expectSeq, writtenSize := 0, 0;
          expectAddr := src;
          stored := [];
        case Data =>
          if expectAddr != src || p.seqno != expectSeq {
            return;
          }
          expectSeq := expectSeq + 1;
          var text := encode(p.data[..p.size]);
          if writtenSize <= |stored| {
            stored := stored[..writtenSize];
          }
          stored := stored + text;
          writtenSize := writtenSize + |text|;
        case End =>
          complete := expectAddr == src && p.seqno == expectSeq;
      }
    }
  }

  // ---- Safety ----

  /** The encodings of the first k slices of a dump, one after the other. */
  function Encodings(encode: seq<Byte> -> seq<Byte>, dump: seq<Byte>, k: nat): seq<Byte>
    requires k <= PacketCount(dump)
  {
    if k == 0 then [] else Encodings(encode, dump, k - 1) + encode(Slice(dump, DATA_SIZE, k - 1))
  }

  /** What has been stored since the last BEGIN are the first slices of its sender's dump. */
  ghost predicate ReceiverInv(encode: seq<Byte> -> seq<Byte>, dumps: map<Addr, seq<Byte>>, r: Receiver) {
    r.from in dumps ==>
      0 <= r.awaited <= PacketCount(dumps[r.from]) && r.written == |r.stored| &&
      r.stored == Encodings(encode, dumps[r.from], r.awaited)
  }

  /** A packet of one of the senders. */
  predicate FromSender(dumps: map<Addr, seq<Byte>>, src: Addr, p: Packet) {
    src in dumps && |dumps[src]| < DUMP_LIMIT && Genuine(dumps[src], p)
  }

  lemma ReceiveKeepsInv(encode: seq<Byte> -> seq<Byte>, dumps: map<Addr, seq<Byte>>, r: Receiver, src: Addr, p: Packet)
    requires ReceiverInv(encode, dumps, r) && FromSender(dumps, src, p)
    ensures ReceiverInv(encode, dumps, Receive(encode, r, src, p).0)
    ensures Receive(encode, r, src, p).1 ==>
            r.from == src && r.stored == Encodings(encode, dumps[src], PacketCount(dumps[src]))
  {
    if p.kind == Data && r.from == src && p.seqno == r.awaited && p.size > 0 {
      assert r.stored[..r.written] == r.stored;
    }
  }

  datatype Event = Event(src: Addr, packet: Packet)

  function After(encode: seq<Byte> -> seq<Byte>, r: Receiver, es: seq<Event>): Receiver
    requires forall e :: e in es ==> WellFormed(e.packet)
    decreases |es|
  {
    if es == [] then r else After(encode, Receive(encode, r, es[0].src, es[0].packet).0, es[1..])
  }

  predicate AllFromSenders(dumps: map<Addr, seq<Byte>>, es: seq<Event>) {
    forall e :: e in es ==> WellFormed(e.packet) && FromSender(dumps, e.src, e.packet)
  }

  /** Whatever is lost, repeated or reordered, and however many senders there are: when an END is accepted,
      the stored output is the encodings of all slices of that sender's dump, each once and in order. */
  lemma {:induction false} AcceptedDumpIsWhole(encode: seq<Byte> -> seq<Byte>, dumps: map<Addr, seq<Byte>>, r: Receiver,
                                               es: seq<Event>, src: Addr, p: Packet)
    requires ReceiverInv(encode, dumps, r)
    requires AllFromSenders(dumps, es)
    requires FromSender(dumps, src, p)
    ensures var r' := After(encode, r, es);
            Receive(encode, r', src, p).1 ==> r'.stored == Encodings(encode, dumps[src], PacketCount(dumps[src]))
    decreases |es|
  {
    if es == [] {
      ReceiveKeepsInv(encode, dumps, r, src, p);
    } else {
      ReceiveKeepsInv(encode, dumps, r, es[0].src, es[0].packet);
      AcceptedDumpIsWhole(encode, dumps, Receive(encode, r, es[0].src, es[0].packet).0, es[1..], src, p);
    }
  }

  // ---- When END is accepted ----

  /** The data packets numbered ks of one dump, in that order of arrival. */
  ghost predicate AreData(dump: seq<Byte>, src: Addr, es: seq<Event>, ks: seq<nat>) {
    |es| == |ks| && forall i :: 0 <= i < |es| ==> es[i].src == src && IsData(dump, ks[i], es[i].packet)
  }

  predicate InOrder(ks: seq<nat>) {
    forall i, j :: 0 <= i < j < |ks| ==> ks[i] <= ks[j]
  }

  /** The expected number moves on exactly over the gap-free part of what arrives in order. */
  lemma {:induction false} InOrderProgress(encode: seq<Byte> -> seq<Byte>, dump: seq<Byte>, src: Addr, r: Receiver,
                                           es: seq<Event>, ks: seq<nat>)
    requires r.from == src && 0 <= r.awaited <= PacketCount(dump)
    requires AreData(dump, src, es, ks) && InOrder(ks)
    ensures var r' := After(encode, r, es);
            r'.from == src && r.awaited <= r'.awaited <= PacketCount(dump) &&
            (r'.awaited == PacketCount(dump) <==> Covers(ks, r.awaited, PacketCount(dump)))
    decreases |es|
  {
    if es != [] {
      var r1 := Receive(encode, r, src, es[0].packet).0;
      InOrderProgress(encode, dump, src, r1, es[1..], ks[1..]);
      Missing(ks, r.awaited, r1.awaited, PacketCount(dump));
    } else if r.awaited < PacketCount(dump) {
      var k: nat := r.awaited;
      assert k !in ks;
    }
  }

  predicate Covers(ks: seq<nat>, lo: int, hi: nat) {
    forall k: nat :: lo <= k < hi ==> k in ks
  }

  /** The first arrival covers the awaited number, is behind it, or shows that it has been lost. */
  lemma Missing(ks: seq<nat>, lo: int, next: int, hi: nat)
    requires ks != [] && InOrder(ks) && 0 <= lo <= hi && ks[0] < hi
    requires next == if ks[0] == lo then lo + 1 else lo
    ensures Covers(ks, lo, hi) <==> Covers(ks[1..], next, hi)
  {
    var rest := ks[1..];
    assert ks == [ks[0]] + rest;
    if Covers(ks, lo, hi) {
      var first: nat := lo;
      assert first < hi ==> first in ks;
      forall k: nat | next <= k < hi ensures k in rest {
        assert k in ks && k != ks[0];
      }
    }
    if Covers(rest, next, hi) {
      forall k: nat | lo <= k < hi ensures k in ks {
        if k != ks[0] {
          assert k in rest;
        }
      }
    }
  }

  /** Under in-order delivery with any loss and repetition after BEGIN, END is accepted exactly when no data
      packet was lost altogether and the size, cut to 16 bits, is still positive: otherwise BEGIN and END are
      both dropped. */
  lemma EndAcceptedIffAllArrived(encode: seq<Byte> -> seq<Byte>, dump: seq<Byte>, src: Addr, r: Receiver, begin: Packet,
                                 es: seq<Event>, ks: seq<nat>, end: Packet)
    requires 0 < |dump| < DUMP_LIMIT && AreData(dump, src, es, ks) && InOrder(ks)
    requires begin.kind == Begin && Genuine(dump, begin) && end.kind == End && Genuine(dump, end)
    ensures var r1 := Receive(encode, r, src, begin).0;
            Receive(encode, After(encode, r1, es), src, end).1 <==>
            1 <= |dump| % 65536 <= 32767 && forall k: nat :: k < PacketCount(dump) ==> k in ks
  {
    if Int16(|dump|) > 0 {
      var r1 := Receive(encode, r, src, begin).0;
      InOrderProgress(encode, dump, src, r1, es, ks);
    }
  }
}
