/** Packet layout and limits of the mesh upgrade (mupgrade.h), and how an image is cut into packets. */
module UpgradePackets {
  import opened Bytes
  import opened Bitmap

  const PACKET_MAX_SIZE := 1024
  const PACKET_MAX_NUM := 4096
  const BITMAP_SIZE := PACKET_MAX_NUM / 8

  /** Bitmap bytes the node checkpoint covers: the saved length is the packed status header plus 512
      bytes, counted from the start of the enclosing config struct, whose own four words come first. */
  const SAVED_BITMAP_SIZE := BITMAP_SIZE - 16
  const SAVED_PACKETS := 8 * SAVED_BITMAP_SIZE

  type Percent = n: nat | 1 <= n <= 100 witness 10

  /** CONFIG_MUPGRADE_STATUS_REPORT_INTERVAL: any value that can be configured. */
  const STATUS_REPORT_INTERVAL: Percent

  datatype ErrorCode = MdfOk | MupgradeStop | MupgradeFirmwareFinish | MupgradeNotInit
                     | MupgradeFirmwareDownload | MupgradeFirmwareIncomplete | MupgradeSendPacketLoss
                     | MupgradeFirmwareNotInit | MdfInvalidArg | MdfFail

  /** A data packet: the data array always has 1024 bytes, of which the first size are meant. */
  datatype Packet = Packet(seqno: nat, size: nat, data: seq<Byte>)

  predicate WellFormed(p: Packet) {
    p.seqno < 0x10000 && p.size <= PACKET_MAX_SIZE && |p.data| == PACKET_MAX_SIZE
  }

  function PacketCount(total: nat): (n: nat) {
    (total + PACKET_MAX_SIZE - 1) / PACKET_MAX_SIZE
  }

  /** The root's size rule: every packet but the last is full. */
  function PacketSize(total: nat, k: nat): (n: nat) {
    if k + 1 == PacketCount(total) then
      if total % PACKET_MAX_SIZE == 0 then PACKET_MAX_SIZE else total % PACKET_MAX_SIZE
    else PACKET_MAX_SIZE
  }

  /** Bytes of the marked packets among the first n. */
  function MarkedSize(total: nat, marks: set<nat>, n: nat): (size: nat) {
    if n == 0 then 0
    else MarkedSize(total, marks, n - 1) + (if n - 1 in marks then PacketSize(total, n - 1) else 0)
  }

  lemma {:induction false} MarkedSizeOfNone(total: nat, n: nat)
    ensures MarkedSize(total, {}, n) == 0
  {
    if n == 0 {
    } else {
      MarkedSizeOfNone(total, n - 1);
    }
  }

  /** Marking a new packet adds its size, once. */
  lemma {:induction false} MarkedSizeAfterMark(total: nat, marks: set<nat>, k: nat, n: nat)
    requires k !in marks
    ensures MarkedSize(total, marks + {k}, n) ==
            MarkedSize(total, marks, n) + (if k < n then PacketSize(total, k) else 0)
  {
    if n == 0 {
    } else {
      MarkedSizeAfterMark(total, marks, k, n - 1);
    }
  }

  /** The first n marked packets fill at most their span, and fill it only when all are marked. */
  lemma {:induction false} MarkedSizeBound(total: nat, marks: set<nat>, n: nat)
    requires n <= PacketCount(total)
    ensures var span := if n == PacketCount(total) then total else n * PACKET_MAX_SIZE;
            MarkedSize(total, marks, n) <= span &&
            (MarkedSize(total, marks, n) == span <==> forall k :: 0 <= k < n ==> k in marks)
  {
    if n == 0 {
    } else {
      MarkedSizeBound(total, marks, n - 1);
    }
  }

  /** The counter reaches the image size exactly when every packet is marked. */
  lemma CompleteIffAllMarked(total: nat, marks: set<nat>)
    ensures MarkedSize(total, marks, PacketCount(total)) <= total
    ensures MarkedSize(total, marks, PacketCount(total)) == total <==>
            forall k :: 0 <= k < PacketCount(total) ==> k in marks
  {
    MarkedSizeBound(total, marks, PacketCount(total));
  }

  /** One name, one size, one image. */
  datatype Campaign = Campaign(name: string, image: seq<Byte>) {
    predicate Valid() {
      1 <= |image| <= PACKET_MAX_NUM * PACKET_MAX_SIZE
    }

    function Count(): nat {
      PacketCount(|image|)
    }
  }

  /** p carries its slice of the campaign's image under the root's size rule. */
  ghost predicate Genuine(c: Campaign, p: Packet) {
    WellFormed(p) && p.seqno < c.Count() && p.size == PacketSize(|c.image|, p.seqno) &&
    forall i :: 0 <= i < p.size ==> p.data[i] == c.image[p.seqno * PACKET_MAX_SIZE + i]
  }
}
