/** The upgrade agent of a mesh node (mupgrade_node.c): its handlers as functions on values, and the
    class whose methods update the status, the bitmap, the flash and the stored checkpoint in place.
 */
module UpgradeNode {
  import opened Bytes
  import opened Wrappers
  import opened Bitmap
  import opened Nor
  import opened UpgradePackets

  /** The status header, with the bitmap as the set of marked packets. */
  datatype Status = Status(name: string, err: ErrorCode, total: nat, written: nat, marks: set<nat>)

  /** What a node sends to the root; the bitmap travels only in a partial status reply. */
  datatype Report = Report(err: ErrorCode, total: nat, written: nat, marks: Option<set<nat>>)

  /** config is None until the first message after a restart; saved is the stored checkpoint;
      bootUpdate says that the update partition has been chosen for the next boot. */
  datatype Node = Node(config: Option<Status>, finished: bool, nextPercentage: nat,
                       flash: seq<Byte>, saved: Option<Status>, bootUpdate: bool)

  datatype Reply = Reply(node: Node, ret: ErrorCode, report: Option<Report>)

  /** How the flash driver and the boot selector answer during one handler. */
  datatype Env = Env(writeOk: bool, kept: seq<Byte>, bootOk: bool)

  predicate WellFormedEnv(env: Env, p: Packet) {
    |env.kept| == p.size && (env.writeOk ==> forall i :: 0 <= i < |env.kept| ==> env.kept[i] == 0)
  }

  const BLANK := Status("", MdfOk, 0, 0, {})

  function Loaded(n: Node): Status {
    if n.config.Some? then n.config.value else if n.saved.Some? then n.saved.value else BLANK
  }

  /** What the stored length leaves of a status. */
  function Truncated(st: Status): Status {
    st.(marks := set k | k in st.marks && k < SAVED_PACKETS)
  }

  function Acknowledged(st: Status): Status {
    if st.err == MupgradeStop then st else st.(err := MdfOk)
  }

  function StatusReport(st: Status): Report {
    Report(st.err, st.total, st.written,
           if st.written != 0 && st.written != st.total then Some(st.marks) else None)
  }

  function BareReport(st: Status): Report {
    Report(st.err, st.total, st.written, None)
  }

  /** What esp_ota_begin erases of a partition: whole sectors, no more than there is. */
  function EraseSize(capacity: nat, total: nat): (size: nat)
    ensures size <= capacity
    ensures total <= capacity ==> total <= size
  {
    var rounded := (total + 4095) / 4096 * 4096;
    if rounded <= capacity then rounded else capacity
  }

  /** mupgrade_status of an ordinary node. */
  function HandleStatus(n: Node, name: string, total: nat, err: ErrorCode): Reply {
    var st := Loaded(n);
    if st.name == name && st.total == total then
      var st' := Acknowledged(st);
      Reply(n.(config := Some(st')), MdfOk, Some(StatusReport(st')))
    else
      var begun := Status(name, err, total, 0, {});
      var st' := Acknowledged(begun);
      Reply(n.(config := Some(st'), finished := false, flash := Erase(n.flash, 0, EraseSize(|n.flash|, total)),
               saved := Some(Truncated(begun))),
            MdfOk, Some(StatusReport(st')))
  }

  function Percentage(written: nat, total: nat): nat
    requires total > 0
  {
    written * 100 / total
  }

  /** The checkpoint and the next percentage after a packet has been counted. */
  function Checkpoint(saved: Option<Status>, next: nat, st: Status): (Option<Status>, nat)
    requires st.total > 0
  {
    var percentage := Percentage(st.written, st.total);
    if percentage == next then (Some(Truncated(st)), next + STATUS_REPORT_INTERVAL)
    else if percentage > next then
      (saved, (percentage / STATUS_REPORT_INTERVAL + 1) * STATUS_REPORT_INTERVAL)
    else (saved, next)
  }

  predicate Fits(n: Node, p: Packet) {
    p.seqno * PACKET_MAX_SIZE + p.size <= |n.flash|
  }

  function Programmed(n: Node, p: Packet, kept: seq<Byte>): (flash: seq<Byte>)
    requires WellFormed(p) && Fits(n, p) && |kept| == p.size
    ensures |flash| == |n.flash|
  {
    Program(n.flash, p.seqno * PACKET_MAX_SIZE, p.data[..p.size], kept)
  }

  /** The packet is for this upgrade, in range and not yet marked. */
  predicate Accepts(n: Node, p: Packet) {
    (n.config.Some? || n.saved.Some?) &&
    var st := Loaded(n);
    st.err != MupgradeStop && p.seqno * PACKET_MAX_SIZE <= st.total && p.seqno !in st.marks
  }

  /** A packet that would be accepted has its bit in the bitmap. The code does not test this: with a total
      size of 4 MiB and more it would look behind the array. */
  predicate InBitmap(n: Node, p: Packet) {
    Accepts(n, p) ==> p.seqno < PACKET_MAX_NUM
  }

  predicate Ready(n: Node) {
    (n.config.Some? ==> n.config.value.total > 0) && (n.saved.Some? ==> n.saved.value.total > 0)
  }

  /** mupgrade_write. */
  function HandleWrite(n: Node, p: Packet, env: Env): Reply
    requires WellFormed(p) && WellFormedEnv(env, p) && Ready(n)
  {
    if n.config.None? && n.saved.None? then Reply(n, MupgradeNotInit, None)
    else
      var st := Loaded(n);
      var m := n.(config := Some(st));
      if st.err == MupgradeStop then
        var st' := st.(written := 0, marks := {});
        Reply(m.(config := Some(st'), saved := None), MdfOk, Some(BareReport(st')))
      else if p.seqno * PACKET_MAX_SIZE > st.total then Reply(m, MdfInvalidArg, None)
      else if p.seqno in st.marks then Reply(m, MdfOk, None)
      else if !Fits(m, p) then Reply(m, MupgradeFirmwareDownload, None)
      else if !env.writeOk then Reply(m.(flash := Programmed(m, p, env.kept)), MupgradeFirmwareDownload, None)
      else Counted(m.(flash := Programmed(m, p, env.kept)), p, env.bootOk)
  }

  /** The packet is in flash: mark it, count it, save the checkpoint when due, finish when complete. */
  function Counted(n: Node, p: Packet, bootOk: bool): Reply
    requires n.config.Some? && n.config.value.total > 0
  {
    var prior := n.config.value;
    var st := prior.(written := prior.written + p.size, marks := prior.marks + {p.seqno});
    var (saved, next) := Checkpoint(n.saved, n.nextPercentage, st);
    var m := n.(config := Some(st), saved := saved, nextPercentage := next);
    if st.written != st.total then Reply(m, MdfOk, None)
    else if !bootOk then
      Reply(m.(config := Some(st.(written := 0, err := MupgradeStop)), saved := None), MdfFail, None)
    else Reply(m.(saved := None, finished := true, bootUpdate := true), MdfOk, Some(BareReport(st)))
  }

  /** mupgrade_stop. */
  function HandleStop(n: Node, bootOk: bool): Reply {
    if n.config.None? then Reply(n, MdfOk, None)
    else if n.finished && !bootOk then Reply(n, MdfFail, None)
    else
      var st := n.config.value.(err := MupgradeStop, written := 0, marks := {});
      Reply(n.(config := Some(st), saved := None, bootUpdate := if n.finished then false else n.bootUpdate),
            MdfOk, Some(BareReport(st)))
  }

  /** Power cycle: memory is lost, flash and checkpoint stay. After the update partition has been
      booted, the next update partition is the other one, with whatever it holds. */
  function Restarted(n: Node, other: seq<Byte>): Node {
    n.(config := None, finished := false, nextPercentage := STATUS_REPORT_INTERVAL,
       flash := if n.bootUpdate then other else n.flash, bootUpdate := false)
  }

  /** Power is lost while mupgrade_write handles p: either during the flash write, which then reached
      only part of the bits, or after the checkpoint was stored and before anything later. */
  function Crashed(n: Node, p: Packet, kept: seq<Byte>, stored: bool): Node
    requires WellFormed(p) && |kept| == p.size && Ready(n)
  {
    if !Accepts(n, p) || !Fits(n, p) then n
    else if stored then
      var st := Loaded(n);
      var st' := st.(written := st.written + p.size, marks := st.marks + {p.seqno});
      n.(flash := Programmed(n, p, Fill(p.size, 0)), saved := Checkpoint(n.saved, n.nextPercentage, st').0)
    else n.(flash := Programmed(n, p, kept))
  }

  /** The stored blob: the header and the first 496 bitmap bytes. */
  datatype Blob = Blob(name: string, err: ErrorCode, total: nat, written: nat, bitmap: seq<Byte>) {
    function Value(): Status {
      Status(name, err, total, written, Marks(bitmap))
    }
  }

  class UpgradeNode {
    var hasConfig: bool
    var name: string
    var errorCode: ErrorCode
    var totalSize: nat
    var writtenSize: nat
    const progress: array<Byte>
    var finished: bool
    var nextPercentage: nat
    const flash: array<Byte>
    var saved: Option<Blob>
    var bootUpdate: bool

    ghost predicate Valid()
      reads this
    {
      progress.Length == BITMAP_SIZE && progress != flash &&
      (saved.Some? ==> |saved.value.bitmap| == SAVED_BITMAP_SIZE && saved.value.total > 0) &&
      (hasConfig ==> totalSize > 0)
    }

    ghost function State(): (n: Node)
      reads this, progress, flash
      requires Valid()
      ensures Ready(n)
    {
      Node(if hasConfig then Some(Status(name, errorCode, totalSize, writtenSize, Marks(progress[..]))) else None,
           finished, nextPercentage, flash[..],
           if saved.Some? then Some(saved.value.Value()) else None, bootUpdate)
    }

    /** A device that has just booted with partition as its update partition and nothing stored. */
    constructor (partition: seq<Byte>)
      ensures Valid() && fresh(progress) && fresh(flash)
      ensures State() == Node(None, false, STATUS_REPORT_INTERVAL, partition, None, false)
    {
      hasConfig, name, errorCode, totalSize, writtenSize := false, "", MdfOk, 0, 0;
      progress := new Byte[BITMAP_SIZE](_ => 0);
      finished, nextPercentage, saved, bootUpdate := false, STATUS_REPORT_INTERVAL, None, false;
      flash := new Byte[|partition|](i requires 0 <= i < |partition| => partition[i]);
      new;
      assert flash[..] == partition;
    }

    /** memset of the bitmap to zero. */
    method ClearProgress()
      requires Valid()
      modifies progress
      ensures progress[..] == Fill(BITMAP_SIZE, 0) && Marks(progress[..]) == {}
    {
      forall i | 0 <= i < progress.Length {
        progress[i] := 0;
      }
      assert progress[..] == Fill(BITMAP_SIZE, 0);
      MarksOfFill(BITMAP_SIZE);
    }

    /** mdf_info_save from the start of the config struct. */
    method Save()
      requires Valid() && totalSize > 0
      modifies this`saved
      ensures Valid() && saved.Some?
      ensures saved.value.Value() == Truncated(Status(name, errorCode, totalSize, writtenSize, Marks(progress[..])))
    {
      saved := Some(Blob(name, errorCode, totalSize, writtenSize, progress[..SAVED_BITMAP_SIZE]));
      ghost var b := progress[..SAVED_BITMAP_SIZE];
      forall k: nat ensures k in Marks(b) <==> k in Marks(progress[..]) && k < SAVED_PACKETS {
        if k < SAVED_PACKETS {
          assert b[k / 8] == progress[..][k / 8];
        }
      }
    }

    /** The calloc of the config followed by mdf_info_load; the bytes past the blob stay zero. */
    method Load()
      requires Valid() && !hasConfig
      modifies this`name, this`errorCode, this`totalSize, this`writtenSize, progress
      ensures Valid()
      ensures Status(name, errorCode, totalSize, writtenSize, Marks(progress[..])) == Loaded(old(State()))
      ensures saved.Some? ==> totalSize > 0
    {
      ClearProgress();
      if saved.Some? {
        var blob := saved.value;
        name, errorCode, totalSize, writtenSize := blob.name, blob.err, blob.total, blob.written;
        forall i | 0 <= i < SAVED_BITMAP_SIZE {
          progress[i] := blob.bitmap[i];
        }
        ghost var a := progress[..];
        assert a == a[..SAVED_BITMAP_SIZE] + Fill(|a| - SAVED_BITMAP_SIZE, 0);
        MarksOfPrefix(a, SAVED_BITMAP_SIZE);
        forall k: nat ensures k in Marks(a) <==> k in Marks(blob.bitmap) {
          if k < SAVED_PACKETS {
            assert a[k / 8] == blob.bitmap[k / 8];
          }
        }
      } else {
        name, errorCode, totalSize, writtenSize := "", MdfOk, 0, 0;
      }
    }

    /** esp_ota_begin erases the range the image needs. */
    method BeginOta()
      requires Valid() && hasConfig
      modifies flash
      ensures flash[..] == Erase(old(flash[..]), 0, EraseSize(flash.Length, totalSize))
    {
      var n := (totalSize + 4095) / 4096 * 4096;
      n := if n <= flash.Length then n else flash.Length;
      forall i | 0 <= i < n {
        flash[i] := 0xFF;
      }
      assert flash[..] == Erase(old(flash[..]), 0, n);
    }

    /** The reply of mupgrade_status: the bitmap is appended only while the image is partial. */
    method Respond() returns (report: Report)
      requires Valid() && hasConfig
      modifies this`errorCode
      ensures Valid() && hasConfig
      ensures var st := Acknowledged(old(State()).config.value);
              State() == old(State()).(config := Some(st)) && report == StatusReport(st)
    {
      var bitmap: Option<set<nat>> := None;
      if writtenSize != 0 && writtenSize != totalSize {
        bitmap := Some(Marks(progress[..]));
      }
      if errorCode != MupgradeStop {
        errorCode := MdfOk;
      }
      report := Report(errorCode, totalSize, writtenSize, bitmap);
    }

    /** The part of mupgrade_status that starts an upgrade the node has no record of. */
    method Begin(name: string, total: nat, err: ErrorCode)
      requires Valid() && total > 0
      modifies this, progress, flash
      ensures Valid() && hasConfig
      ensures var begun := Status(name, err, total, 0, {});
              State() == old(State()).(config := Some(begun), finished := false,
                flash := Erase(old(flash[..]), 0, EraseSize(flash.Length, total)), saved := Some(Truncated(begun)))
    {
      hasConfig, this.name, errorCode, totalSize, writtenSize := true, name, err, total, 0;
      ClearProgress();
      finished := false;
      BeginOta();
      Save();
    }

    method OnStatus(name: string, total: nat, err: ErrorCode) returns (ret: ErrorCode, report: Report)
      requires Valid() && total > 0
      modifies this, progress, flash
      ensures Valid()
      ensures Reply(State(), ret, Some(report)) == HandleStatus(old(State()), name, total, err)
    {
      hide Blob.Value, Acknowledged, StatusReport, Erase, EraseSize, Truncated, Marks;
      if !hasConfig {
        Load();
      }
      if name == this.name && total == this.totalSize {
        hasConfig := true;
      } else {
        Begin(name, total, err);
      }
      report := Respond();
      ret := MdfOk;
    }

    /** esp_partition_write: programming clears bits only. */
    method PartitionWrite(at: nat, data: seq<Byte>, kept: seq<Byte>)
      requires at + |data| <= flash.Length && |kept| == |data|
      modifies flash
      ensures flash[..] == Program(old(flash[..]), at, data, kept)
    {
      forall i | at <= i < at + |data| {
        flash[i] := flash[i] & (data[i - at] | kept[i - at]);
      }
      assert flash[..] == Program(old(flash[..]), at, data, kept);
    }

    /** MUPGRADE_SET_BITS and the counter. */
    method Mark(p: Packet)
      requires Valid() && hasConfig && WellFormed(p) && p.seqno < PACKET_MAX_NUM
      modifies this`writtenSize, progress
      ensures Valid()
      ensures writtenSize == old(writtenSize) + p.size
      ensures Marks(progress[..]) == Marks(old(progress[..])) + {p.seqno}
    {
      MarksAfterSet(progress[..], p.seqno);
      ghost var marked := Set(progress[..], p.seqno);
      progress[p.seqno / 8] := progress[p.seqno / 8] | Mask(p.seqno);
      assert progress[..] == marked;
      writtenSize := writtenSize + p.size;
    }

    method SaveWhenDue()
      requires Valid() && hasConfig
      modifies this`saved, this`nextPercentage
      ensures Valid()
      ensures var n := old(State());
              var (saved, next) := Checkpoint(n.saved, n.nextPercentage, n.config.value);
              State() == n.(saved := saved, nextPercentage := next)
    {
      var percentage := writtenSize * 100 / totalSize;
      if percentage == nextPercentage {
        nextPercentage := nextPercentage + STATUS_REPORT_INTERVAL;
        Save();
      } else if percentage > nextPercentage {
        nextPercentage := (percentage / STATUS_REPORT_INTERVAL + 1) * STATUS_REPORT_INTERVAL;
      }
    }

    /** The tail of mupgrade_write once the packet is in flash. */
    method Count(p: Packet, bootOk: bool) returns (ret: ErrorCode, report: Option<Report>)
      requires Valid() && hasConfig && WellFormed(p) && p.seqno < PACKET_MAX_NUM
      modifies this, progress
      ensures Valid()
      ensures Reply(State(), ret, report) == Counted(old(State()), p, bootOk)
    {
      ret, report := MdfOk, None;
      Mark(p);
      SaveWhenDue();
      if writtenSize == totalSize {
        saved := None;
        if !bootOk {
          writtenSize, errorCode := 0, MupgradeStop;
          return MdfFail, None;
        }
        finished, bootUpdate := true, true;
        report := Some(Report(errorCode, totalSize, writtenSize, None));
      }
    }

    method OnPacket(p: Packet, env: Env) returns (ret: ErrorCode, report: Option<Report>)
      requires Valid() && WellFormed(p) && WellFormedEnv(env, p) && InBitmap(State(), p)
      modifies this, progress, flash
      ensures Valid()
      ensures Reply(State(), ret, report) == HandleWrite(old(State()), p, env)
    {
      ret, report := MdfOk, None;
      if !hasConfig {
        if saved.None? {
          return MupgradeNotInit, None;
        }
        Load();
        hasConfig := true;
      }
      if errorCode == MupgradeStop {
        writtenSize := 0;
        ClearProgress();
        saved := None;
        return MdfOk, Some(Report(errorCode, totalSize, writtenSize, None));
      }
      if p.seqno * PACKET_MAX_SIZE > totalSize {
        return MdfInvalidArg, None;
      }
      assert p.seqno < PACKET_MAX_NUM;
      if Get(progress[..], p.seqno) {
        return MdfOk, None;
      }
      var at := p.seqno * PACKET_MAX_SIZE;
      if at + p.size > flash.Length {
        return MupgradeFirmwareDownload, None;
      }
      PartitionWrite(at, p.data[..p.size], env.kept);
      if !env.writeOk {
        return MupgradeFirmwareDownload, None;
      }
      ret, report := Count(p, env.bootOk);
    }

    method Stop(bootOk: bool) returns (ret: ErrorCode, report: Option<Report>)
      requires Valid()
      modifies this, progress
      ensures Valid()
      ensures Reply(State(), ret, report) == HandleStop(old(State()), bootOk)
    {
      if !hasConfig {
        return MdfOk, None;
      }
      if finished {
        if !bootOk {
          return MdfFail, None;
        }
        bootUpdate := false;
      }
      errorCode, writtenSize := MupgradeStop, 0;
      ClearProgress();
      saved := None;
      return MdfOk, Some(Report(errorCode, totalSize, writtenSize, None));
    }

    method Restart(other: seq<Byte>)
      requires Valid() && |other| == flash.Length
      modifies this, flash
      ensures Valid()
      ensures State() == Restarted(old(State()), other)
    {
      if bootUpdate {
        forall i | 0 <= i < flash.Length {
          flash[i] := other[i];
        }
        assert flash[..] == other;
      }
      hasConfig, finished, nextPercentage, bootUpdate := false, false, STATUS_REPORT_INTERVAL, false;
    }
  }
}
