/** What the handlers of an upgrading node bring about: which packets change anything, when the new partition
    is booted, what a stop and a request under another name leave, and how much a power cycle costs.
 */
module UpgradeNodeOutcomes {
  import opened Bytes
  import opened Wrappers
  import opened UpgradePackets
  import opened UpgradeNode
  import opened UpgradeNodeSafety
  import UpgradeResumeLimit

  // ---- Packets ----

  /** There is an upgrade to go on with. */
  predicate Known(n: Node) {
    n.config.Some? || n.saved.Some?
  }

  /** The packet is the last one missing, and flash has taken it. */
  predicate Completes(n: Node, p: Packet, env: Env) {
    Accepts(n, p) && Fits(n, p) && env.writeOk && Loaded(n).written + p.size == Loaded(n).total
  }

  /** What the return code of a packet tells. */
  lemma PacketCodes(n: Node, p: Packet, env: Env)
    requires WellFormed(p) && WellFormedEnv(env, p) && Ready(n)
    ensures var ret, st := HandleWrite(n, p, env).ret, Loaded(n);
            (ret == MupgradeNotInit <==> !Known(n)) &&
            (ret == MdfInvalidArg <==> Known(n) && st.err != MupgradeStop && st.total < p.seqno * PACKET_MAX_SIZE) &&
            (ret == MupgradeFirmwareDownload <==> Accepts(n, p) && !(Fits(n, p) && env.writeOk)) &&
            (ret == MdfFail <==> Completes(n, p, env) && !env.bootOk) &&
            ret in {MupgradeNotInit, MdfInvalidArg, MupgradeFirmwareDownload, MdfFail, MdfOk}
  {
  }

  /** A packet that is not accepted changes neither flash nor what is known of the upgrade, except that a
      stopped node forgets it and says so. */
  lemma RefusedChangesNothing(n: Node, p: Packet, env: Env)
    requires WellFormed(p) && WellFormedEnv(env, p) && Ready(n) && !Accepts(n, p)
    ensures var r := HandleWrite(n, p, env);
            r.node.flash == n.flash && r.node.bootUpdate == n.bootUpdate && r.node.finished == n.finished &&
            if Known(n) && Loaded(n).err == MupgradeStop
            then r.node.saved.None? && r.report == Some(Report(MupgradeStop, Loaded(n).total, 0, None))
            else Loaded(r.node) == Loaded(n) && r.node.saved == n.saved && r.report.None?
  {
  }

  /** The device boots from the partition it has written exactly when the boot selector took it at the
      completion of an upgrade; until then a power cycle leaves the update partition as it is. */
  lemma BootsIffComplete(n: Node, p: Packet, env: Env, other: seq<Byte>)
    requires WellFormed(p) && WellFormedEnv(env, p) && Ready(n) && |other| == |n.flash|
    ensures var r := HandleWrite(n, p, env);
            (r.node.bootUpdate <==> n.bootUpdate || (Completes(n, p, env) && env.bootOk)) &&
            Restarted(r.node, other).flash ==
            if n.bootUpdate || (Completes(n, p, env) && env.bootOk) then other else r.node.flash
  {
  }

  /** Completion is reported at once, or the upgrade is stopped; either way nothing is left to resume. */
  lemma CompletionIsAnnounced(n: Node, p: Packet, env: Env)
    requires WellFormed(p) && WellFormedEnv(env, p) && Ready(n) && Completes(n, p, env)
    ensures var r, total := HandleWrite(n, p, env), Loaded(n).total;
            r.node.saved.None? && r.node.config.Some? &&
            if env.bootOk
            then r.node.finished && r.report == Some(Report(Loaded(n).err, total, total, None))
            else r.report.None? && r.node.config.value.err == MupgradeStop && r.node.config.value.written == 0
  {
  }

  /** On every run, a device that is set to boot its update partition finds exactly the image there. */
  lemma BootsExactImage(c: Campaign, n: Node, es: seq<Event>, n': Node)
    requires c.Valid() && Resumable(c) && Untouched(c, n) && Reaches(c, n, es, n')
    ensures n'.bootUpdate ==> Exact(c.image, n'.flash)
  {
    RunKeepsInv(c, n, es, n');
    if n'.bootUpdate {
      CompleteIsExact(c, n'.config.value, n'.flash);
    }
  }

  // ---- Requests ----

  /** A request of the same name and size goes on with what there is; any other starts from erased flash, with
      nothing received, in memory and in store. */
  lemma ResumesIffSame(n: Node, name: string, total: nat, err: ErrorCode, other: seq<Byte>)
    requires Ready(n) && total > 0
    ensures var r := HandleStatus(n, name, total, err); var st, prior := r.node.config.value, Loaded(n);
            r.node.config.Some? && st.name == name && st.total == total && r.ret == MdfOk &&
            if prior.name == name && prior.total == total
            then r.node.flash == n.flash && r.node.saved == n.saved && st.written == prior.written &&
                 st.marks == prior.marks && (st.err == MupgradeStop <==> prior.err == MupgradeStop)
            else (forall i :: 0 <= i < total && i < |n.flash| ==> r.node.flash[i] == 0xFF) &&
                 st.written == 0 && st.marks == {} && !r.node.finished &&
                 (st.err == MupgradeStop <==> err == MupgradeStop) &&
                 Loaded(Restarted(r.node, other)) == Status(name, err, total, 0, {})
  {
    var begun := Status(name, err, total, 0, {});
    assert Truncated(begun).marks == {};
    assert Truncated(begun) == begun;
  }

  /** The answer to a request: progress as it is, with the bitmap exactly while something but not all has been
      received. */
  lemma RequestIsAnswered(n: Node, name: string, total: nat, err: ErrorCode)
    requires Ready(n) && total > 0
    ensures var r := HandleStatus(n, name, total, err); var st := r.node.config.value;
            r.report.Some? && r.report.value.total == total && r.report.value.written == st.written &&
            r.report.value.err == (if st.err == MupgradeStop then MupgradeStop else MdfOk) &&
            (r.report.value.marks.Some? <==> 0 < st.written && st.written != total) &&
            (r.report.value.marks.Some? ==> r.report.value.marks.value == st.marks)
  {
  }

  // ---- Stops ----

  /** After a stop and a power cycle there is nothing to resume, and every packet is refused, exactly when
      there was nothing stored, or the device had heard of the upgrade since it was switched on and, if it had
      finished, could be set back to its running partition. */
  lemma StopForgetsIff(n: Node, bootOk: bool, other: seq<Byte>, p: Packet, env: Env)
    requires |other| == |n.flash| && WellFormed(p) && WellFormedEnv(env, p) && Ready(n)
    ensures var m := Restarted(HandleStop(n, bootOk).node, other);
            (HandleWrite(m, p, env).ret == MupgradeNotInit <==>
               n.saved.None? || (n.config.Some? && (n.finished ==> bootOk)))
  {
  }

  /** What a stop does at once: packets are refused with a stop report, and a finished device is set back, or
      nothing has changed because it could not be. */
  lemma StopTakesEffect(n: Node, bootOk: bool, p: Packet, env: Env)
    requires WellFormed(p) && WellFormedEnv(env, p) && Ready(n) && n.config.Some?
    ensures var r, total := HandleStop(n, bootOk), n.config.value.total;
            if n.finished && !bootOk then r == Reply(n, MdfFail, None)
            else r.ret == MdfOk && r.report == Some(Report(MupgradeStop, total, 0, None)) &&
                 r.node.flash == n.flash && r.node.bootUpdate == (n.bootUpdate && !n.finished) &&
                 HandleWrite(r.node, p, env).node.flash == n.flash && HandleWrite(r.node, p, env).report == r.report
  {
  }

  /** After a power cycle a stop does not look at the boot selector again. */
  lemma RestartIsNotFinished(n: Node, other: seq<Byte>, name: string, total: nat, err: ErrorCode)
    requires |other| == |n.flash| && total > 0
    ensures HandleStop(HandleStatus(Restarted(n, other), name, total, err).node, false).ret == MdfOk
  {
  }

  // ---- What a power cycle costs ----

  /** The next percentage is a multiple of the report interval ahead of the progress, by one interval at most
      when it has moved; the checkpoint is stored exactly when the progress hits it. */
  lemma CheckpointCadence(saved: Option<Status>, next: nat, st: Status)
    requires st.total > 0 && next % STATUS_REPORT_INTERVAL == 0
    ensures var (saved', next') := Checkpoint(saved, next, st); var percentage := Percentage(st.written, st.total);
            next' % STATUS_REPORT_INTERVAL == 0 && percentage < next' &&
            (next' == next || next' <= percentage + STATUS_REPORT_INTERVAL) &&
            saved' == if percentage == next then Some(Truncated(st)) else saved
  {
    var percentage := Percentage(st.written, st.total);
    NextMultiple(percentage, STATUS_REPORT_INTERVAL);
    NextMultiple(next, STATUS_REPORT_INTERVAL);
  }

  lemma NextMultiple(a: nat, i: nat)
    requires i > 0
    ensures a < (a / i + 1) * i <= a + i && (a / i + 1) * i % i == 0
    ensures a % i == 0 ==> (a / i + 1) * i == a + i
  {
    var q := a / i;
    assert a == q * i + a % i && (q + 1) * i == q * i + i;
    MultipleOf(q + 1, i);
  }

  lemma MultipleOf(q: nat, i: nat)
    requires i > 0
    ensures q * i % i == 0 && q * i / i == q
  {
    Remainder(q * i, i, q, 0);
  }

  lemma Remainder(a: nat, i: nat, q: nat, r: nat)
    requires a == q * i + r && r < i
    ensures a % i == r && a / i == q
  {
    var d := q - a / i;
    assert d * i == a % i - r;
    Scaled(d, i);
  }

  lemma Scaled(d: int, i: nat)
    ensures d > 0 ==> d * i >= i
    ensures d < 0 ==> d * i <= -(i as int)
  {
  }

  /** No packet is more than a hundredth of the image, so no percentage is skipped. */
  predicate Fine(c: Campaign) {
    c.Valid() && Resumable(c) && |c.image| >= 100 * PACKET_MAX_SIZE
  }

  /** How far the checkpoint may be behind, in percent. */
  const LAG := if STATUS_REPORT_INTERVAL == 1 then 2 else STATUS_REPORT_INTERVAL

  /** The upgrade has been completed, stopped, or given up because the boot selector refused. */
  predicate Over(n: Node) {
    n.config.Some? && (n.config.value.err == MupgradeStop || n.config.value.written == n.config.value.total)
  }

  /** Nothing is stored: nothing has begun since the device was switched on, or all is over. */
  predicate Unstored(n: Node) {
    n.saved.None? && (Over(n) || (n.config.None? && n.nextPercentage == STATUS_REPORT_INTERVAL))
  }

  /** The checkpoint is little behind: as the device was switched on, or by less than LAG. */
  predicate Stored(c: Campaign, n: Node)
    requires c.Valid()
  {
    n.saved.Some? && n.nextPercentage % STATUS_REPORT_INTERVAL == 0 &&
    var kept := Percentage(n.saved.value.written, |c.image|);
    kept % STATUS_REPORT_INTERVAL == 0 &&
    ((n.nextPercentage == STATUS_REPORT_INTERVAL &&
      (n.config.Some? ==> n.config.value.written == n.saved.value.written)) ||
     (n.config.Some? && Percentage(n.config.value.written, |c.image|) < n.nextPercentage <= kept + LAG))
  }

  predicate InStep(c: Campaign, n: Node)
    requires c.Valid()
  {
    Unstored(n) || Stored(c, n)
  }

  lemma OnePercentAtMost(written: nat, size: nat, total: nat)
    requires size <= PACKET_MAX_SIZE && total >= 100 * PACKET_MAX_SIZE
    ensures Percentage(written, total) <= Percentage(written + size, total) <= Percentage(written, total) + 1
  {
    var q, w := Percentage(written, total), (written + size) * 100;
    assert q * total <= written * 100 < (q + 1) * total;
    assert (q + 1) * total + total == (q + 2) * total;
    assert w < (q + 2) * total;
    UpgradeResumeLimit.QuotientBelow(w, total, q + 2);
    UpgradeResumeLimit.QuotientBelow(w, total, q);
  }

  /** A device as it was switched on, with kept percent stored, after its first packet. */
  lemma FirstAfterStart(kept: nat, percentage: nat, next: nat)
    requires kept % STATUS_REPORT_INTERVAL == 0 && kept <= percentage <= kept + 1
    requires percentage != STATUS_REPORT_INTERVAL
    requires next == if percentage > STATUS_REPORT_INTERVAL
                     then (percentage / STATUS_REPORT_INTERVAL + 1) * STATUS_REPORT_INTERVAL
                     else STATUS_REPORT_INTERVAL
    ensures percentage < next <= kept + LAG
  {
    var i, q := STATUS_REPORT_INTERVAL, kept / STATUS_REPORT_INTERVAL;
    NextMultiple(percentage, i);
    NextMultiple(kept, i);
    if percentage == kept + 1 && i > 1 {
      Remainder(percentage, i, q, 1);
    }
  }

  lemma CountedIsStored(c: Campaign, n: Node, st: Status)
    requires Fine(c) && Stored(c, n) && st.total == |c.image|
    requires var written := (if n.config.Some? then n.config.value else n.saved.value).written;
             written <= st.written <= written + PACKET_MAX_SIZE
    ensures var (saved, next) := Checkpoint(n.saved, n.nextPercentage, st);
            Stored(c, n.(config := Some(st), saved := saved, nextPercentage := next))
  {
    var written := (if n.config.Some? then n.config.value else n.saved.value).written;
    var kept, percentage := Percentage(n.saved.value.written, |c.image|), Percentage(st.written, |c.image|);
    OnePercentAtMost(written, st.written - written, |c.image|);
    CheckpointCadence(n.saved, n.nextPercentage, st);
    if percentage != n.nextPercentage && written == n.saved.value.written &&
       n.nextPercentage == STATUS_REPORT_INTERVAL {
      FirstAfterStart(kept, percentage, Checkpoint(n.saved, n.nextPercentage, st).1);
    }
  }

  lemma PacketKeepsStep(c: Campaign, n: Node, p: Packet, env: Env)
    requires Fine(c) && NodeInv(c, n) && Genuine(c, p) && WellFormedEnv(env, p) && InStep(c, n)
    ensures InStep(c, HandleWrite(n, p, env).node)
  {
    hide FlashHolds, Programmed, Percentage, Truncated, Counts;
    if n.config.Some? {
      CompleteIsExact(c, n.config.value, n.flash);
    }
    if Accepts(n, p) && Fits(n, p) && env.writeOk {
      var st := Loaded(n);
      CountedIsStored(c, n, st.(written := st.written + p.size, marks := st.marks + {p.seqno}));
    }
  }

  lemma LossKeepsStep(c: Campaign, n: Node, p: Packet, kept: seq<Byte>, stored: bool, after: seq<Byte>)
    requires Fine(c) && NodeInv(c, n) && Genuine(c, p) && |kept| == p.size && InStep(c, n)
    ensures InStep(c, Restarted(Crashed(n, p, kept, stored), after))
  {
    if n.config.Some? {
      CompleteIsExact(c, n.config.value, n.flash);
    }
    if Accepts(n, p) && Fits(n, p) && stored {
      var st := Loaded(n);
      CountedIsStored(c, n, st.(written := st.written + p.size, marks := st.marks + {p.seqno}));
    }
  }

  lemma StepKeepsStep(c: Campaign, n: Node, e: Event)
    requires Fine(c) && NodeInv(c, n) && Possible(c, n, e) && InStep(c, n)
    ensures InStep(c, Step(c, n, e).node)
  {
    match e
    case Ask(err) =>
      assert Percentage(0, |c.image|) == 0;
    case Deliver(p, env) => PacketKeepsStep(c, n, p, env);
    case Halt(bootOk) =>
    case PowerCycle(other) =>
    case PowerLoss(p, kept, stored, after) => LossKeepsStep(c, n, p, kept, stored, after);
  }

  lemma {:induction false} RunKeepsStep(c: Campaign, n: Node, es: seq<Event>, n': Node)
    requires Fine(c) && NodeInv(c, n) && Reaches(c, n, es, n') && InStep(c, n)
    ensures InStep(c, n')
    decreases |es|
  {
    if es == [] {
    } else {
      StepKeepsStep(c, n, es[0]);
      StepKeepsInv(c, n, es[0]);
      RunKeepsStep(c, Step(c, n, es[0]).node, es[1..], n');
    }
  }

  /** A device that loses power in the middle of an upgrade of at least 100 packets, whatever has happened
      before, resumes less than one report interval behind, or less than two percent when that is one. */
  lemma LosesLessThanInterval(c: Campaign, n: Node, es: seq<Event>, n': Node, other: seq<Byte>)
    requires Fine(c) && Untouched(c, n) && n.nextPercentage == STATUS_REPORT_INTERVAL
    requires Reaches(c, n, es, n') && n'.config.Some? && !Over(n')
    ensures var resumed := Restarted(n', other);
            resumed.saved.Some? && resumed.flash == n'.flash && Loaded(resumed).name == c.name &&
            Percentage(n'.config.value.written, |c.image|) < Percentage(Loaded(resumed).written, |c.image|) + LAG
  {
    RunKeepsInv(c, n, es, n');
    RunKeepsStep(c, n, es, n');
  }
}
