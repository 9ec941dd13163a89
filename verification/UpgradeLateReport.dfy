/** A report interval of 100 percent: no checkpoint is stored before the image is complete, so that completion
    means the exact image for every size, although the counter may run ahead of the bitmap.
 */
module UpgradeLateReport {
  import opened Bytes
  import opened Wrappers
  import opened Nor
  import opened UpgradePackets
  import opened UpgradeNode
  import opened UpgradeNodeSafety

  /** Everything has been received, although some marks may have been lost since. */
  ghost predicate Whole(c: Campaign, st: Status, flash: seq<Byte>) {
    st.name == c.name && st.total == |c.image| <= st.written && st.err != MupgradeStop && Exact(c.image, flash)
  }

  ghost predicate Sound(c: Campaign, st: Status, flash: seq<Byte>) {
    StatusInv(c, st, flash) || Whole(c, st, flash)
  }

  ghost predicate LateInv(c: Campaign, n: Node) {
    |c.image| <= |n.flash| && n.nextPercentage >= 100 &&
    (n.config.Some? ==> Sound(c, n.config.value, n.flash)) &&
    (n.saved.Some? ==> Sound(c, n.saved.value, n.flash) && n.saved.value.err != MupgradeStop) &&
    (n.bootUpdate ==> n.finished && n.saved.None? && n.config.Some? && n.config.value.err != MupgradeStop &&
                      n.config.value.written == |c.image| && StatusInv(c, n.config.value, n.flash))
  }

  lemma ExactHolds(image: seq<Byte>, flash: seq<Byte>, marks: set<nat>)
    requires Exact(image, flash)
    ensures FlashHolds(image, flash, marks)
  {
    forall i | 0 <= i < |image| ensures flash[i] == image[i] && Above(flash[i], image[i]) {
      assert flash[..|image|][i] == image[i];
      SameIsAbove(image[i]);
    }
  }

  lemma SameIsAbove(d: Byte)
    ensures Above(d, d)
  {
  }

  lemma SoundHolds(c: Campaign, st: Status, flash: seq<Byte>)
    requires Sound(c, st, flash)
    ensures FlashHolds(c.image, flash, st.marks)
  {
    if Whole(c, st, flash) {
      ExactHolds(c.image, flash, st.marks);
    }
  }

  /** Programming a genuine packet, completely or in part, keeps every status sound. */
  lemma SoundAfter(c: Campaign, n: Node, p: Packet, kept: seq<Byte>, st: Status)
    requires c.Valid() && Genuine(c, p) && Fits(n, p) && |kept| == p.size && Sound(c, st, n.flash)
    ensures Sound(c, st, Programmed(n, p, kept))
    ensures (forall i :: 0 <= i < |kept| ==> kept[i] == 0) ==>
              FlashHolds(c.image, Programmed(n, p, kept), st.marks + {p.seqno})
  {
    SoundHolds(c, st, n.flash);
    ProgrammedHolds(c, n, p, kept, st.marks);
    if Whole(c, st, n.flash) {
      var g := Programmed(n, p, kept);
      forall i | 0 <= i < |c.image| ensures g[i] == c.image[i] {
        assert n.flash[..|c.image|][i] == c.image[i];
        SameIsAbove(c.image[i]);
        ProgrammedByte(c, n, p, kept, i);
      }
      assert Exact(c.image, g);
    }
  }

  function Counting(st: Status, p: Packet): Status {
    st.(written := st.written + p.size, marks := st.marks + {p.seqno})
  }

  /** A counted packet keeps the status sound, and completes it only with the exact image. */
  lemma SoundCounts(c: Campaign, st: Status, flash: seq<Byte>, p: Packet)
    requires c.Valid() && Sound(c, st, flash) && st.err != MupgradeStop && Genuine(c, p) && p.seqno !in st.marks
    requires FlashHolds(c.image, flash, st.marks + {p.seqno})
    ensures Sound(c, Counting(st, p), flash)
    ensures Counting(st, p).written == st.total ==> StatusInv(c, Counting(st, p), flash)
  {
    if StatusInv(c, st, flash) {
      MarkedInv(c, st, flash, p);
    } else {
      assert p.size > 0;
    }
  }

  /** From 100 percent on, what a checkpoint leaves of a status is sound. */
  lemma LateSave(c: Campaign, st: Status, flash: seq<Byte>)
    requires c.Valid() && Sound(c, st, flash) && st.err != MupgradeStop && Percentage(st.written, st.total) >= 100
    ensures Whole(c, Truncated(st), flash)
  {
    AllCounted(st.written, st.total);
    if StatusInv(c, st, flash) {
      CompleteIsExact(c, st, flash);
    }
  }

  lemma AllCounted(written: nat, total: nat)
    requires total > 0 && Percentage(written, total) >= 100
    ensures written >= total
  {
    var q := Percentage(written, total);
    assert written * 100 == total * q + written * 100 % total;
    assert total * q >= total * 100;
  }

  lemma LateCheckpoint(c: Campaign, n: Node, st: Status, flash: seq<Byte>)
    requires c.Valid() && STATUS_REPORT_INTERVAL == 100 && n.nextPercentage >= 100
    requires Sound(c, st, flash) && st.err != MupgradeStop
    ensures var (saved, next) := Checkpoint(n.saved, n.nextPercentage, st);
            next >= 100 && (saved == n.saved || (saved.Some? && Whole(c, saved.value, flash)))
  {
    if Percentage(st.written, st.total) == n.nextPercentage {
      LateSave(c, st, flash);
    } else if Percentage(st.written, st.total) > n.nextPercentage {
      assert (Percentage(st.written, st.total) / 100 + 1) * 100 >= 100;
    }
  }

  lemma LateAsk(c: Campaign, n: Node, err: ErrorCode)
    requires c.Valid() && LateInv(c, n) && err != MupgradeStop
    ensures LateInv(c, HandleStatus(n, c.name, |c.image|, err).node)
  {
    if n.config.None? && n.saved.None? {
      BegunInv(c, n, err);
    }
  }

  lemma LateNothingMissing(c: Campaign, n: Node, p: Packet)
    requires c.Valid() && LateInv(c, n) && n.bootUpdate && p.seqno < c.Count()
    ensures !Accepts(n, p)
  {
    CompleteIsExact(c, n.config.value, n.flash);
  }

  lemma LateCounted(c: Campaign, n: Node, p: Packet, bootOk: bool)
    requires c.Valid() && STATUS_REPORT_INTERVAL == 100 && LateInv(c, n) && !n.bootUpdate && n.config.Some?
    requires n.config.value.err != MupgradeStop && Genuine(c, p) && p.seqno !in n.config.value.marks
    requires FlashHolds(c.image, n.flash, n.config.value.marks + {p.seqno})
    ensures LateInv(c, Counted(n, p, bootOk).node)
  {
    var st := Counting(n.config.value, p);
    SoundCounts(c, n.config.value, n.flash, p);
    LateCheckpoint(c, n, st, n.flash);
  }

  lemma LateDeliver(c: Campaign, n: Node, p: Packet, env: Env)
    requires c.Valid() && STATUS_REPORT_INTERVAL == 100 && LateInv(c, n)
    requires Genuine(c, p) && WellFormedEnv(env, p)
    ensures LateInv(c, HandleWrite(n, p, env).node)
  {
    if (n.config.Some? || n.saved.Some?) && Loaded(n).err == MupgradeStop {
      SoundHolds(c, Loaded(n), n.flash);
    }
    if Accepts(n, p) && Fits(n, p) {
      if n.bootUpdate {
        LateNothingMissing(c, n, p);
      }
      var m := n.(config := Some(Loaded(n)));
      SoundAfter(c, m, p, env.kept, Loaded(n));
      if n.saved.Some? {
        SoundAfter(c, m, p, env.kept, n.saved.value);
      }
      if env.writeOk {
        LateCounted(c, m.(flash := Programmed(m, p, env.kept)), p, env.bootOk);
      }
    }
  }

  lemma LateStop(c: Campaign, n: Node, bootOk: bool)
    requires LateInv(c, n)
    ensures LateInv(c, HandleStop(n, bootOk).node)
  {
    if n.config.Some? {
      SoundHolds(c, n.config.value, n.flash);
    }
  }

  lemma LateCrash(c: Campaign, n: Node, p: Packet, kept: seq<Byte>, stored: bool)
    requires c.Valid() && STATUS_REPORT_INTERVAL == 100 && LateInv(c, n)
    requires Genuine(c, p) && |kept| == p.size
    ensures LateInv(c, Crashed(n, p, kept, stored))
  {
    if Accepts(n, p) && Fits(n, p) {
      if n.bootUpdate {
        LateNothingMissing(c, n, p);
      }
      var k := if stored then Fill(p.size, 0) else kept;
      if n.config.Some? {
        SoundAfter(c, n, p, k, n.config.value);
      }
      if n.saved.Some? {
        SoundAfter(c, n, p, k, n.saved.value);
      }
      if stored {
        SoundAfter(c, n, p, k, Loaded(n));
        SoundCounts(c, Loaded(n), Programmed(n, p, k), p);
        LateCheckpoint(c, n, Counting(Loaded(n), p), Programmed(n, p, k));
      }
    }
  }

  lemma LateRestart(c: Campaign, n: Node, other: seq<Byte>)
    requires STATUS_REPORT_INTERVAL == 100 && LateInv(c, n) && |other| == |n.flash|
    ensures LateInv(c, Restarted(n, other))
  {
  }

  lemma LateStep(c: Campaign, n: Node, e: Event)
    requires c.Valid() && STATUS_REPORT_INTERVAL == 100 && LateInv(c, n) && Ready(n) && Possible(c, n, e)
    ensures LateInv(c, Step(c, n, e).node)
  {
    match e
    case Ask(err) => LateAsk(c, n, err);
    case Deliver(p, env) => LateDeliver(c, n, p, env);
    case Halt(bootOk) => LateStop(c, n, bootOk);
    case PowerCycle(other) => LateRestart(c, n, other);
    case PowerLoss(p, kept, stored, after) =>
      LateCrash(c, n, p, kept, stored);
      LateRestart(c, Crashed(n, p, kept, stored), after);
  }

  /** With a report interval of 100 the invariant holds over every run, for images of any size. */
  lemma {:induction false} LateRun(c: Campaign, n: Node, es: seq<Event>, n': Node)
    requires c.Valid() && STATUS_REPORT_INTERVAL == 100 && LateInv(c, n) && Reaches(c, n, es, n')
    ensures LateInv(c, n')
    decreases |es|
  {
    if es == [] {
    } else {
      LateStep(c, n, es[0]);
      LateRun(c, Step(c, n, es[0]).node, es[1..], n');
    }
  }
}
