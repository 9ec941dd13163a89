/** What every handler, restart and power loss of an upgrading node keeps: flash stays bitwise above
    the image, marked packets are in flash exactly, and the counter agrees with the bitmap.
 */
module UpgradeNodeSafety {
  import opened Bytes
  import opened Wrappers
  import opened Bitmap
  import opened Nor
  import opened UpgradePackets
  import opened UpgradeNode

  /** Every marked packet is in flash, and no bit of the image has been lost anywhere. */
  ghost predicate FlashHolds(image: seq<Byte>, flash: seq<Byte>, marks: set<nat>) {
    |image| <= |flash| &&
    forall i :: 0 <= i < |image| ==>
      Above(flash[i], image[i]) && (i / PACKET_MAX_SIZE in marks ==> flash[i] == image[i])
  }

  ghost predicate Exact(image: seq<Byte>, flash: seq<Byte>) {
    |image| <= |flash| && flash[..|image|] == image
  }

  ghost predicate Counts(c: Campaign, st: Status) {
    if st.err == MupgradeStop then st.written == 0
    else st.written == MarkedSize(|c.image|, st.marks, c.Count())
  }

  ghost predicate StatusInv(c: Campaign, st: Status, flash: seq<Byte>) {
    st.name == c.name && st.total == |c.image| &&
    (forall k :: k in st.marks ==> k < c.Count()) &&
    Counts(c, st) && FlashHolds(c.image, flash, st.marks)
  }

  ghost predicate NodeInv(c: Campaign, n: Node) {
    |c.image| <= |n.flash| &&
    (n.config.Some? ==> StatusInv(c, n.config.value, n.flash)) &&
    (n.saved.Some? ==> StatusInv(c, n.saved.value, n.flash) && n.saved.value.err != MupgradeStop) &&
    (n.bootUpdate ==> n.finished && n.saved.None? && n.config.Some? &&
                      n.config.value.err != MupgradeStop && n.config.value.written == |c.image|)
  }

  /** A node that has taken no part in the campaign yet. The next percentage starts at the report interval
      and only grows while the device runs. */
  ghost predicate Untouched(c: Campaign, n: Node) {
    |c.image| <= |n.flash| && n.config.None? && n.saved.None? && !n.bootUpdate &&
    n.nextPercentage >= STATUS_REPORT_INTERVAL
  }

  /** The checkpoint covers every packet of the image. */
  predicate Resumable(c: Campaign) {
    c.Count() <= SAVED_PACKETS
  }

  // ---- Completion means the exact image ----

  lemma AllMarkedIsExact(c: Campaign, st: Status, flash: seq<Byte>)
    requires c.Valid() && StatusInv(c, st, flash)
    requires forall k :: 0 <= k < c.Count() ==> k in st.marks
    ensures Exact(c.image, flash)
  {
    forall i | 0 <= i < |c.image| ensures flash[i] == c.image[i] {
      assert 0 <= i / PACKET_MAX_SIZE < c.Count();
    }
  }

  /** A status that counts the whole image has every packet marked, and flash holds the image. */
  lemma CompleteIsExact(c: Campaign, st: Status, flash: seq<Byte>)
    requires c.Valid() && StatusInv(c, st, flash)
    ensures st.written <= st.total
    ensures st.written == st.total ==> Exact(c.image, flash)
    ensures st.written == st.total <==>
            st.err != MupgradeStop && forall k :: 0 <= k < c.Count() ==> k in st.marks
  {
    CompleteIffAllMarked(|c.image|, st.marks);
    if st.written == st.total {
      AllMarkedIsExact(c, st, flash);
    }
  }

  // ---- Flash steps ----

  lemma ErasedHolds(image: seq<Byte>, flash: seq<Byte>, n: nat)
    requires |image| <= n <= |flash|
    ensures FlashHolds(image, Erase(flash, 0, n), {})
  {
    var g := Erase(flash, 0, n);
    forall i | 0 <= i < |image| ensures Above(g[i], image[i]) {
      ErasedIsAbove(image[i]);
    }
  }

  lemma ProgrammedByte(c: Campaign, n: Node, p: Packet, kept: seq<Byte>, i: nat)
    requires c.Valid() && Genuine(c, p) && Fits(n, p) && |kept| == p.size
    requires i < |c.image| <= |n.flash| && Above(n.flash[i], c.image[i])
    ensures var g := Programmed(n, p, kept);
            Above(g[i], c.image[i]) && (n.flash[i] == c.image[i] ==> g[i] == c.image[i])
    ensures i / PACKET_MAX_SIZE == p.seqno && kept == Fill(p.size, 0) ==> Programmed(n, p, kept)[i] == c.image[i]
  {
    var at := p.seqno * PACKET_MAX_SIZE;
    if at <= i < at + p.size {
      var j := i - at;
      assert p.data[..p.size][j] == p.data[j] == c.image[i];
      AboveAfterProgram(n.flash[i], c.image[i], kept[j]);
    }
  }

  /** Programming a genuine packet, completely or in part, over a flash above the image. */
  lemma ProgrammedHolds(c: Campaign, n: Node, p: Packet, kept: seq<Byte>, marks: set<nat>)
    requires c.Valid() && Genuine(c, p) && Fits(n, p) && |kept| == p.size
    requires FlashHolds(c.image, n.flash, marks)
    ensures FlashHolds(c.image, Programmed(n, p, kept), marks)
    ensures (forall i :: 0 <= i < |kept| ==> kept[i] == 0) ==>
            FlashHolds(c.image, Programmed(n, p, kept), marks + {p.seqno})
  {
    var g := Programmed(n, p, kept);
    if forall i :: 0 <= i < |kept| ==> kept[i] == 0 {
      assert kept == Fill(p.size, 0);
    }
    forall i | 0 <= i < |c.image|
      ensures Above(g[i], c.image[i]) && (n.flash[i] == c.image[i] ==> g[i] == c.image[i])
      ensures i / PACKET_MAX_SIZE == p.seqno && kept == Fill(p.size, 0) ==> g[i] == c.image[i]
    {
      ProgrammedByte(c, n, p, kept, i);
    }
  }

  // ---- Handlers ----

  lemma TruncatedInv(c: Campaign, st: Status, flash: seq<Byte>)
    requires Resumable(c) && StatusInv(c, st, flash)
    ensures Truncated(st) == st
  {
    forall k ensures k in Truncated(st).marks <==> k in st.marks {
    }
  }

  lemma BegunInv(c: Campaign, n: Node, err: ErrorCode)
    requires c.Valid() && |c.image| <= |n.flash|
    ensures StatusInv(c, Status(c.name, err, |c.image|, 0, {}), Erase(n.flash, 0, EraseSize(|n.flash|, |c.image|)))
    ensures Truncated(Status(c.name, err, |c.image|, 0, {})) == Status(c.name, err, |c.image|, 0, {})
  {
    MarkedSizeOfNone(|c.image|, c.Count());
    ErasedHolds(c.image, n.flash, EraseSize(|n.flash|, |c.image|));
    assert Truncated(Status(c.name, err, |c.image|, 0, {})).marks == {};
  }

  /** A status request of the campaign, whatever the node remembers, keeps the invariant. */
  lemma StatusKeepsInv(c: Campaign, n: Node, err: ErrorCode)
    requires c.Valid() && NodeInv(c, n) && err != MupgradeStop
    ensures NodeInv(c, HandleStatus(n, c.name, |c.image|, err).node)
  {
    if n.config.None? && n.saved.None? {
      BegunInv(c, n, err);
    }
  }

  /** A duplicate, misplaced or refused packet changes neither flash nor marks; an accepted one is
      marked only once flash holds it. */
  lemma WriteKeepsInv(c: Campaign, n: Node, p: Packet, env: Env)
    requires c.Valid() && Resumable(c) && NodeInv(c, n)
    requires Genuine(c, p) && WellFormedEnv(env, p)
    ensures NodeInv(c, HandleWrite(n, p, env).node)
  {
    if Accepts(n, p) && Fits(n, p) {
      AcceptedKeepsInv(c, n, p, env);
    }
  }

  lemma FinishedAcceptsNothing(c: Campaign, n: Node, p: Packet)
    requires c.Valid() && NodeInv(c, n) && n.bootUpdate && p.seqno < c.Count()
    ensures !Accepts(n, p)
  {
    CompleteIsExact(c, n.config.value, n.flash);
  }

  lemma AcceptedKeepsInv(c: Campaign, n: Node, p: Packet, env: Env)
    requires c.Valid() && Resumable(c) && NodeInv(c, n)
    requires Genuine(c, p) && WellFormedEnv(env, p) && Accepts(n, p) && Fits(n, p)
    ensures NodeInv(c, HandleWrite(n, p, env).node)
  {
    if n.bootUpdate {
      FinishedAcceptsNothing(c, n, p);
    }
    var m := n.(config := Some(Loaded(n)));
    ProgrammedHolds(c, m, p, env.kept, Loaded(n).marks);
    if n.saved.Some? {
      ProgrammedHolds(c, m, p, env.kept, n.saved.value.marks);
    }
    if env.writeOk {
      var m' := m.(flash := Programmed(m, p, env.kept));
      CountedKeepsInv(c, m', p, env.bootOk);
    }
  }

  /** Marking and counting a packet that flash already holds. */
  lemma MarkedInv(c: Campaign, st: Status, flash: seq<Byte>, p: Packet)
    requires StatusInv(c, st, flash) && st.err != MupgradeStop
    requires Genuine(c, p) && p.seqno !in st.marks
    requires FlashHolds(c.image, flash, st.marks + {p.seqno})
    ensures StatusInv(c, st.(written := st.written + p.size, marks := st.marks + {p.seqno}), flash)
  {
    MarkedSizeAfterMark(|c.image|, st.marks, p.seqno, c.Count());
  }

  lemma CountedKeepsInv(c: Campaign, n: Node, p: Packet, bootOk: bool)
    requires c.Valid() && Resumable(c) && NodeInv(c, n) && !n.bootUpdate && n.config.Some?
    requires n.config.value.err != MupgradeStop && Genuine(c, p) && p.seqno !in n.config.value.marks
    requires FlashHolds(c.image, n.flash, n.config.value.marks + {p.seqno})
    ensures NodeInv(c, Counted(n, p, bootOk).node)
  {
    var prior := n.config.value;
    var st := prior.(written := prior.written + p.size, marks := prior.marks + {p.seqno});
    MarkedInv(c, prior, n.flash, p);
    TruncatedInv(c, st, n.flash);
  }

  lemma StopKeepsInv(c: Campaign, n: Node, bootOk: bool)
    requires NodeInv(c, n)
    ensures NodeInv(c, HandleStop(n, bootOk).node)
  {
  }

  lemma RestartKeepsInv(c: Campaign, n: Node, other: seq<Byte>)
    requires NodeInv(c, n) && |other| == |n.flash|
    ensures NodeInv(c, Restarted(n, other))
  {
  }

  /** Power loss inside mupgrade_write: flash may hold part of a packet that no bitmap marks, or a
      checkpoint may already count a packet; resuming is sound either way. */
  lemma CrashKeepsInv(c: Campaign, n: Node, p: Packet, kept: seq<Byte>, stored: bool)
    requires c.Valid() && Resumable(c) && NodeInv(c, n)
    requires Genuine(c, p) && |kept| == p.size
    ensures NodeInv(c, Crashed(n, p, kept, stored))
  {
    if Accepts(n, p) && Fits(n, p) {
      if n.bootUpdate {
        FinishedAcceptsNothing(c, n, p);
      }
      var k := if stored then Fill(p.size, 0) else kept;
      if n.config.Some? {
        ProgrammedHolds(c, n, p, k, n.config.value.marks);
      }
      if n.saved.Some? {
        ProgrammedHolds(c, n, p, k, n.saved.value.marks);
      }
      if stored {
        var st := Loaded(n);
        ProgrammedHolds(c, n, p, k, st.marks);
        var g := Programmed(n, p, k);
        MarkedInv(c, st, g, p);
        TruncatedInv(c, st.(written := st.written + p.size, marks := st.marks + {p.seqno}), g);
      }
    }
  }

  /** A report of completion is sent only by a node whose partition holds the image at that moment. */
  lemma ReportIsHonest(c: Campaign, n: Node, r: Report)
    requires c.Valid() && NodeInv(c, n) && n.config.Some?
    requires r == StatusReport(n.config.value) || r == BareReport(n.config.value)
    ensures r.total == |c.image| && r.written <= r.total
    ensures r.written == r.total ==> Exact(c.image, n.flash)
    ensures r.err == MupgradeStop ==> r.written == 0
  {
    CompleteIsExact(c, n.config.value, n.flash);
  }

  /** Whatever a handler reports describes the node it leaves behind. */
  lemma ReportsOwnState(n: Node, name: string, total: nat, err: ErrorCode, p: Packet, env: Env)
    requires WellFormed(p) && WellFormedEnv(env, p) && Ready(n)
    ensures var r := HandleStatus(n, name, total, err);
            r.node.config.Some? && r.report == Some(StatusReport(r.node.config.value))
    ensures var r := HandleWrite(n, p, env);
            r.report.Some? ==> r.node.config.Some? && r.report.value == BareReport(r.node.config.value)
    ensures var r := HandleStop(n, env.bootOk);
            r.report.Some? ==> r.node.config.Some? && r.report.value == BareReport(r.node.config.value)
  {
  }

  // ---- Runs of one node ----

  /** Everything that can happen to a node: a status request of the campaign, a genuine data packet
      (lost packets never happen, repeated and late ones happen again), a local stop, a power cycle,
      and a power loss while a packet is being handled. */
  datatype Event =
    | Ask(err: ErrorCode)
    | Deliver(p: Packet, env: Env)
    | Halt(bootOk: bool)
    | PowerCycle(other: seq<Byte>)
    | PowerLoss(lost: Packet, kept: seq<Byte>, stored: bool, after: seq<Byte>)

  ghost predicate Possible(c: Campaign, n: Node, e: Event) {
    match e
    case Ask(err) => err != MupgradeStop
    case Deliver(p, env) => Genuine(c, p) && WellFormedEnv(env, p)
    case Halt(_) => true
    case PowerCycle(other) => |other| == |n.flash|
    case PowerLoss(p, kept, _, after) => Genuine(c, p) && |kept| == p.size && |after| == |n.flash|
  }

  /** The node after e, and what it sends. */
  ghost function Step(c: Campaign, n: Node, e: Event): Reply
    requires Possible(c, n, e) && Ready(n)
  {
    match e
    case Ask(err) => HandleStatus(n, c.name, |c.image|, err)
    case Deliver(p, env) => HandleWrite(n, p, env)
    case Halt(bootOk) => HandleStop(n, bootOk)
    case PowerCycle(other) => Reply(Restarted(n, other), MdfOk, None)
    case PowerLoss(p, kept, stored, after) => Reply(Restarted(Crashed(n, p, kept, stored), after), MdfOk, None)
  }

  lemma StepKeepsInv(c: Campaign, n: Node, e: Event)
    requires c.Valid() && Resumable(c) && NodeInv(c, n) && Possible(c, n, e)
    ensures NodeInv(c, Step(c, n, e).node)
  {
    match e
    case Ask(err) => StatusKeepsInv(c, n, err);
    case Deliver(p, env) => WriteKeepsInv(c, n, p, env);
    case Halt(bootOk) => StopKeepsInv(c, n, bootOk);
    case PowerCycle(other) => RestartKeepsInv(c, n, other);
    case PowerLoss(p, kept, stored, after) =>
      CrashKeepsInv(c, n, p, kept, stored);
      RestartKeepsInv(c, Crashed(n, p, kept, stored), after);
  }

  /** n' is reached from n by the events es. */
  ghost predicate Reaches(c: Campaign, n: Node, es: seq<Event>, n': Node)
    decreases |es|
  {
    if es == [] then n == n'
    else Ready(n) && Possible(c, n, es[0]) && Reaches(c, Step(c, n, es[0]).node, es[1..], n')
  }

  /** Crash-resume safety: over every run from a node that starts fresh, the invariant holds, so flash
      stays above the image and completion means the exact image. */
  lemma {:induction false} RunKeepsInv(c: Campaign, n: Node, es: seq<Event>, n': Node)
    requires c.Valid() && Resumable(c) && NodeInv(c, n) && Reaches(c, n, es, n')
    ensures NodeInv(c, n')
    decreases |es|
  {
    if es == [] {
    } else {
      StepKeepsInv(c, n, es[0]);
      RunKeepsInv(c, Step(c, n, es[0]).node, es[1..], n');
    }
  }

  lemma {:induction false} ReachesTransitive(c: Campaign, a: Node, es: seq<Event>, b: Node, fs: seq<Event>, d: Node)
    requires Reaches(c, a, es, b) && Reaches(c, b, fs, d)
    ensures Reaches(c, a, es + fs, d)
    decreases |es|
  {
    hide Step, Possible, Ready;
    if es == [] {
      assert es + fs == fs;
    } else {
      ReachesTransitive(c, Step(c, a, es[0]).node, es[1..], b, fs, d);
      assert (es + fs)[1..] == es[1..] + fs;
    }
  }
}
