/** The whole upgrade: a root, any number of nodes, and a network that loses, repeats and reorders
    every message. End-to-end safety over all runs, and progress of one lossless round.
 */
module UpgradeSystem {
  import opened Bytes
  import opened Wrappers
  import opened Bitmap
  import opened AddrList
  import opened UpgradePackets
  import opened UpgradeNode
  import opened UpgradeNodeSafety
  import opened UpgradeRoot

  /** A report once sent, with the sender's update partition at that moment. */
  datatype Entry = Entry(src: Addr, report: Report, flash: seq<Byte>)

  /** log holds every report ever sent and air every data packet ever sent: a message is lost when no
      step uses it, repeated when several do, and reordered when they do so in another order. */
  datatype System = System(nodes: map<Addr, Node>, log: seq<Entry>, root: Root, air: seq<Packet>)

  datatype Action =
    | AtNode(a: Addr, e: Event)
    | RootDrains(i: nat)
    | RootResets
    | RootBegins
    | RootCollects(i: nat)
    | RootMidSend(i: nat)
    | RootSends(p: Packet)

  ghost predicate Enabled(c: Campaign, s: System, x: Action) {
    match x
    case AtNode(a, e) =>
      a in s.nodes && Ready(s.nodes[a]) && Possible(c, s.nodes[a], e) && (e.Deliver? ==> e.p in s.air)
    case RootDrains(i) => i < |s.log|
    case RootResets => true
    case RootBegins => true
    case RootCollects(i) => i < |s.log|
    case RootMidSend(i) => i < |s.log|
    case RootSends(p) => Genuine(c, p) && p.seqno !in s.root.progress
  }

  ghost function Act(c: Campaign, s: System, x: Action): System
    requires Enabled(c, s, x)
  {
    match x
    case AtNode(a, e) =>
      var r := Step(c, s.nodes[a], e);
      s.(nodes := s.nodes[a := r.node],
         log := if r.report.Some? then s.log + [Entry(a, r.report.value, r.node.flash)] else s.log)
    case RootDrains(i) => s.(root := Drain(s.root, s.log[i].src, s.log[i].report))
    case RootResets => s.(root := s.root.(requested := []))
    case RootBegins => s.(root := BeginRound(s.root))
    case RootCollects(i) => s.(root := Collect(s.root, s.log[i].src, s.log[i].report))
    case RootMidSend(i) => s.(root := MidSend(s.root, s.log[i].src, s.log[i].report))
    case RootSends(p) => s.(air := s.air + [p])
  }

  ghost predicate HonestEntry(c: Campaign, x: Entry) {
    Coherent(x.report) && x.report.total == |c.image| && (Complete(x.report) ==> Exact(c.image, x.flash))
  }

  /** a reported completion while its partition held exactly the image. */
  ghost predicate ProvedComplete(c: Campaign, log: seq<Entry>, a: Addr) {
    exists i :: 0 <= i < |log| && log[i].src == a && Complete(log[i].report) && Exact(c.image, log[i].flash)
  }

  ghost predicate ReportedStop(log: seq<Entry>, a: Addr) {
    exists i :: 0 <= i < |log| && log[i].src == a && log[i].report.err == MupgradeStop
  }

  ghost predicate RootInv(c: Campaign, targets: multiset<Addr>, log: seq<Entry>, r: Root) {
    Accounted(r) == targets &&
    (forall a :: a in r.successed ==> ProvedComplete(c, log, a)) &&
    (forall a :: a in r.stopped ==> ReportedStop(log, a))
  }

  ghost predicate SystemInv(c: Campaign, targets: multiset<Addr>, s: System) {
    (forall a :: a in s.nodes ==> NodeInv(c, s.nodes[a])) &&
    (forall i :: 0 <= i < |s.log| ==> HonestEntry(c, s.log[i])) &&
    (forall i :: 0 <= i < |s.air| ==> Genuine(c, s.air[i])) &&
    RootInv(c, targets, s.log, s.root)
  }

  /** A run begins with nodes that know nothing of the campaign and nobody credited. */
  ghost predicate Initial(c: Campaign, targets: multiset<Addr>, s: System) {
    (forall a :: a in s.nodes ==> Untouched(c, s.nodes[a])) && s.log == [] && s.air == [] &&
    multiset(s.root.unfinished) == targets && s.root.successed == [] && s.root.stopped == []
  }

  ghost predicate Runs(c: Campaign, s: System, xs: seq<Action>, s': System)
    decreases |xs|
  {
    if xs == [] then s == s' else Enabled(c, s, xs[0]) && Runs(c, Act(c, s, xs[0]), xs[1..], s')
  }

  // ---- Every report is honest ----

  lemma PartialIsCoherent(c: Campaign, st: Status, flash: seq<Byte>)
    requires c.Valid() && StatusInv(c, st, flash)
    ensures Coherent(StatusReport(st))
  {
    CompleteIsExact(c, st, flash);
    if st.written != 0 && st.written != st.total {
      var k :| 0 <= k < c.Count() && k !in st.marks;
      assert k in AllMarks(BITMAP_SIZE);
    }
  }

  /** Bare reports are sent only when nothing or everything is counted. */
  lemma BareIsExtreme(n: Node, p: Packet, env: Env)
    requires WellFormed(p) && WellFormedEnv(env, p) && Ready(n)
    ensures var r := HandleWrite(n, p, env).report; r.Some? ==> r.value.written == 0 || Complete(r.value)
    ensures var r := HandleStop(n, env.bootOk).report; r.Some? ==> r.value.written == 0
  {
  }

  lemma StepIsHonest(c: Campaign, n: Node, e: Event, a: Addr)
    requires c.Valid() && Resumable(c) && NodeInv(c, n) && Ready(n) && Possible(c, n, e)
    ensures var r := Step(c, n, e); r.report.Some? ==> HonestEntry(c, Entry(a, r.report.value, r.node.flash))
  {
    StepKeepsInv(c, n, e);
    var r := Step(c, n, e);
    if r.report.Some? {
      match e
      case Ask(err) =>
        assert r.report.value == StatusReport(r.node.config.value);
        PartialIsCoherent(c, r.node.config.value, r.node.flash);
        ReportIsHonest(c, r.node, r.report.value);
      case Deliver(p, env) =>
        BareIsExtreme(n, p, env);
        ReportsOwnState(n, c.name, |c.image|, MdfOk, p, env);
        ReportIsHonest(c, r.node, r.report.value);
      case Halt(bootOk) =>
        assert r.report.value == BareReport(r.node.config.value);
        ReportIsHonest(c, r.node, r.report.value);
      case PowerCycle(_) =>
      case PowerLoss(_, _, _, _) =>
    }
  }

  // ---- Every action keeps the invariant ----

  lemma LogGrows(c: Campaign, targets: multiset<Addr>, log: seq<Entry>, x: Entry, r: Root)
    requires RootInv(c, targets, log, r)
    ensures RootInv(c, targets, log + [x], r)
  {
    var more := log + [x];
    forall a | a in r.successed ensures ProvedComplete(c, more, a) {
      var i :| 0 <= i < |log| && log[i].src == a && Complete(log[i].report) && Exact(c.image, log[i].flash);
      assert more[i] == log[i];
    }
    forall a | a in r.stopped ensures ReportedStop(more, a) {
      var i :| 0 <= i < |log| && log[i].src == a && log[i].report.err == MupgradeStop;
      assert more[i] == log[i];
    }
  }

  lemma MoveKeepsRoot(c: Campaign, targets: multiset<Addr>, log: seq<Entry>, i: nat, r: Root, s: Root)
    requires RootInv(c, targets, log, r) && i < |log| && HonestEntry(c, log[i])
    requires MovesSender(r, s, log[i].src, log[i].report) && Accounted(s) == Accounted(r)
    ensures RootInv(c, targets, log, s)
  {
  }

  lemma RootActionKeepsInv(c: Campaign, targets: multiset<Addr>, s: System, x: Action)
    requires SystemInv(c, targets, s) && Enabled(c, s, x) && !x.AtNode?
    ensures SystemInv(c, targets, Act(c, s, x))
  {
    match x
    case RootDrains(i) =>
      DrainMovesSender(s.root, s.log[i].src, s.log[i].report);
      DrainConserves(s.root, s.log[i].src, s.log[i].report);
      MoveKeepsRoot(c, targets, s.log, i, s.root, Act(c, s, x).root);
    case RootCollects(i) =>
      CollectMovesSender(s.root, s.log[i].src, s.log[i].report);
      CollectConserves(s.root, s.log[i].src, s.log[i].report);
      MoveKeepsRoot(c, targets, s.log, i, s.root, Act(c, s, x).root);
    case RootMidSend(i) =>
      MidSendMovesSender(s.root, s.log[i].src, s.log[i].report);
      MidSendConserves(s.root, s.log[i].src, s.log[i].report);
      MoveKeepsRoot(c, targets, s.log, i, s.root, Act(c, s, x).root);
    case RootResets =>
    case RootBegins =>
    case RootSends(p) =>
  }

  lemma NodeActionKeepsInv(c: Campaign, targets: multiset<Addr>, s: System, a: Addr, e: Event)
    requires c.Valid() && Resumable(c)
    requires SystemInv(c, targets, s) && Enabled(c, s, AtNode(a, e))
    ensures SystemInv(c, targets, Act(c, s, AtNode(a, e)))
  {
    StepKeepsInv(c, s.nodes[a], e);
    StepIsHonest(c, s.nodes[a], e, a);
    var r := Step(c, s.nodes[a], e);
    if r.report.Some? {
      LogGrows(c, targets, s.log, Entry(a, r.report.value, r.node.flash), s.root);
    }
  }

  lemma {:induction false} RunKeepsSystemInv(c: Campaign, targets: multiset<Addr>, s: System, xs: seq<Action>,
                                             s': System)
    requires c.Valid() && Resumable(c) && SystemInv(c, targets, s) && Runs(c, s, xs, s')
    ensures SystemInv(c, targets, s')
    decreases |xs|
  {
    if xs == [] {
    } else {
      if xs[0].AtNode? {
        NodeActionKeepsInv(c, targets, s, xs[0].a, xs[0].e);
      } else {
        RootActionKeepsInv(c, targets, s, xs[0]);
      }
      RunKeepsSystemInv(c, targets, Act(c, s, xs[0]), xs[1..], s');
    }
  }

  /** End-to-end safety and conservation, over every run of the system: each address the root has
      credited belongs to a node that reported completion while its partition held exactly the image,
      each address given up belongs to a node that reported a stop, and every target, as often as it
      was listed, is unfinished, credited or given up. */
  lemma UpgradeIsSafe(c: Campaign, targets: multiset<Addr>, s: System, xs: seq<Action>, s': System)
    requires c.Valid() && Resumable(c) && Initial(c, targets, s) && Runs(c, s, xs, s')
    ensures forall a :: a in s'.root.successed ==> ProvedComplete(c, s'.log, a)
    ensures forall a :: a in s'.root.stopped ==> ReportedStop(s'.log, a)
    ensures Accounted(s'.root) == targets
  {
    RunKeepsSystemInv(c, targets, s, xs, s');
  }

  /** Every message in the root's queue is a report some node sent. */
  ghost predicate Authentic(inbox: seq<Option<Message>>, log: seq<Entry>) {
    forall k :: 0 <= k < |inbox| && inbox[k].Some? ==>
      exists i :: 0 <= i < |log| && log[i].src == inbox[k].value.src && log[i].report == inbox[k].value.Value()
  }

  /** So a send run that reads only such messages meets the precondition of mupgrade_firmware_send, and
      what it credits is exact and what it gives up has stopped. */
  lemma SendRunIsSafe(c: Campaign, targets: multiset<Addr>, inbox: seq<Option<Message>>, at: nat, r: Root,
                      log: seq<Entry>)
    requires Authentic(inbox, log) && forall i :: 0 <= i < |log| ==> HonestEntry(c, log[i])
    ensures CoherentInbox(inbox)
    ensures RunInv(targets, inbox, at, r) ==> RootInv(c, targets, log, r)
  {
    if RunInv(targets, inbox, at, r) {
      forall a | a in r.successed ensures ProvedComplete(c, log, a) {
        assert CompletedBefore(inbox, at, a);
      }
      forall a | a in r.stopped ensures ReportedStop(log, a) {
        assert StoppedBefore(inbox, at, a);
      }
    }
  }

  // ---- One lossless round suffices ----

  /** A node in the middle of the campaign, or at its end and set to boot the image. */
  ghost predicate Live(c: Campaign, n: Node) {
    |c.image| <= |n.flash| && n.config.Some? && n.config.value.err == MdfOk &&
    StatusInv(c, n.config.value, n.flash) && Ready(n) && (n.config.value.written == |c.image| ==> n.bootUpdate)
  }

  function Smooth(p: Packet): Env {
    Env(true, Fill(p.size, 0), true)
  }

  lemma DeliveryMarks(c: Campaign, n: Node, p: Packet)
    requires c.Valid() && Live(c, n) && Genuine(c, p)
    ensures var n' := HandleWrite(n, p, Smooth(p)).node;
            Live(c, n') && n'.config.value.marks == n.config.value.marks + {p.seqno}
  {
    var st := n.config.value;
    if p.seqno in st.marks {
      assert st.marks == st.marks + {p.seqno};
    } else {
      ProgrammedHolds(c, n, p, Smooth(p).kept, st.marks);
      MarkedInv(c, st, Programmed(n, p, Smooth(p).kept), p);
    }
  }

  ghost function DeliverAll(c: Campaign, n: Node, ps: seq<Packet>): Node
    requires c.Valid() && Live(c, n) && forall p :: p in ps ==> Genuine(c, p)
    decreases |ps|
  {
    if ps == [] then n
    else
      DeliveryMarks(c, n, ps[0]);
      DeliverAll(c, HandleWrite(n, ps[0], Smooth(ps[0])).node, ps[1..])
  }

  lemma {:induction false} DeliveriesMark(c: Campaign, n: Node, ps: seq<Packet>)
    requires c.Valid() && Live(c, n) && forall p :: p in ps ==> Genuine(c, p)
    ensures Live(c, DeliverAll(c, n, ps))
    ensures n.config.value.marks <= DeliverAll(c, n, ps).config.value.marks
    ensures forall p :: p in ps ==> p.seqno in DeliverAll(c, n, ps).config.value.marks
    decreases |ps|
  {
    if ps == [] {
    } else {
      DeliveryMarks(c, n, ps[0]);
      DeliveriesMark(c, HandleWrite(n, ps[0], Smooth(ps[0])).node, ps[1..]);
    }
  }

  /** If a node's reply was heard in a round, and every packet the merge left clear then reaches it, in
      any order and any number of times, the node holds the exact image, is set to boot it, and says so when
      next asked, whatever it and the other nodes had before. */
  lemma LosslessRound(c: Campaign, n: Node, err: ErrorCode, heard: seq<Arrival>, i: nat, a: Addr, ps: seq<Packet>)
    requires c.Valid() && NodeInv(c, n) && err != MupgradeStop
    requires var r := HandleStatus(n, c.name, |c.image|, err);
             r.report.value.err != MupgradeStop && !Complete(r.report.value) &&
             i < |heard| && heard[i] == Arrived(a, r.report.value)
    requires forall p :: p in ps ==> Genuine(c, p)
    requires forall k: nat :: k < c.Count() && k !in MergeAll(heard) ==> exists p :: p in ps && p.seqno == k
    ensures var n0 := HandleStatus(n, c.name, |c.image|, err).node;
            Live(c, n0) &&
            var n' := DeliverAll(c, n0, ps);
            Exact(c.image, n'.flash) && n'.bootUpdate &&
            Complete(HandleStatus(n', c.name, |c.image|, err).report.value)
  {
    var r := HandleStatus(n, c.name, |c.image|, err);
    StatusKeepsInv(c, n, err);
    DeliveriesMark(c, r.node, ps);
    MergedIsEverywhere(heard, i);
    var n' := DeliverAll(c, r.node, ps);
    forall k | 0 <= k < c.Count() ensures k in n'.config.value.marks {
      if k in MergeAll(heard) {
        assert k in Contribution(heard[i]);
      }
    }
    CompleteIsExact(c, n'.config.value, n'.flash);
  }

  function PacketsOf(sent: seq<Outgoing>): (ps: seq<Packet>)
    requires forall i :: 0 <= i < |sent| ==> sent[i].Data?
    ensures |ps| == |sent| && forall i :: 0 <= i < |sent| ==> ps[i] == sent[i].packet
  {
    seq(|sent|, i requires 0 <= i < |sent| => sent[i].packet)
  }

  /** So it is enough that everything a full pass of the root sends arrives. */
  lemma FullPassCompletes(c: Campaign, n: Node, err: ErrorCode, heard: seq<Arrival>, i: nat, a: Addr,
                          sent: seq<Outgoing>)
    requires c.Valid() && NodeInv(c, n) && err != MupgradeStop
    requires var r := HandleStatus(n, c.name, |c.image|, err);
             r.report.value.err != MupgradeStop && !Complete(r.report.value) &&
             i < |heard| && heard[i] == Arrived(a, r.report.value)
    requires Resent(c, MergeAll(heard), sent, c.Count())
    ensures var n0 := HandleStatus(n, c.name, |c.image|, err).node;
            Live(c, n0) && (forall p :: p in PacketsOf(sent) ==> Genuine(c, p)) &&
            Exact(c.image, DeliverAll(c, n0, PacketsOf(sent)).flash) && DeliverAll(c, n0, PacketsOf(sent)).bootUpdate
  {
    var ps := PacketsOf(sent);
    forall k: nat | k < c.Count() && k !in MergeAll(heard) ensures exists p :: p in ps && p.seqno == k {
      assert Sent(sent, k);
      var j :| 0 <= j < |sent| && sent[j].Data? && sent[j].packet.seqno == k;
      assert ps[j] in ps;
    }
    LosslessRound(c, n, err, heard, i, a, ps);
  }

  /** And a completion report that reaches the root finishes the address, before or during a round. */
  lemma CompletionIsCredited(r: Root, a: Addr, report: Report)
    requires a in r.unfinished && Complete(report) && report.total > 0 && report.err != MupgradeStop
    ensures Drain(r, a, report).successed == r.successed + [a]
    ensures multiset(Drain(r, a, report).unfinished) == multiset(r.unfinished) - multiset{a}
    ensures a in r.asked ==> Collect(r, a, report).successed == r.successed + [a]
    ensures a in r.asked ==> multiset(Collect(r, a, report).unfinished) == multiset(r.unfinished) - multiset{a}
  {
    RemoveFirstMultiset(r.unfinished, a);
  }
}
