/** The root's side of the mesh upgrade (mupgrade_root.c): how one report moves an address between the
    lists, the merge of the bitmaps, and the class that runs status rounds and resends.
 */
module UpgradeRoot {
  import opened Bytes
  import opened Wrappers
  import opened Bitmap
  import opened AddrList
  import opened UpgradePackets
  import opened UpgradeNode

  /** A report as it sits in the receive queue. */
  datatype Arrival = Quiet | Arrived(src: Addr, report: Report)

  /** The lists of mupgrade_result_t, the request list of the running round and the merged progress.
      stopped and heard record what the C code forgets: the addresses given up because the node
      stopped, and the incomplete reports accepted in this round. */
  datatype Root = Root(unfinished: seq<Addr>, successed: seq<Addr>, requested: seq<Addr>,
                       asked: seq<Addr>, progress: set<nat>, stopped: seq<Addr>, heard: seq<Arrival>)

  predicate Complete(report: Report) {
    report.written == report.total
  }

  function GiveUp(r: Root, a: Addr): Root {
    if a in r.unfinished then r.(unfinished := RemoveFirst(r.unfinished, a), stopped := r.stopped + [a]) else r
  }

  function Credit(r: Root, a: Addr): Root {
    if a in r.unfinished then r.(unfinished := RemoveFirst(r.unfinished, a), successed := r.successed + [a]) else r
  }

  /** A report received before a round begins. */
  function Drain(r: Root, a: Addr, report: Report): Root {
    if Complete(report) then Credit(r, a)
    else if report.err == MupgradeStop then GiveUp(r, a)
    else r
  }

  /** The start of a round: everyone unfinished is asked, and every packet counts as present. */
  function BeginRound(r: Root): Root {
    r.(asked := r.unfinished, progress := AllMarks(BITMAP_SIZE), heard := [])
  }

  function Incomplete(r: Root, a: Addr, report: Report): Root {
    if Complete(report) then r
    else r.(requested := r.requested + [a], heard := r.heard + [Arrived(a, report)])
  }

  /** A report received while a round collects replies. */
  function Collect(r: Root, a: Addr, report: Report): Root {
    if report.err == MupgradeStop then GiveUp(r, a).(asked := RemoveFirst(r.asked, a))
    else if a !in r.asked then r
    else
      var s := Incomplete(r.(asked := RemoveFirst(r.asked, a)), a, report);
      if report.written == 0 then s.(progress := {})
      else if Complete(report) then Credit(s, a)
      else s.(progress := s.progress * Reported(report))
  }

  /** The bitmap of a report; the C code reads it only from partial reports. */
  function Reported(report: Report): set<nat> {
    if report.marks.Some? then report.marks.value else {}
  }

  /** A report received between two data packets; the completion test there asks for a written size
      of zero. */
  function MidSend(r: Root, a: Addr, report: Report): Root {
    if report.written == 0 && Complete(report) then
      if a !in r.unfinished then r
      else if a !in r.requested then r.(unfinished := RemoveFirst(r.unfinished, a))
      else Credit(r, a).(requested := RemoveFirst(r.requested, a))
    else if report.err == MupgradeStop then GiveUp(r, a).(requested := RemoveFirst(r.requested, a))
    else r
  }

  // ---- Conservation ----

  /** Where every target of the run is now. */
  function Accounted(r: Root): multiset<Addr> {
    multiset(r.unfinished) + multiset(r.successed) + multiset(r.stopped)
  }

  lemma MovesOne(list: seq<Addr>, done: seq<Addr>, a: Addr)
    requires a in list
    ensures multiset(RemoveFirst(list, a)) + multiset(done + [a]) == multiset(list) + multiset(done)
  {
    RemoveFirstMultiset(list, a);
    assert multiset(done + [a]) == multiset(done) + multiset{a};
  }

  lemma GiveUpConserves(r: Root, a: Addr)
    ensures Accounted(GiveUp(r, a)) == Accounted(r)
    ensures Accounted(Credit(r, a)) == Accounted(r)
  {
    if a in r.unfinished {
      MovesOne(r.unfinished, r.successed, a);
      MovesOne(r.unfinished, r.stopped, a);
    }
  }

  /** No report of a round moves an address out of the account. */
  lemma DrainConserves(r: Root, a: Addr, report: Report)
    ensures Accounted(Drain(r, a, report)) == Accounted(r)
  {
    GiveUpConserves(r, a);
  }

  lemma CollectConserves(r: Root, a: Addr, report: Report)
    ensures Accounted(Collect(r, a, report)) == Accounted(r)
  {
    if report.err == MupgradeStop {
      GiveUpConserves(r, a);
    } else if a in r.asked && Complete(report) {
      GiveUpConserves(r.(asked := RemoveFirst(r.asked, a)), a);
    }
  }

  /** A report of zero bytes of zero from an unfinished node that is not requested. */
  predicate DropsSender(r: Root, a: Addr, report: Report) {
    report.total == 0 && report.written == 0 && a in r.unfinished && a !in r.requested
  }

  lemma MidSendDrops(r: Root, a: Addr, report: Report)
    requires DropsSender(r, a, report)
    ensures multiset(MidSend(r, a, report).unfinished) == multiset(r.unfinished) - multiset{a}
    ensures |Accounted(MidSend(r, a, report))| == |Accounted(r)| - 1
  {
    RemoveFirstMultiset(r.unfinished, a);
  }

  lemma MidSendKeepsAccount(r: Root, a: Addr, report: Report)
    requires !DropsSender(r, a, report)
    ensures Accounted(MidSend(r, a, report)) == Accounted(r)
  {
    hide Accounted;
    GiveUpConserves(r, a);
    AccountIgnoresRequests(MidSend(r, a, report), r);
    AccountIgnoresRequests(MidSend(r, a, report), GiveUp(r, a));
    AccountIgnoresRequests(MidSend(r, a, report), Credit(r, a));
  }

  lemma AccountIgnoresRequests(r: Root, s: Root)
    ensures r.unfinished == s.unfinished && r.successed == s.successed && r.stopped == s.stopped ==>
              Accounted(r) == Accounted(s)
  {
  }

  /** Between packets an address is lost exactly when a report of zero bytes of zero arrives from an
      unfinished node that is not requested; no image is empty, so no node sends one. */
  lemma MidSendConserves(r: Root, a: Addr, report: Report)
    ensures Accounted(MidSend(r, a, report)) == Accounted(r) <==> !DropsSender(r, a, report)
  {
    if DropsSender(r, a, report) {
      MidSendDrops(r, a, report);
    } else {
      MidSendKeepsAccount(r, a, report);
    }
  }

  // ---- The merge ----

  /** A report a node of the campaign can send: a nonempty image, and a partial one names its packets. */
  ghost predicate Coherent(report: Report) {
    report.total > 0 && report.written <= report.total &&
    (report.err == MupgradeStop ==> report.written == 0) &&
    (report.written != 0 && !Complete(report) ==>
       report.marks.Some? && !(AllMarks(BITMAP_SIZE) <= report.marks.value))
  }

  /** A report that the root can take in and that keeps its account: not zero bytes of zero, and a partial one
      brings its bitmap. */
  predicate Telling(report: Report) {
    !(report.total == 0 && report.written == 0) && (report.written != 0 && !Complete(report) ==> report.marks.Some?)
  }

  function Contribution(x: Arrival): set<nat> {
    if x.Arrived? && x.report.written != 0 then Reported(x.report) else {}
  }

  /** What the AND of the replies leaves. */
  function MergeAll(heard: seq<Arrival>): set<nat> {
    if heard == [] then AllMarks(BITMAP_SIZE)
    else MergeAll(heard[..|heard| - 1]) * Contribution(heard[|heard| - 1])
  }

  /** A packet survives the merge only if every node heard has reported it. */
  lemma {:induction false} MergedIsEverywhere(heard: seq<Arrival>, i: nat)
    requires i < |heard|
    ensures MergeAll(heard) <= Contribution(heard[i])
  {
    var pre := heard[..|heard| - 1];
    if i == |pre| {
    } else {
      MergedIsEverywhere(pre, i);
    }
  }

  /** And a packet every node heard has reported survives the merge. */
  lemma {:induction false} EverywhereIsMerged(heard: seq<Arrival>, k: nat)
    requires k < PACKET_MAX_NUM
    requires forall i :: 0 <= i < |heard| ==> k in Contribution(heard[i])
    ensures k in MergeAll(heard)
  {
    if heard == [] {
    } else {
      EverywhereIsMerged(heard[..|heard| - 1], k);
    }
  }

  function Sources(heard: seq<Arrival>): seq<Addr>
    requires forall x :: x in heard ==> x.Arrived?
  {
    seq(|heard|, i requires 0 <= i < |heard| => heard[i].src)
  }

  /** What holds while a round collects replies: nobody unfinished is forgotten, and requested and
      progress are what the replies heard so far say. */
  ghost predicate RoundInv(r: Root) {
    (forall x :: x in r.heard ==> x.Arrived? && !Complete(x.report)) &&
    r.requested == Sources(r.heard) && r.progress == MergeAll(r.heard) &&
    multiset(r.unfinished) <= multiset(r.asked) + multiset(r.requested)
  }

  lemma BeginRoundInv(r: Root)
    requires r.requested == []
    ensures RoundInv(BeginRound(r))
  {
  }

  /** An accepted incomplete report: its sender is requested and its marks are merged in. */
  lemma HearingKeepsRoundInv(r: Root, a: Addr, report: Report, s: Root)
    requires RoundInv(r) && Telling(report) && !Complete(report) && a in r.asked
    requires s == r.(asked := RemoveFirst(r.asked, a), requested := r.requested + [a],
                     heard := r.heard + [Arrived(a, report)],
                     progress := r.progress * Contribution(Arrived(a, report)))
    ensures RoundInv(s)
  {
    assert s.heard[..|r.heard|] == r.heard;
    assert s.requested == Sources(s.heard);
    RemoveFirstMultiset(r.asked, a);
    assert multiset(s.requested) == multiset(r.requested) + multiset{a};
  }

  lemma CoveredAfterRemoval(u: seq<Addr>, q: seq<Addr>, d: seq<Addr>, a: Addr)
    requires multiset(u) <= multiset(q) + multiset(d)
    ensures multiset(RemoveFirst(u, a)) <= multiset(RemoveFirst(q, a)) + multiset(d)
  {
    RemoveFirstMultiset(u, a);
    RemoveFirstMultiset(q, a);
  }

  /** What an incomplete reply does, in one update. */
  lemma CollectIncomplete(r: Root, a: Addr, report: Report)
    requires Telling(report) && !Complete(report) && report.err != MupgradeStop && a in r.asked
    ensures Collect(r, a, report) ==
            r.(asked := RemoveFirst(r.asked, a), requested := r.requested + [a],
               heard := r.heard + [Arrived(a, report)],
               progress := r.progress * Contribution(Arrived(a, report)))
  {
    assert report.written == 0 ==> r.progress * Contribution(Arrived(a, report)) == {};
  }

  /** Any other reply leaves what was heard alone and takes its sender off both lists, or off none. */
  lemma CollectOther(r: Root, a: Addr, report: Report)
    requires Telling(report) && (Complete(report) || report.err == MupgradeStop || a !in r.asked)
    ensures var s := Collect(r, a, report);
            s.heard == r.heard && s.requested == r.requested && s.progress == r.progress &&
            ((s.unfinished == r.unfinished && s.asked == r.asked) ||
             (s.unfinished == RemoveFirst(r.unfinished, a) && s.asked == RemoveFirst(r.asked, a)))
  {
  }

  lemma CollectKeepsRoundInv(r: Root, a: Addr, report: Report)
    requires RoundInv(r) && Telling(report)
    ensures RoundInv(Collect(r, a, report))
  {
    if report.err != MupgradeStop && a in r.asked && !Complete(report) {
      CollectIncomplete(r, a, report);
      HearingKeepsRoundInv(r, a, report, Collect(r, a, report));
    } else {
      CoveredAfterRemoval(r.unfinished, r.asked, r.requested, a);
      CollectOther(r, a, report);
    }
  }

  lemma HeardMissesAPacket(heard: seq<Arrival>)
    requires heard != []
    requires forall x :: x in heard ==> x.Arrived? && Coherent(x.report) && !Complete(x.report)
    ensures MergeAll(heard) != AllMarks(BITMAP_SIZE)
  {
    MergedIsEverywhere(heard, 0);
    assert heard[0] in heard;
    assert 0 in AllMarks(BITMAP_SIZE);
  }

  /** A round may report success only when it asked everyone, heard everyone, and nobody is left. */
  lemma QuietRoundIsFinished(r: Root)
    requires RoundInv(r) && r.asked == [] && r.progress == AllMarks(BITMAP_SIZE)
    requires forall x :: x in r.heard ==> x.Arrived? && Coherent(x.report)
    ensures r.unfinished == []
  {
    assert r.heard == [] by {
      if r.heard != [] {
        HeardMissesAPacket(r.heard);
      }
    }
    assert |multiset(r.unfinished)| <= 0;
  }

  // ---- A whole send run ----

  /** A queue entry: a node's status message, or None when a receive timed out. */
  datatype Message = Message(src: Addr, err: ErrorCode, total: nat, written: nat, bitmap: seq<Byte>) {
    function Value(): (r: Report) {
      Report(err, total, written, if |bitmap| == BITMAP_SIZE then Some(Marks(bitmap)) else None)
    }
  }

  /** Every message is one a node of the campaign can send. */
  ghost predicate CoherentInbox(inbox: seq<Option<Message>>) {
    forall k :: 0 <= k < |inbox| && inbox[k].Some? ==> Coherent(inbox[k].value.Value())
  }

  ghost predicate TellingInbox(inbox: seq<Option<Message>>) {
    forall k :: 0 <= k < |inbox| && inbox[k].Some? ==> Telling(inbox[k].value.Value())
  }

  ghost predicate CompletedBefore(inbox: seq<Option<Message>>, at: nat, a: Addr) {
    exists k :: 0 <= k < at && k < |inbox| && inbox[k].Some? && inbox[k].value.src == a &&
           Complete(inbox[k].value.Value())
  }

  ghost predicate StoppedBefore(inbox: seq<Option<Message>>, at: nat, a: Addr) {
    exists k :: 0 <= k < at && k < |inbox| && inbox[k].Some? && inbox[k].value.src == a &&
           inbox[k].value.err == MupgradeStop
  }

  ghost predicate HeardBefore(inbox: seq<Option<Message>>, at: nat, x: Arrival) {
    x.Arrived? &&
    exists k :: 0 <= k < at && k < |inbox| && inbox[k].Some? && inbox[k].value.src == x.src &&
           inbox[k].value.Value() == x.report
  }

  /** Every target is accounted for, and nobody is credited or given up without having said so. */
  ghost predicate RunInv(targets: multiset<Addr>, inbox: seq<Option<Message>>, at: nat, r: Root) {
    Accounted(r) == targets &&
    (forall a :: a in r.successed ==> CompletedBefore(inbox, at, a)) &&
    (forall a :: a in r.stopped ==> StoppedBefore(inbox, at, a)) &&
    (forall x :: x in r.heard ==> HeardBefore(inbox, at, x))
  }

  lemma HeardIsCoherent(targets: multiset<Addr>, inbox: seq<Option<Message>>, at: nat, r: Root)
    requires RunInv(targets, inbox, at, r) && CoherentInbox(inbox)
    ensures forall x :: x in r.heard ==> x.Arrived? && Coherent(x.report)
  {
    forall x | x in r.heard ensures x.Arrived? && Coherent(x.report) {
      assert HeardBefore(inbox, at, x);
    }
  }

  lemma RunInvLater(targets: multiset<Addr>, inbox: seq<Option<Message>>, at: nat, later: nat, r: Root)
    requires RunInv(targets, inbox, at, r) && at <= later
    ensures RunInv(targets, inbox, later, r)
  {
  }

  ghost predicate IsNext(inbox: seq<Option<Message>>, at: nat, m: Message) {
    at < |inbox| && inbox[at] == Some(m) && Telling(m.Value())
  }

  /** One message moves at most its sender, and only for the reason the message gives. */
  predicate MovesSender(r: Root, s: Root, a: Addr, report: Report) {
    (s.successed == r.successed || (s.successed == r.successed + [a] && Complete(report))) &&
    (s.stopped == r.stopped || (s.stopped == r.stopped + [a] && report.err == MupgradeStop)) &&
    (s.heard == r.heard || s.heard == r.heard + [Arrived(a, report)])
  }

  lemma DrainMovesSender(r: Root, a: Addr, report: Report)
    ensures MovesSender(r, Drain(r, a, report), a, report)
  {
  }

  lemma CollectMovesSender(r: Root, a: Addr, report: Report)
    ensures MovesSender(r, Collect(r, a, report), a, report)
  {
  }

  lemma MidSendMovesSender(r: Root, a: Addr, report: Report)
    ensures MovesSender(r, MidSend(r, a, report), a, report)
    ensures MidSend(r, a, report).progress == r.progress
  {
  }

  lemma MoveKeepsRun(targets: multiset<Addr>, inbox: seq<Option<Message>>, at: nat, r: Root, m: Message, s: Root)
    requires RunInv(targets, inbox, at, r) && IsNext(inbox, at, m)
    requires MovesSender(r, s, m.src, m.Value()) && Accounted(s) == Accounted(r)
    ensures RunInv(targets, inbox, at + 1, s)
  {
    RunInvLater(targets, inbox, at, at + 1, r);
    assert HeardBefore(inbox, at + 1, Arrived(m.src, m.Value()));
    assert Complete(m.Value()) ==> CompletedBefore(inbox, at + 1, m.src);
    assert m.err == MupgradeStop ==> StoppedBefore(inbox, at + 1, m.src);
  }

  lemma DrainKeepsRun(targets: multiset<Addr>, inbox: seq<Option<Message>>, at: nat, r: Root, m: Message)
    requires RunInv(targets, inbox, at, r) && IsNext(inbox, at, m)
    ensures RunInv(targets, inbox, at + 1, Drain(r, m.src, m.Value()))
  {
    DrainMovesSender(r, m.src, m.Value());
    DrainConserves(r, m.src, m.Value());
    MoveKeepsRun(targets, inbox, at, r, m, Drain(r, m.src, m.Value()));
  }

  lemma CollectKeepsRun(targets: multiset<Addr>, inbox: seq<Option<Message>>, at: nat, r: Root, m: Message)
    requires RunInv(targets, inbox, at, r) && IsNext(inbox, at, m)
    ensures RunInv(targets, inbox, at + 1, Collect(r, m.src, m.Value()))
  {
    CollectMovesSender(r, m.src, m.Value());
    CollectConserves(r, m.src, m.Value());
    MoveKeepsRun(targets, inbox, at, r, m, Collect(r, m.src, m.Value()));
  }

  lemma MidSendKeepsRun(targets: multiset<Addr>, inbox: seq<Option<Message>>, at: nat, r: Root, m: Message)
    requires RunInv(targets, inbox, at, r) && IsNext(inbox, at, m)
    ensures RunInv(targets, inbox, at + 1, MidSend(r, m.src, m.Value()))
    ensures MidSend(r, m.src, m.Value()).progress == r.progress
  {
    MidSendMovesSender(r, m.src, m.Value());
    MidSendConserves(r, m.src, m.Value());
    MoveKeepsRun(targets, inbox, at, r, m, MidSend(r, m.src, m.Value()));
  }

  lemma RelistKeepsRun(targets: multiset<Addr>, inbox: seq<Option<Message>>, at: nat, r: Root, s: Root)
    requires RunInv(targets, inbox, at, r)
    requires s.unfinished == r.unfinished && s.successed == r.successed && s.stopped == r.stopped
    requires s.heard == r.heard || s.heard == []
    ensures RunInv(targets, inbox, at, s)
  {
  }

  // ---- What one call does with the queue ----

  /** The state after reading the queue up to entry at, and whether nobody is left. */
  datatype Passage = Passage(root: Root, at: nat, done: bool)

  /** The reports already queued when a round begins. */
  function DrainRun(r: Root, inbox: seq<Option<Message>>, at: nat): Passage
    decreases |inbox| - at
  {
    if at >= |inbox| || inbox[at].None? then Passage(r, at + 1, false)
    else
      var m := inbox[at].value;
      var s := Drain(r, m.src, m.Value());
      if (m.written != m.total || m.src in r.unfinished) && s.unfinished == [] then Passage(s, at + 1, true)
      else DrainRun(s, inbox, at + 1)
  }

  /** The replies to one request, until everyone asked has replied or a receive times out. */
  function CollectRun(r: Root, inbox: seq<Option<Message>>, at: nat): Passage
    decreases |inbox| - at
  {
    if r.asked == [] then Passage(r, at, true)
    else if at >= |inbox| || inbox[at].None? then Passage(r, at + 1, false)
    else CollectRun(Collect(r, inbox[at].value.src, inbox[at].value.Value()), inbox, at + 1)
  }

  /** At most tries requests, each to those still asked. */
  function AskRun(r: Root, inbox: seq<Option<Message>>, at: nat, tries: nat): Passage
    decreases tries
  {
    if tries == 0 || r.asked == [] then Passage(r, at, r.asked == [])
    else
      var p := CollectRun(r, inbox, at);
      AskRun(p.root, inbox, p.at, tries - 1)
  }

  function Requests(r: Root, inbox: seq<Option<Message>>, at: nat, tries: nat): seq<Outgoing>
    decreases tries
  {
    if tries == 0 || r.asked == [] then []
    else
      var p := CollectRun(r, inbox, at);
      [StatusRequest(r.asked)] + Requests(p.root, inbox, p.at, tries - 1)
  }

  /** A status round: done when the reports already queued have settled everything. */
  function StatusRound(r: Root, inbox: seq<Option<Message>>, at: nat): Passage {
    var d := DrainRun(r.(requested := []), inbox, at);
    if d.done then d else AskRun(BeginRound(d.root), inbox, d.at, REQUEST_COUNT).(done := false)
  }

  /** What a status round sends. */
  function StatusMessages(r: Root, inbox: seq<Option<Message>>, at: nat): seq<Outgoing> {
    var d := DrainRun(r.(requested := []), inbox, at);
    if d.done then [] else Requests(BeginRound(d.root), inbox, d.at, REQUEST_COUNT)
  }

  /** A status round after which nothing is to be sent: everyone asked has replied, and the merged progress
      is full. */
  predicate Settled(p: Passage) {
    p.done || (p.root.asked == [] && p.root.progress == AllMarks(BITMAP_SIZE))
  }

  /** The reports that have come in between two packets. */
  function MidSendRun(r: Root, inbox: seq<Option<Message>>, at: nat): Passage
    decreases |inbox| - at
  {
    if at >= |inbox| || inbox[at].None? then Passage(r, at + 1, false)
    else
      var s := MidSend(r, inbox[at].value.src, inbox[at].value.Value());
      if s.unfinished == [] then Passage(s, at + 1, true) else MidSendRun(s, inbox, at + 1)
  }

  /** What reports between packets leave alone. */
  predicate Narrowed(r: Root, s: Root) {
    s.progress == r.progress && s.heard == r.heard && s.successed == r.successed &&
      forall a :: a in s.requested ==> a in r.requested
  }

  lemma RemoveFirstShrinks(list: seq<Addr>, a: Addr)
    ensures forall x :: x in RemoveFirst(list, a) ==> x in list
  {
    RemoveFirstMultiset(list, a);
    forall x | x in RemoveFirst(list, a) ensures x in list {
      assert x in multiset(RemoveFirst(list, a));
      assert x in multiset(list);
    }
  }

  lemma MidSendOneShrinks(r: Root, a: Addr, report: Report)
    requires Telling(report)
    ensures Narrowed(r, MidSend(r, a, report))
  {
    RemoveFirstShrinks(r.requested, a);
    assert MidSend(r, a, report).requested == r.requested || MidSend(r, a, report).requested ==
           RemoveFirst(r.requested, a);
  }

  /** Between packets the request list only shrinks, nobody is credited, and what the round has heard stays. */
  lemma {:induction false} MidSendRunShrinks(r: Root, inbox: seq<Option<Message>>, at: nat)
    requires TellingInbox(inbox)
    ensures Narrowed(r, MidSendRun(r, inbox, at).root)
    decreases |inbox| - at
  {
    if at >= |inbox| || inbox[at].None? {
    } else {
      var m := inbox[at].value;
      MidSendOneShrinks(r, m.src, m.Value());
      MidSendRunShrinks(MidSend(r, m.src, m.Value()), inbox, at + 1);
    }
  }

  datatype Outgoing = StatusRequest(to: seq<Addr>) | Data(to: seq<Addr>, packet: Packet)

  /** The targets a send run starts with. */
  function InitialTargets(addrs: seq<Addr>, table: seq<Addr>, rootMac: Addr): seq<Addr>
    requires addrs != []
  {
    if addrs[0] == ADDR_ANY then table
    else if addrs[0] == ADDR_BROADCAST then RemoveFirst(table, rootMac)
    else addrs
  }

  /** Packet k is among the messages sent. */
  ghost predicate Sent(sent: seq<Outgoing>, k: nat) {
    exists i :: 0 <= i < |sent| && sent[i].Data? && sent[i].packet.seqno == k
  }

  /** What a pass over the packets before k has sent: genuine packets, none of which the merged progress
      says everyone has, and every one it says somebody misses. */
  ghost predicate Resent(c: Campaign, progress: set<nat>, sent: seq<Outgoing>, k: nat) {
    (forall i :: 0 <= i < |sent| ==>
       sent[i].Data? && Genuine(c, sent[i].packet) && sent[i].packet.seqno !in progress) &&
    (forall j: nat :: j < k && j !in progress ==> Sent(sent, j))
  }

  lemma ResentGrows(c: Campaign, progress: set<nat>, sent: seq<Outgoing>, k: nat, x: Outgoing)
    requires Resent(c, progress, sent, k)
    requires x.Data? && Genuine(c, x.packet) && x.packet.seqno == k && k !in progress
    ensures Resent(c, progress, sent + [x], k + 1)
  {
    var more := sent + [x];
    forall j: nat | j < k + 1 && j !in progress ensures Sent(more, j) {
      if j < k {
        var i :| 0 <= i < |sent| && sent[i].Data? && sent[i].packet.seqno == j;
        assert more[i] == sent[i];
      } else {
        assert more[|sent|] == x;
      }
    }
  }

  lemma AddressedGrows(sent: seq<Outgoing>, x: Outgoing, addrs: seq<Addr>, successed: seq<Addr>, requested: seq<Addr>)
    requires AddressedTo(sent, requested, LeavesRootOut(addrs, successed))
    requires addrs != [] && x.to == DestinationOf(addrs, successed, requested)
    ensures AddressedTo(sent + [x], requested, LeavesRootOut(addrs, successed))
  {
    forall i, a, rootMac | 0 <= i < |sent + [x]| && a in requested && rootMac != ADDR_BROADCAST
      ensures Serves((sent + [x])[i].to, a, rootMac) <==> !(LeavesRootOut(addrs, successed) && a == rootMac)
    {
      if i == |sent| {
        DestinationServes(addrs, successed, requested, a, rootMac);
      }
    }
  }

  /** CONFIG_MUPGRADE_RETRY_COUNT: any value that can be configured. */
  const RETRY_COUNT: nat
  const REQUEST_COUNT := 3

  /** Where a data packet goes: to all while everybody may still need it, else to those requested. */
  function DestinationOf(addrs: seq<Addr>, successed: seq<Addr>, requested: seq<Addr>): seq<Addr>
    requires addrs != []
  {
    if (addrs[0] == ADDR_ANY || addrs[0] == ADDR_BROADCAST) && |successed| < 2 && |addrs| == 1 then
      if addrs[0] == ADDR_ANY && |successed| == 1 then [ADDR_BROADCAST] else addrs
    else requested
  }

  /** A message to broadcast leaves out the root. */
  predicate Serves(to: seq<Addr>, a: Addr, rootMac: Addr) {
    a in to || to == [ADDR_ANY] || (to == [ADDR_BROADCAST] && a != rootMac)
  }

  /** A run to broadcast leaves out the root while it has fewer than two successes, a run to any while it has
      one, which the code takes to be the root. */
  predicate LeavesRootOut(addrs: seq<Addr>, successed: seq<Addr>) {
    |addrs| == 1 &&
    if addrs[0] == ADDR_ANY then |successed| == 1 else addrs[0] == ADDR_BROADCAST && |successed| < 2
  }

  /** Every data packet reaches all of requested, except exactly a root that is left out. */
  ghost predicate AddressedTo(sent: seq<Outgoing>, requested: seq<Addr>, leftOut: bool) {
    forall i, a, rootMac :: 0 <= i < |sent| && a in requested && rootMac != ADDR_BROADCAST ==>
      (Serves(sent[i].to, a, rootMac) <==> !(leftOut && a == rootMac))
  }

  lemma DestinationServes(addrs: seq<Addr>, successed: seq<Addr>, requested: seq<Addr>, a: Addr, rootMac: Addr)
    requires addrs != [] && a in requested && rootMac != ADDR_BROADCAST
    ensures Serves(DestinationOf(addrs, successed, requested), a, rootMac) <==>
            !(LeavesRootOut(addrs, successed) && a == rootMac)
  {
  }

  /** Data for everybody goes to the whole mesh while fewer than two are known to be done; otherwise to devices
      on the list. */
  predicate ToEverybody(addrs: seq<Addr>, successed: seq<Addr>) {
    |addrs| == 1 && (addrs[0] == ADDR_ANY || addrs[0] == ADDR_BROADCAST) && |successed| < 2
  }

  ghost predicate SentOnlyTo(sent: seq<Outgoing>, list: seq<Addr>, everybody: bool) {
    forall i :: 0 <= i < |sent| ==>
      if everybody then sent[i].to == [ADDR_ANY] || sent[i].to == [ADDR_BROADCAST]
      else forall a :: a in sent[i].to ==> a in list
  }

  lemma DestinationIsKnown(addrs: seq<Addr>, successed: seq<Addr>, requested: seq<Addr>, list: seq<Addr>, x: Outgoing)
    requires addrs != [] && forall a :: a in requested ==> a in list
    requires x.to == DestinationOf(addrs, successed, requested)
    ensures SentOnlyTo([x], list, ToEverybody(addrs, successed))
  {
  }

  lemma SentOnlyToGrows(sent: seq<Outgoing>, x: Outgoing, list: seq<Addr>, everybody: bool)
    requires SentOnlyTo(sent, list, everybody) && SentOnlyTo([x], list, everybody)
    ensures SentOnlyTo(sent + [x], list, everybody)
  {
    assert [x][0] == x;
  }

  lemma AddressedStill(sent: seq<Outgoing>, requested: seq<Addr>, fewer: seq<Addr>, leftOut: bool)
    requires AddressedTo(sent, requested, leftOut) && forall a :: a in fewer ==> a in requested
    ensures AddressedTo(sent, fewer, leftOut)
  {
  }

  // ---- A run, round by round ----

  /** What a run meets: whether it is still to go on when round i begins, and before its packet k, and whether
      flash can be read for that packet. */
  datatype Surroundings = Surroundings(running: nat -> bool, sending: (nat, nat) -> bool, readable: (nat, nat) -> bool)

  /** A round: the state before it and the queue position, the state after the status requests, what was asked
      and sent, the packets the pass has dealt with, and the state, the queue position and whether to go on
      after it. */
  datatype Round = Round(before: Root, from: nat, status: Passage, asking: seq<Outgoing>, sent: seq<Outgoing>,
                         end: nat, after: Root, next: nat, more: bool)

  /** Why a pass has ended before packet end: nobody requested is left, the run was told to stop, or, and then
      it was the last one, nobody unfinished is left or flash could not be read. */
  predicate PassEnds(s: Surroundings, i: nat, count: nat, end: nat, r: Root, more: bool) {
    end <= count &&
    if more then end == count || r.requested == [] || !s.sending(i, end)
    else r.unfinished == [] || (end < count && !s.readable(i, end))
  }

  /** Round i of a run. Unless the replies settle everything, the packets sent are exactly those up to the end
      of the pass that the replies heard do not all report, each to everyone requested, and to the whole mesh or
      nobody else. */
  ghost predicate RoundOk(c: Campaign, s: Surroundings, addrs: seq<Addr>, inbox: seq<Option<Message>>, i: nat,
                          x: Round) {
    x.status == StatusRound(x.before, inbox, x.from) && x.asking == StatusMessages(x.before, inbox, x.from) &&
    addrs != [] &&
    if Settled(x.status) then
      x.sent == [] && x.after == x.status.root && !x.more && (CoherentInbox(inbox) ==> x.after.unfinished == [])
    else
      Narrowed(x.status.root, x.after) && PassEnds(s, i, c.Count(), x.end, x.after, x.more) &&
      x.status.root.progress == MergeAll(x.status.root.heard) &&
      Resent(c, MergeAll(x.status.root.heard), x.sent, x.end) &&
      AddressedTo(x.sent, x.after.requested, LeavesRootOut(addrs, x.after.successed)) &&
      SentOnlyTo(x.sent, x.status.root.requested, ToEverybody(addrs, x.after.successed)) &&
      (x.status.root.requested == [] ==> x.sent == [])
  }

  lemma SettledIsOk(c: Campaign, s: Surroundings, addrs: seq<Addr>, inbox: seq<Option<Message>>, i: nat, x: Round)
    requires x.status == StatusRound(x.before, inbox, x.from) && x.asking == StatusMessages(x.before, inbox, x.from)
    requires addrs != [] && Settled(x.status) && x.sent == [] && x.after == x.status.root && !x.more
    requires CoherentInbox(inbox) ==> x.after.unfinished == []
    ensures RoundOk(c, s, addrs, inbox, i, x)
  {
  }

  lemma PassIsOk(c: Campaign, s: Surroundings, addrs: seq<Addr>, inbox: seq<Option<Message>>, i: nat, x: Round)
    requires x.status == StatusRound(x.before, inbox, x.from) && x.asking == StatusMessages(x.before, inbox, x.from)
    requires addrs != [] && !Settled(x.status) && RoundInv(x.status.root)
    requires Narrowed(x.status.root, x.after) && PassEnds(s, i, c.Count(), x.end, x.after, x.more)
    requires Resent(c, x.status.root.progress, x.sent, x.end)
    requires AddressedTo(x.sent, x.after.requested, LeavesRootOut(addrs, x.after.successed))
    requires SentOnlyTo(x.sent, x.status.root.requested, ToEverybody(addrs, x.after.successed))
    requires x.status.root.requested == [] ==> x.sent == []
    ensures RoundOk(c, s, addrs, inbox, i, x)
  {
  }

  /** The rounds of a run that began at start and has come to r. */
  ghost predicate Rounds(c: Campaign, s: Surroundings, addrs: seq<Addr>, inbox: seq<Option<Message>>, start: Root,
                         rounds: seq<Round>, r: Root, at: nat) {
    (if rounds == [] then r == start && at == 0
     else rounds[0].before == start && rounds[0].from == 0 &&
          rounds[|rounds| - 1].after == r && rounds[|rounds| - 1].next == at) &&
    AllRoundsOk(c, s, addrs, inbox, rounds) && Chained(rounds)
  }

  ghost predicate AllRoundsOk(c: Campaign, s: Surroundings, addrs: seq<Addr>, inbox: seq<Option<Message>>,
                              rounds: seq<Round>) {
    forall j :: 0 <= j < |rounds| ==>
      RoundOk(c, s, addrs, inbox, j, rounds[j]) && rounds[j].before.unfinished != [] && s.running(j)
  }

  ghost predicate Chained(rounds: seq<Round>) {
    forall i, j :: 0 <= i < j < |rounds| && j == i + 1 ==> Follows(rounds[i], rounds[j])
  }

  predicate Follows(x: Round, y: Round) {
    x.more && y.before == x.after && y.from == x.next
  }

  /** A whole run: it has ended because all rounds are used up, nobody unfinished is left, it was told to stop,
      or the last round was to be the last. */
  ghost predicate IsRun(c: Campaign, s: Surroundings, addrs: seq<Addr>, inbox: seq<Option<Message>>, start: Root,
                        rounds: seq<Round>, r: Root, at: nat) {
    Rounds(c, s, addrs, inbox, start, rounds, r, at) && |rounds| <= RETRY_COUNT &&
    (|rounds| == RETRY_COUNT || r.unfinished == [] || !s.running(|rounds|) ||
     (rounds != [] && !rounds[|rounds| - 1].more))
  }

  /** Everything the rounds have sent. */
  function Messages(rounds: seq<Round>): seq<Outgoing> {
    if rounds == [] then []
    else
      var last := rounds[|rounds| - 1];
      Messages(rounds[..|rounds| - 1]) + (last.asking + last.sent)
  }

  lemma RoundsGrow(c: Campaign, s: Surroundings, addrs: seq<Addr>, inbox: seq<Option<Message>>, start: Root,
                   rounds: seq<Round>, r: Root, at: nat, x: Round)
    requires Rounds(c, s, addrs, inbox, start, rounds, r, at) && RoundOk(c, s, addrs, inbox, |rounds|, x)
    requires x.before == r && x.from == at && r.unfinished != [] && s.running(|rounds|)
    requires rounds != [] ==> rounds[|rounds| - 1].more
    ensures Rounds(c, s, addrs, inbox, start, rounds + [x], x.after, x.next)
    ensures Messages(rounds + [x]) == Messages(rounds) + (x.asking + x.sent)
  {
    hide AllRoundsOk, Chained, RoundOk, Messages;
    AllRoundsOkGrows(c, s, addrs, inbox, rounds, x);
    ChainedGrows(rounds, x);
    MessagesGrow(rounds, x);
  }

  lemma AllRoundsOkGrows(c: Campaign, s: Surroundings, addrs: seq<Addr>, inbox: seq<Option<Message>>,
                         rounds: seq<Round>, x: Round)
    requires AllRoundsOk(c, s, addrs, inbox, rounds) && RoundOk(c, s, addrs, inbox, |rounds|, x)
    requires x.before.unfinished != [] && s.running(|rounds|)
    ensures AllRoundsOk(c, s, addrs, inbox, rounds + [x])
  {
    hide RoundOk;
  }

  lemma ChainedGrows(rounds: seq<Round>, x: Round)
    requires Chained(rounds)
    requires rounds != [] ==> var y := rounds[|rounds| - 1]; y.more && x.before == y.after && x.from == y.next
    ensures Chained(rounds + [x])
  {
    hide Follows;
    if rounds != [] {
      Following(rounds[|rounds| - 1], x);
    }
    forall i, j | 0 <= i < j < |rounds + [x]| && j == i + 1 ensures Follows((rounds + [x])[i], (rounds + [x])[j]) {
      assert j < |rounds| ==> Follows(rounds[i], rounds[j]);
    }
  }

  lemma Following(x: Round, y: Round)
    requires x.more && y.before == x.after && y.from == x.next
    ensures Follows(x, y)
  {
  }

  lemma MessagesGrow(rounds: seq<Round>, x: Round)
    ensures Messages(rounds + [x]) == Messages(rounds) + (x.asking + x.sent)
  {
    assert (rounds + [x])[..|rounds|] == rounds;
  }

  lemma NoRounds(c: Campaign, s: Surroundings, addrs: seq<Addr>, inbox: seq<Option<Message>>, start: Root,
                 sent: seq<Outgoing>)
    ensures Rounds(c, s, addrs, inbox, start, [], start, 0)
    ensures sent == sent + Messages([]) && DataGenuine(c, sent[|sent|..])
  {
  }

  /** The state a run starts in. */
  function Listed(targets: seq<Addr>, progress: set<nat>): Root {
    Root(targets, [], [], [], progress, [], [])
  }

  /** A broadcast goes ahead only when there is somebody, and not too many, to reach. */
  predicate GoesAhead(addrs: seq<Addr>, targets: seq<Addr>)
    requires addrs != []
  {
    addrs[0] == ADDR_BROADCAST ==> 1 <= |targets| <= 2048
  }

  /** The data packets among the messages are packets of the image. */
  ghost predicate DataGenuine(c: Campaign, sent: seq<Outgoing>) {
    forall i :: 0 <= i < |sent| && sent[i].Data? ==> Genuine(c, sent[i].packet)
  }

  lemma SentTogether(c: Campaign, first: seq<Outgoing>, middle: seq<Outgoing>, last: seq<Outgoing>)
    requires first <= middle <= last
    requires DataGenuine(c, middle[|first|..]) && DataGenuine(c, last[|middle|..])
    ensures DataGenuine(c, last[|first|..])
  {
    assert last[|first|..] == middle[|first|..] + last[|middle|..];
  }

  lemma PassIsGenuine(c: Campaign, progress: set<nat>, sent: seq<Outgoing>, k: nat)
    requires Resent(c, progress, sent, k)
    ensures DataGenuine(c, sent)
  {
  }

  lemma RequestsCarryNoData(c: Campaign, first: seq<Outgoing>, all: seq<Outgoing>)
    requires |first| <= |all| && forall i :: |first| <= i < |all| ==> all[i].StatusRequest?
    ensures DataGenuine(c, all[|first|..])
  {
  }

  lemma Associates(a: seq<Outgoing>, b: seq<Outgoing>, c: seq<Outgoing>)
    ensures (a + b) + c == a + (b + c)
  {
  }

  lemma AsksOnce(box: seq<Outgoing>, r: Root, inbox: seq<Option<Message>>, at: nat, tries: nat)
    requires tries > 0 && r.asked != []
    ensures var p := CollectRun(r, inbox, at);
            AskRun(r, inbox, at, tries) == AskRun(p.root, inbox, p.at, tries - 1) &&
            box + Requests(r, inbox, at, tries) ==
            (box + [StatusRequest(r.asked)]) + Requests(p.root, inbox, p.at, tries - 1)
  {
  }

  lemma {:induction false} RequestsAreRequests(r: Root, inbox: seq<Option<Message>>, at: nat, tries: nat)
    ensures forall x :: x in Requests(r, inbox, at, tries) ==> x.StatusRequest?
    decreases tries
  {
    if tries == 0 || r.asked == [] {
    } else {
      var p := CollectRun(r, inbox, at);
      RequestsAreRequests(p.root, inbox, p.at, tries - 1);
    }
  }

  /** What the root has of the firmware it is to send. */
  datatype Firmware = NotInitialised | PartlyDownloaded | Downloaded

  class UpgradeRoot {
    const firmware: Firmware
    const campaign: Campaign
    var unfinished: seq<Addr>
    var successed: seq<Addr>
    var requested: seq<Addr>
    var asked: seq<Addr>
    const progress: array<Byte>
    var outbox: seq<Outgoing>
    ghost var stopped: seq<Addr>
    ghost var heard: seq<Arrival>

    ghost predicate Valid()
      reads this
    {
      progress.Length == BITMAP_SIZE && campaign.Valid()
    }

    ghost function State(): Root
      reads this, progress
    {
      Root(unfinished, successed, requested, asked, Marks(progress[..]), stopped, heard)
    }

    constructor (c: Campaign, firmware: Firmware)
      requires c.Valid()
      ensures Valid() && campaign == c && this.firmware == firmware && fresh(progress) && outbox == []
    {
      campaign, this.firmware := c, firmware;
      unfinished, successed, requested, asked, outbox := [], [], [], [], [];
      progress := new Byte[BITMAP_SIZE](_ => 0);
      stopped, heard := [], [];
    }

    method FillProgress(b: Byte)
      requires Valid() && (b == 0 || b == 0xFF)
      modifies progress
      ensures Marks(progress[..]) == if b == 0 then {} else AllMarks(BITMAP_SIZE)
    {
      forall i | 0 <= i < progress.Length {
        progress[i] := b;
      }
      assert progress[..] == Fill(BITMAP_SIZE, b);
      MarksOfFill(BITMAP_SIZE);
    }

    /** The AND of a received bitmap into progress_array. */
    method MergeProgress(bitmap: seq<Byte>)
      requires Valid() && |bitmap| == BITMAP_SIZE
      modifies progress
      ensures Marks(progress[..]) == Marks(old(progress[..])) * Marks(bitmap)
    {
      var i := 0;
      while i < BITMAP_SIZE
        invariant 0 <= i <= BITMAP_SIZE
        invariant forall j :: 0 <= j < BITMAP_SIZE ==>
          progress[j] == if j < i then old(progress[..])[j] & bitmap[j] else old(progress[..])[j]
      {
        progress[i] := progress[i] & bitmap[i];
        i := i + 1;
      }
      assert progress[..] == Merge(old(progress[..]), bitmap);
      MarksOfMerge(old(progress[..]), bitmap);
    }

    /** Moves a device off the unfinished list, onto successed when it is done. */
    method TakeOff(a: Addr, done: bool)
      modifies this`unfinished, this`successed, this`stopped
      ensures State() == if done then Credit(old(State()), a) else GiveUp(old(State()), a)
    {
      if a in unfinished {
        unfinished := RemoveFirst(unfinished, a);
        if done {
          successed := successed + [a];
        } else {
          stopped := stopped + [a];
        }
      }
    }

    method OnDrain(m: Message)
      modifies this`unfinished, this`successed, this`stopped
      ensures State() == Drain(old(State()), m.src, m.Value())
    {
      if m.written == m.total {
        TakeOff(m.src, true);
      } else if m.err == MupgradeStop {
        TakeOff(m.src, false);
      }
    }

    method OnCollect(m: Message)
      requires Valid() && Telling(m.Value())
      modifies this, progress
      ensures Valid() && outbox == old(outbox)
      ensures State() == Collect(old(State()), m.src, m.Value())
    {
      if m.err == MupgradeStop {
        TakeOff(m.src, false);
        asked := RemoveFirst(asked, m.src);
        return;
      }
      if m.src !in asked {
        return;
      }
      asked := RemoveFirst(asked, m.src);
      if m.written != m.total {
        requested := requested + [m.src];
        heard := heard + [Arrived(m.src, m.Value())];
      }
      if m.written == 0 {
        FillProgress(0);
      } else if m.written == m.total {
        TakeOff(m.src, true);
      } else {
        MergeProgress(m.bitmap);
      }
    }

    method OnMidSend(m: Message)
      modifies this`unfinished, this`successed, this`stopped, this`requested
      ensures State() == MidSend(old(State()), m.src, m.Value())
    {
      if m.written == 0 && m.written == m.total {
        if m.src !in unfinished {
          return;
        }
        if m.src !in requested {
          unfinished := RemoveFirst(unfinished, m.src);
          return;
        }
        TakeOff(m.src, true);
        requested := RemoveFirst(requested, m.src);
      } else if m.err == MupgradeStop {
        TakeOff(m.src, false);
        requested := RemoveFirst(requested, m.src);
      }
    }

    /** The first loop of mupgrade_request_status: reports already queued. Stops early, with true, once
        nobody is left. */
    method DrainQueue(inbox: seq<Option<Message>>, from: nat, ghost targets: multiset<Addr>)
      returns (done: bool, at: nat)
      requires TellingInbox(inbox) && RunInv(targets, inbox, from, State())
      modifies this`unfinished, this`successed, this`stopped
      ensures from <= at && RunInv(targets, inbox, at, State())
      ensures Passage(State(), at, done) == DrainRun(old(State()), inbox, from)
      ensures done ==> unfinished == []
    {
      hide RunInv, Drain;
      at := from;
      ghost var goal := DrainRun(State(), inbox, from);
      while at < |inbox| && inbox[at].Some?
        invariant from <= at && RunInv(targets, inbox, at, State())
        invariant DrainRun(State(), inbox, at) == goal
        decreases |inbox| - at
      {
        var m := inbox[at].value;
        DrainKeepsRun(targets, inbox, at, State(), m);
        var known := m.src in unfinished;
        OnDrain(m);
        at := at + 1;
        if (m.written != m.total || known) && unfinished == [] {
          return true, at;
        }
      }
      RunInvLater(targets, inbox, at, at + 1, State());
      return false, at + 1;
    }

    method BeginCollecting()
      requires Valid()
      modifies this`asked, this`heard, progress
      ensures State() == BeginRound(old(State()))
    {
      asked, heard := unfinished, [];
      FillProgress(0xFF);
    }

    /** Replies to one status request, until everyone asked has replied or a receive times out. */
    method CollectReplies(inbox: seq<Option<Message>>, from: nat, ghost targets: multiset<Addr>) returns (at: nat)
      requires Valid() && TellingInbox(inbox) && RunInv(targets, inbox, from, State()) && RoundInv(State())
      modifies this, progress
      ensures Valid() && outbox == old(outbox)
      ensures from <= at && RunInv(targets, inbox, at, State()) && RoundInv(State())
      ensures State() == CollectRun(old(State()), inbox, from).root && at == CollectRun(old(State()), inbox, from).at
    {
      at := from;
      ghost var goal := CollectRun(State(), inbox, from);
      while asked != []
        invariant Valid() && outbox == old(outbox)
        invariant from <= at && RunInv(targets, inbox, at, State()) && RoundInv(State())
        invariant CollectRun(State(), inbox, at) == goal
        decreases if at < |inbox| then |inbox| - at else 0
      {
        if at >= |inbox| || inbox[at].None? {
          RunInvLater(targets, inbox, at, at + 1, State());
          return at + 1;
        }
        var m := inbox[at].value;
        CollectKeepsRun(targets, inbox, at, State(), m);
        CollectKeepsRoundInv(State(), m.src, m.Value());
        OnCollect(m);
        at := at + 1;
      }
    }

    /** The result of a round that has stopped collecting. */
    function RoundResult(): (ret: ErrorCode)
      reads this, progress
    {
      if exists i :: 0 <= i < progress.Length && progress[i] != 0xFF then MupgradeFirmwareIncomplete
      else if asked != [] then MupgradeSendPacketLoss
      else MdfOk
    }

    /** Up to three requests to those still asked, each followed by the replies that come in. */
    method AskAndCollect(inbox: seq<Option<Message>>, from: nat, ghost targets: multiset<Addr>) returns (at: nat)
      requires Valid() && TellingInbox(inbox) && RunInv(targets, inbox, from, State()) && RoundInv(State())
      modifies this, progress
      ensures Valid() && from <= at && RunInv(targets, inbox, at, State()) && RoundInv(State())
      ensures State() == AskRun(old(State()), inbox, from, REQUEST_COUNT).root
      ensures at == AskRun(old(State()), inbox, from, REQUEST_COUNT).at
      ensures outbox == old(outbox) + Requests(old(State()), inbox, from, REQUEST_COUNT)
    {
      at := from;
      ghost var goal := AskRun(State(), inbox, from, REQUEST_COUNT);
      ghost var sent := outbox + Requests(State(), inbox, from, REQUEST_COUNT);
      var i := 0;
      while i < REQUEST_COUNT && asked != []
        invariant Valid() && 0 <= i <= REQUEST_COUNT
        invariant from <= at && RunInv(targets, inbox, at, State()) && RoundInv(State())
        invariant AskRun(State(), inbox, at, REQUEST_COUNT - i) == goal
        invariant outbox + Requests(State(), inbox, at, REQUEST_COUNT - i) == sent
        decreases REQUEST_COUNT - i
      {
        AsksOnce(outbox, State(), inbox, at, REQUEST_COUNT - i);
        outbox := outbox + [StatusRequest(asked)];
        at := CollectReplies(inbox, at, targets);
        i := i + 1;
      }
    }

    /** The first half of a status round: reports already queued, then everyone left is to be asked. */
    method PrepareRound(inbox: seq<Option<Message>>, from: nat, ghost targets: multiset<Addr>)
      returns (done: bool, at: nat)
      requires Valid() && TellingInbox(inbox) && RunInv(targets, inbox, from, State())
      modifies this, progress
      ensures Valid() && from <= at && RunInv(targets, inbox, at, State()) && outbox == old(outbox)
      ensures var d := DrainRun(old(State()).(requested := []), inbox, from);
              done == d.done && at == d.at && State() == if done then d.root else BeginRound(d.root)
      ensures if done then unfinished == [] else RoundInv(State())
    {
      ghost var r := State();
      requested := [];
      RelistKeepsRun(targets, inbox, from, r, State());
      done, at := DrainQueue(inbox, from, targets);
      if !done {
        BeginRoundInv(State());
        r := State();
        BeginCollecting();
        RelistKeepsRun(targets, inbox, at, r, State());
      }
    }

    /** mupgrade_request_status. */
    method RequestStatus(inbox: seq<Option<Message>>, from: nat, ghost targets: multiset<Addr>)
      returns (ret: ErrorCode, at: nat)
      requires Valid() && TellingInbox(inbox) && RunInv(targets, inbox, from, State())
      modifies this, progress
      ensures Valid() && from <= at && RunInv(targets, inbox, at, State())
      ensures ret == MdfOk && CoherentInbox(inbox) ==> unfinished == []
      ensures ret != MdfOk ==> RoundInv(State())
      ensures var p := StatusRound(old(State()), inbox, from);
              State() == p.root && at == p.at && (ret == MdfOk <==> Settled(p)) &&
              (ret == MupgradeFirmwareIncomplete <==> !p.done && p.root.progress != AllMarks(BITMAP_SIZE))
      ensures ret in {MdfOk, MupgradeFirmwareIncomplete, MupgradeSendPacketLoss}
      ensures outbox == old(outbox) + StatusMessages(old(State()), inbox, from)
      ensures forall i :: |old(outbox)| <= i < |outbox| ==> outbox[i].StatusRequest?
    {
      hide DrainRun, AskRun, RunInv, CoherentInbox;
      var done;
      done, at := PrepareRound(inbox, from, targets);
      if done {
        return MdfOk, at;
      }
      RequestsAreRequests(State(), inbox, at, REQUEST_COUNT);
      at := AskAndCollect(inbox, at, targets);
      ret := RoundResult();
      MarksFull(progress[..]);
      if ret == MdfOk && CoherentInbox(inbox) {
        HeardIsCoherent(targets, inbox, at, State());
        QuietRoundIsFinished(State());
      }
    }

    /** Reports queued while packets are being sent; true once nobody is left. */
    method DrainMidSend(inbox: seq<Option<Message>>, from: nat, ghost targets: multiset<Addr>)
      returns (done: bool, at: nat)
      requires TellingInbox(inbox) && RunInv(targets, inbox, from, State())
      modifies this`unfinished, this`successed, this`stopped, this`requested
      ensures from <= at && RunInv(targets, inbox, at, State())
      ensures Passage(State(), at, done) == MidSendRun(old(State()), inbox, from)
      ensures done ==> unfinished == []
    {
      at := from;
      ghost var goal := MidSendRun(State(), inbox, from);
      while at < |inbox| && inbox[at].Some?
        invariant from <= at && RunInv(targets, inbox, at, State())
        invariant MidSendRun(State(), inbox, at) == goal
        decreases |inbox| - at
      {
        var m := inbox[at].value;
        MidSendKeepsRun(targets, inbox, at, State(), m);
        OnMidSend(m);
        at := at + 1;
        if unfinished == [] {
          return true, at;
        }
      }
      RunInvLater(targets, inbox, at, at + 1, State());
      return false, at + 1;
    }

    /** The packet buffer after reading packet k: bytes past its size are left from the packet before. */
    method ReadPacket(k: nat, buffer: seq<Byte>) returns (p: Packet)
      requires Valid() && k < campaign.Count() && |buffer| == PACKET_MAX_SIZE
      ensures p.seqno == k && Genuine(campaign, p)
    {
      var total := |campaign.image|;
      var last := if total % PACKET_MAX_SIZE == 0 then PACKET_MAX_SIZE else total % PACKET_MAX_SIZE;
      var size := if k == campaign.Count() - 1 then last else PACKET_MAX_SIZE;
      var at := k * PACKET_MAX_SIZE;
      p := Packet(k, size, campaign.image[at..at + size] + buffer[size..]);
    }

    function Destination(addrs: seq<Addr>): seq<Addr>
      reads this`successed, this`requested
      requires addrs != []
    {
      DestinationOf(addrs, successed, requested)
    }

    /** Packet k: read it, see to the reports that have come in, and send it unless nobody is left. */
    method SendPacket(addrs: seq<Addr>, inbox: seq<Option<Message>>, from: nat, k: nat, buffer: seq<Byte>,
                      ghost targets: multiset<Addr>)
      returns (p: Packet, gone: bool, at: nat)
      requires Valid() && TellingInbox(inbox) && RunInv(targets, inbox, from, State()) && addrs != []
      requires k < campaign.Count() && |buffer| == PACKET_MAX_SIZE
      modifies this`unfinished, this`successed, this`stopped, this`requested, this`outbox
      ensures from <= at && RunInv(targets, inbox, at, State())
      ensures Passage(State(), at, gone) == MidSendRun(old(State()), inbox, from) && Narrowed(old(State()), State())
      ensures p.seqno == k && Genuine(campaign, p)
      ensures gone ==> unfinished == []
      ensures outbox == if gone then old(outbox) else old(outbox) + [Data(Destination(addrs), p)]
    {
      p := ReadPacket(k, buffer);
      MidSendRunShrinks(State(), inbox, from);
      gone, at := DrainMidSend(inbox, from, targets);
      if !gone {
        outbox := outbox + [Data(Destination(addrs), p)];
      }
    }

    /** A pass that began with r and n messages sent has dealt with the packets before k. */
    ghost predicate InPass(addrs: seq<Addr>, r: Root, n: nat, k: nat)
      reads this, progress
    {
      n <= |outbox| && Narrowed(r, State()) && Resent(campaign, r.progress, outbox[n..], k) &&
      AddressedTo(outbox[n..], requested, LeavesRootOut(addrs, successed)) &&
      SentOnlyTo(outbox[n..], r.requested, ToEverybody(addrs, successed))
    }

    /** Packet k, if somebody misses it; next is the packet buffer afterwards. */
    method SendIfMissing(addrs: seq<Addr>, inbox: seq<Option<Message>>, from: nat, k: nat, buffer: seq<Byte>,
                         readable: bool, ghost targets: multiset<Addr>, ghost r: Root, ghost n: nat)
      returns (next: seq<Byte>, gone: bool, at: nat)
      requires Valid() && TellingInbox(inbox) && RunInv(targets, inbox, from, State()) && addrs != []
      requires k < campaign.Count() && |buffer| == PACKET_MAX_SIZE && InPass(addrs, r, n, k)
      modifies this`unfinished, this`successed, this`stopped, this`requested, this`outbox
      ensures from <= at && RunInv(targets, inbox, at, State()) && |next| == PACKET_MAX_SIZE
      ensures old(outbox) <= outbox && InPass(addrs, r, n, if gone then k else k + 1)
      ensures gone ==> unfinished == [] || !readable
    {
      next, gone, at := buffer, false, from;
      if !Get(progress[..], k) {
        if !readable {
          return next, true, at;
        }
        ghost var before, all := outbox[n..], requested;
        var p;
        p, gone, at := SendPacket(addrs, inbox, at, k, buffer, targets);
        next := p.data;
        AddressedStill(before, all, requested, LeavesRootOut(addrs, successed));
        if !gone {
          assert outbox[n..] == before + [Data(Destination(addrs), p)];
          ResentGrows(campaign, r.progress, before, k, Data(Destination(addrs), p));
          AddressedGrows(before, Data(Destination(addrs), p), addrs, successed, requested);
          DestinationIsKnown(addrs, successed, requested, r.requested, Data(Destination(addrs), p));
          SentOnlyToGrows(before, Data(Destination(addrs), p), r.requested, ToEverybody(addrs, successed));
        }
      }
    }

    /** The pass of round i over the packets, which deals with those before end. gone says that it must be the
        last. */
    method SendMissing(addrs: seq<Addr>, inbox: seq<Option<Message>>, from: nat, s: Surroundings, i: nat,
                       ghost targets: multiset<Addr>)
      returns (gone: bool, at: nat, ghost end: nat)
      requires Valid() && TellingInbox(inbox) && RunInv(targets, inbox, from, State()) && addrs != []
      modifies this`unfinished, this`successed, this`stopped, this`requested, this`outbox
      ensures from <= at && RunInv(targets, inbox, at, State())
      ensures old(outbox) <= outbox && Narrowed(old(State()), State())
      ensures Resent(campaign, old(State()).progress, outbox[|old(outbox)|..], end)
      ensures AddressedTo(outbox[|old(outbox)|..], requested, LeavesRootOut(addrs, successed))
      ensures SentOnlyTo(outbox[|old(outbox)|..], old(requested), ToEverybody(addrs, successed))
      ensures old(requested) == [] ==> outbox == old(outbox)
      ensures PassEnds(s, i, campaign.Count(), end, State(), !gone)
    {
      var k: nat := 0;
      var buffer := Fill(PACKET_MAX_SIZE, 0);
      at, gone, end := from, false, 0;
      ghost var r, n := State(), |outbox|;
      while k < campaign.Count() && requested != [] && s.sending(i, k)
        invariant k <= campaign.Count() && |buffer| == PACKET_MAX_SIZE && !gone && end == k
        invariant from <= at && RunInv(targets, inbox, at, State())
        invariant old(outbox) <= outbox && InPass(addrs, r, n, k)
        invariant r.requested == [] ==> k == 0 && outbox == old(outbox) && requested == []
        decreases campaign.Count() - k
      {
        buffer, gone, at := SendIfMissing(addrs, inbox, at, k, buffer, s.readable(i, k), targets, r, n);
        if gone {
          return;
        }
        k := k + 1;
        end := k;
      }
    }

    /** Round i: ask for progress, and send what is missing unless the answers settle everything. more says
        that another round may follow. */
    method SendRound(addrs: seq<Addr>, inbox: seq<Option<Message>>, from: nat, s: Surroundings, i: nat,
                     ghost targets: multiset<Addr>)
      returns (more: bool, at: nat, ghost x: Round)
      requires Valid() && TellingInbox(inbox) && RunInv(targets, inbox, from, State()) && addrs != []
      modifies this, progress
      ensures Valid() && RunInv(targets, inbox, at, State())
      ensures RoundOk(campaign, s, addrs, inbox, i, x)
      ensures x.before == old(State()) && x.from == from && x.after == State() && x.next == at && x.more == more
      ensures outbox == old(outbox) + (x.asking + x.sent) && DataGenuine(campaign, outbox[|old(outbox)|..])
    {
      hide StatusRound, StatusMessages, RunInv, RoundInv, RoundOk, Resent, AddressedTo, SentOnlyTo, Narrowed, PassEnds,
           Settled, DataGenuine, CoherentInbox, TellingInbox, LeavesRootOut, ToEverybody;
      var ret;
      ret, at := RequestStatus(inbox, from, targets);
      more := false;
      ghost var before, asking, end := old(State()), outbox, 0;
      ghost var status := StatusRound(before, inbox, from);
      x := Round(before, from, status, StatusMessages(before, inbox, from), [], end, State(), at, more);
      RequestsCarryNoData(campaign, old(outbox), asking);
      if ret == MdfOk {
        SettledIsOk(campaign, s, addrs, inbox, i, x);
        assert x.asking + x.sent == x.asking;
      } else {
        var gone;
        gone, at, end := SendMissing(addrs, inbox, at, s, i, targets);
        more := !gone;
        x := x.(sent := outbox[|asking|..], end := end, after := State(), next := at, more := more);
        PassIsOk(campaign, s, addrs, inbox, i, x);
        PassIsGenuine(campaign, status.root.progress, x.sent, end);
        SentTogether(campaign, old(outbox), asking, outbox);
        assert outbox == asking + x.sent;
        Associates(old(outbox), x.asking, x.sent);
      }
    }

    /** The run after the targets have been listed. */
    method SendRounds(addrs: seq<Addr>, inbox: seq<Option<Message>>, s: Surroundings, ghost targets: multiset<Addr>)
      returns (ghost at: nat, ghost rounds: seq<Round>)
      requires Valid() && TellingInbox(inbox) && RunInv(targets, inbox, 0, State()) && addrs != []
      modifies this, progress
      ensures Valid() && RunInv(targets, inbox, at, State())
      ensures IsRun(campaign, s, addrs, inbox, old(State()), rounds, State(), at)
      ensures outbox == old(outbox) + Messages(rounds) && DataGenuine(campaign, outbox[|old(outbox)|..])
    {
      hide RoundOk, RunInv, Rounds, Messages, DataGenuine;
      var next: nat, i: nat, more := 0, 0, true;
      at, rounds := 0, [];
      ghost var start := State();
      NoRounds(campaign, s, addrs, inbox, start, outbox);
      while i < RETRY_COUNT && unfinished != [] && s.running(i) && more
        invariant Valid() && i == |rounds| <= RETRY_COUNT && at == next && RunInv(targets, inbox, at, State())
        invariant Rounds(campaign, s, addrs, inbox, start, rounds, State(), at)
        invariant rounds != [] ==> rounds[|rounds| - 1].more == more
        invariant rounds == [] ==> more
        invariant outbox == old(outbox) + Messages(rounds) && DataGenuine(campaign, outbox[|old(outbox)|..])
        decreases RETRY_COUNT - i
      {
        ghost var before, r := outbox, State();
        ghost var x;
        more, next, x := SendRound(addrs, inbox, next, s, i, targets);
        RoundsGrow(campaign, s, addrs, inbox, start, rounds, r, at, x);
        SentTogether(campaign, old(outbox), before, outbox);
        Associates(old(outbox), Messages(rounds), x.asking + x.sent);
        at, rounds := next, rounds + [x];
        i := i + 1;
      }
    }

    /** The result lists at the start of a run; false when a broadcast has nobody, or too many, to reach. */
    method ListTargets(addrs: seq<Addr>, table: seq<Addr>, rootMac: Addr) returns (go: bool)
      requires addrs != []
      modifies this
      ensures outbox == old(outbox)
      ensures State() == Listed(InitialTargets(addrs, table, rootMac), old(State()).progress)
      ensures go <==> GoesAhead(addrs, unfinished)
    {
      unfinished, successed, requested, asked := addrs, [], [], [];
      stopped, heard := [], [];
      go := true;
      if addrs[0] == ADDR_ANY || addrs[0] == ADDR_BROADCAST {
        unfinished := table;
        if addrs[0] == ADDR_BROADCAST {
          unfinished := RemoveFirst(unfinished, rootMac);
          go := 1 <= |unfinished| <= 2048;
        }
      }
    }

    /** mupgrade_firmware_send. A run ends with MDF_OK exactly when nobody is left unfinished, and then
        every target has been credited or has stopped. What it has sent are the messages of its rounds. */
    method FirmwareSend(addrs: seq<Addr>, table: seq<Addr>, rootMac: Addr, inbox: seq<Option<Message>>, s: Surroundings)
      returns (ret: ErrorCode, ghost at: nat, ghost rounds: seq<Round>)
      requires Valid() && TellingInbox(inbox)
      modifies this, progress
      ensures Valid()
      ensures addrs == [] || |addrs| > |table| || addrs[0] == Addr(0, 0, 0, 0, 0, 0) <==> ret == MdfInvalidArg
      ensures ret != MdfInvalidArg ==> (firmware.NotInitialised? <==> ret == MupgradeFirmwareNotInit)
      ensures ret != MdfInvalidArg && firmware.PartlyDownloaded? ==> ret == MupgradeFirmwareIncomplete
      ensures ret != MdfInvalidArg && firmware.Downloaded? ==>
                var targets := InitialTargets(addrs, table, rootMac);
                RunInv(multiset(targets), inbox, at, State()) &&
                ret == (if unfinished == [] then MdfOk else MupgradeFirmwareIncomplete) &&
                var start := Listed(targets, old(State()).progress);
                if GoesAhead(addrs, targets) then IsRun(campaign, s, addrs, inbox, start, rounds, State(), at)
                else rounds == [] && State() == start
      ensures ret == MdfInvalidArg || !firmware.Downloaded? ==> State() == old(State()) && rounds == []
      ensures outbox == old(outbox) + Messages(rounds)
      ensures DataGenuine(campaign, outbox[|old(outbox)|..])
    {
      hide IsRun;
      at, rounds := 0, [];
      if addrs == [] || addrs[0] == Addr(0, 0, 0, 0, 0, 0) || |addrs| > |table| {
        return MdfInvalidArg, at, rounds;
      }
      if firmware != Downloaded {
        ret := if firmware == NotInitialised then MupgradeFirmwareNotInit else MupgradeFirmwareIncomplete;
        return;
      }
      var go := ListTargets(addrs, table, rootMac);
      ghost var targets := multiset(InitialTargets(addrs, table, rootMac));
      assert Accounted(State()) == targets;
      if go {
        at, rounds := SendRounds(addrs, inbox, s, targets);
      }
      ret := if unfinished != [] then MupgradeFirmwareIncomplete else MdfOk;
    }
  }

  /** MDF_OK from a send run: every target, as often as it was listed, has completed or has stopped. */
  lemma SendRunAccounts(targets: multiset<Addr>, inbox: seq<Option<Message>>, at: nat, r: Root)
    requires RunInv(targets, inbox, at, r) && r.unfinished == []
    ensures forall a :: a in targets ==> CompletedBefore(inbox, at, a) || StoppedBefore(inbox, at, a)
    ensures |targets| == |r.successed| + |r.stopped|
  {
    forall a | a in targets ensures CompletedBefore(inbox, at, a) || StoppedBefore(inbox, at, a) {
      assert a in Accounted(r);
    }
  }
}
