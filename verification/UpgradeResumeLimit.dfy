/** The stored checkpoint leaves out the last 128 bits of the bitmap but not the bytes they count. Resuming
    is exact for images of at most 3968 packets; for larger ones the counter can run ahead of the bitmap, and
    a node can complete without having received the whole image.
 */
module UpgradeResumeLimit {
  import opened Bytes
  import opened Wrappers
  import opened Bitmap
  import opened Nor
  import opened UpgradePackets
  import opened UpgradeNode
  import opened UpgradeNodeSafety
  import opened UpgradeLateReport

  /** The counter of a node that has not been stopped is the size of its marked packets. */
  ghost predicate CounterAgrees(c: Campaign, n: Node) {
    n.config.Some? && n.config.value.err != MupgradeStop ==>
      n.config.value.written == MarkedSize(|c.image|, n.config.value.marks, c.Count())
  }

  ghost predicate CounterAlwaysAgrees(c: Campaign) {
    forall n, es, n' :: Untouched(c, n) && Reaches(c, n, es, n') ==> CounterAgrees(c, n')
  }

  /** The node counts the whole image. */
  predicate CountsAll(c: Campaign, n: Node) {
    n.config.Some? && n.config.value.err != MupgradeStop && n.config.value.written == n.config.value.total == |c.image|
  }

  ghost predicate CompletionAlwaysExact(c: Campaign) {
    forall n, es, n' :: Untouched(c, n) && Reaches(c, n, es, n') && CountsAll(c, n') ==> Exact(c.image, n'.flash)
  }

  /** The first packet whose bit the checkpoint does not store. */
  const UNSAVED := SAVED_PACKETS

  predicate TooLarge(c: Campaign) {
    c.Valid() && !Resumable(c)
  }

  // ---- Sizes of sets of packets ----

  lemma {:induction false} MarkedSizeMonotone(total: nat, a: set<nat>, b: set<nat>, n: nat)
    requires a <= b
    ensures MarkedSize(total, a, n) <= MarkedSize(total, b, n)
  {
    if n == 0 {
    } else {
      MarkedSizeMonotone(total, a, b, n - 1);
    }
  }

  lemma LastSize(total: nat, k: nat)
    requires k < PacketCount(total)
    ensures 0 < PacketSize(total, k) <= PACKET_MAX_SIZE && k * PACKET_MAX_SIZE + PacketSize(total, k) <= total
    ensures (k + 1) * PACKET_MAX_SIZE <= total ==> PacketSize(total, k) == PACKET_MAX_SIZE
  {
  }

  /** All packets of the image but p. */
  function AllBut(c: Campaign, p: nat): set<nat> {
    Below(c.Count()) - {p}
  }

  /** Without p the counter stays below the image by the size of p, and reaches that only with all others. */
  lemma SizeWithout(c: Campaign, r: set<nat>, p: nat)
    requires c.Valid() && p < c.Count() && p !in r
    ensures var size := MarkedSize(|c.image|, r, c.Count()) + PacketSize(|c.image|, p);
            size <= |c.image| && (size == |c.image| <==> AllBut(c, p) <= r)
  {
    MarkedSizeAfterMark(|c.image|, r, p, c.Count());
    CompleteIffAllMarked(|c.image|, r + {p});
    if AllBut(c, p) <= r {
      forall k | 0 <= k < c.Count() ensures k in r + {p} {
        assert k != p ==> k in AllBut(c, p);
      }
    }
    if forall k :: 0 <= k < c.Count() ==> k in r + {p} {
      forall k | k in AllBut(c, p) ensures k in r {
        assert k in r + {p};
      }
    }
  }

  // ---- Deliveries ----

  function PacketOf(c: Campaign, k: nat): (p: Packet)
    requires c.Valid() && k < c.Count()
    ensures Genuine(c, p) && p.seqno == k
  {
    var size, at := PacketSize(|c.image|, k), k * PACKET_MAX_SIZE;
    Packet(k, size, c.image[at..at + size] + Fill(PACKET_MAX_SIZE - size, 0))
  }

  function Delivery(c: Campaign, k: nat): (e: Event)
    requires c.Valid() && k < c.Count()
    ensures forall n :: Possible(c, n, e)
  {
    var p := PacketOf(c, k);
    Deliver(p, Env(true, Fill(p.size, 0), true))
  }

  /** Power is lost right after packet k has been counted and the checkpoint, if due, stored. */
  function Loss(c: Campaign, n: Node, k: nat): (e: Event)
    requires c.Valid() && k < c.Count()
    ensures Possible(c, n, e)
  {
    var p := PacketOf(c, k);
    PowerLoss(p, Fill(p.size, 0), true, n.flash)
  }

  /** Packet p has not been written since the last erase, if there is such a packet. */
  ghost predicate Unwritten(c: Campaign, flash: seq<Byte>, p: nat) {
    |c.image| <= |flash| &&
    forall i :: 0 <= i < |c.image| && i / PACKET_MAX_SIZE == p ==> flash[i] == 0xFF
  }

  lemma StaysUnwritten(c: Campaign, n: Node, k: nat, p: nat)
    requires c.Valid() && k < c.Count() && k != p && Unwritten(c, n.flash, p)
    ensures Fits(n, PacketOf(c, k))
    ensures Unwritten(c, Programmed(n, PacketOf(c, k), Fill(PacketOf(c, k).size, 0)), p)
  {
    LastSize(|c.image|, k);
  }

  /** A delivered packet that is new is programmed and counted. */
  lemma DeliveryCounts(c: Campaign, n: Node, k: nat)
    requires c.Valid() && k < c.Count() && Ready(n) && |c.image| <= |n.flash| && n.config.Some?
    requires n.config.value.err != MupgradeStop && n.config.value.total == |c.image| && k !in n.config.value.marks
    ensures Fits(n, PacketOf(c, k))
    ensures var p := PacketOf(c, k);
            Step(c, n, Delivery(c, k)) == Counted(n.(flash := Programmed(n, p, Fill(p.size, 0))), p, true)
  {
    LastSize(|c.image|, k);
  }

  // ---- The first checkpoint with progress ----

  /** Packets 0..i-1 but p, and the unsaved packet. */
  function Got(i: nat, p: nat): set<nat> {
    Below(i) - {p} + {UNSAVED}
  }

  /** The percentage is still below the first report. */
  predicate Early(c: Campaign, written: nat) {
    written * 100 < STATUS_REPORT_INTERVAL * |c.image|
  }

  function Size(c: Campaign, r: set<nat>): nat {
    MarkedSize(|c.image|, r, c.Count())
  }

  function Progress(c: Campaign, r: set<nat>): Status {
    Status(c.name, MdfOk, |c.image|, Size(c, r), r)
  }

  ghost predicate Filling(c: Campaign, n: Node, r: set<nat>, p: nat)
    requires TooLarge(c)
  {
    n.config == Some(Progress(c, r)) && n.nextPercentage == STATUS_REPORT_INTERVAL && !n.bootUpdate &&
    Ready(n) && Early(c, Size(c, r)) && Unwritten(c, n.flash, p) && p !in r
  }

  lemma QuotientBelow(a: nat, t: nat, q: nat)
    requires t > 0
    ensures a / t < q <==> a < q * t
  {
    assert a == t * (a / t) + a % t;
    if a / t < q {
      assert t * (a / t + 1) <= t * q;
    } else {
      assert t * q <= t * (a / t);
    }
  }

  lemma PercentageBounds(w: nat, total: nat, q: nat)
    requires total > 0
    ensures Percentage(w, total) < q <==> w * 100 < q * total
    ensures Percentage(w, total) == q <==> q * total <= w * 100 < (q + 1) * total
  {
    QuotientBelow(w * 100, total, q);
    QuotientBelow(w * 100, total, q + 1);
  }

  /** Below the first report nothing is stored; the packet that reaches it is less than one percent. */
  lemma FirstCheckpoint(c: Campaign, before: nat, size: nat, saved: Option<Status>, st: Status)
    requires TooLarge(c) && size <= PACKET_MAX_SIZE && Early(c, before)
    requires st.total == |c.image| && st.written == before + size
    ensures Checkpoint(saved, STATUS_REPORT_INTERVAL, st) ==
            if Early(c, st.written) then (saved, STATUS_REPORT_INTERVAL)
            else (Some(Truncated(st)), 2 * STATUS_REPORT_INTERVAL)
  {
    PercentageBounds(st.written, |c.image|, STATUS_REPORT_INTERVAL);
    if !Early(c, st.written) {
      assert (STATUS_REPORT_INTERVAL + 1) * |c.image| == STATUS_REPORT_INTERVAL * |c.image| + |c.image|;
    }
  }

  lemma Scaled(a: nat, b: nat, t: nat)
    requires a <= b
    ensures a * t <= b * t
  {
  }

  lemma EarlyIsIncomplete(c: Campaign, written: nat)
    requires Early(c, written)
    ensures written < |c.image|
  {
    Scaled(STATUS_REPORT_INTERVAL, 100, |c.image|);
  }

  lemma ErasedIsUnwritten(c: Campaign, flash: seq<Byte>, p: nat)
    requires |c.image| <= |flash|
    ensures Unwritten(c, Erase(flash, 0, EraseSize(|flash|, |c.image|)), p)
  {
    hide EraseSize;
  }

  lemma NothingIsEarly(c: Campaign)
    requires |c.image| > 0
    ensures Size(c, {}) == 0 && Early(c, 0)
  {
    MarkedSizeOfNone(|c.image|, c.Count());
  }

  lemma Begins(c: Campaign, n: Node, p: nat) returns (n': Node)
    requires TooLarge(c) && Untouched(c, n) && n.nextPercentage == STATUS_REPORT_INTERVAL
    ensures n' == Step(c, n, Ask(MupgradeFirmwareFinish)).node && Filling(c, n', {}, p)
  {
    hide Erase, EraseSize, Unwritten, Size, Early;
    n' := Step(c, n, Ask(MupgradeFirmwareFinish)).node;
    ErasedIsUnwritten(c, n.flash, p);
    NothingIsEarly(c);
  }

  lemma Adds(c: Campaign, r: set<nat>, k: nat)
    requires c.Valid() && k < c.Count() && k !in r
    ensures Size(c, r + {k}) == Size(c, r) + PacketSize(|c.image|, k)
  {
    MarkedSizeAfterMark(|c.image|, r, k, c.Count());
  }

  /** One more packet, still below the first report. */
  lemma Receives(c: Campaign, n: Node, r: set<nat>, p: nat, k: nat) returns (n': Node)
    requires TooLarge(c) && Filling(c, n, r, p) && k < c.Count() && k !in r && k != p && Early(c, Size(c, r + {k}))
    ensures n' == Step(c, n, Delivery(c, k)).node && Filling(c, n', r + {k}, p)
  {
    hide Programmed, Truncated, PacketSize, Early, Checkpoint, Size;
    n' := Step(c, n, Delivery(c, k)).node;
    DeliveryCounts(c, n, k);
    LastSize(|c.image|, k);
    Adds(c, r, k);
    StaysUnwritten(c, n, k, p);
    FirstCheckpoint(c, Size(c, r), PacketSize(|c.image|, k), n.saved, Progress(c, r + {k}));
    EarlyIsIncomplete(c, Size(c, r + {k}));
  }

  /** What a node resumes with after power was lost on the packet that reached the first report. */
  ghost predicate Stored(c: Campaign, n: Node, r: set<nat>, p: nat) {
    n.config.None? && n.saved == Some(Truncated(Progress(c, r))) && !n.bootUpdate && Ready(n) &&
    Unwritten(c, n.flash, p) && p !in r
  }

  lemma Stores(c: Campaign, n: Node, r: set<nat>, p: nat, k: nat) returns (n': Node)
    requires TooLarge(c) && Filling(c, n, r, p) && k < c.Count() && k !in r && k != p && !Early(c, Size(c, r + {k}))
    ensures n' == Step(c, n, Loss(c, n, k)).node && Stored(c, n', r + {k}, p)
  {
    n' := Step(c, n, Loss(c, n, k)).node;
    LastSize(|c.image|, k);
    Adds(c, r, k);
    StaysUnwritten(c, n, k, p);
    FirstCheckpoint(c, Size(c, r), PacketSize(|c.image|, k), n.saved, Progress(c, r + {k}));
  }

  /** Keep delivering from packet i on, but never p, until the first report is reached. */
  lemma {:induction false} FillsUntilStored(c: Campaign, n: Node, p: nat, i: nat)
    returns (es: seq<Event>, n': Node, r: set<nat>)
    requires TooLarge(c) && Filling(c, n, Got(i, p), p) && i <= c.Count() && p != UNSAVED
    requires p < c.Count() ==> STATUS_REPORT_INTERVAL < 100
    ensures Reaches(c, n, es, n') && Stored(c, n', r, p) && UNSAVED in r && forall k :: k in r ==> k < c.Count()
    decreases c.Count() - i
  {
    hide Early, Size, Unwritten, Truncated;
    var got := Got(i, p);
    if i == c.Count() {
      NeverEarly(c, p, got);
      assert false;
    } else if i in got || i == p {
      assert Got(i + 1, p) == got;
      es, n', r := FillsUntilStored(c, n, p, i + 1);
    } else {
      assert Got(i + 1, p) == got + {i};
      if Early(c, Size(c, got + {i})) {
        var n1 := Receives(c, n, got, p, i);
        var rest;
        rest, n', r := FillsUntilStored(c, n1, p, i + 1);
        es := [Delivery(c, i)] + rest;
        assert es[1..] == rest;
      } else {
        n' := Stores(c, n, got, p, i);
        es, r := [Loss(c, n, i)], got + {i};
        assert es[1..] == [];
      }
    }
  }

  /** With all packets but p received, the first report has been reached. */
  lemma NeverEarly(c: Campaign, p: nat, r: set<nat>)
    requires TooLarge(c) && AllBut(c, p) <= r && p !in r
    requires p < c.Count() ==> STATUS_REPORT_INTERVAL < 100
    ensures !Early(c, Size(c, r))
  {
    if p < c.Count() {
      SizeWithout(c, r, p);
      LastSize(|c.image|, p);
      Scaled(STATUS_REPORT_INTERVAL, 99, |c.image|);
    } else {
      assert forall k :: 0 <= k < c.Count() ==> k in AllBut(c, p);
      CompleteIffAllMarked(|c.image|, r);
      Scaled(STATUS_REPORT_INTERVAL, 100, |c.image|);
    }
  }

  /** A node that resumed from the checkpoint after packets r: it counts all of r, but marks only what the
      checkpoint stores. */
  ghost predicate Resumed(c: Campaign, n: Node, r: set<nat>, p: nat) {
    n.config == Some(Truncated(Progress(c, r))) && Ready(n) && Unwritten(c, n.flash, p) && p !in r && UNSAVED in r &&
    forall k :: k in r ==> k < c.Count()
  }

  lemma Resumes(c: Campaign, n: Node, r: set<nat>, p: nat) returns (n': Node)
    requires TooLarge(c) && Stored(c, n, r, p) && UNSAVED in r && forall k :: k in r ==> k < c.Count()
    ensures n' == Step(c, n, Ask(MupgradeFirmwareFinish)).node && Resumed(c, n', r, p)
  {
    n' := Step(c, n, Ask(MupgradeFirmwareFinish)).node;
  }

  /** Every image above the limit has a run to a node that has lost the mark of a packet it counts. */
  lemma ReachesResumed(c: Campaign, p: nat) returns (n: Node, es: seq<Event>, n': Node, r: set<nat>)
    requires TooLarge(c) && p != UNSAVED && (p < c.Count() ==> STATUS_REPORT_INTERVAL < 100)
    ensures Untouched(c, n) && Reaches(c, n, es, n') && Resumed(c, n', r, p)
  {
    var ask := Ask(MupgradeFirmwareFinish);
    n := Node(None, false, STATUS_REPORT_INTERVAL, Fill(|c.image|, 0), None, false);
    var n1 := Begins(c, n, p);
    assert {} + {UNSAVED} == Got(0, p);
    FirstIsEarly(c);
    var n2 := Receives(c, n1, {}, p, UNSAVED);
    var es3, n3;
    es3, n3, r := FillsUntilStored(c, n2, p, 0);
    n' := Resumes(c, n3, r, p);
    OneStep(c, n, ask);
    OneStep(c, n1, Delivery(c, UNSAVED));
    OneStep(c, n3, ask);
    ReachesTransitive(c, n, [ask], n1, [Delivery(c, UNSAVED)], n2);
    ReachesTransitive(c, n, [ask] + [Delivery(c, UNSAVED)], n2, es3, n3);
    es := [ask] + [Delivery(c, UNSAVED)] + es3 + [ask];
    ReachesTransitive(c, n, [ask] + [Delivery(c, UNSAVED)] + es3, n3, [ask], n');
  }

  lemma OneStep(c: Campaign, n: Node, e: Event)
    requires Ready(n) && Possible(c, n, e)
    ensures Reaches(c, n, [e], Step(c, n, e).node)
  {
    assert [e][1..] == [];
  }

  lemma FirstIsEarly(c: Campaign)
    requires TooLarge(c)
    ensures Early(c, Size(c, {} + {UNSAVED}))
  {
    MarkedSizeOfNone(|c.image|, c.Count());
    Adds(c, {}, UNSAVED);
    LastSize(|c.image|, UNSAVED);
    Scaled(1, STATUS_REPORT_INTERVAL, |c.image|);
  }

  lemma ResumedDisagrees(c: Campaign, n: Node, r: set<nat>, p: nat)
    requires TooLarge(c) && Resumed(c, n, r, p)
    ensures !CounterAgrees(c, n)
  {
    var marks := n.config.value.marks;
    Adds(c, marks, UNSAVED);
    LastSize(|c.image|, UNSAVED);
    MarkedSizeMonotone(|c.image|, marks + {UNSAVED}, r, c.Count());
  }

  /** Counter and bitmap agree on every run, with any losses, repeats, stops and restarts, if and only
      if the image has at most 3968 packets. */
  lemma ResumeLimitIsExact(c: Campaign)
    requires c.Valid()
    ensures CounterAlwaysAgrees(c) <==> Resumable(c)
  {
    if Resumable(c) {
      forall n, es, n' | Untouched(c, n) && Reaches(c, n, es, n') ensures CounterAgrees(c, n') {
        RunKeepsInv(c, n, es, n');
      }
    } else {
      var n, es, n', r := ReachesResumed(c, c.Count());
      ResumedDisagrees(c, n', r, c.Count());
    }
  }

  // ---- What the stale counter leads to ----

  /** Packets r have been received, one full packet counted twice; p has not been received at all. */
  ghost predicate Skipping(c: Campaign, n: Node, r: set<nat>, p: nat) {
    n.config.Some? && Ready(n) && Unwritten(c, n.flash, p) &&
    var st := n.config.value;
    st.err == MdfOk && st.total == |c.image| && st.written == PACKET_MAX_SIZE + Size(c, r) &&
    st.marks <= r && p !in r && forall k :: k in r ==> k < c.Count()
  }

  lemma CountsTwice(c: Campaign, n: Node, r: set<nat>, p: nat) returns (n': Node)
    requires TooLarge(c) && Resumed(c, n, r, p) && UNSAVED != p && (UNSAVED + 1) * PACKET_MAX_SIZE <= |c.image|
    ensures n' == Step(c, n, Delivery(c, UNSAVED)).node && Skipping(c, n', r, p)
  {
    n' := Step(c, n, Delivery(c, UNSAVED)).node;
    DeliveryCounts(c, n, UNSAVED);
    LastSize(|c.image|, UNSAVED);
    StaysUnwritten(c, n, UNSAVED, p);
  }

  lemma SkipsOne(c: Campaign, n: Node, r: set<nat>, p: nat, k: nat) returns (n': Node)
    requires TooLarge(c) && Skipping(c, n, r, p) && k < c.Count() && k !in r && k != p
    ensures n' == Step(c, n, Delivery(c, k)).node && Skipping(c, n', r + {k}, p)
  {
    n' := Step(c, n, Delivery(c, k)).node;
    DeliveryCounts(c, n, k);
    Adds(c, r, k);
    StaysUnwritten(c, n, k, p);
  }

  /** Deliver every packet from k on that has not been received, but p. */
  lemma {:induction false} SkipsToTheEnd(c: Campaign, n: Node, r: set<nat>, p: nat, k: nat)
    returns (es: seq<Event>, n': Node, r': set<nat>)
    requires TooLarge(c) && Skipping(c, n, r, p) && k <= c.Count()
    requires forall i :: 0 <= i < k && i != p ==> i in r
    ensures Reaches(c, n, es, n') && Skipping(c, n', r', p) && AllBut(c, p) <= r'
    decreases c.Count() - k
  {
    if k == c.Count() {
      es, n', r' := [], n, r;
    } else if k in r || k == p {
      es, n', r' := SkipsToTheEnd(c, n, r, p, k + 1);
    } else {
      var n1 := SkipsOne(c, n, r, p, k);
      var rest;
      rest, n', r' := SkipsToTheEnd(c, n1, r + {k}, p, k + 1);
      es := [Delivery(c, k)] + rest;
      assert es[1..] == rest;
    }
  }

  /** A full packet other than the one counted twice. */
  predicate Skippable(c: Campaign, p: nat) {
    p != UNSAVED && (p + 1) * PACKET_MAX_SIZE <= |c.image|
  }

  /** Packet p looks like erased flash. */
  predicate Blank(c: Campaign, p: nat) {
    forall i :: 0 <= i < |c.image| && i / PACKET_MAX_SIZE == p ==> c.image[i] == 0xFF
  }

  lemma ReachesFalseCompletion(c: Campaign, p: nat) returns (n: Node, es: seq<Event>, n': Node)
    requires c.Valid() && (UNSAVED + 1) * PACKET_MAX_SIZE <= |c.image| && Skippable(c, p) &&
             STATUS_REPORT_INTERVAL < 100
    ensures Untouched(c, n) && Reaches(c, n, es, n') && CountsAll(c, n') && p !in n'.config.value.marks
    ensures Unwritten(c, n'.flash, p)
  {
    var n1, r;
    n, es, n1, r := ReachesResumed(c, p);
    var n2 := CountsTwice(c, n1, r, p);
    var es3, r';
    es3, n', r' := SkipsToTheEnd(c, n2, r, p, 0);
    SizeWithout(c, r', p);
    LastSize(|c.image|, p);
    OneStep(c, n1, Delivery(c, UNSAVED));
    ReachesTransitive(c, n, es, n1, [Delivery(c, UNSAVED)], n2);
    ReachesTransitive(c, n, es + [Delivery(c, UNSAVED)], n2, es3, n');
    es := es + [Delivery(c, UNSAVED)] + es3;
  }

  /** From 3969 full packets on, and whichever full packet p but number 3968 one picks, some run makes a node
      count the whole image without having received p since its last erase; unless p looks like erased flash,
      the upgrade is then not exact. */
  lemma FalseCompletion(c: Campaign, p: nat)
    requires c.Valid() && (UNSAVED + 1) * PACKET_MAX_SIZE <= |c.image| && Skippable(c, p) &&
             STATUS_REPORT_INTERVAL < 100
    ensures exists n, es, n' ::
              Untouched(c, n) && Reaches(c, n, es, n') && CountsAll(c, n') && p !in n'.config.value.marks &&
              (!Blank(c, p) ==> !Exact(c.image, n'.flash))
  {
    var n, es, n' := ReachesFalseCompletion(c, p);
    if !Blank(c, p) {
      var i :| 0 <= i < |c.image| && i / PACKET_MAX_SIZE == p && c.image[i] != 0xFF;
      assert n'.flash[..|c.image|][i] == 0xFF;
    }
  }

  /** Completion means the exact image on every run if and only if the image has at most 3968 packets or the
      report interval is 100: for images with a full packet, number 3968 apart, that does not look like erased
      flash, and, at smaller intervals, not for 3969 packets of which the last one is short. */
  lemma CompletionLimitIsExact(c: Campaign, p: nat)
    requires c.Valid() && Skippable(c, p) && !Blank(c, p)
    requires Resumable(c) || STATUS_REPORT_INTERVAL == 100 || (UNSAVED + 1) * PACKET_MAX_SIZE <= |c.image|
    ensures CompletionAlwaysExact(c) <==> Resumable(c) || STATUS_REPORT_INTERVAL == 100
  {
    if Resumable(c) || STATUS_REPORT_INTERVAL == 100 {
      forall n, es, n' | Untouched(c, n) && Reaches(c, n, es, n') && CountsAll(c, n') ensures Exact(c.image, n'.flash) {
        if STATUS_REPORT_INTERVAL == 100 {
          LateRun(c, n, es, n');
          if StatusInv(c, n'.config.value, n'.flash) {
            CompleteIsExact(c, n'.config.value, n'.flash);
          }
        } else {
          RunKeepsInv(c, n, es, n');
          CompleteIsExact(c, n'.config.value, n'.flash);
        }
      }
    } else {
      FalseCompletion(c, p);
    }
  }
}
