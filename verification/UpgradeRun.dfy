/** What a send run of the root gets done: whom it asks and how often, that every queued report is heeded,
    that an undisturbed run sends every missing packet, and how it ends.
 */
module UpgradeRun {
  import opened Bytes
  import opened Wrappers
  import opened Bitmap
  import opened AddrList
  import opened UpgradePackets
  import opened UpgradeNode
  import opened UpgradeRoot

  // ---- The targets ----

  /** A list is taken as it is; the whole mesh is its routing table, without the root for a broadcast. */
  lemma TargetsListed(addrs: seq<Addr>, table: seq<Addr>, rootMac: Addr)
    requires addrs != []
    ensures multiset(InitialTargets(addrs, table, rootMac)) ==
            if addrs[0] == ADDR_ANY then multiset(table)
            else if addrs[0] == ADDR_BROADCAST then multiset(table) - multiset{rootMac}
            else multiset(addrs)
  {
    if rootMac in table {
      RemoveFirstMultiset(table, rootMac);
    } else {
      RemoveAbsent(table, rootMac);
    }
  }

  lemma {:induction false} RemoveAbsent(list: seq<Addr>, a: Addr)
    requires a !in list
    ensures RemoveFirst(list, a) == list && multiset(list) - multiset{a} == multiset(list)
  {
    if list == [] {
    } else {
      RemoveAbsent(list[1..], a);
    }
  }

  // ---- Heeding reports ----

  /** A report of a stop before completion takes its sender off every list, once. */
  lemma StopIsGivenUp(r: Root, a: Addr, report: Report)
    requires report.err == MupgradeStop && !Complete(report)
    ensures var u := multiset(r.unfinished) - multiset{a};
            var stopped := if a in r.unfinished then r.stopped + [a] else r.stopped;
            var d, c, m := Drain(r, a, report), Collect(r, a, report), MidSend(r, a, report);
            multiset(d.unfinished) == multiset(c.unfinished) == multiset(m.unfinished) == u &&
            d.stopped == c.stopped == m.stopped == stopped &&
            multiset(c.asked) == multiset(r.asked) - multiset{a} &&
            multiset(m.requested) == multiset(r.requested) - multiset{a}
  {
    Removed(r.unfinished, a);
    Removed(r.asked, a);
    Removed(r.requested, a);
  }

  lemma Removed(list: seq<Addr>, a: Addr)
    ensures multiset(RemoveFirst(list, a)) == multiset(list) - multiset{a}
  {
    if a in list {
      RemoveFirstMultiset(list, a);
    } else {
      RemoveAbsent(list, a);
    }
  }

  /** The report says that its sender need not be waited for. */
  predicate Final(m: Message) {
    Complete(m.Value()) || m.err == MupgradeStop
  }

  lemma DrainShrinks(r: Root, a: Addr, report: Report)
    ensures multiset(Drain(r, a, report).unfinished) <= multiset(r.unfinished)
    ensures Complete(report) || report.err == MupgradeStop ==>
              multiset(Drain(r, a, report).unfinished) == multiset(r.unfinished) - multiset{a}
    ensures Complete(report) && a !in r.unfinished ==> Drain(r, a, report) == r
  {
    Removed(r.unfinished, a);
  }

  /** Taken off once, a node that was listed once is not listed any more, nor on any shorter list. */
  lemma OffTheList(before: seq<Addr>, after: seq<Addr>, later: seq<Addr>, a: Addr)
    requires multiset(before)[a] <= 1 && multiset(after) == multiset(before) - multiset{a}
    requires multiset(later) <= multiset(after)
    ensures a !in later
  {
    assert multiset(later)[a] == 0;
  }

  /** Before a round the queued reports are read up to a pause, or until nobody is left. */
  lemma {:induction false} DrainReads(r: Root, inbox: seq<Option<Message>>, at: nat)
    ensures var p := DrainRun(r, inbox, at);
            multiset(p.root.unfinished) <= multiset(r.unfinished) && at < p.at &&
            (if p.done then p.root.unfinished == [] else p.at > |inbox| || inbox[p.at - 1].None?)
    decreases |inbox| - at
  {
    hide Drain;
    if at >= |inbox| || inbox[at].None? {
    } else {
      var m := inbox[at].value;
      DrainShrinks(r, m.src, m.Value());
      if !((m.written != m.total || m.src in r.unfinished) && Drain(r, m.src, m.Value()).unfinished == []) {
        DrainReads(Drain(r, m.src, m.Value()), inbox, at + 1);
      }
    }
  }

  lemma {:induction false} DrainLeavesSome(r: Root, inbox: seq<Option<Message>>, at: nat)
    requires r.unfinished != [] && !DrainRun(r, inbox, at).done
    ensures DrainRun(r, inbox, at).root.unfinished != []
    decreases |inbox| - at
  {
    hide Drain;
    if at < |inbox| && inbox[at].Some? {
      DrainShrinks(r, inbox[at].value.src, inbox[at].value.Value());
      DrainLeavesSome(Drain(r, inbox[at].value.src, inbox[at].value.Value()), inbox, at + 1);
    }
  }

  /** And nobody who has completed or stopped by then is waited for any more. */
  lemma {:induction false} DrainHeeds(r: Root, inbox: seq<Option<Message>>, at: nat, k: nat)
    requires at <= k < |inbox| && k < DrainRun(r, inbox, at).at && inbox[k].Some? && Final(inbox[k].value)
    requires multiset(r.unfinished)[inbox[k].value.src] <= 1
    ensures inbox[k].value.src !in DrainRun(r, inbox, at).root.unfinished
    decreases |inbox| - at
  {
    hide Drain;
    var p := DrainRun(r, inbox, at);
    if inbox[at].None? {
    } else {
      var m := inbox[at].value;
      var s := Drain(r, m.src, m.Value());
      DrainShrinks(r, m.src, m.Value());
      if (m.written != m.total || m.src in r.unfinished) && s.unfinished == [] {
      } else if k == at {
        DrainReads(s, inbox, at + 1);
        OffTheList(r.unfinished, s.unfinished, p.root.unfinished, m.src);
      } else {
        DrainHeeds(s, inbox, at + 1, k);
      }
    }
  }

  lemma MidSendRemoves(r: Root, a: Addr, report: Report)
    ensures multiset(MidSend(r, a, report).requested) <= multiset(r.requested)
    ensures report.err == MupgradeStop && !Complete(report) ==>
              multiset(MidSend(r, a, report).requested) == multiset(r.requested) - multiset{a}
  {
    Removed(r.requested, a);
    assert MidSend(r, a, report).requested in {r.requested, RemoveFirst(r.requested, a)};
  }

  /** Between two packets the reports that have come in are read up to a pause, or until nobody is left. */
  lemma {:induction false} MidSendReads(r: Root, inbox: seq<Option<Message>>, at: nat)
    ensures var p := MidSendRun(r, inbox, at);
            multiset(p.root.requested) <= multiset(r.requested) && at < p.at &&
            (if p.done then p.root.unfinished == [] else p.at > |inbox| || inbox[p.at - 1].None?)
    decreases |inbox| - at
  {
    hide MidSend;
    if at >= |inbox| || inbox[at].None? {
    } else {
      var m := inbox[at].value;
      MidSendRemoves(r, m.src, m.Value());
      if MidSend(r, m.src, m.Value()).unfinished != [] {
        MidSendReads(MidSend(r, m.src, m.Value()), inbox, at + 1);
      }
    }
  }

  /** And nothing more is sent to a node that has stopped by then. */
  lemma {:induction false} MidSendHeeds(r: Root, inbox: seq<Option<Message>>, at: nat, k: nat)
    requires at <= k < |inbox| && k < MidSendRun(r, inbox, at).at && inbox[k].Some?
    requires inbox[k].value.err == MupgradeStop && !Complete(inbox[k].value.Value())
    requires multiset(r.requested)[inbox[k].value.src] <= 1
    ensures inbox[k].value.src !in MidSendRun(r, inbox, at).root.requested
    decreases |inbox| - at
  {
    hide MidSend;
    var p := MidSendRun(r, inbox, at);
    if inbox[at].None? {
    } else {
      var m := inbox[at].value;
      var s := MidSend(r, m.src, m.Value());
      MidSendRemoves(r, m.src, m.Value());
      if k == at {
        MidSendReads(s, inbox, at + 1);
        OffTheList(r.requested, s.requested, p.root.requested, m.src);
      } else {
        MidSendHeeds(s, inbox, at + 1, k);
      }
    }
  }

  // ---- Asking ----

  lemma CollectAsksFewer(r: Root, a: Addr, report: Report)
    ensures multiset(Collect(r, a, report).asked) <= multiset(r.asked)
  {
    Removed(r.asked, a);
    assert Collect(r, a, report).asked in {r.asked, RemoveFirst(r.asked, a)};
  }

  /** Replies are read until everyone asked has replied or none comes in time. */
  lemma {:induction false} CollectEnds(r: Root, inbox: seq<Option<Message>>, at: nat)
    ensures var p := CollectRun(r, inbox, at);
            multiset(p.root.asked) <= multiset(r.asked) && at <= p.at &&
            (p.root.asked == [] || p.at > |inbox| || (at < p.at && inbox[p.at - 1].None?))
    decreases |inbox| - at
  {
    hide Collect;
    if r.asked == [] || at >= |inbox| || inbox[at].None? {
    } else {
      var m := inbox[at].value;
      CollectAsksFewer(r, m.src, m.Value());
      CollectEnds(Collect(r, m.src, m.Value()), inbox, at + 1);
    }
  }

  /** The first request goes to everyone asked, later ones to fewer, and there are as many as are allowed unless
      everyone has replied. */
  lemma {:induction false} AsksUntilAnswered(r: Root, inbox: seq<Option<Message>>, at: nat, tries: nat)
    ensures var out := Requests(r, inbox, at, tries);
            |out| <= tries && (|out| < tries ==> AskRun(r, inbox, at, tries).root.asked == []) &&
            (tries > 0 && r.asked != [] ==> out != [] && out[0] == StatusRequest(r.asked)) &&
            forall x :: x in out ==> x.StatusRequest? && x.to != [] && multiset(x.to) <= multiset(r.asked)
    decreases tries
  {
    if tries == 0 || r.asked == [] {
    } else {
      var p := CollectRun(r, inbox, at);
      CollectEnds(r, inbox, at);
      AsksUntilAnswered(p.root, inbox, p.at, tries - 1);
    }
  }

  /** A round asks three times, unless everyone has replied or the reports already queued settle everything. */
  lemma RoundAsks(r: Root, inbox: seq<Option<Message>>, at: nat)
    ensures var p, out := StatusRound(r, inbox, at), StatusMessages(r, inbox, at);
            (forall x :: x in out ==> x.StatusRequest? && x.to != []) &&
            (|out| == 3 || (|out| < 3 && (p.done || p.root.asked == [])))
  {
    var d := DrainRun(r.(requested := []), inbox, at);
    if !d.done {
      AsksUntilAnswered(BeginRound(d.root), inbox, d.at, REQUEST_COUNT);
    }
  }

  /** Replies of completion from everyone asked, from position at on. */
  predicate AllComplete(inbox: seq<Option<Message>>, at: nat, n: nat) {
    at + n <= |inbox| &&
    forall k :: at <= k < at + n ==>
      inbox[k].Some? && Complete(inbox[k].value.Value()) && inbox[k].value.total > 0 &&
      inbox[k].value.err != MupgradeStop
  }

  function Senders(inbox: seq<Option<Message>>, at: nat, n: nat): (list: seq<Addr>)
    requires AllComplete(inbox, at, n)
    ensures |list| == n
  {
    seq(n, i requires 0 <= i < n => inbox[at + i].value.src)
  }

  lemma CollectsComplete(r: Root, m: Message) returns (s: Root)
    requires Complete(m.Value()) && m.total > 0 && m.err != MupgradeStop && m.src in r.asked && m.src in r.unfinished
    ensures s == Collect(r, m.src, m.Value())
    ensures s == r.(asked := RemoveFirst(r.asked, m.src), unfinished := RemoveFirst(r.unfinished, m.src),
                    successed := r.successed + [m.src])
  {
    s := Collect(r, m.src, m.Value());
  }

  lemma NextSender(inbox: seq<Option<Message>>, at: nat, n: nat)
    requires AllComplete(inbox, at, n) && n > 0
    ensures at < |inbox| && AllComplete(inbox, at, 1) && inbox[at].Some? && AllComplete(inbox, at + 1, n - 1)
    ensures var m := inbox[at].value; Complete(m.Value()) && m.total > 0 && m.err != MupgradeStop
    ensures Senders(inbox, at, n) == [inbox[at].value.src] + Senders(inbox, at + 1, n - 1)
  {
  }

  lemma FirstOff(list: seq<Addr>, a: Addr, rest: seq<Addr>)
    requires multiset(list) == multiset([a] + rest)
    ensures a in list && multiset(RemoveFirst(list, a)) == multiset(rest)
  {
    assert multiset([a] + rest) == multiset{a} + multiset(rest);
    assert a in multiset(list);
    RemoveFirstMultiset(list, a);
  }

  lemma NoneLeft(list: seq<Addr>)
    requires multiset(list) == multiset{}
    ensures list == []
  {
    assert |list| == |multiset(list)|;
  }

  lemma CollectsOn(r: Root, inbox: seq<Option<Message>>, at: nat)
    requires r.asked != [] && at < |inbox| && inbox[at].Some?
    ensures CollectRun(r, inbox, at) ==
            CollectRun(Collect(r, inbox[at].value.src, inbox[at].value.Value()), inbox, at + 1)
  {
  }

  /** All whom r waits for are those whose replies come next. */
  ghost predicate Awaits(r: Root, inbox: seq<Option<Message>>, at: nat, n: nat)
    requires AllComplete(inbox, at, n)
  {
    multiset(r.asked) == multiset(r.unfinished) == multiset(Senders(inbox, at, n))
  }

  lemma CreditsFirst(r: Root, inbox: seq<Option<Message>>, at: nat, n: nat) returns (s: Root)
    requires AllComplete(inbox, at, n) && Awaits(r, inbox, at, n) && n > 0
    ensures AllComplete(inbox, at + 1, n - 1) && Awaits(s, inbox, at + 1, n - 1)
    ensures CollectRun(r, inbox, at) == CollectRun(s, inbox, at + 1)
    ensures s == r.(asked := s.asked, unfinished := s.unfinished, successed := s.successed)
    ensures s.successed + Senders(inbox, at + 1, n - 1) == r.successed + Senders(inbox, at, n)
  {
    hide Collect, AllComplete, Senders, RemoveFirst;
    NextSender(inbox, at, n);
    var m, rest := inbox[at].value, Senders(inbox, at + 1, n - 1);
    FirstOff(r.asked, m.src, rest);
    FirstOff(r.unfinished, m.src, rest);
    s := CollectsComplete(r, m);
    CollectsOn(r, inbox, at);
    assert (r.successed + [m.src]) + rest == r.successed + ([m.src] + rest);
  }

  lemma CreditsNobody(r: Root, inbox: seq<Option<Message>>, at: nat)
    requires AllComplete(inbox, at, 0) && Awaits(r, inbox, at, 0)
    ensures r == r.(asked := [], unfinished := [], successed := r.successed + Senders(inbox, at, 0))
    ensures CollectRun(r, inbox, at) == Passage(r, at, true)
  {
    assert Senders(inbox, at, 0) == [];
    NoneLeft(r.asked);
    NoneLeft(r.unfinished);
    assert r.successed + [] == r.successed;
  }

  /** When everyone asked replies that all is there, everyone is credited and nothing is missing. */
  lemma {:induction false} AllCredited(r: Root, inbox: seq<Option<Message>>, at: nat, n: nat)
    requires AllComplete(inbox, at, n) && Awaits(r, inbox, at, n)
    ensures CollectRun(r, inbox, at) ==
            Passage(r.(asked := [], unfinished := [], successed := r.successed + Senders(inbox, at, n)), at + n, true)
    decreases n
  {
    hide *;
    if n == 0 {
      CreditsNobody(r, inbox, at);
    } else {
      var s := CreditsFirst(r, inbox, at, n);
      AllCredited(s, inbox, at + 1, n - 1);
    }
  }

  // ---- Whole runs ----

  /** Nobody stops the run, and flash can be read. */
  ghost predicate Undisturbed(s: Surroundings) {
    (forall i :: s.running(i)) && (forall i, k :: s.sending(i, k)) && (forall i, k :: s.readable(i, k))
  }

  /** An undisturbed run ends only when nobody is left unfinished, or after the last allowed round. */
  lemma UndisturbedRunEnds(c: Campaign, s: Surroundings, addrs: seq<Addr>, inbox: seq<Option<Message>>, start: Root,
                           rounds: seq<Round>, r: Root, at: nat)
    requires IsRun(c, s, addrs, inbox, start, rounds, r, at) && Undisturbed(s) && CoherentInbox(inbox)
    ensures r.unfinished == [] || |rounds| == RETRY_COUNT
  {
    if rounds != [] && !rounds[|rounds| - 1].more {
      assert RoundOk(c, s, addrs, inbox, |rounds| - 1, rounds[|rounds| - 1]);
    }
  }

  /** In every undisturbed round that is not settled by the replies, every packet that not everyone heard has
      reported is sent, unless nobody requested or nobody unfinished is left. */
  lemma UndisturbedPassIsFull(c: Campaign, s: Surroundings, addrs: seq<Addr>, inbox: seq<Option<Message>>, start: Root,
                              rounds: seq<Round>, r: Root, at: nat, j: nat, k: nat)
    requires IsRun(c, s, addrs, inbox, start, rounds, r, at) && Undisturbed(s) && j < |rounds| && k < c.Count()
    requires !Settled(rounds[j].status) && rounds[j].after.requested != [] && rounds[j].after.unfinished != []
    requires k !in MergeAll(rounds[j].status.root.heard)
    ensures Sent(rounds[j].sent, k) && rounds[j].more
    ensures forall x :: x in rounds[j].sent ==> x in Messages(rounds)
  {
    assert RoundOk(c, s, addrs, inbox, j, rounds[j]);
    RoundsAreSent(rounds, j);
  }

  lemma {:induction false} RoundsAreSent(rounds: seq<Round>, j: nat)
    requires j < |rounds|
    ensures forall x :: x in rounds[j].asking || x in rounds[j].sent ==> x in Messages(rounds)
  {
    if j == |rounds| - 1 {
    } else {
      RoundsAreSent(rounds[..|rounds| - 1], j);
      assert rounds[..|rounds| - 1][j] == rounds[j];
    }
  }

  lemma FirstGoesOn(rounds: seq<Round>)
    requires Chained(rounds) && |rounds| > 1
    ensures rounds[0].more
  {
    assert Follows(rounds[0], rounds[1]);
  }

  lemma IsOnlyRound(rounds: seq<Round>)
    requires Chained(rounds) && rounds != [] && !rounds[0].more
    ensures |rounds| == 1
  {
    hide Chained;
    if |rounds| > 1 {
      FirstGoesOn(rounds);
    }
  }

  /** A run that is not stopped at once begins with a request to everyone that the reports already queued leave
      unfinished, if they leave anyone. */
  lemma FirstIsRequest(c: Campaign, s: Surroundings, addrs: seq<Addr>, inbox: seq<Option<Message>>, start: Root,
                       rounds: seq<Round>, r: Root, at: nat)
    requires IsRun(c, s, addrs, inbox, start, rounds, r, at) && s.running(0) && start.unfinished != []
    requires RETRY_COUNT > 0
    ensures var left := DrainRun(start.(requested := []), inbox, 0).root.unfinished;
            rounds != [] &&
            if left == [] then |rounds| == 1 && Messages(rounds) == [] && r.unfinished == []
            else Messages(rounds) != [] && Messages(rounds)[0] == StatusRequest(left)
  {
    assert RoundOk(c, s, addrs, inbox, 0, rounds[0]);
    var d := DrainRun(start.(requested := []), inbox, 0);
    DrainReads(start.(requested := []), inbox, 0);
    if d.done {
      assert !rounds[0].more;
      IsOnlyRound(rounds);
      assert rounds[..0] == [];
    } else {
      DrainLeavesSome(start.(requested := []), inbox, 0);
      AsksUntilAnswered(BeginRound(d.root), inbox, d.at, REQUEST_COUNT);
      StartsWith(rounds);
    }
  }

  lemma {:induction false} StartsWith(rounds: seq<Round>)
    requires rounds != [] && rounds[0].asking != []
    ensures Messages(rounds) != [] && Messages(rounds)[0] == rounds[0].asking[0]
  {
    if |rounds| == 1 {
      assert rounds[..0] == [] && Messages(rounds) == [] + (rounds[0].asking + rounds[0].sent);
    } else {
      StartsWith(rounds[..|rounds| - 1]);
    }
  }

  /** A run whose targets all reply to the first request that they have everything sends nothing else, and ends
      with everyone credited. */
  lemma PromptRunFinishes(c: Campaign, s: Surroundings, addrs: seq<Addr>, inbox: seq<Option<Message>>,
                          targets: seq<Addr>, progress: set<nat>, rounds: seq<Round>, r: Root, at: nat)
    requires IsRun(c, s, addrs, inbox, Listed(targets, progress), rounds, r, at) && s.running(0) && targets != []
    requires RETRY_COUNT > 0 && inbox != [] && inbox[0].None? && AllComplete(inbox, 1, |targets|)
    requires multiset(Senders(inbox, 1, |targets|)) == multiset(targets)
    ensures r.unfinished == [] && r.stopped == [] && multiset(r.successed) == multiset(targets)
    ensures Messages(rounds) == [StatusRequest(targets)]
  {
    var start := Listed(targets, progress);
    var begun := BeginRound(start);
    assert start.(requested := []) == start;
    assert RoundOk(c, s, addrs, inbox, 0, rounds[0]);
    AllCredited(begun, inbox, 1, |targets|);
    var p := CollectRun(begun, inbox, 1);
    assert AskRun(begun, inbox, 1, REQUEST_COUNT) == AskRun(p.root, inbox, p.at, REQUEST_COUNT - 1);
    assert Requests(begun, inbox, 1, REQUEST_COUNT) ==
           [StatusRequest(targets)] + Requests(p.root, inbox, p.at, REQUEST_COUNT - 1);
    assert Settled(rounds[0].status);
    IsOnlyRound(rounds);
    assert rounds[..0] == [];
    assert [] + Senders(inbox, 1, |targets|) == Senders(inbox, 1, |targets|);
  }
}
