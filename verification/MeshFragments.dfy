/** Fragmentation of mesh messages (mwifi.c) and the two loops that put them together again. */
module MeshFragments {
  import opened Bytes
  import opened Slices
  import opened Wrappers

  const PAYLOAD_LEN := 1456

  /** The header fields a fragment carries: 1 + 12 bits of total size, 3 bits of sequence. */
  datatype Frame = Frame(magic: nat, sizeHigh: nat, sizeLow: nat, seqno: nat, data: seq<Byte>)

  /** A message with the random magic drawn for each of its fragments. */
  datatype Message = Message(data: seq<Byte>, magics: seq<nat>) {
    function Count(): (n: nat) {
      (|data| + PAYLOAD_LEN - 1) / PAYLOAD_LEN
    }

    predicate Valid() {
      1 <= |data| <= 8191 && |magics| == Count()
    }
  }

  function FrameOf(m: Message, k: nat): (f: Frame)
    requires k < m.Count() && k < |m.magics|
  {
    Frame(m.magics[k], |m.data| / 4096 % 2, |m.data| % 4096, k % 8, Slice(m.data, PAYLOAD_LEN, k))
  }

  function TotalSize(f: Frame): nat {
    f.sizeHigh * 4096 + f.sizeLow
  }

  lemma Remainder(n: nat, h: nat, rest: nat)
    requires n == 8192 * h + rest && rest < 8192
    ensures n % 8192 == rest
  {
  }

  lemma SplitSize(n: nat)
    ensures n / 4096 % 2 * 4096 + n % 4096 == n % 8192
  {
    var q := n / 4096;
    var h, b, r := q / 2, q % 2, n % 4096;
    assert n == 4096 * q + r && q == 2 * h + b;
    Remainder(n, h, b * 4096 + r);
  }

  /** The header tells the size of a message exactly when it is below 8192. */
  lemma HeaderTellsSize(m: Message, k: nat)
    requires k < m.Count() && k < |m.magics|
    ensures TotalSize(FrameOf(m, k)) == |m.data| % 8192
    ensures TotalSize(FrameOf(m, k)) == |m.data| <==> |m.data| < 8192
  {
    SplitSize(|m.data|);
  }

  function Frames(m: Message): (fs: seq<Frame>)
    requires |m.magics| == m.Count()
    ensures |fs| == m.Count()
  {
    seq(m.Count(), k requires 0 <= k < m.Count() => FrameOf(m, k))
  }

  /** The fragment the send loop builds when k fragments have gone out. */
  lemma NextSequence(k: nat)
    ensures (k % 8 + 1) % 8 == (k + 1) % 8
  {
  }

  lemma Unwritten(m: Message, k: nat)
    requires k * PAYLOAD_LEN < |m.data|
    ensures k < m.Count()
  {
  }

  lemma FrameAt(m: Message, k: nat, size: nat)
    requires |m.magics| == m.Count() && k < m.Count() && k * PAYLOAD_LEN < |m.data|
    requires size == if |m.data| - k * PAYLOAD_LEN < PAYLOAD_LEN then |m.data| - k * PAYLOAD_LEN else PAYLOAD_LEN
    ensures FrameOf(m, k) == Frame(m.magics[k], |m.data| / 4096 % 2, |m.data| % 4096, k % 8,
                                   m.data[k * PAYLOAD_LEN..k * PAYLOAD_LEN + size])
  {
  }

  lemma CountReached(m: Message, k: nat)
    requires k * PAYLOAD_LEN >= |m.data| && k <= m.Count()
    ensures k == m.Count()
  {
  }

  /** mwifi_subcontract_write; magics are the random numbers drawn. */
  method SubcontractWrite(m: Message) returns (sent: seq<Frame>)
    requires |m.magics| == m.Count()
    ensures sent == Frames(m)
  {
    sent := [];
    var unwritten: int, at: nat, seqno: nat := |m.data|, 0, 0;
    ghost var k: nat := 0;
    while unwritten > 0
      invariant at == k * PAYLOAD_LEN && unwritten == |m.data| - at && seqno == k % 8
      invariant |sent| == k <= m.Count()
      invariant forall i :: 0 <= i < k ==> sent[i] == Frames(m)[i]
    {
      var size := if unwritten < PAYLOAD_LEN then unwritten else PAYLOAD_LEN;
      Unwritten(m, k);
      FrameAt(m, k, size);
      NextSequence(k);
      sent := sent + [Frame(m.magics[|sent|], |m.data| / 4096 % 2, |m.data| % 4096, seqno, m.data[at..at + size])];
      seqno := (seqno + 1) % 8;
      at := at + PAYLOAD_LEN;
      unwritten := unwritten - PAYLOAD_LEN;
      k := k + 1;
    }
    CountReached(m, k);
  }

  // ---- Reading ----

  /** The variables of a read loop; buffer is recv_data[..recv_size]. */
  datatype Reader = Reader(buffer: seq<Byte>, total: nat, awaited: int, magic: nat)

  function Start(magic: nat): Reader {
    Reader([], 0, 0, magic)
  }

  /** The condition on which a loop ends: __mwifi_root_read looks at the sequence number, __mwifi_read at
      the received size. */
  predicate Done(atRoot: bool, r: Reader) {
    (if atRoot then r.awaited != 0 else r.buffer != []) && |r.buffer| >= r.total
  }

  /** One received fragment, including the increment at the end of the iteration. Only __mwifi_read
      filters repeated magics. */
  function Take(atRoot: bool, r: Reader, f: Frame): Reader {
    if f.seqno != r.awaited && f.seqno != 0 then r.(buffer := [], awaited := 0)
    else
      var s := if f.seqno != r.awaited then r.(buffer := [], awaited := -1) else r;
      if !atRoot && f.magic == s.magic then s
      else Reader(s.buffer + f.data, TotalSize(f), s.awaited + 1, if atRoot then s.magic else f.magic)
  }

  /** One call of a read: the message, or None when receiving times out first; what is left; the magic
      that stays behind. */
  function ReadOne(atRoot: bool, r: Reader, frames: seq<Frame>): (Option<seq<Byte>>, seq<Frame>, nat)
    decreases |frames|
  {
    if frames == [] then (None, [], r.magic)
    else
      var s := Take(atRoot, r, frames[0]);
      if Done(atRoot, s) then (Some(s.buffer), frames[1..], s.magic)
      else ReadOne(atRoot, s, frames[1..])
  }

  /** Everything repeated reads deliver. */
  function ReadAll(atRoot: bool, r: Reader, frames: seq<Frame>): seq<seq<Byte>>
    decreases |frames|
  {
    if frames == [] then []
    else
      var s := Take(atRoot, r, frames[0]);
      if Done(atRoot, s) then [s.buffer] + ReadAll(atRoot, Start(s.magic), frames[1..])
      else ReadAll(atRoot, s, frames[1..])
  }

  /** The room a loop offers for the next fragment. */
  function Offered(atRoot: bool, r: Reader): nat {
    if (if atRoot then r.awaited == 0 else r.buffer == []) then PAYLOAD_LEN
    else if |r.buffer| <= r.total then r.total - |r.buffer|
    else 0
  }

  /** Every fragment fits the room offered for it. What the mesh stack does with one that does not is not
      part of this model. */
  predicate AllFit(atRoot: bool, r: Reader, frames: seq<Frame>)
    decreases |frames|
  {
    frames != [] ==>
      |frames[0].data| <= Offered(atRoot, r) &&
      var s := Take(atRoot, r, frames[0]);
      AllFit(atRoot, if Done(atRoot, s) then Start(s.magic) else s, frames[1..])
  }

  /** Repeated calls of a read deliver one message after the other. */
  lemma {:induction false} ReadAllByCalls(atRoot: bool, r: Reader, frames: seq<Frame>)
    ensures var (msg, rest, magic) := ReadOne(atRoot, r, frames);
            |rest| <= |frames| &&
            ReadAll(atRoot, r, frames) ==
            if msg.Some? then [msg.value] + ReadAll(atRoot, Start(magic), rest) else []
    decreases |frames|
  {
    if frames == [] {
    } else {
      var s := Take(atRoot, r, frames[0]);
      if !Done(atRoot, s) {
        ReadAllByCalls(atRoot, s, frames[1..]);
      }
    }
  }

  class MeshReader {
    /** The static s_data_magic of __mwifi_read. */
    var dataMagic: nat

    constructor ()
      ensures dataMagic == 0
    {
      dataMagic := 0;
    }

    /** The reassembly loop of __mwifi_read. */
    method Read(frames: seq<Frame>) returns (msg: Option<seq<Byte>>, rest: seq<Frame>)
      modifies this
      ensures (msg, rest, dataMagic) == ReadOne(false, Start(old(dataMagic)), frames)
    {
      var recvData: seq<Byte>, recvSize: nat, totalSize: nat, expectSeq: int := [], 0, 0, 0;
      rest := frames;
      ghost var goal := ReadOne(false, Start(dataMagic), frames);
      while recvSize == 0 || recvSize < totalSize
        invariant recvSize == |recvData|
        invariant if Done(false, Reader(recvData, totalSize, expectSeq, dataMagic))
                  then (Some(recvData), rest, dataMagic) == goal
                  else ReadOne(false, Reader(recvData, totalSize, expectSeq, dataMagic), rest) == goal
        decreases |rest|
      {
        if rest == [] {
          return None, [];
        }
        var f := rest[0];
        rest := rest[1..];
        if f.seqno != expectSeq {
          recvData, recvSize := [], 0;
          expectSeq := -1;
          if f.seqno != 0 {
            expectSeq := expectSeq + 1;
            continue;
          }
        }
        if f.magic == dataMagic {
          expectSeq := expectSeq - 1;
          expectSeq := expectSeq + 1;
          continue;
        }
        dataMagic := f.magic;
        totalSize := f.sizeHigh * 4096 + f.sizeLow;
        recvData := recvData + f.data;
        recvSize := recvSize + |f.data|;
        expectSeq := expectSeq + 1;
      }
      msg := Some(recvData);
    }

    /** The reassembly loop of __mwifi_root_read. */
    method RootRead(frames: seq<Frame>) returns (msg: Option<seq<Byte>>, rest: seq<Frame>)
      ensures (msg, rest, dataMagic) == ReadOne(true, Start(dataMagic), frames)
    {
      var recvData: seq<Byte>, recvSize: nat, totalSize: nat, expectSeq: int := [], 0, 0, 0;
      rest := frames;
      ghost var goal := ReadOne(true, Start(dataMagic), frames);
      while expectSeq == 0 || recvSize < totalSize
        invariant recvSize == |recvData|
        invariant if Done(true, Reader(recvData, totalSize, expectSeq, dataMagic))
                  then (Some(recvData), rest, dataMagic) == goal
                  else ReadOne(true, Reader(recvData, totalSize, expectSeq, dataMagic), rest) == goal
        decreases |rest|
      {
        if rest == [] {
          return None, [];
        }
        var f := rest[0];
        rest := rest[1..];
        if f.seqno != expectSeq {
          recvData, recvSize := [], 0;
          expectSeq := -1;
          if f.seqno != 0 {
            expectSeq := expectSeq + 1;
            continue;
          }
        }
        totalSize := f.sizeHigh * 4096 + f.sizeLow;
        recvData := recvData + f.data;
        recvSize := recvSize + |f.data|;
        expectSeq := expectSeq + 1;
      }
      msg := Some(recvData);
    }
  }

  // ---- Messages too large for the header ----

  /** A reader that has not completed anything holds less than a message of the total size, or one fragment. */
  predicate HoldsLittle(atRoot: bool, r: Reader, total: nat) {
    !Done(atRoot, r) && (|r.buffer| < total || |r.buffer| <= PAYLOAD_LEN)
  }

  lemma TakesLittle(atRoot: bool, r: Reader, f: Frame, total: nat)
    requires HoldsLittle(atRoot, r, total) && TotalSize(f) == total && |f.data| <= PAYLOAD_LEN
    ensures var s := Take(atRoot, r, f);
            if Done(atRoot, s) then |s.buffer| < total + 2 * PAYLOAD_LEN + 1 else HoldsLittle(atRoot, s, total)
  {
  }

  /** Whatever is read from frames with one total size is less than two fragments longer than that. */
  lemma {:induction false} ReadsLittle(atRoot: bool, r: Reader, fs: seq<Frame>, total: nat)
    requires HoldsLittle(atRoot, r, total)
    requires forall i :: 0 <= i < |fs| ==> TotalSize(fs[i]) == total && |fs[i].data| <= PAYLOAD_LEN
    ensures forall x :: x in ReadAll(atRoot, r, fs) ==> |x| < total + 2 * PAYLOAD_LEN + 1
    decreases |fs|
  {
    if fs == [] {
    } else {
      TakesLittle(atRoot, r, fs[0], total);
      var s := Take(atRoot, r, fs[0]);
      ReadsLittle(atRoot, if Done(atRoot, s) then Start(s.magic) else s, fs[1..], total);
    }
  }

  /** From 8192 bytes on both loops stop at the size that the header tells, so that a message is never
      delivered whole: everything read from its fragments is shorter. */
  lemma OversizedIsCut(atRoot: bool, magic: nat, m: Message)
    requires |m.data| >= 8192 && |m.magics| == m.Count()
    ensures forall x :: x in ReadAll(atRoot, Start(magic), Frames(m)) ==> |x| < |m.data|
  {
    var total := |m.data| % 8192;
    forall i | 0 <= i < m.Count() ensures TotalSize(Frames(m)[i]) == total && |Frames(m)[i].data| <= PAYLOAD_LEN {
      HeaderTellsSize(m, i);
    }
    ReadsLittle(atRoot, Start(magic), Frames(m), total);
    CutByALot(|m.data|);
  }

  lemma CutByALot(n: nat)
    requires n >= 8192
    ensures n % 8192 + 8192 <= n
  {
  }

  // ---- Streams with losses ----

  /** A message as sent, and which of its fragments arrive. */
  datatype Sending = Sending(m: Message, kept: seq<bool>) {
    predicate Valid() {
      m.Valid() && |kept| == m.Count()
    }

    predicate ArrivesFrom(k: nat) {
      forall i :: k <= i < |kept| ==> kept[i]
    }

    predicate Arrives() {
      ArrivesFrom(0)
    }

    predicate ArrivesBefore(k: nat) {
      forall i :: 0 <= i < k && i < |kept| ==> kept[i]
    }

    /** Exactly the first j fragments arrive, and they are not all. */
    predicate CutAt(j: nat) {
      0 < j < |kept| && ArrivesBefore(j) && forall i :: j <= i < |kept| ==> !kept[i]
    }

    /** The message starts to arrive, and then nothing of it does. */
    ghost predicate TailLost() {
      exists j: nat :: CutAt(j)
    }
  }

  /** The fragments of a sending that arrive, from fragment k on. */
  function Arriving(s: Sending, k: nat): seq<Frame>
    requires s.Valid() && k <= s.m.Count()
    decreases s.m.Count() - k
  {
    if k == s.m.Count() then []
    else if s.kept[k] then [FrameOf(s.m, k)] + Arriving(s, k + 1)
    else Arriving(s, k + 1)
  }

  /** When nothing is lost, what arrives is what the send loop sent. */
  lemma {:induction false} ArrivingInFull(s: Sending, k: nat)
    requires s.Valid() && s.Arrives() && k <= s.m.Count()
    ensures Arriving(s, k) == Frames(s.m)[k..]
    decreases s.m.Count() - k
  {
    if k == s.m.Count() {
    } else {
      ArrivingInFull(s, k + 1);
    }
  }

  predicate AllValid(ss: seq<Sending>) {
    forall s :: s in ss ==> s.Valid()
  }

  function Stream(ss: seq<Sending>): seq<Frame>
    requires AllValid(ss)
  {
    if ss == [] then [] else Arriving(ss[0], 0) + Stream(ss[1..])
  }

  /** The messages that arrive in full. */
  function Complete(ss: seq<Sending>): seq<seq<Byte>> {
    if ss == [] then []
    else if ss[0].Arrives() then [ss[0].m.data] + Complete(ss[1..])
    else Complete(ss[1..])
  }

  /** No two fragments in a row share a magic. */
  predicate Changing(magics: seq<nat>) {
    forall i :: 0 < i < |magics| ==> magics[i - 1] != magics[i]
  }

  predicate Starts(s: Sending) {
    s.kept != [] && s.m.magics != [] && s.kept[0]
  }

  /** Within a message no magic is drawn twice in a row, and a message does not start with a magic of the
      last message that started to arrive; before names the magics the reader may remember. */
  predicate FreshMagics(before: seq<nat>, ss: seq<Sending>)
    decreases |ss|
  {
    ss != [] ==>
      var s := ss[0];
      Changing(s.m.magics) && (Starts(s) ==> s.m.magics[0] !in before) &&
      FreshMagics(if Starts(s) then s.m.magics else before, ss[1..])
  }

  predicate Idle(r: Reader) {
    r.buffer == [] && r.awaited == 0
  }

  /** The reader holds the first k fragments of the message. */
  predicate Holds(r: Reader, m: Message, k: nat) {
    m.Valid() && k < m.Count() && r.awaited == k && (k > 0 ==> r.total == |m.data|) &&
    k * PAYLOAD_LEN <= |m.data| && r.buffer == m.data[..k * PAYLOAD_LEN]
  }

  lemma FrameFacts(m: Message, k: nat)
    requires m.Valid() && k < m.Count()
    ensures m.Count() <= 6 && FrameOf(m, k).seqno == k && TotalSize(FrameOf(m, k)) == |m.data|
    ensures m.data[..k * PAYLOAD_LEN] + FrameOf(m, k).data ==
            m.data[..if k + 1 == m.Count() then |m.data| else (k + 1) * PAYLOAD_LEN]
    ensures k + 1 < m.Count() ==> 0 < (k + 1) * PAYLOAD_LEN < |m.data|
    ensures 0 < |FrameOf(m, k).data| <= PAYLOAD_LEN && k * PAYLOAD_LEN + |FrameOf(m, k).data| <= |m.data|
  {
  }

  /** Reading frames gives out and leads from r to r', whatever follows; and every fragment fits if the
      later ones do. */
  ghost predicate LeadsTo(atRoot: bool, r: Reader, frames: seq<Frame>, out: seq<seq<Byte>>, r': Reader,
                          rest: seq<Frame>) {
    ReadAll(atRoot, r, frames + rest) == out + ReadAll(atRoot, r', rest) &&
    (AllFit(atRoot, r', rest) ==> AllFit(atRoot, r, frames + rest))
  }

  lemma ReadNothing(atRoot: bool, r: Reader, rest: seq<Frame>)
    ensures LeadsTo(atRoot, r, [], [], r, rest)
  {
    assert [] + rest == rest;
    assert [] + ReadAll(atRoot, r, rest) == ReadAll(atRoot, r, rest);
  }

  lemma ReadCons(atRoot: bool, r: Reader, f: Frame, fs: seq<Frame>)
    ensures var s := Take(atRoot, r, f);
            ReadAll(atRoot, r, [f] + fs) ==
              (if Done(atRoot, s) then [s.buffer] + ReadAll(atRoot, Start(s.magic), fs) else ReadAll(atRoot, s, fs)) &&
            (AllFit(atRoot, r, [f] + fs) <==>
               |f.data| <= Offered(atRoot, r) && AllFit(atRoot, if Done(atRoot, s) then Start(s.magic) else s, fs))
  {
    assert ([f] + fs)[1..] == fs;
  }

  lemma Associates(a: seq<Frame>, b: seq<Frame>, c: seq<Frame>)
    ensures (a + b) + c == a + (b + c)
  {
  }

  /** A fragment that does not complete a message, and then what the others lead to. */
  lemma ReadsOn(atRoot: bool, r: Reader, s: Sending, k: nat, out: seq<seq<Byte>>, r': Reader, rest: seq<Frame>)
    requires s.Valid() && k < s.m.Count() && s.kept[k] && |FrameOf(s.m, k).data| <= Offered(atRoot, r)
    requires var r1 := Take(atRoot, r, FrameOf(s.m, k));
             !Done(atRoot, r1) && LeadsTo(atRoot, r1, Arriving(s, k + 1), out, r', rest)
    ensures LeadsTo(atRoot, r, Arriving(s, k), out, r', rest)
  {
    ReadCons(atRoot, r, FrameOf(s.m, k), Arriving(s, k + 1) + rest);
    Associates([FrameOf(s.m, k)], Arriving(s, k + 1), rest);
  }

  /** The last fragment, when it completes a message. */
  lemma ReadsLast(atRoot: bool, r: Reader, s: Sending, k: nat, rest: seq<Frame>)
    requires s.Valid() && k + 1 == s.m.Count() && s.kept[k] && |FrameOf(s.m, k).data| <= Offered(atRoot, r)
    requires Done(atRoot, Take(atRoot, r, FrameOf(s.m, k)))
    ensures var r1 := Take(atRoot, r, FrameOf(s.m, k));
            LeadsTo(atRoot, r, Arriving(s, k), [r1.buffer], Start(r1.magic), rest)
  {
    ReadCons(atRoot, r, FrameOf(s.m, k), rest);
    assert Arriving(s, k) == [FrameOf(s.m, k)];
  }

  /** A fragment that is neither the awaited one nor a first one is refused. */
  lemma Refuses(atRoot: bool, r: Reader, m: Message, k: nat, f: Frame)
    requires m.Valid() && 0 < k < m.Count() && f == FrameOf(m, k) && r.awaited != k
    ensures Take(atRoot, r, f) == r.(buffer := [], awaited := 0) && !Done(atRoot, Take(atRoot, r, f))
  {
    FrameFacts(m, k);
  }

  /** Once a fragment has been missed, every later one of the message is refused, and a refusal leaves the
      reader idle. */
  lemma {:induction false} RefusesRest(atRoot: bool, r: Reader, s: Sending, k: nat,
                                       rest: seq<Frame>) returns (r': Reader)
    requires s.Valid() && 1 <= k <= s.m.Count() && 0 <= r.awaited < k && Holds(r, s.m, r.awaited)
    requires Idle(r) || exists i :: k <= i < s.m.Count() && s.kept[i]
    ensures Idle(r') && r'.magic == r.magic
    ensures LeadsTo(atRoot, r, Arriving(s, k), [], r', rest)
    decreases s.m.Count() - k
  {
    if k == s.m.Count() {
      ReadNothing(atRoot, r, rest);
      r' := r;
    } else if s.kept[k] {
      var r1 := r.(buffer := [], awaited := 0);
      FrameFacts(s.m, k);
      Refuses(atRoot, r, s.m, k, FrameOf(s.m, k));
      r' := RefusesRest(atRoot, r1, s, k + 1, rest);
      ReadsOn(atRoot, r, s, k, [], r', rest);
    } else {
      r' := RefusesRest(atRoot, r, s, k + 1, rest);
    }
  }

  lemma TakesNext(atRoot: bool, r: Reader, m: Message, k: nat)
    requires Holds(r, m, k) && (atRoot || r.magic != m.magics[k])
    ensures |FrameOf(m, k).data| <= Offered(atRoot, r)
    ensures var r1 := Take(atRoot, r, FrameOf(m, k));
            (atRoot || r1.magic == m.magics[k]) && (atRoot ==> r1.magic == r.magic) &&
            if k + 1 == m.Count() then Done(atRoot, r1) && r1.buffer == m.data
            else !Done(atRoot, r1) && Holds(r1, m, k + 1)
  {
    FrameFacts(m, k);
    assert m.data[..|m.data|] == m.data;
  }

  /** From an idle reader or in the middle of a message received so far without loss: unless everything
      from some fragment on is lost, the message is delivered exactly when the rest of it arrives, and the
      reader ends idle. */
  lemma {:induction false} ReceivesMessage(atRoot: bool, r: Reader, s: Sending, k: nat,
                                           rest: seq<Frame>) returns (r': Reader)
    requires s.Valid() && !s.TailLost() && s.ArrivesBefore(k) && Holds(r, s.m, k)
    requires atRoot || (Changing(s.m.magics) && (s.kept[k] ==> r.magic != s.m.magics[k]))
    ensures Idle(r') && (atRoot || if s.kept[k] then r'.magic in s.m.magics else r'.magic == r.magic)
    ensures LeadsTo(atRoot, r, Arriving(s, k), if s.ArrivesFrom(k) then [s.m.data] else [], r', rest)
    decreases s.m.Count() - k
  {
    if !s.kept[k] {
      LaterArrives(s, k);
      r' := RefusesRest(atRoot, r, s, k + 1, rest);
    } else {
      var r1 := Take(atRoot, r, FrameOf(s.m, k));
      TakesNext(atRoot, r, s.m, k);
      if k + 1 == s.m.Count() {
        ReadsLast(atRoot, r, s, k, rest);
        r' := Start(r1.magic);
      } else {
        LaterArrives(s, k + 1);
        assert s.ArrivesFrom(k) == s.ArrivesFrom(k + 1);
        r' := ReceivesMessage(atRoot, r1, s, k + 1, rest);
        ReadsOn(atRoot, r, s, k, if s.ArrivesFrom(k) then [s.m.data] else [], r', rest);
      }
    }
  }

  lemma LaterArrives(s: Sending, k: nat)
    requires s.Valid() && !s.TailLost() && s.ArrivesBefore(k) && k < s.m.Count()
    ensures k == 0 || exists i :: k <= i < s.m.Count() && s.kept[i]
  {
    if k > 0 && forall i :: k <= i < s.m.Count() ==> !s.kept[i] {
      assert s.CutAt(k);
    }
  }

  /** Only the last message of a stream may be cut off. */
  ghost predicate Uncut(ss: seq<Sending>) {
    forall i :: 0 <= i < |ss| - 1 ==> !ss[i].TailLost()
  }

  /** A message that is cut off leaves its first j fragments with the reader. */
  lemma {:induction false} CutIsHeld(atRoot: bool, r: Reader, s: Sending, k: nat, j: nat,
                                     rest: seq<Frame>) returns (r': Reader)
    requires s.Valid() && s.CutAt(j) && k <= j && Holds(r, s.m, k)
    requires atRoot || (Changing(s.m.magics) && r.magic != s.m.magics[k])
    ensures Holds(r', s.m, j) && (atRoot || r'.magic == if k == j then r.magic else s.m.magics[j - 1])
    ensures LeadsTo(atRoot, r, Arriving(s, k), [], r', rest)
    decreases j - k
  {
    if k == j {
      NothingArrives(s, j);
      ReadNothing(atRoot, r, rest);
      r' := r;
    } else {
      TakesNext(atRoot, r, s.m, k);
      r' := CutIsHeld(atRoot, Take(atRoot, r, FrameOf(s.m, k)), s, k + 1, j, rest);
      ReadsOn(atRoot, r, s, k, [], r', rest);
    }
  }

  lemma {:induction false} NothingArrives(s: Sending, k: nat)
    requires s.Valid() && k <= s.m.Count() && forall i :: k <= i < s.m.Count() ==> !s.kept[i]
    ensures Arriving(s, k) == []
    decreases s.m.Count() - k
  {
    if k == s.m.Count() {
    } else {
      NothingArrives(s, k + 1);
    }
  }

  /** Mesh reassembly: from an ordered stream in which any fragments may be lost, but no message before the
      last is cut off, both reads deliver exactly the messages that arrived in full, in order, and never a
      mixture; and every fragment fits the room offered. */
  lemma {:induction false} ReassemblyExact(atRoot: bool, r: Reader, ss: seq<Sending>, before: seq<nat>)
    requires Idle(r) && AllValid(ss) && Uncut(ss)
    requires atRoot || (r.magic in before && FreshMagics(before, ss))
    ensures ReadAll(atRoot, r, Stream(ss)) == Complete(ss) && AllFit(atRoot, r, Stream(ss))
    decreases |ss|
  {
    if ss == [] {
    } else {
      var s, rest := ss[0], Stream(ss[1..]);
      assert s in ss && Holds(r, s.m, 0);
      if j: nat :| s.CutAt(j) {
        assert ss == [s] && !s.kept[j];
        var r' := CutIsHeld(atRoot, r, s, 0, j, []);
        assert Stream(ss) == Arriving(s, 0) + [];
      } else {
        var r' := ReceivesMessage(atRoot, r, s, 0, rest);
        UncutTail(ss);
        ReassemblyExact(atRoot, r', ss[1..], if Starts(s) then s.m.magics else before);
      }
    }
  }

  lemma UncutTail(ss: seq<Sending>)
    requires ss != [] && Uncut(ss)
    ensures Uncut(ss[1..])
  {
    forall i | 0 <= i < |ss[1..]| - 1 ensures !ss[1..][i].TailLost() {
      assert ss[1..][i] == ss[i + 1];
    }
  }

  // ---- The limit ----

  /** When s has been cut off after j fragments and of b exactly fragment j arrives as its last one, the start
      of s and the end of b are delivered as one message, although b is not cut off. */
  lemma CutMessageMixes(atRoot: bool, magic: nat, s: Sending, j: nat, b: Sending)
    requires s.Valid() && s.CutAt(j) && OnlyLast(b, j) && |b.m.data| <= |s.m.data|
    requires atRoot || (FreshMagics([magic], [s]) && b.m.magics[j] != s.m.magics[j - 1])
    ensures ReadAll(atRoot, Start(magic), Stream([s, b])) == [s.m.data[..j * PAYLOAD_LEN] + b.m.data[j * PAYLOAD_LEN..]]
    ensures AllFit(atRoot, Start(magic), Stream([s, b])) && !b.TailLost()
  {
    assert s.kept[0] && Starts(s);
    var r := CutIsHeld(atRoot, Start(magic), s, 0, j, Arriving(b, 0));
    NothingBefore(b, 0, j);
    FrameFacts(b.m, j);
    FrameFacts(s.m, j);
    assert b.m.data[..j * PAYLOAD_LEN] + FrameOf(b.m, j).data == b.m.data;
    assert FrameOf(b.m, j).data == b.m.data[j * PAYLOAD_LEN..];
    ReadsLast(atRoot, r, b, j, []);
    assert Arriving(b, j) + [] == Arriving(b, j);
    StreamOfTwo(s, b);
  }

  /** Of a message with j + 1 fragments only the last one arrives. */
  predicate OnlyLast(b: Sending, j: nat) {
    b.Valid() && b.m.Count() == j + 1 && b.kept[j] && forall i :: 0 <= i < j ==> !b.kept[i]
  }

  lemma StreamOfTwo(s: Sending, b: Sending)
    requires s.Valid() && b.Valid()
    ensures AllValid([s, b]) && Stream([s, b]) == Arriving(s, 0) + Arriving(b, 0)
  {
    assert [s, b][1..] == [b] && [b][1..] == [];
    assert Stream([b]) == Arriving(b, 0) + [];
  }

  lemma {:induction false} NothingBefore(b: Sending, k: nat, j: nat)
    requires b.Valid() && k <= j < b.m.Count() && forall i :: k <= i < j ==> !b.kept[i]
    ensures Arriving(b, k) == Arriving(b, j)
    decreases j - k
  {
    if k == j {
    } else {
      NothingBefore(b, k + 1, j);
    }
  }

  /** When s has been cut off and the next message arrives in full, its first fragment fitting what is left
      of s: a single fragment is delivered by __mwifi_read, and held back by __mwifi_root_read; a longer
      message is lost to both. */
  lemma WholeAfterCut(atRoot: bool, magic: nat, s: Sending, j: nat, b: Sending)
    requires s.Valid() && s.CutAt(j) && b.Valid() && b.Arrives()
    requires j * PAYLOAD_LEN + |FrameOf(b.m, 0).data| <= |s.m.data|
    requires atRoot || FreshMagics([magic], [s, b])
    ensures ReadAll(atRoot, Start(magic), Stream([s, b])) == (if !atRoot && b.m.Count() == 1 then [b.m.data] else [])
    ensures AllFit(atRoot, Start(magic), Stream([s, b]))
  {
    var rest := Arriving(b, 0);
    FreshInTurn(atRoot, magic, s, b);
    var r := CutIsHeld(atRoot, Start(magic), s, 0, j, rest);
    var r1 := Resynced(atRoot, r, b, j);
    if b.m.Count() > 1 {
      var idle := r1.(buffer := [], awaited := 0);
      FrameFacts(b.m, 1);
      Refuses(atRoot, r1, b.m, 1, FrameOf(b.m, 1));
      var r2 := RefusesRest(atRoot, idle, b, 2, []);
      ReadsOn(atRoot, r1, b, 1, [], r2, []);
      ReadsOn(atRoot, r, b, 0, [], r2, []);
    } else if atRoot {
      ReadNothing(atRoot, r1, []);
      ReadsOn(atRoot, r, b, 0, [], r1, []);
    } else {
      ReadsLast(atRoot, r, b, 0, []);
    }
    assert rest + [] == rest;
    StreamOfTwo(s, b);
  }

  lemma FreshInTurn(atRoot: bool, magic: nat, s: Sending, b: Sending)
    requires s.Valid() && b.Valid() && Starts(s) && Starts(b) && (atRoot || FreshMagics([magic], [s, b]))
    ensures atRoot || (Changing(s.m.magics) && magic != s.m.magics[0] && b.m.magics[0] !in s.m.magics)
  {
    assert [s, b][1..] == [b];
  }

  /** The first fragment of b is kept where fragment j of another message was expected. */
  lemma Resynced(atRoot: bool, r: Reader, b: Sending, j: nat) returns (r1: Reader)
    requires b.Valid() && r.awaited == j > 0 && (atRoot || r.magic != b.m.magics[0])
    ensures r1 == Take(atRoot, r, FrameOf(b.m, 0)) && r1.buffer == FrameOf(b.m, 0).data
    ensures r1.awaited == 0 && r1.total == |b.m.data|
    ensures Done(atRoot, r1) <==> !atRoot && b.m.Count() == 1
    ensures b.m.Count() > 1 ==> |FrameOf(b.m, 1).data| <= Offered(atRoot, r1)
    ensures b.m.Count() == 1 ==> r1.buffer == b.m.data
  {
    FrameFacts(b.m, 0);
    r1 := Take(atRoot, r, FrameOf(b.m, 0));
    assert b.m.data[..0] == [] && [] + r1.buffer == r1.buffer;
    assert b.m.data[..|b.m.data|] == b.m.data;
    if b.m.Count() > 1 {
      FrameFacts(b.m, 1);
    }
  }

  /** A message of j + 1 fragments of which only the last arrives, a single byte. */
  function Continuation(s: Sending, j: nat): (b: Sending)
    requires s.Valid() && s.CutAt(j)
    ensures OnlyLast(b, j) && |b.m.data| == j * PAYLOAD_LEN + 1
    ensures Changing(b.m.magics) && b.m.magics[j] != s.m.magics[j - 1]
  {
    Sending(Message(Fill(j * PAYLOAD_LEN + 1, 0), seq(j + 1, i => s.m.magics[j - 1] + 1 + i)),
            seq(j + 1, i => i == j))
  }

  /** Whatever is sent next, and lost of it without cutting a message off, is read exactly. */
  ghost predicate LeavesExact(atRoot: bool, magic: nat, s: Sending) {
    forall ss: seq<Sending> :: AllValid([s] + ss) && Uncut(ss) && (atRoot || FreshMagics([magic], [s] + ss)) ==>
      ReadAll(atRoot, Start(magic), Stream([s] + ss)) == Complete([s] + ss) &&
        AllFit(atRoot, Start(magic), Stream([s] + ss))
  }

  /** A sending leaves every continuation exact if and only if it is not cut off. */
  lemma ExactUnlessCut(atRoot: bool, magic: nat, s: Sending)
    requires s.Valid() && (atRoot || FreshMagics([magic], [s]))
    ensures LeavesExact(atRoot, magic, s) <==> !s.TailLost()
  {
    if j: nat :| s.CutAt(j) {
      var b := Continuation(s, j);
      CutMessageMixes(atRoot, magic, s, j, b);
      assert [s] + [b] == [s, b] && [s, b][1..] == [b] && [b][1..] == [];
      assert Uncut([b]) && AllValid([s] + [b]) && !b.kept[0] && !s.kept[j];
      assert Complete([s] + [b]) == Complete([b]) == [];
      assert atRoot || FreshMagics([magic], [s] + [b]);
    } else {
      forall ss: seq<Sending> | AllValid([s] + ss) && Uncut(ss) && (atRoot || FreshMagics([magic], [s] + ss))
        ensures ReadAll(atRoot, Start(magic), Stream([s] + ss)) == Complete([s] + ss)
        ensures AllFit(atRoot, Start(magic), Stream([s] + ss))
      {
        assert Uncut([s] + ss) by {
          forall i | 0 <= i < |[s] + ss| - 1 ensures !([s] + ss)[i].TailLost() {
            assert i > 0 ==> ([s] + ss)[i] == ss[i - 1];
          }
        }
        ReassemblyExact(atRoot, Start(magic), [s] + ss, [magic]);
      }
    }
  }

  // ---- Retransmitted fragments ----

  /** A sending, and how often each fragment that arrives is received once more directly behind itself. */
  datatype Repeated = Repeated(s: Sending, extra: seq<nat>) {
    predicate Valid() {
      s.Valid() && |extra| == s.m.Count()
    }

    /** Nothing but the last fragment is repeated. */
    predicate OnlyLastRepeated() {
      forall k :: 0 <= k < |extra| - 1 ==> extra[k] == 0
    }

    predicate OnceFrom(k: nat) {
      forall i :: k <= i < |extra| - 1 ==> extra[i] == 0
    }
  }

  function Copies(f: Frame, n: nat): seq<Frame> {
    if n == 0 then [] else [f] + Copies(f, n - 1)
  }

  /** The fragments received, from fragment k on. */
  function Received(x: Repeated, k: nat): seq<Frame>
    requires x.Valid() && k <= x.s.m.Count()
    decreases x.s.m.Count() - k
  {
    if k == x.s.m.Count() then []
    else if x.s.kept[k] then Copies(FrameOf(x.s.m, k), 1 + x.extra[k]) + Received(x, k + 1)
    else Received(x, k + 1)
  }

  predicate AllRepeatsValid(xs: seq<Repeated>) {
    forall x :: x in xs ==> x.Valid()
  }

  function Sendings(xs: seq<Repeated>): (ss: seq<Sending>)
    requires AllRepeatsValid(xs)
    ensures |ss| == |xs| && AllValid(ss) && forall i :: 0 <= i < |xs| ==> ss[i] == xs[i].s
  {
    if xs == [] then []
    else
      assert xs[0] in xs;
      [xs[0].s] + Sendings(xs[1..])
  }

  function RepeatedStream(xs: seq<Repeated>): seq<Frame>
    requires AllRepeatsValid(xs)
  {
    if xs == [] then [] else Received(xs[0], 0) + RepeatedStream(xs[1..])
  }

  /** The messages that arrive in full, and of which nothing but the last fragment is repeated. */
  function Undoubled(xs: seq<Repeated>): seq<seq<Byte>> {
    if xs == [] then []
    else if xs[0].s.Arrives() && xs[0].OnlyLastRepeated() then [xs[0].s.m.data] + Undoubled(xs[1..])
    else Undoubled(xs[1..])
  }

  /** With frames __mwifi_read gives out and gets from r to r', whatever follows. */
  ghost predicate Yields(r: Reader, frames: seq<Frame>, out: seq<seq<Byte>>, r': Reader, rest: seq<Frame>) {
    ReadAll(false, r, frames + rest) == out + ReadAll(false, r', rest)
  }

  lemma YieldsNothing(r: Reader, rest: seq<Frame>)
    ensures Yields(r, [], [], r, rest)
  {
    ReadNothing(false, r, rest);
  }

  lemma YieldsFirst(r: Reader, f: Frame, fs: seq<Frame>, out: seq<seq<Byte>>, r': Reader, rest: seq<Frame>)
    requires var s := Take(false, r, f); !Done(false, s) && Yields(s, fs, out, r', rest)
    ensures Yields(r, [f] + fs, out, r', rest)
  {
    ReadCons(false, r, f, fs + rest);
    Associates([f], fs, rest);
  }

  lemma YieldsMessage(r: Reader, f: Frame, fs: seq<Frame>, r': Reader, rest: seq<Frame>)
    requires var s := Take(false, r, f); Done(false, s) && Yields(Start(s.magic), fs, [], r', rest)
    ensures Yields(r, [f] + fs, [Take(false, r, f).buffer], r', rest)
  {
    ReadCons(false, r, f, fs + rest);
    Associates([f], fs, rest);
  }

  lemma YieldsBoth(r: Reader, a: seq<Frame>, out: seq<seq<Byte>>, r1: Reader, b: seq<Frame>, more: seq<seq<Byte>>,
                   r2: Reader, rest: seq<Frame>)
    requires Yields(r, a, out, r1, b + rest) && Yields(r1, b, more, r2, rest)
    ensures Yields(r, a + b, out + more, r2, rest)
  {
    Associates(a, b, rest);
    assert (out + more) + ReadAll(false, r2, rest) == out + (more + ReadAll(false, r2, rest));
  }

  /** A fragment that changes nothing may be repeated. */
  lemma {:induction false} CopiesIgnored(r: Reader, f: Frame, n: nat, rest: seq<Frame>)
    requires Take(false, r, f) == r && !Done(false, r)
    ensures Yields(r, Copies(f, n), [], r, rest)
  {
    if n == 0 {
      YieldsNothing(r, rest);
    } else {
      CopiesIgnored(r, f, n - 1, rest);
      YieldsFirst(r, f, Copies(f, n - 1), [], r, rest);
    }
  }

  /** A fragment that completes nothing, its copies, which change nothing more, and what follows. */
  lemma CopiesThen(r: Reader, f: Frame, n: nat, r1: Reader, b: seq<Frame>, out: seq<seq<Byte>>, r2: Reader,
                   rest: seq<Frame>)
    requires r1 == Take(false, r, f) == Take(false, r1, f) && !Done(false, r1) && Yields(r1, b, out, r2, rest)
    ensures Yields(r, Copies(f, 1 + n) + b, out, r2, rest)
  {
    CopiesIgnored(r1, f, n, b + rest);
    YieldsFirst(r, f, Copies(f, n), [], r1, b + rest);
    YieldsBoth(r, Copies(f, 1 + n), [], r1, b, out, r2, rest);
    assert [] + out == out;
  }

  /** The fragment that completes a message and its copies, which change nothing. */
  lemma CopiesOfLast(r: Reader, f: Frame, n: nat, rest: seq<Frame>)
    requires var s := Take(false, r, f); Done(false, s) && Take(false, Start(s.magic), f) == Start(s.magic)
    ensures var s := Take(false, r, f); Yields(r, Copies(f, 1 + n), [s.buffer], Start(s.magic), rest)
  {
    var s := Take(false, r, f);
    CopiesIgnored(Start(s.magic), f, n, rest);
    YieldsMessage(r, f, Copies(f, n), Start(s.magic), rest);
  }

  /** Once a fragment has been missed, later ones are refused, repeated or not. */
  lemma {:induction false} RefusesRepeats(r: Reader, x: Repeated, k: nat, rest: seq<Frame>) returns (r': Reader)
    requires x.Valid() && 1 <= k <= x.s.m.Count() && r.awaited < k
    requires Idle(r) || exists i :: k <= i < x.s.m.Count() && x.s.kept[i]
    ensures Idle(r') && r'.magic == r.magic
    ensures Yields(r, Received(x, k), [], r', rest)
    decreases x.s.m.Count() - k
  {
    if k == x.s.m.Count() {
      YieldsNothing(r, rest);
      r' := r;
    } else if x.s.kept[k] {
      var f, idle := FrameOf(x.s.m, k), r.(buffer := [], awaited := 0);
      Refuses(false, r, x.s.m, k, f);
      Refuses(false, idle, x.s.m, k, f);
      r' := RefusesRepeats(idle, x, k + 1, rest);
      CopiesThen(r, f, x.extra[k], idle, Received(x, k + 1), [], r', rest);
    } else {
      r' := RefusesRepeats(r, x, k + 1, rest);
    }
  }

  /** The reader after fragment k, not the last one, has been received more than once: the repeat is taken for
      a gap, and only then looked at by the filter. */
  lemma RepeatLoses(r: Reader, m: Message, k: nat) returns (r1: Reader, r2: Reader)
    requires Holds(r, m, k) && r.magic != m.magics[k] && k + 1 < m.Count()
    ensures var f := FrameOf(m, k); r1 == Take(false, r, f) && r2 == Take(false, r1, f) == Take(false, r2, f)
    ensures Holds(r1, m, k + 1) && !Done(false, r1) && !Done(false, r2)
    ensures r2.buffer == [] && r2.awaited == (if k == 0 then -1 else 0) && r1.magic == r2.magic == m.magics[k]
  {
    FrameFacts(m, k);
    TakesNext(false, r, m, k);
    r1 := Take(false, r, FrameOf(m, k));
    r2 := Take(false, r1, FrameOf(m, k));
  }

  /** The reader after fragment k, received once or more often. */
  function AfterCopies(r: Reader, x: Repeated, k: nat): Reader
    requires x.Valid() && k < x.s.m.Count()
  {
    var f := FrameOf(x.s.m, k);
    var once := Take(false, r, f);
    if x.extra[k] == 0 then once else Take(false, once, f)
  }

  lemma TakesRepeated(r: Reader, x: Repeated, k: nat)
    requires x.Valid() && Holds(r, x.s.m, k) && r.magic != x.s.m.magics[k] && k + 1 < x.s.m.Count()
    ensures var r1 := AfterCopies(r, x, k);
            r1.magic == x.s.m.magics[k] &&
            if x.extra[k] == 0 then Holds(r1, x.s.m, k + 1)
            else r1.buffer == [] && r1.awaited == if k == 0 then -1 else 0
  {
    var once, twice := RepeatLoses(r, x.s.m, k);
  }

  lemma YieldsRepeated(r: Reader, x: Repeated, k: nat, b: seq<Frame>, out: seq<seq<Byte>>, r2: Reader, rest: seq<Frame>)
    requires x.Valid() && Holds(r, x.s.m, k) && r.magic != x.s.m.magics[k] && k + 1 < x.s.m.Count()
    requires Yields(AfterCopies(r, x, k), b, out, r2, rest)
    ensures Yields(r, Copies(FrameOf(x.s.m, k), 1 + x.extra[k]) + b, out, r2, rest)
  {
    var f, n := FrameOf(x.s.m, k), x.extra[k];
    var once, twice := RepeatLoses(r, x.s.m, k);
    if n == 0 {
      assert Copies(f, 0) == [] && Copies(f, 1) == [f] + Copies(f, 0) == [f];
      YieldsFirst(r, f, b, out, r2, rest);
    } else {
      CopiesThen(once, f, n - 1, twice, b, out, r2, rest);
      YieldsFirst(r, f, Copies(f, n) + b, out, r2, rest);
      Associates([f], Copies(f, n), b);
    }
  }

  lemma LastRepeatIgnored(m: Message, k: nat)
    requires m.Valid() && k + 1 == m.Count()
    ensures Take(false, Start(m.magics[k]), FrameOf(m, k)) == Start(m.magics[k])
  {
    FrameFacts(m, k);
  }

  /** In the middle of a message received so far without loss or repeats. */
  lemma {:induction false} ReceivesRepeated(r: Reader, x: Repeated, k: nat, rest: seq<Frame>) returns (r': Reader)
    requires x.Valid() && !x.s.TailLost() && x.s.ArrivesBefore(k) && Holds(r, x.s.m, k)
    requires Changing(x.s.m.magics) && (x.s.kept[k] ==> r.magic != x.s.m.magics[k])
    ensures Idle(r') && if x.s.kept[k] then r'.magic in x.s.m.magics else r'.magic == r.magic
    ensures Yields(r, Received(x, k), if x.s.ArrivesFrom(k) && x.OnceFrom(k) then [x.s.m.data] else [], r', rest)
    decreases x.s.m.Count() - k
  {
    hide Take, Done, Yields, AfterCopies;
    var s, m := x.s, x.s.m;
    if !s.kept[k] {
      LaterArrives(s, k);
      r' := RefusesRepeats(r, x, k + 1, rest);
    } else if k + 1 == m.Count() {
      var f := FrameOf(m, k);
      LastRepeatIgnored(m, k);
      TakesNext(false, r, m, k);
      CopiesOfLast(r, f, x.extra[k], rest);
      r' := Start(m.magics[k]);
      assert Received(x, k + 1) == [] && Received(x, k) == Copies(f, 1 + x.extra[k]) + [];
      assert Received(x, k) == Copies(f, 1 + x.extra[k]);
    } else {
      LaterArrives(s, k + 1);
      assert s.ArrivesFrom(k) == s.ArrivesFrom(k + 1);
      var out := if s.ArrivesFrom(k) && x.OnceFrom(k) then [m.data] else [];
      var r1 := AfterCopies(r, x, k);
      TakesRepeated(r, x, k);
      if x.extra[k] == 0 {
        assert x.OnceFrom(k) == x.OnceFrom(k + 1);
        r' := ReceivesRepeated(r1, x, k + 1, rest);
      } else {
        r' := RefusesRepeats(r1, x, k + 1, rest);
      }
      YieldsRepeated(r, x, k, Received(x, k + 1), out, r', rest);
    }
  }

  lemma {:induction false} NothingReceived(x: Repeated, k: nat)
    requires x.Valid() && k <= x.s.m.Count() && forall i :: k <= i < x.s.m.Count() ==> !x.s.kept[i]
    ensures Received(x, k) == []
    decreases x.s.m.Count() - k
  {
    if k == x.s.m.Count() {
    } else {
      NothingReceived(x, k + 1);
    }
  }

  /** Of a message that is cut off nothing is given out, repeated or not. */
  lemma {:induction false} CutYieldsNothing(r: Reader, x: Repeated, k: nat, j: nat,
                                            rest: seq<Frame>) returns (r': Reader)
    requires x.Valid() && x.s.CutAt(j) && k <= j && Holds(r, x.s.m, k)
    requires Changing(x.s.m.magics) && r.magic != x.s.m.magics[k]
    ensures Yields(r, Received(x, k), [], r', rest)
    decreases j - k
  {
    if k == j {
      NothingReceived(x, j);
      YieldsNothing(r, rest);
      r' := r;
    } else {
      var r1 := AfterCopies(r, x, k);
      TakesRepeated(r, x, k);
      if x.extra[k] == 0 {
        r' := CutYieldsNothing(r1, x, k + 1, j, rest);
      } else if k + 1 < j {
        assert x.s.kept[k + 1];
        r' := RefusesRepeats(r1, x, k + 1, rest);
      } else {
        NothingReceived(x, j);
        YieldsNothing(r1, rest);
        r' := r1;
      }
      YieldsRepeated(r, x, k, Received(x, k + 1), [], r', rest);
    }
  }

  /** Retransmissions: from an ordered stream in which any fragments may be lost and any that arrive may be
      repeated directly behind themselves, __mwifi_read delivers exactly the messages that arrive in full and
      of which nothing but the last fragment is repeated, in order and once each. */
  lemma {:induction false} RepeatsExact(r: Reader, xs: seq<Repeated>, before: seq<nat>)
    requires Idle(r) && AllRepeatsValid(xs) && Uncut(Sendings(xs))
    requires r.magic in before && FreshMagics(before, Sendings(xs))
    ensures ReadAll(false, r, RepeatedStream(xs)) == Undoubled(xs)
    decreases |xs|
  {
    if xs == [] {
    } else {
      var x, s, rest := xs[0], xs[0].s, RepeatedStream(xs[1..]);
      assert x in xs && Sendings(xs)[0] == s && Sendings(xs)[1..] == Sendings(xs[1..]) && Holds(r, s.m, 0);
      if j: nat :| s.CutAt(j) {
        assert xs == [x] && !s.kept[j];
        var r' := CutYieldsNothing(r, x, 0, j, []);
        assert RepeatedStream(xs) == Received(x, 0) + [] && Undoubled(xs[1..]) == [];
      } else {
        var r' := ReceivesRepeated(r, x, 0, rest);
        UncutTail(Sendings(xs));
        RepeatsExact(r', xs[1..], if Starts(s) then s.m.magics else before);
      }
    }
  }

  lemma {:induction false} UndoubledIffLast(xs: seq<Repeated>)
    requires AllRepeatsValid(xs)
    ensures |Undoubled(xs)| <= |Complete(Sendings(xs))|
    ensures Undoubled(xs) == Complete(Sendings(xs)) <==> forall x :: x in xs && x.s.Arrives() ==> x.OnlyLastRepeated()
  {
    if xs == [] {
    } else {
      var tail := xs[1..];
      UndoubledIffLast(tail);
      assert Sendings(xs)[1..] == Sendings(tail) && xs[0] in xs;
      assert forall x :: x in xs <==> x == xs[0] || x in tail;
      if xs[0].s.Arrives() && xs[0].OnlyLastRepeated() {
        SameHeads(Undoubled(xs), Complete(Sendings(xs)));
      }
    }
  }

  lemma SameHeads(a: seq<seq<Byte>>, b: seq<seq<Byte>>)
    requires a != [] && b != [] && a[0] == b[0]
    ensures a == b <==> a[1..] == b[1..]
  {
    assert a == [a[0]] + a[1..] && b == [b[0]] + b[1..];
  }

  /** So repeats make no difference if and only if of every message that arrives in full nothing but the last
      fragment is repeated. */
  lemma RepeatsHarmlessIffLast(r: Reader, xs: seq<Repeated>, before: seq<nat>)
    requires Idle(r) && AllRepeatsValid(xs) && Uncut(Sendings(xs))
    requires r.magic in before && FreshMagics(before, Sendings(xs))
    ensures ReadAll(false, r, RepeatedStream(xs)) == ReadAll(false, r, Stream(Sendings(xs))) <==>
            forall x :: x in xs && x.s.Arrives() ==> x.OnlyLastRepeated()
  {
    RepeatsExact(r, xs, before);
    ReassemblyExact(false, r, Sendings(xs), before);
    UndoubledIffLast(xs);
  }

  function Times(x: seq<Byte>, n: nat): seq<seq<Byte>> {
    if n == 0 then [] else [x] + Times(x, n - 1)
  }

  /** __mwifi_root_read has no such filter: a message of one fragment is delivered as often as it is received, */
  lemma {:induction false} RootDeliversRepeats(magic: nat, m: Message, n: nat)
    requires m.Valid() && m.Count() == 1
    ensures ReadAll(true, Start(magic), Copies(FrameOf(m, 0), n)) == Times(m.data, n)
  {
    if n == 0 {
    } else {
      FrameFacts(m, 0);
      TakesNext(true, Start(magic), m, 0);
      ReadCons(true, Start(magic), FrameOf(m, 0), Copies(FrameOf(m, 0), n - 1));
      RootDeliversRepeats(magic, m, n - 1);
    }
  }

  /** and the first of two full fragments, received three times, is delivered as a message made of it twice. */
  lemma RootMixesRepeats(magic: nat, m: Message)
    requires m.Valid() && |m.data| == 2 * PAYLOAD_LEN
    ensures ReadAll(true, Start(magic), Copies(FrameOf(m, 0), 3)) == [m.data[..PAYLOAD_LEN] + m.data[..PAYLOAD_LEN]]
    ensures AllFit(true, Start(magic), Copies(FrameOf(m, 0), 3))
  {
    var f := FrameOf(m, 0);
    FrameFacts(m, 0);
    assert f.data == m.data[..PAYLOAD_LEN];
    var r1 := Take(true, Start(magic), f);
    var r2 := Take(true, r1, f);
    assert r1.buffer == [] + f.data == f.data && r2.buffer == f.data;
    assert Copies(f, 1) == [f] + Copies(f, 0) && Copies(f, 0) == [];
    ReadCons(true, r2, f, []);
    ReadCons(true, r1, f, Copies(f, 1));
    ReadCons(true, Start(magic), f, Copies(f, 2));
  }
}
