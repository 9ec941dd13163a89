/** ESP-NOW transport (mespnow.c): fragmenting writes, the receive callback that drops repeated magics,
    and the read that puts one message together again.
 */
module Espnow {
  import opened Bytes
  import opened Slices
  import opened Wrappers

  const PAYLOAD_LEN := 238
  const PIPE_COUNT := 4

  /** What a fragment carries; the size field is the length of data. */
  datatype Frame = Frame(magic: nat, seqno: nat, total: nat, data: seq<Byte>)

  /** A message with the random magic drawn for each of its fragments. */
  datatype Message = Message(data: seq<Byte>, magics: seq<nat>) {
    function Count(): (n: nat) {
      (|data| + PAYLOAD_LEN - 1) / PAYLOAD_LEN
    }

    /** At most 256 fragments, so that the 8-bit sequence number does not wrap. */
    predicate Valid() {
      1 <= |data| <= 256 * PAYLOAD_LEN && |magics| == Count()
    }
  }

  /** Fragment k: 8 bits of sequence, 16 bits of total size. */
  function FrameOf(m: Message, k: nat): (f: Frame)
    requires k < m.Count() && k < |m.magics|
  {
    Frame(m.magics[k], k % 0x100, |m.data| % 0x10000, Slice(m.data, PAYLOAD_LEN, k))
  }

  function Frames(m: Message): (fs: seq<Frame>)
    requires |m.magics| == m.Count()
    ensures |fs| == m.Count()
  {
    seq(m.Count(), k requires 0 <= k < m.Count() => FrameOf(m, k))
  }

  lemma FrameAt(m: Message, k: nat, size: nat)
    requires |m.magics| == m.Count() && k * PAYLOAD_LEN < |m.data|
    requires size == if |m.data| - k * PAYLOAD_LEN < PAYLOAD_LEN then |m.data| - k * PAYLOAD_LEN else PAYLOAD_LEN
    ensures k < m.Count()
    ensures Frames(m)[k] == Frame(m.magics[k], k % 0x100, |m.data| % 0x10000,
                                  m.data[k * PAYLOAD_LEN..k * PAYLOAD_LEN + size])
  {
  }

  lemma NextSequence(k: nat)
    ensures (k % 0x100 + 1) % 0x100 == (k + 1) % 0x100
  {
  }

  /** mespnow_write of a nonempty message whose sends are all acknowledged. */
  method Write(m: Message) returns (sent: seq<Frame>)
    requires |m.data| > 0 && |m.magics| == m.Count()
    ensures sent == Frames(m)
  {
    sent := [];
    var writeSize: int, at: nat, seqno: nat := |m.data|, 0, 0;
    while writeSize > 0
      invariant at == |sent| * PAYLOAD_LEN && writeSize == |m.data| - at && seqno == |sent| % 0x100
      invariant |sent| <= m.Count() && sent == Frames(m)[..|sent|]
    {
      var size := if writeSize < PAYLOAD_LEN then writeSize else PAYLOAD_LEN;
      FrameAt(m, |sent|, size);
      NextSequence(|sent|);
      sent := sent + [Frame(m.magics[|sent|], seqno, |m.data| % 0x10000, m.data[at..at + size])];
      writeSize := writeSize - PAYLOAD_LEN;
      at := at + PAYLOAD_LEN;
      seqno := (seqno + 1) % 0x100;
    }
  }

  // ---- Receiving ----

  /** One pipe: the magic remembered and the queue. */
  datatype Pipe = Pipe(lastMagic: nat, queue: seq<Frame>)

  /** The receive callback for a frame; crcOk and space say how the checksum test and the queue answer. */
  function Receive(p: Pipe, f: Frame, crcOk: bool, space: bool): Pipe {
    if p.lastMagic == f.magic then p
    else Pipe(f.magic, if crcOk && space then p.queue + [f] else p.queue)
  }

  datatype ReadResult = Ok(data: seq<Byte>) | Timeout | Lost

  /** The second loop of a read: data is what has been copied so far. */
  function Gather(queue: seq<Frame>, data: seq<Byte>, total: nat, awaited: nat): (r: (ReadResult, seq<Frame>))
    ensures |r.1| <= |queue|
  {
    if |data| >= total then (Ok(data), queue)
    else if queue == [] then (Timeout, [])
    else if queue[0].seqno != awaited then (Lost, queue[1..])
    else Gather(queue[1..], data + queue[0].data, total, awaited + 1)
  }

  /** A read with a buffer of capacity bytes. */
  function ReadMessage(queue: seq<Frame>, capacity: nat): (r: (ReadResult, seq<Frame>))
    ensures |r.1| < |queue| || r.1 == queue == []
  {
    if queue == [] then (Timeout, [])
    else if queue[0].seqno == 0 && capacity > queue[0].total then
      Gather(queue[1..], queue[0].data, queue[0].total, 1)
    else ReadMessage(queue[1..], capacity)
  }

  class EspNow {
    /** g_last_magic and g_espnow_queue. */
    const lastMagic: array<nat>
    const queue: array<seq<Frame>>

    ghost predicate Valid()
      reads this
    {
      lastMagic.Length == PIPE_COUNT && queue.Length == PIPE_COUNT
    }

    ghost function State(p: nat): Pipe
      requires Valid() && p < PIPE_COUNT
      reads this, lastMagic, queue
    {
      Pipe(lastMagic[p], queue[p])
    }

    constructor ()
      ensures Valid() && fresh(lastMagic) && fresh(queue)
      ensures forall p: nat :: p < PIPE_COUNT ==> State(p) == Pipe(0, [])
    {
      lastMagic := new nat[PIPE_COUNT](_ => 0);
      queue := new seq<Frame>[PIPE_COUNT](_ => []);
    }

    /** mespnow_recv_cb, after the length and organisation checks. */
    method RecvCb(p: nat, f: Frame, crcOk: bool, space: bool)
      requires Valid()
      modifies lastMagic, queue
      ensures forall q: nat :: q < PIPE_COUNT ==>
                State(q) == if q == p then Receive(old(State(q)), f, crcOk, space) else old(State(q))
    {
      if p >= PIPE_COUNT || lastMagic[p] == f.magic {
        return;
      }
      lastMagic[p] := f.magic;
      if !crcOk || !space {
        return;
      }
      queue[p] := queue[p] + [f];
    }

    /** mespnow_read. */
    method Read(p: nat, capacity: nat) returns (r: ReadResult)
      requires Valid() && p < PIPE_COUNT && capacity > 0
      modifies queue
      ensures (r, queue[p]) == ReadMessage(old(queue[p]), capacity)
      ensures forall q: nat :: q < PIPE_COUNT && q != p ==> queue[q] == old(queue[q])
    {
      var q := queue[p];
      ghost var goal := ReadMessage(q, capacity);
      while q != [] && !(q[0].seqno == 0 && capacity > q[0].total)
        modifies {}
        invariant ReadMessage(q, capacity) == goal
        decreases |q|
      {
        q := q[1..];
      }
      if q == [] {
        queue[p] := q;
        return Timeout;
      }
      var data, total, awaited, lost := q[0].data, q[0].total, 1, false;
      q := q[1..];
      while |data| < total
        modifies {}
        invariant Gather(q, data, total, awaited) == goal && !lost
        decreases |q|
      {
        if q == [] {
          break;
        }
        var f := q[0];
        q := q[1..];
        lost := f.seqno != awaited;
        if lost {
          break;
        }
        data := data + f.data;
        awaited := awaited + 1;
      }
      queue[p] := q;
      r := if |data| >= total then Ok(data) else if lost then Lost else Timeout;
    }
  }

  // ---- Fragments of a sequence of messages ----

  /** Fragment k of message msg. */
  datatype Tag = Tag(msg: nat, k: nat)

  predicate Known(ms: seq<Message>, t: Tag) {
    t.msg < |ms| && ms[t.msg].Valid() && t.k < ms[t.msg].Count()
  }

  /** The sender sends b after a. */
  predicate Later(a: Tag, b: Tag) {
    b.msg > a.msg || (b.msg == a.msg && b.k > a.k)
  }

  /** b has the sequence number that follows a's but belongs to another message. */
  predicate Seam(a: Tag, b: Tag) {
    b.msg > a.msg && b.k == a.k + 1
  }

  /** The first k fragments of a message. */
  function FirstTags(msg: nat, k: nat): (tags: seq<Tag>)
    ensures |tags| == k && forall j :: 0 <= j < k ==> tags[j] == Tag(msg, j)
  {
    seq(k, j requires 0 <= j < k => Tag(msg, j))
  }

  /** tags[..n] ends with the first fragments of one message in a row. */
  predicate EndsUnbroken(tags: seq<Tag>, n: nat) {
    0 < n <= |tags| && tags[n - 1].k < n &&
    tags[n - 1 - tags[n - 1].k..n - 1] == FirstTags(tags[n - 1].msg, tags[n - 1].k)
  }

  /** t may stand behind tags[..n] in a queue that is read message by message: it is sent later, and is not
      mistaken for the continuation of a message that has started there. */
  predicate Follows(tags: seq<Tag>, n: nat, t: Tag) {
    0 < n <= |tags| && Later(tags[n - 1], t) && !(Seam(tags[n - 1], t) && EndsUnbroken(tags, n))
  }

  predicate Orderly(ms: seq<Message>, tags: seq<Tag>) {
    (forall i :: 0 <= i < |tags| ==> Known(ms, tags[i])) &&
    (forall i :: 0 < i < |tags| ==> Follows(tags, i, tags[i]))
  }

  function FrameFor(ms: seq<Message>, t: Tag): Frame
    requires Known(ms, t)
  {
    FrameOf(ms[t.msg], t.k)
  }

  /** q holds the fragments tags[n..]. */
  predicate Queued(ms: seq<Message>, tags: seq<Tag>, n: nat, q: seq<Frame>) {
    n <= |tags| && |q| == |tags| - n &&
    forall i :: n <= i < |tags| ==> Known(ms, tags[i]) && q[i - n] == FrameFor(ms, tags[i])
  }

  lemma FrameFacts(m: Message, k: nat)
    requires m.Valid() && k < m.Count()
    ensures FrameOf(m, k).seqno == k && FrameOf(m, k).total == |m.data|
    ensures m.data[..k * PAYLOAD_LEN] + FrameOf(m, k).data ==
            m.data[..if k + 1 == m.Count() then |m.data| else (k + 1) * PAYLOAD_LEN]
    ensures k + 1 < m.Count() ==> (k + 1) * PAYLOAD_LEN < |m.data|
  {
  }

  lemma QueueHead(ms: seq<Message>, tags: seq<Tag>, n: nat, q: seq<Frame>)
    requires Queued(ms, tags, n, q) && n < |tags|
    ensures q != [] && Known(ms, tags[n]) && q[0] == FrameFor(ms, tags[n]) && Queued(ms, tags, n + 1, q[1..])
  {
  }

  // ---- A read returns exactly one message ----

  /** tags[n - Count .. n] are all the fragments of message i. */
  predicate EndsWithMessage(ms: seq<Message>, tags: seq<Tag>, n: nat, i: nat) {
    i < |ms| && ms[i].Count() <= n <= |tags| &&
    forall k :: 0 <= k < ms[i].Count() ==> tags[n - ms[i].Count() + k] == Tag(i, k)
  }

  /** While message i is being gathered, tags[..n] ends with its first k fragments. */
  predicate Gathered(ms: seq<Message>, tags: seq<Tag>, n: nat, i: nat, k: nat) {
    i < |ms| && ms[i].Valid() && 1 <= k <= ms[i].Count() && k <= n <= |tags| &&
    forall j :: 0 <= j < k ==> tags[n - k + j] == Tag(i, j)
  }

  /** What a read leaves behind, and what it returned. */
  predicate ReadFacts(ms: seq<Message>, tags: seq<Tag>, r: ReadResult, rest: seq<Frame>, n: nat, i: nat) {
    Queued(ms, tags, n, rest) &&
    (r.Ok? ==> i < |ms| && ms[i].Valid() && r.data == ms[i].data && EndsWithMessage(ms, tags, n, i))
  }

  lemma GatheredIsUnbroken(ms: seq<Message>, tags: seq<Tag>, n: nat, i: nat, k: nat)
    requires Gathered(ms, tags, n, i, k)
    ensures tags[n - 1] == Tag(i, k - 1) && EndsUnbroken(tags, n)
  {
    assert tags[n - k + (k - 1)] == Tag(i, k - 1);
    forall j | 0 <= j < k - 1 ensures tags[n - k..n - 1][j] == Tag(i, j) {
      assert tags[n - k + j] == Tag(i, j);
    }
    assert tags[n - k..n - 1] == FirstTags(i, k - 1);
  }

  lemma GathersOneMore(ms: seq<Message>, tags: seq<Tag>, n: nat, i: nat, k: nat)
    requires Gathered(ms, tags, n, i, k) && n < |tags| && k < ms[i].Count() && tags[n] == Tag(i, k)
    ensures Gathered(ms, tags, n + 1, i, k + 1)
  {
    forall j | 0 <= j < k + 1 ensures tags[n + 1 - (k + 1) + j] == Tag(i, j) {
      assert j < k ==> tags[n - k + j] == Tag(i, j);
    }
  }

  /** The awaited sequence number identifies the next fragment of the same message. */
  lemma AwaitedIsNext(ms: seq<Message>, tags: seq<Tag>, n: nat, i: nat, k: nat)
    requires Orderly(ms, tags) && Gathered(ms, tags, n, i, k) && n < |tags| && k < ms[i].Count()
    ensures FrameFor(ms, tags[n]).seqno == k <==> tags[n] == Tag(i, k)
    ensures tags[n] == Tag(i, k) ==> Gathered(ms, tags, n + 1, i, k + 1)
  {
    hide EndsUnbroken;
    GatheredIsUnbroken(ms, tags, n, i, k);
    assert Follows(tags, n, tags[n]);
    FrameFacts(ms[tags[n].msg], tags[n].k);
    if tags[n] == Tag(i, k) {
      GathersOneMore(ms, tags, n, i, k);
    }
  }

  function GatheredData(m: Message, k: nat): seq<Byte> {
    if k >= m.Count() || k * PAYLOAD_LEN > |m.data| then m.data else m.data[..k * PAYLOAD_LEN]
  }

  lemma GatheredGrows(m: Message, k: nat)
    requires m.Valid() && 1 <= k < m.Count()
    ensures |GatheredData(m, k)| < |m.data|
    ensures GatheredData(m, k) + FrameOf(m, k).data == GatheredData(m, k + 1)
  {
    FrameFacts(m, k);
    FrameFacts(m, k - 1);
    assert m.data[..|m.data|] == m.data;
  }

  /** The next fragment is taken when it is the awaited one and ends the read when it is not. */
  lemma GatherStep(ms: seq<Message>, tags: seq<Tag>, n: nat, q: seq<Frame>, i: nat, k: nat)
    requires Orderly(ms, tags) && Queued(ms, tags, n, q) && Gathered(ms, tags, n, i, k) && n < |tags| &&
             k < ms[i].Count()
    ensures q != [] && Queued(ms, tags, n + 1, q[1..])
    ensures tags[n] == Tag(i, k) ==> Gathered(ms, tags, n + 1, i, k + 1)
    ensures Gather(q, GatheredData(ms[i], k), |ms[i].data|, k) ==
            if tags[n] == Tag(i, k) then Gather(q[1..], GatheredData(ms[i], k + 1), |ms[i].data|, k + 1)
            else (Lost, q[1..])
  {
    AwaitedIsNext(ms, tags, n, i, k);
    QueueHead(ms, tags, n, q);
    GatheredGrows(ms[i], k);
  }

  /** The read ends when the message is whole or the queue is empty. */
  lemma GatherEnds(ms: seq<Message>, tags: seq<Tag>, n: nat, q: seq<Frame>, i: nat, k: nat)
    requires Orderly(ms, tags) && Queued(ms, tags, n, q) && Gathered(ms, tags, n, i, k) &&
             (n == |tags| || k == ms[i].Count())
    ensures var g := Gather(q, GatheredData(ms[i], k), |ms[i].data|, k);
            ReadFacts(ms, tags, g.0, g.1, n, i)
  {
    if k < ms[i].Count() {
      GatheredGrows(ms[i], k);
    }
  }

  /** One turn of the gathering loop: it ends with what a read may return, or goes on. */
  lemma GatherTurn(ms: seq<Message>, tags: seq<Tag>, n: nat, q: seq<Frame>, i: nat, k: nat, r: ReadResult,
                   rest: seq<Frame>)
    returns (ended: bool, n': nat)
    requires Orderly(ms, tags) && Queued(ms, tags, n, q) && Gathered(ms, tags, n, i, k)
    requires (r, rest) == Gather(q, GatheredData(ms[i], k), |ms[i].data|, k)
    ensures ended ==> n' >= n && ReadFacts(ms, tags, r, rest, n', i)
    ensures !ended ==> q != [] && Queued(ms, tags, n + 1, q[1..]) && Gathered(ms, tags, n + 1, i, k + 1) &&
                       (r, rest) == Gather(q[1..], GatheredData(ms[i], k + 1), |ms[i].data|, k + 1)
  {
    ended, n' := true, n;
    if n == |tags| || k == ms[i].Count() {
      GatherEnds(ms, tags, n, q, i, k);
    } else {
      GatherStep(ms, tags, n, q, i, k);
      ended, n' := tags[n] != Tag(i, k), n + 1;
    }
  }

  lemma {:induction false} GatherFacts(ms: seq<Message>, tags: seq<Tag>, n: nat, q: seq<Frame>, i: nat, k: nat,
                                       r: ReadResult, rest: seq<Frame>) returns (n': nat)
    requires Orderly(ms, tags) && Queued(ms, tags, n, q) && Gathered(ms, tags, n, i, k)
    requires (r, rest) == Gather(q, GatheredData(ms[i], k), |ms[i].data|, k)
    ensures n' >= n && ReadFacts(ms, tags, r, rest, n', i)
    decreases |q|
  {
    hide Orderly, Queued, Gathered, ReadFacts, Gather;
    var ended;
    ended, n' := GatherTurn(ms, tags, n, q, i, k, r, rest);
    if !ended {
      n' := GatherFacts(ms, tags, n + 1, q[1..], i, k + 1, r, rest);
    }
  }

  lemma FirstIsGathered(m: Message)
    requires m.Valid()
    ensures FrameOf(m, 0).data == GatheredData(m, 1)
  {
    FrameFacts(m, 0);
    assert m.data[..0] == [] && [] + FrameOf(m, 0).data == FrameOf(m, 0).data;
    assert m.data[..|m.data|] == m.data;
  }

  /** A read of an orderly queue consumes a prefix of it and returns MDF_OK only with all of one message,
      whose fragments are the last it consumed. */
  lemma {:induction false} ReadReturnsOneMessage(ms: seq<Message>, tags: seq<Tag>, n: nat, q: seq<Frame>, capacity: nat)
    returns (n': nat, i: nat)
    requires Orderly(ms, tags) && Queued(ms, tags, n, q)
    ensures var read := ReadMessage(q, capacity);
            n' >= n && ReadFacts(ms, tags, read.0, read.1, n', i)
    decreases |q|
  {
    n', i := n, 0;
    if n == |tags| {
    } else {
      QueueHead(ms, tags, n, q);
      FrameFacts(ms[tags[n].msg], tags[n].k);
      if q[0].seqno == 0 && capacity > q[0].total {
        i := tags[n].msg;
        FirstIsGathered(ms[i]);
        var read := ReadMessage(q, capacity);
        n' := GatherFacts(ms, tags, n + 1, q[1..], i, 1, read.0, read.1);
      } else {
        n', i := ReadReturnsOneMessage(ms, tags, n + 1, q[1..], capacity);
      }
    }
  }

  // ---- Runs of arrivals and reads ----

  /** A fragment arrives, perhaps again, or the application reads. */
  datatype Event = Arrive(t: Tag, crcOk: bool, space: bool) | Read(capacity: nat)

  /** A pipe, the fragments its queue holds, and the last fragment that arrived. */
  datatype Link = Link(pipe: Pipe, tags: seq<Tag>, prev: Option<Tag>)

  /** The sender repeats a fragment until it goes on; fragments that follow one another have different
      magics; any may be lost, but none is queued right behind the start of another message whose sequence
      it continues. */
  predicate CanArrive(ms: seq<Message>, l: Link, t: Tag, ok: bool) {
    Known(ms, t) &&
    if l.prev == Some(t) then true
    else
      (l.prev.Some? ==> Later(l.prev.value, t)) && FrameFor(ms, t).magic != l.pipe.lastMagic &&
      (ok && l.tags != [] ==> !(Seam(l.tags[|l.tags| - 1], t) && EndsUnbroken(l.tags, |l.tags|)))
  }

  ghost predicate LinkInv(ms: seq<Message>, l: Link) {
    Orderly(ms, l.tags) && Queued(ms, l.tags, 0, l.pipe.queue) &&
    (l.prev.Some? ==> Known(ms, l.prev.value) && l.pipe.lastMagic == FrameFor(ms, l.prev.value).magic) &&
    (l.tags != [] ==>
       l.prev.Some? && (l.tags[|l.tags| - 1] == l.prev.value || Later(l.tags[|l.tags| - 1], l.prev.value)))
  }

  function Arrived(ms: seq<Message>, l: Link, t: Tag, crcOk: bool, space: bool): Link
    requires Known(ms, t)
  {
    Link(Receive(l.pipe, FrameFor(ms, t), crcOk, space),
         if l.pipe.lastMagic != FrameFor(ms, t).magic && crcOk && space then l.tags + [t] else l.tags,
         Some(t))
  }

  lemma UnbrokenInPrefix(tags: seq<Tag>, more: seq<Tag>, n: nat)
    requires 0 < n <= |tags|
    ensures EndsUnbroken(tags + more, n) == EndsUnbroken(tags, n)
  {
    var k := tags[n - 1].k;
    if k < n {
      assert (tags + more)[n - 1 - k..n - 1] == tags[n - 1 - k..n - 1];
    }
  }

  lemma UnbrokenInSuffix(tags: seq<Tag>, from: nat, n: nat)
    requires from <= |tags| && EndsUnbroken(tags[from..], n)
    ensures EndsUnbroken(tags, from + n)
  {
    var k := tags[from..][n - 1].k;
    assert tags[from..][n - 1 - k..n - 1] == tags[from + n - 1 - k..from + n - 1];
  }

  lemma AppendOrderly(ms: seq<Message>, tags: seq<Tag>, q: seq<Frame>, t: Tag)
    requires Orderly(ms, tags) && Known(ms, t) && (tags != [] ==> Follows(tags, |tags|, t))
    requires Queued(ms, tags, 0, q)
    ensures Orderly(ms, tags + [t]) && Queued(ms, tags + [t], 0, q + [FrameFor(ms, t)])
  {
    var more := tags + [t];
    forall i | 0 < i < |more| ensures Follows(more, i, more[i]) {
      UnbrokenInPrefix(tags, [t], i);
      assert i < |tags| ==> Follows(tags, i, tags[i]);
    }
  }

  lemma SuffixOrderly(ms: seq<Message>, tags: seq<Tag>, from: nat)
    requires Orderly(ms, tags) && from <= |tags|
    ensures Orderly(ms, tags[from..])
  {
    var rest := tags[from..];
    forall i | 0 < i < |rest| ensures Follows(rest, i, rest[i]) {
      assert Follows(tags, from + i, tags[from + i]);
      if EndsUnbroken(rest, i) {
        UnbrokenInSuffix(tags, from, i);
      }
    }
  }

  /** Repeated copies are filtered, lost fragments leave gaps, and the queue stays orderly. */
  lemma ArrivalKeepsInv(ms: seq<Message>, l: Link, t: Tag, crcOk: bool, space: bool)
    requires LinkInv(ms, l) && CanArrive(ms, l, t, crcOk && space)
    ensures LinkInv(ms, Arrived(ms, l, t, crcOk, space))
  {
    if l.pipe.lastMagic != FrameFor(ms, t).magic && crcOk && space {
      AppendOrderly(ms, l.tags, l.pipe.queue, t);
    }
  }

  /** Every message below lo is over: the sender has moved past it or sent its last fragment. */
  ghost predicate Past(ms: seq<Message>, l: Link, lo: nat) {
    (forall i :: 0 <= i < |l.tags| ==> l.tags[i].msg >= lo) &&
    (l.prev.None? ==> lo == 0) &&
    (l.prev.Some? && l.prev.value.msg < lo ==>
       l.prev.value.msg + 1 == lo && l.prev.value.msg < |ms| && l.prev.value.k + 1 == ms[l.prev.value.msg].Count())
  }

  lemma ArrivalKeepsPast(ms: seq<Message>, l: Link, t: Tag, crcOk: bool, space: bool, lo: nat)
    requires LinkInv(ms, l) && Past(ms, l, lo) && CanArrive(ms, l, t, crcOk && space)
    ensures Past(ms, Arrived(ms, l, t, crcOk, space), lo)
  {
  }

  lemma {:induction false} OrderlyIncreases(tags: seq<Tag>, i: nat, j: nat)
    requires forall i :: 0 < i < |tags| ==> Follows(tags, i, tags[i])
    requires i < j < |tags|
    ensures tags[i].msg < tags[j].msg || (tags[i].msg == tags[j].msg && tags[i].k < tags[j].k)
    decreases j
  {
    hide EndsUnbroken;
    assert Follows(tags, j, tags[j]);
    if i == j - 1 {
    } else {
      OrderlyIncreases(tags, i, j - 1);
    }
  }

  /** The link with the first n fragments consumed. */
  function AfterRead(l: Link, n: nat, rest: seq<Frame>): Link
    requires n <= |l.tags|
  {
    Link(l.pipe.(queue := rest), l.tags[n..], l.prev)
  }

  /** The link after a read. */
  function ReadLink(l: Link, capacity: nat): Link {
    var rest := ReadMessage(l.pipe.queue, capacity).1;
    var n := |l.tags| - |rest|;
    if 0 <= n <= |l.tags| then AfterRead(l, n, rest) else l
  }

  /** Once all of message i has been consumed, what is left and what may still arrive is later. */
  lemma TagsPastMessage(ms: seq<Message>, tags: seq<Tag>, n: nat, i: nat, j: nat)
    requires Orderly(ms, tags) && EndsWithMessage(ms, tags, n, i) && ms[i].Valid() && n <= j < |tags|
    ensures tags[j].msg >= i + 1
  {
    hide Follows;
    var last := ms[i].Count() - 1;
    assert tags[n - ms[i].Count() + last] == Tag(i, last);
    OrderlyIncreases(tags, n - 1, j);
    assert Known(ms, tags[j]);
  }

  lemma PastMessage(ms: seq<Message>, l: Link, n: nat, i: nat, rest: seq<Frame>)
    requires LinkInv(ms, l) && n <= |l.tags| && EndsWithMessage(ms, l.tags, n, i) && ms[i].Valid()
    ensures Past(ms, AfterRead(l, n, rest), i + 1)
  {
    hide Orderly;
    forall j | n <= j < |l.tags| ensures l.tags[j].msg >= i + 1 {
      TagsPastMessage(ms, l.tags, n, i, j);
    }
    if n == |l.tags| {
      var last := ms[i].Count() - 1;
      assert l.tags[n - ms[i].Count() + last] == Tag(i, last);
    } else {
      assert l.tags[|l.tags| - 1].msg >= i + 1;
    }
  }

  lemma InvAfterRead(ms: seq<Message>, l: Link, n: nat, rest: seq<Frame>)
    requires LinkInv(ms, l) && Queued(ms, l.tags, n, rest)
    ensures LinkInv(ms, AfterRead(l, n, rest))
  {
    hide Orderly;
    SuffixOrderly(ms, l.tags, n);
    if n < |l.tags| {
      assert l.tags[n..][|l.tags| - n - 1] == l.tags[|l.tags| - 1];
    }
  }

  lemma PastSuffix(ms: seq<Message>, l: Link, n: nat, rest: seq<Frame>, lo: nat)
    requires LinkInv(ms, l) && Past(ms, l, lo) && n <= |l.tags|
    ensures Past(ms, AfterRead(l, n, rest), lo)
  {
  }

  /** A read keeps the queue orderly, and what it returns is a message later than all returned before. */
  lemma ReadKeepsInv(ms: seq<Message>, l: Link, capacity: nat, lo: nat) returns (next: nat)
    requires LinkInv(ms, l) && Past(ms, l, lo)
    ensures LinkInv(ms, ReadLink(l, capacity)) && Past(ms, ReadLink(l, capacity), next)
    ensures var r := ReadMessage(l.pipe.queue, capacity).0;
            if r.Ok? then lo < next <= |ms| && r.data == ms[next - 1].data else next == lo
  {
    var n, i := ReadReturnsOneMessage(ms, l.tags, 0, l.pipe.queue, capacity);
    var rest := ReadMessage(l.pipe.queue, capacity).1;
    assert ReadLink(l, capacity) == AfterRead(l, n, rest);
    InvAfterRead(ms, l, n, rest);
    if ReadMessage(l.pipe.queue, capacity).0.Ok? {
      MessageIsAhead(ms, l, n, i, lo);
      PastMessage(ms, l, n, i, rest);
      next := i + 1;
    } else {
      PastSuffix(ms, l, n, rest, lo);
      next := lo;
    }
  }

  lemma MessageIsAhead(ms: seq<Message>, l: Link, n: nat, i: nat, lo: nat)
    requires Past(ms, l, lo) && EndsWithMessage(ms, l.tags, n, i) && ms[i].Valid()
    ensures lo <= i
  {
    assert l.tags[n - ms[i].Count() + 0] == Tag(i, 0);
  }

  // ---- Safety of a run ----

  function Next(ms: seq<Message>, l: Link, e: Event): (Link, seq<seq<Byte>>)
    requires e.Arrive? ==> Known(ms, e.t)
  {
    match e
    case Arrive(t, crcOk, space) => (Arrived(ms, l, t, crcOk, space), [])
    case Read(capacity) =>
      var r := ReadMessage(l.pipe.queue, capacity).0;
      (ReadLink(l, capacity), if r.Ok? then [r.data] else [])
  }

  predicate Possible(ms: seq<Message>, l: Link, es: seq<Event>)
    decreases |es|
  {
    es != [] ==>
      (es[0].Arrive? ==> CanArrive(ms, l, es[0].t, es[0].crcOk && es[0].space)) &&
      Possible(ms, Next(ms, l, es[0]).0, es[1..])
  }

  /** What the reads of a run return with MDF_OK, in order. */
  function Returned(ms: seq<Message>, l: Link, es: seq<Event>): seq<seq<Byte>>
    requires Possible(ms, l, es)
    decreases |es|
  {
    if es == [] then []
    else
      var (l', out) := Next(ms, l, es[0]);
      out + Returned(ms, l', es[1..])
  }

  /** out is what messages idx, each named once and in increasing order from lo, contain. */
  predicate AreMessages(ms: seq<Message>, out: seq<seq<Byte>>, idx: seq<nat>, lo: nat) {
    |idx| == |out| &&
    (forall j :: 0 <= j < |idx| ==> lo <= idx[j] < |ms| && out[j] == ms[idx[j]].data) &&
    (forall j, k :: 0 <= j < k < |idx| ==> idx[j] < idx[k])
  }

  lemma PrependMessage(ms: seq<Message>, out: seq<seq<Byte>>, idx: seq<nat>, i: nat, lo: nat)
    requires lo <= i < |ms| && AreMessages(ms, out, idx, i + 1)
    ensures AreMessages(ms, [ms[i].data] + out, [i] + idx, lo)
  {
  }

  lemma NextKeepsInv(ms: seq<Message>, l: Link, e: Event, lo: nat) returns (next: nat)
    requires LinkInv(ms, l) && Past(ms, l, lo)
    requires e.Arrive? ==> CanArrive(ms, l, e.t, e.crcOk && e.space)
    ensures LinkInv(ms, Next(ms, l, e).0) && Past(ms, Next(ms, l, e).0, next)
    ensures if next == lo then Next(ms, l, e).1 == [] else lo < next <= |ms| && Next(ms, l, e).1 == [ms[next - 1].data]
  {
    hide LinkInv, Past, ReadMessage, CanArrive;
    if e.Arrive? {
      ArrivalKeepsInv(ms, l, e.t, e.crcOk, e.space);
      ArrivalKeepsPast(ms, l, e.t, e.crcOk, e.space, lo);
      next := lo;
    } else {
      next := ReadKeepsInv(ms, l, e.capacity, lo);
    }
  }

  lemma ReturnedUnfolds(ms: seq<Message>, l: Link, es: seq<Event>)
    requires es != [] && Possible(ms, l, es)
    ensures Returned(ms, l, es) == Next(ms, l, es[0]).1 + Returned(ms, Next(ms, l, es[0]).0, es[1..])
  {
  }

  /** Under any retransmission and any losses after which no start of a message is continued by another one
      in the queue, and with reads of any buffer size in between,
        what the reads return is a subsequence of the messages sent: whole, in order, none twice. */
  lemma {:induction false} RunReturnsMessages(ms: seq<Message>, l: Link, es: seq<Event>,
                                              lo: nat) returns (idx: seq<nat>)
    requires LinkInv(ms, l) && Past(ms, l, lo) && Possible(ms, l, es)
    ensures AreMessages(ms, Returned(ms, l, es), idx, lo)
    decreases |es|
  {
    hide LinkInv, Past, Next;
    if es == [] {
      return [];
    }
    var l' := Next(ms, l, es[0]).0;
    var next := NextKeepsInv(ms, l, es[0], lo);
    ReturnedUnfolds(ms, l, es);
    idx := RunReturnsMessages(ms, l', es[1..], next);
    var out := Returned(ms, l', es[1..]);
    if next > lo {
      assert Returned(ms, l, es) == [ms[next - 1].data] + out;
      PrependMessage(ms, out, idx, next - 1, lo);
      idx := [next - 1] + idx;
    } else {
      assert Returned(ms, l, es) == out;
    }
  }

  // ---- Nothing lost ----

  lemma {:induction false} GathersAll(m: Message, k: nat, rest: seq<Frame>)
    requires m.Valid() && 1 <= k <= m.Count()
    ensures Gather(Frames(m)[k..] + rest, GatheredData(m, k), |m.data|, k) == (Ok(m.data), rest)
    decreases m.Count() - k
  {
    var q := Frames(m)[k..] + rest;
    if k < m.Count() {
      FrameFacts(m, k);
      GatheredGrows(m, k);
      assert q[0] == FrameOf(m, k) && q[1..] == Frames(m)[k + 1..] + rest;
      GathersAll(m, k + 1, rest);
    } else {
      assert q == rest;
    }
  }

  lemma {:induction false} SkipsTooLarge(m: Message, k: nat, rest: seq<Frame>, capacity: nat)
    requires m.Valid() && k <= m.Count() && capacity <= |m.data|
    ensures ReadMessage(Frames(m)[k..] + rest, capacity) == ReadMessage(rest, capacity)
    decreases m.Count() - k
  {
    var q := Frames(m)[k..] + rest;
    if k < m.Count() {
      FrameFacts(m, k);
      assert q[0] == FrameOf(m, k) && q[1..] == Frames(m)[k + 1..] + rest;
      SkipsTooLarge(m, k + 1, rest, capacity);
    } else {
      assert q == rest;
    }
  }

  predicate AllValid(ms: seq<Message>) {
    forall i :: 0 <= i < |ms| ==> ms[i].Valid()
  }

  function AllFrames(ms: seq<Message>): seq<Frame>
    requires AllValid(ms)
  {
    if ms == [] then [] else Frames(ms[0]) + AllFrames(ms[1..])
  }

  /** The messages smaller than the reader's buffer: the test is strict, so one of exactly its size is
      passed over. */
  function Fitting(ms: seq<Message>, capacity: nat): seq<seq<Byte>> {
    if ms == [] then []
    else if |ms[0].data| < capacity then [ms[0].data] + Fitting(ms[1..], capacity)
    else Fitting(ms[1..], capacity)
  }

  lemma {:induction false} ReadWholeMessage(m: Message, rest: seq<Frame>, capacity: nat)
    requires m.Valid()
    ensures ReadMessage(Frames(m) + rest, capacity) ==
            if |m.data| < capacity then (Ok(m.data), rest) else ReadMessage(rest, capacity)
  {
    var q := Frames(m) + rest;
    if |m.data| < capacity {
      FrameFacts(m, 0);
      assert q[0] == FrameOf(m, 0) && q[1..] == Frames(m)[1..] + rest;
      assert m.data[..0] == [] && [] + q[0].data == q[0].data;
      assert m.data[..|m.data|] == m.data;
      GathersAll(m, 1, rest);
    } else {
      assert Frames(m)[0..] == Frames(m);
      SkipsTooLarge(m, 0, rest, capacity);
    }
  }

  /** Fragments as the header can number them. */
  predicate Numbered(q: seq<Frame>) {
    forall f :: f in q ==> f.seqno < 0x100 && |f.data| <= PAYLOAD_LEN
  }

  lemma {:induction false} GathersAtMost(q: seq<Frame>, data: seq<Byte>, total: nat, awaited: nat)
    requires Numbered(q) && awaited <= 0x100 && |data| <= awaited * PAYLOAD_LEN
    ensures var r := Gather(q, data, total, awaited).0; r.Ok? ==> |r.data| <= 0x100 * PAYLOAD_LEN
    decreases |q|
  {
    if |data| < total && q != [] && q[0].seqno == awaited {
      assert q[0] in q && |q[0].data| <= PAYLOAD_LEN;
      GathersAtMost(q[1..], data + q[0].data, total, awaited + 1);
    }
  }

  /** No read returns more than 256 fragments, whatever is in the queue. */
  lemma {:induction false} ReadsAtMost(q: seq<Frame>, capacity: nat)
    requires Numbered(q)
    ensures var r := ReadMessage(q, capacity).0; r.Ok? ==> |r.data| <= 0x100 * PAYLOAD_LEN
    decreases |q|
  {
    if q != [] {
      assert q[0] in q;
      if q[0].seqno == 0 && capacity > q[0].total {
        GathersAtMost(q[1..], q[0].data, q[0].total, 1);
      } else {
        ReadsAtMost(q[1..], capacity);
      }
    }
  }

  /** So a message that arrives in full, at a reader with enough room, is returned if and only if it has at most
      60928 bytes, 256 fragments; mespnow_write takes longer ones too. */
  lemma ReturnedIffNotTooLong(m: Message, capacity: nat)
    requires |m.data| > 0 && |m.magics| == m.Count() && capacity > |m.data|
    ensures ReadMessage(Frames(m), capacity).0 == Ok(m.data) <==> |m.data| <= 60928
  {
    if m.Valid() {
      ReadWholeMessage(m, [], capacity);
      assert Frames(m) + [] == Frames(m);
    } else {
      ReadsAtMost(Frames(m), capacity);
    }
  }

  /** What one read does to whole messages in the queue: the first that fits is returned, and those before
      it are passed over. */
  lemma {:induction false} ReadPending(ms: seq<Message>, capacity: nat) returns (left: seq<Message>)
    requires AllValid(ms)
    ensures AllValid(left) && ReadMessage(AllFrames(ms), capacity).1 == AllFrames(left)
    ensures |left| <= |ms| && (ms != [] ==> |left| < |ms|)
    ensures var r := ReadMessage(AllFrames(ms), capacity).0;
            if r.Ok? then Fitting(ms, capacity) == [r.data] + Fitting(left, capacity)
            else r == Timeout && left == [] && Fitting(ms, capacity) == []
    decreases |ms|
  {
    if ms == [] {
      left := [];
    } else {
      ReadWholeMessage(ms[0], AllFrames(ms[1..]), capacity);
      if |ms[0].data| < capacity {
        left := ms[1..];
      } else {
        left := ReadPending(ms[1..], capacity);
      }
    }
  }

  /** A message whose fragments all arrive intact and find space, or a read with a buffer of capacity
      bytes; the latter falls between messages. */
  datatype Turn = Sent(m: Message) | Polled

  function ReceiveAll(p: Pipe, fs: seq<Frame>): Pipe
    decreases |fs|
  {
    if fs == [] then p else ReceiveAll(Receive(p, fs[0], true, true), fs[1..])
  }

  predicate TurnsValid(ts: seq<Turn>) {
    forall i :: 0 <= i < |ts| && ts[i].Sent? ==> ts[i].m.Valid()
  }

  /** What one turn does to a pipe and returns. */
  function OneTurn(p: Pipe, capacity: nat, t: Turn): (Pipe, seq<seq<Byte>>)
    requires t.Sent? ==> t.m.Valid()
  {
    match t
    case Sent(m) => (ReceiveAll(p, Frames(m)), [])
    case Polled =>
      var read := ReadMessage(p.queue, capacity);
      (p.(queue := read.1), if read.0.Ok? then [read.0.data] else [])
  }

  /** The pipe after a run of turns. */
  function AfterTurns(p: Pipe, capacity: nat, ts: seq<Turn>): Pipe
    requires TurnsValid(ts)
    decreases |ts|
  {
    if ts == [] then p else AfterTurns(OneTurn(p, capacity, ts[0]).0, capacity, ts[1..])
  }

  /** What the reads of the run returned with MDF_OK, in order. */
  function TurnsReturn(p: Pipe, capacity: nat, ts: seq<Turn>): seq<seq<Byte>>
    requires TurnsValid(ts)
    decreases |ts|
  {
    if ts == [] then []
    else OneTurn(p, capacity, ts[0]).1 + TurnsReturn(OneTurn(p, capacity, ts[0]).0, capacity, ts[1..])
  }

  function SentIn(ts: seq<Turn>): seq<Message> {
    if ts == [] then [] else (if ts[0].Sent? then [ts[0].m] else []) + SentIn(ts[1..])
  }

  predicate Changing(last: nat, magics: seq<nat>) {
    (magics != [] ==> magics[0] != last) && forall i :: 0 < i < |magics| ==> magics[i] != magics[i - 1]
  }

  /** Fragments that follow one another have different magics. */
  predicate FreshTurns(last: nat, ts: seq<Turn>)
    decreases |ts|
  {
    ts != [] ==>
      if ts[0].Sent? then
        ts[0].m.Valid() && Changing(last, ts[0].m.magics) && FreshTurns(ts[0].m.magics[|ts[0].m.magics| - 1], ts[1..])
      else FreshTurns(last, ts[1..])
  }

  /** Frames that follow one another have different magics. */
  predicate ChangingFrames(last: nat, fs: seq<Frame>)
    decreases |fs|
  {
    fs != [] ==> fs[0].magic != last && ChangingFrames(fs[0].magic, fs[1..])
  }

  /** Then every one of them is queued, if it is intact and finds space. */
  lemma {:induction false} AllReceived(p: Pipe, fs: seq<Frame>)
    requires ChangingFrames(p.lastMagic, fs)
    ensures ReceiveAll(p, fs) == Pipe(if fs == [] then p.lastMagic else fs[|fs| - 1].magic, p.queue + fs)
    decreases |fs|
  {
    if fs == [] {
      assert p.queue + [] == p.queue;
    } else {
      AllReceived(Receive(p, fs[0], true, true), fs[1..]);
      RegroupHead(p.queue, fs);
    }
  }

  lemma RegroupHead(queue: seq<Frame>, fs: seq<Frame>)
    requires fs != []
    ensures (queue + [fs[0]]) + fs[1..] == queue + fs
    ensures fs[1..] != [] ==> fs[1..][|fs| - 2] == fs[|fs| - 1]
  {
  }

  lemma {:induction false} FramesChange(m: Message, last: nat, k: nat)
    requires m.Valid() && k <= m.Count() && Changing(last, m.magics)
    ensures ChangingFrames(if k == 0 then last else m.magics[k - 1], Frames(m)[k..])
    decreases m.Count() - k
  {
    if k == m.Count() {
    } else {
      assert Frames(m)[k..][0] == FrameOf(m, k) && Frames(m)[k..][1..] == Frames(m)[k + 1..];
      FramesChange(m, last, k + 1);
    }
  }

  lemma {:induction false} FramesAppend(ms: seq<Message>, m: Message)
    requires AllValid(ms) && m.Valid()
    ensures AllValid(ms + [m]) && AllFrames(ms + [m]) == AllFrames(ms) + Frames(m)
    decreases |ms|
  {
    if ms == [] {
      assert [m][1..] == [] && Frames(m) + [] == Frames(m) == [] + Frames(m);
    } else {
      FramesAppend(ms[1..], m);
      assert (ms + [m])[1..] == ms[1..] + [m];
      assert Frames(ms[0]) + (AllFrames(ms[1..]) + Frames(m)) == (Frames(ms[0]) + AllFrames(ms[1..])) + Frames(m);
    }
  }

  /** One turn moves messages that fit from the front of what is pending to what has been returned. */
  lemma TurnIsFifo(p: Pipe, ms: seq<Message>, capacity: nat, t: Turn) returns (pending: seq<Message>)
    requires AllValid(ms) && p.queue == AllFrames(ms) && FreshTurns(p.lastMagic, [t])
    requires t.Sent? ==> t.m.Valid()
    ensures var after := OneTurn(p, capacity, t);
            AllValid(pending) && after.0.queue == AllFrames(pending) &&
              |pending| <= |ms| + (if t.Sent? then 1 else 0) &&
            after.0.lastMagic == (if t.Sent? then t.m.magics[|t.m.magics| - 1] else p.lastMagic) &&
            after.1 + Fitting(pending, capacity) == Fitting(if t.Sent? then ms + [t.m] else ms, capacity)
  {
    if t.Sent? {
      assert Frames(t.m)[0..] == Frames(t.m);
      FramesChange(t.m, p.lastMagic, 0);
      AllReceived(p, Frames(t.m));
      FramesAppend(ms, t.m);
      pending := ms + [t.m];
    } else {
      pending := ReadPending(ms, capacity);
    }
  }

  lemma RegroupTurn(one: seq<seq<Byte>>, more: seq<seq<Byte>>, left: seq<seq<Byte>>, pending: seq<seq<Byte>>,
                    before: seq<seq<Byte>>, later: seq<seq<Byte>>)
    requires more + left == pending + later && one + pending == before
    ensures (one + more) + left == before + later
  {
    assert (one + more) + left == one + (more + left);
  }

  /** With nothing lost, and no read while a message is still arriving: what the reads have returned,
      followed by what is left in the queue, is every message that fits, in order. */
  lemma {:induction false} NoLossIsFifo(p: Pipe, ms: seq<Message>, capacity: nat,
                                        ts: seq<Turn>) returns (left: seq<Message>)
    requires AllValid(ms) && p.queue == AllFrames(ms) && FreshTurns(p.lastMagic, ts) && TurnsValid(ts)
    ensures AllValid(left) && AfterTurns(p, capacity, ts).queue == AllFrames(left) && |left| <= |ms| + |SentIn(ts)|
    ensures TurnsReturn(p, capacity, ts) + Fitting(left, capacity) ==
            Fitting(ms, capacity) + Fitting(SentIn(ts), capacity)
    decreases |ts|
  {
    if ts == [] {
      left := ms;
      assert [] + Fitting(ms, capacity) == Fitting(ms, capacity) + [];
    } else {
      hide Fitting, AllFrames, OneTurn;
      var pending := TurnIsFifo(p, ms, capacity, ts[0]);
      var p1 := OneTurn(p, capacity, ts[0]).0;
      left := NoLossIsFifo(p1, pending, capacity, ts[1..]);
      SentAppend(ms, ts, capacity);
      RegroupTurn(OneTurn(p, capacity, ts[0]).1, TurnsReturn(p1, capacity, ts[1..]), Fitting(left, capacity),
                  Fitting(pending, capacity), Fitting(if ts[0].Sent? then ms + [ts[0].m] else ms, capacity),
                  Fitting(SentIn(ts[1..]), capacity));
    }
  }

  lemma SentAppend(ms: seq<Message>, ts: seq<Turn>, capacity: nat)
    requires ts != []
    ensures Fitting(if ts[0].Sent? then ms + [ts[0].m] else ms, capacity) + Fitting(SentIn(ts[1..]), capacity) ==
            Fitting(ms, capacity) + Fitting(SentIn(ts), capacity)
  {
    if ts[0].Sent? {
      var m, later := ts[0].m, SentIn(ts[1..]);
      FittingAppend(ms, [m], capacity);
      FittingAppend([m], later, capacity);
      assert (Fitting(ms, capacity) + Fitting([m], capacity)) + Fitting(later, capacity) ==
             Fitting(ms, capacity) + (Fitting([m], capacity) + Fitting(later, capacity));
    } else {
      assert SentIn(ts) == SentIn(ts[1..]);
    }
  }

  lemma {:induction false} FittingAppend(a: seq<Message>, b: seq<Message>, capacity: nat)
    ensures Fitting(a + b, capacity) == Fitting(a, capacity) + Fitting(b, capacity)
    decreases |a|
  {
    if a == [] {
      assert a + b == b;
    } else {
      assert (a + b)[1..] == a[1..] + b;
      FittingAppend(a[1..], b, capacity);
    }
  }

  lemma {:induction false} TurnsAppend(p: Pipe, capacity: nat, ts: seq<Turn>, more: seq<Turn>)
    requires TurnsValid(ts) && TurnsValid(more)
    ensures TurnsValid(ts + more)
    ensures TurnsReturn(p, capacity, ts + more) ==
            TurnsReturn(p, capacity, ts) + TurnsReturn(AfterTurns(p, capacity, ts), capacity, more)
    decreases |ts|
  {
    if ts == [] {
      assert ts + more == more;
    } else {
      assert (ts + more)[1..] == ts[1..] + more;
      var one := OneTurn(p, capacity, ts[0]);
      TurnsAppend(one.0, capacity, ts[1..], more);
      assert (one.1 + TurnsReturn(one.0, capacity, ts[1..])) +
             TurnsReturn(AfterTurns(one.0, capacity, ts[1..]), capacity, more) ==
             one.1 + TurnsReturn(one.0, capacity, ts[1..] + more);
    }
  }

  function Polls(n: nat): (ts: seq<Turn>)
    ensures |ts| == n && forall i :: 0 <= i < n ==> ts[i] == Polled
  {
    seq(n, _ => Polled)
  }

  lemma {:induction false} PollsReturn(p: Pipe, ms: seq<Message>, capacity: nat, n: nat)
    requires AllValid(ms) && p.queue == AllFrames(ms) && n >= |ms|
    ensures TurnsReturn(p, capacity, Polls(n)) == Fitting(ms, capacity)
    decreases n
  {
    if n == 0 {
      assert ms == [];
    } else {
      assert Polls(n)[1..] == Polls(n - 1);
      var left := ReadPending(ms, capacity);
      PollsReturn(p.(queue := AllFrames(left)), left, capacity, n - 1);
    }
  }

  /** So after any run that starts with an empty queue, as many further reads as messages were sent return
      everything that fits and has not been returned before. */
  lemma NoLossReturnsAll(p: Pipe, capacity: nat, ts: seq<Turn>, n: nat)
    requires p.queue == [] && FreshTurns(p.lastMagic, ts) && TurnsValid(ts) && n >= |SentIn(ts)|
    ensures TurnsValid(ts + Polls(n)) && TurnsReturn(p, capacity, ts + Polls(n)) == Fitting(SentIn(ts), capacity)
  {
    var left := NoLossIsFifo(p, [], capacity, ts);
    TurnsAppend(p, capacity, ts, Polls(n));
    PollsReturn(AfterTurns(p, capacity, ts), left, capacity, n);
    assert Fitting([], capacity) + Fitting(SentIn(ts), capacity) == Fitting(SentIn(ts), capacity);
  }

  /** A read while a message that fits is still arriving loses it: the read times out with what has arrived,
      and the rest is passed over. */
  lemma EarlyReadLoses(m: Message, k: nat, rest: seq<Frame>, capacity: nat)
    requires m.Valid() && 0 < k < m.Count() && |m.data| < capacity
    ensures ReadMessage(Frames(m)[..k], capacity) == (Timeout, [])
    ensures ReadMessage(Frames(m)[k..] + rest, capacity) == ReadMessage(rest, capacity)
  {
    GathersSome(m, k, []);
    assert Frames(m)[..k] + [] == Frames(m)[..k];
    GatheredGrows(m, k);
    PassesOver(m, k, rest, capacity);
  }

  lemma {:induction false} PassesOver(m: Message, k: nat, rest: seq<Frame>, capacity: nat)
    requires m.Valid() && 0 < k <= m.Count()
    ensures ReadMessage(Frames(m)[k..] + rest, capacity) == ReadMessage(rest, capacity)
    decreases m.Count() - k
  {
    var q := Frames(m)[k..] + rest;
    if k == m.Count() {
      assert q == rest;
    } else {
      FrameFacts(m, k);
      assert q[0] == FrameOf(m, k) && q[1..] == Frames(m)[k + 1..] + rest;
      PassesOver(m, k + 1, rest, capacity);
    }
  }

  /** A read that starts with the first k fragments of a message goes on gathering behind them. */
  lemma GathersSome(m: Message, k: nat, rest: seq<Frame>)
    requires m.Valid() && 0 < k < m.Count()
    ensures forall capacity: nat :: capacity > |m.data| ==>
              ReadMessage(Frames(m)[..k] + rest, capacity) == Gather(rest, GatheredData(m, k), |m.data|, k)
  {
    var q := Frames(m)[..k] + rest;
    FrameFacts(m, 0);
    FirstIsGathered(m);
    assert q[0] == FrameOf(m, 0) && q[1..] == Frames(m)[1..k] + rest;
    GathersPrefix(m, 1, k, rest);
  }

  lemma {:induction false} GathersPrefix(m: Message, i: nat, k: nat, rest: seq<Frame>)
    requires m.Valid() && 1 <= i <= k < m.Count()
    ensures Gather(Frames(m)[i..k] + rest, GatheredData(m, i), |m.data|, i) ==
            Gather(rest, GatheredData(m, k), |m.data|, k)
    decreases k - i
  {
    var q := Frames(m)[i..k] + rest;
    if i == k {
      assert q == rest;
    } else {
      FrameFacts(m, i);
      GatheredGrows(m, i);
      assert q[0] == FrameOf(m, i) && q[1..] == Frames(m)[i + 1..k] + rest;
      GathersPrefix(m, i + 1, k, rest);
    }
  }

  // ---- Seams ----

  /** The first k fragments of a, and those of b from k to i. */
  function Joined(a: Message, b: Message, k: nat, i: nat): seq<Byte>
    requires k * PAYLOAD_LEN <= |a.data| && k <= i && k * PAYLOAD_LEN <= |b.data|
  {
    a.data[..k * PAYLOAD_LEN] +
      b.data[k * PAYLOAD_LEN..if i * PAYLOAD_LEN <= |b.data| then i * PAYLOAD_LEN else |b.data|]
  }

  /** A seam is not noticed: when the first k fragments of a are followed by those of b from k on, a read
      returns them as one message if b is at least as long as a, and times out otherwise. */
  lemma SeamIsReturned(a: Message, b: Message, k: nat, capacity: nat)
    requires a.Valid() && b.Valid() && 0 < k < a.Count() && k < b.Count()
    requires |a.data| < capacity && a.Count() * PAYLOAD_LEN <= capacity
    ensures k * PAYLOAD_LEN <= |a.data| && k * PAYLOAD_LEN <= |b.data|
    ensures ReadMessage(Frames(a)[..k] + Frames(b)[k..], capacity) ==
            if |b.data| >= |a.data| then (Ok(Joined(a, b, k, a.Count())), Frames(b)[a.Count()..]) else (Timeout, [])
  {
    FrameFacts(a, k);
    FrameFacts(a, k - 1);
    FrameFacts(b, k - 1);
    GathersSome(a, k, Frames(b)[k..]);
    assert Joined(a, b, k, k) == GatheredData(a, k);
    GathersSeam(a, b, k, k);
  }

  lemma JoinedGrows(a: Message, b: Message, k: nat, i: nat)
    requires a.Valid() && b.Valid() && 0 < k < a.Count() && k <= i < b.Count()
    requires k * PAYLOAD_LEN <= |a.data| && k * PAYLOAD_LEN <= |b.data|
    ensures Joined(a, b, k, i) + FrameOf(b, i).data == Joined(a, b, k, i + 1) && |Joined(a, b, k, i)| == i * PAYLOAD_LEN
  {
    FrameFacts(b, i);
    FrameFacts(b, i - 1);
  }

  lemma JoinedEnds(a: Message, b: Message, k: nat, i: nat)
    requires a.Valid() && b.Valid() && 0 < k < a.Count() && k <= i <= b.Count() && i <= a.Count()
    requires k * PAYLOAD_LEN <= |a.data| && k * PAYLOAD_LEN <= |b.data| && (i == a.Count() || i == b.Count())
    ensures |Joined(a, b, k, i)| >= |a.data| <==> |b.data| >= |a.data|
    ensures |b.data| >= |a.data| ==> Joined(a, b, k, i) == Joined(a, b, k, a.Count()) && i == a.Count()
    ensures |b.data| < |a.data| ==> i == b.Count()
  {
  }

  lemma {:induction false} GathersSeam(a: Message, b: Message, k: nat, i: nat)
    requires a.Valid() && b.Valid() && 0 < k < a.Count() && k <= i <= b.Count() && i <= a.Count()
    requires k * PAYLOAD_LEN <= |a.data| && k * PAYLOAD_LEN <= |b.data|
    ensures Gather(Frames(b)[i..], Joined(a, b, k, i), |a.data|, i) ==
            if |b.data| >= |a.data| then (Ok(Joined(a, b, k, a.Count())), Frames(b)[a.Count()..]) else (Timeout, [])
    decreases b.Count() - i
  {
    var q := Frames(b)[i..];
    if i == a.Count() || i == b.Count() {
      JoinedEnds(a, b, k, i);
    } else {
      hide Joined;
      FrameFacts(b, i);
      FrameFacts(a, i);
      JoinedGrows(a, b, k, i);
      assert q[0] == FrameOf(b, i) && q[1..] == Frames(b)[i + 1..];
      GathersSeam(a, b, k, i + 1);
    }
  }

  // ---- Streams with losses ----

  /** A message as sent, and which of its fragments are queued. */
  datatype Sending = Sending(m: Message, kept: seq<bool>) {
    predicate Valid() {
      m.Valid() && |kept| == m.Count()
    }

    predicate ArrivesFrom(k: nat) {
      forall i :: k <= i < |kept| ==> kept[i]
    }

    predicate ArrivesBefore(k: nat) {
      forall i :: 0 <= i < k && i < |kept| ==> kept[i]
    }

    /** Exactly the first j fragments are queued, and they are not all. */
    predicate CutAt(j: nat) {
      0 < j < |kept| && ArrivesBefore(j) && forall i :: j <= i < |kept| ==> !kept[i]
    }

    ghost predicate TailLost() {
      exists j: nat :: CutAt(j)
    }

    /** A reader with this capacity starts to gather the message. */
    predicate Taken(capacity: nat) {
      |m.data| < capacity
    }
  }

  /** The fragments of a sending that are queued, from fragment k on. */
  function Arriving(s: Sending, k: nat): seq<Frame>
    requires s.Valid() && k <= s.m.Count()
    decreases s.m.Count() - k
  {
    if k == s.m.Count() then []
    else if s.kept[k] then [FrameOf(s.m, k)] + Arriving(s, k + 1)
    else Arriving(s, k + 1)
  }

  predicate SendingsValid(ss: seq<Sending>) {
    forall s :: s in ss ==> s.Valid()
  }

  function Stream(ss: seq<Sending>): seq<Frame>
    requires SendingsValid(ss)
  {
    if ss == [] then [] else Arriving(ss[0], 0) + Stream(ss[1..])
  }

  /** The messages that have arrived in full and fit the reader's buffer. */
  function Complete(ss: seq<Sending>, capacity: nat): seq<seq<Byte>> {
    if ss == [] then []
    else (if ss[0].ArrivesFrom(0) && ss[0].Taken(capacity) then [ss[0].m.data] else []) + Complete(ss[1..], capacity)
  }

  /** What reads return with MDF_OK until the queue is empty. */
  function ReadAll(queue: seq<Frame>, capacity: nat): seq<seq<Byte>>
    decreases |queue|
  {
    if queue == [] then []
    else
      var read := ReadMessage(queue, capacity);
      (if read.0.Ok? then [read.0.data] else []) + ReadAll(read.1, capacity)
  }

  lemma SameRead(a: seq<Frame>, b: seq<Frame>, capacity: nat)
    requires ReadMessage(a, capacity) == ReadMessage(b, capacity)
    ensures ReadAll(a, capacity) == ReadAll(b, capacity)
  {
    if a == [] || b == [] {
      assert ReadMessage([], capacity) == (Timeout, []);
    }
  }

  lemma ArrivingHead(s: Sending, k: nat, rest: seq<Frame>)
    requires s.Valid() && k < s.m.Count()
    ensures var q := Arriving(s, k) + rest;
            if s.kept[k] then q != [] && q[0] == FrameOf(s.m, k) && q[1..] == Arriving(s, k + 1) + rest
            else q == Arriving(s, k + 1) + rest
  {
  }

  /** Fragments other than a first one that is taken are passed over. */
  lemma {:induction false} PassesArriving(s: Sending, k: nat, rest: seq<Frame>, capacity: nat)
    requires s.Valid() && k <= s.m.Count() && (k > 0 || !s.kept[0] || !s.Taken(capacity))
    ensures ReadMessage(Arriving(s, k) + rest, capacity) == ReadMessage(rest, capacity)
    decreases s.m.Count() - k
  {
    if k == s.m.Count() {
      assert Arriving(s, k) + rest == rest;
    } else {
      ArrivingHead(s, k, rest);
      FrameFacts(s.m, k);
      PassesArriving(s, k + 1, rest, capacity);
    }
  }

  /** After the first k fragments and a gap, the next fragment of the message ends the read. */
  lemma {:induction false} GapEndsRead(s: Sending, k: nat, i: nat, rest: seq<Frame>, capacity: nat)
    requires s.Valid() && 0 < k < i <= s.m.Count() && exists j :: i <= j < s.m.Count() && s.kept[j]
    ensures var g := Gather(Arriving(s, i) + rest, GatheredData(s.m, k), |s.m.data|, k);
            g.0 == Lost && ReadMessage(g.1, capacity) == ReadMessage(rest, capacity)
    decreases s.m.Count() - i
  {
    ArrivingHead(s, i, rest);
    if s.kept[i] {
      FrameFacts(s.m, i);
      GatheredGrows(s.m, k);
      PassesArriving(s, i + 1, rest, capacity);
    } else {
      GapEndsRead(s, k, i + 1, rest, capacity);
    }
  }

  /** From the first k fragments on, a message that is not cut off is returned exactly when all of it has
      arrived, and nothing of it stays in the way of the next one. */
  lemma {:induction false} GathersArriving(s: Sending, k: nat, rest: seq<Frame>, capacity: nat)
    requires s.Valid() && !s.TailLost() && s.ArrivesBefore(k) && 0 < k <= s.m.Count()
    ensures var g := Gather(Arriving(s, k) + rest, GatheredData(s.m, k), |s.m.data|, k);
            if s.ArrivesFrom(k) then g == (Ok(s.m.data), rest)
            else g.0 == Lost && ReadMessage(g.1, capacity) == ReadMessage(rest, capacity)
    decreases s.m.Count() - k
  {
    if k == s.m.Count() {
      assert Arriving(s, k) + rest == rest;
    } else {
      ArrivingHead(s, k, rest);
      if s.kept[k] {
        FrameFacts(s.m, k);
        GatheredGrows(s.m, k);
        assert s.ArrivesFrom(k) == s.ArrivesFrom(k + 1);
        GathersArriving(s, k + 1, rest, capacity);
      } else {
        assert s.CutAt(k) || exists j :: k < j < s.m.Count() && s.kept[j];
        GapEndsRead(s, k, k + 1, rest, capacity);
      }
    }
  }

  /** A sending that is not cut off, or does not fit, adds exactly its message, if that has arrived in full
      and fits, to what later reads return. */
  lemma ReadsSending(s: Sending, rest: seq<Frame>, capacity: nat)
    requires s.Valid() && !(s.TailLost() && s.Taken(capacity))
    ensures ReadAll(Arriving(s, 0) + rest, capacity) ==
            (if s.ArrivesFrom(0) && s.Taken(capacity) then [s.m.data] else []) + ReadAll(rest, capacity)
  {
    var q := Arriving(s, 0) + rest;
    if !s.kept[0] || !s.Taken(capacity) {
      PassesArriving(s, 0, rest, capacity);
      SameRead(q, rest, capacity);
    } else {
      ArrivingHead(s, 0, rest);
      FrameFacts(s.m, 0);
      FirstIsGathered(s.m);
      GathersArriving(s, 1, rest, capacity);
      var read := ReadMessage(q, capacity);
      assert s.ArrivesFrom(0) == s.ArrivesFrom(1);
      if !s.ArrivesFrom(1) {
        SameRead(read.1, rest, capacity);
      }
    }
  }

  /** Only the last message that fits may be cut off. */
  ghost predicate Uncut(ss: seq<Sending>, capacity: nat) {
    forall i :: 0 <= i < |ss| - 1 ==> !(ss[i].TailLost() && ss[i].Taken(capacity))
  }

  lemma {:induction false} CutArrives(s: Sending, i: nat, j: nat)
    requires s.Valid() && s.CutAt(j) && i <= s.m.Count()
    ensures Arriving(s, i) == if i <= j then Frames(s.m)[i..j] else []
    decreases s.m.Count() - i
  {
    if i == s.m.Count() {
    } else {
      CutArrives(s, i + 1, j);
    }
  }

  /** ESP-NOW reassembly: whatever has been lost, as long as no message before the last is cut off, reading
      until the queue is empty returns exactly the messages that have arrived in full and fit, in order. */
  lemma {:induction false} ReassemblyExact(ss: seq<Sending>, capacity: nat)
    requires SendingsValid(ss) && Uncut(ss, capacity)
    ensures ReadAll(Stream(ss), capacity) == Complete(ss, capacity)
    decreases |ss|
  {
    if ss == [] {
    } else if ss[0].TailLost() && ss[0].Taken(capacity) {
      var s := ss[0];
      var j: nat :| s.CutAt(j);
      assert ss[1..] == [] && !s.kept[j];
      CutArrives(s, 0, j);
      GathersSome(s.m, j, []);
      GatheredGrows(s.m, j);
      assert Stream(ss) == Frames(s.m)[..j] + [];
    } else {
      ReadsSending(ss[0], Stream(ss[1..]), capacity);
      assert forall i :: 0 <= i < |ss| - 1 ==> ss[1..][i] == ss[i + 1];
      ReassemblyExact(ss[1..], capacity);
    }
  }

  /** The same for the pipe: fragments that arrive with changing magics, some of them never. */
  lemma ArrivalsReadExactly(p: Pipe, ss: seq<Sending>, capacity: nat)
    requires SendingsValid(ss) && Uncut(ss, capacity) && p.queue == [] && ChangingFrames(p.lastMagic, Stream(ss))
    ensures ReadAll(ReceiveAll(p, Stream(ss)).queue, capacity) == Complete(ss, capacity)
  {
    AllReceived(p, Stream(ss));
    assert [] + Stream(ss) == Stream(ss);
    ReassemblyExact(ss, capacity);
  }

  /** Whatever is sent next, and lost of it without cutting a message off, is read exactly. */
  ghost predicate LeavesExact(s: Sending, capacity: nat) {
    forall ss: seq<Sending> :: SendingsValid([s] + ss) && Uncut(ss, capacity) ==>
      ReadAll(Stream([s] + ss), capacity) == Complete([s] + ss, capacity)
  }

  /** A message in a single byte, which arrives. */
  function OneByte(): (b: Sending)
    ensures b.Valid() && b.ArrivesFrom(0) && b.m.Count() == 1 && !b.TailLost()
  {
    Sending(Message([0], [0]), [true])
  }

  /** The message after one that has been cut off is lost, although it arrives in full. */
  lemma CutLosesNext(s: Sending, j: nat, capacity: nat)
    requires s.Valid() && s.CutAt(j) && s.Taken(capacity)
    ensures SendingsValid([s, OneByte()]) && ReadAll(Stream([s, OneByte()]), capacity) == []
  {
    var b := OneByte();
    var last := FrameOf(b.m, 0);
    CutArrives(s, 0, j);
    ArrivingHead(b, 0, []);
    assert Arriving(b, 0) == [last] + Arriving(b, 1) && Arriving(b, 1) == [];
    assert [s, b][1..] == [b] && [b][1..] == [];
    assert Stream([b]) == [last];
    assert Stream([s, b]) == Frames(s.m)[..j] + [last];
    GathersSome(s.m, j, [last]);
    GatheredGrows(s.m, j);
    FrameFacts(b.m, 0);
    assert Gather([last], GatheredData(s.m, j), |s.m.data|, j) == (Lost, [last][1..]);
  }

  /** Queued into an empty pipe, a message leaves every continuation exact if and only if it is not cut off,
      or does not fit the reader's buffer. */
  lemma ExactUnlessCut(s: Sending, capacity: nat)
    requires s.Valid()
    ensures LeavesExact(s, capacity) <==> !(s.TailLost() && s.Taken(capacity))
  {
    if s.TailLost() && s.Taken(capacity) {
      var j: nat :| s.CutAt(j);
      var b := OneByte();
      CutLosesNext(s, j, capacity);
      assert [s] + [b] == [s, b] && [s, b][1..] == [b] && !s.kept[j];
      assert Complete([s, b], capacity) == [] + Complete([b], capacity) && Complete([b], capacity) == [b.m.data] + [];
      assert Uncut([b], capacity);
    } else {
      forall ss: seq<Sending> | SendingsValid([s] + ss) && Uncut(ss, capacity)
        ensures ReadAll(Stream([s] + ss), capacity) == Complete([s] + ss, capacity)
      {
        assert forall i :: 0 < i < |[s] + ss| ==> ([s] + ss)[i] == ss[i - 1];
        ReassemblyExact([s] + ss, capacity);
      }
    }
  }
}
