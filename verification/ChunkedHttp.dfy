/** Chunked responses of the mesh HTTP server (mlink_httpd.c): the slot of a connection through writes,
    send failures and the timeout, against the chunked coding of section 7.1 of RFC 9112.
 */
module ChunkedHttp {
  import opened Wrappers

  const CRLF := "\r\n"
  const CHUNK_HEADER :=
    "HTTP/1.1 200 OK\r\nContent-Type: application/http\r\nTransfer-Encoding: chunked\r\n\r\n"
  const CHUNK_FOOTER := "0\r\n\r\n"
  const BAD_REQUEST :=
    "HTTP/1.1 400 Bad Request\r\nContent-Type: application/json\r\nContent-Length: 79\r\n\r\n" +
    "{\"status_code\":-1,\"status_msg\":\"Destination address error, No device response\"}"

  // ---- Hexadecimal sizes ----

  const HEX_DIGITS := "0123456789abcdef"

  function HexDigit(d: nat): (c: char)
    requires d < 16
  {
    HEX_DIGITS[d]
  }

  function DigitValue(c: char): Option<nat> {
    if '0' <= c <= '9' then Some(c as nat - '0' as nat)
    else if 'a' <= c <= 'f' then Some(c as nat - 'a' as nat + 10)
    else if 'A' <= c <= 'F' then Some(c as nat - 'A' as nat + 10)
    else None
  }

  predicate IsHex(c: char) {
    DigitValue(c).Some?
  }

  /** %x. */
  function ToHex(n: nat): (s: string)
    ensures |s| >= 1
  {
    if n < 16 then [HexDigit(n)] else ToHex(n / 16) + [HexDigit(n % 16)]
  }

  function HexValue(s: string): nat
    requires forall i :: 0 <= i < |s| ==> IsHex(s[i])
  {
    if s == [] then 0
    else
      assert IsHex(s[|s| - 1]);
      HexValue(s[..|s| - 1]) * 16 + DigitValue(s[|s| - 1]).value
  }

  lemma DigitRoundTrip(d: nat)
    requires d < 16
    ensures DigitValue(HexDigit(d)) == Some(d)
  {
  }

  lemma {:induction false} HexRoundTrip(n: nat)
    ensures (forall i :: 0 <= i < |ToHex(n)| ==> IsHex(ToHex(n)[i])) && HexValue(ToHex(n)) == n
  {
    DigitRoundTrip(n % 16);
    if n < 16 {
      assert ToHex(n)[..0] == [];
    } else {
      HexRoundTrip(n / 16);
      assert ToHex(n)[..|ToHex(n)| - 1] == ToHex(n / 16);
    }
  }

  // ---- The chunked coding ----

  function Chunk(data: string): string {
    ToHex(|data|) + CRLF + data + CRLF
  }

  function Chunks(replies: seq<string>): string {
    if replies == [] then [] else Chunk(replies[0]) + Chunks(replies[1..])
  }

  function Concat(replies: seq<string>): string {
    if replies == [] then [] else replies[0] + Concat(replies[1..])
  }

  /** The number of hexadecimal digits w starts with. */
  function HexRun(w: string): (k: nat)
    ensures k <= |w| && (forall i :: 0 <= i < k ==> IsHex(w[i])) && (k < |w| ==> !IsHex(w[k]))
  {
    if w != [] && IsHex(w[0]) then 1 + HexRun(w[1..]) else 0
  }

  /** A decoder of the chunked body grammar without extensions or trailers; None for anything else. */
  function Decode(w: string): Option<string>
    decreases |w|
  {
    var k := HexRun(w);
    if k == 0 || !(CRLF <= w[k..]) then None
    else
      var size, rest := HexValue(w[..k]), w[k + 2..];
      if size == 0 then if rest == CRLF then Some([]) else None
      else if size + 2 <= |rest| && rest[size..size + 2] == CRLF then
        match Decode(rest[size + 2..])
        case Some(more) => Some(rest[..size] + more)
        case None => None
      else None
  }

  lemma {:induction false} HexRunOfSize(digits: string, rest: string)
    requires forall i :: 0 <= i < |digits| ==> IsHex(digits[i])
    ensures HexRun(digits + CRLF + rest) == |digits|
  {
    var w := digits + CRLF + rest;
    if digits == [] {
    } else {
      assert w[1..] == digits[1..] + CRLF + rest;
      HexRunOfSize(digits[1..], rest);
    }
  }

  lemma ChunkParts(w: string, k: nat, data: string, rest: string)
    requires k <= |w| && w[k..] == CRLF + (data + (CRLF + rest))
    ensures k + 2 <= |w| && CRLF <= w[k..] && |data| + 2 <= |w[k + 2..]|
    ensures var r := w[k + 2..];
            r[..|data|] == data && r[|data|..|data| + 2] == CRLF && r[|data| + 2..] == rest
  {
    var r := w[k + 2..];
    assert r == w[k..][2..] == data + (CRLF + rest);
  }

  /** One step of the decoder at a chunk whose parts are known. */
  lemma DecodeStep(w: string, k: nat, data: string, rest: string)
    requires HexRun(w) == k && 0 < k && HexValue(w[..k]) == |data| && 0 < |data|
    requires w[k..] == CRLF + (data + (CRLF + rest))
    ensures Decode(w) == match Decode(rest) case Some(more) => Some(data + more) case None => None
  {
    hide HexRun, HexValue;
    ChunkParts(w, k, data, rest);
  }

  lemma Shape(digits: string, data: string, rest: string)
    ensures (digits + CRLF + data + CRLF) + rest == digits + CRLF + (data + (CRLF + rest))
  {
  }

  lemma SizeLine(digits: string, tail: string)
    ensures (digits + CRLF + tail)[..|digits|] == digits && (digits + CRLF + tail)[|digits|..] == CRLF + tail
  {
  }

  lemma DecodeChunk(data: string, rest: string)
    requires data != []
    ensures Decode(Chunk(data) + rest) ==
            match Decode(rest) case Some(more) => Some(data + more) case None => None
  {
    var digits, tail := ToHex(|data|), data + (CRLF + rest);
    var w := digits + CRLF + tail;
    HexRoundTrip(|data|);
    HexRunOfSize(digits, tail);
    SizeLine(digits, tail);
    DecodeStep(w, |digits|, data, rest);
    Shape(digits, data, rest);
  }

  lemma DecodeFooter()
    ensures Decode(CHUNK_FOOTER) == Some([])
  {
    HexRunOfSize("0", CRLF);
    assert CHUNK_FOOTER == "0" + CRLF + CRLF;
    assert CHUNK_FOOTER[..1] == "0" && CHUNK_FOOTER[1..] == CRLF + CRLF && CHUNK_FOOTER[3..] == CRLF;
    assert "0"[..0] == [];
  }

  predicate AllNonempty(replies: seq<string>) {
    forall i :: 0 <= i < |replies| ==> replies[i] != []
  }

  /** A body of nonempty chunks and the final zero chunk decodes to the chunks' data. */
  lemma {:induction false} DecodeChunks(replies: seq<string>)
    requires AllNonempty(replies)
    ensures Decode(Chunks(replies) + CHUNK_FOOTER) == Some(Concat(replies))
  {
    hide Decode, Chunk;
    if replies == [] {
      DecodeFooter();
      assert Chunks(replies) + CHUNK_FOOTER == CHUNK_FOOTER;
    } else {
      DecodeChunks(replies[1..]);
      DecodeChunk(replies[0], Chunks(replies[1..]) + CHUNK_FOOTER);
      Associates(Chunk(replies[0]), Chunks(replies[1..]), CHUNK_FOOTER);
    }
  }

  // ---- One connection ----

  /** The fixed texts a connection may send. */
  datatype Texts = Texts(header: string, footer: string, refusal: string)

  const TEXTS := Texts(CHUNK_HEADER, CHUNK_FOOTER, BAD_REQUEST)

  datatype Flag = NoConn | DataOnly | Header | Body

  /** The slot's flag and remaining replies, and the bytes sent on its socket so far. A send takes the whole
      buffer or fails; a failure closes the socket and frees the slot. */
  datatype Session = Session(flag: Flag, num: nat, wire: string)

  function Closed(s: Session): Session {
    s.(flag := NoConn, num := 0)
  }

  function Send(s: Session, buf: string, ok: bool): Session {
    if ok then s.(wire := s.wire + buf) else Closed(s)
  }

  /** mlink_connection_add for n replies. */
  function Opened(n: nat): Session {
    Session(if n > 1 then Header else DataOnly, n, [])
  }

  /** The answers of the up to four sends of a write: header, size line, reply, footer. */
  datatype Answers = Answers(header: bool, size: bool, reply: bool, footer: bool)

  function SendHeader(t: Texts, s: Session, ok: bool): Session {
    if s.flag != Header then s
    else if ok then Send(s, t.header, ok).(flag := Body)
    else Closed(s)
  }

  function SizeText(reply: string): string {
    ToHex(|reply|) + CRLF
  }

  function SendSize(s: Session, reply: string, ok: bool): Session {
    if s.flag == Body then Send(s, SizeText(reply), ok) else s
  }

  function SendReply(s: Session, reply: string, ok: bool): Session {
    if s.flag == NoConn then s
    else Send(s, if s.flag == Body then reply + CRLF else reply, ok)
  }

  /** The count goes down; the last reply ends the body and frees the slot. */
  function Finish(t: Texts, s: Session, ok: bool): (Session, bool) {
    if s.num > 1 then (s.(num := s.num - 1), true)
    else if s.flag == Body then (Closed(Send(s, t.footer, ok)), ok)
    else (Closed(s), true)
  }

  /** mlink_httpd_write of one reply: the session after it, and whether it returned MDF_OK. */
  function Write(t: Texts, s: Session, reply: string, a: Answers): (Session, bool) {
    if s.flag == NoConn then (s, false)
    else
      var u := SendReply(SendSize(SendHeader(t, s, a.header), reply, a.size), reply, a.reply);
      if u.flag == NoConn then (u, false) else Finish(t, u, a.footer)
  }

  /** mlink_connection_timeout_cb. */
  function Timeout(t: Texts, s: Session, writable: bool, ok: bool): Session {
    if s.flag == NoConn then s
    else Closed(if writable then Send(s, if s.flag == Body then t.footer else t.refusal, ok) else s)
  }

  // ---- What is on the wire ----

  /** A complete response of the given replies. */
  function Message(t: Texts, replies: seq<string>): string {
    (t.header + Chunks(replies)) + t.footer
  }

  /** More bytes can complete w to a well-formed response. */
  ghost predicate Completable(t: Texts, w: string) {
    w <= t.refusal || exists replies :: AllNonempty(replies) && w <= Message(t, replies)
  }

  /** While a connection for n > 1 replies is open: what has been sent are exactly the replies accepted. */
  ghost predicate Open(t: Texts, s: Session, n: nat, replies: seq<string>) {
    AllNonempty(replies) && n > 1 &&
    ((s.flag == Header && replies == [] && s.num == n && s.wire == []) ||
     (s.flag == Body && 0 < |replies| < n && s.num == n - |replies| && s.wire == t.header + Chunks(replies)))
  }

  lemma {:induction false} ChunksAppend(replies: seq<string>, more: seq<string>)
    ensures Chunks(replies + more) == Chunks(replies) + Chunks(more)
  {
    if replies == [] {
      assert replies + more == more;
    } else {
      assert (replies + more)[1..] == replies[1..] + more;
      ChunksAppend(replies[1..], more);
    }
  }

  lemma Associates(a: string, b: string, c: string)
    ensures a + (b + c) == (a + b) + c
  {
  }

  lemma OneChunk(reply: string)
    ensures Chunks([reply]) == SizeText(reply) + (reply + CRLF)
  {
    assert Chunks([reply]) == Chunk(reply) + Chunks([]);
  }

  /** One more chunk on the wire, in the two sends that carry it. */
  lemma ChunkOnWire(t: Texts, replies: seq<string>, reply: string)
    ensures t.header + Chunks(replies + [reply]) == ((t.header + Chunks(replies)) + SizeText(reply)) + (reply + CRLF)
  {
    hide *;
    ChunksAppend(replies, [reply]);
    OneChunk(reply);
    Associates(t.header, Chunks(replies), SizeText(reply) + (reply + CRLF));
    Associates(t.header + Chunks(replies), SizeText(reply), reply + CRLF);
  }

  lemma CompletableBy(t: Texts, w: string, tail: string, replies: seq<string>)
    requires AllNonempty(replies) && w + tail == Message(t, replies)
    ensures Completable(t, w)
  {
    assert w <= w + tail;
  }

  /** Every stage of sending one more chunk leaves a prefix of a well-formed response. */
  lemma StagesCompletable(t: Texts, replies: seq<string>, reply: string)
    requires AllNonempty(replies) && reply != []
    ensures Completable(t, t.header + Chunks(replies))
    ensures Completable(t, (t.header + Chunks(replies)) + SizeText(reply))
    ensures Completable(t, t.header + Chunks(replies + [reply]))
    ensures Completable(t, Message(t, replies + [reply]))
  {
    var w := t.header + Chunks(replies);
    var all := replies + [reply];
    CompletableBy(t, w, t.footer, replies);
    ChunkOnWire(t, replies, reply);
    Associates(w + SizeText(reply), reply + CRLF, t.footer);
    CompletableBy(t, w + SizeText(reply), (reply + CRLF) + t.footer, all);
    CompletableBy(t, t.header + Chunks(all), t.footer, all);
    assert Message(t, all) <= Message(t, all);
  }

  /** What the first three sends of a write leave: the whole chunk out, or a closed connection. */
  lemma SendStages(t: Texts, s: Session, n: nat, replies: seq<string>, reply: string, a: Answers)
    requires Open(t, s, n, replies) && reply != []
    ensures var u := SendReply(SendSize(SendHeader(t, s, a.header), reply, a.size), reply, a.reply);
            Completable(t, u.wire) &&
            if (s.flag == Header ==> a.header) && a.size && a.reply
            then u == Session(Body, s.num, t.header + Chunks(replies + [reply]))
            else u.flag == NoConn
  {
    StagesCompletable(t, replies, reply);
    ChunkOnWire(t, replies, reply);
    assert [] <= t.refusal;
    if s.flag == Header {
      assert Chunks([]) == [] && [] + t.header == t.header == t.header + Chunks([]);
    }
  }

  /** Every send that a write makes succeeds; last says that the reply is the last one. */
  predicate AllSent(s: Session, a: Answers, last: bool) {
    (s.flag == Header ==> a.header) && a.size && a.reply && (last ==> a.footer)
  }

  /** A write on an open connection either gets the whole chunk out or closes the connection at a
      completable prefix; the last reply also ends the body and frees the slot. It is accepted exactly when
      all its sends succeed. */
  lemma WriteStages(t: Texts, s: Session, n: nat, replies: seq<string>, reply: string, a: Answers)
    requires Open(t, s, n, replies) && reply != []
    ensures var (s', ok) := Write(t, s, reply, a); var all := replies + [reply];
            Completable(t, s'.wire) && (ok <==> AllSent(s, a, |all| == n)) &&
            if !ok then s'.flag == NoConn
            else if |all| < n then Open(t, s', n, all)
            else s'.flag == NoConn && s'.wire == Message(t, all)
  {
    SendStages(t, s, n, replies, reply, a);
    StagesCompletable(t, replies, reply);
  }

  // ---- Runs of one connection ----

  datatype Event = Respond(reply: string, answers: Answers) | Expire(writable: bool, ok: bool)

  /** A session and the replies whose writes have returned MDF_OK. */
  datatype Progress = Progress(session: Session, accepted: seq<string>)

  function Next(t: Texts, p: Progress, e: Event): Progress {
    match e
    case Respond(reply, a) =>
      var (s, ok) := Write(t, p.session, reply, a);
      Progress(s, if ok then p.accepted + [reply] else p.accepted)
    case Expire(writable, ok) => Progress(Timeout(t, p.session, writable, ok), p.accepted)
  }

  function Run(t: Texts, p: Progress, es: seq<Event>): Progress
    decreases |es|
  {
    if es == [] then p else Run(t, Next(t, p, es[0]), es[1..])
  }

  ghost predicate ProgressInv(t: Texts, n: nat, p: Progress) {
    Completable(t, p.session.wire) &&
    (Open(t, p.session, n, p.accepted) ||
     (p.session.flag == NoConn && AllNonempty(p.accepted) && |p.accepted| <= n &&
      (|p.accepted| == n ==> p.session.wire == Message(t, p.accepted))))
  }

  /** The timeout ends an open body or, before any reply, sends only the refusal; it closes in any case. */
  lemma TimeoutEnds(t: Texts, s: Session, n: nat, replies: seq<string>, writable: bool, ok: bool)
    requires Open(t, s, n, replies)
    ensures var s' := Timeout(t, s, writable, ok);
            s'.flag == NoConn && Completable(t, s'.wire) &&
            s'.wire == if !writable || !ok then s.wire
                       else if replies == [] then t.refusal else Message(t, replies)
  {
    CompletableBy(t, t.header + Chunks(replies), t.footer, replies);
    assert Message(t, replies) + [] == Message(t, replies);
    CompletableBy(t, Message(t, replies), [], replies);
    assert [] + t.refusal == t.refusal;
    if s.flag == Body {
      assert replies != [];
    }
  }

  lemma NextKeepsInv(t: Texts, n: nat, p: Progress, e: Event)
    requires ProgressInv(t, n, p) && (e.Respond? ==> e.reply != [])
    ensures ProgressInv(t, n, Next(t, p, e))
  {
    if p.session.flag != NoConn {
      match e
      case Respond(reply, a) => WriteStages(t, p.session, n, p.accepted, reply, a);
      case Expire(writable, ok) => TimeoutEnds(t, p.session, n, p.accepted, writable, ok);
    }
  }

  /** Over any interleaving of writes, send failures and timeouts, what has been sent can always be completed
      to a well-formed response, and n successful writes send exactly their response and free the slot. */
  lemma {:induction false} RunIsWellFormed(t: Texts, n: nat, p: Progress, es: seq<Event>)
    requires ProgressInv(t, n, p) && forall i :: 0 <= i < |es| ==> (es[i].Respond? ==> es[i].reply != [])
    ensures ProgressInv(t, n, Run(t, p, es))
    decreases |es|
  {
    if es == [] {
    } else {
      NextKeepsInv(t, n, p, es[0]);
      RunIsWellFormed(t, n, Next(t, p, es[0]), es[1..]);
    }
  }

  /** A connection added for n > 1 replies, after any run in which n writes succeed: the bytes sent are the
      chunked header and a body that decodes to the replies in order. */
  lemma ResponseDecodes(n: nat, es: seq<Event>)
    requires n > 1 && forall i :: 0 <= i < |es| ==> (es[i].Respond? ==> es[i].reply != [])
    ensures var p := Run(TEXTS, Progress(Opened(n), []), es);
            |p.accepted| == n ==>
              p.session.flag == NoConn && CHUNK_HEADER <= p.session.wire &&
              Decode(p.session.wire[|CHUNK_HEADER|..]) == Some(Concat(p.accepted))
  {
    var p0, p := Progress(Opened(n), []), Run(TEXTS, Progress(Opened(n), []), es);
    assert Open(TEXTS, p0.session, n, []);
    RunIsWellFormed(TEXTS, n, p0, es);
    if |p.accepted| == n {
      DecodeChunks(p.accepted);
      Associates(TEXTS.header, Chunks(p.accepted), TEXTS.footer);
      AfterPrefix(TEXTS.header, Chunks(p.accepted) + TEXTS.footer);
    }
  }

  lemma AfterPrefix(a: string, b: string)
    ensures a <= a + b && (a + b)[|a|..] == b
  {
  }

  /** As long as all sends succeed and no timeout falls, every write is accepted. */
  lemma {:induction false} AllAccepted(t: Texts, n: nat, p: Progress, replies: seq<string>)
    requires AllNonempty(replies) && Open(t, p.session, n, p.accepted) && |p.accepted| + |replies| <= n
    ensures Run(t, p, Successes(replies)).accepted == p.accepted + replies
    decreases |replies|
  {
    if replies == [] {
      assert p.accepted + replies == p.accepted;
    } else {
      var e := Respond(replies[0], Answers(true, true, true, true));
      WriteStages(t, p.session, n, p.accepted, replies[0], e.answers);
      var p1 := Next(t, p, e);
      assert Successes(replies)[1..] == Successes(replies[1..]);
      assert (p.accepted + [replies[0]]) + replies[1..] == p.accepted + replies;
      if |p1.accepted| < n {
        AllAccepted(t, n, p1, replies[1..]);
      }
    }
  }

  function Successes(replies: seq<string>): (es: seq<Event>)
    ensures |es| == |replies|
  {
    seq(|replies|, i requires 0 <= i < |replies| => Respond(replies[i], Answers(true, true, true, true)))
  }

  /** So a connection added for n > 1 replies gets them all across. */
  lemma AllRepliesDecode(replies: seq<string>)
    requires AllNonempty(replies) && |replies| > 1
    ensures var wire := Run(TEXTS, Progress(Opened(|replies|), []), Successes(replies)).session.wire;
            CHUNK_HEADER <= wire && Decode(wire[|CHUNK_HEADER|..]) == Some(Concat(replies))
  {
    hide Decode, Run, Concat, Successes;
    var n := |replies|;
    var p0 := Progress(Opened(n), []);
    StartsOpen(n);
    AllAccepted(TEXTS, n, p0, replies);
    assert [] + replies == replies;
    SuccessesRespond(replies);
    ResponseDecodes(n, Successes(replies));
  }

  lemma StartsOpen(n: nat)
    requires n > 1
    ensures Open(TEXTS, Opened(n), n, [])
  {
  }

  lemma SuccessesRespond(replies: seq<string>)
    requires AllNonempty(replies)
    ensures forall i :: 0 <= i < |replies| ==> var e := Successes(replies)[i]; e.Respond? && e.reply != []
  {
  }

  // ---- A single reply ----

  lemma {:induction false} ClosedStays(t: Texts, p: Progress, es: seq<Event>)
    requires p.session.flag == NoConn
    ensures Run(t, p, es) == p
    decreases |es|
  {
    if es == [] {
    } else {
      ClosedStays(t, Next(t, p, es[0]), es[1..]);
    }
  }

  /** A connection added for one reply: the first write is accepted exactly when the reply goes out, and then
      the bytes sent are exactly the reply; a timeout before it leaves exactly the refusal, or nothing when the
      socket does not take it. In any case the slot is free, and nothing more is sent. */
  lemma SingleReply(es: seq<Event>)
    requires es != []
    ensures var p := Run(TEXTS, Progress(Opened(1), []), es);
            p.session.flag == NoConn && p.session.num == 0 &&
            match es[0]
            case Respond(reply, a) =>
              p.accepted == (if a.reply then [reply] else []) && p.session.wire == if a.reply then reply else []
            case Expire(writable, ok) =>
              p.accepted == [] && p.session.wire == if writable && ok then BAD_REQUEST else []
  {
    var p0 := Progress(Opened(1), []);
    assert forall w: string :: [] + w == w;
    ClosedStays(TEXTS, Next(TEXTS, p0, es[0]), es[1..]);
  }

  // ---- The connection table ----

  datatype Slot = Slot(flag: Flag, num: nat, sockfd: nat)

  class HttpServer {
    /** g_conn_list, and the bytes sent on each socket since it was opened. */
    const conns: array<Slot>
    var wires: map<nat, string>

    /** Open connections have different sockets. */
    ghost predicate Valid()
      reads this, conns
    {
      (forall i :: 0 <= i < conns.Length ==> (conns[i].flag == NoConn ==> conns[i].num == 0)) &&
      (forall i, j :: 0 <= i < j < conns.Length && conns[i].flag != NoConn && conns[j].flag != NoConn ==>
         conns[i].sockfd != conns[j].sockfd)
    }

    function Wire(sockfd: nat): string
      reads this
    {
      if sockfd in wires then wires[sockfd] else []
    }

    predicate IsOpen(i: nat, sockfd: nat)
      reads this, conns
    {
      i < conns.Length && conns[i].flag != NoConn && conns[i].sockfd == sockfd
    }

    /** The session that uses slot i and socket sockfd. */
    function At(i: nat, sockfd: nat): Session
      requires i < conns.Length
      reads this, conns
    {
      Session(conns[i].flag, conns[i].num, Wire(sockfd))
    }

    /** Nothing but slot i and socket sockfd has changed, and slot i is still the socket's or free. */
    twostate predicate OnlyAt(i: nat, sockfd: nat)
      requires i < conns.Length
      reads this, conns
    {
      (forall j :: 0 <= j < conns.Length && j != i ==> conns[j] == old(conns[j])) &&
      (forall fd: nat :: fd != sockfd ==> Wire(fd) == old(Wire(fd))) &&
      (conns[i].flag != NoConn ==> conns[i].sockfd == sockfd)
    }

    constructor (size: nat)
      ensures Valid() && fresh(conns) && conns.Length == size && wires == map[]
      ensures forall i: nat, fd: nat :: !IsOpen(i, fd)
    {
      conns := new Slot[size](_ => Slot(NoConn, 0, 0));
      wires := map[];
    }

    /** mlink_connection_find: the slot of a socket, or the table size when there is none. */
    method Find(sockfd: nat) returns (i: nat)
      ensures i <= conns.Length
      ensures i < conns.Length ==> IsOpen(i, sockfd)
      ensures i == conns.Length ==> forall j: nat :: !IsOpen(j, sockfd)
    {
      i := 0;
      while i < conns.Length
        invariant i <= conns.Length && forall j: nat :: j < i ==> !IsOpen(j, sockfd)
      {
        if conns[i].sockfd == sockfd && conns[i].flag != NoConn {
          return i;
        }
        i := i + 1;
      }
    }

    /** mlink_connection_add on a socket just accepted: the first free slot. */
    method Add(sockfd: nat, n: nat) returns (ok: bool, i: nat)
      requires Valid() && n > 0 && forall j: nat :: !IsOpen(j, sockfd)
      modifies this`wires, conns
      ensures Valid() && ok == (i < conns.Length)
      ensures ok ==> old(conns[i].flag) == NoConn && At(i, sockfd) == Opened(n) && OnlyAt(i, sockfd)
      ensures !ok ==> forall j :: 0 <= j < conns.Length ==> conns[j] == old(conns[j]) && conns[j].flag != NoConn
    {
      i := 0;
      while i < conns.Length && conns[i].flag != NoConn
        invariant i <= conns.Length && forall j :: 0 <= j < i ==> conns[j].flag != NoConn
        invariant forall j :: 0 <= j < conns.Length ==> conns[j] == old(conns[j])
        invariant wires == old(wires)
      {
        i := i + 1;
      }
      ok := i < conns.Length;
      if ok {
        forall j | 0 <= j < conns.Length && conns[j].flag != NoConn ensures conns[j].sockfd != sockfd {
          assert !old(IsOpen(j, sockfd));
        }
        conns[i] := Slot(if n > 1 then Header else DataOnly, n, sockfd);
        wires := wires[sockfd := []];
      }
    }

    /** httpd_default_send: a failure looks the socket up again and frees its slot. */
    method SendBuf(i: nat, sockfd: nat, buf: string, ok: bool)
      requires Valid() && IsOpen(i, sockfd)
      modifies this`wires, conns
      ensures Valid() && OnlyAt(i, sockfd)
      ensures At(i, sockfd) == Send(old(At(i, sockfd)), buf, ok)
    {
      if ok {
        wires := wires[sockfd := Wire(sockfd) + buf];
      } else {
        var j := Find(sockfd);
        assert IsOpen(i, sockfd);
        conns[j] := Slot(NoConn, 0, 0);
      }
    }

    /** The chunked header before the first reply. */
    method HeaderAt(i: nat, sockfd: nat, ok: bool)
      requires Valid() && IsOpen(i, sockfd)
      modifies this`wires, conns
      ensures Valid() && OnlyAt(i, sockfd)
      ensures At(i, sockfd) == SendHeader(TEXTS, old(At(i, sockfd)), ok)
    {
      if conns[i].flag == Header {
        SendBuf(i, sockfd, TEXTS.header, ok);
        if ok {
          conns[i] := conns[i].(flag := Body);
        }
      }
    }

    /** The size line and the reply; true when both went out. */
    method ReplyAt(i: nat, sockfd: nat, reply: string, a: Answers) returns (ok: bool)
      requires Valid() && IsOpen(i, sockfd)
      modifies this`wires, conns
      ensures Valid() && OnlyAt(i, sockfd) && (ok <==> IsOpen(i, sockfd))
      ensures At(i, sockfd) == SendReply(SendSize(old(At(i, sockfd)), reply, a.size), reply, a.reply)
    {
      var data := reply;
      if conns[i].flag == Body {
        SendBuf(i, sockfd, SizeText(reply), a.size);
        if !a.size {
          return false;
        }
        data := reply + CRLF;
      }
      SendBuf(i, sockfd, data, a.reply);
      ok := a.reply;
    }

    /** The count, and after the last reply the footer and the slot. */
    method FinishAt(i: nat, sockfd: nat, footer: bool) returns (ok: bool)
      requires Valid() && IsOpen(i, sockfd) && conns[i].num > 0
      modifies this`wires, conns
      ensures Valid() && OnlyAt(i, sockfd)
      ensures (At(i, sockfd), ok) == Finish(TEXTS, old(At(i, sockfd)), footer)
    {
      conns[i] := conns[i].(num := conns[i].num - 1);
      if conns[i].num > 0 {
        return true;
      }
      if conns[i].flag == Body {
        SendBuf(i, sockfd, TEXTS.footer, footer);
        if !footer {
          return false;
        }
      }
      conns[i] := Slot(NoConn, 0, 0);
      ok := true;
    }

    /** The sends of mlink_httpd_write on the slot found. */
    method WriteAt(i: nat, sockfd: nat, reply: string, a: Answers) returns (ok: bool)
      requires Valid() && IsOpen(i, sockfd) && conns[i].num > 0
      modifies this`wires, conns
      ensures Valid() && OnlyAt(i, sockfd)
      ensures (At(i, sockfd), ok) == Write(TEXTS, old(At(i, sockfd)), reply, a)
    {
      HeaderAt(i, sockfd, a.header);
      if conns[i].flag == NoConn {
        return false;
      }
      ok := ReplyAt(i, sockfd, reply, a);
      if ok {
        ok := FinishAt(i, sockfd, a.footer);
      }
    }

    /** mlink_httpd_write. */
    method Respond(sockfd: nat, reply: string, a: Answers) returns (ok: bool, i: nat)
      requires Valid() && forall j: nat :: IsOpen(j, sockfd) ==> conns[j].num > 0
      modifies this`wires, conns
      ensures Valid() && i <= conns.Length
      ensures i < conns.Length ==> old(IsOpen(i, sockfd)) && OnlyAt(i, sockfd)
      ensures i < conns.Length ==> (At(i, sockfd), ok) == Write(TEXTS, old(At(i, sockfd)), reply, a)
      ensures i == conns.Length ==>
                !ok && wires == old(wires) && forall j :: 0 <= j < conns.Length ==> conns[j] == old(conns[j])
    {
      i := Find(sockfd);
      if i == conns.Length {
        return false, i;
      }
      ok := WriteAt(i, sockfd, reply, a);
    }

    /** mlink_connection_timeout_cb of slot i. */
    method TimeoutAt(i: nat, sockfd: nat, writable: bool, ok: bool)
      requires Valid() && IsOpen(i, sockfd)
      modifies this`wires, conns
      ensures Valid() && OnlyAt(i, sockfd)
      ensures At(i, sockfd) == Timeout(TEXTS, old(At(i, sockfd)), writable, ok)
    {
      var last := if conns[i].flag == Body then TEXTS.footer else TEXTS.refusal;
      conns[i] := conns[i].(flag := DataOnly);
      if writable {
        SendBuf(i, sockfd, last, ok);
      }
      conns[i] := Slot(NoConn, 0, 0);
    }
  }
}
