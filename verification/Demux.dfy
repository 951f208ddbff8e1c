/** What the demultiplexer of `scamp/connection.go` does to a whole stream of packets, however the
    packets of different messages are interleaved. The reference is the stream itself: the packets that
    carry a message's number, from its header on. */
module Demux {
  import opened Text
  import PacketHeader
  import opened Packet
  import opened Message
  import opened Connection

  /** Routing packets in order until one is refused; the state reached and the refusal. */
  function RouteUntil(c: Conn, ps: seq<Packet>): (Conn, Option<RouteError>)
    decreases |ps|
  {
    if ps == [] then (c, None)
    else
      match Route(c, ps[0])
      case Success(c') => RouteUntil(c', ps[1..])
      case Failure(e) => (c, Some(e))
  }

  /** The state after all of the packets, if none is refused. */
  function RouteAll(c: Conn, ps: seq<Packet>): Result<Conn, RouteError> {
    var (c', e) := RouteUntil(c, ps);
    if e.None? then Success(c') else Failure(e.value)
  }

  lemma {:induction false} RouteUntilConcat(c: Conn, a: seq<Packet>, b: seq<Packet>)
    ensures RouteUntil(c, a + b)
         == if RouteUntil(c, a).1.None? then RouteUntil(RouteUntil(c, a).0, b) else RouteUntil(c, a)
    decreases |a|
  {
    if a == [] {
      assert a + b == b;
    } else {
      assert (a + b)[0] == a[0];
      Tail(a, b);
      match Route(c, a[0]) {
        case Success(c') => RouteUntilConcat(c', a[1..], b);
        case Failure(_) =>
      }
    }
  }

  lemma RouteAllSnoc(c: Conn, ps: seq<Packet>, p: Packet)
    ensures RouteAll(c, ps + [p])
         == match RouteAll(c, ps) case Success(c') => Route(c', p) case Failure(e) => Failure(e)
  {
    RouteUntilConcat(c, ps, [p]);
  }

  lemma RouteAllLast(c: Conn, ps: seq<Packet>)
    requires ps != []
    ensures RouteAll(c, ps)
         == match RouteAll(c, ps[..|ps| - 1]) case Success(c') => Route(c', ps[|ps| - 1]) case Failure(e) => Failure(e)
  {
    InitLast(ps);
    RouteAllSnoc(c, ps[..|ps| - 1], ps[|ps| - 1]);
  }

  // ---------- the reference: filtering the stream by message number ----------

  /** The packets about message number `n`. */
  function Substream(ps: seq<Packet>, n: uint64): seq<Packet> {
    if ps == [] then []
    else
      var init, p := Substream(ps[..|ps| - 1], n), ps[|ps| - 1];
      if p.kind != ACK && p.msgNo == n then init + [p] else init
  }

  function LastHeader(qs: seq<Packet>): (i: int)
    ensures -1 <= i < |qs|
    ensures i >= 0 ==> qs[i].kind == HEADER
    ensures forall j | i < j < |qs| :: qs[j].kind != HEADER
  {
    if qs == [] then -1
    else if qs[|qs| - 1].kind == HEADER then |qs| - 1
    else LastHeader(qs[..|qs| - 1])
  }

  /** From the last header on. */
  function FromHeader(qs: seq<Packet>): seq<Packet> { if LastHeader(qs) < 0 then [] else qs[LastHeader(qs)..] }

  /** The packets of the latest message with this number: everything from its header on. */
  function Thread(ps: seq<Packet>, n: uint64): (thread: seq<Packet>)
    ensures thread != [] ==> thread[0].kind == HEADER
  {
    FromHeader(Substream(ps, n))
  }

  predicate Closing(p: Packet) { p.kind == EOF || p.kind == TXERR }

  /** A message that has started and not ended. */
  predicate Unfinished(thread: seq<Packet>) {
    thread != [] && thread[0].kind == HEADER && forall i | 1 <= i < |thread| :: thread[i].kind == DATA
  }

  /** The packets of a thread that carry its body: the data, and the text of a final error. */
  function Payload(thread: seq<Packet>): seq<Packet>
    requires thread != []
  {
    if |thread| > 1 && thread[|thread| - 1].kind == EOF then thread[1..|thread| - 1] else thread[1..]
  }

  function Bodies(ps: seq<Packet>): (r: seq<Bytes>)
    ensures |r| == |ps| && forall i | 0 <= i < |r| :: r[i] == ps[i].body
  {
    seq(|ps|, i requires 0 <= i < |ps| => ps[i].body)
  }

  /** The error of a message: that of its header, unless the thread ends with a TXERR: then its text, or a fixed
      one if it is empty. */
  function ErrorOf(header: PacketHeader.Header, last: Packet): string {
    if last.kind != TXERR then header.error
    else if last.body != [] then last.body
    else "There was an unkown error with the connection"
  }

  /** The fields of the header but for the identifying token, and the error. */
  function Titled(thread: seq<Packet>): Msg
    requires thread != []
  {
    var header := thread[0].header;
    Msg(header.(identifyingToken := "", error := ErrorOf(header, thread[|thread| - 1])), [], 0)
  }

  /** The message with these packets' bodies, in order, and their length. */
  function Filled(m: Msg, payload: seq<Packet>): Msg {
    m.(packets := DataPackets(Bodies(payload)), bytesWritten := |Body(payload)| % TWO_64)
  }

  /** The message a thread stands for, read off the thread: the fields of its header, the error of a final
      TXERR, the bodies in order of arrival and their length. */
  function Assemble(thread: seq<Packet>): Msg
    requires thread != []
  {
    Filled(Titled(thread), Payload(thread))
  }

  /** What a stream of packets has led to: how many headers it had, the messages delivered, and the
      acknowledgements sent. */
  datatype History = History(headers: nat, delivered: seq<Msg>, acks: seq<Ack>)

  /** What one packet adds, where `thread` is the thread of its message up to this packet: the packet that ends
      a message delivers it; every body packet is acknowledged with the bytes received so far. */
  function Extended(h: History, p: Packet, thread: seq<Packet>): History {
    History(
      h.headers + if p.kind == HEADER then 1 else 0,
      h.delivered + if Closing(p) && thread != [] then [Assemble(thread)] else [],
      h.acks + if (p.kind == DATA || p.kind == TXERR) && thread != []
               then [Ack(p.msgNo, |Body(Payload(thread))| % TWO_64)] else [])
  }

  function HistoryOf(ps: seq<Packet>): History {
    if ps == [] then History(0, [], [])
    else Extended(HistoryOf(ps[..|ps| - 1]), ps[|ps| - 1], Thread(ps, ps[|ps| - 1].msgNo))
  }

  // ---------- one more packet ----------

  lemma LastHeaderSnoc(qs: seq<Packet>, p: Packet)
    ensures LastHeader(qs + [p]) == if p.kind == HEADER then |qs| else LastHeader(qs)
  {
    assert (qs + [p])[..|qs|] == qs;
  }

  lemma SubstreamSnoc(ps: seq<Packet>, p: Packet, n: uint64)
    ensures Substream(ps + [p], n) == Substream(ps, n) + if p.kind != ACK && p.msgNo == n then [p] else []
  {
    assert (ps + [p])[..|ps|] == ps;
    assert Substream(ps, n) + [] == Substream(ps, n);
  }

  lemma FromHeaderSnoc(qs: seq<Packet>, p: Packet)
    ensures FromHeader(qs + [p])
         == if p.kind == HEADER then [p] else if FromHeader(qs) == [] then [] else FromHeader(qs) + [p]
  {
    LastHeaderSnoc(qs, p);
    if p.kind == HEADER {
      assert (qs + [p])[|qs|..] == [p];
    } else if LastHeader(qs) >= 0 {
      var i := LastHeader(qs);
      assert (qs + [p])[i..] == qs[i..] + [p];
    }
  }

  lemma ThreadSnoc(ps: seq<Packet>, p: Packet, n: uint64)
    ensures Thread(ps + [p], n) == NextThread(Thread(ps, n), n, p)
  {
    var qs := Substream(ps, n);
    SubstreamSnoc(ps, p, n);
    if p.kind != ACK && p.msgNo == n {
      FromHeaderSnoc(qs, p);
    } else {
      assert qs + [] == qs;
    }
  }

  lemma AssembleHeader(p: Packet)
    requires p.kind == HEADER
    ensures Assemble([p]) == Opened(p.header)
  {
  }

  lemma PayloadSnoc(thread: seq<Packet>, p: Packet)
    requires Unfinished(thread)
    ensures Payload(thread) == thread[1..]
    ensures p.kind == EOF ==> Payload(thread + [p]) == Payload(thread)
    ensures p.kind != EOF ==> Payload(thread + [p]) == Payload(thread) + [p]
  {
    assert (thread + [p])[1..|thread|] == thread[1..];
    assert (thread + [p])[1..] == thread[1..] + [p];
  }

  lemma AssembleEof(thread: seq<Packet>, p: Packet)
    requires Unfinished(thread) && p.kind == EOF
    ensures Assemble(thread + [p]) == Assemble(thread)
  {
    PayloadSnoc(thread, p);
  }

  lemma AssembleBody(thread: seq<Packet>, p: Packet)
    requires Unfinished(thread) && (p.kind == DATA || p.kind == TXERR)
    ensures Assemble(thread + [p])
         == Written(if p.kind == TXERR then WithError(Assemble(thread), p.body) else Assemble(thread), p.body)
    ensures Assemble(thread + [p]).bytesWritten == |Body(Payload(thread + [p]))| % TWO_64
  {
    PayloadSnoc(thread, p);
    TitledSnoc(thread, p);
    FilledSnoc(Titled(thread + [p]), Payload(thread), p);
  }

  lemma TitledSnoc(thread: seq<Packet>, p: Packet)
    requires Unfinished(thread) && (p.kind == DATA || p.kind == TXERR)
    ensures Titled(thread + [p]) == if p.kind == TXERR then WithError(Titled(thread), p.body) else Titled(thread)
  {
    assert (thread + [p])[|thread|] == p && (thread + [p])[0] == thread[0];
    assert ErrorOf(thread[0].header, thread[|thread| - 1]) == thread[0].header.error;
  }

  lemma FilledSnoc(m: Msg, payload: seq<Packet>, p: Packet)
    ensures Filled(m, payload + [p]) == Written(Filled(m, payload), p.body)
  {
    BodySnoc(payload, p);
    AddMod(|Body(payload)|, |p.body|);
    BodiesSnoc(payload, p);
  }

  lemma BodiesSnoc(payload: seq<Packet>, p: Packet)
    ensures DataPackets(Bodies(payload + [p])) == DataPackets(Bodies(payload)) + [DataPacket(p.body)]
  {
  }

  /** The nursery tracks message `n` exactly while its thread is unfinished, and holds what the thread says. */
  predicate EntryAgrees(nursery: map<uint64, Msg>, n: uint64, thread: seq<Packet>) {
    && (n in nursery <==> Unfinished(thread))
    && (n in nursery ==> nursery[n] == Assemble(thread))
  }

  ghost predicate NurseryAgrees(c: Conn, ps: seq<Packet>) {
    forall n: uint64 :: EntryAgrees(c.nursery, n, Thread(ps, n))
  }

  /** The frames of the acknowledgements one after another. */
  function AckFrames(acks: seq<Ack>): Bytes {
    if acks == [] then [] else AckFrames(acks[..|acks| - 1]) + AckFrame(acks[|acks| - 1])
  }

  lemma AckFramesSnoc(acks: seq<Ack>, a: Ack)
    ensures AckFrames(acks + [a]) == AckFrames(acks) + AckFrame(a)
  {
    assert (acks + [a])[..|acks|] == acks;
  }

  /** The counters and logs of a connection that has only read; all it has written is acknowledgements. */
  predicate LogsAgree(c: Conn, h: History) {
    && c.incoming == h.headers % TWO_64 && c.delivered == h.delivered && c.acks == h.acks
    && c.outgoing == 0 && c.wire == AckFrames(h.acks)
  }

  /** The connection holds what the reference says about the packets seen so far. */
  ghost predicate Agrees(c: Conn, ps: seq<Packet>) {
    LogsAgree(c, HistoryOf(ps)) && NurseryAgrees(c, ps)
  }

  /** What the next packet must be for the stream to go on: a header must carry the next number, not
      still in use; a body or an end must belong to an unfinished message. */
  predicate Acceptable(headers: nat, thread: seq<Packet>, p: Packet) {
    match p.kind
    case HEADER => p.msgNo == headers % TWO_64 && !Unfinished(thread)
    case ACK => true
    case _ => Unfinished(thread)
  }

  /** The thread of message `n` after one more packet. */
  function NextThread(thread: seq<Packet>, n: uint64, p: Packet): seq<Packet> {
    if p.kind == ACK || p.msgNo != n then thread
    else if p.kind == HEADER then [p]
    else if thread == [] then []
    else thread + [p]
  }

  lemma OtherEntry(c: Conn, p: Packet, n: uint64, thread: seq<Packet>)
    requires EntryAgrees(c.nursery, n, thread) && Route(c, p).Success?
    requires p.kind == ACK || p.msgNo != n
    ensures EntryAgrees(Route(c, p).value.nursery, n, thread)
  {
  }

  lemma OwnEntry(c: Conn, p: Packet, thread: seq<Packet>)
    requires EntryAgrees(c.nursery, p.msgNo, thread) && Route(c, p).Success? && p.kind != ACK
    ensures EntryAgrees(Route(c, p).value.nursery, p.msgNo, NextThread(thread, p.msgNo, p))
  {
    match p.kind {
      case HEADER => AssembleHeader(p);
      case DATA => AssembleBody(thread, p);
      case EOF => assert !Unfinished(thread + [p]) by { assert (thread + [p])[|thread|] == p; }
      case TXERR => assert !Unfinished(thread + [p]) by { assert (thread + [p])[|thread|] == p; }
    }
  }

  lemma EntryStep(c: Conn, p: Packet, n: uint64, thread: seq<Packet>)
    requires EntryAgrees(c.nursery, n, thread) && Route(c, p).Success?
    ensures EntryAgrees(Route(c, p).value.nursery, n, NextThread(thread, n, p))
  {
    if p.kind == ACK || p.msgNo != n {
      OtherEntry(c, p, n, thread);
    } else {
      OwnEntry(c, p, thread);
    }
  }

  lemma HistorySnoc(ps: seq<Packet>, p: Packet)
    ensures HistoryOf(ps + [p]) == Extended(HistoryOf(ps), p, Thread(ps + [p], p.msgNo))
  {
    assert (ps + [p])[..|ps|] == ps;
  }

  /** What a data packet adds is the acknowledgement of the message assembled so far. */
  lemma DataExtends(h: History, p: Packet, thread: seq<Packet>)
    requires thread != [] && p.kind == DATA
    ensures Extended(h, p, thread)
         == History(h.headers, h.delivered, h.acks + [Ack(p.msgNo, Assemble(thread).bytesWritten)])
  {
    assert h.delivered + [] == h.delivered;
  }

  lemma TxErrExtends(h: History, p: Packet, thread: seq<Packet>)
    requires thread != [] && p.kind == TXERR
    ensures Extended(h, p, thread)
         == History(h.headers, h.delivered + [Assemble(thread)],
                    h.acks + [Ack(p.msgNo, Assemble(thread).bytesWritten)])
  {
  }

  lemma AppendLogs(c: Conn, h: History, n: uint64, body: Bytes, m: Msg)
    requires LogsAgree(c, h) && n in c.nursery && Written(c.nursery[n], body) == m
    ensures LogsAgree(Appended(c, n, body), History(h.headers, h.delivered, h.acks + [Ack(n, m.bytesWritten)]))
  {
    AckFramesSnoc(h.acks, Ack(n, m.bytesWritten));
  }

  lemma FailLogs(c: Conn, h: History, n: uint64, body: Bytes, m: Msg)
    requires LogsAgree(c, h) && n in c.nursery && Written(WithError(c.nursery[n], body), body) == m
    ensures LogsAgree(FailedIn(c, n, body), History(h.headers, h.delivered + [m], h.acks + [Ack(n, m.bytesWritten)]))
  {
    AppendLogs(c.(nursery := c.nursery[n := WithError(c.nursery[n], body)]), h, n, body, m);
  }

  /** The logs agree with the reference after one more packet. */
  predicate LogsFollow(c: Conn, h: History, p: Packet, thread: seq<Packet>) {
    Route(c, p).Success? && LogsAgree(Route(c, p).value, Extended(h, p, NextThread(thread, p.msgNo, p)))
  }

  lemma DataLogs(c: Conn, h: History, p: Packet, thread: seq<Packet>)
    requires LogsAgree(c, h) && EntryAgrees(c.nursery, p.msgNo, thread) && Unfinished(thread) && p.kind == DATA
    ensures LogsFollow(c, h, p, thread)
  {
    AssembleBody(thread, p);
    DataExtends(h, p, thread + [p]);
    AppendLogs(c, h, p.msgNo, p.body, Assemble(thread + [p]));
    assert Route(c, p) == Success(Appended(c, p.msgNo, p.body));
    assert NextThread(thread, p.msgNo, p) == thread + [p];
  }

  lemma TxErrLogs(c: Conn, h: History, p: Packet, thread: seq<Packet>)
    requires LogsAgree(c, h) && EntryAgrees(c.nursery, p.msgNo, thread) && Unfinished(thread) && p.kind == TXERR
    ensures LogsFollow(c, h, p, thread)
  {
    AssembleBody(thread, p);
    TxErrExtends(h, p, thread + [p]);
    FailLogs(c, h, p.msgNo, p.body, Assemble(thread + [p]));
    assert Route(c, p) == Success(FailedIn(c, p.msgNo, p.body));
    assert NextThread(thread, p.msgNo, p) == thread + [p];
  }

  lemma HeaderLogs(c: Conn, h: History, p: Packet, thread: seq<Packet>)
    requires LogsAgree(c, h) && p.kind == HEADER && Route(c, p).Success?
    ensures LogsFollow(c, h, p, thread)
  {
    AddMod(h.headers, 1);
    assert h.delivered + [] == h.delivered && h.acks + [] == h.acks;
  }

  lemma EofLogs(c: Conn, h: History, p: Packet, thread: seq<Packet>)
    requires LogsAgree(c, h) && EntryAgrees(c.nursery, p.msgNo, thread) && Unfinished(thread) && p.kind == EOF
    ensures LogsFollow(c, h, p, thread)
  {
    AssembleEof(thread, p);
    assert h.acks + [] == h.acks;
    assert Route(c, p) == Success(Closed(c, p.msgNo, c.nursery[p.msgNo]));
    assert NextThread(thread, p.msgNo, p) == thread + [p];
  }

  lemma AckLogs(c: Conn, h: History, p: Packet, thread: seq<Packet>)
    requires LogsAgree(c, h) && p.kind == ACK
    ensures LogsFollow(c, h, p, thread)
  {
    assert h.delivered + [] == h.delivered && h.acks + [] == h.acks;
  }

  lemma OnlyOpenRouted(c: Conn, p: Packet, thread: seq<Packet>)
    requires EntryAgrees(c.nursery, p.msgNo, thread) && Route(c, p).Success? && p.kind != HEADER && p.kind != ACK
    ensures Unfinished(thread)
  {
  }

  lemma RouteLogs(c: Conn, h: History, p: Packet, thread: seq<Packet>)
    requires LogsAgree(c, h) && EntryAgrees(c.nursery, p.msgNo, thread) && Route(c, p).Success?
    ensures LogsFollow(c, h, p, thread)
  {
    if p.kind == HEADER {
      HeaderLogs(c, h, p, thread);
    } else if p.kind == ACK {
      AckLogs(c, h, p, thread);
    } else {
      OnlyOpenRouted(c, p, thread);
      if p.kind == DATA {
        DataLogs(c, h, p, thread);
      } else if p.kind == EOF {
        EofLogs(c, h, p, thread);
      } else {
        TxErrLogs(c, h, p, thread);
      }
    }
  }

  lemma RouteIffAcceptable(c: Conn, h: History, p: Packet, thread: seq<Packet>)
    requires LogsAgree(c, h) && EntryAgrees(c.nursery, p.msgNo, thread)
    ensures Route(c, p).Success? <==> Acceptable(h.headers, thread, p)
  {
  }

  lemma AgreesStep(c: Conn, ps: seq<Packet>, p: Packet)
    requires Agrees(c, ps)
    ensures Route(c, p).Success? <==> Acceptable(HistoryOf(ps).headers, Thread(ps, p.msgNo), p)
    ensures Route(c, p).Success? ==> Agrees(Route(c, p).value, ps + [p])
  {
    assert EntryAgrees(c.nursery, p.msgNo, Thread(ps, p.msgNo));
    RouteIffAcceptable(c, HistoryOf(ps), p, Thread(ps, p.msgNo));
    if Route(c, p).Success? {
      ThreadSnoc(ps, p, p.msgNo);
      HistorySnoc(ps, p);
      RouteLogs(c, HistoryOf(ps), p, Thread(ps, p.msgNo));
      forall n: uint64 ensures EntryAgrees(Route(c, p).value.nursery, n, Thread(ps + [p], n)) {
        assert EntryAgrees(c.nursery, n, Thread(ps, n));
        ThreadSnoc(ps, p, n);
        EntryStep(c, p, n, Thread(ps, n));
      }
    }
  }

  // ---------- the theorems ----------

  /** A stream that is accepted to its end leaves exactly what filtering it by message number gives:
      each message delivered has the fields of its header and the bodies that carried its number, in the
      order of arrival; deliveries follow the packets that end messages; the nursery holds the messages
      still arriving; every body packet was acknowledged with its message's length so far. */
  lemma {:induction false} Demultiplexes(ps: seq<Packet>)
    requires RouteAll(FRESH, ps).Success?
    ensures Agrees(RouteAll(FRESH, ps).value, ps)
  {
    if ps != [] {
      var init := ps[..|ps| - 1];
      InitLast(ps);
      RouteAllLast(FRESH, ps);
      Demultiplexes(init);
      AgreesStep(RouteAll(FRESH, init).value, init, ps[|ps| - 1]);
    }
  }

  /** Every packet was acceptable after the ones before it. */
  predicate InOrder(ps: seq<Packet>) {
    ps == []
    || var init, p := ps[..|ps| - 1], ps[|ps| - 1];
       InOrder(init) && Acceptable(HistoryOf(init).headers, Thread(init, p.msgNo), p)
  }

  /** Exactly which streams are accepted. */
  lemma {:induction false} AcceptedIff(ps: seq<Packet>)
    ensures RouteAll(FRESH, ps).Success? <==> InOrder(ps)
  {
    if ps != [] {
      var init := ps[..|ps| - 1];
      AcceptedIff(init);
      RouteAllLast(FRESH, ps);
      if RouteAll(FRESH, init).Success? {
        Demultiplexes(init);
        AgreesStep(RouteAll(FRESH, init).value, init, ps[|ps| - 1]);
      }
    }
  }

  /** The message that an EOF or a TXERR ends: the fields its header was opened with, the text of the TXERR, if
      it is one, as its error, and the bodies that came in between, a TXERR's own last. */
  lemma EndedMessage(thread: seq<Packet>, p: Packet)
    requires Unfinished(thread) && Closing(p)
    ensures Assemble(thread + [p]).head
         == thread[0].header.(
              identifyingToken := "",
              error := if p.kind == EOF then thread[0].header.error
                       else if p.body != [] then p.body
                       else "There was an unkown error with the connection")
    ensures Body(Assemble(thread + [p]).packets) == Body(thread[1..]) + if p.kind == TXERR then p.body else []
  {
    assert (thread + [p])[|thread|] == p && (thread + [p])[0] == thread[0];
    PayloadSnoc(thread, p);
    AssembledBody(thread + [p]);
    if p.kind == TXERR { BodySnoc(thread[1..], p); }
  }

  lemma EndingRouted(c: Conn, h: History, p: Packet, thread: seq<Packet>)
    requires LogsAgree(c, h) && EntryAgrees(c.nursery, p.msgNo, thread) && Closing(p) && Unfinished(thread)
    ensures Route(c, p).Success? && Route(c, p).value.delivered == c.delivered + [Assemble(thread + [p])]
  {
    RouteIffAcceptable(c, h, p, thread);
    RouteLogs(c, h, p, thread);
  }

  /** In any accepted stream the packet that ends a message is accepted too and delivers the message. */
  lemma EndingDelivers(ps: seq<Packet>, p: Packet, thread: seq<Packet>)
    requires RouteAll(FRESH, ps).Success? && Closing(p) && thread == Thread(ps, p.msgNo) && Unfinished(thread)
    ensures RouteAll(FRESH, ps + [p]).Success?
    ensures RouteAll(FRESH, ps + [p]).value.delivered == RouteAll(FRESH, ps).value.delivered + [Assemble(thread + [p])]
  {
    var c := RouteAll(FRESH, ps).value;
    Demultiplexes(ps);
    RouteAllSnoc(FRESH, ps, p);
    assert EntryAgrees(c.nursery, p.msgNo, Thread(ps, p.msgNo));
    EndingRouted(c, HistoryOf(ps), p, thread);
  }

  /** Why a packet is refused: a header for not carrying the next number, or for a number still in use; a body or
      an end for a number that no open message has. */
  predicate Refusal(r: Option<RouteError>, p: Packet, expected: uint64, open: bool) {
    && (r == Some(OutOfSequence) <==> p.kind == HEADER && p.msgNo != expected)
    && (r == Some(AlreadyTracking) <==> p.kind == HEADER && p.msgNo == expected && open)
    && (r == Some(NotTracking) <==> p.kind in {DATA, EOF, TXERR} && !open)
  }

  lemma RouteRefuses(c: Conn, h: History, p: Packet, thread: seq<Packet>)
    requires LogsAgree(c, h) && EntryAgrees(c.nursery, p.msgNo, thread)
    ensures Refusal(if Route(c, p).Failure? then Some(Route(c, p).error) else None, p, h.headers % TWO_64,
                    Unfinished(thread))
  {
  }

  /** Why a packet is refused after any accepted stream, told from the stream alone. */
  lemma RefusedBecause(ps: seq<Packet>, p: Packet)
    requires RouteAll(FRESH, ps).Success?
    ensures Refusal(RouteUntil(FRESH, ps + [p]).1, p, HistoryOf(ps).headers % TWO_64, Unfinished(Thread(ps, p.msgNo)))
  {
    var c := RouteAll(FRESH, ps).value;
    Demultiplexes(ps);
    RouteAllSnoc(FRESH, ps, p);
    assert EntryAgrees(c.nursery, p.msgNo, Thread(ps, p.msgNo));
    RouteRefuses(c, HistoryOf(ps), p, Thread(ps, p.msgNo));
  }

  function WithoutAcks(ps: seq<Packet>): seq<Packet> {
    if ps == [] then []
    else
      var init, p := WithoutAcks(ps[..|ps| - 1]), ps[|ps| - 1];
      if p.kind == ACK then init else init + [p]
  }

  /** Acknowledgements in the incoming stream change nothing: not what is delivered, not the state,
      not whether the stream is accepted. */
  lemma {:induction false} AcksIrrelevant(c: Conn, ps: seq<Packet>)
    ensures RouteAll(c, WithoutAcks(ps)) == RouteAll(c, ps)
  {
    if ps != [] {
      var init, p := ps[..|ps| - 1], ps[|ps| - 1];
      AcksIrrelevant(c, init);
      RouteAllLast(c, ps);
      RouteAllSnoc(c, WithoutAcks(init), p);
    }
  }

  /** The body of an assembled message is the concatenation of the bodies of its thread. */
  lemma {:induction false} AssembledBody(thread: seq<Packet>)
    requires thread != []
    ensures Body(Assemble(thread).packets) == Body(Payload(thread))
    ensures WellBuilt(Assemble(thread))
  {
    BodyOfBodies(Payload(thread));
  }

  lemma {:induction false} BodyOfBodies(ps: seq<Packet>)
    ensures Body(DataPackets(Bodies(ps))) == Body(ps)
  {
    if ps != [] {
      var init := ps[..|ps| - 1];
      BodyOfBodies(init);
      assert DataPackets(Bodies(ps))[..|ps| - 1] == DataPackets(Bodies(init));
    }
  }

  // ---------- message numbers ----------

  /** The numbers of the messages delivered, in order. */
  function ClosedNumbers(ps: seq<Packet>): seq<uint64> {
    if ps == [] then []
    else
      var init, p := ClosedNumbers(ps[..|ps| - 1]), ps[|ps| - 1];
      if Closing(p) then init + [p.msgNo] else init
  }

  /** Below the next number every number is either still open or was delivered exactly once; none at or
      above it is known. */
  predicate Partitioned(c: Conn, headers: nat, closed: seq<uint64>) {
    && |closed| == |c.delivered|
    && (forall i, j | 0 <= i < j < |closed| :: closed[i] != closed[j])
    && (forall n <- closed :: n < headers && n !in c.nursery)
    && (forall n <- c.nursery :: n < headers)
    && (forall n | 0 <= n < headers :: n in c.nursery || n in closed)
  }

  lemma PartitionStep(c: Conn, headers: nat, closed: seq<uint64>, p: Packet)
    requires Partitioned(c, headers, closed) && c.incoming == headers % TWO_64 && Route(c, p).Success?
    requires p.kind == HEADER ==> headers < TWO_64
    ensures Partitioned(Route(c, p).value,
                        headers + if p.kind == HEADER then 1 else 0,
                        closed + if Closing(p) then [p.msgNo] else [])
  {
  }

  lemma ExpectedNumber(ps: seq<Packet>)
    requires RouteAll(FRESH, ps).Success?
    ensures RouteAll(FRESH, ps).value.incoming == HistoryOf(ps).headers % TWO_64
  {
    Demultiplexes(ps);
  }

  /** As long as no number has been used twice, i.e. for up to 2^64 headers, numbers split that way. */
  lemma {:induction false} MsgnoPartition(ps: seq<Packet>)
    requires RouteAll(FRESH, ps).Success? && HistoryOf(ps).headers <= TWO_64
    ensures Partitioned(RouteAll(FRESH, ps).value, HistoryOf(ps).headers, ClosedNumbers(ps))
  {
    if ps != [] {
      var init, p := ps[..|ps| - 1], ps[|ps| - 1];
      RouteAllLast(FRESH, ps);
      MsgnoPartition(init);
      ExpectedNumber(init);
      PartitionStep(RouteAll(FRESH, init).value, HistoryOf(init).headers, ClosedNumbers(init), p);
    }
  }

  /** The check against a header for a message already being tracked never fires before 2^64 headers. */
  lemma AlreadyTrackingUnreachable(ps: seq<Packet>, p: Packet)
    requires RouteAll(FRESH, ps).Success? && HistoryOf(ps).headers < TWO_64
    ensures Route(RouteAll(FRESH, ps).value, p) != Failure(AlreadyTracking)
  {
    MsgnoPartition(ps);
    ExpectedNumber(ps);
    NextNumberUnused(RouteAll(FRESH, ps).value, HistoryOf(ps).headers, ClosedNumbers(ps), p);
  }

  lemma NextNumberUnused(c: Conn, headers: nat, closed: seq<uint64>, p: Packet)
    requires Partitioned(c, headers, closed) && c.incoming == headers % TWO_64 && headers < TWO_64
    ensures Route(c, p) != Failure(AlreadyTracking)
  {
  }

  // ---------- acknowledgements ----------

  lemma NextThreadGrows(early: seq<Packet>, thread: seq<Packet>, n: uint64, p: Packet)
    requires early <= thread && !(p.kind == HEADER && p.msgNo == n)
    ensures early <= NextThread(thread, n, p) || thread == []
    ensures thread == [] ==> NextThread(thread, n, p) == []
  {
    PrefixSnoc(early, thread, p);
  }

  /** Until its number is used again, a message's thread only grows. */
  lemma {:induction false} ThreadGrows(a: seq<Packet>, b: seq<Packet>, n: uint64)
    requires Thread(a, n) != []
    requires forall p <- b :: !(p.kind == HEADER && p.msgNo == n)
    ensures Thread(a, n) <= Thread(a + b, n)
    decreases |b|
  {
    if b == [] {
      assert a + b == a;
    } else {
      var init, p := b[..|b| - 1], b[|b| - 1];
      ThreadGrows(a, init, n);
      InitLast(b);
      Associate(a, init, [p]);
      ThreadSnoc(a + init, p, n);
      NextThreadGrows(Thread(a, n), Thread(a + init, n), n, p);
    }
  }

  lemma {:induction false} BodyPrefix(a: seq<Packet>, b: seq<Packet>)
    requires a <= b
    ensures Body(a) <= Body(b)
    decreases |b|
  {
    if |a| < |b| {
      BodyPrefix(a, b[..|b| - 1]);
    } else {
      assert a == b;
    }
  }

  /** The number of bytes acknowledged when the last packet of `ps` is a body packet of message `n`. */
  function AckCount(ps: seq<Packet>, n: uint64): nat
    requires Thread(ps, n) != []
  {
    |Body(Payload(Thread(ps, n)))|
  }

  lemma LongerPayload(early: seq<Packet>, late: seq<Packet>, p: Packet)
    requires early != [] && early <= late && early[|early| - 1].kind == DATA && p.kind != EOF
    ensures |Body(Payload(early))| + |p.body| <= |Body(Payload(late + [p]))|
  {
    assert (late + [p])[1..] == late[1..] + [p];
    BodySnoc(late[1..], p);
    assert early[1..] <= late[1..];
    BodyPrefix(early[1..], late[1..]);
  }

  /** Of two body packets `p` and `q` of the same message the later one is acknowledged with at least its own
      length more (before reduction to 64 bits), whatever comes between them. */
  lemma AckCountGrows(before: seq<Packet>, p: Packet, between: seq<Packet>, q: Packet, n: uint64)
    requires p.kind == DATA && p.msgNo == n && (q.kind == DATA || q.kind == TXERR) && q.msgNo == n
    requires forall r <- between :: !(r.kind == HEADER && r.msgNo == n)
    requires Thread(before, n) != []
    ensures Thread(before + [p], n) != [] && Thread(before + [p] + between + [q], n) != []
    ensures AckCount(before + [p], n) + |q.body| <= AckCount(before + [p] + between + [q], n)
  {
    ThreadSnoc(before, p, n);
    ThreadGrows(before + [p], between, n);
    ThreadSnoc(before + [p] + between, q, n);
    LongerPayload(Thread(before + [p], n), Thread(before + [p] + between, n), q);
  }

  /** Later acknowledgements of the same number do not count less. */
  predicate NeverDecreasing(acks: seq<Ack>) {
    forall i, j | 0 <= i < j < |acks| && acks[i].msgNo == acks[j].msgNo :: acks[i].count <= acks[j].count
  }

  /** No number is acknowledged before its header, nor beyond what its message has received; nothing exceeds `total`. */
  predicate AcksWithin(c: Conn, headers: nat, total: nat) {
    && NeverDecreasing(c.acks)
    && (forall i | 0 <= i < |c.acks| :: c.acks[i].msgNo < headers)
    && (forall n <- c.nursery :: c.nursery[n].bytesWritten <= total)
    && (forall i | 0 <= i < |c.acks| && c.acks[i].msgNo in c.nursery ::
          c.acks[i].count <= c.nursery[c.acks[i].msgNo].bytesWritten)
  }

  lemma AcksWithinAppend(c: Conn, headers: nat, total: nat, n: uint64, body: Bytes)
    requires AcksWithin(c, headers, total) && n in c.nursery && n < headers && total + |body| < TWO_64
    ensures AcksWithin(Appended(c, n, body), headers, total + |body|)
  {
    var count := c.nursery[n].bytesWritten + |body|;
    assert AddU64(c.nursery[n].bytesWritten, |body|) == count;
    assert Appended(c, n, body).acks == c.acks + [Ack(n, count)];
  }

  lemma AcksWithinClosed(c: Conn, headers: nat, total: nat, n: uint64, m: Msg)
    requires AcksWithin(c, headers, total)
    ensures AcksWithin(Closed(c, n, m), headers, total)
  {
  }

  lemma AcksWithinOpened(c: Conn, headers: nat, total: nat, h: PacketHeader.Header)
    requires AcksWithin(c, headers, total) && c.incoming == headers
    ensures AcksWithin(OpenedIn(c, h), headers + 1, total)
  {
  }

  lemma AcksWithinStep(c: Conn, headers: nat, total: nat, p: Packet)
    requires AcksWithin(c, headers, total) && Route(c, p).Success?
    requires c.incoming == headers % TWO_64 && (forall n <- c.nursery :: n < headers)
    requires p.kind == HEADER ==> headers < TWO_64
    requires total + |p.body| < TWO_64
    ensures AcksWithin(Route(c, p).value, headers + if p.kind == HEADER then 1 else 0, total + |p.body|)
  {
    var n := p.msgNo;
    match p.kind {
      case HEADER => AcksWithinOpened(c, headers, total + |p.body|, p.header);
      case DATA => AcksWithinAppend(c, headers, total, n, p.body);
      case EOF => AcksWithinClosed(c, headers, total + |p.body|, n, c.nursery[n]);
      case TXERR =>
        var c1 := c.(nursery := c.nursery[n := WithError(c.nursery[n], p.body)]);
        assert AcksWithin(c1, headers, total);
        AcksWithinAppend(c1, headers, total, n, p.body);
        var c2 := Appended(c1, n, p.body);
        AcksWithinClosed(c2, headers, total + |p.body|, n, c2.nursery[n]);
      case ACK =>
    }
  }

  /** While no number has been used twice and fewer than 2^64 bytes have been received, the acknowledgements sent
      for a message never decrease. */
  lemma {:induction false} AcksMonotone(ps: seq<Packet>)
    requires RouteAll(FRESH, ps).Success? && HistoryOf(ps).headers <= TWO_64 && |Body(ps)| < TWO_64
    ensures AcksWithin(RouteAll(FRESH, ps).value, HistoryOf(ps).headers, |Body(ps)|)
    ensures NeverDecreasing(RouteAll(FRESH, ps).value.acks)
  {
    if ps != [] {
      var init := ps[..|ps| - 1];
      RouteAllLast(FRESH, ps);
      AcksMonotone(init);
      ExpectedNumber(init);
      MsgnoPartition(init);
      AcksWithinStep(RouteAll(FRESH, init).value, HistoryOf(init).headers, |Body(init)|, ps[|ps| - 1]);
    }
  }

  function LastAck(acks: seq<Ack>, n: uint64): Option<uint64> {
    if acks == [] then None
    else if acks[|acks| - 1].msgNo == n then Some(acks[|acks| - 1].count)
    else LastAck(acks[..|acks| - 1], n)
  }

  /** Every message with a body has last been acknowledged with its length. */
  ghost predicate Acknowledged(c: Conn) {
    forall n: uint64 | n in c.nursery ::
      && WellBuilt(c.nursery[n])
      && (c.nursery[n].packets != [] ==> LastAck(c.acks, n) == Some(c.nursery[n].bytesWritten))
  }

  lemma LastAckSnoc(acks: seq<Ack>, a: Ack, n: uint64)
    ensures LastAck(acks + [a], n) == if a.msgNo == n then Some(a.count) else LastAck(acks, n)
  {
    assert (acks + [a])[..|acks|] == acks;
  }

  lemma AcknowledgedStep(c: Conn, p: Packet)
    requires Acknowledged(c) && Route(c, p).Success?
    ensures Acknowledged(Route(c, p).value)
    ensures Closing(p) ==> LastDeliveredAcked(Route(c, p).value, p.msgNo)
  {
    if p.kind == DATA || p.kind == TXERR {
      var m := if p.kind == TXERR then WithError(c.nursery[p.msgNo], p.body) else c.nursery[p.msgNo];
      WrittenBody(m, p.body);
      var a := Ack(p.msgNo, Written(m, p.body).bytesWritten);
      forall n: uint64 ensures LastAck(c.acks + [a], n) == if a.msgNo == n then Some(a.count) else LastAck(c.acks, n) {
        LastAckSnoc(c.acks, a, n);
      }
    }
  }

  /** The message just delivered as number `n` has its length as byte count, and that length is the last
      acknowledgement for `n`, unless there was no body packet at all. */
  predicate LastDeliveredAcked(c: Conn, n: uint64) {
    && c.delivered != []
    && var m := c.delivered[|c.delivered| - 1];
       WellBuilt(m) && (m.packets != [] ==> LastAck(c.acks, n) == Some(|Body(m.packets)| % TWO_64))
  }

  lemma {:induction false} AlwaysAcknowledged(ps: seq<Packet>)
    requires RouteAll(FRESH, ps).Success?
    ensures Acknowledged(RouteAll(FRESH, ps).value)
  {
    if ps != [] {
      var init := ps[..|ps| - 1];
      RouteAllLast(FRESH, ps);
      AlwaysAcknowledged(init);
      AcknowledgedStep(RouteAll(FRESH, init).value, ps[|ps| - 1]);
    }
  }

  /** In every run, a delivered message with a body was last acknowledged with the length of its `Bytes()`,
      reduced to 64 bits. */
  lemma LastAckIsLength(ps: seq<Packet>)
    requires RouteAll(FRESH, ps).Success? && ps != [] && Closing(ps[|ps| - 1])
    ensures LastDeliveredAcked(RouteAll(FRESH, ps).value, ps[|ps| - 1].msgNo)
  {
    var init := ps[..|ps| - 1];
    RouteAllLast(FRESH, ps);
    AlwaysAcknowledged(init);
    AcknowledgedStep(RouteAll(FRESH, init).value, ps[|ps| - 1]);
  }
}
