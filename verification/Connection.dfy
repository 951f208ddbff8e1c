/** One end of a connection (`scamp/connection.go`): numbering and writing outgoing messages,
    demultiplexing incoming packets, acknowledging what arrived. */
module Connection {
  import opened Text
  import Json
  import opened PacketHeader
  import opened Packet
  import opened Message
  import Channel

  datatype Ack = Ack(msgNo: uint64, count: uint64)

  /** The state of a connection: the number expected next, the messages still arriving, those handed
      up, the number used next, and everything acknowledged and written. */
  datatype Conn = Conn(
    incoming: uint64,
    nursery: map<uint64, Msg>,
    delivered: seq<Msg>,
    outgoing: uint64,
    acks: seq<Ack>,
    wire: Bytes)

  const FRESH := Conn(0, map[], [], 0, [], [])

  datatype RouteError = OutOfSequence | AlreadyTracking | NotTracking

  const UNKNOWN_ERROR: string := "There was an unkown error with the connection"

  /** The message a HEADER opens; the identifying token is not copied. */
  function Opened(h: Header): Msg { Msg(h.(identifyingToken := ""), [], 0) }

  function WithError(m: Msg, body: Bytes): Msg {
    m.(head := m.head.(error := if body != [] then body else UNKNOWN_ERROR))
  }

  function AckPacket(a: Ack): Packet { Packet(ACK, a.msgNo, ZERO_HEADER, Decimal(a.count)) }

  function AckFrame(a: Ack): Bytes { FrameOf(ACK, a.msgNo, Decimal(a.count)) }

  /** `ackBytes`. */
  function Acked(c: Conn, a: Ack): Conn { c.(acks := c.acks + [a], wire := c.wire + AckFrame(a)) }

  function OpenedIn(c: Conn, h: Header): Conn {
    c.(nursery := c.nursery[c.incoming := Opened(h)], incoming := AddU64(c.incoming, 1))
  }

  /** A body packet of a message in the nursery: kept, then acknowledged with the bytes so far. */
  function Appended(c: Conn, n: uint64, body: Bytes): Conn
    requires n in c.nursery
  {
    var m := Written(c.nursery[n], body);
    Acked(c.(nursery := c.nursery[n := m]), Ack(n, m.bytesWritten))
  }

  function Closed(c: Conn, msgNo: uint64, m: Msg): Conn {
    c.(nursery := c.nursery - {msgNo}, delivered := c.delivered + [m])
  }

  /** A transmission error: noted, its text kept as body and acknowledged, the message handed up. */
  function FailedIn(c: Conn, n: uint64, body: Bytes): Conn
    requires n in c.nursery
  {
    var c' := Appended(c.(nursery := c.nursery[n := WithError(c.nursery[n], body)]), n, body);
    Closed(c', n, c'.nursery[n])
  }

  /** `routePacket`. An error leaves the connection as it was. */
  function Route(c: Conn, p: Packet): Result<Conn, RouteError> {
    var n := p.msgNo;
    match p.kind
    case HEADER =>
      if n != c.incoming then Failure(OutOfSequence)
      else if n in c.nursery then Failure(AlreadyTracking)
      else Success(OpenedIn(c, p.header))
    case DATA =>
      if n !in c.nursery then Failure(NotTracking)
      else Success(Appended(c, n, p.body))
    case EOF =>
      if n !in c.nursery then Failure(NotTracking)
      else Success(Closed(c, n, c.nursery[n]))
    case TXERR =>
      if n !in c.nursery then Failure(NotTracking)
      else Success(FailedIn(c, n, p.body))
    case ACK => Success(c)
  }

  datatype Stop = ReadFailed(read: ReadError) | RouteFailed(route: RouteError)

  /** `packetReader`: reads and routes packets until one of the two fails. */
  function Pump(codec: Json.Codec, c: Conn, input: Bytes): (Conn, Stop)
    decreases |input|
  {
    var read := ReadFrame(codec, input);
    if read.Failure? then (c, ReadFailed(read.error))
    else
      var routed := Route(c, read.value.0);
      if routed.Failure? then (c, RouteFailed(routed.error)) else Pump(codec, routed.value, read.value.1)
  }

  /** The frames of the packets one after another, up to the first that cannot be encoded. */
  function Frames(codec: Json.Codec, packets: seq<Packet>): Bytes {
    if packets == [] then []
    else
      match Frame(codec, packets[0])
      case Some(frame) => frame + Frames(codec, packets[1..])
      case None => []
  }

  predicate AllEncode(codec: Json.Codec, packets: seq<Packet>) {
    forall p <- packets :: Frame(codec, p).Some?
  }

  datatype SendOutcome = SendOk | NoRequestID | CannotEncode | AlreadyClosed

  /** `Connection.Send` with a writer that never fails. */
  function Sending(codec: Json.Codec, c: Conn, m: Msg): Conn {
    if m.head.requestID == 0 then c
    else c.(outgoing := AddU64(c.outgoing, 1), wire := c.wire + Frames(codec, ToPackets(m, c.outgoing)))
  }

  /** A closed connection is noticed only after the bytes are written. */
  function Outcome(m: Msg, isClosed: bool): SendOutcome {
    if m.head.requestID == 0 then NoRequestID
    else if !Encodable(m.head) then CannotEncode
    else if isClosed then AlreadyClosed
    else SendOk
  }

  lemma FramesStep(codec: Json.Codec, packets: seq<Packet>, wire: Bytes)
    requires packets != []
    ensures match Frame(codec, packets[0])
            case Some(frame) =>
              && wire + frame + Frames(codec, packets[1..]) == wire + Frames(codec, packets)
              && (AllEncode(codec, packets[1..]) <==> AllEncode(codec, packets))
            case None => wire + Frames(codec, packets) == wire && !AllEncode(codec, packets)
  {
    var frame := Frame(codec, packets[0]);
    assert packets[0] in packets;
    if frame.Some? {
      Associate(wire, frame.value, Frames(codec, packets[1..]));
      assert forall p :: p in packets <==> p == packets[0] || p in packets[1..];
    }
  }

  /** Of the packets of a message only the header can fail to encode; then nothing is written. */
  lemma OnlyHeaderFails(codec: Json.Codec, m: Msg, msgNo: uint64)
    requires WellBuilt(m)
    ensures AllEncode(codec, ToPackets(m, msgNo)) <==> Encodable(m.head)
    ensures !Encodable(m.head) ==> Frames(codec, ToPackets(m, msgNo)) == []
  {
    var packets := ToPackets(m, msgNo);
    HeaderRoundTrip(m.head);
    assert Frame(codec, packets[0]).Some? <==> Encodable(m.head);
    assert packets[0] in packets;
    if Encodable(m.head) {
      forall p | p in packets ensures Frame(codec, p).Some? {
        var i :| 0 <= i < |packets| && packets[i] == p;
        if 0 < i < |packets| - 1 { assert m.packets[i - 1] in m.packets; }
      }
    }
  }

  /** What the answer of `Send` tells is what can be seen of it: without an id no number is taken; a header that
      cannot be encoded takes a number and writes nothing; otherwise the message is written, and the answer is
      the connection's being closed or not. */
  lemma OutcomeShows(codec: Json.Codec, c: Conn, m: Msg, isClosed: bool)
    requires WellBuilt(m)
    ensures var c', r := Sending(codec, c, m), Outcome(m, isClosed);
            && (r == NoRequestID <==> c'.outgoing == c.outgoing)
            && (r == CannotEncode <==> c'.outgoing != c.outgoing && c'.wire == c.wire)
            && (r == AlreadyClosed <==> c'.wire != c.wire && isClosed)
            && (r == SendOk <==> c'.wire != c.wire && !isClosed)
  {
    if m.head.requestID != 0 {
      var packets := ToPackets(m, c.outgoing);
      OnlyHeaderFails(codec, m, c.outgoing);
      NextDiffers(c.outgoing);
      if Encodable(m.head) {
        assert packets[0] in packets;
        assert |Frames(codec, packets)| > 0;
      } else {
        assert c.wire + [] == c.wire;
      }
    }
  }

  lemma NextDiffers(n: uint64)
    ensures AddU64(n, 1) != n
  {
  }

  /** Allocates a message and copies the header fields into it. */
  method NewTracked(header: Header) returns (msg: Message)
    ensures fresh(msg) && msg.Value() == Opened(header)
  {
    msg := new Message();
    msg.action := header.action;
    msg.envelope := header.envelope;
    msg.version := header.version;
    msg.messageType := header.messageType;
    msg.requestID := header.requestID;
    msg.clientID := header.clientID;
    msg.error := header.error;
    msg.errorCode := header.errorCode;
    msg.ticket := header.ticket;
  }

  /** Writes the packets in order until one cannot be encoded. */
  method WriteAll(codec: Json.Codec, packets: seq<Packet>, rw: Stream) returns (ok: bool)
    modifies rw`output
    ensures rw.output == old(rw.output) + Frames(codec, packets)
    ensures ok <==> AllEncode(codec, packets)
  {
    var left := packets;
    while left != []
      invariant rw.output + Frames(codec, left) == old(rw.output) + Frames(codec, packets)
      invariant AllEncode(codec, left) <==> AllEncode(codec, packets)
      decreases |left|
    {
      FramesStep(codec, left, rw.output);
      var _, written := WritePacket(codec, left[0], rw);
      if !written { return false; }
      left := left[1..];
    }
    ok := true;
  }

  /** The messages in the nursery differ from each other and from those delivered. */
  ghost predicate KeptApart(nursery: map<uint64, Message>, tracked: set<Message>, numbers: map<Message, uint64>,
                            sent: seq<Message>) {
    && (forall n <- nursery :: nursery[n] in tracked && nursery[n] in numbers && numbers[nursery[n]] == n)
    && (forall i | 0 <= i < |sent| :: sent[i] in tracked && sent[i] !in numbers)
  }

  lemma MovedApart(nursery: map<uint64, Message>, tracked: set<Message>, numbers: map<Message, uint64>,
                   sent: seq<Message>, n: uint64)
    requires KeptApart(nursery, tracked, numbers, sent) && n in nursery
    ensures KeptApart(nursery - {n}, tracked, numbers - {nursery[n]}, sent + [nursery[n]])
  {
  }

  lemma EnteredApart(nursery: map<uint64, Message>, tracked: set<Message>, numbers: map<Message, uint64>,
                     sent: seq<Message>, n: uint64, m: Message)
    requires KeptApart(nursery, tracked, numbers, sent) && m !in tracked
    ensures KeptApart(nursery[n := m], tracked + {m}, numbers[m := n], sent)
  {
  }

  class Connection {
    const codec: Json.Codec
    const rw: Stream
    const msgs: Channel.Chan<Message>
    var incomingmsgno: uint64
    var outgoingmsgno: uint64
    var pktToMsg: map<uint64, Message>
    var isClosed: bool
    /** Every message this connection has created. */
    ghost var tracked: set<Message>
    /** The messages in the nursery with their numbers. */
    ghost var numbers: map<Message, uint64>
    /** The state of the connection as a value. */
    ghost var state: Conn

    ghost predicate Valid()
      reads this, rw`output, msgs`sent, tracked
    {
      && state.incoming == incomingmsgno && state.outgoing == outgoingmsgno && state.wire == rw.output
      && Apart() && NurseryHolds(state.nursery) && DeliveredHolds(state.delivered)
    }

    ghost predicate Apart()
      reads this`pktToMsg, this`tracked, this`numbers, msgs`sent
    {
      KeptApart(pktToMsg, tracked, numbers, msgs.sent)
    }

    ghost predicate NurseryHolds(nursery: map<uint64, Msg>)
      reads this`pktToMsg, pktToMsg.Values
    {
      nursery.Keys == pktToMsg.Keys && forall n <- pktToMsg :: pktToMsg[n].Value() == nursery[n]
    }

    ghost predicate DeliveredHolds(delivered: seq<Msg>)
      reads msgs`sent, msgs.sent
    {
      |msgs.sent| == |delivered| && forall i | 0 <= i < |msgs.sent| :: msgs.sent[i].Value() == delivered[i]
    }

    constructor (codec: Json.Codec, rw: Stream)
      requires rw.output == []
      ensures Valid() && state == FRESH && this.rw == rw && this.codec == codec
      ensures fresh(msgs) && !msgs.closed && tracked == {} && !isClosed
    {
      this.codec, this.rw := codec, rw;
      msgs := new Channel.Chan();
      incomingmsgno, outgoingmsgno, pktToMsg, isClosed := 0, 0, map[], false;
      tracked, numbers, state := {}, map[], FRESH;
    }

    method AckBytes(msgno: uint64, unackedByteCount: uint64)
      requires Valid()
      modifies this`state, rw`output
      ensures Valid() && state == Acked(old(state), Ack(msgno, unackedByteCount))
    {
      var ackPacket := Packet(ACK, msgno, ZERO_HEADER, Decimal(unackedByteCount));
      var _, _ := WritePacket(codec, ackPacket, rw);
      state := Acked(state, Ack(msgno, unackedByteCount));
    }

    /** Enters a new message under the number expected. */
    method Track(msg: Message, ghost header: Header)
      requires Valid() && incomingmsgno !in pktToMsg && msg !in tracked && msg.Value() == Opened(header)
      modifies this`pktToMsg, this`tracked, this`numbers, this`incomingmsgno, this`state
      ensures Valid() && tracked == old(tracked) + {msg}
      ensures state == OpenedIn(old(state), header)
    {
      EnteredApart(pktToMsg, tracked, numbers, msgs.sent, incomingmsgno, msg);
      pktToMsg := pktToMsg[incomingmsgno := msg];
      tracked, numbers := tracked + {msg}, numbers[msg := incomingmsgno];
      incomingmsgno := AddU64(incomingmsgno, 1);
      state := OpenedIn(state, header);
    }

    method OpenMessage(header: Header)
      requires Valid() && incomingmsgno !in pktToMsg
      modifies this`pktToMsg, this`tracked, this`numbers, this`incomingmsgno, this`state
      ensures Valid() && fresh(tracked - old(tracked))
      ensures state == OpenedIn(old(state), header)
    {
      var msg := NewTracked(header);
      Undisturbed();
      Track(msg, header);
    }

    method AppendBody(n: uint64, body: Bytes)
      requires Valid() && n in pktToMsg
      modifies this`state, pktToMsg[n]
      ensures Valid()
      ensures state == old(state).(nursery := old(state).nursery[n := Written(old(state).nursery[n], body)])
    {
      var msg := pktToMsg[n];
      ghost var m := Written(state.nursery[n], body);
      state := state.(nursery := state.nursery[n := m]);
      var _ := msg.Write(body);
      EntryChanged(n);
    }

    method AppendAndAck(n: uint64, body: Bytes)
      requires Valid() && n in pktToMsg
      modifies this`state, rw`output, pktToMsg[n]
      ensures Valid() && state == Appended(old(state), n, body)
    {
      AppendBody(n, body);
      AckBytes(n, pktToMsg[n].bytesWritten);
    }

    method SetError(n: uint64, body: Bytes)
      requires Valid() && n in pktToMsg
      modifies this`state, pktToMsg[n]
      ensures Valid()
      ensures state == old(state).(nursery := old(state).nursery[n := WithError(old(state).nursery[n], body)])
    {
      var msg := pktToMsg[n];
      ghost var m := WithError(state.nursery[n], body);
      state := state.(nursery := state.nursery[n := m]);
      var errMessage := UNKNOWN_ERROR;
      if |body| > 0 {
        errMessage := body;
      }
      msg.SetError(errMessage);
      EntryChanged(n);
    }

    /** Changing one message of the nursery changes no other. */
    twostate lemma EntryChanged(n: uint64)
      requires old(Apart() && NurseryHolds(state.nursery) && DeliveredHolds(state.delivered))
      requires n in pktToMsg
      requires unchanged(this`pktToMsg, this`tracked, this`numbers, msgs`sent)
      requires forall k <- old(tracked) | k != pktToMsg[n] :: unchanged(k)
      ensures Apart() && DeliveredHolds(old(state.delivered))
      ensures NurseryHolds(old(state.nursery)[n := pktToMsg[n].Value()])
    {
      assert pktToMsg[n] !in msgs.sent;
      forall k <- pktToMsg | k != n ensures pktToMsg[k].Value() == old(state.nursery)[k] {
        assert unchanged(pktToMsg[k]);
      }
    }

    method Deliver(n: uint64)
      requires Valid() && !msgs.closed && n in pktToMsg
      modifies this`pktToMsg, this`numbers, this`state, msgs`sent
      ensures Valid()
      ensures state == Closed(old(state), n, old(state).nursery[n])
    {
      var msg := pktToMsg[n];
      state := Closed(state, n, state.nursery[n]);
      MovedApart(pktToMsg, tracked, numbers, msgs.sent, n);
      pktToMsg, numbers := pktToMsg - {n}, numbers - {msg};
      msgs.Send(msg);
    }

    method FailAndDeliver(n: uint64, body: Bytes)
      requires Valid() && !msgs.closed && n in pktToMsg
      modifies this`pktToMsg, this`numbers, this`state, rw`output, msgs`sent, pktToMsg[n]
      ensures Valid() && state == FailedIn(old(state), n, body)
    {
      SetError(n, body);
      AppendAndAck(n, body);
      Deliver(n);
    }

    method RoutePacket(pkt: Packet) returns (err: Option<RouteError>)
      requires Valid() && !msgs.closed
      modifies this`incomingmsgno, this`pktToMsg, this`tracked, this`numbers, this`state, rw`output, msgs`sent, tracked
      ensures Valid() && fresh(tracked - old(tracked))
      ensures match Route(old(state), pkt)
              case Success(c) => err == None && state == c
              case Failure(e) => err == Some(e) && state == old(state)
    {
      var n := pkt.msgNo;
      match pkt.kind {
        case HEADER =>
          if n != incomingmsgno { return Some(OutOfSequence); }
          if n in pktToMsg { return Some(AlreadyTracking); }
          OpenMessage(pkt.header);
        case DATA =>
          if n !in pktToMsg { return Some(NotTracking); }
          AppendAndAck(n, pkt.body);
        case EOF =>
          if n !in pktToMsg { return Some(NotTracking); }
          Deliver(n);
        case TXERR =>
          if n !in pktToMsg { return Some(NotTracking); }
          FailAndDeliver(n, pkt.body);
        case ACK =>
      }
      err := None;
    }

    /** One turn of the reading loop. */
    method ReadAndRoute() returns (stop: Option<Stop>)
      requires Valid() && !msgs.closed
      modifies this`incomingmsgno, this`pktToMsg, this`tracked, this`numbers, this`state, rw, msgs`sent, tracked
      ensures Valid() && fresh(tracked - old(tracked))
      ensures match stop
              case None =>
                && |rw.input| < |old(rw.input)|
                && Pump(codec, state, rw.input) == Pump(codec, old(state), old(rw.input))
              case Some(e) => (state, e) == Pump(codec, old(state), old(rw.input))
    {
      var pkt := ReadPacket(codec, rw);
      if pkt.Failure? { return Some(ReadFailed(pkt.error)); }
      var err := RoutePacket(pkt.value);
      if err.Some? { return Some(RouteFailed(err.value)); }
      stop := None;
    }

    /** Reads packets until the stream or the routing fails. */
    method ReadUntilStopped() returns (stop: Stop)
      requires Valid() && !msgs.closed
      modifies this`incomingmsgno, this`pktToMsg, this`tracked, this`numbers, this`state, rw, msgs`sent, tracked
      ensures Valid() && fresh(tracked - old(tracked))
      ensures (state, stop) == Pump(codec, old(state), old(rw.input))
    {
      while true
        invariant Valid() && fresh(tracked - old(tracked))
        invariant Pump(codec, state, rw.input) == Pump(codec, old(state), old(rw.input))
        decreases |rw.input|
      {
        var err := ReadAndRoute();
        if err.Some? { return err.value; }
      }
    }

    /** Reads packets until the stream or the routing fails, then closes the channel of messages. */
    method PacketReader() returns (stop: Stop)
      requires Valid() && !msgs.closed
      modifies this`incomingmsgno, this`pktToMsg, this`tracked, this`numbers, this`state, rw, msgs, tracked
      ensures Valid() && fresh(tracked - old(tracked)) && msgs.closed
      ensures (state, stop) == Pump(codec, old(state), old(rw.input))
    {
      stop := ReadUntilStopped();
      msgs.Close();
    }

    method SendNumbered(msg: Message) returns (ok: bool)
      requires Valid() && msg !in tracked && WellBuilt(msg.Value()) && msg.requestID != 0
      modifies this`outgoingmsgno, this`state, rw`output, msg`packets
      ensures Valid() && state == Sending(codec, old(state), old(msg.Value()))
      ensures ok <==> Encodable(old(msg.Head()))
    {
      OnlyHeaderFails(codec, msg.Value(), outgoingmsgno);
      ok := WriteNumbered(msg);
      Undisturbed();
      state := Sending(codec, state, old(msg.Value()));
    }

    /** Writing changes no message of the connection. */
    twostate lemma Undisturbed()
      requires old(Apart() && NurseryHolds(state.nursery) && DeliveredHolds(state.delivered))
      requires unchanged(this`pktToMsg, this`tracked, this`numbers, msgs`sent)
      requires forall m <- old(tracked) :: unchanged(m)
      ensures Apart() && NurseryHolds(old(state.nursery)) && DeliveredHolds(old(state.delivered))
    {
    }

    method WriteNumbered(msg: Message) returns (ok: bool)
      modifies this`outgoingmsgno, rw`output, msg`packets
      ensures outgoingmsgno == AddU64(old(outgoingmsgno), 1)
      ensures rw.output == old(rw.output) + Frames(codec, ToPackets(old(msg.Value()), old(outgoingmsgno)))
      ensures ok <==> AllEncode(codec, ToPackets(old(msg.Value()), old(outgoingmsgno)))
    {
      var packets := msg.AsPackets(outgoingmsgno);
      outgoingmsgno := AddU64(outgoingmsgno, 1);
      ok := WriteAll(codec, packets, rw);
    }

    /** Numbers a message and writes its packets. */
    method Send(msg: Message) returns (r: SendOutcome)
      requires Valid() && msg !in tracked && WellBuilt(msg.Value())
      modifies this`outgoingmsgno, this`state, rw`output, msg`packets
      ensures Valid() && state == Sending(codec, old(state), old(msg.Value()))
      ensures r == Outcome(old(msg.Value()), isClosed)
    {
      if msg.requestID == 0 { return NoRequestID; }
      var ok := SendNumbered(msg);
      r := if !ok then CannotEncode else if isClosed then AlreadyClosed else SendOk;
    }

    /** Marks the connection closed; a second call changes nothing. */
    method Close() returns (closedSocket: bool)
      modifies this`isClosed
      ensures isClosed && closedSocket == !old(isClosed)
    {
      closedSocket := !isClosed;
      isClosed := true;
    }
  }
}
