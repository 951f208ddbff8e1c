/** Two connections that send and read at the same time (`scamp/connection.go`): at each end `Send` and the reading
    loop take turns in any order, under one lock for writing. */
module Duplex {
  import opened Text
  import opened Json
  import opened Packet
  import Message
  import opened Connection
  import opened Demux
  import opened Delivery

  /** What one end does next: it sends a message of its own, or reads a packet of the other end. */
  datatype Turn = Sends(m: Message.Msg) | Reads(p: Packet)

  /** One end: its connection and, once reading has stopped, the error that stopped it. */
  datatype End = End(conn: Conn, stop: Option<RouteError>)

  function Take(codec: Codec, e: End, t: Turn): End {
    match t
    case Sends(m) => e.(conn := Sending(codec, e.conn, m))
    case Reads(p) =>
      if e.stop.Some? then e
      else
        match Route(e.conn, p)
        case Success(c) => e.(conn := c)
        case Failure(x) => e.(stop := Some(x))
  }

  function After(codec: Codec, turns: seq<Turn>): End {
    if turns == [] then End(FRESH, None) else Take(codec, After(codec, turns[..|turns| - 1]), turns[|turns| - 1])
  }

  /** The packets read, in order. */
  function Incoming(turns: seq<Turn>): seq<Packet> {
    if turns == [] then []
    else
      var init, t := Incoming(turns[..|turns| - 1]), turns[|turns| - 1];
      if t.Reads? then init + [t.p] else init
  }

  /** The acknowledgement that a turn adds to the log, if any. */
  function NewAck(before: Conn, after: Conn): seq<Event> {
    if |before.acks| < |after.acks| then [Acknowledge(after.acks[|after.acks| - 1])] else []
  }

  /** What one end writes, in order: its own messages, and acknowledgements as packets come in. */
  function Writes(codec: Codec, turns: seq<Turn>): seq<Event> {
    if turns == [] then []
    else
      var init, t := turns[..|turns| - 1], turns[|turns| - 1];
      Writes(codec, init)
      + if t.Sends? then [Send(t.m)] else NewAck(After(codec, init).conn, After(codec, turns).conn)
  }

  // ---------- reading and writing do not disturb each other ----------

  /** The reading side of two connections is the same. */
  predicate SameReading(c: Conn, d: Conn) {
    c.incoming == d.incoming && c.nursery == d.nursery && c.delivered == d.delivered && c.acks == d.acks
  }

  /** The writing side of two connections is the same. */
  predicate SameWriting(c: Conn, d: Conn) { c.outgoing == d.outgoing && c.wire == d.wire }

  lemma RouteReadsOnly(c: Conn, d: Conn, p: Packet)
    requires SameReading(c, d)
    ensures Route(c, p).Success? <==> Route(d, p).Success?
    ensures Route(c, p).Success? ==> SameReading(Route(c, p).value, Route(d, p).value)
    ensures Route(c, p).Failure? ==> Route(c, p).error == Route(d, p).error
  {
  }

  /** Routing a packet writes at most one acknowledgement, and that is what it adds to the log. */
  lemma RouteWritesAck(c: Conn, p: Packet)
    requires Route(c, p).Success?
    ensures var c', e := Route(c, p).value, NewAck(c, Route(c, p).value);
            && c'.outgoing == c.outgoing && |e| <= 1
            && c'.wire == if e == [] then c.wire else c.wire + AckFrame(e[0].a)
  {
  }

  lemma TransmitSnoc(codec: Codec, events: seq<Event>, e: Event)
    ensures Transmit(codec, FRESH, events + [e])
         == var c := Transmit(codec, FRESH, events); if e.Send? then Sending(codec, c, e.m) else Acked(c, e.a)
  {
    assert (events + [e])[..|events|] == events;
  }

  /** An end agrees with a connection that only reads its packets and one that only writes its events. */
  predicate Independent(e: End, reading: (Conn, Option<RouteError>), writing: Conn) {
    SameReading(e.conn, reading.0) && e.stop == reading.1 && SameWriting(e.conn, writing)
  }

  lemma SendTurn(codec: Codec, e: End, reading: (Conn, Option<RouteError>), writing: Conn, m: Message.Msg)
    requires Independent(e, reading, writing)
    ensures Independent(Take(codec, e, Sends(m)), reading, Sending(codec, writing, m))
  {
  }

  lemma ReadTurn(codec: Codec, e: End, ps: seq<Packet>, events: seq<Event>, p: Packet)
    requires Independent(e, RouteUntil(FRESH, ps), Transmit(codec, FRESH, events))
    ensures var e' := Take(codec, e, Reads(p));
            Independent(e', RouteUntil(FRESH, ps + [p]), Transmit(codec, FRESH, events + NewAck(e.conn, e'.conn)))
  {
    var e' := Take(codec, e, Reads(p));
    RouteUntilConcat(FRESH, ps, [p]);
    assert events + [] == events;
    if e.stop.None? {
      var d := RouteUntil(FRESH, ps).0;
      RouteReadsOnly(e.conn, d, p);
      assert RouteUntil(d, [p])
          == if Route(d, p).Success? then (Route(d, p).value, None) else (d, Some(Route(d, p).error));
      if Route(e.conn, p).Success? {
        RouteWritesAck(e.conn, p);
        var acks := NewAck(e.conn, e'.conn);
        if acks != [] {
          assert acks == [acks[0]];
          TransmitSnoc(codec, events, acks[0]);
        }
      }
    }
  }

  /** However sending and reading take turns at one end: what is expected, open, delivered and acknowledged is what
      reading the incoming packets alone gives, and what is written is what sending its messages and those
      acknowledgements, in that order, gives. */
  lemma {:induction false} TurnsAreIndependent(codec: Codec, turns: seq<Turn>)
    ensures Independent(After(codec, turns), RouteUntil(FRESH, Incoming(turns)),
                        Transmit(codec, FRESH, Writes(codec, turns)))
  {
    if turns != [] {
      var init, t := turns[..|turns| - 1], turns[|turns| - 1];
      TurnsAreIndependent(codec, init);
      match t {
        case Sends(m) =>
          SendTurn(codec, After(codec, init), RouteUntil(FRESH, Incoming(init)),
                   Transmit(codec, FRESH, Writes(codec, init)), m);
          TransmitSnoc(codec, Writes(codec, init), Send(m));
        case Reads(p) => ReadTurn(codec, After(codec, init), Incoming(init), Writes(codec, init), p);
      }
    }
  }

  // ---------- both ends at once ----------

  /** Every packet that `ReadPacket` finds in the bytes, up to the first failure. */
  function ReadAll(codec: Codec, input: Bytes): seq<Packet>
    decreases |input|
  {
    var r := ReadFrame(codec, input);
    if r.Failure? then [] else [r.value.0] + ReadAll(codec, r.value.1)
  }

  lemma {:induction false} ReadAllFrames(codec: Codec, ps: seq<Packet>)
    requires Transmittable(codec, ps)
    ensures ReadAll(codec, Frames(codec, ps)) == ps
  {
    if ps == [] {
      ReadAllNothing(codec);
    } else {
      ReadAllCons(codec, ps[0], Frames(codec, ps[1..]), Frames(codec, ps));
      ReadAllFrames(codec, ps[1..]);
      HeadTail(ps, []);
      assert ps[1..] + [] == ps[1..] && ps + [] == ps;
    }
  }

  lemma ReadAllNothing(codec: Codec)
    ensures ReadAll(codec, []) == []
  {
  }

  lemma ReadAllCons(codec: Codec, p: Packet, rest: Bytes, input: Bytes)
    requires Legible(codec, p) && WellFormed(codec, p) && Frame(codec, p).Some?
    requires input == Frame(codec, p).value + rest
    ensures ReadAll(codec, input) == [p] + ReadAll(codec, rest)
  {
    FrameRoundTrip(codec, p, rest);
  }

  /** The bytes an end has written. */
  function Wire(codec: Codec, turns: seq<Turn>): Bytes { After(codec, turns).conn.wire }

  /** The messages an end has sent, as they arrive; one without a request id is not written. */
  function Outbox(turns: seq<Turn>): seq<Message.Msg> {
    if turns == [] then []
    else
      var init, t := Outbox(turns[..|turns| - 1]), turns[|turns| - 1];
      if t.Sends? && t.m.head.requestID != 0 then init + [Arrived(t.m)] else init
  }

  lemma {:induction false} OutboxIsReceived(codec: Codec, turns: seq<Turn>)
    ensures Received(Writes(codec, turns)) == Outbox(turns)
  {
    if turns != [] {
      var init, t := turns[..|turns| - 1], turns[|turns| - 1];
      OutboxIsReceived(codec, init);
      var last := if t.Sends? then [Send(t.m)] else NewAck(After(codec, init).conn, After(codec, turns).conn);
      ReceivedConcat(Writes(codec, init), last);
      if last != [] {
        assert last == [last[0]] && Received(last) == (if Numbered(last[0]) then [Arrived(last[0].m)] else []) + [];
      }
    }
  }

  /** All that this end sends can be sent. */
  predicate Sound(codec: Codec, turns: seq<Turn>) {
    forall i | 0 <= i < |turns| && turns[i].Sends? ::
      Sendable(codec, turns[i].m) && !Unencodable(Send(turns[i].m))
  }

  lemma {:induction false} SoundWrites(codec: Codec, turns: seq<Turn>)
    requires Sound(codec, turns)
    ensures AllSendable(codec, Writes(codec, turns)) && AllEncodable(Writes(codec, turns))
  {
    if turns != [] {
      var init := turns[..|turns| - 1];
      assert forall i | 0 <= i < |init| :: init[i] == turns[i];
      SoundWrites(codec, init);
    }
  }

  lemma WireHolds(codec: Codec, turns: seq<Turn>)
    requires Sound(codec, turns)
    ensures ReadAll(codec, Wire(codec, turns)) == SentPackets(Writes(codec, turns), 0)
    ensures After(codec, turns).conn.outgoing == LastNumber(Writes(codec, turns), 0)
  {
    var events := Writes(codec, turns);
    SoundWrites(codec, turns);
    TurnsAreIndependent(codec, turns);
    WireIsFrames(codec, FRESH, events);
    SentTransmittable(codec, events, 0);
    assert [] + Frames(codec, SentPackets(events, 0)) == Frames(codec, SentPackets(events, 0));
    ReadAllFrames(codec, SentPackets(events, 0));
  }

  lemma PrefixNotRefused(c: Conn, ps: seq<Packet>, j: nat)
    requires j <= |ps| && RouteUntil(c, ps).1.None?
    ensures RouteUntil(c, ps[..j]).1.None?
    ensures RouteUntil(c, ps[..j]).0.delivered <= RouteUntil(c, ps).0.delivered
  {
    TakeDrop(ps, j);
    RouteUntilConcat(c, ps[..j], ps[j..]);
    PrefixRoutesLess(c, ps, j);
  }

  /** One end has read some of what the other has written so far, or all of it. */
  predicate HasRead(codec: Codec, mine: seq<Turn>, theirs: seq<Turn>) {
    Incoming(mine) <= ReadAll(codec, Wire(codec, theirs))
  }

  lemma OneEnd(codec: Codec, mine: seq<Turn>, theirs: seq<Turn>)
    requires Sound(codec, theirs) && HasRead(codec, mine, theirs)
    ensures After(codec, mine).stop.None?
    ensures After(codec, mine).conn.delivered <= Outbox(theirs)
    ensures Incoming(mine) == ReadAll(codec, Wire(codec, theirs)) ==>
              && After(codec, mine).conn.delivered == Outbox(theirs)
              && After(codec, mine).conn.nursery == map[]
              && After(codec, mine).conn.incoming == After(codec, theirs).conn.outgoing
  {
    var events := Writes(codec, theirs);
    var ps := SentPackets(events, 0);
    SoundWrites(codec, theirs);
    WireHolds(codec, theirs);
    OutboxIsReceived(codec, theirs);
    TurnsAreIndependent(codec, mine);
    RouteSent(FRESH, events);
    FromFresh(LastNumber(events, 0), Received(events), RouteUntil(FRESH, ps));
    PrefixNotRefused(FRESH, ps, |Incoming(mine)|);
    assert ps[..|Incoming(mine)|] == Incoming(mine);
  }

  /** Two ends that send and read at the same time. At every moment, however the turns fall and however much of the
      bytes has arrived: neither end has refused a packet, and each has delivered the first few of the other's
      messages, in order and whole. An end that has read everything has delivered all of them, has nothing left in
      its nursery and expects the number that the other uses next. */
  lemma BothEnds(codec: Codec, a: seq<Turn>, b: seq<Turn>)
    requires Sound(codec, a) && Sound(codec, b) && HasRead(codec, a, b) && HasRead(codec, b, a)
    ensures After(codec, a).stop.None? && After(codec, b).stop.None?
    ensures After(codec, a).conn.delivered <= Outbox(b) && After(codec, b).conn.delivered <= Outbox(a)
    ensures Incoming(a) == ReadAll(codec, Wire(codec, b)) ==>
              && After(codec, a).conn.delivered == Outbox(b)
              && After(codec, a).conn.nursery == map[]
              && After(codec, a).conn.incoming == After(codec, b).conn.outgoing
    ensures Incoming(b) == ReadAll(codec, Wire(codec, a)) ==>
              && After(codec, b).conn.delivered == Outbox(a)
              && After(codec, b).conn.nursery == map[]
              && After(codec, b).conn.incoming == After(codec, a).conn.outgoing
  {
    OneEnd(codec, a, b);
    OneEnd(codec, b, a);
  }
}
