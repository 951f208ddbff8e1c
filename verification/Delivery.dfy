/** From `Send` on one side to delivery on the other: the bytes written by one connection, read and
    routed by another (`scamp/connection.go`). */
module Delivery {
  import opened Text
  import opened Json
  import PacketHeader
  import opened Packet
  import opened Message
  import opened Connection
  import opened Demux

  // ---------- reading a stream of frames ----------

  lemma RouteKeepsDelivered(c: Conn, p: Packet)
    requires Route(c, p).Success?
    ensures c.delivered <= Route(c, p).value.delivered
  {
  }

  lemma {:induction false} RouteUntilKeepsDelivered(c: Conn, ps: seq<Packet>)
    ensures c.delivered <= RouteUntil(c, ps).0.delivered
    decreases |ps|
  {
    if ps != [] {
      match Route(c, ps[0]) {
        case Success(c') =>
          RouteKeepsDelivered(c, ps[0]);
          RouteUntilKeepsDelivered(c', ps[1..]);
        case Failure(_) =>
      }
    }
  }

  /** Packets whose frames can be written and read back. */
  predicate Transmittable(codec: Codec, ps: seq<Packet>) {
    forall i | 0 <= i < |ps| :: WellFormed(codec, ps[i]) && Legible(codec, ps[i]) && Frame(codec, ps[i]).Some?
  }

  /** How many whole frames the first `k` bytes of the stream hold. */
  function WholeFrames(codec: Codec, ps: seq<Packet>, k: nat): (n: nat)
    ensures n <= |ps|
  {
    if ps == [] then 0
    else
      match Frame(codec, ps[0])
      case None => 0
      case Some(frame) => if k < |frame| then 0 else 1 + WholeFrames(codec, ps[1..], k - |frame|)
  }

  lemma PumpStops(codec: Codec, c: Conn, input: Bytes)
    requires ReadFrame(codec, input).Failure?
    ensures Pump(codec, c, input) == (c, ReadFailed(ReadFrame(codec, input).error))
  {
  }

  lemma PumpFrame(codec: Codec, c: Conn, p: Packet, rest: Bytes, input: Bytes)
    requires Legible(codec, p) && WellFormed(codec, p) && Frame(codec, p).Some?
    requires input == Frame(codec, p).value + rest
    ensures Route(c, p).Success? ==> Pump(codec, c, input) == Pump(codec, Route(c, p).value, rest)
    ensures Route(c, p).Failure? ==> Pump(codec, c, input) == (c, RouteFailed(Route(c, p).error))
  {
    FrameRoundTrip(codec, p, rest);
  }

  lemma CutConcat<T>(a: seq<T>, b: seq<T>, k: nat)
    requires k <= |a| + |b|
    ensures k < |a| ==> (a + b)[..k] == a[..k]
    ensures k >= |a| ==> (a + b)[..k] == a + b[..k - |a|]
  {
  }

  /** How reading ends when the packets routed so far led to `routed` and the stream then ended, between
      two frames or inside one. */
  predicate EndsLike(stop: Stop, routed: Option<RouteError>, betweenFrames: bool) {
    match routed
    case Some(e) => stop == RouteFailed(e)
    case None => stop.ReadFailed? && (stop.read == ReadlineEof <==> betweenFrames)
  }

  /** `r` is what reading the packets `whole` leads to when the stream then breaks off. */
  predicate ReadsAs(codec: Codec, c: Conn, whole: seq<Packet>, betweenFrames: bool, r: (Conn, Stop)) {
    r.0 == RouteUntil(c, whole).0 && EndsLike(r.1, RouteUntil(c, whole).1, betweenFrames)
  }

  lemma ReadsAsCons(codec: Codec, c: Conn, all: seq<Packet>, p: Packet, whole: seq<Packet>, k: nat, r: (Conn, Stop))
    requires Frame(codec, p).Some? && all == [p] + whole
    requires Route(c, p).Failure? ==> r == (c, RouteFailed(Route(c, p).error))
    requires Route(c, p).Success? ==> ReadsAs(codec, Route(c, p).value, whole, k == |Frames(codec, whole)|, r)
    ensures ReadsAs(codec, c, all, k + |Frame(codec, p).value| == |Frames(codec, all)|, r)
  {
    assert all[0] == p && all[1..] == whole;
  }

  lemma CutInside(codec: Codec, c: Conn, ps: seq<Packet>, k: nat)
    requires Transmittable(codec, ps) && ps != [] && k < |Frame(codec, ps[0]).value|
    ensures ReadsAs(codec, c, [], k == 0, Pump(codec, c, Frames(codec, ps)[..k]))
  {
    CutConcat(Frame(codec, ps[0]).value, Frames(codec, ps[1..]), k);
    TruncatedFrame(codec, ps[0], k);
    PumpStops(codec, c, Frames(codec, ps)[..k]);
  }

  lemma WholeBeyond(codec: Codec, ps: seq<Packet>, k: nat)
    requires Transmittable(codec, ps) && ps != [] && |Frame(codec, ps[0]).value| <= k
    ensures ps[..WholeFrames(codec, ps, k)]
         == [ps[0]] + ps[1..][..WholeFrames(codec, ps[1..], k - |Frame(codec, ps[0]).value|)]
  {
    TakeCons(ps, WholeFrames(codec, ps[1..], k - |Frame(codec, ps[0]).value|));
  }

  lemma CutBeyond(codec: Codec, ps: seq<Packet>, k: nat)
    requires Transmittable(codec, ps) && ps != []
    requires |Frame(codec, ps[0]).value| <= k <= |Frames(codec, ps)|
    ensures var k1 := k - |Frame(codec, ps[0]).value|;
            && k1 <= |Frames(codec, ps[1..])|
            && Frames(codec, ps)[..k] == Frame(codec, ps[0]).value + Frames(codec, ps[1..])[..k1]
  {
    CutConcat(Frame(codec, ps[0]).value, Frames(codec, ps[1..]), k);
  }

  /** `r` is what reading the first `k` bytes of the frames should lead to: the effect of the frames they hold
      whole, and a clean end only between two frames. */
  predicate CutReads(codec: Codec, c: Conn, ps: seq<Packet>, k: nat, r: (Conn, Stop)) {
    var whole := ps[..WholeFrames(codec, ps, k)];
    ReadsAs(codec, c, whole, k == |Frames(codec, whole)|, r)
  }

  lemma PumpNothing(codec: Codec, c: Conn)
    ensures Pump(codec, c, []) == (c, ReadFailed(ReadlineEof))
  {
    PumpStops(codec, c, []);
  }

  /** Behind the first frame, the rest of the stream is read from the state that its packet leads to. */
  lemma CutStep(codec: Codec, c: Conn, ps: seq<Packet>, k: nat, r: (Conn, Stop))
    requires Transmittable(codec, ps) && ps != [] && |Frame(codec, ps[0]).value| <= k <= |Frames(codec, ps)|
    requires Route(c, ps[0]).Failure? ==> r == (c, RouteFailed(Route(c, ps[0]).error))
    requires Route(c, ps[0]).Success? ==>
               CutReads(codec, Route(c, ps[0]).value, ps[1..], k - |Frame(codec, ps[0]).value|, r)
    ensures CutReads(codec, c, ps, k, r)
  {
    var k1 := k - |Frame(codec, ps[0]).value|;
    WholeBeyond(codec, ps, k);
    ReadsAsCons(codec, c, ps[..WholeFrames(codec, ps, k)], ps[0], ps[1..][..WholeFrames(codec, ps[1..], k1)], k1, r);
  }

  /** A stream of frames broken off after any number of bytes has the effect of the frames it holds
      whole; it is seen to end cleanly only if it was broken off between two frames. */
  lemma {:induction false} PumpCut(codec: Codec, c: Conn, ps: seq<Packet>, k: nat)
    requires Transmittable(codec, ps) && k <= |Frames(codec, ps)|
    ensures CutReads(codec, c, ps, k, Pump(codec, c, Frames(codec, ps)[..k]))
    decreases |ps|
  {
    if ps == [] {
      PumpNothing(codec, c);
    } else if k < |Frame(codec, ps[0]).value| {
      CutInside(codec, c, ps, k);
    } else {
      var k1 := k - |Frame(codec, ps[0]).value|;
      CutBeyond(codec, ps, k);
      PumpFrame(codec, c, ps[0], Frames(codec, ps[1..])[..k1], Frames(codec, ps)[..k]);
      if Route(c, ps[0]).Success? { PumpCut(codec, Route(c, ps[0]).value, ps[1..], k1); }
      CutStep(codec, c, ps, k, Pump(codec, c, Frames(codec, ps)[..k]));
    }
  }

  lemma TakeCons<T>(s: seq<T>, n: nat)
    requires n < |s|
    ensures s[..n + 1] == [s[0]] + s[1..][..n]
    ensures s[..n + 1][1..] == s[1..][..n]
  {
  }

  lemma {:induction false} AllFramesWhole(codec: Codec, ps: seq<Packet>)
    requires Transmittable(codec, ps)
    ensures WholeFrames(codec, ps, |Frames(codec, ps)|) == |ps|
  {
    if ps != [] {
      AllFramesWhole(codec, ps[1..]);
    }
  }

  /** Reading the frames of a packet list is routing the list. */
  lemma PumpFrames(codec: Codec, c: Conn, ps: seq<Packet>)
    requires Transmittable(codec, ps)
    ensures Pump(codec, c, Frames(codec, ps)).0 == RouteUntil(c, ps).0
    ensures match RouteUntil(c, ps).1
            case None => Pump(codec, c, Frames(codec, ps)).1 == ReadFailed(ReadlineEof)
            case Some(e) => Pump(codec, c, Frames(codec, ps)).1 == RouteFailed(e)
  {
    var k := |Frames(codec, ps)|;
    AllFramesWhole(codec, ps);
    PumpCut(codec, c, ps, k);
    assert Frames(codec, ps)[..k] == Frames(codec, ps) && ps[..|ps|] == ps;
  }

  /** Reading the frames of a stream of packets, of however many messages interleaved, ends cleanly if and only if
      the packets are in order, and then leaves exactly what filtering them by message number gives. */
  lemma ReadingDemultiplexes(codec: Codec, ps: seq<Packet>)
    requires Transmittable(codec, ps)
    ensures Pump(codec, FRESH, Frames(codec, ps)).1 == ReadFailed(ReadlineEof) <==> InOrder(ps)
    ensures InOrder(ps) ==> Agrees(Pump(codec, FRESH, Frames(codec, ps)).0, ps)
  {
    PumpFrames(codec, FRESH, ps);
    AcceptedIff(ps);
    if InOrder(ps) { Demultiplexes(ps); }
  }

  // ---------- what one side sends ----------

  /** What a connection writes: messages of its own and acknowledgements of the other side's, in any order. */
  datatype Event = Send(m: Msg) | Acknowledge(a: Ack)

  /** The sending connection after the events. */
  function Transmit(codec: Codec, c: Conn, events: seq<Event>): Conn {
    if events == [] then c
    else
      var c' := Transmit(codec, c, events[..|events| - 1]);
      match events[|events| - 1]
      case Send(m) => Sending(codec, c', m)
      case Acknowledge(a) => Acked(c', a)
  }

  /** A message that can be handed to `Send`, with body and header text that fit a Go slice and a header that survives
      being written as text. */
  predicate Sendable(codec: Codec, m: Msg) {
    && WellBuilt(m)
    && (forall p <- m.packets :: |p.body| < TWO_63)
    && (PacketHeader.ToJson(m.head).Some? ==>
          && |codec.encode(PacketHeader.ToJson(m.head).value)| + 1 < TWO_63
          && Faithful(codec, PacketHeader.ToJson(m.head).value))
  }

  predicate AllSendable(codec: Codec, events: seq<Event>) {
    forall i | 0 <= i < |events| :: events[i].Send? ==> Sendable(codec, events[i].m)
  }

  /** `Send` takes a number for the message. */
  predicate Numbered(e: Event) { e.Send? && e.m.head.requestID != 0 }

  /** Numbered, but the header cannot be encoded: the number is used up and nothing is written. */
  predicate Unencodable(e: Event) { Numbered(e) && !PacketHeader.Encodable(e.m.head) }

  /** The packets of one event, given the next message number. */
  function EventPackets(e: Event, n: uint64): seq<Packet> {
    if e.Acknowledge? then [AckPacket(e.a)]
    else if Numbered(e) && !Unencodable(e) then ToPackets(e.m, n)
    else []
  }

  function NextNumber(e: Event, n: uint64): uint64 { if Numbered(e) then AddU64(n, 1) else n }

  function SentPackets(events: seq<Event>, n: uint64): seq<Packet> {
    if events == [] then []
    else EventPackets(events[0], n) + SentPackets(events[1..], NextNumber(events[0], n))
  }

  function LastNumber(events: seq<Event>, n: uint64): uint64 {
    if events == [] then n else LastNumber(events[1..], NextNumber(events[0], n))
  }

  lemma {:induction false} SentConcat(a: seq<Event>, b: seq<Event>, n: uint64)
    ensures SentPackets(a + b, n) == SentPackets(a, n) + SentPackets(b, LastNumber(a, n))
    ensures LastNumber(a + b, n) == LastNumber(b, LastNumber(a, n))
    decreases |a|
  {
    if a == [] {
      assert a + b == b;
    } else {
      Tail(a, b);
      SentConcat(a[1..], b, NextNumber(a[0], n));
      Associate(EventPackets(a[0], n), SentPackets(a[1..], NextNumber(a[0], n)), SentPackets(b, LastNumber(a, n)));
    }
  }

  lemma SentSnoc(events: seq<Event>, e: Event, n: uint64)
    ensures SentPackets(events + [e], n) == SentPackets(events, n) + EventPackets(e, LastNumber(events, n))
    ensures LastNumber(events + [e], n) == NextNumber(e, LastNumber(events, n))
  {
    SentConcat(events, [e], n);
    assert EventPackets(e, LastNumber(events, n)) + [] == EventPackets(e, LastNumber(events, n));
  }

  lemma AckTransmittable(codec: Codec, a: Ack)
    ensures WellFormed(codec, AckPacket(a)) && Frame(codec, AckPacket(a)) == Some(AckFrame(a))
  {
    DecimalLengthU64(a.count);
  }

  lemma HeaderTransmittable(codec: Codec, m: Msg, n: uint64)
    requires Sendable(codec, m) && PacketHeader.Encodable(m.head)
    ensures Transmittable(codec, [HeaderPacket(m, n)])
  {
    PacketHeader.HeaderRoundTrip(m.head);
  }

  lemma BodiesTransmittable(codec: Codec, m: Msg, n: uint64)
    requires Sendable(codec, m)
    ensures Transmittable(codec, Stamped(m.packets, n))
  {
    forall i | 0 <= i < |m.packets| ensures m.packets[i].kind == DATA && |m.packets[i].body| < TWO_63 {
      assert m.packets[i] in m.packets;
    }
  }

  lemma TransmittableConcat(codec: Codec, a: seq<Packet>, b: seq<Packet>)
    requires Transmittable(codec, a) && Transmittable(codec, b)
    ensures Transmittable(codec, a + b)
  {
  }

  lemma MessageTransmittable(codec: Codec, m: Msg, n: uint64)
    requires Sendable(codec, m) && PacketHeader.Encodable(m.head)
    ensures Transmittable(codec, ToPackets(m, n))
  {
    HeaderTransmittable(codec, m, n);
    BodiesTransmittable(codec, m, n);
    TransmittableConcat(codec, Stamped(m.packets, n), [EofPacket(n)]);
    TransmittableConcat(codec, [HeaderPacket(m, n)], Stamped(m.packets, n) + [EofPacket(n)]);
  }

  lemma EventTransmittable(codec: Codec, e: Event, n: uint64)
    requires e.Send? ==> Sendable(codec, e.m)
    ensures Transmittable(codec, EventPackets(e, n))
  {
    if e.Acknowledge? {
      AckTransmittable(codec, e.a);
    } else if PacketHeader.Encodable(e.m.head) {
      MessageTransmittable(codec, e.m, n);
    }
  }

  lemma {:induction false} SentTransmittable(codec: Codec, events: seq<Event>, n: uint64)
    requires AllSendable(codec, events)
    ensures Transmittable(codec, SentPackets(events, n))
    decreases |events|
  {
    if events != [] {
      EventTransmittable(codec, events[0], n);
      SentTransmittable(codec, events[1..], NextNumber(events[0], n));
    }
  }

  lemma {:induction false} FramesConcat(codec: Codec, a: seq<Packet>, b: seq<Packet>)
    requires Transmittable(codec, a)
    ensures Frames(codec, a + b) == Frames(codec, a) + Frames(codec, b)
    decreases |a|
  {
    if a == [] {
      assert a + b == b;
    } else {
      Tail(a, b);
      FramesConcat(codec, a[1..], b);
      Associate(Frame(codec, a[0]).value, Frames(codec, a[1..]), Frames(codec, b));
    }
  }

  lemma EventWritten(codec: Codec, c: Conn, e: Event)
    requires e.Send? ==> Sendable(codec, e.m)
    ensures var c' := if e.Send? then Sending(codec, c, e.m) else Acked(c, e.a);
            && c'.wire == c.wire + Frames(codec, EventPackets(e, c.outgoing))
            && c'.outgoing == NextNumber(e, c.outgoing)
  {
    if e.Acknowledge? {
      AckTransmittable(codec, e.a);
      assert Frames(codec, [AckPacket(e.a)]) == AckFrame(e.a) + Frames(codec, []);
    } else {
      OnlyHeaderFails(codec, e.m, c.outgoing);
    }
  }

  /** The bytes on the wire are the frames of the packets of the events, each message with its number. */
  lemma {:induction false} WireIsFrames(codec: Codec, c: Conn, events: seq<Event>)
    requires AllSendable(codec, events)
    ensures Transmit(codec, c, events).wire == c.wire + Frames(codec, SentPackets(events, c.outgoing))
    ensures Transmit(codec, c, events).outgoing == LastNumber(events, c.outgoing)
    decreases |events|
  {
    if events != [] {
      var init, e := events[..|events| - 1], events[|events| - 1];
      WireIsFrames(codec, c, init);
      InitLast(events);
      SentSnoc(init, e, c.outgoing);
      EventWritten(codec, Transmit(codec, c, init), e);
      SentTransmittable(codec, init, c.outgoing);
      var sent, last := SentPackets(init, c.outgoing), EventPackets(e, LastNumber(init, c.outgoing));
      FramesConcat(codec, sent, last);
      Associate(c.wire, Frames(codec, sent), Frames(codec, last));
    }
  }

  // ---------- what the other side delivers ----------

  /** The message as it arrives: the same header fields but for the identifying token, the same bodies. */
  function Arrived(m: Msg): Msg {
    Msg(m.head.(identifyingToken := ""), DataPackets(Bodies(m.packets)), m.bytesWritten)
  }

  lemma ArrivedBody(m: Msg)
    ensures Body(Arrived(m).packets) == Body(m.packets)
  {
    BodyOfBodies(m.packets);
  }

  /** The messages that arrive, if all do. */
  function Received(events: seq<Event>): seq<Msg> {
    if events == [] then []
    else (if Numbered(events[0]) then [Arrived(events[0].m)] else []) + Received(events[1..])
  }

  lemma {:induction false} RouteBodies(c: Conn, n: uint64, ps: seq<Packet>)
    requires n in c.nursery && forall i | 0 <= i < |ps| :: ps[i].kind == DATA && ps[i].msgNo == n
    ensures var (c', e) := RouteUntil(c, ps);
            && e.None? && c'.incoming == c.incoming && c'.delivered == c.delivered
            && c'.nursery == c.nursery[n := WithBodies(c.nursery[n], ps)]
    decreases |ps|
  {
    WithBodiesCons(c.nursery[n], ps);
    if ps != [] {
      RouteBodies(Appended(c, n, ps[0].body), n, ps[1..]);
    }
  }

  /** The message with the bodies of these packets appended. */
  function WithBodies(m: Msg, ps: seq<Packet>): Msg {
    Msg(m.head, m.packets + DataPackets(Bodies(ps)), (m.bytesWritten + |Body(ps)|) % TWO_64)
  }

  lemma WithBodiesCons(m: Msg, ps: seq<Packet>)
    ensures ps == [] ==> WithBodies(m, ps) == m
    ensures ps != [] ==> WithBodies(m, ps) == WithBodies(Written(m, ps[0].body), ps[1..])
  {
    if ps == [] {
      assert m.packets + DataPackets(Bodies(ps)) == m.packets;
    } else {
      BodiesCons(m.packets, ps);
      BodyCons(ps);
      AddMod(m.bytesWritten + |ps[0].body|, |Body(ps[1..])|);
    }
  }

  lemma BodiesCons(packets: seq<Packet>, ps: seq<Packet>)
    requires ps != []
    ensures packets + DataPackets(Bodies(ps)) == packets + [DataPacket(ps[0].body)] + DataPackets(Bodies(ps[1..]))
  {
  }

  lemma {:induction false} BodyCons(ps: seq<Packet>)
    requires ps != []
    ensures Body(ps) == ps[0].body + Body(ps[1..])
    decreases |ps|
  {
    if |ps| > 1 {
      BodyCons(ps[..|ps| - 1]);
      assert ps[..|ps| - 1][1..] == ps[1..][..|ps| - 2];
      Associate(ps[0].body, Body(ps[1..][..|ps| - 2]), ps[|ps| - 1].body);
    }
  }

  /** The packets of one message, arriving with the number expected, deliver exactly that message. */
  lemma RouteMessage(c: Conn, m: Msg)
    requires c.nursery == map[] && WellBuilt(m)
    ensures var (c', e) := RouteUntil(c, ToPackets(m, c.incoming));
            && e.None? && c'.nursery == map[] && c'.incoming == AddU64(c.incoming, 1)
            && c'.delivered == c.delivered + [Arrived(m)]
  {
    var n := c.incoming;
    var header, body, eof := HeaderPacket(m, n), Stamped(m.packets, n), EofPacket(n);
    var c1 := OpenedIn(c, m.head);
    assert forall i | 0 <= i < |m.packets| :: m.packets[i] in m.packets;
    RouteBodies(c1, n, body);
    var c2 := RouteUntil(c1, body).0;
    StampedBody(m.packets, n);
    assert DataPackets(Bodies(body)) == DataPackets(Bodies(m.packets));
    assert [] + DataPackets(Bodies(body)) == DataPackets(Bodies(body));
    assert c2.nursery[n] == Arrived(m);
    RouteUntilConcat(c1, body, [eof]);
    assert RouteUntil(c2, [eof]) == (Closed(c2, n, Arrived(m)), None);
    assert ToPackets(m, n)[1..] == body + [eof];
  }

  /** The receiving side after `sent` messages more, nothing of them left behind. */
  predicate Advanced(c: Conn, n: uint64, arrived: seq<Msg>, r: (Conn, Option<RouteError>)) {
    && r.1.None? && r.0.nursery == map[] && r.0.incoming == n
    && r.0.delivered == c.delivered + arrived
  }

  lemma RouteEvent(c: Conn, e: Event)
    requires c.nursery == map[] && (e.Send? ==> WellBuilt(e.m)) && !Unencodable(e)
    ensures Advanced(c, NextNumber(e, c.incoming), if Numbered(e) then [Arrived(e.m)] else [],
                     RouteUntil(c, EventPackets(e, c.incoming)))
  {
    if Numbered(e) {
      RouteMessage(c, e.m);
    }
  }

  lemma AdvancedTwice(c: Conn, a: seq<Packet>, b: seq<Packet>, n: uint64, n': uint64, ma: seq<Msg>, mb: seq<Msg>)
    requires Advanced(c, n, ma, RouteUntil(c, a))
    requires Advanced(RouteUntil(c, a).0, n', mb, RouteUntil(RouteUntil(c, a).0, b))
    ensures Advanced(c, n', ma + mb, RouteUntil(c, a + b))
  {
    RouteUntilConcat(c, a, b);
    Associate(c.delivered, ma, mb);
  }

  /** Routing what was sent: as long as every header can be encoded, each message arrives. */
  lemma {:induction false} RouteSent(c: Conn, events: seq<Event>)
    requires c.nursery == map[]
    requires forall i | 0 <= i < |events| :: (events[i].Send? ==> WellBuilt(events[i].m)) && !Unencodable(events[i])
    ensures Advanced(c, LastNumber(events, c.incoming), Received(events),
                     RouteUntil(c, SentPackets(events, c.incoming)))
    decreases |events|
  {
    if events != [] {
      var e, n := events[0], c.incoming;
      var n1 := NextNumber(e, n);
      RouteEvent(c, e);
      RouteSent(RouteUntil(c, EventPackets(e, n)).0, events[1..]);
      AdvancedTwice(c, EventPackets(e, n), SentPackets(events[1..], n1), n1, LastNumber(events[1..], n1),
                    if Numbered(e) then [Arrived(e.m)] else [], Received(events[1..]));
    }
  }

  // ---------- the theorems ----------

  predicate AllEncodable(events: seq<Event>) {
    forall i | 0 <= i < |events| :: !Unencodable(events[i])
  }

  /** Reading everything on the wire is routing the packets that were sent. */
  lemma WireReads(codec: Codec, events: seq<Event>)
    requires AllSendable(codec, events)
    ensures Transmit(codec, FRESH, events).outgoing == LastNumber(events, 0)
    ensures var (r, stop) := Pump(codec, FRESH, Transmit(codec, FRESH, events).wire);
            && r == RouteUntil(FRESH, SentPackets(events, 0)).0
            && match RouteUntil(FRESH, SentPackets(events, 0)).1
               case None => stop == ReadFailed(ReadlineEof)
               case Some(e) => stop == RouteFailed(e)
  {
    WireIsFrames(codec, FRESH, events);
    SentTransmittable(codec, events, 0);
    var ps := SentPackets(events, 0);
    assert [] + Frames(codec, ps) == Frames(codec, ps);
    PumpFrames(codec, FRESH, ps);
  }

  /** What `Send` writes is what the other side delivers: for any messages, with any acknowledgements in
      between, reading ends cleanly with exactly those messages delivered, in order and whole, nothing
      left in the nursery, and both sides at the same message number. */
  lemma EndToEnd(codec: Codec, events: seq<Event>)
    requires AllSendable(codec, events) && AllEncodable(events)
    ensures var s := Transmit(codec, FRESH, events);
            var (r, stop) := Pump(codec, FRESH, s.wire);
            && stop == ReadFailed(ReadlineEof)
            && r.delivered == Received(events)
            && r.nursery == map[]
            && r.incoming == s.outgoing
  {
    WireReads(codec, events);
    RouteSent(FRESH, events);
    FromFresh(LastNumber(events, 0), Received(events), RouteUntil(FRESH, SentPackets(events, 0)));
  }

  /** If the stream breaks off anywhere, the messages delivered are the first few of those sent: none is
      cut short, lost in the middle or invented. */
  lemma BrokenStreamDeliversPrefix(codec: Codec, events: seq<Event>, k: nat)
    requires AllSendable(codec, events) && AllEncodable(events)
    requires k <= |Transmit(codec, FRESH, events).wire|
    ensures Pump(codec, FRESH, Transmit(codec, FRESH, events).wire[..k]).0.delivered <= Received(events)
  {
    WireIsFrames(codec, FRESH, events);
    SentTransmittable(codec, events, 0);
    var ps := SentPackets(events, 0);
    assert [] + Frames(codec, ps) == Frames(codec, ps);
    PumpCut(codec, FRESH, ps, k);
    RouteSent(FRESH, events);
    FromFresh(LastNumber(events, 0), Received(events), RouteUntil(FRESH, SentPackets(events, 0)));
    PrefixRoutesLess(FRESH, ps, WholeFrames(codec, ps, k));
  }

  lemma PrefixRoutesLess(c: Conn, ps: seq<Packet>, j: nat)
    requires j <= |ps|
    ensures RouteUntil(c, ps[..j]).0.delivered <= RouteUntil(c, ps).0.delivered
  {
    TakeDrop(ps, j);
    RouteUntilConcat(c, ps[..j], ps[j..]);
    RouteUntilKeepsDelivered(RouteUntil(c, ps[..j]).0, ps[j..]);
  }

  lemma TakeDrop<T>(s: seq<T>, j: nat)
    requires j <= |s|
    ensures s[..j] + s[j..] == s
  {
  }

  // ---------- a header that cannot be encoded ----------

  /** A message that is actually written. */
  predicate Transmitted(e: Event) { Numbered(e) && !Unencodable(e) }

  lemma RefusedMessage(c: Conn, m: Msg, n: uint64)
    requires n != c.incoming
    ensures RouteUntil(c, ToPackets(m, n)) == (c, Some(OutOfSequence))
  {
  }

  lemma RefusedFirst(c: Conn, a: seq<Packet>, b: seq<Packet>)
    requires RouteUntil(c, a) == (c, Some(OutOfSequence))
    ensures RouteUntil(c, a + b) == (c, Some(OutOfSequence))
  {
    RouteUntilConcat(c, a, b);
  }

  predicate NoneTransmitted(events: seq<Event>) {
    forall i | 0 <= i < |events| :: !Transmitted(events[i])
  }

  /** Nothing has changed, and the stream is refused as soon as it holds a message. */
  predicate Stuck(c: Conn, events: seq<Event>, r: (Conn, Option<RouteError>)) {
    r == (c, if NoneTransmitted(events) then None else Some(OutOfSequence))
  }

  lemma NumbersDiffer(n: uint64, d: nat)
    requires 0 < d < TWO_64
    ensures (n + d) % TWO_64 != n
  {
    if n + d >= TWO_64 {
      assert n + d == 1 * TWO_64 + (n + d - TWO_64);
      QuotientIs(n + d, TWO_64, 1, n + d - TWO_64);
    } else {
      QuotientIs(n + d, TWO_64, 0, n + d);
    }
  }

  /** Once the sender is `d` numbers ahead of what the receiver expects, nothing more is delivered, and
      the first message written breaks the stream. */
  lemma {:induction false} Derailed(c: Conn, events: seq<Event>, d: nat)
    requires 0 < d && d + |events| < TWO_64
    ensures Stuck(c, events, RouteUntil(c, SentPackets(events, (c.incoming + d) % TWO_64)))
    decreases |events|
  {
    if events != [] {
      var e, n := events[0], (c.incoming + d) % TWO_64;
      var n1 := NextNumber(e, n);
      var rest := SentPackets(events[1..], n1);
      var later := RouteUntil(c, rest);
      if Transmitted(e) {
        NumbersDiffer(c.incoming, d);
        RefusedMessage(c, e.m, n);
        RefusedFirst(c, EventPackets(e, n), rest);
      } else {
        AddMod(c.incoming + d, 1);
        Derailed(c, events[1..], if Numbered(e) then d + 1 else d);
        assert RouteUntil(c, EventPackets(e, n)) == (c, None);
        RouteUntilConcat(c, EventPackets(e, n), rest);
        assert NoneTransmitted(events) <==> NoneTransmitted(events[1..]) by {
          assert forall i | 1 <= i < |events| :: events[i] == events[1..][i - 1];
        }
      }
    }
  }

  /** A message whose header cannot be encoded takes a number but writes nothing, and the connection
      never recovers: exactly the messages before it are delivered, and the next message written makes
      the other side stop with an out-of-sequence error. */
  lemma EncodeFailurePoisons(codec: Codec, before: seq<Event>, bad: Event, after: seq<Event>)
    requires AllSendable(codec, before + [bad] + after)
    requires AllEncodable(before) && Unencodable(bad) && |after| + 1 < TWO_64
    ensures var (r, stop) := Pump(codec, FRESH, Transmit(codec, FRESH, before + [bad] + after).wire);
            && r.delivered == Received(before)
            && stop == if NoneTransmitted(after) then ReadFailed(ReadlineEof) else RouteFailed(OutOfSequence)
  {
    WireReads(codec, before + [bad] + after);
    AllWellBuilt(codec, before, [bad], after);
    PoisonedPackets(before, bad, after);
    PoisonedRoute(before, after);
  }

  lemma PoisonedPackets(before: seq<Event>, bad: Event, after: seq<Event>)
    requires Unencodable(bad)
    ensures SentPackets(before + [bad] + after, 0)
         == SentPackets(before, 0) + SentPackets(after, AddU64(LastNumber(before, 0), 1))
  {
    SentSnoc(before, bad, 0);
    SentConcat(before + [bad], after, 0);
    assert SentPackets(before, 0) + [] == SentPackets(before, 0);
  }

  lemma PoisonedRoute(before: seq<Event>, after: seq<Event>)
    requires forall i | 0 <= i < |before| :: (before[i].Send? ==> WellBuilt(before[i].m)) && !Unencodable(before[i])
    requires |after| + 1 < TWO_64
    ensures var r := RouteUntil(FRESH, SentPackets(before, 0) + SentPackets(after, AddU64(LastNumber(before, 0), 1)));
            && r.0.delivered == Received(before)
            && r.1 == if NoneTransmitted(after) then None else Some(OutOfSequence)
  {
    RouteSent(FRESH, before);
    PoisonedAfter(SentPackets(before, 0), LastNumber(before, 0), Received(before), after);
  }

  lemma PoisonedAfter(sent: seq<Packet>, n: uint64, arrived: seq<Msg>, after: seq<Event>)
    requires Advanced(FRESH, n, arrived, RouteUntil(FRESH, sent)) && |after| + 1 < TWO_64
    ensures var r := RouteUntil(FRESH, sent + SentPackets(after, AddU64(n, 1)));
            && r.0.delivered == arrived
            && r.1 == if NoneTransmitted(after) then None else Some(OutOfSequence)
  {
    var c, late := RouteUntil(FRESH, sent).0, SentPackets(after, AddU64(n, 1));
    assert c.delivered == arrived by {
      FromFresh(n, arrived, RouteUntil(FRESH, sent));
    }
    assert Stuck(c, after, RouteUntil(c, late)) by {
      Derailed(c, after, 1);
    }
    assert RouteUntil(FRESH, sent + late) == RouteUntil(c, late) by {
      RouteUntilConcat(FRESH, sent, late);
    }
  }

  lemma FromFresh(n: uint64, arrived: seq<Msg>, r: (Conn, Option<RouteError>))
    requires Advanced(FRESH, n, arrived, r)
    ensures r.0.delivered == arrived
  {
    assert [] + arrived == arrived;
  }

  lemma AllWellBuilt(codec: Codec, a: seq<Event>, b: seq<Event>, c: seq<Event>)
    requires AllSendable(codec, a + b + c)
    ensures forall i | 0 <= i < |a| :: a[i].Send? ==> WellBuilt(a[i].m)
  {
    assert forall i | 0 <= i < |a| :: (a + b + c)[i] == a[i];
  }

  lemma {:induction false} ReceivedConcat(a: seq<Event>, b: seq<Event>)
    ensures Received(a + b) == Received(a) + Received(b)
    decreases |a|
  {
    if a == [] {
      assert a + b == b;
    } else {
      Tail(a, b);
      ReceivedConcat(a[1..], b);
      Associate(if Numbered(a[0]) then [Arrived(a[0].m)] else [], Received(a[1..]), Received(b));
    }
  }

  /** Everything handed to `Send` is delivered if and only if every header can be encoded. */
  lemma DeliveredIffEncodable(codec: Codec, events: seq<Event>)
    requires AllSendable(codec, events) && |events| < TWO_64
    ensures Pump(codec, FRESH, Transmit(codec, FRESH, events).wire).0.delivered == Received(events)
            <==> AllEncodable(events)
  {
    if AllEncodable(events) {
      EndToEnd(codec, events);
    } else {
      var i := FirstUnencodable(events);
      var before, after := events[..i], events[i + 1..];
      SplitAt(events, i);
      EncodeFailurePoisons(codec, before, events[i], after);
      FewerReceived(before, events[i], after);
    }
  }

  lemma SentLast(events: seq<Event>, m: Msg)
    ensures Received(events + [Send(m)])
         == Received(events) + if Numbered(Send(m)) then [Arrived(m)] else []
  {
    ReceivedConcat(events, [Send(m)]);
    assert Received([Send(m)]) == (if Numbered(Send(m)) then [Arrived(m)] else []) + [];
  }

  /** `Send` answers that all is well on an open connection exactly if the other side delivers the message, after
      whatever was sent before; on a closed connection it never does. */
  lemma SendOkIffDelivered(codec: Codec, events: seq<Event>, m: Msg)
    requires AllSendable(codec, events + [Send(m)]) && AllEncodable(events)
    ensures Outcome(m, false) == SendOk
       <==> Pump(codec, FRESH, Transmit(codec, FRESH, events + [Send(m)]).wire).0.delivered
            == Received(events) + [Arrived(m)]
    ensures Outcome(m, true) != SendOk
  {
    SentLast(events, m);
    if Unencodable(Send(m)) {
      assert events + [Send(m)] + [] == events + [Send(m)];
      EncodeFailurePoisons(codec, events, Send(m), []);
    } else {
      EndToEnd(codec, events + [Send(m)]);
    }
  }

  /** A request nobody gave a type. */
  function Untyped(id: int64): Msg { EMPTY_MSG.(head := PacketHeader.ZERO_HEADER.(requestID := id)) }

  /** Such a header exists: a new message has no type, so a request made with nothing but an id is not delivered. */
  lemma UntypedIsLost(codec: Codec, id: int64)
    requires id != 0
    ensures Unencodable(Send(Untyped(id))) && Received([Send(Untyped(id))]) == [Arrived(Untyped(id))]
    ensures Pump(codec, FRESH, Transmit(codec, FRESH, [Send(Untyped(id))]).wire).0.delivered == []
  {
    var e := Send(Untyped(id));
    assert [] + [e] + [] == [e];
    EncodeFailurePoisons(codec, [], e, []);
    assert Received([e]) == [Arrived(e.m)] + Received([]);
  }

  lemma SplitAt<T>(s: seq<T>, i: nat)
    requires i < |s|
    ensures s == s[..i] + [s[i]] + s[i + 1..]
  {
  }

  lemma FewerReceived(before: seq<Event>, bad: Event, after: seq<Event>)
    requires Unencodable(bad)
    ensures |Received(before)| < |Received(before + [bad] + after)|
  {
    ReceivedConcat(before + [bad], after);
    ReceivedConcat(before, [bad]);
    assert |Received([bad])| == 1;
  }

  function FirstUnencodable(events: seq<Event>): (i: nat)
    requires !AllEncodable(events)
    ensures i < |events| && Unencodable(events[i]) && AllEncodable(events[..i])
  {
    if Unencodable(events[0]) then 0
    else
      assert !AllEncodable(events[1..]) by {
        var k :| 0 <= k < |events| && Unencodable(events[k]);
        assert events[1..][k - 1] == events[k];
      }
      1 + FirstUnencodable(events[1..])
  }
}
