/** Messages, the chunking of their bodies and their split into packets (`scamp/message.go`). */
module Message {
  import opened Text
  import Json
  import PacketHeader
  import opened Packet

  const MSG_CHUNK_SIZE := 128 * 1024

  /** The value of a message: its ten header fields, its body packets and its byte counter. */
  datatype Msg = Msg(head: PacketHeader.Header, packets: seq<Packet>, bytesWritten: uint64)

  const EMPTY_MSG := Msg(PacketHeader.ZERO_HEADER, [], 0)

  function DataPacket(body: Bytes): Packet { Packet(DATA, 0, PacketHeader.ZERO_HEADER, body) }

  function DataPackets(bodies: seq<Bytes>): seq<Packet> {
    seq(|bodies|, i requires 0 <= i < |bodies| => DataPacket(bodies[i]))
  }

  /** The packet bodies in order: `Message.Bytes`. */
  function Body(packets: seq<Packet>): Bytes {
    if packets == [] then [] else Body(packets[..|packets| - 1]) + packets[|packets| - 1].body
  }

  /** `Message.Write`. */
  function Written(m: Msg, blob: Bytes): Msg {
    m.(packets := m.packets + [DataPacket(blob)], bytesWritten := AddU64(m.bytesWritten, |blob|))
  }

  /** `Message.WriteJSON` once the payload is encoded. */
  function WrittenChunks(m: Msg, payload: Bytes, size: nat): Msg
    requires size > 0
  {
    m.(packets := m.packets + DataPackets(Chunks(payload, size)),
       bytesWritten := AddU64(m.bytesWritten, |payload|))
  }

  /** What every message built through its methods satisfies. */
  predicate WellBuilt(m: Msg) {
    && (forall p <- m.packets :: p.kind == DATA && p.header == PacketHeader.ZERO_HEADER)
    && m.bytesWritten == |Body(m.packets)| % TWO_64
  }

  // ---------- chunking ----------

  function ChunkLoop(slice: Bytes, size: nat): seq<Bytes>
    requires size > 0
    decreases |slice|
  {
    if |slice| < size then [slice] else [slice[..size]] + ChunkLoop(slice[size..], size)
  }

  function Chunks(payload: Bytes, size: nat): seq<Bytes>
    requires size > 0
  {
    if |payload| > size then ChunkLoop(payload, size) else [payload]
  }

  lemma MulMonotone(a: nat, b: nat, d: nat)
    requires a <= b
    ensures a * d <= b * d
  {
    assert b * d == a * d + (b - a) * d;
  }

  lemma QuotientIs(n: nat, d: nat, q: nat, r: nat)
    requires 0 < d && r < d && n == q * d + r
    ensures n / d == q && n % d == r
  {
    var q', r' := n / d, n % d;
    assert n == q' * d + r' && r' < d;
    assert (q + 1) * d == q * d + d && (q' + 1) * d == q' * d + d;
    if q + 1 <= q' {
      MulMonotone(q + 1, q', d);
    } else if q' + 1 <= q {
      MulMonotone(q' + 1, q, d);
    }
  }

  lemma DivideStep(n: nat, d: nat)
    requires 0 < d <= n
    ensures (n - d) / d + 1 == n / d && (n - d) % d == n % d
  {
    var q, r := (n - d) / d, (n - d) % d;
    assert n - d == q * d + r;
    assert (q + 1) * d == q * d + d;
    QuotientIs(n, d, q + 1, r);
  }

  lemma {:induction false} ChunkLoopConserves(slice: Bytes, size: nat)
    requires size > 0
    ensures Concat(ChunkLoop(slice, size)) == slice
    decreases |slice|
  {
    if |slice| < size {
      assert Concat([slice]) == slice + Concat([]);
    } else {
      var rest := slice[size..];
      ChunkLoopConserves(rest, size);
      assert slice == slice[..size] + rest;
      assert ChunkLoop(slice, size)[1..] == ChunkLoop(rest, size);
    }
  }

  lemma {:induction false} ChunkLoopSizes(slice: Bytes, size: nat)
    requires size > 0
    ensures |ChunkLoop(slice, size)| == |slice| / size + 1
    ensures forall i | 0 <= i < |slice| / size :: |ChunkLoop(slice, size)[i]| == size
    ensures |ChunkLoop(slice, size)[|slice| / size]| == |slice| % size < size
    decreases |slice|
  {
    if |slice| < size {
      QuotientIs(|slice|, size, 0, |slice|);
    } else {
      var rest := slice[size..];
      ChunkLoopSizes(rest, size);
      DivideStep(|slice|, size);
      var tail := ChunkLoop(rest, size);
      assert forall i | 1 <= i <= |tail| :: ChunkLoop(slice, size)[i] == tail[i - 1];
    }
  }

  /** Chunking cuts nothing and adds nothing: the pieces join up to the payload and none exceeds the
      chunk size. A payload above it becomes full pieces and one shorter, possibly empty, last piece. */
  lemma ChunksConserve(payload: Bytes, size: nat)
    requires size > 0
    ensures Concat(Chunks(payload, size)) == payload
    ensures forall i | 0 <= i < |Chunks(payload, size)| :: |Chunks(payload, size)[i]| <= size
    ensures |Chunks(payload, size)| == if |payload| <= size then 1 else |payload| / size + 1
    ensures |payload| > size ==> forall i | 0 <= i < |payload| / size :: |Chunks(payload, size)[i]| == size
  {
    if |payload| > size {
      ChunkLoopConserves(payload, size);
      ChunkLoopSizes(payload, size);
    } else {
      assert Concat([payload]) == payload + Concat([]);
    }
  }

  lemma LastChunk(packets: seq<Packet>, chunk: Bytes)
    ensures packets + DataPackets([chunk]) == packets + [DataPacket(chunk)]
  {
  }

  lemma DataPacketsCons(first: Bytes, rest: seq<Bytes>)
    ensures DataPackets([first] + rest) == [DataPacket(first)] + DataPackets(rest)
  {
  }

  /** One turn of the chunking loop moves the first piece from what is left to what is done. */
  lemma PeelChunk(packets: seq<Packet>, slice: Bytes, size: nat)
    requires size > 0
    ensures packets + DataPackets(ChunkLoop(slice, size))
         == if |slice| < size then packets + [DataPacket(slice)]
            else packets + [DataPacket(slice[..size])] + DataPackets(ChunkLoop(slice[size..], size))
  {
    if |slice| < size {
      LastChunk(packets, slice);
    } else {
      var rest := ChunkLoop(slice[size..], size);
      DataPacketsCons(slice[..size], rest);
      Associate(packets, [DataPacket(slice[..size])], DataPackets(rest));
    }
  }

  // ---------- bodies ----------

  lemma BodySnoc(packets: seq<Packet>, p: Packet)
    ensures Body(packets + [p]) == Body(packets) + p.body
  {
    assert (packets + [p])[..|packets|] == packets;
  }

  lemma {:induction false} BodyOfDataPackets(packets: seq<Packet>, bodies: seq<Bytes>)
    ensures Body(packets + DataPackets(bodies)) == Body(packets) + Concat(bodies)
    decreases |bodies|
  {
    if bodies == [] {
      assert packets + DataPackets(bodies) == packets;
    } else {
      var first := packets + [DataPacket(bodies[0])];
      assert packets + DataPackets(bodies) == first + DataPackets(bodies[1..]);
      BodySnoc(packets, DataPacket(bodies[0]));
      BodyOfDataPackets(first, bodies[1..]);
      assert Body(packets) + bodies[0] + Concat(bodies[1..]) == Body(packets) + (bodies[0] + Concat(bodies[1..]));
    }
  }

  /** Every mixture of `Write` and `WriteJSON` appends exactly what it was given to `Bytes()` and keeps
      the counter equal to its length. */
  lemma WrittenBody(m: Msg, blob: Bytes)
    requires WellBuilt(m)
    ensures WellBuilt(Written(m, blob))
    ensures Body(Written(m, blob).packets) == Body(m.packets) + blob
  {
    BodySnoc(m.packets, DataPacket(blob));
    AddMod(|Body(m.packets)|, |blob|);
  }

  lemma WrittenChunksBody(m: Msg, payload: Bytes, size: nat)
    requires size > 0 && WellBuilt(m)
    ensures WellBuilt(WrittenChunks(m, payload, size))
    ensures Body(WrittenChunks(m, payload, size).packets) == Body(m.packets) + payload
  {
    BodyOfDataPackets(m.packets, Chunks(payload, size));
    ChunksConserve(payload, size);
    AddMod(|Body(m.packets)|, |payload|);
  }

  lemma AddMod(a: nat, b: nat)
    ensures AddU64(a % TWO_64, b) == (a + b) % TWO_64
  {
    var q, r := a / TWO_64, a % TWO_64;
    assert a + b == (q + (r + b) / TWO_64) * TWO_64 + (r + b) % TWO_64;
    QuotientIs(a + b, TWO_64, q + (r + b) / TWO_64, (r + b) % TWO_64);
  }

  // ---------- packets ----------

  function Stamped(packets: seq<Packet>, msgNo: uint64): (r: seq<Packet>)
    ensures |r| == |packets|
    ensures forall i | 0 <= i < |packets| :: r[i] == packets[i].(msgNo := msgNo)
  {
    seq(|packets|, i requires 0 <= i < |packets| => packets[i].(msgNo := msgNo))
  }

  function HeaderPacket(m: Msg, msgNo: uint64): Packet { Packet(HEADER, msgNo, m.head, []) }

  function EofPacket(msgNo: uint64): Packet { Packet(EOF, msgNo, PacketHeader.ZERO_HEADER, []) }

  /** `Message.toPackets`. */
  function ToPackets(m: Msg, msgNo: uint64): seq<Packet> {
    [HeaderPacket(m, msgNo)] + (Stamped(m.packets, msgNo) + [EofPacket(msgNo)])
  }

  /** Restamping keeps every body and gives every packet the number. */
  lemma {:induction false} StampedBody(packets: seq<Packet>, msgNo: uint64)
    ensures Body(Stamped(packets, msgNo)) == Body(packets)
    ensures forall p <- Stamped(packets, msgNo) :: p.msgNo == msgNo
  {
    if packets != [] {
      var init := packets[..|packets| - 1];
      StampedBody(init, msgNo);
      assert Stamped(packets, msgNo)[..|packets| - 1] == Stamped(init, msgNo);
    }
  }

  // ---------- the message object ----------

  class Message {
    var action: string
    var envelope: int64
    var requestID: int64
    var clientID: int64
    var version: int64
    var messageType: int64
    var packets: seq<Packet>
    var bytesWritten: uint64
    var ticket: string
    var identifyingToken: string
    var error: string
    var errorCode: string

    /** `NewMessage`. */
    constructor ()
      ensures Value() == EMPTY_MSG && WellBuilt(Value())
    {
      action, envelope, requestID, clientID, version, messageType := "", 0, 0, 0, 0, 0;
      packets, bytesWritten := [], 0;
      ticket, identifyingToken, error, errorCode := "", "", "", "";
    }

    function Head(): PacketHeader.Header
      reads this
    {
      PacketHeader.Header(action, envelope, error, errorCode, requestID, clientID, ticket, identifyingToken,
                          messageType, version)
    }

    function Value(): Msg
      reads this
    {
      Msg(Head(), packets, bytesWritten)
    }

    method Write(blob: Bytes) returns (n: nat)
      modifies this`packets, this`bytesWritten
      ensures Value() == Written(old(Value()), blob) && n == |blob|
    {
      bytesWritten := AddU64(bytesWritten, |blob|);
      packets := packets + [DataPacket(blob)];
      n := |blob|;
    }

    method SetError(err: string)
      modifies this`error
      ensures Value() == old(Value()).(head := old(Head()).(error := err))
    {
      error := err;
    }

    method WriteJSON(codec: Json.Codec, data: Json.Json)
      modifies this`packets, this`bytesWritten
      ensures Value() == WrittenChunks(old(Value()), codec.encode(data) + NEWLINE, MSG_CHUNK_SIZE)
    {
      var buf := codec.encode(data) + NEWLINE;
      bytesWritten := AddU64(bytesWritten, |buf|);
      if |buf| > MSG_CHUNK_SIZE {
        var slice := buf;
        while |slice| >= MSG_CHUNK_SIZE
          invariant packets + DataPackets(ChunkLoop(slice, MSG_CHUNK_SIZE))
                 == old(packets) + DataPackets(ChunkLoop(buf, MSG_CHUNK_SIZE))
          invariant bytesWritten == AddU64(old(bytesWritten), |buf|)
          decreases |slice|
        {
          PeelChunk(packets, slice, MSG_CHUNK_SIZE);
          var chunk := slice[..MSG_CHUNK_SIZE];
          slice := slice[MSG_CHUNK_SIZE..];
          packets := packets + [DataPacket(chunk)];
        }
        PeelChunk(packets, slice, MSG_CHUNK_SIZE);
        packets := packets + [DataPacket(slice)];
      } else {
        LastChunk(packets, buf);
        packets := packets + [DataPacket(buf)];
      }
    }

    /** The packets of the message, all stamped with its number, the stored ones in place. */
    method AsPackets(msgNo: uint64) returns (r: seq<Packet>)
      modifies this`packets
      ensures r == ToPackets(old(Value()), msgNo)
      ensures packets == Stamped(old(packets), msgNo)
    {
      var stamped: seq<Packet> := [];
      while |stamped| < |packets|
        invariant |stamped| <= |packets| == |old(packets)|
        invariant forall j | 0 <= j < |stamped| :: packets[j] == stamped[j] == old(packets)[j].(msgNo := msgNo)
        invariant forall j | |stamped| <= j < |packets| :: packets[j] == old(packets)[j]
      {
        var i := |stamped|;
        packets := packets[i := packets[i].(msgNo := msgNo)];
        stamped := stamped + [packets[i]];
      }
      assert stamped == packets == Stamped(old(packets), msgNo);
      r := [Packet(HEADER, msgNo, Head(), [])] + (stamped + [EofPacket(msgNo)]);
    }

    method Bytes() returns (r: Text.Bytes)
      ensures r == Body(packets)
    {
      r := [];
      for i := 0 to |packets|
        invariant r == Body(packets[..i])
      {
        r := r + packets[i].body;
        BodySnoc(packets[..i], packets[i]);
        assert packets[..i + 1] == packets[..i] + [packets[i]];
      }
      assert packets[..|packets|] == packets;
    }
  }
}
