/** A client (`scamp/client.go`): numbering requests, remembering who waits for which reply, and telling
    incoming requests from incoming replies. */
module Client {
  import opened Text
  import PacketHeader
  import opened Message
  import opened Connection
  import Channel

  // ---------- the reply table as a value ----------

  datatype ChanState<T> = ChanState(sent: seq<T>, closed: bool)

  /** A reply channel with the request id it was made for. */
  datatype Reply<T> = Reply(id: int64, chan: ChanState<T>)

  /** The table of a client: every reply channel ever made, which of them is open under which id, and
      the channel of incoming requests. */
  datatype Table<T> = Table(
    nextRequestID: int64,
    open: map<int64, nat>,
    replies: seq<Reply<T>>,
    requests: ChanState<T>)

  /** Go's increment of an `int`, which wraps around. */
  function NextID(id: int64): int64 { if id == TWO_63 - 1 then -TWO_63 else id + 1 }

  function EmptyTable<T>(): Table<T> { Table(0, map[], [], ChanState([], false)) }

  /** Open ids lead to channels made for them. */
  predicate Consistent<T>(t: Table<T>) {
    forall id <- t.open :: t.open[id] < |t.replies| && t.replies[t.open[id]].id == id
  }

  /** No channel that can still be sent on is closed. */
  predicate Live<T>(t: Table<T>) {
    !t.requests.closed && forall id <- t.open :: t.open[id] < |t.replies| && !t.replies[t.open[id]].chan.closed
  }

  function Put<T>(c: ChanState<T>, v: T): ChanState<T> { c.(sent := c.sent + [v]) }

  /** A fresh channel under this id; one that was there before is forgotten. */
  function Register<T>(t: Table<T>, id: int64): Table<T> {
    t.(open := t.open[id := |t.replies|], replies := t.replies + [Reply(id, ChanState([], false))])
  }

  function PutReply<T>(t: Table<T>, h: nat, v: T): Table<T>
    requires h < |t.replies|
  {
    t.(replies := t.replies[h := t.replies[h].(chan := Put(t.replies[h].chan, v))])
  }

  /** One turn of `splitReqsAndReps`: a request goes to the service; a reply goes to whoever waits for
      its id, once; anything else is dropped. */
  function Split<T>(t: Table<T>, v: T, messageType: int64, id: int64): Table<T>
    requires Consistent(t)
  {
    if messageType == PacketHeader.MESSAGE_TYPE_REQUEST then t.(requests := Put(t.requests, v))
    else if messageType == PacketHeader.MESSAGE_TYPE_REPLY && id in t.open then
      PutReply(t.(open := t.open - {id}), t.open[id], v)
    else t
  }

  lemma SplitKeeps<T>(t: Table<T>, v: T, messageType: int64, id: int64)
    requires Consistent(t)
    ensures Consistent(Split(t, v, messageType, id))
    ensures Live(t) ==> Live(Split(t, v, messageType, id))
  {
  }

  /** Closing every open reply channel. */
  function CloseOpen<T>(t: Table<T>): (r: Table<T>)
    ensures |r.replies| == |t.replies|
  {
    t.(replies := seq(|t.replies|, h requires 0 <= h < |t.replies| =>
         if h in t.open.Values then t.replies[h].(chan := t.replies[h].chan.(closed := true)) else t.replies[h]))
  }

  /** Closing the channel of requests and every open reply channel. */
  function CloseAll<T>(t: Table<T>): (r: Table<T>)
    ensures |r.replies| == |t.replies|
  {
    CloseOpen(t.(requests := t.requests.(closed := true)))
  }

  /** The increment of a signed 64-bit number: one more, modulo 2^64. */
  lemma NextIDWraps(id: int64)
    ensures NextID(id) as int % TWO_64 == (id as int + 1) % TWO_64
    ensures id < TWO_63 - 1 ==> NextID(id) == id + 1
  {
    if id == TWO_63 - 1 { assert TWO_63 % TWO_64 == (-TWO_63) % TWO_64; }
  }

  datatype ClientOutcome = Sent(conn: SendOutcome) | NilConnection

  /** The table after `Client.Send`: the id is used up in any case; only a request that was sent makes a
      reply channel. */
  function SendTable<T>(t: Table<T>, messageType: int64, outcome: ClientOutcome): Table<T> {
    var t' := t.(nextRequestID := NextID(t.nextRequestID));
    if outcome == Sent(SendOk) && messageType == PacketHeader.MESSAGE_TYPE_REQUEST
    then Register(t', t'.nextRequestID) else t'
  }

  function WithRequestID(m: Msg, id: int64): Msg { m.(head := m.head.(requestID := id)) }

  /** A reply channel is made for a request with an id and a header that can be encoded, on an open connection. */
  predicate ReplyExpected(head: PacketHeader.Header, isClosed: bool) {
    && head.messageType == 1 && head.requestID != 0 && (head.envelope == 0 || head.envelope == 1)
    && !isClosed
  }

  /** `splitReqsAndReps` over a list of messages. */
  ghost function SplitAll(t: Table<Message>, ms: seq<Message>): (r: Table<Message>)
    requires Consistent(t)
    reads set m | m in ms
    ensures Consistent(r)
  {
    if ms == [] then t
    else
      var m := ms[|ms| - 1];
      var t' := SplitAll(t, ms[..|ms| - 1]);
      SplitKeeps(t', m, m.messageType, m.requestID);
      Split(t', m, m.messageType, m.requestID)
  }

  /** The requests among the messages, in order. */
  ghost function RequestsAmong(ms: seq<Message>): seq<Message>
    reads set m | m in ms
  {
    if ms == [] then []
    else RequestsAmong(ms[..|ms| - 1]) + if ms[|ms| - 1].messageType == 1 then [ms[|ms| - 1]] else []
  }

  /** Splitting hands the service the requests, in the order in which they came. */
  lemma {:induction false} SplitHandsOnRequests(t: Table<Message>, ms: seq<Message>)
    requires Consistent(t)
    ensures SplitAll(t, ms).requests == ChanState(t.requests.sent + RequestsAmong(ms), t.requests.closed)
    decreases |ms|
  {
    if ms == [] {
      assert t.requests.sent + [] == t.requests.sent;
    } else {
      var init, m := ms[..|ms| - 1], ms[|ms| - 1];
      SplitHandsOnRequests(t, init);
      SplitRequests(SplitAll(t, init), m, m.messageType, m.requestID);
      Associate(t.requests.sent, RequestsAmong(init), if m.messageType == 1 then [m] else []);
    }
  }

  lemma SplitRequests<T>(t: Table<T>, v: T, messageType: int64, id: int64)
    requires Consistent(t)
    ensures Split(t, v, messageType, id).requests
         == ChanState(t.requests.sent + if messageType == 1 then [v] else [], t.requests.closed)
  {
    assert t.requests.sent + [] == t.requests.sent;
  }

  // ---------- the client object ----------

  class Client {
    var conn: Connection?
    const requests: Channel.Chan<Message>
    var openReplies: map<int64, Channel.Chan<Message>>
    var isClosed: bool
    var nextRequestID: int64
    /** Every reply channel ever made. */
    ghost var handles: seq<Channel.Chan<Message>>
    ghost var table: Table<Message>

    ghost predicate Valid()
      reads this, requests, set h | h in handles
    {
      && table.nextRequestID == nextRequestID
      && table.requests == ChanState(requests.sent, requests.closed)
      && HandlesHold()
      && Consistent(table)
      && openReplies.Keys == table.open.Keys
      && (forall id <- openReplies :: openReplies[id] == handles[table.open[id]])
    }

    ghost predicate HandlesHold()
      reads this, requests, set h | h in handles
    {
      && |handles| == |table.replies|
      && requests !in handles
      && (forall i | 0 <= i < |handles| :: handles[i].tag == i)
      && (forall i | 0 <= i < |handles| :: table.replies[i].chan == ChanState(handles[i].sent, handles[i].closed))
    }

    /** `NewClient`. */
    constructor (conn: Connection)
      ensures Valid() && table == EmptyTable() && Live(table) && this.conn == conn && !isClosed
      ensures fresh(requests) && handles == []
    {
      this.conn := conn;
      requests := new Channel.Chan();
      openReplies, isClosed, nextRequestID := map[], false, 0;
      handles, table := [], EmptyTable();
    }

    /** Makes a reply channel under the id. */
    method MakeReply(id: int64) returns (replyChan: Channel.Chan<Message>)
      requires Valid()
      modifies this`openReplies, this`handles, this`table
      ensures Valid() && fresh(replyChan)
      ensures table == Register(old(table), id) && handles == old(handles) + [replyChan]
    {
      replyChan := new Channel.Chan(|handles|);
      openReplies := openReplies[id := replyChan];
      handles := handles + [replyChan];
      table := Register(table, id);
    }

    /** The same, with a connection that is left as it was. */
    method RegisterReply(id: int64) returns (replyChan: Channel.Chan<Message>)
      requires Valid() && conn != null && conn.Valid()
      modifies this`openReplies, this`handles, this`table
      ensures Valid() && conn.Valid() && fresh(replyChan)
      ensures table == Register(old(table), id) && handles == old(handles) + [replyChan]
    {
      replyChan := MakeReply(id);
    }

    /** Takes the next id and stamps the message with it. */
    method TakeID(msg: Message)
      requires Valid()
      modifies this`nextRequestID, this`table, msg`requestID
      ensures Valid() && table == old(table).(nextRequestID := NextID(old(table).nextRequestID))
      ensures msg.Value() == WithRequestID(old(msg.Value()), nextRequestID)
      ensures msg.requestID == nextRequestID && msg.Head() == old(msg.Head()).(requestID := nextRequestID)
    {
      nextRequestID := NextID(nextRequestID);
      table := table.(nextRequestID := nextRequestID);
      msg.requestID := nextRequestID;
    }

    /** The same, over a connection that is left as it was. */
    method TakeConnectedID(msg: Message)
      requires Valid() && conn != null && conn.Valid() && msg !in conn.tracked
      modifies this`nextRequestID, this`table, msg`requestID
      ensures Valid() && table == old(table).(nextRequestID := NextID(old(table).nextRequestID))
      ensures msg.Value() == WithRequestID(old(msg.Value()), nextRequestID)
      ensures msg.requestID == nextRequestID && msg.Head() == old(msg.Head()).(requestID := nextRequestID)
      ensures conn.Valid()
    {
      TakeID(msg);
    }

    /** Hands a message with its id to the connection. */
    method HandOver(msg: Message) returns (sent: SendOutcome)
      requires Valid() && conn != null && conn.Valid() && msg !in conn.tracked && WellBuilt(msg.Value())
      modifies msg`packets, conn`outgoingmsgno, conn`state, conn.rw`output
      ensures Valid() && conn.Valid()
      ensures sent == Outcome(old(msg.Value()), conn.isClosed)
      ensures conn.state == Sending(conn.codec, old(conn.state), old(msg.Value()))
    {
      sent := conn.Send(msg);
    }

    /** Sends a message over a connection and, if it is a request that went out, makes the channel for its reply. */
    method SendConnected(msg: Message) returns (replyChan: Channel.Chan?<Message>, sent: SendOutcome)
      requires Valid() && conn != null && conn.Valid() && msg !in conn.tracked && WellBuilt(msg.Value())
      modifies this`nextRequestID, this`openReplies, this`handles, this`table
      modifies msg`requestID, msg`packets, conn`outgoingmsgno, conn`state, conn.rw`output
      ensures Valid() && conn.Valid()
      ensures table == SendTable(old(table), msg.messageType, Sent(sent))
      ensures sent == Outcome(WithRequestID(old(msg.Value()), nextRequestID), conn.isClosed)
      ensures conn.state == Sending(conn.codec, old(conn.state), WithRequestID(old(msg.Value()), nextRequestID))
      ensures msg.requestID == nextRequestID && msg.Head() == old(msg.Head()).(requestID := nextRequestID)
      ensures replyChan != null <==> ReplyExpected(msg.Head(), conn.isClosed)
      ensures replyChan != null ==> nextRequestID in openReplies && openReplies[nextRequestID] == replyChan
      ensures replyChan == null ==> handles == old(handles)
      ensures replyChan != null ==> fresh(replyChan) && handles == old(handles) + [replyChan]
    {
      replyChan := null;
      TakeConnectedID(msg);
      sent := HandOver(msg);
      if sent == SendOk && msg.messageType == PacketHeader.MESSAGE_TYPE_REQUEST {
        replyChan := RegisterReply(msg.requestID);
      }
    }

    /** Sends a message and, if it is a request that went out, makes the channel for its reply. */
    method Send(msg: Message) returns (replyChan: Channel.Chan?<Message>, r: ClientOutcome)
      requires Valid()
      requires conn != null ==> conn.Valid() && msg !in conn.tracked && WellBuilt(msg.Value())
      modifies this`nextRequestID, this`openReplies, this`handles, this`table
      modifies msg`requestID, msg`packets
      modifies if conn == null then {} else {conn, conn.rw}
      ensures Valid() && conn == old(conn)
      ensures table == SendTable(old(table), msg.messageType, r)
      ensures conn == null ==> r == NilConnection
      ensures conn != null ==>
                && conn.Valid()
                && r == Sent(Outcome(WithRequestID(old(msg.Value()), nextRequestID), conn.isClosed))
                && conn.state == Sending(conn.codec, old(conn.state), WithRequestID(old(msg.Value()), nextRequestID))
      ensures msg.requestID == nextRequestID && msg.Head() == old(msg.Head()).(requestID := nextRequestID)
      ensures replyChan != null <==> conn != null && ReplyExpected(msg.Head(), conn.isClosed)
      ensures replyChan != null ==> nextRequestID in openReplies && openReplies[nextRequestID] == replyChan
      ensures replyChan == null <==> |table.replies| == old(|table.replies|)
      ensures replyChan == null ==> handles == old(handles)
      ensures replyChan != null ==> fresh(replyChan) && handles == old(handles) + [replyChan]
    {
      if conn == null {
        TakeID(msg);
        replyChan, r := null, NilConnection;
      } else {
        var sent;
        replyChan, sent := SendConnected(msg);
        r := Sent(sent);
      }
    }

    /** One turn of the splitting loop. */
    method SplitOne(message: Message)
      requires Valid() && Live(table)
      modifies this`openReplies, this`table, requests`sent, set h | h in handles
      ensures Valid() && Live(table) && handles == old(handles)
      ensures table == Split(old(table), message, message.messageType, message.requestID)
    {
      SplitKeeps(table, message, message.messageType, message.requestID);
      if message.messageType == PacketHeader.MESSAGE_TYPE_REQUEST {
        requests.Send(message);
        table := table.(requests := Put(table.requests, message));
      } else if message.messageType == PacketHeader.MESSAGE_TYPE_REPLY {
        var id := message.requestID;
        if id !in openReplies { return; }
        var replyChan := openReplies[id];
        openReplies := openReplies - {id};
        replyChan.Send(message);
        table := PutReply(table.(open := table.open - {id}), table.open[id], message);
      }
    }

    /** Closes the connection, once. */
    method Close() returns (closedSocket: bool)
      requires !isClosed ==> conn != null
      modifies this`conn, this`isClosed
      modifies (if conn == null then {} else {conn})`isClosed
      ensures isClosed
      ensures old(isClosed) ==> conn == old(conn) && !closedSocket
      ensures !old(isClosed) ==> conn == null && old(conn).isClosed && closedSocket == !old(conn.isClosed)
    {
      closedSocket := false;
      if isClosed { return; }
      if !conn.isClosed {
        closedSocket := conn.Close();
      }
      conn := null;
      isClosed := true;
    }

    /** Closes every channel someone may be waiting on. */
    method CloseReplies()
      requires Valid() && Live(table)
      modifies this`table, requests`closed, (set h | h in handles)`closed
      ensures Valid() && table == CloseAll(old(table)) && requests.closed
    {
      requests.Close();
      table := table.(requests := table.requests.(closed := true));
      CloseTracked();
    }

    method CloseTracked()
      requires Valid()
      requires forall id <- table.open :: !table.replies[table.open[id]].chan.closed
      modifies this`table, (set h | h in handles)`closed
      ensures Valid() && table == CloseOpen(old(table))
    {
      CloseOpenReplies();
      HandlesOfOpen();
      table := CloseOpen(table);
    }

    /** The channels in the table of open replies are those whose index is open. */
    lemma HandlesOfOpen()
      requires |handles| == |table.replies| && Consistent(table) && openReplies.Keys == table.open.Keys
      requires forall i | 0 <= i < |handles| :: handles[i].tag == i
      requires forall id <- openReplies :: openReplies[id] == handles[table.open[id]]
      ensures forall i | 0 <= i < |handles| :: handles[i] in openReplies.Values <==> i in table.open.Values
    {
      forall i | 0 <= i < |handles| && i in table.open.Values ensures handles[i] in openReplies.Values {
        var id :| id in table.open && table.open[id] == i;
        assert openReplies[id] == handles[i];
      }
    }

    method CloseOpenReplies()
      requires forall id <- openReplies :: !openReplies[id].closed
      requires forall id, k | id in openReplies && k in openReplies && id != k :: openReplies[id] != openReplies[k]
      modifies openReplies.Values`closed
      ensures forall c <- openReplies.Values :: c.closed
    {
      var todo := openReplies.Keys;
      while todo != {}
        invariant todo <= openReplies.Keys
        invariant forall id <- openReplies :: openReplies[id].closed <==> id !in todo
        decreases |todo|
      {
        var id :| id in todo;
        var openReplyChan := openReplies[id];
        openReplyChan.Close();
        todo := todo - {id};
      }
    }

    /** Splits the messages one after another. */
    method SplitMessages(messages: seq<Message>)
      requires Valid() && Live(table)
      modifies this`openReplies, this`table, requests`sent, set h | h in handles
      ensures Valid() && Live(table) && handles == old(handles)
      ensures table == SplitAll(old(table), messages)
    {
      for i := 0 to |messages|
        invariant Valid() && Live(table) && handles == old(handles)
        invariant table == SplitAll(old(table), messages[..i])
      {
        assert messages[..i + 1][..i] == messages[..i];
        SplitOne(messages[i]);
      }
      assert messages[..|messages|] == messages;
    }

    /** Splits the messages, then closes every channel someone may be waiting on. */
    method SplitThenCloseReplies(messages: seq<Message>)
      requires Valid() && Live(table)
      modifies this`openReplies, this`table, requests, set h | h in handles
      ensures Valid() && handles == old(handles)
      ensures table == CloseAll(SplitAll(old(table), messages))
    {
      SplitMessages(messages);
      CloseReplies();
    }

    /** Splits everything that arrives until the connection's channel is closed, then shuts down: every
        channel someone may be waiting on is closed, and the client is. */
    method SplitReqsAndReps(msgs: Channel.Chan<Message>)
      requires Valid() && Live(table) && msgs.closed && msgs != requests && msgs !in handles
      requires !isClosed ==> conn != null
      modifies this`openReplies, this`table, this`conn, this`isClosed, requests, set h | h in handles
      modifies (if conn == null then {} else {conn})`isClosed
      ensures Valid() && isClosed && handles == old(handles)
      ensures table == CloseAll(SplitAll(old(table), msgs.sent))
    {
      SplitThenCloseReplies(msgs.sent);
      if !isClosed {
        var _ := Close();
      }
    }
  }
}
