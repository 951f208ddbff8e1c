/** The goroutines around one client, interleaved in every possible way: `packetReader`
    (`scamp/connection.go`), `splitReqsAndReps`, callers of `Send` and callers of `Close`
    (`scamp/client.go`). Channels are taken to be unbounded, which allows more interleavings than Go's
    unbuffered ones do. */
module Sessions {
  import opened Text
  import opened PacketHeader
  import opened Message
  import Connection
  import opened Client

  /** The reading goroutine: reading, past its loop after an error, or returned. */
  datatype Reader = Reading | Stopped | ReaderDone

  /** The splitting goroutine, between its atomic actions. `Waiting` has looked up its connection's channel;
      `Answering` has taken a reply channel out of the table and is about to send on it; `ClosingReplies`
      holds the table's lock. */
  datatype Splitter =
    | Idle
    | Waiting
    | Holding(m: Msg)
    | Answering(h: nat, reply: Msg)
    | Draining
    | Locking
    | ClosingReplies(todo: set<int64>)
    | Finishing
    | SplitterDone

  /** The caller inside `Send`, if any (one at a time): its message is written but not yet registered. */
  datatype Sender = Free | Registering(id: int64, isRequest: bool)

  /** `late` are the reply channels made after the splitter began to close them. */
  datatype Session = Session(
    table: Table<Msg>,
    msgs: ChanState<Msg>,
    taken: nat,
    reader: Reader,
    splitter: Splitter,
    sender: Sender,
    connClosed: bool,
    clientClosed: bool,
    socketCloses: nat,
    sends: nat,
    late: set<nat>,
    panicked: bool)

  const START := Session(EmptyTable(), ChanState([], false), 0, Reading, Idle, Free, false, false, 0, 0, {}, false)

  /** One atomic action of one goroutine. */
  datatype Step =
    | ReaderDelivers(m: Msg)
    | ReaderFails
    | ReaderCloses
    | SplitterLooks
    | SplitterTakes
    | SplitterSorts
    | SplitterAnswers
    | SplitterClosesRequests
    | SplitterLocks
    | SplitterClosesReply(id: int64)
    | SplitterUnlocks
    | SplitterClosesClient
    | SendWrites(isRequest: bool)
    | SendFails
    | SendRegisters
    | ClientCloses
    | ConnectionCloses

  // ---------- channel operations ----------

  /** Sending on a closed channel panics. */
  function Panic(s: Session): Session { s.(panicked := true) }

  function SendMsgs(s: Session, m: Msg): Session {
    if s.msgs.closed then Panic(s) else s.(msgs := Put(s.msgs, m))
  }

  function CloseMsgs(s: Session): Session {
    if s.msgs.closed then Panic(s) else s.(msgs := s.msgs.(closed := true))
  }

  function SendRequest(s: Session, m: Msg): Session {
    if s.table.requests.closed then Panic(s)
    else s.(table := s.table.(requests := Put(s.table.requests, m)))
  }

  function CloseRequests(s: Session): Session {
    if s.table.requests.closed then Panic(s)
    else s.(table := s.table.(requests := s.table.requests.(closed := true)))
  }

  function SendReply(s: Session, h: nat, m: Msg): Session
    requires h < |s.table.replies|
  {
    if s.table.replies[h].chan.closed then Panic(s) else s.(table := PutReply(s.table, h, m))
  }

  function CloseReply(s: Session, h: nat): Session
    requires h < |s.table.replies|
  {
    var r := s.table.replies[h];
    if r.chan.closed then Panic(s)
    else s.(table := s.table.(replies := s.table.replies[h := r.(chan := r.chan.(closed := true))]))
  }

  // ---------- steps ----------

  predicate LockFree(s: Session) { !s.splitter.ClosingReplies? }

  /** From here on the splitter has begun to close the reply channels. */
  predicate ClosingBegan(s: Session) {
    s.splitter.ClosingReplies? || s.splitter.Finishing? || s.splitter.SplitterDone?
  }

  /** `Connection.Close`, under its mutex. */
  function CloseSocket(s: Session): Session {
    if s.connClosed then s else s.(connClosed := true, socketCloses := s.socketCloses + 1)
  }

  /** `Client.Close`, under its mutex. */
  function CloseClient(s: Session): Session {
    if s.clientClosed then s else CloseSocket(s).(clientClosed := true)
  }

  function Sort(s: Session, m: Msg): Session {
    var idle := s.(splitter := Idle);
    if m.head.messageType == MESSAGE_TYPE_REQUEST then SendRequest(idle, m)
    else if m.head.messageType == MESSAGE_TYPE_REPLY && m.head.requestID in s.table.open then
      s.(table := s.table.(open := s.table.open - {m.head.requestID}),
         splitter := Answering(s.table.open[m.head.requestID], m))
    else idle
  }

  /** The state after a step, or nothing if the step cannot be taken now. The splitter looks up its channel
      through the client's connection, which `Client.Close` sets to nil. */
  function Do(s: Session, step: Step): Option<Session> {
    if s.panicked then None else
    match step
    case ReaderDelivers(m) => if s.reader.Reading? then Some(SendMsgs(s, m)) else None
    case ReaderFails => if s.reader.Reading? then Some(s.(reader := Stopped)) else None
    case ReaderCloses => if s.reader.Stopped? then Some(CloseMsgs(s).(reader := ReaderDone)) else None
    case SplitterLooks =>
      if !s.splitter.Idle? then None
      else if s.clientClosed then Some(Panic(s))
      else Some(s.(splitter := Waiting))
    case SplitterTakes =>
      if !s.splitter.Waiting? then None
      else if s.taken < |s.msgs.sent| then Some(s.(splitter := Holding(s.msgs.sent[s.taken]), taken := s.taken + 1))
      else if s.msgs.closed then Some(s.(splitter := Draining))
      else None
    case SplitterSorts => if s.splitter.Holding? && LockFree(s) then Some(Sort(s, s.splitter.m)) else None
    case SplitterAnswers =>
      if s.splitter.Answering? && s.splitter.h < |s.table.replies|
      then Some(SendReply(s, s.splitter.h, s.splitter.reply).(splitter := Idle)) else None
    case SplitterClosesRequests => if s.splitter.Draining? then Some(CloseRequests(s).(splitter := Locking)) else None
    case SplitterLocks => if s.splitter.Locking? then Some(s.(splitter := ClosingReplies(s.table.open.Keys))) else None
    case SplitterClosesReply(id) =>
      if s.splitter.ClosingReplies? && id in s.splitter.todo
         && id in s.table.open && s.table.open[id] < |s.table.replies|
      then Some(CloseReply(s, s.table.open[id]).(splitter := ClosingReplies(s.splitter.todo - {id}))) else None
    case SplitterUnlocks => if s.splitter == ClosingReplies({}) then Some(s.(splitter := Finishing)) else None
    case SplitterClosesClient => if s.splitter.Finishing? then Some(CloseClient(s).(splitter := SplitterDone)) else None
    case SendWrites(isRequest) =>
      if s.sender.Free? then
        var id := NextID(s.table.nextRequestID);
        Some(s.(table := s.table.(nextRequestID := id), sender := Registering(id, isRequest), sends := s.sends + 1))
      else None
    case SendFails =>
      if s.sender.Free? then
        Some(s.(table := s.table.(nextRequestID := NextID(s.table.nextRequestID)), sends := s.sends + 1))
      else None
    case SendRegisters =>
      if s.sender.Registering? && LockFree(s) then
        var s' := s.(sender := Free);
        if !s.sender.isRequest then Some(s')
        else Some(s'.(table := Register(s.table, s.sender.id),
                      late := if ClosingBegan(s) then s.late + {|s.table.replies|} else s.late))
      else None
    case ClientCloses => Some(CloseClient(s))
    case ConnectionCloses => Some(CloseSocket(s))
  }

  /** A run: steps taken one after another, each possible when it is taken. */
  function Run(s: Session, steps: seq<Step>): Option<Session> {
    if steps == [] then Some(s)
    else
      match Run(s, steps[..|steps| - 1])
      case Some(s') => Do(s', steps[|steps| - 1])
      case None => None
  }

  /** Taken without interruption, sorting and answering are one turn of the splitting loop. */
  lemma SortThenAnswerIsSplit(s: Session, m: Msg)
    requires Consistent(s.table) && Live(s.table)
    ensures var s' := Sort(s, m);
            if s'.splitter.Answering?
            then s'.splitter.h < |s'.table.replies|
                 && SendReply(s', s'.splitter.h, m).table == Split(s.table, m, m.head.messageType, m.head.requestID)
            else s'.table == Split(s.table, m, m.head.messageType, m.head.requestID)
  {
  }

  // ---------- what every step keeps ----------

  /** The reading side: the channel of messages is closed by the reader, at its very end. */
  predicate ReaderSafe(s: Session) { s.msgs.closed <==> s.reader.ReaderDone? }

  predicate SplitterPastRequests(s: Session) { s.splitter.Locking? || ClosingBegan(s) }

  /** A reply channel still waiting for its only message. */
  predicate Unused(c: ChanState<Msg>) { c.sent == [] && !c.closed }

  /** An open id leads to an unused channel made for it, until the splitter has closed that channel. */
  predicate OpenSafe(s: Session) {
    forall id <- s.table.open ::
      var h := s.table.open[id];
      && h < |s.table.replies| && s.table.replies[h].id == id
      && s.table.replies[h].chan.sent == []
      && (!ClosingBegan(s) ==> !s.table.replies[h].chan.closed)
      && (s.splitter.ClosingReplies? ==> (s.table.replies[h].chan.closed <==> id !in s.splitter.todo))
  }

  /** The channel the splitter is about to answer on is in nobody else's hands. */
  predicate AnswerSafe(s: Session) {
    s.splitter.Answering? ==>
      && s.splitter.h < |s.table.replies|
      && s.splitter.h !in s.table.open.Values
      && Unused(s.table.replies[s.splitter.h].chan)
      && s.table.replies[s.splitter.h].id == s.splitter.reply.head.requestID
      && s.splitter.reply.head.messageType == MESSAGE_TYPE_REPLY
  }

  /** Each reply channel gets at most one message: a reply carrying the id it was made for. */
  predicate RepliesSafe(s: Session) {
    forall h | 0 <= h < |s.table.replies| ::
      var r := s.table.replies[h];
      && |r.chan.sent| <= 1
      && forall m <- r.chan.sent :: m.head.requestID == r.id && m.head.messageType == MESSAGE_TYPE_REPLY
  }

  predicate Safe(s: Session) {
    && !s.panicked
    && ReaderSafe(s)
    && (s.table.requests.closed <==> SplitterPastRequests(s))
    && OpenSafe(s)
    && AnswerSafe(s)
    && RepliesSafe(s)
    && s.socketCloses == (if s.connClosed then 1 else 0)
  }

  predicate SplitterStep(step: Step) {
    || step.SplitterLooks? || step.SplitterTakes? || step.SplitterSorts? || step.SplitterAnswers?
    || step.SplitterClosesRequests?
    || step.SplitterLocks? || step.SplitterClosesReply? || step.SplitterUnlocks? || step.SplitterClosesClient?
  }

  lemma ReaderAndCloserSafe(s: Session, step: Step)
    requires Safe(s) && Do(s, step).Some? && !SplitterStep(step) && !step.SendRegisters?
    ensures Safe(Do(s, step).value)
  {
  }

  lemma RegisterOpenSafe(s: Session)
    requires Safe(s) && Do(s, SendRegisters).Some?
    ensures OpenSafe(Do(s, SendRegisters).value)
  {
  }

  lemma RegisterSafe(s: Session)
    requires Safe(s) && Do(s, SendRegisters).Some?
    ensures Safe(Do(s, SendRegisters).value)
  {
    RegisterOpenSafe(s);
    var t, t' := s.table, Do(s, SendRegisters).value.table;
    assert forall h | 0 <= h < |t.replies| :: t'.replies[h] == t.replies[h];
  }

  lemma CloseReplySafe(s: Session, id: int64)
    requires Safe(s) && Do(s, SplitterClosesReply(id)).Some?
    ensures Safe(Do(s, SplitterClosesReply(id)).value)
  {
    assert forall k <- s.table.open | k != id :: s.table.open[k] != s.table.open[id];
  }

  lemma SortSafe(s: Session)
    requires Safe(s) && Do(s, SplitterSorts).Some?
    ensures Safe(Do(s, SplitterSorts).value)
  {
    if s.splitter.m.head.messageType == MESSAGE_TYPE_REPLY {
      SortReplySafe(s);
    }
  }

  lemma SortReplyOpenSafe(s: Session)
    requires Safe(s) && Do(s, SplitterSorts).Some? && s.splitter.m.head.messageType == MESSAGE_TYPE_REPLY
    ensures OpenSafe(Do(s, SplitterSorts).value) && RepliesSafe(Do(s, SplitterSorts).value)
  {
  }

  lemma SortReplyAnswerSafe(s: Session)
    requires Safe(s) && Do(s, SplitterSorts).Some? && s.splitter.m.head.messageType == MESSAGE_TYPE_REPLY
    ensures AnswerSafe(Do(s, SplitterSorts).value)
  {
    var id := s.splitter.m.head.requestID;
    assert id in s.table.open ==> forall k <- s.table.open | k != id :: s.table.open[k] != s.table.open[id];
  }

  lemma SortReplySafe(s: Session)
    requires Safe(s) && Do(s, SplitterSorts).Some? && s.splitter.m.head.messageType == MESSAGE_TYPE_REPLY
    ensures Safe(Do(s, SplitterSorts).value)
  {
    SortReplyOpenSafe(s);
    SortReplyAnswerSafe(s);
  }

  lemma AnswerKeepsSafe(s: Session)
    requires Safe(s) && Do(s, SplitterAnswers).Some?
    ensures Safe(Do(s, SplitterAnswers).value)
  {
  }

  lemma SplitterSafe(s: Session, step: Step)
    requires Safe(s) && Do(s, step).Some? && SplitterStep(step) && !step.SplitterClosesReply? && !LooksTooLate(s, step)
    ensures Safe(Do(s, step).value)
  {
    if step.SplitterSorts? {
      SortSafe(s);
    } else if step.SplitterAnswers? {
      AnswerKeepsSafe(s);
    }
  }

  /** The splitter is between two messages when the client is closed under it. */
  predicate LooksTooLate(s: Session, step: Step) { step.SplitterLooks? && s.clientClosed }

  lemma StepSafe(s: Session, step: Step)
    requires Safe(s) && Do(s, step).Some? && !LooksTooLate(s, step)
    ensures Safe(Do(s, step).value)
  {
    match step {
      case SendRegisters => RegisterSafe(s);
      case SplitterClosesReply(id) => CloseReplySafe(s, id);
      case _ =>
        if SplitterStep(step) {
          SplitterSafe(s, step);
        } else {
          ReaderAndCloserSafe(s, step);
        }
    }
  }

  /** Whatever the interleaving, until the program panics: no channel is closed twice and nothing is sent on a
      closed one; the socket is closed at most once; and each reply channel receives at most one message, a reply
      with the id it was made for. */
  lemma {:induction false} AlwaysSafe(steps: seq<Step>)
    requires Run(START, steps).Some? && !Run(START, steps).value.panicked
    ensures Safe(Run(START, steps).value)
  {
    if steps != [] {
      AlwaysSafe(steps[..|steps| - 1]);
      StepSafe(Run(START, steps[..|steps| - 1]).value, steps[|steps| - 1]);
    }
  }

  /** A run panics if and only if its last step is the splitter looking for its channel after `Client.Close` has
      taken the connection away. No channel operation ever panics. */
  lemma PanicIff(steps: seq<Step>)
    requires Run(START, steps).Some?
    ensures Run(START, steps).value.panicked
       <==> steps != [] && LooksTooLate(Run(START, steps[..|steps| - 1]).value, steps[|steps| - 1])
  {
    if steps != [] {
      var s := Run(START, steps[..|steps| - 1]).value;
      AlwaysSafe(steps[..|steps| - 1]);
      if !LooksTooLate(s, steps[|steps| - 1]) { StepSafe(s, steps[|steps| - 1]); }
    }
  }

  /** And that can happen: a client closed before its splitter first looks. */
  lemma PanicReachable()
    ensures exists steps :: Run(START, steps).Some? && Run(START, steps).value.panicked
  {
    var closed := CloseClient(START);
    var steps := Extend([], START, ClientCloses, closed);
    steps := Extend(steps, closed, SplitterLooks, Panic(closed));
  }

  lemma {:induction false} RunConcat(s: Session, a: seq<Step>, b: seq<Step>)
    ensures Run(s, a + b) == match Run(s, a) case Some(s') => Run(s', b) case None => None
    decreases |b|
  {
    if b == [] {
      assert a + b == a;
    } else {
      var init := b[..|b| - 1];
      RunConcat(s, a, init);
      InitLast(b);
      Associate(a, init, [b[|b| - 1]]);
      assert (a + init + [b[|b| - 1]])[..|a + init|] == a + init;
    }
  }

  // ---------- the steps come to what the client's methods do ----------

  /** The caller's two steps are `Client.Send`: an id used up and, for a request that went out, a reply channel. */
  lemma WriteThenRegisterIsSend(s: Session, messageType: int64)
    requires !s.panicked && s.sender.Free? && LockFree(s)
    ensures var isRequest := messageType == MESSAGE_TYPE_REQUEST;
            && Do(s, SendWrites(isRequest)).Some?
            && Do(Do(s, SendWrites(isRequest)).value, SendRegisters).Some?
            && Do(Do(s, SendWrites(isRequest)).value, SendRegisters).value.table
               == SendTable(s.table, messageType, Sent(Connection.SendOk))
  {
  }

  /** Whatever made it fail, a send that fails only uses up the id. */
  lemma FailedSendIsSend(s: Session, messageType: int64, failed: ClientOutcome)
    requires !s.panicked && s.sender.Free? && failed != Sent(Connection.SendOk)
    ensures Do(s, SendFails).Some? && Do(s, SendFails).value.table == SendTable(s.table, messageType, failed)
  {
  }

  function Closings(order: seq<int64>): (r: seq<Step>)
    ensures |r| == |order|
  {
    seq(|order|, i requires 0 <= i < |order| => SplitterClosesReply(order[i]))
  }

  /** The ids of a set, each once, in the order in which the map is ranged over. */
  ghost predicate Enumerates(order: seq<int64>, ids: set<int64>) {
    && (forall id :: id in order <==> id in ids)
    && (forall i, j | 0 <= i < j < |order| :: order[i] != order[j])
  }

  lemma EnumeratesRest(order: seq<int64>, ids: set<int64>)
    requires Enumerates(order, ids) && order != []
    ensures order[0] in ids && Enumerates(order[1..], ids - {order[0]})
  {
    assert forall id: int64 :: id in order <==> id == order[0] || id in order[1..];
  }

  lemma NothingLeftToClose(s: Session)
    requires OpenSafe(s) && s.splitter == ClosingReplies({})
    ensures CloseOpen(s.table) == s.table
  {
    var t := CloseOpen(s.table);
    forall h | 0 <= h < |t.replies| ensures t.replies[h] == s.table.replies[h] {
      if h in s.table.open.Values {
        var id :| id in s.table.open && s.table.open[id] == h;
      }
    }
    assert t.replies == s.table.replies;
  }

  /** The session once every open reply channel is closed and the lock is about to be given back. */
  function AllClosed(s: Session): Session { s.(table := CloseOpen(s.table), splitter := ClosingReplies({})) }

  lemma CloseOneThenRest(s: Session, id: int64)
    requires Safe(s) && Do(s, SplitterClosesReply(id)).Some?
    ensures AllClosed(Do(s, SplitterClosesReply(id)).value) == AllClosed(s)
  {
    var t, t' := s.table, Do(s, SplitterClosesReply(id)).value.table;
    assert t.open[id] in t.open.Values;
    assert CloseOpen(t').replies == CloseOpen(t).replies;
  }

  lemma ClosableNow(s: Session, id: int64)
    requires Safe(s) && s.splitter.ClosingReplies? && s.splitter.todo <= s.table.open.Keys && id in s.splitter.todo
    ensures var r := Do(s, SplitterClosesReply(id));
            && r.Some? && Safe(r.value)
            && r.value.splitter == ClosingReplies(s.splitter.todo - {id}) && r.value.table.open == s.table.open
  {
    CloseReplySafe(s, id);
  }

  lemma {:induction false} ClosingAll(s: Session, order: seq<int64>)
    requires Safe(s) && s.splitter.ClosingReplies? && s.splitter.todo <= s.table.open.Keys
    requires Enumerates(order, s.splitter.todo)
    ensures Run(s, Closings(order)) == Some(AllClosed(s))
    decreases |order|
  {
    if order == [] {
      NothingToClose(s);
      assert Closings(order) == [];
    } else {
      var id := order[0];
      EnumeratesRest(order, s.splitter.todo);
      ClosableNow(s, id);
      ClosingAll(Do(s, SplitterClosesReply(id)).value, order[1..]);
      CloseOneThenRest(s, id);
      FirstStep(s, SplitterClosesReply(id), Closings(order[1..]));
      ClosingsCons(order);
    }
  }

  lemma ClosingsCons(order: seq<int64>)
    requires order != []
    ensures Closings(order) == [SplitterClosesReply(order[0])] + Closings(order[1..])
  {
  }

  lemma NothingToClose(s: Session)
    requires Safe(s) && s.splitter.ClosingReplies? && Enumerates([], s.splitter.todo)
    ensures Run(s, []) == Some(AllClosed(s))
  {
    assert forall id :: id !in s.splitter.todo;
    assert s.splitter.todo == {};
    NothingLeftToClose(s);
  }

  lemma FirstStep(s: Session, step: Step, steps: seq<Step>)
    requires Do(s, step).Some?
    ensures Run(s, [step] + steps) == Run(Do(s, step).value, steps)
  {
    RunConcat(s, [step], steps);
    assert [step][..0] == [];
  }

  lemma LockedClosesAll(s: Session, order: seq<int64>)
    requires Safe(s) && s.splitter == ClosingReplies(s.table.open.Keys) && Enumerates(order, s.table.open.Keys)
    ensures Run(s, Closings(order) + [SplitterUnlocks]) == Some(s.(table := CloseOpen(s.table), splitter := Finishing))
  {
    ClosingAll(s, order);
    RunConcat(s, Closings(order), [SplitterUnlocks]);
    FirstStep(AllClosed(s), SplitterUnlocks, []);
    assert [SplitterUnlocks] + [] == [SplitterUnlocks];
  }

  lemma DrainsThenLocks(s: Session, rest: seq<Step>)
    requires Safe(s) && s.splitter.Draining?
    ensures var t := s.table.(requests := s.table.requests.(closed := true));
            var s' := s.(table := t, splitter := ClosingReplies(t.open.Keys));
            Safe(s') && Run(s, [SplitterClosesRequests] + ([SplitterLocks] + rest)) == Run(s', rest)
  {
    StepSafe(s, SplitterClosesRequests);
    var s1 := Do(s, SplitterClosesRequests).value;
    StepSafe(s1, SplitterLocks);
    FirstStep(s, SplitterClosesRequests, [SplitterLocks] + rest);
    FirstStep(s1, SplitterLocks, rest);
  }

  /** At the end of its loop the splitter's steps are `CloseReplies`: the channel of requests and every open reply
      channel are closed, in whatever order the table is ranged over. */
  lemma DrainingClosesAll(s: Session, order: seq<int64>)
    requires Safe(s) && s.splitter.Draining? && Enumerates(order, s.table.open.Keys)
    ensures Run(s, [SplitterClosesRequests] + ([SplitterLocks] + (Closings(order) + [SplitterUnlocks])))
         == Some(s.(table := CloseAll(s.table), splitter := Finishing))
  {
    var t := s.table.(requests := s.table.requests.(closed := true));
    DrainsThenLocks(s, Closings(order) + [SplitterUnlocks]);
    LockedClosesAll(s.(table := t, splitter := ClosingReplies(t.open.Keys)), order);
  }

  // ---------- after an error ----------

  /** Nothing more is delivered once the reader has met an error. */
  lemma {:induction false} NothingAfterError(s: Session, steps: seq<Step>)
    requires !s.reader.Reading? && Run(s, steps).Some?
    ensures !Run(s, steps).value.reader.Reading?
    ensures Run(s, steps).value.msgs.sent == s.msgs.sent
  {
    if steps != [] {
      var init := steps[..|steps| - 1];
      NothingAfterError(s, init);
      StepAfterError(Run(s, init).value, steps[|steps| - 1]);
    }
  }

  lemma StepAfterError(s: Session, step: Step)
    requires !s.reader.Reading? && Do(s, step).Some?
    ensures !Do(s, step).value.reader.Reading? && Do(s, step).value.msgs.sent == s.msgs.sent
  {
  }

  // ---------- request ids ----------

  /** Ids are handed out once each, upwards from one. */
  predicate IdsUnique(s: Session) {
    && s.table.nextRequestID == s.sends
    && (forall h | 0 <= h < |s.table.replies| :: 1 <= s.table.replies[h].id <= s.table.nextRequestID)
    && (forall h, k | 0 <= h < k < |s.table.replies| :: s.table.replies[h].id < s.table.replies[k].id)
    && (s.sender.Registering? ==>
          && 1 <= s.sender.id <= s.table.nextRequestID
          && forall h | 0 <= h < |s.table.replies| :: s.table.replies[h].id < s.sender.id)
  }

  lemma RegisterKeepsIds(s: Session)
    requires IdsUnique(s) && Do(s, SendRegisters).Some?
    ensures IdsUnique(Do(s, SendRegisters).value)
  {
  }

  /** No step but a registration changes for which ids there are channels. */
  predicate SameIds(t: Table<Msg>, t': Table<Msg>) {
    |t'.replies| == |t.replies| && forall h | 0 <= h < |t.replies| :: t'.replies[h].id == t.replies[h].id
  }

  lemma StepKeepsSameIds(s: Session, step: Step)
    requires Do(s, step).Some? && !step.SendRegisters?
    ensures SameIds(s.table, Do(s, step).value.table)
  {
  }

  lemma SameIdsKeepsUnique(s: Session, s': Session)
    requires IdsUnique(s) && SameIds(s.table, s'.table)
    requires s'.table.nextRequestID == s'.sends && s'.sends >= s.sends
    requires s'.sender == s.sender || s'.sender.Free? || (s'.sender.id == s'.sends > s.sends)
    ensures IdsUnique(s')
  {
  }

  lemma OtherStepKeepsIds(s: Session, step: Step)
    requires IdsUnique(s) && Do(s, step).Some? && Do(s, step).value.sends < TWO_63 && !step.SendRegisters?
    ensures IdsUnique(Do(s, step).value)
  {
    StepKeepsSameIds(s, step);
    SameIdsKeepsUnique(s, Do(s, step).value);
  }

  lemma StepKeepsIds(s: Session, step: Step)
    requires IdsUnique(s) && Do(s, step).Some? && Do(s, step).value.sends < TWO_63
    ensures IdsUnique(Do(s, step).value)
  {
    if step.SendRegisters? {
      RegisterKeepsIds(s);
    } else {
      OtherStepKeepsIds(s, step);
    }
  }

  /** For fewer than 2^63 sends, ids never repeat and every open id lies between one and the last id used. */
  lemma {:induction false} IdsNeverRepeat(steps: seq<Step>)
    requires Run(START, steps).Some? && !Run(START, steps).value.panicked && Run(START, steps).value.sends < TWO_63
    ensures IdsUnique(Run(START, steps).value)
    ensures var t := Run(START, steps).value.table;
            forall id <- t.open :: 1 <= id <= t.nextRequestID
  {
    AlwaysSafe(steps);
    if steps != [] {
      var init := steps[..|steps| - 1];
      SendsGrow(Run(START, init).value, steps[|steps| - 1]);
      IdsNeverRepeat(init);
      StepKeepsIds(Run(START, init).value, steps[|steps| - 1]);
    }
  }

  lemma SendsGrow(s: Session, step: Step)
    requires Do(s, step).Some?
    ensures s.sends <= Do(s, step).value.sends
  {
  }

  /** Once a reply has been passed on, its id is no longer open: another reply with that id changes
      nothing. */
  lemma SecondReplyDropped(steps: seq<Step>, h: nat, m: Msg)
    requires Run(START, steps).Some? && !Run(START, steps).value.panicked && Run(START, steps).value.sends < TWO_63
    requires var s := Run(START, steps).value;
             && h < |s.table.replies| && s.table.replies[h].chan.sent != []
             && m.head.messageType == MESSAGE_TYPE_REPLY && m.head.requestID == s.table.replies[h].id
    ensures Sort(Run(START, steps).value, m) == Run(START, steps).value.(splitter := Idle)
  {
    AlwaysSafe(steps);
    IdsNeverRepeat(steps);
    AnsweredIsGone(Run(START, steps).value, h);
  }

  lemma AnsweredIsGone(s: Session, h: nat)
    requires OpenSafe(s) && IdsUnique(s) && h < |s.table.replies| && s.table.replies[h].chan.sent != []
    ensures s.table.replies[h].id !in s.table.open
  {
    assert forall k | 0 <= k < |s.table.replies| && k != h :: s.table.replies[k].id != s.table.replies[h].id;
  }

  // ---------- waiting for a reply at shutdown ----------

  /** Every reply channel nobody has used is either open or about to be answered; once closing has begun
      only channels made since then are unused and open. */
  predicate Tracked(s: Session) {
    && (forall h <- s.late :: ClosingBegan(s) && h < |s.table.replies| && Unused(s.table.replies[h].chan))
    && (forall h | 0 <= h < |s.table.replies| && Unused(s.table.replies[h].chan) ::
          || (s.splitter.Answering? && s.splitter.h == h)
          || h in s.late
          || (!s.splitter.Finishing? && !s.splitter.SplitterDone?
              && s.table.replies[h].id in s.table.open && s.table.open[s.table.replies[h].id] == h))
    && (s.splitter.ClosingReplies? ==> s.late == {} && s.splitter.todo <= s.table.open.Keys)
  }

  lemma RegisterKeepsTracked(s: Session)
    requires Safe(s) && IdsUnique(s) && Tracked(s) && Do(s, SendRegisters).Some?
    ensures Tracked(Do(s, SendRegisters).value)
  {
  }

  lemma ClosesReplyKeepsTracked(s: Session, id: int64)
    requires Safe(s) && Tracked(s) && Do(s, SplitterClosesReply(id)).Some?
    ensures Tracked(Do(s, SplitterClosesReply(id)).value)
  {
  }

  /** The reply channel taken out of the table is about to be answered; every other stays where it was. */
  lemma TakeReplyKeepsTracked(s: Session, m: Msg)
    requires OpenSafe(s) && Tracked(s) && s.splitter.Holding? && m.head.requestID in s.table.open
    requires m.head.messageType == MESSAGE_TYPE_REPLY
    ensures Tracked(Sort(s, m))
  {
    var id, t, t' := m.head.requestID, s.table, Sort(s, m).table;
    assert t'.replies == t.replies && t'.open == t.open - {id};
    assert forall h | 0 <= h < |t.replies| && h != t.open[id] && t.replies[h].id in t.open
        && t.open[t.replies[h].id] == h :: t.replies[h].id in t'.open;
  }

  lemma PassOnKeepsTracked(s: Session, m: Msg)
    requires Tracked(s) && s.splitter.Holding? && !s.table.requests.closed
    requires m.head.messageType != MESSAGE_TYPE_REPLY || m.head.requestID !in s.table.open
    ensures Tracked(Sort(s, m))
  {
  }

  lemma SortKeepsTracked(s: Session)
    requires Safe(s) && Tracked(s) && Do(s, SplitterSorts).Some?
    ensures Tracked(Do(s, SplitterSorts).value)
  {
    var m := s.splitter.m;
    if m.head.messageType == MESSAGE_TYPE_REPLY && m.head.requestID in s.table.open {
      TakeReplyKeepsTracked(s, m);
    } else {
      PassOnKeepsTracked(s, m);
    }
  }

  lemma AnswerKeepsTracked(s: Session)
    requires Safe(s) && Tracked(s) && Do(s, SplitterAnswers).Some?
    ensures Tracked(Do(s, SplitterAnswers).value)
  {
  }

  lemma UnlockKeepsTracked(s: Session)
    requires Safe(s) && Tracked(s) && Do(s, SplitterUnlocks).Some?
    ensures Tracked(Do(s, SplitterUnlocks).value)
  {
  }

  lemma SplitterKeepsTracked(s: Session, step: Step)
    requires Safe(s) && Tracked(s) && Do(s, step).Some? && SplitterStep(step)
    ensures Tracked(Do(s, step).value)
  {
    match step {
      case SplitterClosesReply(id) => ClosesReplyKeepsTracked(s, id);
      case SplitterSorts => SortKeepsTracked(s);
      case SplitterAnswers => AnswerKeepsTracked(s);
      case SplitterUnlocks => UnlockKeepsTracked(s);
      case _ =>
    }
  }

  lemma StepKeepsTracked(s: Session, step: Step)
    requires Safe(s) && IdsUnique(s) && Tracked(s) && Do(s, step).Some?
    ensures Tracked(Do(s, step).value)
  {
    if step.SendRegisters? {
      RegisterKeepsTracked(s);
    } else if SplitterStep(step) {
      SplitterKeepsTracked(s, step);
    }
  }

  lemma {:induction false} AlwaysTracked(steps: seq<Step>)
    requires Run(START, steps).Some? && !Run(START, steps).value.panicked && Run(START, steps).value.sends < TWO_63
    ensures Tracked(Run(START, steps).value)
  {
    if steps != [] {
      var init := steps[..|steps| - 1];
      var s := Run(START, init).value;
      SendsGrow(s, steps[|steps| - 1]);
      AlwaysSafe(init);
      IdsNeverRepeat(init);
      AlwaysTracked(init);
      StepKeepsTracked(s, steps[|steps| - 1]);
    }
  }

  /** Whether the caller inside `Send` has written a request that is not registered yet. */
  predicate RequestPending(steps: seq<Step>) {
    if steps == [] then false
    else
      match steps[|steps| - 1]
      case SendWrites(isRequest) => isRequest
      case SendRegisters => false
      case _ => RequestPending(steps[..|steps| - 1])
  }

  /** How many reply channels the steps make. */
  function RegistrationCount(steps: seq<Step>): nat {
    if steps == [] then 0
    else
      var init := steps[..|steps| - 1];
      RegistrationCount(init) + if steps[|steps| - 1].SendRegisters? && RequestPending(init) then 1 else 0
  }

  /** The `n`-th step makes the `h`-th reply channel, after the splitter has taken the table's lock to close them. */
  predicate RegistersLateAt(steps: seq<Step>, h: nat, n: nat) {
    && n < |steps| && steps[n].SendRegisters? && RequestPending(steps[..n])
    && RegistrationCount(steps[..n]) == h && SplitterLocks in steps[..n]
  }

  ghost predicate RegistersLate(steps: seq<Step>, h: nat) { exists n: nat :: RegistersLateAt(steps, h, n) }

  /** What the steps say about the state they lead to. */
  predicate Recorded(s: Session, pending: bool, registrations: nat, locked: bool) {
    && (pending <==> s.sender.Registering? && s.sender.isRequest)
    && |s.table.replies| == registrations
    && (locked <==> ClosingBegan(s))
  }

  lemma StepRecorded(s: Session, step: Step, pending: bool, registrations: nat, locked: bool)
    requires Recorded(s, pending, registrations, locked) && Do(s, step).Some?
    ensures Recorded(Do(s, step).value,
                     match step case SendWrites(isRequest) => isRequest case SendRegisters => false case _ => pending,
                     registrations + if step.SendRegisters? && pending then 1 else 0,
                     locked || step.SplitterLocks?)
  {
  }

  lemma StepLate(s: Session, step: Step, pending: bool, registrations: nat, locked: bool)
    requires Recorded(s, pending, registrations, locked) && Do(s, step).Some?
    ensures Do(s, step).value.late
         == if step.SendRegisters? && pending && locked then s.late + {registrations} else s.late
  {
  }

  lemma {:induction false} StepsRecorded(steps: seq<Step>)
    requires Run(START, steps).Some?
    ensures Recorded(Run(START, steps).value, RequestPending(steps), RegistrationCount(steps), SplitterLocks in steps)
  {
    if steps != [] {
      var init, step := steps[..|steps| - 1], steps[|steps| - 1];
      StepsRecorded(init);
      InitLast(steps);
      StepRecorded(Run(START, init).value, step, RequestPending(init), RegistrationCount(init), SplitterLocks in init);
    }
  }

  lemma RegistersLateLast(steps: seq<Step>, h: nat)
    requires steps != []
    ensures var m := |steps| - 1;
            RegistersLate(steps, h) <==> RegistersLate(steps[..m], h) || RegistersLateAt(steps, h, m)
  {
    var m := |steps| - 1;
    if RegistersLate(steps[..m], h) {
      var n: nat :| RegistersLateAt(steps[..m], h, n);
      assert steps[..m][..n] == steps[..n];
      assert RegistersLateAt(steps, h, n);
    }
    if RegistersLate(steps, h) {
      var n: nat :| RegistersLateAt(steps, h, n);
      if n < m {
        assert steps[..m][..n] == steps[..n];
        assert RegistersLateAt(steps[..m], h, n);
      }
    }
  }

  /** The late channels are those registered after the splitter has taken the lock. */
  lemma {:induction false} LateIff(steps: seq<Step>, h: nat)
    requires Run(START, steps).Some?
    ensures h in Run(START, steps).value.late <==> RegistersLate(steps, h)
  {
    if steps != [] {
      var init, step := steps[..|steps| - 1], steps[|steps| - 1];
      LateIff(init, h);
      StepsRecorded(init);
      StepLate(Run(START, init).value, step, RequestPending(init), RegistrationCount(init), SplitterLocks in init);
      RegistersLateLast(steps, h);
    }
  }

  /** After shutdown a caller is left waiting on its reply channel, which will neither be sent on nor
      closed, exactly if `Send` made the channel after the splitter had taken the lock to close them. */
  lemma LeftWaitingIff(steps: seq<Step>, h: nat)
    requires Run(START, steps).Some? && !Run(START, steps).value.panicked && Run(START, steps).value.sends < TWO_63
    requires Run(START, steps).value.splitter.SplitterDone? && h < |Run(START, steps).value.table.replies|
    ensures Unused(Run(START, steps).value.table.replies[h].chan) <==> RegistersLate(steps, h)
  {
    AlwaysTracked(steps);
    LateIff(steps, h);
  }

  // ---------- what the service is handed ----------

  /** The requests among the messages, in order. */
  function RequestsOf(ms: seq<Msg>): seq<Msg> {
    if ms == [] then []
    else RequestsOf(ms[..|ms| - 1]) + if ms[|ms| - 1].head.messageType == 1 then [ms[|ms| - 1]] else []
  }

  /** How many messages the splitter is through with. */
  function Sorted(s: Session): int { if s.splitter.Holding? then s.taken - 1 else s.taken }

  predicate HandedOn(s: Session) {
    && 0 <= Sorted(s) <= s.taken <= |s.msgs.sent|
    && (s.splitter.Holding? ==> s.splitter.m == s.msgs.sent[s.taken - 1])
    && s.table.requests.sent == RequestsOf(s.msgs.sent[..Sorted(s)])
    && (s.splitter.Draining? || SplitterPastRequests(s) ==> s.msgs.closed && s.taken == |s.msgs.sent|)
  }

  lemma RequestsSucc(ms: seq<Msg>, n: nat)
    requires n < |ms|
    ensures RequestsOf(ms[..n + 1]) == RequestsOf(ms[..n]) + if ms[n].head.messageType == 1 then [ms[n]] else []
  {
    assert ms[..n + 1][..n] == ms[..n];
  }

  lemma DeliveryHandsOn(s: Session, m: Msg)
    requires HandedOn(s) && Do(s, ReaderDelivers(m)).Some? && !Do(s, ReaderDelivers(m)).value.panicked
    ensures HandedOn(Do(s, ReaderDelivers(m)).value)
  {
    var n := Sorted(s);
    assert (s.msgs.sent + [m])[..n] == s.msgs.sent[..n];
  }

  /** What sorting a message makes of the channel of requests. */
  lemma SortRequests(s: Session, m: Msg)
    requires !Sort(s, m).panicked
    ensures var s' := Sort(s, m);
            && s'.msgs == s.msgs && s'.taken == s.taken && (s'.splitter.Idle? || s'.splitter.Answering?)
            && s'.table.requests.sent == s.table.requests.sent + if m.head.messageType == 1 then [m] else []
  {
    assert s.table.requests.sent + [] == s.table.requests.sent;
  }

  lemma SortHandsOn(s: Session)
    requires HandedOn(s) && Do(s, SplitterSorts).Some? && !Do(s, SplitterSorts).value.panicked
    ensures HandedOn(Do(s, SplitterSorts).value)
  {
    SortRequests(s, s.splitter.m);
    RequestsSucc(s.msgs.sent, s.taken - 1);
  }

  lemma SplitterHandsOn(s: Session, step: Step)
    requires HandedOn(s) && Do(s, step).Some? && !Do(s, step).value.panicked
    requires SplitterStep(step) && !step.SplitterSorts?
    ensures HandedOn(Do(s, step).value)
  {
  }

  lemma OtherHandsOn(s: Session, step: Step)
    requires HandedOn(s) && Do(s, step).Some? && !Do(s, step).value.panicked
    requires !SplitterStep(step) && !step.ReaderDelivers?
    ensures HandedOn(Do(s, step).value)
  {
  }

  lemma StepHandsOn(s: Session, step: Step)
    requires HandedOn(s) && Do(s, step).Some? && !Do(s, step).value.panicked
    ensures HandedOn(Do(s, step).value)
  {
    if step.ReaderDelivers? {
      DeliveryHandsOn(s, step.m);
    } else if step.SplitterSorts? {
      SortHandsOn(s);
    } else if SplitterStep(step) {
      SplitterHandsOn(s, step);
    } else {
      OtherHandsOn(s, step);
    }
  }

  /** Over every interleaving the service is handed exactly the requests among the messages that arrived, in the
      order of arrival, up to where the splitter is; when it has closed their channel, all of them. */
  lemma {:induction false} RequestsHandedOn(steps: seq<Step>)
    requires Run(START, steps).Some? && !Run(START, steps).value.panicked
    ensures HandedOn(Run(START, steps).value)
    ensures var s := Run(START, steps).value;
            s.table.requests.closed ==> s.table.requests.sent == RequestsOf(s.msgs.sent)
  {
    if steps != [] {
      var init, step := steps[..|steps| - 1], steps[|steps| - 1];
      RequestsHandedOn(init);
      StepHandsOn(Run(START, init).value, step);
    }
    var s := Run(START, steps).value;
    AlwaysSafe(steps);
    assert s.msgs.sent[..|s.msgs.sent|] == s.msgs.sent;
  }

  /** A closed client has closed its connection, and the splitter leaves a closed client behind. */
  predicate ShutTogether(s: Session) {
    && (s.clientClosed ==> s.connClosed)
    && (s.splitter.SplitterDone? ==> s.clientClosed)
  }

  lemma StepShuts(s: Session, step: Step)
    requires ShutTogether(s) && Do(s, step).Some?
    ensures ShutTogether(Do(s, step).value)
    ensures step.ClientCloses? ==> Do(s, step).value.clientClosed
    ensures step.ConnectionCloses? ==> Do(s, step).value.connClosed
  {
  }

  /** In every run the client is not closed without its connection, and after the splitter has ended both are. */
  lemma {:induction false} ClosedTogether(steps: seq<Step>)
    requires Run(START, steps).Some?
    ensures ShutTogether(Run(START, steps).value)
    ensures ClientCloses in steps ==> Run(START, steps).value.clientClosed
  {
    if steps != [] {
      var init, step := steps[..|steps| - 1], steps[|steps| - 1];
      ClosedTogether(init);
      StepShuts(Run(START, init).value, step);
      if Run(START, init).value.clientClosed { StaysClosed(Run(START, init).value, step); }
      assert ClientCloses in steps ==> ClientCloses in init || step == ClientCloses;
    }
  }

  lemma StaysClosed(s: Session, step: Step)
    requires Do(s, step).Some? && s.clientClosed
    ensures Do(s, step).value.clientClosed
  {
  }

  lemma Extend(steps: seq<Step>, s: Session, step: Step, s': Session) returns (more: seq<Step>)
    requires Run(START, steps) == Some(s) && Do(s, step) == Some(s')
    ensures Run(START, more) == Some(s')
  {
    more := steps + [step];
    assert more[..|steps|] == steps;
  }

  /** A request is written, the connection breaks, and the reader closes its channel. */
  lemma RequestThenBreak() returns (steps: seq<Step>, s: Session)
    ensures Run(START, steps) == Some(s)
    ensures s.reader.ReaderDone? && s.msgs == ChanState([], true) && s.taken == 0 && s.splitter.Idle?
    ensures !s.clientClosed && !s.panicked
    ensures s.table == Table(1, map[], [], ChanState([], false)) && s.sender == Registering(1, true) && s.late == {}
  {
    var s1 := START.(table := START.table.(nextRequestID := 1), sender := Registering(1, true), sends := 1);
    steps := Extend([], START, SendWrites(true), s1);
    var s2 := s1.(reader := Stopped);
    steps := Extend(steps, s1, ReaderFails, s2);
    s := s2.(msgs := ChanState([], true), reader := ReaderDone);
    steps := Extend(steps, s2, ReaderCloses, s);
  }

  /** Then the splitter sees the end, closes the requests and takes the lock of the empty table. */
  lemma ThenSplitterEnds() returns (steps: seq<Step>, s: Session)
    ensures Run(START, steps) == Some(s) && s.splitter == ClosingReplies({}) && !s.panicked
    ensures |s.table.replies| == 0 && s.sender == Registering(1, true) && s.late == {}
  {
    var s3;
    steps, s3 := RequestThenBreak();
    steps := Extend(steps, s3, SplitterLooks, s3.(splitter := Waiting));
    var s4 := s3.(splitter := Draining);
    steps := Extend(steps, s3.(splitter := Waiting), SplitterTakes, s4);
    var s5 := s4.(table := s4.table.(requests := ChanState([], true)), splitter := Locking);
    steps := Extend(steps, s4, SplitterClosesRequests, s5);
    s := s5.(splitter := ClosingReplies({}));
    assert s5.table.open.Keys == {};
    steps := Extend(steps, s5, SplitterLocks, s);
  }

  /** Such a caller exists: the bytes of its request are written, then the connection breaks and the
      client shuts down before the reply channel is entered in the table. */
  lemma LateRequestWaitsForever()
    ensures exists steps ::
              && Run(START, steps).Some? && Run(START, steps).value.splitter.SplitterDone?
              && RegistersLate(steps, 0) && Run(START, steps).value.late == {0}
  {
    var steps, s6 := ThenSplitterEnds();
    var s7 := s6.(splitter := Finishing);
    steps := Extend(steps, s6, SplitterUnlocks, s7);
    var s8 := CloseClient(s7).(splitter := SplitterDone);
    steps := Extend(steps, s7, SplitterClosesClient, s8);
    var s9 := s8.(table := Register(s8.table, 1), sender := Free, late := {0});
    assert s8.late + {|s8.table.replies|} == {0};
    steps := Extend(steps, s8, SendRegisters, s9);
    LateIff(steps, 0);
  }
}
