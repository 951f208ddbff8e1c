/** Both ends of a connection at once: a requester that only sends requests and a service that answers
    them (`scamp/client.go`, `scamp/service.go`). Between the two, messages arrive in the order they
    were sent, as the delivery theorems show. */
module ReplyMatching {
  import opened Text
  import Json
  import PacketHeader
  import opened Message
  import opened Client
  import Connection
  import opened Delivery

  /** `requests` and `replies` are what each side has put on the wire, in order; `answered[k]` is the
      index of the request that the `k`-th reply was written for; `dropped` are the replies that came
      while nobody waited for their id. */
  datatype Pair = Pair(
    requester: Table<Msg>,
    registering: Option<int64>,
    requests: seq<Msg>,
    received: nat,
    service: Table<Msg>,
    replies: seq<Msg>,
    answered: seq<nat>,
    processed: nat,
    dropped: set<nat>)

  const START := Pair(EmptyTable(), None, [], 0, EmptyTable(), [], [], 0, {})

  /** `Answers(i, m)`: the handler of the `i`-th request received sends the reply `m`. */
  datatype Step =
    | Requests(m: Msg)
    | Registers
    | ServiceReceives
    | Answers(i: nat, m: Msg)
    | RequesterReceives

  function AsRequest(m: Msg, id: int64): Msg {
    m.(head := m.head.(messageType := PacketHeader.MESSAGE_TYPE_REQUEST, requestID := id))
  }

  /** Whatever id the handler put into the reply, `Send` overwrites it. */
  function AsReply(m: Msg, id: int64): Msg {
    m.(head := m.head.(messageType := PacketHeader.MESSAGE_TYPE_REPLY, requestID := id))
  }

  /** A request or a reply stamped by the client is the one that is put on the wire here. */
  lemma StampedByClient(m: Msg, id: int64)
    ensures m.head.messageType == PacketHeader.MESSAGE_TYPE_REQUEST ==> WithRequestID(m, id) == AsRequest(m, id)
    ensures m.head.messageType == PacketHeader.MESSAGE_TYPE_REPLY ==> WithRequestID(m, id) == AsReply(m, id)
  {
  }

  function Sorted(t: Table<Msg>, m: Msg): Table<Msg>
    requires Consistent(t)
  {
    Split(t, m, m.head.messageType, m.head.requestID)
  }

  function Do(s: Pair, step: Step): Option<Pair> {
    match step
    case Requests(m) =>
      if s.registering.Some? then None
      else
        var id := NextID(s.requester.nextRequestID);
        Some(s.(requester := s.requester.(nextRequestID := id), registering := Some(id),
                requests := s.requests + [AsRequest(m, id)]))
    case Registers =>
      if s.registering.None? then None
      else Some(s.(requester := Register(s.requester, s.registering.value), registering := None))
    case ServiceReceives =>
      if s.received < |s.requests| && Consistent(s.service)
      then Some(s.(service := Sorted(s.service, Arrived(s.requests[s.received])), received := s.received + 1))
      else None
    case Answers(i, m) =>
      if i < |s.service.requests.sent| then
        var id := NextID(s.service.nextRequestID);
        Some(s.(service := s.service.(nextRequestID := id), replies := s.replies + [AsReply(m, id)],
                answered := s.answered + [i]))
      else None
    case RequesterReceives =>
      if s.processed < |s.replies| && Consistent(s.requester) then
        var m := Arrived(s.replies[s.processed]);
        Some(s.(requester := Sorted(s.requester, m), processed := s.processed + 1,
                dropped := if m.head.requestID in s.requester.open then s.dropped else s.dropped + {s.processed}))
      else None
  }

  /** Requesting and registering are what `Client.Send` does with a request on an open connection: the same table,
      and the same message written. */
  lemma RequestIsSend(s: Pair, m: Msg)
    requires s.registering.None? && m.head.messageType == PacketHeader.MESSAGE_TYPE_REQUEST
    ensures var id := NextID(s.requester.nextRequestID);
            var requested := Do(s, Requests(m));
            && requested.Some?
            && requested.value.requests == s.requests + [WithRequestID(m, id)]
            && var registered := Do(requested.value, Registers);
               && registered.Some?
               && registered.value.requester
                  == SendTable(s.requester, PacketHeader.MESSAGE_TYPE_REQUEST, Sent(Connection.SendOk))
  {
    StampedByClient(m, NextID(s.requester.nextRequestID));
  }

  /** Answering is what `Client.Send` does with a reply: an id of the service's own is used up, and the message is
      written under it whatever id the handler gave it. */
  lemma AnswerIsSend(s: Pair, i: nat, m: Msg)
    requires i < |s.service.requests.sent| && m.head.messageType == PacketHeader.MESSAGE_TYPE_REPLY
    ensures var answered := Do(s, Answers(i, m));
            && answered.Some?
            && answered.value.replies == s.replies + [WithRequestID(m, NextID(s.service.nextRequestID))]
            && answered.value.service
               == SendTable(s.service, PacketHeader.MESSAGE_TYPE_REPLY, Sent(Connection.SendOk))
  {
    StampedByClient(m, NextID(s.service.nextRequestID));
  }

  function Run(s: Pair, steps: seq<Step>): Option<Pair> {
    if steps == [] then Some(s)
    else
      match Run(s, steps[..|steps| - 1])
      case Some(s') => Do(s', steps[|steps| - 1])
      case None => None
  }

  // ---------- what every step keeps ----------

  /** The `k`-th request and the `k`-th reply both carry the id `k + 1`, and the service has received the
      requests in the order they were made. */
  predicate IdsInOrder(s: Pair) {
    && s.requester.nextRequestID == |s.requests| && s.service.nextRequestID == |s.replies|
    && (forall k | 0 <= k < |s.requests| ::
          s.requests[k].head.requestID == k + 1 && s.requests[k].head.messageType == PacketHeader.MESSAGE_TYPE_REQUEST)
    && (forall k | 0 <= k < |s.replies| ::
          s.replies[k].head.requestID == k + 1 && s.replies[k].head.messageType == PacketHeader.MESSAGE_TYPE_REPLY)
  }

  predicate InboxHolds(s: Pair) {
    && Consistent(s.service) && s.service.open == map[]
    && s.received <= |s.requests|
    && |s.service.requests.sent| == s.received
    && (forall k | 0 <= k < s.received :: s.service.requests.sent[k] == Arrived(s.requests[k]))
  }

  predicate AnswersHold(s: Pair) {
    && |s.answered| == |s.replies|
    && s.processed <= |s.replies|
    && (forall k <- s.answered :: k < s.received)
    && (forall k <- s.dropped :: k < s.processed)
  }

  /** Caller `k` has been given a reply. */
  predicate Served(s: Pair, k: nat) { k < s.processed && k !in s.dropped }

  /** The `k`-th channel was made for the `k`-th request; it is open until the `k`-th reply, and only that
      reply, has been passed on. A reply is dropped exactly if its channel was not yet made. */
  predicate ChannelsHold(s: Pair) {
    && s.processed <= |s.replies|
    && |s.requester.replies| == |s.requests| - (if s.registering.Some? then 1 else 0)
    && (s.registering.Some? ==> s.registering.value == |s.requests|)
    && (forall id <- s.requester.open :: 1 <= id <= |s.requester.replies| && s.requester.open[id] == id - 1)
    && (forall k | |s.requester.replies| <= k < s.processed :: k in s.dropped)
    && (forall k | 0 <= k < |s.requester.replies| ::
          && s.requester.replies[k].id == k + 1
          && (k + 1 in s.requester.open <==> !Served(s, k))
          && s.requester.replies[k].chan.sent == if Served(s, k) then [Arrived(s.replies[k])] else [])
  }

  predicate Matched(s: Pair) { IdsInOrder(s) && InboxHolds(s) && AnswersHold(s) && ChannelsHold(s) }

  lemma RegisterMatched(s: Pair)
    requires Matched(s) && Do(s, Registers).Some?
    ensures Matched(Do(s, Registers).value)
  {
  }

  lemma RequestMatched(s: Pair, m: Msg)
    requires Matched(s) && Do(s, Requests(m)).Some? && |s.requests| + 1 < TWO_63
    ensures Matched(Do(s, Requests(m)).value)
  {
  }

  lemma ServiceMatched(s: Pair)
    requires Matched(s) && Do(s, ServiceReceives).Some?
    ensures Matched(Do(s, ServiceReceives).value)
  {
  }

  lemma AnswerMatched(s: Pair, i: nat, m: Msg)
    requires Matched(s) && Do(s, Answers(i, m)).Some? && |s.replies| + 1 < TWO_63
    ensures Matched(Do(s, Answers(i, m)).value)
  {
  }

  lemma ReceiveMatched(s: Pair)
    requires Matched(s) && Do(s, RequesterReceives).Some?
    ensures Matched(Do(s, RequesterReceives).value)
  {
    NextIsOpenIff(s);
    if s.processed < |s.requester.replies| {
      ReceiveOpen(s);
    } else {
      ReceiveUnknown(s);
    }
  }

  /** The state after the next reply has been passed on to its channel. */
  function PassedOn(s: Pair): Pair
    requires s.processed < |s.replies| && s.processed < |s.requester.replies|
  {
    s.(requester := PutReply(s.requester.(open := s.requester.open - {s.processed + 1}), s.processed,
                             Arrived(s.replies[s.processed])),
       processed := s.processed + 1)
  }

  lemma PassedOnChannels(s: Pair)
    requires ChannelsHold(s) && s.processed < |s.replies| && s.processed < |s.requester.replies|
    requires s.processed !in s.dropped
    ensures ChannelsHold(PassedOn(s))
  {
    var n, s' := s.processed, PassedOn(s);
    assert forall k | 0 <= k < |s.requester.replies| && k != n ::
        s'.requester.replies[k] == s.requester.replies[k] && (Served(s', k) <==> Served(s, k));
    PassedOnItself(s);
  }

  lemma PassedOnItself(s: Pair)
    requires ChannelsHold(s) && s.processed < |s.replies| && s.processed < |s.requester.replies|
    requires s.processed !in s.dropped
    ensures var n, s' := s.processed, PassedOn(s);
            && s'.requester.replies[n].id == n + 1
            && Served(s', n) && n + 1 !in s'.requester.open
            && s'.requester.replies[n].chan.sent == [Arrived(s'.replies[n])]
  {
    var n := s.processed;
    assert !Served(s, n);
    assert Put(s.requester.replies[n].chan, Arrived(s.replies[n])).sent == [Arrived(s.replies[n])];
  }

  /** Passing a reply on changes neither ids nor what the service holds. */
  lemma PassedOnOthers(s: Pair)
    requires IdsInOrder(s) && InboxHolds(s) && AnswersHold(s)
    requires s.processed < |s.replies| && s.processed < |s.requester.replies|
    ensures IdsInOrder(PassedOn(s)) && InboxHolds(PassedOn(s)) && AnswersHold(PassedOn(s))
  {
  }

  lemma RequesterConsistent(s: Pair)
    requires ChannelsHold(s)
    ensures Consistent(s.requester)
  {
  }

  lemma ReceivesIsPassedOn(s: Pair)
    requires s.processed < |s.replies| && Consistent(s.requester) && s.processed < |s.requester.replies|
    requires Arrived(s.replies[s.processed]).head.requestID == s.processed + 1
    requires Arrived(s.replies[s.processed]).head.messageType == PacketHeader.MESSAGE_TYPE_REPLY
    requires s.processed + 1 in s.requester.open && s.requester.open[s.processed + 1] == s.processed
    ensures Do(s, RequesterReceives) == Some(PassedOn(s))
  {
  }

  lemma ReceiveOpen(s: Pair)
    requires Matched(s) && s.processed < |s.replies| && s.processed + 1 in s.requester.open
    ensures Do(s, RequesterReceives).Some? && Matched(Do(s, RequesterReceives).value)
  {
    NextReplyId(s);
    RequesterConsistent(s);
    OpenIsNext(s);
    ReceivesIsPassedOn(s);
    PassedOnChannels(s);
    PassedOnOthers(s);
  }

  lemma OpenIsNext(s: Pair)
    requires ChannelsHold(s) && AnswersHold(s) && s.processed + 1 in s.requester.open
    ensures s.processed < |s.requester.replies| && s.requester.open[s.processed + 1] == s.processed
    ensures s.processed !in s.dropped
  {
  }

  lemma NextReplyId(s: Pair)
    requires IdsInOrder(s) && s.processed < |s.replies|
    ensures Arrived(s.replies[s.processed]).head.requestID == s.processed + 1
    ensures Arrived(s.replies[s.processed]).head.messageType == PacketHeader.MESSAGE_TYPE_REPLY
  {
  }

  /** The state after the next reply has been dropped. */
  function DroppedNext(s: Pair): Pair { s.(processed := s.processed + 1, dropped := s.dropped + {s.processed}) }

  lemma DroppedChannels(s: Pair)
    requires ChannelsHold(s) && |s.requester.replies| <= s.processed < |s.replies|
    ensures ChannelsHold(DroppedNext(s))
  {
    assert forall k | 0 <= k < |s.requester.replies| :: Served(DroppedNext(s), k) <==> Served(s, k);
  }

  lemma DroppedOthers(s: Pair)
    requires IdsInOrder(s) && InboxHolds(s) && AnswersHold(s) && s.processed < |s.replies|
    ensures IdsInOrder(DroppedNext(s)) && InboxHolds(DroppedNext(s)) && AnswersHold(DroppedNext(s))
  {
  }

  lemma ReceivesIsDropped(s: Pair)
    requires s.processed < |s.replies| && Consistent(s.requester)
    requires Arrived(s.replies[s.processed]).head.requestID == s.processed + 1
    requires Arrived(s.replies[s.processed]).head.messageType == PacketHeader.MESSAGE_TYPE_REPLY
    requires s.processed + 1 !in s.requester.open
    ensures Do(s, RequesterReceives) == Some(DroppedNext(s))
  {
  }

  lemma ReceiveUnknown(s: Pair)
    requires Matched(s) && |s.requester.replies| <= s.processed < |s.replies| && s.processed + 1 !in s.requester.open
    ensures Do(s, RequesterReceives).Some? && Matched(Do(s, RequesterReceives).value)
  {
    NextReplyId(s);
    RequesterConsistent(s);
    ReceivesIsDropped(s);
    DroppedChannels(s);
    DroppedOthers(s);
  }

  lemma StepMatched(s: Pair, step: Step)
    requires Matched(s) && Do(s, step).Some?
    requires |Do(s, step).value.requests| < TWO_63 && |Do(s, step).value.replies| < TWO_63
    ensures Matched(Do(s, step).value)
  {
    match step {
      case Registers => RegisterMatched(s);
      case RequesterReceives => ReceiveMatched(s);
      case Requests(m) => RequestMatched(s, m);
      case ServiceReceives => ServiceMatched(s);
      case Answers(i, m) => AnswerMatched(s, i, m);
    }
  }

  lemma StepGrows(s: Pair, step: Step)
    requires Do(s, step).Some?
    ensures |s.requests| <= |Do(s, step).value.requests| && |s.replies| <= |Do(s, step).value.replies|
  {
  }

  /** In every run, as long as no side has sent 2^63 messages: the `k`-th channel receives the `k`-th
      reply or nothing; it has received it exactly if that reply was processed and not dropped. Which
      request that reply was written for plays no part. */
  lemma {:induction false} KthReplyToKthRequest(steps: seq<Step>)
    requires Run(START, steps).Some?
    requires |Run(START, steps).value.requests| < TWO_63 && |Run(START, steps).value.replies| < TWO_63
    ensures Matched(Run(START, steps).value)
  {
    if steps != [] {
      var init := steps[..|steps| - 1];
      StepGrows(Run(START, init).value, steps[|steps| - 1]);
      KthReplyToKthRequest(init);
      StepMatched(Run(START, init).value, steps[|steps| - 1]);
    }
  }

  // ---------- whose answer it is ----------

  /** What caller `k` was given is a reply written for its own request. */
  ghost predicate OwnAnswer(s: Pair, k: nat)
    requires k < |s.requester.replies| && |s.answered| == |s.replies|
  {
    exists j ::
      0 <= j < |s.replies| && s.answered[j] == k && s.requester.replies[k].chan.sent == [Arrived(s.replies[j])]
  }

  lemma OwnAnswerOf(s: Pair, k: nat)
    requires Matched(s) && k < |s.requester.replies| && Served(s, k)
    ensures OwnAnswer(s, k) <==> s.answered[k] == k
  {
    assert s.requester.replies[k].chan.sent == [Arrived(s.replies[k])];
    forall j | 0 <= j < |s.replies| && Arrived(s.replies[j]) == Arrived(s.replies[k]) ensures j == k {
      assert Arrived(s.replies[j]).head.requestID == j + 1;
    }
  }

  /** `Service.Handle` takes one request at a time and answers it before the next. */
  predicate Sequential(s: Pair) { forall k | 0 <= k < |s.answered| :: s.answered[k] == k }

  // ---------- schedules of the service ----------

  function AnswerCount(steps: seq<Step>): nat {
    if steps == [] then 0
    else AnswerCount(steps[..|steps| - 1]) + if steps[|steps| - 1].Answers? then 1 else 0
  }

  /** The handler loop: the next answer is always for the next request. */
  predicate InTurn(steps: seq<Step>) {
    forall n | 0 <= n < |steps| && steps[n].Answers? :: steps[n].i == AnswerCount(steps[..n])
  }

  lemma StepAnswered(s: Pair, step: Step)
    requires Do(s, step).Some?
    ensures Do(s, step).value.answered == s.answered + if step.Answers? then [step.i] else []
  {
    assert s.answered + [] == s.answered;
  }

  lemma InTurnBefore(steps: seq<Step>)
    requires InTurn(steps) && steps != []
    ensures InTurn(steps[..|steps| - 1])
  {
    var init := steps[..|steps| - 1];
    assert forall n | 0 <= n < |init| :: init[..n] == steps[..n] && init[n] == steps[n];
  }

  lemma {:induction false} InTurnIsSequential(steps: seq<Step>)
    requires Run(START, steps).Some? && InTurn(steps)
    ensures Sequential(Run(START, steps).value) && |Run(START, steps).value.answered| == AnswerCount(steps)
  {
    if steps != [] {
      var init, step := steps[..|steps| - 1], steps[|steps| - 1];
      InTurnBefore(steps);
      InTurnIsSequential(init);
      StepAnswered(Run(START, init).value, step);
    }
  }

  lemma Extend(steps: seq<Step>, s: Pair, step: Step) returns (more: seq<Step>, s': Pair)
    requires Run(START, steps) == Some(s) && Do(s, step).Some?
    ensures Do(s, step) == Some(s') && Run(START, more) == Some(s')
  {
    more, s' := steps + [step], Do(s, step).value;
    assert more[..|steps|] == steps;
  }

  lemma TwoRequests(q: Msg) returns (steps: seq<Step>, s: Pair)
    ensures Run(START, steps) == Some(s)
    ensures |s.requests| == 2 && s.received == 0 && s.replies == [] && s.answered == []
    ensures s.processed == 0 && s.dropped == {} && |s.requester.replies| == 1
  {
    steps, s := Extend([], START, Requests(q));
    steps, s := Extend(steps, s, Registers);
    steps, s := Extend(steps, s, Requests(q));
  }

  lemma TwoReceived(q: Msg) returns (steps: seq<Step>, s: Pair)
    ensures Run(START, steps) == Some(s)
    ensures |s.requests| == 2 && s.received == 2 && s.replies == [] && s.answered == []
    ensures s.processed == 0 && s.dropped == {} && |s.requester.replies| == 1
  {
    steps, s := TwoRequests(q);
    KthReplyToKthRequest(steps);
    steps, s := Extend(steps, s, ServiceReceives);
    KthReplyToKthRequest(steps);
    steps, s := Extend(steps, s, ServiceReceives);
  }

  lemma SecondAnsweredFirst(q: Msg) returns (steps: seq<Step>, s: Pair)
    ensures Run(START, steps) == Some(s) && Matched(s)
    ensures |s.requests| == 2 && |s.replies| == 1 && s.answered == [1]
    ensures s.processed == 0 && s.dropped == {} && |s.requester.replies| == 1
  {
    steps, s := TwoReceived(q);
    KthReplyToKthRequest(steps);
    steps, s := Extend(steps, s, Answers(1, q));
    KthReplyToKthRequest(steps);
  }

  lemma SecondAnswerReceived(q: Msg) returns (steps: seq<Step>, s: Pair)
    ensures Run(START, steps) == Some(s) && Matched(s)
    ensures Served(s, 0) && s.answered == [1] && |s.requester.replies| == 1
  {
    steps, s := SecondAnsweredFirst(q);
    NextIsOpenIff(s);
    ReceiveOpen(s);
    steps, s := Extend(steps, s, RequesterReceives);
    KthReplyToKthRequest(steps);
    assert !Served(s, 0) ==> 0 in s.dropped;
  }

  /** A service that answers its second request first gives the first caller the second caller's answer. */
  lemma OutOfTurnMixesUp(q: Msg)
    ensures exists steps, s ::
              && Run(START, steps) == Some(s) && Matched(s)
              && Served(s, 0) && s.answered == [1] && |s.requester.replies| == 1 && !OwnAnswer(s, 0)
  {
    var steps, s := SecondAnswerReceived(q);
    OwnAnswerOf(s, 0);
  }

  // ---------- schedules of the requester ----------

  function ReceiveCount(steps: seq<Step>): nat {
    if steps == [] then 0
    else ReceiveCount(steps[..|steps| - 1]) + if steps[|steps| - 1].RequesterReceives? then 1 else 0
  }

  function RegisterCount(steps: seq<Step>): nat {
    if steps == [] then 0
    else RegisterCount(steps[..|steps| - 1]) + if steps[|steps| - 1].Registers? then 1 else 0
  }

  /** The `n`-th step processes the `k`-th reply before the `k`-th request is registered. */
  predicate OvertakesAt(steps: seq<Step>, k: nat, n: nat) {
    && n < |steps| && steps[n].RequesterReceives?
    && ReceiveCount(steps[..n]) == k && RegisterCount(steps[..n]) <= k
  }

  ghost predicate Overtakes(steps: seq<Step>, k: nat) { exists n: nat :: OvertakesAt(steps, k, n) }

  lemma {:induction false} Counts(steps: seq<Step>)
    requires Run(START, steps).Some?
    ensures Run(START, steps).value.processed == ReceiveCount(steps)
    ensures |Run(START, steps).value.requester.replies| == RegisterCount(steps)
  {
    if steps != [] {
      Counts(steps[..|steps| - 1]);
      StepCounts(Run(START, steps[..|steps| - 1]).value, steps[|steps| - 1]);
    }
  }

  lemma StepCounts(s: Pair, step: Step)
    requires Do(s, step).Some?
    ensures Do(s, step).value.processed == s.processed + if step.RequesterReceives? then 1 else 0
    ensures |Do(s, step).value.requester.replies| == |s.requester.replies| + if step.Registers? then 1 else 0
  {
  }

  lemma OvertakesLast(steps: seq<Step>, k: nat)
    requires steps != []
    ensures var m := |steps| - 1;
            Overtakes(steps, k) <==> Overtakes(steps[..m], k) || OvertakesAt(steps, k, m)
  {
    var m := |steps| - 1;
    if Overtakes(steps[..m], k) {
      var n: nat :| OvertakesAt(steps[..m], k, n);
      assert steps[..m][..n] == steps[..n];
      assert OvertakesAt(steps, k, n);
    }
    if Overtakes(steps, k) {
      var n: nat :| OvertakesAt(steps, k, n);
      if n < m {
        assert steps[..m][..n] == steps[..n];
        assert OvertakesAt(steps[..m], k, n);
      }
    }
  }

  /** A reply is dropped exactly if nothing has been registered yet for its request. */
  lemma DroppedAt(s: Pair, step: Step)
    requires Matched(s) && Do(s, step).Some?
    ensures Do(s, step).value.dropped
         == if step.RequesterReceives? && |s.requester.replies| <= s.processed
            then s.dropped + {s.processed} else s.dropped
  {
    if step.RequesterReceives? {
      NextReplyId(s);
      NextIsOpenIff(s);
      DroppedByReceiving(s);
    }
  }

  lemma DroppedByReceiving(s: Pair)
    requires Do(s, RequesterReceives).Some?
    requires Arrived(s.replies[s.processed]).head.requestID == s.processed + 1
    ensures Do(s, RequesterReceives).value.dropped
         == if s.processed + 1 in s.requester.open then s.dropped else s.dropped + {s.processed}
  {
  }

  lemma NextIsOpenIff(s: Pair)
    requires ChannelsHold(s)
    ensures s.processed + 1 in s.requester.open <==> s.processed < |s.requester.replies|
  {
    assert !Served(s, s.processed);
  }

  lemma ReachesNobodyElse(s: Pair, k: nat)
    requires Matched(s) && k < |s.replies|
    ensures forall j | 0 <= j < |s.requester.replies| && j != k ::
              Arrived(s.replies[k]) !in s.requester.replies[j].chan.sent
  {
    forall j | 0 <= j < |s.requester.replies| && j != k && Served(s, j)
      ensures Arrived(s.replies[j]) != Arrived(s.replies[k])
    {
      assert Arrived(s.replies[j]).head.requestID == j + 1;
      assert Arrived(s.replies[k]).head.requestID == k + 1;
    }
  }

  /** Exactly the replies that overtake the registration of their request are dropped. */
  lemma {:induction false} DroppedIffOvertakes(steps: seq<Step>, k: nat)
    requires Run(START, steps).Some?
    requires |Run(START, steps).value.requests| < TWO_63 && |Run(START, steps).value.replies| < TWO_63
    ensures k in Run(START, steps).value.dropped <==> Overtakes(steps, k)
  {
    if steps != [] {
      var init, step := steps[..|steps| - 1], steps[|steps| - 1];
      StepGrows(Run(START, init).value, step);
      DroppedIffOvertakes(init, k);
      KthReplyToKthRequest(init);
      Counts(init);
      DroppedAt(Run(START, init).value, step);
      OvertakesLast(steps, k);
    }
  }

  /** A caller is given its own answer if and only if the `k`-th reply the service sent was written for the `k`-th
      request, and was processed, after that request had been registered. */
  lemma OwnAnswerIff(steps: seq<Step>, k: nat)
    requires Run(START, steps).Some?
    requires |Run(START, steps).value.requests| < TWO_63 && |Run(START, steps).value.replies| < TWO_63
    requires k < |Run(START, steps).value.requester.replies|
    ensures var s := Run(START, steps).value;
            && |s.answered| == |s.replies| && s.processed <= |s.replies|
            && ReceiveCount(steps) == s.processed
            && (OwnAnswer(s, k) <==> k < ReceiveCount(steps) && s.answered[k] == k && !Overtakes(steps, k))
  {
    KthReplyToKthRequest(steps);
    Counts(steps);
    DroppedIffOvertakes(steps, k);
    if Served(Run(START, steps).value, k) { OwnAnswerOf(Run(START, steps).value, k); }
  }

  /** With a handler that answers in turn, the `k`-th reply processed was written for the `k`-th request, and it
      reaches the caller of that request, and nobody else, unless it overtakes the registration. */
  lemma SequentialHandlerMatches(steps: seq<Step>, k: nat)
    requires Run(START, steps).Some?
    requires |Run(START, steps).value.requests| < TWO_63 && |Run(START, steps).value.replies| < TWO_63
    requires InTurn(steps) && k < ReceiveCount(steps)
    ensures var s := Run(START, steps).value;
            && k < |s.replies| == |s.answered| && s.answered[k] == k
            && (Overtakes(steps, k) <==> k >= |s.requester.replies| || s.requester.replies[k].chan.sent == [])
            && (!Overtakes(steps, k) ==> s.requester.replies[k].chan.sent == [Arrived(s.replies[k])])
            && (forall j | 0 <= j < |s.requester.replies| && j != k ::
                  Arrived(s.replies[k]) !in s.requester.replies[j].chan.sent)
  {
    KthReplyToKthRequest(steps);
    Counts(steps);
    ReachesNobodyElse(Run(START, steps).value, k);
    InTurnIsSequential(steps);
    DroppedIffOvertakes(steps, k);
  }

  /** A reply that overtakes the registration of its request is lost: it is dropped, and once its caller has
      registered it is left with an open channel that no later reply can reach. */
  lemma EarlyReplyIsLost(steps: seq<Step>, k: nat)
    requires Run(START, steps).Some?
    requires |Run(START, steps).value.requests| < TWO_63 && |Run(START, steps).value.replies| < TWO_63
    requires Overtakes(steps, k)
    ensures var s := Run(START, steps).value;
            && k in s.dropped
            && (k < |s.requester.replies| ==> s.requester.replies[k].chan.sent == [] && k + 1 in s.requester.open)
            && forall j | s.processed <= j < |s.replies| :: s.replies[j].head.requestID != k + 1
  {
    KthReplyToKthRequest(steps);
    DroppedIffOvertakes(steps, k);
  }

  lemma AnsweredUnregistered(q: Msg) returns (steps: seq<Step>, s: Pair)
    ensures Run(START, steps) == Some(s) && Matched(s)
    ensures |s.requests| == 1 && |s.replies| == 1 && s.processed == 0 && s.requester.replies == []
    ensures s.registering == Some(1)
  {
    steps, s := Extend([], START, Requests(q));
    KthReplyToKthRequest(steps);
    steps, s := Extend(steps, s, ServiceReceives);
    KthReplyToKthRequest(steps);
    steps, s := Extend(steps, s, Answers(0, q));
    KthReplyToKthRequest(steps);
  }

  /** This happens: a request is answered before `Send` has entered its reply channel. */
  lemma ReplyOvertakes(q: Msg)
    ensures exists steps, s ::
              && Run(START, steps) == Some(s) && Overtakes(steps, 0)
              && |s.requester.replies| == 1 && s.requester.replies[0].chan.sent == []
  {
    var steps, s := AnsweredUnregistered(q);
    DroppedAt(s, RequesterReceives);
    steps, s := Extend(steps, s, RequesterReceives);
    KthReplyToKthRequest(steps);
    steps, s := Extend(steps, s, Registers);
    KthReplyToKthRequest(steps);
    DroppedIffOvertakes(steps, 0);
    EarlyReplyIsLost(steps, 0);
  }

  // ---------- the two directions of the wire ----------

  /** The messages among the events of a connection. */
  function Sends(events: seq<Event>): seq<Msg> {
    if events == [] then [] else (if events[0].Send? then [events[0].m] else []) + Sends(events[1..])
  }

  function ArrivedAll(ms: seq<Msg>): (r: seq<Msg>)
    ensures |r| == |ms| && forall i | 0 <= i < |ms| :: r[i] == Arrived(ms[i])
  {
    seq(|ms|, i requires 0 <= i < |ms| => Arrived(ms[i]))
  }

  predicate AllNumbered(ms: seq<Msg>) { forall m <- ms :: m.head.requestID != 0 }

  lemma {:induction false} SendsArrive(events: seq<Event>)
    requires AllNumbered(Sends(events))
    ensures Received(events) == ArrivedAll(Sends(events))
  {
    if events != [] {
      var first, rest := if events[0].Send? then [events[0].m] else [], Sends(events[1..]);
      NumberedParts(first, rest);
      SendsArrive(events[1..]);
      ArrivedConcat(first, rest);
    }
  }

  lemma NumberedParts(a: seq<Msg>, b: seq<Msg>)
    requires AllNumbered(a + b)
    ensures AllNumbered(a) && AllNumbered(b)
  {
    assert forall m | m in a || m in b :: m in a + b;
  }

  lemma ArrivedConcat(a: seq<Msg>, b: seq<Msg>)
    requires |a| <= 1
    ensures ArrivedAll(a + b) == (if a == [] then [] else [Arrived(a[0])]) + ArrivedAll(b)
  {
  }

  /** What each side is taken to receive, one message after another, is what reading the other side's bytes
      delivers, whatever acknowledgements the two connections mix in. */
  lemma OverTheWire(codec: Json.Codec, steps: seq<Step>, requesting: seq<Event>, answering: seq<Event>)
    requires Run(START, steps).Some?
    requires |Run(START, steps).value.requests| < TWO_63 && |Run(START, steps).value.replies| < TWO_63
    requires Sends(requesting) == Run(START, steps).value.requests
    requires Sends(answering) == Run(START, steps).value.replies
    requires AllSendable(codec, requesting) && AllEncodable(requesting)
    requires AllSendable(codec, answering) && AllEncodable(answering)
    ensures Connection.Pump(codec, Connection.FRESH, Transmit(codec, Connection.FRESH, requesting).wire).0.delivered
         == ArrivedAll(Run(START, steps).value.requests)
    ensures Connection.Pump(codec, Connection.FRESH, Transmit(codec, Connection.FRESH, answering).wire).0.delivered
         == ArrivedAll(Run(START, steps).value.replies)
  {
    KthReplyToKthRequest(steps);
    SendsArrive(requesting);
    SendsArrive(answering);
    EndToEnd(codec, requesting);
    EndToEnd(codec, answering);
  }
}
