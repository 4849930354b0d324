/** Order, exactly-once delivery, conservation and the rate bound over whole runs of the bus. */
module BusRuns {
  import opened Lists
  import opened MachineIntegers
  import opened RateLimiter
  import opened BusModel

  datatype Op =
    | Send(request: Request)
    | Poll(id: string, max: nat)
    | Subscribe(id: string, topic: string)
    | Unsubscribe(id: string, topic: string)

  /** One locked call, as the methods of the bus specify it. */
  function Apply(b: Bus, op: Op): Bus {
    match op
    case Send(r) => Sent(b, r)
    case Poll(id, max) => AfterPoll(b, id, max)
    case Subscribe(id, topic) => Subscribed(b, id, topic)
    case Unsubscribe(id, topic) => Unsubscribed(b, id, topic)
  }

  function Run(b: Bus, ops: seq<Op>): Bus
    decreases |ops|
  {
    if ops == [] then b else Run(Apply(b, ops[0]), ops[1..])
  }

  // ---- histories of a run ----

  /** What one call hands to `id`: the oldest messages waiting, at most as many as asked for. */
  function HandedOut(b: Bus, op: Op, id: string): seq<Message> {
    if op.Poll? && op.id == id then if op.max < |Queue(b, id)| then Queue(b, id)[..op.max] else Queue(b, id) else []
  }

  /** Everything `id` got from its polls. */
  function Received(b: Bus, ops: seq<Op>, id: string): seq<Message>
    decreases |ops|
  {
    if ops == [] then [] else HandedOut(b, ops[0], id) + Received(Apply(b, ops[0]), ops[1..], id)
  }

  /** The size fits, the sender has its token, and the limiter lets the message through. */
  predicate Admissible(b: Bus, r: Request) {
    |r.msg.payload| <= 65536 && r.senderHasToken && Passes(WindowOf(b, r.msg.sender), r.checkedAt)
  }

  /** The message goes somewhere: its topic has subscribers, or its recipient has token and subscription. */
  predicate Deliverable(b: Bus, r: Request) {
    if r.msg.recipient == "" then Subscribers(b, r.msg.topic) != [] else r.recipientHasToken && r.recipientSubscribed
  }

  /** The message is meant for `id`: named as recipient, or a subscriber other than the sender. */
  predicate Addressed(b: Bus, r: Request, id: string) {
    && Admissible(b, r) && Deliverable(b, r)
    && if r.msg.recipient == "" then id in Subscribers(b, r.msg.topic) && id != r.msg.sender
       else id == r.msg.recipient
  }

  /** What one call owes `id`: a message meant for it as it was sent, with the sender's next number and the time. */
  function Owed(b: Bus, op: Op, id: string): seq<Message> {
    if op.Send? && Addressed(b, op.request, id) then
      var m := op.request.msg;
      [Message(m.sender, m.recipient, m.topic, m.payload, op.request.stampedAt, SequenceOf(b, m.sender) + 1)]
    else []
  }

  /** Every message meant for `id`, in the order of the sends. */
  function Deliveries(b: Bus, ops: seq<Op>, id: string): seq<Message>
    decreases |ops|
  {
    if ops == [] then [] else Owed(b, ops[0], id) + Deliveries(Apply(b, ops[0]), ops[1..], id)
  }

  /** How many messages all polls of the run handed out. */
  function TotalReceived(b: Bus, ops: seq<Op>): nat
    decreases |ops|
  {
    if ops == [] then 0 else
      (if ops[0].Poll? then |HandedOut(b, ops[0], ops[0].id)| else 0) + TotalReceived(Apply(b, ops[0]), ops[1..])
  }

  function SendCount(ops: seq<Op>): nat {
    if ops == [] then 0 else (if ops[0].Send? then 1 else 0) + SendCount(ops[1..])
  }

  function AcceptedCount(b: Bus, ops: seq<Op>): nat
    decreases |ops|
  {
    if ops == [] then 0 else
      (if ops[0].Send? && Admissible(b, ops[0].request) && Deliverable(b, ops[0].request) then 1 else 0)
      + AcceptedCount(Apply(b, ops[0]), ops[1..])
  }

  /** How many sends with a fitting payload and a token the limiter refused. */
  function LimitedCount(b: Bus, ops: seq<Op>): nat
    decreases |ops|
  {
    if ops == [] then 0 else
      (if ops[0].Send? && Checks(ops[0], ops[0].request.msg.sender) && !Admissible(b, ops[0].request) then 1 else 0)
      + LimitedCount(Apply(b, ops[0]), ops[1..])
  }

  /** A send of `sender` that gets as far as the limiter. */
  predicate Checks(op: Op, sender: string) {
    && op.Send? && op.request.msg.sender == sender
    && |op.request.msg.payload| <= 65536 && op.request.senderHasToken
  }

  /** How many sends of `sender` passed the limiter at a reading in `[from, to)`. */
  function PassCount(b: Bus, ops: seq<Op>, sender: string, from: int, to: int): nat
    decreases |ops|
  {
    if ops == [] then 0 else
      (if Checks(ops[0], sender) && Admissible(b, ops[0].request) && from <= ops[0].request.checkedAt < to
       then 1 else 0)
      + PassCount(Apply(b, ops[0]), ops[1..], sender, from, to)
  }

  // ---- what every call keeps ----

  ghost predicate SubscribedOnce(b: Bus) {
    forall topic | topic in b.subscriptions :: NoDuplicates(b.subscriptions[topic])
  }

  /** What waits for `id` is small enough, in order for each sender, and numbered by the senders' counters. */
  ghost predicate QueueSound(b: Bus, id: string) {
    && (forall m | m in Queue(b, id) :: |m.payload| <= MAX_PAYLOAD_BYTES && m.sequence <= SequenceOf(b, m.sender))
    && Increasing(Queue(b, id))
  }

  /** Sequence numbers grow along the list, sender by sender. */
  ghost predicate Increasing(s: seq<Message>) {
    forall i, j | 0 <= i < j < |s| && s[i].sender == s[j].sender :: s[i].sequence < s[j].sequence
  }

  ghost predicate Sound(b: Bus) {
    SubscribedOnce(b) && forall id :: QueueSound(b, id)
  }

  lemma {:induction false} PushedQueue(queues: map<string, seq<Message>>, targets: seq<string>, m: Message, id: string)
    requires NoDuplicates(targets)
    ensures var q := PushEach(queues, targets, m);
            (if id in q then q[id] else []) ==
            (if id in queues then queues[id] else []) + if id in targets then [m] else []
    decreases |targets|
  {
    if targets != [] {
      var front := targets[..|targets| - 1];
      assert targets == front + [targets[|targets| - 1]];
      PushedQueue(queues, front, m, id);
    }
  }

  /** One send: the queue of `id` grows by exactly the message, if it is meant for `id`. */
  lemma QueueAfterSend(b: Bus, r: Request, id: string)
    requires SubscribedOnce(b)
    ensures Queue(Sent(b, r), id) == Queue(b, id) + Owed(b, Send(r), id)
  {
    if Accepted(b, r) {
      if r.msg.recipient == EVERYONE {
        KeepMembers(Subscribers(b, r.msg.topic), {r.msg.sender});
      }
      PushedQueue(b.queues, Targets(b, r), Stamped(b, r), id);
    }
  }

  lemma SubscriptionsStayUnique(b: Bus, op: Op)
    requires SubscribedOnce(b)
    ensures SubscribedOnce(Apply(b, op))
  {
    if op.Unsubscribe? && op.topic in b.subscriptions {
      KeepMembers(b.subscriptions[op.topic], {op.id});
    }
  }

  /** What a call adds to a queue is small and numbered beyond all its sender sent before. */
  lemma OwedIsFresh(b: Bus, op: Op, m: Message, id: string)
    requires m in Owed(b, op, id)
    ensures |m.payload| <= MAX_PAYLOAD_BYTES
    ensures SequenceOf(b, m.sender) < m.sequence <= SequenceOf(Apply(b, op), m.sender)
  {
    SequenceStep(b, op, m.sender);
  }

  /** A queue loses messages at its front and gains new ones at its end. */
  lemma ShiftedQueueSound(b: Bus, c: Bus, handed: seq<Message>, owed: seq<Message>, id: string)
    requires QueueSound(b, id) && handed + Queue(c, id) == Queue(b, id) + owed && |owed| <= 1
    requires forall m :: SequenceOf(b, m) <= SequenceOf(c, m)
    requires forall m | m in owed :: |m.payload| <= MAX_PAYLOAD_BYTES
                                     && SequenceOf(b, m.sender) < m.sequence <= SequenceOf(c, m.sender)
    ensures QueueSound(c, id)
  {
    var all := Queue(b, id) + owed;
    assert forall m | m in all :: |m.payload| <= MAX_PAYLOAD_BYTES && m.sequence <= SequenceOf(c, m.sender);
    assert Increasing(all);
    assert Queue(c, id) == all[|handed|..];
  }

  lemma QueueStaysSound(b: Bus, op: Op, id: string)
    requires SubscribedOnce(b) && QueueSound(b, id)
    ensures QueueSound(Apply(b, op), id)
  {
    forall sender ensures SequenceOf(b, sender) <= SequenceOf(Apply(b, op), sender) {
      SequenceStep(b, op, sender);
    }
    forall m | m in Owed(b, op, id)
      ensures |m.payload| <= MAX_PAYLOAD_BYTES
              && SequenceOf(b, m.sender) < m.sequence <= SequenceOf(Apply(b, op), m.sender)
    {
      OwedIsFresh(b, op, m, id);
    }
    QueueStep(b, op, id);
    ShiftedQueueSound(b, Apply(b, op), HandedOut(b, op, id), Owed(b, op, id), id);
  }

  lemma {:induction false} RunKeepsSound(b: Bus, ops: seq<Op>)
    requires Sound(b)
    ensures Sound(Run(b, ops))
    decreases |ops|
  {
    if ops != [] {
      SubscriptionsStayUnique(b, ops[0]);
      forall id ensures QueueSound(Apply(b, ops[0]), id) {
        QueueStaysSound(b, ops[0], id);
      }
      RunKeepsSound(Apply(b, ops[0]), ops[1..]);
    }
  }

  /** So it is in every state the bus can reach. */
  lemma ReachableIsSound(ops: seq<Op>)
    ensures Sound(Run(IDLE, ops))
  {
    RunKeepsSound(IDLE, ops);
  }

  // ---- ordered exactly-once delivery ----

  lemma QueueStep(b: Bus, op: Op, id: string)
    requires SubscribedOnce(b)
    ensures HandedOut(b, op, id) + Queue(Apply(b, op), id) == Queue(b, id) + Owed(b, op, id)
  {
    if op.Send? {
      QueueAfterSend(b, op.request, id);
    }
  }

  /** What was polled and what still waits are together what was delivered, in order. */
  lemma {:induction false} FifoDelivery(b: Bus, ops: seq<Op>, id: string)
    requires SubscribedOnce(b)
    ensures Received(b, ops, id) + Queue(Run(b, ops), id) == Queue(b, id) + Deliveries(b, ops, id)
    decreases |ops|
  {
    if ops != [] {
      var c := Apply(b, ops[0]);
      SubscriptionsStayUnique(b, ops[0]);
      QueueStep(b, ops[0], id);
      FifoDelivery(c, ops[1..], id);
      Telescope(HandedOut(b, ops[0], id), Received(c, ops[1..], id), Queue(Run(b, ops), id), Queue(c, id),
              Queue(b, id), Owed(b, ops[0], id), Deliveries(c, ops[1..], id));
    }
  }

  lemma Telescope<T>(got: seq<T>, later: seq<T>, left: seq<T>, between: seq<T>,
                   before: seq<T>, owed: seq<T>, rest: seq<T>)
    requires got + between == before + owed && later + left == between + rest
    ensures (got + later) + left == before + (owed + rest)
  {
    assert (got + later) + left == got + (later + left);
    assert got + (between + rest) == (got + between) + rest;
    assert (before + owed) + rest == before + (owed + rest);
  }

  lemma SequenceStep(b: Bus, op: Op, sender: string)
    ensures SequenceOf(Apply(b, op), sender)
            == SequenceOf(b, sender)
               + if Checks(op, sender) && Admissible(b, op.request) then 1 else 0
  {
  }

  /** Deliveries carry, for each sender, numbers that grow from its counter on. */
  lemma {:induction false} DeliveriesInOrder(b: Bus, ops: seq<Op>, id: string)
    ensures Increasing(Deliveries(b, ops, id))
    ensures forall m | m in Deliveries(b, ops, id) :: SequenceOf(b, m.sender) < m.sequence
    decreases |ops|
  {
    if ops != [] {
      var c := Apply(b, ops[0]);
      DeliveriesInOrder(c, ops[1..], id);
      forall m | m in Deliveries(c, ops[1..], id)
        ensures SequenceOf(b, m.sender) <= SequenceOf(c, m.sender) < m.sequence
      {
        SequenceStep(b, ops[0], m.sender);
      }
      if ops[0].Send? {
        SequenceStep(b, ops[0], ops[0].request.msg.sender);
      }
    }
  }

  /** From an idle bus: polls and queue make up the deliveries, each sender's messages in order, none twice. */
  lemma ExactlyOnceInOrder(ops: seq<Op>, id: string)
    ensures Received(IDLE, ops, id) + Queue(Run(IDLE, ops), id) == Deliveries(IDLE, ops, id)
    ensures Increasing(Deliveries(IDLE, ops, id))
    ensures Increasing(Received(IDLE, ops, id))
  {
    FifoDelivery(IDLE, ops, id);
    DeliveriesInOrder(IDLE, ops, id);
    assert Queue(IDLE, id) == [];
    var got, left := Received(IDLE, ops, id), Queue(Run(IDLE, ops), id);
    forall i | 0 <= i < |got| ensures got[i] == (got + left)[i] {
    }
  }

  // ---- conservation ----

  /** The messages waiting in all queues together. */
  ghost function Waiting(queues: map<string, seq<Message>>): nat
    decreases |queues|
  {
    if queues == map[] then 0 else
      var id :| id in queues;
      |queues[id]| + Waiting(queues - {id})
  }

  lemma {:induction false} WaitingWithout(queues: map<string, seq<Message>>, id: string)
    requires id in queues
    ensures Waiting(queues) == |queues[id]| + Waiting(queues - {id})
    decreases |queues|
  {
    var first :| first in queues && Waiting(queues) == |queues[first]| + Waiting(queues - {first});
    if first != id {
      WaitingWithout(queues - {first}, id);
      WaitingWithout(queues - {id}, first);
      assert queues - {first} - {id} == queues - {id} - {first};
    }
  }

  lemma WaitingAfterUpdate(queues: map<string, seq<Message>>, id: string, q: seq<Message>)
    ensures Waiting(queues[id := q]) == Waiting(queues) - (if id in queues then |queues[id]| else 0) + |q|
  {
    WaitingWithout(queues[id := q], id);
    assert queues[id := q] - {id} == queues - {id};
    if id in queues {
      WaitingWithout(queues, id);
    } else {
      assert queues - {id} == queues;
    }
  }

  lemma {:induction false} WaitingAfterPush(queues: map<string, seq<Message>>, targets: seq<string>, m: Message)
    ensures Waiting(PushEach(queues, targets, m)) == Waiting(queues) + |targets|
    decreases |targets|
  {
    if targets != [] {
      var last, q := targets[|targets| - 1], PushEach(queues, targets[..|targets| - 1], m);
      WaitingAfterPush(queues, targets[..|targets| - 1], m);
      WaitingAfterUpdate(q, last, (if last in q then q[last] else []) + [m]);
    }
  }

  lemma DeliveredStep(b: Bus, op: Op)
    ensures Apply(b, op).stats.delivered + Waiting(b.queues)
            == b.stats.delivered + Waiting(Apply(b, op).queues)
               + if op.Poll? then |HandedOut(b, op, op.id)| else 0
  {
    match op
    case Send(r) =>
      WaitingAfterPush(b.queues, Targets(b, r), Stamped(b, r));
    case Poll(id, max) =>
      if id in b.queues {
        WaitingAfterUpdate(b.queues, id, b.queues[id][Min(max, |b.queues[id]|)..]);
      }
    case Subscribe(_, _) =>
    case Unsubscribe(_, _) =>
  }

  lemma SentStep(b: Bus, op: Op)
    ensures var s, c := b.stats, Apply(b, op).stats;
            && c.sent == s.sent + (if op.Send? then 1 else 0)
            && c.rateLimited == s.rateLimited
               + (if op.Send? && Checks(op, op.request.msg.sender) && !Admissible(b, op.request) then 1 else 0)
            && c.sent - c.rejected - c.rateLimited == s.sent - s.rejected - s.rateLimited
               + (if op.Send? && Admissible(b, op.request) && Deliverable(b, op.request) then 1 else 0)
  {
  }

  lemma {:induction false} RunConserves(b: Bus, ops: seq<Op>)
    ensures var e := Run(b, ops);
            && e.stats.delivered + Waiting(b.queues)
               == b.stats.delivered + Waiting(e.queues) + TotalReceived(b, ops)
            && e.stats.sent == b.stats.sent + SendCount(ops)
            && e.stats.rateLimited == b.stats.rateLimited + LimitedCount(b, ops)
            && e.stats.sent - e.stats.rejected - e.stats.rateLimited
               == b.stats.sent - b.stats.rejected - b.stats.rateLimited + AcceptedCount(b, ops)
    decreases |ops|
  {
    if ops != [] {
      DeliveredStep(b, ops[0]);
      SentStep(b, ops[0]);
      RunConserves(Apply(b, ops[0]), ops[1..]);
    }
  }

  /** In every reachable state the counters account for every send and every message. */
  lemma Conservation(ops: seq<Op>)
    ensures var e := Run(IDLE, ops).stats;
            && e.sent == SendCount(ops)
            && e.rateLimited == LimitedCount(IDLE, ops)
            && e.rejected == SendCount(ops) - LimitedCount(IDLE, ops) - AcceptedCount(IDLE, ops)
            && e.delivered == TotalReceived(IDLE, ops) + Waiting(Run(IDLE, ops).queues)
  {
    RunConserves(IDLE, ops);
  }

  /** A send that does not pass the limiter moves two counters and nothing else. */
  lemma RefusedSendOnlyCounts(b: Bus, r: Request)
    requires !Admissible(b, r)
    ensures var s := b.stats.(sent := b.stats.sent + 1);
            Sent(b, r) == b.(stats := if Checks(Send(r), r.msg.sender) then s.(rateLimited := s.rateLimited + 1)
                                      else s.(rejected := s.rejected + 1))
  {
    if Checks(Send(r), r.msg.sender) {
      assert b.windows[r.msg.sender := b.windows[r.msg.sender]] == b.windows;
    }
  }

  /** A sender's counter is the number of its sends that passed the limiter. */
  lemma {:induction false} SequenceCountsPasses(b: Bus, ops: seq<Op>, sender: string)
    ensures SequenceOf(Run(b, ops), sender) == SequenceOf(b, sender) + PassCount(b, ops, sender, 0, U64_RANGE)
    decreases |ops|
  {
    if ops != [] {
      SequenceStep(b, ops[0], sender);
      SequenceCountsPasses(Apply(b, ops[0]), ops[1..], sender);
    }
  }

  // ---- the rate bound ----

  /** The clock readings at which sends of `sender` are checked against the limit. */
  function CheckTimes(ops: seq<Op>, sender: string): seq<Millis>
    decreases |ops|
  {
    if ops == [] then [] else
      var later := CheckTimes(ops[1..], sender);
      if Checks(ops[0], sender) then [ops[0].request.checkedAt] + later else later
  }

  /** The clock does not go back during the run, nor before `least`. */
  ghost predicate Clocked(ops: seq<Op>, least: int)
    decreases |ops|
  {
    ops == [] ||
    if ops[0].Send? then
      least <= ops[0].request.checkedAt <= ops[0].request.stampedAt && Clocked(ops[1..], ops[0].request.stampedAt)
    else Clocked(ops[1..], least)
  }

  lemma {:induction false} ClockedIsOrdered(ops: seq<Op>, least: int, sender: string)
    requires Clocked(ops, least)
    ensures Ordered(least, CheckTimes(ops, sender))
    decreases |ops|
  {
    if ops != [] {
      ClockedIsOrdered(ops[1..], if ops[0].Send? then ops[0].request.stampedAt else least, sender);
    }
  }

  lemma WindowStep(b: Bus, op: Op, sender: string)
    ensures WindowOf(Apply(b, op), sender)
            == if Checks(op, sender) then Check(WindowOf(b, sender), op.request.checkedAt) else WindowOf(b, sender)
    ensures Checks(op, sender) ==>
              (Admissible(b, op.request) <==> Passes(WindowOf(b, sender), op.request.checkedAt))
  {
  }

  /** Whatever else happens on the bus, a sender's limiter sees just that sender's checks. */
  lemma {:induction false} LimiterIsPerSender(b: Bus, ops: seq<Op>, sender: string, from: int, to: int)
    ensures PassCount(b, ops, sender, from, to) == Admitted(WindowOf(b, sender), CheckTimes(ops, sender), from, to)
    decreases |ops|
  {
    if ops != [] {
      var w, times := WindowOf(b, sender), CheckTimes(ops, sender);
      var c := Apply(b, ops[0]);
      LimiterIsPerSender(c, ops[1..], sender, from, to);
      WindowStep(b, ops[0], sender);
      if Checks(ops[0], sender) {
        assert times[1..] == CheckTimes(ops[1..], sender);
      }
    }
  }

  /** At most 100 * (1 + ceil(L / 1000)) sends of one module pass in any interval of L ms. */
  lemma BusRateBound(ops: seq<Op>, sender: string, from: int, to: int)
    requires Clocked(ops, 0)
    ensures PassCount(IDLE, ops, sender, from, to) <= 100 * (1 + if to <= from then 0 else (to - from + 999) / 1000)
  {
    ClockedIsOrdered(ops, 0, sender);
    LimiterIsPerSender(IDLE, ops, sender, from, to);
    RateBound(CheckTimes(ops, sender), from, to);
  }

  /** Once the clock is past its first second, no module passes more than the limiter's exact peak. */
  lemma BusAtMostPeak(ops: seq<Op>, sender: string, from: int, to: int)
    requires Clocked(ops, WINDOW_MS) && from < to
    ensures var seconds := (to - from + 999) / 1000;
            PassCount(IDLE, ops, sender, from, to) <= if (to - from) % 1000 == 1 then 100 * seconds else 99 + 100 * seconds
  {
    ClockedIsOrdered(ops, WINDOW_MS, sender);
    LimiterIsPerSender(IDLE, ops, sender, from, to);
    AtMostPeak(CheckTimes(ops, sender), from, to);
  }

  /** A stretch of the run in which no send of `sender` passes leaves its window as it is. */
  lemma {:induction false} QuietKeepsWindow(b: Bus, ops: seq<Op>, sender: string)
    requires PassCount(b, ops, sender, 0, U64_RANGE) == 0
    ensures WindowOf(Run(b, ops), sender) == WindowOf(b, sender)
    decreases |ops|
  {
    if ops != [] {
      WindowStep(b, ops[0], sender);
      QuietKeepsWindow(Apply(b, ops[0]), ops[1..], sender);
    }
  }

  /**
   However often a sender was refused, and whatever else happened, a second after its last message
   passed the limiter the next one passes.
   */
  lemma SenderPassesAfterOneSecond(b: Bus, r: Request, ops: seq<Op>, next: Request)
    requires Admissible(b, r) && WindowOf(b, r.msg.sender).start <= r.checkedAt
    requires PassCount(Apply(b, Send(r)), ops, r.msg.sender, 0, U64_RANGE) == 0
    requires next.msg.sender == r.msg.sender && |next.msg.payload| <= 65536 && next.senderHasToken
    requires r.checkedAt + 1000 <= next.checkedAt
    ensures Admissible(Run(Apply(b, Send(r)), ops), next)
  {
    WindowStep(b, Send(r), r.msg.sender);
    QuietKeepsWindow(Apply(b, Send(r)), ops, r.msg.sender);
  }
}
