/** The inter-module bus as a value: who is queued what, and what one call makes of it. */
module BusModel {
  import opened Lists
  import opened RateLimiter

  const MAX_PAYLOAD_BYTES := 65536
  /** The recipient of a broadcast. */
  const EVERYONE := ""

  datatype Message = Message(sender: string, recipient: string, topic: string, payload: string,
                             timestamp: Millis, sequence: nat)

  datatype Stats = Stats(sent: nat, delivered: nat, rejected: nat, rateLimited: nat)

  datatype Bus = Bus(queues: map<string, seq<Message>>, subscriptions: map<string, seq<string>>,
                     windows: map<string, Window>, sequences: map<string, nat>, stats: Stats)

  const IDLE := Bus(map[], map[], map[], map[], Stats(0, 0, 0, 0))

  /** A call of `send` with the two clock readings it makes. */
  datatype Request = Request(msg: Message, senderHasToken: bool, recipientHasToken: bool, recipientSubscribed: bool,
                             checkedAt: Millis, stampedAt: Millis)

  function Queue(b: Bus, id: string): seq<Message> {
    if id in b.queues then b.queues[id] else []
  }

  function Subscribers(b: Bus, topic: string): seq<string> {
    if topic in b.subscriptions then b.subscriptions[topic] else []
  }

  function WindowOf(b: Bus, sender: string): Window {
    if sender in b.windows then b.windows[sender] else FRESH
  }

  function SequenceOf(b: Bus, sender: string): nat {
    if sender in b.sequences then b.sequences[sender] else 0
  }

  predicate ReachesLimiter(r: Request) {
    |r.msg.payload| <= MAX_PAYLOAD_BYTES && r.senderHasToken
  }

  predicate PassesLimiter(b: Bus, r: Request) {
    ReachesLimiter(r) && Passes(WindowOf(b, r.msg.sender), r.checkedAt)
  }

  predicate Accepted(b: Bus, r: Request) {
    && PassesLimiter(b, r)
    && if r.msg.recipient == EVERYONE then Subscribers(b, r.msg.topic) != []
       else r.recipientHasToken && r.recipientSubscribed
  }

  /** The message as it is queued. */
  function Stamped(b: Bus, r: Request): Message {
    r.msg.(sequence := SequenceOf(b, r.msg.sender) + 1, timestamp := r.stampedAt)
  }

  /** The queues a message is pushed to, in order. */
  function Targets(b: Bus, r: Request): seq<string> {
    if r.msg.recipient == EVERYONE then Keep(Subscribers(b, r.msg.topic), {r.msg.sender}) else [r.msg.recipient]
  }

  function PushEach(queues: map<string, seq<Message>>, targets: seq<string>, m: Message): map<string, seq<Message>>
    decreases |targets|
  {
    if targets == [] then queues else
      var last := targets[|targets| - 1];
      var q := PushEach(queues, targets[..|targets| - 1], m);
      q[last := (if last in q then q[last] else []) + [m]]
  }

  function Sent(b: Bus, r: Request): Bus {
    var s := r.msg.sender;
    var stats := b.stats.(sent := b.stats.sent + 1);
    if !ReachesLimiter(r) then
      b.(stats := stats.(rejected := stats.rejected + 1))
    else
      var checked := b.(windows := b.windows[s := Check(WindowOf(b, s), r.checkedAt)]);
      if !PassesLimiter(b, r) then
        checked.(stats := stats.(rateLimited := stats.rateLimited + 1))
      else
        var numbered := checked.(sequences := b.sequences[s := SequenceOf(b, s) + 1]);
        if !Accepted(b, r) then
          numbered.(stats := stats.(rejected := stats.rejected + 1))
        else
          numbered.(queues := PushEach(b.queues, Targets(b, r), Stamped(b, r)),
          stats := stats.(delivered := stats.delivered + |Targets(b, r)|))
  }

  function Min(a: nat, b: nat): nat {
    if a < b then a else b
  }

  /** What a poll hands out: the oldest messages, at most `max`. */
  function Polled(b: Bus, id: string, max: nat): seq<Message> {
    Queue(b, id)[..Min(max, |Queue(b, id)|)]
  }

  function AfterPoll(b: Bus, id: string, max: nat): Bus {
    if id in b.queues then b.(queues := b.queues[id := b.queues[id][Min(max, |b.queues[id]|)..]]) else b
  }

  function Subscribed(b: Bus, id: string, topic: string): Bus {
    var subs := Subscribers(b, topic);
    b.(subscriptions := b.subscriptions[topic := if id in subs then subs else subs + [id]])
  }

  function Unsubscribed(b: Bus, id: string, topic: string): Bus {
    if topic in b.subscriptions then b.(subscriptions := b.subscriptions[topic := Keep(b.subscriptions[topic], {id})])
    else b
  }
}

/** The broker the daemon keeps. Each method runs under its lock. */
module ModuleBuses {
  import opened Lists
  import opened MachineIntegers
  import opened RateLimiter
  import opened BusModel

  class ModuleBus {
    var queues: map<string, seq<Message>>
    var subscriptions: map<string, seq<string>>
    var windows: map<string, Window>
    var sequences: map<string, nat>
    var stats: Stats

    ghost function State(): Bus
      reads this
    {
      Bus(queues, subscriptions, windows, sequences, stats)
    }

    constructor ()
      ensures State() == IDLE
    {
      queues, subscriptions, windows, sequences := map[], map[], map[], map[];
      stats := Stats(0, 0, 0, 0);
    }

    method Send(r: Request) returns (ok: bool)
      modifies this
      ensures ok <==>
              && |r.msg.payload| <= 65536 && r.senderHasToken
              && Passes(old(WindowOf(State(), r.msg.sender)), r.checkedAt)
              && if r.msg.recipient == "" then old(Subscribers(State(), r.msg.topic)) != []
                 else r.recipientHasToken && r.recipientSubscribed
      ensures State() == Sent(old(State()), r)
    {
      stats := stats.(sent := stats.sent + 1);
      if |r.msg.payload| > MAX_PAYLOAD_BYTES {
        stats := stats.(rejected := stats.rejected + 1);
        return false;
      }
      if !r.senderHasToken {
        stats := stats.(rejected := stats.rejected + 1);
        return false;
      }
      var within := CheckRateLimit(r.msg.sender, r.checkedAt);
      if !within {
        stats := stats.(rateLimited := stats.rateLimited + 1);
        return false;
      }
      var stamped := Stamp(r);
      ok := Dispatch(r, stamped);
    }

    /** Gives the message its sender's next number, whether or not it is delivered afterwards. */
    method Stamp(r: Request) returns (stamped: Message)
      modifies this`sequences
      ensures stamped == Stamped(old(State()), r)
      ensures sequences == old(sequences)[r.msg.sender := SequenceOf(old(State()), r.msg.sender) + 1]
    {
      var number := (if r.msg.sender in sequences then sequences[r.msg.sender] else 0) + 1;
      sequences := sequences[r.msg.sender := number];
      stamped := r.msg.(sequence := number, timestamp := r.stampedAt);
    }

    /** Routes a numbered message to its recipient or to the topic's subscribers. */
    method Dispatch(r: Request, stamped: Message) returns (ok: bool)
      requires stamped.sender == r.msg.sender
      modifies this`queues, this`stats
      ensures ok == if r.msg.recipient == EVERYONE then Subscribers(old(State()), r.msg.topic) != []
                    else r.recipientHasToken && r.recipientSubscribed
      ensures queues == if ok then PushEach(old(queues), Targets(old(State()), r), stamped) else old(queues)
      ensures stats == if ok then old(stats).(delivered := old(stats).delivered + |Targets(old(State()), r)|)
                       else old(stats).(rejected := old(stats).rejected + 1)
    {
      if r.msg.recipient == EVERYONE {
        if r.msg.topic !in subscriptions || subscriptions[r.msg.topic] == [] {
          stats := stats.(rejected := stats.rejected + 1);
          return false;
        }
        Broadcast(r.msg.topic, stamped);
      } else {
        if !r.recipientHasToken {
          stats := stats.(rejected := stats.rejected + 1);
          return false;
        }
        if !r.recipientSubscribed {
          stats := stats.(rejected := stats.rejected + 1);
          return false;
        }
        Push(r.msg.recipient, stamped);
      }
      return true;
    }

    method Push(id: string, m: Message)
      modifies this`queues, this`stats
      ensures queues == PushEach(old(queues), [id], m)
      ensures stats == old(stats).(delivered := old(stats).delivered + 1)
    {
      assert PushEach(queues, [], m) == queues;
      queues := queues[id := (if id in queues then queues[id] else []) + [m]];
      stats := stats.(delivered := stats.delivered + 1);
    }

    /** Pushes to the subscribers of a topic one by one, passing over the sender. */
    method Broadcast(topic: string, m: Message)
      requires topic in subscriptions
      modifies this`queues, this`stats
      ensures var targets := Keep(subscriptions[topic], {m.sender});
              && queues == PushEach(old(queues), targets, m)
              && stats == old(stats).(delivered := old(stats).delivered + |targets|)
    {
      var subs := subscriptions[topic];
      for i := 0 to |subs|
        invariant queues == PushEach(old(queues), Keep(subs[..i], {m.sender}), m)
        invariant stats == old(stats).(delivered := old(stats).delivered + |Keep(subs[..i], {m.sender})|)
      {
        assert subs[..i + 1] == subs[..i] + [subs[i]];
        KeepGrows(subs[..i], subs[i], {m.sender});
        if subs[i] == m.sender { continue; }
        ghost var done := Keep(subs[..i], {m.sender});
        assert (done + [subs[i]])[..|done|] == done;
        queues := queues[subs[i] := (if subs[i] in queues then queues[subs[i]] else []) + [m]];
        stats := stats.(delivered := stats.delivered + 1);
      }
      assert subs[..|subs|] == subs;
    }

    method CheckRateLimit(id: string, now: Millis) returns (within: bool)
      modifies this`windows
      ensures within == Passes(WindowOf(old(State()), id), now)
      ensures !within ==> windows == old(windows)
      ensures windows == old(windows)[id := Check(WindowOf(old(State()), id), now)]
    {
      if id !in windows { windows := windows[id := Window(0, 0)]; }
      var w := windows[id];
      if (now - w.start) % U64_RANGE >= WINDOW_MS {
        windows := windows[id := Window(now, 1)];
        return true;
      }
      if w.count >= MAX_PER_WINDOW { return false; }
      windows := windows[id := w.(count := w.count + 1)];
      return true;
    }

    method Poll(id: string, max: nat) returns (result: seq<Message>)
      modifies this`queues
      ensures var waiting := old(Queue(State(), id));
              && |result| == (if max < |waiting| then max else |waiting|)
              && result + Queue(State(), id) == waiting
      ensures forall other | other != id :: Queue(State(), other) == old(Queue(State(), other))
      ensures result == Polled(old(State()), id, max)
      ensures State() == AfterPoll(old(State()), id, max)
    {
      result := [];
      if id !in queues { return; }
      ghost var all := queues[id];
      while queues[id] != [] && |result| < max
        invariant id in queues && queues == old(queues)[id := queues[id]]
        invariant |result| <= max && |result| <= |all|
        invariant result == all[..|result|] && queues[id] == all[|result|..]
        decreases |queues[id]|
      {
        result := result + [queues[id][0]];
        queues := queues[id := queues[id][1..]];
      }
    }

    method Subscribe(id: string, topic: string)
      modifies this`subscriptions
      ensures var subs := old(Subscribers(State(), topic));
              Subscribers(State(), topic) == if id in subs then subs else subs + [id]
      ensures forall other | other != topic :: Subscribers(State(), other) == old(Subscribers(State(), other))
      ensures State() == Subscribed(old(State()), id, topic)
    {
      if topic !in subscriptions { subscriptions := subscriptions[topic := []]; }
      if id !in subscriptions[topic] {
        subscriptions := subscriptions[topic := subscriptions[topic] + [id]];
      }
    }

    method Unsubscribe(id: string, topic: string)
      modifies this`subscriptions
      ensures forall x :: x in Subscribers(State(), topic) <==> x != id && x in old(Subscribers(State(), topic))
      ensures forall other | other != topic :: Subscribers(State(), other) == old(Subscribers(State(), other))
      ensures State() == Unsubscribed(old(State()), id, topic)
    {
      KeepMembers(Subscribers(State(), topic), {id});
      if topic in subscriptions {
        subscriptions := subscriptions[topic := Keep(subscriptions[topic], {id})];
      }
    }
  }
}
