/** The pubsub worker: a service queues requests for it, the swarm feeds it events, and
    it keeps the table of inboxes. The swarm is its set of joined topics; what it says
    to a listen, dial or listeners request comes from outside. */
module Gossipsub {
  import opened LittleEndian

  type Topic = string
  type PeerId = seq<byte>

  /** A byte string whose length fits in 64 bits, and a list of such. */
  type Text = s: seq<byte> | |s| < 0x1_0000_0000_0000_0000
  type Multiaddr = Text
  type Addresses = s: seq<Multiaddr> | |s| < 0x1_0000_0000_0000_0000

  datatype Message = Message(from: PeerId, data: seq<byte>)

  datatype GossipEvent =
    | Received(source: PeerId, topics: seq<Topic>, data: seq<byte>)
    | OtherEvent

  datatype Command =
    | Listen(address: Multiaddr)
    | Connect(address: Multiaddr)
    | Listeners
    | Subscribe(topic: Topic)
    | Unsubscribe(topic: Topic)
    | Publish(topic: Topic, data: seq<byte>)

  /** A queued request with the channel its answer or its messages go to. */
  datatype Request = Request(command: Command, channel: nat)

  datatype Answer = Flag(flag: bool) | List(list: Addresses)
  datatype Reply = Reply(channel: nat, answer: Answer)
  datatype Outgoing = Outgoing(topic: Topic, data: seq<byte>)

  /** What the swarm replies when a request needs it to act. */
  datatype SwarmSays = SwarmSays(ok: bool, listeners: Addresses)

  /** One thing the worker did: take an event, or handle a request. */
  datatype Deed = Got(event: GossipEvent) | Handled(request: Request, says: SwarmSays)

  datatype Worker = Worker(
    subscribed: set<Topic>,
    inbox: map<Topic, nat>,
    mail: map<nat, seq<Message>>,
    replies: seq<Reply>,
    published: seq<Outgoing>)
  {
    function Mail(channel: nat): seq<Message> { if channel in mail then mail[channel] else [] }
  }

  /** The worker, its queue, and two histories: requests sent and deeds done. */
  datatype State = State(
    worker: Worker,
    queue: seq<Request>,
    nextChannel: nat,
    sent: seq<Request>,
    trace: seq<Deed>)

  const IDLE := Worker({}, map[], map[], [], [])
  const START := State(IDLE, [], 0, [], [])

  // ---- Worker operations ----

  /** Hands `message` to the inbox of every listed topic, once per occurrence. */
  function Deliver(inbox: map<Topic, nat>, mail: map<nat, seq<Message>>, topics: seq<Topic>, message: Message)
    : map<nat, seq<Message>>
  {
    if topics == [] then mail else
    var done := Deliver(inbox, mail, topics[..|topics| - 1], message);
    var topic := topics[|topics| - 1];
    if topic !in inbox then done
    else
      var channel := inbox[topic];
      done[channel := (if channel in done then done[channel] else []) + [message]]
  }

  /** The places of `topics` whose inbox is `channel`. */
  ghost function Places(inbox: map<Topic, nat>, topics: seq<Topic>, channel: nat): set<nat> {
    set i: nat | i < |topics| && topics[i] in inbox && inbox[topics[i]] == channel
  }

  lemma PlacesSnoc(inbox: map<Topic, nat>, topics: seq<Topic>, topic: Topic, channel: nat)
    ensures |Places(inbox, topics + [topic], channel)| ==
      |Places(inbox, topics, channel)| + (if topic in inbox && inbox[topic] == channel then 1 else 0)
  {
    var before, after := Places(inbox, topics, channel), Places(inbox, topics + [topic], channel);
    if topic in inbox && inbox[topic] == channel {
      assert after == before + {|topics|};
    } else {
      assert after == before;
    }
  }

  /** Each inbox gets as many copies as there are places for it, after what it had. */
  lemma {:induction false} DeliverExact(
    inbox: map<Topic, nat>, mail: map<nat, seq<Message>>, topics: seq<Topic>, message: Message, channel: nat)
    ensures var mail' := Deliver(inbox, mail, topics, message);
      (if channel in mail' then mail'[channel] else []) ==
        (if channel in mail then mail[channel] else []) + seq(|Places(inbox, topics, channel)|, _ => message)
  {
    hide Places;
    if topics == [] {
      assert |Places(inbox, [], channel)| == 0 by { NoPlaces(inbox, channel); }
    } else {
      var init, last := topics[..|topics| - 1], topics[|topics| - 1];
      DeliverExact(inbox, mail, init, message, channel);
      assert topics == init + [last];
      PlacesSnoc(inbox, init, last, channel);
      var n := |Places(inbox, init, channel)|;
      assert seq(n + 1, _ => message) == seq(n, _ => message) + [message];
    }
  }

  lemma NoPlaces(inbox: map<Topic, nat>, channel: nat)
    ensures |Places(inbox, [], channel)| == 0
  {
    assert Places(inbox, [], channel) == {};
  }

  function TakeEvent(w: Worker, event: GossipEvent): Worker {
    match event
    case Received(source, topics, data) =>
      w.(mail := Deliver(w.inbox, w.mail, topics, Message(source, data)))
    case OtherEvent => w
  }

  /** Subscribing files the inbox under the plain topic name; unsubscribing looks under
      the topic's SHA-256 form. */
  function HandleRequest(sha256: Topic -> Topic, w: Worker, request: Request, says: SwarmSays): Worker {
    var channel := request.channel;
    match request.command
    case Listen(_) => w.(replies := w.replies + [Reply(channel, Flag(says.ok))])
    case Connect(_) => w.(replies := w.replies + [Reply(channel, Flag(says.ok))])
    case Listeners => w.(replies := w.replies + [Reply(channel, List(says.listeners))])
    case Subscribe(topic) =>
      if topic in w.subscribed then w
      else w.(subscribed := w.subscribed + {topic}, inbox := w.inbox[topic := channel])
    case Unsubscribe(topic) =>
      var known := topic in w.subscribed;
      w.(subscribed := w.subscribed - {topic},
         inbox := if known then w.inbox - {sha256(topic)} else w.inbox,
         replies := w.replies + [Reply(channel, Flag(known))])
    case Publish(topic, data) => w.(published := w.published + [Outgoing(topic, data)])
  }

  // ---- Runs ----

  /** The service sends, the swarm produces an event, or the worker handles one request.
      Any interleaving is a run. */
  datatype Action = Send(command: Command) | Gossip(event: GossipEvent) | Handle(says: SwarmSays)

  function Step(sha256: Topic -> Topic, s: State, action: Action): State {
    match action
    case Send(command) =>
      var request := Request(command, s.nextChannel);
      s.(queue := s.queue + [request], nextChannel := s.nextChannel + 1, sent := s.sent + [request])
    case Gossip(event) =>
      s.(worker := TakeEvent(s.worker, event), trace := s.trace + [Got(event)])
    case Handle(says) =>
      if s.queue == [] then s
      else s.(worker := HandleRequest(sha256, s.worker, s.queue[0], says),
              queue := s.queue[1..], trace := s.trace + [Handled(s.queue[0], says)])
  }

  function Run(sha256: Topic -> Topic, s: State, actions: seq<Action>): State {
    if actions == [] then s
    else Step(sha256, Run(sha256, s, actions[..|actions| - 1]), actions[|actions| - 1])
  }

  lemma RunSnoc(sha256: Topic -> Topic, s: State, actions: seq<Action>, last: Action)
    ensures Run(sha256, s, actions + [last]) == Step(sha256, Run(sha256, s, actions), last)
  {
    assert (actions + [last])[..|actions|] == actions;
  }

  // ---- The worker object ----

  lemma {:induction false} RunAppend(sha256: Topic -> Topic, s: State, a: seq<Action>, b: seq<Action>)
    ensures Run(sha256, s, a + b) == Run(sha256, Run(sha256, s, a), b)
  {
    hide Step;
    if b == [] {
      assert a + b == a;
    } else {
      RunAppend(sha256, s, a, b[..|b| - 1]);
      assert (a + b)[..|a + b| - 1] == a + b[..|b| - 1];
    }
  }

  function Gossips(events: seq<GossipEvent>): (actions: seq<Action>)
    ensures |actions| == |events| && forall i :: 0 <= i < |events| ==> actions[i] == Gossip(events[i])
  {
    seq(|events|, i requires 0 <= i < |events| => Gossip(events[i]))
  }

  /** The deeds of taking `events`. */
  ghost function Gots(events: seq<GossipEvent>): (deeds: seq<Deed>)
    ensures |deeds| == |events| && forall i :: 0 <= i < |events| ==> deeds[i] == Got(events[i])
  {
    seq(|events|, i requires 0 <= i < |events| => Got(events[i]))
  }

  lemma EventsSnoc(events: seq<GossipEvent>, i: nat)
    requires i < |events|
    ensures Gossips(events[..i + 1]) == Gossips(events[..i]) + [Gossip(events[i])]
    ensures Gots(events[..i + 1]) == Gots(events[..i]) + [Got(events[i])]
  {
  }

  function Sends(commands: seq<Command>): (actions: seq<Action>)
    ensures |actions| == |commands| && forall i :: 0 <= i < |commands| ==> actions[i] == Send(commands[i])
  {
    seq(|commands|, i requires 0 <= i < |commands| => Send(commands[i]))
  }

  /** Commands as requests, with consecutive channels. */
  function AsRequests(commands: seq<Command>, channel: nat): (requests: seq<Request>)
    ensures |requests| == |commands|
    ensures forall i :: 0 <= i < |commands| ==> requests[i] == Request(commands[i], channel + i)
  {
    seq(|commands|, i requires 0 <= i < |commands| => Request(commands[i], channel + i))
  }

  function Count(arrivals: seq<seq<Command>>): nat {
    if arrivals == [] then 0 else |arrivals[0]| + Count(arrivals[1..])
  }

  function Flatten(arrivals: seq<seq<Command>>): seq<Command> {
    if arrivals == [] then [] else arrivals[0] + Flatten(arrivals[1..])
  }

  lemma {:induction false} FlattenSnoc(arrivals: seq<seq<Command>>, batch: seq<Command>)
    ensures Flatten(arrivals + [batch]) == Flatten(arrivals) + batch
  {
    if arrivals == [] {
      assert arrivals + [batch] == [batch];
      assert Flatten([batch][1..]) == [];
    } else {
      FlattenSnoc(arrivals[1..], batch);
      assert (arrivals + [batch])[1..] == arrivals[1..] + [batch];
    }
  }

  function Head(arrivals: seq<seq<Command>>): seq<Command> { if arrivals == [] then [] else arrivals[0] }
  function Tail(arrivals: seq<seq<Command>>): seq<seq<Command>> { if arrivals == [] then [] else arrivals[1..] }

  lemma CountHead(arrivals: seq<seq<Command>>)
    ensures Count(arrivals) == |Head(arrivals)| + Count(Tail(arrivals))
  {
  }

  function Min(x: nat, y: nat): nat { if x < y then x else y }

  lemma NothingCame(channel: nat)
    ensures AsRequests(Flatten([]), channel) == []
  {
  }

  /** One more look takes in one more batch, if there is one. */
  lemma BatchCame(arrivals: seq<seq<Command>>, looks: nat, channel: nat)
    ensures var k, k' := Min(looks, |arrivals|), Min(looks + 1, |arrivals|);
      var before := Flatten(arrivals[..k]);
      && Tail(arrivals[k..]) == arrivals[k'..]
      && AsRequests(Flatten(arrivals[..k']), channel)
           == AsRequests(before, channel) + AsRequests(Head(arrivals[k..]), channel + |before|)
  {
    hide Flatten;
    var k := Min(looks, |arrivals|);
    if k < |arrivals| {
      assert arrivals[..k + 1] == arrivals[..k] + [arrivals[k]];
      FlattenSnoc(arrivals[..k], arrivals[k]);
    }
  }

  /** Requests handled in order, each with the answer given at its turn. */
  function InTurn(requests: seq<Request>, says: nat -> SwarmSays): (deeds: seq<Deed>)
    ensures |deeds| == |requests|
    ensures forall i :: 0 <= i < |requests| ==> deeds[i] == Handled(requests[i], says(i))
  {
    seq(|requests|, i requires 0 <= i < |requests| => Handled(requests[i], says(i)))
  }

  lemma InTurnSnoc(requests: seq<Request>, says: nat -> SwarmSays, request: Request)
    ensures InTurn(requests + [request], says) == InTurn(requests, says) + [Handled(request, says(|requests|))]
  {
  }

  lemma NoRun(sha256: Topic -> Topic, s: State)
    ensures Run(sha256, s, []) == s
  {
  }

  /** Taking the oldest request keeps what was handled and what is queued in line. */
  lemma QueueMoves(first: seq<Request>, came: seq<Request>, asked: seq<Request>, queue: seq<Request>, more: seq<Request>)
    requires first + came == asked + queue
    ensures first + (came + more) == asked + (queue + more)
    ensures queue + more != [] ==>
      first + (came + more) == (asked + [(queue + more)[0]]) + (queue + more)[1..]
  {
    assert first + (came + more) == (first + came) + more;
  }

  class PubSubWorker {
    const sha256: Topic -> Topic
    var subscribed: set<Topic>
    var inbox: map<Topic, nat>
    var mail: map<nat, seq<Message>>
    var replies: seq<Reply>
    var published: seq<Outgoing>
    var fromService: seq<Request>
    var nextChannel: nat
    ghost var sent: seq<Request>
    ghost var trace: seq<Deed>

    ghost function Abs(): State
      reads this
    {
      State(Worker(subscribed, inbox, mail, replies, published), fromService, nextChannel, sent, trace)
    }

    constructor (sha256: Topic -> Topic)
      ensures this.sha256 == sha256 && Abs() == START
    {
      this.sha256 := sha256;
      subscribed, inbox, mail, replies, published := {}, map[], map[], [], [];
      fromService, nextChannel, sent, trace := [], 0, [], [];
    }

    /** Every service method opens a channel and queues its request. */
    method Enqueue(command: Command) returns (channel: nat)
      modifies this
      ensures Abs() == Step(sha256, old(Abs()), Send(command)) && channel == old(nextChannel)
      ensures fromService == old(fromService) + [Request(command, channel)] && nextChannel == channel + 1
      ensures sent == old(sent) + [Request(command, channel)] && trace == old(trace)
    {
      channel := nextChannel;
      nextChannel := nextChannel + 1;
      fromService := fromService + [Request(command, channel)];
      sent := sent + [Request(command, channel)];
    }

    method AddSubscription(topic: Topic, channel: nat) returns (ok: bool)
      modifies this`subscribed, this`inbox
      ensures ok == (topic !in old(subscribed)) && subscribed == old(subscribed) + {topic}
      ensures inbox == if ok then old(inbox)[topic := channel] else old(inbox)
    {
      ok := topic !in subscribed;
      if ok {
        subscribed := subscribed + {topic};
        inbox := inbox[topic := channel];
      }
    }

    method RemoveSubscription(topic: Topic) returns (ok: bool)
      modifies this`subscribed, this`inbox
      ensures ok == (topic in old(subscribed)) && subscribed == old(subscribed) - {topic}
      ensures inbox == if ok then old(inbox) - {sha256(topic)} else old(inbox)
    {
      ok := topic in subscribed;
      if ok {
        subscribed := subscribed - {topic};
        inbox := inbox - {sha256(topic)};
      }
    }

    method DispatchMessage(topics: seq<Topic>, message: Message)
      modifies this`mail
      ensures mail == Deliver(inbox, old(mail), topics, message)
    {
      for i := 0 to |topics|
        invariant mail == Deliver(inbox, old(mail), topics[..i], message)
      {
        assert topics[..i + 1][..i] == topics[..i];
        if topics[i] in inbox {
          var channel := inbox[topics[i]];
          mail := mail[channel := (if channel in mail then mail[channel] else []) + [message]];
        }
      }
      assert topics[..|topics|] == topics;
    }

    method TakeNext(says: SwarmSays)
      requires fromService != []
      modifies this
      ensures Abs() == Step(sha256, old(Abs()), Handle(says)) && fromService == old(fromService)[1..]
      ensures trace == old(trace) + [Handled(old(fromService)[0], says)]
      ensures sent == old(sent) && nextChannel == old(nextChannel) && mail == old(mail)
      ensures !old(fromService)[0].command.Subscribe? && !old(fromService)[0].command.Unsubscribe? ==>
        subscribed == old(subscribed) && inbox == old(inbox)
      ensures published == old(published) +
        var command := old(fromService)[0].command;
        if command.Publish? then [Outgoing(command.topic, command.data)] else []
      ensures replies == old(replies) +
        var Request(command, channel) := old(fromService)[0];
        match command
        case Listen(_) => [Reply(channel, Flag(says.ok))]
        case Connect(_) => [Reply(channel, Flag(says.ok))]
        case Listeners => [Reply(channel, List(says.listeners))]
        case Unsubscribe(topic) => [Reply(channel, Flag(topic in old(subscribed)))]
        case _ => []
    {
      var request := fromService[0];
      fromService := fromService[1..];
      trace := trace + [Handled(request, says)];
      match request.command {
        case Listen(_) => replies := replies + [Reply(request.channel, Flag(says.ok))];
        case Connect(_) => replies := replies + [Reply(request.channel, Flag(says.ok))];
        case Listeners => replies := replies + [Reply(request.channel, List(says.listeners))];
        case Subscribe(topic) =>
          var _ := AddSubscription(topic, request.channel);
        case Unsubscribe(topic) =>
          var ok := RemoveSubscription(topic);
          replies := replies + [Reply(request.channel, Flag(ok))];
        case Publish(topic, data) => published := published + [Outgoing(topic, data)];
      }
    }

    method EnqueueAll(commands: seq<Command>)
      modifies this
      ensures Abs() == Run(sha256, old(Abs()), Sends(commands)) && trace == old(trace)
      ensures fromService == old(fromService) + AsRequests(commands, old(nextChannel))
      ensures sent == old(sent) + AsRequests(commands, old(nextChannel))
      ensures nextChannel == old(nextChannel) + |commands|
    {
      for i := 0 to |commands|
        invariant Abs() == Run(sha256, old(Abs()), Sends(commands[..i])) && trace == old(trace)
        invariant fromService == old(fromService) + AsRequests(commands[..i], old(nextChannel))
        invariant sent == old(sent) + AsRequests(commands[..i], old(nextChannel))
        invariant nextChannel == old(nextChannel) + i
      {
        assert Sends(commands[..i + 1]) == Sends(commands[..i]) + [Send(commands[i])];
        assert AsRequests(commands[..i + 1], old(nextChannel))
            == AsRequests(commands[..i], old(nextChannel)) + [Request(commands[i], nextChannel)];
        RunSnoc(sha256, old(Abs()), Sends(commands[..i]), Send(commands[i]));
        var _ := Enqueue(commands[i]);
      }
      assert commands[..|commands|] == commands;
    }

    method TakeEvents(events: seq<GossipEvent>)
      modifies this
      ensures Abs() == Run(sha256, old(Abs()), Gossips(events))
      ensures trace == old(trace) + seq(|events|, i requires 0 <= i < |events| => Got(events[i]))
      ensures fromService == old(fromService) && sent == old(sent) && nextChannel == old(nextChannel)
    {
      hide Deliver, Gossips, Gots;
      assert Gossips([]) == [] && Gots([]) == [];
      for i := 0 to |events|
        invariant Abs() == Run(sha256, old(Abs()), Gossips(events[..i]))
        invariant trace == old(trace) + Gots(events[..i])
        invariant fromService == old(fromService) && sent == old(sent) && nextChannel == old(nextChannel)
      {
        EventsSnoc(events, i);
        RunSnoc(sha256, old(Abs()), Gossips(events[..i]), Gossip(events[i]));
        if events[i].Received? {
          DispatchMessage(events[i].topics, Message(events[i].source, events[i].data));
        }
        trace := trace + [Got(events[i])];
      }
      assert events[..|events|] == events;
      assert Gots(events) == seq(|events|, i requires 0 <= i < |events| => Got(events[i]));
    }

    /** One look at the queue, after `arrived` has come in. */
    method Turn(arrived: seq<Command>, says: SwarmSays) returns (ready: bool)
      modifies this
      ensures ready <==> old(|fromService|) + |arrived| > 0
      ensures Abs() == Run(sha256, old(Abs()), if ready then Sends(arrived) + [Handle(says)] else [])
      ensures sent == old(sent) + AsRequests(arrived, old(nextChannel)) && nextChannel == old(nextChannel) + |arrived|
      ensures var queue := old(fromService) + AsRequests(arrived, old(nextChannel));
        if ready then fromService == queue[1..] && trace == old(trace) + [Handled(queue[0], says)]
        else fromService == [] && trace == old(trace)
    {
      hide Step;
      EnqueueAll(arrived);
      ready := fromService != [];
      if ready {
        RunSnoc(sha256, old(Abs()), Sends(arrived), Handle(says));
        TakeNext(says);
      } else {
        assert Sends(arrived) == [];
      }
    }

    /** The second loop: look at the queue until no request is ready, while other threads
        send. The old queue, and then all that came in before the last of the `looks`, is
        handled in order, each request once, with the answer given at its turn. */
    method DrainQueue(arrivals: seq<seq<Command>>, says: nat -> SwarmSays)
      returns (looks: nat, ghost actions: seq<Action>)
      modifies this
      ensures Abs() == Run(sha256, old(Abs()), actions) && fromService == []
      ensures var came := AsRequests(Flatten(arrivals[..Min(looks, |arrivals|)]), old(nextChannel));
        var due := old(fromService) + came;
        && sent == old(sent) + came && looks == |due| + 1
        && trace == old(trace) + InTurn(due, says)
    {
      hide Run, Sends, Count, Step, Flatten, AsRequests, InTurn, Head, Tail;
      ghost var came, asked := [], [];
      var rest, ready := arrivals, true;
      looks, actions := 0, [];
      NothingCame(old(nextChannel));
      NoRun(sha256, Abs());
      while ready
        invariant Abs() == Run(sha256, old(Abs()), actions) && (ready || fromService == [])
        invariant rest == arrivals[Min(looks, |arrivals|)..]
        invariant came == AsRequests(Flatten(arrivals[..Min(looks, |arrivals|)]), old(nextChannel))
        invariant nextChannel == old(nextChannel) + |came| && sent == old(sent) + came
        invariant trace == old(trace) + InTurn(asked, says) && |asked| == if ready then looks else looks - 1
        invariant old(fromService) + came == asked + fromService
        decreases ready, |fromService| + Count(rest)
      {
        var now, answer := Head(rest), says(looks);
        ghost var more, queue := AsRequests(now, nextChannel), fromService + AsRequests(now, nextChannel);
        CountHead(rest);
        BatchCame(arrivals, looks, old(nextChannel));
        QueueMoves(old(fromService), came, asked, fromService, more);
        ready := Turn(now, answer);
        ghost var turn := if ready then Sends(now) + [Handle(answer)] else [];
        RunAppend(sha256, old(Abs()), actions, turn);
        actions, came := actions + turn, came + more;
        if ready {
          InTurnSnoc(asked, says, queue[0]);
          asked := asked + [queue[0]];
        }
        rest := Tail(rest);
        looks := looks + 1;
      }
      assert asked + [] == asked;
    }

    /** One poll: take the ready events, then drain the queue. The trace grows by the events
        and then by the requests, nothing is left out, and no request is ready on return. */
    method Poll(events: seq<GossipEvent>, arrivals: seq<seq<Command>>, says: nat -> SwarmSays)
      returns (looks: nat, ghost actions: seq<Action>)
      modifies this
      ensures Abs() == Run(sha256, old(Abs()), actions) && fromService == []
      ensures var came := AsRequests(Flatten(arrivals[..Min(looks, |arrivals|)]), old(nextChannel));
        var due := old(fromService) + came;
        && sent == old(sent) + came && looks == |due| + 1
        && trace == old(trace) + seq(|events|, i requires 0 <= i < |events| => Got(events[i]))
                               + InTurn(due, says)
    {
      hide Run, Gossips, Step, Flatten, AsRequests, InTurn;
      TakeEvents(events);
      looks, actions := DrainQueue(arrivals, says);
      RunAppend(sha256, old(Abs()), Gossips(events), actions);
      actions := Gossips(events) + actions;
    }
  }
}
