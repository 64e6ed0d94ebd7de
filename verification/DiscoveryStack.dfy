/** Discovery on top of the real worker: every node runs the pubsub worker with its queue,
    inbox table and mail, and the discovery tasks only use the service. Other users of the
    service may do anything except publish on the discovery topic. */
module DiscoveryStack {
  import opened LittleEndian
  import opened Gossipsub
  import opened GossipsubRuns
  import opened Discovery
  import opened Wrappers

  const TOPIC: Topic := "_robonomics_pubsub_peer_discovery"

  datatype Setup = Setup(sha256: Topic -> Topic, base58: PeerId -> Text)

  /** What a node's worker has done, the channel of its discovery inbox, how much of that
      was read, the addresses still to dial and those dialed. */
  datatype Node = Node(
    actions: seq<Action>,
    inbox: Option<nat>,
    read: nat,
    pending: seq<Text>,
    dialed: seq<Text>)

  const FRESH := Node([], None, 0, [], [])

  type Net = map<PeerId, Node>

  function At(net: Net, n: PeerId): Node { if n in net then net[n] else FRESH }

  function WorkerOf(setup: Setup, node: Node): State { Run(setup.sha256, START, node.actions) }

  datatype Move =
    | Start(n: PeerId)
    | Use(n: PeerId, command: Command)
    | Tell(n: PeerId, reply: nat, timestamp: u64)
    | Work(n: PeerId, says: SwarmSays)
    | Hear(n: PeerId, m: PeerId, k: nat)
    | Other(n: PeerId, event: GossipEvent)
    | Read(n: PeerId)
    | DialNext(n: PeerId)

  /** Starting subscribes once. Asking for listeners is a `Use`; telling turns an answer
      to it into a broadcast. A node hears what some node's worker published; it reads its
      inbox one message at a time and dials a message's addresses one by one. */
  function Next(setup: Setup, net: Net, move: Move): Node {
    var node := At(net, move.n);
    var w := WorkerOf(setup, node);
    match move
    case Start(_) =>
      if node.inbox.Some? then node
      else node.(actions := node.actions + [Send(Subscribe(TOPIC))], inbox := Some(w.nextChannel))
    case Use(_, command) =>
      if command.Publish? && command.topic == TOPIC then node
      else node.(actions := node.actions + [Send(command)])
    case Tell(n, r, timestamp) =>
      if r < |w.worker.replies| && w.worker.replies[r].answer.List? && w.worker.replies[r].answer.list != [] then
        var list := w.worker.replies[r].answer.list;
        var data := Serialize(DiscoveryMessage(setup.base58(n), timestamp, list));
        node.(actions := node.actions + [Send(Publish(TOPIC, data))])
      else node
    case Work(_, says) => node.(actions := node.actions + [Handle(says)])
    case Hear(_, m, k) =>
      var published := WorkerOf(setup, At(net, m)).worker.published;
      if k < |published| then
        node.(actions := node.actions + [Gossip(Received(m, [published[k].topic], published[k].data))])
      else node
    case Other(_, event) =>
      if event.Received? && TOPIC in event.topics then node
      else node.(actions := node.actions + [Gossip(event)])
    case Read(n) =>
      if node.inbox.Some? && node.pending == [] && node.read < |w.worker.Mail(node.inbox.value)| then
        node.(read := node.read + 1, pending := Dialed(n, w.worker.Mail(node.inbox.value)[node.read]))
      else node
    case DialNext(_) =>
      if node.pending == [] then node
      else node.(actions := node.actions + [Send(Connect(node.pending[0]))],
                 pending := node.pending[1..], dialed := node.dialed + [node.pending[0]])
  }

  function Play(setup: Setup, moves: seq<Move>): Net {
    if moves == [] then map[] else
    var net := Play(setup, moves[..|moves| - 1]);
    var move := moves[|moves| - 1];
    net[move.n := Next(setup, net, move)]
  }

  // ---- Where addresses come from ----

  /** The node's swarm once answered a listeners request with `list`. */
  ghost predicate Listened(setup: Setup, net: Net, m: PeerId, list: Addresses) {
    exists r :: 0 <= r < |WorkerOf(setup, At(net, m)).worker.replies| &&
      WorkerOf(setup, At(net, m)).worker.replies[r].answer == List(list)
  }

  /** `data` is a broadcast of addresses that `m` did listen on. */
  ghost predicate Genuine(setup: Setup, net: Net, m: PeerId, data: seq<byte>) {
    exists timestamp: u64, list: Addresses ::
      list != [] && Listened(setup, net, m, list) &&
      data == Serialize(DiscoveryMessage(setup.base58(m), timestamp, list))
  }

  /** The `k`-th publication of `m` is a broadcast of `list`, on which it did listen. */
  ghost predicate Told(setup: Setup, net: Net, m: PeerId, k: nat, timestamp: u64, list: Addresses) {
    && k < |WorkerOf(setup, At(net, m)).worker.published|
    && WorkerOf(setup, At(net, m)).worker.published[k]
         == Outgoing(TOPIC, Serialize(DiscoveryMessage(setup.base58(m), timestamp, list)))
    && list != [] && Listened(setup, net, m, list)
  }

  ghost predicate Broadcasted(setup: Setup, net: Net, m: PeerId, data: seq<byte>) {
    exists k: nat, timestamp: u64, list: Addresses ::
      Told(setup, net, m, k, timestamp, list) && data == Serialize(DiscoveryMessage(setup.base58(m), timestamp, list))
  }

  /** `a` is in a list that some node other than `n` did listen on and has published. */
  ghost predicate Learned(setup: Setup, net: Net, n: PeerId, a: Text) {
    exists m: PeerId, k: nat, timestamp: u64, list: Addresses ::
      m != n && a in list && Told(setup, net, m, k, timestamp, list)
  }

  predicate OnTopic(deed: Deed) { deed.Got? && deed.event.Received? && TOPIC in deed.event.topics }

  ghost predicate Sends(setup: Setup, net: Net, n: PeerId, sent: seq<Request>) {
    forall i :: 0 <= i < |sent| && sent[i].command.Publish? && sent[i].command.topic == TOPIC ==>
      Genuine(setup, net, n, sent[i].command.data)
  }

  ghost predicate Hears(setup: Setup, net: Net, trace: seq<Deed>) {
    forall j :: 0 <= j < |trace| && OnTopic(trace[j]) ==>
      Broadcasted(setup, net, trace[j].event.source, trace[j].event.data)
  }

  ghost predicate AllLearned(setup: Setup, net: Net, n: PeerId, addresses: seq<Text>) {
    forall i :: 0 <= i < |addresses| ==> Learned(setup, net, n, addresses[i])
  }

  ghost predicate Subscribes(node: Node, sent: seq<Request>) {
    node.inbox.Some? ==> node.inbox.value < |sent| && sent[node.inbox.value].command == Subscribe(TOPIC)
  }

  ghost predicate Honest(setup: Setup, net: Net, n: PeerId) {
    var node := At(net, n);
    var w := WorkerOf(setup, node);
    && Sends(setup, net, n, w.sent) && Hears(setup, net, w.trace) && Subscribes(node, w.sent)
    && AllLearned(setup, net, n, node.pending) && AllLearned(setup, net, n, node.dialed)
  }

  ghost predicate AllHonest(setup: Setup, net: Net) {
    forall m: PeerId :: Honest(setup, net, m)
  }

  // ---- Answers are never taken back ----

  ghost predicate Later(setup: Setup, net: Net, net': Net) {
    forall m: PeerId ::
      && WorkerOf(setup, At(net, m)).worker.replies <= WorkerOf(setup, At(net', m)).worker.replies
      && WorkerOf(setup, At(net, m)).worker.published <= WorkerOf(setup, At(net', m)).worker.published
  }

  lemma ListenedLater(setup: Setup, net: Net, net': Net, m: PeerId, list: Addresses)
    requires Later(setup, net, net') && Listened(setup, net, m, list)
    ensures Listened(setup, net', m, list)
  {
    hide Run;
    var r :| 0 <= r < |WorkerOf(setup, At(net, m)).worker.replies| &&
      WorkerOf(setup, At(net, m)).worker.replies[r].answer == List(list);
    assert WorkerOf(setup, At(net, m)).worker.replies <= WorkerOf(setup, At(net', m)).worker.replies;
    assert WorkerOf(setup, At(net', m)).worker.replies[r].answer == List(list);
  }

  lemma GenuineLater(setup: Setup, net: Net, net': Net, m: PeerId, data: seq<byte>)
    requires Later(setup, net, net') && Genuine(setup, net, m, data)
    ensures Genuine(setup, net', m, data)
  {
    hide Serialize, Listened;
    var timestamp: u64, list: Addresses :| list != [] && Listened(setup, net, m, list) &&
      data == Serialize(DiscoveryMessage(setup.base58(m), timestamp, list));
    ListenedLater(setup, net, net', m, list);
  }

  lemma ToldLater(setup: Setup, net: Net, net': Net, m: PeerId, k: nat, timestamp: u64, list: Addresses)
    requires Later(setup, net, net') && Told(setup, net, m, k, timestamp, list)
    ensures Told(setup, net', m, k, timestamp, list)
  {
    hide Run, Serialize, Listened;
    ListenedLater(setup, net, net', m, list);
    assert WorkerOf(setup, At(net, m)).worker.published <= WorkerOf(setup, At(net', m)).worker.published;
  }

  lemma BroadcastedLater(setup: Setup, net: Net, net': Net, m: PeerId, data: seq<byte>)
    requires Later(setup, net, net') && Broadcasted(setup, net, m, data)
    ensures Broadcasted(setup, net', m, data)
  {
    hide Serialize, Told, Later;
    var k: nat, timestamp: u64, list: Addresses :|
      Told(setup, net, m, k, timestamp, list) && data == Serialize(DiscoveryMessage(setup.base58(m), timestamp, list));
    ToldLater(setup, net, net', m, k, timestamp, list);
  }

  lemma LearnedLater(setup: Setup, net: Net, net': Net, n: PeerId, a: Text)
    requires Later(setup, net, net') && Learned(setup, net, n, a)
    ensures Learned(setup, net', n, a)
  {
    hide Told, Later;
    var m: PeerId, k: nat, timestamp: u64, list: Addresses :|
      m != n && a in list && Told(setup, net, m, k, timestamp, list);
    ToldLater(setup, net, net', m, k, timestamp, list);
  }

  lemma HonestLater(setup: Setup, net: Net, net': Net, n: PeerId)
    requires Later(setup, net, net') && Honest(setup, net, n) && At(net', n) == At(net, n)
    ensures Honest(setup, net', n)
  {
    hide Genuine, Broadcasted, Learned, Run;
    var node := At(net, n);
    var w := WorkerOf(setup, node);
    SendsLater(setup, net, net', n, w.sent);
    HearsLater(setup, net, net', w.trace);
    LearnedAllLater(setup, net, net', n, node.pending);
    LearnedAllLater(setup, net, net', n, node.dialed);
  }

  lemma SendsLater(setup: Setup, net: Net, net': Net, n: PeerId, sent: seq<Request>)
    requires Later(setup, net, net') && Sends(setup, net, n, sent)
    ensures Sends(setup, net', n, sent)
  {
    hide Genuine, Later;
    forall i | 0 <= i < |sent| && sent[i].command.Publish? && sent[i].command.topic == TOPIC
      ensures Genuine(setup, net', n, sent[i].command.data)
    { GenuineLater(setup, net, net', n, sent[i].command.data); }
  }

  lemma HearsLater(setup: Setup, net: Net, net': Net, trace: seq<Deed>)
    requires Later(setup, net, net') && Hears(setup, net, trace)
    ensures Hears(setup, net', trace)
  {
    hide Broadcasted, Later;
    forall j | 0 <= j < |trace| && OnTopic(trace[j])
      ensures Broadcasted(setup, net', trace[j].event.source, trace[j].event.data)
    { BroadcastedLater(setup, net, net', trace[j].event.source, trace[j].event.data); }
  }

  lemma LearnedAllLater(setup: Setup, net: Net, net': Net, n: PeerId, addresses: seq<Text>)
    requires Later(setup, net, net') && AllLearned(setup, net, n, addresses)
    ensures AllLearned(setup, net', n, addresses)
  {
    hide Learned, Later;
    forall i | 0 <= i < |addresses| ensures Learned(setup, net', n, addresses[i]) {
      LearnedLater(setup, net, net', n, addresses[i]);
    }
  }

  // ---- Mail on the discovery channel was received on the discovery topic ----

  lemma {:induction false} RoutedHasOwner(sha256: Topic -> Topic, trace: seq<Deed>, topics: seq<Topic>, channel: nat,
    message: Message, i: nat) returns (topic: Topic)
    requires i < |Routed(sha256, trace, topics, channel, message)|
    ensures Routed(sha256, trace, topics, channel, message)[i] == message
    ensures topic in topics && Owner(sha256, trace, topic) == Some(channel)
  {
    hide Owner;
    var init := topics[..|topics| - 1];
    if i < |Routed(sha256, trace, init, channel, message)| {
      topic := RoutedHasOwner(sha256, trace, init, channel, message, i);
    } else {
      topic := topics[|topics| - 1];
    }
  }

  /** Each delivered message was received, on a topic its channel owned at that moment. */
  lemma {:induction false} DeliveredWasReceived(sha256: Topic -> Topic, trace: seq<Deed>, channel: nat, i: nat)
    returns (j: nat, topic: Topic)
    requires i < |Delivered(sha256, trace, channel)|
    ensures j < |trace| && trace[j].Got? && trace[j].event.Received? && topic in trace[j].event.topics
    ensures Delivered(sha256, trace, channel)[i] == Message(trace[j].event.source, trace[j].event.data)
    ensures Owner(sha256, trace[..j], topic) == Some(channel)
  {
    hide Routed, Owner;
    var init := trace[..|trace| - 1];
    if i < |Delivered(sha256, init, channel)| {
      j, topic := DeliveredWasReceived(sha256, init, channel, i);
      assert init[..j] == trace[..j];
    } else {
      j := |trace| - 1;
      var event := trace[j].event;
      topic := RoutedHasOwner(sha256, init, event.topics, channel, Message(event.source, event.data),
                              i - |Delivered(sha256, init, channel)|);
    }
  }

  /** A channel sent with a subscription to `topic` owns no other topic. */
  lemma {:induction false} OwnsOnly(sha256: Topic -> Topic, actions: seq<Action>, j: nat, channel: nat, topic: Topic)
    requires var s := Run(sha256, START, actions);
      j <= |s.trace| && Owner(sha256, s.trace[..j], topic) == Some(channel)
    ensures var s := Run(sha256, START, actions);
      channel < |s.sent| && s.sent[channel].command == Subscribe(topic)
  {
    hide Run, Requests, Owner, IsSubscribed;
    var s := Run(sha256, START, actions);
    RequestsConserved(sha256, actions);
    var k := LastTake(sha256, s.trace[..j], topic);
    assert s.trace[..j][k] == s.trace[k];
    var i := RequestPosition(s.trace, k);
    assert s.sent[i] == s.trace[k].request;
  }

  lemma {:induction false} MailIsOnTopic(setup: Setup, node: Node, i: nat) returns (j: nat)
    requires node.inbox.Some? && Subscribes(node, WorkerOf(setup, node).sent)
    requires i < |WorkerOf(setup, node).worker.Mail(node.inbox.value)|
    ensures var w := WorkerOf(setup, node);
      && j < |w.trace| && OnTopic(w.trace[j])
      && w.worker.Mail(node.inbox.value)[i] == Message(w.trace[j].event.source, w.trace[j].event.data)
  {
    hide Run, Delivered, Owner;
    var w, channel := WorkerOf(setup, node), node.inbox.value;
    RunMail(setup.sha256, node.actions, channel);
    var topic;
    j, topic := DeliveredWasReceived(setup.sha256, w.trace, channel, i);
    OwnsOnly(setup.sha256, node.actions, j, channel, topic);
  }

  // ---- Published data was sent ----

  lemma {:induction false} PublicationRequested(requests: seq<Request>, k: nat) returns (i: nat)
    requires k < |Publications(requests)|
    ensures i < |requests|
    ensures requests[i].command == Publish(Publications(requests)[k].topic, Publications(requests)[k].data)
  {
    var init := requests[..|requests| - 1];
    if k < |Publications(init)| { i := PublicationRequested(init, k); } else { i := |requests| - 1; }
  }

  lemma {:induction false} PublishedIsGenuine(setup: Setup, net: Net, m: PeerId, k: nat)
    requires Honest(setup, net, m) && k < |WorkerOf(setup, At(net, m)).worker.published|
    requires WorkerOf(setup, At(net, m)).worker.published[k].topic == TOPIC
    ensures Broadcasted(setup, net, m, WorkerOf(setup, At(net, m)).worker.published[k].data)
  {
    hide Run, Requests, Hears, AllLearned, Serialize, Listened;
    var node := At(net, m);
    var w := WorkerOf(setup, node);
    PublishedExactly(setup.sha256, node.actions);
    RequestsConserved(setup.sha256, node.actions);
    var i := PublicationRequested(Requests(w.trace), k);
    assert w.sent[i] == Requests(w.trace)[i];
    var data := w.worker.published[k].data;
    assert Genuine(setup, net, m, data);
    var timestamp: u64, list: Addresses :| list != [] && Listened(setup, net, m, list) &&
      data == Serialize(DiscoveryMessage(setup.base58(m), timestamp, list));
    assert Told(setup, net, m, k, timestamp, list);
  }

  // ---- One move at a time ----

  /** An action that brings nothing onto the topic but genuine broadcasts. */
  ghost predicate Fine(setup: Setup, net: Net, n: PeerId, action: Action) {
    match action
    case Send(command) => command.Publish? && command.topic == TOPIC ==> Genuine(setup, net, n, command.data)
    case Gossip(event) => event.Received? && TOPIC in event.topics ==> Broadcasted(setup, net, event.source, event.data)
    case Handle(_) => true
  }

  lemma WorkerGrows(sha256: Topic -> Topic, s: State, action: Action)
    ensures var s' := Step(sha256, s, action);
      && s.worker.replies <= s'.worker.replies && s.worker.published <= s'.worker.published
      && (s'.sent == s.sent || (action.Send? && s'.sent == s.sent + [Request(action.command, s.nextChannel)]))
      && (action.Send? ==> s'.sent == s.sent + [Request(action.command, s.nextChannel)])
      && (s'.trace == s.trace || (|s'.trace| == |s.trace| + 1 && s'.trace[..|s.trace|] == s.trace))
      && (|s'.trace| > |s.trace| && s'.trace[|s.trace|].Got? ==>
            action.Gossip? && s'.trace[|s.trace|].event == action.event)
  {
    hide Deliver;
  }

  lemma {:induction false} NodeGrows(setup: Setup, net: Net, n: PeerId, action: Action, node': Node)
    requires AllHonest(setup, net)
    requires node'.actions == At(net, n).actions + [action] && Fine(setup, net, n, action)
    requires AllLearned(setup, net, n, node'.pending) && AllLearned(setup, net, n, node'.dialed)
    requires || node'.inbox == At(net, n).inbox
             || (action == Send(Subscribe(TOPIC)) && node'.inbox == Some(WorkerOf(setup, At(net, n)).nextChannel))
    ensures AllHonest(setup, net[n := node'])
  {
    hide Step, Run, Genuine, Broadcasted, Learned, Serialize, Requests;
    var net', node := net[n := node'], At(net, n);
    var w, w' := WorkerOf(setup, node), WorkerOf(setup, node');
    RunSnoc(setup.sha256, START, node.actions, action);
    WorkerGrows(setup.sha256, w, action);
    assert Honest(setup, net, n);
    assert Sends(setup, net, n, w'.sent);
    assert Hears(setup, net, w'.trace) by {
      forall j | 0 <= j < |w'.trace| && OnTopic(w'.trace[j])
        ensures Broadcasted(setup, net, w'.trace[j].event.source, w'.trace[j].event.data)
      {
        if j < |w.trace| { assert w'.trace[j] == w.trace[j]; }
      }
    }
    assert Subscribes(node', w'.sent) by { RequestsConserved(setup.sha256, node.actions); }
    assert Later(setup, net, net');
    HonestNode(setup, net, net', n);
    forall m: PeerId ensures Honest(setup, net', m) {
      assert Honest(setup, net, m);
      if m != n { HonestLater(setup, net, net', m); }
    }
  }

  lemma HonestNode(setup: Setup, net: Net, net': Net, n: PeerId)
    requires Later(setup, net, net')
    requires var node := At(net', n);
      var w := WorkerOf(setup, node);
      && Sends(setup, net, n, w.sent) && Hears(setup, net, w.trace) && Subscribes(node, w.sent)
      && AllLearned(setup, net, n, node.pending) && AllLearned(setup, net, n, node.dialed)
    ensures Honest(setup, net', n)
  {
    hide Run, Genuine, Broadcasted, Learned, Sends, Hears, AllLearned, Later;
    var node := At(net', n);
    var w := WorkerOf(setup, node);
    SendsLater(setup, net, net', n, w.sent);
    HearsLater(setup, net, net', w.trace);
    LearnedAllLater(setup, net, net', n, node.pending);
    LearnedAllLater(setup, net, net', n, node.dialed);
  }

  /** What a reader dials of a broadcast, it learned from another node. */
  lemma DialedIsLearned(setup: Setup, net: Net, n: PeerId, m: PeerId, data: seq<byte>)
    requires Broadcasted(setup, net, m, data)
    ensures AllLearned(setup, net, n, Dialed(n, Message(m, data)))
  {
    hide Serialize, Deserialize, Told;
    var k: nat, timestamp: u64, list: Addresses :|
      Told(setup, net, m, k, timestamp, list) && data == Serialize(DiscoveryMessage(setup.base58(m), timestamp, list));
    MessageRoundTrip(DiscoveryMessage(setup.base58(m), timestamp, list));
    var addresses := Dialed(n, Message(m, data));
    forall i | 0 <= i < |addresses| ensures Learned(setup, net, n, addresses[i]) {
      assert m != n && addresses[i] in list;
    }
  }

  lemma {:induction false} ReadIsLearned(setup: Setup, net: Net, n: PeerId)
    requires Honest(setup, net, n)
    ensures AllLearned(setup, net, n, Next(setup, net, Read(n)).pending)
  {
    hide Run, Genuine, Broadcasted, Learned, Dialed, Worker.Mail;
    var node := At(net, n);
    var w := WorkerOf(setup, node);
    if Next(setup, net, Read(n)) != node {
      var j := MailIsOnTopic(setup, node, node.read);
      DialedIsLearned(setup, net, n, w.trace[j].event.source, w.trace[j].event.data);
    }
  }

  lemma TellIsGenuine(setup: Setup, net: Net, n: PeerId, r: nat, timestamp: u64)
    requires var replies := WorkerOf(setup, At(net, n)).worker.replies;
      r < |replies| && replies[r].answer.List? && replies[r].answer.list != []
    ensures var list := WorkerOf(setup, At(net, n)).worker.replies[r].answer.list;
      Genuine(setup, net, n, Serialize(DiscoveryMessage(setup.base58(n), timestamp, list)))
  {
    hide Run, Serialize;
    var list := WorkerOf(setup, At(net, n)).worker.replies[r].answer.list;
    assert Listened(setup, net, n, list);
  }

  /** A node that only read, or did nothing, leaves every worker as it was. */
  lemma {:induction false} NodeRests(setup: Setup, net: Net, n: PeerId, node': Node)
    requires AllHonest(setup, net)
    requires node'.actions == At(net, n).actions && node'.inbox == At(net, n).inbox
    requires AllLearned(setup, net, n, node'.pending) && AllLearned(setup, net, n, node'.dialed)
    ensures AllHonest(setup, net[n := node'])
  {
    hide Run, Genuine, Broadcasted, Learned, Sends, Hears, AllLearned;
    var net' := net[n := node'];
    assert Later(setup, net, net');
    assert Honest(setup, net, n);
    HonestNode(setup, net, net', n);
    forall m: PeerId ensures Honest(setup, net', m) {
      assert Honest(setup, net, m);
      if m != n { HonestLater(setup, net, net', m); }
    }
  }

  lemma {:induction false} MoveHonest(setup: Setup, net: Net, move: Move)
    requires AllHonest(setup, net)
    ensures AllHonest(setup, net[move.n := Next(setup, net, move)])
  {
    hide Run, Genuine, Broadcasted, Learned, Sends, Hears, Serialize, Dialed, Worker.Mail;
    var node, node' := At(net, move.n), Next(setup, net, move);
    assert Honest(setup, net, move.n);
    if node'.actions == node.actions {
      if move.Read? { ReadIsLearned(setup, net, move.n); }
      NodeRests(setup, net, move.n, node');
    } else {
      var action := node'.actions[|node.actions|];
      match move {
        case Tell(n, r, timestamp) => TellIsGenuine(setup, net, n, r, timestamp);
        case Hear(_, m, k) =>
          assert Honest(setup, net, m);
          if WorkerOf(setup, At(net, m)).worker.published[k].topic == TOPIC {
            PublishedIsGenuine(setup, net, m, k);
          }
        case _ =>
      }
      NodeGrows(setup, net, move.n, action, node');
    }
  }

  lemma {:induction false} PlayHonest(setup: Setup, moves: seq<Move>)
    ensures AllHonest(setup, Play(setup, moves))
  {
    hide Honest, Next;
    if moves == [] {
      forall m: PeerId ensures Honest(setup, map[], m) { FreshIsHonest(setup, m); }
    } else {
      PlayHonest(setup, moves[..|moves| - 1]);
      MoveHonest(setup, Play(setup, moves[..|moves| - 1]), moves[|moves| - 1]);
    }
  }

  lemma FreshIsHonest(setup: Setup, m: PeerId)
    ensures Honest(setup, map[], m)
  {
  }

  /** Discovery safety on the real stack, in every run: whatever the interleaving of
      queues, workers and readers, when a node dials an address, a different node has
      already published it in a list that its swarm had reported as its listeners. */
  lemma {:induction false} DialsAreLearned(setup: Setup, moves: seq<Move>, n: PeerId, i: nat) returns (j: nat)
    requires i < |At(Play(setup, moves), n).dialed|
    ensures j < |moves| && moves[j] == DialNext(n) && |At(Play(setup, moves[..j]), n).dialed| == i
    ensures Learned(setup, Play(setup, moves[..j]), n, At(Play(setup, moves), n).dialed[i])
  {
    hide Learned, Honest, Run, Serialize, Dialed, Worker.Mail;
    var init, last := moves[..|moves| - 1], moves[|moves| - 1];
    var net := Play(setup, init);
    if i < |At(net, n).dialed| {
      j := DialsAreLearned(setup, init, n, i);
      assert moves[..j] == init[..j];
    } else {
      j := |moves| - 1;
      PlayHonest(setup, init);
      PendingLearned(setup, net, n);
    }
  }

  lemma PendingLearned(setup: Setup, net: Net, n: PeerId)
    requires AllHonest(setup, net)
    ensures AllLearned(setup, net, n, At(net, n).pending)
  {
    hide Run, Learned;
    assert Honest(setup, net, n);
  }

  // ---- What was dialed is what the worker was asked to connect to ----

  function Sent(setup: Setup, node: Node): seq<Request> { WorkerOf(setup, node).sent }

  /** A request that a move of a node with these dials sends. */
  predicate ComesFrom(move: Move, command: Command, dialed: seq<Text>, i: nat) {
    || (move.Start? && command == Subscribe(TOPIC))
    || (move.Use? && command == move.command)
    || (move.Tell? && command.Publish? && command.topic == TOPIC)
    || (move.DialNext? && i < |dialed| && command == Connect(dialed[i]))
  }

  /** A move adds at most one request, and a dial only with the request that makes it. */
  lemma MoveSends(setup: Setup, net: Net, move: Move)
    ensures var node, node' := At(net, move.n), Next(setup, net, move);
      var sent, sent' := Sent(setup, node), Sent(setup, node');
      || (sent' == sent && node'.dialed == node.dialed)
      || (|sent'| == |sent| + 1 && sent'[..|sent|] == sent && var command := sent'[|sent|].command;
          && ComesFrom(move, command, node'.dialed, |node.dialed|)
          && node'.dialed == if move.DialNext? then node.dialed + [command.address] else node.dialed)
  {
    hide Step, Run, Serialize, Dialed, Worker.Mail;
    var node, node' := At(net, move.n), Next(setup, net, move);
    if node'.actions != node.actions {
      var action := node'.actions[|node.actions|];
      assert node'.actions == node.actions + [action];
      RunSnoc(setup.sha256, START, node.actions, action);
      WorkerGrows(setup.sha256, WorkerOf(setup, node), action);
    }
  }

  lemma NothingSent(setup: Setup)
    ensures Sent(setup, FRESH) == []
  {
  }

  /** Every request a worker was sent comes from one move of its node: starting, another
      user, telling, or dialing, and then it connects to the address dialed. */
  lemma {:induction false} SentBy(setup: Setup, moves: seq<Move>, n: PeerId, q: nat) returns (j: nat)
    requires q < |Sent(setup, At(Play(setup, moves), n))|
    ensures j < |moves| && moves[j].n == n && |Sent(setup, At(Play(setup, moves[..j]), n))| == q
    ensures var command, dialed := Sent(setup, At(Play(setup, moves), n))[q].command, At(Play(setup, moves), n).dialed;
      ComesFrom(moves[j], command, dialed, |At(Play(setup, moves[..j]), n).dialed|)
  {
    hide Run, Sent, Next, ComesFrom;
    NothingSent(setup);
    var init, last := moves[..|moves| - 1], moves[|moves| - 1];
    MoveSends(setup, Play(setup, init), last);
    if q < |Sent(setup, At(Play(setup, init), n))| {
      j := SentBy(setup, init, n, q);
      assert moves[..j] == init[..j];
      ComesFromLater(moves[j], Sent(setup, At(Play(setup, init), n))[q].command, At(Play(setup, init), n).dialed,
                At(Play(setup, moves), n).dialed, |At(Play(setup, moves[..j]), n).dialed|);
    } else {
      j := |moves| - 1;
    }
  }

  lemma ComesFromLater(move: Move, command: Command, dialed: seq<Text>, dialed': seq<Text>, i: nat)
    requires ComesFrom(move, command, dialed, i) && dialed <= dialed'
    ensures ComesFrom(move, command, dialed', i)
  {
  }

  /** Conversely each dialed address was sent as one such request, by the move that dialed
      it. As requests and dials only grow, the two are in the same order. */
  lemma {:induction false} DialIsSent(setup: Setup, moves: seq<Move>, n: PeerId, i: nat) returns (j: nat)
    requires i < |At(Play(setup, moves), n).dialed|
    ensures j < |moves| && moves[j] == DialNext(n) && |At(Play(setup, moves[..j]), n).dialed| == i
    ensures var q, sent := |Sent(setup, At(Play(setup, moves[..j]), n))|, Sent(setup, At(Play(setup, moves), n));
      q < |sent| && sent[q].command == Connect(At(Play(setup, moves), n).dialed[i])
  {
    hide Run, Sent, Next;
    var init, last := moves[..|moves| - 1], moves[|moves| - 1];
    MoveSends(setup, Play(setup, init), last);
    if i < |At(Play(setup, init), n).dialed| {
      j := DialIsSent(setup, init, n, i);
      assert moves[..j] == init[..j];
    } else {
      j := |moves| - 1;
    }
  }

  function Connects(requests: seq<Request>): seq<Text> {
    if requests == [] then [] else
    var command := requests[|requests| - 1].command;
    Connects(requests[..|requests| - 1]) + (if command.Connect? then [command.address] else [])
  }

  lemma ConnectsSnoc(requests: seq<Request>, request: Request)
    ensures Connects(requests + [request]) ==
      Connects(requests) + (if request.command.Connect? then [request.command.address] else [])
  {
    assert (requests + [request])[..|requests|] == requests;
  }

  /** Where no other user connects, the addresses dialed are exactly those the worker was
      asked to connect to, in order. */
  lemma {:induction false} DialedAreConnects(setup: Setup, moves: seq<Move>, n: PeerId)
    requires forall k :: 0 <= k < |moves| && moves[k].Use? && moves[k].n == n ==> !moves[k].command.Connect?
    ensures Connects(Sent(setup, At(Play(setup, moves), n))) == At(Play(setup, moves), n).dialed
  {
    hide Run, Sent, Next, Connects;
    if moves == [] {
      NothingSent(setup);
      NoConnects();
    } else {
      var init, last := moves[..|moves| - 1], moves[|moves| - 1];
      assert forall k :: 0 <= k < |init| ==> init[k] == moves[k];
      DialedAreConnects(setup, init, n);
      MoveSends(setup, Play(setup, init), last);
      var sent, sent' := Sent(setup, At(Play(setup, init), n)), Sent(setup, At(Play(setup, moves), n));
      if |sent'| > |sent| {
        assert sent' == sent + [sent'[|sent|]];
        ConnectsSnoc(sent, sent'[|sent|]);
      }
    }
  }

  lemma NoConnects()
    ensures Connects([]) == []
  {
  }

  // ---- Everything read is dialed ----

  function AllDialed(n: PeerId, mail: seq<Message>): seq<Text> {
    if mail == [] then [] else AllDialed(n, mail[..|mail| - 1]) + Dialed(n, mail[|mail| - 1])
  }

  lemma AllDialedSnoc(n: PeerId, mail: seq<Message>, message: Message)
    ensures AllDialed(n, mail + [message]) == AllDialed(n, mail) + Dialed(n, message)
  {
    hide Dialed;
    assert (mail + [message])[..|mail|] == mail;
  }

  lemma {:induction false} MailGrows(sha256: Topic -> Topic, actions: seq<Action>, action: Action, channel: nat)
    ensures Run(sha256, START, actions).worker.Mail(channel)
         <= Run(sha256, START, actions + [action]).worker.Mail(channel)
  {
    hide Run, Step, Brings, Worker.Mail;
    var s, s' := Run(sha256, START, actions), Run(sha256, START, actions + [action]);
    RunSnoc(sha256, START, actions, action);
    WorkerGrows(sha256, s, action);
    RunMail(sha256, actions, channel);
    RunMail(sha256, actions + [action], channel);
  }

  /** What is dialed and pending are the addresses of the messages read, in order. */
  ghost predicate Dialing(setup: Setup, n: PeerId, node: Node) {
    if node.inbox.None? then node.read == 0 && node.dialed == [] && node.pending == []
    else var mail := WorkerOf(setup, node).worker.Mail(node.inbox.value);
      node.read <= |mail| && node.dialed + node.pending == AllDialed(n, mail[..node.read])
  }

  /** In every run a node has dialed, or is about to, exactly the addresses of the messages
      it has read, in the order of its inbox. */
  lemma {:induction false} ReadsAreDialed(setup: Setup, moves: seq<Move>, n: PeerId)
    ensures Dialing(setup, n, At(Play(setup, moves), n))
  {
    hide Run, Serialize, Dialed, Worker.Mail, AllDialed, Next;
    if moves != [] && moves[|moves| - 1].n == n {
      var init, last := moves[..|moves| - 1], moves[|moves| - 1];
      var net := Play(setup, init);
      ReadsAreDialed(setup, init, n);
      MoveReads(setup, net, last);
    } else if moves != [] {
      ReadsAreDialed(setup, moves[..|moves| - 1], n);
    }
  }

  lemma {:induction false} MoveReads(setup: Setup, net: Net, move: Move)
    requires Dialing(setup, move.n, At(net, move.n))
    ensures Dialing(setup, move.n, Next(setup, net, move))
  {
    hide Run, Serialize, Dialed, Worker.Mail, AllDialed;
    var n := move.n;
    var node, node' := At(net, n), Next(setup, net, move);
    if node'.actions != node.actions && node'.inbox.Some? {
      var action, channel := node'.actions[|node.actions|], node'.inbox.value;
      assert node'.actions == node.actions + [action];
      MailGrows(setup.sha256, node.actions, action, channel);
      var mail, mail' := WorkerOf(setup, node).worker.Mail(channel), WorkerOf(setup, node').worker.Mail(channel);
      if move.Start? {
        NothingDialed(n, mail'[..0]);
      } else {
        assert mail'[..node.read] == mail[..node.read];
      }
    } else if move.Read? && node' != node {
      var mail := WorkerOf(setup, node).worker.Mail(node.inbox.value);
      assert mail[..node.read + 1] == mail[..node.read] + [mail[node.read]];
      AllDialedSnoc(n, mail[..node.read], mail[node.read]);
    }
  }

  lemma NothingDialed(n: PeerId, mail: seq<Message>)
    requires mail == []
    ensures AllDialed(n, mail) == []
  {
  }

  // ---- A broadcast reaches a listening peer ----

  lemma PlaySnoc(setup: Setup, moves: seq<Move>, move: Move)
    ensures Play(setup, moves + [move]) == Play(setup, moves)[move.n := Next(setup, Play(setup, moves), move)]
  {
    hide Next;
    assert (moves + [move])[..|moves|] == moves;
  }

  lemma DialOne(setup: Setup, moves: seq<Move>, n: PeerId)
    requires At(Play(setup, moves), n).pending != []
    ensures var node, node' := At(Play(setup, moves), n), At(Play(setup, moves + [DialNext(n)]), n);
      node'.dialed == node.dialed + [node.pending[0]] && node'.pending == node.pending[1..]
  {
    hide Run, Serialize, Dialed, Worker.Mail, Play;
    PlaySnoc(setup, moves, DialNext(n));
  }

  lemma {:induction false} DialAll(setup: Setup, moves: seq<Move>, n: PeerId, k: nat)
    requires k <= |At(Play(setup, moves), n).pending|
    ensures var node, node' := At(Play(setup, moves), n), At(Play(setup, moves + seq(k, _ => DialNext(n))), n);
      node'.dialed == node.dialed + node.pending[..k] && node'.pending == node.pending[k..]
  {
    hide Play;
    if k == 0 {
      assert moves + seq(0, _ => DialNext(n)) == moves;
    } else {
      DialAll(setup, moves, n, k - 1);
      var before := moves + seq(k - 1, _ => DialNext(n));
      assert moves + seq(k, _ => DialNext(n)) == before + [DialNext(n)];
      DialOne(setup, before, n);
    }
  }

  /** Where a broadcast can go: `n` reads the inbox filed for the topic and has read all of
      it, and `m`, with nothing left to do, knows addresses it listens on. */
  ghost predicate Ready(setup: Setup, net: Net, n: PeerId, m: PeerId, r: nat, list: Addresses) {
    var node, worker, w := At(net, n), WorkerOf(setup, At(net, n)).worker, WorkerOf(setup, At(net, m));
    && node.inbox.Some? && TOPIC in worker.inbox && worker.inbox[TOPIC] == node.inbox.value
    && node.pending == [] && node.read == |worker.Mail(node.inbox.value)|
    && w.queue == [] && r < |w.worker.replies| && w.worker.replies[r].answer == List(list) && list != []
  }

  /** Telling and one turn of the worker publish the broadcast. */
  lemma TellPublishes(setup: Setup, net: Net, m: PeerId, r: nat, list: Addresses, timestamp: u64, says: SwarmSays)
    requires var w := WorkerOf(setup, At(net, m));
      w.queue == [] && r < |w.worker.replies| && w.worker.replies[r].answer == List(list) && list != []
    ensures var net1 := net[m := Next(setup, net, Tell(m, r, timestamp))];
      var net2 := net1[m := Next(setup, net1, Work(m, says))];
      WorkerOf(setup, At(net2, m)).worker.published == WorkerOf(setup, At(net, m)).worker.published +
        [Outgoing(TOPIC, Serialize(DiscoveryMessage(setup.base58(m), timestamp, list)))]
  {
    hide Run, Serialize;
    var data := Serialize(DiscoveryMessage(setup.base58(m), timestamp, list));
    var actions := At(net, m).actions;
    RunSnoc(setup.sha256, START, actions, Send(Publish(TOPIC, data)));
    RunSnoc(setup.sha256, START, actions + [Send(Publish(TOPIC, data))], Handle(says));
  }

  /** Hearing it puts it in the inbox filed for the topic. */
  lemma HearDelivers(setup: Setup, net: Net, n: PeerId, m: PeerId, k: nat)
    requires var worker, published := WorkerOf(setup, At(net, n)).worker, WorkerOf(setup, At(net, m)).worker.published;
      TOPIC in worker.inbox && k < |published| && published[k].topic == TOPIC
    ensures var worker, published := WorkerOf(setup, At(net, n)).worker, WorkerOf(setup, At(net, m)).worker.published;
      var node' := Next(setup, net, Hear(n, m, k));
      && node' == At(net, n).(actions := node'.actions)
      && WorkerOf(setup, node').worker.Mail(worker.inbox[TOPIC]) ==
           worker.Mail(worker.inbox[TOPIC]) + [Message(m, published[k].data)]
  {
    hide Run;
    var worker, out := WorkerOf(setup, At(net, n)).worker, WorkerOf(setup, At(net, m)).worker.published[k];
    RunSnoc(setup.sha256, START, At(net, n).actions, Gossip(Received(m, [TOPIC], out.data)));
    assert [TOPIC][..0] == [];
    assert Deliver(worker.inbox, worker.mail, [], Message(m, out.data)) == worker.mail;
  }

  function Relay(n: PeerId, m: PeerId, r: nat, timestamp: u64, says: SwarmSays, k: nat): seq<Move> {
    [Tell(m, r, timestamp), Work(m, says), Hear(n, m, k), Read(n)]
  }

  /** Completeness: after any run from which a broadcast can go, telling, publishing,
      hearing, reading and dialing end with `n` having dialed just the addresses of `m`. */
  lemma {:induction false} BroadcastReaches(setup: Setup, moves: seq<Move>, n: PeerId, m: PeerId, r: nat,
    list: Addresses, timestamp: u64, says: SwarmSays)
    requires n != m && Ready(setup, Play(setup, moves), n, m, r, list)
    ensures var k := |WorkerOf(setup, At(Play(setup, moves), m)).worker.published|;
      var moves' := moves + Relay(n, m, r, timestamp, says, k) + seq(|list|, _ => DialNext(n));
      && At(Play(setup, moves'), n).dialed == At(Play(setup, moves), n).dialed + list
      && At(Play(setup, moves'), n).pending == []
  {
    hide Run, Serialize, Deserialize, Play, Next, Worker.Mail;
    var net := Play(setup, moves);
    var k := |WorkerOf(setup, At(net, m)).worker.published|;
    var moves1 := moves + [Tell(m, r, timestamp)];
    var moves2 := moves1 + [Work(m, says)];
    var moves3 := moves2 + [Hear(n, m, k)];
    var moves4 := moves3 + [Read(n)];
    assert moves4 == moves + Relay(n, m, r, timestamp, says, k);
    PlaySnoc(setup, moves, Tell(m, r, timestamp));
    PlaySnoc(setup, moves1, Work(m, says));
    PlaySnoc(setup, moves2, Hear(n, m, k));
    PlaySnoc(setup, moves3, Read(n));
    TellPublishes(setup, net, m, r, list, timestamp, says);
    HearDelivers(setup, Play(setup, moves2), n, m, k);
    ReadTakes(setup, Play(setup, moves3), n, m, DiscoveryMessage(setup.base58(m), timestamp, list));
    DialAll(setup, moves4, n, |list|);
    assert list[..|list|] == list;
  }

  lemma ReadTakes(setup: Setup, net: Net, n: PeerId, m: PeerId, message: DiscoveryMessage)
    requires n != m && At(net, n).inbox.Some? && At(net, n).pending == []
    requires var mail := WorkerOf(setup, At(net, n)).worker.Mail(At(net, n).inbox.value);
      At(net, n).read < |mail| && mail[At(net, n).read] == Message(m, Serialize(message))
    ensures Next(setup, net, Read(n)).pending == message.listeners
    ensures Next(setup, net, Read(n)).dialed == At(net, n).dialed
  {
    hide Run, Serialize, Deserialize, Worker.Mail;
    MessageRoundTrip(message);
  }
}
