/** What holds in every run of the pubsub worker, stated over the trace of what it did. */
module GossipsubRuns {
  import opened Gossipsub
  import opened Wrappers

  // ---- Requests ----

  function Requests(trace: seq<Deed>): (r: seq<Request>)
  {
    if trace == [] then [] else
    var init := Requests(trace[..|trace| - 1]);
    match trace[|trace| - 1]
    case Got(_) => init
    case Handled(request, _) => init + [request]
  }

  /** Channels are numbered in the order of sending. */
  ghost predicate Numbered(s: State) {
    && s.nextChannel == |s.sent|
    && forall i :: 0 <= i < |s.sent| ==> s.sent[i].channel == i
  }

  /** At every point of every run the requests handled, followed by those still queued,
      are the requests sent, in order. */
  lemma {:induction false} RequestsConserved(sha256: Topic -> Topic, actions: seq<Action>)
    ensures var s := Run(sha256, START, actions);
      Requests(s.trace) + s.queue == s.sent && Numbered(s)
  {
    hide HandleRequest, TakeEvent;
    if actions != [] {
      RequestsConserved(sha256, actions[..|actions| - 1]);
      var s, s' := Run(sha256, START, actions[..|actions| - 1]), Run(sha256, START, actions);
      if s'.trace != s.trace { assert s'.trace[..|s'.trace| - 1] == s.trace; }
      match actions[|actions| - 1]
      case Send(_) => assert Requests(s.trace) + s'.queue == (Requests(s.trace) + s.queue) + [s'.queue[|s.queue|]];
      case Gossip(_) =>
      case Handle(_) => if s.queue != [] { assert s.queue == [s.queue[0]] + s.queue[1..]; }
    }
  }

  /** No two deeds handle requests with the same channel. */
  ghost predicate Distinct(trace: seq<Deed>) {
    forall j, k :: 0 <= j < k < |trace| && trace[j].Handled? && trace[k].Handled? ==>
      trace[j].request.channel != trace[k].request.channel
  }

  lemma {:induction false} RequestPosition(trace: seq<Deed>, k: nat) returns (i: nat)
    requires k < |trace| && trace[k].Handled?
    ensures i < |Requests(trace)| && Requests(trace)[i] == trace[k].request
    ensures i == |Requests(trace[..k])|
  {
    var init := trace[..|trace| - 1];
    if k == |trace| - 1 {
      i := |Requests(init)|;
    } else {
      i := RequestPosition(init, k);
      assert init[..k] == trace[..k];
    }
  }

  lemma {:induction false} RequestsGrow(trace: seq<Deed>, j: nat, k: nat)
    requires j < k <= |trace| && trace[j].Handled?
    ensures |Requests(trace[..j])| < |Requests(trace[..k])|
  {
    assert trace[..k][..k - 1] == trace[..k - 1];
    if j < k - 1 { RequestsGrow(trace, j, k - 1); }
  }

  lemma RunDistinct(sha256: Topic -> Topic, actions: seq<Action>)
    ensures Distinct(Run(sha256, START, actions).trace)
  {
    hide Run, Requests;
    RequestsConserved(sha256, actions);
    var s := Run(sha256, START, actions);
    forall j, k | 0 <= j < k < |s.trace| && s.trace[j].Handled? && s.trace[k].Handled?
      ensures s.trace[j].request.channel != s.trace[k].request.channel
    {
      var x := RequestPosition(s.trace, j);
      var y := RequestPosition(s.trace, k);
      RequestsGrow(s.trace, j, k);
      assert s.sent[x] == s.trace[j].request && s.sent[y] == s.trace[k].request;
    }
  }

  // ---- Subscriptions, read off the trace ----

  /** The last word about `topic` in the trace was a subscription. */
  predicate IsSubscribed(trace: seq<Deed>, topic: Topic) {
    trace != [] &&
    match trace[|trace| - 1]
    case Handled(Request(Subscribe(t), _), _) => t == topic || IsSubscribed(trace[..|trace| - 1], topic)
    case Handled(Request(Unsubscribe(t), _), _) => t != topic && IsSubscribed(trace[..|trace| - 1], topic)
    case _ => IsSubscribed(trace[..|trace| - 1], topic)
  }

  /** Deed `k` is a subscription to `topic` that was not a double one. */
  predicate Takes(trace: seq<Deed>, k: nat, topic: Topic)
    requires k < |trace|
  {
    && trace[k].Handled? && trace[k].request.command == Subscribe(topic)
    && !IsSubscribed(trace[..k], topic)
  }

  /** Deed `k` ends a subscription whose SHA-256 form is the name `topic`. */
  predicate Drops(sha256: Topic -> Topic, trace: seq<Deed>, k: nat, topic: Topic)
    requires k < |trace|
  {
    && trace[k].Handled? && trace[k].request.command.Unsubscribe?
    && sha256(trace[k].request.command.topic) == topic
    && IsSubscribed(trace[..k], trace[k].request.command.topic)
  }

  lemma Prefix(sha256: Topic -> Topic, trace: seq<Deed>, n: nat, topic: Topic)
    requires n <= |trace|
    ensures forall j: nat :: j < n ==> Takes(trace[..n], j, topic) == Takes(trace, j, topic)
    ensures forall j: nat :: j < n ==> Drops(sha256, trace[..n], j, topic) == Drops(sha256, trace, j, topic)
  {
    hide IsSubscribed;
    forall j: nat | j < n ensures trace[..n][..j] == trace[..j] {
    }
  }

  /** The channel that messages on `topic` go to after the trace. */
  function Owner(sha256: Topic -> Topic, trace: seq<Deed>, topic: Topic): Option<nat> {
    if trace == [] then None
    else
      var last := |trace| - 1;
      if Takes(trace, last, topic) then Some(trace[last].request.channel)
      else if Drops(sha256, trace, last, topic) then None
      else Owner(sha256, trace[..last], topic)
  }

  /** The worker's two tables are what the trace says they are. */
  ghost predicate Tables(sha256: Topic -> Topic, w: Worker, trace: seq<Deed>) {
    && (forall t :: t in w.subscribed <==> IsSubscribed(trace, t))
    && (forall t :: t in w.inbox <==> Owner(sha256, trace, t).Some?)
    && (forall t :: t in w.inbox ==> Owner(sha256, trace, t) == Some(w.inbox[t]))
  }

  lemma {:induction false} HandleTables(sha256: Topic -> Topic, w: Worker, trace: seq<Deed>, request: Request,
    says: SwarmSays)
    requires Tables(sha256, w, trace)
    ensures Tables(sha256, HandleRequest(sha256, w, request, says), trace + [Handled(request, says)])
  {
    var trace' := trace + [Handled(request, says)];
    assert trace'[..|trace|] == trace;
  }

  lemma {:induction false} RunTables(sha256: Topic -> Topic, actions: seq<Action>)
    ensures var s := Run(sha256, START, actions); Tables(sha256, s.worker, s.trace)
  {
    hide HandleRequest, Deliver;
    if actions != [] {
      RunTables(sha256, actions[..|actions| - 1]);
      var s := Run(sha256, START, actions[..|actions| - 1]);
      match actions[|actions| - 1]
      case Send(_) =>
      case Gossip(event) =>
        assert (s.trace + [Got(event)])[..|s.trace|] == s.trace;
      case Handle(says) =>
        if s.queue != [] { HandleTables(sha256, s.worker, s.trace, s.queue[0], says); }
    }
  }

  // ---- Delivery ----

  function Copies(topics: seq<Topic>, topic: Topic, message: Message): seq<Message> {
    if topics == [] then [] else
    Copies(topics[..|topics| - 1], topic, message) +
    (if topics[|topics| - 1] == topic then [message] else [])
  }

  function Adds(deed: Deed, topic: Topic): seq<Message> {
    if deed.Got? && deed.event.Received?
    then Copies(deed.event.topics, topic, Message(deed.event.source, deed.event.data))
    else []
  }

  /** One copy of each received message per occurrence of `topic` among its topics. */
  function Stream(deeds: seq<Deed>, topic: Topic): seq<Message> {
    if deeds == [] then [] else Stream(deeds[..|deeds| - 1], topic) + Adds(deeds[|deeds| - 1], topic)
  }

  /** The end of the subscription taken at deed `k`: the first later deed that takes over
      or drops its topic, or the end of the trace. */
  function Until(sha256: Topic -> Topic, trace: seq<Deed>, k: nat, topic: Topic): (m: nat)
    requires k < |trace|
    ensures k < m <= |trace|
    ensures forall j :: k < j < m ==> !Takes(trace, j, topic) && !Drops(sha256, trace, j, topic)
    ensures m < |trace| ==> Takes(trace, m, topic) || Drops(sha256, trace, m, topic)
    decreases |trace|
  {
    var init := trace[..|trace| - 1];
    if k == |trace| - 1 then |trace|
    else
      var m := Until(sha256, init, k, topic);
      Prefix(sha256, trace, |init|, topic);
      if m < |init| then m
      else if Takes(trace, m, topic) || Drops(sha256, trace, m, topic) then m
      else |trace|
  }

  /** The deed `k` filed `channel` under `topic` and nothing has ended that yet. */
  predicate Holds(sha256: Topic -> Topic, trace: seq<Deed>, k: nat, topic: Topic)
    requires k < |trace|
  {
    Takes(trace, k, topic) && Until(sha256, trace, k, topic) == |trace|
  }

  /** What a message adds to `channel`, given who owns its topics. */
  function Routed(sha256: Topic -> Topic, trace: seq<Deed>, topics: seq<Topic>, channel: nat, message: Message)
    : seq<Message>
  {
    if topics == [] then [] else
    Routed(sha256, trace, topics[..|topics| - 1], channel, message) +
    (if Owner(sha256, trace, topics[|topics| - 1]) == Some(channel) then [message] else [])
  }

  function Brings(sha256: Topic -> Topic, trace: seq<Deed>, deed: Deed, channel: nat): seq<Message> {
    if deed.Got? && deed.event.Received?
    then Routed(sha256, trace, deed.event.topics, channel, Message(deed.event.source, deed.event.data))
    else []
  }

  function Delivered(sha256: Topic -> Topic, trace: seq<Deed>, channel: nat): seq<Message> {
    if trace == [] then [] else
    var init := trace[..|trace| - 1];
    Delivered(sha256, init, channel) + Brings(sha256, init, trace[|trace| - 1], channel)
  }

  lemma {:induction false} DeliverRouted(sha256: Topic -> Topic, w: Worker, trace: seq<Deed>,
    topics: seq<Topic>, message: Message, channel: nat)
    requires Tables(sha256, w, trace)
    ensures w.(mail := Deliver(w.inbox, w.mail, topics, message)).Mail(channel)
         == w.Mail(channel) + Routed(sha256, trace, topics, channel, message)
  {
    hide Owner, IsSubscribed;
    if topics != [] {
      DeliverRouted(sha256, w, trace, topics[..|topics| - 1], message, channel);
    }
  }

  lemma {:induction false} StepMail(sha256: Topic -> Topic, s: State, action: Action, channel: nat)
    requires Tables(sha256, s.worker, s.trace) && s.worker.Mail(channel) == Delivered(sha256, s.trace, channel)
    ensures var s' := Step(sha256, s, action);
      s'.worker.Mail(channel) == Delivered(sha256, s'.trace, channel)
  {
    hide Deliver, Routed, Tables;
    match action
    case Send(_) =>
    case Gossip(event) =>
      assert (s.trace + [Got(event)])[..|s.trace|] == s.trace;
      if event.Received? {
        DeliverRouted(sha256, s.worker, s.trace, event.topics, Message(event.source, event.data), channel);
      }
    case Handle(says) =>
      if s.queue != [] { assert (s.trace + [Handled(s.queue[0], says)])[..|s.trace|] == s.trace; }
  }

  lemma {:induction false} RunMail(sha256: Topic -> Topic, actions: seq<Action>, channel: nat)
    ensures var s := Run(sha256, START, actions);
      s.worker.Mail(channel) == Delivered(sha256, s.trace, channel)
  {
    hide Step, Tables;
    if actions != [] {
      RunMail(sha256, actions[..|actions| - 1], channel);
      RunTables(sha256, actions[..|actions| - 1]);
      StepMail(sha256, Run(sha256, START, actions[..|actions| - 1]), actions[|actions| - 1], channel);
    }
  }

  lemma {:induction false} NeverFiled(sha256: Topic -> Topic, trace: seq<Deed>, topic: Topic, channel: nat)
    requires forall k :: 0 <= k < |trace| && trace[k].Handled? ==> trace[k].request.channel != channel
    ensures Owner(sha256, trace, topic) != Some(channel)
  {
    hide IsSubscribed;
    if trace != [] { NeverFiled(sha256, trace[..|trace| - 1], topic, channel); }
  }

  lemma {:induction false} NoneRouted(sha256: Topic -> Topic, trace: seq<Deed>, topics: seq<Topic>,
    channel: nat, message: Message)
    requires forall k :: 0 <= k < |trace| && trace[k].Handled? ==> trace[k].request.channel != channel
    ensures Routed(sha256, trace, topics, channel, message) == []
  {
    hide Owner;
    if topics != [] {
      NoneRouted(sha256, trace, topics[..|topics| - 1], channel, message);
      NeverFiled(sha256, trace, topics[|topics| - 1], channel);
    }
  }

  lemma {:induction false} NoneDelivered(sha256: Topic -> Topic, trace: seq<Deed>, channel: nat)
    requires forall k :: 0 <= k < |trace| && trace[k].Handled? ==> trace[k].request.channel != channel
    ensures Delivered(sha256, trace, channel) == []
  {
    hide Routed;
    if trace != [] {
      var init := trace[..|trace| - 1];
      NoneDelivered(sha256, init, channel);
      var deed := trace[|trace| - 1];
      if deed.Got? && deed.event.Received? {
        NoneRouted(sha256, init, deed.event.topics, channel, Message(deed.event.source, deed.event.data));
      }
    }
  }

  /** A channel owns a topic exactly while the subscription that filed it lasts. */
  lemma {:induction false} OwnerHolds(sha256: Topic -> Topic, trace: seq<Deed>, k: nat, topic: Topic, u: Topic)
    requires Distinct(trace) && k < |trace|
    requires trace[k].Handled? && trace[k].request.command == Subscribe(topic)
    ensures Owner(sha256, trace, u) == Some(trace[k].request.channel) <==> u == topic && Holds(sha256, trace, k, topic)
  {
    hide IsSubscribed;
    var init := trace[..|trace| - 1];
    if k == |init| {
      NeverFiled(sha256, init, u, trace[k].request.channel);
    } else {
      OwnerHolds(sha256, init, k, topic, u);
      Prefix(sha256, trace, |init|, topic);
    }
  }

  lemma {:induction false} RoutedCopies(sha256: Topic -> Topic, trace: seq<Deed>, k: nat, topic: Topic,
    topics: seq<Topic>, message: Message)
    requires Distinct(trace) && k < |trace|
    requires trace[k].Handled? && trace[k].request.command == Subscribe(topic)
    ensures Routed(sha256, trace, topics, trace[k].request.channel, message)
         == if Holds(sha256, trace, k, topic) then Copies(topics, topic, message) else []
  {
    hide Owner, Holds;
    if topics != [] {
      RoutedCopies(sha256, trace, k, topic, topics[..|topics| - 1], message);
      OwnerHolds(sha256, trace, k, topic, topics[|topics| - 1]);
    }
  }

  lemma {:induction false} UntilStep(sha256: Topic -> Topic, trace: seq<Deed>, k: nat, topic: Topic)
    requires k + 1 < |trace|
    ensures var init := trace[..|trace| - 1];
      var m := Until(sha256, init, k, topic);
      && Takes(trace, k, topic) == Takes(init, k, topic)
      && Until(sha256, trace, k, topic) ==
           if m < |init| then m
           else if Takes(trace, m, topic) || Drops(sha256, trace, m, topic) then m else |trace|
  {
    hide IsSubscribed;
    Prefix(sha256, trace, |trace| - 1, topic);
  }

  lemma StreamSnoc(deeds: seq<Deed>, last: Deed, topic: Topic)
    ensures Stream(deeds + [last], topic) == Stream(deeds, topic) + Adds(last, topic)
  {
    hide Adds;
    assert (deeds + [last])[..|deeds|] == deeds;
  }

  lemma Slices<T>(s: seq<T>, from: nat, to: nat)
    requires from <= to < |s|
    ensures s[..|s| - 1][from..to] == s[from..to]
    ensures s[from..|s|] == s[..|s| - 1][from..|s| - 1] + [s[|s| - 1]]
  {
  }

  lemma BringsAdds(sha256: Topic -> Topic, trace: seq<Deed>, k: nat, topic: Topic, deed: Deed)
    requires Distinct(trace) && k < |trace|
    requires trace[k].Handled? && trace[k].request.command == Subscribe(topic)
    ensures Brings(sha256, trace, deed, trace[k].request.channel)
         == if Holds(sha256, trace, k, topic) then Adds(deed, topic) else []
  {
    hide Routed, Copies, Holds, Distinct;
    if deed.Got? && deed.event.Received? {
      RoutedCopies(sha256, trace, k, topic, deed.event.topics, Message(deed.event.source, deed.event.data));
    }
  }

  /** What the subscription at deed `k` should have received: nothing if it was a double
      one, else the stream of its topic until it ends. */
  function Window(sha256: Topic -> Topic, trace: seq<Deed>, k: nat, topic: Topic): seq<Message>
    requires k < |trace|
  {
    if Takes(trace, k, topic) then Stream(trace[k + 1..Until(sha256, trace, k, topic)], topic) else []
  }

  lemma {:induction false} WindowStep(sha256: Topic -> Topic, trace: seq<Deed>, k: nat, topic: Topic)
    requires k + 1 < |trace|
    ensures var init := trace[..|trace| - 1];
      Window(sha256, trace, k, topic) == Window(sha256, init, k, topic) +
        (if Holds(sha256, init, k, topic) then Adds(trace[|init|], topic) else [])
  {
    hide IsSubscribed, Until, Stream, Copies;
    var init := trace[..|trace| - 1];
    UntilStep(sha256, trace, k, topic);
    Slices(trace, k + 1, Until(sha256, init, k, topic));
    StreamSnoc(init[k + 1..|init|], trace[|init|], topic);
  }

  lemma WindowOpens(sha256: Topic -> Topic, trace: seq<Deed>, topic: Topic)
    requires trace != []
    ensures Window(sha256, trace, |trace| - 1, topic) == []
  {
    hide IsSubscribed;
    assert trace[|trace|..|trace|] == [];
  }

  lemma {:induction false} DeliveredWindow(sha256: Topic -> Topic, trace: seq<Deed>, k: nat, topic: Topic)
    requires Distinct(trace) && k < |trace|
    requires trace[k].Handled? && trace[k].request.command == Subscribe(topic)
    ensures Delivered(sha256, trace, trace[k].request.channel) == Window(sha256, trace, k, topic)
  {
    hide Window, Brings, Adds, Holds;
    var init, channel := trace[..|trace| - 1], trace[k].request.channel;
    if k == |init| {
      NoneDelivered(sha256, init, channel);
      RequestBringsNothing(sha256, init, trace[k], channel);
      WindowOpens(sha256, trace, topic);
    } else {
      DeliveredWindow(sha256, init, k, topic);
      WindowStep(sha256, trace, k, topic);
      BringsAdds(sha256, init, k, topic, trace[|init|]);
    }
  }

  lemma RequestBringsNothing(sha256: Topic -> Topic, trace: seq<Deed>, deed: Deed, channel: nat)
    requires deed.Handled?
    ensures Brings(sha256, trace, deed, channel) == []
  {
  }

  /** Delivery: the inbox of a successful subscription receives, in order, one copy per
      occurrence of its topic in each message handled until the subscription ends; the
      inbox of a double subscription receives nothing. Unsubscribing ends it only if the
      topic's SHA-256 form is its own name. */
  lemma {:induction false} DeliveryExact(sha256: Topic -> Topic, actions: seq<Action>, k: nat, topic: Topic)
    requires k < |Run(sha256, START, actions).trace|
    requires var deed := Run(sha256, START, actions).trace[k];
      deed.Handled? && deed.request.command == Subscribe(topic)
    ensures var s := Run(sha256, START, actions);
      s.worker.Mail(s.trace[k].request.channel) == Window(sha256, s.trace, k, topic)
  {
    hide Run, Delivered, Window;
    var s := Run(sha256, START, actions);
    RunDistinct(sha256, actions);
    RunMail(sha256, actions, s.trace[k].request.channel);
    DeliveredWindow(sha256, s.trace, k, topic);
  }

  // ---- The vocabulary of the trace, in plain terms ----

  /** Subscribed means: some subscription was handled, and no unsubscription after it. */
  lemma {:induction false} SubscribedExactly(trace: seq<Deed>, topic: Topic)
    ensures IsSubscribed(trace, topic) <==> exists k: nat :: LastWord(trace, k, topic)
  {
    if trace != [] {
      var init, last := trace[..|trace| - 1], |trace| - 1;
      SubscribedExactly(init, topic);
      if k: nat :| LastWord(init, k, topic) {
        if !Says(trace[last], Unsubscribe(topic)) { assert LastWord(trace, k, topic); }
      }
      if Says(trace[last], Subscribe(topic)) { assert LastWord(trace, last, topic); }
      if k: nat :| LastWord(trace, k, topic) {
        if k < last { assert LastWord(init, k, topic); }
      }
    }
  }

  predicate Says(deed: Deed, command: Command) { deed.Handled? && deed.request.command == command }

  ghost predicate LastWord(trace: seq<Deed>, k: nat, topic: Topic) {
    && k < |trace| && Says(trace[k], Subscribe(topic))
    && forall j :: k < j < |trace| ==> !Says(trace[j], Unsubscribe(topic))
  }

  lemma {:induction false} CopiesExact(topics: seq<Topic>, topic: Topic, message: Message)
    ensures Copies(topics, topic, message) == seq(multiset(topics)[topic], _ => message)
  {
    if topics != [] {
      var init := topics[..|topics| - 1];
      CopiesExact(init, topic, message);
      assert topics == init + [topics[|topics| - 1]];
      assert multiset(topics) == multiset(init) + multiset{topics[|topics| - 1]};
    }
  }

  /** A stream takes deeds in order ... */
  lemma {:induction false} StreamAppend(deeds: seq<Deed>, more: seq<Deed>, topic: Topic)
    ensures Stream(deeds + more, topic) == Stream(deeds, topic) + Stream(more, topic)
  {
    hide Adds;
    if more == [] {
      assert deeds + more == deeds;
    } else {
      var init, last := more[..|more| - 1], more[|more| - 1];
      StreamAppend(deeds, init, topic);
      assert deeds + more == (deeds + init) + [last] && more == init + [last];
      StreamSnoc(deeds + init, last, topic);
      StreamSnoc(init, last, topic);
    }
  }

  /** ... and of each a copy per occurrence of the topic among a received message's topics,
      and nothing of anything else. */
  lemma {:induction false} StreamOne(deed: Deed, topic: Topic)
    ensures Stream([deed], topic) ==
      if deed.Got? && deed.event.Received?
      then seq(multiset(deed.event.topics)[topic], _ => Message(deed.event.source, deed.event.data)) else []
  {
    hide Copies;
    assert [] + [deed] == [deed];
    StreamSnoc([], deed, topic);
    if deed.Got? && deed.event.Received? {
      CopiesExact(deed.event.topics, topic, Message(deed.event.source, deed.event.data));
    }
  }

  lemma {:induction false} WindowTakesEvents(sha256: Topic -> Topic, trace: seq<Deed>, deeds: seq<Deed>,
    k: nat, topic: Topic)
    requires k < |trace| && Holds(sha256, trace, k, topic) && forall j :: 0 <= j < |deeds| ==> deeds[j].Got?
    ensures Holds(sha256, trace + deeds, k, topic)
    ensures Window(sha256, trace + deeds, k, topic) == Window(sha256, trace, k, topic) + Stream(deeds, topic)
  {
    hide IsSubscribed, Until, Adds, Window;
    if deeds == [] {
      assert trace + deeds == trace;
    } else {
      var init, last := deeds[..|deeds| - 1], deeds[|deeds| - 1];
      WindowTakesEvents(sha256, trace, init, k, topic);
      var all := trace + deeds;
      assert all[..|all| - 1] == trace + init && deeds == init + [last];
      WindowStep(sha256, all, k, topic);
      UntilStep(sha256, all, k, topic);
      StreamSnoc(init, last, topic);
    }
  }

  lemma {:induction false} RunGossips(sha256: Topic -> Topic, s: State, events: seq<GossipEvent>)
    ensures Run(sha256, s, Gossips(events)).trace
         == s.trace + seq(|events|, i requires 0 <= i < |events| => Got(events[i]))
  {
    hide TakeEvent;
    if events != [] {
      var init := events[..|events| - 1];
      RunGossips(sha256, s, init);
      assert Gossips(events)[..|events| - 1] == Gossips(init);
    }
  }

  /** What a current subscription's inbox gains while events are taken, told from the events
      alone. */
  lemma {:induction false} EventsDelivered(
    sha256: Topic -> Topic, actions: seq<Action>, events: seq<GossipEvent>, k: nat, topic: Topic)
    requires k < |Run(sha256, START, actions).trace| && Holds(sha256, Run(sha256, START, actions).trace, k, topic)
    ensures var s := Run(sha256, START, actions);
      var channel := s.trace[k].request.channel;
      Run(sha256, START, actions + Gossips(events)).worker.Mail(channel) ==
        s.worker.Mail(channel) + Stream(seq(|events|, i requires 0 <= i < |events| => Got(events[i])), topic)
  {
    hide Run, Window, Stream, Until, IsSubscribed, Gossips;
    var s := Run(sha256, START, actions);
    var got := seq(|events|, i requires 0 <= i < |events| => Got(events[i]));
    RunAppend(sha256, START, actions, Gossips(events));
    RunGossips(sha256, s, events);
    DeliveryExact(sha256, actions, k, topic);
    WindowTakesEvents(sha256, s.trace, got, k, topic);
    DeliveryExact(sha256, actions + Gossips(events), k, topic);
  }

  // ---- Answers ----

  predicate Asks(command: Command) { !command.Subscribe? && !command.Publish? }

  /** The answer a handled request deserves: what the swarm said, or for an
      unsubscription whether there was a subscription to end. */
  function Due(trace: seq<Deed>, k: nat): Answer
    requires k < |trace| && trace[k].Handled?
  {
    match trace[k].request.command
    case Listeners => List(trace[k].says.listeners)
    case Unsubscribe(topic) => Flag(IsSubscribed(trace[..k], topic))
    case _ => Flag(trace[k].says.ok)
  }

  function AnswersTo(replies: seq<Reply>, channel: nat): seq<Answer> {
    if replies == [] then [] else
    var last := replies[|replies| - 1];
    AnswersTo(replies[..|replies| - 1], channel) + (if last.channel == channel then [last.answer] else [])
  }

  lemma AnswersSnoc(replies: seq<Reply>, reply: Reply, channel: nat)
    ensures AnswersTo(replies + [reply], channel) ==
      AnswersTo(replies, channel) + (if reply.channel == channel then [reply.answer] else [])
  {
    assert (replies + [reply])[..|replies|] == replies;
  }

  /** Handling a request adds its answer and no other. */
  lemma {:induction false} HandleAnswers(sha256: Topic -> Topic, w: Worker, trace: seq<Deed>, request: Request,
    says: SwarmSays, channel: nat)
    requires Tables(sha256, w, trace)
    ensures var trace' := trace + [Handled(request, says)];
      AnswersTo(HandleRequest(sha256, w, request, says).replies, channel) ==
        AnswersTo(w.replies, channel) +
        (if request.channel == channel && Asks(request.command) then [Due(trace', |trace|)] else [])
  {
    hide AnswersTo, IsSubscribed, Owner;
    var trace' := trace + [Handled(request, says)];
    assert trace'[..|trace|] == trace;
    if Asks(request.command) { AnswersSnoc(w.replies, Reply(request.channel, Due(trace', |trace|)), channel); }
  }

  ghost predicate Untouched(trace: seq<Deed>, channel: nat) {
    forall k :: 0 <= k < |trace| && trace[k].Handled? ==> trace[k].request.channel != channel
  }

  lemma {:induction false} NotYetAnswered(sha256: Topic -> Topic, actions: seq<Action>, channel: nat)
    requires Untouched(Run(sha256, START, actions).trace, channel)
    ensures AnswersTo(Run(sha256, START, actions).worker.replies, channel) == []
  {
    hide HandleRequest, Deliver, Tables;
    if actions != [] {
      var init := actions[..|actions| - 1];
      var s, s' := Run(sha256, START, init), Run(sha256, START, actions);
      assert forall k :: 0 <= k < |s.trace| ==> s.trace[k] == s'.trace[k];
      NotYetAnswered(sha256, init, channel);
      if actions[|actions| - 1].Handle? && s.queue != [] {
        RunTables(sha256, init);
        HandleAnswers(sha256, s.worker, s.trace, s.queue[0], actions[|actions| - 1].says, channel);
        assert s'.trace[|s.trace|].request.channel != channel;
      }
    }
  }

  /** Each handled request that expects an answer has exactly one, the one it is due, for
      the rest of the run; other requests have none. */
  lemma {:induction false} AnsweredOnce(sha256: Topic -> Topic, actions: seq<Action>, k: nat)
    requires k < |Run(sha256, START, actions).trace| && Run(sha256, START, actions).trace[k].Handled?
    ensures var s := Run(sha256, START, actions);
      AnswersTo(s.worker.replies, s.trace[k].request.channel) ==
        if Asks(s.trace[k].request.command) then [Due(s.trace, k)] else []
  {
    hide HandleRequest, Deliver, Tables, AnswersTo, IsSubscribed;
    var init := actions[..|actions| - 1];
    var s, s' := Run(sha256, START, init), Run(sha256, START, actions);
    var channel := s'.trace[k].request.channel;
    RunDistinct(sha256, actions);
    if k < |s.trace| {
      AnsweredOnce(sha256, init, k);
      assert s'.trace[..k] == s.trace[..k];
    } else {
      NotYetAnswered(sha256, init, channel);
    }
    if actions[|actions| - 1].Handle? && s.queue != [] {
      RunTables(sha256, init);
      HandleAnswers(sha256, s.worker, s.trace, s.queue[0], actions[|actions| - 1].says, channel);
    }
  }

  lemma {:induction false} OneAnswer(replies: seq<Reply>, channel: nat, answer: Answer) returns (r: nat)
    requires AnswersTo(replies, channel) == [answer]
    ensures r < |replies| && replies[r] == Reply(channel, answer)
    ensures forall q :: 0 <= q < |replies| && q != r ==> replies[q].channel != channel
  {
    var init, last := replies[..|replies| - 1], replies[|replies| - 1];
    if last.channel == channel {
      r := |replies| - 1;
      assert |AnswersTo(init, channel)| == 0;
      assert AnswersTo(replies, channel)[0] == last.answer;
      NoAnswer(init, channel);
    } else {
      r := OneAnswer(init, channel, answer);
    }
    forall q | 0 <= q < |replies| && q != r ensures replies[q].channel != channel {
      if q < |init| { assert replies[q] == init[q]; }
    }
  }

  lemma {:induction false} NoAnswer(replies: seq<Reply>, channel: nat)
    requires AnswersTo(replies, channel) == []
    ensures forall q :: 0 <= q < |replies| ==> replies[q].channel != channel
  {
    if replies != [] {
      var init, last := replies[..|replies| - 1], replies[|replies| - 1];
      assert |AnswersTo(init, channel)| == 0 && last.channel != channel;
      NoAnswer(init, channel);
      assert forall q :: 0 <= q < |init| ==> replies[q] == init[q];
    }
  }

  /** The same in plain terms: there is one reply on the channel of a handled request that
      expects one, it is the one due, and no other reply is on that channel. */
  lemma {:induction false} OneReply(sha256: Topic -> Topic, actions: seq<Action>, k: nat) returns (r: nat)
    requires k < |Run(sha256, START, actions).trace| && Run(sha256, START, actions).trace[k].Handled?
    requires Asks(Run(sha256, START, actions).trace[k].request.command)
    ensures var s := Run(sha256, START, actions);
      && r < |s.worker.replies| && s.worker.replies[r] == Reply(s.trace[k].request.channel, Due(s.trace, k))
      && forall q :: 0 <= q < |s.worker.replies| && q != r ==>
           s.worker.replies[q].channel != s.trace[k].request.channel
  {
    hide Run, AnswersTo;
    var s := Run(sha256, START, actions);
    AnsweredOnce(sha256, actions, k);
    r := OneAnswer(s.worker.replies, s.trace[k].request.channel, Due(s.trace, k));
  }

  function Publications(requests: seq<Request>): seq<Outgoing> {
    if requests == [] then [] else
    var command := requests[|requests| - 1].command;
    Publications(requests[..|requests| - 1]) +
    (if command.Publish? then [Outgoing(command.topic, command.data)] else [])
  }

  lemma RequestsSnoc(trace: seq<Deed>, deed: Deed)
    ensures Requests(trace + [deed]) == Requests(trace) + (if deed.Handled? then [deed.request] else [])
  {
    assert (trace + [deed])[..|trace|] == trace;
  }

  lemma PublicationsSnoc(requests: seq<Request>, request: Request)
    ensures Publications(requests + [request]) == Publications(requests) +
      (if request.command.Publish? then [Outgoing(request.command.topic, request.command.data)] else [])
  {
    assert (requests + [request])[..|requests|] == requests;
  }

  lemma {:induction false} StepPublished(sha256: Topic -> Topic, s: State, action: Action)
    requires s.worker.published == Publications(Requests(s.trace))
    ensures var s' := Step(sha256, s, action);
      s'.worker.published == Publications(Requests(s'.trace))
  {
    hide Deliver, Requests, Publications;
    match action
    case Send(_) =>
    case Gossip(event) =>
      RequestsSnoc(s.trace, Got(event));
      assert Requests(s.trace) + [] == Requests(s.trace);
    case Handle(says) =>
      if s.queue != [] {
        RequestsSnoc(s.trace, Handled(s.queue[0], says));
        PublicationsSnoc(Requests(s.trace), s.queue[0]);
      }
  }

  /** The swarm is given exactly the handled publications, in order. */
  lemma {:induction false} PublishedExactly(sha256: Topic -> Topic, actions: seq<Action>)
    ensures var s := Run(sha256, START, actions);
      s.worker.published == Publications(Requests(s.trace))
  {
    hide Step;
    if actions != [] {
      PublishedExactly(sha256, actions[..|actions| - 1]);
      StepPublished(sha256, Run(sha256, START, actions[..|actions| - 1]), actions[|actions| - 1]);
    }
  }

  // ---- The inbox table ----

  /** Deed `k` is the latest successful subscription to `topic`. */
  ghost predicate Latest(trace: seq<Deed>, k: nat, topic: Topic) {
    && k < |trace| && Takes(trace, k, topic)
    && forall j: nat :: k < j < |trace| ==> !Takes(trace, j, topic)
  }

  /** ... and nothing has dropped its entry since. */
  ghost predicate Current(sha256: Topic -> Topic, trace: seq<Deed>, k: nat, topic: Topic) {
    && Latest(trace, k, topic)
    && forall j: nat :: k < j < |trace| ==> !Drops(sha256, trace, j, topic)
  }

  lemma {:induction false} LastTake(sha256: Topic -> Topic, trace: seq<Deed>, topic: Topic) returns (k: nat)
    requires Owner(sha256, trace, topic).Some?
    ensures Current(sha256, trace, k, topic) && Owner(sha256, trace, topic) == Some(trace[k].request.channel)
  {
    hide IsSubscribed;
    if Takes(trace, |trace| - 1, topic) {
      k := |trace| - 1;
    } else {
      k := LastTake(sha256, trace[..|trace| - 1], topic);
      Prefix(sha256, trace, |trace| - 1, topic);
    }
  }

  lemma {:induction false} TakenStays(sha256: Topic -> Topic, trace: seq<Deed>, topic: Topic, k: nat)
    requires k < |trace| && Takes(trace, k, topic)
    requires forall j: nat :: k < j < |trace| ==> !Drops(sha256, trace, j, topic)
    ensures Owner(sha256, trace, topic).Some?
  {
    hide IsSubscribed;
    if k < |trace| - 1 {
      Prefix(sha256, trace, |trace| - 1, topic);
      TakenStays(sha256, trace[..|trace| - 1], topic, k);
    }
  }

  lemma {:induction false} SubscribedTakes(trace: seq<Deed>, topic: Topic) returns (k: nat)
    requires IsSubscribed(trace, topic)
    ensures k < |trace| && Takes(trace, k, topic)
  {
    var init := trace[..|trace| - 1];
    if IsSubscribed(init, topic) {
      k := SubscribedTakes(init, topic);
      assert init[..k] == trace[..k];
    } else {
      k := |trace| - 1;
    }
  }

  /** The table in every run: a topic has an inbox if and only if its latest successful
      subscription was not dropped since, and then that subscription's inbox. So a current
      subscription lacks one exactly when it was dropped. */
  lemma {:induction false} TableExact(sha256: Topic -> Topic, actions: seq<Action>, topic: Topic)
    ensures var s := Run(sha256, START, actions);
      && (topic in s.worker.inbox <==> exists k: nat :: Current(sha256, s.trace, k, topic))
      && (forall k: nat :: Current(sha256, s.trace, k, topic) ==>
            topic in s.worker.inbox && s.worker.inbox[topic] == s.trace[k].request.channel)
      && (topic in s.worker.subscribed ==> exists k: nat :: Latest(s.trace, k, topic))
  {
    hide Run, Owner, IsSubscribed;
    var s := Run(sha256, START, actions);
    RunTables(sha256, actions);
    if topic in s.worker.inbox {
      var k := LastTake(sha256, s.trace, topic);
      assert Current(sha256, s.trace, k, topic);
    }
    forall k: nat | Current(sha256, s.trace, k, topic)
      ensures topic in s.worker.inbox && s.worker.inbox[topic] == s.trace[k].request.channel
    {
      TakenStays(sha256, s.trace, topic, k);
      var k' := LastTake(sha256, s.trace, topic);
      assert k' == k;
    }
    if topic in s.worker.subscribed {
      var k := SubscribedTakes(s.trace, topic);
      var k' := LatestTake(s.trace, topic, k);
    }
  }

  lemma {:induction false} LatestTake(trace: seq<Deed>, topic: Topic, k: nat) returns (k': nat)
    requires k < |trace| && Takes(trace, k, topic)
    ensures Latest(trace, k', topic)
    decreases |trace| - k
  {
    hide IsSubscribed;
    if j: nat :| k < j < |trace| && Takes(trace, j, topic) {
      k' := LatestTake(trace, topic, j);
    } else {
      k' := k;
    }
  }

  // ---- Subscriptions that lose their inbox ----

  ghost predicate Covered(s: State) { s.worker.subscribed <= s.worker.inbox.Keys }

  /** The guard of a loss: the worker is about to end a subscription whose SHA-256 form is
      the name of another topic still subscribed. */
  predicate Uncovers(sha256: Topic -> Topic, s: State, action: Action) {
    && action.Handle? && s.queue != [] && s.queue[0].command.Unsubscribe?
    && s.queue[0].command.topic in s.worker.subscribed
    && sha256(s.queue[0].command.topic) in s.worker.subscribed - {s.queue[0].command.topic}
  }

  lemma {:induction false} StepCovered(sha256: Topic -> Topic, s: State, action: Action)
    requires Covered(s)
    ensures Covered(Step(sha256, s, action)) <==> !Uncovers(sha256, s, action)
  {
    hide Deliver;
    if action.Handle? && s.queue != [] && s.queue[0].command.Unsubscribe? {
      var topic, w' := s.queue[0].command.topic, Step(sha256, s, action).worker;
      if topic in s.worker.subscribed {
        assert w'.inbox.Keys == s.worker.inbox.Keys - {sha256(topic)};
        assert w'.subscribed == s.worker.subscribed - {topic};
      }
    }
  }

  function StateAt(sha256: Topic -> Topic, actions: seq<Action>, n: nat): State
    requires n <= |actions|
  {
    Run(sha256, START, actions[..n])
  }

  lemma StateAtStep(sha256: Topic -> Topic, actions: seq<Action>, n: nat)
    requires n < |actions|
    ensures StateAt(sha256, actions, n + 1) == Step(sha256, StateAt(sha256, actions, n), actions[n])
  {
    hide Step;
    assert actions[..n + 1][..n] == actions[..n];
  }

  lemma {:induction false} CoveredUpTo(sha256: Topic -> Topic, actions: seq<Action>, n: nat)
    requires n <= |actions|
    requires forall m: nat :: m < n ==> !Uncovers(sha256, StateAt(sha256, actions, m), actions[m])
    ensures Covered(StateAt(sha256, actions, n))
  {
    hide Step, Uncovers;
    if n > 0 {
      CoveredUpTo(sha256, actions, n - 1);
      StateAtStep(sha256, actions, n - 1);
      StepCovered(sha256, StateAt(sha256, actions, n - 1), actions[n - 1]);
    }
  }

  ghost predicate AlwaysCovered(sha256: Topic -> Topic, actions: seq<Action>) {
    forall n: nat :: n <= |actions| ==> Covered(StateAt(sha256, actions, n))
  }

  ghost predicate NeverUncovers(sha256: Topic -> Topic, actions: seq<Action>) {
    forall n: nat :: n < |actions| ==> !Uncovers(sha256, StateAt(sha256, actions, n), actions[n])
  }

  /** Every subscription has an inbox at every moment of a run if and only if the worker
      never ends one whose SHA-256 form is the name of another. */
  lemma {:induction false} RunCovered(sha256: Topic -> Topic, actions: seq<Action>)
    ensures AlwaysCovered(sha256, actions) <==> NeverUncovers(sha256, actions)
  {
    hide Step, Uncovers, StateAt, Covered;
    if AlwaysCovered(sha256, actions) {
      forall n: nat | n < |actions| ensures !Uncovers(sha256, StateAt(sha256, actions, n), actions[n]) {
        StateAtStep(sha256, actions, n);
        assert Covered(StateAt(sha256, actions, n)) && Covered(StateAt(sha256, actions, n + 1));
        StepCovered(sha256, StateAt(sha256, actions, n), actions[n]);
      }
    }
    if NeverUncovers(sha256, actions) {
      forall n: nat | n <= |actions| ensures Covered(StateAt(sha256, actions, n)) {
        CoveredUpTo(sha256, actions, n);
      }
    }
  }

  /** The run that sends and then handles the given commands one by one. */
  function Script(commands: seq<Command>, says: SwarmSays): seq<Action> {
    if commands == [] then []
    else Script(commands[..|commands| - 1], says) + [Send(commands[|commands| - 1])] + [Handle(says)]
  }

  lemma {:induction false} ScriptSnoc(sha256: Topic -> Topic, commands: seq<Command>, last: Command, says: SwarmSays)
    requires Run(sha256, START, Script(commands, says)).queue == []
    ensures var s, s' := Run(sha256, START, Script(commands, says)), Run(sha256, START, Script(commands + [last], says));
      && s'.queue == [] && s'.nextChannel == s.nextChannel + 1
      && s'.worker == HandleRequest(sha256, s.worker, Request(last, s.nextChannel), says)
  {
    hide HandleRequest;
    var script := Script(commands, says);
    assert (commands + [last])[..|commands|] == commands;
    RunSnoc(sha256, START, script + [Send(last)], Handle(says));
    RunSnoc(sha256, START, script, Send(last));
  }

  /** A subscriber can lose its inbox: for every topic that is not its own SHA-256 form,
      subscribe to that form and to the topic, and unsubscribe from the topic. */
  lemma {:induction false} InboxLost(sha256: Topic -> Topic, topic: Topic, says: SwarmSays) returns (s: State)
    requires sha256(topic) != topic
    ensures var commands := [Subscribe(sha256(topic)), Subscribe(topic), Unsubscribe(topic)];
      s == Run(sha256, START, Script(commands, says))
    ensures sha256(topic) in s.worker.subscribed && sha256(topic) !in s.worker.inbox
  {
    hide Run, Script;
    var a, b, c := Subscribe(sha256(topic)), Subscribe(topic), Unsubscribe(topic);
    EmptyScript(sha256, says);
    ScriptSnoc(sha256, [], a, says);
    assert [] + [a] == [a] && [a] + [b] == [a, b] && [a, b] + [c] == [a, b, c];
    ScriptSnoc(sha256, [a], b, says);
    ScriptSnoc(sha256, [a, b], c, says);
    s := Run(sha256, START, Script([a, b, c], says));
  }

  lemma EmptyScript(sha256: Topic -> Topic, says: SwarmSays)
    ensures Run(sha256, START, Script([], says)) == START
  {
  }

  // ---- Runs without a clash of names ----

  /** No topic was subscribed whose name is the SHA-256 form of one unsubscribed. */
  ghost predicate NoClash(sha256: Topic -> Topic, trace: seq<Deed>) {
    forall j, k :: 0 <= j < |trace| && 0 <= k < |trace| ==> !Clash(sha256, trace[j], trace[k])
  }

  predicate Clash(sha256: Topic -> Topic, d: Deed, e: Deed) {
    && d.Handled? && d.request.command.Unsubscribe?
    && e.Handled? && e.request.command == Subscribe(sha256(d.request.command.topic))
  }

  /** Without a clash the table holds exactly the topics ever successfully subscribed, so it
      agrees with the subscriptions if and only if every one of those is subscribed now. */
  lemma {:induction false} TableWithoutClash(sha256: Topic -> Topic, actions: seq<Action>)
    requires NoClash(sha256, Run(sha256, START, actions).trace)
    ensures var s := Run(sha256, START, actions);
      && (forall topic :: topic in s.worker.inbox <==> Taken(s.trace, topic))
      && (s.worker.inbox.Keys == s.worker.subscribed <==>
            forall topic :: Taken(s.trace, topic) ==> topic in s.worker.subscribed)
      && Covered(s)
  {
    hide Run, IsSubscribed;
    var s := Run(sha256, START, actions);
    forall topic
      ensures topic in s.worker.inbox <==> Taken(s.trace, topic)
      ensures topic in s.worker.subscribed ==> Taken(s.trace, topic)
    {
      TableExact(sha256, actions, topic);
      if Taken(s.trace, topic) {
        var k: nat :| k < |s.trace| && Takes(s.trace, k, topic);
        var k' := LatestTake(s.trace, topic, k);
        assert Current(sha256, s.trace, k', topic);
      }
    }
  }

  ghost predicate Taken(trace: seq<Deed>, topic: Topic) {
    exists k: nat :: k < |trace| && Takes(trace, k, topic)
  }

  /** The table never outlives the subscriptions, whatever the run. */
  ghost predicate Clean(sha256: Topic -> Topic) {
    forall actions :: CleanAfter(sha256, actions)
  }

  ghost predicate CleanAfter(sha256: Topic -> Topic, actions: seq<Action>) {
    Run(sha256, START, actions).worker.inbox.Keys == Run(sha256, START, actions).worker.subscribed
  }

  lemma {:induction false} CleanIfIdentity(sha256: Topic -> Topic, actions: seq<Action>)
    requires forall t :: sha256(t) == t
    ensures CleanAfter(sha256, actions)
  {
    if actions != [] { CleanIfIdentity(sha256, actions[..|actions| - 1]); }
  }

  lemma {:induction false} StaleInbox(sha256: Topic -> Topic, topic: Topic, says: SwarmSays)
    requires sha256(topic) != topic
    ensures !CleanAfter(sha256, Script([Subscribe(topic), Unsubscribe(topic)], says))
  {
    hide Run, Script;
    var a, b := Subscribe(topic), Unsubscribe(topic);
    EmptyScript(sha256, says);
    ScriptSnoc(sha256, [], a, says);
    assert [] + [a] == [a] && [a] + [b] == [a, b];
    ScriptSnoc(sha256, [a], b, says);
    assert topic in Run(sha256, START, Script([a, b], says)).worker.inbox;
  }

  /** Table and subscriptions agree on every run if and only if the two keys the worker
      uses for a topic are the same. */
  lemma {:induction false} CleanExactly(sha256: Topic -> Topic)
    ensures Clean(sha256) <==> forall t :: sha256(t) == t
  {
    hide CleanAfter;
    if forall t :: sha256(t) == t {
      forall actions ensures CleanAfter(sha256, actions) { CleanIfIdentity(sha256, actions); }
    }
    if t :| sha256(t) != t {
      StaleInbox(sha256, t, SwarmSays(true, []));
    }
  }
}
