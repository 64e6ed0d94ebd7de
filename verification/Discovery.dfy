/** Peer discovery over pubsub: nodes announce the addresses they listen on and dial the
    addresses others announce. The network may reorder, repeat or lose messages. */
module Discovery {
  import opened LittleEndian
  import opened Gossipsub

  datatype DiscoveryMessage = DiscoveryMessage(peerId: Text, timestamp: u64, listeners: Addresses)

  // ---- bincode: fixed-width lengths, then contents ----

  function EncodeText(t: Text): (s: seq<byte>)
  {
    Bytes(|t|, 8) + t
  }

  function DecodeText(s: seq<byte>): (r: Decoded<Text>)
  {
    match DecodeInt(8, s)
    case Fail => Fail
    case Ok(n, rest) => Powers(); if |rest| < n then Fail else Ok(rest[..n], rest[n..])
  }

  lemma TextExact(s: seq<byte>, t: Text, rest: seq<byte>)
    ensures DecodeText(s) == Ok(t, rest) <==> s == EncodeText(t) + rest
  {
    Powers();
    if s == EncodeText(t) + rest {
      assert s == Bytes(|t|, 8) + (t + rest);
      IntExact(8, s, |t|, t + rest);
    }
    if DecodeText(s) == Ok(t, rest) {
      var s1 := DecodeInt(8, s).rest;
      IntExact(8, s, |t|, s1);
      assert s1 == t + rest;
      assert s == Bytes(|t|, 8) + (t + rest);
    }
  }

  function EncodeTexts(list: seq<Text>): (s: seq<byte>)
  {
    if list == [] then [] else EncodeText(list[0]) + EncodeTexts(list[1..])
  }

  function DecodeTexts(n: nat, s: seq<byte>): (r: Decoded<seq<Text>>)
    ensures r.Ok? ==> |r.value| == n
  {
    if n == 0 then Ok([], s) else
    match DecodeText(s)
    case Fail => Fail
    case Ok(t, rest) =>
      match DecodeTexts(n - 1, rest)
      case Fail => Fail
      case Ok(list, rest') => Ok([t] + list, rest')
  }

  lemma {:induction false} TextsExact(n: nat, s: seq<byte>, list: seq<Text>, rest: seq<byte>)
    ensures DecodeTexts(n, s) == Ok(list, rest) <==> n == |list| && s == EncodeTexts(list) + rest
  {
    hide EncodeText, DecodeText;
    if n == 0 {
      assert [] + rest == rest;
    } else {
      if list != [] {
        var s' := EncodeTexts(list[1..]) + rest;
        assert EncodeTexts(list) + rest == EncodeText(list[0]) + s';
        TextExact(s, list[0], s');
        TextsExact(n - 1, s', list[1..], rest);
        assert list == [list[0]] + list[1..];
      }
      if DecodeTexts(n, s) == Ok(list, rest) {
        var Ok(t, s1) := DecodeText(s);
        assert list[0] == t && DecodeTexts(n - 1, s1) == Ok(list[1..], rest);
        TextExact(s, t, s1);
        TextsExact(n - 1, s1, list[1..], rest);
      }
    }
  }

  function Serialize(m: DiscoveryMessage): (s: seq<byte>)
  {
    EncodeText(m.peerId) + (Bytes(m.timestamp, 8) + (Bytes(|m.listeners|, 8) + EncodeTexts(m.listeners)))
  }

  /** Bytes after the message are ignored. */
  function Deserialize(s: seq<byte>): (r: Decoded<DiscoveryMessage>)
  {
    Powers();
    match DecodeText(s)
    case Fail => Fail
    case Ok(peerId, s1) =>
      match DecodeInt(8, s1)
      case Fail => Fail
      case Ok(timestamp, s2) =>
        match DecodeInt(8, s2)
        case Fail => Fail
        case Ok(n, s3) =>
          match DecodeTexts(n, s3)
          case Fail => Fail
          case Ok(list, rest) => Ok(DiscoveryMessage(peerId, timestamp, list), rest)
  }

  /** Reading a message is the exact inverse of writing it: bytes give `m` and leave `rest`
      if and only if they are the bytes of `m` followed by `rest`. */
  lemma MessageExact(s: seq<byte>, m: DiscoveryMessage, rest: seq<byte>)
    ensures Deserialize(s) == Ok(m, rest) <==> s == Serialize(m) + rest
  {
    hide EncodeText, DecodeText, EncodeTexts, DecodeTexts, DecodeInt;
    Powers();
    if s == Serialize(m) + rest {
      var s3 := EncodeTexts(m.listeners) + rest;
      var s2 := Bytes(|m.listeners|, 8) + s3;
      var s1 := Bytes(m.timestamp, 8) + s2;
      assert s == EncodeText(m.peerId) + s1;
      TextExact(s, m.peerId, s1);
      IntExact(8, s1, m.timestamp, s2);
      IntExact(8, s2, |m.listeners|, s3);
      TextsExact(|m.listeners|, s3, m.listeners, rest);
    }
    if Deserialize(s) == Ok(m, rest) {
      var s1 := DecodeText(s).rest;
      var s2 := DecodeInt(8, s1).rest;
      var s3 := DecodeInt(8, s2).rest;
      TextExact(s, m.peerId, s1);
      IntExact(8, s1, m.timestamp, s2);
      TextsExact(DecodeInt(8, s2).value, s3, m.listeners, rest);
      IntExact(8, s2, |m.listeners|, s3);
      assert s == Serialize(m) + rest;
    }
  }

  lemma MessageRoundTrip(m: DiscoveryMessage)
    ensures Deserialize(Serialize(m)) == Ok(m, [])
  {
    hide Serialize, Deserialize;
    assert Serialize(m) + [] == Serialize(m);
    MessageExact(Serialize(m), m, []);
  }

  /** A message begins with the length of the peer id in eight bytes and the peer id; then
      come the timestamp, the number of listeners, and each with its length. */
  lemma MessageLayout(m: DiscoveryMessage)
    ensures var s, n := Serialize(m), 8 + |m.peerId|;
      && |s| >= n + 16 && Value(s[..8]) == |m.peerId| && s[8..n] == m.peerId
      && Value(s[n..n + 8]) == m.timestamp && Value(s[n + 8..n + 16]) == |m.listeners|
      && s[n + 16..] == EncodeTexts(m.listeners)
    ensures forall t: Text :: EncodeTexts([t]) == Bytes(|t|, 8) + t
    ensures m.listeners != [] ==>
      EncodeTexts(m.listeners) == EncodeTexts([m.listeners[0]]) + EncodeTexts(m.listeners[1..])
  {
    hide EncodeTexts, Bytes, Value, Pow256;
    Powers();
    var s, n := Serialize(m), 8 + |m.peerId|;
    ValueOfBytes(|m.peerId|, 8);
    ValueOfBytes(m.timestamp, 8);
    ValueOfBytes(|m.listeners|, 8);
    assert s[..8] == Bytes(|m.peerId|, 8) && s[8..n] == m.peerId;
    assert s[n..n + 8] == Bytes(m.timestamp, 8) && s[n + 8..n + 16] == Bytes(|m.listeners|, 8);
    assert s[n + 16..] == EncodeTexts(m.listeners);
    forall t: Text ensures EncodeTexts([t]) == Bytes(|t|, 8) + t { OneText(t); }
    if m.listeners != [] { FirstText(m.listeners); }
  }

  lemma OneText(t: Text)
    ensures EncodeTexts([t]) == Bytes(|t|, 8) + t
  {
    hide Bytes;
    assert [t][1..] == [];
    assert EncodeTexts([]) == [];
  }

  lemma FirstText(list: seq<Text>)
    requires list != []
    ensures EncodeTexts(list) == EncodeTexts([list[0]]) + EncodeTexts(list[1..])
  {
    hide Bytes;
    OneText(list[0]);
  }

  // ---- The two tasks of a node ----

  /** What a node broadcasts: nothing while it listens nowhere. */
  function Announcement(base58: PeerId -> Text, peer: PeerId, timestamp: u64, listeners: Addresses): (r: seq<Message>)
  {
    if listeners == [] then []
    else [Message(peer, Serialize(DiscoveryMessage(base58(peer), timestamp, listeners)))]
  }

  /** The addresses a node dials on a message: none for its own or an unreadable one. */
  function Dialed(peer: PeerId, message: Message): (r: seq<Text>)
  {
    if message.from == peer then []
    else match Deserialize(message.data)
      case Fail => []
      case Ok(m, _) => m.listeners
  }

  class DiscoveryNode {
    const base58: PeerId -> Text
    const peer: PeerId
    var listeners: Addresses
    var published: seq<Message>
    var dialed: seq<Text>

    constructor (base58: PeerId -> Text, peer: PeerId, listeners: Addresses)
      ensures this.base58 == base58 && this.peer == peer && this.listeners == listeners
      ensures published == [] && dialed == []
    {
      this.base58, this.peer, this.listeners := base58, peer, listeners;
      published, dialed := [], [];
    }

    /** One round of the broadcasting loop. */
    method Broadcast(timestamp: u64)
      modifies this`published
      ensures published == old(published) + Announcement(base58, peer, timestamp, listeners)
      ensures listeners == [] ==> published == old(published)
      ensures listeners != [] ==>
        published == old(published) + [Message(peer, Serialize(DiscoveryMessage(base58(peer), timestamp, listeners)))]
    {
      if |listeners| > 0 {
        var message := DiscoveryMessage(base58(peer), timestamp, listeners);
        published := published + [Message(peer, Serialize(message))];
      }
    }

    method Connect(message: Message)
      modifies this`dialed
      ensures dialed == old(dialed) + Dialed(peer, message)
      ensures message.from == peer || Deserialize(message.data).Fail? ==> dialed == old(dialed)
      ensures message.from != peer && Deserialize(message.data).Ok? ==>
        dialed == old(dialed) + Deserialize(message.data).value.listeners
    {
      if message.from == peer { return; }
      var decoded := Deserialize(message.data);
      if decoded.Ok? {
        var addresses := decoded.value.listeners;
        for i := 0 to |addresses|
          invariant dialed == old(dialed) + addresses[..i]
        {
          dialed := dialed + [addresses[i]];
        }
        assert addresses[..|addresses|] == addresses;
      }
    }
  }

  // ---- The network ----

  datatype Dial = Dial(node: PeerId, address: Text)

  /** Who listens where, every message ever published on the topic, every dial made. */
  datatype Network = Network(listening: map<PeerId, Addresses>, sent: seq<Message>, dials: seq<Dial>) {
    function At(node: PeerId): Addresses { if node in listening then listening[node] else [] }
  }

  const QUIET := Network(map[], [], [])

  /** A node changes where it listens, broadcasts, or is handed some message that was sent
      at any earlier time. */
  datatype Move =
    | Listening(node: PeerId, addresses: Addresses)
    | Broadcasts(node: PeerId, timestamp: u64)
    | Receives(node: PeerId, k: nat)

  function Dials(node: PeerId, addresses: seq<Text>): (r: seq<Dial>)
    ensures |r| == |addresses| && forall i :: 0 <= i < |r| ==> r[i] == Dial(node, addresses[i])
  {
    seq(|addresses|, i requires 0 <= i < |addresses| => Dial(node, addresses[i]))
  }

  function After(base58: PeerId -> Text, net: Network, move: Move): Network {
    match move
    case Listening(node, addresses) => net.(listening := net.listening[node := addresses])
    case Broadcasts(node, timestamp) =>
      net.(sent := net.sent + Announcement(base58, node, timestamp, net.At(node)))
    case Receives(node, k) =>
      if k < |net.sent| then net.(dials := net.dials + Dials(node, Dialed(node, net.sent[k]))) else net
  }

  function History(base58: PeerId -> Text, moves: seq<Move>): Network {
    if moves == [] then QUIET
    else After(base58, History(base58, moves[..|moves| - 1]), moves[|moves| - 1])
  }

  /** Move `j` broadcast `addresses`, a nonempty list its node was then listening on. */
  predicate Announced(base58: PeerId -> Text, moves: seq<Move>, j: nat, node: PeerId, addresses: Addresses)
    requires j < |moves|
  {
    && moves[j].Broadcasts? && moves[j].node == node && addresses != []
    && History(base58, moves[..j]).At(node) == addresses
  }

  /** A broadcast sends nothing if and only if its node listens nowhere; otherwise it sends
      one message, from that node, which reads as its peer id, the time and its addresses. */
  lemma {:induction false} BroadcastSends(base58: PeerId -> Text, moves: seq<Move>, node: PeerId, timestamp: u64)
    ensures var net, net' := History(base58, moves), History(base58, moves + [Broadcasts(node, timestamp)]);
      var addresses := net.At(node);
      && net'.dials == net.dials && net'.listening == net.listening
      && (net'.sent == net.sent <==> addresses == [])
      && (addresses != [] ==>
            && |net'.sent| == |net.sent| + 1 && net'.sent[..|net.sent|] == net.sent
            && net'.sent[|net.sent|].from == node
            && Deserialize(net'.sent[|net.sent|].data) == Ok(DiscoveryMessage(base58(node), timestamp, addresses), []))
  {
    hide Serialize, Deserialize;
    assert (moves + [Broadcasts(node, timestamp)])[..|moves|] == moves;
    MessageRoundTrip(DiscoveryMessage(base58(node), timestamp, History(base58, moves).At(node)));
  }

  /** Where a node listens is what it was last told; the other moves leave it. */
  lemma {:induction false} ListeningIs(base58: PeerId -> Text, moves: seq<Move>, move: Move, node: PeerId)
    ensures History(base58, []).At(node) == []
    ensures History(base58, moves + [move]).At(node) ==
      if move.Listening? && move.node == node then move.addresses else History(base58, moves).At(node)
  {
    hide Serialize, Deserialize;
    assert (moves + [move])[..|moves|] == moves;
  }

  /** Every message in the network was broadcast at some move, and its readers dial, unless
      they are its sender, exactly the addresses broadcast there, in order. */
  lemma {:induction false} SentWasAnnounced(base58: PeerId -> Text, moves: seq<Move>, k: nat)
    returns (j: nat, addresses: Addresses)
    requires k < |History(base58, moves).sent|
    ensures var message := History(base58, moves).sent[k];
      && j < |moves| && Announced(base58, moves, j, message.from, addresses)
      && forall reader :: Dialed(reader, message) == if reader == message.from then [] else addresses
  {
    hide Serialize, Deserialize;
    var init, last := moves[..|moves| - 1], moves[|moves| - 1];
    var net := History(base58, init);
    if k < |net.sent| {
      j, addresses := SentWasAnnounced(base58, init, k);
      assert moves[..j] == init[..j];
    } else {
      j, addresses := |moves| - 1, net.At(last.node);
      MessageRoundTrip(DiscoveryMessage(base58(last.node), last.timestamp, addresses));
    }
  }

  /** Discovery safety: under any reordering, repetition or loss, every address a node
      dials was broadcast earlier by a different node that was listening on it. */
  lemma {:induction false} DialsAreAnnounced(base58: PeerId -> Text, moves: seq<Move>, d: nat)
    returns (j: nat, i: nat, addresses: Addresses)
    requires d < |History(base58, moves).dials|
    ensures var dial := History(base58, moves).dials[d];
      && j < i < |moves| && moves[i].Receives? && moves[i].node == dial.node
      && moves[j].Broadcasts? && moves[j].node != dial.node
      && Announced(base58, moves, j, moves[j].node, addresses) && dial.address in addresses
  {
    hide Dialed;
    var init, last := moves[..|moves| - 1], moves[|moves| - 1];
    var net := History(base58, init);
    if d < |net.dials| {
      j, i, addresses := DialsAreAnnounced(base58, init, d);
    } else {
      i := |moves| - 1;
      j, addresses := SentWasAnnounced(base58, init, last.k);
      assert Dialed(last.node, net.sent[last.k])[d - |net.dials|] in Dialed(last.node, net.sent[last.k]);
    }
    assert moves[..j] == init[..j];
  }

  /** Conversely a received broadcast is dialed in full: the receiver adds one dial per
      announced address, in the announced order. */
  lemma {:induction false} BroadcastIsDialed(base58: PeerId -> Text, moves: seq<Move>, node: PeerId, k: nat)
    returns (j: nat, addresses: Addresses)
    requires k < |History(base58, moves).sent| && History(base58, moves).sent[k].from != node
    ensures j < |moves| && Announced(base58, moves, j, History(base58, moves).sent[k].from, addresses)
    ensures History(base58, moves + [Receives(node, k)]).dials == History(base58, moves).dials + Dials(node, addresses)
  {
    hide Dialed;
    j, addresses := SentWasAnnounced(base58, moves, k);
    assert (moves + [Receives(node, k)])[..|moves|] == moves;
  }
}
