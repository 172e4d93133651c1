/**
 * What the earlier protocol promises, stated on the functions of
 * `LegacyProtocol`: every sub-message is an opcode and a source id followed
 * by its fields, each message the node builds is decoded as meant, routing
 * delivers or relays, broadcasts are handled at most once, and a departed
 * peer's slot is refilled.
 */
module LegacyLemmas {
  import opened Blobs
  import opened Codec
  import opened Routing
  import opened LegacyProtocol
  import Protocol
  import ProtocolLemmas

  // ---------------------------------------------------------------------
  // Decoding the header
  // ---------------------------------------------------------------------

  /** Every sub-message is read as an opcode followed by a 16-byte source id, then that opcode's case. */
  lemma StepOn(n: Node, c: Context, op: Opcode, id: Bytes, x: Bytes)
    requires Ok(n) && |id| == IdSize
    ensures Step(n, c, OpBytes(op) + id + x) == Dispatch(n, c, op, id, OpBytes(op) + id + x, x)
  {
    ProtocolLemmas.Assoc(OpBytes(op), id, x);
    OpcodeDecodes(op, id + x);
    ProtocolLemmas.ReadsFixed(id, x);
  }

  /** A code outside the enumeration, or NONE, is reported as an invalid opcode after its header is consumed. */
  lemma InvalidArrival(n: Node, c: Context, code: Bytes, id: Bytes, rest: Bytes)
    requires Ok(n) && |code| == Protocol.OpcodeSize && |id| == IdSize && (ToNat(code) == 0 || ToNat(code) > 9)
    ensures Step(n, c, code + id + rest) == Outcome(n.(log := n.log + [Failed(InvalidOpcode)]), rest)
  {
    ProtocolLemmas.Assoc(code, id, rest);
    ProtocolLemmas.ReadsFixed(code, id + rest);
    ProtocolLemmas.ReadsFixed(id, rest);
    if ToNat(code) == 0 {
      assert OpcodeOf(0) == Protocol.Some(NONE);
    }
  }

  // ---------------------------------------------------------------------
  // PING, HANDSHAKE
  // ---------------------------------------------------------------------

  /** A PING is answered with PONG and the local id, to the endpoint it came from. */
  lemma PingArrival(n: Node, c: Context, id: Bytes, rest: Bytes)
    requires Ok(n) && |id| == IdSize
    ensures Step(n, c, Bare(PING, id) + rest) ==
      Outcome(n.(outbox := n.outbox + [Protocol.Datagram(Bare(PONG, n.local.id), c.hopEp)]), rest)
  {
    StepOn(n, c, PING, id, rest);
  }

  /**
   * A HANDSHAKE or HANDSHAKE_REPLY caches its source with the sender's
   * endpoint unless the id is cached, keeping the first endpoint; only a
   * HANDSHAKE is answered, with HANDSHAKE_REPLY to the sender.
   */
  lemma HandshakeArrival(n: Node, c: Context, id: Bytes, rest: Bytes, reply: bool)
    requires Ok(n) && |id| == IdSize
    ensures var op := if reply then HANDSHAKE else HANDSHAKE_REPLY;
      var o := Step(n, c, Bare(op, id) + rest);
      o.rest == rest && HasId(o.node.cache, id) &&
      (HasId(n.cache, id) ==> o.node.cache == n.cache && o.node.log == n.log) &&
      (!HasId(n.cache, id) ==> o.node.cache == n.cache + [Peer(id, c.hopEp)] && o.node.log == n.log + [PeerAdded(id)]) &&
      o.node.outbox == n.outbox + (if reply then [Protocol.Datagram(Bare(HANDSHAKE_REPLY, n.local.id), c.hopEp)] else [])
  {
    var op := if reply then HANDSHAKE else HANDSHAKE_REPLY;
    StepOn(n, c, op, id, rest);
    AddedProperties(n.cache, id, c.hopEp, c.hopEp);
  }

  // ---------------------------------------------------------------------
  // LOOKUP and LOOKUP_REPLY
  // ---------------------------------------------------------------------

  /**
   * A LOOKUP at a node with no nearer peer than itself (the sender
   * excluded) is answered with a LOOKUP_REPLY to the asker, sent towards
   * the relay; otherwise the LOOKUP goes on unchanged to the nearer peer.
   */
  lemma LookupArrival(n: Node, c: Context, from: Bytes, target: Bytes, relay: Bytes, rest: Bytes)
    requires Ok(n) && |from| == IdSize && |target| == IdSize && |relay| == IdSize
    ensures var next := NextHop(n.local, n.cache, target, c.hopId);
      Step(n, c, LookupMessage(from, target, relay) + rest) ==
        if next.id == n.local.id then
          Outcome(n.(outbox := n.outbox + [Protocol.Datagram(ReplyMessage(n.local, from, relay),
                                                             NextHop(n.local, n.cache, relay, n.local.id).ep)]), rest)
        else
          Outcome(n.(outbox := n.outbox + [Protocol.Datagram(LookupMessage(from, target, relay), next.ep)]), rest)
  {
    var x := target + relay + rest;
    var whole := OpBytes(LOOKUP) + from + x;
    assert LookupMessage(from, target, relay) + rest == whole by {
      ProtocolLemmas.Assoc(OpBytes(LOOKUP) + from + target, relay, rest);
      ProtocolLemmas.Assoc(OpBytes(LOOKUP) + from, target, relay + rest);
    }
    StepOn(n, c, LOOKUP, from, x);
    ProtocolLemmas.Assoc(target, relay, rest);
    ProtocolLemmas.ReadsFixed(target, relay + rest);
    ProtocolLemmas.ReadsFixed(relay, rest);
    assert whole[..|whole| - |rest|] == LookupMessage(from, target, relay);
  }

  /** The fields after the source of a LOOKUP_REPLY are read back: destination, relay, port, address. */
  lemma ReplyReads(dest: Bytes, relay: Bytes, p: Peer, rest: Bytes)
    requires |dest| == IdSize && |relay| == IdSize && 0 <= p.ep.port < 0x1_0000 && NulFree(p.ep.address)
    ensures var port := HostInt(p.ep.port, Protocol.PortSize);
      var x := dest + relay + port + p.ep.address + [0] + rest;
      var t1 := TakeFixed(x, Zero(IdSize));
      var t2 := TakeFixed(t1.1, Zero(IdSize));
      var t3 := TakeFixed(t2.1, Zero(Protocol.PortSize));
      t1.0 == dest && t2.0 == relay && ToNat(t3.0) == p.ep.port && TakeStr(t3.1) == (p.ep.address, rest)
  {
    var port := HostInt(p.ep.port, Protocol.PortSize);
    var y := relay + port + p.ep.address + [0] + rest;
    assert dest + relay + port + p.ep.address + [0] + rest == dest + y;
    ProtocolLemmas.ReadsFixed(dest, y);
    ProtocolLemmas.ReplyFieldsRead(relay, port, p.ep.address, rest);
    ProtocolLemmas.PortRoundTrip(p.ep.port);
  }

  /**
   * A LOOKUP_REPLY is read field by field and handed, whole, to
   * `LookupReplied` with the destination, the relay and the announced
   * endpoint it carries.
   */
  lemma ReplyStep(n: Node, c: Context, p: Peer, dest: Bytes, relay: Bytes, rest: Bytes)
    requires Ok(n) && |p.id| == IdSize && |dest| == IdSize && |relay| == IdSize
    requires 0 <= p.ep.port < 0x1_0000 && NulFree(p.ep.address)
    ensures Step(n, c, ReplyMessage(p, dest, relay) + rest) ==
      Outcome(LookupReplied(n, c, p.id, dest, relay, p.ep, ReplyMessage(p, dest, relay)), rest)
  {
    var port := HostInt(p.ep.port, Protocol.PortSize);
    var x := dest + relay + port + p.ep.address + [0] + rest;
    var whole := OpBytes(LOOKUP_REPLY) + p.id + x;
    assert ReplyMessage(p, dest, relay) + rest == whole;
    StepOn(n, c, LOOKUP_REPLY, p.id, x);
    ReplyReads(dest, relay, p, rest);
    var t1 := TakeFixed(x, Zero(IdSize));
    var t2 := TakeFixed(t1.1, Zero(IdSize));
    var t3 := TakeFixed(t2.1, Zero(Protocol.PortSize));
    var t4 := TakeStr(t3.1);
    assert t1.0 == dest && t2.0 == relay && Endpoint(t4.0, ToNat(t3.0)) == p.ep && t4.1 == rest;
    assert whole[..|whole| - |rest|] == ReplyMessage(p, dest, relay);
    assert Step(n, c, whole) == OnReplyTail(n, c, p.id, whole, dest, relay, t2.1);
  }

  /**
   * A LOOKUP_REPLY addressed to the local id caches the answering peer with
   * the endpoint it announced, and greets it with a HANDSHAKE there, exactly
   * when that peer is neither the local peer nor cached; otherwise nothing
   * changes.
   */
  lemma LookupReplyArrival(n: Node, c: Context, p: Peer, relay: Bytes, rest: Bytes)
    requires Ok(n) && |p.id| == IdSize && |relay| == IdSize && 0 <= p.ep.port < 0x1_0000 && NulFree(p.ep.address)
    ensures Step(n, c, ReplyMessage(p, n.local.id, relay) + rest) ==
      if p.id != n.local.id && !HasId(n.cache, p.id) then
        Outcome(n.(cache := n.cache + [p],
                   log := n.log + [PeerAdded(p.id)],
                   outbox := n.outbox + [Protocol.Datagram(Bare(HANDSHAKE, n.local.id), p.ep)]),
                rest)
      else Outcome(n, rest)
  {
    ReplyStep(n, c, p, n.local.id, relay, rest);
    if p.id != n.local.id && !HasId(n.cache, p.id) {
      assert Added(n.cache, p.id, p.ep) == n.cache + [p];
    }
  }

  /**
   * A LOOKUP_REPLY addressed to another id is relayed unchanged: towards
   * the peer nearest the relay id other than the peer it came from, or,
   * when that is the local peer, towards the peer nearest the destination.
   * Nothing is cached and nothing else changes.
   */
  lemma LookupReplyRelayed(n: Node, c: Context, p: Peer, dest: Bytes, relay: Bytes, rest: Bytes)
    requires Ok(n) && |p.id| == IdSize && |dest| == IdSize && |relay| == IdSize && dest != n.local.id
    requires 0 <= p.ep.port < 0x1_0000 && NulFree(p.ep.address)
    ensures var next := NextHop(n.local, n.cache, relay, c.hopId);
      var to := if next.id == n.local.id then NextHop(n.local, n.cache, dest, n.local.id).ep else next.ep;
      Step(n, c, ReplyMessage(p, dest, relay) + rest) ==
        Outcome(n.(outbox := n.outbox + [Protocol.Datagram(ReplyMessage(p, dest, relay), to)]), rest)
  {
    ReplyStep(n, c, p, dest, relay, rest);
  }

  // ---------------------------------------------------------------------
  // ROUTE
  // ---------------------------------------------------------------------

  /** What a handler forwards, the input less what it left unread, is the sub-message itself. */
  lemma Consumed(m: Bytes, rest: Bytes)
    ensures var whole := m + rest; whole[..|whole| - |rest|] == m
  {
  }

  /** A header, an id and a text with its terminator, followed by more bytes. */
  lemma IdTextTail(head: Bytes, id: Bytes, text: Bytes, rest: Bytes)
    ensures head + id + text + [0] + rest == head + (id + text + [0] + rest)
  {
  }

  /** An id field and a NUL-terminated text are read back, leaving what follows. */
  lemma IdTextReads(id: Bytes, text: Bytes, rest: Bytes)
    requires |id| == IdSize && NulFree(text)
    ensures var t1 := TakeFixed(id + text + [0] + rest, Zero(IdSize));
      t1 == (id, text + [0] + rest) && TakeStr(t1.1) == (text, rest)
  {
    ProtocolLemmas.Assoc(id, text + [0], rest);
    assert id + text + [0] + rest == id + (text + [0] + rest);
    ProtocolLemmas.ReadsFixed(id, text + [0] + rest);
    StrRoundTrip(text, rest);
  }

  /**
   * A ROUTE goes on unchanged when a peer other than the sender is nearer
   * its destination than the local peer; otherwise it is delivered if it is
   * addressed to the local id and reported as an invalid route if not.
   */
  lemma RouteArrival(n: Node, c: Context, from: Bytes, dest: Bytes, text: Bytes, rest: Bytes)
    requires Ok(n) && |from| == IdSize && |dest| == IdSize && NulFree(text)
    ensures var next := NextHop(n.local, n.cache, dest, c.hopId);
      Step(n, c, RouteMessage(from, dest, text) + rest) ==
        if next.id != n.local.id then
          Outcome(n.(outbox := n.outbox + [Protocol.Datagram(RouteMessage(from, dest, text), next.ep)]), rest)
        else if dest == n.local.id then
          Outcome(n.(delivered := n.delivered + [Protocol.Delivery(from, text)]), rest)
        else
          Outcome(n.(log := n.log + [Failed(InvalidRoute)]), rest)
  {
    var x := dest + text + [0] + rest;
    var whole := OpBytes(ROUTE) + from + x;
    assert RouteMessage(from, dest, text) + rest == whole by {
      IdTextTail(OpBytes(ROUTE) + from, dest, text, rest);
    }
    StepOn(n, c, ROUTE, from, x);
    IdTextReads(dest, text, rest);
    Consumed(RouteMessage(from, dest, text), rest);
  }

  /**
   * A cached id other than the local one and the excluded one is its own
   * next hop: a ROUTE or LOOKUP for a cached peer goes straight to it.
   */
  lemma NextHopFindsCached(local: Peer, cache: seq<Peer>, t: Bytes, except: Bytes)
    requires |local.id| == IdSize && WellFormed(cache) && |t| == IdSize
    requires HasId(cache, t) && t != except && t != local.id
    ensures NextHop(local, cache, t, except).id == t
  {
    var i :| 0 <= i < |cache| && cache[i].id == t;
    XorLaws(t, t);
    ToNatZeroIff(Xor(t, t));
    XorZeroIff(local.id, t);
    ToNatZeroIff(Xor(local.id, t));
    ScanMinimal(local.id, cache, t, except, |cache|);
    var m := ScanUpTo(local.id, cache, t, except, |cache|);
    assert m >= 0 && Distance(cache[m].id, t) <= Distance(cache[i].id, t);
    ToNatZeroIff(Xor(cache[m].id, t));
    XorZeroIff(cache[m].id, t);
  }

  // ---------------------------------------------------------------------
  // BROADCAST
  // ---------------------------------------------------------------------

  /**
   * A BROADCAST whose one-time id was seen changes nothing; a new one is
   * recorded with its text, written unchanged to every cached peer, and
   * delivered once as coming from its originator.
   */
  lemma BroadcastArrival(n: Node, c: Context, origin: Bytes, bid: Bytes, text: Bytes, rest: Bytes)
    requires Ok(n) && |origin| == IdSize && |bid| == IdSize && NulFree(text)
    ensures Step(n, c, BroadcastMessage(origin, bid, text) + rest) ==
      if bid in n.broadcasts then Outcome(n, rest)
      else Outcome(n.(broadcasts := n.broadcasts[bid := text],
                      outbox := n.outbox + ToEvery(n.cache, BroadcastMessage(origin, bid, text), |n.cache|),
                      delivered := n.delivered + [Protocol.Delivery(origin, text)]),
                   rest)
  {
    var x := bid + text + [0] + rest;
    var whole := OpBytes(BROADCAST) + origin + x;
    assert BroadcastMessage(origin, bid, text) + rest == whole by {
      IdTextTail(OpBytes(BROADCAST) + origin, bid, text, rest);
    }
    StepOn(n, c, BROADCAST, origin, x);
    IdTextReads(bid, text, rest);
    Consumed(BroadcastMessage(origin, bid, text), rest);
  }

  /**
   * `broadcast(msg)` followed by the network: every cached peer is sent the
   * BROADCAST, which names the local peer as originator, and when a copy of
   * it (or anything else with the same one-time id) comes back, it is
   * neither delivered nor passed on again.
   */
  lemma EchoIgnored(n: Node, c: Context, bid: Bytes, msg: Bytes, origin: Bytes, text: Bytes, rest: Bytes)
    requires Ok(n) && |bid| == IdSize && |origin| == IdSize && NulFree(text)
    ensures var m := Broadcasted(n, bid, msg);
      Ok(m) && m.outbox[..|n.outbox|] == n.outbox &&
      (forall i | 0 <= i < |n.cache| ::
        m.outbox[|n.outbox| + i] == Protocol.Datagram(BroadcastMessage(n.local.id, bid, msg), n.cache[i].ep)) &&
      Step(m, c, BroadcastMessage(origin, bid, text) + rest) == Outcome(m, rest)
  {
    var m := Broadcasted(n, bid, msg);
    var sent := ToEvery(n.cache, BroadcastMessage(n.local.id, bid, msg), |n.cache|);
    ToEveryReach(n.cache, BroadcastMessage(n.local.id, bid, msg), |n.cache|);
    assert m.outbox == n.outbox + sent;
    BroadcastArrival(m, c, origin, bid, text, rest);
  }

  /**
   * At most once: a datagram carrying the same broadcast twice delivers its
   * text once if the id is new and not at all if it was seen, and the id is
   * then known with that text.
   */
  lemma BroadcastOnce(n: Node, c: Context, origin: Bytes, bid: Bytes, text: Bytes)
    requires Ok(n) && |origin| == IdSize && |bid| == IdSize && NulFree(text)
    ensures var b := BroadcastMessage(origin, bid, text);
      Process(n, c, b + b).delivered ==
        if bid in n.broadcasts then n.delivered else n.delivered + [Protocol.Delivery(origin, text)]
    ensures var m := Process(n, c, BroadcastMessage(origin, bid, text));
      bid in m.broadcasts && (bid !in n.broadcasts ==> m.broadcasts[bid] == text)
  {
    var b := BroadcastMessage(origin, bid, text);
    BroadcastArrival(n, c, origin, bid, text, b);
    var o1 := Step(n, c, b + b);
    BroadcastArrival(o1.node, c, origin, bid, text, []);
    assert b + [] == b;
    var o2 := Step(o1.node, c, b);
    assert Process(o2.node, c, []) == o2.node;
    BroadcastArrival(n, c, origin, bid, text, []);
    var o3 := Step(n, c, b);
    assert Process(o3.node, c, []) == o3.node;
  }

  // ---------------------------------------------------------------------
  // DISCONNECT
  // ---------------------------------------------------------------------

  /** Without duplicate ids, Kept drops exactly one entry when the id is among the first n, and none otherwise. */
  lemma {:induction false} KeptCount(ps: seq<Peer>, id: Bytes, n: nat)
    requires n <= |ps| && UniqueIds(ps)
    ensures |Kept(ps, id, n)| == if exists m | 0 <= m < n :: ps[m].id == id then n - 1 else n
  {
    if n > 0 {
      KeptCount(ps, id, n - 1);
      if ps[n - 1].id == id {
        assert forall m | 0 <= m < n - 1 :: ps[m].id != id;
      } else if exists m | 0 <= m < n :: ps[m].id == id {
        var m :| 0 <= m < n && ps[m].id == id;
        assert m < n - 1;
      }
    }
  }

  /**
   * `disconnect()`: each cached peer, in cache order, is sent a DISCONNECT
   * naming the local peer; nothing else about the node changes.
   */
  lemma FarewellSends(n: Node)
    requires Ok(n)
    ensures var m := Farewell(n);
      m.local == n.local && m.cache == n.cache && m.broadcasts == n.broadcasts &&
      m.delivered == n.delivered && m.log == n.log &&
      |m.outbox| == |n.outbox| + |n.cache| && m.outbox[..|n.outbox|] == n.outbox &&
      forall i | 0 <= i < |n.cache| :: m.outbox[|n.outbox| + i] == Protocol.Datagram(Bare(DISCONNECT, n.local.id), n.cache[i].ep)
  {
    ToEveryReach(n.cache, Bare(DISCONNECT, n.local.id), |n.cache|);
  }

  /**
   * A DISCONNECT removes every cache entry with the source's id and keeps
   * all others.  Only if one was removed is a departure logged and one
   * LOOKUP sent, for a target at the level the departed id occupied.
   */
  lemma DisconnectArrival(n: Node, c: Context, id: Bytes, rest: Bytes)
    requires Ok(n) && |id| == IdSize
    ensures var o := Step(n, c, Bare(DISCONNECT, id) + rest);
      o.rest == rest && !HasId(o.node.cache, id) &&
      (forall p | p in n.cache && p.id != id :: p in o.node.cache) &&
      (forall p | p in o.node.cache :: p in n.cache) &&
      (!HasId(n.cache, id) ==> o.node == n) &&
      (HasId(n.cache, id) ==>
        o.node.log == n.log + [PeerLeft(id)] &&
        o.node.outbox == n.outbox + [LookupFor(n.local, o.node.cache, RefillTarget(n.local.id, id))] &&
        (id != n.local.id ==> Level(n.local.id, RefillTarget(n.local.id, id)) == Level(n.local.id, id)))
  {
    StepOn(n, c, DISCONNECT, id, rest);
    KeptMeaning(n.cache, id);
    if HasId(n.cache, id) {
      assert Departures(id, 1) == [PeerLeft(id)];
      if id != n.local.id {
        LevelMeaning(n.local.id, id);
        LevelBound(n.local.id, id);
        LevelOfLookupTarget(n.local.id, Level(n.local.id, id));
      }
    }
  }

  /**
   * Filtering a cache with unique ids on one id keeps every other entry,
   * drops that id, adds nothing, and is one shorter exactly when the id was
   * present.
   */
  lemma KeptMeaning(ps: seq<Peer>, id: Bytes)
    requires UniqueIds(ps)
    ensures var k := Kept(ps, id, |ps|);
      !HasId(k, id) &&
      (forall p | p in ps && p.id != id :: p in k) &&
      (forall p | p in k :: p in ps) &&
      |k| == if HasId(ps, id) then |ps| - 1 else |ps|
  {
    var k := Kept(ps, id, |ps|);
    KeptFrom(ps, id, |ps|);
    KeptHas(ps, id, |ps|);
    KeptCount(ps, id, |ps|);
    forall p | p in ps && p.id != id
      ensures p in k
    {
      var i :| 0 <= i < |ps| && ps[i] == p;
    }
    forall i | 0 <= i < |k|
      ensures k[i].id != id
    {
      var m :| 0 <= m < |ps| && k[i] == ps[m] && ps[m].id != id;
    }
  }
}
