/**
 * What the current protocol promises, stated on the functions of `Protocol`:
 * each message the node builds is decoded by the receiving side as meant,
 * routing delivers or forwards, broadcasts are handled at most once, and the
 * forwarding rules pick exactly the peers they describe.
 */
module ProtocolLemmas {
  import opened Blobs
  import opened Codec
  import opened Routing
  import opened Protocol

  // ---------------------------------------------------------------------
  // Reading fields back
  // ---------------------------------------------------------------------

  /** A fixed-width value followed by anything is read back by `get` of its width. */
  lemma ReadsFixed(v: Bytes, rest: Bytes)
    ensures TakeFixed(v + rest, Zero(|v|)) == (v, rest)
  {
    TakeFixedFull(v + rest, Zero(|v|));
    assert (v + rest)[..|v|] == v && (v + rest)[|v|..] == rest;
  }

  /** One iteration on a sub-message with a known opcode runs that opcode's case. */
  lemma StepOn(n: Node, c: Context, op: Opcode, x: Bytes)
    requires Table(n.peers) && CtxOk(c)
    ensures var o := Dispatch(n, c, Some(op), OpBytes(op) + x, x);
      Step(n, c, OpBytes(op) + x) == if op == ROUTE then o else o.(ctx := Reset(o.ctx, LocalId(n)))
  {
    OpcodeDecodes(op, x);
  }

  /** One iteration on a MESSAGE runs the MESSAGE handler and resets the loop variables. */
  lemma StepMessage(n: Node, c: Context, x: Bytes)
    requires Table(n.peers) && CtxOk(c)
    ensures var o := OnMessage(n, c, x);
      Step(n, c, OpBytes(MESSAGE) + x) == o.(ctx := Reset(o.ctx, LocalId(n)))
  {
    StepOn(n, c, MESSAGE, x);
  }

  /** One iteration on a BROADCAST runs the BROADCAST handler and resets the loop variables. */
  lemma StepBroadcast(n: Node, c: Context, x: Bytes)
    requires Table(n.peers) && CtxOk(c)
    ensures var o := OnBroadcast(n, c, OpBytes(BROADCAST) + x, x);
      Step(n, c, OpBytes(BROADCAST) + x) == o.(ctx := Reset(o.ctx, LocalId(n)))
  {
    StepOn(n, c, BROADCAST, x);
  }

  /** One iteration on a DISCONNECT runs the DISCONNECT handler and resets the loop variables. */
  lemma StepDisconnect(n: Node, c: Context, x: Bytes)
    requires Table(n.peers) && CtxOk(c)
    ensures var o := OnDisconnect(n, c, x);
      Step(n, c, OpBytes(DISCONNECT) + x) == o.(ctx := Reset(o.ctx, LocalId(n)))
  {
    StepOn(n, c, DISCONNECT, x);
  }

  /** Payload sizes an `int` can carry. */
  predicate FitsInt(n: int)
  {
    0 <= n < 0x8000_0000
  }

  /** The header of a ROUTE message is read back field by field. */
  lemma RouteHeaderReads(from: Bytes, to: Bytes, payload: Bytes, rest: Bytes)
    requires |from| == IdSize && |to| == IdSize && FitsInt(|payload|)
    ensures var x := from + to + HostInt(|payload|, IntSize) + payload + rest;
      var t1 := TakeFixed(x, Zero(IdSize));
      var t2 := TakeFixed(t1.1, Zero(IdSize));
      var t3 := TakeFixed(t2.1, Zero(IntSize));
      t1.0 == from && t2.0 == to && t3.1 == payload + rest && SignedValue(t3.0) == |payload|
    ensures Routed(from, to, payload) + rest == OpBytes(ROUTE) + (from + to + HostInt(|payload|, IntSize) + payload + rest)
  {
    var size := HostInt(|payload|, IntSize);
    ThreeReads(from, to, size, payload + rest);
    Assoc(from + to + size, payload, rest);
    IntRoundTrip(|payload|);
    RoutedSplit(from, to, payload, rest);
  }

  /** A ROUTE message followed by more bytes is its opcode followed by header, payload and the rest. */
  lemma RoutedSplit(from: Bytes, to: Bytes, payload: Bytes, rest: Bytes)
    ensures Routed(from, to, payload) + rest == OpBytes(ROUTE) + (from + to + HostInt(|payload|, IntSize) + payload + rest)
  {
    var op := OpBytes(ROUTE);
    var body := from + to + HostInt(|payload|, IntSize) + payload;
    Assoc(op, body, rest);
    assert body + rest == from + to + HostInt(|payload|, IntSize) + payload + rest;
  }

  /** Concatenation regrouped, stated apart so that the sequences stay uninterpreted. */
  lemma Assoc<T>(a: seq<T>, b: seq<T>, c: seq<T>)
    ensures a + b + c == a + (b + c)
  {
  }

  /** Three fixed-width fields are read back in order. */
  lemma ThreeReads(a: Bytes, b: Bytes, c: Bytes, rest: Bytes)
    ensures var t1 := TakeFixed(a + b + c + rest, Zero(|a|));
      var t2 := TakeFixed(t1.1, Zero(|b|));
      t1 == (a, b + c + rest) && t2 == (b, c + rest) && TakeFixed(t2.1, Zero(|c|)) == (c, rest)
  {
    var z := c + rest;
    var y := b + z;
    assert b + c + rest == y;
    assert a + b + c + rest == a + y;
    ReadsFixed(a, y);
    ReadsFixed(b, z);
    ReadsFixed(c, rest);
  }

  /** A payload size written with `add((int)size)` is read back by `get<int>`. */
  lemma IntRoundTrip(v: int)
    requires FitsInt(v)
    ensures SignedValue(HostInt(v, IntSize)) == v
  {
    assert Pow256(IntSize) == 0x1_0000_0000;
    HostIntSigned(v, IntSize);
  }

  // ---------------------------------------------------------------------
  // sendPacket and ROUTE
  // ---------------------------------------------------------------------

  /**
   * A ROUTE arriving from a hop: when the next hop towards its destination
   * (not counting the sender) is the local peer, decoding continues into the
   * payload with the header's source and destination and nothing is written;
   * otherwise exactly the ROUTE message goes on to that next hop, the payload
   * is skipped and the loop variables are reset.
   */
  lemma RouteArrival(n: Node, c: Context, from: Bytes, to: Bytes, payload: Bytes, rest: Bytes)
    requires Table(n.peers) && CtxOk(c)
    requires |from| == IdSize && |to| == IdSize && FitsInt(|payload|)
    ensures var next := NextPeer(n.peers, to, c.hop.id);
      var o := Step(n, c, Routed(from, to, payload) + rest);
      if next.id == LocalId(n) then
        o == Outcome(n, Context(c.hop, from, to), payload + rest)
      else
        o == Outcome(n.(outbox := n.outbox + [Datagram(Routed(from, to, payload), next.ep)]),
                     Context(c.hop, c.hop.id, LocalId(n)), rest)
  {
    var x := from + to + HostInt(|payload|, IntSize) + payload + rest;
    RouteHeaderReads(from, to, payload, rest);
    var whole := OpBytes(ROUTE) + x;
    StepOn(n, c, ROUTE, x);
    var r := payload + rest;
    assert |whole| - |r| == 40;
    assert whole[..40 + |payload|] == Routed(from, to, payload);
    assert r[|payload|..] == rest;
  }

  /** `sendPacket` writes a packet as is to a destination in the table (other than the local peer). */
  lemma SendViaKnown(peers: seq<Peer>, payload: Bytes, dest: Bytes)
    requires Table(peers) && |dest| == IdSize
    requires HasId(peers, dest) && dest != peers[0].id
    ensures SendVia(peers, payload, dest) == Datagram(payload, GetById(peers, dest).ep)
  {
    var local := peers[0].id;
    var j :| 0 <= j < |peers| && peers[j].id == dest;
    assert peers[j].id != local;
    NextPeerFindsTarget(peers, dest, local);
    NextPeerDefault(peers, dest, local);
    var next := NextPeer(peers, dest, local);
    assert next.id == dest && next in peers;
    var g := GetById(peers, dest);
    assert g.id == dest && g in peers;
    var i :| 0 <= i < |peers| && peers[i] == next;
    var k :| 0 <= k < |peers| && peers[k] == g;
    assert peers[i].id == dest && peers[k].id == dest;
  }

  /**
   * A wrapped packet reaches the destination intact: a peer for which the
   * destination is its own id continues decoding with the original payload,
   * the sender as source and itself as destination.
   */
  lemma WrappedArrives(sender: seq<Peer>, payload: Bytes, dest: Bytes, n: Node, c: Context, rest: Bytes)
    requires Table(sender) && |dest| == IdSize && FitsInt(|payload|)
    requires NextPeer(sender, dest, sender[0].id).id != dest
    requires Table(n.peers) && CtxOk(c) && LocalId(n) == dest && c.hop.id != dest
    ensures SendVia(sender, payload, dest).data == Routed(sender[0].id, dest, payload)
    ensures Step(n, c, SendVia(sender, payload, dest).data + rest) ==
      Outcome(n, Context(c.hop, sender[0].id, dest), payload + rest)
  {
    NextPeerFindsTarget(n.peers, dest, c.hop.id);
    RouteArrival(n, c, sender[0].id, dest, payload, rest);
  }

  // ---------------------------------------------------------------------
  // HANDSHAKE, LOOKUP_REPLY, PING, MESSAGE, DISCONNECT
  // ---------------------------------------------------------------------

  /**
   * A HANDSHAKE adds the announced id with the hop's endpoint unless the id
   * is known, answers with HANDSHAKE_REPLY and the local id through
   * `sendPacket`, and makes the id the hop's id for the rest of the datagram.
   */
  lemma HandshakeArrival(n: Node, c: Context, id: Bytes, rest: Bytes)
    requires Table(n.peers) && CtxOk(c) && |id| == IdSize
    ensures var peers := Added(n.peers, id, c.hop.ep);
      Step(n, c, OpBytes(HANDSHAKE) + id + rest) ==
      Outcome(n.(peers := peers,
                 log := if HasId(n.peers, id) then n.log else n.log + [Connected(id)],
                 outbox := n.outbox + [SendVia(peers, OpBytes(HANDSHAKE_REPLY) + LocalId(n), id)]),
              Context(Peer(id, c.hop.ep), id, LocalId(n)), rest)
    ensures HasId(Step(n, c, OpBytes(HANDSHAKE) + id + rest).node.peers, id)
    ensures HasId(n.peers, id) ==> Step(n, c, OpBytes(HANDSHAKE) + id + rest).node.peers == n.peers
  {
    Assoc(OpBytes(HANDSHAKE), id, rest);
    StepOn(n, c, HANDSHAKE, id + rest);
    HandshakeReads(n, c, id, rest, true);
    AddedProperties(n.peers, id, c.hop.ep, c.hop.ep);
  }

  /** The HANDSHAKE handler reads the announced id and nothing more. */
  lemma HandshakeReads(n: Node, c: Context, id: Bytes, rest: Bytes, reply: bool)
    requires Table(n.peers) && CtxOk(c) && |id| == IdSize
    ensures var peers := Added(n.peers, id, c.hop.ep);
      OnHandshake(n, c, id + rest, reply) ==
      Outcome(n.(peers := peers,
                 log := if HasId(n.peers, id) then n.log else n.log + [Connected(id)],
                 outbox := if reply then n.outbox + [SendVia(peers, OpBytes(HANDSHAKE_REPLY) + LocalId(n), id)] else n.outbox),
              Context(Peer(id, c.hop.ep), id, c.destination), rest)
  {
    ReadsFixed(id, rest);
  }

  /**
   * A LOOKUP reads the 16-byte relay id and answers with exactly one
   * datagram: the LOOKUP_REPLY routed to the asking source, wrapped once
   * more towards the relay; the loop variables are reset.
   */
  lemma LookupArrival(n: Node, c: Context, relay: Bytes, rest: Bytes)
    requires Table(n.peers) && CtxOk(c) && |relay| == IdSize
    ensures Step(n, c, OpBytes(LOOKUP) + relay + rest) ==
      Outcome(n.(outbox := n.outbox + [LookupAnswer(n.peers, c.source, relay)]), Reset(c, LocalId(n)), rest)
  {
    assert OpBytes(LOOKUP) + relay + rest == OpBytes(LOOKUP) + (relay + rest);
    StepOn(n, c, LOOKUP, relay + rest);
    ReadsFixed(relay, rest);
  }

  /**
   * The answer to a LOOKUP is a ROUTE to the relay whose payload is a ROUTE
   * to the asker carrying the LOOKUP_REPLY; the relay, whose own id it is,
   * unwraps the outer layer and goes on decoding the inner ROUTE.
   */
  lemma AnswerAtRelay(peers: seq<Peer>, source: Bytes, relay: Bytes, r: Node, c: Context, rest: Bytes)
    requires Table(peers) && |source| == IdSize && |relay| == IdSize
    requires FitsInt(|Routed(peers[0].id, source, LookupReplyPayload(peers[0]))|)
    requires Table(r.peers) && CtxOk(c) && LocalId(r) == relay && c.hop.id != relay
    ensures var inner := Routed(peers[0].id, source, LookupReplyPayload(peers[0]));
      LookupAnswer(peers, source, relay).data == Routed(peers[0].id, relay, inner) &&
      Step(r, c, LookupAnswer(peers, source, relay).data + rest) ==
        Outcome(r, Context(c.hop, peers[0].id, relay), inner + rest)
  {
    var inner := Routed(peers[0].id, source, LookupReplyPayload(peers[0]));
    NextPeerFindsTarget(r.peers, relay, c.hop.id);
    RouteArrival(r, c, peers[0].id, relay, inner, rest);
  }

  /**
   * The asker, whose id the inner ROUTE names, unwraps it and handles the
   * LOOKUP_REPLY: the answering peer is added with its own endpoint and
   * greeted, unless already known.
   */
  lemma AnswerAtAsker(answerer: Peer, a: Node, c: Context, rest: Bytes)
    requires |answerer.id| == IdSize && 0 <= answerer.ep.port < 0x1_0000 && NulFree(answerer.ep.address)
    requires FitsInt(|LookupReplyPayload(answerer)|)
    requires Table(a.peers) && CtxOk(c) && c.hop.id != LocalId(a)
    ensures var o := Step(a, c, Routed(answerer.id, LocalId(a), LookupReplyPayload(answerer)) + rest);
      o == Outcome(a, Context(c.hop, answerer.id, LocalId(a)), LookupReplyPayload(answerer) + rest) &&
      var o' := Step(a, o.ctx, o.rest);
      o'.rest == rest &&
      if HasId(a.peers, answerer.id) then o'.node == a
      else o'.node == a.(peers := a.peers + [answerer],
                         log := a.log + [Connected(answerer.id)],
                         outbox := a.outbox + [Datagram(OpBytes(HANDSHAKE) + LocalId(a), answerer.ep)])
  {
    var local := LocalId(a);
    NextPeerFindsTarget(a.peers, local, c.hop.id);
    RouteArrival(a, c, answerer.id, local, LookupReplyPayload(answerer), rest);
    LookupReplyArrival(a, Context(c.hop, answerer.id, local), answerer, rest);
  }

  /**
   * A LOOKUP_REPLY carries the replying peer's id and endpoint; an unknown
   * peer is added with exactly that endpoint and sent a HANDSHAKE there.
   */
  lemma LookupReplyArrival(n: Node, c: Context, p: Peer, rest: Bytes)
    requires Table(n.peers) && CtxOk(c)
    requires |p.id| == IdSize && 0 <= p.ep.port < 0x1_0000 && NulFree(p.ep.address)
    ensures var o := Step(n, c, LookupReplyPayload(p) + rest);
      o.rest == rest &&
      if HasId(n.peers, p.id) then o.node == n
      else o.node == n.(peers := n.peers + [p],
                        log := n.log + [Connected(p.id)],
                        outbox := n.outbox + [Datagram(OpBytes(HANDSHAKE) + LocalId(n), p.ep)])
  {
    var x := p.id + HostInt(p.ep.port, PortSize) + p.ep.address + [0] + rest;
    assert LookupReplyPayload(p) + rest == OpBytes(LOOKUP_REPLY) + x;
    StepOn(n, c, LOOKUP_REPLY, x);
    LookupReplyReads(p, rest);
  }

  /** The fields of a LOOKUP_REPLY are read back: id, port and address. */
  lemma LookupReplyReads(p: Peer, rest: Bytes)
    requires |p.id| == IdSize && 0 <= p.ep.port < 0x1_0000 && NulFree(p.ep.address)
    ensures var x := p.id + HostInt(p.ep.port, PortSize) + p.ep.address + [0] + rest;
      var t1 := TakeFixed(x, Zero(IdSize));
      var t2 := TakeFixed(t1.1, Zero(PortSize));
      t1.0 == p.id && ToNat(t2.0) == p.ep.port && TakeStr(t2.1) == (p.ep.address, rest)
  {
    ReplyFieldsRead(p.id, HostInt(p.ep.port, PortSize), p.ep.address, rest);
    PortRoundTrip(p.ep.port);
  }

  /** Two fixed-width fields and a string are read back in order. */
  lemma ReplyFieldsRead(id: Bytes, port: Bytes, a: Bytes, rest: Bytes)
    requires NulFree(a)
    ensures var x := id + port + a + [0] + rest;
      var t1 := TakeFixed(x, Zero(|id|));
      var t2 := TakeFixed(t1.1, Zero(|port|));
      t1.0 == id && t2.0 == port && TakeStr(t2.1) == (a, rest)
  {
    var t := [0] + rest;
    var s := a + t;
    Assoc(id + port + a, [0], rest);
    Assoc(id + port, a, t);
    Assoc(id, port, s);
    Assoc(a, [0], rest);
    ReadsFixed(id, port + s);
    ReadsFixed(port, s);
    StrRoundTrip(a, rest);
  }

  /** A port written with `add(uint16_t)` is read back by `get<uint16_t>`. */
  lemma PortRoundTrip(v: int)
    requires 0 <= v < 0x1_0000
    ensures ToNat(HostInt(v, PortSize)) == v
  {
    HostIntValue(v, PortSize);
    var m := Pow256(PortSize);
    assert m == 0x1_0000;
    DivModUnique(v, m, 0, v);
  }

  /** A PING is answered with PONG to the current source, through `sendPacket`. */
  lemma PingArrival(n: Node, c: Context, rest: Bytes)
    requires Table(n.peers) && CtxOk(c)
    ensures Step(n, c, OpBytes(PING) + rest) ==
      Outcome(n.(outbox := n.outbox + [SendVia(n.peers, OpBytes(PONG), c.source)]), Reset(c, LocalId(n)), rest)
  {
    StepOn(n, c, PING, rest);
  }

  /**
   * A MESSAGE is delivered, as coming from the current source, exactly when
   * bytes 15 and 14 of the current destination equal the local id's; nothing
   * else changes.
   */
  lemma MessageArrival(n: Node, c: Context, text: Bytes, rest: Bytes)
    requires Table(n.peers) && CtxOk(c) && NulFree(text)
    ensures var o := Step(n, c, OpBytes(MESSAGE) + text + [0] + rest);
      var local := LocalId(n);
      o.rest == rest && o.ctx == Reset(c, local) &&
      o.node == if c.destination[15] == local[15] && c.destination[14] == local[14]
        then n.(delivered := n.delivered + [Delivery(c.source, text)]) else n
  {
    var x := text + [0] + rest;
    Assoc(OpBytes(MESSAGE) + text, [0], rest);
    Assoc(OpBytes(MESSAGE), text, [0] + rest);
    Assoc(text, [0], rest);
    StepMessage(n, c, x);
    MessageReads(n, c, text, rest);
  }

  /** The MESSAGE handler reads the text up to its NUL and leaves the loop variables alone. */
  lemma MessageReads(n: Node, c: Context, text: Bytes, rest: Bytes)
    requires Table(n.peers) && CtxOk(c) && NulFree(text)
    ensures var o := OnMessage(n, c, text + [0] + rest);
      var local := LocalId(n);
      o.rest == rest && o.ctx == c &&
      o.node == if c.destination[15] == local[15] && c.destination[14] == local[14]
        then n.(delivered := n.delivered + [Delivery(c.source, text)]) else n
  {
    StrRoundTrip(text, rest);
  }

  /**
   * DISCONNECT: from the hop itself it removes the hop's id and, if an entry
   * went, sends one LOOKUP for the level the id occupied; from any other
   * source it only logs an invalid opcode.
   */
  lemma DisconnectArrival(n: Node, c: Context, rest: Bytes)
    requires Table(n.peers) && CtxOk(c)
    ensures var o := Step(n, c, OpBytes(DISCONNECT) + rest);
      o.rest == rest && o.ctx == Reset(c, LocalId(n)) &&
      (c.source != c.hop.id ==> o.node == n.(log := n.log + [InvalidOpcode])) &&
      (c.source == c.hop.id && !HasId(n.peers[1..], c.source) ==> o.node == n) &&
      (c.source == c.hop.id && HasId(n.peers[1..], c.source) ==>
        0 <= Level(LocalId(n), c.source) < 8 * IdSize &&
        o.node.peers == Removed(n.peers, c.source) && !HasId(o.node.peers[1..], c.source) &&
        o.node.outbox == n.outbox + [LookupDatagram(o.node.peers, LookupTarget(LocalId(n), Level(LocalId(n), c.source)))])
  {
    StepDisconnect(n, c, rest);
    if c.source == c.hop.id && HasId(n.peers[1..], c.source) {
      DisconnectLevel(n.peers, c.source);
      var r := Removed(n.peers, c.source);
      RemovedProperties(n.peers, c.source);
      assert !HasId(r[1..], c.source) by {
        forall i | 0 <= i < |r[1..]|
          ensures r[1..][i].id != c.source
        {
          assert r[1..][i] == r[i + 1];
        }
      }
    }
  }

  /** A code outside the enumeration is logged as an invalid opcode and its four bytes are consumed. */
  lemma InvalidArrival(n: Node, c: Context, code: Bytes, rest: Bytes)
    requires Table(n.peers) && CtxOk(c) && |code| == OpcodeSize && ToNat(code) > 10
    ensures Step(n, c, code + rest) == Outcome(n.(log := n.log + [InvalidOpcode]), Reset(c, LocalId(n)), rest)
  {
    ReadsFixed(code, rest);
  }

  // ---------------------------------------------------------------------
  // BROADCAST
  // ---------------------------------------------------------------------

  /** The fields of a BROADCAST are read back. */
  lemma BroadcastReads(origin: Bytes, bid: Bytes, text: Bytes, rest: Bytes)
    requires |origin| == IdSize && |bid| == BroadcastIdSize && NulFree(text)
    ensures var x := origin + bid + text + [0] + rest;
      var t1 := TakeFixed(x, Zero(IdSize));
      var t2 := TakeFixed(t1.1, Zero(BroadcastIdSize));
      var t3 := TakeStr(t2.1);
      t1.0 == origin && t2.0 == bid && t3 == (text, rest)
    ensures BroadcastMessage(origin, bid, text) + rest == OpBytes(BROADCAST) + (origin + bid + text + [0] + rest)
  {
    ReadsFixed(origin, bid + text + [0] + rest);
    assert origin + bid + text + [0] + rest == origin + (bid + text + [0] + rest);
    ReadsFixed(bid, text + [0] + rest);
    assert bid + text + [0] + rest == bid + (text + [0] + rest);
    StrRoundTrip(text, rest);
  }

  /**
   * A BROADCAST whose id was seen changes nothing; a new one is recorded,
   * passed on unchanged by the forwarding rule and delivered once as coming
   * from its originator.
   */
  lemma BroadcastArrival(n: Node, c: Context, origin: Bytes, bid: Bytes, text: Bytes, rest: Bytes)
    requires Table(n.peers) && CtxOk(c)
    requires |origin| == IdSize && |bid| == BroadcastIdSize && NulFree(text)
    ensures var o := Step(n, c, BroadcastMessage(origin, bid, text) + rest);
      o.rest == rest && o.ctx == Reset(c, LocalId(n)) &&
      if bid in n.broadcastIds then o.node == n
      else o.node == n.(broadcastIds := n.broadcastIds + {bid},
                        outbox := n.outbox + Forwards(n.peers, c.hop.ep, LocalId(n), origin,
                                                      BroadcastMessage(origin, bid, text), |n.peers|),
                        delivered := n.delivered + [Delivery(origin, text)])
  {
    var x := origin + bid + text + [0] + rest;
    BroadcastReads(origin, bid, text, rest);
    StepBroadcast(n, c, x);
    var whole := OpBytes(BROADCAST) + x;
    assert whole[..|whole| - |rest|] == BroadcastMessage(origin, bid, text);
  }

  /**
   * At most once: a datagram carrying the same broadcast twice delivers its
   * text once if the id is new, and not at all if it was seen.
   */
  lemma BroadcastOnce(n: Node, c: Context, origin: Bytes, bid: Bytes, text: Bytes)
    requires Table(n.peers) && CtxOk(c)
    requires |origin| == IdSize && |bid| == BroadcastIdSize && NulFree(text)
    ensures var b := BroadcastMessage(origin, bid, text);
      Process(n, c, b + b).delivered ==
        if bid in n.broadcastIds then n.delivered else n.delivered + [Delivery(origin, text)]
    ensures bid in Process(n, c, BroadcastMessage(origin, bid, text)).broadcastIds
  {
    var b := BroadcastMessage(origin, bid, text);
    BroadcastArrival(n, c, origin, bid, text, b);
    var o1 := Step(n, c, b + b);
    BroadcastArrival(o1.node, o1.ctx, origin, bid, text, []);
    assert b + [] == b;
    var o2 := Step(o1.node, o1.ctx, b);
    assert Process(o2.node, o2.ctx, []) == o2.node;
    BroadcastArrival(n, c, origin, bid, text, []);
  }

  /**
   * The forwarding loop writes to exactly the entries the rule admits: every
   * datagram is the unchanged sub-message to such an entry, and every such
   * entry gets one.
   */
  lemma {:induction false} ForwardsRule(ps: seq<Peer>, hopEp: Endpoint, local: Bytes, origin: Bytes, raw: Bytes, n: nat)
    requires n <= |ps| && WellFormed(ps) && |local| == IdSize && |origin| == IdSize
    ensures forall d | d in Forwards(ps, hopEp, local, origin, raw, n) ::
      d.data == raw && exists i | 0 <= i < n :: ForwardsTo(ps[i], hopEp, local, origin) && d.to == ps[i].ep
    ensures forall i | 0 <= i < n && ForwardsTo(ps[i], hopEp, local, origin) ::
      Datagram(raw, ps[i].ep) in Forwards(ps, hopEp, local, origin, raw, n)
  {
    if n > 0 {
      ForwardsRule(ps, hopEp, local, origin, raw, n - 1);
    }
  }

  /** A forwarded broadcast never goes back to the endpoint it came from, nor to the local entry. */
  lemma NoEcho(ps: seq<Peer>, hopEp: Endpoint, local: Bytes, origin: Bytes, raw: Bytes)
    requires WellFormed(ps) && |local| == IdSize && |origin| == IdSize
    ensures forall d | d in Forwards(ps, hopEp, local, origin, raw, |ps|) :: d.to != hopEp
    ensures forall i | 0 <= i < |ps| && ps[i].id == local ::
      ps[i].ep == hopEp || Datagram(raw, ps[i].ep) !in Forwards(ps, hopEp, local, origin, raw, |ps|) ||
      exists j | 0 <= j < |ps| :: ps[j].id != local && ps[j].ep == ps[i].ep
  {
    ForwardsRule(ps, hopEp, local, origin, raw, |ps|);
  }

  /** The broadcast fan-out writes the message to exactly the entries whose id is not the local id. */
  lemma {:induction false} FanoutRule(ps: seq<Peer>, local: Bytes, data: Bytes, n: nat)
    requires n <= |ps|
    ensures forall d | d in Fanout(ps, local, data, n) ::
      d.data == data && exists i | 0 <= i < n :: ps[i].id != local && d.to == ps[i].ep
    ensures forall i | 0 <= i < n && ps[i].id != local :: Datagram(data, ps[i].ep) in Fanout(ps, local, data, n)
  {
    if n > 0 {
      FanoutRule(ps, local, data, n - 1);
    }
  }
}
