/**
 * The current peer protocol (`PeerNetwork::processPacket` and the messages
 * the node originates) as functions on values.  A node's observable state is
 * its routing table, the broadcast ids it has seen, the datagrams it wrote,
 * the messages it handed to the application and the log lines it produced.
 * A received datagram is a run of sub-messages, each an opcode followed by
 * that opcode's fields; `Step` handles one, `Process` all of them.
 */
module Protocol {
  import opened Blobs
  import opened Codec
  import opened Routing
  import Errors

  /** Wire widths: an unscoped enum and an `int` are 4 bytes, a port 2, a broadcast id 32. */
  const OpcodeSize: nat := 4
  const IntSize: nat := 4
  const PortSize: nat := 2
  const BroadcastIdSize: nat := 32

  datatype Option<T> = None | Some(value: T)

  datatype Opcode =
    NONE | PING | PONG | HANDSHAKE | HANDSHAKE_REPLY | LOOKUP | LOOKUP_REPLY | ROUTE | BROADCAST | MESSAGE | DISCONNECT

  /** The enumerator's integer: its position in the declaration, from 0. */
  function Code(op: Opcode): (r: nat)
    ensures r <= 10
  {
    match op
    case NONE => 0
    case PING => 1
    case PONG => 2
    case HANDSHAKE => 3
    case HANDSHAKE_REPLY => 4
    case LOOKUP => 5
    case LOOKUP_REPLY => 6
    case ROUTE => 7
    case BROADCAST => 8
    case MESSAGE => 9
    case DISCONNECT => 10
  }

  /** The `switch` on a decoded opcode: the enumerator with that integer, if any. */
  function OpcodeOf(v: int): (r: Option<Opcode>)
    ensures r.Some? <==> 0 <= v <= 10
    ensures r.Some? ==> Code(r.value) == v
  {
    if v == 0 then Some(NONE)
    else if v == 1 then Some(PING)
    else if v == 2 then Some(PONG)
    else if v == 3 then Some(HANDSHAKE)
    else if v == 4 then Some(HANDSHAKE_REPLY)
    else if v == 5 then Some(LOOKUP)
    else if v == 6 then Some(LOOKUP_REPLY)
    else if v == 7 then Some(ROUTE)
    else if v == 8 then Some(BROADCAST)
    else if v == 9 then Some(MESSAGE)
    else if v == 10 then Some(DISCONNECT)
    else None
  }

  /**
   * `add(opcode)`: the four host bytes of the enumerator's integer, which
   * fits in the lowest byte.
   */
  function OpBytes(op: Opcode): (r: Bytes)
    ensures |r| == OpcodeSize
  {
    [Code(op) as bv8, 0, 0, 0]
  }

  /** The opcode bytes are the host representation of its integer. */
  lemma OpBytesAreHostInt(op: Opcode)
    ensures OpBytes(op) == HostInt(Code(op), OpcodeSize)
  {
    var x := Code(op);
    DivModUnique(x, 256, 0, x);
    assert HostInt(0, 3) == [0, 0, 0];
  }

  /** An opcode written with `add` is read back by `get<Opcode>` and selects its own case. */
  lemma OpcodeDecodes(op: Opcode, rest: Bytes)
    ensures TakeFixed(OpBytes(op) + rest, Zero(OpcodeSize)) == (OpBytes(op), rest)
    ensures OpcodeOf(ToNat(OpBytes(op))) == Some(op)
  {
    var b := OpBytes(op);
    TakeFixedFull(b + rest, Zero(OpcodeSize));
    assert (b + rest)[..OpcodeSize] == b && (b + rest)[OpcodeSize..] == rest;
    assert ToNat(b) == Code(op) by {
      assert b[1..] == Zero(3);
      ZeroValue(3);
      ByteOf(Code(op));
    }
    CodeInverse(op);
  }

  /** Every enumerator selects its own case of the `switch`. */
  lemma CodeInverse(op: Opcode)
    ensures OpcodeOf(Code(op)) == Some(op)
  {
    match op
    case NONE =>
    case PING =>
    case PONG =>
    case HANDSHAKE =>
    case HANDSHAKE_REPLY =>
    case LOOKUP =>
    case LOOKUP_REPLY =>
    case ROUTE =>
    case BROADCAST =>
    case MESSAGE =>
    case DISCONNECT =>
  }

  /** A number below 256 keeps its value in any positive number of host bytes. */
  lemma SmallHostInt(x: nat, w: nat)
    requires 0 < w && x < 256
    ensures ToNat(HostInt(x, w)) == x
  {
    HostIntValue(x, w);
    assert Pow256(w) == 256 * Pow256(w - 1);
    MulLe(256, 1, Pow256(w - 1));
    DivModUnique(x, Pow256(w), 0, x);
  }

  // ---------------------------------------------------------------------
  // Node state
  // ---------------------------------------------------------------------

  /** `socket.write(data, size, ep)`. */
  datatype Datagram = Datagram(data: Bytes, to: Endpoint)

  /** `msgCallback(id, msg)`. */
  datatype Delivery = Delivery(from: Bytes, text: Bytes)

  /** The log lines that are not debug output. */
  datatype LogEntry = Connected(id: Bytes) | Disconnected(id: Bytes) | InvalidOpcode | Failed(error: Errors.Error)

  datatype Node = Node(
    peers: seq<Peer>,
    broadcastIds: set<Bytes>,
    outbox: seq<Datagram>,
    delivered: seq<Delivery>,
    log: seq<LogEntry>)

  /** The variables of the decoding loop: the hop the datagram came from, and the current source and destination. */
  datatype Context = Context(hop: Peer, source: Bytes, destination: Bytes)

  /** The outcome of handling sub-messages: the new state, the new loop variables, the unread bytes. */
  datatype Outcome = Outcome(node: Node, ctx: Context, rest: Bytes)

  /** A routing table as the node keeps it: a local entry, `PeerId`s only, no id twice. */
  predicate Table(peers: seq<Peer>)
  {
    |peers| >= 1 && WellFormed(peers) && UniqueIds(peers)
  }

  predicate CtxOk(c: Context)
  {
    |c.hop.id| == IdSize && |c.source| == IdSize && |c.destination| == IdSize
  }

  /** What handling never undoes: the output only grows and seen broadcast ids stay seen. */
  predicate Grows(a: Node, b: Node)
  {
    a.outbox <= b.outbox && a.delivered <= b.delivered && a.log <= b.log && a.broadcastIds <= b.broadcastIds
  }

  /** What handling keeps: a well-formed table with the same local entry. */
  predicate Keeps(a: Node, b: Node)
    requires |a.peers| >= 1
  {
    Table(b.peers) && b.peers[0] == a.peers[0] && Grows(a, b)
  }

  /** Keeping is transitive. */
  lemma KeepsChain(a: Node, b: Node, c: Node)
    requires |a.peers| >= 1 && |b.peers| >= 1 && Keeps(a, b) && Keeps(b, c)
    ensures Keeps(a, c)
  {
  }

  function LocalId(n: Node): (r: Bytes)
    requires Table(n.peers)
    ensures |r| == IdSize
  {
    n.peers[0].id
  }

  // ---------------------------------------------------------------------
  // Messages the node builds
  // ---------------------------------------------------------------------

  /** A ROUTE message: opcode, source, destination, payload size, payload. */
  function Routed(from: Bytes, to: Bytes, payload: Bytes): Bytes
  {
    OpBytes(ROUTE) + (from + to + HostInt(|payload|, IntSize) + payload)
  }

  /**
   * `sendPacket(packet, destination)`: to the next hop towards the
   * destination, as is when that hop is the destination, else wrapped once
   * in a ROUTE message.
   */
  function SendVia(peers: seq<Peer>, payload: Bytes, dest: Bytes): (d: Datagram)
    requires |peers| >= 1 && WellFormed(peers) && |dest| == IdSize
    ensures d.to == NextPeer(peers, dest, peers[0].id).ep
    ensures d.data == payload <==> NextPeer(peers, dest, peers[0].id).id == dest
  {
    var next := NextPeer(peers, dest, peers[0].id);
    if next.id == dest then Datagram(payload, next.ep)
    else Datagram(Routed(peers[0].id, dest, payload), next.ep)
  }

  /** `lookup(target)`: a LOOKUP carrying the first hop's id as relay, sent towards the target. */
  function LookupDatagram(peers: seq<Peer>, target: Bytes): Datagram
    requires |peers| >= 1 && WellFormed(peers) && |target| == IdSize
  {
    var next := NextPeer(peers, target, peers[0].id);
    SendVia(peers, OpBytes(LOOKUP) + next.id, target)
  }

  /** The LOOKUP_REPLY payload: the local id, port and address. */
  function LookupReplyPayload(local: Peer): Bytes
  {
    OpBytes(LOOKUP_REPLY) + local.id + HostInt(local.ep.port, PortSize) + local.ep.address + [0]
  }

  /**
   * The answer to a LOOKUP: the reply routed to the asking source, wrapped
   * in a second ROUTE to the relay, written to the next hop towards the relay.
   */
  function LookupAnswer(peers: seq<Peer>, source: Bytes, relay: Bytes): Datagram
    requires |peers| >= 1 && WellFormed(peers) && |relay| == IdSize
  {
    var local := peers[0];
    var route := Routed(local.id, source, LookupReplyPayload(local));
    Datagram(Routed(local.id, relay, route), NextPeer(peers, relay, local.id).ep)
  }

  /** A BROADCAST message: opcode, originator, broadcast id, text. */
  function BroadcastMessage(origin: Bytes, bid: Bytes, text: Bytes): Bytes
  {
    OpBytes(BROADCAST) + origin + bid + text + [0]
  }

  /**
   * Whom a received broadcast is passed on to: not back to the hop it came
   * from, not to the local entry, and only away from the originator, to
   * peers farther from it than the local peer is.
   */
  predicate ForwardsTo(p: Peer, hopEp: Endpoint, local: Bytes, origin: Bytes)
    requires |p.id| == IdSize && |local| == IdSize && |origin| == IdSize
  {
    p.ep != hopEp && p.id != local && Greater(Xor(origin, p.id), Xor(origin, local))
  }

  /** The forwarding loop over the first n entries: raw to every entry the rule admits, in table order. */
  function Forwards(ps: seq<Peer>, hopEp: Endpoint, local: Bytes, origin: Bytes, raw: Bytes, n: nat): (r: seq<Datagram>)
    requires n <= |ps| && WellFormed(ps) && |local| == IdSize && |origin| == IdSize
    ensures |r| <= n
  {
    if n == 0 then []
    else
      Forwards(ps, hopEp, local, origin, raw, n - 1) +
        (if ForwardsTo(ps[n - 1], hopEp, local, origin) then [Datagram(raw, ps[n - 1].ep)] else [])
  }

  /** The broadcast fan-out to the first n entries: every entry except the local id. */
  function Fanout(ps: seq<Peer>, local: Bytes, data: Bytes, n: nat): (r: seq<Datagram>)
    requires n <= |ps|
    ensures |r| <= n
  {
    if n == 0 then []
    else Fanout(ps, local, data, n - 1) + (if ps[n - 1].id != local then [Datagram(data, ps[n - 1].ep)] else [])
  }

  // ---------------------------------------------------------------------
  // One sub-message, case by case
  // ---------------------------------------------------------------------

  /** PING: answer PONG to the source through `sendPacket`. */
  function OnPing(n: Node, c: Context, rest: Bytes): (o: Outcome)
    requires Table(n.peers) && CtxOk(c)
    ensures Keeps(n, o.node) && CtxOk(o.ctx) && o.rest == rest
    ensures o.node == n.(outbox := n.outbox + [SendVia(n.peers, OpBytes(PONG), c.source)])
  {
    Outcome(n.(outbox := n.outbox + [SendVia(n.peers, OpBytes(PONG), c.source)]), c, rest)
  }

  /**
   * HANDSHAKE (reply) and HANDSHAKE_REPLY (no reply): add the announced id
   * with the hop's endpoint unless known, and take it as the hop's id. A
   * HANDSHAKE is answered with HANDSHAKE_REPLY and the local id.
   */
  function OnHandshake(n: Node, c: Context, rest: Bytes, reply: bool): (o: Outcome)
    requires Table(n.peers) && CtxOk(c)
    ensures Keeps(n, o.node) && CtxOk(o.ctx) && |o.rest| <= |rest|
  {
    var t := TakeFixed(rest, Zero(IdSize));
    Outcome(Handshaken(n, t.0, c.hop.ep, reply), Context(Peer(t.0, c.hop.ep), t.0, c.destination), t.1)
  }

  /** The node after a handshake announced `id` from the endpoint `ep`. */
  function Handshaken(n: Node, id: Bytes, ep: Endpoint, reply: bool): (m: Node)
    requires Table(n.peers) && |id| == IdSize
    ensures Keeps(n, m)
  {
    var peers := Added(n.peers, id, ep);
    AddedProperties(n.peers, id, ep, ep);
    var log := if HasId(n.peers, id) then n.log else n.log + [Connected(id)];
    var outbox := if reply then n.outbox + [SendVia(peers, OpBytes(HANDSHAKE_REPLY) + n.peers[0].id, id)] else n.outbox;
    n.(peers := peers, log := log, outbox := outbox)
  }

  /** LOOKUP: answer with the local id and endpoint, routed back through the relay. */
  function OnLookup(n: Node, c: Context, rest: Bytes): (o: Outcome)
    requires Table(n.peers) && CtxOk(c)
    ensures Keeps(n, o.node) && CtxOk(o.ctx) && |o.rest| <= |rest|
  {
    var t := TakeFixed(rest, Zero(IdSize));
    Outcome(n.(outbox := n.outbox + [LookupAnswer(n.peers, c.source, t.0)]), c, t.1)
  }

  /** LOOKUP_REPLY: an unknown id is added with the announced endpoint and sent a HANDSHAKE. */
  function OnLookupReply(n: Node, c: Context, rest: Bytes): (o: Outcome)
    requires Table(n.peers) && CtxOk(c)
    ensures Keeps(n, o.node) && CtxOk(o.ctx) && |o.rest| <= |rest|
  {
    var t1 := TakeFixed(rest, Zero(IdSize));
    var t2 := TakeFixed(t1.1, Zero(PortSize));
    var t3 := TakeStr(t2.1);
    var id := t1.0;
    var ep := Endpoint(t3.0, ToNat(t2.0));
    if HasId(n.peers, id) then Outcome(n, c, t3.1)
    else
      AddedProperties(n.peers, id, ep, ep);
      Outcome(n.(peers := Added(n.peers, id, ep),
                 log := n.log + [Connected(id)],
                 outbox := n.outbox + [Datagram(OpBytes(HANDSHAKE) + n.peers[0].id, ep)]),
              c, t3.1)
  }

  /**
   * ROUTE: read source, destination and payload size. When the next hop
   * towards the destination (not counting the hop it came from) is not the
   * local peer, the header and payload go out to it unchanged, the payload is
   * skipped and the loop variables are reset; otherwise decoding goes on into
   * the payload with the header's source and destination.
   */
  function OnRoute(n: Node, c: Context, whole: Bytes, rest: Bytes): (o: Outcome)
    requires Table(n.peers) && CtxOk(c) && |rest| <= |whole|
    ensures Keeps(n, o.node) && CtxOk(o.ctx) && |o.rest| <= |rest|
  {
    var t1 := TakeFixed(rest, Zero(IdSize));
    var t2 := TakeFixed(t1.1, Zero(IdSize));
    var t3 := TakeFixed(t2.1, Zero(IntSize));
    var size := SignedValue(t3.0);
    var r := t3.1;
    var next := NextPeer(n.peers, t2.0, c.hop.id);
    if next.id != n.peers[0].id then
      var len := ForwardLength(|whole| - |r|, size, |whole|);
      Outcome(n.(outbox := n.outbox + [Datagram(whole[..len], next.ep)]),
              Context(c.hop, c.hop.id, n.peers[0].id),
              r[SkipLength(size, |r|)..])
    else
      Outcome(n, Context(c.hop, t1.0, t2.0), r)
  }

  /** How much of the sub-message a forwarded ROUTE writes: header plus payload size, within the received bytes. */
  function ForwardLength(header: int, size: int, available: nat): (r: nat)
    ensures r <= available
    ensures 0 <= header + size <= available ==> r == header + size
  {
    if header + size < 0 then 0 else if header + size > available then available else header + size
  }

  /** How far `skip(size)` moves over the r unread bytes. */
  function SkipLength(size: int, available: nat): (r: nat)
    ensures r <= available
    ensures 0 <= size <= available ==> r == size
  {
    if size <= 0 then 0 else Min(size, available)
  }

  /**
   * BROADCAST: a broadcast id seen before changes nothing; a new one is
   * recorded, the sub-message is forwarded by the rule of `ForwardsTo`, and
   * the text is delivered as coming from the originator.
   */
  function OnBroadcast(n: Node, c: Context, whole: Bytes, rest: Bytes): (o: Outcome)
    requires Table(n.peers) && CtxOk(c) && |rest| <= |whole|
    ensures Keeps(n, o.node) && CtxOk(o.ctx) && |o.rest| <= |rest|
  {
    var t1 := TakeFixed(rest, Zero(IdSize));
    var t2 := TakeFixed(t1.1, Zero(BroadcastIdSize));
    var t3 := TakeStr(t2.1);
    var origin, bid, text, r := t1.0, t2.0, t3.0, t3.1;
    if bid in n.broadcastIds then Outcome(n, c, r)
    else
      var raw := whole[..|whole| - |r|];
      Outcome(n.(broadcastIds := n.broadcastIds + {bid},
                 outbox := n.outbox + Forwards(n.peers, c.hop.ep, n.peers[0].id, origin, raw, |n.peers|),
                 delivered := n.delivered + [Delivery(origin, text)]),
              c, r)
  }

  /**
   * MESSAGE: delivered as coming from the current source when bytes 15 and
   * 14 of the current destination equal those of the local id.
   */
  function OnMessage(n: Node, c: Context, rest: Bytes): (o: Outcome)
    requires Table(n.peers) && CtxOk(c)
    ensures Keeps(n, o.node) && CtxOk(o.ctx) && |o.rest| <= |rest|
  {
    var t := TakeStr(rest);
    var local := n.peers[0].id;
    if c.destination[IdSize - 1] == local[IdSize - 1] && c.destination[IdSize - 2] == local[IdSize - 2] then
      Outcome(n.(delivered := n.delivered + [Delivery(c.source, t.0)]), c, t.1)
    else
      Outcome(n, c, t.1)
  }

  /**
   * DISCONNECT from the hop itself: remove its id; if that removed an entry,
   * look up a replacement at the level the id occupied. From anyone else it
   * is logged as an invalid opcode.
   */
  function OnDisconnect(n: Node, c: Context, rest: Bytes): (o: Outcome)
    requires Table(n.peers) && CtxOk(c)
    ensures Keeps(n, o.node) && CtxOk(o.ctx) && o.rest == rest
  {
    if c.source != c.hop.id then Outcome(n.(log := n.log + [InvalidOpcode]), c, rest)
    else if !HasId(n.peers[1..], c.source) then Outcome(n, c, rest)
    else
      var peers := Removed(n.peers, c.source);
      RemovedProperties(n.peers, c.source);
      RemovedUnique(n.peers, c.source);
      DisconnectLevel(n.peers, c.source);
      var target := LookupTarget(peers[0].id, Level(peers[0].id, c.source));
      Outcome(n.(peers := peers,
                 log := n.log + [Disconnected(c.source)],
                 outbox := n.outbox + [LookupDatagram(peers, target)]),
              c, rest)
  }

  /**
   * An id removed from beyond the local entry of a table without duplicate
   * ids is not the local id, so its level is a bit position of a `PeerId`.
   */
  lemma DisconnectLevel(peers: seq<Peer>, id: Bytes)
    requires Table(peers) && HasId(peers[1..], id)
    ensures |id| == IdSize && 0 <= Level(peers[0].id, id) < 8 * IdSize
  {
    var i :| 0 <= i < |peers[1..]| && peers[1..][i].id == id;
    assert peers[i + 1].id == id;
    var local := peers[0].id;
    LevelMeaning(local, id);
    LevelBound(local, id);
  }

  /**
   * The `switch`: the case for a known opcode, the invalid-opcode log line
   * otherwise.  The ensures clauses name the cases whose handlers proofs
   * refer to, so that such a proof need not unfold the whole switch.
   */
  function Dispatch(n: Node, c: Context, op: Option<Opcode>, whole: Bytes, rest: Bytes): (o: Outcome)
    requires Table(n.peers) && CtxOk(c) && |rest| <= |whole|
    ensures Keeps(n, o.node) && CtxOk(o.ctx) && |o.rest| <= |rest|
    ensures op == Some(MESSAGE) ==> o == OnMessage(n, c, rest)
    ensures op == Some(BROADCAST) ==> o == OnBroadcast(n, c, whole, rest)
    ensures op == Some(DISCONNECT) ==> o == OnDisconnect(n, c, rest)
  {
    match op
    case None => Outcome(n.(log := n.log + [InvalidOpcode]), c, rest)
    case Some(NONE) => Outcome(n, c, rest)
    case Some(PING) => OnPing(n, c, rest)
    case Some(PONG) => Outcome(n, c, rest)
    case Some(HANDSHAKE) => OnHandshake(n, c, rest, true)
    case Some(HANDSHAKE_REPLY) => OnHandshake(n, c, rest, false)
    case Some(LOOKUP) => OnLookup(n, c, rest)
    case Some(LOOKUP_REPLY) => OnLookupReply(n, c, rest)
    case Some(ROUTE) => OnRoute(n, c, whole, rest)
    case Some(BROADCAST) => OnBroadcast(n, c, whole, rest)
    case Some(MESSAGE) => OnMessage(n, c, rest)
    case Some(DISCONNECT) => OnDisconnect(n, c, rest)
  }

  /** The loop variables after a sub-message other than ROUTE: the hop's id and the local id. */
  function Reset(c: Context, local: Bytes): Context
  {
    Context(c.hop, c.hop.id, local)
  }

  /**
   * One iteration of the decoding loop: read the opcode (missing bytes read
   * as zero), handle it, and reset the loop variables unless it was ROUTE.
   * At least one byte is consumed.
   */
  function Step(n: Node, c: Context, data: Bytes): (o: Outcome)
    requires Table(n.peers) && CtxOk(c) && |data| > 0
    ensures Keeps(n, o.node) && CtxOk(o.ctx) && |o.rest| < |data|
  {
    var t := TakeFixed(data, Zero(OpcodeSize));
    var op := OpcodeOf(ToNat(t.0));
    var o := Dispatch(n, c, op, data, t.1);
    if op == Some(ROUTE) then o else o.(ctx := Reset(o.ctx, n.peers[0].id))
  }

  /** `processPacket` from the given loop variables on: handle sub-messages until no byte is left. */
  function Process(n: Node, c: Context, data: Bytes): (r: Node)
    requires Table(n.peers) && CtxOk(c)
    ensures Keeps(n, r)
    decreases |data|
  {
    if |data| == 0 then n
    else
      var o := Step(n, c, data);
      Process(o.node, o.ctx, o.rest)
  }

  /** The hop a datagram from ep comes from: the table entry with that endpoint, or id 0. */
  function HopOf(peers: seq<Peer>, ep: Endpoint): (hop: Peer)
    ensures hop.ep == ep
    ensures HasEndpoint(peers, ep) ==> hop in peers
    ensures !HasEndpoint(peers, ep) ==> hop.id == Zero(IdSize)
  {
    if HasEndpoint(peers, ep) then GetByEndpoint(peers, ep) else Peer(Zero(IdSize), ep)
  }

  /** The loop variables `processPacket` starts with: source is the hop, destination the local id. */
  function Start(peers: seq<Peer>, ep: Endpoint): (c: Context)
    requires |peers| >= 1
    ensures c.hop.ep == ep && c.source == c.hop.id && c.destination == peers[0].id
    ensures WellFormed(peers) ==> CtxOk(c)
  {
    var hop := HopOf(peers, ep);
    Context(hop, hop.id, peers[0].id)
  }
}
