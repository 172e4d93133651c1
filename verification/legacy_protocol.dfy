/**
 * The earlier version of the peer protocol (`sock::PeerNetwork`) as
 * functions on values.  A node keeps its own entry apart from a cache of
 * known peers, remembers every broadcast it has seen together with its
 * text, and relays lookups hop by hop instead of wrapping them in ROUTE
 * messages.  Every sub-message starts with an opcode and the id of the peer
 * it speaks for; the datagram's sender is identified once, by its endpoint.
 */
module LegacyProtocol {
  import opened Blobs
  import opened Codec
  import opened Routing
  import Protocol
  import ProtocolLemmas
  import Network
  import Errors

  /** The opcodes of this version: no MESSAGE, so DISCONNECT is 9. */
  datatype Opcode = NONE | PING | PONG | HANDSHAKE | HANDSHAKE_REPLY | LOOKUP | LOOKUP_REPLY | ROUTE | BROADCAST | DISCONNECT

  /** The enumerator's integer: its position in the declaration, from 0. */
  function Code(op: Opcode): (r: nat)
    ensures r <= 9
  {
    match op
    case NONE => 0
    case PING => 1
    case PONG => 2
    case HANDSHAKE => 3
    case HANDSHAKE_REPLY => 4
    case LOOKUP => 5
    case LOOKUP_REPLY => 6
    case ROUTE => 7
    case BROADCAST => 8
    case DISCONNECT => 9
  }

  /** The enumerator with a decoded integer, if there is one. */
  function OpcodeOf(v: int): (r: Protocol.Option<Opcode>)
    ensures r.Some? <==> 0 <= v <= 9
    ensures r.Some? ==> Code(r.value) == v
  {
    if v == 0 then Protocol.Some(NONE)
    else if v == 1 then Protocol.Some(PING)
    else if v == 2 then Protocol.Some(PONG)
    else if v == 3 then Protocol.Some(HANDSHAKE)
    else if v == 4 then Protocol.Some(HANDSHAKE_REPLY)
    else if v == 5 then Protocol.Some(LOOKUP)
    else if v == 6 then Protocol.Some(LOOKUP_REPLY)
    else if v == 7 then Protocol.Some(ROUTE)
    else if v == 8 then Protocol.Some(BROADCAST)
    else if v == 9 then Protocol.Some(DISCONNECT)
    else Protocol.None
  }

  /** `add(opcode)`: the four host bytes of the enumerator's integer. */
  function OpBytes(op: Opcode): (r: Bytes)
    ensures |r| == Protocol.OpcodeSize
  {
    [Code(op) as bv8, 0, 0, 0]
  }

  /** Every enumerator selects its own case. */
  lemma CodeInverse(op: Opcode)
    ensures OpcodeOf(Code(op)) == Protocol.Some(op)
  {
    match op
    case NONE =>
    case PING =>
    case PONG =>
    case HANDSHAKE =>
    case HANDSHAKE_REPLY =>
    case LOOKUP =>
    case LOOKUP_REPLY =>
    case ROUTE =>
    case BROADCAST =>
    case DISCONNECT =>
  }

  /** An opcode written with `add` is read back by `get<Opcode>` and selects its own case. */
  lemma OpcodeDecodes(op: Opcode, rest: Bytes)
    ensures TakeFixed(OpBytes(op) + rest, Zero(Protocol.OpcodeSize)) == (OpBytes(op), rest)
    ensures OpcodeOf(ToNat(OpBytes(op))) == Protocol.Some(op)
  {
    var b := OpBytes(op);
    ProtocolLemmas.ReadsFixed(b, rest);
    assert ToNat(b) == Code(op) by {
      assert b[1..] == Zero(3);
      ZeroValue(3);
      ByteOf(Code(op));
    }
    CodeInverse(op);
  }

  // ---------------------------------------------------------------------
  // Node state
  // ---------------------------------------------------------------------

  /** The log lines that are not debug output: a peer cached, a peer gone, an error. */
  datatype LogEntry = PeerAdded(id: Bytes) | PeerLeft(id: Bytes) | Failed(error: Errors.Error)

  /** `onError(Error("invalid route"))` and `onError(Error("invalid opcode"))`. */
  const InvalidRoute: Errors.Error := Errors.FromMessage("invalid route")
  const InvalidOpcode: Errors.Error := Errors.FromMessage("invalid opcode")

  /**
   * The node: its own entry, the peer cache, the broadcasts seen with their
   * texts, and what it has written, delivered and logged.
   */
  datatype Node = Node(
    local: Peer,
    cache: seq<Peer>,
    broadcasts: map<Bytes, Bytes>,
    outbox: seq<Protocol.Datagram>,
    delivered: seq<Protocol.Delivery>,
    log: seq<LogEntry>)

  /** What is fixed for a whole datagram: the sender's endpoint and the id found for it. */
  datatype Context = Context(hopEp: Endpoint, hopId: Bytes)

  /** The outcome of one sub-message: the new state and the bytes left unread. */
  datatype Outcome = Outcome(node: Node, rest: Bytes)

  /** A node as the source keeps it: `PeerId`s only, and no id cached twice. */
  predicate Ok(n: Node)
  {
    |n.local.id| == IdSize && WellFormed(n.cache) && UniqueIds(n.cache)
  }

  /** What handling never undoes: the output only grows and a broadcast once seen keeps its text. */
  predicate Grows(a: Node, b: Node)
  {
    a.outbox <= b.outbox && a.delivered <= b.delivered && a.log <= b.log &&
    forall k | k in a.broadcasts :: k in b.broadcasts && b.broadcasts[k] == a.broadcasts[k]
  }

  /** What handling keeps: a well-formed node with the same own entry. */
  predicate Keeps(a: Node, b: Node)
  {
    Ok(b) && b.local == a.local && Grows(a, b)
  }

  // ---------------------------------------------------------------------
  // getNextPeer
  // ---------------------------------------------------------------------

  /**
   * The running minimum of `getNextPeer` after the first n cache entries:
   * -1 while the local peer is still the best, -2 while the local peer is
   * the excluded id and no candidate was seen, else the index of the best
   * entry.  With -2 the first candidate is taken whatever its distance.
   */
  function ScanUpTo(local: Bytes, cache: seq<Peer>, t: Bytes, except: Bytes, n: nat): (m: int)
    requires n <= |cache| && WellFormed(cache) && |local| == IdSize && |t| == IdSize
    ensures -2 <= m < n
    ensures m >= 0 ==> cache[m].id != except
    ensures m == -2 ==> local == except
    ensures m == -1 ==> local != except
  {
    if n == 0 then (if local == except then -2 else -1)
    else
      var m := ScanUpTo(local, cache, t, except, n - 1);
      var best := if m >= 0 then Xor(cache[m].id, t) else Xor(local, t);
      if cache[n - 1].id != except && (Less(Xor(cache[n - 1].id, t), best) || m == -2) then n - 1 else m
  }

  /** The loop state of `getNextPeer` after i entries: the running minimum's index and its distance. */
  ghost predicate Scanned(local: Bytes, cache: seq<Peer>, t: Bytes, except: Bytes, i: nat, index: int, distance: Bytes)
    requires i <= |cache| && WellFormed(cache) && |local| == IdSize && |t| == IdSize
  {
    index == ScanUpTo(local, cache, t, except, i) &&
    distance == if index >= 0 then Xor(cache[index].id, t) else Xor(local, t)
  }

  /** One more entry of the scan: it is taken when it is a candidate nearer than the best so far, or the first candidate. */
  lemma ScanStep(local: Bytes, cache: seq<Peer>, t: Bytes, except: Bytes, i: nat, index: int, distance: Bytes, index': int, distance': Bytes)
    requires i < |cache| && WellFormed(cache) && |local| == IdSize && |t| == IdSize
    requires Scanned(local, cache, t, except, i, index, distance)
    requires var take := cache[i].id != except && (Less(Xor(cache[i].id, t), distance) || index == -2);
      index' == (if take then i else index) && distance' == (if take then Xor(cache[i].id, t) else distance)
    ensures Scanned(local, cache, t, except, i + 1, index', distance')
  {
  }

  /** `getNextPeer(t, except)`: the entry the scan ends on, or the local peer. */
  function NextHop(local: Peer, cache: seq<Peer>, t: Bytes, except: Bytes): (p: Peer)
    requires |local.id| == IdSize && WellFormed(cache) && |t| == IdSize
    ensures p == local || p in cache
    ensures |p.id| == IdSize
  {
    var m := ScanUpTo(local.id, cache, t, except, |cache|);
    if m < 0 then local else cache[m]
  }

  /** Entry k is a nearest entry to t other than `except`, strictly nearer than every earlier one. */
  predicate Closest(cache: seq<Peer>, t: Bytes, except: Bytes, k: int)
    requires WellFormed(cache) && |t| == IdSize
  {
    0 <= k < |cache| && cache[k].id != except &&
    (forall j | 0 <= j < |cache| && cache[j].id != except :: Distance(cache[k].id, t) <= Distance(cache[j].id, t)) &&
    (forall j | 0 <= j < k && cache[j].id != except :: Distance(cache[k].id, t) < Distance(cache[j].id, t))
  }

  /**
   * What the scan computes over the first n entries: with the local id
   * allowed, nothing is chosen iff no candidate is strictly nearer than the
   * local peer; with the local id excluded, nothing is chosen iff every
   * entry is excluded; a chosen entry is a first nearest candidate.
   */
  lemma {:induction false} ScanMinimal(local: Bytes, cache: seq<Peer>, t: Bytes, except: Bytes, n: nat)
    requires n <= |cache| && WellFormed(cache) && |local| == IdSize && |t| == IdSize
    ensures var m := ScanUpTo(local, cache, t, except, n);
      (local != except ==>
        (m == -1 <==> forall j | 0 <= j < n && cache[j].id != except :: Distance(local, t) <= Distance(cache[j].id, t)) &&
        (m >= 0 ==> Distance(cache[m].id, t) < Distance(local, t))) &&
      (local == except ==> (m == -2 <==> forall j | 0 <= j < n :: cache[j].id == except)) &&
      (m >= 0 ==> forall j | 0 <= j < n && cache[j].id != except :: Distance(cache[m].id, t) <= Distance(cache[j].id, t)) &&
      (m >= 0 ==> forall j | 0 <= j < m && cache[j].id != except :: Distance(cache[m].id, t) < Distance(cache[j].id, t))
  {
    if local == except {
      ScanExcluding(local, cache, t, n);
    } else {
      ScanAllowing(local, cache, t, except, n);
    }
  }

  /** Entry m is a nearest of the first n entries other than `except`, strictly nearer than every earlier one. */
  predicate NearestUpTo(cache: seq<Peer>, t: Bytes, except: Bytes, m: nat, n: nat)
    requires m < n <= |cache| && WellFormed(cache) && |t| == IdSize
  {
    (forall j | 0 <= j < n && cache[j].id != except :: Distance(cache[m].id, t) <= Distance(cache[j].id, t)) &&
    (forall j | 0 <= j < m && cache[j].id != except :: Distance(cache[m].id, t) < Distance(cache[j].id, t))
  }

  /** ScanMinimal with the local id allowed. */
  lemma {:induction false} ScanAllowing(local: Bytes, cache: seq<Peer>, t: Bytes, except: Bytes, n: nat)
    requires n <= |cache| && WellFormed(cache) && |local| == IdSize && |t| == IdSize && local != except
    ensures var m := ScanUpTo(local, cache, t, except, n);
      (m == -1 <==> forall j | 0 <= j < n && cache[j].id != except :: Distance(local, t) <= Distance(cache[j].id, t)) &&
      (m >= 0 ==> Distance(cache[m].id, t) < Distance(local, t) && NearestUpTo(cache, t, except, m, n))
  {
    if n > 0 {
      ScanAllowing(local, cache, t, except, n - 1);
      var m, m' := ScanUpTo(local, cache, t, except, n - 1), ScanUpTo(local, cache, t, except, n);
      var c := cache[n - 1];
      if c.id == except {
        assert m' == m;
        if m >= 0 {
          NearestKept(cache, t, except, m, n);
        }
      } else if m >= 0 {
        LessIsNumeric(Xor(c.id, t), Xor(cache[m].id, t));
        if m' == n - 1 {
          NearestNew(cache, t, except, n, Distance(cache[m].id, t));
        } else {
          NearestKept(cache, t, except, m, n);
        }
      } else {
        LessIsNumeric(Xor(c.id, t), Xor(local, t));
        if m' == n - 1 {
          NearestNew(cache, t, except, n, Distance(local, t));
        } else {
          assert m' == -1 && Distance(local, t) <= Distance(c.id, t);
        }
      }
    }
  }

  /** A nearest entry of the first n - 1 stays one when entry n - 1 is excluded or no nearer. */
  lemma NearestKept(cache: seq<Peer>, t: Bytes, except: Bytes, m: nat, n: nat)
    requires m < n - 1 && n <= |cache| && WellFormed(cache) && |t| == IdSize
    requires NearestUpTo(cache, t, except, m, n - 1)
    requires cache[n - 1].id == except || Distance(cache[m].id, t) <= Distance(cache[n - 1].id, t)
    ensures NearestUpTo(cache, t, except, m, n)
  {
  }

  /** Entry n - 1 is the nearest of the first n when it is nearer than a bound on all earlier candidates. */
  lemma NearestNew(cache: seq<Peer>, t: Bytes, except: Bytes, n: nat, bound: nat)
    requires 0 < n <= |cache| && WellFormed(cache) && |t| == IdSize && cache[n - 1].id != except
    requires Distance(cache[n - 1].id, t) < bound
    requires forall j | 0 <= j < n - 1 && cache[j].id != except :: bound <= Distance(cache[j].id, t)
    ensures NearestUpTo(cache, t, except, n - 1, n)
  {
  }

  /** ScanMinimal with the local id excluded. */
  lemma {:induction false} ScanExcluding(local: Bytes, cache: seq<Peer>, t: Bytes, n: nat)
    requires n <= |cache| && WellFormed(cache) && |local| == IdSize && |t| == IdSize
    ensures var m := ScanUpTo(local, cache, t, local, n);
      (m == -2 <==> forall j | 0 <= j < n :: cache[j].id == local) &&
      (m >= 0 ==> NearestUpTo(cache, t, local, m, n))
  {
    if n > 0 {
      ScanExcluding(local, cache, t, n - 1);
      var m, m' := ScanUpTo(local, cache, t, local, n - 1), ScanUpTo(local, cache, t, local, n);
      var c := cache[n - 1];
      if c.id == local {
        assert m' == m;
        if m >= 0 {
          NearestKept(cache, t, local, m, n);
        }
      } else if m >= 0 {
        LessIsNumeric(Xor(c.id, t), Xor(cache[m].id, t));
        if m' == n - 1 {
          NearestNew(cache, t, local, n, Distance(cache[m].id, t));
        } else {
          NearestKept(cache, t, local, m, n);
        }
      } else {
        assert m' == n - 1;
        NearestNew(cache, t, local, n, Distance(c.id, t) + 1);
      }
    }
  }

  /**
   * `getNextPeer` when the local id is not excluded: the local peer unless
   * some cached entry other than `except` is strictly nearer; then the first
   * nearest such entry.
   */
  lemma NextHopAllowingLocal(local: Peer, cache: seq<Peer>, t: Bytes, except: Bytes)
    requires |local.id| == IdSize && WellFormed(cache) && |t| == IdSize && local.id != except
    ensures var p := NextHop(local, cache, t, except);
      (p == local <==> forall j | 0 <= j < |cache| && cache[j].id != except :: Distance(local.id, t) <= Distance(cache[j].id, t)) &&
      (p != local ==> Distance(p.id, t) < Distance(local.id, t) &&
                      exists k | 0 <= k < |cache| :: p == cache[k] && Closest(cache, t, except, k))
  {
    ScanMinimal(local.id, cache, t, except, |cache|);
  }

  /**
   * `getNextPeer` when the local id is the excluded one: the first nearest
   * cached entry with another id, and the local peer only when there is none.
   */
  lemma NextHopExcludingLocal(local: Peer, cache: seq<Peer>, t: Bytes)
    requires |local.id| == IdSize && WellFormed(cache) && |t| == IdSize
    ensures var p := NextHop(local, cache, t, local.id);
      (p == local <==> forall j | 0 <= j < |cache| :: cache[j].id == local.id) &&
      (p != local ==> exists k | 0 <= k < |cache| :: p == cache[k] && Closest(cache, t, local.id, k))
  {
    ScanMinimal(local.id, cache, t, local.id, |cache|);
  }

  // ---------------------------------------------------------------------
  // Messages the node builds
  // ---------------------------------------------------------------------

  /** A message with no field besides the sender's id: PONG, HANDSHAKE, HANDSHAKE_REPLY, DISCONNECT. */
  function Bare(op: Opcode, id: Bytes): Bytes
  {
    OpBytes(op) + id
  }

  /** A LOOKUP: sender, target, and the id of the first hop, to which the reply is relayed. */
  function LookupMessage(from: Bytes, target: Bytes, relay: Bytes): Bytes
  {
    OpBytes(LOOKUP) + from + target + relay
  }

  /** The LOOKUP written by the node itself: towards the nearest cached peer, naming it as relay. */
  function LookupFor(local: Peer, cache: seq<Peer>, target: Bytes): Protocol.Datagram
    requires |local.id| == IdSize && WellFormed(cache) && |target| == IdSize
  {
    var hop := NextHop(local, cache, target, local.id);
    Protocol.Datagram(LookupMessage(local.id, target, hop.id), hop.ep)
  }

  /** A LOOKUP_REPLY: the answering peer, the asker, the relay, then the answering peer's port and address. */
  function ReplyMessage(p: Peer, dest: Bytes, relay: Bytes): Bytes
  {
    OpBytes(LOOKUP_REPLY) + p.id + dest + relay + HostInt(p.ep.port, Protocol.PortSize) + p.ep.address + [0]
  }

  /** A ROUTE: sender, destination, text. */
  function RouteMessage(from: Bytes, dest: Bytes, text: Bytes): Bytes
  {
    OpBytes(ROUTE) + from + dest + text + [0]
  }

  /** A BROADCAST: originator, one-time id, text. */
  function BroadcastMessage(origin: Bytes, bid: Bytes, text: Bytes): Bytes
  {
    OpBytes(BROADCAST) + origin + bid + text + [0]
  }

  /** The same data to each of the first n cached peers, in cache order. */
  function ToEvery(ps: seq<Peer>, data: Bytes, n: nat): (r: seq<Protocol.Datagram>)
    requires n <= |ps|
    ensures |r| == n
  {
    if n == 0 then [] else ToEvery(ps, data, n - 1) + [Protocol.Datagram(data, ps[n - 1].ep)]
  }

  /** The i-th datagram goes to the i-th cached peer. */
  lemma {:induction false} ToEveryReach(ps: seq<Peer>, data: Bytes, n: nat)
    requires n <= |ps|
    ensures forall i | 0 <= i < n :: ToEvery(ps, data, n)[i] == Protocol.Datagram(data, ps[i].ep)
  {
    if n > 0 {
      ToEveryReach(ps, data, n - 1);
    }
  }

  /** `disconnect`: a DISCONNECT to every cached peer. */
  function Farewell(n: Node): Node
  {
    n.(outbox := n.outbox + ToEvery(n.cache, Bare(DISCONNECT, n.local.id), |n.cache|))
  }

  /** `broadcast(msg)`: the one-time id is recorded with the text and the BROADCAST written to every cached peer. */
  function Broadcasted(n: Node, bid: Bytes, text: Bytes): Node
  {
    n.(broadcasts := n.broadcasts[bid := text],
       outbox := n.outbox + ToEvery(n.cache, BroadcastMessage(n.local.id, bid, text), |n.cache|))
  }

  // ---------------------------------------------------------------------
  // One sub-message, case by case
  // ---------------------------------------------------------------------

  /** PING: answer PONG to the sender's endpoint. */
  function OnPing(n: Node, c: Context, rest: Bytes): (o: Outcome)
    requires Ok(n)
    ensures Keeps(n, o.node) && o.rest == rest
  {
    Outcome(n.(outbox := n.outbox + [Protocol.Datagram(Bare(PONG, n.local.id), c.hopEp)]), rest)
  }

  /**
   * HANDSHAKE and HANDSHAKE_REPLY: `addToCache` the source with the
   * sender's endpoint; a HANDSHAKE is answered with HANDSHAKE_REPLY.
   */
  function OnHandshake(n: Node, c: Context, source: Bytes, rest: Bytes, reply: bool): (o: Outcome)
    requires Ok(n) && |source| == IdSize
    ensures Keeps(n, o.node) && o.rest == rest
  {
    AddedProperties(n.cache, source, c.hopEp, c.hopEp);
    Outcome(n.(cache := Added(n.cache, source, c.hopEp),
               log := if HasId(n.cache, source) then n.log else n.log + [PeerAdded(source)],
               outbox := if reply then n.outbox + [Protocol.Datagram(Bare(HANDSHAKE_REPLY, n.local.id), c.hopEp)]
                         else n.outbox),
            rest)
  }

  /**
   * LOOKUP: when no peer but the local one is nearer the target (the sender
   * excluded), answer with a LOOKUP_REPLY towards the relay; otherwise pass
   * the sub-message on unchanged to the nearer peer.
   */
  function OnLookup(n: Node, c: Context, source: Bytes, whole: Bytes, rest: Bytes): (o: Outcome)
    requires Ok(n) && |rest| <= |whole|
    ensures Keeps(n, o.node) && |o.rest| <= |rest|
  {
    var t1 := TakeFixed(rest, Zero(IdSize));
    var t2 := TakeFixed(t1.1, Zero(IdSize));
    Outcome(LookupAnswered(n, c, source, t1.0, t2.0, whole[..|whole| - |t2.1|]), t2.1)
  }

  /** A LOOKUP for `target` with relay `relay`, whose bytes on the wire were `raw`. */
  function LookupAnswered(n: Node, c: Context, source: Bytes, target: Bytes, relay: Bytes, raw: Bytes): (m: Node)
    requires Ok(n) && |target| == IdSize && |relay| == IdSize
    ensures Keeps(n, m)
  {
    var next := NextHop(n.local, n.cache, target, c.hopId);
    if next.id == n.local.id then
      var back := NextHop(n.local, n.cache, relay, n.local.id);
      n.(outbox := n.outbox + [Protocol.Datagram(ReplyMessage(n.local, source, relay), back.ep)])
    else
      n.(outbox := n.outbox + [Protocol.Datagram(raw, next.ep)])
  }

  /**
   * LOOKUP_REPLY: addressed to the local id, an unknown source other than
   * the local peer is cached with the announced endpoint and sent a
   * HANDSHAKE there; addressed elsewhere, the sub-message is passed on
   * towards the relay, or towards the destination once the relay is passed.
   */
  function OnLookupReply(n: Node, c: Context, source: Bytes, whole: Bytes, rest: Bytes): (o: Outcome)
    requires Ok(n) && |source| == IdSize && |rest| <= |whole|
    ensures Keeps(n, o.node) && |o.rest| <= |rest|
  {
    var t1 := TakeFixed(rest, Zero(IdSize));
    var t2 := TakeFixed(t1.1, Zero(IdSize));
    OnReplyTail(n, c, source, whole, t1.0, t2.0, t2.1)
  }

  /** The rest of a LOOKUP_REPLY once its destination and relay are read: the port and the address. */
  function OnReplyTail(n: Node, c: Context, source: Bytes, whole: Bytes, dest: Bytes, relay: Bytes, rest: Bytes): (o: Outcome)
    requires Ok(n) && |source| == IdSize && |dest| == IdSize && |relay| == IdSize && |rest| <= |whole|
    ensures Keeps(n, o.node) && |o.rest| <= |rest|
  {
    var t3 := TakeFixed(rest, Zero(Protocol.PortSize));
    var t4 := TakeStr(t3.1);
    Outcome(LookupReplied(n, c, source, dest, relay, Endpoint(t4.0, ToNat(t3.0)), whole[..|whole| - |t4.1|]), t4.1)
  }

  /** What a LOOKUP_REPLY for `dest`, relayed through `relay` and naming the answering peer's endpoint `ep`, does to the node; `raw` is the sub-message. */
  function LookupReplied(n: Node, c: Context, source: Bytes, dest: Bytes, relay: Bytes, ep: Endpoint, raw: Bytes): (m: Node)
    requires Ok(n) && |source| == IdSize && |dest| == IdSize && |relay| == IdSize
    ensures Keeps(n, m)
  {
    if dest == n.local.id then
      if source != n.local.id && !HasId(n.cache, source) then
        AddedProperties(n.cache, source, ep, ep);
        n.(cache := Added(n.cache, source, ep),
           log := n.log + [PeerAdded(source)],
           outbox := n.outbox + [Protocol.Datagram(Bare(HANDSHAKE, n.local.id), ep)])
      else n
    else
      var next := NextHop(n.local, n.cache, relay, c.hopId);
      var to := if next.id == n.local.id then NextHop(n.local, n.cache, dest, n.local.id).ep else next.ep;
      n.(outbox := n.outbox + [Protocol.Datagram(raw, to)])
  }

  /**
   * ROUTE: passed on unchanged to a nearer peer (the sender excluded);
   * otherwise delivered when addressed to the local id, and reported as an
   * invalid route when not.
   */
  function OnRoute(n: Node, c: Context, source: Bytes, whole: Bytes, rest: Bytes): (o: Outcome)
    requires Ok(n) && |rest| <= |whole|
    ensures Keeps(n, o.node) && |o.rest| <= |rest|
  {
    var t1 := TakeFixed(rest, Zero(IdSize));
    var t2 := TakeStr(t1.1);
    Outcome(Routed(n, c, source, t1.0, t2.0, whole[..|whole| - |t2.1|]), t2.1)
  }

  /** A ROUTE to `dest` carrying `text`, whose bytes on the wire were `raw`. */
  function Routed(n: Node, c: Context, source: Bytes, dest: Bytes, text: Bytes, raw: Bytes): (m: Node)
    requires Ok(n) && |dest| == IdSize
    ensures Keeps(n, m)
  {
    var next := NextHop(n.local, n.cache, dest, c.hopId);
    if next.id != n.local.id then
      n.(outbox := n.outbox + [Protocol.Datagram(raw, next.ep)])
    else if dest == n.local.id then
      n.(delivered := n.delivered + [Protocol.Delivery(source, text)])
    else
      n.(log := n.log + [Failed(InvalidRoute)])
  }

  /**
   * BROADCAST: a one-time id seen before changes nothing; a new one is
   * recorded with its text, the sub-message goes to every cached peer (the
   * sender included) and the text is delivered.
   */
  function OnBroadcast(n: Node, source: Bytes, whole: Bytes, rest: Bytes): (o: Outcome)
    requires Ok(n) && |rest| <= |whole|
    ensures Keeps(n, o.node) && |o.rest| <= |rest|
  {
    var t1 := TakeFixed(rest, Zero(IdSize));
    var t2 := TakeStr(t1.1);
    Outcome(BroadcastReceived(n, source, t1.0, t2.0, whole[..|whole| - |t2.1|]), t2.1)
  }

  /** A BROADCAST with one-time id `bid` carrying `text`, whose bytes on the wire were `raw`. */
  function BroadcastReceived(n: Node, source: Bytes, bid: Bytes, text: Bytes, raw: Bytes): (m: Node)
    requires Ok(n)
    ensures Keeps(n, m)
  {
    if bid in n.broadcasts then n
    else
      n.(broadcasts := n.broadcasts[bid := text],
         outbox := n.outbox + ToEvery(n.cache, raw, |n.cache|),
         delivered := n.delivered + [Protocol.Delivery(source, text)])
  }

  /** One log line per cache entry removed. */
  function Departures(id: Bytes, k: nat): (r: seq<LogEntry>)
    ensures |r| == k
  {
    seq(k, _ => PeerLeft(id))
  }

  /**
   * The LOOKUP that refills the slot of a departed id: the local id with the
   * departed id's highest differing bit flipped.  For the local id itself
   * the shift count is -1, which the model takes to give zero.
   */
  function RefillTarget(local: Bytes, id: Bytes): (t: Bytes)
    requires |local| == IdSize && |id| == IdSize
    ensures |t| == IdSize
  {
    var level := Level(local, id);
    if level >= 0 then LookupTarget(local, level) else local
  }

  /**
   * DISCONNECT: every cache entry with the source's id is removed, one log
   * line each; if any was, a LOOKUP refills the source's level.
   */
  function OnDisconnect(n: Node, source: Bytes, rest: Bytes): (o: Outcome)
    requires Ok(n) && |source| == IdSize
    ensures Keeps(n, o.node) && o.rest == rest
  {
    var cache := Kept(n.cache, source, |n.cache|);
    var gone := |n.cache| - |cache|;
    if gone == 0 then Outcome(n, rest)
    else
      KeptFrom(n.cache, source, |n.cache|);
      KeptUnique(n.cache, source, |n.cache|);
      Outcome(n.(cache := cache,
                 log := n.log + Departures(source, gone),
                 outbox := n.outbox + [LookupFor(n.local, cache, RefillTarget(n.local.id, source))]),
              rest)
  }

  /**
   * The `switch` on a known opcode; NONE has no case and falls to the
   * default.  The ensures clauses name each case's handler, so that a proof
   * about one opcode need not unfold the whole switch.
   */
  function Dispatch(n: Node, c: Context, op: Opcode, source: Bytes, whole: Bytes, rest: Bytes): (o: Outcome)
    requires Ok(n) && |source| == IdSize && |rest| <= |whole|
    ensures Keeps(n, o.node) && |o.rest| <= |rest|
    ensures op == PING ==> o == OnPing(n, c, rest)
    ensures op == HANDSHAKE ==> o == OnHandshake(n, c, source, rest, true)
    ensures op == HANDSHAKE_REPLY ==> o == OnHandshake(n, c, source, rest, false)
    ensures op == LOOKUP ==> o == OnLookup(n, c, source, whole, rest)
    ensures op == LOOKUP_REPLY ==> o == OnLookupReply(n, c, source, whole, rest)
    ensures op == ROUTE ==> o == OnRoute(n, c, source, whole, rest)
    ensures op == BROADCAST ==> o == OnBroadcast(n, source, whole, rest)
    ensures op == DISCONNECT ==> o == OnDisconnect(n, source, rest)
  {
    match op
    case NONE => Outcome(n.(log := n.log + [Failed(InvalidOpcode)]), rest)
    case PING => OnPing(n, c, rest)
    case PONG => Outcome(n, rest)
    case HANDSHAKE => OnHandshake(n, c, source, rest, true)
    case HANDSHAKE_REPLY => OnHandshake(n, c, source, rest, false)
    case LOOKUP => OnLookup(n, c, source, whole, rest)
    case LOOKUP_REPLY => OnLookupReply(n, c, source, whole, rest)
    case ROUTE => OnRoute(n, c, source, whole, rest)
    case BROADCAST => OnBroadcast(n, source, whole, rest)
    case DISCONNECT => OnDisconnect(n, source, rest)
  }

  /**
   * One iteration of the decoding loop: read the opcode and the source id
   * (missing bytes read as zero), then run the opcode's case, or log an
   * invalid opcode.  At least one byte is consumed.
   */
  function Step(n: Node, c: Context, data: Bytes): (o: Outcome)
    requires Ok(n) && |data| > 0
    ensures Keeps(n, o.node) && |o.rest| < |data|
  {
    var t0 := TakeFixed(data, Zero(Protocol.OpcodeSize));
    var t1 := TakeFixed(t0.1, Zero(IdSize));
    var op := OpcodeOf(ToNat(t0.0));
    if op.Some? then Dispatch(n, c, op.value, t1.0, data, t1.1)
    else Outcome(n.(log := n.log + [Failed(InvalidOpcode)]), t1.1)
  }

  /** The decoding loop of `process`: handle sub-messages until no byte is left. */
  function Process(n: Node, c: Context, data: Bytes): (r: Node)
    requires Ok(n)
    ensures Keeps(n, r)
    decreases |data|
  {
    if |data| == 0 then n
    else
      var o := Step(n, c, data);
      Process(o.node, c, o.rest)
  }

  /** The sender's id: that of the first cached peer with its endpoint, or zero. */
  function HopId(cache: seq<Peer>, ep: Endpoint): (id: Bytes)
    ensures |id| == IdSize || HasEndpoint(cache, ep)
    ensures HasEndpoint(cache, ep) ==>
      exists k | 0 <= k < |cache| :: cache[k].ep == ep && id == cache[k].id && forall j | 0 <= j < k :: cache[j].ep != ep
    ensures !HasEndpoint(cache, ep) ==> id == Zero(IdSize)
  {
    if HasEndpoint(cache, ep) then GetByEndpoint(cache, ep).id else Zero(IdSize)
  }

  /** `process`: a timeout is ignored, another error reported, a datagram decoded from its sender. */
  function Receive(n: Node, r: Network.ReadResult): (m: Node)
    requires Ok(n)
    ensures Keeps(n, m)
    ensures r.ReadError? && Errors.Is(r.error, Errors.TIMEOUT) ==> m == n
    ensures r.ReadError? && !Errors.Is(r.error, Errors.TIMEOUT) ==> m == n.(log := n.log + [Failed(r.error)])
  {
    match r
    case ReadError(e) => if Errors.Is(e, Errors.TIMEOUT) then n else n.(log := n.log + [Failed(e)])
    case Received(data, from) => Process(n, Context(from, HopId(n.cache, from)), data)
  }

  // ---------------------------------------------------------------------
  // run
  // ---------------------------------------------------------------------

  /** The HANDSHAKE written to an entry node. */
  function Hello(n: Node, ep: Endpoint): Protocol.Datagram
  {
    Protocol.Datagram(Bare(HANDSHAKE, n.local.id), ep)
  }

  /**
   * The entry-node loop of `run` from the i-th entry on: an entry other
   * than the local endpoint gets a HANDSHAKE and the i-th read follows; the
   * loop stops once the cache is not empty.
   */
  function Connect(n: Node, entries: seq<Endpoint>, replies: seq<Network.ReadResult>, i: nat): (m: Node)
    requires Ok(n) && i <= |entries| == |replies|
    ensures Keeps(n, m)
    decreases |entries| - i
  {
    if i == |entries| then n
    else if entries[i] == n.local.ep then Connect(n, entries, replies, i + 1)
    else
      var m := Receive(n.(outbox := n.outbox + [Hello(n, entries[i])]), replies[i]);
      if |m.cache| > 0 then m else Connect(m, entries, replies, i + 1)
  }

  /** The join lookups of `run` for levels 0 to k-1, in that order. */
  function JoinLookups(local: Peer, cache: seq<Peer>, k: nat): (r: seq<Protocol.Datagram>)
    requires |local.id| == IdSize && WellFormed(cache)
    ensures |r| == k
  {
    if k == 0 then [] else JoinLookups(local, cache, k - 1) + [LookupFor(local, cache, LookupTarget(local.id, k - 1))]
  }

  /** The i-th join lookup asks for the local id with bit i flipped, a target at level i. */
  lemma JoinLookupsCover(local: Peer, cache: seq<Peer>, k: nat)
    requires |local.id| == IdSize && WellFormed(cache) && k <= 8 * IdSize
    ensures forall i | 0 <= i < k ::
      JoinLookups(local, cache, k)[i] == LookupFor(local, cache, LookupTarget(local.id, i)) &&
      Level(local.id, LookupTarget(local.id, i)) == i
  {
    forall i | 0 <= i < k
      ensures JoinLookups(local, cache, k)[i] == LookupFor(local, cache, LookupTarget(local.id, i))
      ensures Level(local.id, LookupTarget(local.id, i)) == i
    {
      JoinLookupAt(local, cache, k, i);
      LevelOfLookupTarget(local.id, i);
    }
  }

  /** Entry i of the first k join lookups is the lookup for target i. */
  lemma {:induction false} JoinLookupAt(local: Peer, cache: seq<Peer>, k: nat, i: nat)
    requires |local.id| == IdSize && WellFormed(cache) && i < k <= 8 * IdSize
    ensures JoinLookups(local, cache, k)[i] == LookupFor(local, cache, LookupTarget(local.id, i))
  {
    var prev := JoinLookups(local, cache, k - 1);
    var last := LookupFor(local, cache, LookupTarget(local.id, k - 1));
    assert JoinLookups(local, cache, k) == prev + [last];
    if i < k - 1 {
      JoinLookupAt(local, cache, k - 1, i);
      assert (prev + [last])[i] == prev[i];
    }
  }

  /** `run` up to the event loop: the entry nodes are tried, then the join lookups go out if any peer answered. */
  function Joined(n: Node, entries: seq<Endpoint>, replies: seq<Network.ReadResult>): (m: Node)
    requires Ok(n) && |entries| == |replies|
    ensures Keeps(n, m)
  {
    var m := Connect(n, entries, replies, 0);
    if |m.cache| > 0 then m.(outbox := m.outbox + JoinLookups(m.local, m.cache, 8 * IdSize)) else m
  }

  /** The event loop: each read handled by `process`, in order. */
  function Serve(n: Node, events: seq<Network.ReadResult>): (m: Node)
    requires Ok(n)
    ensures Keeps(n, m)
    decreases |events|
  {
    if events == [] then n else Serve(Receive(n, events[0]), events[1..])
  }
}
