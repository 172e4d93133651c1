/**
 * The `PeerNetwork` object of the current protocol: a routing table, the
 * broadcast ids seen, the entry nodes to join through, and what the node
 * has written, delivered and logged.  Each method updates these fields in
 * place and is proved to do what the functions of `Protocol` describe.
 */
module Network {
  import opened Blobs
  import opened Codec
  import opened Routing
  import opened Protocol
  import opened ProtocolLemmas
  import Errors

  /** What `socket.readAll` hands back: a datagram and its sender, or an error. */
  datatype ReadResult = Received(data: Bytes, from: Endpoint) | ReadError(error: Errors.Error)

  /** `readPacket`: a timeout is ignored, another error logged, a datagram processed from its sender. */
  function AfterRead(n: Node, r: ReadResult): (m: Node)
    requires Table(n.peers)
    ensures Keeps(n, m)
    ensures r.ReadError? && Errors.Is(r.error, Errors.TIMEOUT) ==> m == n
    ensures r.ReadError? && !Errors.Is(r.error, Errors.TIMEOUT) ==> m == n.(log := n.log + [Failed(r.error)])
  {
    match r
    case ReadError(e) => if Errors.Is(e, Errors.TIMEOUT) then n else n.(log := n.log + [Failed(e)])
    case Received(data, from) => Process(n, Start(n.peers, from), data)
  }

  /** The HANDSHAKE a joining node writes to an entry node. */
  function Hello(n: Node, ep: Endpoint): Datagram
    requires Table(n.peers)
  {
    Datagram(OpBytes(HANDSHAKE) + n.peers[0].id, ep)
  }

  /** The entry-node order is a permutation of the entry indexes. */
  predicate Shuffle(order: seq<nat>, count: nat)
  {
    |order| == count &&
    (forall k | 0 <= k < |order| :: order[k] < count) &&
    (forall k, l | 0 <= k < l < |order| :: order[k] != order[l])
  }

  /**
   * The attempts of `join` from the i-th on: the entry node `order[i]`, unless
   * it is the local endpoint, gets a HANDSHAKE and the i-th read follows;
   * the attempts stop as soon as the table holds a peer besides the local one.
   */
  function Attempts(n: Node, entries: seq<Endpoint>, order: seq<nat>, replies: seq<ReadResult>, i: nat): (m: Node)
    requires Table(n.peers) && i <= |order| == |replies|
    requires forall k | 0 <= k < |order| :: order[k] < |entries|
    ensures Keeps(n, m)
    decreases |order| - i
  {
    if i == |order| then n
    else
      var ep := entries[order[i]];
      if ep == n.peers[0].ep then Attempts(n, entries, order, replies, i + 1)
      else
        var m := AfterRead(n.(outbox := n.outbox + [Hello(n, ep)]), replies[i]);
        if |m.peers| > 1 then m
        else
          var r := Attempts(m, entries, order, replies, i + 1);
          KeepsChain(n, m, r);
          r
  }

  /** One attempt of `Attempts`, taken apart. */
  lemma AttemptsAt(n: Node, entries: seq<Endpoint>, order: seq<nat>, replies: seq<ReadResult>, i: nat)
    requires Table(n.peers) && i < |order| == |replies|
    requires forall k | 0 <= k < |order| :: order[k] < |entries|
    ensures var ep := entries[order[i]];
      var m := AfterRead(n.(outbox := n.outbox + [Hello(n, ep)]), replies[i]);
      Attempts(n, entries, order, replies, i) ==
        if ep == n.peers[0].ep then Attempts(n, entries, order, replies, i + 1)
        else if |m.peers| > 1 then m else Attempts(m, entries, order, replies, i + 1)
  {
  }

  /**
   * When the attempts end without a peer, every entry node in the order
   * from the i-th on that is not the local endpoint has been sent a HANDSHAKE.
   */
  lemma {:induction false} AttemptsTryAll(n: Node, entries: seq<Endpoint>, order: seq<nat>, replies: seq<ReadResult>, i: nat)
    requires Table(n.peers) && i <= |order| == |replies|
    requires forall k | 0 <= k < |order| :: order[k] < |entries|
    ensures var m := Attempts(n, entries, order, replies, i);
      |m.peers| == 1 ==>
        forall k | i <= k < |order| && entries[order[k]] != n.peers[0].ep :: Hello(n, entries[order[k]]) in m.outbox
    decreases |order| - i
  {
    var m := Attempts(n, entries, order, replies, i);
    if i < |order| && |m.peers| == 1 {
      var ep := entries[order[i]];
      if ep == n.peers[0].ep {
        AttemptsTryAll(n, entries, order, replies, i + 1);
      } else {
        var n1 := n.(outbox := n.outbox + [Hello(n, ep)]);
        var m1 := AfterRead(n1, replies[i]);
        assert |m1.peers| <= 1 && m == Attempts(m1, entries, order, replies, i + 1);
        AttemptsTryAll(m1, entries, order, replies, i + 1);
        HellosKept(n, m1, m, entries, order, i);
      }
    }
  }

  /** One attempt's HANDSHAKE and the later attempts' ones all stay in the outbox. */
  lemma HellosKept(n: Node, m1: Node, m: Node, entries: seq<Endpoint>, order: seq<nat>, i: nat)
    requires Table(n.peers) && Table(m1.peers) && m1.peers[0] == n.peers[0]
    requires i < |order| && forall k | 0 <= k < |order| :: order[k] < |entries|
    requires n.outbox + [Hello(n, entries[order[i]])] <= m1.outbox <= m.outbox
    requires forall k | i + 1 <= k < |order| && entries[order[k]] != m1.peers[0].ep :: Hello(m1, entries[order[k]]) in m.outbox
    ensures forall k | i <= k < |order| && entries[order[k]] != n.peers[0].ep :: Hello(n, entries[order[k]]) in m.outbox
  {
    var ep := entries[order[i]];
    assert Hello(n, ep) in m.outbox by {
      assert m1.outbox[|n.outbox|] == Hello(n, ep);
      assert m.outbox[|n.outbox|] == Hello(n, ep);
    }
    forall k | i + 1 <= k < |order| && entries[order[k]] != n.peers[0].ep
      ensures Hello(n, entries[order[k]]) in m.outbox
    {
      assert Hello(m1, entries[order[k]]) == Hello(n, entries[order[k]]);
    }
  }

  /** The lookups `join` writes once connected, from level 127 down: the first k of them. */
  function LevelLookups(peers: seq<Peer>, k: nat): (r: seq<Datagram>)
    requires |peers| >= 1 && WellFormed(peers) && k <= 8 * IdSize
    ensures |r| == k
  {
    if k == 0 then []
    else LevelLookups(peers, k - 1) + [LookupDatagram(peers, LookupTarget(peers[0].id, 8 * IdSize - k))]
  }

  /**
   * The j-th lookup of `join` is sent towards the target of level 127 - j
   * (which lies at exactly that level, by `LevelOfLookupTarget`).
   */
  lemma {:induction false} LevelLookupsCover(peers: seq<Peer>, k: nat, j: nat)
    requires |peers| >= 1 && WellFormed(peers) && j < k <= 8 * IdSize
    ensures LevelLookups(peers, k)[j] == LookupDatagram(peers, LookupTarget(peers[0].id, 8 * IdSize - 1 - j))
  {
    var prefix := LevelLookups(peers, k - 1);
    var last := LookupDatagram(peers, LookupTarget(peers[0].id, 8 * IdSize - k));
    assert LevelLookups(peers, k) == prefix + [last];
    if j < k - 1 {
      LevelLookupsCover(peers, k - 1, j);
    } else {
      assert 8 * IdSize - 1 - j == 8 * IdSize - k;
    }
  }

  /** One more lookup: the one for level 127 - k. */
  lemma LevelLookupsStep(peers: seq<Peer>, k: nat)
    requires |peers| >= 1 && WellFormed(peers) && k < 8 * IdSize
    ensures LevelLookups(peers, k + 1) == LevelLookups(peers, k) + [LookupDatagram(peers, LookupTarget(peers[0].id, 8 * IdSize - 1 - k))]
  {
    assert 8 * IdSize - (k + 1) == 8 * IdSize - 1 - k;
  }

  /** The DISCONNECT notices `disconnect` writes to the first n entries: every one but the local entry. */
  function Farewells(ps: seq<Peer>, n: nat): (r: seq<Datagram>)
    requires n <= |ps|
    ensures |r| == if n == 0 then 0 else n - 1
  {
    if n <= 1 then [] else Farewells(ps, n - 1) + [Datagram(OpBytes(DISCONNECT), ps[n - 1].ep)]
  }

  /** The (i-1)-th notice goes to the i-th entry. */
  lemma {:induction false} FarewellsReach(ps: seq<Peer>, n: nat)
    requires n <= |ps|
    ensures forall i | 1 <= i < n :: Farewells(ps, n)[i - 1] == Datagram(OpBytes(DISCONNECT), ps[i].ep)
  {
    if n > 1 {
      FarewellsReach(ps, n - 1);
    }
  }

  /** The table of a node without duplicate ids has a peer besides the local one iff it has more than one entry. */
  lemma ConnectedMeaning(peers: seq<Peer>)
    requires |peers| >= 1 && UniqueIds(peers)
    ensures |peers| > 1 <==> exists p | p in peers :: p.id != peers[0].id
  {
    if |peers| > 1 {
      assert peers[1] in peers && peers[1].id != peers[0].id;
    }
  }

  /** `OnLookupReply` once its three fields have been read. */
  lemma LookupReplyCases(n: Node, c: Context, rest: Bytes, id: Bytes, x2: Bytes, port: Bytes, x3: Bytes, address: Bytes, r: Bytes)
    requires Table(n.peers) && CtxOk(c)
    requires (id, x2) == TakeFixed(rest, Zero(IdSize)) && (port, x3) == TakeFixed(x2, Zero(PortSize))
    requires (address, r) == TakeStr(x3)
    ensures var ep := Endpoint(address, ToNat(port));
      OnLookupReply(n, c, rest) ==
        if HasId(n.peers, id) then Outcome(n, c, r)
        else Outcome(n.(peers := Added(n.peers, id, ep),
                        log := n.log + [Connected(id)],
                        outbox := n.outbox + [Datagram(OpBytes(HANDSHAKE) + n.peers[0].id, ep)]), c, r)
  {
  }

  /** `OnRoute` once its three header fields have been read, when the next hop is another peer. */
  lemma RouteForwarded(n: Node, c: Context, whole: Bytes, rest: Bytes, src: Bytes, x2: Bytes, dst: Bytes, x3: Bytes, sizeBytes: Bytes, r: Bytes,
                       next: Peer, size: int)
    requires Table(n.peers) && CtxOk(c) && |rest| <= |whole|
    requires (src, x2) == TakeFixed(rest, Zero(IdSize)) && (dst, x3) == TakeFixed(x2, Zero(IdSize))
    requires (sizeBytes, r) == TakeFixed(x3, Zero(IntSize))
    requires next == NextPeer(n.peers, dst, c.hop.id) && next.id != n.peers[0].id && size == SignedValue(sizeBytes)
    ensures |r| <= |whole|
    ensures OnRoute(n, c, whole, rest) ==
        Outcome(n.(outbox := n.outbox + [Datagram(whole[..ForwardLength(|whole| - |r|, size, |whole|)], next.ep)]),
                Context(c.hop, c.hop.id, n.peers[0].id),
                r[SkipLength(size, |r|)..])
  {
  }

  /** `OnRoute` once its three header fields have been read, when the local peer is the next hop. */
  lemma RouteArrived(n: Node, c: Context, whole: Bytes, rest: Bytes, src: Bytes, x2: Bytes, dst: Bytes, x3: Bytes, sizeBytes: Bytes, r: Bytes)
    requires Table(n.peers) && CtxOk(c) && |rest| <= |whole|
    requires (src, x2) == TakeFixed(rest, Zero(IdSize)) && (dst, x3) == TakeFixed(x2, Zero(IdSize))
    requires (sizeBytes, r) == TakeFixed(x3, Zero(IntSize))
    requires NextPeer(n.peers, dst, c.hop.id).id == n.peers[0].id
    ensures OnRoute(n, c, whole, rest) == Outcome(n, Context(c.hop, src, dst), r)
  {
  }

  /** `OnBroadcast` once its three fields have been read, with raw the sub-message read so far. */
  lemma BroadcastCases(n: Node, c: Context, whole: Bytes, rest: Bytes, origin: Bytes, x2: Bytes, bid: Bytes, x3: Bytes, text: Bytes, r: Bytes, raw: Bytes)
    requires Table(n.peers) && CtxOk(c) && |rest| <= |whole|
    requires (origin, x2) == TakeFixed(rest, Zero(IdSize)) && (bid, x3) == TakeFixed(x2, Zero(BroadcastIdSize))
    requires (text, r) == TakeStr(x3) && |r| <= |x3|
    requires |r| <= |whole| && raw == whole[..|whole| - |r|]
    ensures OnBroadcast(n, c, whole, rest) ==
      if bid in n.broadcastIds then Outcome(n, c, r)
      else Outcome(n.(broadcastIds := n.broadcastIds + {bid},
                      outbox := n.outbox + Forwards(n.peers, c.hop.ep, n.peers[0].id, origin, raw, |n.peers|),
                      delivered := n.delivered + [Delivery(origin, text)]), c, r)
  {
    var o := OnBroadcast(n, c, whole, rest);
    if bid in n.broadcastIds {
      assert o == Outcome(n, c, r);
    } else {
      var m := n.(broadcastIds := n.broadcastIds + {bid},
                  outbox := n.outbox + Forwards(n.peers, c.hop.ep, n.peers[0].id, origin, raw, |n.peers|),
                  delivered := n.delivered + [Delivery(origin, text)]);
      assert o == Outcome(m, c, r);
    }
  }

  /** `OnDisconnect` from the hop itself when its id was in the table beyond the local entry. */
  lemma DisconnectRemoves(n: Node, c: Context, rest: Bytes)
    requires Table(n.peers) && CtxOk(c) && c.source == c.hop.id && HasId(n.peers[1..], c.source)
    ensures |Removed(n.peers, c.source)| >= 1 && Removed(n.peers, c.source)[0] == n.peers[0]
    ensures WellFormed(Removed(n.peers, c.source))
    ensures 0 <= Level(n.peers[0].id, c.source)
    ensures OnDisconnect(n, c, rest) ==
      Outcome(n.(peers := Removed(n.peers, c.source),
                 log := n.log + [Disconnected(c.source)],
                 outbox := n.outbox + [LookupDatagram(Removed(n.peers, c.source), LookupTarget(n.peers[0].id, Level(n.peers[0].id, c.source)))]),
              c, rest)
  {
    RemovedProperties(n.peers, c.source);
    RemovedWellFormed(n.peers, c.source);
    DisconnectLevel(n.peers, c.source);
  }

  /** A prefix of a slice is a slice. */
  lemma SliceOfSlice<T>(s: seq<T>, a: int, b: int, c: int)
    requires 0 <= a <= b <= c <= |s|
    ensures s[a..c][..b - a] == s[a..b]
  {
  }

  /** `Routed` is what a builder appending opcode, source, destination, size and payload holds. */
  lemma RoutedParts(from: Bytes, to: Bytes, payload: Bytes)
    ensures [] + OpBytes(ROUTE) + from + to + HostInt(|payload|, IntSize) + payload == Routed(from, to, payload)
  {
    Regroup(OpBytes(ROUTE), from, to, HostInt(|payload|, IntSize), payload);
  }

  lemma Regroup(op: Bytes, a: Bytes, b: Bytes, c: Bytes, d: Bytes)
    ensures [] + op + a + b + c + d == op + (a + b + c + d)
  {
    Assoc(op, a + b + c, d);
    Assoc(op, a + b, c);
    Assoc(op, a, b);
  }

  /** Reads the origin, the one-time id and the text of a BROADCAST. */
  method ReadBroadcast(packet: Packet) returns (origin: Bytes, bid: Bytes, msg: Bytes, ghost x2: Bytes, ghost x3: Bytes)
    requires packet.Valid()
    modifies packet`offset
    ensures packet.Valid()
    ensures (origin, x2) == TakeFixed(old(packet.Remaining()), Zero(IdSize)) && (bid, x3) == TakeFixed(x2, Zero(BroadcastIdSize))
    ensures (msg, packet.Remaining()) == TakeStr(x3) && packet.Size() <= |x3|
  {
    origin := packet.Get(Zero(IdSize));
    x2 := packet.Remaining();
    bid := packet.Get(Zero(BroadcastIdSize));
    x3 := packet.Remaining();
    msg := packet.GetStr();
    TakeStrShape(x3);
  }

  /** The ROUTE packet built around a payload packet: opcode, source, destination, size, payload. */
  method Wrap(from: Bytes, to: Bytes, payload: Packet) returns (route: Packet)
    requires payload.Valid()
    ensures fresh(route) && route.Valid()
    ensures route.Remaining() == Routed(from, to, payload.Remaining())
  {
    route := new Packet();
    route.Add(OpBytes(ROUTE));
    route.Add(from);
    route.Add(to);
    route.Add(HostInt(payload.Size(), IntSize));
    route.AddRaw(payload.Data(), payload.Size());
    RoutedParts(from, to, payload.Remaining());
  }

  /** The LOOKUP_REPLY packet announcing a peer: opcode, id, port and address. */
  method ReplyPacket(local: Peer) returns (response: Packet)
    ensures fresh(response) && response.Valid()
    ensures response.Remaining() == LookupReplyPayload(local)
  {
    response := new Packet();
    response.Add(OpBytes(LOOKUP_REPLY));
    response.Add(local.id);
    response.Add(HostInt(local.ep.port, PortSize));
    response.AddStr(local.ep.address);
  }

  class PeerNetwork {
    const routingTable: RoutingTable
    var broadcastIds: set<Bytes>
    var outbox: seq<Datagram>
    var delivered: seq<Delivery>
    var log: seq<LogEntry>
    var entryNodes: seq<Endpoint>

    ghost predicate Valid()
      reads this, routingTable
    {
      routingTable.Valid() && Table(routingTable.peers)
    }

    /** The observable state, as the protocol functions see it. */
    function State(): Node
      reads this, routingTable
    {
      Node(routingTable.peers, broadcastIds, outbox, delivered, log)
    }

    /** `localId()`. */
    function LocalId(): (r: Bytes)
      reads this, routingTable
      requires Valid()
      ensures r == routingTable.peers[0].id && |r| == IdSize
    {
      routingTable.LocalPeer().id
    }

    /** `PeerNetwork()`: a table holding only the (not yet set) local entry, and nothing else. */
    constructor ()
      ensures Valid() && fresh(routingTable)
      ensures State() == Node([Peer(Zero(IdSize), NoEndpoint)], {}, [], [], []) && entryNodes == []
    {
      routingTable := new RoutingTable();
      broadcastIds := {};
      outbox := [];
      delivered := [];
      log := [];
      entryNodes := [];
    }

    /**
     * `start`: the local entry gets its id and endpoint, then the result of
     * listening is returned.  The id is drawn at random; here it is a
     * parameter, taken not to collide with a known peer, and the outcome
     * of listening is a parameter too.
     */
    method Start(id: Bytes, ep: Endpoint, listen: Errors.Error) returns (e: Errors.Error)
      requires Valid() && |id| == IdSize && !HasId(routingTable.peers[1..], id)
      modifies routingTable
      ensures Valid() && routingTable.peers == old(routingTable.peers)[0 := Peer(id, ep)]
      ensures Errors.IsSet(e) <==> Errors.IsSet(listen)
      ensures Errors.IsSet(listen) ==> e == listen
      ensures !Errors.IsSet(listen) ==> e == Errors.FromCode()
    {
      ghost var ps := routingTable.peers;
      routingTable.SetLocal(Peer(id, ep));
      forall i, j | 0 <= i < j < |routingTable.peers|
        ensures routingTable.peers[i].id != routingTable.peers[j].id
      {
        if i == 0 {
          assert ps[1..][j - 1].id == routingTable.peers[j].id;
        }
      }
      if Errors.IsSet(listen) {
        return listen;
      }
      return Errors.FromCode();
    }

    /** `addEntryNode`. */
    method AddEntryNode(ep: Endpoint)
      modifies this`entryNodes
      ensures entryNodes == old(entryNodes) + [ep]
    {
      entryNodes := entryNodes + [ep];
    }

    /** `isConnected`: whether the table holds a peer besides the local one. */
    method IsConnected() returns (b: bool)
      requires Valid()
      ensures b <==> exists p | p in routingTable.peers :: p.id != LocalId()
    {
      ConnectedMeaning(routingTable.peers);
      b := |routingTable.peers| > 1;
    }

    /** `sendPacket(packet, destination)`: write `SendVia` of the packet's bytes. */
    method SendPacket(packet: Packet, dest: Bytes)
      requires Valid() && packet.Valid() && |dest| == IdSize
      modifies this`outbox
      ensures outbox == old(outbox) + [SendVia(routingTable.peers, packet.Remaining(), dest)]
    {
      var next := routingTable.GetNext(dest, LocalId());
      if next.id == dest {
        outbox := outbox + [Datagram(packet.Remaining(), next.ep)];
      } else {
        var route := Wrap(LocalId(), dest, packet);
        outbox := outbox + [Datagram(route.Remaining(), next.ep)];
      }
    }

    /** `lookup(target)`: a LOOKUP naming the first hop as relay, sent towards the target. */
    method Lookup(target: Bytes)
      requires Valid() && |target| == IdSize
      modifies this`outbox
      ensures outbox == old(outbox) + [LookupDatagram(routingTable.peers, target)]
    {
      var next := routingTable.GetNext(target, LocalId());
      var packet := new Packet();
      packet.Add(OpBytes(LOOKUP));
      packet.Add(next.id);
      SendPacket(packet, target);
    }

    /** `send(msg, id)`: a MESSAGE with the text, sent towards the id. */
    method Send(msg: Bytes, id: Bytes)
      requires Valid() && |id| == IdSize
      modifies this`outbox
      ensures outbox == old(outbox) + [SendVia(routingTable.peers, OpBytes(MESSAGE) + msg + [0], id)]
    {
      var packet := new Packet();
      packet.Add(OpBytes(MESSAGE));
      packet.AddStr(msg);
      SendPacket(packet, id);
    }

    /**
     * `broadcast(msg)`: record the broadcast id, then write the BROADCAST
     * to every entry but the local one.  The id is drawn at random; here it
     * is a parameter.
     */
    method Broadcast(msg: Bytes, bid: Bytes)
      requires Valid() && |bid| == BroadcastIdSize
      modifies this`broadcastIds, this`outbox
      ensures broadcastIds == old(broadcastIds) + {bid}
      ensures outbox == old(outbox) + Fanout(routingTable.peers, LocalId(), BroadcastMessage(LocalId(), bid, msg), |routingTable.peers|)
    {
      var packet := new Packet();
      packet.Add(OpBytes(BROADCAST));
      packet.Add(LocalId());
      packet.Add(bid);
      packet.AddStr(msg);
      broadcastIds := broadcastIds + {bid};
      WriteToAll(packet.Remaining());
    }

    /** The loop of `broadcast`: the data to every entry whose id is not the local id. */
    method WriteToAll(data: Bytes)
      requires Valid()
      modifies this`outbox
      ensures outbox == old(outbox) + Fanout(routingTable.peers, LocalId(), data, |routingTable.peers|)
    {
      var peers := routingTable.peers;
      var local := LocalId();
      var i := 0;
      while i < |peers|
        invariant 0 <= i <= |peers|
        invariant outbox == old(outbox) + Fanout(peers, local, data, i)
      {
        if peers[i].id != local {
          Assoc(old(outbox), Fanout(peers, local, data, i), [Datagram(data, peers[i].ep)]);
          outbox := outbox + [Datagram(data, peers[i].ep)];
        }
        i := i + 1;
      }
    }

    /** `disconnect`: a DISCONNECT to every entry but the local one. */
    method Disconnect()
      requires Valid()
      modifies this`outbox
      ensures outbox == old(outbox) + Farewells(routingTable.peers, |routingTable.peers|)
    {
      var packet := new Packet();
      packet.Add(OpBytes(DISCONNECT));
      var data := packet.Remaining();
      var peers := routingTable.peers;
      var i := 1;
      while i < |peers|
        invariant 1 <= i <= |peers|
        invariant outbox == old(outbox) + Farewells(peers, i)
      {
        Assoc(old(outbox), Farewells(peers, i), [Datagram(data, peers[i].ep)]);
        outbox := outbox + [Datagram(data, peers[i].ep)];
        i := i + 1;
      }
    }

    /**
     * `join`: try the entry nodes in a random order until one answers the
     * HANDSHAKE, then look up a peer at every level.  The order and what each
     * read returns are parameters; the order is a permutation of the entry
     * indexes, as the retry loop over `rand()` makes it.
     */
    method Join(order: seq<nat>, replies: seq<ReadResult>) returns (e: Errors.Error)
      requires Valid() && Shuffle(order, |entryNodes|) && |replies| == |order|
      modifies this`broadcastIds, this`outbox, this`delivered, this`log, routingTable
      ensures Valid()
      ensures var tried := Attempts(old(State()), old(entryNodes), order, replies, 0);
        if |tried.peers| > 1 then
          State() == tried.(outbox := tried.outbox + LevelLookups(tried.peers, 8 * IdSize)) && e == Errors.FromCode()
        else
          State() == tried && e == Errors.FromMessage("could not find an entry node")
    {
      TryEntryNodes(order, replies);
      ConnectedMeaning(routingTable.peers);
      var connected := IsConnected();
      if !connected {
        return Errors.FromMessage("could not find an entry node");
      }
      LookupAllLevels();
      return Errors.FromCode();
    }

    /** The attempts loop of `join`. */
    method TryEntryNodes(order: seq<nat>, replies: seq<ReadResult>)
      requires Valid() && Shuffle(order, |entryNodes|) && |replies| == |order|
      modifies this`broadcastIds, this`outbox, this`delivered, this`log, routingTable
      ensures Valid()
      ensures State() == Attempts(old(State()), entryNodes, order, replies, 0)
    {
      ghost var n0 := State();
      var i := 0;
      while i < |entryNodes|
        invariant 0 <= i <= |entryNodes| && Valid()
        invariant Attempts(State(), entryNodes, order, replies, i) == Attempts(n0, entryNodes, order, replies, 0)
        decreases |entryNodes| - i
      {
        var index := order[i];
        AttemptsAt(State(), entryNodes, order, replies, i);
        if entryNodes[index] != routingTable.LocalPeer().ep {
          ghost var before := State();
          TryEntryNode(entryNodes[index], replies[i]);
          ConnectedMeaning(routingTable.peers);
          var connected := IsConnected();
          if connected {
            assert State() == Attempts(before, entryNodes, order, replies, i);
            break;
          }
        }
        i := i + 1;
      }
    }

    /** One attempt: a HANDSHAKE to the entry node, then one read. */
    method TryEntryNode(ep: Endpoint, reply: ReadResult)
      requires Valid()
      modifies this`broadcastIds, this`outbox, this`delivered, this`log, routingTable
      ensures Valid()
      ensures State() == AfterRead(old(State()).(outbox := old(outbox) + [Hello(old(State()), ep)]), reply)
    {
      var packet := new Packet();
      packet.Add(OpBytes(HANDSHAKE));
      packet.Add(LocalId());
      outbox := outbox + [Datagram(packet.Remaining(), ep)];
      ReadPacket(reply);
    }

    /** The end of `join`: a lookup towards the target of every level, from 127 down to 0. */
    method LookupAllLevels()
      requires Valid()
      modifies this`outbox
      ensures outbox == old(outbox) + LevelLookups(routingTable.peers, 8 * IdSize)
    {
      var peers := routingTable.peers;
      var level := 8 * IdSize - 1;
      while level >= 0
        invariant -1 <= level < 8 * IdSize
        invariant outbox == old(outbox) + LevelLookups(peers, 8 * IdSize - 1 - level)
      {
        var target := routingTable.LookupTargetOf(level);
        ghost var done := LevelLookups(peers, 8 * IdSize - 1 - level);
        LevelLookupsStep(peers, 8 * IdSize - 1 - level);
        Assoc(old(outbox), done, [LookupDatagram(peers, target)]);
        Lookup(target);
        level := level - 1;
      }
      assert 8 * IdSize - 1 - level == 8 * IdSize;
    }

    // -------------------------------------------------------------------
    // Receiving
    // -------------------------------------------------------------------

    /**
     * `readPacket`: a timeout is ignored, another error logged, and a
     * datagram processed as coming from its sender.
     */
    method ReadPacket(r: ReadResult)
      requires Valid()
      modifies this`broadcastIds, this`outbox, this`delivered, this`log, routingTable
      ensures Valid() && State() == AfterRead(old(State()), r)
    {
      if r.ReadError? {
        if Errors.Is(r.error, Errors.TIMEOUT) {
          return;
        }
        log := log + [Failed(r.error)];
      } else {
        var packet := new Packet.FromBuffer(r.data, |r.data|);
        assert packet.Remaining() == r.data;
        ProcessPacket(packet, r.from);
      }
    }

    /**
     * `processPacket`: find the hop by the sender's endpoint, then handle
     * sub-messages until no byte is left, as `Process` does.
     */
    method ProcessPacket(packet: Packet, sourceEp: Endpoint)
      requires Valid() && packet.Valid()
      modifies this`broadcastIds, this`outbox, this`delivered, this`log, routingTable, packet`offset
      ensures Valid()
      ensures State() == Process(old(State()), Protocol.Start(old(routingTable.peers), sourceEp), old(packet.Remaining()))
    {
      var hop: Peer;
      var known := routingTable.HasEp(sourceEp);
      if known {
        hop := routingTable.GetEp(sourceEp);
      } else {
        hop := Peer(Zero(IdSize), sourceEp);
      }
      var source := hop.id;
      var destination := LocalId();
      ghost var n0, d0 := State(), packet.Remaining();
      ghost var c0 := Protocol.Start(n0.peers, sourceEp);
      assert Context(hop, source, destination) == c0;
      while packet.Size() > 0
        invariant Valid() && packet.Valid()
        invariant CtxOk(Context(hop, source, destination))
        invariant Process(State(), Context(hop, source, destination), packet.Remaining()) == Process(n0, c0, d0)
        decreases packet.Size()
      {
        ghost var n, c, data := State(), Context(hop, source, destination), packet.Remaining();
        var packetStart := packet.offset;
        var code := packet.Get(Zero(OpcodeSize));
        var op := OpcodeOf(ToNat(code));
        hop, source, destination := HandleOpcode(packet, packetStart, data, op, hop, source, destination);
        if op != Some(ROUTE) {
          source := hop.id;
          destination := LocalId();
        }
        assert Step(n, c, data) == Outcome(State(), Context(hop, source, destination), packet.Remaining());
      }
    }

    /** The `switch` on the opcode, case by case as `Dispatch` describes it. */
    method HandleOpcode(packet: Packet, packetStart: int, ghost whole: Bytes, op: Option<Opcode>,
                        hop: Peer, source: Bytes, destination: Bytes)
      returns (hop': Peer, source': Bytes, destination': Bytes)
      requires Valid() && packet.Valid() && CtxOk(Context(hop, source, destination))
      requires 0 <= packetStart <= packet.offset && whole == packet.buffer[packetStart..packet.bytes]
      modifies this`broadcastIds, this`outbox, this`delivered, this`log, routingTable, packet`offset
      ensures Valid() && packet.Valid()
      ensures Outcome(State(), Context(hop', source', destination'), packet.Remaining()) ==
              Dispatch(old(State()), Context(hop, source, destination), op, whole, old(packet.Remaining()))
    {
      hop', source', destination' := hop, source, destination;
      match op
      case None =>
        log := log + [InvalidOpcode];
      case Some(NONE) =>
      case Some(PING) =>
        HandlePing(packet, hop, source, destination);
      case Some(PONG) =>
      case Some(HANDSHAKE) =>
        hop', source' := HandleHandshake(packet, hop, source, destination, true);
      case Some(HANDSHAKE_REPLY) =>
        hop', source' := HandleHandshake(packet, hop, source, destination, false);
      case Some(LOOKUP) =>
        HandleLookup(packet, hop, source, destination);
      case Some(LOOKUP_REPLY) =>
        HandleLookupReply(packet, hop, source, destination);
      case Some(ROUTE) =>
        source', destination' := HandleRoute(packet, packetStart, whole, hop, source, destination);
      case Some(BROADCAST) =>
        HandleBroadcast(packet, packetStart, whole, hop, source, destination);
      case Some(MESSAGE) =>
        HandleMessage(packet, hop, source, destination);
      case Some(DISCONNECT) =>
        HandleDisconnect(packet, hop, source, destination);
    }

    /** PING: a PONG to the source. */
    method HandlePing(packet: Packet, hop: Peer, source: Bytes, destination: Bytes)
      requires Valid() && packet.Valid() && CtxOk(Context(hop, source, destination))
      modifies this`outbox
      ensures Valid()
      ensures Outcome(State(), Context(hop, source, destination), packet.Remaining()) ==
              OnPing(old(State()), Context(hop, source, destination), packet.Remaining())
    {
      var response := new Packet();
      response.Add(OpBytes(PONG));
      SendPacket(response, source);
    }

    /** HANDSHAKE (answered) and HANDSHAKE_REPLY: learn the hop's id. */
    method HandleHandshake(packet: Packet, hop: Peer, source: Bytes, destination: Bytes, reply: bool)
      returns (hop': Peer, source': Bytes)
      requires Valid() && packet.Valid() && CtxOk(Context(hop, source, destination))
      modifies this`outbox, this`log, routingTable, packet`offset
      ensures Valid() && packet.Valid()
      ensures Outcome(State(), Context(hop', source', destination), packet.Remaining()) ==
              OnHandshake(old(State()), Context(hop, source, destination), old(packet.Remaining()), reply)
    {
      var id := packet.Get(Zero(IdSize));
      Handshake(id, hop.ep, reply);
      hop' := Peer(id, hop.ep);
      source' := id;
    }

    /** Adds an unknown announced id with the hop's endpoint and answers a HANDSHAKE. */
    method Handshake(id: Bytes, ep: Endpoint, reply: bool)
      requires Valid() && |id| == IdSize
      modifies this`outbox, this`log, routingTable
      ensures Valid() && State() == Handshaken(old(State()), id, ep, reply)
    {
      var known := routingTable.Has(id);
      if !known {
        log := log + [Connected(id)];
        routingTable.Add(id, ep);
      }
      if reply {
        var response := new Packet();
        response.Add(OpBytes(HANDSHAKE_REPLY));
        response.Add(LocalId());
        SendPacket(response, id);
      }
    }

    /** LOOKUP: the local id and endpoint, routed back to the source through the relay. */
    method HandleLookup(packet: Packet, hop: Peer, source: Bytes, destination: Bytes)
      requires Valid() && packet.Valid() && CtxOk(Context(hop, source, destination))
      modifies this`outbox, packet`offset
      ensures Valid() && packet.Valid()
      ensures Outcome(State(), Context(hop, source, destination), packet.Remaining()) ==
              OnLookup(old(State()), Context(hop, source, destination), old(packet.Remaining()))
    {
      var relayId := packet.Get(Zero(IdSize));
      AnswerLookup(source, relayId);
    }

    /** The answer to a LOOKUP: the LOOKUP_REPLY routed to the source, routed again to the relay. */
    method AnswerLookup(source: Bytes, relayId: Bytes)
      requires Valid() && |relayId| == IdSize
      modifies this`outbox
      ensures outbox == old(outbox) + [LookupAnswer(routingTable.peers, source, relayId)]
    {
      var local := routingTable.LocalPeer();
      var response := ReplyPacket(local);
      var route := Wrap(local.id, source, response);
      var route2 := Wrap(local.id, relayId, route);
      var next := routingTable.GetNext(relayId, local.id);
      outbox := outbox + [Datagram(route2.Remaining(), next.ep)];
    }

    /** LOOKUP_REPLY: an unknown peer is added with its announced endpoint and greeted. */
    method HandleLookupReply(packet: Packet, hop: Peer, source: Bytes, destination: Bytes)
      requires Valid() && packet.Valid() && CtxOk(Context(hop, source, destination))
      modifies this`outbox, this`log, routingTable, packet`offset
      ensures Valid() && packet.Valid()
      ensures Outcome(State(), Context(hop, source, destination), packet.Remaining()) ==
              OnLookupReply(old(State()), Context(hop, source, destination), old(packet.Remaining()))
    {
      ghost var n, rest, x1 := State(), packet.Remaining(), TakeFixed(packet.Remaining(), Zero(IdSize)).1;
      var id := packet.Get(Zero(IdSize));
      ghost var x2 := packet.Remaining();
      var port := packet.Get(Zero(PortSize));
      ghost var x3 := packet.Remaining();
      var address := packet.GetStr();
      var ep := Endpoint(address, ToNat(port));
      LookupReplyCases(n, Context(hop, source, destination), rest, id, x2, port, x3, address, packet.Remaining());
      Meet(id, ep);
    }

    /** The end of LOOKUP_REPLY: an unknown id is added with the endpoint and sent a HANDSHAKE. */
    method Meet(id: Bytes, ep: Endpoint)
      requires Valid() && |id| == IdSize
      modifies this`outbox, this`log, routingTable
      ensures Valid()
      ensures HasId(old(routingTable.peers), id) ==> State() == old(State())
      ensures !HasId(old(routingTable.peers), id) ==>
        State() == old(State()).(peers := Added(old(routingTable.peers), id, ep),
                                 log := old(log) + [Connected(id)],
                                 outbox := old(outbox) + [Datagram(OpBytes(HANDSHAKE) + old(LocalId()), ep)])
    {
      var known := routingTable.Has(id);
      if !known {
        log := log + [Connected(id)];
        routingTable.Add(id, ep);
        var response := new Packet();
        response.Add(OpBytes(HANDSHAKE));
        response.Add(LocalId());
        outbox := outbox + [Datagram(response.Remaining(), ep)];
      }
    }

    /** ROUTE: forward the sub-message, or go on into its payload. */
    method HandleRoute(packet: Packet, packetStart: int, ghost whole: Bytes, hop: Peer, source: Bytes, destination: Bytes)
      returns (source': Bytes, destination': Bytes)
      requires Valid() && packet.Valid() && CtxOk(Context(hop, source, destination))
      requires 0 <= packetStart <= packet.offset && whole == packet.buffer[packetStart..packet.bytes]
      modifies this`outbox, packet`offset
      ensures Valid() && packet.Valid()
      ensures Outcome(State(), Context(hop, source', destination'), packet.Remaining()) ==
              OnRoute(old(State()), Context(hop, source, destination), whole, old(packet.Remaining()))
    {
      ghost var n0, rest := State(), packet.Remaining();
      assert |rest| <= |whole|;
      var src := packet.Get(Zero(IdSize));
      ghost var x2 := packet.Remaining();
      var dst := packet.Get(Zero(IdSize));
      ghost var x3 := packet.Remaining();
      var sizeBytes := packet.Get(Zero(IntSize));
      assert State() == n0 && whole == packet.buffer[packetStart..packet.bytes];
      source', destination' := RouteOn(packet, packetStart, whole, Context(hop, source, destination), rest, src, x2, dst, x3, sizeBytes);
    }

    /** ROUTE once its header has been read: forward towards the next hop, or stay and go on into the payload. */
    method RouteOn(packet: Packet, packetStart: int, ghost whole: Bytes, c: Context,
                   ghost rest: Bytes, src: Bytes, ghost x2: Bytes, dst: Bytes, ghost x3: Bytes, sizeBytes: Bytes)
      returns (source': Bytes, destination': Bytes)
      requires Valid() && packet.Valid() && CtxOk(c)
      requires 0 <= packetStart <= packet.offset && whole == packet.buffer[packetStart..packet.bytes] && |rest| <= |whole|
      requires (src, x2) == TakeFixed(rest, Zero(IdSize)) && (dst, x3) == TakeFixed(x2, Zero(IdSize))
      requires (sizeBytes, packet.Remaining()) == TakeFixed(x3, Zero(IntSize))
      modifies this`outbox, packet`offset
      ensures Valid() && packet.Valid()
      ensures Outcome(State(), Context(c.hop, source', destination'), packet.Remaining()) == OnRoute(old(State()), c, whole, rest)
    {
      ghost var n, r := State(), packet.Remaining();
      var payloadSize := SignedValue(sizeBytes);
      var next := routingTable.GetNext(dst, c.hop.id);
      if next.id != LocalId() {
        RouteForwarded(n, c, whole, rest, src, x2, dst, x3, sizeBytes, r, next, payloadSize);
        RouteOnward(packet, packetStart, whole, payloadSize, next, r);
        source', destination' := c.hop.id, LocalId();
      } else {
        RouteArrived(n, c, whole, rest, src, x2, dst, x3, sizeBytes, r);
        source', destination' := src, dst;
      }
    }

    /** A ROUTE for another peer: the clamped sub-message goes to the next hop and the payload is skipped. */
    method RouteOnward(packet: Packet, packetStart: int, ghost whole: Bytes, payloadSize: int, next: Peer, ghost r: Bytes)
      requires Valid() && packet.Valid() && 0 <= packetStart <= packet.offset && whole == packet.buffer[packetStart..packet.bytes]
      requires r == packet.Remaining()
      modifies this`outbox, packet`offset
      ensures Valid() && packet.Valid() && |r| <= |whole|
      ensures State() == old(State()).(outbox := old(outbox) + [Datagram(whole[..ForwardLength(|whole| - |r|, payloadSize, |whole|)], next.ep)])
      ensures packet.Remaining() == r[SkipLength(payloadSize, |r|)..]
    {
      var len := ForwardLength(packet.offset - packetStart, payloadSize, packet.bytes - packetStart);
      ForwardRoute(packet, packetStart, whole, len, payloadSize, next.ep);
    }

    /** Sends the first len bytes of the sub-message, then skips the payload. */
    method ForwardRoute(packet: Packet, packetStart: int, ghost whole: Bytes, len: nat, size: int, to: Endpoint)
      requires packet.Valid() && 0 <= packetStart <= packet.offset && packetStart + len <= packet.bytes
      requires whole == packet.buffer[packetStart..packet.bytes]
      modifies this`outbox, packet`offset
      ensures packet.Valid()
      ensures outbox == old(outbox) + [Datagram(whole[..len], to)]
      ensures packet.Remaining() == old(packet.Remaining())[SkipLength(size, old(packet.Size()))..]
    {
      SliceOfSlice(packet.buffer, packetStart, packetStart + len, packet.bytes);
      outbox := outbox + [Datagram(packet.buffer[packetStart..packetStart + len], to)];
      packet.Skip(size);
    }

    /** BROADCAST: a new broadcast id is recorded, the sub-message forwarded and the text delivered. */
    method HandleBroadcast(packet: Packet, packetStart: int, ghost whole: Bytes, hop: Peer, source: Bytes, destination: Bytes)
      requires Valid() && packet.Valid() && CtxOk(Context(hop, source, destination))
      requires 0 <= packetStart <= packet.offset && whole == packet.buffer[packetStart..packet.bytes]
      modifies this`broadcastIds, this`outbox, this`delivered, packet`offset
      ensures Valid() && packet.Valid()
      ensures Outcome(State(), Context(hop, source, destination), packet.Remaining()) ==
              OnBroadcast(old(State()), Context(hop, source, destination), whole, old(packet.Remaining()))
    {
      ghost var rest := packet.Remaining();
      var origin, bid, msg, x2, x3 := ReadBroadcast(packet);
      BroadcastOn(packet, packetStart, whole, Context(hop, source, destination), rest, origin, x2, bid, x3, msg);
    }

    /** BROADCAST once its fields have been read: the sub-message so far is what gets forwarded. */
    method BroadcastOn(packet: Packet, packetStart: int, ghost whole: Bytes, c: Context,
                       ghost rest: Bytes, origin: Bytes, ghost x2: Bytes, bid: Bytes, ghost x3: Bytes, msg: Bytes)
      requires Valid() && packet.Valid() && CtxOk(c)
      requires 0 <= packetStart <= packet.offset && whole == packet.buffer[packetStart..packet.bytes] && |rest| <= |whole|
      requires (origin, x2) == TakeFixed(rest, Zero(IdSize)) && (bid, x3) == TakeFixed(x2, Zero(BroadcastIdSize))
      requires (msg, packet.Remaining()) == TakeStr(x3) && packet.Size() <= |x3|
      modifies this`broadcastIds, this`outbox, this`delivered
      ensures Valid()
      ensures Outcome(State(), c, packet.Remaining()) == OnBroadcast(old(State()), c, whole, rest)
    {
      ghost var n, r := State(), packet.Remaining();
      var raw := packet.buffer[packetStart..packet.offset];
      SliceOfSlice(packet.buffer, packetStart, packet.offset, packet.bytes);
      BroadcastCases(n, c, whole, rest, origin, x2, bid, x3, msg, r, raw);
      Spread(raw, c.hop.ep, origin, bid, msg);
    }

    /** The end of BROADCAST: a new broadcast id is recorded, the message forwarded and its text delivered. */
    method Spread(raw: Bytes, hopEp: Endpoint, origin: Bytes, bid: Bytes, text: Bytes)
      requires Valid() && |origin| == IdSize
      modifies this`broadcastIds, this`outbox, this`delivered
      ensures Valid()
      ensures State() ==
        if bid in old(broadcastIds) then old(State())
        else old(State()).(broadcastIds := old(broadcastIds) + {bid},
                           outbox := old(outbox) + Forwards(routingTable.peers, hopEp, LocalId(), origin, raw, |routingTable.peers|),
                           delivered := old(delivered) + [Delivery(origin, text)])
    {
      if bid !in broadcastIds {
        broadcastIds := broadcastIds + {bid};
        Forward(raw, hopEp, origin);
        delivered := delivered + [Delivery(origin, text)];
      }
    }

    /** The forwarding loop of BROADCAST: raw to every entry `ForwardsTo` admits. */
    method Forward(raw: Bytes, hopEp: Endpoint, origin: Bytes)
      requires Valid() && |origin| == IdSize
      modifies this`outbox
      ensures outbox == old(outbox) + Forwards(routingTable.peers, hopEp, LocalId(), origin, raw, |routingTable.peers|)
    {
      var peers := routingTable.peers;
      var local := LocalId();
      var i := 0;
      while i < |peers|
        invariant 0 <= i <= |peers|
        invariant outbox == old(outbox) + Forwards(peers, hopEp, local, origin, raw, i)
      {
        var peer := peers[i];
        if peer.ep != hopEp && peer.id != local {
          if Greater(Xor(origin, peer.id), Xor(origin, local)) {
            Assoc(old(outbox), Forwards(peers, hopEp, local, origin, raw, i), [Datagram(raw, peer.ep)]);
            outbox := outbox + [Datagram(raw, peer.ep)];
          }
        }
        i := i + 1;
      }
    }

    /** MESSAGE: delivered when the last two bytes of the destination are the local id's. */
    method HandleMessage(packet: Packet, hop: Peer, source: Bytes, destination: Bytes)
      requires Valid() && packet.Valid() && CtxOk(Context(hop, source, destination))
      modifies this`delivered, packet`offset
      ensures Valid() && packet.Valid()
      ensures Outcome(State(), Context(hop, source, destination), packet.Remaining()) ==
              OnMessage(old(State()), Context(hop, source, destination), old(packet.Remaining()))
    {
      var msg := packet.GetStr();
      var local := LocalId();
      if destination[IdSize - 1] == local[IdSize - 1] {
        if destination[IdSize - 2] == local[IdSize - 2] {
          delivered := delivered + [Delivery(source, msg)];
        }
      }
    }

    /** DISCONNECT: the hop leaves and a replacement is looked up; from anyone else it is invalid. */
    method HandleDisconnect(packet: Packet, hop: Peer, source: Bytes, destination: Bytes)
      requires Valid() && packet.Valid() && CtxOk(Context(hop, source, destination))
      modifies this`outbox, this`log, routingTable
      ensures Valid()
      ensures Outcome(State(), Context(hop, source, destination), packet.Remaining()) ==
              OnDisconnect(old(State()), Context(hop, source, destination), packet.Remaining())
    {
      ghost var n, c, rest := State(), Context(hop, source, destination), packet.Remaining();
      ghost var o := OnDisconnect(n, c, rest);
      if source == hop.id {
        var removed := routingTable.Remove(source);
        assert packet.Remaining() == rest;
        if removed {
          DisconnectRemoves(n, c, rest);
          ghost var peers := Removed(n.peers, source);
          assert routingTable.peers == peers && peers[0] == n.peers[0];
          log := log + [Disconnected(source)];
          var level := routingTable.GetLevel(source);
          var target := routingTable.LookupTargetOf(level);
          assert target == LookupTarget(n.peers[0].id, Level(n.peers[0].id, source));
          Lookup(target);
          assert State() == n.(peers := peers, log := n.log + [Disconnected(source)],
                               outbox := n.outbox + [LookupDatagram(peers, target)]);
          assert o == Outcome(State(), c, rest);
        } else {
          RemovedChanged(n.peers, source);
          assert State() == n && o == Outcome(n, c, rest);
        }
      } else {
        log := log + [InvalidOpcode];
        assert o == Outcome(n.(log := n.log + [InvalidOpcode]), c, rest);
      }
    }
  }
}
