/**
 * The `sock::PeerNetwork` object of the earlier protocol: the local peer,
 * the peer cache, the broadcasts seen with their texts, the entry nodes,
 * and what the node has written, delivered and logged.  Each method updates
 * these fields in place and is proved to do what the functions of
 * `LegacyProtocol` describe.
 */
module LegacyNetwork {
  import opened Blobs
  import opened Codec
  import opened Routing
  import opened LegacyProtocol
  import Protocol
  import ProtocolLemmas
  import LegacyLemmas
  import Network
  import Errors

  /** The address `run` gives the local endpoint: the characters of "127.0.0.1". */
  const Loopback: Bytes := [0x31, 0x32, 0x37, 0x2e, 0x30, 0x2e, 0x30, 0x2e, 0x31]

  /** What is left of a cache after the erase loop is still a cache. */
  lemma KeptOk(c0: seq<Peer>, id: Bytes)
    requires WellFormed(c0) && UniqueIds(c0)
    ensures WellFormed(Kept(c0, id, |c0|)) && UniqueIds(Kept(c0, id, |c0|))
  {
    KeptFrom(c0, id, |c0|);
    KeptUnique(c0, id, |c0|);
  }

  /** When the erase loop removes nothing, the cache is unchanged. */
  lemma KeptNone(c0: seq<Peer>, id: Bytes)
    requires |Kept(c0, id, |c0|)| == |c0|
    ensures Kept(c0, id, |c0|) == c0
  {
    KeptShorter(c0, id, |c0|);
    forall i | 0 <= i < |c0|
      ensures Kept(c0, id, |c0|)[i] == c0[i]
    {
      KeptAll(c0, id, |c0|, i);
    }
  }

  /**
   * The erase loop of DISCONNECT over the original cache c0 and log l0:
   * j entries of c0 seen, the i kept ones in front of the unseen ones, and
   * one log line per erased entry.
   */
  ghost predicate Purging(c0: seq<Peer>, l0: seq<LogEntry>, id: Bytes, cache: seq<Peer>, lines: seq<LogEntry>, i: int, j: int)
  {
    0 <= j <= |c0| && i == |Kept(c0, id, j)| && cache == Kept(c0, id, j) + c0[j..] && lines == l0 + Departures(id, j - i)
  }

  /** One iteration: entry i is entry j of c0; erasing it or stepping past it keeps the loop state. */
  lemma PurgeAdvance(c0: seq<Peer>, l0: seq<LogEntry>, id: Bytes, cache: seq<Peer>, lines: seq<LogEntry>, i: int, j: int)
    requires Purging(c0, l0, id, cache, lines, i, j) && 0 <= i < |cache|
    ensures cache[i] == c0[j]
    ensures cache[i].id == id ==> Purging(c0, l0, id, cache[..i] + cache[i + 1..], lines + [PeerLeft(id)], i, j + 1)
    ensures cache[i].id != id ==> Purging(c0, l0, id, cache, lines, i + 1, j + 1)
  {
    var front, k' := Kept(c0, id, j), Kept(c0, id, j + 1);
    assert j < |c0|;
    assert c0[j..] == [c0[j]] + c0[j + 1..];
    assert cache == front + [c0[j]] + c0[j + 1..];
    assert cache[..i] == front && cache[i + 1..] == c0[j + 1..];
    if cache[i].id == id {
      assert k' == front;
      assert Departures(id, j + 1 - i) == Departures(id, j - i) + [PeerLeft(id)];
    } else {
      assert k' == front + [c0[j]];
    }
  }

  /** The erase loop of DISCONNECT over the cache c0 and the log l0, left in its loop state at the end. */
  method PurgeLoop(source: Bytes, c0: seq<Peer>, l0: seq<LogEntry>) returns (cache: seq<Peer>, lines: seq<LogEntry>, wasInCache: bool, i: int, ghost j: int)
    ensures Purging(c0, l0, source, cache, lines, i, j) && i >= |cache|
    ensures wasInCache <==> i < j
  {
    cache, lines := c0, l0;
    wasInCache := false;
    i := 0;
    j := 0;
    while i < |cache|
      invariant Purging(c0, l0, source, cache, lines, i, j)
      invariant wasInCache <==> i < j
      decreases |cache| - i
    {
      ghost var cache0, lines0, i0 := cache, lines, i;
      if cache[i].id == source {
        lines := lines + [PeerLeft(source)];
        cache := cache[..i] + cache[i + 1..];
        i := i - 1;
        wasInCache := true;
      }
      i := i + 1;
      PurgeStep(c0, l0, source, cache0, lines0, i0, j, cache, lines, i);
      j := j + 1;
    }
  }

  /** One iteration of the erase loop from index i, as a step between loop states. */
  lemma PurgeStep(c0: seq<Peer>, l0: seq<LogEntry>, id: Bytes, cache: seq<Peer>, lines: seq<LogEntry>, i: int, j: int,
                  cache': seq<Peer>, lines': seq<LogEntry>, i': int)
    requires Purging(c0, l0, id, cache, lines, i, j) && 0 <= i < |cache|
    requires if cache[i].id == id then cache' == cache[..i] + cache[i + 1..] && lines' == lines + [PeerLeft(id)] && i' == i
             else cache' == cache && lines' == lines && i' == i + 1
    ensures Purging(c0, l0, id, cache', lines', i', j + 1)
  {
    PurgeAdvance(c0, l0, id, cache, lines, i, j);
  }

  /** After the loop: the kept entries, one line per erased entry, and nothing changed if nothing was erased. */
  lemma PurgeDone(c0: seq<Peer>, l0: seq<LogEntry>, id: Bytes, cache: seq<Peer>, lines: seq<LogEntry>, i: int, j: int)
    requires Purging(c0, l0, id, cache, lines, i, j) && i >= |cache|
    ensures cache == Kept(c0, id, |c0|) && lines == l0 + Departures(id, |c0| - |cache|)
    ensures i < j <==> |cache| < |c0|
    ensures i == j ==> cache == c0
  {
    assert j == |c0| && c0[j..] == [];
    assert cache == Kept(c0, id, |c0|) + [];
    if i == j {
      KeptNone(c0, id);
    }
  }

  /** `Connect` at an entry, unfolded once. */
  lemma ConnectAt(n: Node, entries: seq<Endpoint>, replies: seq<Network.ReadResult>, i: nat)
    requires Ok(n) && i < |entries| == |replies|
    ensures Connect(n, entries, replies, i) ==
      if entries[i] == n.local.ep then Connect(n, entries, replies, i + 1)
      else
        var m := Receive(n.(outbox := n.outbox + [Hello(n, entries[i])]), replies[i]);
        if |m.cache| > 0 then m else Connect(m, entries, replies, i + 1)
  {
  }

  /** `Serve` at a read, unfolded once. */
  lemma ServeAt(n: Node, events: seq<Network.ReadResult>, i: nat)
    requires Ok(n) && i < |events|
    ensures Serve(n, events[i..]) == Serve(Receive(n, events[i]), events[i + 1..])
  {
    assert events[i..][1..] == events[i + 1..];
  }

  /** ROUTE with its fields named: the destination, the text and the bytes consumed. */
  lemma RouteRead(n: Node, c: Context, source: Bytes, whole: Bytes, rest: Bytes, dest: Bytes, x2: Bytes, text: Bytes, r: Bytes, raw: Bytes)
    requires Ok(n) && |rest| <= |whole|
    requires (dest, x2) == TakeFixed(rest, Zero(IdSize)) && (text, r) == TakeStr(x2)
    requires raw == whole[..|whole| - |r|]
    ensures |dest| == IdSize && OnRoute(n, c, source, whole, rest) == Outcome(Routed(n, c, source, dest, text, raw), r)
  {
    var t1 := TakeFixed(rest, Zero(IdSize));
    assert t1.0 == dest && t1.1 == x2 && |dest| == IdSize;
    assert TakeStr(t1.1) == (text, r);
  }

  /** BROADCAST with its fields named: the one-time id, the text and the bytes consumed. */
  lemma BroadcastRead(n: Node, source: Bytes, whole: Bytes, rest: Bytes, bid: Bytes, x2: Bytes, text: Bytes, r: Bytes, raw: Bytes)
    requires Ok(n) && |rest| <= |whole|
    requires (bid, x2) == TakeFixed(rest, Zero(IdSize)) && (text, r) == TakeStr(x2)
    requires raw == whole[..|whole| - |r|]
    ensures OnBroadcast(n, source, whole, rest) == Outcome(BroadcastReceived(n, source, bid, text, raw), r)
  {
    var t1 := TakeFixed(rest, Zero(IdSize));
    assert t1.0 == bid && t1.1 == x2;
    assert TakeStr(t1.1) == (text, r);
  }

  /** Reads an identifier and the NUL-terminated text after it. */
  method ReadIdText(request: Packet) returns (id: Bytes, text: Bytes, ghost x2: Bytes)
    requires request.Valid()
    modifies request`offset
    ensures request.Valid()
    ensures (id, x2) == TakeFixed(old(request.Remaining()), Zero(IdSize)) && (text, request.Remaining()) == TakeStr(x2)
  {
    id := request.Get(Zero(IdSize));
    x2 := request.Remaining();
    text := request.GetStr();
  }

  /** Reads the destination and the relay of a LOOKUP_REPLY. */
  method ReadIdPair(request: Packet) returns (dest: Bytes, relay: Bytes, ghost x2: Bytes)
    requires request.Valid()
    modifies request`offset
    ensures request.Valid()
    ensures (dest, x2) == TakeFixed(old(request.Remaining()), Zero(IdSize)) && (relay, request.Remaining()) == TakeFixed(x2, Zero(IdSize))
  {
    dest := request.Get(Zero(IdSize));
    x2 := request.Remaining();
    relay := request.Get(Zero(IdSize));
  }

  /** Reads the port and the NUL-terminated address of a LOOKUP_REPLY. */
  method ReadPortAddress(request: Packet) returns (port: Bytes, address: Bytes, ghost x4: Bytes)
    requires request.Valid()
    modifies request`offset
    ensures request.Valid()
    ensures (port, x4) == TakeFixed(old(request.Remaining()), Zero(Protocol.PortSize)) && (address, request.Remaining()) == TakeStr(x4)
  {
    port := request.Get(Zero(Protocol.PortSize));
    x4 := request.Remaining();
    address := request.GetStr();
  }

  /** LOOKUP_REPLY with its destination and relay named. */
  lemma ReplyHead(n: Node, c: Context, source: Bytes, whole: Bytes, rest: Bytes, dest: Bytes, x2: Bytes, relay: Bytes, x3: Bytes)
    requires Ok(n) && |source| == IdSize && |rest| <= |whole|
    requires (dest, x2) == TakeFixed(rest, Zero(IdSize)) && (relay, x3) == TakeFixed(x2, Zero(IdSize))
    ensures |dest| == IdSize && |relay| == IdSize && |x3| <= |rest|
    ensures OnLookupReply(n, c, source, whole, rest) == OnReplyTail(n, c, source, whole, dest, relay, x3)
  {
  }

  /** The tail of a LOOKUP_REPLY with its port and address named. */
  lemma ReplyTail(n: Node, c: Context, source: Bytes, whole: Bytes, dest: Bytes, relay: Bytes, x3: Bytes,
                  port: Bytes, x4: Bytes, address: Bytes, r: Bytes, raw: Bytes)
    requires Ok(n) && |source| == IdSize && |dest| == IdSize && |relay| == IdSize && |x3| <= |whole|
    requires (port, x4) == TakeFixed(x3, Zero(Protocol.PortSize)) && (address, r) == TakeStr(x4)
    requires |r| <= |whole| && raw == whole[..|whole| - |r|]
    ensures OnReplyTail(n, c, source, whole, dest, relay, x3) ==
      Outcome(LookupReplied(n, c, source, dest, relay, Endpoint(address, ToNat(port)), raw), r)
  {
  }

  class PeerNetwork {
    var port: int
    var localPeer: Peer
    var peerCache: seq<Peer>
    var broadcasts: map<Bytes, Bytes>
    var entryNodes: seq<Endpoint>
    var running: bool
    var outbox: seq<Protocol.Datagram>
    var delivered: seq<Protocol.Delivery>
    var log: seq<LogEntry>

    /** The local id and every cached id are `PeerId`s, and no id is cached twice. */
    ghost predicate Valid()
      reads this
    {
      Ok(State())
    }

    /** The observable state, as the protocol functions see it. */
    function State(): Node
      reads this
    {
      Node(localPeer, peerCache, broadcasts, outbox, delivered, log)
    }

    /** `PeerNetwork(port)`: a zero local id with an unset endpoint, and nothing known yet. */
    constructor (port: int)
      requires 0 <= port < 0x1_0000
      ensures Valid() && this.port == port && !running && entryNodes == []
      ensures State() == Node(Peer(Zero(IdSize), NoEndpoint), [], map[], [], [], [])
    {
      this.port := port;
      localPeer := Peer(Zero(IdSize), NoEndpoint);
      peerCache := [];
      broadcasts := map[];
      entryNodes := [];
      running := false;
      outbox := [];
      delivered := [];
      log := [];
    }

    /**
     * `run`: listen (whose outcome is a parameter), take the id (drawn at
     * random; a parameter here) and the loopback endpoint, greet the entry
     * nodes until one answers, send the join lookups if any did, serve the
     * reads unless `stop` came first, then say goodbye to every cached peer.
     * What each read returns, whether `stop` was called before the event
     * loop, and the event loop's own result are parameters.
     */
    method Run(id: Bytes, listen: Errors.Error, replies: seq<Network.ReadResult>, stopped: bool,
               events: seq<Network.ReadResult>, served: Errors.Error) returns (e: Errors.Error)
      requires Valid() && |id| == IdSize && |replies| == |entryNodes|
      modifies this
      ensures Valid() && port == old(port) && entryNodes == old(entryNodes)
      ensures Errors.IsSet(listen) ==> e == listen && State() == old(State())
      ensures !Errors.IsSet(listen) ==>
        var joined := Joined(old(State()).(local := Peer(id, Endpoint(Loopback, old(port)))), old(entryNodes), replies);
        State() == Farewell(if stopped then joined else Serve(joined, events)) &&
        e == if stopped then listen else served
    {
      running := true;
      e := listen;
      if Errors.IsSet(e) {
        return;
      }
      localPeer := Peer(id, Endpoint(Loopback, port));
      ghost var n0 := State();
      ConnectEntries(replies);
      if |peerCache| > 0 {
        LookupLevels();
      }
      assert State() == Joined(n0, entryNodes, replies);
      if stopped {
        Stop();
      }
      if running {
        e := ServeEvents(events, served);
      }
      Disconnect();
    }

    /** `stop`: the event loop is not entered, or ends. */
    method Stop()
      modifies this`running
      ensures !running
    {
      running := false;
    }

    /** The entry-node loop of `run`: a HANDSHAKE and one read per entry, until the cache is not empty. */
    method ConnectEntries(replies: seq<Network.ReadResult>)
      requires Valid() && |replies| == |entryNodes|
      modifies this`peerCache, this`broadcasts, this`outbox, this`delivered, this`log
      ensures Valid() && State() == Connect(old(State()), entryNodes, replies, 0)
    {
      ghost var n0 := State();
      var i := 0;
      while i < |entryNodes|
        invariant 0 <= i <= |entryNodes| && Valid()
        invariant Connect(State(), entryNodes, replies, i) == Connect(n0, entryNodes, replies, 0)
        decreases |entryNodes| - i
      {
        ConnectAt(State(), entryNodes, replies, i);
        if entryNodes[i] != localPeer.ep {
          TryEntry(entryNodes[i], replies[i]);
          if |peerCache| > 0 {
            return;
          }
        }
        i := i + 1;
      }
    }

    /** One entry node: a HANDSHAKE to it, then one read. */
    method TryEntry(ep: Endpoint, reply: Network.ReadResult)
      requires Valid()
      modifies this`peerCache, this`broadcasts, this`outbox, this`delivered, this`log
      ensures Valid()
      ensures State() == Receive(old(State()).(outbox := old(outbox) + [Hello(old(State()), ep)]), reply)
    {
      var packet := new Packet();
      packet.Add(OpBytes(HANDSHAKE));
      packet.Add(localPeer.id);
      assert packet.Remaining() == Bare(HANDSHAKE, localPeer.id);
      outbox := outbox + [Protocol.Datagram(packet.Remaining(), ep)];
      Process(reply);
    }

    /** The join lookups of `run`: one LOOKUP per bit of the id, from bit 0 up. */
    method LookupLevels()
      requires Valid()
      modifies this`outbox
      ensures outbox == old(outbox) + JoinLookups(localPeer, peerCache, 8 * IdSize)
    {
      var i := 0;
      while i < 8 * IdSize
        invariant 0 <= i <= 8 * IdSize
        invariant outbox == old(outbox) + JoinLookups(localPeer, peerCache, i)
      {
        var dist := ShiftLeft(One(), i);
        var target := Xor(localPeer.id, dist);
        ProtocolLemmas.Assoc(old(outbox), JoinLookups(localPeer, peerCache, i), [LookupFor(localPeer, peerCache, target)]);
        SendLookup(target);
        i := i + 1;
      }
    }

    /** A LOOKUP for the target written by the node itself, towards the nearest cached peer, naming it as relay. */
    method SendLookup(target: Bytes)
      requires Valid() && |target| == IdSize
      modifies this`outbox
      ensures outbox == old(outbox) + [LookupFor(localPeer, peerCache, target)]
    {
      var packet := new Packet();
      packet.Add(OpBytes(LOOKUP));
      packet.Add(localPeer.id);
      packet.Add(target);
      var hop := GetNextPeer(target, localPeer.id);
      packet.Add(hop.id);
      assert packet.Remaining() == LookupMessage(localPeer.id, target, hop.id);
      outbox := outbox + [Protocol.Datagram(packet.Remaining(), hop.ep)];
    }

    /** `disconnect`: a DISCONNECT to every cached peer. */
    method Disconnect()
      requires Valid()
      modifies this`outbox
      ensures State() == Farewell(old(State()))
    {
      var packet := new Packet();
      packet.Add(OpBytes(DISCONNECT));
      packet.Add(localPeer.id);
      assert packet.Remaining() == Bare(DISCONNECT, localPeer.id);
      WriteToEvery(packet.Remaining());
    }

    /**
     * `broadcast(msg)`: the one-time id (drawn at random; a parameter here)
     * is recorded with the text, and the BROADCAST written to every cached
     * peer.
     */
    method Broadcast(msg: Bytes, bid: Bytes)
      requires Valid() && |bid| == IdSize
      modifies this`broadcasts, this`outbox
      ensures Valid() && State() == Broadcasted(old(State()), bid, msg)
    {
      var packet := new Packet();
      packet.Add(OpBytes(BROADCAST));
      packet.Add(localPeer.id);
      packet.Add(bid);
      broadcasts := broadcasts[bid := msg];
      packet.AddStr(msg);
      assert packet.Remaining() == BroadcastMessage(localPeer.id, bid, msg);
      WriteToEvery(packet.Remaining());
    }

    /** The loop over the peer cache: the same bytes to every cached peer, in order. */
    method WriteToEvery(data: Bytes)
      modifies this`outbox
      ensures outbox == old(outbox) + ToEvery(peerCache, data, |peerCache|)
    {
      var i := 0;
      while i < |peerCache|
        invariant 0 <= i <= |peerCache|
        invariant outbox == old(outbox) + ToEvery(peerCache, data, i)
      {
        ProtocolLemmas.Assoc(old(outbox), ToEvery(peerCache, data, i), [Protocol.Datagram(data, peerCache[i].ep)]);
        outbox := outbox + [Protocol.Datagram(data, peerCache[i].ep)];
        i := i + 1;
      }
    }

    // -------------------------------------------------------------------
    // The cache
    // -------------------------------------------------------------------

    /** `addToCache(peer)`: append, with a log line, unless the id is cached. */
    method AddToCache(peer: Peer)
      requires Valid() && |peer.id| == IdSize
      modifies this`peerCache, this`log
      ensures Valid()
      ensures peerCache == Added(old(peerCache), peer.id, peer.ep)
      ensures log == if HasId(old(peerCache), peer.id) then old(log) else old(log) + [PeerAdded(peer.id)]
    {
      var has := false;
      var i := 0;
      while i < |peerCache|
        invariant 0 <= i <= |peerCache|
        invariant !has ==> forall j | 0 <= j < i :: peerCache[j].id != peer.id
        invariant has ==> HasId(peerCache, peer.id)
      {
        if peerCache[i].id == peer.id {
          has := true;
          break;
        }
        i := i + 1;
      }
      if !has {
        log := log + [PeerAdded(peer.id)];
        peerCache := peerCache + [peer];
      }
      AddedProperties(old(peerCache), peer.id, peer.ep, peer.ep);
    }

    /** `isInCache(id)`. */
    method IsInCache(id: Bytes) returns (b: bool)
      ensures b == HasId(peerCache, id)
    {
      var i := 0;
      while i < |peerCache|
        invariant 0 <= i <= |peerCache|
        invariant forall j | 0 <= j < i :: peerCache[j].id != id
      {
        if peerCache[i].id == id {
          return true;
        }
        i := i + 1;
      }
      return false;
    }

    /**
     * `getNextPeer(destination, except)`: a running minimum of the XOR
     * distance, starting from the local peer's, or from no candidate at all
     * when the local id is the excluded one.
     */
    method GetNextPeer(destination: Bytes, except: Bytes) returns (p: Peer)
      requires Valid() && |destination| == IdSize
      ensures p == NextHop(localPeer, peerCache, destination, except)
    {
      var local, cache := localPeer, peerCache;
      var minimalDistance := Xor(local.id, destination);
      var minimalIndex := -1;
      if local.id == except {
        minimalIndex := -2;
      }
      var i := 0;
      while i < |cache|
        invariant 0 <= i <= |cache|
        invariant Scanned(local.id, cache, destination, except, i, minimalIndex, minimalDistance)
      {
        ghost var index, best := minimalIndex, minimalDistance;
        if cache[i].id != except {
          var distance := Xor(cache[i].id, destination);
          if Less(distance, minimalDistance) || minimalIndex == -2 {
            minimalDistance := distance;
            minimalIndex := i;
          }
        }
        ScanStep(local.id, cache, destination, except, i, index, best, minimalIndex, minimalDistance);
        i := i + 1;
      }
      if minimalIndex < 0 {
        p := local;
      } else {
        p := cache[minimalIndex];
      }
    }

    // -------------------------------------------------------------------
    // Receiving
    // -------------------------------------------------------------------

    /** The event loop: each read handled by `process`, in order; its result is a parameter. */
    method ServeEvents(events: seq<Network.ReadResult>, served: Errors.Error) returns (e: Errors.Error)
      requires Valid()
      modifies this`peerCache, this`broadcasts, this`outbox, this`delivered, this`log
      ensures Valid() && State() == Serve(old(State()), events) && e == served
    {
      ghost var n0 := State();
      var i := 0;
      while i < |events|
        invariant 0 <= i <= |events| && Valid()
        invariant Serve(State(), events[i..]) == Serve(n0, events)
      {
        ServeAt(State(), events, i);
        Process(events[i]);
        i := i + 1;
      }
      assert events[i..] == [];
      e := served;
    }

    /** `process`: a timeout is ignored, another error reported, a datagram decoded from its sender. */
    method Process(r: Network.ReadResult)
      requires Valid()
      modifies this`peerCache, this`broadcasts, this`outbox, this`delivered, this`log
      ensures Valid() && State() == Receive(old(State()), r)
    {
      if r.ReadError? {
        if !Errors.Is(r.error, Errors.TIMEOUT) {
          log := log + [Failed(r.error)];
        }
        return;
      }
      var request := new Packet.FromBuffer(r.data, |r.data|);
      assert request.Remaining() == r.data;
      var hopId := FindHopId(r.from);
      ProcessDatagram(request, Context(r.from, hopId));
    }

    /** The sender's id: that of the first cached peer with the sender's endpoint, or zero. */
    method FindHopId(hopEp: Endpoint) returns (hopId: Bytes)
      ensures hopId == HopId(peerCache, hopEp)
    {
      hopId := Zero(IdSize);
      var i := 0;
      while i < |peerCache|
        invariant 0 <= i <= |peerCache|
        invariant forall j | 0 <= j < i :: peerCache[j].ep != hopEp
      {
        if peerCache[i].ep == hopEp {
          hopId := peerCache[i].id;
          return;
        }
        i := i + 1;
      }
    }

    /** The decoding loop of `process`: one sub-message per iteration while bytes are left. */
    method ProcessDatagram(request: Packet, c: Context)
      requires Valid() && request.Valid()
      modifies this`peerCache, this`broadcasts, this`outbox, this`delivered, this`log, request`offset
      ensures Valid() && State() == LegacyProtocol.Process(old(State()), c, old(request.Remaining()))
    {
      ghost var n0, d0 := State(), request.Remaining();
      while request.Size() > 0
        invariant Valid() && request.Valid()
        invariant LegacyProtocol.Process(State(), c, request.Remaining()) == LegacyProtocol.Process(n0, c, d0)
        decreases request.Size()
      {
        ghost var n, data := State(), request.Remaining();
        var packetStartIndex := request.offset;
        var code := request.Get(Zero(Protocol.OpcodeSize));
        var source := request.Get(Zero(IdSize));
        var opcode := OpcodeOf(ToNat(code));
        HandleOpcode(request, packetStartIndex, data, opcode, source, c);
        assert Step(n, c, data) == Outcome(State(), request.Remaining());
      }
    }

    /** The `switch`: each known opcode to its case; NONE and unknown codes are reported. */
    method HandleOpcode(request: Packet, packetStartIndex: int, ghost whole: Bytes, opcode: Protocol.Option<Opcode>,
                        source: Bytes, c: Context)
      requires Valid() && request.Valid() && |source| == IdSize
      requires 0 <= packetStartIndex <= request.offset && whole == request.buffer[packetStartIndex..request.bytes]
      modifies this`peerCache, this`broadcasts, this`outbox, this`delivered, this`log, request`offset
      ensures Valid() && request.Valid()
      ensures Outcome(State(), request.Remaining()) ==
        if opcode.Some? then Dispatch(old(State()), c, opcode.value, source, whole, old(request.Remaining()))
        else Outcome(old(State()).(log := old(log) + [Failed(InvalidOpcode)]), old(request.Remaining()))
    {
      ghost var n, rest := State(), request.Remaining();
      match opcode
      case None =>
        log := log + [Failed(InvalidOpcode)];
      case Some(NONE) =>
        log := log + [Failed(InvalidOpcode)];
      case Some(PING) =>
        HandlePing(c);
      case Some(PONG) =>
      case Some(HANDSHAKE) =>
        HandleHandshake(source, c, true);
      case Some(HANDSHAKE_REPLY) =>
        HandleHandshake(source, c, false);
      case Some(LOOKUP) =>
        HandleLookup(request, packetStartIndex, whole, source, c);
      case Some(LOOKUP_REPLY) =>
        HandleLookupReply(request, packetStartIndex, whole, source, c);
      case Some(ROUTE) =>
        HandleRoute(request, packetStartIndex, whole, source, c);
      case Some(BROADCAST) =>
        HandleBroadcast(request, packetStartIndex, whole, source);
      case Some(DISCONNECT) =>
        HandleDisconnect(source);
    }

    /** PING: a PONG with the local id to the sender's endpoint. */
    method HandlePing(c: Context)
      requires Valid()
      modifies this`outbox
      ensures Valid() && State() == OnPing(old(State()), c, []).node
    {
      var response := new Packet();
      response.Add(OpBytes(PONG));
      response.Add(localPeer.id);
      assert response.Remaining() == Bare(PONG, localPeer.id);
      outbox := outbox + [Protocol.Datagram(response.Remaining(), c.hopEp)];
    }

    /** HANDSHAKE and HANDSHAKE_REPLY: cache the source at the sender's endpoint; answer a HANDSHAKE. */
    method HandleHandshake(source: Bytes, c: Context, reply: bool)
      requires Valid() && |source| == IdSize
      modifies this`peerCache, this`log, this`outbox
      ensures Valid() && State() == OnHandshake(old(State()), c, source, [], reply).node
    {
      AddToCache(Peer(source, c.hopEp));
      if reply {
        var response := new Packet();
        response.Add(OpBytes(HANDSHAKE_REPLY));
        response.Add(localPeer.id);
        assert response.Remaining() == Bare(HANDSHAKE_REPLY, localPeer.id);
        outbox := outbox + [Protocol.Datagram(response.Remaining(), c.hopEp)];
      }
    }

    /** LOOKUP: read the target and the relay, then answer or pass the sub-message on. */
    method HandleLookup(request: Packet, packetStartIndex: int, ghost whole: Bytes, source: Bytes, c: Context)
      requires Valid() && request.Valid() && |source| == IdSize
      requires 0 <= packetStartIndex <= request.offset && whole == request.buffer[packetStartIndex..request.bytes]
      modifies this`outbox, request`offset
      ensures Valid() && request.Valid()
      ensures Outcome(State(), request.Remaining()) == OnLookup(old(State()), c, source, whole, old(request.Remaining()))
    {
      var target, replyHop, x2 := ReadIdPair(request);
      var raw := Consumed(request, packetStartIndex, whole);
      LookupOn(source, c, target, replyHop, raw);
    }

    /** A LOOKUP with its fields read: answered here when no cached peer is nearer the target, else passed on. */
    method LookupOn(source: Bytes, c: Context, target: Bytes, replyHop: Bytes, raw: Bytes)
      requires Valid() && |target| == IdSize && |replyHop| == IdSize
      modifies this`outbox
      ensures Valid() && State() == LookupAnswered(old(State()), c, source, target, replyHop, raw)
    {
      var next := GetNextPeer(target, c.hopId);
      if next.id == localPeer.id {
        AnswerLookup(source, replyHop);
      } else {
        outbox := outbox + [Protocol.Datagram(raw, next.ep)];
      }
    }

    /** The answer to a LOOKUP: a LOOKUP_REPLY with the local entry, towards the relay. */
    method AnswerLookup(source: Bytes, replyHop: Bytes)
      requires Valid() && |replyHop| == IdSize
      modifies this`outbox
      ensures outbox == old(outbox) + [Protocol.Datagram(ReplyMessage(localPeer, source, replyHop),
                                                         NextHop(localPeer, peerCache, replyHop, localPeer.id).ep)]
    {
      var response := new Packet();
      response.Add(OpBytes(LOOKUP_REPLY));
      response.Add(localPeer.id);
      response.Add(source);
      response.Add(replyHop);
      response.Add(HostInt(localPeer.ep.port, Protocol.PortSize));
      response.AddStr(localPeer.ep.address);
      assert response.Remaining() == ReplyMessage(localPeer, source, replyHop);
      var back := GetNextPeer(replyHop, localPeer.id);
      outbox := outbox + [Protocol.Datagram(response.Remaining(), back.ep)];
    }

    /** LOOKUP_REPLY: read destination, relay, port and address, then act on them. */
    method HandleLookupReply(request: Packet, packetStartIndex: int, ghost whole: Bytes, source: Bytes, c: Context)
      requires Valid() && request.Valid() && |source| == IdSize
      requires 0 <= packetStartIndex <= request.offset && whole == request.buffer[packetStartIndex..request.bytes]
      modifies this`peerCache, this`log, this`outbox, request`offset
      ensures Valid() && request.Valid()
      ensures Outcome(State(), request.Remaining()) == OnLookupReply(old(State()), c, source, whole, old(request.Remaining()))
    {
      ghost var n, rest := State(), request.Remaining();
      var destination, replyHop, x2 := ReadIdPair(request);
      ReplyHead(n, c, source, whole, rest, destination, x2, replyHop, request.Remaining());
      HandleReplyTail(request, packetStartIndex, whole, source, c, destination, replyHop);
    }

    /** The rest of a LOOKUP_REPLY once the destination and the relay are read. */
    method HandleReplyTail(request: Packet, packetStartIndex: int, ghost whole: Bytes, source: Bytes, c: Context,
                           destination: Bytes, replyHop: Bytes)
      requires Valid() && request.Valid() && |source| == IdSize && |destination| == IdSize && |replyHop| == IdSize
      requires 0 <= packetStartIndex <= request.offset && whole == request.buffer[packetStartIndex..request.bytes]
      modifies this`peerCache, this`log, this`outbox, request`offset
      ensures Valid() && request.Valid()
      ensures Outcome(State(), request.Remaining()) ==
        OnReplyTail(old(State()), c, source, whole, destination, replyHop, old(request.Remaining()))
    {
      ghost var n, x3 := State(), request.Remaining();
      var port, address, x4 := ReadPortAddress(request);
      var raw := Consumed(request, packetStartIndex, whole);
      var hop := Endpoint(address, ToNat(port));
      ReplyTail(n, c, source, whole, destination, replyHop, x3, port, x4, address, request.Remaining(), raw);
      LookupReplyOn(source, c, destination, replyHop, hop, raw);
    }

    /** LOOKUP_REPLY once read: meet the answering peer, or pass the sub-message on. */
    method LookupReplyOn(source: Bytes, c: Context, destination: Bytes, replyHop: Bytes, hop: Endpoint, raw: Bytes)
      requires Valid() && |source| == IdSize && |destination| == IdSize && |replyHop| == IdSize
      modifies this`peerCache, this`log, this`outbox
      ensures Valid()
      ensures State() == LookupReplied(old(State()), c, source, destination, replyHop, hop, raw)
    {
      if destination == localPeer.id {
        if source != localPeer.id {
          var known := IsInCache(source);
          if !known {
            AddToCache(Peer(source, hop));
            var response := new Packet();
            response.Add(OpBytes(HANDSHAKE));
            response.Add(localPeer.id);
            assert response.Remaining() == Bare(HANDSHAKE, localPeer.id);
            outbox := outbox + [Protocol.Datagram(response.Remaining(), hop)];
          }
        }
        return;
      }
      var next := GetNextPeer(replyHop, c.hopId);
      if next.id == localPeer.id {
        var to := GetNextPeer(destination, localPeer.id);
        outbox := outbox + [Protocol.Datagram(raw, to.ep)];
      } else {
        outbox := outbox + [Protocol.Datagram(raw, next.ep)];
      }
    }

    /** ROUTE: read the destination and the text, then act on them. */
    method HandleRoute(request: Packet, packetStartIndex: int, ghost whole: Bytes, source: Bytes, c: Context)
      requires Valid() && request.Valid() && |source| == IdSize
      requires 0 <= packetStartIndex <= request.offset && whole == request.buffer[packetStartIndex..request.bytes]
      modifies this`outbox, this`delivered, this`log, request`offset
      ensures Valid() && request.Valid()
      ensures Outcome(State(), request.Remaining()) == OnRoute(old(State()), c, source, whole, old(request.Remaining()))
    {
      ghost var n, rest := State(), request.Remaining();
      var destination, msg, x2 := ReadIdText(request);
      var raw := Consumed(request, packetStartIndex, whole);
      RouteRead(n, c, source, whole, rest, destination, x2, msg, request.Remaining(), raw);
      RouteOn(source, c, destination, msg, raw);
    }

    /** ROUTE once read: pass the sub-message on to a nearer peer, or deliver it, or report an invalid route. */
    method RouteOn(source: Bytes, c: Context, destination: Bytes, msg: Bytes, raw: Bytes)
      requires Valid() && |destination| == IdSize
      modifies this`outbox, this`delivered, this`log
      ensures Valid() && State() == Routed(old(State()), c, source, destination, msg, raw)
    {
      var next := GetNextPeer(destination, c.hopId);
      if next.id == localPeer.id {
        if destination == localPeer.id {
          delivered := delivered + [Protocol.Delivery(source, msg)];
        } else {
          log := log + [Failed(InvalidRoute)];
        }
      } else {
        outbox := outbox + [Protocol.Datagram(raw, next.ep)];
      }
    }

    /** BROADCAST: read the one-time id and the text, then act on them. */
    method HandleBroadcast(request: Packet, packetStartIndex: int, ghost whole: Bytes, source: Bytes)
      requires Valid() && request.Valid() && |source| == IdSize
      requires 0 <= packetStartIndex <= request.offset && whole == request.buffer[packetStartIndex..request.bytes]
      modifies this`broadcasts, this`outbox, this`delivered, request`offset
      ensures Valid() && request.Valid()
      ensures Outcome(State(), request.Remaining()) == OnBroadcast(old(State()), source, whole, old(request.Remaining()))
    {
      ghost var n, rest := State(), request.Remaining();
      var oneTimeIdentifier, msg, x2 := ReadIdText(request);
      var raw := Consumed(request, packetStartIndex, whole);
      BroadcastRead(n, source, whole, rest, oneTimeIdentifier, x2, msg, request.Remaining(), raw);
      BroadcastOn(source, oneTimeIdentifier, msg, raw);
    }

    /** BROADCAST once read: a new one-time id is recorded, the sub-message passed on to every cached peer and the text delivered. */
    method BroadcastOn(source: Bytes, oneTimeIdentifier: Bytes, msg: Bytes, raw: Bytes)
      requires Valid()
      modifies this`broadcasts, this`outbox, this`delivered
      ensures Valid() && State() == BroadcastReceived(old(State()), source, oneTimeIdentifier, msg, raw)
    {
      if oneTimeIdentifier in broadcasts {
        return;
      }
      broadcasts := broadcasts[oneTimeIdentifier := msg];
      WriteToEvery(raw);
      delivered := delivered + [Protocol.Delivery(source, msg)];
    }

    /** The sub-message read so far: the bytes from its start to the read cursor, a prefix of what was left at its start. */
    method Consumed(request: Packet, packetStartIndex: int, ghost whole: Bytes) returns (raw: Bytes)
      requires request.Valid() && 0 <= packetStartIndex <= request.offset
      requires whole == request.buffer[packetStartIndex..request.bytes]
      ensures raw == whole[..|whole| - request.Size()]
    {
      Network.SliceOfSlice(request.buffer, packetStartIndex, request.offset, request.bytes);
      raw := request.buffer[packetStartIndex..request.offset];
    }

    /** DISCONNECT: erase the source's entries; if there were any, look up a peer for its level. */
    method HandleDisconnect(source: Bytes)
      requires Valid() && |source| == IdSize
      modifies this`peerCache, this`log, this`outbox
      ensures Valid() && State() == OnDisconnect(old(State()), source, []).node
    {
      ghost var n, c0 := State(), peerCache;
      var wasInCache := Purge(source);
      KeptOk(c0, source);
      if wasInCache {
        var level := DepartedLevel(source);
        var dist := if level >= 0 then ShiftLeft(One(), level) else Zero(IdSize);
        var target := Xor(localPeer.id, dist);
        XorLaws(localPeer.id, localPeer.id);
        assert target == RefillTarget(localPeer.id, source);
        SendLookup(target);
      } else {
        assert log == n.log + [];
      }
      ghost var m := OnDisconnect(n, source, []).node;
      assert m.cache == peerCache && m.log == log && m.outbox == outbox;
    }

    /** The erase loop of DISCONNECT: every entry with the id goes, one log line each. */
    method Purge(source: Bytes) returns (wasInCache: bool)
      modifies this`peerCache, this`log
      ensures peerCache == Kept(old(peerCache), source, |old(peerCache)|)
      ensures log == old(log) + Departures(source, |old(peerCache)| - |peerCache|)
      ensures wasInCache <==> |peerCache| < |old(peerCache)|
      ensures !wasInCache ==> peerCache == old(peerCache)
    {
      ghost var c0, l0 := peerCache, log;
      var i;
      ghost var j;
      peerCache, log, wasInCache, i, j := PurgeLoop(source, peerCache, log);
      PurgeDone(c0, l0, source, peerCache, log, i, j);
    }

    /** The level of the departed id: shift the XOR distance right while it is at least one, counting. */
    method DepartedLevel(source: Bytes) returns (level: int)
      requires Valid() && |source| == IdSize
      ensures level == Level(localPeer.id, source)
    {
      var dist := Xor(source, localPeer.id);
      level := -1;
      OneValue();
      LessIsNumeric(dist, One());
      while GreaterEq(dist, One())
        invariant |dist| == IdSize
        invariant level + 1 + HighBit(ToNat(dist)) == Level(localPeer.id, source)
        invariant GreaterEq(dist, One()) <==> ToNat(dist) > 0
        decreases ToNat(dist)
      {
        ShiftRightValue(dist, 1);
        dist := ShiftRight(dist, 1);
        level := level + 1;
        LessIsNumeric(dist, One());
      }
    }
  }
}
