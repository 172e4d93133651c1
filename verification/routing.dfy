/**
 * The routing table of the peer network (`PeerRoutingTable`).
 *
 * The table is a vector of peers, each an id and an endpoint, with the local
 * peer pinned at index 0. Routing is by XOR distance: the next hop towards a
 * target is the known peer whose id XOR the target is smallest as an
 * unsigned integer. The reference definitions below are pure functions; the
 * class methods run the source's loops and are proved equal to them.
 */
module Routing {
  import opened Blobs

  /** `sizeof(PeerId)`: a peer id is a `Blob<16>`. */
  const IdSize: nat := 16

  /** A network address and port; name resolution is not part of this model. */
  datatype Endpoint = Endpoint(address: Bytes, port: int)

  /** `Endpoint()`: the unset endpoint. */
  const NoEndpoint: Endpoint := Endpoint([], 0)

  datatype Peer = Peer(id: Bytes, ep: Endpoint)

  /** `defaultPeer`: what a failed lookup returns, a zero id and an unset endpoint. */
  const DefaultPeer: Peer := Peer(Zero(IdSize), NoEndpoint)

  /** `(PeerId)1`: the int 1 converted to an id. */
  function One(): (r: Bytes)
    ensures |r| == IdSize
  {
    Convert(IdSize, HostInt(1, 4))
  }

  /** The four host bytes of the int 1. */
  lemma HostOne()
    ensures HostInt(1, 4) == [1, 0, 0, 0]
  {
    assert HostInt(0, 1) == [0];
    assert HostInt(0, 2) == [0, 0];
    assert HostInt(0, 3) == [0, 0, 0];
  }

  /** `(PeerId)1` is byte 0 set to one, so its value is 1. */
  lemma OneValue()
    ensures One() == [1] + Zero(IdSize - 1)
    ensures ToNat(One()) == 1
  {
    var one := One();
    var z := Zero(IdSize - 1);
    assert one == [1] + z by {
      HostOne();
      assert forall i | 0 <= i < IdSize :: one[i] == ([1] + z)[i];
    }
    assert ToNat(one) == 1 by {
      assert one[1..] == z;
      ZeroValue(IdSize - 1);
    }
  }

  /** Every id in the table has the width of a `PeerId`. */
  predicate WellFormed(peers: seq<Peer>)
  {
    forall i | 0 <= i < |peers| :: |peers[i].id| == IdSize
  }

  /** No two entries share an id. */
  predicate UniqueIds(peers: seq<Peer>)
  {
    forall i, j | 0 <= i < j < |peers| :: peers[i].id != peers[j].id
  }

  // ---------------------------------------------------------------------
  // has / get
  // ---------------------------------------------------------------------

  predicate HasId(peers: seq<Peer>, id: Bytes)
  {
    exists i | 0 <= i < |peers| :: peers[i].id == id
  }

  predicate HasEndpoint(peers: seq<Peer>, ep: Endpoint)
  {
    exists i | 0 <= i < |peers| :: peers[i].ep == ep
  }

  /** Index of the first entry with the given id, or |peers| when there is none. */
  function IndexOfId(peers: seq<Peer>, id: Bytes): (k: nat)
    ensures k <= |peers|
    ensures k < |peers| ==> peers[k].id == id
    ensures forall j | 0 <= j < k :: peers[j].id != id
  {
    if peers == [] || peers[0].id == id then 0 else 1 + IndexOfId(peers[1..], id)
  }

  /** Index of the first entry with the given endpoint, or |peers| when there is none. */
  function IndexOfEndpoint(peers: seq<Peer>, ep: Endpoint): (k: nat)
    ensures k <= |peers|
    ensures k < |peers| ==> peers[k].ep == ep
    ensures forall j | 0 <= j < k :: peers[j].ep != ep
  {
    if peers == [] || peers[0].ep == ep then 0 else 1 + IndexOfEndpoint(peers[1..], ep)
  }

  /** `get(id)`: the first entry with that id, or `defaultPeer`. */
  function GetById(peers: seq<Peer>, id: Bytes): (r: Peer)
    ensures HasId(peers, id) ==>
      r.id == id && exists k | 0 <= k < |peers| :: r == peers[k] && forall j | 0 <= j < k :: peers[j].id != id
    ensures !HasId(peers, id) ==> r == DefaultPeer
  {
    var k := IndexOfId(peers, id);
    if k < |peers| then peers[k] else DefaultPeer
  }

  /** `get(ep)`: the first entry with that endpoint, or `defaultPeer`. */
  function GetByEndpoint(peers: seq<Peer>, ep: Endpoint): (r: Peer)
    ensures HasEndpoint(peers, ep) ==>
      r.ep == ep && exists k | 0 <= k < |peers| :: r == peers[k] && forall j | 0 <= j < k :: peers[j].ep != ep
    ensures !HasEndpoint(peers, ep) ==> r == DefaultPeer
  {
    var k := IndexOfEndpoint(peers, ep);
    if k < |peers| then peers[k] else DefaultPeer
  }

  // ---------------------------------------------------------------------
  // add / remove
  // ---------------------------------------------------------------------

  /** `add(id, ep)`: append only when no entry has the id yet. */
  function Added(peers: seq<Peer>, id: Bytes, ep: Endpoint): seq<Peer>
  {
    if HasId(peers, id) then peers else peers + [Peer(id, ep)]
  }

  /**
   * `add` is idempotent, keeps the first endpoint recorded for an id, never
   * moves an existing entry, and keeps the ids unique.
   */
  lemma AddedProperties(peers: seq<Peer>, id: Bytes, ep: Endpoint, ep2: Endpoint)
    ensures HasId(Added(peers, id, ep), id)
    ensures Added(Added(peers, id, ep), id, ep2) == Added(peers, id, ep)
    ensures GetById(Added(peers, id, ep), id) == if HasId(peers, id) then GetById(peers, id) else Peer(id, ep)
    ensures Added(peers, id, ep)[..|peers|] == peers
    ensures UniqueIds(peers) ==> UniqueIds(Added(peers, id, ep))
    ensures WellFormed(peers) && |id| == IdSize ==> WellFormed(Added(peers, id, ep))
  {
    var r := Added(peers, id, ep);
    if !HasId(peers, id) {
      assert r[|peers|].id == id;
      assert IndexOfId(r, id) == |peers|;
    }
  }

  /** The first n entries of ps, in order, without those carrying the id. */
  function Kept(ps: seq<Peer>, id: Bytes, n: nat): (r: seq<Peer>)
    requires n <= |ps|
    ensures |r| <= n
  {
    if n == 0 then [] else Kept(ps, id, n - 1) + (if ps[n - 1].id != id then [ps[n - 1]] else [])
  }

  /** `remove(id)`: the local entry, then every later entry whose id differs. */
  function Removed(peers: seq<Peer>, id: Bytes): seq<Peer>
    requires |peers| >= 1
  {
    [peers[0]] + Kept(peers[1..], id, |peers| - 1)
  }

  /** Every kept entry is one of the first n entries, with a different id. */
  lemma {:induction false} KeptFrom(ps: seq<Peer>, id: Bytes, n: nat)
    requires n <= |ps|
    ensures forall i | 0 <= i < |Kept(ps, id, n)| ::
      exists m | 0 <= m < n :: Kept(ps, id, n)[i] == ps[m] && ps[m].id != id
  {
    if n > 0 {
      KeptFrom(ps, id, n - 1);
      var k, kn := Kept(ps, id, n - 1), Kept(ps, id, n);
      assert kn == k + (if ps[n - 1].id != id then [ps[n - 1]] else []);
      forall i | 0 <= i < |kn|
        ensures exists m | 0 <= m < n :: kn[i] == ps[m] && ps[m].id != id
      {
        if i < |k| {
          assert kn[i] == k[i];
          var m :| 0 <= m < n - 1 && k[i] == ps[m] && ps[m].id != id;
          assert kn[i] == ps[m] && m < n;
        } else {
          assert ps[n - 1].id != id && kn == k + [ps[n - 1]];
          assert kn[i] == ps[n - 1];
        }
      }
    } else {
      assert Kept(ps, id, n) == [];
    }
  }

  /** Every one of the first n entries with a different id is kept. */
  lemma {:induction false} KeptHas(ps: seq<Peer>, id: Bytes, n: nat)
    requires n <= |ps|
    ensures forall m | 0 <= m < n && ps[m].id != id :: ps[m] in Kept(ps, id, n)
  {
    if n > 0 {
      KeptHas(ps, id, n - 1);
      var k, kn := Kept(ps, id, n - 1), Kept(ps, id, n);
      forall m | 0 <= m < n && ps[m].id != id
        ensures ps[m] in kn
      {
        if m < n - 1 {
          var x :| 0 <= x < |k| && k[x] == ps[m];
          assert kn[x] == k[x];
        } else {
          assert kn[|k|] == ps[m];
        }
      }
    }
  }

  /** Kept drops something exactly when one of the first n entries carries the id. */
  lemma {:induction false} KeptShorter(ps: seq<Peer>, id: Bytes, n: nat)
    requires n <= |ps|
    ensures |Kept(ps, id, n)| < n <==> exists m | 0 <= m < n :: ps[m].id == id
  {
    if n > 0 {
      KeptShorter(ps, id, n - 1);
      if exists m | 0 <= m < n :: ps[m].id == id {
        var m :| 0 <= m < n && ps[m].id == id;
        if m < n - 1 {
          assert |Kept(ps, id, n - 1)| < n - 1;
        }
      }
    }
  }

  /** Kept is a subsequence: it keeps the ids unique. */
  lemma {:induction false} KeptUnique(ps: seq<Peer>, id: Bytes, n: nat)
    requires n <= |ps| && UniqueIds(ps)
    ensures UniqueIds(Kept(ps, id, n))
  {
    if n > 0 {
      KeptUnique(ps, id, n - 1);
      var k := Kept(ps, id, n - 1);
      if ps[n - 1].id != id {
        forall i | 0 <= i < |k|
          ensures k[i].id != ps[n - 1].id
        {
          KeptFrom(ps, id, n - 1);
          var m :| 0 <= m < n - 1 && k[i] == ps[m] && ps[m].id != id;
        }
      }
    }
  }

  /**
   * `remove(id)` never removes the local entry and removes every later entry
   * with the id and nothing else.
   */
  lemma RemovedProperties(peers: seq<Peer>, id: Bytes)
    requires |peers| >= 1
    ensures Removed(peers, id)[0] == peers[0]
    ensures forall i | 1 <= i < |Removed(peers, id)| ::
      Removed(peers, id)[i].id != id && exists m | 1 <= m < |peers| :: Removed(peers, id)[i] == peers[m]
    ensures forall m | 1 <= m < |peers| && peers[m].id != id :: peers[m] in Removed(peers, id)
  {
    var tail, r := peers[1..], Removed(peers, id);
    var n := |tail|;
    var k := Kept(tail, id, n);
    forall i | 1 <= i < |r|
      ensures r[i].id != id && exists m | 1 <= m < |peers| :: r[i] == peers[m]
    {
      assert r[i] == k[i - 1];
      KeptFrom(tail, id, n);
      var m :| 0 <= m < n && k[i - 1] == tail[m] && tail[m].id != id;
      assert r[i] == peers[m + 1];
    }
    forall m | 1 <= m < |peers| && peers[m].id != id
      ensures peers[m] in r
    {
      assert peers[m] == tail[m - 1];
      KeptHas(tail, id, n);
    }
  }

  /** `remove` reports a removal exactly when a later entry carried the id. */
  lemma RemovedChanged(peers: seq<Peer>, id: Bytes)
    requires |peers| >= 1
    ensures Removed(peers, id) != peers <==> HasId(peers[1..], id)
  {
    var tail := peers[1..];
    var n := |tail|;
    KeptShorter(tail, id, n);
    if !HasId(tail, id) {
      forall i | 0 <= i < n
        ensures Kept(tail, id, n)[i] == tail[i]
      {
        KeptAll(tail, id, n, i);
      }
      assert peers == [peers[0]] + tail;
    }
  }

  /** With no entry carrying the id, Kept keeps every entry in place. */
  lemma {:induction false} KeptAll(ps: seq<Peer>, id: Bytes, n: nat, i: nat)
    requires i < n <= |ps|
    requires forall m | 0 <= m < n :: ps[m].id != id
    ensures |Kept(ps, id, n)| == n && Kept(ps, id, n)[i] == ps[i]
  {
    if i < n - 1 {
      KeptAll(ps, id, n - 1, i);
    } else if n > 1 {
      KeptAll(ps, id, n - 1, 0);
    }
  }

  /**
   * One step of the erase loop of `remove`: the entry under the cursor is
   * the next unscanned one, and erasing it or stepping over it extends the
   * kept prefix.
   */
  lemma RemoveStep(peers: seq<Peer>, local: Peer, tail: seq<Peer>, id: Bytes, i: nat, j: nat)
    requires j < |tail| && i == 1 + |Kept(tail, id, j)|
    requires peers == [local] + Kept(tail, id, j) + tail[j..]
    ensures i < |peers| && peers[i] == tail[j]
    ensures peers[i].id == id ==>
      peers[..i] + peers[i + 1..] == [local] + Kept(tail, id, j + 1) + tail[j + 1..] &&
      i == 1 + |Kept(tail, id, j + 1)|
    ensures peers[i].id != id ==>
      peers == [local] + Kept(tail, id, j + 1) + tail[j + 1..] &&
      i + 1 == 1 + |Kept(tail, id, j + 1)|
  {
    var k, k' := Kept(tail, id, j), Kept(tail, id, j + 1);
    var front := [local] + k;
    assert tail[j..] == [tail[j]] + tail[j + 1..];
    assert peers == front + [tail[j]] + tail[j + 1..];
    assert peers[..i] == front && peers[i + 1..] == tail[j + 1..];
    if tail[j].id == id {
      assert k' == k;
    } else {
      assert k' == k + [tail[j]];
      assert front + [tail[j]] == [local] + k';
    }
  }

  /** `remove` keeps the ids unique. */
  lemma RemovedUnique(peers: seq<Peer>, id: Bytes)
    requires |peers| >= 1 && UniqueIds(peers)
    ensures UniqueIds(Removed(peers, id))
  {
    var tail := peers[1..];
    assert UniqueIds(tail) by {
      forall i, j | 0 <= i < j < |tail|
        ensures tail[i].id != tail[j].id
      {
        assert tail[i] == peers[i + 1] && tail[j] == peers[j + 1];
      }
    }
    KeptUnique(tail, id, |tail|);
    var k := Kept(tail, id, |tail|);
    var r := Removed(peers, id);
    forall i, j | 0 <= i < j < |r|
      ensures r[i].id != r[j].id
    {
      assert r[j] == k[j - 1];
      if i == 0 {
        RemovedProperties(peers, id);
      } else {
        assert r[i] == k[i - 1];
      }
    }
  }

  /** `remove` keeps every id a `PeerId`. */
  lemma RemovedWellFormed(peers: seq<Peer>, id: Bytes)
    requires |peers| >= 1 && WellFormed(peers)
    ensures WellFormed(Removed(peers, id))
  {
    RemovedProperties(peers, id);
  }

  // ---------------------------------------------------------------------
  // getNext: the XOR-nearest entry
  // ---------------------------------------------------------------------

  /** The XOR distance between a target and an id, as an unsigned integer. */
  function Distance(t: Bytes, id: Bytes): nat
    requires |t| == |id|
  {
    ToNat(Xor(t, id))
  }

  /**
   * The running minimum of `getNext` after scanning the first n entries:
   * -1 while no entry other than `except` was seen, else the index of the
   * first entry of least XOR distance.
   */
  function NextUpTo(peers: seq<Peer>, t: Bytes, except: Bytes, n: nat): (m: int)
    requires n <= |peers| && WellFormed(peers) && |t| == IdSize
    ensures -1 <= m < n
    ensures m >= 0 ==> peers[m].id != except
  {
    if n == 0 then -1
    else
      var m := NextUpTo(peers, t, except, n - 1);
      if peers[n - 1].id != except && (m == -1 || Less(Xor(t, peers[n - 1].id), Xor(t, peers[m].id)))
      then n - 1 else m
  }

  /** `getNext(t, except)`: the entry chosen by the scan, or `defaultPeer`. */
  function NextPeer(peers: seq<Peer>, t: Bytes, except: Bytes): Peer
    requires WellFormed(peers) && |t| == IdSize
  {
    var m := NextUpTo(peers, t, except, |peers|);
    if m >= 0 then peers[m] else DefaultPeer
  }

  /**
   * What the scan computes: nothing iff every entry is `except`; otherwise
   * an entry other than `except` of least XOR distance, strictly nearer than
   * every earlier candidate (ties go to the lowest index).
   */
  lemma {:induction false} NextUpToMinimal(peers: seq<Peer>, t: Bytes, except: Bytes, n: nat)
    requires n <= |peers| && WellFormed(peers) && |t| == IdSize
    ensures var m := NextUpTo(peers, t, except, n);
      (m == -1 <==> forall j | 0 <= j < n :: peers[j].id == except) &&
      (m >= 0 ==> forall j | 0 <= j < n && peers[j].id != except ::
        Distance(t, peers[m].id) <= Distance(t, peers[j].id)) &&
      (m >= 0 ==> forall j | 0 <= j < m && peers[j].id != except ::
        Distance(t, peers[m].id) < Distance(t, peers[j].id))
  {
    if n > 0 {
      NextUpToMinimal(peers, t, except, n - 1);
      var m := NextUpTo(peers, t, except, n - 1);
      var c := peers[n - 1];
      if c.id != except && m >= 0 {
        LessIsNumeric(Xor(t, c.id), Xor(t, peers[m].id));
      }
    }
  }

  /** `getNext` returns `defaultPeer` exactly when every entry is `except`. */
  lemma NextPeerDefault(peers: seq<Peer>, t: Bytes, except: Bytes)
    requires WellFormed(peers) && |t| == IdSize
    ensures (forall j | 0 <= j < |peers| :: peers[j].id == except) ==> NextPeer(peers, t, except) == DefaultPeer
    ensures (exists j | 0 <= j < |peers| :: peers[j].id != except) ==>
      NextPeer(peers, t, except) in peers && NextPeer(peers, t, except).id != except
  {
    NextUpToMinimal(peers, t, except, |peers|);
  }

  /** A present id other than `except` is its own next hop. */
  lemma NextPeerFindsTarget(peers: seq<Peer>, t: Bytes, except: Bytes)
    requires WellFormed(peers) && |t| == IdSize
    requires HasId(peers, t) && t != except
    ensures NextPeer(peers, t, except).id == t
  {
    var m := NextUpTo(peers, t, except, |peers|);
    NextUpToMinimal(peers, t, except, |peers|);
    var i :| 0 <= i < |peers| && peers[i].id == t;
    XorLaws(t, t);
    ZeroValue(IdSize);
    assert Distance(t, peers[i].id) == 0;
    var d := Xor(t, peers[m].id);
    assert ToNat(d) == 0;
    ToNatInjective(d, Zero(IdSize));
    XorZeroIff(t, peers[m].id);
  }

  // ---------------------------------------------------------------------
  // getLevel / lookupTarget
  // ---------------------------------------------------------------------

  /** The index of the highest set bit of n, or -1 for zero. */
  function HighBit(n: nat): (r: int)
    ensures r >= -1 && (r == -1 <==> n == 0)
  {
    if n == 0 then -1 else 1 + HighBit(n / 2)
  }

  /** A positive number lies between 2^HighBit and 2^(HighBit + 1). */
  lemma {:induction false} HighBitRange(n: nat)
    requires n > 0
    ensures 0 <= HighBit(n) && Pow2(HighBit(n)) <= n < Pow2(HighBit(n) + 1)
  {
    if n > 1 {
      HighBitRange(n / 2);
    }
  }

  lemma {:induction false} HighBitPow2(l: nat)
    ensures HighBit(Pow2(l)) == l
  {
    if l > 0 {
      assert Pow2(l) / 2 == Pow2(l - 1);
      HighBitPow2(l - 1);
    }
  }

  /** `getLevel(id)`: the highest bit in which id differs from the local id. */
  function Level(local: Bytes, id: Bytes): int
    requires |local| == |id|
  {
    HighBit(ToNat(Xor(id, local)))
  }

  /**
   * The level is -1 exactly for the local id itself; otherwise the XOR
   * distance has its highest set bit there.
   */
  lemma LevelMeaning(local: Bytes, id: Bytes)
    requires |local| == |id|
    ensures Level(local, id) == -1 <==> id == local
    ensures Level(local, id) >= 0 ==>
      Pow2(Level(local, id)) <= Distance(id, local) < Pow2(Level(local, id) + 1)
  {
    var d := Xor(id, local);
    XorZeroIff(id, local);
    ZeroValue(|id|);
    if ToNat(d) == 0 {
      ToNatInjective(d, Zero(|id|));
    } else {
      HighBitRange(ToNat(d));
    }
  }

  /** A level is a bit position of a `PeerId`: below 128. */
  lemma LevelBound(local: Bytes, id: Bytes)
    requires |local| == IdSize && |id| == IdSize
    ensures Level(local, id) < 8 * IdSize
  {
    var l := Level(local, id);
    if l >= 0 {
      LevelMeaning(local, id);
      assert Pow2(l) < Pow2(8 * IdSize) by {
        ToNatBound(Xor(id, local));
        Pow2Bytes(IdSize);
      }
      if l >= 8 * IdSize {
        Pow2Add(8 * IdSize, l - 8 * IdSize);
        MulLe(Pow2(8 * IdSize), 1, Pow2(l - 8 * IdSize));
      }
    }
  }

  /** `lookupTarget(level)`: the local id with bit `level` flipped. */
  function LookupTarget(local: Bytes, level: nat): (r: Bytes)
    requires |local| == IdSize
    ensures |r| == IdSize
  {
    Xor(local, ShiftLeft(One(), level))
  }

  /** The target of a level lies at that level: getLevel(lookupTarget(l)) == l. */
  lemma LevelOfLookupTarget(local: Bytes, l: nat)
    requires |local| == IdSize && l < 8 * IdSize
    ensures Level(local, LookupTarget(local, l)) == l
  {
    TargetDistance(local, l);
    BitValue(l);
    HighBitPow2(l);
  }

  /** The target of level l differs from the local id by exactly `1 << l`. */
  lemma TargetDistance(local: Bytes, l: nat)
    requires |local| == IdSize
    ensures Xor(LookupTarget(local, l), local) == ShiftLeft(One(), l)
  {
    var s := ShiftLeft(One(), l);
    XorAlgebra(local, s, local);
    XorAlgebra(s, local, local);
    XorLaws(s, local);
  }

  /** Below the width, `(PeerId)1 << l` is 2^l. */
  lemma BitValue(l: nat)
    requires l < 8 * IdSize
    ensures ToNat(ShiftLeft(One(), l)) == Pow2(l)
  {
    var p, m := Pow2(l), Pow256(IdSize);
    assert p < m by {
      var e := 8 * IdSize - l;
      var q := Pow2(e);
      Pow2Add(l, e);
      assert l + e == 8 * IdSize;
      Pow2Bytes(IdSize);
      assert q == 2 * Pow2(e - 1);
      MulLe(p, 2, q);
    }
    var one := One();
    assert ToNat(one) == 1 by {
      OneValue();
    }
    ShiftLeftValue(one, l);
    assert ToNat(one) * p == p;
    DivModUnique(p, m, 0, p);
  }

  // ---------------------------------------------------------------------
  // hex
  // ---------------------------------------------------------------------

  const Digits: seq<char> := "0123456789abcdef"

  /** Character k of the hex form: byte N-1-k/2, high nibble at even k. */
  function Nibble(id: Bytes, k: nat): (r: nat)
    requires k < 2 * |id|
    ensures r < 16
  {
    var b := id[|id| - 1 - k / 2] as nat;
    if k % 2 == 0 then b / 16 else b % 16
  }

  /** Every byte as two lowercase hex digits, most significant byte first. */
  function HexOf(id: Bytes): (r: seq<char>)
    ensures |r| == 2 * |id|
  {
    seq(2 * |id|, k requires 0 <= k < 2 * |id| => Digits[Nibble(id, k)])
  }

  /** The two characters of byte i follow those of the bytes above it. */
  lemma HexStep(id: Bytes, i: nat)
    requires i < |id|
    ensures var k := 2 * (|id| - 1 - i);
      HexOf(id)[..k + 2] == HexOf(id)[..k] + [Digits[id[i] as int / 16], Digits[id[i] as int % 16]]
  {
    var k := 2 * (|id| - 1 - i);
    var h := HexOf(id);
    NibblePair(id, i);
    assert h[k] == Digits[id[i] as int / 16] && h[k + 1] == Digits[id[i] as int % 16];
    assert h[..k + 2] == h[..k] + [h[k], h[k + 1]];
  }

  /** Characters 2(N-1-i) and the one after it are the high and the low nibble of byte i. */
  lemma NibblePair(id: Bytes, i: nat)
    requires i < |id|
    ensures Nibble(id, 2 * (|id| - 1 - i)) == id[i] as int / 16
    ensures Nibble(id, 2 * (|id| - 1 - i) + 1) == id[i] as int % 16
  {
    var m := |id| - 1 - i;
    assert (2 * m) / 2 == m && (2 * m + 1) / 2 == m && (2 * m) % 2 == 0 && (2 * m + 1) % 2 == 1;
  }

  /** `hex(id, shortVersion)`: the full form, or its first four characters. */
  function Hex(id: Bytes, short: bool): (r: seq<char>)
    requires |id| == IdSize
    ensures |r| == if short then 4 else 2 * IdSize
    ensures forall c | c in r :: c in Digits
    ensures short ==> r == Hex(id, false)[..4]
  {
    if short then HexOf(id)[..4] else HexOf(id)
  }

  // ---------------------------------------------------------------------
  // The table object
  // ---------------------------------------------------------------------

  class RoutingTable {
    var peers: seq<Peer>

    /** The local entry exists and every id is a `PeerId`. */
    ghost predicate Valid()
      reads this
    {
      |peers| >= 1 && WellFormed(peers)
    }

    /** `PeerRoutingTable()`: just the local peer, with id `(PeerId)0`. */
    constructor ()
      ensures Valid() && UniqueIds(peers)
      ensures peers == [Peer(Zero(IdSize), NoEndpoint)]
    {
      var zero := Convert(IdSize, HostInt(0, 4));
      assert zero == Zero(IdSize) by {
        assert forall i | 0 <= i < 4 :: HostInt(0, 4)[i] == 0;
      }
      peers := [Peer(zero, NoEndpoint)];
    }

    /** `localPeer()`: the entry at index 0. */
    function LocalPeer(): (p: Peer)
      reads this
      requires Valid()
      ensures p in peers && |p.id| == IdSize
    {
      peers[0]
    }

    /** Assigning through `localPeer()`: replace the local entry. */
    method SetLocal(p: Peer)
      requires Valid() && |p.id| == IdSize
      modifies this
      ensures Valid() && peers == old(peers)[0 := p]
    {
      peers := peers[0 := p];
    }

    /** `has(id)`. */
    method Has(id: Bytes) returns (b: bool)
      ensures b == HasId(peers, id)
    {
      var i := 0;
      while i < |peers|
        invariant 0 <= i <= |peers|
        invariant forall j | 0 <= j < i :: peers[j].id != id
      {
        if peers[i].id == id {
          return true;
        }
        i := i + 1;
      }
      return false;
    }

    /** `has(ep)`. */
    method HasEp(ep: Endpoint) returns (b: bool)
      ensures b == HasEndpoint(peers, ep)
    {
      var i := 0;
      while i < |peers|
        invariant 0 <= i <= |peers|
        invariant forall j | 0 <= j < i :: peers[j].ep != ep
      {
        if peers[i].ep == ep {
          return true;
        }
        i := i + 1;
      }
      return false;
    }

    /** `get(id)`. */
    method Get(id: Bytes) returns (p: Peer)
      ensures p == GetById(peers, id)
    {
      var i := 0;
      while i < |peers|
        invariant 0 <= i <= |peers|
        invariant forall j | 0 <= j < i :: peers[j].id != id
      {
        if peers[i].id == id {
          return peers[i];
        }
        i := i + 1;
      }
      return DefaultPeer;
    }

    /** `get(ep)`. */
    method GetEp(ep: Endpoint) returns (p: Peer)
      ensures p == GetByEndpoint(peers, ep)
    {
      var i := 0;
      while i < |peers|
        invariant 0 <= i <= |peers|
        invariant forall j | 0 <= j < i :: peers[j].ep != ep
      {
        if peers[i].ep == ep {
          return peers[i];
        }
        i := i + 1;
      }
      return DefaultPeer;
    }

    /** `add(id, ep)` (and `add(peer)`): append unless the id is known. */
    method Add(id: Bytes, ep: Endpoint)
      requires Valid() && |id| == IdSize
      modifies this
      ensures Valid() && peers == Added(old(peers), id, ep)
      ensures UniqueIds(old(peers)) ==> UniqueIds(peers)
    {
      var known := Has(id);
      if !known {
        peers := peers + [Peer(id, ep)];
      }
      AddedProperties(old(peers), id, ep, ep);
    }

    /** `remove(id)`: erase matching entries from index 1 on; report whether any was. */
    method Remove(id: Bytes) returns (removed: bool)
      requires Valid()
      modifies this
      ensures Valid() && peers == Removed(old(peers), id)
      ensures removed <==> HasId(old(peers)[1..], id)
      ensures UniqueIds(old(peers)) ==> UniqueIds(peers)
    {
      ghost var ps := peers;
      ghost var tail := ps[1..];
      removed := false;
      var i := 1;
      ghost var j := 0;
      while i < |peers|
        invariant 0 <= j <= |tail| && i == 1 + |Kept(tail, id, j)|
        invariant peers == [ps[0]] + Kept(tail, id, j) + tail[j..]
        invariant removed <==> |Kept(tail, id, j)| < j
        decreases |peers| - i
      {
        RemoveStep(peers, ps[0], tail, id, i, j);
        if peers[i].id == id {
          peers := peers[..i] + peers[i + 1..];
          i := i - 1;
          removed := true;
        }
        i := i + 1;
        j := j + 1;
      }
      assert tail[j..] == [];
      KeptShorter(tail, id, j);
      RemovedWellFormed(ps, id);
      if UniqueIds(ps) {
        RemovedUnique(ps, id);
      }
    }

    /** `getNext(t, except)`: keep a running minimum of the XOR distance. */
    method GetNext(t: Bytes, except: Bytes) returns (p: Peer)
      requires Valid() && |t| == IdSize
      ensures p == NextPeer(peers, t, except)
    {
      var minIndex := -1;
      var minDistance := Zero(IdSize);
      var i := 0;
      while i < |peers|
        invariant 0 <= i <= |peers| && |minDistance| == IdSize
        invariant minIndex == NextUpTo(peers, t, except, i)
        invariant minIndex >= 0 ==> minDistance == Xor(t, peers[minIndex].id)
      {
        if peers[i].id != except {
          var distance := Xor(t, peers[i].id);
          if minIndex == -1 || Less(distance, minDistance) {
            minDistance := distance;
            minIndex := i;
          }
        }
        i := i + 1;
      }
      if minIndex != -1 {
        p := peers[minIndex];
      } else {
        p := DefaultPeer;
      }
    }

    /** `lookupTarget(level)`. */
    method LookupTargetOf(level: int) returns (t: Bytes)
      requires Valid() && 0 <= level
      ensures t == LookupTarget(LocalPeer().id, level)
    {
      t := Xor(peers[0].id, ShiftLeft(One(), level));
    }

    /** `getLevel(id)`: shift the distance right until it is zero, counting. */
    method GetLevel(id: Bytes) returns (level: int)
      requires Valid() && |id| == IdSize
      ensures level == Level(LocalPeer().id, id)
    {
      var dist := Xor(id, peers[0].id);
      level := -1;
      ZeroValue(IdSize);
      GreaterIsNumeric(dist, Zero(IdSize));
      while Greater(dist, Zero(IdSize))
        invariant |dist| == IdSize
        invariant level + 1 + HighBit(ToNat(dist)) == Level(peers[0].id, id)
        invariant Greater(dist, Zero(IdSize)) <==> ToNat(dist) > 0
        decreases ToNat(dist)
      {
        ShiftRightValue(dist, 1);
        dist := ShiftRight(dist, 1);
        level := level + 1;
        GreaterIsNumeric(dist, Zero(IdSize));
      }
    }
  }

  /** `hex(id, shortVersion)`: two digits per byte from byte 15 down, stopping after byte 14 when short. */
  method HexString(id: Bytes, short: bool) returns (s: seq<char>)
    requires |id| == IdSize
    ensures s == Hex(id, short)
  {
    s := [];
    var i := IdSize as int - 1;
    while i >= 0
      invariant -1 <= i < IdSize
      invariant short ==> i >= IdSize - 2
      invariant s == HexOf(id)[..2 * (IdSize - 1 - i)]
      decreases i
    {
      var value := id[i] as int;
      HexStep(id, i);
      s := s + [Digits[value / 16], Digits[value % 16]];
      if short && i <= IdSize - 2 {
        return;
      }
      i := i - 1;
    }
    assert !short ==> HexOf(id)[..2 * IdSize] == HexOf(id);
  }
}
