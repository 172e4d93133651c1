# pnet peer overlay, modelled in Dafny

pnet is a small C++ peer-to-peer overlay over UDP. Every node has a random
128-bit identifier (`PeerId`, a `Blob<16>`), keeps a flat table of known
peers, and routes messages greedily to the peer whose identifier is nearest
the destination in XOR distance. This project models the core of that
system and proves properties of the model:

- `Blob<N>` (module `Blobs`, blob.dfy): a fixed-width little-endian byte
  string with comparison, bitwise and shift operators. Each operator is
  proved against the unsigned integer the bytes denote.
- `Packet` (module `Codec`, packet.dfy): the byte buffer with a write end
  and a read cursor that every message is built in and decoded from. The
  `add`/`get`/`addStr`/`getStr` field codec is proved to round-trip.
- `Error` (module `Errors`, error.dfy): the error value with its code and
  its comparison rules.
- `PeerRoutingTable` (module `Routing`, routing.dfy): the peer table. The
  local peer sits at index 0. The module covers nearest-peer selection
  (`getNext`), levels (`getLevel`), lookup targets and the `hex` printer.
- The current `PeerNetwork` (src/socket/peer/). Module `Protocol`
  (protocol.dfy) is a value-level state machine: one function per opcode
  case, the decoding loop and the loop variables `source` and
  `destination`. Module `ProtocolLemmas` (protocol_lemmas.dfy) proves what
  each message does on arrival. Module `Network` (network.dfy) is the
  class whose methods update the table, the broadcast-id set and the
  outbox in place; each is proved equal to the protocol functions through
  `State()`.
- The earlier `PeerNetwork` (src/socket/PeerNetwork.cpp) is modelled the
  same way:
  - `LegacyProtocol` (legacy_protocol.dfy) holds the protocol functions.
  - `LegacyLemmas` (legacy_lemmas.dfy) holds the arrival lemmas.
  - `LegacyNetwork` (legacy_network.dfy) holds the imperative class.
- The console of the demo program (module `Console`, console.dfy): what a
  typed line makes the program do, and the parser of `@<hex id> <text>`.

Both protocol modules state what a handler may never break as `Keeps`:
the local entry is unchanged, the table holds 16-byte ids with no id twice,
and the outbox, the deliveries, the log and the seen broadcast ids only
grow. Below, "keeps the node invariant" means exactly that.

Sockets are replaced by an explicit outbox of `Datagram(data, to)` values.
The message callback becomes a `delivered` list. The log callback becomes a
`log` list of typed entries. Each read is a `ReadResult` parameter: a
datagram with its sender, or an error. Random identifiers and the shuffle
order of the entry nodes are also parameters.

## Model

| member | source | states |
|---|---|---|
| Blobs.Zero | src/pnet/Blob.h:16-20 | `Blob()` has N bytes; `ZeroValue` and `ToNatZeroIff` give its meaning |
| Blobs.ZeroValue | src/pnet/Blob.h:16-20 | the default blob is the number 0 |
| Blobs.ToNatZeroIff | src/pnet/Blob.h:16-20 | only the all-zero blob denotes 0 |
| Blobs.ToNatInjective | src/pnet/Blob.h:49-56 | two blobs of one width that denote the same number are the same blob |
| Blobs.Convert | src/pnet/Blob.h:38-47 | converting a value copies min(N, sizeof t) host bytes and zero-fills the rest; the result has width N |
| Blobs.ConvertValue | src/pnet/Blob.h:38-47 | a conversion keeps the value modulo 256^N: it truncates or zero-extends |
| Blobs.HostInt | src/pnet/Blob.h:38-47 | the host (two's complement, little-endian) bytes of an integer of width w |
| Blobs.HostIntValue | src/pnet/Blob.h:38-47 | those bytes read back as the integer modulo 256^w |
| Blobs.HostIntSigned | src/pnet/Blob.h:38-47 | an integer that fits in w bytes is read back exactly as a signed value |
| Blobs.Equal | src/pnet/Blob.h:49-56 | `==` holds exactly when the blobs are equal |
| Blobs.NotEqual | src/pnet/Blob.h:58-60 | `!=` holds exactly when the blobs differ |
| Blobs.LessIsNumeric | src/pnet/Blob.h:62-71 | the byte loop of `<` from the top byte down is the unsigned numeric order |
| Blobs.GreaterIsNumeric | src/pnet/Blob.h:73-82 | `>` with its own loop is the reverse numeric order |
| Blobs.NonStrictIsNumeric | src/pnet/Blob.h:84-90 | `<=` (not `>`) and `>=` (not `<`) are the non-strict numeric orders |
| Blobs.Trichotomy | src/pnet/Blob.h:62-82 | exactly one of `a < b`, `a == b`, `a > b` holds |
| Blobs.LessTransitive | src/pnet/Blob.h:62-71 | `<` is transitive |
| Blobs.XorLaws | src/pnet/Blob.h:108-114 | `a ^ b ^ b == a`, `a ^ a == 0` and `a ^ 0 == a` |
| Blobs.XorAlgebra | src/pnet/Blob.h:108-114 | the XOR distance is symmetric and associative |
| Blobs.XorZeroIff | src/pnet/Blob.h:108-114 | `a ^ b` is zero exactly when `a == b`: the distance is zero only to oneself |
| Blobs.NotLaws | src/pnet/Blob.h:116-122 | `~~a == a`, and each byte of `~a` is 255 minus the byte of `a` |
| Blobs.AndOrLaws | src/pnet/Blob.h:92-106 | `&` and `\|` commute, zero absorbs `&` and is neutral for `\|`, `a & ~a == 0`, and `~(a & b) == ~a \| ~b` |
| Blobs.ShiftLeftValue | src/pnet/Blob.h:139-156 | the byte-and-carry loop of `<<` multiplies by 2^s modulo 256^N |
| Blobs.ShiftRightValue | src/pnet/Blob.h:158-175 | the loop of `>>` divides by 2^s, rounding down |
| Blobs.ShiftOutOfRange | src/pnet/Blob.h:139-175 | a shift by the full width or more gives zero |
| Blobs.Blob.constructor | src/pnet/Blob.h:16-20 | a fresh array of N zero bytes |
| Blobs.Blob.Assign | src/pnet/Blob.h:31-36 | copy assignment leaves exactly the other blob's bytes |
| Blobs.Blob.AssignHost | src/pnet/Blob.h:38-47 | assigning a value leaves its converted bytes, as `Convert` |
| Blobs.Blob.AndAssign | src/pnet/Blob.h:124-127 | `&=` leaves the old bytes AND the operand, byte by byte, in place |
| Blobs.Blob.OrAssign | src/pnet/Blob.h:129-132 | `\|=` leaves the old bytes OR the operand |
| Blobs.Blob.XorAssign | src/pnet/Blob.h:134-137 | `^=` leaves the old bytes XOR the operand |
| Codec.WrittenContents | src/pnet/Packet.h:40-50 | a store at the write end keeps the cells before it, puts the bytes right after them, keeps later cells, and overwrites or grows the vector as needed |
| Codec.WrittenTwice | src/pnet/Packet.h:40-50 | two consecutive stores equal one store of the concatenation |
| Codec.WrittenOne | src/pnet/Packet.h:43-48 | storing one byte overwrites the cell at the write end, or appends when the vector ends there |
| Codec.WrittenUnread | src/pnet/Packet.h:40-50 | seen from the read cursor, a store appends its bytes to the unread bytes |
| Codec.TakeFixed | src/pnet/Packet.h:29-38 | `get<T>` returns |T| bytes; the bytes taken plus those left are exactly the input |
| Codec.TakeFixedFull | src/pnet/Packet.h:29-38 | with enough bytes, `get` returns exactly the next |T| of them |
| Codec.TakeFixedShort | src/pnet/Packet.h:29-38 | with too few bytes, only the leading bytes are filled (the rest keep the default) and nothing is left |
| Codec.NulIndex | src/socket/Packet.cpp:32-43 | the position of the first NUL, or the end when there is none: no NUL before it |
| Codec.TakeStr | src/socket/Packet.cpp:32-43 | `getStr` never returns more than it consumes |
| Codec.TakeStrShape | src/socket/Packet.cpp:32-43 | the string read holds no NUL; it and the consumed NUL, if any, are a prefix of the input; something is consumed unless the input is empty |
| Codec.StrRoundTrip | src/socket/Packet.cpp:32-60 | a NUL-free string written by `addStr` is read back unchanged by `getStr`, leaving what follows |
| Codec.OneRoundTrip | src/pnet/Packet.h:29-50 | one fixed-width or string field is read back unchanged |
| Codec.RoundTrip | src/pnet/Packet.h:29-50 | fields written one after another are read back unchanged, in order, by reads of the same shapes, whatever follows them |
| Codec.Packet.constructor | src/socket/Packet.cpp:9-12 | an empty packet: nothing written, nothing unread |
| Codec.Packet.FromBuffer | src/socket/Packet.cpp:14-18 | a received datagram of n bytes: its unread bytes are the first n of the buffer |
| Codec.Packet.Remaining | src/socket/Packet.cpp:20-22 | `remaining()` has `size()` bytes |
| Codec.Packet.Data | src/socket/Packet.cpp:24-26 | `data()` starts with the unread bytes |
| Codec.Packet.Size | src/socket/Packet.cpp:28-30 | `size()` is what lies between the cursor and the write end |
| Codec.Packet.Put | src/pnet/Packet.h:43-48 | one byte overwrites the cell at the write end or is appended; the write end moves by one |
| Codec.Packet.Add | src/pnet/Packet.h:40-50 | `add(t)` stores t's bytes at the write end; the unread bytes gain exactly t |
| Codec.Packet.AddRaw | src/pnet/Packet.h:26 | `add(ptr, n)` stores the first n bytes at ptr, the same way |
| Codec.Packet.AddStr | src/socket/Packet.cpp:45-60 | `addStr(s)` stores s and a NUL; the unread bytes gain exactly `s + [0]` |
| Codec.Packet.Get | src/pnet/Packet.h:29-38 | `get<T>` returns and consumes what `TakeFixed` describes; the cursor never passes the write end |
| Codec.Packet.GetStr | src/socket/Packet.cpp:32-43 | `getStr` returns and consumes what `TakeStr` describes |
| Codec.Packet.Skip | src/pnet/Packet.h:27 | `skip(n)` drops min(n, size()) unread bytes, and none for n <= 0 |
| Errors.Ordinal | src/pnet/Error.h:10-16 | the enumerator's integer, zero exactly for `OK` |
| Errors.OrdinalInjective | src/pnet/Error.h:10-16 | distinct codes convert to distinct integers |
| Errors.FromCode | src/socket/Error.cpp:9-10 | `Error(code, message)` stores both |
| Errors.FromMessage | src/socket/Error.cpp:12-13 | `Error(message, code)` stores both |
| Errors.TruthIsNotOk | src/socket/Error.cpp:15-17 | an error tests true exactly when its code is not `OK`, whatever its message |
| Errors.SameMeansSameCode | src/socket/Error.cpp:19-25 | `==` between errors compares codes only, and `!=` is its negation |
| Errors.MessageIgnored | src/socket/Error.cpp:19-25 | errors that differ only in their message compare equal |
| Errors.SameIsEquivalence | src/socket/Error.cpp:19-21 | `==` between errors is an equivalence |
| Errors.IsMeansStoredCode | src/socket/Error.cpp:27-33 | comparison with a code holds exactly for the stored code |
| Errors.Defaults | src/pnet/Error.h:23-24 | a default error is `OK` and false; one built from a message is `ERROR` and true |
| Routing.OneValue | src/pnet/peer/PeerRoutingTable.cpp:99-101 | `(PeerId)1` is byte 0 set to one, the number 1 |
| Routing.IndexOfId | src/pnet/peer/PeerRoutingTable.cpp:42-49 | the first entry with the id, or past the end when there is none |
| Routing.IndexOfEndpoint | src/pnet/peer/PeerRoutingTable.cpp:51-58 | the first entry with the endpoint, or past the end when there is none |
| Routing.GetById | src/pnet/peer/PeerRoutingTable.cpp:60-67 | `get(id)` is the first entry with the id, or `defaultPeer` when none has it |
| Routing.GetByEndpoint | src/pnet/peer/PeerRoutingTable.cpp:69-76 | `get(ep)` is the first entry with the endpoint, or `defaultPeer` |
| Routing.AddedProperties | src/pnet/peer/PeerRoutingTable.cpp:30-40 | `add` is idempotent, keeps the first endpoint recorded for an id, moves no entry, and keeps ids unique and well formed |
| Routing.KeptFrom | src/pnet/peer/PeerRoutingTable.cpp:103-113 | every entry the erase loop keeps was in the table, with another id |
| Routing.KeptHas | src/pnet/peer/PeerRoutingTable.cpp:103-113 | every entry with another id is kept |
| Routing.KeptShorter | src/pnet/peer/PeerRoutingTable.cpp:103-113 | something is erased exactly when some entry carries the id |
| Routing.KeptUnique | src/pnet/peer/PeerRoutingTable.cpp:103-113 | erasing keeps the ids unique |
| Routing.RemovedProperties | src/pnet/peer/PeerRoutingTable.cpp:103-113 | `remove(id)` keeps the local entry, erases every later entry with the id and nothing else |
| Routing.RemovedChanged | src/pnet/peer/PeerRoutingTable.cpp:103-113 | `remove` changes the table exactly when a later entry carried the id |
| Routing.RemovedUnique | src/pnet/peer/PeerRoutingTable.cpp:103-113 | `remove` keeps the ids unique |
| Routing.RemovedWellFormed | src/pnet/peer/PeerRoutingTable.cpp:103-113 | `remove` keeps every id 16 bytes wide |
| Routing.NextUpTo | src/pnet/peer/PeerRoutingTable.cpp:78-97 | the running minimum is -1 or an entry other than `except` |
| Routing.NextUpToMinimal | src/pnet/peer/PeerRoutingTable.cpp:78-97 | the scan finds nothing iff every entry is `except`; otherwise it finds an entry of least XOR distance, strictly nearer than every earlier candidate (ties go to the first) |
| Routing.NextPeerDefault | src/pnet/peer/PeerRoutingTable.cpp:92-96 | `getNext` returns `defaultPeer` exactly when every entry is `except`, else a table entry other than `except` |
| Routing.NextPeerFindsTarget | src/pnet/peer/PeerRoutingTable.cpp:78-97 | an id in the table other than `except` is its own next hop |
| Routing.HighBit | src/pnet/peer/PeerRoutingTable.cpp:115-123 | the highest set bit, -1 exactly for zero |
| Routing.HighBitRange | src/pnet/peer/PeerRoutingTable.cpp:115-123 | a positive number lies between 2^h and 2^(h+1) for its highest bit h |
| Routing.LevelMeaning | src/pnet/peer/PeerRoutingTable.cpp:115-123 | `getLevel` is -1 exactly for the local id; otherwise the XOR distance has its highest set bit there |
| Routing.LevelBound | src/pnet/peer/PeerRoutingTable.cpp:115-123 | a level is below 128 |
| Routing.LookupTarget | src/pnet/peer/PeerRoutingTable.cpp:99-101 | `lookupTarget(level)` is a 16-byte id |
| Routing.LevelOfLookupTarget | src/pnet/peer/PeerRoutingTable.cpp:99-123 | the target of a level lies at that level: `getLevel(lookupTarget(l)) == l` |
| Routing.TargetDistance | src/pnet/peer/PeerRoutingTable.cpp:99-101 | the target differs from the local id by exactly `1 << level` |
| Routing.BitValue | src/pnet/peer/PeerRoutingTable.cpp:99-101 | below the width, `(PeerId)1 << l` is 2^l |
| Routing.HexStep | src/pnet/peer/PeerRoutingTable.cpp:9-20 | the two digits of byte i follow those of the bytes above it |
| Routing.NibblePair | src/pnet/peer/PeerRoutingTable.cpp:9-20 | the two hex characters for byte i are its high nibble then its low nibble |
| Routing.Hex | src/pnet/peer/PeerRoutingTable.cpp:9-20 | `hex` prints 32 lowercase digits, or the first four of them in the short form |
| Routing.RoutingTable.constructor | src/pnet/peer/PeerRoutingTable.cpp:22-24 | a new table holds only the local entry, with id 0 and an unset endpoint |
| Routing.RoutingTable.LocalPeer | src/pnet/peer/PeerRoutingTable.cpp:26-28 | `localPeer()` is a table entry with a 16-byte id |
| Routing.RoutingTable.SetLocal | src/pnet/peer/PeerRoutingTable.cpp:26-28 | assigning through `localPeer()` replaces entry 0 only |
| Routing.RoutingTable.Has | src/pnet/peer/PeerRoutingTable.cpp:42-49 | `has(id)` holds exactly when some entry has the id |
| Routing.RoutingTable.HasEp | src/pnet/peer/PeerRoutingTable.cpp:51-58 | `has(ep)` holds exactly when some entry has the endpoint |
| Routing.RoutingTable.Get | src/pnet/peer/PeerRoutingTable.cpp:60-67 | the loop of `get(id)` returns `GetById` |
| Routing.RoutingTable.GetEp | src/pnet/peer/PeerRoutingTable.cpp:69-76 | the loop of `get(ep)` returns `GetByEndpoint` |
| Routing.RoutingTable.Add | src/pnet/peer/PeerRoutingTable.cpp:30-40 | `add` appends an entry only for an unknown id; ids stay unique |
| Routing.RoutingTable.Remove | src/pnet/peer/PeerRoutingTable.cpp:103-113 | the in-place erase loop leaves `Removed`, and the result is true exactly when a later entry had the id |
| Routing.RoutingTable.GetNext | src/pnet/peer/PeerRoutingTable.cpp:78-97 | the running-minimum loop returns `NextPeer`, characterised by `NextUpToMinimal` |
| Routing.RoutingTable.LookupTargetOf | src/pnet/peer/PeerRoutingTable.cpp:99-101 | `lookupTarget` for the local id |
| Routing.RoutingTable.GetLevel | src/pnet/peer/PeerRoutingTable.cpp:115-123 | the shift-and-count loop computes `Level`, characterised by `LevelMeaning` |
| Routing.HexString | src/pnet/peer/PeerRoutingTable.cpp:9-20 | the digit loop, with its early exit after byte 14 in the short form, yields `Hex` |
| Protocol.Code | src/socket/peer/PeerNetwork.h:19-31 | the opcode's integer, 0 to 10 |
| Protocol.OpcodeOf | src/socket/peer/PeerNetwork.cpp:127-257 | a decoded integer selects a case exactly when it is 0 to 10, and the one with that integer |
| Protocol.CodeInverse | src/socket/peer/PeerNetwork.cpp:127-257 | every opcode selects its own case |
| Protocol.OpBytesAreHostInt | src/socket/peer/PeerNetwork.cpp:131 | `add(opcode)` writes the four host bytes of its integer |
| Protocol.OpcodeDecodes | src/socket/peer/PeerNetwork.cpp:121-122 | an opcode written with `add` is read back by `get<Opcode>` and selects its own case |
| Protocol.KeepsChain | src/socket/peer/PeerNetwork.cpp:108-265 | the node invariant composes: two steps that each keep it keep it together |
| Protocol.SendVia | src/socket/peer/PeerNetwork.cpp:275-288 | `sendPacket` writes to the next hop towards the destination; the packet goes as is exactly when that hop is the destination, otherwise wrapped in a ROUTE |
| Protocol.OnPing | src/socket/peer/PeerNetwork.cpp:129-134 | PING adds exactly one PONG through `sendPacket` to the current source |
| Protocol.OnHandshake | src/socket/peer/PeerNetwork.cpp:137-161 | HANDSHAKE/HANDSHAKE_REPLY keep the node invariant and consume no more than the sub-message; `HandshakeReads` gives the full effect |
| Protocol.Handshaken | src/socket/peer/PeerNetwork.cpp:138-149 | learning a hop's id keeps the local entry and a well-formed table |
| Protocol.OnLookup | src/socket/peer/PeerNetwork.cpp:162-186 | LOOKUP keeps the node invariant and consumes no more than the sub-message; its full effect is `ProtocolLemmas.LookupArrival` |
| Protocol.OnLookupReply | src/socket/peer/PeerNetwork.cpp:187-203 | LOOKUP_REPLY keeps the node invariant; its full effect is `LookupReplyArrival` |
| Protocol.OnRoute | src/socket/peer/PeerNetwork.cpp:204-216 | ROUTE keeps the node invariant; its full effect is `RouteArrival` |
| Protocol.ForwardLength | src/socket/peer/PeerNetwork.cpp:210 | a forwarded ROUTE writes header plus payload when those lie within the received bytes |
| Protocol.SkipLength | src/socket/peer/PeerNetwork.cpp:211 | `skip(payloadSize)` moves over exactly the payload when it is present |
| Protocol.OnBroadcast | src/socket/peer/PeerNetwork.cpp:217-235 | BROADCAST keeps the node invariant; its full effect is `BroadcastArrival` |
| Protocol.OnMessage | src/socket/peer/PeerNetwork.cpp:236-246 | MESSAGE keeps the node invariant; its full effect is `MessageArrival` |
| Protocol.OnDisconnect | src/socket/peer/PeerNetwork.cpp:247-257 | DISCONNECT keeps the node invariant and reads no bytes; its full effect is `DisconnectArrival` |
| Protocol.DisconnectLevel | src/socket/peer/PeerNetwork.cpp:249-251 | a removed id is not the local id, so its level is a valid bit position 0..127 |
| Protocol.Dispatch | src/socket/peer/PeerNetwork.cpp:127-257 | every case of the `switch` keeps the node invariant; MESSAGE, BROADCAST and DISCONNECT run their handlers |
| Protocol.Step | src/socket/peer/PeerNetwork.cpp:120-263 | one loop iteration keeps the node invariant and consumes at least one byte |
| Protocol.Process | src/socket/peer/PeerNetwork.cpp:120-264 | the decoding loop keeps the node invariant |
| Protocol.HopOf | src/socket/peer/PeerNetwork.cpp:109-118 | the hop is the table entry with the sender's endpoint, or that endpoint with id 0 |
| Protocol.Start | src/socket/peer/PeerNetwork.cpp:117-118 | the loop starts with source = the hop's id and destination = the local id |
| ProtocolLemmas.ReadsFixed | src/pnet/Packet.h:29-38 | a fixed-width value is read back by `get` of its width |
| ProtocolLemmas.StepOn | src/socket/peer/PeerNetwork.cpp:120-263 | a known opcode runs its case; every case but ROUTE then resets source and destination |
| ProtocolLemmas.StepMessage | src/socket/peer/PeerNetwork.cpp:236-246 | a MESSAGE sub-message runs the MESSAGE case, then the loop variables reset |
| ProtocolLemmas.StepBroadcast | src/socket/peer/PeerNetwork.cpp:217-235 | a BROADCAST sub-message runs the BROADCAST case, then the loop variables reset |
| ProtocolLemmas.StepDisconnect | src/socket/peer/PeerNetwork.cpp:247-257 | a DISCONNECT sub-message runs the DISCONNECT case, then the loop variables reset |
| ProtocolLemmas.IntRoundTrip | src/socket/peer/PeerNetwork.cpp:174 | a payload size written as `int` is read back by `get<int>` |
| ProtocolLemmas.PortRoundTrip | src/socket/peer/PeerNetwork.cpp:167 | a port written as `uint16_t` is read back |
| ProtocolLemmas.RouteHeaderReads | src/socket/peer/PeerNetwork.cpp:204-207 | the ROUTE header that `sendPacket` writes is read back field by field |
| ProtocolLemmas.RouteArrival | src/socket/peer/PeerNetwork.cpp:204-216 | a ROUTE whose next hop, not counting the sender, is another peer goes to it unchanged and the loop variables reset; otherwise decoding continues into the payload with the header's source and destination |
| ProtocolLemmas.SendViaKnown | src/socket/peer/PeerNetwork.cpp:275-279 | a packet for a known peer goes straight to its endpoint, unwrapped |
| ProtocolLemmas.WrappedArrives | src/socket/peer/PeerNetwork.cpp:275-288 | a packet wrapped by `sendPacket` reaches its destination intact: it continues with the original payload, the sender as source and itself as destination |
| ProtocolLemmas.HandshakeArrival | src/socket/peer/PeerNetwork.cpp:137-151 | HANDSHAKE adds an unknown id at the hop's endpoint with one log line, answers HANDSHAKE_REPLY through `sendPacket`, and makes the id the hop's id |
| ProtocolLemmas.HandshakeReads | src/socket/peer/PeerNetwork.cpp:137-161 | both handshake cases read only the id; only HANDSHAKE answers |
| ProtocolLemmas.LookupArrival | src/socket/peer/PeerNetwork.cpp:162-186 | LOOKUP reads the 16-byte relay id, sends exactly one datagram, the LOOKUP_REPLY routed to the asking source and wrapped again towards the relay, and resets the loop variables |
| ProtocolLemmas.AnswerAtRelay | src/socket/peer/PeerNetwork.cpp:174-184 | the answer is a ROUTE to the relay around a ROUTE to the asker around the LOOKUP_REPLY; the relay unwraps the outer layer and goes on with the inner ROUTE, which `RouteArrival` then forwards |
| ProtocolLemmas.AnswerAtAsker | src/socket/peer/PeerNetwork.cpp:187-216 | the asker unwraps the inner ROUTE and handles the LOOKUP_REPLY: the answering peer is added at its own endpoint and greeted unless already known, so a LOOKUP's answer ends where it was asked for |
| ProtocolLemmas.LookupReplyArrival | src/socket/peer/PeerNetwork.cpp:187-203 | LOOKUP_REPLY adds an unknown peer at exactly the endpoint it announced and sends it a HANDSHAKE; a known one changes nothing |
| ProtocolLemmas.LookupReplyReads | src/socket/peer/PeerNetwork.cpp:187-190 | id, port and address of a LOOKUP_REPLY are read back |
| ProtocolLemmas.PingArrival | src/socket/peer/PeerNetwork.cpp:129-134 | PING sends PONG to the current source and resets the loop variables |
| ProtocolLemmas.MessageArrival | src/socket/peer/PeerNetwork.cpp:236-246 | MESSAGE delivers its text, from the current source, exactly when bytes 15 and 14 of the current destination equal the local id's |
| ProtocolLemmas.MessageReads | src/socket/peer/PeerNetwork.cpp:237 | MESSAGE reads its text up to the NUL |
| ProtocolLemmas.DisconnectArrival | src/socket/peer/PeerNetwork.cpp:247-257 | from the hop itself, DISCONNECT removes its id and, if an entry went, sends one LOOKUP for the level it held; from anyone else it logs an invalid opcode |
| ProtocolLemmas.InvalidArrival | src/socket/peer/PeerNetwork.cpp:256-257 | an unknown code logs an invalid opcode and consumes four bytes |
| ProtocolLemmas.BroadcastReads | src/socket/peer/PeerNetwork.cpp:218-220 | origin, broadcast id and text are read back |
| ProtocolLemmas.BroadcastArrival | src/socket/peer/PeerNetwork.cpp:217-235 | a seen broadcast id changes nothing; a new one is recorded, forwarded unchanged by the outward rule and delivered once from its originator |
| ProtocolLemmas.BroadcastOnce | src/socket/peer/PeerNetwork.cpp:221-233 | a broadcast received twice is delivered at most once, and its id is then known |
| ProtocolLemmas.ForwardsRule | src/socket/peer/PeerNetwork.cpp:223-229 | the forwarding loop writes the unchanged sub-message to exactly the entries that are not the hop's endpoint, not the local id, and farther from the originator than the local id |
| ProtocolLemmas.NoEcho | src/socket/peer/PeerNetwork.cpp:224 | a forwarded broadcast never goes back to the endpoint it came from |
| ProtocolLemmas.FanoutRule | src/socket/peer/PeerNetwork.cpp:300-304 | `broadcast` writes to exactly the entries whose id is not the local id |
| Network.AfterRead | src/socket/peer/PeerNetwork.cpp:92-106 | `readPacket` ignores a timeout, logs any other error and keeps the table invariant |
| Network.Attempts | src/socket/peer/PeerNetwork.cpp:316-337 | the entry-node attempts keep the table invariant |
| Network.AttemptsAt | src/socket/peer/PeerNetwork.cpp:316-337 | one attempt: the local endpoint is skipped; otherwise a HANDSHAKE, one read, and a stop once connected |
| Network.AttemptsTryAll | src/socket/peer/PeerNetwork.cpp:316-340 | when `join` fails, every entry node but the local endpoint was sent a HANDSHAKE |
| Network.LevelLookups | src/socket/peer/PeerNetwork.cpp:342-344 | `join` sends one lookup per level |
| Network.LevelLookupsCover | src/socket/peer/PeerNetwork.cpp:342-344 | the j-th lookup of `join` targets level 127 - j, from the top level down |
| Network.LevelLookupsStep | src/socket/peer/PeerNetwork.cpp:342-344 | each further iteration appends the lookup for the next level down |
| Network.Farewells | src/socket/peer/PeerNetwork.cpp:349-355 | `disconnect` writes one notice per entry but the local one |
| Network.FarewellsReach | src/socket/peer/PeerNetwork.cpp:349-355 | notice i - 1 is a bare DISCONNECT to entry i |
| Network.ConnectedMeaning | src/socket/peer/PeerNetwork.cpp:357-359 | with unique ids, more than one entry means a peer besides the local one |
| Network.LookupReplyCases | src/socket/peer/PeerNetwork.cpp:187-203 | LOOKUP_REPLY once its fields are read: unknown ids are added and greeted |
| Network.RouteForwarded | src/socket/peer/PeerNetwork.cpp:208-214 | ROUTE for another peer: the sub-message to the next hop, the payload skipped, the loop variables reset |
| Network.RouteArrived | src/socket/peer/PeerNetwork.cpp:204-216 | ROUTE for the local peer: nothing sent, source and destination taken from the header |
| Network.BroadcastCases | src/socket/peer/PeerNetwork.cpp:217-235 | BROADCAST once its fields are read: dedup, record, forward and deliver |
| Network.DisconnectRemoves | src/socket/peer/PeerNetwork.cpp:248-252 | DISCONNECT from a known hop: removal, one log line and a repair LOOKUP for its level |
| Network.ReadBroadcast | src/socket/peer/PeerNetwork.cpp:218-220 | reads origin, broadcast id and text as `TakeFixed` and `TakeStr` do |
| Network.Wrap | src/socket/peer/PeerNetwork.cpp:280-285 | the ROUTE packet holds opcode, source, destination, payload size and payload |
| Network.ReplyPacket | src/socket/peer/PeerNetwork.cpp:164-168 | the LOOKUP_REPLY packet holds opcode, local id, port and address |
| Network.PeerNetwork.constructor | src/socket/peer/PeerNetwork.cpp:55-58 | a new node: only the unset local entry, nothing seen, sent or logged |
| Network.PeerNetwork.LocalId | src/socket/peer/PeerNetwork.cpp:377-379 | `localId()` is entry 0's 16-byte id |
| Network.PeerNetwork.Start | src/socket/peer/PeerNetwork.cpp:60-85 | `start` sets the local entry's id and endpoint, then returns the listen error if there is one and the default (OK) error otherwise |
| Network.PeerNetwork.AddEntryNode | src/socket/peer/PeerNetwork.cpp:373-375 | appends the endpoint to the entry nodes |
| Network.PeerNetwork.IsConnected | src/socket/peer/PeerNetwork.cpp:357-359 | true exactly when the table holds a peer besides the local one |
| Network.PeerNetwork.SendPacket | src/socket/peer/PeerNetwork.cpp:275-288 | writes exactly `SendVia` of the packet's bytes |
| Network.PeerNetwork.Lookup | src/socket/peer/PeerNetwork.cpp:267-273 | a LOOKUP naming the first hop as relay, sent towards the target |
| Network.PeerNetwork.Send | src/socket/peer/PeerNetwork.cpp:307-312 | a MESSAGE with the text and its NUL, sent towards the id |
| Network.PeerNetwork.Broadcast | src/socket/peer/PeerNetwork.cpp:290-305 | records the broadcast id and writes the BROADCAST to every entry but the local one (`FanoutRule`) |
| Network.PeerNetwork.WriteToAll | src/socket/peer/PeerNetwork.cpp:300-304 | the loop of `broadcast` writes `Fanout` |
| Network.PeerNetwork.Disconnect | src/socket/peer/PeerNetwork.cpp:349-355 | writes `Farewells`: a DISCONNECT to every entry from index 1 |
| Network.PeerNetwork.Join | src/socket/peer/PeerNetwork.cpp:314-347 | `join`: the attempts, then on success the 128 level lookups and no error, else exactly the "could not find an entry node" error |
| Network.PeerNetwork.TryEntryNodes | src/socket/peer/PeerNetwork.cpp:316-337 | the attempts loop leaves the state `Attempts` describes |
| Network.PeerNetwork.TryEntryNode | src/socket/peer/PeerNetwork.cpp:323-332 | one attempt: a HANDSHAKE to the entry node, then one read |
| Network.PeerNetwork.LookupAllLevels | src/socket/peer/PeerNetwork.cpp:342-344 | the lookup loop writes `LevelLookups` for all 128 levels |
| Network.PeerNetwork.ReadPacket | src/socket/peer/PeerNetwork.cpp:92-106 | leaves the state `AfterRead` describes |
| Network.PeerNetwork.ProcessPacket | src/socket/peer/PeerNetwork.cpp:108-265 | the decoding loop over the packet leaves exactly the state `Process` computes from the starting loop variables |
| Network.PeerNetwork.HandleOpcode | src/socket/peer/PeerNetwork.cpp:127-257 | the `switch` leaves exactly what `Dispatch` describes |
| Network.PeerNetwork.HandlePing | src/socket/peer/PeerNetwork.cpp:129-134 | PING as `OnPing` |
| Network.PeerNetwork.HandleHandshake | src/socket/peer/PeerNetwork.cpp:137-161 | HANDSHAKE and HANDSHAKE_REPLY as `OnHandshake` |
| Network.PeerNetwork.Handshake | src/socket/peer/PeerNetwork.cpp:139-149 | adds an unknown id and answers, as `Handshaken` |
| Network.PeerNetwork.HandleLookup | src/socket/peer/PeerNetwork.cpp:162-186 | LOOKUP as `OnLookup`, so with the effect `ProtocolLemmas.LookupArrival` states |
| Network.PeerNetwork.AnswerLookup | src/socket/peer/PeerNetwork.cpp:164-184 | writes exactly the doubly-wrapped reply `LookupAnswer`, which `AnswerAtRelay` and `AnswerAtAsker` follow to the asker |
| Network.PeerNetwork.HandleLookupReply | src/socket/peer/PeerNetwork.cpp:187-203 | LOOKUP_REPLY as `OnLookupReply` |
| Network.PeerNetwork.Meet | src/socket/peer/PeerNetwork.cpp:192-201 | an unknown id is added at the endpoint, logged and sent a HANDSHAKE; a known one changes nothing |
| Network.PeerNetwork.HandleRoute | src/socket/peer/PeerNetwork.cpp:204-216 | ROUTE as `OnRoute` |
| Network.PeerNetwork.RouteOn | src/socket/peer/PeerNetwork.cpp:208-214 | ROUTE once its header is read, as `OnRoute` |
| Network.PeerNetwork.RouteOnward | src/socket/peer/PeerNetwork.cpp:210-213 | a forwarded ROUTE: the sub-message to the next hop and the payload skipped |
| Network.PeerNetwork.ForwardRoute | src/socket/peer/PeerNetwork.cpp:210-211 | writes the first bytes of the sub-message, then skips the payload |
| Network.PeerNetwork.HandleBroadcast | src/socket/peer/PeerNetwork.cpp:217-235 | BROADCAST as `OnBroadcast` |
| Network.PeerNetwork.BroadcastOn | src/socket/peer/PeerNetwork.cpp:221-233 | BROADCAST once its fields are read, as `OnBroadcast` |
| Network.PeerNetwork.Spread | src/socket/peer/PeerNetwork.cpp:221-233 | a new broadcast id is recorded, the message forwarded and its text delivered; a seen one changes nothing |
| Network.PeerNetwork.Forward | src/socket/peer/PeerNetwork.cpp:223-229 | the forwarding loop writes `Forwards` (`ForwardsRule`) |
| Network.PeerNetwork.HandleMessage | src/socket/peer/PeerNetwork.cpp:236-246 | MESSAGE as `OnMessage` |
| Network.PeerNetwork.HandleDisconnect | src/socket/peer/PeerNetwork.cpp:247-257 | DISCONNECT as `OnDisconnect` |
| LegacyProtocol.Code | src/socket/PeerNetwork.h:25-36 | the opcode's integer, 0 to 9 |
| LegacyProtocol.OpcodeOf | src/socket/PeerNetwork.cpp:116-252 | a decoded integer selects a case exactly when it is 0 to 9 |
| LegacyProtocol.CodeInverse | src/socket/PeerNetwork.cpp:116-252 | every opcode selects its own case |
| LegacyProtocol.OpcodeDecodes | src/socket/PeerNetwork.cpp:110 | an opcode written with `add` is read back and selects its own case |
| LegacyProtocol.ScanUpTo | src/socket/PeerNetwork.cpp:342-358 | the running minimum of `getNextPeer` is -2, -1 or an entry other than `except` |
| LegacyProtocol.ScanStep | src/socket/PeerNetwork.cpp:350-357 | one iteration of the scan keeps the loop state |
| LegacyProtocol.NextHop | src/socket/PeerNetwork.cpp:342-365 | `getNextPeer` is the local peer or a cached entry |
| LegacyProtocol.ScanMinimal | src/socket/PeerNetwork.cpp:342-358 | the scan with the local id allowed or excluded: what -1, -2 and an index each mean |
| LegacyProtocol.ScanAllowing | src/socket/PeerNetwork.cpp:342-358 | with the local id allowed: -1 iff no candidate is strictly nearer than the local peer |
| LegacyProtocol.ScanExcluding | src/socket/PeerNetwork.cpp:346-358 | with the local id excluded: -2 iff every entry has the local id |
| LegacyProtocol.NextHopAllowingLocal | src/socket/PeerNetwork.cpp:342-365 | `getNextPeer` is the local peer unless an entry other than `except` is strictly nearer; then the first nearest such entry |
| LegacyProtocol.NextHopExcludingLocal | src/socket/PeerNetwork.cpp:342-365 | excluding the local id: the first nearest entry with another id, the local peer only when there is none |
| LegacyProtocol.ToEvery | src/socket/PeerNetwork.cpp:82-84 | one datagram per cached peer |
| LegacyProtocol.ToEveryReach | src/socket/PeerNetwork.cpp:82-84 | datagram i goes to cached peer i |
| LegacyProtocol.OnPing | src/socket/PeerNetwork.cpp:117-123 | PING keeps the node invariant and reads nothing more |
| LegacyProtocol.OnHandshake | src/socket/PeerNetwork.cpp:127-138 | the handshake cases keep the node invariant |
| LegacyProtocol.OnLookup | src/socket/PeerNetwork.cpp:139-157 | LOOKUP keeps the node invariant; its full effect is `LookupArrival` |
| LegacyProtocol.LookupAnswered | src/socket/PeerNetwork.cpp:143-155 | a read LOOKUP keeps the node invariant |
| LegacyProtocol.OnLookupReply | src/socket/PeerNetwork.cpp:158-184 | LOOKUP_REPLY keeps the node invariant; its full effect is `LookupReplyArrival` for a reply to the local id and `LookupReplyRelayed` for any other |
| LegacyProtocol.OnReplyTail | src/socket/PeerNetwork.cpp:161-162 | reading port and address keeps the node invariant |
| LegacyProtocol.LookupReplied | src/socket/PeerNetwork.cpp:164-183 | a read LOOKUP_REPLY keeps the node invariant; `LookupReplyArrival` and `LookupReplyRelayed` state its two branches |
| LegacyProtocol.OnRoute | src/socket/PeerNetwork.cpp:185-201 | ROUTE keeps the node invariant; its full effect is `RouteArrival` |
| LegacyProtocol.Routed | src/socket/PeerNetwork.cpp:188-199 | a read ROUTE keeps the node invariant |
| LegacyProtocol.OnBroadcast | src/socket/PeerNetwork.cpp:202-218 | BROADCAST keeps the node invariant; its full effect is `BroadcastArrival` |
| LegacyProtocol.BroadcastReceived | src/socket/PeerNetwork.cpp:206-216 | a read BROADCAST keeps the node invariant |
| LegacyProtocol.Departures | src/socket/PeerNetwork.cpp:223 | one log line per erased entry |
| LegacyProtocol.RefillTarget | src/socket/PeerNetwork.cpp:231-238 | the repair target is a 16-byte id |
| LegacyProtocol.OnDisconnect | src/socket/PeerNetwork.cpp:219-249 | DISCONNECT keeps the node invariant; its full effect is `DisconnectArrival` |
| LegacyProtocol.Dispatch | src/socket/PeerNetwork.cpp:116-252 | every case keeps the node invariant, and each opcode with a case runs its own handler |
| LegacyProtocol.Step | src/socket/PeerNetwork.cpp:108-253 | one iteration keeps the node invariant and consumes at least one byte |
| LegacyProtocol.Process | src/socket/PeerNetwork.cpp:108-253 | the decoding loop keeps the node invariant |
| LegacyProtocol.HopId | src/socket/PeerNetwork.cpp:100-106 | the sender's id is that of the first cached peer with its endpoint, or zero |
| LegacyProtocol.Receive | src/socket/PeerNetwork.cpp:87-98 | `process` ignores a timeout and logs any other error |
| LegacyProtocol.Connect | src/socket/PeerNetwork.cpp:33-45 | the entry-node loop keeps the node invariant |
| LegacyProtocol.JoinLookups | src/socket/PeerNetwork.cpp:53-64 | one join lookup per level |
| LegacyProtocol.JoinLookupsCover | src/socket/PeerNetwork.cpp:53-64 | join lookup i asks for the local id with bit i flipped, a target at level i, from bit 0 up |
| LegacyProtocol.JoinLookupAt | src/socket/PeerNetwork.cpp:53-64 | join lookup i is the lookup for target i |
| LegacyProtocol.Joined | src/socket/PeerNetwork.cpp:33-67 | greeting the entry nodes and the join lookups keep the node invariant |
| LegacyProtocol.Serve | src/socket/PeerNetwork.cpp:47-49 | the event loop keeps the node invariant |
| LegacyLemmas.StepOn | src/socket/PeerNetwork.cpp:108-116 | every sub-message is an opcode and a 16-byte source id, then that opcode's case |
| LegacyLemmas.InvalidArrival | src/socket/PeerNetwork.cpp:250-251 | NONE, or a code outside the enumeration, logs an invalid opcode after its header |
| LegacyLemmas.PingArrival | src/socket/PeerNetwork.cpp:117-123 | PING is answered with PONG and the local id, to the sender's endpoint |
| LegacyLemmas.HandshakeArrival | src/socket/PeerNetwork.cpp:127-138 | the source is cached at the sender's endpoint unless known (first endpoint kept); only HANDSHAKE is answered |
| LegacyLemmas.LookupArrival | src/socket/PeerNetwork.cpp:139-157 | with no nearer peer (the sender excluded), LOOKUP is answered with a LOOKUP_REPLY towards the relay; else it goes on unchanged to the nearer peer |
| LegacyLemmas.ReplyReads | src/socket/PeerNetwork.cpp:159-162 | destination, relay, port and address of a LOOKUP_REPLY are read back |
| LegacyLemmas.ReplyStep | src/socket/PeerNetwork.cpp:158-163 | a LOOKUP_REPLY is read field by field and handled with the destination, relay and endpoint it carries, the whole sub-message as its raw bytes |
| LegacyLemmas.LookupReplyArrival | src/socket/PeerNetwork.cpp:158-174 | a reply to the local id caches and greets the answering peer at its announced endpoint exactly when it is neither the local peer nor cached |
| LegacyLemmas.LookupReplyRelayed | src/socket/PeerNetwork.cpp:176-182 | a reply to another id is relayed unchanged towards the peer nearest the relay id (the sender excluded), or, when that is the local peer, towards the peer nearest the destination; nothing is cached |
| LegacyLemmas.IdTextReads | src/socket/PeerNetwork.cpp:186-187 | an id field and a NUL-terminated text are read back |
| LegacyLemmas.RouteArrival | src/socket/PeerNetwork.cpp:185-201 | ROUTE goes on unchanged to a nearer peer; otherwise it is delivered if addressed to the local id and reported as an invalid route if not |
| LegacyLemmas.NextHopFindsCached | src/socket/PeerNetwork.cpp:342-365 | a cached id other than the local and the excluded one is its own next hop |
| LegacyLemmas.BroadcastArrival | src/socket/PeerNetwork.cpp:202-218 | a seen one-time id changes nothing; a new one is recorded with its text, sent unchanged to every cached peer and delivered once |
| LegacyLemmas.EchoIgnored | src/socket/PeerNetwork.cpp:306-322 | after `broadcast`, every cached peer was sent the BROADCAST, and a copy that comes back is neither delivered nor passed on |
| LegacyLemmas.BroadcastOnce | src/socket/PeerNetwork.cpp:206-216 | a broadcast received twice is delivered at most once and then known with its text |
| LegacyLemmas.KeptCount | src/socket/PeerNetwork.cpp:221-228 | without duplicate ids, the erase loop drops exactly one entry when the id is cached |
| LegacyLemmas.FarewellSends | src/socket/PeerNetwork.cpp:76-85 | `disconnect` sends each cached peer, in order, a DISCONNECT naming the local peer and changes nothing else |
| LegacyLemmas.DisconnectArrival | src/socket/PeerNetwork.cpp:219-249 | every entry with the source's id goes and all others stay; only if one went is it logged and one LOOKUP sent for the level it held |
| LegacyLemmas.KeptMeaning | src/socket/PeerNetwork.cpp:221-228 | erasing an id keeps every other entry, adds nothing, and shortens the cache exactly when the id was there |
| LegacyNetwork.KeptOk | src/socket/PeerNetwork.cpp:221-228 | what the erase loop leaves is still a cache of unique 16-byte ids |
| LegacyNetwork.KeptNone | src/socket/PeerNetwork.cpp:221-228 | when nothing is erased, the cache is unchanged |
| LegacyNetwork.PurgeLoop | src/socket/PeerNetwork.cpp:220-228 | the erase loop with its `i--` ends in a loop state; `wasInCache` records whether it erased anything |
| LegacyNetwork.PurgeDone | src/socket/PeerNetwork.cpp:220-228 | at the end of the loop: the kept entries, one log line per erased entry |
| LegacyNetwork.ReadIdText | src/socket/PeerNetwork.cpp:186-187 | reads an id and a text |
| LegacyNetwork.ReadIdPair | src/socket/PeerNetwork.cpp:159-160 | reads the destination and the relay |
| LegacyNetwork.ReadPortAddress | src/socket/PeerNetwork.cpp:161-162 | reads the port and the address |
| LegacyNetwork.PeerNetwork.constructor | src/socket/PeerNetwork.cpp:11-14 | a node for a port, not running, with nothing cached, seen, sent or logged |
| LegacyNetwork.PeerNetwork.Run | src/socket/PeerNetwork.cpp:16-74 | `run`: a listen error is returned and changes nothing; otherwise join, then serve unless stopped, then `disconnect` |
| LegacyNetwork.PeerNetwork.Stop | src/socket/PeerNetwork.cpp:324-327 | `stop` clears `running` |
| LegacyNetwork.PeerNetwork.ConnectEntries | src/socket/PeerNetwork.cpp:33-45 | the entry-node loop leaves the state `Connect` describes |
| LegacyNetwork.PeerNetwork.TryEntry | src/socket/PeerNetwork.cpp:35-43 | one entry node: a HANDSHAKE, then one read |
| LegacyNetwork.PeerNetwork.LookupLevels | src/socket/PeerNetwork.cpp:53-64 | the join lookup loop writes `JoinLookups` for all 128 bits |
| LegacyNetwork.PeerNetwork.SendLookup | src/socket/PeerNetwork.cpp:57-63 | one LOOKUP towards the nearest cached peer, naming it as relay |
| LegacyNetwork.PeerNetwork.Disconnect | src/socket/PeerNetwork.cpp:76-85 | leaves `Farewell`: a DISCONNECT to every cached peer |
| LegacyNetwork.PeerNetwork.Broadcast | src/socket/PeerNetwork.cpp:306-322 | records the one-time id with the text and writes the BROADCAST to every cached peer |
| LegacyNetwork.PeerNetwork.WriteToEvery | src/socket/PeerNetwork.cpp:319-321 | the loop writes the data to every cached peer, in order |
| LegacyNetwork.PeerNetwork.AddToCache | src/socket/PeerNetwork.cpp:256-268 | appends with a log line exactly when the id is not cached |
| LegacyNetwork.PeerNetwork.IsInCache | src/socket/PeerNetwork.cpp:270-277 | true exactly when some cached entry has the id |
| LegacyNetwork.PeerNetwork.GetNextPeer | src/socket/PeerNetwork.cpp:342-365 | the running-minimum loop returns `NextHop` |
| LegacyNetwork.PeerNetwork.ServeEvents | src/socket/PeerNetwork.cpp:47-49 | the event loop leaves `Serve` |
| LegacyNetwork.PeerNetwork.Process | src/socket/PeerNetwork.cpp:87-254 | `process` leaves `Receive` |
| LegacyNetwork.PeerNetwork.FindHopId | src/socket/PeerNetwork.cpp:100-106 | the search loop returns `HopId` |
| LegacyNetwork.PeerNetwork.ProcessDatagram | src/socket/PeerNetwork.cpp:108-253 | the decoding loop leaves the state `Process` computes |
| LegacyNetwork.PeerNetwork.HandleOpcode | src/socket/PeerNetwork.cpp:116-252 | the `switch` leaves what `Dispatch` describes, and an invalid-opcode line for a code with no case |
| LegacyNetwork.PeerNetwork.HandlePing | src/socket/PeerNetwork.cpp:117-123 | PING as `OnPing` |
| LegacyNetwork.PeerNetwork.HandleHandshake | src/socket/PeerNetwork.cpp:127-138 | the handshake cases as `OnHandshake` |
| LegacyNetwork.PeerNetwork.HandleLookup | src/socket/PeerNetwork.cpp:139-157 | LOOKUP as `OnLookup` |
| LegacyNetwork.PeerNetwork.LookupOn | src/socket/PeerNetwork.cpp:143-155 | a read LOOKUP as `LookupAnswered` |
| LegacyNetwork.PeerNetwork.AnswerLookup | src/socket/PeerNetwork.cpp:145-152 | the LOOKUP_REPLY with the local entry, towards the relay |
| LegacyNetwork.PeerNetwork.HandleLookupReply | src/socket/PeerNetwork.cpp:158-184 | LOOKUP_REPLY as `OnLookupReply`, so with the two branches `LookupReplyArrival` and `LookupReplyRelayed` state |
| LegacyNetwork.PeerNetwork.HandleReplyTail | src/socket/PeerNetwork.cpp:161-184 | the rest of LOOKUP_REPLY as `OnReplyTail` |
| LegacyNetwork.PeerNetwork.LookupReplyOn | src/socket/PeerNetwork.cpp:164-183 | a read LOOKUP_REPLY as `LookupReplied`: cache and greet for the local id, relay otherwise |
| LegacyNetwork.PeerNetwork.HandleRoute | src/socket/PeerNetwork.cpp:185-201 | ROUTE as `OnRoute` |
| LegacyNetwork.PeerNetwork.RouteOn | src/socket/PeerNetwork.cpp:188-199 | a read ROUTE as `Routed` |
| LegacyNetwork.PeerNetwork.HandleBroadcast | src/socket/PeerNetwork.cpp:202-218 | BROADCAST as `OnBroadcast` |
| LegacyNetwork.PeerNetwork.BroadcastOn | src/socket/PeerNetwork.cpp:206-216 | a read BROADCAST as `BroadcastReceived` |
| LegacyNetwork.PeerNetwork.HandleDisconnect | src/socket/PeerNetwork.cpp:219-249 | DISCONNECT as `OnDisconnect` |
| LegacyNetwork.PeerNetwork.Purge | src/socket/PeerNetwork.cpp:220-228 | the erase loop leaves the cache without the id's entries and one log line each; `wasInCache` iff one went |
| LegacyNetwork.PeerNetwork.DepartedLevel | src/socket/PeerNetwork.cpp:231-236 | the shift-and-count loop computes `Level` |
| Console.HexDigitValue | src/test/peerTest.cpp:141-145 | a digit's value, below 16 |
| Console.HexValue | src/test/peerTest.cpp:141-145 | the digit value as a byte |
| Console.DigitValue | src/test/peerTest.cpp:141-145 | each digit `hex` prints reads back as its nibble |
| Console.SpaceAt | src/test/peerTest.cpp:135-138 | the first space after the '@', or the end of the line |
| Console.Field | src/test/peerTest.cpp:135-147 | the id field has no space |
| Console.Text | src/test/peerTest.cpp:148 | field and message together are shorter than the line: the '@' and the space are not part of either |
| Console.Destination | src/test/peerTest.cpp:134-147 | the destination is 16 bytes |
| Console.Parse | src/test/peerTest.cpp:132-148 | destination and message of an `@` line |
| Console.WriteIndex | src/test/peerTest.cpp:142-144 | the byte the k-th digit is written to lies below the id exactly from k = 32 on |
| Console.UnreachedZero | src/test/peerTest.cpp:134 | bytes no digit reaches stay zero |
| Console.SplitsAtSpace | src/test/peerTest.cpp:135-148 | with no space in h, the line `@h m` has field h and message m |
| Console.FilledAll | src/test/peerTest.cpp:140-146 | once every field position is read, the bytes are `Destination` of the field |
| Console.HexPrefixByte | src/test/peerTest.cpp:140-146 | byte b read from the first 2n digits of an id is the id's byte if those digits reach it, else zero |
| Console.ParseAt | src/test/peerTest.cpp:132-148 | the parse loop over an array gives `Parse`, except that a digit at field position 32 or later (which the source writes below the id) yields None |
| Console.ParseEnd | src/test/peerTest.cpp:132-148 | when the parse loop stops at the first space or at the end of the line with no digit past position 31, the field does not overrun and the bytes and the rest of the line are what `Parse` gives |
| Console.Absorb | src/test/peerTest.cpp:140-146 | one character: a digit is OR-ed into its nibble |
| Console.ParseHexPrefix | src/test/peerTest.cpp:132-148 | `@`, the first 2n digits of an id, a space and a message give the id's top n bytes (the rest zero) and that message |
| Console.ParseHex | src/test/peerTest.cpp:132-148 | `@`, the full `hex` form of an id, a space and a message give exactly that id and that message |
| Console.OverrunExample | src/test/peerTest.cpp:142 | `@` followed by 33 zero digits: the 33rd digit is written at index -1 |
| Console.Handle | src/test/peerTest.cpp:116-153 | a typed line always makes the program do something |
| Console.CommandsAreNotDirect | src/test/peerTest.cpp:117-132 | no command is an `@` line, so the branches do not overlap |
| Console.StopsOnExit | src/test/peerTest.cpp:117-125 | only "exit" and "shutdown" stop the program: terminal, disconnect and network, in that order; "shutdown" is broadcast first |
| Console.BroadcastsVerbatim | src/test/peerTest.cpp:121-151 | a broadcast carries the line as typed, and every line but "exit", "info" and `@` lines is broadcast |
| Console.SendsOnlyDirect | src/test/peerTest.cpp:132-148 | a line is sent to one peer exactly when it starts with '@', and nothing else happens then |
| Console.SendToHex | src/test/peerTest.cpp:132-148 | `@<hex id> <text>` sends the text to that id |

## Left out

- Sockets, the socket handler, its thread, and `waitForStop`/`getPeers`/`stop` of the current network are not modelled. Reads become `ReadResult` parameters; writes go to an outbox.
- Log text is not modelled: `opcodeName`, `logError`/`log`/`onInfo`/`onDebug` formatting, and the "port"/"id" start-up lines. Log lines become typed entries, and debug lines are omitted.
- `randomId`, `std::rand` and the shuffle of `join` become parameters. `Shuffle` requires the order to be a permutation of the entry indexes.
- Endpoints are compared structurally. Endpoint.h's equality of two unset endpoints is not modelled, and neither is name resolution in `Endpoint(address, port, true)`.
- `get<T>` on too few bytes: a `Blob` keeps its zero bytes, but an `int` or an `Opcode` starts uninitialised in the source. The model reads the missing bytes as zero.
- The receive buffer size (1024 or 256 bytes, grown by `readAll`) is not modelled. A datagram is any byte sequence.
- Protocol.ForwardLength: the source writes `offset - packetStart + payloadSize` bytes even past the received data. The model clamps this to the received bytes.
- Codec.Packet.Skip: the body of `skip` is not part of this model. It is modelled as moving the cursor by n, clamped to the written end.
- LegacyProtocol.RefillTarget: for a DISCONNECT naming the local id itself, the source computes `1 << -1`. The model takes that distance as zero.
- Routing.RoutingTable.LookupTargetOf: requires `level >= 0`. A negative shift count is not modelled.
- Console: the terminal, `printInfo`, argument parsing, signal handling and the message callback of the demo are not modelled. Only the line dispatch and the `@` parser are.
- LegacyNetwork.PeerNetwork.Purge: the source erases in place while it loops. The model runs the same loop on values and assigns the cache and the log once.
- Network.PeerNetwork.Start: the new id is assumed not to collide with a known peer's id. The source draws it at random and does not check.
- Network.PeerNetwork.Join: join reads are synchronous. Concurrency with the handler thread is not modelled.
- In these places the model follows the code as written:
  - a ROUTE that arrives takes the routed destination as `destination`, not the local id;
  - a forwarded ROUTE sends header plus payload, not the whole rest of the datagram;
  - MESSAGE keeps the check on bytes 15 and 14 of the destination;
  - a DISCONNECT from a source other than the hop falls through to the invalid-opcode log line.

## Findings

| source | as written | input that shows it | evidently intended | confidence | as-written member | corrected member |
|---|---|---|---|---|---|---|
| src/test/peerTest.cpp:142-144 | the k-th hex digit after '@' is OR-ed into `destination.data[15 - k/2]` with no bound on k | `@` followed by 33 hex digits: the 33rd (k = 32) is written to index -1, before the id | digits past the 32nd have no byte to go to and are ignored | not executed | Console.OverrunExample | Console.ParseHex |
