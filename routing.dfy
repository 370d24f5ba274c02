/** The RPC router of `NetworkManager`: the envelope every call is framed in,
    the five send patterns, the loopback copy of the fast patterns, inbound
    dispatch, the host's relay of bounced calls, and unique spawn names.

    The transport is a log: every message handed to Riptide is appended to
    `outbox` as one `Send` per destination, and every call handed to a node's
    `NetworkPoint` is appended to `dispatched`. */
module Routing {
  import opened Codec
  import opened Wire

  /** Message ids: a direct call, a bounce the host relays to every client,
      and a bounce the host relays to every client but its sender. */
  const DirectId: nat := 0
  const BroadcastBounceId: nat := 1
  const ExcludeSenderBounceId: nat := 2

  /** A `NetworkPointUser` node: its scene path and its multiplayer authority. */
  datatype Source = Source(path: string, authority: int)

  datatype Destination = Server | Client(id: nat)

  datatype Send = Send(to: Destination, packet: Packet)

  /** A call handed to `NetworkPoint.HandleMessage` of the node at `path`,
      with the bits the handler has left to read. */
  datatype Dispatch = Dispatch(path: string, name: string, payload: Bits)

  datatype Warning = IgnoredReliableRpc(name: string, path: string)

  datatype Envelope = Envelope(name: string, path: string, payload: Bits)

  /** What `HandleMessage` does with a message. */
  datatype Handling =
    | Dispatched(path: string, name: string, payload: Bits)
    | DroppedWithWarning(name: string, path: string)
    | Dropped(name: string, path: string)
    | Malformed

  /** What `OnMessageRecieved` does with a message: relays a bounce (and
      whether a server was there to relay it), or handles it locally. */
  datatype Reception = Relayed(delivered: bool) | Handled(handling: Handling)

  datatype SpawnedNode = SpawnedNode(name: string, authority: int)

  // ---- envelope -----------------------------------------------------------

  /** Call name, then target path; the builder's payload follows. */
  function EnvelopeBits(name: string, path: string): Bits {
    EncodeString(name) + EncodeString(path)
  }

  /** The message a send pattern hands to the transport. */
  function RpcPacket(mode: SendMode, id: nat, name: string, path: string, payload: Bits): Packet {
    Packet(mode, id, HeaderBits(mode, id) + EnvelopeBits(name, path) + payload)
  }

  /** The direct message the host builds around a bounce's unread bits. */
  function RelayPacket(mode: SendMode, unread: Bits): Packet {
    Packet(mode, DirectId, HeaderBits(mode, DirectId) + unread)
  }

  function DecodeEnvelope(b: Bits): Option<Envelope> {
    match DecodeString(b)
    case None => None
    case Some(n) =>
      match DecodeString(b[n.width..])
      case None => None
      case Some(p) => Some(Envelope(n.value, p.value, b[n.width + p.width..]))
  }

  /** Reading the name and then the path off what a send pattern wrote gives
      back the name, the path and exactly the builder's payload. */
  lemma EnvelopeRoundTrip(name: string, path: string, payload: Bits)
    ensures DecodeEnvelope(EnvelopeBits(name, path) + payload) == Some(Envelope(name, path, payload))
  {
    var en, ep := EncodeString(name), EncodeString(path);
    var b := EnvelopeBits(name, path) + payload;
    assert b == en + (ep + payload);
    StringRoundTrip(name, ep + payload);
    assert DecodeString(b) == Some(Decoded(name, |en|));
    DropPrefix(en, ep + payload);
    StringRoundTrip(path, payload);
    assert DecodeString(b[|en|..]) == Some(Decoded(path, |ep|));
    DropPrefix(en + ep, payload);
    assert b[|en| + |ep|..] == payload;
  }

  /** `HandleMessage` on the unread bits `b` of a message sent with `mode`,
      when the paths in `nodes` resolve to live nodes. */
  function Handle(b: Bits, mode: SendMode, nodes: set<string>): Handling {
    match DecodeEnvelope(b)
    case None => Malformed
    case Some(e) =>
      if e.path in nodes then Dispatched(e.path, e.name, e.payload)
      else if mode == Reliable then DroppedWithWarning(e.name, e.path)
      else Dropped(e.name, e.path)
  }

  /** A framed call reaches its node's handler with exactly its payload when
      the path resolves; otherwise it is dropped, with a warning only when it
      was sent reliably. */
  lemma HandleEnvelope(name: string, path: string, payload: Bits, mode: SendMode, nodes: set<string>)
    ensures Handle(EnvelopeBits(name, path) + payload, mode, nodes)
         == if path in nodes then Dispatched(path, name, payload)
            else if mode == Reliable then DroppedWithWarning(name, path)
            else Dropped(name, path)
  {
    EnvelopeRoundTrip(name, path, payload);
  }

  // ---- fan-out ------------------------------------------------------------

  predicate Distinct(ids: seq<nat>) {
    forall i, j | 0 <= i < j < |ids| :: ids[i] != ids[j]
  }

  /** One send of `p` to each client in order, skipping the one `except` names. */
  function FanOut(clients: seq<nat>, except: Option<nat>, p: Packet): seq<Send>
    decreases |clients|
  {
    if clients == [] then []
    else
      var last := clients[|clients| - 1];
      FanOut(clients[..|clients| - 1], except, p)
        + (if except == Some(last) then [] else [Send(Client(last), p)])
  }

  /** How many of `sends` go to `d`. */
  function SendsTo(sends: seq<Send>, d: Destination): nat {
    if sends == [] then 0
    else SendsTo(sends[..|sends| - 1], d) + (if sends[|sends| - 1].to == d then 1 else 0)
  }

  lemma {:induction false} SendsToAppend(a: seq<Send>, b: seq<Send>, d: Destination)
    ensures SendsTo(a + b, d) == SendsTo(a, d) + SendsTo(b, d)
    decreases |b|
  {
    if b != [] {
      assert (a + b)[..|a + b| - 1] == a + b[..|b| - 1];
      assert (a + b)[|a + b| - 1] == b[|b| - 1];
      SendsToAppend(a, b[..|b| - 1], d);
    } else {
      assert a + b == a;
    }
  }

  /** A fan-out carries the one packet and goes to clients only. */
  lemma {:induction false} FanOutCarries(clients: seq<nat>, except: Option<nat>, p: Packet)
    ensures forall s | s in FanOut(clients, except, p) :: s.packet == p && s.to.Client?
    decreases |clients|
  {
    if clients != [] {
      FanOutCarries(clients[..|clients| - 1], except, p);
    }
  }

  /** Dropping the last of distinct ids leaves distinct ids without it. */
  lemma DistinctSplit(ids: seq<nat>)
    requires Distinct(ids) && ids != []
    ensures Distinct(ids[..|ids| - 1]) && ids[|ids| - 1] !in ids[..|ids| - 1]
  {
    var init := ids[..|ids| - 1];
    forall i, j | 0 <= i < j < |init|
      ensures init[i] != init[j]
    {
      assert init[i] == ids[i] && init[j] == ids[j];
    }
    forall i | 0 <= i < |init|
      ensures init[i] != ids[|ids| - 1]
    {
      assert init[i] == ids[i];
    }
  }

  lemma MemberSplit(ids: seq<nat>, x: nat)
    requires ids != []
    ensures x in ids <==> x in ids[..|ids| - 1] || x == ids[|ids| - 1]
  {
    assert ids == ids[..|ids| - 1] + [ids[|ids| - 1]];
  }

  /** The inductive step of `FanOutReachesEachOnce`: adding the last client
      adds one send to it, unless it is excluded. */
  lemma FanOutCountStep(clients: seq<nat>, except: Option<nat>, p: Packet, d: Destination)
    requires clients != [] && clients[|clients| - 1] !in clients[..|clients| - 1]
    requires var init := clients[..|clients| - 1];
      SendsTo(FanOut(init, except, p), d)
        == if d.Client? && d.id in init && except != Some(d.id) then 1 else 0
    ensures SendsTo(FanOut(clients, except, p), d)
         == if d.Client? && d.id in clients && except != Some(d.id) then 1 else 0
  {
    var init := clients[..|clients| - 1];
    var last := clients[|clients| - 1];
    var tail := if except == Some(last) then [] else [Send(Client(last), p)];
    var prefix := FanOut(init, except, p);
    assert FanOut(clients, except, p) == prefix + tail;
    SendsToAppend(prefix, tail, d);
    assert tail != [] ==> tail[..0] == [];
    assert SendsTo(tail, d) == if except != Some(last) && d == Client(last) then 1 else 0;
    if d.Client? {
      MemberSplit(clients, d.id);
    }
  }

  /** A fan-out over distinct clients reaches each client exactly once,
      except the excluded one, which it never reaches, and nothing else. */
  lemma {:induction false} FanOutReachesEachOnce(clients: seq<nat>, except: Option<nat>, p: Packet, d: Destination)
    requires Distinct(clients)
    ensures SendsTo(FanOut(clients, except, p), d)
         == if d.Client? && d.id in clients && except != Some(d.id) then 1 else 0
    decreases |clients|
  {
    if clients != [] {
      DistinctSplit(clients);
      FanOutReachesEachOnce(clients[..|clients| - 1], except, p, d);
      FanOutCountStep(clients, except, p, d);
    }
  }

  // ---- spawn names --------------------------------------------------------

  function Digit(d: nat): (c: char)
    requires d < 10
  {
    ('0' as int + d) as char
  }

  /** `int.ToString()` of a non-negative number. */
  function Decimal(n: nat): (r: string)
    ensures |r| >= 1
    ensures forall i | 0 <= i < |r| :: '0' <= r[i] <= '9'
  {
    if n < 10 then [Digit(n)] else Decimal(n / 10) + [Digit(n % 10)]
  }

  lemma {:induction false} DecimalInjective(a: nat, b: nat)
    requires Decimal(a) == Decimal(b)
    ensures a == b
  {
    assert a >= 10 <==> |Decimal(a)| >= 2;
    assert b >= 10 <==> |Decimal(b)| >= 2;
    if a >= 10 {
      var da, db := Decimal(a), Decimal(b);
      assert da[..|da| - 1] == Decimal(a / 10);
      assert db[..|db| - 1] == Decimal(b / 10);
      DecimalInjective(a / 10, b / 10);
      assert Digit(a % 10) == da[|da| - 1] == db[|db| - 1] == Digit(b % 10);
    }
  }

  /** The name `SpawnNetworkSafe` gives the spawn with index `k` of `baseName`. */
  function SpawnName(baseName: string, k: nat): string {
    baseName + " " + Decimal(k)
  }

  /** The space before the index is the last space of a spawn name. */
  lemma LastSpace(b: string, k: nat)
    ensures var n := SpawnName(b, k);
      |b| < |n| && n[|b|] == ' ' && forall i | |b| < i < |n| :: n[i] != ' '
  {
    var n := SpawnName(b, k);
    assert forall i | |b| < i < |n| :: n[i] == Decimal(k)[i - |b| - 1];
  }

  /** Two spawn names are equal only for the same base name and index: the
      index has no space in it, so the last space splits a name uniquely. */
  lemma SpawnNameInjective(b1: string, k1: nat, b2: string, k2: nat)
    requires SpawnName(b1, k1) == SpawnName(b2, k2)
    ensures b1 == b2 && k1 == k2
  {
    var n := SpawnName(b1, k1);
    LastSpace(b1, k1);
    LastSpace(b2, k2);
    assert |b1| == |b2|;
    assert b1 == n[..|b1|] == b2;
    assert Decimal(k1) == n[|b1| + 1..] == Decimal(k2);
    DecimalInjective(k1, k2);
  }

  /** The next index of `baseName`: 0 until it is first spawned. */
  function NextIndex(nameIndexes: map<string, nat>, baseName: string): nat {
    if baseName in nameIndexes then nameIndexes[baseName] else 0
  }

  // ---- building and copying messages -------------------------------------

  /** What every send pattern writes after the header: the call name, the
      node path, then whatever the builder writes. */
  method WriteEnvelope(message: Message, name: string, path: string, payload: Bits)
    requires message.Valid()
    modifies message`bits
    ensures message.Valid()
    ensures message.bits == old(message.bits) + EnvelopeBits(name, path) + payload
  {
    message.AddString(name);
    message.AddString(path);
    message.Append(payload);
  }

  /** Reads the call name and then the node path. */
  method ReadEnvelope(message: Message) returns (r: Option<Envelope>)
    requires message.Valid()
    modifies message`readPos
    ensures message.Valid()
    ensures r == DecodeEnvelope(old(message.Unread()))
    ensures r.Some? ==> message.Unread() == r.value.payload
  {
    ghost var b := message.Unread();
    var name := message.GetString();
    if name.None? {
      return None;
    }
    ghost var n := DecodeString(b).value.width;
    assert message.Unread() == b[n..];
    var path := message.GetString();
    if path.None? {
      return None;
    }
    assert message.Unread() == b[n + DecodeString(b[n..]).value.width..];
    r := Some(Envelope(name.value, path.value, message.Unread()));
  }

  lemma SliceSplit(s: Bits, a: nat, b: nat, c: nat)
    requires a <= b <= c <= |s|
    ensures s[a..c] == s[a..b] + s[b..c]
  {
  }

  /** One pass of the relay loop: `GetBits` then `AddBits` of the same
      width moves the next `width` unread bits to the end of `target`. */
  method MoveBits(message: Message, target: Message, width: nat)
    requires message != target && message.Valid() && target.Valid()
    requires width <= 8 && width <= message.UnreadBits()
    modifies message`readPos, target`bits
    ensures message.Valid() && target.Valid()
    ensures message.readPos == old(message.readPos) + width
    ensures target.bits == old(target.bits) + message.bits[old(message.readPos)..message.readPos]
  {
    ghost var chunk := message.bits[message.readPos..message.readPos + width];
    assert message.Unread()[..width] == chunk;
    var bits := message.GetBits(width);
    target.AddBits(bits, width);
    BitsToNatToBits(chunk);
  }

  /** The host's relay loop: the unread bits of a bounce are moved, at most
      eight at a time, into a new direct message of the same send mode. */
  method RelayCopy(message: Message) returns (relayMessage: Message)
    requires message.Valid()
    modifies message`readPos
    ensures message.Valid() && message.UnreadBits() == 0
    ensures fresh(relayMessage)
    ensures relayMessage.Snapshot() == RelayPacket(message.mode, old(message.Unread()))
  {
    relayMessage := new Message.Create(message.mode, DirectId);
    ghost var start := message.readPos;
    while message.UnreadBits() > 0
      modifies message`readPos, relayMessage`bits
      invariant message.Valid() && relayMessage.Valid()
      invariant start <= message.readPos
      invariant relayMessage.bits == HeaderBits(message.mode, DirectId) + message.bits[start..message.readPos]
      decreases message.UnreadBits()
    {
      var bitsToWrite := if message.UnreadBits() < 8 then message.UnreadBits() else 8;
      ghost var pos := message.readPos;
      MoveBits(message, relayMessage, bitsToWrite);
      SliceSplit(message.bits, start, pos, message.readPos);
    }
  }


  /** One pass of the copy loop: `PeekBits` then `AddBits` of the same
      width appends `width` bits from `position` on to `target`. */
  method CopyBits(message: Message, target: Message, width: nat, position: nat)
    requires message != target && target.Valid()
    requires width <= 8 && position + width <= |message.bits|
    modifies target`bits
    ensures target.Valid()
    ensures target.bits == old(target.bits) + message.bits[position..position + width]
  {
    var bits := message.PeekBits(width, position);
    target.AddBits(bits, width);
    BitsToNatToBits(message.bits[position..position + width]);
  }

  /** The fast patterns' copy loop: the bits from `initialBits` on are copied,
      at most eight at a time, into a fresh header-less message. The source
      message is only peeked at. */
  method LoopbackCopy(message: Message, initialBits: nat) returns (localMessage: Message)
    requires message.Valid() && initialBits <= message.WrittenBits()
    ensures fresh(localMessage) && localMessage.Valid()
    ensures localMessage.mode == HeaderlessMode && localMessage.readPos == 0
    ensures localMessage.bits == message.bits[initialBits..]
    ensures unchanged(message)
  {
    localMessage := new Message.CreateHeaderless();
    var bitsToRead: int := message.WrittenBits() - initialBits;
    var readPosition := initialBits;
    while bitsToRead > 0
      modifies localMessage`bits
      invariant 0 <= bitsToRead <= |message.bits| - initialBits
      invariant bitsToRead > 0 ==> readPosition == |message.bits| - bitsToRead
      invariant localMessage.Valid()
      invariant localMessage.bits == message.bits[initialBits..|message.bits| - bitsToRead]
      decreases bitsToRead
    {
      var bitsToWrite := if bitsToRead < 8 then bitsToRead else 8;
      CopyBits(message, localMessage, bitsToWrite, readPosition);
      SliceSplit(message.bits, initialBits, readPosition, readPosition + bitsToWrite);
      readPosition := readPosition + 8;
      bitsToRead := bitsToRead - bitsToWrite;
    }
  }

  class NetworkManager {
    /** `IsHost`: this peer runs the server. */
    const isHost: bool
    /** `LocalClient.Id`. */
    const localId: nat
    /** Ids of the server's client connections, `LocalServer.Clients`. */
    var clients: seq<nat>
    /** Paths for which `HasNode` holds. */
    var nodes: set<string>
    /** `_nameIndexes`: the next index per spawn base name. */
    var nameIndexes: map<string, nat>
    /** Every (base name, index) handed out so far. */
    ghost var issued: set<(string, nat)>
    var outbox: seq<Send>
    var dispatched: seq<Dispatch>
    var warnings: seq<Warning>

    ghost predicate Valid()
      reads this
    {
      && Distinct(clients)
      && forall e | e in issued :: e.0 in nameIndexes && e.1 < nameIndexes[e.0]
    }

    constructor (isHost: bool, localId: nat, clients: seq<nat>, nodes: set<string>)
      requires Distinct(clients)
      ensures Valid()
      ensures this.isHost == isHost && this.localId == localId
      ensures this.clients == clients && this.nodes == nodes
      ensures nameIndexes == map[] && issued == {}
      ensures outbox == [] && dispatched == [] && warnings == []
    {
      this.isHost := isHost;
      this.localId := localId;
      this.clients := clients;
      this.nodes := nodes;
      nameIndexes := map[];
      issued := {};
      outbox := [];
      dispatched := [];
      warnings := [];
    }

    /** `IsOwner`: the node's multiplayer authority is this peer's client id. */
    predicate IsOwner(authority: int) {
      authority == localId
    }

    /** Names the k-th spawn of `baseName` (counting from 0) "baseName k",
        advances only that base name's counter, and never repeats a name. */
    method SpawnNetworkSafe(baseName: string, authority: int := 1) returns (node: SpawnedNode)
      requires Valid()
      modifies this`nameIndexes, this`issued
      ensures Valid()
      ensures var k := NextIndex(old(nameIndexes), baseName);
        && node == SpawnedNode(SpawnName(baseName, k), authority)
        && nameIndexes == old(nameIndexes)[baseName := k + 1]
        && issued == old(issued) + {(baseName, k)}
      ensures forall e | e in old(issued) :: SpawnName(e.0, e.1) != node.name
    {
      if baseName !in nameIndexes {
        nameIndexes := nameIndexes[baseName := 0];
      }
      var k := nameIndexes[baseName];
      node := SpawnedNode(SpawnName(baseName, k), authority);
      nameIndexes := nameIndexes[baseName := k + 1];
      issued := issued + {(baseName, k)};
      forall e | e in old(issued)
        ensures SpawnName(e.0, e.1) != node.name
      {
        if SpawnName(e.0, e.1) == node.name {
          SpawnNameInjective(e.0, e.1, baseName, k);
        }
      }
    }

    /** Client to host: one direct message to the server. */
    method SendRpcToServer(source: Source, name: string, payload: Bits := [], mode: SendMode := Reliable)
      modifies this`outbox
      ensures outbox == old(outbox) + [Send(Server, RpcPacket(mode, DirectId, name, source.path, payload))]
    {
      var message := new Message.Create(mode, DirectId);
      WriteEnvelope(message, name, source.path, payload);
      outbox := outbox + [Send(Server, message.Snapshot())];
    }

    /** Host to every client. On a peer without a server the call fails
        (`ok` is false) after the message was built, and nothing is sent. */
    method SendRpcToClients(source: Source, name: string, payload: Bits := [], mode: SendMode := Reliable)
      returns (ok: bool)
      modifies this`outbox
      ensures ok == isHost
      ensures outbox == old(outbox)
        + (if isHost then FanOut(clients, None, RpcPacket(mode, DirectId, name, source.path, payload)) else [])
    {
      var message := new Message.Create(mode, DirectId);
      WriteEnvelope(message, name, source.path, payload);
      if !isHost {
        return false;
      }
      SendToAll(message.Snapshot());
      ok := true;
    }

    /** Host to every client but its own, plus a synchronous dispatch of a
        bit-exact copy of the call on the host itself. */
    method SendRpcToClientsFast(source: Source, name: string, payload: Bits := [], mode: SendMode := Reliable)
      returns (ok: bool)
      modifies this`outbox, this`dispatched, this`warnings
      ensures ok == isHost
      ensures outbox == old(outbox)
        + (if isHost then FanOut(clients, Some(localId), RpcPacket(mode, DirectId, name, source.path, payload)) else [])
      ensures dispatched == old(dispatched)
        + (if isHost && source.path in nodes then [Dispatch(source.path, name, payload)] else [])
      ensures warnings == old(warnings)
    {
      var message := new Message.Create(mode, DirectId);
      var initialBits := message.WrittenBits();
      WriteEnvelope(message, name, source.path, payload);
      var localMessage := LoopbackCopy(message, initialBits);
      assert localMessage.Unread() == EnvelopeBits(name, source.path) + payload;
      if !isHost {
        return false;
      }
      SendToAllExcept(message.Snapshot(), localId);
      HandleEnvelope(name, source.path, payload, HeaderlessMode, nodes);
      var handling := HandleMessage(localMessage);
      ok := true;
    }

    /** Client to host, for the host to relay to every client. */
    method BounceRpcToClients(source: Source, name: string, payload: Bits := [], mode: SendMode := Reliable)
      modifies this`outbox
      ensures outbox == old(outbox) + [Send(Server, RpcPacket(mode, BroadcastBounceId, name, source.path, payload))]
    {
      var message := new Message.Create(mode, BroadcastBounceId);
      WriteEnvelope(message, name, source.path, payload);
      outbox := outbox + [Send(Server, message.Snapshot())];
    }

    /** Client to host, for the host to relay to every other client, plus a
        synchronous dispatch of a bit-exact copy on the sender. */
    method BounceRpcToClientsFast(source: Source, name: string, payload: Bits := [], mode: SendMode := Reliable)
      modifies this`outbox, this`dispatched, this`warnings
      ensures outbox == old(outbox) + [Send(Server, RpcPacket(mode, ExcludeSenderBounceId, name, source.path, payload))]
      ensures dispatched == old(dispatched)
        + (if source.path in nodes then [Dispatch(source.path, name, payload)] else [])
      ensures warnings == old(warnings)
    {
      var message := new Message.Create(mode, ExcludeSenderBounceId);
      var initialBits := message.WrittenBits();
      WriteEnvelope(message, name, source.path, payload);
      var localMessage := LoopbackCopy(message, initialBits);
      assert localMessage.Unread() == EnvelopeBits(name, source.path) + payload;
      outbox := outbox + [Send(Server, message.Snapshot())];
      HandleEnvelope(name, source.path, payload, HeaderlessMode, nodes);
      var handling := HandleMessage(localMessage);
    }

    /** Riptide's `Server.SendToAll`. */
    method SendToAll(p: Packet)
      modifies this`outbox
      ensures outbox == old(outbox) + FanOut(clients, None, p)
    {
      outbox := outbox + FanOut(clients, None, p);
    }

    /** The `foreach` over `LocalServer.Clients` that skips one connection. */
    method SendToAllExcept(p: Packet, skip: nat)
      modifies this`outbox
      ensures outbox == old(outbox) + FanOut(clients, Some(skip), p)
    {
      var i := 0;
      while i < |clients|
        invariant 0 <= i <= |clients|
        invariant outbox == old(outbox) + FanOut(clients[..i], Some(skip), p)
      {
        assert clients[..i + 1][..i] == clients[..i];
        if clients[i] != skip {
          outbox := outbox + [Send(Client(clients[i]), p)];
        }
        i := i + 1;
      }
      assert clients[..|clients|] == clients;
    }

    /** Reads the envelope and hands the rest of the message to the target
        node, or drops the call when the path does not resolve. */
    method HandleMessage(message: Message) returns (h: Handling)
      requires message.Valid()
      modifies message`readPos, this`dispatched, this`warnings
      ensures message.Valid()
      ensures h == Handle(old(message.Unread()), message.mode, nodes)
      ensures dispatched == old(dispatched) + (if h.Dispatched? then [Dispatch(h.path, h.name, h.payload)] else [])
      ensures warnings == old(warnings) + (if h.DroppedWithWarning? then [IgnoredReliableRpc(h.name, h.path)] else [])
      ensures h.Dispatched? ==> message.Unread() == h.payload
    {
      var e := ReadEnvelope(message);
      if e.None? {
        return Malformed;
      }
      var Envelope(name, path, _) := e.value;
      if path !in nodes {
        if message.mode == Reliable {
          warnings := warnings + [IgnoredReliableRpc(name, path)];
          return DroppedWithWarning(name, path);
        }
        return Dropped(name, path);
      }
      dispatched := dispatched + [Dispatch(path, name, message.Unread())];
      h := Dispatched(path, name, message.Unread());
    }

    /** A message with id 1 or 2 is never dispatched here: its unread bits are
        re-wrapped, at most eight at a time, in a direct message of the same
        send mode, which goes to every client (id 1) or every client but the
        sender (id 2). Any other message is handled locally. */
    method OnMessageReceived(message: Message, from: nat) returns (r: Reception)
      requires message.Valid()
      modifies message`readPos, this`outbox, this`dispatched, this`warnings
      ensures message.Valid()
      ensures message.id == BroadcastBounceId || message.id == ExcludeSenderBounceId ==>
        && r == Relayed(isHost)
        && message.UnreadBits() == 0
        && dispatched == old(dispatched) && warnings == old(warnings)
        && outbox == old(outbox)
           + (if !isHost then []
              else FanOut(clients, if message.id == BroadcastBounceId then None else Some(from),
                          RelayPacket(message.mode, old(message.Unread()))))
      ensures message.id != BroadcastBounceId && message.id != ExcludeSenderBounceId ==>
        && r == Handled(Handle(old(message.Unread()), message.mode, nodes))
        && outbox == old(outbox)
        && dispatched == old(dispatched)
           + (if r.handling.Dispatched? then [Dispatch(r.handling.path, r.handling.name, r.handling.payload)] else [])
        && warnings == old(warnings)
           + (if r.handling.DroppedWithWarning? then [IgnoredReliableRpc(r.handling.name, r.handling.path)] else [])
    {
      if message.id == BroadcastBounceId || message.id == ExcludeSenderBounceId {
        var relayMessage := RelayCopy(message);
        if !isHost {
          return Relayed(false);
        }
        if message.id == BroadcastBounceId {
          SendToAll(relayMessage.Snapshot());
        } else {
          SendToAllExcept(relayMessage.Snapshot(), from);
        }
        return Relayed(true);
      }
      var h := HandleMessage(message);
      r := Handled(h);
    }
  }
}
