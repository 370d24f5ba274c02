# Buddy-Brawlers networking core in Dafny

This project models the two pieces of Buddy-Brawlers' multiplayer layer that hold the logic:

- **The RPC router** (`NetworkManager`). Every remote call is framed as an envelope: the call name, then the target node's path, then the bits the caller's builder writes. The message id tags it:
  - 0: a direct call.
  - 1: a bounce that the host relays to every client.
  - 2: a bounce that the host relays to every client except its sender.

  The router covers:
  - The five send patterns.
  - The bit-copy loops that give the "fast" patterns their loopback copy.
  - Inbound dispatch with its reliable-only warning.
  - The host's relay of bounced calls.
  - The unique names `SpawnNetworkSafe` hands out.
- **The replicated variable** (`NetworkedVariable<T>`). The peer with authority sends its value. The other peers apply each update only when its index is newer than the last one they received. A Client-authority update reaches the host with a propagate flag, and the host re-sends it to every client.

The model has four modules:

- **`Codec`**: the bit encodings of the fields a message carries (bits, bool, 32-bit int, 32-bit float word, string), with their round-trip lemmas.
- **`Wire`**: Riptide's `Message` as a class. It has a bit sequence, a read cursor, a send mode and an id. `AddX` appends bits, `PeekBits` reads without moving the cursor, and `GetX` reads and advances the cursor.
- **`Routing`**: the `NetworkManager` class. The transport and the node handlers are logs:
  - `outbox` gets one `Send` per destination of every message handed to Riptide.
  - `dispatched` gets every call handed to a node's `NetworkPoint`.
  - `warnings` gets every warning `HandleMessage` pushes.

  `IsOwner` is the predicate `authority == localId`. The pure specification of the wire format sits beside the class:
  - `DecodeEnvelope`.
  - `Handle`.
  - `FanOut`: one send per client, optionally skipping one.
  - `SpawnName`.
- **`Replication`**: the `NetworkedVariable` class, with a pure state machine beside it:
  - `Receive` / `ApplyUpdate` over `VarState`.
  - `AttemptOutcome`.
  - `WithinDelay`.

  The class's methods are proved against these functions. Properties across many updates (monotone indices, the newest update wins, the authority keeps its value) are lemmas over `DeliverAll`, which folds `Receive` over a sequence of updates.

Inputs that come from outside the program become parameters:

- `Time.GetTicksMsec()` becomes `now`.
- `LocalClient.Id` becomes `localId`.
- `IsHost` (a server exists) becomes `isHost`.
- `LocalServer.Clients` becomes `clients`.
- The set of live node paths (`HasNode`) becomes `nodes`.
- The sender's connection becomes `from`.
- A message builder (`Action<Message>`) becomes the bits it writes (`payload`).

The C# `int` and `ulong` arithmetic on `NetworkedVariable`'s fields is explicit:

- `_lastSentIndex++` wraps from 2^31-1 to -2^31 (`Codec.Inc`).
- `now - _lastSentTick` is taken modulo 2^64 (`Replication.WithinDelay`).

Exceptions the source throws become outcomes:

- `NotRegistered`: `SendUpdate` before `Register`.
- `ServerMissing`: a Server-authority send on a peer without a server.
- `ok == false`: a server-side send on a peer without a server.

## Model

| member | source | states |
|---|---|---|
| Codec.Inc | scripts/networking/NetworkedVariable.cs:80 | `_lastSentIndex++` on a C# `int` in an unchecked context: the result is x+1 truncated to 32 bits in two's complement, so 2^31-1 wraps to -2^31 |
| Codec.NatToBitsToNat | scripts/networking/NetworkManager.cs:119-121 | a number written into `width` bits that fit reads back as itself |
| Codec.BitsToNatToBits | scripts/networking/NetworkManager.cs:119-121 | reading a run of at most a byte and writing that number back with the same width reproduces the run exactly |
| Codec.Int32RoundTrip | scripts/networking/NetworkedVariable.cs:82 | an int written with `AddInt` reads back with `GetInt` as the same int, taking 32 bits, whatever follows |
| Codec.WordRoundTrip | scripts/networking/NetworkedVariable.cs:91 | a float word written with `AddFloat` reads back with `GetFloat` unchanged, taking 32 bits |
| Codec.CharRoundTrip | scripts/networking/NetworkManager.cs:67 | every character of a string field reads back as itself |
| Codec.StringRoundTrip | scripts/networking/NetworkManager.cs:67-68 | a string written with `AddString` reads back with `GetString` as itself, and the reader stops exactly where the writer stopped, whatever follows |
| Codec.DecodeBool | scripts/networking/NetworkedVariable.cs:136 | `GetBool` succeeds exactly when a bit is left, and takes that one bit |
| Codec.DecodeInt32 | scripts/networking/NetworkedVariable.cs:138 | `GetInt` succeeds exactly when 32 bits are left, and takes 32 |
| Codec.DecodeWord | scripts/networking/NetworkedVariable.cs:156 | `GetFloat` succeeds exactly when 32 bits are left, and takes 32 |
| Codec.DecodeString | scripts/networking/NetworkManager.cs:295 | a string read takes at least one bit and never more than are left |
| Wire.Message.Create | scripts/networking/NetworkManager.cs:66 | `Message.Create(mode, id)` keeps the mode and id and writes exactly the header, with nothing left to read |
| Wire.Message.CreateHeaderless | scripts/networking/NetworkManager.cs:109 | `Message.Create()` is empty, with the header-less send mode and id 0 |
| Wire.Message.Received | scripts/networking/NetworkManager.cs:309-311 | an inbound message carries the sender's mode, id and bits, with the header consumed |
| Wire.Message.AddBits | scripts/networking/NetworkManager.cs:121 | appends exactly the low `width` bits of the byte |
| Wire.Message.PeekBits | scripts/networking/NetworkManager.cs:119 | returns the byte spelled by the `width` bits at `position`; the message is not changed |
| Wire.Message.GetBits | scripts/networking/NetworkManager.cs:321 | returns the byte spelled by the next `width` unread bits and advances the cursor by `width` |
| Wire.Message.Append | scripts/networking/NetworkManager.cs:70 | the builder's bits are appended after what was already written |
| Wire.Message.AddBool | scripts/networking/NetworkedVariable.cs:78 | appends the bool's encoding |
| Wire.Message.AddInt | scripts/networking/NetworkedVariable.cs:82 | appends the int's encoding |
| Wire.Message.AddFloat | scripts/networking/NetworkedVariable.cs:91 | appends the float word's encoding |
| Wire.Message.AddString | scripts/networking/NetworkManager.cs:67 | appends the string's encoding |
| Wire.Message.GetBool | scripts/networking/NetworkedVariable.cs:136 | reads a bool and moves past it, or fails without moving when none is left |
| Wire.Message.GetInt | scripts/networking/NetworkedVariable.cs:138 | reads an int and moves past it, or fails without moving on a truncated message |
| Wire.Message.GetFloat | scripts/networking/NetworkedVariable.cs:156 | reads a float word and moves past it, or fails without moving on a truncated message |
| Wire.Message.GetString | scripts/networking/NetworkManager.cs:295 | reads a string and moves past it, or fails without moving on a truncated or malformed message |
| Routing.EnvelopeRoundTrip | scripts/networking/NetworkManager.cs:295-297 | reading the name and then the path off what a send pattern wrote gives back the name, the path and exactly the builder's bits |
| Routing.HandleEnvelope | scripts/networking/NetworkManager.cs:299-306 | a framed call is dispatched with exactly its payload when its path resolves; otherwise it is dropped, with a warning exactly when it was sent reliably |
| Routing.FanOutCarries | scripts/networking/NetworkManager.cs:127-136 | every send of a fan-out carries the one message and goes to a client, never to the server |
| Routing.FanOutReachesEachOnce | scripts/networking/NetworkManager.cs:332-337 | over distinct connections, a fan-out reaches each connection exactly once except the skipped one, which it never reaches, and reaches nothing else |
| Routing.Decimal | scripts/networking/NetworkManager.cs:53 | the index in a spawn name is a non-empty run of decimal digits |
| Routing.DecimalInjective | scripts/networking/NetworkManager.cs:53 | two indices with the same decimal text are equal |
| Routing.SpawnNameInjective | scripts/networking/NetworkManager.cs:53 | "base k" names are equal only for equal base names and equal indices |
| Routing.WriteEnvelope | scripts/networking/NetworkManager.cs:67-70 | the message gets the name, then the path, then the builder's bits |
| Routing.ReadEnvelope | scripts/networking/NetworkManager.cs:295-297 | reads the envelope exactly as `DecodeEnvelope` says, and leaves the cursor at the payload |
| Routing.MoveBits | scripts/networking/NetworkManager.cs:317-323 | one relay-loop pass moves the next `width` unread bits, in order, to the end of the relay message |
| Routing.RelayCopy | scripts/networking/NetworkManager.cs:313-324 | the relay loop terminates with nothing left unread, and the relay message is a direct message of the same send mode holding exactly the bounce's unread bits |
| Routing.CopyBits | scripts/networking/NetworkManager.cs:115-121 | one copy-loop pass appends the `width` bits at the read position, in order |
| Routing.LoopbackCopy | scripts/networking/NetworkManager.cs:109-125 | the copy loop terminates, the local message holds exactly the bits from `initialBits` to the end in order, and the outbound message is unchanged |
| Routing.NetworkManager.constructor | scripts/networking/NetworkManager.cs:23 | a router starts with no name counters and empty logs |
| Routing.NetworkManager.SpawnNetworkSafe | scripts/networking/NetworkManager.cs:47-60 | the k-th spawn of a base name (from 0) is named "base k" with the given authority; only that base name's counter advances; no name handed out before is repeated |
| Routing.NetworkManager.SendRpcToServer | scripts/networking/NetworkManager.cs:62-77 | exactly one id-0 message, with the envelope and payload, goes to the server |
| Routing.NetworkManager.SendRpcToClients | scripts/networking/NetworkManager.cs:79-94 | on the host, one id-0 message goes to each client; elsewhere the call fails and nothing is sent |
| Routing.NetworkManager.SendRpcToClientsFast | scripts/networking/NetworkManager.cs:96-139 | on the host, one id-0 message goes to each client but the host's own, and the call is dispatched locally exactly once with exactly its payload when its path resolves, and otherwise dropped without a warning; elsewhere nothing happens |
| Routing.NetworkManager.BounceRpcToClients | scripts/networking/NetworkManager.cs:141-159 | exactly one id-1 message goes to the server |
| Routing.NetworkManager.BounceRpcToClientsFast | scripts/networking/NetworkManager.cs:161-199 | exactly one id-2 message goes to the server, and the call is dispatched locally exactly once with exactly its payload when its path resolves, and otherwise dropped without a warning |
| Routing.NetworkManager.IsOwner | scripts/networking/NetworkManager.cs:288-291 | a node is owned by this peer exactly when its multiplayer authority is this peer's client id |
| Routing.NetworkManager.SendToAll | scripts/networking/NetworkManager.cs:89 | one send of the message to each client |
| Routing.NetworkManager.SendToAllExcept | scripts/networking/NetworkManager.cs:127-136 | the loop sends the message to each client in order, skipping the given id |
| Routing.NetworkManager.HandleMessage | scripts/networking/NetworkManager.cs:293-307 | does what `Handle` says of the unread bits: dispatches name and remaining payload, or drops the call and warns only for a reliable one |
| Routing.NetworkManager.OnMessageReceived | scripts/networking/NetworkManager.cs:309-356 | a message with id 1 or 2 is never dispatched; its unread bits are wholly re-wrapped in an id-0 message of the same mode, sent to every client (id 1) or every client but the sender (id 2); any other message is handled locally |
| Replication.ClampDelay | scripts/networking/NetworkedVariable.cs:60 | the delay used is the larger of the requested one and 50 ms |
| Replication.DecodeValue | scripts/networking/NetworkedVariable.cs:149-167 | a decoded value has the variable's type; a type without a codec reads nothing and keeps the current value |
| Replication.Vector2RoundTrip | scripts/networking/NetworkedVariable.cs:159-162 | a Vector2 written as x then y reads back as itself, taking 64 bits |
| Replication.Vector3RoundTrip | scripts/networking/NetworkedVariable.cs:164-167 | a Vector3 written as x, y, z reads back as itself, taking 96 bits |
| Replication.ValueRoundTrip | scripts/networking/NetworkedVariable.cs:84-107 | the receiver reads back the value the sender wrote and stops where the sender stopped |
| Replication.ApplyUpdateInvariants | scripts/networking/NetworkedVariable.cs:142-170 | an update newer than the last one sets the receive index, marks the variable synced, leaves the send index at or above the update's index (or just wrapped), and never touches the authority's value |
| Replication.ReceiveInvariants | scripts/networking/NetworkedVariable.cs:134-171 | for any bits: the receive index never decreases; a stale update changes nothing and sends nothing; an accepted one strictly raises the receive index and sets synced; the send index ends at or above a new receive index (or just wrapped); only accepted updates re-send; the authority's value is kept; the send tick is untouched |
| Replication.ReceiveHeader | scripts/networking/NetworkedVariable.cs:136-140 | an update is stale exactly when its index is at most the last received one, and otherwise the bits after the index are applied |
| Replication.ApplyWellFormed | scripts/networking/NetworkedVariable.cs:142-170 | a newer well-formed update is accepted: indices set as the source does, value applied unless this peer is the authority, re-sent exactly when its propagate flag is set |
| Replication.ReceiveWellFormed | scripts/networking/NetworkedVariable.cs:134-171 | the complete outcome of a well-formed update: stale with no change, or accepted with the new indices, value, re-send decision and bits read |
| Replication.DeliverWellFormed | scripts/networking/NetworkedVariable.cs:140-167 | one delivered update either changes nothing (stale) or sets the receive index to its own and applies its value unless this peer is the authority |
| Replication.HighestIndexWins | scripts/networking/NetworkedVariable.cs:140-142 | after any updates, the receive index is at least the starting one and at least every update's index, and the state is unchanged if the index did not move |
| Replication.NewestUpdateWins | scripts/networking/NetworkedVariable.cs:140-167 | on a peer that is not the authority, once any update was newer, the value is the one carried by the first update that bore the highest index |
| Replication.AuthorityKeepsValue | scripts/networking/NetworkedVariable.cs:147 | on the authority no sequence of updates changes the value |
| Replication.OutOfOrderScenario | scripts/networking/NetworkedVariable.cs:140 | updates i, then a lower j, then a higher k: the update with j is dropped and the value ends as the one sent with k |
| Replication.WithinDelay | scripts/networking/NetworkedVariable.cs:119 | the throttle test `now - _lastSentTick < _minimumSendDelay`, with the subtraction taken modulo 2^64 as `ulong` does |
| Replication.SecondSendWithinDelayIsThrottled | scripts/networking/NetworkedVariable.cs:119 | an attempt less than the delay after a send is throttled, so two syncs within the delay send at most once |
| Replication.SendAfterDelayIsNotThrottled | scripts/networking/NetworkedVariable.cs:119 | once a full delay has passed since the last send, the throttle lets the next attempt through |
| Replication.SyncTwiceWithinDelay | scripts/networking/NetworkedVariable.cs:69-72 | two `Sync` calls less than the minimum delay apart send at most once: when the first sends, the second is throttled and the outbox is unchanged by it |
| Replication.OnlyAuthoritySends | scripts/networking/NetworkedVariable.cs:115-131 | an update is sent only by the variable's authority, which owns the node (and is the host under Server authority); a peer that is not the authority adds nothing to the outbox |
| Replication.ReadVector2 | scripts/networking/NetworkedVariable.cs:161 | reads x then y, as `DecodeValue` says |
| Replication.ReadVector3 | scripts/networking/NetworkedVariable.cs:166 | reads x, y then z, as `DecodeValue` says |
| Replication.ReadValue | scripts/networking/NetworkedVariable.cs:149-167 | reads the value fields the variable's type calls for, as `DecodeValue` says |
| Replication.ReadHeader | scripts/networking/NetworkedVariable.cs:136-138 | reads the propagate flag then the index: succeeds exactly when 33 bits are left, and moves past both |
| Replication.NetworkedVariable.constructor | scripts/networking/NetworkedVariable.cs:51-61 | the value is the initial one, the delay is clamped to at least 50 ms, both indices start at -1, the variable is not synced, and it is not registered |
| Replication.NetworkedVariable.Register | scripts/networking/NetworkedVariable.cs:63-67 | records the source node and the variable's name |
| Replication.NetworkedVariable.IsLocallyAuthoritative | scripts/networking/NetworkedVariable.cs:147 | this peer is the variable's authority: the node's owner for Client authority, the host for Server authority |
| Replication.NetworkedVariable.AttemptOutcome | scripts/networking/NetworkedVariable.cs:113-131 | what a send attempt at `now` does, by the checks in the source's order: unregistered, not the owner, throttled, no server for a Server-authority send, or sent |
| Replication.NetworkedVariable.SetupMessage | scripts/networking/NetworkedVariable.cs:74-109 | the builder advances the send index by exactly one and writes the flag, that new index, then the current value |
| Replication.NetworkedVariable.SendUpdate | scripts/networking/NetworkedVariable.cs:111-132 | fails unregistered, does nothing off the owner or within the delay; otherwise stamps `now`, takes the next index and sends once: to every client without the flag (Server authority) or to the server with it (Client authority) |
| Replication.NetworkedVariable.Sync | scripts/networking/NetworkedVariable.cs:69-72 | exactly what `SendUpdate` does |
| Replication.NetworkedVariable.SetValue | scripts/networking/NetworkedVariable.cs:29-36 | always sets synced; sends only under the Change policy for a different value, and that update carries the previous value; the new value is stored unless the send threw (unregistered, or Server authority on a peer without a server) |
| Replication.NetworkedVariable.ReceiveUpdate | scripts/networking/NetworkedVariable.cs:134-171 | the state ends as `Receive` says; an accepted update with the propagate flag is re-sent once to every client without the flag, bypassing the owner and throttle checks; a stale update sends nothing |
| Replication.NetworkedVariable.Resend | scripts/networking/NetworkedVariable.cs:170 | takes the next index and sends the value without the flag to every client, when there is a server |
| Replication.NetworkedVariable.ReceiveValue | scripts/networking/NetworkedVariable.cs:149-167 | reads the value into the variable, or leaves it on a truncated message |
| Replication.NetworkedVariable.AdmitIndex | scripts/networking/NetworkedVariable.cs:142-145 | receive index := index, send index := max(send index, index), synced := true |
| Replication.NetworkedVariable.Apply | scripts/networking/NetworkedVariable.cs:142-170 | the part after a newer index behaves as `ApplyUpdate` says, including the re-send |

## Left out

- Riptide's `Message` internals are not part of this model. The bit layout is chosen here: least significant bit first, a header of 2 mode bits and a 16-bit id, and strings that delimit themselves with a continuation bit per 21-bit character. The networking code relies only on reads giving back what was written.
- The send mode of a header-less `Message.Create()` is taken as Unreliable. Riptide decides it and is not shown. It only matters for the warning on a loopback dispatch whose path does not resolve.
- The `IsInstanceValid` check at the top of each send pattern is left out. It only logs and does not stop the send.
- Hosting, joining, lobby callbacks, `_Ready`, `_PhysicsProcess` and `OnClientConnected` are left out. They are transport and engine setup.
- The commented-out `Delay.Execute` blocks are not modelled. They are dead code.
- `NetworkPoint` and `NetworkPointUser` are not part of this model. A dispatch is recorded in the `dispatched` log. `NetworkPoint.IsOwner` is taken to be `NetworkManager.IsOwner` of the node's authority.
- `Routing.NetworkManager.OnMessageReceived`: the skipped connection is identified by its id. The source compares `Connection` objects.
- Floats and vectors are opaque 32-bit words. Equality in the `Value` setter is therefore word equality, so for NaN and signed zero it differs from `float.Equals`.
- Value types other than `int`, `float`, `Vector2` and `Vector3` are collapsed into `OtherKind`. They write and read no value bits.
- `Routing.NetworkManager.SpawnNetworkSafe`: the per-name counter is an unbounded `nat`. The source's `int` counter would wrap after 2^31 spawns of one base name. The scene instantiation is not modelled; only the name and the authority are.
- `Replication.NetworkedVariable.ReceiveUpdate` requires the variable to be registered. The source reaches it only through `NetworkPoint.Register`, which registers first (scripts/Player.cs:31-33). Without registration the source dereferences the null source in two places. Under Client authority, scripts/networking/NetworkedVariable.cs:147 reads it. When the propagate flag is set, line 170 of the same file passes it to `SendRpcToClients`, which reads its path at scripts/networking/NetworkManager.cs:85. A Server-authority variable that gets a non-propagating update before `Register` runs without error in the source; the model's precondition excludes that case.
- `Replication.NetworkedVariable.ReceiveUpdate` abandons an update when the message ends before a field. The indices read so far are kept, and the cursor position after a truncated read is not stated. Riptide's own behaviour on such a read is not shown.
- `Replication.NetworkedVariable.ReceiveUpdate`: a re-send on a peer without a server throws in the source after the state was updated. Here it sends nothing and returns normally.
- `Routing.NetworkManager.OnMessageReceived`: a bounce that reaches a peer without a server is consumed and reported as `Relayed(false)`, with nothing sent. In the source the relay branch dereferences the missing server (scripts/networking/NetworkManager.cs:328 and 332) and throws.
- `Routing.NetworkManager.HandleMessage`: a message whose name or path cannot be read is reported as `Malformed`, with nothing dispatched and no warning. Riptide's behaviour on a read past the end of a message is not shown.
- `Routing.NetworkManager.SendRpcToClients` and `Routing.NetworkManager.SendRpcToClientsFast`: on a peer without a server, the source throws a null dereference. Here `ok` is false, nothing is sent, and for the fast pattern nothing is dispatched.
- scripts/Player.cs, Player.cs, scripts/Game.cs and scripts/MainMenu.cs are not part of this model. They are gameplay, physics and UI that only call the router.
