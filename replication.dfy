/** `NetworkedVariable<T>`: a value replicated from the peer with authority
    to every other peer, with a resend throttle, per-variable send and
    receive indices, and stale-update rejection.

    The value type is closed over the four types the variable encodes (int,
    float, Vector2, Vector3); floats travel as opaque 32-bit words. Any other
    type writes no value bits and is never changed by an update (`OtherKind`). */
module Replication {
  import opened Codec
  import opened Wire
  import opened Routing

  datatype Authority = Server | Client

  datatype UpdateEvent = Change | Manual

  datatype Kind = IntKind | FloatKind | Vector2Kind | Vector3Kind | OtherKind

  datatype Value =
    | IntValue(i: i32)
    | FloatValue(f: u32)
    | Vector2Value(x: u32, y: u32)
    | Vector3Value(x: u32, y: u32, z: u32)
    | OtherValue(token: int)

  function KindOf(v: Value): Kind {
    match v
    case IntValue(_) => IntKind
    case FloatValue(_) => FloatKind
    case Vector2Value(_, _) => Vector2Kind
    case Vector3Value(_, _, _) => Vector3Kind
    case OtherValue(_) => OtherKind
  }

  const DefaultMinimumSendDelay: u32 := 30
  const MinimumSendDelayFloor: u32 := 50

  /** The constructor's clamp: the delay actually used is the larger of the
      requested delay and 50 ms. */
  function ClampDelay(delay: u32): (r: u32)
    ensures r >= MinimumSendDelayFloor && r >= delay
    ensures r == delay || r == MinimumSendDelayFloor
  {
    if delay < MinimumSendDelayFloor then MinimumSendDelayFloor else delay
  }

  // ---- the update message -------------------------------------------------

  /** The value fields `SetupMessage` writes for each value type. */
  function EncodeValue(v: Value): Bits {
    match v
    case IntValue(i) => Int32Bits(i)
    case FloatValue(f) => WordBits(f)
    case Vector2Value(x, y) => WordBits(x) + WordBits(y)
    case Vector3Value(x, y, z) => WordBits(x) + WordBits(y) + WordBits(z)
    case OtherValue(_) => []
  }

  /** The value fields `ReceiveUpdate` reads for a variable of `kind` whose
      current value is `current`. */
  function DecodeValue(kind: Kind, current: Value, b: Bits): (r: Option<Decoded<Value>>)
    ensures r.Some? && KindOf(current) == kind ==> KindOf(r.value.value) == kind
    ensures kind == OtherKind ==> r == Some(Decoded(current, 0))
  {
    match kind
    case IntKind =>
      (match DecodeInt32(b)
       case None => None
       case Some(i) => Some(Decoded(IntValue(i.value), 32)))
    case FloatKind =>
      (match DecodeWord(b)
       case None => None
       case Some(f) => Some(Decoded(FloatValue(f.value), 32)))
    case Vector2Kind =>
      (match DecodeWord(b)
       case None => None
       case Some(x) =>
         match DecodeWord(b[32..])
         case None => None
         case Some(y) => Some(Decoded(Vector2Value(x.value, y.value), 64)))
    case Vector3Kind =>
      (match DecodeWord(b)
       case None => None
       case Some(x) =>
         match DecodeWord(b[32..])
         case None => None
         case Some(y) =>
           match DecodeWord(b[64..])
           case None => None
           case Some(z) => Some(Decoded(Vector3Value(x.value, y.value, z.value), 96)))
    case OtherKind => Some(Decoded(current, 0))
  }

  lemma Vector2RoundTrip(x: u32, y: u32, current: Value, rest: Bits)
    ensures DecodeValue(Vector2Kind, current, WordBits(x) + WordBits(y) + rest)
         == Some(Decoded(Vector2Value(x, y), 64))
  {
    var wx, wy := WordBits(x), WordBits(y);
    var b := wx + wy + rest;
    assert b == wx + (wy + rest);
    WordRoundTrip(x, wy + rest);
    DropPrefix(wx, wy + rest);
    WordRoundTrip(y, rest);
  }

  lemma Vector3RoundTrip(x: u32, y: u32, z: u32, current: Value, rest: Bits)
    ensures DecodeValue(Vector3Kind, current, WordBits(x) + WordBits(y) + WordBits(z) + rest)
         == Some(Decoded(Vector3Value(x, y, z), 96))
  {
    var wx, wy, wz := WordBits(x), WordBits(y), WordBits(z);
    var b := wx + wy + wz + rest;
    assert b == wx + (wy + (wz + rest)) == (wx + wy) + (wz + rest);
    WordRoundTrip(x, wy + (wz + rest));
    DropPrefix(wx, wy + (wz + rest));
    WordRoundTrip(y, wz + rest);
    DropPrefix(wx + wy, wz + rest);
    WordRoundTrip(z, rest);
  }

  /** The receiver reads back exactly the value the sender wrote, and stops
      where the sender stopped; a value of another type leaves the receiver's
      value as it was. */
  lemma ValueRoundTrip(v: Value, current: Value, rest: Bits)
    ensures DecodeValue(KindOf(v), current, EncodeValue(v) + rest)
         == Some(Decoded(if KindOf(v) == OtherKind then current else v, |EncodeValue(v)|))
  {
    match v
    case IntValue(i) =>
      Int32RoundTrip(i, rest);
    case FloatValue(f) =>
      WordRoundTrip(f, rest);
    case Vector2Value(x, y) =>
      Vector2RoundTrip(x, y, current, rest);
    case Vector3Value(x, y, z) =>
      Vector3RoundTrip(x, y, z, current, rest);
    case OtherValue(_) =>
      assert EncodeValue(v) + rest == rest;
  }

  /** The builder's payload: propagate flag, then index, then the value. */
  function UpdateBits(propagate: bool, index: i32, v: Value): Bits {
    BoolBits(propagate) + Int32Bits(index) + EncodeValue(v)
  }

  // ---- the state machine --------------------------------------------------

  /** The fields an update reads and writes. */
  datatype VarState = VarState(
    value: Value,
    synced: bool,
    lastSentTick: u64,
    lastSentIndex: i32,
    lastReceivedIndex: i32)

  datatype ReceiveStatus = Truncated | Stale | Accepted

  /** The state after `ReceiveUpdate`, what became of the update, how many
      bits it read, and whether it re-sends the update to the clients. */
  datatype Receipt = Receipt(state: VarState, status: ReceiveStatus, consumed: nat, resend: bool)

  /** Bookkeeping of an accepted index. */
  function Admit(s: VarState, index: i32): VarState {
    s.(lastReceivedIndex := index, lastSentIndex := Max(s.lastSentIndex, index), synced := true)
  }

  /** The propagate re-send builds one more message, which takes the next index. */
  function Finish(s: VarState, propagate: bool, consumed: nat): Receipt {
    if propagate then Receipt(s.(lastSentIndex := Inc(s.lastSentIndex)), Accepted, consumed, true)
    else Receipt(s, Accepted, consumed, false)
  }

  /** What an update newer than the last received one does, given the bits
      after its index; `consumed` counts the value bits read. */
  function ApplyUpdate(s: VarState, kind: Kind, authoritative: bool, propagate: bool, index: i32, b: Bits): Receipt {
    var admitted := Admit(s, index);
    if authoritative then Finish(admitted, propagate, 0)
    else
      match DecodeValue(kind, s.value, b)
      case None => Receipt(admitted, Truncated, 0, false)
      case Some(v) => Finish(admitted.(value := v.value), propagate, v.width)
  }

  /** `ReceiveUpdate` on the unread bits `b`, for a variable of `kind` on a
      peer that is (`authoritative`) or is not its authority. A read past the
      end abandons the update where it stands. */
  function Receive(s: VarState, kind: Kind, authoritative: bool, b: Bits): Receipt {
    match DecodeBool(b)
    case None => Receipt(s, Truncated, 0, false)
    case Some(p) =>
      match DecodeInt32(b[1..])
      case None => Receipt(s, Truncated, 1, false)
      case Some(i) =>
        if i.value <= s.lastReceivedIndex then Receipt(s, Stale, 33, false)
        else
          var r := ApplyUpdate(s, kind, authoritative, p.value, i.value, b[33..]);
          r.(consumed := 33 + r.consumed)
  }

  lemma ApplyUpdateInvariants(s: VarState, kind: Kind, authoritative: bool, propagate: bool, index: i32, b: Bits)
    requires index > s.lastReceivedIndex
    ensures var r := ApplyUpdate(s, kind, authoritative, propagate, index, b);
      && r.status != Stale
      && r.state.lastReceivedIndex == index && r.state.synced
      && (r.state.lastSentIndex >= index || r.state.lastSentIndex == MinI32)
      && r.state.lastSentTick == s.lastSentTick
      && (r.status != Accepted ==> !r.resend)
      && (authoritative ==> r.state.value == s.value)
  {
  }

  /** Whatever the bits: the receive index never decreases, a stale or
      truncated update never re-sends, a stale one changes nothing, an
      accepted one raises the receive index strictly and marks the variable
      synced, a new receive index leaves the send index at or above it
      (unless the send index has just wrapped round), the authority's value
      is never overwritten, and the re-send bypasses the throttle (the send
      tick is untouched). */
  lemma ReceiveInvariants(s: VarState, kind: Kind, authoritative: bool, b: Bits)
    ensures var r := Receive(s, kind, authoritative, b);
      && r.state.lastReceivedIndex >= s.lastReceivedIndex
      && r.state.lastSentTick == s.lastSentTick
      && (r.status != Accepted ==> !r.resend)
      && (r.status == Stale ==> r.state == s)
      && (r.status == Accepted ==> r.state.lastReceivedIndex > s.lastReceivedIndex && r.state.synced)
      && (r.state.lastReceivedIndex != s.lastReceivedIndex ==>
            r.state.lastSentIndex >= r.state.lastReceivedIndex || r.state.lastSentIndex == MinI32)
      && (r.state.lastReceivedIndex == s.lastReceivedIndex ==> r.state == s)
      && (authoritative ==> r.state.value == s.value)
  {
    if DecodeBool(b).Some? && DecodeInt32(b[1..]).Some? {
      var p := DecodeBool(b).value.value;
      var i := DecodeInt32(b[1..]).value.value;
      if i > s.lastReceivedIndex {
        ApplyUpdateInvariants(s, kind, authoritative, p, i, b[33..]);
      }
    }
  }

  /** Receiving a well-formed update: stale when its index is not above the
      last received one; otherwise accepted, with the receive index set to
      it, the send index raised to at least it (and one further when the
      update is re-sent), the value applied unless this peer is the
      authority, and a re-send exactly when the propagate flag is set. */
  lemma ReceiveWellFormed(s: VarState, kind: Kind, authoritative: bool, propagate: bool, index: i32, v: Value, rest: Bits)
    requires KindOf(v) == kind
    ensures var r := Receive(s, kind, authoritative, UpdateBits(propagate, index, v) + rest);
      if index <= s.lastReceivedIndex then r == Receipt(s, Stale, 33, false)
      else
        && r.status == Accepted && r.resend == propagate
        && r.state.lastReceivedIndex == index
        && r.state.lastSentIndex
           == (if propagate then Inc(Max(s.lastSentIndex, index)) else Max(s.lastSentIndex, index))
        && r.state.synced && r.state.lastSentTick == s.lastSentTick
        && r.state.value == (if authoritative || kind == OtherKind then s.value else v)
        && r.consumed == 33 + (if authoritative then 0 else |EncodeValue(v)|)
  {
    UpdateBitsSplit(propagate, index, v, rest);
    ReceiveHeader(s, kind, authoritative, propagate, index, EncodeValue(v) + rest);
    if index > s.lastReceivedIndex {
      ApplyWellFormed(s, kind, authoritative, propagate, index, v, rest);
    }
  }

  lemma UpdateBitsSplit(propagate: bool, index: i32, v: Value, rest: Bits)
    ensures UpdateBits(propagate, index, v) + rest
         == BoolBits(propagate) + Int32Bits(index) + (EncodeValue(v) + rest)
  {
  }

  /** An update whose flag and index are intact is stale or is applied to
      the bits after its index. */
  lemma ReceiveHeader(s: VarState, kind: Kind, authoritative: bool, propagate: bool, index: i32, tail: Bits)
    ensures Receive(s, kind, authoritative, BoolBits(propagate) + Int32Bits(index) + tail)
         == if index <= s.lastReceivedIndex then Receipt(s, Stale, 33, false)
            else
              var r := ApplyUpdate(s, kind, authoritative, propagate, index, tail);
              r.(consumed := 33 + r.consumed)
  {
    var b := BoolBits(propagate) + Int32Bits(index) + tail;
    assert b[1..] == Int32Bits(index) + tail;
    Int32RoundTrip(index, tail);
    assert b[33..] == tail;
  }

  lemma ApplyWellFormed(s: VarState, kind: Kind, authoritative: bool, propagate: bool, index: i32, v: Value, rest: Bits)
    requires KindOf(v) == kind
    ensures var r := ApplyUpdate(s, kind, authoritative, propagate, index, EncodeValue(v) + rest);
      && r.status == Accepted && r.resend == propagate
      && r.state.lastReceivedIndex == index
      && r.state.lastSentIndex
         == (if propagate then Inc(Max(s.lastSentIndex, index)) else Max(s.lastSentIndex, index))
      && r.state.synced && r.state.lastSentTick == s.lastSentTick
      && r.state.value == (if authoritative || kind == OtherKind then s.value else v)
      && r.consumed == (if authoritative then 0 else |EncodeValue(v)|)
  {
    ValueRoundTrip(v, s.value, rest);
  }

  /** A well-formed update as it arrives. */
  datatype Update = Update(propagate: bool, index: i32, value: Value)

  function Deliver(s: VarState, kind: Kind, authoritative: bool, u: Update): VarState {
    Receive(s, kind, authoritative, UpdateBits(u.propagate, u.index, u.value)).state
  }

  /** The state after a sequence of updates, in arrival order. */
  function DeliverAll(s: VarState, kind: Kind, authoritative: bool, us: seq<Update>): VarState
    decreases |us|
  {
    if us == [] then s
    else Deliver(DeliverAll(s, kind, authoritative, us[..|us| - 1]), kind, authoritative, us[|us| - 1])
  }

  lemma DeliverWellFormed(s: VarState, kind: Kind, authoritative: bool, u: Update)
    requires KindOf(u.value) == kind
    ensures var t := Deliver(s, kind, authoritative, u);
      if u.index <= s.lastReceivedIndex then t == s
      else (t.lastReceivedIndex == u.index
        && t.value == (if authoritative || kind == OtherKind then s.value else u.value))
  {
    ReceiveWellFormed(s, kind, authoritative, u.propagate, u.index, u.value, []);
    assert UpdateBits(u.propagate, u.index, u.value) + [] == UpdateBits(u.propagate, u.index, u.value);
  }

  /** After any sequence of updates, the receive index is the highest index
      seen (or the old one), and the value changed only if some update was
      newer than the starting state. */
  lemma {:induction false} HighestIndexWins(s: VarState, kind: Kind, authoritative: bool, us: seq<Update>)
    requires forall i | 0 <= i < |us| :: KindOf(us[i].value) == kind
    ensures var t := DeliverAll(s, kind, authoritative, us);
      && s.lastReceivedIndex <= t.lastReceivedIndex
      && (forall i | 0 <= i < |us| :: us[i].index <= t.lastReceivedIndex)
      && (t.lastReceivedIndex == s.lastReceivedIndex ==> t == s)
    decreases |us|
  {
    if us != [] {
      var init := us[..|us| - 1];
      var u := us[|us| - 1];
      var prev := DeliverAll(s, kind, authoritative, init);
      HighestIndexWins(s, kind, authoritative, init);
      DeliverWellFormed(prev, kind, authoritative, u);
      var t := DeliverAll(s, kind, authoritative, us);
      assert t == Deliver(prev, kind, authoritative, u);
      if u.index > prev.lastReceivedIndex {
        assert t.lastReceivedIndex == u.index;
        assert t.lastReceivedIndex != s.lastReceivedIndex;
      } else {
        assert t == prev;
      }
      assert forall i | 0 <= i < |us| - 1 :: us[i] == init[i] && us[i].index <= t.lastReceivedIndex;
    }
  }

  /** `us[i]` is the first update of `us` that carries `index`, and it
      carries `value`. */
  predicate FirstWith(us: seq<Update>, i: int, index: i32, value: Value) {
    && 0 <= i < |us| && us[i].index == index && us[i].value == value
    && forall j | 0 <= j < i :: us[j].index < index
  }

  /** Order independence modulo staleness: on a peer that is not the
      authority, once any update was newer than the starting state, the value
      is the one carried by the first update that bore the highest index. */
  lemma {:induction false} NewestUpdateWins(s: VarState, kind: Kind, us: seq<Update>)
    requires kind != OtherKind
    requires forall i | 0 <= i < |us| :: KindOf(us[i].value) == kind
    ensures var t := DeliverAll(s, kind, false, us);
      t.lastReceivedIndex != s.lastReceivedIndex ==>
        exists i :: FirstWith(us, i, t.lastReceivedIndex, t.value)
    decreases |us|
  {
    if us != [] {
      var init := us[..|us| - 1];
      var u := us[|us| - 1];
      var prev := DeliverAll(s, kind, false, init);
      NewestUpdateWins(s, kind, init);
      HighestIndexWins(s, kind, false, init);
      DeliverWellFormed(prev, kind, false, u);
      var t := DeliverAll(s, kind, false, us);
      assert t == Deliver(prev, kind, false, u);
      if u.index > prev.lastReceivedIndex {
        assert forall j | 0 <= j < |us| - 1 :: us[j] == init[j] && us[j].index < t.lastReceivedIndex;
        assert FirstWith(us, |us| - 1, t.lastReceivedIndex, t.value);
      } else if t.lastReceivedIndex != s.lastReceivedIndex {
        assert t == prev;
        var i :| FirstWith(init, i, prev.lastReceivedIndex, prev.value);
        assert forall j | 0 <= j <= i :: us[j] == init[j];
        assert FirstWith(us, i, t.lastReceivedIndex, t.value);
      }
    }
  }

  /** On the authority, no sequence of updates ever changes the value. */
  lemma {:induction false} AuthorityKeepsValue(s: VarState, kind: Kind, us: seq<Update>)
    requires forall i | 0 <= i < |us| :: KindOf(us[i].value) == kind
    ensures DeliverAll(s, kind, true, us).value == s.value
    decreases |us|
  {
    if us != [] {
      AuthorityKeepsValue(s, kind, us[..|us| - 1]);
      ReceiveInvariants(DeliverAll(s, kind, true, us[..|us| - 1]), kind, true,
        UpdateBits(us[|us| - 1].propagate, us[|us| - 1].index, us[|us| - 1].value));
    }
  }

  /** A peer that is not the authority receives index `i`, then a lower
      `j`, then a higher `k` (say 5, 3, 6): the update with `j` is dropped and
      the value ends as the one sent with `k`. */
  lemma OutOfOrderScenario(s: VarState, i: i32, j: i32, k: i32, a: Value, b: Value, c: Value)
    requires s.lastReceivedIndex < j < i < k
    requires KindOf(a) == KindOf(b) == KindOf(c) == Vector3Kind
    ensures DeliverAll(s, Vector3Kind, false, [Update(false, i, a), Update(false, j, b)])
      == DeliverAll(s, Vector3Kind, false, [Update(false, i, a)])
    ensures var t := DeliverAll(s, Vector3Kind, false, [Update(false, i, a), Update(false, j, b), Update(false, k, c)]);
      t.value == c && t.lastReceivedIndex == k
  {
    var us := [Update(false, i, a), Update(false, j, b), Update(false, k, c)];
    assert us[..2] == [Update(false, i, a), Update(false, j, b)];
    assert us[..2][..1] == us[..1] == [Update(false, i, a)];
    assert us[..1][..0] == [];
    DeliverWellFormed(s, Vector3Kind, false, us[0]);
    DeliverWellFormed(DeliverAll(s, Vector3Kind, false, us[..1]), Vector3Kind, false, us[1]);
    var t := DeliverAll(s, Vector3Kind, false, us);
    HighestIndexWins(s, Vector3Kind, false, us);
    NewestUpdateWins(s, Vector3Kind, us);
    assert us[2].index <= t.lastReceivedIndex;
    var n :| FirstWith(us, n, t.lastReceivedIndex, t.value);
    assert n == 2;
  }

  /** `now - _lastSentTick < _minimumSendDelay` in `ulong` arithmetic. */
  predicate WithinDelay(now: u64, lastSentTick: u64, delay: u32) {
    (now as int - lastSentTick as int) % 0x1_0000_0000_0000_0000 < delay as int
  }

  /** After a send at `t1`, a second attempt at any `t2` before `t1 + delay`
      is throttled: two syncs within the delay send at most once. */
  lemma SecondSendWithinDelayIsThrottled(t1: u64, t2: u64, delay: u32)
    requires t1 <= t2 && (t2 as int) < t1 as int + delay as int
    ensures WithinDelay(t2, t1, delay)
  {
  }

  /** Once a full delay has passed since the last send, a send goes out. */
  lemma SendAfterDelayIsNotThrottled(t1: u64, t2: u64, delay: u32)
    requires t1 as int + delay as int <= t2 as int
    ensures !WithinDelay(t2, t1, delay)
  {
  }

  /** `new Vector2(message.GetFloat(), message.GetFloat())`: x first. */
  method ReadVector2(message: Message) returns (r: Option<Value>)
    requires message.Valid()
    modifies message`readPos
    ensures message.Valid()
    ensures match DecodeValue(Vector2Kind, OtherValue(0), old(message.Unread()))
      case None => r.None?
      case Some(d) => r == Some(d.value) && message.readPos == old(message.readPos) + d.width
  {
    ghost var b := message.Unread();
    var x := message.GetFloat();
    if x.None? {
      return None;
    }
    assert message.Unread() == b[32..];
    var y := message.GetFloat();
    if y.None? {
      return None;
    }
    r := Some(Vector2Value(x.value, y.value));
  }

  /** `new Vector3(message.GetFloat(), message.GetFloat(), message.GetFloat())`. */
  method ReadVector3(message: Message) returns (r: Option<Value>)
    requires message.Valid()
    modifies message`readPos
    ensures message.Valid()
    ensures match DecodeValue(Vector3Kind, OtherValue(0), old(message.Unread()))
      case None => r.None?
      case Some(d) => r == Some(d.value) && message.readPos == old(message.readPos) + d.width
  {
    ghost var b := message.Unread();
    var x := message.GetFloat();
    if x.None? {
      return None;
    }
    assert message.Unread() == b[32..];
    var y := message.GetFloat();
    if y.None? {
      return None;
    }
    assert message.Unread() == b[64..];
    var z := message.GetFloat();
    if z.None? {
      return None;
    }
    r := Some(Vector3Value(x.value, y.value, z.value));
  }

  /** Reads the value fields for a variable of `kind` holding `current`, in
      the order `ReceiveUpdate` tests the value's type. */
  method ReadValue(message: Message, kind: Kind, current: Value) returns (r: Option<Value>)
    requires message.Valid()
    modifies message`readPos
    ensures message.Valid()
    ensures match DecodeValue(kind, current, old(message.Unread()))
      case None => r.None?
      case Some(d) => r == Some(d.value) && message.readPos == old(message.readPos) + d.width
  {
    match kind
    case IntKind =>
      var i := message.GetInt();
      r := if i.None? then None else Some(IntValue(i.value));
    case FloatKind =>
      var f := message.GetFloat();
      r := if f.None? then None else Some(FloatValue(f.value));
    case Vector2Kind =>
      r := ReadVector2(message);
    case Vector3Kind =>
      r := ReadVector3(message);
    case OtherKind =>
      r := Some(current);
  }

  /** Reads an update's propagate flag and then its index. */
  method ReadHeader(message: Message) returns (h: Option<(bool, i32)>)
    requires message.Valid()
    modifies message`readPos
    ensures message.Valid()
    ensures h.Some? <==> |old(message.Unread())| >= 33
    ensures h.Some? ==>
      && DecodeBool(old(message.Unread())) == Some(Decoded(h.value.0, 1))
      && DecodeInt32(old(message.Unread())[1..]) == Some(Decoded(h.value.1, 32))
      && message.Unread() == old(message.Unread())[33..]
      && message.readPos == old(message.readPos) + 33
  {
    ghost var b := message.Unread();
    var propagate := message.GetBool();
    if propagate.None? {
      return None;
    }
    assert message.Unread() == b[1..];
    var index := message.GetInt();
    if index.None? {
      return None;
    }
    h := Some((propagate.value, index.value));
  }

  datatype SendOutcome =
    | NotRegistered   // `SendUpdate` throws: `Register` was never called
    | NotOwner        // this peer does not own the node
    | Throttled       // the last send was less than the minimum delay ago
    | ServerMissing   // Server authority on a peer without a server: the send throws
    | Sent

  class NetworkedVariable {
    var value: Value
    var synced: bool
    var name: string
    var source: Option<Source>
    const authority: Authority
    const updateEvent: UpdateEvent
    const mode: SendMode
    const minimumSendDelay: u32
    var lastSentTick: u64
    var lastReceivedIndex: i32
    var lastSentIndex: i32
    /** The value type `T`. */
    const kind: Kind
    /** The router sends go through. */
    const net: NetworkManager

    ghost predicate Valid()
      reads this
    {
      KindOf(value) == kind && minimumSendDelay >= MinimumSendDelayFloor
    }

    function State(): VarState
      reads this
    {
      VarState(value, synced, lastSentTick, lastSentIndex, lastReceivedIndex)
    }

    constructor (initialValue: Value, net: NetworkManager,
                 minimumSendDelay: u32 := DefaultMinimumSendDelay,
                 authority: Authority := Authority.Client,
                 updateEvent: UpdateEvent := Manual,
                 mode: SendMode := Unreliable)
      ensures Valid()
      ensures this.net == net && kind == KindOf(initialValue)
      ensures this.minimumSendDelay == ClampDelay(minimumSendDelay)
      ensures this.authority == authority && this.updateEvent == updateEvent && this.mode == mode
      ensures State() == VarState(initialValue, false, 0, -1, -1)
      ensures source == None && name == ""
    {
      value := initialValue;
      kind := KindOf(initialValue);
      this.net := net;
      this.minimumSendDelay := ClampDelay(minimumSendDelay);
      this.authority := authority;
      this.updateEvent := updateEvent;
      this.mode := mode;
      synced := false;
      name := "";
      source := None;
      lastSentTick := 0;
      lastReceivedIndex := -1;
      lastSentIndex := -1;
    }

    method Register(source: Source, name: string)
      modifies this`source, this`name
      ensures this.source == Some(source) && this.name == name
    {
      this.source := Some(source);
      this.name := name;
    }

    /** Whether this peer is the variable's authority: the node's owner for
        Client authority, the host for Server authority. */
    predicate IsLocallyAuthoritative()
      reads this`source
    {
      || (authority == Authority.Client && source.Some? && net.IsOwner(source.value.authority))
      || (authority == Authority.Server && net.isHost)
    }

    /** What `SendUpdate` at time `now` does. */
    function AttemptOutcome(now: u64): SendOutcome
      reads this`source, this`lastSentTick
    {
      if source.None? then NotRegistered
      else if !net.IsOwner(source.value.authority) then NotOwner
      else if WithinDelay(now, lastSentTick, minimumSendDelay) then Throttled
      else if authority == Authority.Server && !net.isHost then ServerMissing
      else Sent
    }

    /** An update with `index` and no propagate flag, sent to every client. */
    function BroadcastSends(index: i32): seq<Send>
      reads this, net
      requires source.Some?
    {
      FanOut(net.clients, None, RpcPacket(mode, DirectId, name, source.value.path, UpdateBits(false, index, value)))
    }

    /** The sends of one update with `index`: to every client without the
        propagate flag for Server authority, to the server with it for Client
        authority. */
    function UpdateSends(index: i32): seq<Send>
      reads this, net
      requires source.Some?
    {
      if authority == Authority.Server then BroadcastSends(index)
      else
        [Send(Destination.Server, RpcPacket(mode, DirectId, name, source.value.path, UpdateBits(true, index, value)))]
    }

    /** The builder closure: writes the propagate flag, takes the next index
        and writes it, then writes the current value. */
    method SetupMessage(propagate: bool) returns (payload: Bits)
      modifies this`lastSentIndex
      ensures lastSentIndex == Inc(old(lastSentIndex))
      ensures payload == UpdateBits(propagate, lastSentIndex, value)
    {
      payload := BoolBits(propagate);
      lastSentIndex := Inc(lastSentIndex);
      payload := payload + Int32Bits(lastSentIndex);
      match value
      case IntValue(i) =>
        payload := payload + Int32Bits(i);
      case FloatValue(f) =>
        payload := payload + WordBits(f);
      case Vector2Value(x, y) =>
        payload := payload + WordBits(x) + WordBits(y);
      case Vector3Value(x, y, z) =>
        payload := payload + WordBits(x) + WordBits(y) + WordBits(z);
      case OtherValue(_) =>
    }

    /** Sends the current value, unless the variable is unregistered (an
        exception), this peer does not own the node, or the throttle holds.
        A send stamps `now` and uses the next index. */
    method SendUpdate(now: u64) returns (r: SendOutcome)
      requires Valid()
      modifies this`lastSentTick, this`lastSentIndex, net`outbox
      ensures Valid()
      ensures r == old(AttemptOutcome(now))
      ensures r == Sent || r == ServerMissing ==>
        lastSentTick == now && lastSentIndex == Inc(old(lastSentIndex))
      ensures r != Sent && r != ServerMissing ==>
        lastSentTick == old(lastSentTick) && lastSentIndex == old(lastSentIndex)
      ensures net.outbox == old(net.outbox) + (if r == Sent then UpdateSends(lastSentIndex) else [])
    {
      if source.None? {
        return NotRegistered;
      }
      if !net.IsOwner(source.value.authority) {
        return NotOwner;
      }
      if WithinDelay(now, lastSentTick, minimumSendDelay) {
        return Throttled;
      }
      lastSentTick := now;
      if authority == Authority.Server {
        var payload := SetupMessage(false);
        var ok := net.SendRpcToClients(source.value, name, payload, mode);
        r := if ok then Sent else ServerMissing;
      } else {
        var payload := SetupMessage(true);
        net.SendRpcToServer(source.value, name, payload, mode);
        r := Sent;
      }
    }

    method Sync(now: u64) returns (r: SendOutcome)
      requires Valid()
      modifies this`lastSentTick, this`lastSentIndex, net`outbox
      ensures Valid()
      ensures r == old(AttemptOutcome(now))
      ensures r == Sent || r == ServerMissing ==>
        lastSentTick == now && lastSentIndex == Inc(old(lastSentIndex))
      ensures r != Sent && r != ServerMissing ==>
        lastSentTick == old(lastSentTick) && lastSentIndex == old(lastSentIndex)
      ensures net.outbox == old(net.outbox) + (if r == Sent then UpdateSends(lastSentIndex) else [])
    {
      r := SendUpdate(now);
    }

    /** The `Value` setter: always marks the variable synced; under the Change
        policy a different value first triggers `SendUpdate`, which therefore
        carries the previous value; then the new value is stored, unless the
        send threw (unregistered, or Server authority on a peer without a
        server, where the send fails after the builder ran). */
    method SetValue(v: Value, now: u64) returns (r: Option<SendOutcome>)
      requires Valid() && KindOf(v) == kind
      modifies this`value, this`synced, this`lastSentTick, this`lastSentIndex, net`outbox
      ensures Valid() && synced
      ensures r.Some? <==> updateEvent == Change && old(value) != v
      ensures r.None? ==>
        && value == v && net.outbox == old(net.outbox)
        && lastSentTick == old(lastSentTick) && lastSentIndex == old(lastSentIndex)
      ensures r.Some? ==>
        && r.value == old(AttemptOutcome(now))
        && value == (if r.value == NotRegistered || r.value == ServerMissing then old(value) else v)
        && (r.value == Sent || r.value == ServerMissing ==>
              lastSentTick == now && lastSentIndex == Inc(old(lastSentIndex)))
        && (r.value != Sent && r.value != ServerMissing ==>
              lastSentTick == old(lastSentTick) && lastSentIndex == old(lastSentIndex))
        && net.outbox == old(net.outbox)
           + (if r.value == Sent then old(UpdateSends(Inc(lastSentIndex))) else [])
    {
      synced := true;
      r := None;
      if updateEvent == Change && value != v {
        var outcome := SendUpdate(now);
        r := Some(outcome);
        if outcome == NotRegistered || outcome == ServerMissing {
          return;
        }
      }
      value := v;
    }

    /** Applies an inbound update as `Receive` says, and re-sends it to the
        clients (through the router, so only a host can) when its propagate
        flag is set and it was accepted. */
    method ReceiveUpdate(message: Message) returns (status: ReceiveStatus)
      requires Valid() && message.Valid() && source.Some?
      modifies this`value, this`synced, this`lastSentIndex, this`lastReceivedIndex
      modifies message`readPos, net`outbox
      ensures Valid() && message.Valid()
      ensures var rec := Receive(old(State()), kind, IsLocallyAuthoritative(), old(message.Unread()));
        && State() == rec.state && status == rec.status
        && (rec.status != Truncated ==> message.readPos == old(message.readPos) + rec.consumed)
        && net.outbox == old(net.outbox)
           + (if rec.resend && net.isHost then BroadcastSends(lastSentIndex) else [])
    {
      var header := ReadHeader(message);
      if header.None? {
        return Truncated;
      }
      var (propagate, index) := header.value;
      if index <= lastReceivedIndex {
        return Stale;
      }
      status := Apply(propagate, index, message);
    }

    /** The propagate branch of `ReceiveUpdate`: a fresh update without the
        flag, sent to every client; only a host has clients to send to. */
    method Resend()
      requires source.Some?
      modifies this`lastSentIndex, net`outbox
      ensures lastSentIndex == Inc(old(lastSentIndex))
      ensures net.outbox == old(net.outbox) + (if net.isHost then BroadcastSends(lastSentIndex) else [])
    {
      var payload := SetupMessage(false);
      var ok := net.SendRpcToClients(source.value, name, payload, mode);
    }

    /** Reads the value fields into the value, or leaves the value alone
        when the message ends first. */
    method ReceiveValue(message: Message) returns (ok: bool)
      requires Valid() && message.Valid()
      modifies this`value, message`readPos
      ensures Valid() && message.Valid()
      ensures match DecodeValue(kind, old(value), old(message.Unread()))
        case None => !ok && value == old(value)
        case Some(d) => ok && value == d.value && message.readPos == old(message.readPos) + d.width
    {
      var decoded := ReadValue(message, kind, value);
      if decoded.None? {
        return false;
      }
      value := decoded.value;
      ok := true;
    }

    /** Records `index` as the newest index received and sent. */
    method AdmitIndex(index: i32)
      modifies this`lastReceivedIndex, this`lastSentIndex, this`synced
      ensures State() == Admit(old(State()), index)
    {
      lastReceivedIndex := index;
      lastSentIndex := Max(lastSentIndex, lastReceivedIndex);
      synced := true;
    }

    /** The part of `ReceiveUpdate` after a newer index has been read. */
    method Apply(propagate: bool, index: i32, message: Message) returns (status: ReceiveStatus)
      requires Valid() && message.Valid() && source.Some?
      modifies this`value, this`synced, this`lastSentIndex, this`lastReceivedIndex
      modifies message`readPos, net`outbox
      ensures Valid() && message.Valid()
      ensures var rec := ApplyUpdate(old(State()), kind, IsLocallyAuthoritative(), propagate, index, old(message.Unread()));
        && State() == rec.state && status == rec.status
        && (rec.status != Truncated ==> message.readPos == old(message.readPos) + rec.consumed)
        && net.outbox == old(net.outbox)
           + (if rec.resend && net.isHost then BroadcastSends(lastSentIndex) else [])
    {
      var authoritative := IsLocallyAuthoritative();
      ghost var s0 := State();
      ghost var rec := ApplyUpdate(s0, kind, authoritative, propagate, index, message.Unread());
      AdmitIndex(index);
      ghost var consumed := 0;
      if !authoritative {
        var ok := ReceiveValue(message);
        if !ok {
          assert rec == Receipt(Admit(s0, index), Truncated, 0, false);
          return Truncated;
        }
        consumed := DecodeValue(kind, s0.value, old(message.Unread())).value.width;
      }
      assert rec == Finish(State(), propagate, consumed);
      if propagate {
        Resend();
      }
      status := Accepted;
    }
  }

  /** Two syncs less than the minimum delay apart send at most once: when
      the first one sends, the second is throttled and adds nothing to the
      outbox. */
  method SyncTwiceWithinDelay(x: NetworkedVariable, t1: u64, t2: u64)
    returns (r1: SendOutcome, r2: SendOutcome, afterFirst: seq<Send>)
    requires x.Valid()
    requires t1 <= t2 && (t2 as int) < t1 as int + x.minimumSendDelay as int
    modifies x`lastSentTick, x`lastSentIndex, x.net`outbox
    ensures r1 == Sent ==> r2 == Throttled && x.net.outbox == afterFirst
    ensures r1 != Sent || r2 != Sent
  {
    r1 := x.Sync(t1);
    afterFirst := x.net.outbox;
    if r1 == Sent {
      SecondSendWithinDelayIsThrottled(t1, t2, x.minimumSendDelay);
    }
    r2 := x.Sync(t2);
  }

  /** Only the variable's authority sends updates: a send attempt that goes
      out was made by the node's owner, and for Server authority by the
      host. */
  method OnlyAuthoritySends(x: NetworkedVariable, now: u64) returns (r: SendOutcome)
    requires x.Valid()
    modifies x`lastSentTick, x`lastSentIndex, x.net`outbox
    ensures r == Sent ==> x.IsLocallyAuthoritative() && x.source.Some? && x.net.IsOwner(x.source.value.authority)
    ensures !x.IsLocallyAuthoritative() ==> r != Sent && x.net.outbox == old(x.net.outbox)
  {
    r := x.SendUpdate(now);
  }
}
