/** Riptide's `Message`: a growable bit buffer with a write end and an
    independent read cursor, tagged at creation with a send mode and a
    message id. Only the operations the networking layer calls are here. */
module Wire {
  import opened Codec

  datatype SendMode = Unreliable | Reliable | Notify

  /** Send mode of a message created without a header (`Message.Create()`). */
  const HeaderlessMode: SendMode := Unreliable

  const IdWidth: nat := 16
  const HeaderWidth: nat := 2 + IdWidth

  function ModeCode(m: SendMode): nat {
    match m
    case Unreliable => 0
    case Reliable => 1
    case Notify => 2
  }

  /** The bits `Message.Create(mode, id)` writes before any field. */
  function HeaderBits(mode: SendMode, id: nat): (r: Bits)
    ensures |r| == HeaderWidth
  {
    NatToBits(ModeCode(mode), 2) + NatToBits(id, IdWidth)
  }

  /** What the transport carries: a snapshot of a message at the time of sending. */
  datatype Packet = Packet(mode: SendMode, id: nat, bits: Bits)

  class Message {
    const mode: SendMode
    const id: nat
    var bits: Bits
    var readPos: nat

    ghost predicate Valid()
      reads this
    {
      readPos <= |bits|
    }

    function WrittenBits(): nat
      reads this
    {
      |bits|
    }

    function UnreadBits(): nat
      reads this
      requires Valid()
    {
      |bits| - readPos
    }

    /** The bits a reader has not consumed yet. */
    function Unread(): Bits
      reads this
      requires Valid()
    {
      bits[readPos..]
    }

    function Snapshot(): Packet
      reads this
    {
      Packet(mode, id, bits)
    }

    /** `Message.Create(mode, id)`: a message for sending, header written. */
    constructor Create(mode: SendMode, id: nat)
      requires id < 0x1_0000
      ensures Valid()
      ensures this.mode == mode && this.id == id
      ensures bits == HeaderBits(mode, id) && readPos == |bits|
    {
      this.mode := mode;
      this.id := id;
      bits := HeaderBits(mode, id);
      readPos := HeaderWidth;
    }

    /** `Message.Create()`: an empty message with no header. */
    constructor CreateHeaderless()
      ensures Valid()
      ensures mode == HeaderlessMode && id == 0
      ensures bits == [] && readPos == 0
    {
      mode := HeaderlessMode;
      id := 0;
      bits := [];
      readPos := 0;
    }

    /** A message as the transport hands it to a receiver: header consumed. */
    constructor Received(p: Packet)
      requires HeaderWidth <= |p.bits|
      ensures Valid()
      ensures mode == p.mode && id == p.id
      ensures bits == p.bits && readPos == HeaderWidth
    {
      mode := p.mode;
      id := p.id;
      bits := p.bits;
      readPos := HeaderWidth;
    }

    /** `AddBits(value, amount)`: appends the low `width` bits of a byte. */
    method AddBits(value: nat, width: nat)
      requires Valid() && value < 0x100 && width <= 8
      modifies this`bits
      ensures Valid()
      ensures bits == old(bits) + NatToBits(value, width)
    {
      bits := bits + NatToBits(value, width);
    }

    /** `PeekBits(amount, startBit, out byte)`: reads without moving the cursor. */
    method PeekBits(width: nat, position: nat) returns (value: nat)
      requires width <= 8 && position + width <= |bits|
      ensures value == BitsToNat(bits[position..position + width])
      ensures value < 0x100
    {
      value := BitsToNat(bits[position..position + width]);
      assert Pow2(width) <= Pow2(8) by {
        Pow2Add(width, 8 - width);
      }
    }

    /** `GetBits(amount, out byte)`: reads and advances the cursor by `width`. */
    method GetBits(width: nat) returns (value: nat)
      requires Valid() && width <= 8 && width <= UnreadBits()
      modifies this`readPos
      ensures Valid()
      ensures value == BitsToNat(old(Unread())[..width]) && value < 0x100
      ensures readPos == old(readPos) + width
    {
      value := PeekBits(width, readPos);
      assert bits[readPos..readPos + width] == Unread()[..width];
      readPos := readPos + width;
    }

    /** What a message builder writes after the envelope: any fields, as bits. */
    method Append(written: Bits)
      requires Valid()
      modifies this`bits
      ensures Valid()
      ensures bits == old(bits) + written
    {
      bits := bits + written;
    }

    method AddBool(b: bool)
      requires Valid()
      modifies this`bits
      ensures Valid()
      ensures bits == old(bits) + BoolBits(b)
    {
      bits := bits + BoolBits(b);
    }

    method AddInt(i: i32)
      requires Valid()
      modifies this`bits
      ensures Valid()
      ensures bits == old(bits) + Int32Bits(i)
    {
      bits := bits + Int32Bits(i);
    }

    method AddFloat(w: u32)
      requires Valid()
      modifies this`bits
      ensures Valid()
      ensures bits == old(bits) + WordBits(w)
    {
      bits := bits + WordBits(w);
    }

    method AddString(s: string)
      requires Valid()
      modifies this`bits
      ensures Valid()
      ensures bits == old(bits) + EncodeString(s)
    {
      bits := bits + EncodeString(s);
    }

    /** Reading a field: on success the cursor moves past it; a read past the
        written bits fails and leaves the cursor where it was. */
    method GetBool() returns (r: Option<bool>)
      requires Valid()
      modifies this`readPos
      ensures Valid()
      ensures match DecodeBool(old(Unread()))
        case None => r.None? && readPos == old(readPos)
        case Some(d) => r == Some(d.value) && readPos == old(readPos) + d.width
    {
      var d := DecodeBool(Unread());
      if d.None? {
        r := None;
      } else {
        r := Some(d.value.value);
        readPos := readPos + d.value.width;
      }
    }

    method GetInt() returns (r: Option<i32>)
      requires Valid()
      modifies this`readPos
      ensures Valid()
      ensures match DecodeInt32(old(Unread()))
        case None => r.None? && readPos == old(readPos)
        case Some(d) => r == Some(d.value) && readPos == old(readPos) + d.width
    {
      var d := DecodeInt32(Unread());
      if d.None? {
        r := None;
      } else {
        r := Some(d.value.value);
        readPos := readPos + d.value.width;
      }
    }

    method GetFloat() returns (r: Option<u32>)
      requires Valid()
      modifies this`readPos
      ensures Valid()
      ensures match DecodeWord(old(Unread()))
        case None => r.None? && readPos == old(readPos)
        case Some(d) => r == Some(d.value) && readPos == old(readPos) + d.width
    {
      var d := DecodeWord(Unread());
      if d.None? {
        r := None;
      } else {
        r := Some(d.value.value);
        readPos := readPos + d.value.width;
      }
    }

    method GetString() returns (r: Option<string>)
      requires Valid()
      modifies this`readPos
      ensures Valid()
      ensures match DecodeString(old(Unread()))
        case None => r.None? && readPos == old(readPos)
        case Some(d) => r == Some(d.value) && readPos == old(readPos) + d.width
    {
      var d := DecodeString(Unread());
      if d.None? {
        r := None;
      } else {
        r := Some(d.value.value);
        readPos := readPos + d.value.width;
      }
    }
  }
}
