/** Bit-level encodings of the primitive fields a Riptide message carries:
    unsigned runs of at most a byte (AddBits / PeekBits / GetBits), bools,
    32-bit signed ints, 32-bit float words and strings.

    Riptide's own bit layout is not part of this model. The layout chosen
    here is least significant bit first, and strings are self-delimiting
    (each character is preceded by a `true` continuation bit and the string
    ends with a `false` bit), which is the only property of Riptide's length
    prefix that the networking layer relies on. */
module Codec {

  datatype Option<T> = None | Some(value: T)

  /** A field read off the front of a bit string, with the number of bits it took. */
  datatype Decoded<T> = Decoded(value: T, width: nat)

  type Bits = seq<bool>

  /** C#'s `int`. */
  newtype i32 = x: int | -0x8000_0000 <= x < 0x8000_0000
  /** C#'s `uint`; a float travels as the 32-bit word of its IEEE encoding. */
  newtype u32 = x: int | 0 <= x < 0x1_0000_0000
  /** C#'s `ulong`. */
  newtype u64 = x: int | 0 <= x < 0x1_0000_0000_0000_0000

  const MinI32: i32 := -0x8000_0000
  const MaxI32: i32 := 0x7FFF_FFFF

  /** `x++` on a C# `int` in an unchecked context: wraps from MaxI32 to MinI32. */
  function Inc(x: i32): (r: i32)
    ensures r as int == (x as int + 1 + 0x8000_0000) % 0x1_0000_0000 - 0x8000_0000
  {
    if x == MaxI32 then MinI32 else x + 1
  }

  function Max(a: i32, b: i32): i32 {
    if a < b then b else a
  }

  function Pow2(n: nat): (r: nat)
    ensures r >= 1
  {
    if n == 0 then 1 else 2 * Pow2(n - 1)
  }

  /** The low `width` bits of `v`, least significant first. */
  function NatToBits(v: nat, width: nat): (r: Bits)
    ensures |r| == width
  {
    if width == 0 then [] else [v % 2 == 1] + NatToBits(v / 2, width - 1)
  }

  /** The unsigned number a run of bits spells, least significant first. */
  function BitsToNat(s: Bits): (r: nat)
    ensures r < Pow2(|s|)
  {
    if s == [] then 0 else (if s[0] then 1 else 0) + 2 * BitsToNat(s[1..])
  }

  /** Writing a number that fits and reading it back gives the number. */
  lemma {:induction false} NatToBitsToNat(v: nat, width: nat)
    requires v < Pow2(width)
    ensures BitsToNat(NatToBits(v, width)) == v
  {
    if width > 0 {
      NatToBitsToNat(v / 2, width - 1);
      assert NatToBits(v, width)[1..] == NatToBits(v / 2, width - 1);
    }
  }

  /** Reading a run of bits and writing the number back with the same width
      gives the run: a peek followed by an add copies bits exactly. */
  lemma {:induction false} BitsToNatToBits(s: Bits)
    ensures NatToBits(BitsToNat(s), |s|) == s
  {
    if s != [] {
      BitsToNatToBits(s[1..]);
      var v := BitsToNat(s);
      assert v / 2 == BitsToNat(s[1..]);
      assert v % 2 == 1 <==> s[0];
    }
  }

  lemma {:induction false} Pow2Add(a: nat, b: nat)
    ensures Pow2(a + b) == Pow2(a) * Pow2(b)
  {
    if a > 0 {
      Pow2Add(a - 1, b);
    }
  }

  /** The widths the wire format uses: a message id, a character, a word. */
  lemma Pow2Widths()
    ensures Pow2(16) == 0x1_0000 && Pow2(21) == 0x20_0000 && Pow2(32) == 0x1_0000_0000
  {
    assert Pow2(8) == 0x100;
    assert Pow2(5) == 32;
    Pow2Add(8, 8);
    Pow2Add(16, 5);
    Pow2Add(16, 16);
  }

  lemma DropPrefix(a: Bits, b: Bits)
    ensures (a + b)[|a|..] == b
  {
  }

  // ---- bool ------------------------------------------------------------

  function BoolBits(b: bool): Bits {
    [b]
  }

  function DecodeBool(s: Bits): (r: Option<Decoded<bool>>)
    ensures r.Some? <==> |s| >= 1
    ensures r.Some? ==> r.value.width == 1 && r.value.value == s[0]
  {
    if |s| < 1 then None else Some(Decoded(s[0], 1))
  }

  // ---- 32-bit signed int (two's complement) -----------------------------

  function Int32Bits(i: i32): (r: Bits)
    ensures |r| == 32
  {
    NatToBits(if i < 0 then i as int + 0x1_0000_0000 else i as int, 32)
  }

  function DecodeInt32(s: Bits): (r: Option<Decoded<i32>>)
    ensures r.Some? <==> |s| >= 32
    ensures r.Some? ==> r.value.width == 32
  {
    if |s| < 32 then None
    else
      Pow2Widths();
      var u := BitsToNat(s[..32]);
      Some(Decoded(if u >= 0x8000_0000 then (u - 0x1_0000_0000) as i32 else u as i32, 32))
  }

  lemma Int32RoundTrip(i: i32, rest: Bits)
    ensures DecodeInt32(Int32Bits(i) + rest) == Some(Decoded(i, 32))
  {
    Pow2Widths();
    var u := if i < 0 then i as int + 0x1_0000_0000 else i as int;
    assert (Int32Bits(i) + rest)[..32] == NatToBits(u, 32);
    NatToBitsToNat(u, 32);
  }

  // ---- 32-bit word (an IEEE float, kept opaque) -------------------------

  function WordBits(w: u32): (r: Bits)
    ensures |r| == 32
  {
    NatToBits(w as nat, 32)
  }

  function DecodeWord(s: Bits): (r: Option<Decoded<u32>>)
    ensures r.Some? <==> |s| >= 32
    ensures r.Some? ==> r.value.width == 32
  {
    if |s| < 32 then None
    else
      Pow2Widths();
      Some(Decoded(BitsToNat(s[..32]) as u32, 32))
  }

  lemma WordRoundTrip(w: u32, rest: Bits)
    ensures DecodeWord(WordBits(w) + rest) == Some(Decoded(w, 32))
  {
    Pow2Widths();
    assert (WordBits(w) + rest)[..32] == NatToBits(w as nat, 32);
    NatToBitsToNat(w as nat, 32);
  }

  // ---- characters and strings ------------------------------------------

  /** Every Unicode scalar value fits in 21 bits. */
  const CharWidth: nat := 21

  function CharBits(c: char): (r: Bits)
    ensures |r| == CharWidth
  {
    NatToBits(c as nat, CharWidth)
  }

  predicate IsScalarValue(v: nat) {
    v < 0xD800 || (0xE000 <= v < 0x11_0000)
  }

  /** Reads one character; fails on a truncated run or a code that is not a
      Unicode scalar value. */
  function DecodeChar(s: Bits): (r: Option<char>)
    requires |s| == CharWidth
  {
    var v := BitsToNat(s);
    if IsScalarValue(v) then Some(v as char) else None
  }

  lemma CharRoundTrip(c: char)
    ensures DecodeChar(CharBits(c)) == Some(c)
  {
    Pow2Widths();
    NatToBitsToNat(c as nat, CharWidth);
  }

  function EncodeString(s: string): (r: Bits)
    ensures |r| >= 1
  {
    if s == [] then [false] else [true] + CharBits(s[0]) + EncodeString(s[1..])
  }

  /** Reads one string off the front of `b`; `None` when `b` ends first or
      holds a code that is no character. */
  function DecodeString(b: Bits): (r: Option<Decoded<string>>)
    ensures r.Some? ==> 1 <= r.value.width <= |b|
    decreases |b|
  {
    if |b| == 0 then None
    else if !b[0] then Some(Decoded([], 1))
    else if |b| < 1 + CharWidth then None
    else
      match DecodeChar(b[1..1 + CharWidth])
      case None => None
      case Some(c) =>
        match DecodeString(b[1 + CharWidth..])
        case None => None
        case Some(d) => Some(Decoded([c] + d.value, 1 + CharWidth + d.width))
  }

  /** A string written in front of any further bits reads back as itself,
      and the reader stops exactly where the writer stopped. */
  lemma {:induction false} StringRoundTrip(s: string, rest: Bits)
    ensures DecodeString(EncodeString(s) + rest) == Some(Decoded(s, |EncodeString(s)|))
  {
    var b := EncodeString(s) + rest;
    if s != [] {
      assert b[1..1 + CharWidth] == CharBits(s[0]);
      CharRoundTrip(s[0]);
      assert b[1 + CharWidth..] == EncodeString(s[1..]) + rest;
      StringRoundTrip(s[1..], rest);
      assert [s[0]] + s[1..] == s;
    }
  }
}
