/** MessagePack and CBOR as the two readers of src/nats_message_decode.cpp take them: definite lengths, no extension
    types.  How a float is written as text is left open. */
module Formats {
  import opened Bytes
  import opened Projection
  import opened Wire

  /** A float32 bit pattern, one widened to a float64 first, or a float64 bit pattern. */
  datatype FloatKind = Single | Widened | Double

  /** The text of a float fits the 64-byte buffer of the readers. */
  type FloatText = f: (FloatKind, nat) -> Bytes | forall kind, bits :: |f(kind, bits)| < 64
    witness (kind: FloatKind, bits: nat) => []

  const FALSE_TEXT: Bytes := [0x66, 0x61, 0x6c, 0x73, 0x65]
  const TRUE_TEXT: Bytes := [0x74, 0x72, 0x75, 0x65]

  /** Two's complement: `n` of `half * 2` values read as signed. */
  function AsSigned(n: nat, half: nat): int {
    if n < half then n else n - 2 * half
  }

  // ---------------------------------------------------------------- MessagePack

  function MsgpackShape(tag: byte): Shape {
    if tag <= 0x7f || tag >= 0xe0 then Leaf(0, true)
    else if tag <= 0x8f then Nest(0, tag % 16, true)
    else if tag <= 0x9f then Nest(0, tag % 16, false)
    else if tag <= 0xbf then Run(0, tag % 32, true)
    else
      match tag
      case 0xc0 => Leaf(0, true)
      case 0xc2 => Leaf(0, true)
      case 0xc3 => Leaf(0, true)
      case 0xc4 => Run(1, 0, false)
      case 0xc5 => Run(2, 0, false)
      case 0xc6 => Run(4, 0, false)
      case 0xca => Leaf(4, true)
      case 0xcb => Leaf(8, true)
      case 0xcc => Leaf(1, true)
      case 0xcd => Leaf(2, true)
      case 0xce => Leaf(4, true)
      case 0xcf => Leaf(8, true)
      case 0xd0 => Leaf(1, true)
      case 0xd1 => Leaf(2, true)
      case 0xd2 => Leaf(4, true)
      case 0xd3 => Leaf(8, true)
      case 0xd9 => Run(1, 0, true)
      case 0xda => Run(2, 0, true)
      case 0xdb => Run(4, 0, true)
      case 0xdc => Nest(2, 0, false)
      case 0xdd => Nest(4, 0, false)
      case 0xde => Nest(2, 0, true)
      case 0xdf => Nest(4, 0, true)
      case _ => Invalid
  }

  function MsgpackCell(floatText: FloatText, tag: byte, n: nat): Cell {
    if tag <= 0x7f then Text(Decimal(tag))
    else if tag >= 0xe0 then Text(Decimal(AsSigned(tag, 0x80)))
    else
      match tag
      case 0xc2 => Text(FALSE_TEXT)
      case 0xc3 => Text(TRUE_TEXT)
      case 0xca => Text(floatText(Single, n))
      case 0xcb => Text(floatText(Double, n))
      case 0xcc => Text(Decimal(n))
      case 0xcd => Text(Decimal(n))
      case 0xce => Text(Decimal(n))
      case 0xcf => Text(Decimal(n))
      case 0xd0 => Text(Decimal(AsSigned(n, 0x80)))
      case 0xd1 => Text(Decimal(AsSigned(n, 0x8000)))
      case 0xd2 => Text(Decimal(AsSigned(n, 0x8000_0000)))
      case 0xd3 => Text(Decimal(AsSigned(n, TWO63)))
      case _ => Null
  }

  function Msgpack(floatText: FloatText): Format {
    Format(MsgpackShape, (tag: byte, n: nat) => MsgpackCell(floatText, tag, n))
  }

  // ---------------------------------------------------------------- CBOR

  /** The argument bytes that the low five bits of a tag announce; None for the reserved and indefinite ones. */
  function CborWidth(info: nat): nat
    requires info < 28
  {
    if info < 24 then 0 else if info == 24 then 1 else if info == 25 then 2 else if info == 26 then 4 else 8
  }

  function CborShape(tag: byte): Shape {
    var major, info := tag / 32, tag % 32;
    if info >= 28 then Invalid
    else
      var width := CborWidth(info);
      match major
      case 0 => Leaf(width, true)
      case 1 => Leaf(width, true)
      case 2 => Run(width, info, false)
      case 3 => Run(width, info, true)
      case 4 => Nest(width, info, false)
      case 5 => Nest(width, info, true)
      case 6 => Tagged(width)
      case _ => Leaf(width, info in {20, 21, 22, 25, 26, 27})
  }

  function CborCell(floatText: FloatText, tag: byte, n: nat): Cell {
    var major, info := tag / 32, tag % 32;
    var value := if info < 24 then info else n;
    if major == 0 then Text(Decimal(value))
    else if major == 1 then Text(Decimal(AsSigned((TWO64 - 1 - value) % TWO64, TWO63)))
    else if info == 20 then Text(FALSE_TEXT)
    else if info == 21 then Text(TRUE_TEXT)
    else if info == 22 then Null
    else if info == 26 then Text(floatText(Widened, n))
    else if info == 27 then Text(floatText(Double, n))
    else Text(floatText(Double, 0))
  }

  function Cbor(floatText: FloatText): Format {
    Format(CborShape, (tag: byte, n: nat) => CborCell(floatText, tag, n))
  }

  /** 64 bits of -1 - n, read as a signed number. */
  lemma NegativeBits(n: nat)
    requires n < TWO64
    ensures AsSigned((TWO64 - 1 - n) % TWO64, TWO63) == if n < TWO63 then -1 - n else TWO64 - 1 - n
  {
    var bits := TWO64 - 1 - n;
    assert 0 <= bits < TWO64;
    assert bits % TWO64 == bits;
  }

  /** The text of a negative integer, from its tag and argument. */
  lemma NegativeCell(floatText: FloatText, tag: byte, n: nat)
    requires tag / 32 == 1 && n < TWO64 && (tag % 32 < 24 ==> n == tag % 32)
    ensures CborCell(floatText, tag, n) == Text(Decimal(AsSigned((TWO64 - 1 - n) % TWO64, TWO63)))
  {
  }

  /** The same below 2^63, where the argument is in the tag or follows it. */
  lemma NegativeText(floatText: FloatText, tag: byte, argument: nat, n: nat)
    requires tag / 32 == 1 && n < TWO63 && n == if tag % 32 < 24 then tag % 32 else argument
    ensures CborCell(floatText, tag, argument) == Text(Decimal(-1 - n))
  {
    NegativeBits(n);
    NegativeCell(floatText, tag, n);
  }

  /** Major type 1 stands for -1 - n (section 3.1 of RFC 8949); the text is that number exactly below 2^63. */
  lemma CborNegative(floatText: FloatText, tag: byte, n: nat)
    requires tag / 32 == 1 && n < TWO64 && (tag % 32 < 24 ==> n == tag % 32)
    ensures CborCell(floatText, tag, n) == Text(Decimal(-1 - n)) <==> n < TWO63
  {
    NegativeBits(n);
    NegativeCell(floatText, tag, n);
    if n >= TWO63 {
      DecimalDistinct(TWO64 - 1 - n, -1 - n);
    }
  }
}
