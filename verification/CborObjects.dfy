/** CBOR data items with their bytes and their meaning, as sections 3, 3.1 and 3.3 of RFC 8949 have them, of definite
    length.  What the readers skip is exactly that; what they read of it as text is said by `Meaning`. */
module CborObjects {
  import opened Options
  import opened Bytes
  import opened Projection
  import opened Wire
  import opened Formats
  import opened Extraction

  /** A data item in one of the forms that it can be written in.  `width` counts the bytes of the argument behind the
      first byte, none where the first byte holds it.  A map lists its keys and values in turn. */
  datatype Object =
    | Unsigned(width: nat, count: nat)
    | Negative(width: nat, count: nat)  // -1 - count
    | ByteString(width: nat, data: Bytes)
    | TextString(width: nat, text: Bytes)
    | Array(width: nat, items: seq<Object>)
    | Map(width: nat, items: seq<Object>)
    | Tag(width: nat, number: nat, content: Object)
    | Simple(code: nat)
    | SimpleByte(code: nat)
    | Float16(bits: nat)
    | Float32(bits: nat)
    | Float64(bits: nat)

  // ---------------------------------------------------------------- bytes

  predicate Wide(width: nat) { width == 1 || width == 2 || width == 4 || width == 8 }

  /** One more than the largest number that so many bytes hold, or that is held in the first byte. */
  function Limit(width: nat): nat {
    if width == 0 then 24 else if width == 1 then 0x100 else if width == 2 then 0x1_0000
    else if width == 4 then 0x1_0000_0000 else 0x1_0000_0000_0000_0000
  }

  /** The major type of everything but simple values and floats, and the argument: a value, a length, a count, or the
      number of a tag. */
  predicate HasArgument(o: Object) {
    !o.Simple? && !o.SimpleByte? && !o.Float16? && !o.Float32? && !o.Float64?
  }

  function Major(o: Object): nat
    requires HasArgument(o)
  {
    match o
    case Unsigned(_, _) => 0
    case Negative(_, _) => 1
    case ByteString(_, _) => 2
    case TextString(_, _) => 3
    case Array(_, _) => 4
    case Map(_, _) => 5
    case Tag(_, _, _) => 6
  }

  function Number(o: Object): nat
    requires HasArgument(o)
  {
    match o
    case Unsigned(_, n) => n
    case Negative(_, n) => n
    case ByteString(_, data) => |data|
    case TextString(_, text) => |text|
    case Array(_, items) => |items|
    case Map(_, items) => |items| / 2
    case Tag(_, number, _) => number
  }

  predicate Fits(width: nat, n: nat) {
    (width == 0 || Wide(width)) && n < Limit(width)
  }

  predicate Legal(o: Object)
    decreases o, 0
  {
    match o
    case Unsigned(width, n) => Fits(width, n)
    case Negative(width, n) => Fits(width, n)
    case ByteString(width, data) => Fits(width, |data|)
    case TextString(width, text) => Fits(width, |text|)
    case Array(width, items) => Fits(width, |items|) && AllLegal(items)
    case Map(width, items) => |items| % 2 == 0 && Fits(width, |items| / 2) && AllLegal(items)
    case Tag(width, number, content) => Fits(width, number) && Legal(content)
    case Simple(code) => code < 24
    case SimpleByte(code) => code < 0x100
    case Float16(bits) => bits < 0x1_0000
    case Float32(bits) => bits < 0x1_0000_0000
    case Float64(bits) => bits < 0x1_0000_0000_0000_0000
  }

  predicate AllLegal(items: seq<Object>)
    decreases items, 1
  {
    items != [] ==> Legal(items[0]) && AllLegal(items[1..])
  }

  /** The low five bits of the first byte. */
  function Info(width: nat, n: nat): nat {
    if width == 0 then n else if width == 1 then 24 else if width == 2 then 25 else if width == 4 then 26 else 27
  }

  function FirstByte(o: Object): byte
    requires Legal(o)
  {
    if HasArgument(o) then 0x20 * Major(o) + Info(o.width, Number(o))
    else
      match o
      case Simple(code) => 0xe0 + code
      case SimpleByte(_) => 0xf8
      case Float16(_) => 0xf9
      case Float32(_) => 0xfa
      case Float64(_) => 0xfb
  }

  function ArgumentBytes(o: Object): Bytes
    requires Legal(o)
  {
    if HasArgument(o) then BigEndian(Number(o), o.width)
    else
      match o
      case Simple(_) => []
      case SimpleByte(code) => BigEndian(code, 1)
      case Float16(bits) => BigEndian(bits, 2)
      case Float32(bits) => BigEndian(bits, 4)
      case Float64(bits) => BigEndian(bits, 8)
  }

  function Serialize(o: Object): Bytes
    requires Legal(o)
    decreases o, 0
  {
    [FirstByte(o)] + ArgumentBytes(o)
    + match o
      case ByteString(_, data) => data
      case TextString(_, text) => text
      case Array(_, items) => SerializeAll(items)
      case Map(_, items) => SerializeAll(items)
      case Tag(_, _, content) => Serialize(content)
      case _ => []
  }

  function SerializeAll(items: seq<Object>): Bytes
    requires AllLegal(items)
    decreases items, 1
  {
    if items == [] then [] else Serialize(items[0]) + SerializeAll(items[1..])
  }

  /** How many arrays, maps and tags enclose the innermost data item. */
  function Nesting(o: Object): nat
    decreases o, 0
  {
    if o.Tag? then 1 + Nesting(o.content)
    else if (o.Array? || o.Map?) && o.items != [] then 1 + NestingAll(o.items)
    else 0
  }

  function NestingAll(items: seq<Object>): nat
    decreases items, 1
  {
    if items == [] then 0
    else
      var first, rest := Nesting(items[0]), NestingAll(items[1..]);
      if first < rest then rest else first
  }

  // ---------------------------------------------------------------- meaning

  predicate TextKeyed(items: seq<Object>) {
    items != [] ==> |items| >= 2 && items[0].TextString? && TextKeyed(items[2..])
  }

  /** The document of a data item.  The readers compute negative integers in 64 bits, so those below -2^63 come out
      as non-negative ones, and take every half float for zero. */
  function Meaning(floatText: FloatText, o: Object): Doc
    decreases o, 0
  {
    match o
    case Unsigned(_, n) => Scalar(Text(Decimal(n)))
    case Negative(_, n) =>
      Scalar(Text(Decimal(if n < 0x8000_0000_0000_0000 then -1 - n else 0xffff_ffff_ffff_ffff - n)))
    case TextString(_, text) => Scalar(Text(text))
    case Simple(code) =>
      if code == 20 then Scalar(Text([0x66, 0x61, 0x6c, 0x73, 0x65]))
      else if code == 21 then Scalar(Text([0x74, 0x72, 0x75, 0x65]))
      else if code == 22 then Scalar(Null)
      else Opaque
    case Float16(_) => Scalar(Text(floatText(Double, 0)))
    case Float32(bits) => Scalar(Text(floatText(Widened, bits)))
    case Float64(bits) => Scalar(Text(floatText(Double, bits)))
    case Map(_, items) => if TextKeyed(items) then Node(Pairs(floatText, items)) else Opaque
    case _ => Opaque
  }

  function Pairs(floatText: FloatText, items: seq<Object>): seq<Entry>
    requires TextKeyed(items)
    decreases items, 1
  {
    if items == [] then [] else [Entry(items[0].text, Meaning(floatText, items[1]))] + Pairs(floatText, items[2..])
  }

  // ---------------------------------------------------------------- objects and items

  /** The item that an object is for the readers. */
  function ToItem(o: Object): (item: Item)
    requires Legal(o)
    ensures item.tag == FirstByte(o) && item.arg == ArgumentBytes(o)
    decreases o, 0
  {
    match o
    case ByteString(_, data) => Blob(FirstByte(o), ArgumentBytes(o), data)
    case TextString(_, text) => Blob(FirstByte(o), ArgumentBytes(o), text)
    case Array(_, items) => Group(FirstByte(o), ArgumentBytes(o), ToItems(items))
    case Map(_, items) => Group(FirstByte(o), ArgumentBytes(o), ToItems(items))
    case Tag(_, _, content) => Group(FirstByte(o), ArgumentBytes(o), [ToItem(content)])
    case _ => Atom(FirstByte(o), ArgumentBytes(o))
  }

  function ToItems(items: seq<Object>): (r: seq<Item>)
    requires AllLegal(items)
    ensures |r| == |items|
    decreases items, 1
  {
    if items == [] then [] else [ToItem(items[0])] + ToItems(items[1..])
  }

  lemma OneEncoded(item: Item)
    ensures EncodeAll([item]) == Encode(item) && DepthAll([item]) == Depth(item)
  {
    assert [item][1..] == [];
    assert EncodeAll([item]) == Encode(item) + EncodeAll([]) == Encode(item);
    assert DepthAll([]) == 0;
  }

  lemma {:induction false} SameBytes(o: Object)
    requires Legal(o)
    ensures Encode(ToItem(o)) == Serialize(o) && Depth(ToItem(o)) == Nesting(o)
    decreases o, 0
  {
    if o.Array? || o.Map? {
      SameBytesAll(o.items);
    } else if o.Tag? {
      SameBytes(o.content);
      OneEncoded(ToItem(o.content));
    }
  }

  lemma {:induction false} SameBytesAll(items: seq<Object>)
    requires AllLegal(items)
    ensures EncodeAll(ToItems(items)) == SerializeAll(items) && DepthAll(ToItems(items)) == NestingAll(items)
    decreases items, 1
  {
    if items != [] {
      SameBytes(items[0]);
      SameBytesAll(items[1..]);
      assert ToItems(items)[1..] == ToItems(items[1..]);
    }
  }

  /** A number that the width can hold is read back. */
  lemma ArgumentRead(n: nat, width: nat)
    requires Fits(width, n)
    ensures width > 0 ==> FromBigEndian(BigEndian(n, width)) == n
  {
    Capacities();
    if width > 0 {
      BigEndianRoundTrip(n, width);
    }
  }

  lemma TagParts(major: nat, info: nat)
    requires major < 8 && info < 32
    ensures (0x20 * major + info) / 32 == major && (0x20 * major + info) % 32 == info
  {
  }

  /** What the first byte announces. */
  lemma FirstByteShape(major: nat, width: nat, n: nat)
    requires major < 7 && Fits(width, n)
    ensures var tag, inline := 0x20 * major + Info(width, n), Info(width, n);
            CborShape(tag)
            == if major <= 1 then Leaf(width, true)
               else if major <= 3 then Run(width, inline, major == 3)
               else if major <= 5 then Nest(width, inline, major == 5)
               else Tagged(width)
  {
    TagParts(major, Info(width, n));
  }

  /** What the readers make of the argument of an integer. */
  lemma IntegerCell(floatText: FloatText, major: nat, width: nat, n: nat, argument: nat)
    requires major < 2 && Fits(width, n) && (width > 0 ==> argument == n)
    ensures CborCell(floatText, 0x20 * major + Info(width, n), argument)
            == Text(Decimal(if major == 0 then n else if n < 0x8000_0000_0000_0000 then -1 - n
                            else 0xffff_ffff_ffff_ffff - n))
  {
    TagParts(major, Info(width, n));
    NegativeBits(n);
  }

  lemma UnsignedIsRight(floatText: FloatText, o: Object)
    requires Legal(o) && o.Unsigned?
    ensures WellFormed(Cbor(floatText), ToItem(o)) && ToDoc(Cbor(floatText), ToItem(o)) == Meaning(floatText, o)
  {
    FirstByteShape(0, o.width, o.count);
    ArgumentRead(o.count, o.width);
    IntegerCell(floatText, 0, o.width, o.count, FromBigEndian(ArgumentBytes(o)));
    ScalarAtom(Cbor(floatText), FirstByte(o), ArgumentBytes(o), Meaning(floatText, o).cell);
  }

  lemma NegativeIsRight(floatText: FloatText, o: Object)
    requires Legal(o) && o.Negative?
    ensures WellFormed(Cbor(floatText), ToItem(o)) && ToDoc(Cbor(floatText), ToItem(o)) == Meaning(floatText, o)
  {
    FirstByteShape(1, o.width, o.count);
    ArgumentRead(o.count, o.width);
    IntegerCell(floatText, 1, o.width, o.count, FromBigEndian(ArgumentBytes(o)));
    ScalarAtom(Cbor(floatText), FirstByte(o), ArgumentBytes(o), Meaning(floatText, o).cell);
  }

  /** What the readers make of a simple value in the first byte: three of them are read. */
  lemma SimpleCell(floatText: FloatText, code: nat)
    requires code < 24
    ensures CborShape(0xe0 + code) == Leaf(0, 20 <= code <= 22)
    ensures CborCell(floatText, 0xe0 + code, 0)
            == if code == 20 then Text(FALSE_TEXT) else if code == 21 then Text(TRUE_TEXT)
               else if code == 22 then Null else Text(floatText(Double, 0))
  {
    TagParts(7, code);
  }

  lemma SimpleIsRight(floatText: FloatText, code: nat)
    requires Legal(Simple(code))
    ensures var item := ToItem(Simple(code));
            WellFormed(Cbor(floatText), item) && ToDoc(Cbor(floatText), item) == Meaning(floatText, Simple(code))
  {
    SimpleCell(floatText, code);
    assert FromBigEndian([]) == 0;
  }

  lemma SimpleByteIsRight(floatText: FloatText, code: nat)
    requires Legal(SimpleByte(code))
    ensures var item := ToItem(SimpleByte(code));
            WellFormed(Cbor(floatText), item) && ToDoc(Cbor(floatText), item) == Opaque
  {
    assert CborShape(0xf8) == Leaf(1, false);
  }

  lemma FloatIsRight(floatText: FloatText, o: Object)
    requires Legal(o) && (o.Float16? || o.Float32? || o.Float64?)
    ensures WellFormed(Cbor(floatText), ToItem(o)) && ToDoc(Cbor(floatText), ToItem(o)) == Meaning(floatText, o)
  {
    ArgumentRead(o.bits, if o.Float16? then 2 else if o.Float32? then 4 else 8);
    ScalarAtom(Cbor(floatText), FirstByte(o), ArgumentBytes(o), Meaning(floatText, o).cell);
  }

  /** A string of either kind. */
  lemma StringIsRight(floatText: FloatText, o: Object)
    requires Legal(o) && (o.ByteString? || o.TextString?)
    ensures var item := ToItem(o);
            && WellFormed(Cbor(floatText), item) && IsText(CborShape(item.tag)) == o.TextString?
            && item.Blob? && item.data == if o.TextString? then o.text else o.data
  {
    FirstByteShape(Major(o), o.width, Number(o));
    ArgumentRead(Number(o), o.width);
    BlobIsWellFormed(Cbor(floatText), FirstByte(o), ArgumentBytes(o), if o.TextString? then o.text else o.data);
  }

  /** Only maps are read as maps. */
  lemma GroupShape(o: Object)
    requires Legal(o) && (o.Array? || o.Map? || o.Tag?)
    ensures IsMap(CborShape(FirstByte(o))) == o.Map?
  {
    FirstByteShape(Major(o), o.width, Number(o));
  }

  lemma CountIsRight(o: Object)
    requires Legal(o) && (o.Array? || o.Map?)
    ensures |o.items| == Children(o.Map?, Number(o))
  {
  }

  lemma GroupIsRight(floatText: FloatText, o: Object)
    requires Legal(o) && (o.Array? || o.Map?) && AllWellFormed(Cbor(floatText), ToItems(o.items))
    ensures WellFormed(Cbor(floatText), ToItem(o)) && IsMap(CborShape(FirstByte(o))) == o.Map?
  {
    FirstByteShape(Major(o), o.width, Number(o));
    ArgumentRead(Number(o), o.width);
    CountIsRight(o);
    GroupIsWellFormed(Cbor(floatText), FirstByte(o), ArgumentBytes(o), ToItems(o.items));
  }

  lemma TagIsRight(floatText: FloatText, o: Object)
    requires Legal(o) && o.Tag? && WellFormed(Cbor(floatText), ToItem(o.content))
    ensures WellFormed(Cbor(floatText), ToItem(o)) && ToDoc(Cbor(floatText), ToItem(o)) == Opaque
  {
    FirstByteShape(6, o.width, o.number);
    var content := [ToItem(o.content)];
    assert content[1..] == [];
    assert AllWellFormed(Cbor(floatText), content);
  }

  lemma {:induction false} ItemIsRight(floatText: FloatText, o: Object)
    requires Legal(o)
    ensures WellFormed(Cbor(floatText), ToItem(o)) && ToDoc(Cbor(floatText), ToItem(o)) == Meaning(floatText, o)
    decreases o, 0
  {
    match o
    case Unsigned(_, _) => UnsignedIsRight(floatText, o);
    case Negative(_, _) => NegativeIsRight(floatText, o);
    case ByteString(_, _) => StringIsRight(floatText, o);
    case TextString(_, _) => StringIsRight(floatText, o);
    case Array(_, items) =>
      ItemsAreRight(floatText, items);
      GroupIsRight(floatText, o);
    case Map(_, items) =>
      ItemsAreRight(floatText, items);
      PairsAreRight(floatText, items);
      GroupIsRight(floatText, o);
    case Tag(_, _, content) =>
      ItemIsRight(floatText, content);
      TagIsRight(floatText, o);
    case Simple(code) => SimpleIsRight(floatText, code);
    case SimpleByte(code) => SimpleByteIsRight(floatText, code);
    case _ => FloatIsRight(floatText, o);
  }

  lemma {:induction false} ItemsAreRight(floatText: FloatText, items: seq<Object>)
    requires AllLegal(items)
    ensures AllWellFormed(Cbor(floatText), ToItems(items))
    decreases items, 1
  {
    if items != [] {
      ItemIsRight(floatText, items[0]);
      ItemsAreRight(floatText, items[1..]);
      assert ToItems(items)[1..] == ToItems(items[1..]);
    }
  }

  lemma {:induction false} PairsAreRight(floatText: FloatText, items: seq<Object>)
    requires AllLegal(items) && |items| % 2 == 0
    ensures TextKeys(Cbor(floatText), ToItems(items)) <==> TextKeyed(items)
    ensures TextKeyed(items) ==> ToEntries(Cbor(floatText), ToItems(items)) == Pairs(floatText, items)
    decreases items, 1
  {
    if items != [] {
      TwoItems(items);
      KeyIsText(floatText, items[0]);
      ItemIsRight(floatText, items[1]);
      PairsAreRight(floatText, items[2..]);
      FirstPair(Cbor(floatText), ToItems(items));
    }
  }

  lemma TwoItems(items: seq<Object>)
    requires AllLegal(items) && |items| >= 2
    ensures Legal(items[0]) && Legal(items[1]) && AllLegal(items[2..])
    ensures ToItems(items)[0] == ToItem(items[0]) && ToItems(items)[1] == ToItem(items[1])
    ensures ToItems(items)[2..] == ToItems(items[2..])
  {
    var rest := items[1..];
    assert rest[1..] == items[2..];
    FirstTwo(ToItems(items), ToItem(items[0]), ToItem(rest[0]), ToItems(rest[1..]));
  }

  lemma FirstTwo(all: seq<Item>, first: Item, second: Item, rest: seq<Item>)
    requires all == [first] + ([second] + rest)
    ensures all[0] == first && all[1] == second && all[2..] == rest
  {
  }

  /** Only texts are read as keys. */
  lemma KeyIsText(floatText: FloatText, o: Object)
    requires Legal(o)
    ensures var item := ToItem(o); item.Blob? && IsText(CborShape(item.tag)) <==> o.TextString?
    ensures o.TextString? ==> ToItem(o).data == o.text
  {
    if o.TextString? || o.ByteString? {
      StringIsRight(floatText, o);
    }
  }

  // ---------------------------------------------------------------- every item is an object

  /** What so many bytes hold. */
  lemma ArgumentFits(arg: Bytes)
    requires Wide(|arg|)
    ensures FromBigEndian(arg) < Limit(|arg|) && BigEndian(FromBigEndian(arg), |arg|) == arg
  {
    Capacities();
    FromBigEndianBound(arg);
    BytesRoundTrip(arg);
  }

  /** The argument that a first byte announces: its width, the number, and how the two make the first byte. */
  lemma ArgumentOf(tag: byte, arg: Bytes) returns (n: nat)
    requires tag % 32 < 28 && CborWidth(tag % 32) == |arg|
    ensures Fits(|arg|, n) && Info(|arg|, n) == tag % 32 && BigEndian(n, |arg|) == arg
    ensures n == Argument(|arg|, tag % 32, arg)
  {
    if |arg| == 0 {
      n := tag % 32;
    } else {
      ArgumentFits(arg);
      n := FromBigEndian(arg);
    }
  }

  lemma FloatObject(tag: byte, arg: Bytes) returns (o: Object)
    requires 0xf9 <= tag <= 0xfb && |arg| == if tag == 0xf9 then 2 else if tag == 0xfa then 4 else 8
    ensures Legal(o) && ToItem(o) == Atom(tag, arg)
  {
    ArgumentFits(arg);
    var bits := FromBigEndian(arg);
    o := if tag == 0xf9 then Float16(bits) else if tag == 0xfa then Float32(bits) else Float64(bits);
  }

  lemma SimpleObject(tag: byte, arg: Bytes) returns (o: Object)
    requires 0xe0 <= tag <= 0xf8 && |arg| == if tag == 0xf8 then 1 else 0
    ensures Legal(o) && ToItem(o) == Atom(tag, arg)
  {
    if tag == 0xf8 {
      ArgumentFits(arg);
      o := SimpleByte(FromBigEndian(arg));
    } else {
      o := Simple(tag - 0xe0);
    }
  }

  lemma IntegerObject(tag: byte, arg: Bytes) returns (o: Object)
    requires tag / 32 <= 1 && tag % 32 < 28 && CborWidth(tag % 32) == |arg|
    ensures Legal(o) && ToItem(o) == Atom(tag, arg)
  {
    var n := ArgumentOf(tag, arg);
    o := if tag / 32 == 0 then Unsigned(|arg|, n) else Negative(|arg|, n);
  }

  /** Behind the first bytes of major type 7 follow as many bytes as the low bits say. */
  lemma LeafWidth(tag: byte)
    requires CborShape(tag).Leaf?
    ensures tag / 32 <= 1 || tag / 32 == 7
    ensures tag % 32 < 28 && CborShape(tag).width == CborWidth(tag % 32)
    ensures tag / 32 == 7 ==>
              && 0xe0 <= tag <= 0xfb
              && CborShape(tag).width == if tag < 0xf8 then 0 else if tag == 0xf8 then 1 else if tag == 0xf9 then 2
                                         else if tag == 0xfa then 4 else 8
  {
  }

  lemma AtomObject(tag: byte, arg: Bytes) returns (o: Object)
    requires CborShape(tag).Leaf? && CborShape(tag).width == |arg|
    ensures Legal(o) && ToItem(o) == Atom(tag, arg)
  {
    LeafWidth(tag);
    if tag / 32 <= 1 {
      o := IntegerObject(tag, arg);
    } else if tag <= 0xf8 {
      o := SimpleObject(tag, arg);
    } else {
      o := FloatObject(tag, arg);
    }
  }

  /** Strings, arrays, maps and tags: the first byte is the major type and the low bits. */
  lemma HeadWidth(tag: byte)
    requires !CborShape(tag).Leaf? && !CborShape(tag).Invalid?
    ensures 2 <= tag / 32 <= 6 && tag % 32 < 28 && CborShape(tag).width == CborWidth(tag % 32)
    ensures CborShape(tag).Run? <==> tag / 32 <= 3
    ensures CborShape(tag).Nest? <==> tag / 32 == 4 || tag / 32 == 5
    ensures CborShape(tag).Run? ==> CborShape(tag).isText == (tag / 32 == 3) && CborShape(tag).inline == tag % 32
    ensures CborShape(tag).Nest? ==> CborShape(tag).isMap == (tag / 32 == 5) && CborShape(tag).inline == tag % 32
    ensures tag == 0x20 * (tag / 32) + tag % 32
  {
  }

  lemma BlobObject(tag: byte, arg: Bytes, data: Bytes) returns (o: Object)
    requires var shape := CborShape(tag);
             shape.Run? && shape.width == |arg| && Argument(shape.width, shape.inline, arg) == |data|
    ensures Legal(o) && ToItem(o) == Blob(tag, arg, data)
  {
    HeadWidth(tag);
    var n := ArgumentOf(tag, arg);
    o := if tag / 32 == 3 then TextString(|arg|, data) else ByteString(|arg|, data);
  }

  /** The count that the head of an array or map announces, and how it makes the head. */
  lemma GroupHead(tag: byte, arg: Bytes) returns (n: nat)
    requires CborShape(tag).Nest? && CborShape(tag).width == |arg|
    ensures Fits(|arg|, n) && BigEndian(n, |arg|) == arg && n == Argument(|arg|, CborShape(tag).inline, arg)
    ensures tag == (if CborShape(tag).isMap then 0xa0 else 0x80) + Info(|arg|, n)
  {
    HeadWidth(tag);
    n := ArgumentOf(tag, arg);
  }

  lemma GroupObject(tag: byte, arg: Bytes, items: seq<Object>) returns (o: Object)
    requires AllLegal(items)
    requires var shape := CborShape(tag);
             && shape.Nest? && shape.width == |arg|
             && |items| == Children(shape.isMap, Argument(shape.width, shape.inline, arg))
    ensures Legal(o) && ToItem(o) == Group(tag, arg, ToItems(items))
  {
    var n := GroupHead(tag, arg);
    if CborShape(tag).isMap {
      o := MapOf(tag, arg, items, n);
    } else {
      o := ArrayOf(tag, arg, items, n);
    }
  }

  lemma ArrayOf(tag: byte, arg: Bytes, items: seq<Object>, n: nat) returns (o: Object)
    requires AllLegal(items) && |items| == n && Fits(|arg|, n) && BigEndian(n, |arg|) == arg
    requires tag == 0x80 + Info(|arg|, n)
    ensures Legal(o) && ToItem(o) == Group(tag, arg, ToItems(items))
  {
    o := Array(|arg|, items);
  }

  lemma MapOf(tag: byte, arg: Bytes, items: seq<Object>, n: nat) returns (o: Object)
    requires AllLegal(items) && |items| == 2 * n && Fits(|arg|, n) && BigEndian(n, |arg|) == arg
    requires tag == 0xa0 + Info(|arg|, n)
    ensures Legal(o) && ToItem(o) == Group(tag, arg, ToItems(items))
  {
    Halved(|items|, n);
    o := Map(|arg|, items);
  }

  lemma Halved(n: nat, count: nat)
    requires n == 2 * count
    ensures n / 2 == count && n % 2 == 0
  {
  }

  lemma TagObject(tag: byte, arg: Bytes, content: Object) returns (o: Object)
    requires CborShape(tag) == Tagged(|arg|) && Legal(content)
    ensures Legal(o) && ToItem(o) == Group(tag, arg, [ToItem(content)])
  {
    HeadWidth(tag);
    var n := ArgumentOf(tag, arg);
    o := Tag(|arg|, n, content);
  }

  /** Every well-formed item of the readers is an object. */
  lemma {:induction false} ObjectOf(floatText: FloatText, item: Item) returns (o: Object)
    requires WellFormed(Cbor(floatText), item)
    ensures Legal(o) && ToItem(o) == item
    decreases item, 0
  {
    match item
    case Atom(tag, arg) => o := AtomObject(tag, arg);
    case Blob(tag, arg, data) => o := BlobObject(tag, arg, data);
    case Group(tag, arg, items) =>
      var objects := ObjectsOf(floatText, items);
      if CborShape(tag).Nest? {
        o := GroupObject(tag, arg, objects);
      } else {
        assert items == [items[0]] && ToItems(objects)[0] == ToItem(objects[0]);
        o := TagObject(tag, arg, objects[0]);
      }
  }

  lemma {:induction false} ObjectsOf(floatText: FloatText, items: seq<Item>) returns (objects: seq<Object>)
    requires AllWellFormed(Cbor(floatText), items)
    ensures AllLegal(objects) && ToItems(objects) == items
    decreases items, 1
  {
    objects := [];
    if items != [] {
      var first := ObjectOf(floatText, items[0]);
      var rest := ObjectsOf(floatText, items[1..]);
      objects := [first] + rest;
      assert objects[1..] == rest;
    }
  }

  // ---------------------------------------------------------------- what the readers do

  /** The bytes of an object lie in the payload from `i` up to `j`. */
  ghost predicate ObjectAt(p: Bytes, i: nat, j: nat, o: Object) {
    Legal(o) && At(p, i, Serialize(o)) && j == i + |Serialize(o)|
  }

  lemma ObjectIsItem(floatText: FloatText, p: Bytes, i: nat, j: nat, o: Object)
    requires ObjectAt(p, i, j, o)
    ensures WellFormed(Cbor(floatText), ToItem(o)) && At(p, i, Encode(ToItem(o))) && j == i + |Encode(ToItem(o))|
    ensures Depth(ToItem(o)) == Nesting(o) && ToDoc(Cbor(floatText), ToItem(o)) == Meaning(floatText, o)
    ensures i < |p| && p[i] == FirstByte(o)
  {
    SameBytes(o);
    ItemIsRight(floatText, o);
    ItemAt(p, i, ToItem(o));
  }

  lemma ItemIsObject(floatText: FloatText, p: Bytes, i: nat, j: nat, item: Item) returns (o: Object)
    requires WellFormed(Cbor(floatText), item) && At(p, i, Encode(item)) && j == i + |Encode(item)|
    ensures ObjectAt(p, i, j, o) && Nesting(o) == Depth(item)
    ensures Meaning(floatText, o) == ToDoc(Cbor(floatText), item)
  {
    o := ObjectOf(floatText, item);
    SameBytes(o);
    ItemIsRight(floatText, o);
  }

  /** The skipper takes exactly the objects that are nested at most 256 deep, to their last byte. */
  lemma SkipIff(floatText: FloatText, p: Bytes, i: nat, depth: nat, j: nat)
    requires i <= |p|
    ensures SkipItems(Cbor(floatText), p, i, 1, depth) == Some(j)
            <==> exists o :: ObjectAt(p, i, j, o) && depth + Nesting(o) <= 256
  {
    var format := Cbor(floatText);
    SkipIffItem(format, p, i, depth, j);
    if item :| ItemsFill(format, p, i, j, [item], depth) {
      OneItem(format, p, i, j, item, depth);
      var o := ItemIsObject(floatText, p, i, j, item);
      assert ObjectAt(p, i, j, o) && depth + Nesting(o) <= 256;
    }
    forall o | ObjectAt(p, i, j, o) && depth + Nesting(o) <= 256 ensures SkipItems(format, p, i, 1, depth) == Some(j) {
      ObjectIsItem(floatText, p, i, j, o);
      OneItem(format, p, i, j, ToItem(o), depth);
    }
  }

  /** A value is read exactly when a scalar lies there, and the text is what the scalar means. */
  lemma ReadIff(floatText: FloatText, p: Bytes, i: nat, cell: Cell, j: nat)
    requires i < |p|
    ensures ScalarAt(Cbor(floatText), p, i + 1, p[i]) == Read(cell, j)
            <==> exists o :: ObjectAt(p, i, j, o) && Meaning(floatText, o) == Scalar(cell)
  {
    var format := Cbor(floatText);
    ScalarIffItem(format, p, i, cell, j);
    if item :| WellFormed(format, item) && At(p, i, Encode(item)) && j == i + |Encode(item)|
               && ToDoc(format, item) == Scalar(cell) {
      var o := ItemIsObject(floatText, p, i, j, item);
    }
    forall o | ObjectAt(p, i, j, o) && Meaning(floatText, o) == Scalar(cell)
      ensures ScalarAt(format, p, i + 1, p[i]) == Read(cell, j)
    {
      ObjectIsItem(floatText, p, i, j, o);
    }
  }

  // ---------------------------------------------------------------- rows

  /** The entries that a requested path goes through have texts as keys, and no value is nested too deep. */
  predicate Fetchable(items: seq<Object>, depth: nat, paths: seq<Path>)
    decreases items, 1
  {
    items != [] ==>
      |items| >= 2 && items[0].TextString? && FetchableValue(items[1], items[0].text, depth, paths)
      && Fetchable(items[2..], depth, paths)
  }

  predicate FetchableValue(o: Object, key: Bytes, depth: nat, paths: seq<Path>)
    decreases o, 0
  {
    Nesting(o) <= 256 && (o.Map? && GoesThrough(paths, depth, key) ==> Fetchable(o.items, depth + 1, paths))
  }

  lemma {:induction false} FetchableIsReadable(floatText: FloatText, items: seq<Object>, depth: nat, paths: seq<Path>)
    requires AllLegal(items) && Fetchable(items, depth, paths)
    ensures Readable(Cbor(floatText), ToItems(items), depth, paths) && TextKeyed(items) && |items| % 2 == 0
    decreases items, 1
  {
    if items != [] {
      TwoItems(items);
      ItemIsRight(floatText, items[0]);
      KeyIsText(floatText, items[0]);
      ValueIsReadable(floatText, items[1], items[0].text, depth, paths);
      FetchableIsReadable(floatText, items[2..], depth, paths);
      ReadableStep(Cbor(floatText), ToItems(items), depth, paths);
    }
  }

  lemma {:induction false} ValueIsReadable(floatText: FloatText, o: Object, key: Bytes, depth: nat, paths: seq<Path>)
    requires Legal(o) && FetchableValue(o, key, depth, paths)
    ensures ReadableValue(Cbor(floatText), ToItem(o), key, depth, paths)
    decreases o, 0
  {
    ItemIsRight(floatText, o);
    SameBytes(o);
    if o.Array? || o.Map? || o.Tag? {
      GroupShape(o);
    }
    if o.Map? && GoesThrough(paths, depth, key) {
      FetchableIsReadable(floatText, o.items, depth + 1, paths);
    }
  }

  /** Decoding the bytes of a map, whatever follows them, puts into each column the last text at its path in the meaning
      of the map, which is the only one when no key is repeated, and leaves all other columns. */
  lemma DecodeObject(floatText: FloatText, o: Object, suffix: Bytes, paths: seq<Path>, columns: seq<nat>,
                     row: seq<Cell>)
    requires Legal(o) && o.Map? && Fetchable(o.items, 0, paths)
    requires Compatible(paths) && Columns(columns, paths, |row|)
    ensures var out := DecodeRow(Cbor(floatText), Serialize(o) + suffix, paths, columns, row);
            && (forall f | 0 <= f < |paths| :: out[columns[f]] == LastLookup(Meaning(floatText, o), paths[f]))
            && (forall c | 0 <= c < |row| && c !in columns :: out[c] == row[c])
    ensures DistinctKeys(Meaning(floatText, o)) ==>
              forall f | 0 <= f < |paths| ::
                LastLookup(Meaning(floatText, o), paths[f]) == Lookup(Meaning(floatText, o), paths[f])
  {
    FetchableIsReadable(floatText, o.items, 0, paths);
    PairsAreRight(floatText, o.items);
    ItemIsRight(floatText, o);
    SameBytes(o);
    GroupShape(o);
    DecodeIsLast(Cbor(floatText), ToItem(o), suffix, paths, columns, row);
    if DistinctKeys(Meaning(floatText, o)) {
      LastIsLookup(Meaning(floatText, o), paths);
    }
  }

  /** Of a payload that does not begin with a map nothing is read: its columns are null. */
  lemma OnlyMaps(floatText: FloatText, p: Bytes, paths: seq<Path>, columns: seq<nat>, row: seq<Cell>)
    requires InRange(columns, paths, row)
    requires p != [] ==> !(0xa0 <= p[0] <= 0xbb)
    ensures forall c | 0 <= c < |row| ::
              DecodeRow(Cbor(floatText), p, paths, columns, row)[c] == if c in columns then Null else row[c]
  {
  }
}
