/** MessagePack objects with their bytes and their meaning, as the specification of the format has them (sections
    "Formats" and "Serialization"), without extension types.  What the readers skip and read is exactly that. */
module MsgpackObjects {
  import opened Options
  import opened Bytes
  import opened Projection
  import opened Wire
  import opened Formats
  import opened Extraction

  /** An object in one of the forms that it can be written in.  `width` counts the bytes of the argument behind the
      first byte, none where the first byte holds it.  A map lists its keys and values in turn. */
  datatype Object =
    | Nil
    | Bool(flag: bool)
    | PositiveFix(count: nat)
    | NegativeFix(number: int)
    | UInt(width: nat, count: nat)
    | Int(width: nat, number: int)
    | Float32(bits: nat)
    | Float64(bits: nat)
    | Str(width: nat, text: Bytes)
    | Bin(width: nat, data: Bytes)
    | Array(width: nat, items: seq<Object>)
    | Map(width: nat, items: seq<Object>)

  // ---------------------------------------------------------------- bytes

  predicate Wide(width: nat) { width == 1 || width == 2 || width == 4 || width == 8 }

  /** Half of the numbers that so many bytes hold. */
  function Half(width: nat): int {
    if width == 1 then 0x80 else if width == 2 then 0x8000 else if width == 4 then 0x8000_0000
    else 0x8000_0000_0000_0000
  }

  predicate LegalCount(width: nat, count: nat) {
    if width == 0 then count < 16 else (width == 2 || width == 4) && count < 2 * Half(width)
  }

  predicate Legal(o: Object)
    decreases o, 0
  {
    match o
    case Nil => true
    case Bool(_) => true
    case PositiveFix(n) => n < 0x80
    case NegativeFix(k) => -0x20 <= k < 0
    case UInt(width, n) => Wide(width) && n < 2 * Half(width)
    case Int(width, k) => Wide(width) && -Half(width) <= k < Half(width)
    case Float32(bits) => bits < 0x1_0000_0000
    case Float64(bits) => bits < 0x1_0000_0000_0000_0000
    case Str(width, text) =>
      if width == 0 then |text| < 0x20 else Wide(width) && width < 8 && |text| < 2 * Half(width)
    case Bin(width, data) => Wide(width) && width < 8 && |data| < 2 * Half(width)
    case Array(width, items) => LegalCount(width, |items|) && AllLegal(items)
    case Map(width, items) => |items| % 2 == 0 && LegalCount(width, |items| / 2) && AllLegal(items)
  }

  predicate AllLegal(items: seq<Object>)
    decreases items, 1
  {
    items != [] ==> Legal(items[0]) && AllLegal(items[1..])
  }

  function ByWidth(width: nat, one: byte, two: byte, four: byte, eight: byte): byte {
    if width == 1 then one else if width == 2 then two else if width == 4 then four else eight
  }

  /** The first byte. */
  function FirstByte(o: Object): byte
    requires Legal(o)
  {
    match o
    case Nil => 0xc0
    case Bool(flag) => if flag then 0xc3 else 0xc2
    case PositiveFix(n) => n
    case NegativeFix(k) => 0x100 + k
    case UInt(width, _) => ByWidth(width, 0xcc, 0xcd, 0xce, 0xcf)
    case Int(width, _) => ByWidth(width, 0xd0, 0xd1, 0xd2, 0xd3)
    case Float32(_) => 0xca
    case Float64(_) => 0xcb
    case Str(width, text) => if width == 0 then 0xa0 + |text| else ByWidth(width, 0xd9, 0xda, 0xdb, 0)
    case Bin(width, _) => ByWidth(width, 0xc4, 0xc5, 0xc6, 0)
    case Array(width, items) => if width == 0 then 0x90 + |items| else ByWidth(width, 0, 0xdc, 0xdd, 0)
    case Map(width, items) => if width == 0 then 0x80 + |items| / 2 else ByWidth(width, 0, 0xde, 0xdf, 0)
  }

  /** The bytes of the number behind it: a value, a length or a count. */
  function ArgumentBytes(o: Object): Bytes
    requires Legal(o)
  {
    match o
    case UInt(width, n) => BigEndian(n, width)
    case Int(width, k) => BigEndian(if k < 0 then k + 2 * Half(width) else k, width)
    case Float32(bits) => BigEndian(bits, 4)
    case Float64(bits) => BigEndian(bits, 8)
    case Str(width, text) => BigEndian(|text|, width)
    case Bin(width, data) => BigEndian(|data|, width)
    case Array(width, items) => BigEndian(|items|, width)
    case Map(width, items) => BigEndian(|items| / 2, width)
    case _ => []
  }

  function Serialize(o: Object): Bytes
    requires Legal(o)
    decreases o, 0
  {
    [FirstByte(o)] + ArgumentBytes(o)
    + match o
      case Str(_, text) => text
      case Bin(_, data) => data
      case Array(_, items) => SerializeAll(items)
      case Map(_, items) => SerializeAll(items)
      case _ => []
  }

  function SerializeAll(items: seq<Object>): Bytes
    requires AllLegal(items)
    decreases items, 1
  {
    if items == [] then [] else Serialize(items[0]) + SerializeAll(items[1..])
  }

  /** How many arrays and maps enclose the innermost object. */
  function Nesting(o: Object): nat
    decreases o, 0
  {
    if (o.Array? || o.Map?) && o.items != [] then 1 + NestingAll(o.items) else 0
  }

  function NestingAll(items: seq<Object>): nat
    decreases items, 1
  {
    if items == [] then 0
    else
      var first, rest := Nesting(items[0]), NestingAll(items[1..]);
      if first < rest then rest else first
  }

  // ---------------------------------------------------------------- meaning

  predicate TextKeyed(items: seq<Object>) {
    items != [] ==> |items| >= 2 && items[0].Str? && TextKeyed(items[2..])
  }

  /** The document of an object: scalars have a text, as for maps their keys have to; anything else is opaque. */
  function Meaning(floatText: FloatText, o: Object): Doc
    decreases o, 0
  {
    match o
    case Nil => Scalar(Null)
    case Bool(flag) => Scalar(Text(if flag then [0x74, 0x72, 0x75, 0x65] else [0x66, 0x61, 0x6c, 0x73, 0x65]))
    case PositiveFix(n) => Scalar(Text(Decimal(n)))
    case NegativeFix(k) => Scalar(Text(Decimal(k)))
    case UInt(_, n) => Scalar(Text(Decimal(n)))
    case Int(_, k) => Scalar(Text(Decimal(k)))
    case Float32(bits) => Scalar(Text(floatText(Single, bits)))
    case Float64(bits) => Scalar(Text(floatText(Double, bits)))
    case Str(_, text) => Scalar(Text(text))
    case Bin(_, _) => Opaque
    case Array(_, _) => Opaque
    case Map(_, items) => if TextKeyed(items) then Node(Pairs(floatText, items)) else Opaque
  }

  function Pairs(floatText: FloatText, items: seq<Object>): seq<Entry>
    requires TextKeyed(items)
    decreases items, 1
  {
    if items == [] then [] else [Entry(items[0].text, Meaning(floatText, items[1]))] + Pairs(floatText, items[2..])
  }

  // ---------------------------------------------------------------- objects and items

  /** The item that an object is for the readers. */
  function ToItem(o: Object): (item: Item)
    requires Legal(o)
    ensures item.tag == FirstByte(o) && item.arg == ArgumentBytes(o)
    decreases o, 0
  {
    match o
    case Str(_, text) => Blob(FirstByte(o), ArgumentBytes(o), text)
    case Bin(_, data) => Blob(FirstByte(o), ArgumentBytes(o), data)
    case Array(_, items) => Group(FirstByte(o), ArgumentBytes(o), ToItems(items))
    case Map(_, items) => Group(FirstByte(o), ArgumentBytes(o), ToItems(items))
    case _ => Atom(FirstByte(o), ArgumentBytes(o))
  }

  function ToItems(items: seq<Object>): (r: seq<Item>)
    requires AllLegal(items)
    ensures |r| == |items|
    decreases items, 1
  {
    if items == [] then [] else [ToItem(items[0])] + ToItems(items[1..])
  }

  lemma {:induction false} SameBytes(o: Object)
    requires Legal(o)
    ensures Encode(ToItem(o)) == Serialize(o) && Depth(ToItem(o)) == Nesting(o)
    decreases o, 0
  {
    if o.Array? || o.Map? {
      SameBytesAll(o.items);
    }
  }

  lemma {:induction false} SameBytesAll(items: seq<Object>)
    requires AllLegal(items)
    ensures EncodeAll(ToItems(items)) == SerializeAll(items) && DepthAll(ToItems(items)) == NestingAll(items)
    decreases items, 1
  {
    if items != [] {
      SameBytes(items[0]);
      SameBytesAll(items[1..]);
      assert ToItems(items)[1..] == ToItems(items[1..]);
    }
  }

  /** A number that the width can hold is read back. */
  lemma ArgumentRead(n: nat, width: nat)
    requires width == 0 || (Wide(width) && n < 2 * Half(width))
    ensures width > 0 ==> FromBigEndian(BigEndian(n, width)) == n
  {
    Capacities();
    if width > 0 {
      BigEndianRoundTrip(n, width);
    }
  }

  lemma UIntCell(floatText: FloatText, width: nat, n: nat)
    requires Wide(width)
    ensures var tag := ByWidth(width, 0xcc, 0xcd, 0xce, 0xcf);
            MsgpackShape(tag) == Leaf(width, true) && MsgpackCell(floatText, tag, n) == Text(Decimal(n))
  {
  }

  lemma UIntIsRight(floatText: FloatText, width: nat, n: nat)
    requires Legal(UInt(width, n))
    ensures var item := ToItem(UInt(width, n));
            WellFormed(Msgpack(floatText), item) && ToDoc(Msgpack(floatText), item) == Scalar(Text(Decimal(n)))
  {
    ArgumentRead(n, width);
    UIntCell(floatText, width, n);
    ScalarAtom(Msgpack(floatText), FirstByte(UInt(width, n)), BigEndian(n, width), Text(Decimal(n)));
  }

  /** What the readers make of the argument of a signed number. */
  lemma IntCell(floatText: FloatText, width: nat, n: nat)
    requires Wide(width)
    ensures var tag := ByWidth(width, 0xd0, 0xd1, 0xd2, 0xd3);
            && MsgpackShape(tag) == Leaf(width, true)
            && MsgpackCell(floatText, tag, n) == Text(Decimal(if n < Half(width) then n else n - 2 * Half(width)))
  {
  }

  lemma IntIsRight(floatText: FloatText, width: nat, k: int)
    requires Legal(Int(width, k))
    ensures var item := ToItem(Int(width, k));
            WellFormed(Msgpack(floatText), item) && ToDoc(Msgpack(floatText), item) == Scalar(Text(Decimal(k)))
  {
    var n := if k < 0 then k + 2 * Half(width) else k;
    ArgumentRead(n, width);
    IntCell(floatText, width, n);
    ScalarAtom(Msgpack(floatText), FirstByte(Int(width, k)), BigEndian(n, width), Text(Decimal(k)));
  }

  lemma FloatIsRight(floatText: FloatText, o: Object)
    requires Legal(o) && (o.Float32? || o.Float64?)
    ensures var item := ToItem(o);
            WellFormed(Msgpack(floatText), item) && ToDoc(Msgpack(floatText), item) == Meaning(floatText, o)
  {
    ArgumentRead(o.bits, if o.Float32? then 4 else 8);
    ScalarAtom(Msgpack(floatText), FirstByte(o), ArgumentBytes(o), Meaning(floatText, o).cell);
  }

  lemma TextShape(width: nat, n: nat)
    requires if width == 0 then n < 0x20 else Wide(width) && width < 8
    ensures MsgpackShape(if width == 0 then 0xa0 + n else ByWidth(width, 0xd9, 0xda, 0xdb, 0))
            == Run(width, if width == 0 then n else 0, true)
  {
  }

  lemma TextIsRight(floatText: FloatText, width: nat, text: Bytes)
    requires Legal(Str(width, text))
    ensures var item := ToItem(Str(width, text));
            WellFormed(Msgpack(floatText), item) && IsText(MsgpackShape(item.tag)) && item.Blob? && item.data == text
  {
    TextShape(width, |text|);
    ArgumentRead(|text|, width);
    BlobIsWellFormed(Msgpack(floatText), FirstByte(Str(width, text)), BigEndian(|text|, width), text);
  }

  lemma BinIsRight(floatText: FloatText, width: nat, data: Bytes)
    requires Legal(Bin(width, data))
    ensures var item := ToItem(Bin(width, data));
            WellFormed(Msgpack(floatText), item) && !IsText(MsgpackShape(item.tag)) && item.Blob?
  {
    assert MsgpackShape(FirstByte(Bin(width, data))) == Run(width, 0, false);
    ArgumentRead(|data|, width);
    BlobIsWellFormed(Msgpack(floatText), FirstByte(Bin(width, data)), BigEndian(|data|, width), data);
  }

  /** The first byte of an array or map announces how it is counted. */
  lemma GroupShape(o: Object)
    requires Legal(o) && (o.Array? || o.Map?)
    ensures var shape := MsgpackShape(FirstByte(o)); var count := if o.Map? then |o.items| / 2 else |o.items|;
            shape.Nest? && shape.width == o.width && shape.isMap == o.Map? && (o.width == 0 ==> shape.inline == count)
  {
  }

  lemma GroupIsRight(floatText: FloatText, o: Object)
    requires Legal(o) && (o.Array? || o.Map?) && AllWellFormed(Msgpack(floatText), ToItems(o.items))
    ensures WellFormed(Msgpack(floatText), ToItem(o)) && IsMap(MsgpackShape(FirstByte(o))) == o.Map?
  {
    GroupShape(o);
    ArgumentRead(if o.Map? then |o.items| / 2 else |o.items|, o.width);
    GroupIsWellFormed(Msgpack(floatText), FirstByte(o), ArgumentBytes(o), ToItems(o.items));
  }

  lemma {:induction false} ItemIsRight(floatText: FloatText, o: Object)
    requires Legal(o)
    ensures WellFormed(Msgpack(floatText), ToItem(o)) && ToDoc(Msgpack(floatText), ToItem(o)) == Meaning(floatText, o)
    decreases o, 0
  {
    match o
    case UInt(width, n) => UIntIsRight(floatText, width, n);
    case Int(width, k) => IntIsRight(floatText, width, k);
    case Float32(_) => FloatIsRight(floatText, o);
    case Float64(_) => FloatIsRight(floatText, o);
    case Str(width, text) => TextIsRight(floatText, width, text);
    case Bin(width, data) => BinIsRight(floatText, width, data);
    case Array(_, items) =>
      ItemsAreRight(floatText, items);
      GroupIsRight(floatText, o);
    case Map(_, items) =>
      ItemsAreRight(floatText, items);
      PairsAreRight(floatText, items);
      GroupIsRight(floatText, o);
    case _ => ScalarAtom(Msgpack(floatText), FirstByte(o), [], Meaning(floatText, o).cell);
  }

  lemma {:induction false} ItemsAreRight(floatText: FloatText, items: seq<Object>)
    requires AllLegal(items)
    ensures AllWellFormed(Msgpack(floatText), ToItems(items))
    decreases items, 1
  {
    if items != [] {
      ItemIsRight(floatText, items[0]);
      ItemsAreRight(floatText, items[1..]);
      assert ToItems(items)[1..] == ToItems(items[1..]);
    }
  }

  lemma {:induction false} PairsAreRight(floatText: FloatText, items: seq<Object>)
    requires AllLegal(items) && |items| % 2 == 0
    ensures TextKeys(Msgpack(floatText), ToItems(items)) <==> TextKeyed(items)
    ensures TextKeyed(items) ==> ToEntries(Msgpack(floatText), ToItems(items)) == Pairs(floatText, items)
    decreases items, 1
  {
    if items != [] {
      TwoItems(items);
      KeyIsText(floatText, items[0]);
      ItemIsRight(floatText, items[1]);
      PairsAreRight(floatText, items[2..]);
      FirstPair(Msgpack(floatText), ToItems(items));
    }
  }

  lemma TwoItems(items: seq<Object>)
    requires AllLegal(items) && |items| >= 2
    ensures Legal(items[0]) && Legal(items[1]) && AllLegal(items[2..])
    ensures ToItems(items)[0] == ToItem(items[0]) && ToItems(items)[1] == ToItem(items[1])
    ensures ToItems(items)[2..] == ToItems(items[2..])
  {
    var rest := items[1..];
    assert rest[1..] == items[2..];
    FirstTwo(ToItems(items), ToItem(items[0]), ToItem(rest[0]), ToItems(rest[1..]));
  }

  lemma FirstTwo(all: seq<Item>, first: Item, second: Item, rest: seq<Item>)
    requires all == [first] + ([second] + rest)
    ensures all[0] == first && all[1] == second && all[2..] == rest
  {
  }

  /** Only texts are read as keys. */
  lemma KeyIsText(floatText: FloatText, o: Object)
    requires Legal(o)
    ensures var item := ToItem(o); item.Blob? && IsText(MsgpackShape(item.tag)) <==> o.Str?
    ensures o.Str? ==> ToItem(o).data == o.text
  {
    if o.Str? {
      TextIsRight(floatText, o.width, o.text);
    } else if o.Bin? {
      BinIsRight(floatText, o.width, o.data);
    }
  }

  // ---------------------------------------------------------------- every item is an object

  /** What so many bytes hold. */
  lemma ArgumentFits(arg: Bytes)
    requires Wide(|arg|)
    ensures FromBigEndian(arg) < 2 * Half(|arg|) && BigEndian(FromBigEndian(arg), |arg|) == arg
  {
    Capacities();
    FromBigEndianBound(arg);
    BytesRoundTrip(arg);
  }

  lemma FloatObject(tag: byte, arg: Bytes) returns (o: Object)
    requires (tag == 0xca && |arg| == 4) || (tag == 0xcb && |arg| == 8)
    ensures Legal(o) && ToItem(o) == Atom(tag, arg)
  {
    ArgumentFits(arg);
    o := if tag == 0xca then Float32(FromBigEndian(arg)) else Float64(FromBigEndian(arg));
  }

  lemma UIntObject(tag: byte, arg: Bytes) returns (o: Object)
    requires Wide(|arg|) && tag == ByWidth(|arg|, 0xcc, 0xcd, 0xce, 0xcf)
    ensures Legal(o) && ToItem(o) == Atom(tag, arg)
  {
    ArgumentFits(arg);
    o := UInt(|arg|, FromBigEndian(arg));
  }

  lemma IntObject(tag: byte, arg: Bytes) returns (o: Object)
    requires Wide(|arg|) && tag == ByWidth(|arg|, 0xd0, 0xd1, 0xd2, 0xd3)
    ensures Legal(o) && ToItem(o) == Atom(tag, arg)
  {
    ArgumentFits(arg);
    var n := FromBigEndian(arg);
    o := Int(|arg|, if n < Half(|arg|) then n else n - 2 * Half(|arg|));
    assert ArgumentBytes(o) == BigEndian(n, |arg|);
  }

  lemma AtomObject(tag: byte, arg: Bytes) returns (o: Object)
    requires MsgpackShape(tag).Leaf? && MsgpackShape(tag).width == |arg|
    ensures Legal(o) && ToItem(o) == Atom(tag, arg)
  {
    if tag <= 0x7f {
      o := PositiveFix(tag);
    } else if tag >= 0xe0 {
      o := NegativeFix(tag - 0x100);
    } else if tag == 0xc0 {
      o := Nil;
    } else if tag <= 0xc3 {
      o := Bool(tag == 0xc3);
    } else if tag <= 0xcb {
      o := FloatObject(tag, arg);
    } else if tag <= 0xcf {
      o := UIntObject(tag, arg);
    } else {
      o := IntObject(tag, arg);
    }
  }

  /** The first bytes that announce texts and binaries, by the width of their length. */
  lemma BlobTag(tag: byte, width: nat, length: nat)
    requires var shape := MsgpackShape(tag);
             shape.Run? && shape.width == width && (width == 0 ==> shape.inline == length)
    ensures width == 0 || width == 1 || width == 2 || width == 4
    ensures if MsgpackShape(tag).isText then
              tag == if width == 0 then 0xa0 + length else ByWidth(width, 0xd9, 0xda, 0xdb, 0)
            else
              width > 0 && tag == ByWidth(width, 0xc4, 0xc5, 0xc6, 0)
    ensures width == 0 ==> length < 0x20
  {
  }

  lemma BlobObject(tag: byte, arg: Bytes, data: Bytes) returns (o: Object)
    requires var shape := MsgpackShape(tag);
             shape.Run? && shape.width == |arg| && Argument(shape.width, shape.inline, arg) == |data|
    ensures Legal(o) && ToItem(o) == Blob(tag, arg, data)
  {
    BlobTag(tag, |arg|, |data|);
    if MsgpackShape(tag).isText {
      o := StrOf(tag, arg, data);
    } else {
      o := BinOf(tag, arg, data);
    }
  }

  lemma StrOf(tag: byte, arg: Bytes, data: Bytes) returns (o: Object)
    requires if |arg| == 0 then |data| < 0x20 && tag == 0xa0 + |data|
             else Wide(|arg|) && |arg| < 8 && FromBigEndian(arg) == |data| && tag == ByWidth(|arg|, 0xd9, 0xda, 0xdb, 0)
    ensures Legal(o) && ToItem(o) == Blob(tag, arg, data)
  {
    if |arg| > 0 {
      ArgumentFits(arg);
    }
    o := Str(|arg|, data);
  }

  lemma BinOf(tag: byte, arg: Bytes, data: Bytes) returns (o: Object)
    requires Wide(|arg|) && |arg| < 8 && FromBigEndian(arg) == |data| && tag == ByWidth(|arg|, 0xc4, 0xc5, 0xc6, 0)
    ensures Legal(o) && ToItem(o) == Blob(tag, arg, data)
  {
    ArgumentFits(arg);
    o := Bin(|arg|, data);
  }

  /** The first bytes that announce arrays and maps, by the width of their count. */
  lemma GroupTag(tag: byte, width: nat, count: nat)
    requires var shape := MsgpackShape(tag);
             shape.Nest? && shape.width == width && (width == 0 ==> shape.inline == count)
    ensures width == 0 || width == 2 || width == 4
    ensures tag == if width == 0 then (if MsgpackShape(tag).isMap then 0x80 else 0x90) + count
                   else if MsgpackShape(tag).isMap then ByWidth(width, 0, 0xde, 0xdf, 0)
                   else ByWidth(width, 0, 0xdc, 0xdd, 0)
    ensures width == 0 ==> count < 16
  {
  }

  lemma GroupObject(tag: byte, arg: Bytes, items: seq<Object>) returns (o: Object)
    requires AllLegal(items)
    requires var shape := MsgpackShape(tag);
             && shape.Nest? && shape.width == |arg|
             && |items| == Children(shape.isMap, Argument(shape.width, shape.inline, arg))
    ensures Legal(o) && ToItem(o) == Group(tag, arg, ToItems(items))
  {
    var shape := MsgpackShape(tag);
    var count := Argument(shape.width, shape.inline, arg);
    GroupTag(tag, |arg|, count);
    if shape.isMap {
      o := MapOf(tag, arg, items, count);
    } else {
      o := ArrayOf(tag, arg, items);
    }
  }

  lemma ArrayOf(tag: byte, arg: Bytes, items: seq<Object>) returns (o: Object)
    requires AllLegal(items)
    requires if |arg| == 0 then |items| < 16 && tag == 0x90 + |items|
             else (|arg| == 2 || |arg| == 4) && FromBigEndian(arg) == |items| && tag == ByWidth(|arg|, 0, 0xdc, 0xdd, 0)
    ensures Legal(o) && ToItem(o) == Group(tag, arg, ToItems(items))
  {
    if |arg| > 0 {
      ArgumentFits(arg);
    }
    o := Array(|arg|, items);
  }

  lemma MapOf(tag: byte, arg: Bytes, items: seq<Object>, count: nat) returns (o: Object)
    requires AllLegal(items) && |items| == 2 * count
    requires if |arg| == 0 then count < 16 && tag == 0x80 + count
             else (|arg| == 2 || |arg| == 4) && FromBigEndian(arg) == count && tag == ByWidth(|arg|, 0, 0xde, 0xdf, 0)
    ensures Legal(o) && ToItem(o) == Group(tag, arg, ToItems(items))
  {
    if |arg| > 0 {
      ArgumentFits(arg);
    }
    Halved(|items|, count);
    o := Map(|arg|, items);
  }

  lemma Halved(n: nat, count: nat)
    requires n == 2 * count
    ensures n / 2 == count && n % 2 == 0
  {
  }

  /** Every well-formed item of the readers is an object. */
  lemma {:induction false} ObjectOf(floatText: FloatText, item: Item) returns (o: Object)
    requires WellFormed(Msgpack(floatText), item)
    ensures Legal(o) && ToItem(o) == item
    decreases item, 0
  {
    match item
    case Atom(tag, arg) => o := AtomObject(tag, arg);
    case Blob(tag, arg, data) => o := BlobObject(tag, arg, data);
    case Group(tag, arg, items) =>
      var objects := ObjectsOf(floatText, items);
      o := GroupObject(tag, arg, objects);
  }

  lemma {:induction false} ObjectsOf(floatText: FloatText, items: seq<Item>) returns (objects: seq<Object>)
    requires AllWellFormed(Msgpack(floatText), items)
    ensures AllLegal(objects) && ToItems(objects) == items
    decreases items, 1
  {
    objects := [];
    if items != [] {
      var first := ObjectOf(floatText, items[0]);
      var rest := ObjectsOf(floatText, items[1..]);
      objects := [first] + rest;
      assert objects[1..] == rest;
    }
  }

  // ---------------------------------------------------------------- what the readers do

  /** The bytes of an object lie in the payload from `i` up to `j`. */
  ghost predicate ObjectAt(p: Bytes, i: nat, j: nat, o: Object) {
    Legal(o) && At(p, i, Serialize(o)) && j == i + |Serialize(o)|
  }

  lemma ObjectIsItem(floatText: FloatText, p: Bytes, i: nat, j: nat, o: Object)
    requires ObjectAt(p, i, j, o)
    ensures WellFormed(Msgpack(floatText), ToItem(o)) && At(p, i, Encode(ToItem(o))) && j == i + |Encode(ToItem(o))|
    ensures Depth(ToItem(o)) == Nesting(o) && ToDoc(Msgpack(floatText), ToItem(o)) == Meaning(floatText, o)
    ensures i < |p| && p[i] == FirstByte(o)
  {
    SameBytes(o);
    ItemIsRight(floatText, o);
    ItemAt(p, i, ToItem(o));
  }

  lemma ItemIsObject(floatText: FloatText, p: Bytes, i: nat, j: nat, item: Item) returns (o: Object)
    requires WellFormed(Msgpack(floatText), item) && At(p, i, Encode(item)) && j == i + |Encode(item)|
    ensures ObjectAt(p, i, j, o) && Nesting(o) == Depth(item)
    ensures Meaning(floatText, o) == ToDoc(Msgpack(floatText), item)
  {
    o := ObjectOf(floatText, item);
    SameBytes(o);
    ItemIsRight(floatText, o);
  }

  /** The skipper takes exactly the objects that are nested at most 256 deep, to their last byte. */
  lemma SkipIff(floatText: FloatText, p: Bytes, i: nat, depth: nat, j: nat)
    requires i <= |p|
    ensures SkipItems(Msgpack(floatText), p, i, 1, depth) == Some(j)
            <==> exists o :: ObjectAt(p, i, j, o) && depth + Nesting(o) <= 256
  {
    var format := Msgpack(floatText);
    SkipIffItem(format, p, i, depth, j);
    if item :| ItemsFill(format, p, i, j, [item], depth) {
      OneItem(format, p, i, j, item, depth);
      var o := ItemIsObject(floatText, p, i, j, item);
      assert ObjectAt(p, i, j, o) && depth + Nesting(o) <= 256;
    }
    forall o | ObjectAt(p, i, j, o) && depth + Nesting(o) <= 256 ensures SkipItems(format, p, i, 1, depth) == Some(j) {
      ObjectIsItem(floatText, p, i, j, o);
      OneItem(format, p, i, j, ToItem(o), depth);
    }
  }

  /** A value is read exactly when a scalar lies there, and the text is what the scalar means. */
  lemma ReadIff(floatText: FloatText, p: Bytes, i: nat, cell: Cell, j: nat)
    requires i < |p|
    ensures ScalarAt(Msgpack(floatText), p, i + 1, p[i]) == Read(cell, j)
            <==> exists o :: ObjectAt(p, i, j, o) && Meaning(floatText, o) == Scalar(cell)
  {
    var format := Msgpack(floatText);
    ScalarIffItem(format, p, i, cell, j);
    if item :| WellFormed(format, item) && At(p, i, Encode(item)) && j == i + |Encode(item)|
               && ToDoc(format, item) == Scalar(cell) {
      var o := ItemIsObject(floatText, p, i, j, item);
    }
    forall o | ObjectAt(p, i, j, o) && Meaning(floatText, o) == Scalar(cell)
      ensures ScalarAt(format, p, i + 1, p[i]) == Read(cell, j)
    {
      ObjectIsItem(floatText, p, i, j, o);
    }
  }

  // ---------------------------------------------------------------- rows

  /** The entries that a requested path goes through have texts as keys, and no value is nested too deep. */
  predicate Fetchable(items: seq<Object>, depth: nat, paths: seq<Path>)
    decreases items, 1
  {
    items != [] ==>
      |items| >= 2 && items[0].Str? && FetchableValue(items[1], items[0].text, depth, paths)
      && Fetchable(items[2..], depth, paths)
  }

  predicate FetchableValue(o: Object, key: Bytes, depth: nat, paths: seq<Path>)
    decreases o, 0
  {
    Nesting(o) <= 256 && (o.Map? && GoesThrough(paths, depth, key) ==> Fetchable(o.items, depth + 1, paths))
  }

  lemma {:induction false} FetchableIsReadable(floatText: FloatText, items: seq<Object>, depth: nat, paths: seq<Path>)
    requires AllLegal(items) && Fetchable(items, depth, paths)
    ensures Readable(Msgpack(floatText), ToItems(items), depth, paths) && TextKeyed(items) && |items| % 2 == 0
    decreases items, 1
  {
    if items != [] {
      TwoItems(items);
      ItemIsRight(floatText, items[0]);
      KeyIsText(floatText, items[0]);
      ValueIsReadable(floatText, items[1], items[0].text, depth, paths);
      FetchableIsReadable(floatText, items[2..], depth, paths);
      ReadableStep(Msgpack(floatText), ToItems(items), depth, paths);
    }
  }

  lemma {:induction false} ValueIsReadable(floatText: FloatText, o: Object, key: Bytes, depth: nat, paths: seq<Path>)
    requires Legal(o) && FetchableValue(o, key, depth, paths)
    ensures ReadableValue(Msgpack(floatText), ToItem(o), key, depth, paths)
    decreases o, 0
  {
    ItemIsRight(floatText, o);
    SameBytes(o);
    if o.Array? || o.Map? {
      GroupShape(o);
    }
    if o.Map? && GoesThrough(paths, depth, key) {
      FetchableIsReadable(floatText, o.items, depth + 1, paths);
    }
  }

  /** Decoding the bytes of a map, whatever follows them, puts into each column the last text at its path in the meaning
      of the map, which is the only one when no key is repeated, and leaves all other columns. */
  lemma DecodeObject(floatText: FloatText, o: Object, suffix: Bytes, paths: seq<Path>, columns: seq<nat>,
                     row: seq<Cell>)
    requires Legal(o) && o.Map? && Fetchable(o.items, 0, paths)
    requires Compatible(paths) && Columns(columns, paths, |row|)
    ensures var out := DecodeRow(Msgpack(floatText), Serialize(o) + suffix, paths, columns, row);
            && (forall f | 0 <= f < |paths| :: out[columns[f]] == LastLookup(Meaning(floatText, o), paths[f]))
            && (forall c | 0 <= c < |row| && c !in columns :: out[c] == row[c])
    ensures DistinctKeys(Meaning(floatText, o)) ==>
              forall f | 0 <= f < |paths| ::
                LastLookup(Meaning(floatText, o), paths[f]) == Lookup(Meaning(floatText, o), paths[f])
  {
    FetchableIsReadable(floatText, o.items, 0, paths);
    PairsAreRight(floatText, o.items);
    ItemIsRight(floatText, o);
    SameBytes(o);
    GroupShape(o);
    DecodeIsLast(Msgpack(floatText), ToItem(o), suffix, paths, columns, row);
    if DistinctKeys(Meaning(floatText, o)) {
      LastIsLookup(Meaning(floatText, o), paths);
    }
  }

  /** Of a payload that does not begin with a map nothing is read: its columns are null. */
  lemma OnlyMaps(floatText: FloatText, p: Bytes, paths: seq<Path>, columns: seq<nat>, row: seq<Cell>)
    requires InRange(columns, paths, row)
    requires p != [] ==> !(0x80 <= p[0] <= 0x8f || p[0] == 0xde || p[0] == 0xdf)
    ensures forall c | 0 <= c < |row| ::
              DecodeRow(Msgpack(floatText), p, paths, columns, row)[c] == if c in columns then Null else row[c]
  {
  }
}
