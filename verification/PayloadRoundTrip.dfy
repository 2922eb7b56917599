/** What the encoders of src/nats_scan.cpp write, the readers of src/nats_message_decode.cpp read back. */
module PayloadRoundTrip {
  import opened Bytes
  import opened Projection
  import opened Wire
  import opened Formats
  import opened Extraction
  import opened FieldPaths
  import opened StructuredEncoder

  function FormatOf(cbor: bool, floatText: FloatText): Format {
    if cbor then Cbor(floatText) else Msgpack(floatText)
  }

  /** The document that a value stands for; a list is no scalar and no map. */
  function DocOf(floatText: FloatText, value: Value): Doc
    decreases value, 0
  {
    match value
    case NullValue => Scalar(Null)
    case Boolean(flag) => Scalar(Text(if flag then TRUE_TEXT else FALSE_TEXT))
    case Signed(number) => Scalar(Text(Decimal(number)))
    case Unsigned(count) => Scalar(Text(Decimal(count)))
    case Str(bytes) => Scalar(Text(bytes))
    case Float(bits) => Scalar(Text(floatText(Double, bits)))
    case List(_) => Opaque
    case Struct(fields) => Node(FieldEntries(floatText, fields))
  }

  function FieldEntries(floatText: FloatText, fields: seq<Field>): seq<Entry>
    decreases fields, 1
  {
    if fields == [] then []
    else [Entry(fields[0].name, DocOf(floatText, fields[0].value))] + FieldEntries(floatText, fields[1..])
  }

  function ColumnEntries(floatText: FloatText, columns: seq<Column>): seq<Entry> {
    if columns == [] then []
    else [Entry(columns[0].name, DocOf(floatText, columns[0].value))] + ColumnEntries(floatText, columns[1..])
  }

  // ---------------------------------------------------------------- values that fit the formats

  const TWO32: nat := 0x1_0000_0000

  /** The largest element count plus one that the head of a list or map can hold. */
  function CountLimit(cbor: bool): nat { if cbor then TWO32 else 0x1_0000 }

  /** Texts and containers whose sizes their heads can hold, 64-bit numbers, and for CBOR no null: what is written for
      a null there is not null (section 3.4 of RFC 8949) but a tag. */
  predicate Sized(cbor: bool, value: Value)
    decreases value, 0
  {
    match value
    case NullValue => !cbor
    case Boolean(_) => true
    case Signed(number) => SignedFits(number)
    case Unsigned(count) => count < TWO64
    case Str(bytes) => |bytes| < TWO32
    case Float(bits) => bits < TWO64
    case List(children) => |children| < CountLimit(cbor) && AllSized(cbor, children)
    case Struct(fields) => |fields| < CountLimit(cbor) && FieldsSized(cbor, fields)
  }

  predicate AllSized(cbor: bool, children: seq<Value>)
    decreases children, 1
  {
    children != [] ==> Sized(cbor, children[0]) && AllSized(cbor, children[1..])
  }

  predicate FieldsSized(cbor: bool, fields: seq<Field>)
    decreases fields, 1
  {
    fields != [] ==> |fields[0].name| < TWO32 && Sized(cbor, fields[0].value) && FieldsSized(cbor, fields[1..])
  }

  /** What a column can hold at all: texts below 4 GB, 64-bit floats, and integers that the encoders do not refuse. */
  predicate Representable(value: Value)
    decreases value, 0
  {
    match value
    case Signed(number) => SignedFits(number)
    case Unsigned(count) => count < TWO64
    case Str(bytes) => |bytes| < TWO32
    case Float(bits) => bits < TWO64
    case List(children) => AllRepresentable(children)
    case Struct(fields) => FieldsRepresentable(fields)
    case _ => true
  }

  predicate AllRepresentable(children: seq<Value>)
    decreases children, 1
  {
    children != [] ==> Representable(children[0]) && AllRepresentable(children[1..])
  }

  predicate FieldsRepresentable(fields: seq<Field>)
    decreases fields, 1
  {
    fields != [] ==> |fields[0].name| < TWO32 && Representable(fields[0].value) && FieldsRepresentable(fields[1..])
  }

  // ---------------------------------------------------------------- single items

  lemma HeadArgument(n: nat, width: nat)
    requires n < Capacity(width)
    ensures FromBigEndian(BigEndian(n, width)) == n
  {
    BigEndianRoundTrip(n, width);
  }

  lemma OneByte(n: byte)
    ensures FromBigEndian([n]) == n
  {
    assert [n][..0] == [];
  }

  /** The head of a text announces its length. */
  ghost predicate TextHead(shape: Shape, arg: Bytes, n: nat) {
    IsText(shape) && shape.width == |arg| && Argument(shape.width, shape.inline, arg) == n
  }

  lemma MsgpackText(s: Bytes)
    requires |s| < TWO32
    ensures var item := TextItem(false, s); TextHead(MsgpackShape(item.tag), item.arg, |s|)
  {
    var n, item := |s|, TextItem(false, s);
    if n < 32 {
      assert item.tag == 0xa0 + n;
    } else if n <= 0xff {
      OneByte(n);
    } else if n <= 0xffff {
      WideArgument(n, 2, item.arg);
    } else {
      WideArgument(n, 4, item.arg);
    }
  }

  lemma CborTextTag(tag: byte, info: nat)
    requires tag == 0x60 + info && info < 28
    ensures CborShape(tag) == Run(CborWidth(info), info, true)
  {
    assert tag / 32 == 3 && tag % 32 == info;
  }

  lemma CborText(s: Bytes)
    requires |s| < TWO32
    ensures var item := TextItem(true, s); TextHead(CborShape(item.tag), item.arg, |s|)
  {
    var n, item := |s|, TextItem(true, s);
    if n < 24 {
      CborTextTag(item.tag, n);
    } else if n <= 0xff {
      CborTextTag(item.tag, 24);
      OneByte(n);
    } else if n <= 0xffff {
      CborTextTag(item.tag, 25);
      WideArgument(n, 2, item.arg);
    } else {
      CborTextTag(item.tag, 26);
      WideArgument(n, 4, item.arg);
    }
  }

  lemma WideArgument(n: nat, width: nat, arg: Bytes)
    requires arg == BigEndian(n, width) && ((width == 2 && n < 0x1_0000) || (width == 4 && n < TWO32))
    ensures |arg| == width && FromBigEndian(arg) == n
  {
    Capacities();
    HeadArgument(n, width);
  }

  lemma TextItemRight(cbor: bool, floatText: FloatText, s: Bytes)
    requires |s| < TWO32
    ensures var item, format := TextItem(cbor, s), FormatOf(cbor, floatText);
            && item.Blob? && item.data == s && IsText(format.shape(item.tag)) && WellFormed(format, item)
            && Depth(item) == 0
  {
    if cbor {
      CborText(s);
    } else {
      MsgpackText(s);
    }
  }

  lemma MsgpackSigned(floatText: FloatText, fast: bool, number: int)
    requires SignedFits(number)
    ensures var item, format := SignedItem(false, fast, number), Msgpack(floatText);
            WellFormed(format, item) && ToDoc(format, item) == Scalar(Text(Decimal(number)))
  {
    var item := SignedItem(false, fast, number);
    if 0 <= number < 128 {
      assert item.tag == number;
    } else if -32 <= number < 128 {
      assert item.tag == number + 256;
    } else {
      Capacities();
      var pattern := number % TWO64;
      HeadArgument(pattern, 8);
      assert pattern == if number < 0 then number + TWO64 else number;
      assert AsSigned(pattern, TWO63) == number;
    }
  }

  lemma CborNonNegative(floatText: FloatText, fast: bool, number: nat)
    requires number < TWO63
    ensures var item, format := SignedItem(true, fast, number), Cbor(floatText);
            WellFormed(format, item) && ToDoc(format, item) == Scalar(Text(Decimal(number)))
  {
    Capacities();
    if number >= 24 {
      HeadArgument(number, 8);
    } else {
      assert SignedItem(true, fast, number).tag == number;
    }
  }

  lemma CborBelowZero(floatText: FloatText, fast: bool, n: nat)
    requires n < TWO63
    ensures var item, format := SignedItem(true, fast, -1 - n), Cbor(floatText);
            WellFormed(format, item) && ToDoc(format, item) == Scalar(Text(Decimal(-1 - n)))
  {
    if !fast && n < 24 {
      assert SignedItem(true, fast, -1 - n) == Atom(0x20 + n, []);
      CborNegativeAtom(floatText, 0x20 + n, [], n);
    } else {
      assert SignedItem(true, fast, -1 - n) == Atom(0x3b, BigEndian(n, 8));
      Capacities();
      HeadArgument(n, 8);
      CborNegativeAtom(floatText, 0x3b, BigEndian(n, 8), n);
    }
  }

  lemma CborNegativeAtom(floatText: FloatText, tag: byte, arg: Bytes, n: nat)
    requires n < TWO63 && tag / 32 == 1
    requires if arg == [] then tag % 32 == n < 24 else tag % 32 == 27 && |arg| == 8 && FromBigEndian(arg) == n
    ensures var item, format := Atom(tag, arg), Cbor(floatText);
            WellFormed(format, item) && ToDoc(format, item) == Scalar(Text(Decimal(-1 - n)))
  {
    NegativeText(floatText, tag, FromBigEndian(arg), n);
    ScalarAtom(Cbor(floatText), tag, arg, Text(Decimal(-1 - n)));
  }

  /** The scalar that an integer item denotes, whichever path wrote it. */
  lemma SignedItemRight(cbor: bool, fast: bool, floatText: FloatText, number: int)
    requires SignedFits(number)
    ensures var item, format := SignedItem(cbor, fast, number), FormatOf(cbor, floatText);
            WellFormed(format, item) && ToDoc(format, item) == Scalar(Text(Decimal(number)))
  {
    if cbor && number >= 0 {
      CborNonNegative(floatText, fast, number);
    } else if cbor {
      CborBelowZero(floatText, fast, -(number + 1));
    } else {
      MsgpackSigned(floatText, fast, number);
    }
  }

  lemma UnsignedItemRight(cbor: bool, floatText: FloatText, count: nat)
    requires count < TWO64
    ensures var item, format := UnsignedItem(cbor, count), FormatOf(cbor, floatText);
            WellFormed(format, item) && ToDoc(format, item) == Scalar(Text(Decimal(count)))
  {
    Capacities();
    if count >= 24 {
      HeadArgument(count, 8);
    }
  }

  lemma FloatItemRight(cbor: bool, floatText: FloatText, bits: nat)
    requires bits < TWO64
    ensures var item, format := ItemOf(cbor, false, Float(bits)), FormatOf(cbor, floatText);
            && ItemOf(cbor, true, Float(bits)) == item
            && WellFormed(format, item) && ToDoc(format, item) == Scalar(Text(floatText(Double, bits)))
  {
    Capacities();
    HeadArgument(bits, 8);
  }

  /** The shape that the head of an array or map of a size it can hold announces. */
  lemma MsgpackCount(isMap: bool, n: nat, items: seq<Item>)
    requires n < 0x1_0000
    ensures var item := CountItem(false, isMap, n, items); var shape := MsgpackShape(item.tag);
            && shape.Nest? && shape.isMap == isMap && shape.width == |item.arg|
            && Argument(shape.width, shape.inline, item.arg) == n
  {
    if n >= 16 {
      Capacities();
      HeadArgument(n, 2);
    }
  }

  lemma CborCount(isMap: bool, n: nat, items: seq<Item>)
    requires n < TWO32
    ensures var item := CountItem(true, isMap, n, items); var shape := CborShape(item.tag);
            && shape.Nest? && shape.isMap == isMap && shape.width == |item.arg|
            && Argument(shape.width, shape.inline, item.arg) == n
  {
    var item := CountItem(true, isMap, n, items);
    var major := if isMap then 5 else 4;
    assert item.tag / 32 == major;
    if n < 24 {
      assert item.tag % 32 == n;
    } else {
      Capacities();
      if n <= 0xff {
        assert item.tag % 32 == 24;
        HeadArgument(n, 1);
      } else if n <= 0xffff {
        assert item.tag % 32 == 25;
        HeadArgument(n, 2);
      } else {
        assert item.tag % 32 == 26;
        HeadArgument(n, 4);
      }
    }
  }

  /** The count that a head announces: its field holds two bytes in MessagePack, four in CBOR. */
  function Kept(cbor: bool, n: nat): (m: nat)
    ensures m <= n && (n < CountLimit(cbor) ==> m == n)
  {
    if !cbor && n < 16 then n else n % CountLimit(cbor)
  }

  /** The head of an array or map announces its size as far as the count field holds it. */
  lemma CountHead(cbor: bool, floatText: FloatText, isMap: bool, n: nat, items: seq<Item>)
    ensures var item := CountItem(cbor, isMap, n, items); var shape := FormatOf(cbor, floatText).shape(item.tag);
            && shape.Nest? && shape.isMap == isMap && shape.width == |item.arg|
            && Argument(shape.width, shape.inline, item.arg) == Kept(cbor, n)
  {
    if n < CountLimit(cbor) {
      if cbor {
        CborCount(isMap, n, items);
      } else {
        MsgpackCount(isMap, n, items);
      }
    } else {
      Capacities();
      BigEndianWraps(n, if cbor then 4 else 2);
    }
  }

  /** An array or map is well-formed exactly when its count fits the head. */
  lemma CountItemRight(cbor: bool, floatText: FloatText, isMap: bool, n: nat, items: seq<Item>)
    requires |items| == Children(isMap, n) && AllWellFormed(FormatOf(cbor, floatText), items)
    ensures var item, format := CountItem(cbor, isMap, n, items), FormatOf(cbor, floatText);
            && item.Group? && item.items == items && IsMap(format.shape(item.tag)) == isMap
            && (WellFormed(format, item) <==> n < CountLimit(cbor))
  {
    var item, format := CountItem(cbor, isMap, n, items), FormatOf(cbor, floatText);
    CountHead(cbor, floatText, isMap, n, items);
    GroupRight(format, item, isMap, n, Kept(cbor, n));
  }

  lemma GroupRight(format: Format, item: Item, isMap: bool, n: nat, announced: nat)
    requires item.Group? && |item.items| == Children(isMap, n) && AllWellFormed(format, item.items)
    requires var shape := format.shape(item.tag);
             && shape.Nest? && shape.isMap == isMap && shape.width == |item.arg|
             && Argument(shape.width, shape.inline, item.arg) == announced
    ensures WellFormed(format, item) <==> n == announced
  {
  }

  // ---------------------------------------------------------------- values

  /** Every value is written as a well-formed item that denotes its document, on either path. */
  lemma {:induction false} ItemRight(cbor: bool, fast: bool, floatText: FloatText, value: Value)
    requires Sized(cbor, value)
    ensures var item, format := ItemOf(cbor, fast, value), FormatOf(cbor, floatText);
            WellFormed(format, item) && ToDoc(format, item) == DocOf(floatText, value)
    decreases value, 0
  {
    match value
    case NullValue =>
    case Boolean(_) =>
    case Signed(number) => SignedItemRight(cbor, fast, floatText, number);
    case Unsigned(count) => UnsignedItemRight(cbor, floatText, count);
    case Str(bytes) => TextItemRight(cbor, floatText, bytes);
    case Float(bits) => FloatItemRight(cbor, floatText, bits);
    case List(children) =>
      ItemsRight(cbor, floatText, children);
      CountItemRight(cbor, floatText, false, |children|, ItemsOf(cbor, children));
    case Struct(fields) =>
      FieldsRight(cbor, floatText, fields);
      CountItemRight(cbor, floatText, true, |fields|, FieldItems(cbor, fields));
  }

  lemma {:induction false} ItemsRight(cbor: bool, floatText: FloatText, children: seq<Value>)
    requires AllSized(cbor, children)
    ensures AllWellFormed(FormatOf(cbor, floatText), ItemsOf(cbor, children))
    decreases children, 1
  {
    if children != [] {
      ItemRight(cbor, false, floatText, children[0]);
      ItemsRight(cbor, floatText, children[1..]);
      assert ItemsOf(cbor, children)[1..] == ItemsOf(cbor, children[1..]);
    }
  }

  lemma PairWellFormed(format: Format, key: Item, value: Item, rest: seq<Item>)
    requires WellFormed(format, key) && WellFormed(format, value) && AllWellFormed(format, rest)
    ensures AllWellFormed(format, [key, value] + rest)
  {
    var items := [key, value] + rest;
    assert items[1..] == [value] + rest && items[1..][1..] == rest;
  }

  lemma PairEntries(format: Format, key: Item, value: Item, rest: seq<Item>)
    requires key.Blob? && IsText(format.shape(key.tag)) && TextKeys(format, rest)
    ensures TextKeys(format, [key, value] + rest)
    ensures ToEntries(format, [key, value] + rest)
            == [Entry(key.data, ToDoc(format, value))] + ToEntries(format, rest)
  {
    assert ([key, value] + rest)[2..] == rest;
  }

  lemma {:induction false} FieldsRight(cbor: bool, floatText: FloatText, fields: seq<Field>)
    requires FieldsSized(cbor, fields)
    ensures var items, format := FieldItems(cbor, fields), FormatOf(cbor, floatText);
            AllWellFormed(format, items) && TextKeys(format, items)
            && ToEntries(format, items) == FieldEntries(floatText, fields)
    decreases fields, 1
  {
    if fields != [] {
      var format := FormatOf(cbor, floatText);
      var key, value := TextItem(cbor, fields[0].name), ItemOf(cbor, false, fields[0].value);
      TextItemRight(cbor, floatText, fields[0].name);
      ItemRight(cbor, false, floatText, fields[0].value);
      FieldsRight(cbor, floatText, fields[1..]);
      PairWellFormed(format, key, value, FieldItems(cbor, fields[1..]));
      PairEntries(format, key, value, FieldItems(cbor, fields[1..]));
    }
  }

  /** Of what a column can hold, exactly the sized values are written as well-formed items that denote them. */
  lemma ItemRightIff(cbor: bool, fast: bool, floatText: FloatText, value: Value)
    requires Representable(value)
    ensures var item, format := ItemOf(cbor, fast, value), FormatOf(cbor, floatText);
            WellFormed(format, item) && ToDoc(format, item) == DocOf(floatText, value) <==> Sized(cbor, value)
  {
    if WellFormed(FormatOf(cbor, floatText), ItemOf(cbor, fast, value)) {
      OnlySized(cbor, fast, floatText, value);
    }
    if Sized(cbor, value) {
      ItemRight(cbor, fast, floatText, value);
    }
  }

  /** In CBOR the byte for null is a tag, not an item of its own. */
  lemma NullIsTag(floatText: FloatText)
    ensures Cbor(floatText).shape(0xc0) == Tagged(0) && !WellFormed(Cbor(floatText), NULL_ITEM)
  {
  }

  lemma {:induction false} OnlySized(cbor: bool, fast: bool, floatText: FloatText, value: Value)
    requires Representable(value) && WellFormed(FormatOf(cbor, floatText), ItemOf(cbor, fast, value))
    ensures Sized(cbor, value)
    decreases value, 0
  {
    match value
    case NullValue => NullIsTag(floatText);
    case List(children) =>
      CountHead(cbor, floatText, false, |children|, ItemsOf(cbor, children));
      OnlyAllSized(cbor, floatText, children);
    case Struct(fields) =>
      CountHead(cbor, floatText, true, |fields|, FieldItems(cbor, fields));
      OnlyFieldsSized(cbor, floatText, fields);
    case _ =>
  }

  lemma {:induction false} OnlyAllSized(cbor: bool, floatText: FloatText, children: seq<Value>)
    requires AllRepresentable(children) && AllWellFormed(FormatOf(cbor, floatText), ItemsOf(cbor, children))
    ensures AllSized(cbor, children)
    decreases children, 1
  {
    if children != [] {
      var items := ItemsOf(cbor, children);
      assert items[1..] == ItemsOf(cbor, children[1..]);
      OnlySized(cbor, false, floatText, children[0]);
      OnlyAllSized(cbor, floatText, children[1..]);
    }
  }

  lemma {:induction false} OnlyFieldsSized(cbor: bool, floatText: FloatText, fields: seq<Field>)
    requires FieldsRepresentable(fields) && AllWellFormed(FormatOf(cbor, floatText), FieldItems(cbor, fields))
    ensures FieldsSized(cbor, fields)
    decreases fields, 1
  {
    if fields != [] {
      var items := FieldItems(cbor, fields);
      assert items[1..][1..] == FieldItems(cbor, fields[1..]);
      assert AllWellFormed(FormatOf(cbor, floatText), items[1..]);
      OnlySized(cbor, false, floatText, fields[0].value);
      OnlyFieldsSized(cbor, floatText, fields[1..]);
    }
  }

  /** The two paths write different bytes for small negative CBOR integers only, and never a different value. */
  lemma PathsAgree(cbor: bool, floatText: FloatText, value: Value)
    requires HasVectorForm(value) && Sized(cbor, value)
    ensures var format := FormatOf(cbor, floatText);
            ToDoc(format, ItemOf(cbor, true, value)) == ToDoc(format, ItemOf(cbor, false, value))
    ensures ItemOf(cbor, true, value) != ItemOf(cbor, false, value)
            <==> cbor && value.Signed? && -24 <= value.number < 0
  {
    ItemRight(cbor, true, floatText, value);
    ItemRight(cbor, false, floatText, value);
  }

  lemma {:induction false} ValueReadable(cbor: bool, fast: bool, floatText: FloatText, value: Value, key: Bytes,
                                         depth: nat, paths: seq<Path>)
    requires Sized(cbor, value) && Depth(ItemOf(cbor, fast, value)) <= MAX_DECODE_DEPTH
    ensures ReadableValue(FormatOf(cbor, floatText), ItemOf(cbor, fast, value), key, depth, paths)
    decreases value, 0
  {
    ItemRight(cbor, fast, floatText, value);
    match value
    case List(children) =>
      ItemsRight(cbor, floatText, children);
      CountItemRight(cbor, floatText, false, |children|, ItemsOf(cbor, children));
    case Struct(fields) =>
      FieldsReadable(cbor, floatText, fields, depth + 1, paths);
    case _ =>
  }

  lemma PairReadable(format: Format, key: Item, value: Item, rest: seq<Item>, depth: nat, paths: seq<Path>)
    requires key.Blob? && IsText(format.shape(key.tag)) && WellFormed(format, key)
    requires ReadableValue(format, value, key.data, depth, paths) && Readable(format, rest, depth, paths)
    ensures Readable(format, [key, value] + rest, depth, paths)
  {
    assert ([key, value] + rest)[2..] == rest;
    ReadableStep(format, [key, value] + rest, depth, paths);
  }

  lemma PairDepth(key: Item, value: Item, rest: seq<Item>)
    ensures Depth(value) <= DepthAll([key, value] + rest) && DepthAll(rest) <= DepthAll([key, value] + rest)
  {
    var items := [key, value] + rest;
    assert items[1..] == [value] + rest && items[1..][1..] == rest;
  }

  lemma {:induction false} FieldsReadable(cbor: bool, floatText: FloatText, fields: seq<Field>, depth: nat,
                                          paths: seq<Path>)
    requires FieldsSized(cbor, fields) && DepthAll(FieldItems(cbor, fields)) <= MAX_DECODE_DEPTH
    ensures Readable(FormatOf(cbor, floatText), FieldItems(cbor, fields), depth, paths)
    decreases fields, 1
  {
    if fields != [] {
      var key, value := TextItem(cbor, fields[0].name), ItemOf(cbor, false, fields[0].value);
      var rest := FieldItems(cbor, fields[1..]);
      PairDepth(key, value, rest);
      TextItemRight(cbor, floatText, fields[0].name);
      ValueReadable(cbor, false, floatText, fields[0].value, fields[0].name, depth, paths);
      FieldsReadable(cbor, floatText, fields[1..], depth, paths);
      PairReadable(FormatOf(cbor, floatText), key, value, rest, depth, paths);
    }
  }

  // ---------------------------------------------------------------- rows

  /** A column that can be read back: sized for the format and nested no deeper than the readers skip. */
  predicate Publishable(cbor: bool, c: Column) {
    |c.name| < TWO32 && Sized(cbor, c.value) && Depth(ItemOf(cbor, Fast(c), c.value)) <= MAX_DECODE_DEPTH
  }

  predicate AllPublishable(cbor: bool, columns: seq<Column>) {
    forall c | c in columns :: Publishable(cbor, c)
  }

  lemma {:induction false} ColumnsRight(cbor: bool, floatText: FloatText, columns: seq<Column>, paths: seq<Path>)
    requires AllPublishable(cbor, columns)
    ensures var items, format := ColumnItems(cbor, columns), FormatOf(cbor, floatText);
            && AllWellFormed(format, items) && Readable(format, items, 0, paths) && TextKeys(format, items)
            && ToEntries(format, items) == ColumnEntries(floatText, columns)
  {
    if columns != [] {
      var c, format := columns[0], FormatOf(cbor, floatText);
      assert c in columns;
      var key, value, rest := TextItem(cbor, c.name), ItemOf(cbor, Fast(c), c.value), ColumnItems(cbor, columns[1..]);
      TextItemRight(cbor, floatText, c.name);
      ItemRight(cbor, Fast(c), floatText, c.value);
      ValueReadable(cbor, Fast(c), floatText, c.value, c.name, 0, paths);
      ColumnsRight(cbor, floatText, columns[1..], paths);
      PairWellFormed(format, key, value, rest);
      PairReadable(format, key, value, rest, 0, paths);
      PairEntries(format, key, value, rest);
    }
  }

  /** The item that a row's bytes begin with. */
  function KeptRow(cbor: bool, columns: seq<Column>): Item {
    var row := RowItem(cbor, columns);
    Group(row.tag, row.arg, ColumnItems(cbor, columns[..Kept(cbor, |columns|)]))
  }

  lemma {:induction false} ColumnsSplit(cbor: bool, columns: seq<Column>, m: nat)
    requires m <= |columns|
    ensures ColumnItems(cbor, columns) == ColumnItems(cbor, columns[..m]) + ColumnItems(cbor, columns[m..])
  {
    if m == 0 {
      assert columns[..0] == [] && columns[0..] == columns;
    } else {
      ColumnsSplit(cbor, columns[1..], m - 1);
      assert columns[1..][..m - 1] == columns[..m][1..] && columns[1..][m - 1..] == columns[m..];
    }
  }

  lemma GroupConcat(tag: byte, arg: Bytes, first: seq<Item>, others: seq<Item>)
    ensures Encode(Group(tag, arg, first + others)) == Encode(Group(tag, arg, first)) + EncodeAll(others)
  {
    EncodeConcat(first, others);
    assert [tag] + arg + (EncodeAll(first) + EncodeAll(others)) == ([tag] + arg + EncodeAll(first)) + EncodeAll(others);
  }

  /** The bytes of a row begin with the map of the columns that its head announces. */
  lemma RowBytes(cbor: bool, columns: seq<Column>) returns (suffix: Bytes)
    ensures Encode(RowItem(cbor, columns)) == Encode(KeptRow(cbor, columns)) + suffix
  {
    var m, row := Kept(cbor, |columns|), RowItem(cbor, columns);
    var first, others := ColumnItems(cbor, columns[..m]), ColumnItems(cbor, columns[m..]);
    ColumnsSplit(cbor, columns, m);
    assert row == Group(row.tag, row.arg, first + others);
    GroupConcat(row.tag, row.arg, first, others);
    suffix := EncodeAll(others);
  }

  lemma KeptRowRight(cbor: bool, floatText: FloatText, columns: seq<Column>)
    requires AllPublishable(cbor, columns[..Kept(cbor, |columns|)])
    ensures var row, format := KeptRow(cbor, columns), FormatOf(cbor, floatText);
            IsMap(format.shape(row.tag)) && WellFormed(format, row)
  {
    ColumnsRight(cbor, floatText, columns[..Kept(cbor, |columns|)], []);
    CountHead(cbor, floatText, true, |columns|, ColumnItems(cbor, columns));
  }

  // ---------------------------------------------------------------- round trips

  /** Dotted paths into an encoded row give the lookup of the path in the row itself, as far as its head counts. */
  lemma RowDecodes(cbor: bool, floatText: FloatText, columns: seq<Column>, paths: seq<Path>, outputs: seq<nat>,
                   row: seq<Cell>)
    requires var kept := columns[..Kept(cbor, |columns|)];
             AllPublishable(cbor, kept) && DistinctEntries(ColumnEntries(floatText, kept))
    requires Compatible(paths) && Columns(outputs, paths, |row|)
    ensures var out := DecodeRow(FormatOf(cbor, floatText), Encode(RowItem(cbor, columns)), paths, outputs, row);
            var doc := Node(ColumnEntries(floatText, columns[..Kept(cbor, |columns|)]));
            && (forall f | 0 <= f < |paths| :: out[outputs[f]] == Lookup(doc, paths[f]))
            && (forall c | 0 <= c < |row| && c !in outputs :: out[c] == row[c])
  {
    var suffix := RowBytes(cbor, columns);
    KeptRowRight(cbor, floatText, columns);
    ColumnsRight(cbor, floatText, columns[..Kept(cbor, |columns|)], paths);
    DecodeIsLookup(FormatOf(cbor, floatText), KeptRow(cbor, columns), suffix, paths, outputs, row);
  }

  /** The text that a value reads back as; null for lists and structs. */
  function TextOf(floatText: FloatText, value: Value): Cell {
    var doc := DocOf(floatText, value);
    if doc.Scalar? then doc.cell else Null
  }

  ghost predicate DistinctNames(columns: seq<Column>) {
    forall i, j | 0 <= i < j < |columns| :: columns[i].name != columns[j].name
  }

  /** The fields requested are the names of all columns, which are dot-free. */
  ghost predicate RequestsAll(columns: seq<Column>, paths: seq<Path>) {
    && |paths| == |columns|
    && forall c | 0 <= c < |columns| :: DOT !in columns[c].name && SplitOf(paths[c], columns[c].name)
  }

  lemma NamesCompatible(columns: seq<Column>, paths: seq<Path>)
    requires DistinctNames(columns) && RequestsAll(columns, paths)
    ensures Compatible(paths) && forall c | 0 <= c < |columns| :: paths[c] == [columns[c].name]
  {
    forall c | 0 <= c < |columns| ensures paths[c] == [columns[c].name] {
      DotFreeName(paths[c], columns[c].name);
    }
    forall f, g | 0 <= f < |paths| && 0 <= g < |paths| && f != g ensures !(paths[f] <= paths[g]) {
      assert paths[f][0] != paths[g][0];
    }
  }

  /** Every column has the text of its value. */
  ghost predicate AllTexts(floatText: FloatText, columns: seq<Column>, outputs: seq<nat>, out: seq<Cell>)
    requires |outputs| == |columns| && forall c | 0 <= c < |outputs| :: outputs[c] < |out|
  {
    forall c | 0 <= c < |columns| :: out[outputs[c]] == TextOf(floatText, columns[c].value)
  }

  /** The columns from the `m`-th on have no text. */
  ghost predicate NoTextFrom(floatText: FloatText, columns: seq<Column>, m: nat) {
    forall c | m <= c < |columns| :: TextOf(floatText, columns[c].value) == Null
  }
}
