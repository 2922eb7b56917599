/** The MessagePack and CBOR encoders for COPY TO payloads in src/nats_scan.cpp: bytes appended to an output buffer. */
module StructuredEncoder {
  import opened Bytes
  import opened Wire

  /** A column value.  Maps are structs here: their keys are texts too.  A float carries its 64 bits. */
  datatype Value =
    | NullValue
    | Boolean(flag: bool)
    | Signed(number: int)
    | Unsigned(count: nat)
    | Str(bytes: Bytes)
    | Float(bits: nat)
    | List(children: seq<Value>)
    | Struct(fields: seq<Field>)

  datatype Field = Field(name: Bytes, value: Value)

  const MIN64: int := -0x8000_0000_0000_0000

  predicate SignedFits(number: int) { MIN64 <= number < TWO63 }

  /** HUGEINT and UHUGEINT values outside 64 bits are refused. */
  predicate Encodable(value: Value) {
    match value
    case Signed(number) => SignedFits(number)
    case Unsigned(count) => count < TWO64
    case List(children) => forall child | child in children :: Encodable(child)
    case Struct(fields) => forall field | field in fields :: Encodable(field.value)
    case _ => true
  }

  // ---------------------------------------------------------------- the items that the encoders write

  function TextItem(cbor: bool, s: Bytes): Item {
    var n := |s|;
    if cbor then
      if n < 24 then Blob(0x60 + n, [], s)
      else if n <= 0xff then Blob(0x78, [n], s)
      else if n <= 0xffff then Blob(0x79, BigEndian(n, 2), s)
      else Blob(0x7a, BigEndian(n, 4), s)
    else if n < 32 then Blob(0xa0 + n, [], s)
    else if n <= 0xff then Blob(0xd9, [n], s)
    else if n <= 0xffff then Blob(0xda, BigEndian(n, 2), s)
    else Blob(0xdb, BigEndian(n, 4), s)
  }

  function CountItem(cbor: bool, isMap: bool, n: nat, items: seq<Item>): Item {
    if cbor then
      var major := if isMap then 0xa0 else 0x80;
      if n < 24 then Group(major + n, [], items)
      else if n <= 0xff then Group(major + 24, BigEndian(n, 1), items)
      else if n <= 0xffff then Group(major + 25, BigEndian(n, 2), items)
      else Group(major + 26, BigEndian(n, 4), items)
    else if n < 16 then Group((if isMap then 0x80 else 0x90) + n, [], items)
    else Group(if isMap then 0xde else 0xdc, BigEndian(n, 2), items)
  }

  const NULL_ITEM: Item := Atom(0xc0, [])

  function BooleanItem(cbor: bool, flag: bool): Item {
    Atom(if cbor then if flag then 0xf5 else 0xf4 else if flag then 0xc3 else 0xc2, [])
  }

  /** The vector path writes every negative CBOR integer with eight bytes; the value path shortens small ones. */
  function SignedItem(cbor: bool, fast: bool, number: int): Item {
    if cbor then
      if number >= 24 then Atom(0x1b, BigEndian(number, 8))
      else if number >= 0 then Atom(number, [])
      else if !fast && -(number + 1) < 24 then Atom(0x20 - (number + 1), [])
      else Atom(0x3b, BigEndian(-(number + 1), 8))
    else if -32 <= number < 128 then Atom(number % 256, [])
    else Atom(0xd3, BigEndian(number % TWO64, 8))
  }

  function UnsignedItem(cbor: bool, count: nat): Item {
    if count < (if cbor then 24 else 128) then Atom(count, [])
    else Atom(if cbor then 0x1b else 0xcf, BigEndian(count, 8))
  }

  function ItemOf(cbor: bool, fast: bool, value: Value): Item
    decreases value, 0
  {
    match value
    case NullValue => NULL_ITEM
    case Boolean(flag) => BooleanItem(cbor, flag)
    case Signed(number) => SignedItem(cbor, fast, number)
    case Unsigned(count) => UnsignedItem(cbor, count)
    case Str(bytes) => TextItem(cbor, bytes)
    case Float(bits) => Atom(if cbor then 0xfb else 0xcb, BigEndian(bits, 8))
    case List(children) => CountItem(cbor, false, |children|, ItemsOf(cbor, children))
    case Struct(fields) => CountItem(cbor, true, |fields|, FieldItems(cbor, fields))
  }

  function ItemsOf(cbor: bool, children: seq<Value>): (items: seq<Item>)
    ensures |items| == |children|
    decreases children, 1
  {
    if children == [] then [] else [ItemOf(cbor, false, children[0])] + ItemsOf(cbor, children[1..])
  }

  function FieldItems(cbor: bool, fields: seq<Field>): (items: seq<Item>)
    ensures |items| == 2 * |fields|
    decreases fields, 1
  {
    if fields == [] then []
    else [TextItem(cbor, fields[0].name), ItemOf(cbor, false, fields[0].value)] + FieldItems(cbor, fields[1..])
  }

  // ---------------------------------------------------------------- the encoders

  class ByteBuffer {
    var bytes: Bytes

    constructor ()
      ensures bytes == []
    {
      bytes := [];
    }

    method Clear()
      modifies this
      ensures bytes == []
    {
      bytes := [];
    }

    method PushBack(b: byte)
      modifies this
      ensures bytes == old(bytes) + [b]
    {
      bytes := bytes + [b];
    }

    method Insert(s: Bytes)
      modifies this
      ensures bytes == old(bytes) + s
    {
      bytes := bytes + s;
    }
  }

  method AppendBigEndian(output: ByteBuffer, value: nat, width: nat)
    modifies output
    ensures output.bytes == old(output.bytes) + BigEndian(value, width)
  {
    var i := width;
    while i > 0
      invariant 0 <= i <= width
      invariant output.bytes == old(output.bytes) + BigEndian(ShiftRight(value, i), width - i)
    {
      ShiftStep(value, i - 1);
      output.PushBack(ShiftRight(value, i - 1) % 256);
      i := i - 1;
    }
  }

  method AppendMsgpackString(output: ByteBuffer, value: Bytes)
    modifies output
    ensures output.bytes == old(output.bytes) + Encode(TextItem(false, value))
  {
    var size := |value|;
    if size < 32 {
      output.PushBack(0xa0 + size);
    } else if size <= 0xff {
      output.PushBack(0xd9);
      output.PushBack(size);
    } else if size <= 0xffff {
      output.PushBack(0xda);
      AppendBigEndian(output, size, 2);
    } else {
      output.PushBack(0xdb);
      AppendBigEndian(output, size, 4);
    }
    output.Insert(value);
  }

  method AppendCborString(output: ByteBuffer, value: Bytes)
    modifies output
    ensures output.bytes == old(output.bytes) + Encode(TextItem(true, value))
  {
    var size := |value|;
    if size < 24 {
      output.PushBack(0x60 + size);
    } else if size <= 0xff {
      output.PushBack(0x78);
      output.PushBack(size);
    } else if size <= 0xffff {
      output.PushBack(0x79);
      AppendBigEndian(output, size, 2);
    } else {
      output.PushBack(0x7a);
      AppendBigEndian(output, size, 4);
    }
    output.Insert(value);
  }

  method AppendText(output: ByteBuffer, value: Bytes, cbor: bool)
    modifies output
    ensures output.bytes == old(output.bytes) + Encode(TextItem(cbor, value))
  {
    if cbor {
      AppendCborString(output, value);
    } else {
      AppendMsgpackString(output, value);
    }
  }

  /** The head of an array or map; the elements follow. */
  method AppendStructuredCount(output: ByteBuffer, count: nat, cbor: bool, isMap: bool, ghost items: seq<Item>)
    modifies output
    ensures output.bytes + EncodeAll(items) == old(output.bytes) + Encode(CountItem(cbor, isMap, count, items))
  {
    if cbor {
      var major := if isMap then 0xa0 else 0x80;
      if count < 24 {
        output.PushBack(major + count);
      } else if count <= 0xff {
        output.PushBack(if isMap then 0xb8 else 0x98);
        AppendBigEndian(output, count, 1);
      } else if count <= 0xffff {
        output.PushBack(if isMap then 0xb9 else 0x99);
        AppendBigEndian(output, count, 2);
      } else {
        output.PushBack(if isMap then 0xba else 0x9a);
        AppendBigEndian(output, count, 4);
      }
    } else if isMap {
      if count < 16 {
        output.PushBack(0x80 + count);
      } else {
        output.PushBack(0xde);
        AppendBigEndian(output, count, 2);
      }
    } else {
      if count < 16 {
        output.PushBack(0x90 + count);
      } else {
        output.PushBack(0xdc);
        AppendBigEndian(output, count, 2);
      }
    }
  }

  /** The values that columns with a vector form hold. */
  predicate HasVectorForm(value: Value) {
    !value.List? && !value.Struct? && Encodable(value)
  }

  /** The vector path: nulls of every type, and the scalars of the types that have a vector form. */
  method AppendStructuredVectorScalar(output: ByteBuffer, value: Value, vectorForm: bool, cbor: bool)
    returns (done: bool)
    requires vectorForm ==> HasVectorForm(value)
    modifies output
    ensures done == (value.NullValue? || vectorForm)
    ensures output.bytes == if done then old(output.bytes) + Encode(ItemOf(cbor, true, value)) else old(output.bytes)
  {
    if value.NullValue? {
      output.PushBack(0xc0);
      return true;
    }
    if !vectorForm {
      return false;
    }
    match value {
      case Str(text) =>
        AppendText(output, text, cbor);
      case Boolean(flag) =>
        output.PushBack(if cbor then if flag then 0xf5 else 0xf4 else if flag then 0xc3 else 0xc2);
      case Signed(number) =>
        AppendSigned(output, number, cbor);
      case Unsigned(count) =>
        AppendUnsigned(output, count, cbor);
      case Float(bits) =>
        output.PushBack(if cbor then 0xfb else 0xcb);
        AppendBigEndian(output, bits, 8);
    }
    done := true;
  }

  /** A head that is the whole number, or a head and eight bytes. */
  method AppendHead(output: ByteBuffer, head: byte)
    modifies output
    ensures output.bytes == old(output.bytes) + Encode(Atom(head, []))
  {
    AtomBytes(Atom(head, []));
    output.PushBack(head);
  }

  method AppendWide(output: ByteBuffer, head: byte, value: nat)
    modifies output
    ensures output.bytes == old(output.bytes) + Encode(Atom(head, BigEndian(value, 8)))
  {
    AtomBytes(Atom(head, BigEndian(value, 8)));
    output.PushBack(head);
    AppendBigEndian(output, value, 8);
  }

  method AppendSigned(output: ByteBuffer, number: int, cbor: bool)
    modifies output
    ensures output.bytes == old(output.bytes) + Encode(SignedItem(cbor, true, number))
  {
    if cbor {
      if number >= 0 && number < 24 {
        AppendHead(output, number);
      } else if number >= 0 {
        AppendWide(output, 0x1b, number);
      } else {
        AppendWide(output, 0x3b, -(number + 1));
      }
    } else if number >= -32 && number < 128 {
      AppendHead(output, number % 256);
    } else {
      AppendWide(output, 0xd3, number % TWO64);
    }
  }

  method AppendUnsigned(output: ByteBuffer, number: nat, cbor: bool)
    modifies output
    ensures output.bytes == old(output.bytes) + Encode(UnsignedItem(cbor, number))
  {
    if (cbor || number < 128) && number < 24 {
      AppendHead(output, number);
    } else if !cbor && number < 128 {
      AppendHead(output, number);
    } else {
      AppendWide(output, if cbor then 0x1b else 0xcf, number);
    }
  }

  /** The value path; `ok` is false where an integer is out of range, and the row is then refused. */
  method AppendStructuredValue(output: ByteBuffer, value: Value, cbor: bool) returns (ok: bool)
    modifies output
    ensures ok == Encodable(value)
    ensures value.Signed? ==> (ok <==> -0x8000_0000_0000_0000 <= value.number <= 0x7fff_ffff_ffff_ffff)
    ensures value.Unsigned? ==> (ok <==> value.count <= 0xffff_ffff_ffff_ffff)
    ensures value.List? ==> (ok <==> forall child | child in value.children :: Encodable(child))
    ensures value.Struct? ==> (ok <==> forall field | field in value.fields :: Encodable(field.value))
    ensures !value.Signed? && !value.Unsigned? && !value.List? && !value.Struct? ==> ok
    ensures ok ==> output.bytes == old(output.bytes) + Encode(ItemOf(cbor, false, value))
    decreases value, 0
  {
    match value {
      case NullValue =>
        output.PushBack(0xc0);
      case List(children) =>
        ok := AppendList(output, children, cbor);
        return;
      case Struct(fields) =>
        ok := AppendStruct(output, fields, cbor);
        return;
      case Str(text) =>
        AppendText(output, text, cbor);
      case Boolean(flag) =>
        output.PushBack(if cbor then if flag then 0xf5 else 0xf4 else if flag then 0xc3 else 0xc2);
      case Signed(number) =>
        ok := AppendSignedValue(output, number, cbor);
        return;
      case Unsigned(count) =>
        if count >= TWO64 {
          return false;
        }
        if cbor && count < 24 {
          output.PushBack(count);
        } else if !cbor && count < 128 {
          output.PushBack(count);
        } else {
          output.PushBack(if cbor then 0x1b else 0xcf);
          AppendBigEndian(output, count, 8);
        }
      case Float(bits) =>
        output.PushBack(if cbor then 0xfb else 0xcb);
        AppendBigEndian(output, bits, 8);
    }
    ok := true;
  }

  method AppendList(output: ByteBuffer, children: seq<Value>, cbor: bool) returns (ok: bool)
    modifies output
    ensures ok == Encodable(List(children))
    ensures ok ==> output.bytes == old(output.bytes) + Encode(ItemOf(cbor, false, List(children)))
    decreases children, 1
  {
    AppendStructuredCount(output, |children|, cbor, false, ItemsOf(cbor, children));
    ghost var whole := output.bytes + EncodeAll(ItemsOf(cbor, children));
    for i := 0 to |children|
      invariant forall j | 0 <= j < i :: Encodable(children[j])
      invariant output.bytes + EncodeAll(ItemsOf(cbor, children[i..])) == whole
    {
      ChildStep(cbor, children, i, output.bytes);
      ok := AppendStructuredValue(output, children[i], cbor);
      if !ok {
        return false;
      }
    }
    ok := true;
  }

  method AppendStruct(output: ByteBuffer, fields: seq<Field>, cbor: bool) returns (ok: bool)
    modifies output
    ensures ok == Encodable(Struct(fields))
    ensures ok ==> output.bytes == old(output.bytes) + Encode(ItemOf(cbor, false, Struct(fields)))
    decreases fields, 1
  {
    AppendStructuredCount(output, |fields|, cbor, true, FieldItems(cbor, fields));
    ghost var whole := output.bytes + EncodeAll(FieldItems(cbor, fields));
    for i := 0 to |fields|
      invariant forall j | 0 <= j < i :: Encodable(fields[j].value)
      invariant output.bytes + EncodeAll(FieldItems(cbor, fields[i..])) == whole
    {
      FieldStep(cbor, fields, i, output.bytes);
      AppendText(output, fields[i].name, cbor);
      ok := AppendStructuredValue(output, fields[i].value, cbor);
      if !ok {
        return false;
      }
    }
    ok := true;
  }

  method AppendSignedValue(output: ByteBuffer, number: int, cbor: bool) returns (ok: bool)
    modifies output
    ensures ok == SignedFits(number)
    ensures ok ==> output.bytes == old(output.bytes) + Encode(SignedItem(cbor, false, number))
  {
    if !SignedFits(number) {
      return false;
    }
    if cbor {
      if number >= 0 {
        if number < 24 {
          AppendHead(output, number);
        } else {
          AppendWide(output, 0x1b, number);
        }
      } else {
        var encoded := -(number + 1);
        if encoded < 24 {
          AppendHead(output, 0x20 + encoded);
        } else {
          AppendWide(output, 0x3b, encoded);
        }
      }
    } else if number >= -32 && number < 128 {
      AppendHead(output, number % 256);
    } else {
      AppendWide(output, 0xd3, number % TWO64);
    }
    ok := true;
  }

  lemma AtomBytes(item: Item)
    requires item.Atom?
    ensures Encode(item) == [item.tag] + item.arg
  {
  }

  /** What is written and what is still to come, before and after one child. */
  lemma ChildStep(cbor: bool, children: seq<Value>, i: nat, written: Bytes)
    requires i < |children|
    ensures written + Encode(ItemOf(cbor, false, children[i])) + EncodeAll(ItemsOf(cbor, children[i + 1..]))
            == written + EncodeAll(ItemsOf(cbor, children[i..]))
  {
    assert children[i..][1..] == children[i + 1..];
    HeadStep(ItemOf(cbor, false, children[i]), ItemsOf(cbor, children[i + 1..]), written);
  }

  lemma HeadStep(item: Item, rest: seq<Item>, written: Bytes)
    ensures written + Encode(item) + EncodeAll(rest) == written + EncodeAll([item] + rest)
  {
    assert ([item] + rest)[1..] == rest;
  }

  lemma PairStep(key: Item, value: Item, rest: seq<Item>, written: Bytes)
    ensures written + Encode(key) + Encode(value) + EncodeAll(rest) == written + EncodeAll([key, value] + rest)
  {
    var items := [key, value] + rest;
    assert items[1..][1..] == rest;
  }

  lemma FieldStep(cbor: bool, fields: seq<Field>, i: nat, written: Bytes)
    requires i < |fields|
    ensures written + Encode(TextItem(cbor, fields[i].name)) + Encode(ItemOf(cbor, false, fields[i].value))
            + EncodeAll(FieldItems(cbor, fields[i + 1..])) == written + EncodeAll(FieldItems(cbor, fields[i..]))
  {
    assert fields[i..][1..] == fields[i + 1..];
    PairStep(TextItem(cbor, fields[i].name), ItemOf(cbor, false, fields[i].value), FieldItems(cbor, fields[i + 1..]),
             written);
  }

  // ---------------------------------------------------------------- a row

  /** A payload column: its name, whether its type has a vector form, and its value in the row. */
  datatype Column = Column(name: Bytes, vectorForm: bool, value: Value)

  predicate Typed(columns: seq<Column>) {
    forall c | c in columns :: c.vectorForm ==> HasVectorForm(c.value)
  }

  predicate Fast(column: Column) { column.vectorForm || column.value.NullValue? }

  function ColumnItems(cbor: bool, columns: seq<Column>): (items: seq<Item>)
    ensures |items| == 2 * |columns|
  {
    if columns == [] then []
    else
      [TextItem(cbor, columns[0].name), ItemOf(cbor, Fast(columns[0]), columns[0].value)]
      + ColumnItems(cbor, columns[1..])
  }

  function RowItem(cbor: bool, columns: seq<Column>): Item {
    CountItem(cbor, true, |columns|, ColumnItems(cbor, columns))
  }

  predicate RowEncodable(columns: seq<Column>) {
    forall c | c in columns :: Encodable(c.value)
  }

  /** The keys are encoded once, when the statement is bound. */
  method EncodeKeys(columns: seq<Column>, cbor: bool) returns (keys: seq<Bytes>)
    ensures |keys| == |columns| && forall c | 0 <= c < |columns| :: keys[c] == Encode(TextItem(cbor, columns[c].name))
  {
    keys := [];
    for c := 0 to |columns|
      invariant |keys| == c && forall k | 0 <= k < c :: keys[k] == Encode(TextItem(cbor, columns[k].name))
    {
      var key := new ByteBuffer();
      AppendText(key, columns[c].name, cbor);
      keys := keys + [key.bytes];
    }
  }

  method EncodeStructuredPayload(output: ByteBuffer, columns: seq<Column>, keys: seq<Bytes>, cbor: bool)
    returns (ok: bool)
    requires Typed(columns) && |keys| == |columns|
    requires forall c | 0 <= c < |columns| :: keys[c] == Encode(TextItem(cbor, columns[c].name))
    modifies output
    ensures ok == RowEncodable(columns)
    ensures ok ==> output.bytes == Encode(RowItem(cbor, columns))
  {
    output.Clear();
    AppendStructuredCount(output, |columns|, cbor, true, ColumnItems(cbor, columns));
    ghost var whole := Encode(RowItem(cbor, columns));
    for i := 0 to |columns|
      invariant forall j | 0 <= j < i :: Encodable(columns[j].value)
      invariant output.bytes + EncodeAll(ColumnItems(cbor, columns[i..])) == whole
    {
      ok := AppendNextColumn(output, columns, i, keys[i], cbor, whole);
      if !ok {
        return false;
      }
    }
    ok := true;
  }

  /** Column `i` of a row whose bytes are `whole` in the end. */
  method AppendNextColumn(output: ByteBuffer, columns: seq<Column>, i: nat, key: Bytes, cbor: bool, ghost whole: Bytes)
    returns (ok: bool)
    requires Typed(columns) && i < |columns| && key == Encode(TextItem(cbor, columns[i].name))
    requires output.bytes + EncodeAll(ColumnItems(cbor, columns[i..])) == whole
    modifies output
    ensures ok == Encodable(columns[i].value)
    ensures ok ==> output.bytes + EncodeAll(ColumnItems(cbor, columns[i + 1..])) == whole
  {
    ColumnStep(cbor, columns, i, output.bytes);
    ok := AppendColumn(output, columns[i], key, cbor);
  }

  method AppendColumn(output: ByteBuffer, column: Column, key: Bytes, cbor: bool) returns (ok: bool)
    requires column.vectorForm ==> HasVectorForm(column.value)
    modifies output
    ensures ok == Encodable(column.value)
    ensures ok ==> output.bytes == old(output.bytes) + key + Encode(ItemOf(cbor, Fast(column), column.value))
  {
    output.Insert(key);
    ok := AppendStructuredVectorScalar(output, column.value, column.vectorForm, cbor);
    if !ok {
      ok := AppendStructuredValue(output, column.value, cbor);
    }
  }

  lemma ColumnStep(cbor: bool, columns: seq<Column>, i: nat, written: Bytes)
    requires i < |columns|
    ensures written + Encode(TextItem(cbor, columns[i].name)) + Encode(ItemOf(cbor, Fast(columns[i]), columns[i].value))
            + EncodeAll(ColumnItems(cbor, columns[i + 1..])) == written + EncodeAll(ColumnItems(cbor, columns[i..]))
  {
    assert columns[i..][1..] == columns[i + 1..];
    PairStep(TextItem(cbor, columns[i].name), ItemOf(cbor, Fast(columns[i]), columns[i].value),
             ColumnItems(cbor, columns[i + 1..]), written);
  }
}
