/** What the encoders of src/nats_scan.cpp write, in the formats' own terms: the bytes of an object that denotes the
    value, element by element. */
module WrittenObjects {
  import opened Bytes
  import opened Wire
  import opened StructuredEncoder
  import opened PayloadRoundTrip
  import C = CborObjects
  import M = MsgpackObjects

  // ---------------------------------------------------------------- MessagePack

  /** The integer that an object stands for. */
  predicate MsgpackInteger(o: M.Object, k: int) {
    ((o.PositiveFix? || o.UInt?) && o.count == k) || ((o.NegativeFix? || o.Int?) && o.number == k)
  }

  /** The object denotes the value: a list has its elements in order, a struct its fields. */
  predicate MsgpackDenotes(o: M.Object, value: Value)
    decreases value, 0
  {
    match value
    case NullValue => o.Nil?
    case Boolean(flag) => o == M.Bool(flag)
    case Signed(k) => MsgpackInteger(o, k)
    case Unsigned(n) => MsgpackInteger(o, n)
    case Str(bytes) => o.Str? && o.text == bytes
    case Float(bits) => o == M.Float64(bits)
    case List(children) =>
      && o.Array? && |o.items| == |children|
      && forall i | 0 <= i < |children| :: MsgpackDenotes(o.items[i], children[i])
    case Struct(fields) => o.Map? && MsgpackFields(o.items, fields)
  }

  /** Keys and values in turn are the fields in order. */
  predicate MsgpackFields(items: seq<M.Object>, fields: seq<Field>)
    decreases fields, 1
  {
    && |items| == 2 * |fields|
    && (fields != [] ==>
          && items[0].Str? && items[0].text == fields[0].name && MsgpackDenotes(items[1], fields[0].value)
          && MsgpackFields(items[2..], fields[1..]))
  }

  lemma MsgpackText(s: Bytes) returns (o: M.Object)
    requires |s| < TWO32
    ensures M.Legal(o) && o.Str? && o.text == s && M.ToItem(o) == TextItem(false, s)
  {
    var n := |s|;
    assert n < 0x100 ==> BigEndian(n, 1) == [n];
    o := M.Str(if n < 32 then 0 else if n <= 0xff then 1 else if n <= 0xffff then 2 else 4, s);
  }

  lemma MsgpackSigned(fast: bool, k: int) returns (o: M.Object)
    requires SignedFits(k)
    ensures M.Legal(o) && MsgpackInteger(o, k) && M.ToItem(o) == SignedItem(false, fast, k)
  {
    if 0 <= k < 128 {
      o := M.PositiveFix(k);
    } else if -32 <= k < 0 {
      o := M.NegativeFix(k);
    } else {
      o := M.Int(8, k);
      assert k % TWO64 == if k < 0 then k + TWO64 else k;
    }
  }

  lemma MsgpackScalar(fast: bool, value: Value) returns (o: M.Object)
    requires Sized(false, value) && !value.List? && !value.Struct?
    ensures M.Legal(o) && MsgpackDenotes(o, value) && M.ToItem(o) == ItemOf(false, fast, value)
  {
    match value
    case NullValue => o := M.Nil;
    case Boolean(flag) => o := M.Bool(flag);
    case Signed(k) => o := MsgpackSigned(fast, k);
    case Unsigned(n) => o := if n < 128 then M.PositiveFix(n) else M.UInt(8, n);
    case Str(bytes) => o := MsgpackText(bytes);
    case Float(bits) => o := M.Float64(bits);
  }

  lemma MsgpackArray(items: seq<M.Object>, rest: seq<Item>) returns (o: M.Object)
    requires M.AllLegal(items) && M.ToItems(items) == rest && |items| < 0x1_0000
    ensures M.Legal(o) && o.Array? && o.items == items && M.ToItem(o) == CountItem(false, false, |items|, rest)
  {
    o := M.Array(if |items| < 16 then 0 else 2, items);
  }

  lemma MsgpackMap(n: nat, items: seq<M.Object>, rest: seq<Item>) returns (o: M.Object)
    requires M.AllLegal(items) && M.ToItems(items) == rest && n < 0x1_0000 && |items| == 2 * n
    ensures M.Legal(o) && o.Map? && o.items == items && M.ToItem(o) == CountItem(false, true, n, rest)
  {
    M.Halved(|items|, n);
    o := M.Map(if n < 16 then 0 else 2, items);
  }

  /** The bytes of a value are those of a MessagePack object that denotes it. */
  lemma {:induction false} WrittenMsgpack(fast: bool, value: Value) returns (o: M.Object)
    requires Sized(false, value)
    ensures M.Legal(o) && MsgpackDenotes(o, value) && M.ToItem(o) == ItemOf(false, fast, value)
    ensures M.Serialize(o) == Encode(ItemOf(false, fast, value))
    decreases value, 0
  {
    match value {
      case List(children) =>
        var items := MsgpackElements(children);
        o := MsgpackArray(items, ItemsOf(false, children));
      case Struct(fields) =>
        var items := MsgpackPairs(fields);
        o := MsgpackMap(|fields|, items, FieldItems(false, fields));
      case _ =>
        o := MsgpackScalar(fast, value);
    }
    M.SameBytes(o);
  }

  lemma {:induction false} MsgpackElements(children: seq<Value>) returns (items: seq<M.Object>)
    requires AllSized(false, children)
    ensures M.AllLegal(items) && |items| == |children| && M.ToItems(items) == ItemsOf(false, children)
    ensures forall i | 0 <= i < |children| :: MsgpackDenotes(items[i], children[i])
    decreases children, 1
  {
    items := [];
    if children != [] {
      var first := WrittenMsgpack(false, children[0]);
      var rest := MsgpackElements(children[1..]);
      items := [first] + rest;
      assert items[1..] == rest;
    }
  }

  lemma {:induction false} MsgpackPairs(fields: seq<Field>) returns (items: seq<M.Object>)
    requires FieldsSized(false, fields)
    ensures M.AllLegal(items) && MsgpackFields(items, fields) && M.ToItems(items) == FieldItems(false, fields)
    decreases fields, 1
  {
    items := [];
    if fields != [] {
      var key := MsgpackText(fields[0].name);
      var value := WrittenMsgpack(false, fields[0].value);
      var rest := MsgpackPairs(fields[1..]);
      items := [key, value] + rest;
      MsgpackPair(key, value, rest);
    }
  }

  lemma MsgpackPair(key: M.Object, value: M.Object, rest: seq<M.Object>)
    requires M.Legal(key) && M.Legal(value) && M.AllLegal(rest)
    ensures var items := [key, value] + rest;
            && M.AllLegal(items) && items[2..] == rest
            && M.ToItems(items) == [M.ToItem(key), M.ToItem(value)] + M.ToItems(rest)
  {
    var items := [key, value] + rest;
    assert items[1..] == [value] + rest && items[1..][1..] == rest;
  }

  /** The columns of a row as the fields of one struct. */
  function FieldsOf(columns: seq<Column>): seq<Field> {
    if columns == [] then [] else [Field(columns[0].name, columns[0].value)] + FieldsOf(columns[1..])
  }

  predicate SizedColumns(cbor: bool, columns: seq<Column>) {
    forall c | c in columns :: |c.name| < TWO32 && Sized(cbor, c.value)
  }

  lemma {:induction false} MsgpackColumns(columns: seq<Column>) returns (items: seq<M.Object>)
    requires SizedColumns(false, columns)
    ensures M.AllLegal(items) && M.ToItems(items) == ColumnItems(false, columns)
    ensures MsgpackFields(items, FieldsOf(columns)) && |items| == 2 * |columns|
  {
    items := [];
    if columns != [] {
      var c := columns[0];
      assert c in columns;
      var key := MsgpackText(c.name);
      var value := WrittenMsgpack(Fast(c), c.value);
      var rest := MsgpackColumns(columns[1..]);
      items := [key, value] + rest;
      MsgpackPair(key, value, rest);
      assert FieldsOf(columns)[1..] == FieldsOf(columns[1..]);
    }
  }

  /** The bytes of a row are those of a MessagePack map with the columns as its entries, in order, by whichever path
      each was written. */
  lemma MsgpackRow(columns: seq<Column>) returns (o: M.Object)
    requires SizedColumns(false, columns) && |columns| < 0x1_0000
    ensures M.Legal(o) && o.Map? && MsgpackFields(o.items, FieldsOf(columns))
    ensures M.Serialize(o) == Encode(RowItem(false, columns))
  {
    var items := MsgpackColumns(columns);
    o := MsgpackMap(|columns|, items, ColumnItems(false, columns));
    M.SameBytes(o);
  }

  // ---------------------------------------------------------------- CBOR

  /** The integer that a data item stands for. */
  predicate CborInteger(o: C.Object, k: int) {
    (o.Unsigned? && o.count == k) || (o.Negative? && -1 - o.count == k)
  }

  /** The same for CBOR data items; 21 and 20 are true and false. */
  predicate CborDenotes(o: C.Object, value: Value)
    decreases value, 0
  {
    match value
    case NullValue => o == C.Simple(22)
    case Boolean(flag) => o == C.Simple(if flag then 21 else 20)
    case Signed(k) => CborInteger(o, k)
    case Unsigned(n) => CborInteger(o, n)
    case Str(bytes) => o.TextString? && o.text == bytes
    case Float(bits) => o == C.Float64(bits)
    case List(children) =>
      && o.Array? && |o.items| == |children|
      && forall i | 0 <= i < |children| :: CborDenotes(o.items[i], children[i])
    case Struct(fields) => o.Map? && CborFields(o.items, fields)
  }

  predicate CborFields(items: seq<C.Object>, fields: seq<Field>)
    decreases fields, 1
  {
    && |items| == 2 * |fields|
    && (fields != [] ==>
          && items[0].TextString? && items[0].text == fields[0].name && CborDenotes(items[1], fields[0].value)
          && CborFields(items[2..], fields[1..]))
  }

  /** The number of bytes that the encoder gives to a length or a count. */
  function CborSize(n: nat): nat {
    if n < 24 then 0 else if n <= 0xff then 1 else if n <= 0xffff then 2 else 4
  }

  lemma CborText(s: Bytes) returns (o: C.Object)
    requires |s| < TWO32
    ensures C.Legal(o) && o.TextString? && o.text == s && C.ToItem(o) == TextItem(true, s)
  {
    var n := |s|;
    assert n < 0x100 ==> BigEndian(n, 1) == [n];
    o := C.TextString(CborSize(n), s);
  }

  lemma CborSigned(fast: bool, k: int) returns (o: C.Object)
    requires SignedFits(k)
    ensures C.Legal(o) && CborInteger(o, k) && C.ToItem(o) == SignedItem(true, fast, k)
  {
    if k >= 0 {
      o := C.Unsigned(if k < 24 then 0 else 8, k);
    } else {
      o := C.Negative(if !fast && k >= -24 then 0 else 8, -1 - k);
    }
  }

  lemma CborScalar(fast: bool, value: Value) returns (o: C.Object)
    requires Sized(true, value) && !value.List? && !value.Struct?
    ensures C.Legal(o) && CborDenotes(o, value) && C.ToItem(o) == ItemOf(true, fast, value)
  {
    match value
    case Boolean(flag) => o := C.Simple(if flag then 21 else 20);
    case Signed(k) => o := CborSigned(fast, k);
    case Unsigned(n) => o := C.Unsigned(if n < 24 then 0 else 8, n);
    case Str(bytes) => o := CborText(bytes);
    case Float(bits) => o := C.Float64(bits);
  }

  lemma CborArray(items: seq<C.Object>, rest: seq<Item>) returns (o: C.Object)
    requires C.AllLegal(items) && C.ToItems(items) == rest && |items| < TWO32
    ensures C.Legal(o) && o.Array? && o.items == items && C.ToItem(o) == CountItem(true, false, |items|, rest)
  {
    o := C.Array(CborSize(|items|), items);
  }

  lemma CborMap(n: nat, items: seq<C.Object>, rest: seq<Item>) returns (o: C.Object)
    requires C.AllLegal(items) && C.ToItems(items) == rest && n < TWO32 && |items| == 2 * n
    ensures C.Legal(o) && o.Map? && o.items == items && C.ToItem(o) == CountItem(true, true, n, rest)
  {
    C.Halved(|items|, n);
    o := C.Map(CborSize(n), items);
  }

  /** The bytes of a value without nulls are those of a CBOR data item that denotes it. */
  lemma {:induction false} WrittenCbor(fast: bool, value: Value) returns (o: C.Object)
    requires Sized(true, value)
    ensures C.Legal(o) && CborDenotes(o, value) && C.ToItem(o) == ItemOf(true, fast, value)
    ensures C.Serialize(o) == Encode(ItemOf(true, fast, value))
    decreases value, 0
  {
    match value {
      case List(children) =>
        var items := CborElements(children);
        o := CborArray(items, ItemsOf(true, children));
      case Struct(fields) =>
        var items := CborPairs(fields);
        o := CborMap(|fields|, items, FieldItems(true, fields));
      case _ =>
        o := CborScalar(fast, value);
    }
    C.SameBytes(o);
  }

  lemma {:induction false} CborElements(children: seq<Value>) returns (items: seq<C.Object>)
    requires AllSized(true, children)
    ensures C.AllLegal(items) && |items| == |children| && C.ToItems(items) == ItemsOf(true, children)
    ensures forall i | 0 <= i < |children| :: CborDenotes(items[i], children[i])
    decreases children, 1
  {
    items := [];
    if children != [] {
      var first := WrittenCbor(false, children[0]);
      var rest := CborElements(children[1..]);
      items := [first] + rest;
      assert items[1..] == rest;
    }
  }

  lemma {:induction false} CborPairs(fields: seq<Field>) returns (items: seq<C.Object>)
    requires FieldsSized(true, fields)
    ensures C.AllLegal(items) && CborFields(items, fields) && C.ToItems(items) == FieldItems(true, fields)
    decreases fields, 1
  {
    items := [];
    if fields != [] {
      var key := CborText(fields[0].name);
      var value := WrittenCbor(false, fields[0].value);
      var rest := CborPairs(fields[1..]);
      items := [key, value] + rest;
      CborPair(key, value, rest);
    }
  }

  lemma CborPair(key: C.Object, value: C.Object, rest: seq<C.Object>)
    requires C.Legal(key) && C.Legal(value) && C.AllLegal(rest)
    ensures var items := [key, value] + rest;
            && C.AllLegal(items) && items[2..] == rest
            && C.ToItems(items) == [C.ToItem(key), C.ToItem(value)] + C.ToItems(rest)
  {
    var items := [key, value] + rest;
    assert items[1..] == [value] + rest && items[1..][1..] == rest;
  }

  lemma {:induction false} CborColumns(columns: seq<Column>) returns (items: seq<C.Object>)
    requires SizedColumns(true, columns)
    ensures C.AllLegal(items) && C.ToItems(items) == ColumnItems(true, columns)
    ensures CborFields(items, FieldsOf(columns)) && |items| == 2 * |columns|
  {
    items := [];
    if columns != [] {
      var c := columns[0];
      assert c in columns;
      var key := CborText(c.name);
      var value := WrittenCbor(Fast(c), c.value);
      var rest := CborColumns(columns[1..]);
      items := [key, value] + rest;
      CborPair(key, value, rest);
      assert FieldsOf(columns)[1..] == FieldsOf(columns[1..]);
    }
  }

  /** The bytes of a row without nulls are those of a CBOR map with the columns as its entries, in order. */
  lemma CborRow(columns: seq<Column>) returns (o: C.Object)
    requires SizedColumns(true, columns) && |columns| < 0x1_0000_0000
    ensures C.Legal(o) && o.Map? && CborFields(o.items, FieldsOf(columns))
    ensures C.Serialize(o) == Encode(RowItem(true, columns))
  {
    var items := CborColumns(columns);
    o := CborMap(|columns|, items, ColumnItems(true, columns));
    C.SameBytes(o);
  }
}
