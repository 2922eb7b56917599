/** What the readers make of any row that the encoders write: columns are read one after the other until an entry takes
    more than its own items along, or cannot be skipped. */
module RowReading {
  import opened Options
  import opened Bytes
  import opened Projection
  import opened Wire
  import opened Formats
  import opened Extraction
  import opened ItemStream
  import opened StructuredEncoder
  import opened PayloadRoundTrip

  // ---------------------------------------------------------------- encoded rows as streams

  predicate RowRepresentable(columns: seq<Column>) {
    forall c | c in columns :: |c.name| < TWO32 && Representable(c.value)
  }

  lemma {:induction false} ItemLoose(cbor: bool, fast: bool, floatText: FloatText, value: Value)
    requires Representable(value)
    ensures Loose(FormatOf(cbor, floatText), ItemOf(cbor, fast, value))
    decreases value, 0
  {
    match value
    case NullValue => NullIsTag(floatText);
    case List(children) =>
      CountHead(cbor, floatText, false, |children|, ItemsOf(cbor, children));
      ItemsLoose(cbor, floatText, children);
    case Struct(fields) =>
      CountHead(cbor, floatText, true, |fields|, FieldItems(cbor, fields));
      FieldsLoose(cbor, floatText, fields);
    case _ => ItemRight(cbor, fast, floatText, value);
  }

  lemma {:induction false} ItemsLoose(cbor: bool, floatText: FloatText, children: seq<Value>)
    requires AllRepresentable(children)
    ensures AllLoose(FormatOf(cbor, floatText), ItemsOf(cbor, children))
    decreases children, 1
  {
    if children != [] {
      assert ItemsOf(cbor, children)[1..] == ItemsOf(cbor, children[1..]);
      ItemLoose(cbor, false, floatText, children[0]);
      ItemsLoose(cbor, floatText, children[1..]);
    }
  }

  lemma PairLoose(format: Format, key: Item, value: Item, rest: seq<Item>)
    requires Loose(format, key) && Loose(format, value) && AllLoose(format, rest)
    ensures AllLoose(format, [key, value] + rest)
  {
    var items := [key, value] + rest;
    assert items[1..] == [value] + rest && items[1..][1..] == rest;
  }

  lemma TextLooseItem(cbor: bool, floatText: FloatText, s: Bytes)
    requires |s| < TWO32
    ensures var item, format := TextItem(cbor, s), FormatOf(cbor, floatText);
            Loose(format, item) && IsKey(format, item) && item.data == s
  {
    TextItemRight(cbor, floatText, s);
  }

  lemma {:induction false} FieldsLoose(cbor: bool, floatText: FloatText, fields: seq<Field>)
    requires FieldsRepresentable(fields)
    ensures AllLoose(FormatOf(cbor, floatText), FieldItems(cbor, fields))
    decreases fields, 1
  {
    if fields != [] {
      TextLooseItem(cbor, floatText, fields[0].name);
      ItemLoose(cbor, false, floatText, fields[0].value);
      FieldsLoose(cbor, floatText, fields[1..]);
      PairLoose(FormatOf(cbor, floatText), TextItem(cbor, fields[0].name), ItemOf(cbor, false, fields[0].value),
                FieldItems(cbor, fields[1..]));
    }
  }

  lemma {:induction false} ColumnsLoose(cbor: bool, floatText: FloatText, columns: seq<Column>)
    requires RowRepresentable(columns)
    ensures AllLoose(FormatOf(cbor, floatText), ColumnItems(cbor, columns))
  {
    if columns != [] {
      var c := columns[0];
      assert c in columns;
      TextLooseItem(cbor, floatText, c.name);
      ItemLoose(cbor, Fast(c), floatText, c.value);
      ColumnsLoose(cbor, floatText, columns[1..]);
      PairLoose(FormatOf(cbor, floatText), TextItem(cbor, c.name), ItemOf(cbor, Fast(c), c.value),
                ColumnItems(cbor, columns[1..]));
    }
  }

  lemma RowHead(cbor: bool, floatText: FloatText, columns: seq<Column>, p: Bytes)
    requires p == Encode(RowItem(cbor, columns))
    ensures p != [] && p[0] == RowItem(cbor, columns).tag
    ensures var start := 1 + |RowItem(cbor, columns).arg|;
            && MapHead(FormatOf(cbor, floatText), p, 1, p[0]) == Some((start, Kept(cbor, |columns|)))
            && Tail(p, start, EncodeAll(ColumnItems(cbor, columns)))
  {
    var item := RowItem(cbor, columns);
    ItemAt(p, 0, item);
    CountHead(cbor, floatText, true, |columns|, ColumnItems(cbor, columns));
    assert p[1..1 + |item.arg|] == item.arg;
  }

  /** Extracting dot-free names from any encoded row, whatever its values and counts, is reading the stream of its
      items, as many entries as the head announces. */
  lemma RowIsStream(cbor: bool, floatText: FloatText, columns: seq<Column>, paths: seq<Path>, outputs: seq<nat>,
                    row: seq<Cell>)
    requires RowRepresentable(columns) && Singles(paths) && InRange(outputs, paths, row)
    ensures DecodeRow(FormatOf(cbor, floatText), Encode(RowItem(cbor, columns)), paths, outputs, row)
            == StreamRow(FormatOf(cbor, floatText), ColumnItems(cbor, columns), Kept(cbor, |columns|), paths, outputs,
                         Cleared(outputs, row))
  {
    var format, p, items := FormatOf(cbor, floatText), Encode(RowItem(cbor, columns)), ColumnItems(cbor, columns);
    var start, clear := 1 + |RowItem(cbor, columns).arg|, Cleared(outputs, row);
    RowHead(cbor, floatText, columns, p);
    ColumnsLoose(cbor, floatText, columns);
    StreamExact(format, p, start, items, Kept(cbor, |columns|), paths, outputs, clear,
                EntriesAt(format, p, start, Kept(cbor, |columns|), 0, paths, outputs, clear),
                StreamRow(format, items, Kept(cbor, |columns|), paths, outputs, clear));
  }

  // ---------------------------------------------------------------- counts that fit

  /** The count of every list and struct inside fits its head. */
  predicate CountsFit(cbor: bool, value: Value)
    decreases value, 0
  {
    match value
    case List(children) => |children| < CountLimit(cbor) && AllCountsFit(cbor, children)
    case Struct(fields) => |fields| < CountLimit(cbor) && FieldCountsFit(cbor, fields)
    case _ => true
  }

  predicate AllCountsFit(cbor: bool, children: seq<Value>)
    decreases children, 1
  {
    children != [] ==> CountsFit(cbor, children[0]) && AllCountsFit(cbor, children[1..])
  }

  predicate FieldCountsFit(cbor: bool, fields: seq<Field>)
    decreases fields, 1
  {
    fields != [] ==> CountsFit(cbor, fields[0].value) && FieldCountsFit(cbor, fields[1..])
  }

  predicate RowCountsFit(cbor: bool, columns: seq<Column>) {
    forall c | c in columns :: CountsFit(cbor, c.value)
  }

  /** Every container holds as many items as its head announces. */
  predicate Counted(format: Format, item: Item)
    decreases item, 0
  {
    item.Group? ==> Announced(format, item) == |item.items| && AllCounted(format, item.items)
  }

  predicate AllCounted(format: Format, items: seq<Item>)
    decreases items, 1
  {
    items != [] ==> Counted(format, items[0]) && AllCounted(format, items[1..])
  }

  lemma {:induction false} CountedConcat(format: Format, a: seq<Item>, b: seq<Item>)
    requires AllCounted(format, a) && AllCounted(format, b)
    ensures AllCounted(format, a + b)
  {
    if a == [] {
      assert a + b == b;
    } else {
      assert (a + b)[1..] == a[1..] + b;
      CountedConcat(format, a[1..], b);
    }
  }

  lemma {:induction false} CountedDrop(format: Format, items: seq<Item>, k: nat)
    requires AllCounted(format, items) && k <= |items|
    ensures AllCounted(format, items[k..])
  {
    if k == 0 {
      assert items[0..] == items;
    } else {
      CountedDrop(format, items[1..], k - 1);
      assert items[1..][k - 1..] == items[k..];
    }
  }

  lemma {:induction false} ItemCounted(cbor: bool, fast: bool, floatText: FloatText, value: Value)
    requires CountsFit(cbor, value)
    ensures Counted(FormatOf(cbor, floatText), ItemOf(cbor, fast, value))
    decreases value, 0
  {
    match value
    case List(children) =>
      CountHead(cbor, floatText, false, |children|, ItemsOf(cbor, children));
      ItemsCounted(cbor, floatText, children);
    case Struct(fields) =>
      CountHead(cbor, floatText, true, |fields|, FieldItems(cbor, fields));
      FieldsCounted(cbor, floatText, fields);
    case _ =>
  }

  lemma {:induction false} ItemsCounted(cbor: bool, floatText: FloatText, children: seq<Value>)
    requires AllCountsFit(cbor, children)
    ensures AllCounted(FormatOf(cbor, floatText), ItemsOf(cbor, children))
    decreases children, 1
  {
    if children != [] {
      assert ItemsOf(cbor, children)[1..] == ItemsOf(cbor, children[1..]);
      ItemCounted(cbor, false, floatText, children[0]);
      ItemsCounted(cbor, floatText, children[1..]);
    }
  }

  lemma PairCounted(format: Format, key: Item, value: Item, rest: seq<Item>)
    requires !key.Group? && Counted(format, value) && AllCounted(format, rest)
    ensures AllCounted(format, [key, value] + rest)
  {
    var items := [key, value] + rest;
    assert items[1..] == [value] + rest && items[1..][1..] == rest;
  }

  lemma {:induction false} FieldsCounted(cbor: bool, floatText: FloatText, fields: seq<Field>)
    requires FieldCountsFit(cbor, fields)
    ensures AllCounted(FormatOf(cbor, floatText), FieldItems(cbor, fields))
    decreases fields, 1
  {
    if fields != [] {
      ItemCounted(cbor, false, floatText, fields[0].value);
      FieldsCounted(cbor, floatText, fields[1..]);
      PairCounted(FormatOf(cbor, floatText), TextItem(cbor, fields[0].name), ItemOf(cbor, false, fields[0].value),
                  FieldItems(cbor, fields[1..]));
    }
  }

  lemma {:induction false} ColumnsCounted(cbor: bool, floatText: FloatText, columns: seq<Column>)
    requires RowCountsFit(cbor, columns)
    ensures AllCounted(FormatOf(cbor, floatText), ColumnItems(cbor, columns))
  {
    if columns != [] {
      var c := columns[0];
      assert c in columns;
      ItemCounted(cbor, Fast(c), floatText, c.value);
      ColumnsCounted(cbor, floatText, columns[1..]);
      PairCounted(FormatOf(cbor, floatText), TextItem(cbor, c.name), ItemOf(cbor, Fast(c), c.value),
                  ColumnItems(cbor, columns[1..]));
    }
  }

  ghost predicate IsSuffix(left: seq<Item>, items: seq<Item>) {
    |left| <= |items| && left == items[|items| - |left|..]
  }

  lemma SuffixOfTail(left: seq<Item>, middle: seq<Item>, items: seq<Item>)
    requires items != [] && IsSuffix(middle, items[1..]) && IsSuffix(left, middle)
    ensures IsSuffix(left, items)
  {
    assert middle == items[|items| - |middle|..];
  }

  lemma {:induction false} CountedSuffix(format: Format, left: seq<Item>, items: seq<Item>)
    requires AllCounted(format, items) && IsSuffix(left, items)
    ensures AllCounted(format, left)
  {
    CountedDrop(format, items, |items| - |left|);
  }

  lemma SuffixOfEnd(left: seq<Item>, first: seq<Item>, rest: seq<Item>)
    requires IsSuffix(left, first + rest) && |left| <= |rest|
    ensures IsSuffix(left, rest)
  {
    assert (first + rest)[|first + rest| - |left|..] == rest[|rest| - |left|..];
  }

  /** Where all counts are right, skipping an item ends at a later item of the stream. */
  lemma {:induction false} TakeEnds(format: Format, items: seq<Item>, depth: nat, left: Option<seq<Item>>)
    requires items != [] && AllCounted(format, items) && left == Take(format, items, depth)
    ensures left.Some? ==> IsSuffix(left.value, items[1..])
    decreases |EncodeAll(items)|, 0
  {
    if depth <= MAX_DECODE_DEPTH && Encloses(format.shape(items[0].tag)) {
      CountedConcat(format, Kids(items[0]), items[1..]);
      TakeAllEnds(format, Opened(items), Announced(format, items[0]), depth + 1, left);
      if left.Some? {
        SuffixOfEnd(left.value, Kids(items[0]), items[1..]);
      }
    }
  }

  lemma {:induction false} TakeAllEnds(format: Format, items: seq<Item>, count: nat, depth: nat,
                                       left: Option<seq<Item>>)
    requires AllCounted(format, items) && left == TakeAll(format, items, count, depth)
    ensures left.Some? ==> IsSuffix(left.value, items) && |left.value| + count <= |items|
    decreases |EncodeAll(items)|, 1
  {
    if count > 0 && items != [] {
      var left1 := Take(format, items, depth);
      TakeEnds(format, items, depth, left1);
      if left1.Some? {
        CountedSuffix(format, left1.value, items[1..]);
        TakeAllEnds(format, left1.value, count - 1, depth, left);
        if left.Some? {
          SuffixOfTail(left.value, left1.value, items);
        }
      }
    }
  }
}
