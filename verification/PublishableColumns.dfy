/** The columns behind which any text reads back: exactly those whose value is skipped alone, which are the publishable
    ones.  In MessagePack a nested list or struct of 65536 or more elements leaves some of them to be read as the next
    column; in CBOR a nested null takes it along.  Only where a CBOR count wraps around as well can the two cancel. */
module PublishableColumns {
  import opened Options
  import opened Bytes
  import opened Projection
  import opened Wire
  import opened Formats
  import opened Extraction
  import opened FieldPaths
  import opened ItemStream
  import opened StructuredEncoder
  import opened PayloadRoundTrip
  import opened RowReading
  import opened RowReadBack
  import opened RowRoundTrip

  // ---------------------------------------------------------------- items that take others along

  /** What is left after an item whose counts are right: no more than what follows it, and all of that only if the item
      is well-formed. */
  ghost predicate ShortOf(left: Option<seq<Item>>, rest: seq<Item>, whole: bool) {
    left.Some? ==> IsSuffix(left.value, rest) && (|left.value| == |rest| ==> whole)
  }

  lemma {:induction false} TagTakesAlong(format: Format, item: Item, rest: seq<Item>, depth: nat,
                                         left: Option<seq<Item>>)
    requires Loose(format, item) && item.Atom? && Encloses(format.shape(item.tag)) && AllCounted(format, rest)
    requires left == TakeAll(format, Kids(item) + rest, Announced(format, item), depth + 1)
    ensures left.Some? ==> IsSuffix(left.value, rest) && |left.value| < |rest|
  {
    assert Kids(item) + rest == rest;
    TakeAllEnds(format, rest, 1, depth + 1, left);
  }

  lemma {:induction false} TakesAlong(format: Format, item: Item, rest: seq<Item>, depth: nat, left: Option<seq<Item>>)
    requires Loose(format, item) && Counted(format, item) && AllCounted(format, rest)
    requires left == Take(format, [item] + rest, depth)
    ensures ShortOf(left, rest, WellFormed(format, item))
    decreases item, 0
  {
    TakeOpens(format, item, rest, depth);
    if depth <= MAX_DECODE_DEPTH && Encloses(format.shape(item.tag)) {
      if item.Group? {
        AllTakeAlong(format, item.items, rest, depth + 1, left);
      } else {
        TagTakesAlong(format, item, rest, depth, left);
      }
    }
  }

  lemma SuffixOfSuffix(left: seq<Item>, middle: seq<Item>, first: seq<Item>, rest: seq<Item>)
    requires IsSuffix(left, middle) && IsSuffix(middle, first + rest) && |left| <= |rest|
    ensures IsSuffix(left, rest)
  {
    var all := first + rest;
    assert middle[|middle| - |left|..] == all[|all| - |left|..] == rest[|rest| - |left|..];
  }

  /** Once something is missing, it stays missing. */
  lemma {:induction false} MissingStays(format: Format, middle: seq<Item>, first: seq<Item>, rest: seq<Item>,
                                        depth: nat, left: Option<seq<Item>>)
    requires AllCounted(format, first + rest) && IsSuffix(middle, first + rest) && |middle| < |first + rest|
    requires left == TakeAll(format, middle, |first|, depth)
    ensures left.Some? ==> IsSuffix(left.value, rest) && |left.value| < |rest|
  {
    CountedDrop(format, first + rest, |first + rest| - |middle|);
    TakeAllEnds(format, middle, |first|, depth, left);
    if left.Some? {
      SuffixOfSuffix(left.value, middle, first, rest);
    }
  }

  lemma {:induction false} AllTakeAlong(format: Format, items: seq<Item>, rest: seq<Item>, depth: nat,
                                        left: Option<seq<Item>>)
    requires AllLoose(format, items) && AllCounted(format, items) && AllCounted(format, rest)
    requires left == TakeAll(format, items + rest, |items|, depth)
    ensures ShortOf(left, rest, AllWellFormed(format, items))
    decreases items, 1
  {
    if items == [] {
      assert items + rest == rest;
    } else {
      var others := items[1..] + rest;
      assert items + rest == [items[0]] + others && |items + rest| > 0;
      CountedConcat(format, items[1..], rest);
      var left1 := Take(format, items + rest, depth);
      TakesAlong(format, items[0], others, depth, left1);
      if left1.Some? {
        if |left1.value| == |others| {
          AllTakeAlong(format, items[1..], rest, depth, left);
        } else {
          MissingStays(format, left1.value, items[1..], rest, depth, left);
        }
      }
    }
  }

  // ---------------------------------------------------------------- items that leave some of their own

  /** No tags, and no container announces more than it holds. */
  predicate Modest(format: Format, item: Item)
    decreases item, 0
  {
    && !format.shape(item.tag).Tagged?
    && (item.Group? ==> Announced(format, item) <= |item.items| && AllModest(format, item.items))
  }

  predicate AllModest(format: Format, items: seq<Item>)
    decreases items, 1
  {
    items != [] ==> Modest(format, items[0]) && AllModest(format, items[1..])
  }

  lemma {:induction false} ModestConcat(format: Format, a: seq<Item>, b: seq<Item>)
    requires AllModest(format, a) && AllModest(format, b)
    ensures AllModest(format, a + b)
  {
    if a == [] {
      assert a + b == b;
    } else {
      assert (a + b)[1..] == a[1..] + b;
      ModestConcat(format, a[1..], b);
    }
  }

  /** Of `items`, at most the first `n` are gone, and no less only if these are well-formed. */
  ghost predicate Leaves(format: Format, items: seq<Item>, n: nat, left: Option<seq<Item>>) {
    left.Some? && n <= |items| ==>
      && AllLoose(format, left.value) && AllModest(format, left.value) && |left.value| >= |items| - n
      && (|left.value| == |items| - n ==> left.value == items[n..] && AllWellFormed(format, items[..n]))
  }

  lemma {:induction false} TakeLeaves(format: Format, items: seq<Item>, depth: nat, left: Option<seq<Item>>)
    requires items != [] && AllLoose(format, items) && AllModest(format, items)
    requires left == Take(format, items, depth)
    ensures Leaves(format, items, 1, left)
    decreases |EncodeAll(items)|, 0
  {
    var item, others := items[0], items[1..];
    assert items[..1] == [item];
    if depth <= MAX_DECODE_DEPTH && Encloses(format.shape(item.tag)) {
      var kids, n := Kids(item), Announced(format, item);
      LooseConcat(format, kids, others);
      ModestConcat(format, kids, others);
      TakeAllLeaves(format, Opened(items), n, depth + 1, left);
      assert n == |kids| ==> Opened(items)[..n] == kids && Opened(items)[n..] == others;
    }
  }

  lemma {:induction false} TakeAllLeaves(format: Format, items: seq<Item>, n: nat, depth: nat, left: Option<seq<Item>>)
    requires n <= |items| && AllLoose(format, items) && AllModest(format, items)
    requires left == TakeAll(format, items, n, depth)
    ensures Leaves(format, items, n, left)
    decreases |EncodeAll(items)|, 1
  {
    if n > 0 {
      var left1 := Take(format, items, depth);
      TakeLeaves(format, items, depth, left1);
      if left1.Some? {
        TakeAllLeaves(format, left1.value, n - 1, depth, left);
        assert items[1..][..n - 1] == items[..n][1..];
        assert items[1..][n - 1..] == items[n..];
      }
    }
  }

  // ---------------------------------------------------------------- items and what stands behind them

  /** Heads that announce nothing. */
  predicate AllPlain(format: Format, items: seq<Item>) {
    forall item | item in items :: !Encloses(format.shape(item.tag))
  }

  /** What stands behind stays behind what is left of the items themselves, or loses some of its own. */
  ghost predicate Framed(own: Option<seq<Item>>, left: Option<seq<Item>>, rest: seq<Item>) {
    match own
    case Some(own) => left == Some(own + rest)
    case None => left.Some? ==> IsSuffix(left.value, rest) && |left.value| < |rest|
  }

  lemma {:induction false} PlainTaken(format: Format, items: seq<Item>, n: nat, depth: nat, left: Option<seq<Item>>)
    requires AllPlain(format, items) && left == TakeAll(format, items, n, depth)
    ensures left.Some? ==> IsSuffix(left.value, items) && |left.value| + n == |items|
  {
    if n > 0 && items != [] && depth <= MAX_DECODE_DEPTH {
      PlainTaken(format, items[1..], n - 1, depth, left);
      if left.Some? {
        SuffixOfTail(left.value, items[1..], items);
      }
    }
  }

  lemma {:induction false} PlainLeft(format: Format, left1: seq<Item>, rest: seq<Item>, n: nat, depth: nat,
                                     left: Option<seq<Item>>)
    requires AllPlain(format, rest) && IsSuffix(left1, rest) && |left1| < |rest|
    requires left == TakeAll(format, left1, n, depth)
    ensures Framed(None, left, rest)
  {
    PlainTaken(format, left1, n, depth, left);
    if left.Some? {
      SuffixOfSuffix(left.value, left1, [], rest);
    }
  }

  lemma {:induction false} TakeFrame(format: Format, items: seq<Item>, rest: seq<Item>, depth: nat,
                                     own: Option<seq<Item>>, left: Option<seq<Item>>)
    requires items != [] && AllPlain(format, rest)
    requires own == Take(format, items, depth) && left == Take(format, items + rest, depth)
    ensures Framed(own, left, rest)
    decreases |EncodeAll(items)|, 0
  {
    var kids, others := Kids(items[0]), items[1..];
    assert (items + rest)[1..] == others + rest;
    if depth <= MAX_DECODE_DEPTH && Encloses(format.shape(items[0].tag)) {
      assert Opened(items + rest) == kids + (others + rest) == Opened(items) + rest;
      TakeAllFrame(format, Opened(items), rest, Announced(format, items[0]), depth + 1, own, left);
    }
  }

  lemma {:induction false} TakeAllFrame(format: Format, items: seq<Item>, rest: seq<Item>, n: nat, depth: nat,
                                        own: Option<seq<Item>>, left: Option<seq<Item>>)
    requires AllPlain(format, rest)
    requires own == TakeAll(format, items, n, depth) && left == TakeAll(format, items + rest, n, depth)
    ensures Framed(own, left, rest)
    decreases |EncodeAll(items)|, 1
  {
    if n > 0 {
      if items == [] {
        assert items + rest == rest;
        PlainTaken(format, rest, n, depth, left);
      } else {
        var own1, left1 := Take(format, items, depth), Take(format, items + rest, depth);
        TakeFrame(format, items, rest, depth, own1, left1);
        if own1.Some? {
          TakeAllFrame(format, own1.value, rest, n - 1, depth, own, left);
        } else if left1.Some? {
          PlainLeft(format, left1.value, rest, n - 1, depth, left);
        }
      }
    }
  }

  // ---------------------------------------------------------------- a column and a text behind it

  lemma MsgpackHasNoTags(floatText: FloatText, tag: byte)
    ensures !Msgpack(floatText).shape(tag).Tagged?
  {
  }

  lemma {:induction false} ItemModest(floatText: FloatText, fast: bool, value: Value)
    ensures Modest(Msgpack(floatText), ItemOf(false, fast, value))
    decreases value, 0
  {
    MsgpackHasNoTags(floatText, ItemOf(false, fast, value).tag);
    match value
    case List(children) =>
      CountHead(false, floatText, false, |children|, ItemsOf(false, children));
      ItemsModest(floatText, children);
    case Struct(fields) =>
      CountHead(false, floatText, true, |fields|, FieldItems(false, fields));
      FieldsModest(floatText, fields);
    case _ =>
  }

  lemma {:induction false} ItemsModest(floatText: FloatText, children: seq<Value>)
    ensures AllModest(Msgpack(floatText), ItemsOf(false, children))
    decreases children, 1
  {
    if children != [] {
      assert ItemsOf(false, children)[1..] == ItemsOf(false, children[1..]);
      ItemModest(floatText, false, children[0]);
      ItemsModest(floatText, children[1..]);
    }
  }

  lemma PairModest(format: Format, key: Item, value: Item, rest: seq<Item>)
    requires key.Blob? && !format.shape(key.tag).Tagged? && Modest(format, value) && AllModest(format, rest)
    ensures AllModest(format, [key, value] + rest)
  {
    var items := [key, value] + rest;
    assert items[1..] == [value] + rest && items[1..][1..] == rest;
  }

  lemma {:induction false} FieldsModest(floatText: FloatText, fields: seq<Field>)
    ensures AllModest(Msgpack(floatText), FieldItems(false, fields))
    decreases fields, 1
  {
    if fields != [] {
      var key := TextItem(false, fields[0].name);
      MsgpackHasNoTags(floatText, key.tag);
      ItemModest(floatText, false, fields[0].value);
      FieldsModest(floatText, fields[1..]);
      PairModest(Msgpack(floatText), key, ItemOf(false, false, fields[0].value), FieldItems(false, fields[1..]));
    }
  }

  /** A text column. */
  function TextColumn(name: Bytes, text: Bytes): Column { Column(name, true, Str(text)) }

  /** A row of two columns, read by their names. */
  ghost predicate ReadByName(c: Column, name: Bytes, paths: seq<Path>, outputs: seq<nat>, width: nat) {
    && |c.name| < TWO32 && |name| < TWO32 && c.name != name
    && RequestsAll([c, TextColumn(name, [])], paths) && Columns(outputs, paths, width)
  }

  lemma TwoColumns(c: Column, name: Bytes, text: Bytes, paths: seq<Path>, outputs: seq<nat>, width: nat)
    requires ReadByName(c, name, paths, outputs, width) && Representable(c.value) && |text| < TWO32
    ensures var columns := [c, TextColumn(name, text)];
            && RowRepresentable(columns) && DistinctNames(columns)
            && RequestsAll(columns, paths) && Requests(columns, paths, outputs, width)
  {
    var columns, blank := [c, TextColumn(name, text)], [c, TextColumn(name, [])];
    forall i | 0 <= i < 2 ensures DOT !in columns[i].name && SplitOf(paths[i], columns[i].name) {
      assert columns[i].name == blank[i].name;
    }
  }

  /** Whatever text the column behind has, the row reads back. */
  ghost predicate SafeBefore(cbor: bool, floatText: FloatText, c: Column, name: Bytes, paths: seq<Path>,
                             outputs: seq<nat>, row: seq<Cell>)
    requires ReadByName(c, name, paths, outputs, |row|)
  {
    forall text: Bytes | |text| < TWO32 ::
      ReadsBack(cbor, floatText, [c, TextColumn(name, text)], paths, outputs, row)
  }

  /** Skipping the column's value takes all of it and nothing else. */
  ghost predicate TakenAlone(cbor: bool, floatText: FloatText, c: Column) {
    Take(FormatOf(cbor, floatText), [ItemOf(cbor, Fast(c), c.value)], 0) == Some([])
  }

  lemma {:induction false} TwoColumnItems(cbor: bool, floatText: FloatText, c: Column, name: Bytes, text: Bytes,
                                          items: seq<Item>)
    requires |name| < TWO32 && |text| < TWO32 && items == ColumnItems(cbor, [c, TextColumn(name, text)])
    ensures |items| == 4 && items[2] == TextItem(cbor, name)
    ensures items[1..] == [ItemOf(cbor, Fast(c), c.value)] + items[2..]
    ensures AllPlain(FormatOf(cbor, floatText), items[2..])
  {
    var columns := [c, TextColumn(name, text)];
    ItemsAt(cbor, columns, 0);
    ItemsAt(cbor, columns, 1);
    TextReads(cbor, floatText, name);
    TextReads(cbor, floatText, text);
    assert items[2..] == [TextItem(cbor, name), TextItem(cbor, text)];
  }

  /** What is left behind the value when a name and a text stand behind it. */
  lemma {:induction false} LeftBehind(cbor: bool, floatText: FloatText, c: Column, name: Bytes, text: Bytes,
                                      items: seq<Item>, own: Option<seq<Item>>)
    requires |name| < TWO32 && |text| < TWO32 && items == ColumnItems(cbor, [c, TextColumn(name, text)])
    requires own == Take(FormatOf(cbor, floatText), [ItemOf(cbor, Fast(c), c.value)], 0)
    ensures |items| == 4 && items[2] == TextItem(cbor, name)
    ensures Framed(own, Take(FormatOf(cbor, floatText), items[1..], 0), items[2..])
  {
    var format := FormatOf(cbor, floatText);
    TwoColumnItems(cbor, floatText, c, name, text, items);
    TakeFrame(format, [ItemOf(cbor, Fast(c), c.value)], items[2..], 0, own, Take(format, items[1..], 0));
  }

  lemma {:induction false} TextPublishable(cbor: bool, floatText: FloatText, name: Bytes, text: Bytes)
    requires |name| < TWO32 && |text| < TWO32
    ensures Publishable(cbor, TextColumn(name, text))
  {
    TextItemRight(cbor, floatText, text);
  }

  lemma {:induction false} FirstAlone(format: Format, items: seq<Item>, left: Option<seq<Item>>)
    requires |items| == 4 && left == Take(format, items[1..], 0) && Framed(Some([]), left, items[2..])
    ensures Alone(format, items, 0)
  {
    assert [] + items[2..] == items[2..];
    EndAtColumn(items, 1, left);
  }

  lemma {:induction false} BothAlone(cbor: bool, floatText: FloatText, c: Column, name: Bytes, text: Bytes,
                                     items: seq<Item>)
    requires |name| < TWO32 && |text| < TWO32 && items == ColumnItems(cbor, [c, TextColumn(name, text)])
    requires TakenAlone(cbor, floatText, c)
    ensures AllAlone(FormatOf(cbor, floatText), items, 2)
  {
    var format, columns := FormatOf(cbor, floatText), [c, TextColumn(name, text)];
    assert Alone(format, items, 0) by {
      LeftBehind(cbor, floatText, c, name, text, items, Some([]));
      FirstAlone(format, items, Take(format, items[1..], 0));
    }
    assert Alone(format, items, 1) by {
      TextPublishable(cbor, floatText, name, text);
      AfterPublishable(cbor, floatText, columns, items, 1);
    }
    TwoAlone(format, items);
  }

  lemma {:induction false} TwoAlone(format: Format, items: seq<Item>)
    requires Alone(format, items, 0) && Alone(format, items, 1)
    ensures AllAlone(format, items, 2)
  {
  }

  lemma {:induction false} AloneReadsBack(cbor: bool, floatText: FloatText, c: Column, name: Bytes, text: Bytes,
                                          paths: seq<Path>, outputs: seq<nat>, row: seq<Cell>)
    requires ReadByName(c, name, paths, outputs, |row|) && Representable(c.value) && |text| < TWO32
    requires TakenAlone(cbor, floatText, c)
    ensures ReadsBack(cbor, floatText, [c, TextColumn(name, text)], paths, outputs, row)
  {
    var format, columns, visited := FormatOf(cbor, floatText), [c, TextColumn(name, text)], WithBelow(2, {});
    TwoColumns(c, name, text, paths, outputs, |row|);
    BothAlone(cbor, floatText, c, name, text, ColumnItems(cbor, columns));
    ReadsAlone(format, ColumnItems(cbor, columns), 2, 0, 2, {}, visited);
    WithBelowHas(2, {});
    AlignedReadsBack(cbor, floatText, columns, paths, outputs, row, visited);
  }

  /** One entry writes at most the scalar behind its key. */
  lemma {:induction false} OneEntry(format: Format, items: seq<Item>, paths: seq<Path>, outputs: seq<nat>,
                                    row: seq<Cell>, out: seq<Cell>, at: nat)
    requires |items| >= 2 && InRange(outputs, paths, row) && at < |row|
    requires out == StreamRow(format, items, 1, paths, outputs, row)
    ensures out[at] == row[at] || ScalarOf(format, items[1]) == Some(out[at])
  {
    var entry := StreamEntry(format, items, paths, outputs, row);
    if entry.Some? {
      var (left, row1) := entry.value;
      assert out == StreamRow(format, left, 0, paths, outputs, row1) == row1;
    }
  }

  /** The row after a value that is not skipped alone: the text's cell stays null or holds a scalar found in front. */
  lemma {:induction false} ReadAmiss(format: Format, floatText: FloatText, columns: seq<Column>, items: seq<Item>,
                                     own: Option<seq<Item>>, paths: seq<Path>, outputs: seq<nat>, clear: seq<Cell>,
                                     out: seq<Cell>)
    requires |columns| == 2 && RowOf(format, floatText, items, columns) && Requests(columns, paths, outputs, |clear|)
    requires Framed(own, Take(format, items[1..], 0), items[2..]) && own != Some([])
    requires ScalarOf(format, items[1]).None? && clear[outputs[1]] == Null
    requires out == StreamRow(format, items, 2, paths, outputs, clear)
    ensures out[outputs[1]] == Null || FoundIn(format, own, items[2]) == Some(out[outputs[1]])
  {
    assert items[0..] == items;
    ColumnEntry(format, floatText, items, columns, 0, paths, outputs, clear);
    var left := Take(format, items[1..], 0);
    if left.Some? {
      assert out == StreamRow(format, left.value, 1, paths, outputs, clear);
      if own.Some? {
        OneEntry(format, left.value, paths, outputs, clear, out, outputs[1]);
        assert left.value[1] == (own.value + [items[2]])[1];
      }
    }
  }

  /** A text that is not what is found there. */
  function OtherText(found: Option<Cell>): (text: Bytes)
    ensures found != Some(Text(text))
  {
    if found == Some(Text([])) then [0] else []
  }

  /** The scalar in front of the name behind a value, if anything is left there. */
  function FoundIn(format: Format, own: Option<seq<Item>>, key: Item): Option<Cell> {
    if own.Some? && own.value != [] then ScalarOf(format, (own.value + [key])[1]) else None
  }

  lemma {:induction false} NoScalar(cbor: bool, floatText: FloatText, c: Column)
    requires Representable(c.value) && !TakenAlone(cbor, floatText, c)
    ensures ScalarOf(FormatOf(cbor, floatText), ItemOf(cbor, Fast(c), c.value)).None?
  {
    ValueReads(cbor, Fast(c), floatText, c.value);
  }

  lemma {:induction false} TextMissed(cbor: bool, floatText: FloatText, c: Column, name: Bytes,
                                      own: Option<seq<Item>>, text: Bytes, paths: seq<Path>, outputs: seq<nat>,
                                      row: seq<Cell>)
    requires ReadByName(c, name, paths, outputs, |row|) && Representable(c.value) && !TakenAlone(cbor, floatText, c)
    requires own == Take(FormatOf(cbor, floatText), [ItemOf(cbor, Fast(c), c.value)], 0)
    requires |text| < TWO32 && FoundIn(FormatOf(cbor, floatText), own, TextItem(cbor, name)) != Some(Text(text))
    ensures !ReadsBack(cbor, floatText, [c, TextColumn(name, text)], paths, outputs, row)
  {
    var format, columns := FormatOf(cbor, floatText), [c, TextColumn(name, text)];
    var items, clear := ColumnItems(cbor, columns), Cleared(outputs, row);
    TwoColumns(c, name, text, paths, outputs, |row|);
    NamesCompatible(columns, paths);
    RowIsStream(cbor, floatText, columns, paths, outputs, row);
    RowOfColumns(cbor, floatText, columns);
    LeftBehind(cbor, floatText, c, name, text, items, own);
    ItemsAt(cbor, columns, 0);
    NoScalar(cbor, floatText, c);
    var out := StreamRow(format, items, 2, paths, outputs, clear);
    ReadAmiss(format, floatText, columns, items, own, paths, outputs, clear, out);
    assert TextOf(floatText, columns[1].value) == Text(text);
  }

  /** Whatever text stands behind a column, in a row of the two, the row reads back exactly when the column's value is
      skipped alone; for any value, in either format. */
  lemma {:induction false} SafeIff(cbor: bool, floatText: FloatText, c: Column, name: Bytes, paths: seq<Path>,
                                   outputs: seq<nat>, row: seq<Cell>)
    requires ReadByName(c, name, paths, outputs, |row|) && Representable(c.value)
    ensures SafeBefore(cbor, floatText, c, name, paths, outputs, row) <==> TakenAlone(cbor, floatText, c)
  {
    if TakenAlone(cbor, floatText, c) {
      forall text: Bytes | |text| < TWO32
        ensures ReadsBack(cbor, floatText, [c, TextColumn(name, text)], paths, outputs, row)
      {
        AloneReadsBack(cbor, floatText, c, name, text, paths, outputs, row);
      }
    } else {
      var format := FormatOf(cbor, floatText);
      var own := Take(format, [ItemOf(cbor, Fast(c), c.value)], 0);
      var text := OtherText(FoundIn(format, own, TextItem(cbor, name)));
      TextMissed(cbor, floatText, c, name, own, text, paths, outputs, row);
    }
  }

  /** Only a well-formed item is skipped alone, where counts fit or there are no nulls to make up for them. */
  lemma {:induction false} AloneIsWhole(cbor: bool, floatText: FloatText, c: Column)
    requires Representable(c.value) && (cbor ==> CountsFit(cbor, c.value)) && TakenAlone(cbor, floatText, c)
    ensures WellFormed(FormatOf(cbor, floatText), ItemOf(cbor, Fast(c), c.value))
  {
    var format, item := FormatOf(cbor, floatText), ItemOf(cbor, Fast(c), c.value);
    ItemLoose(cbor, Fast(c), floatText, c.value);
    assert [item] + [] == [item];
    if cbor {
      ItemCounted(cbor, Fast(c), floatText, c.value);
      TakesAlong(format, item, [], 0, Some([]));
    } else {
      ItemModest(floatText, Fast(c), c.value);
      TakeLeaves(format, [item], 0, Some([]));
      assert [item][..1] == [item];
    }
  }

  lemma {:induction false} PublishableIffAlone(cbor: bool, floatText: FloatText, c: Column)
    requires |c.name| < TWO32 && Representable(c.value) && (cbor ==> CountsFit(cbor, c.value))
    ensures Publishable(cbor, c) <==> TakenAlone(cbor, floatText, c)
  {
    var item := ItemOf(cbor, Fast(c), c.value);
    assert [item] + [] == [item];
    if Publishable(cbor, c) {
      TakePublishable(cbor, floatText, c, []);
    }
    if TakenAlone(cbor, floatText, c) {
      AloneIsWhole(cbor, floatText, c);
      OnlySized(cbor, Fast(c), floatText, c.value);
      TakeWhole(FormatOf(cbor, floatText), item, [], 0);
    }
  }

  /** Whatever text stands behind a column, in a row of the two, the row reads back exactly when the column is
      publishable: its counts fit their heads, it is not nested too deep, and in CBOR it holds no null. */
  lemma {:induction false} PublishableIff(cbor: bool, floatText: FloatText, c: Column, name: Bytes, paths: seq<Path>,
                                          outputs: seq<nat>, row: seq<Cell>)
    requires ReadByName(c, name, paths, outputs, |row|) && Representable(c.value) && (cbor ==> CountsFit(cbor, c.value))
    ensures Publishable(cbor, c) <==> SafeBefore(cbor, floatText, c, name, paths, outputs, row)
  {
    SafeIff(cbor, floatText, c, name, paths, outputs, row);
    PublishableIffAlone(cbor, floatText, c);
  }

  // ---------------------------------------------------------------- counts that wrap around

  /** So many times two nulls and a boolean. */
  function Blocks(n: nat): (children: seq<Value>)
    ensures |children| == 3 * n
  {
    if n == 0 then [] else [NullValue, NullValue, Boolean(true)] + Blocks(n - 1)
  }

  lemma {:induction false} BlocksRepresentable(n: nat)
    ensures AllRepresentable(Blocks(n))
  {
    if n > 0 {
      BlocksRepresentable(n - 1);
      var children := Blocks(n);
      assert children[1..][1..][1..] == Blocks(n - 1);
      assert AllRepresentable(children[1..][1..]) && AllRepresentable(children[1..]);
    }
  }

  function BlockOf(rest: seq<Item>): seq<Item> {
    [NULL_ITEM] + ([NULL_ITEM] + ([ItemOf(true, false, Boolean(true))] + rest))
  }

  lemma {:induction false} BlockItems(n: nat)
    requires n > 0
    ensures ItemsOf(true, Blocks(n)) == BlockOf(ItemsOf(true, Blocks(n - 1)))
  {
    var children := Blocks(n);
    assert children[1..][1..][1..] == Blocks(n - 1);
    assert ItemsOf(true, children[1..][1..]) == [ItemOf(true, false, Boolean(true))] + ItemsOf(true, Blocks(n - 1));
    assert ItemsOf(true, children[1..]) == [NULL_ITEM] + ItemsOf(true, children[1..][1..]);
  }

  lemma {:induction false} BlockTaken(floatText: FloatText, rest: seq<Item>)
    ensures Take(Cbor(floatText), BlockOf(rest), 1) == Some(rest)
  {
    var flag := ItemOf(true, false, Boolean(true));
    ItemRight(true, false, floatText, Boolean(true));
    TakeWhole(Cbor(floatText), flag, rest, 3);
    NullTakesOne(floatText, [flag] + rest, 2, Some(rest));
    NullTakesOne(floatText, [NULL_ITEM] + ([flag] + rest), 1, Some(rest));
  }

  /** Each block is taken for one element. */
  lemma {:induction false} BlocksTaken(floatText: FloatText, n: nat)
    ensures TakeAll(Cbor(floatText), ItemsOf(true, Blocks(n)), n, 1) == Some([])
  {
    if n > 0 {
      BlockItems(n);
      BlockTaken(floatText, ItemsOf(true, Blocks(n - 1)));
      BlocksTaken(floatText, n - 1);
    }
  }

  lemma {:induction false} TakenInside(format: Format, item: Item, n: nat)
    requires Encloses(format.shape(item.tag)) && Announced(format, item) == n
    requires TakeAll(format, Kids(item), n, 1) == Some([])
    ensures Take(format, [item], 0) == Some([])
  {
    TakeOpens(format, item, [], 0);
    assert [item] + [] == [item] && Kids(item) + [] == Kids(item);
  }

  lemma {:induction false} WrappedAlone(floatText: FloatText, c: Column, n: nat)
    requires n == 0x8000_0000 && c.value == List(Blocks(n))
    ensures TakenAlone(true, floatText, c) && Representable(c.value)
  {
    BlocksRepresentable(n);
    BlocksTaken(floatText, n);
    assert Kept(true, 3 * n) == n;
    CountHead(true, floatText, false, 3 * n, ItemsOf(true, Blocks(n)));
    TakenInside(Cbor(floatText), ItemOf(true, Fast(c), c.value), n);
  }

  /** A list of 3 * 2^31 elements announces 2^31; when each that is taken takes two more along, it is skipped alone
      although it is not well-formed.  So in CBOR a column whose counts do not fit can be safe. */
  lemma {:induction false} WrappedListIsSafe(floatText: FloatText, c: Column, n: nat, name: Bytes, paths: seq<Path>,
                                             outputs: seq<nat>, row: seq<Cell>)
    requires n == 0x8000_0000 && c.value == List(Blocks(n)) && ReadByName(c, name, paths, outputs, |row|)
    ensures SafeBefore(true, floatText, c, name, paths, outputs, row) && !Publishable(true, c)
  {
    WrappedAlone(floatText, c, n);
    SafeIff(true, floatText, c, name, paths, outputs, row);
    TooMany(c.value);
  }

  lemma {:induction false} TooMany(value: Value)
    requires value.List? && |value.children| >= TWO32
    ensures !Sized(true, value)
  {
  }

  // ---------------------------------------------------------------- for example

  lemma NullIsNoKey(floatText: FloatText)
    ensures !IsKey(Msgpack(floatText), NULL_ITEM)
  {
  }

  /** A MessagePack list of 65536 elements announces none, so its elements are read as columns; when the first is a
      null, that ends the row, and nothing is read at all. */
  lemma LongListLosesRow(floatText: FloatText, columns: seq<Column>, children: seq<Value>, paths: seq<Path>,
                         outputs: seq<nat>, row: seq<Cell>)
    requires |columns| == 2 && columns[0].value == List(children) && |children| == 0x1_0000 && children[0].NullValue?
    requires RowRepresentable(columns) && DistinctNames(columns)
    requires RequestsAll(columns, paths) && Columns(outputs, paths, |row|)
    ensures DecodeRow(Msgpack(floatText), Encode(RowItem(false, columns)), paths, outputs, row) == Cleared(outputs, row)
  {
    var format, items, clear := Msgpack(floatText), ColumnItems(false, columns), Cleared(outputs, row);
    NamesCompatible(columns, paths);
    RowIsStream(false, floatText, columns, paths, outputs, row);
    RowOfColumns(false, floatText, columns);
    ValueAndRest(false, columns, items, 0);
    CountHead(false, floatText, false, |children|, ItemsOf(false, children));
    assert ItemsOf(false, children)[0] == NULL_ITEM;
    NullIsNoKey(floatText);
    assert Kept(false, |children|) == 0;
    LongListLeft(format, floatText, columns, items, ItemsOf(false, children), paths, outputs, clear);
  }

  lemma {:induction false} LongListLeft(format: Format, floatText: FloatText, columns: seq<Column>, items: seq<Item>,
                                        kids: seq<Item>, paths: seq<Path>, outputs: seq<nat>, clear: seq<Cell>)
    requires |columns| == 2 && RowOf(format, floatText, items, columns) && Requests(columns, paths, outputs, |clear|)
    requires items[1].Group? && items[1].items == kids && kids != [] && !IsKey(format, kids[0])
    requires Encloses(format.shape(items[1].tag)) && Announced(format, items[1]) == 0
    ensures StreamRow(format, items, 2, paths, outputs, clear) == clear
  {
    var rest, left := items[2..], kids + items[2..];
    assert items[0..] == items && items[1..][1..] == rest;
    assert Take(format, items[1..], 0) == TakeAll(format, left, 0, 1) == Some(left);
    ColumnEntry(format, floatText, items, columns, 0, paths, outputs, clear);
    assert left[0] == kids[0];
    assert StreamRow(format, left, 1, paths, outputs, clear) == clear;
  }
}
