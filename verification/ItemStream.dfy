/** The readers on a stream of items rather than bytes.  The stream need not be what the heads announce: a head may
    count fewer items than its container holds, and a tag may take the next item along. */
module ItemStream {
  import opened Options
  import opened Bytes
  import opened Projection
  import opened Wire
  import opened Extraction

  function Kids(item: Item): seq<Item> {
    if item.Group? then item.items else []
  }

  predicate Encloses(shape: Shape) { shape.Nest? || shape.Tagged? }

  /** How many items the head of an array, map or tag announces. */
  function Announced(format: Format, item: Item): nat {
    match format.shape(item.tag)
    case Tagged(_) => 1
    case Nest(width, inline, isMap) => Children(isMap, Argument(width, inline, item.arg))
    case _ => 0
  }

  /** Every head has its argument and every blob its length; containers may hold more or fewer items than announced. */
  predicate Loose(format: Format, item: Item)
    decreases item, 0
  {
    var shape := format.shape(item.tag);
    match item
    case Atom(_, arg) => (shape.Leaf? || shape.Tagged?) && shape.width == |arg|
    case Blob(_, arg, data) =>
      shape.Run? && shape.width == |arg| && Argument(shape.width, shape.inline, arg) == |data|
    case Group(_, arg, items) => shape.Nest? && shape.width == |arg| && AllLoose(format, items)
  }

  predicate AllLoose(format: Format, items: seq<Item>)
    decreases items, 1
  {
    items != [] ==> Loose(format, items[0]) && AllLoose(format, items[1..])
  }

  lemma {:induction false} LooseConcat(format: Format, a: seq<Item>, b: seq<Item>)
    requires AllLoose(format, a) && AllLoose(format, b)
    ensures AllLoose(format, a + b)
  {
    if a == [] {
      assert a + b == b;
    } else {
      assert (a + b)[1..] == a[1..] + b;
      LooseConcat(format, a[1..], b);
    }
  }

  // ---------------------------------------------------------------- skipping on a stream

  function Opened(items: seq<Item>): (inside: seq<Item>)
    requires items != []
    ensures |EncodeAll(inside)| < |EncodeAll(items)|
  {
    EncodeConcat(Kids(items[0]), items[1..]);
    assert |EncodeAll(Kids(items[0]))| < |Encode(items[0])| by {
      assert EncodeAll(Kids(items[0])) == [] || EncodeAll(Kids(items[0])) == Contents(items[0]);
    }
    Kids(items[0]) + items[1..]
  }

  /** What is left after skipping the first item; None when the skipper gives up. */
  function Take(format: Format, items: seq<Item>, depth: nat): (left: Option<seq<Item>>)
    requires items != []
    ensures left.Some? ==> |EncodeAll(left.value)| < |EncodeAll(items)|
    decreases |EncodeAll(items)|, 0
  {
    if depth > MAX_DECODE_DEPTH then None
    else if !Encloses(format.shape(items[0].tag)) then Some(Rest(items))
    else TakeAll(format, Opened(items), Announced(format, items[0]), depth + 1)
  }

  function Rest(items: seq<Item>): (rest: seq<Item>)
    requires items != []
    ensures |EncodeAll(rest)| < |EncodeAll(items)|
  {
    items[1..]
  }

  function TakeAll(format: Format, items: seq<Item>, count: nat, depth: nat): (left: Option<seq<Item>>)
    ensures left.Some? ==> |EncodeAll(left.value)| <= |EncodeAll(items)|
    decreases |EncodeAll(items)|, 1
  {
    if count == 0 then Some(items)
    else if items == [] then None
    else
      match Take(format, items, depth)
      case None => None
      case Some(left) => TakeAll(format, left, count - 1, depth)
  }

  /** Skipping an item with others behind it. */
  lemma {:induction false} TakeOpens(format: Format, item: Item, rest: seq<Item>, depth: nat)
    ensures Take(format, [item] + rest, depth)
            == if depth > MAX_DECODE_DEPTH then None
               else if !Encloses(format.shape(item.tag)) then Some(rest)
               else TakeAll(format, Kids(item) + rest, Announced(format, item), depth + 1)
  {
    assert ([item] + rest)[1..] == rest;
  }

  /** The rest of a payload that ends with these items. */
  ghost predicate Ends(format: Format, p: Bytes, i: nat, items: seq<Item>) {
    Tail(p, i, EncodeAll(items)) && AllLoose(format, items)
  }

  /** Where the items left begin. */
  function Start(p: Bytes, items: seq<Item>): nat
    requires |EncodeAll(items)| <= |p|
  {
    |p| - |EncodeAll(items)|
  }

  lemma FirstAt(format: Format, p: Bytes, i: nat, items: seq<Item>)
    requires Ends(format, p, i, items) && items != []
    ensures At(p, i, Encode(items[0])) && Loose(format, items[0]) && i < |p| && p[i] == items[0].tag
    ensures i + |Encode(items[0])| <= |p| && Ends(format, p, i + |Encode(items[0])|, items[1..])
  {
    TailSplit(p, i, Encode(items[0]), EncodeAll(items[1..]));
    ItemAt(p, i, items[0]);
  }

  /** A head says how far its item goes, or opens it. */
  lemma HeadLoose(format: Format, p: Bytes, i: nat, items: seq<Item>)
    requires Ends(format, p, i, items) && items != []
    ensures i < |p| && p[i] == items[0].tag
    ensures var start := i + 1 + |items[0].arg|;
            HeadAt(format, p, i + 1, items[0].tag)
            == if Encloses(format.shape(items[0].tag)) then Into(start, Announced(format, items[0]))
               else Jump(i + |Encode(items[0])|)
    ensures i + 1 + |items[0].arg| <= |p|
  {
    FirstAt(format, p, i, items);
    ItemAt(p, i, items[0]);
    assert p[i + 1..i + 1 + |items[0].arg|] == items[0].arg;
  }

  lemma OpenedEnds(format: Format, p: Bytes, i: nat, items: seq<Item>)
    requires Ends(format, p, i, items) && items != [] && !items[0].Blob?
    ensures i + 1 + |items[0].arg| <= |p| && Ends(format, p, i + 1 + |items[0].arg|, Opened(items))
  {
    var item, rest := items[0], items[1..];
    FirstAt(format, p, i, items);
    ItemAt(p, i, item);
    EncodeConcat(Kids(item), rest);
    AtSplit(p, i + 1 + |item.arg|, EncodeAll(Kids(item)), EncodeAll(rest));
    LooseConcat(format, Kids(item), rest);
  }

  /** What the skipper does on the bytes is what it does on the items. */
  ghost predicate Agrees(format: Format, p: Bytes, end: Option<nat>, left: Option<seq<Item>>) {
    match left
    case None => end.None?
    case Some(items) =>
      |EncodeAll(items)| <= |p| && end == Some(Start(p, items)) && Ends(format, p, Start(p, items), items)
  }

  lemma {:induction false} TakeExact(format: Format, p: Bytes, i: nat, items: seq<Item>, depth: nat)
    requires Ends(format, p, i, items) && items != []
    ensures i < |p| && Agrees(format, p, SkipAt(format, p, i + 1, items[0].tag, depth), Take(format, items, depth))
    decreases |EncodeAll(items)|, 0
  {
    HeadLoose(format, p, i, items);
    FirstAt(format, p, i, items);
    if depth <= MAX_DECODE_DEPTH && Encloses(format.shape(items[0].tag)) {
      OpenedEnds(format, p, i, items);
      TakeAllExact(format, p, i + 1 + |items[0].arg|, Opened(items), Announced(format, items[0]), depth + 1);
    }
  }

  lemma {:induction false} TakeAllExact(format: Format, p: Bytes, i: nat, items: seq<Item>, count: nat, depth: nat)
    requires Ends(format, p, i, items)
    ensures Agrees(format, p, SkipItems(format, p, i, count, depth), TakeAll(format, items, count, depth))
    decreases |EncodeAll(items)|, 1
  {
    if count > 0 && items != [] {
      FirstAt(format, p, i, items);
      TakeExact(format, p, i, items, depth);
      var left := Take(format, items, depth);
      if left.Some? {
        TakeAllExact(format, p, Start(p, left.value), left.value, count - 1, depth);
      }
    }
  }

  // ---------------------------------------------------------------- decoding a stream

  /** Every request has one component, as for dot-free names. */
  ghost predicate Singles(paths: seq<Path>) {
    forall f | 0 <= f < |paths| :: |paths[f]| == 1
  }

  /** The cell of an item that the scalar readers take. */
  function ScalarOf(format: Format, item: Item): Option<Cell> {
    var shape := format.shape(item.tag);
    match item
    case Atom(tag, arg) => if shape.Leaf? && shape.isScalar then Some(format.cell(tag, FromBigEndian(arg))) else None
    case Blob(_, _, data) => if IsText(shape) then Some(Text(data)) else None
    case _ => None
  }

  predicate IsKey(format: Format, item: Item) {
    item.Blob? && IsText(format.shape(item.tag))
  }

  /** The value of a key: a scalar is written to the first field of the key's name, anything else is skipped. */
  function StreamValue(format: Format, items: seq<Item>, key: Bytes, paths: seq<Path>, columns: seq<nat>,
                       row: seq<Cell>)
    : (d: Option<(seq<Item>, seq<Cell>)>)
    requires InRange(columns, paths, row) && items != []
    ensures d.Some? ==> |d.value.1| == |row|
  {
    var field, scalar := FirstMatch(paths, 0, key), ScalarOf(format, items[0]);
    if field.Some? && scalar.Some? then Some((items[1..], row[columns[field.value] := scalar.value]))
    else match Take(format, items, 0) case None => None case Some(left) => Some((left, row))
  }

  /** One entry: a key, a value, and what is left. */
  function StreamEntry(format: Format, items: seq<Item>, paths: seq<Path>, columns: seq<nat>, row: seq<Cell>)
    : (d: Option<(seq<Item>, seq<Cell>)>)
    requires InRange(columns, paths, row)
    ensures d.Some? ==> |d.value.1| == |row|
  {
    if |items| < 2 || !IsKey(format, items[0]) then None
    else StreamValue(format, items[1..], items[0].data, paths, columns, row)
  }

  /** The row after reading up to `count` entries of a stream. */
  function StreamRow(format: Format, items: seq<Item>, count: nat, paths: seq<Path>, columns: seq<nat>, row: seq<Cell>)
    : (r: seq<Cell>)
    requires InRange(columns, paths, row)
    ensures |r| == |row|
    decreases count
  {
    if count == 0 then row
    else
      match StreamEntry(format, items, paths, columns, row)
      case None => row
      case Some((left, row1)) => StreamRow(format, left, count - 1, paths, columns, row1)
  }

  lemma KeyLoose(format: Format, p: Bytes, i: nat, items: seq<Item>)
    requires Ends(format, p, i, items)
    ensures KeyAt(format, p, i) == if |items| < 2 || !IsKey(format, items[0]) then None
                                   else Some((items[0].data, i + |Encode(items[0])|))
  {
    if items != [] {
      FirstAt(format, p, i, items);
      ItemAt(p, i, items[0]);
      if IsKey(format, items[0]) {
        TextLoose(format, p, i, items[0]);
        assert |items| == 1 ==> items[1..] == [];
        if |items| >= 2 {
          FirstAt(format, p, i + |Encode(items[0])|, items[1..]);
        }
      }
    }
  }

  lemma TextLoose(format: Format, p: Bytes, i: nat, item: Item)
    requires Loose(format, item) && IsKey(format, item) && At(p, i, Encode(item))
    ensures i + 1 <= |p| && TextAt(format, p, i + 1, item.tag) == Read(Text(item.data), i + |Encode(item)|)
  {
    TextExact(format, p, i, item);
  }

  lemma ScalarLoose(format: Format, p: Bytes, i: nat, item: Item)
    requires Loose(format, item) && At(p, i, Encode(item))
    ensures i + 1 <= |p|
    ensures ScalarAt(format, p, i + 1, item.tag)
            == match ScalarOf(format, item)
               case Some(cell) => Read(cell, i + |Encode(item)|)
               case None => NotRead(i + 1)
  {
    ItemAt(p, i, item);
    match item
    case Atom(tag, arg) =>
      assert p[i + 1..i + 1 + |arg|] == arg;
    case Blob(tag, arg, data) =>
      if IsText(format.shape(tag)) {
        TextLoose(format, p, i, item);
      }
    case Group(tag, arg, items) =>
  }

  /** What an entry comes to on the bytes. */
  ghost predicate SameEntry(format: Format, p: Bytes, d: Decoded, row: seq<Cell>,
                            entry: Option<(seq<Item>, seq<Cell>)>) {
    match entry
    case None => !d.ok && d.row == row
    case Some((left, row1)) => d.ok && d.row == row1 && Agrees(format, p, Some(d.end), Some(left))
  }

  /** Dot-free requests: a value is a scalar for the field of its key, or skipped. */
  lemma SingleValue(format: Format, p: Bytes, i: nat, tag: byte, key: Bytes, paths: seq<Path>, columns: seq<nat>,
                    row: seq<Cell>)
    requires i <= |p| && Singles(paths) && InRange(columns, paths, row)
    ensures var field, scalar := FirstMatch(paths, 0, key), ScalarAt(format, p, i, tag);
            ValueAt(format, p, i, tag, key, 0, paths, columns, row)
            == if field.Some? && scalar.Read? then Decoded(true, scalar.end, row[columns[field.value] := scalar.cell])
               else Skipped(SkipAt(format, p, if field.Some? then scalar.end else i, tag, 0), row)
  {
  }

  lemma RestAgrees(format: Format, p: Bytes, i: nat, items: seq<Item>)
    requires Ends(format, p, i, items) && items != []
    ensures Agrees(format, p, Some(i + |Encode(items[0])|), Some(items[1..]))
  {
    FirstAt(format, p, i, items);
  }

  lemma ScalarFirst(format: Format, p: Bytes, i: nat, items: seq<Item>)
    requires Ends(format, p, i, items) && items != [] && i < |p| && p[i] == items[0].tag
    ensures ScalarAt(format, p, i + 1, p[i])
            == match ScalarOf(format, items[0])
               case Some(cell) => Read(cell, i + |Encode(items[0])|)
               case None => NotRead(i + 1)
  {
    FirstAt(format, p, i, items);
    ScalarLoose(format, p, i, items[0]);
  }

  lemma SameSkip(format: Format, p: Bytes, end: Option<nat>, left: Option<seq<Item>>, row: seq<Cell>)
    requires Agrees(format, p, end, left)
    ensures SameEntry(format, p, Skipped(end, row), row,
                      match left case None => None case Some(left) => Some((left, row)))
  {
  }

  lemma ValueLoose(format: Format, p: Bytes, j: nat, items: seq<Item>, key: Bytes, paths: seq<Path>, columns: seq<nat>,
                   row: seq<Cell>, d: Decoded, entry: Option<(seq<Item>, seq<Cell>)>)
    requires Ends(format, p, j, items) && items != [] && Singles(paths) && InRange(columns, paths, row)
    requires j < |p| && p[j] == items[0].tag
    requires d == ValueAt(format, p, j + 1, p[j], key, 0, paths, columns, row)
    requires entry == StreamValue(format, items, key, paths, columns, row)
    ensures SameEntry(format, p, d, row, entry)
  {
    ScalarFirst(format, p, j, items);
    SingleValue(format, p, j + 1, p[j], key, paths, columns, row);
    var field, scalar := FirstMatch(paths, 0, key), ScalarOf(format, items[0]);
    if field.Some? && scalar.Some? {
      RestAgrees(format, p, j, items);
    } else {
      var end, left := SkipAt(format, p, j + 1, p[j], 0), Take(format, items, 0);
      TakeExact(format, p, j, items, 0);
      SameSkip(format, p, end, left, row);
      assert d == Skipped(end, row);
    }
  }

  lemma EntryLoose(format: Format, p: Bytes, i: nat, items: seq<Item>, paths: seq<Path>, columns: seq<nat>,
                   row: seq<Cell>, d: Decoded, entry: Option<(seq<Item>, seq<Cell>)>)
    requires Ends(format, p, i, items) && Singles(paths) && InRange(columns, paths, row)
    requires d == EntryAt(format, p, i, 0, paths, columns, row)
    requires entry == StreamEntry(format, items, paths, columns, row)
    ensures SameEntry(format, p, d, row, entry)
  {
    KeyLoose(format, p, i, items);
    EntryIsValue(format, p, i, 0, paths, columns, row, KeyAt(format, p, i));
    if |items| >= 2 && IsKey(format, items[0]) {
      var j := i + |Encode(items[0])|;
      FirstAt(format, p, i, items);
      FirstAt(format, p, j, items[1..]);
      ValueLoose(format, p, j, items[1..], items[0].data, paths, columns, row, d, entry);
    }
  }

  /** Reading goes on behind the entry, if there is one. */
  lemma {:induction false} StreamNext(format: Format, items: seq<Item>, count: nat, paths: seq<Path>,
                                      columns: seq<nat>, row: seq<Cell>, left: Option<seq<Item>>, row1: seq<Cell>)
    requires count > 0 && InRange(columns, paths, row) && |row1| == |row|
    requires StreamEntry(format, items, paths, columns, row)
             == match left case None => None case Some(left) => Some((left, row1))
    ensures StreamRow(format, items, count, paths, columns, row)
            == match left
               case None => row
               case Some(left) => StreamRow(format, left, count - 1, paths, columns, row1)
  {
  }

  /** One entry of the loop: what it leaves is the rest of the payload, or it ends the loop. */
  lemma {:induction false} StreamStep(format: Format, p: Bytes, i: nat, items: seq<Item>, count: nat, paths: seq<Path>,
                                      columns: seq<nat>, row: seq<Cell>)
    returns (next: Option<(seq<Item>, seq<Cell>)>)
    requires Ends(format, p, i, items) && Singles(paths) && InRange(columns, paths, row) && count > 0
    ensures next.None? ==>
              && EntriesAt(format, p, i, count, 0, paths, columns, row).row == row
              && StreamRow(format, items, count, paths, columns, row) == row
    ensures next.Some? ==>
              var (left, row1) := next.value;
              && |EncodeAll(left)| <= |p| && Ends(format, p, Start(p, left), left) && |row1| == |row|
              && EntriesAt(format, p, i, count, 0, paths, columns, row)
                 == EntriesAt(format, p, Start(p, left), count - 1, 0, paths, columns, row1)
              && StreamRow(format, items, count, paths, columns, row)
                 == StreamRow(format, left, count - 1, paths, columns, row1)
  {
    var d, got := EntryAt(format, p, i, 0, paths, columns, row), EntriesAt(format, p, i, count, 0, paths, columns, row);
    next := StreamEntry(format, items, paths, columns, row);
    EntryLoose(format, p, i, items, paths, columns, row, d, next);
    if next.None? {
      StreamNext(format, items, count, paths, columns, row, None, row);
      AfterEntry(format, p, i, count, 0, paths, columns, row, got, d, i, row);
    } else {
      var (left, row1) := next.value;
      StreamNext(format, items, count, paths, columns, row, Some(left), row1);
      AfterEntry(format, p, i, count, 0, paths, columns, row, got, d, Start(p, left), row1);
    }
  }

  /** The loop over the entries of a payload that ends with these items. */
  lemma {:induction false} StreamExact(format: Format, p: Bytes, i: nat, items: seq<Item>, count: nat, paths: seq<Path>,
                                       columns: seq<nat>, row: seq<Cell>, got: Decoded, want: seq<Cell>)
    requires Ends(format, p, i, items) && Singles(paths) && InRange(columns, paths, row)
    requires got == EntriesAt(format, p, i, count, 0, paths, columns, row)
    requires want == StreamRow(format, items, count, paths, columns, row)
    ensures got.row == want
    decreases count
  {
    if count > 0 {
      var next := StreamStep(format, p, i, items, count, paths, columns, row);
      if next.Some? {
        var (left, row1) := next.value;
        StreamExact(format, p, Start(p, left), left, count - 1, paths, columns, row1, got, want);
      }
    }
  }
}
