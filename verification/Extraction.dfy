/** The one-pass extraction of both readers as a function of the payload, and its meaning on encoded documents. */
module Extraction {
  import opened Options
  import opened Bytes
  import opened Projection
  import opened Wire

  // ---------------------------------------------------------------- the readers' behaviour on any payload

  /** A scalar was read, or it was not and the cursor stopped at `end`. */
  datatype ScalarRead = Read(cell: Cell, end: nat) | NotRead(end: nat)

  /** The text whose tag has been read: its length, then its bytes. */
  function TextAt(format: Format, p: Bytes, i: nat, tag: byte): (r: ScalarRead)
    requires i <= |p|
    ensures i <= r.end <= |p|
    ensures r.Read? ==> r.cell.Text?
  {
    var shape := format.shape(tag);
    if !IsText(shape) then NotRead(i)
    else
      var n := ArgumentAt(p, i, shape.width, shape.inline);
      if n.None? then NotRead(i)
      else if n.value > |p| - i - shape.width then NotRead(i + shape.width)
      else Read(Text(p[i + shape.width..i + shape.width + n.value]), i + shape.width + n.value)
  }

  function ScalarAt(format: Format, p: Bytes, i: nat, tag: byte): (r: ScalarRead)
    requires i <= |p|
    ensures i <= r.end <= |p|
  {
    var shape := format.shape(tag);
    if IsText(shape) then TextAt(format, p, i, tag)
    else if shape.Leaf? && shape.isScalar && shape.width <= |p| - i then
      Read(format.cell(tag, FromBigEndian(p[i..i + shape.width])), i + shape.width)
    else NotRead(i)
  }

  /** The row after decoding; `end` is the cursor when `ok`. */
  datatype Decoded = Decoded(ok: bool, end: nat, row: seq<Cell>)

  function Skipped(end: Option<nat>, row: seq<Cell>): Decoded {
    if end.None? then Decoded(false, 0, row) else Decoded(true, end.value, row)
  }

  /** The value of a key, its tag being read: matched, descended into, or skipped. */
  function ValueAt(format: Format, p: Bytes, i: nat, tag: byte, key: Bytes, depth: nat,
                   paths: seq<Path>, columns: seq<nat>, row: seq<Cell>): (d: Decoded)
    requires i <= |p| && InRange(columns, paths, row)
    ensures |d.row| == |row| && (d.ok ==> i <= d.end <= |p|)
    decreases |p| - i, 3
  {
    match FirstMatch(paths, depth, key)
    case None => Skipped(SkipAt(format, p, i, tag, 0), row)
    case Some(f) =>
      if depth + 1 == |paths[f]| then
        match ScalarAt(format, p, i, tag)
        case Read(cell, end) => Decoded(true, end, row[columns[f] := cell])
        case NotRead(end) => Skipped(SkipAt(format, p, end, tag, 0), row)
      else if IsMap(format.shape(tag)) then MapAt(format, p, i, tag, depth + 1, paths, columns, row)
      else Skipped(SkipAt(format, p, i, tag, 0), row)
  }

  /** Where the entries of a map start and how many there are; None when the tag is no readable map. */
  function MapHead(format: Format, p: Bytes, i: nat, tag: byte): (head: Option<(nat, nat)>)
    requires i <= |p|
    ensures head.Some? ==> i <= head.value.0 <= |p|
  {
    var shape := format.shape(tag);
    if !IsMap(shape) then None
    else
      match ArgumentAt(p, i, shape.width, shape.inline)
      case None => None
      case Some(n) => Some((i + shape.width, n))
  }

  function MapAt(format: Format, p: Bytes, i: nat, tag: byte, depth: nat,
                 paths: seq<Path>, columns: seq<nat>, row: seq<Cell>): (d: Decoded)
    requires i <= |p| && InRange(columns, paths, row)
    ensures |d.row| == |row| && (d.ok ==> i <= d.end <= |p|)
    decreases |p| - i, 2
  {
    match MapHead(format, p, i, tag)
    case None => Decoded(false, 0, row)
    case Some((start, count)) => EntriesAt(format, p, start, count, depth, paths, columns, row)
  }

  /** The key at a position, and where the tag of its value is. */
  function KeyAt(format: Format, p: Bytes, i: nat): (key: Option<(Bytes, nat)>)
    requires i <= |p|
    ensures key.Some? ==> i < key.value.1 < |p|
  {
    if i == |p| then None
    else
      var text := TextAt(format, p, i + 1, p[i]);
      if text.NotRead? || text.end == |p| then None else Some((text.cell.bytes, text.end))
  }

  /** `count` more entries from position `i`. */
  function EntriesAt(format: Format, p: Bytes, i: nat, count: nat, depth: nat,
                     paths: seq<Path>, columns: seq<nat>, row: seq<Cell>): (d: Decoded)
    requires i <= |p| && InRange(columns, paths, row)
    ensures |d.row| == |row| && (d.ok ==> i <= d.end <= |p|)
    decreases |p| - i, 1
  {
    if count == 0 then Decoded(true, i, row)
    else
      var d := EntryAt(format, p, i, depth, paths, columns, row);
      if !d.ok then d else EntriesAt(format, p, d.end, count - 1, depth, paths, columns, d.row)
  }

  /** The entries are the first entry and then the others. */
  lemma NextEntry(format: Format, p: Bytes, i: nat, count: nat, depth: nat, paths: seq<Path>, columns: seq<nat>,
                  row: seq<Cell>, all: Decoded)
    requires i <= |p| && InRange(columns, paths, row) && count > 0
    requires all == EntriesAt(format, p, i, count, depth, paths, columns, row)
    ensures var d := EntryAt(format, p, i, depth, paths, columns, row);
            all == if d.ok then EntriesAt(format, p, d.end, count - 1, depth, paths, columns, d.row) else d
  {
  }

  /** The same, for an entry that has been read, or could not be. */
  lemma AfterEntry(format: Format, p: Bytes, i: nat, count: nat, depth: nat, paths: seq<Path>, columns: seq<nat>,
                   row: seq<Cell>, all: Decoded, entry: Decoded, end: nat, row1: seq<Cell>)
    requires i <= |p| && end <= |p| && InRange(columns, paths, row) && count > 0
    requires all == EntriesAt(format, p, i, count, depth, paths, columns, row)
    requires entry == EntryAt(format, p, i, depth, paths, columns, row) && entry.row == row1 && |row1| == |row|
    requires entry.ok ==> entry.end == end
    ensures entry.ok ==> all == EntriesAt(format, p, end, count - 1, depth, paths, columns, row1)
    ensures !entry.ok ==> all == entry
  {
    NextEntry(format, p, i, count, depth, paths, columns, row, all);
  }

  /** One entry: a text key and its value. */
  function EntryAt(format: Format, p: Bytes, i: nat, depth: nat,
                   paths: seq<Path>, columns: seq<nat>, row: seq<Cell>): (d: Decoded)
    requires i <= |p| && InRange(columns, paths, row)
    ensures |d.row| == |row| && (d.ok ==> i < d.end <= |p|)
    decreases |p| - i, 0
  {
    match KeyAt(format, p, i)
    case None => Decoded(false, 0, row)
    case Some((key, j)) => ValueAt(format, p, j + 1, p[j], key, depth, paths, columns, row)
  }

  /** An entry is the value behind its key, or fails without one. */
  lemma EntryIsValue(format: Format, p: Bytes, i: nat, depth: nat, paths: seq<Path>, columns: seq<nat>, row: seq<Cell>,
                     key: Option<(Bytes, nat)>)
    requires i <= |p| && InRange(columns, paths, row) && key == KeyAt(format, p, i)
    ensures EntryAt(format, p, i, depth, paths, columns, row)
            == match key
               case None => Decoded(false, 0, row)
               case Some((name, j)) => ValueAt(format, p, j + 1, p[j], name, depth, paths, columns, row)
  {
  }

  /** The row of a payload: its columns are cleared, then the top-level map is decoded as far as it goes. */
  function DecodeRow(format: Format, p: Bytes, paths: seq<Path>, columns: seq<nat>, row: seq<Cell>): (r: seq<Cell>)
    requires InRange(columns, paths, row)
    ensures |r| == |row|
  {
    var clear := Cleared(columns, row);
    if p == [] then clear else MapAt(format, p, 1, p[0], 0, paths, columns, clear).row
  }

  function Cleared(columns: seq<nat>, row: seq<Cell>): (r: seq<Cell>)
    requires forall f | 0 <= f < |columns| :: columns[f] < |row|
    ensures |r| == |row| && forall c | 0 <= c < |row| :: r[c] == if c in columns then Null else row[c]
  {
    seq(|row|, c requires 0 <= c < |row| => if c in columns then Null else row[c])
  }

  /** Nulls the output columns of a row. */
  method ClearColumns(row: array<Cell>, columns: seq<nat>)
    requires forall f | 0 <= f < |columns| :: columns[f] < row.Length
    modifies row
    ensures row[..] == Cleared(columns, old(row[..]))
  {
    for f := 0 to |columns|
      invariant forall c | 0 <= c < row.Length :: row[c] == if c in columns[..f] then Null else old(row[c])
    {
      row[columns[f]] := Null;
      assert columns[..f + 1] == columns[..f] + [columns[f]];
    }
    assert columns[..|columns|] == columns;
  }

  /** The search for the field that a key selects. */
  method MatchField(paths: seq<Path>, depth: nat, key: Bytes) returns (matched: Option<nat>)
    ensures matched == FirstMatch(paths, depth, key)
  {
    var field := 0;
    while field < |paths|
      invariant field <= |paths| && forall g | 0 <= g < field :: !Matches(paths[g], depth, key)
    {
      if depth < |paths[field]| && key == paths[field][depth] {
        return Some(field);
      }
      field := field + 1;
    }
    return None;
  }

  // ---------------------------------------------------------------- documents

  predicate TextKeys(format: Format, items: seq<Item>) {
    |items| >= 2 ==> items[0].Blob? && IsText(format.shape(items[0].tag)) && TextKeys(format, items[2..])
  }

  /** The keys are texts, and the values can be read or skipped.  Only the maps that a requested path goes through are
      looked into; any other map is skipped, whatever its keys. */
  predicate Readable(format: Format, items: seq<Item>, depth: nat, paths: seq<Path>)
    decreases items, 1
  {
    |items| % 2 == 0 &&
    (items != [] ==>
      && items[0].Blob? && IsText(format.shape(items[0].tag)) && WellFormed(format, items[0])
      && ReadableValue(format, items[1], items[0].data, depth, paths)
      && Readable(format, items[2..], depth, paths))
  }

  predicate ReadableValue(format: Format, item: Item, key: Bytes, depth: nat, paths: seq<Path>)
    decreases item, 0
  {
    && WellFormed(format, item) && Depth(item) <= MAX_DECODE_DEPTH
    && (item.Group? && IsMap(format.shape(item.tag)) && GoesThrough(paths, depth, key) ==>
          Readable(format, item.items, depth + 1, paths))
  }

  /** The field that the key selects has further components. */
  predicate GoesThrough(paths: seq<Path>, depth: nat, key: Bytes) {
    var first := FirstMatch(paths, depth, key);
    first.Some? && depth + 1 != |paths[first.value]|
  }

  lemma ReadableStep(format: Format, items: seq<Item>, depth: nat, paths: seq<Path>)
    requires |items| >= 2 && items[0].Blob? && IsText(format.shape(items[0].tag)) && WellFormed(format, items[0])
    requires ReadableValue(format, items[1], items[0].data, depth, paths) && Readable(format, items[2..], depth, paths)
    ensures Readable(format, items, depth, paths)
  {
  }

  lemma {:induction false} ReadableKeys(format: Format, items: seq<Item>, depth: nat, paths: seq<Path>)
    requires Readable(format, items, depth, paths)
    ensures TextKeys(format, items)
  {
    if items != [] {
      ReadableKeys(format, items[2..], depth, paths);
    }
  }

  /** The document that an item denotes; a map with other keys than texts is opaque. */
  function ToDoc(format: Format, item: Item): Doc
    decreases item, 0
  {
    match item
    case Atom(tag, arg) =>
      var shape := format.shape(tag);
      if shape.Leaf? && shape.isScalar then Scalar(format.cell(tag, FromBigEndian(arg))) else Opaque
    case Blob(tag, _, data) => if IsText(format.shape(tag)) then Scalar(Text(data)) else Opaque
    case Group(tag, _, items) =>
      if IsMap(format.shape(tag)) && TextKeys(format, items) then Node(ToEntries(format, items)) else Opaque
  }

  function ToEntries(format: Format, items: seq<Item>): seq<Entry>
    decreases items, 1
  {
    if |items| < 2 then []
    else [Entry(if items[0].Blob? then items[0].data else [], ToDoc(format, items[1]))] + ToEntries(format, items[2..])
  }

  /** The entries of a map are the first pair's and then the others. */
  lemma FirstPair(format: Format, items: seq<Item>)
    requires |items| >= 2
    ensures TextKeys(format, items)
            <==> items[0].Blob? && IsText(format.shape(items[0].tag)) && TextKeys(format, items[2..])
    ensures items[0].Blob? ==>
              ToEntries(format, items)
              == [Entry(items[0].data, ToDoc(format, items[1]))] + ToEntries(format, items[2..])
  {
  }

  // ---------------------------------------------------------------- extraction on encoded documents

  lemma TextExact(format: Format, p: Bytes, i: nat, item: Item)
    requires item.Blob? && IsText(format.shape(item.tag)) && WellFormed(format, item) && At(p, i, Encode(item))
    ensures i + 1 <= |p| && TextAt(format, p, i + 1, item.tag) == Read(Text(item.data), i + |Encode(item)|)
  {
    ItemAt(p, i, item);
    assert p[i + 1..i + 1 + |item.arg|] == item.arg;
    assert p[i + 1 + |item.arg|..i + 1 + |item.arg| + |item.data|] == item.data;
  }

  /** On an encoded item the scalar reader succeeds exactly on scalars, and otherwise consumes nothing. */
  lemma ScalarExact(format: Format, p: Bytes, i: nat, item: Item)
    requires WellFormed(format, item) && At(p, i, Encode(item))
    ensures i + 1 <= |p|
    ensures ScalarAt(format, p, i + 1, item.tag)
            == match ToDoc(format, item)
               case Scalar(cell) => Read(cell, i + |Encode(item)|)
               case _ => NotRead(i + 1)
  {
    ItemAt(p, i, item);
    match item
    case Atom(tag, arg) =>
      assert p[i + 1..i + 1 + |arg|] == arg;
    case Blob(tag, arg, data) =>
      if IsText(format.shape(tag)) {
        TextExact(format, p, i, item);
      }
    case Group(tag, arg, items) =>
  }

  lemma ScalarAtom(format: Format, tag: byte, arg: Bytes, cell: Cell)
    requires format.shape(tag) == Leaf(|arg|, true) && format.cell(tag, FromBigEndian(arg)) == cell
    ensures WellFormed(format, Atom(tag, arg)) && ToDoc(format, Atom(tag, arg)) == Scalar(cell)
  {
  }

  /** A scalar is read up to `j` exactly when a well-formed item that denotes it lies up to there. */
  lemma ScalarIffItem(format: Format, p: Bytes, i: nat, cell: Cell, j: nat)
    requires i < |p|
    ensures ScalarAt(format, p, i + 1, p[i]) == Read(cell, j)
            <==> exists item :: WellFormed(format, item) && At(p, i, Encode(item)) && j == i + |Encode(item)|
                                && ToDoc(format, item) == Scalar(cell)
  {
    if ScalarAt(format, p, i + 1, p[i]) == Read(cell, j) {
      var item := JumpIsItem(format, p, i);
      ScalarExact(format, p, i, item);
    }
    forall item | WellFormed(format, item) && At(p, i, Encode(item)) && j == i + |Encode(item)|
                  && ToDoc(format, item) == Scalar(cell)
      ensures ScalarAt(format, p, i + 1, p[i]) == Read(cell, j)
    {
      ItemAt(p, i, item);
      ScalarExact(format, p, i, item);
    }
  }

  lemma {:induction false} ValueExact(format: Format, p: Bytes, i: nat, item: Item, key: Bytes, depth: nat,
                                      paths: seq<Path>, columns: seq<nat>, row: seq<Cell>)
    requires ReadableValue(format, item, key, depth, paths) && At(p, i, Encode(item)) && InRange(columns, paths, row)
    ensures i + 1 <= |p|
    ensures ValueAt(format, p, i + 1, item.tag, key, depth, paths, columns, row)
            == Decoded(true, i + |Encode(item)|,
                       ProjectEntry(Entry(key, ToDoc(format, item)), depth, paths, columns, row))
    decreases item, 0
  {
    ItemAt(p, i, item);
    SkipExact(format, p, i, item, 0);
    ScalarExact(format, p, i, item);
    if item.Group? && IsMap(format.shape(item.tag)) && GoesThrough(paths, depth, key) {
      ReadableKeys(format, item.items, depth + 1, paths);
      MapExact(format, p, i, item, depth + 1, paths, columns, row);
    }
  }

  lemma MapHeadExact(format: Format, p: Bytes, i: nat, item: Item)
    requires item.Group? && IsMap(format.shape(item.tag)) && WellFormed(format, item)
    requires At(p, i, Encode(item))
    ensures i + 1 <= |p|
    ensures MapHead(format, p, i + 1, item.tag) == Some((i + 1 + |item.arg|, |item.items| / 2))
  {
    ItemAt(p, i, item);
    assert p[i + 1..i + 1 + |item.arg|] == item.arg;
  }

  lemma {:induction false} MapExact(format: Format, p: Bytes, i: nat, item: Item, depth: nat,
                                    paths: seq<Path>, columns: seq<nat>, row: seq<Cell>)
    requires item.Group? && IsMap(format.shape(item.tag)) && WellFormed(format, item)
    requires Readable(format, item.items, depth, paths) && At(p, i, Encode(item)) && InRange(columns, paths, row)
    ensures i + 1 <= |p|
    ensures MapAt(format, p, i + 1, item.tag, depth, paths, columns, row)
            == Decoded(true, i + |Encode(item)|, Project(ToEntries(format, item.items), depth, paths, columns, row))
    decreases item.items, 3
  {
    ItemAt(p, i, item);
    MapHeadExact(format, p, i, item);
    var start, n := i + 1 + |item.arg|, |item.items| / 2;
    EntriesExact(format, p, start, item.items, n, 0, depth, paths, columns, row,
                 EntriesAt(format, p, start, n, depth, paths, columns, row),
                 start + |EncodeAll(item.items)|, Project(ToEntries(format, item.items), depth, paths, columns, row));
  }

  lemma KeyExact(format: Format, p: Bytes, i: nat, item: Item)
    requires item.Blob? && IsText(format.shape(item.tag)) && WellFormed(format, item)
    requires At(p, i, Encode(item)) && i + |Encode(item)| < |p|
    ensures KeyAt(format, p, i) == Some((item.data, i + |Encode(item)|))
  {
    ItemAt(p, i, item);
    TextExact(format, p, i, item);
  }

  /** The parts of a non-empty list of entries, and where they lie. */
  lemma EntryParts(format: Format, p: Bytes, i: nat, items: seq<Item>, depth: nat, paths: seq<Path>)
    requires Readable(format, items, depth, paths) && items != [] && At(p, i, EncodeAll(items))
    ensures |items| >= 2 && |items[2..]| / 2 + 1 == |items| / 2
    ensures At(p, i, Encode(items[0])) && At(p, i + |Encode(items[0])|, Encode(items[1]))
    ensures At(p, i + |Encode(items[0])| + |Encode(items[1])|, EncodeAll(items[2..]))
    ensures |EncodeAll(items)| == |Encode(items[0])| + |Encode(items[1])| + |EncodeAll(items[2..])|
    ensures i + |Encode(items[0])| < |p| && p[i + |Encode(items[0])|] == items[1].tag
  {
    assert items[1..][1..] == items[2..];
    AtSplit(p, i, Encode(items[0]), EncodeAll(items[1..]));
    AtSplit(p, i + |Encode(items[0])|, Encode(items[1]), EncodeAll(items[2..]));
    ItemAt(p, i + |Encode(items[0])|, items[1]);
  }

  lemma RestAt(format: Format, p: Bytes, i: nat, items: seq<Item>, depth: nat, paths: seq<Path>)
    requires Readable(format, items, depth, paths) && items != [] && At(p, i, EncodeAll(items))
    ensures |items| >= 2 && items[0].Blob? && Readable(format, items[2..], depth, paths) && |items[2..]| == |items| - 2
    ensures At(p, i + |Encode(items[0])| + |Encode(items[1])|, EncodeAll(items[2..]))
  {
    EntryParts(format, p, i, items, depth, paths);
  }

  /** Where a list of encoded entries ends and what it makes of the row, from behind its first entry. */
  lemma EntriesTail(format: Format, i: nat, items: seq<Item>, k: nat, depth: nat, paths: seq<Path>, columns: seq<nat>,
                    row: seq<Cell>, row1: seq<Cell>)
    requires Readable(format, items, depth, paths) && |items| >= 2 && items[0].Blob? && InRange(columns, paths, row)
    requires k == i + |Encode(items[0])| + |Encode(items[1])|
    requires row1 == ProjectEntry(Entry(items[0].data, ToDoc(format, items[1])), depth, paths, columns, row)
    ensures i + |EncodeAll(items)| == k + |EncodeAll(items[2..])|
    ensures Project(ToEntries(format, items), depth, paths, columns, row)
            == Project(ToEntries(format, items[2..]), depth, paths, columns, row1)
  {
    assert items[1..][1..] == items[2..];
    assert EncodeAll(items) == Encode(items[0]) + (Encode(items[1]) + EncodeAll(items[2..]));
    ProjectCons(Entry(items[0].data, ToDoc(format, items[1])), ToEntries(format, items[2..]), depth, paths, columns,
                row);
  }

  /** The loop takes all of a list of encoded entries, makes of the row what the pass over the tree does, and goes on
      behind them with `left` more. */
  lemma {:induction false} EntriesExact(format: Format, p: Bytes, i: nat, items: seq<Item>, n: nat, left: nat,
                                        depth: nat, paths: seq<Path>, columns: seq<nat>, row: seq<Cell>, got: Decoded,
                                        end: nat, out: seq<Cell>)
    requires Readable(format, items, depth, paths) && |items| + 2 * left == 2 * n && At(p, i, EncodeAll(items))
    requires InRange(columns, paths, row) && got == EntriesAt(format, p, i, n, depth, paths, columns, row)
    requires end == i + |EncodeAll(items)| && out == Project(ToEntries(format, items), depth, paths, columns, row)
    ensures got == EntriesAt(format, p, end, left, depth, paths, columns, out)
    decreases items, 2
  {
    if items != [] {
      RestAt(format, p, i, items, depth, paths);
      var j := i + |Encode(items[0])|;
      var k := j + |Encode(items[1])|;
      var row1 := ProjectEntry(Entry(items[0].data, ToDoc(format, items[1])), depth, paths, columns, row);
      EntriesTail(format, i, items, k, depth, paths, columns, row, row1);
      EntriesStep(format, p, i, items, n, j, k, depth, paths, columns, row, row1, got);
      EntriesExact(format, p, k, items[2..], n - 1, left, depth, paths, columns, row1, got, end, out);
    }
  }

  /** The first entry of an encoded list is read to its end. */
  lemma {:induction false} EntryExact(format: Format, p: Bytes, i: nat, items: seq<Item>, j: nat, k: nat, depth: nat,
                                      paths: seq<Path>, columns: seq<nat>, row: seq<Cell>, row1: seq<Cell>)
    requires Readable(format, items, depth, paths) && items != [] && At(p, i, EncodeAll(items))
    requires InRange(columns, paths, row)
    requires |items| >= 2 && items[0].Blob? && j == i + |Encode(items[0])| && k == j + |Encode(items[1])|
    requires row1 == ProjectEntry(Entry(items[0].data, ToDoc(format, items[1])), depth, paths, columns, row)
    ensures EntryAt(format, p, i, depth, paths, columns, row) == Decoded(true, k, row1)
    decreases items, 0
  {
    EntryParts(format, p, i, items, depth, paths);
    KeyExact(format, p, i, items[0]);
    ValueExact(format, p, j, items[1], items[0].data, depth, paths, columns, row);
  }

  /** The loop takes the first entry of an encoded list and goes on behind it. */
  lemma {:induction false} EntriesStep(format: Format, p: Bytes, i: nat, items: seq<Item>, n: nat, j: nat, k: nat,
                                       depth: nat, paths: seq<Path>, columns: seq<nat>, row: seq<Cell>,
                                       row1: seq<Cell>, got: Decoded)
    requires Readable(format, items, depth, paths) && items != [] && At(p, i, EncodeAll(items))
    requires InRange(columns, paths, row)
    requires |items| >= 2 && items[0].Blob? && j == i + |Encode(items[0])| && k == j + |Encode(items[1])|
    requires row1 == ProjectEntry(Entry(items[0].data, ToDoc(format, items[1])), depth, paths, columns, row)
    requires n > 0 && k <= |p| && got == EntriesAt(format, p, i, n, depth, paths, columns, row)
    ensures got == EntriesAt(format, p, k, n - 1, depth, paths, columns, row1)
    decreases items, 1
  {
    EntryExact(format, p, i, items, j, k, depth, paths, columns, row, row1);
  }

  lemma ProjectCons(e: Entry, rest: seq<Entry>, depth: nat, paths: seq<Path>, columns: seq<nat>, row: seq<Cell>)
    requires InRange(columns, paths, row)
    ensures Project([e] + rest, depth, paths, columns, row)
            == Project(rest, depth, paths, columns, ProjectEntry(e, depth, paths, columns, row))
  {
    assert ([e] + rest)[1..] == rest;
  }

  /** Decoding an encoded document, whatever bytes follow it, is the one-pass projection of its tree. */
  lemma DecodeIsProjection(format: Format, item: Item, suffix: Bytes, paths: seq<Path>, columns: seq<nat>,
                           row: seq<Cell>)
    requires item.Group? && IsMap(format.shape(item.tag)) && WellFormed(format, item)
    requires Readable(format, item.items, 0, paths) && InRange(columns, paths, row)
    ensures DecodeRow(format, Encode(item) + suffix, paths, columns, row)
            == Project(ToEntries(format, item.items), 0, paths, columns, Cleared(columns, row))
  {
    var p := Encode(item) + suffix;
    assert At(p, 0, Encode(item));
    MapExact(format, p, 0, item, 0, paths, columns, Cleared(columns, row));
  }

  /** With compatible paths, every column receives the last scalar at its path, and other columns stay. */
  lemma DecodeIsLast(format: Format, item: Item, suffix: Bytes, paths: seq<Path>, columns: seq<nat>, row: seq<Cell>)
    requires item.Group? && IsMap(format.shape(item.tag)) && WellFormed(format, item)
    requires Readable(format, item.items, 0, paths) && Compatible(paths) && Columns(columns, paths, |row|)
    ensures var out := DecodeRow(format, Encode(item) + suffix, paths, columns, row);
            && (forall f | 0 <= f < |paths| :: out[columns[f]] == LastLookup(ToDoc(format, item), paths[f]))
            && (forall c | 0 <= c < |row| && c !in columns :: out[c] == row[c])
  {
    DecodeIsProjection(format, item, suffix, paths, columns, row);
    ReadableKeys(format, item.items, 0, paths);
    var clear := Cleared(columns, row);
    assert NullRow(columns, clear);
    ProjectionIsLast(ToEntries(format, item.items), paths, columns, clear);
    ProjectKeepsOthers(ToEntries(format, item.items), 0, paths, columns, clear);
  }

  /** With distinct keys, too, that is the independent lookup of the path. */
  lemma DecodeIsLookup(format: Format, item: Item, suffix: Bytes, paths: seq<Path>, columns: seq<nat>, row: seq<Cell>)
    requires item.Group? && IsMap(format.shape(item.tag)) && WellFormed(format, item)
    requires Readable(format, item.items, 0, paths) && DistinctEntries(ToEntries(format, item.items))
    requires Compatible(paths) && Columns(columns, paths, |row|)
    ensures var out := DecodeRow(format, Encode(item) + suffix, paths, columns, row);
            && (forall f | 0 <= f < |paths| :: out[columns[f]] == Lookup(ToDoc(format, item), paths[f]))
            && (forall c | 0 <= c < |row| && c !in columns :: out[c] == row[c])
  {
    DecodeIsLast(format, item, suffix, paths, columns, row);
    ReadableKeys(format, item.items, 0, paths);
    LastIsLookup(ToDoc(format, item), paths);
  }

  lemma LastIsLookup(doc: Doc, paths: seq<Path>)
    requires DistinctKeys(doc)
    ensures forall f | 0 <= f < |paths| :: LastLookup(doc, paths[f]) == Lookup(doc, paths[f])
  {
    forall f | 0 <= f < |paths| ensures LastLookup(doc, paths[f]) == Lookup(doc, paths[f]) {
      DistinctLast(doc, paths[f], 0);
    }
  }

  lemma {:induction false} EntryKeepsOthers(e: Entry, depth: nat, paths: seq<Path>, columns: seq<nat>, row: seq<Cell>)
    requires InRange(columns, paths, row)
    ensures forall c | 0 <= c < |row| && c !in columns :: ProjectEntry(e, depth, paths, columns, row)[c] == row[c]
    decreases e, 0
  {
    var first := FirstMatch(paths, depth, e.key);
    if first.Some? && depth + 1 != |paths[first.value]| && e.value.Node? {
      ProjectKeepsOthers(e.value.entries, depth + 1, paths, columns, row);
    }
  }

  /** Columns that no field is written to stay as they are. */
  lemma {:induction false} ProjectKeepsOthers(entries: seq<Entry>, depth: nat, paths: seq<Path>, columns: seq<nat>,
                                              row: seq<Cell>)
    requires InRange(columns, paths, row)
    ensures forall c | 0 <= c < |row| && c !in columns :: Project(entries, depth, paths, columns, row)[c] == row[c]
    decreases entries, 1
  {
    if entries != [] {
      EntryKeepsOthers(entries[0], depth, paths, columns, row);
      ProjectKeepsOthers(entries[1..], depth, paths, columns, ProjectEntry(entries[0], depth, paths, columns, row));
    }
  }
}
