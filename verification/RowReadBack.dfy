/** When an encoded row reads back, column by column: exactly when the columns that no entry starts at have no text. */
module RowReadBack {
  import opened Options
  import opened Bytes
  import opened Projection
  import opened Wire
  import opened Formats
  import opened Extraction
  import opened ItemStream
  import opened Pigeonhole
  import opened StructuredEncoder
  import opened PayloadRoundTrip
  import opened RowReading

  // ---------------------------------------------------------------- rows of items

  /** The key and the value of a column among the items of its row. */
  ghost predicate ColumnAt(format: Format, floatText: FloatText, items: seq<Item>, columns: seq<Column>, j: nat)
    requires j < |columns| && |items| == 2 * |columns|
  {
    var key, value, scalar := items[2 * j], items[2 * j + 1], ScalarOf(format, items[2 * j + 1]);
    && IsKey(format, key) && key.data == columns[j].name && !Encloses(format.shape(key.tag))
    && ScalarOf(format, key) == Some(Text(columns[j].name))
    && (IsKey(format, value) <==> columns[j].value.Str?)
    && (columns[j].value.Str? ==> value.data == columns[j].value.bytes)
    && TextOf(floatText, columns[j].value) == (if scalar.Some? then scalar.value else Null)
    && (scalar.Some? ==> !Encloses(format.shape(value.tag)))
  }

  /** The items are those of the columns. */
  ghost predicate RowOf(format: Format, floatText: FloatText, items: seq<Item>, columns: seq<Column>) {
    && |items| == 2 * |columns|
    && forall j | 0 <= j < |columns| :: ColumnAt(format, floatText, items, columns, j)
  }

  lemma {:induction false} ItemsAt(cbor: bool, columns: seq<Column>, j: nat)
    requires j < |columns|
    ensures |ColumnItems(cbor, columns)| == 2 * |columns|
    ensures ColumnItems(cbor, columns)[2 * j] == TextItem(cbor, columns[j].name)
    ensures ColumnItems(cbor, columns)[2 * j + 1] == ItemOf(cbor, Fast(columns[j]), columns[j].value)
  {
    if j > 0 {
      ItemsAt(cbor, columns[1..], j - 1);
      assert ColumnItems(cbor, columns)[2 * j] == ColumnItems(cbor, columns[1..])[2 * j - 2];
      assert ColumnItems(cbor, columns)[2 * j + 1] == ColumnItems(cbor, columns[1..])[2 * j - 1];
    }
  }

  lemma TextReads(cbor: bool, floatText: FloatText, s: Bytes)
    requires |s| < TWO32
    ensures var item, format := TextItem(cbor, s), FormatOf(cbor, floatText);
            && IsKey(format, item) && item.data == s && !Encloses(format.shape(item.tag))
            && ScalarOf(format, item) == Some(Text(s))
  {
    TextLooseItem(cbor, floatText, s);
  }

  /** The cell that the reader takes for a value is the value's text; what it does not take has none. */
  lemma ValueReads(cbor: bool, fast: bool, floatText: FloatText, value: Value)
    requires Representable(value)
    ensures var item, format := ItemOf(cbor, fast, value), FormatOf(cbor, floatText);
            var scalar := ScalarOf(format, item);
            && (IsKey(format, item) <==> value.Str?) && (value.Str? ==> item.data == value.bytes)
            && TextOf(floatText, value) == (if scalar.Some? then scalar.value else Null)
            && (scalar.Some? ==> !Encloses(format.shape(item.tag)))
  {
    match value
    case NullValue => NullIsTag(floatText);
    case Str(bytes) => TextReads(cbor, floatText, bytes);
    case List(_) =>
    case Struct(_) =>
    case _ => ItemRight(cbor, fast, floatText, value);
  }

  lemma RowOfColumns(cbor: bool, floatText: FloatText, columns: seq<Column>)
    requires RowRepresentable(columns)
    ensures RowOf(FormatOf(cbor, floatText), floatText, ColumnItems(cbor, columns), columns)
  {
    var format, items := FormatOf(cbor, floatText), ColumnItems(cbor, columns);
    forall j | 0 <= j < |columns| ensures ColumnAt(format, floatText, items, columns, j) {
      assert columns[j] in columns;
      ItemsAt(cbor, columns, j);
      TextReads(cbor, floatText, columns[j].name);
      ValueReads(cbor, Fast(columns[j]), floatText, columns[j].value);
    }
  }

  /** The fields requested are the columns' names, which are distinct. */
  ghost predicate Requests(columns: seq<Column>, paths: seq<Path>, outputs: seq<nat>, width: nat) {
    DistinctNames(columns) && RequestsAll(columns, paths) && Columns(outputs, paths, width)
  }

  /** The field that a key selects is the column of that name. */
  lemma FieldOfName(columns: seq<Column>, paths: seq<Path>, outputs: seq<nat>, width: nat, key: Bytes)
    requires Requests(columns, paths, outputs, width)
    ensures Singles(paths)
    ensures var f := FirstMatch(paths, 0, key);
            && (f.Some? ==> f.value < |columns| && columns[f.value].name == key)
            && (f.None? ==> forall c | 0 <= c < |columns| :: columns[c].name != key)
  {
    NamesCompatible(columns, paths);
    var f := FirstMatch(paths, 0, key);
    if f.None? {
      forall c | 0 <= c < |columns| ensures columns[c].name != key {
        assert !Matches(paths[c], 0, key);
      }
    }
  }

  // ---------------------------------------------------------------- where skipping a value ends

  /** Nowhere, before some column's name, or before some column's value. */
  datatype End = Stuck | AtColumn(column: nat) | AtValue(column: nat)

  function After(format: Format, items: seq<Item>, j: nat): End
    requires 2 * j + 1 < |items|
  {
    EndIn(items, Take(format, items[2 * j + 1..], 0))
  }

  function EndIn(items: seq<Item>, taken: Option<seq<Item>>): End {
    match taken
    case None => Stuck
    case Some(left) => if |left| > |items| then Stuck else EndAt(|items| - |left|)
  }

  function EndAt(index: nat): (end: End)
    ensures !end.Stuck? && index == if end.AtColumn? then 2 * end.column else 2 * end.column + 1
  {
    if index % 2 == 0 then AtColumn(index / 2) else AtValue(index / 2)
  }

  lemma EndOfSuffix(items: seq<Item>, taken: Option<seq<Item>>)
    requires taken.Some? ==> |taken.value| <= |items| && taken.value == items[|items| - |taken.value|..]
    ensures match EndIn(items, taken)
            case Stuck => taken.None?
            case AtColumn(k) => 2 * k + |taken.value| == |items| && taken == Some(items[2 * k..])
            case AtValue(k) => 2 * k + 1 + |taken.value| == |items| && taken == Some(items[2 * k + 1..])
  {
  }

  lemma SuffixOfRest(items: seq<Item>, i: nat, left: seq<Item>)
    requires i < |items| && IsSuffix(left, items[i..][1..])
    ensures |left| < |items| - i && left == items[|items| - |left|..]
  {
    assert items[i..][1..] == items[i + 1..];
    assert items[i + 1..][|items| - i - 1 - |left|..] == items[|items| - |left|..];
  }

  /** What is left after a value is what is left of the items from a later index on. */
  lemma LeftIsLater(items: seq<Item>, i: nat, taken: Option<seq<Item>>)
    requires i < |items| && (taken.Some? ==> IsSuffix(taken.value, items[i..][1..]))
    ensures taken.Some? ==> |taken.value| < |items| - i && taken.value == items[|items| - |taken.value|..]
  {
    if taken.Some? {
      SuffixOfRest(items, i, taken.value);
    }
  }

  lemma TakenIsSuffix(format: Format, items: seq<Item>, i: nat, taken: Option<seq<Item>>)
    requires i < |items| && AllCounted(format, items) && taken == Take(format, items[i..], 0)
    ensures taken.Some? ==> IsSuffix(taken.value, items[i..][1..])
  {
    CountedDrop(format, items, i);
    TakeEnds(format, items[i..], 0, taken);
  }

  ghost predicate Later(items: seq<Item>, j: nat, end: End, taken: Option<seq<Item>>) {
    match end
    case Stuck => taken.None?
    case AtColumn(k) => j < k && 2 * k <= |items| && taken == Some(items[2 * k..])
    case AtValue(k) => j < k && 2 * k + 1 <= |items| && taken == Some(items[2 * k + 1..])
  }

  lemma EndIsLater(items: seq<Item>, j: nat, end: End, taken: Option<seq<Item>>)
    requires end == EndIn(items, taken) && 2 * j + 1 < |items|
    requires taken.Some? ==> |taken.value| < |items| - 2 * j - 1 && taken.value == items[|items| - |taken.value|..]
    ensures Later(items, j, end, taken)
  {
    EndOfSuffix(items, taken);
  }

  lemma AfterIsLater(format: Format, items: seq<Item>, j: nat)
    requires 2 * j + 1 < |items| && AllCounted(format, items)
    ensures Later(items, j, After(format, items, j), Take(format, items[2 * j + 1..], 0))
  {
    var taken := Take(format, items[2 * j + 1..], 0);
    TakenIsSuffix(format, items, 2 * j + 1, taken);
    LeftIsLater(items, 2 * j + 1, taken);
    EndIsLater(items, j, After(format, items, j), taken);
  }

  // ---------------------------------------------------------------- which columns are read

  /** The columns that an entry starts at: the first, and after each the one whose name skipping its value ends at.
      Reading goes wrong where it ends before a value instead, and stops where the value cannot be skipped. */
  function Visited(format: Format, items: seq<Item>, j: nat, count: nat): set<nat>
    decreases count
  {
    if count == 0 || 2 * j + 1 >= |items| then {}
    else
      match After(format, items, j)
      case AtColumn(k) => {j} + Visited(format, items, k, count - 1)
      case _ => {j}
  }

  /** As far as columns are visited, what is left after each is left of the row itself, from a later column on. */
  ghost predicate Aligned(format: Format, items: seq<Item>, j: nat, count: nat)
    decreases count
  {
    count > 0 && 2 * j + 1 < |items| ==>
      var end := After(format, items, j);
      && Later(items, j, end, Take(format, items[2 * j + 1..], 0))
      && (end.AtColumn? ==> Aligned(format, items, end.column, count - 1))
  }

  /** Where every container holds what its head announces, reading stays in the row. */
  lemma {:induction false} CountedAligned(format: Format, items: seq<Item>, j: nat, count: nat)
    requires AllCounted(format, items)
    ensures Aligned(format, items, j, count)
    decreases count
  {
    if count > 0 && 2 * j + 1 < |items| {
      AfterIsLater(format, items, j);
      var end := After(format, items, j);
      if end.AtColumn? {
        CountedAligned(format, items, end.column, count - 1);
      }
    }
  }

  predicate Fit(items: seq<Item>, outputs: seq<nat>, row: seq<Cell>) {
    2 * |outputs| == |items| && forall c | 0 <= c < |outputs| :: outputs[c] < |row|
  }

  function Assigned(format: Format, items: seq<Item>, j: nat, outputs: seq<nat>, row: seq<Cell>): (r: seq<Cell>)
    requires Fit(items, outputs, row) && j < |outputs|
    ensures |r| == |row|
  {
    var scalar := ScalarOf(format, items[2 * j + 1]);
    if scalar.Some? then row[outputs[j] := scalar.value] else row
  }

  /** The row after the columns visited. */
  function VisitedRow(format: Format, items: seq<Item>, j: nat, count: nat, outputs: seq<nat>, row: seq<Cell>)
    : (r: seq<Cell>)
    requires Fit(items, outputs, row)
    ensures |r| == |row|
    decreases count
  {
    if count == 0 || 2 * j + 1 >= |items| then row
    else
      match After(format, items, j)
      case AtColumn(k) => VisitedRow(format, items, k, count - 1, outputs, Assigned(format, items, j, outputs, row))
      case _ => Assigned(format, items, j, outputs, row)
  }

  ghost predicate Separate(outputs: seq<nat>) {
    forall f, g | 0 <= f < g < |outputs| :: outputs[f] != outputs[g]
  }

  lemma AssignedAt(format: Format, floatText: FloatText, items: seq<Item>, columns: seq<Column>, j: nat,
                   outputs: seq<nat>, row: seq<Cell>, c: nat)
    requires RowOf(format, floatText, items, columns) && Fit(items, outputs, row) && Separate(outputs)
    requires j < |columns| && c < |columns| && (c == j ==> row[outputs[c]] == Null)
    ensures Assigned(format, items, j, outputs, row)[outputs[c]]
            == if c == j then TextOf(floatText, columns[c].value) else row[outputs[c]]
  {
    assert ColumnAt(format, floatText, items, columns, j);
  }

  /** Each column visited receives its text, and nothing else is written. */
  lemma {:induction false} VisitedRowAt(format: Format, floatText: FloatText, items: seq<Item>, columns: seq<Column>,
                                        j: nat, count: nat, outputs: seq<nat>, row: seq<Cell>, c: nat)
    requires RowOf(format, floatText, items, columns) && Fit(items, outputs, row) && Separate(outputs)
    requires c < |columns| && (c >= j ==> row[outputs[c]] == Null) && Aligned(format, items, j, count)
    ensures VisitedRow(format, items, j, count, outputs, row)[outputs[c]]
            == if c in Visited(format, items, j, count) then TextOf(floatText, columns[c].value) else row[outputs[c]]
    ensures c in Visited(format, items, j, count) ==> c >= j
    decreases count
  {
    if count > 0 && j < |columns| {
      var end, row1 := After(format, items, j), Assigned(format, items, j, outputs, row);
      AssignedAt(format, floatText, items, columns, j, outputs, row, c);
      if end.AtColumn? {
        VisitedRowAt(format, floatText, items, columns, end.column, count - 1, outputs, row1, c);
      }
    }
  }

  // ---------------------------------------------------------------- reading out of step

  /** Where reading gets out of step: before the value of a column, with some entries still to read. */
  function Misstep(format: Format, items: seq<Item>, j: nat, count: nat): Option<(nat, nat)>
    decreases count
  {
    if count == 0 || 2 * j + 1 >= |items| then None
    else
      match After(format, items, j)
      case Stuck => None
      case AtColumn(k) => Misstep(format, items, k, count - 1)
      case AtValue(k) => Some((k, count - 1))
  }

  /** It gets out of step behind all the columns visited. */
  lemma {:induction false} MisstepIsLater(format: Format, items: seq<Item>, j: nat, count: nat, at: Option<(nat, nat)>,
                                          c: nat)
    requires Aligned(format, items, j, count) && at == Misstep(format, items, j, count) && at.Some?
    ensures j < at.value.0 && 2 * at.value.0 + 1 <= |items|
    ensures c in Visited(format, items, j, count) ==> c < at.value.0
    decreases count
  {
    if count > 0 && 2 * j + 1 < |items| {
      var end := After(format, items, j);
      if end.AtColumn? {
        MisstepIsLater(format, items, end.column, count - 1, at, c);
      }
    }
  }

  /** What reading entries from the value of a column on makes of the row. */
  function OutOfStep(format: Format, items: seq<Item>, at: Option<(nat, nat)>, paths: seq<Path>, outputs: seq<nat>,
                     row: seq<Cell>): (r: seq<Cell>)
    requires InRange(outputs, paths, row)
    ensures |r| == |row|
  {
    match at
    case None => row
    case Some((k, count)) =>
      if 2 * k + 1 > |items| then row else StreamRow(format, items[2 * k + 1..], count, paths, outputs, row)
  }

  /** The entry that starts at a column's name. */
  lemma ColumnEntry(format: Format, floatText: FloatText, items: seq<Item>, columns: seq<Column>, j: nat,
                    paths: seq<Path>, outputs: seq<nat>, row: seq<Cell>)
    requires RowOf(format, floatText, items, columns) && Requests(columns, paths, outputs, |row|) && j < |columns|
    ensures var row1 := Assigned(format, items, j, outputs, row);
            StreamEntry(format, items[2 * j..], paths, outputs, row)
            == match Take(format, items[2 * j + 1..], 0) case None => None case Some(left) => Some((left, row1))
  {
    assert ColumnAt(format, floatText, items, columns, j);
    FieldOfName(columns, paths, outputs, |row|, columns[j].name);
    var from := items[2 * j..];
    assert from[0] == items[2 * j] && from[1..] == items[2 * j + 1..];
  }

  lemma {:induction false} AlignedNext(format: Format, items: seq<Item>, j: nat, count: nat, end: End,
                                       left: Option<seq<Item>>)
    requires Aligned(format, items, j, count) && count > 0 && 2 * j + 1 < |items|
    requires end == After(format, items, j) && left == Take(format, items[2 * j + 1..], 0)
    ensures Later(items, j, end, left) && (end.AtColumn? ==> Aligned(format, items, end.column, count - 1))
  {
  }

  /** Behind column `j` the next one is read in step. */
  lemma {:induction false} SplitsLater(format: Format, items: seq<Item>, j: nat, count: nat, outputs: seq<nat>,
                                       row: seq<Cell>, k: nat)
    requires count > 0 && 2 * j + 1 < |items| && Fit(items, outputs, row) && After(format, items, j) == AtColumn(k)
    ensures Misstep(format, items, j, count) == Misstep(format, items, k, count - 1)
    ensures VisitedRow(format, items, j, count, outputs, row)
            == VisitedRow(format, items, k, count - 1, outputs, Assigned(format, items, j, outputs, row))
  {
  }

  /** Column `j` is the last one that is read in step. */
  lemma {:induction false} SplitsHere(format: Format, items: seq<Item>, j: nat, count: nat, paths: seq<Path>,
                                      outputs: seq<nat>, row: seq<Cell>, left: Option<seq<Item>>, got: seq<Cell>)
    requires count > 0 && 2 * j + 1 < |items| && Fit(items, outputs, row) && InRange(outputs, paths, row)
    requires !After(format, items, j).AtColumn? && Later(items, j, After(format, items, j), left)
    requires left.None? ==> got == row && ScalarOf(format, items[2 * j + 1]).None?
    requires left.Some? ==>
               got == StreamRow(format, left.value, count - 1, paths, outputs, Assigned(format, items, j, outputs, row))
    ensures got == OutOfStep(format, items, Misstep(format, items, j, count), paths, outputs,
                             VisitedRow(format, items, j, count, outputs, row))
  {
  }

  /** Column `j` is read, and reading goes on with what is left behind its value. */
  lemma {:induction false} ColumnSplits(format: Format, floatText: FloatText, items: seq<Item>, columns: seq<Column>,
                                        j: nat, count: nat, paths: seq<Path>, outputs: seq<nat>, row: seq<Cell>,
                                        left: Option<seq<Item>>, got: seq<Cell>)
    requires RowOf(format, floatText, items, columns) && Requests(columns, paths, outputs, |row|) && j < |columns|
    requires count > 0 && left == Take(format, items[2 * j + 1..], 0)
    requires got == StreamRow(format, items[2 * j..], count, paths, outputs, row)
    ensures left.None? ==> got == row && ScalarOf(format, items[2 * j + 1]).None?
    ensures left.Some? ==>
              got == StreamRow(format, left.value, count - 1, paths, outputs, Assigned(format, items, j, outputs, row))
  {
    ColumnEntry(format, floatText, items, columns, j, paths, outputs, row);
    StreamNext(format, items[2 * j..], count, paths, outputs, row, left, Assigned(format, items, j, outputs, row));
    assert ColumnAt(format, floatText, items, columns, j);
    assert items[2 * j + 1..][0] == items[2 * j + 1];
  }

  /** Reading column `j` ends the matter, or leads to the next column that is read in step. */
  lemma {:induction false} SplitsNext(format: Format, floatText: FloatText, items: seq<Item>, columns: seq<Column>,
                                      j: nat, count: nat, paths: seq<Path>, outputs: seq<nat>, row: seq<Cell>,
                                      got: seq<Cell>)
    returns (next: Option<nat>, row1: seq<Cell>)
    requires RowOf(format, floatText, items, columns) && Requests(columns, paths, outputs, |row|) && j < |columns|
    requires Aligned(format, items, j, count) && got == StreamRow(format, items[2 * j..], count, paths, outputs, row)
    requires count > 0
    ensures next.None? ==> got == OutOfStep(format, items, Misstep(format, items, j, count), paths, outputs,
                                            VisitedRow(format, items, j, count, outputs, row))
    ensures next.Some? ==>
              && next.value <= |columns| && |row1| == |row| && Aligned(format, items, next.value, count - 1)
              && got == StreamRow(format, items[2 * next.value..], count - 1, paths, outputs, row1)
              && Misstep(format, items, j, count) == Misstep(format, items, next.value, count - 1)
              && VisitedRow(format, items, j, count, outputs, row)
                 == VisitedRow(format, items, next.value, count - 1, outputs, row1)
  {
    var left, end := Take(format, items[2 * j + 1..], 0), After(format, items, j);
    row1 := Assigned(format, items, j, outputs, row);
    ColumnSplits(format, floatText, items, columns, j, count, paths, outputs, row, left, got);
    AlignedNext(format, items, j, count, end, left);
    if end.AtColumn? {
      SplitsLater(format, items, j, count, outputs, row, end.column);
      next := Some(end.column);
    } else {
      SplitsHere(format, items, j, count, paths, outputs, row, left, got);
      next := None;
    }
  }

  /** Nothing is left to read. */
  lemma {:induction false} SplitsNoMore(format: Format, items: seq<Item>, j: nat, count: nat, paths: seq<Path>,
                                        outputs: seq<nat>, row: seq<Cell>)
    requires Fit(items, outputs, row) && InRange(outputs, paths, row)
    requires 2 * j <= |items| && (count == 0 || 2 * j == |items|)
    ensures StreamRow(format, items[2 * j..], count, paths, outputs, row)
            == OutOfStep(format, items, Misstep(format, items, j, count), paths, outputs,
                         VisitedRow(format, items, j, count, outputs, row))
  {
    assert 2 * j == |items| ==> items[2 * j..] == [];
  }

  /** Reading a row from a column on is reading the columns visited, and then out of step from where it goes wrong. */
  lemma {:induction false} RowSplits(format: Format, floatText: FloatText, items: seq<Item>, columns: seq<Column>,
                                     j: nat, count: nat, paths: seq<Path>, outputs: seq<nat>, row: seq<Cell>,
                                     got: seq<Cell>, at: Option<(nat, nat)>, before: seq<Cell>)
    requires RowOf(format, floatText, items, columns) && Requests(columns, paths, outputs, |row|) && j <= |columns|
    requires Aligned(format, items, j, count) && got == StreamRow(format, items[2 * j..], count, paths, outputs, row)
    requires at == Misstep(format, items, j, count) && before == VisitedRow(format, items, j, count, outputs, row)
    ensures got == OutOfStep(format, items, at, paths, outputs, before)
    decreases count
  {
    if count > 0 && j < |columns| {
      var next, row1 := SplitsNext(format, floatText, items, columns, j, count, paths, outputs, row, got);
      if next.Some? {
        RowSplits(format, floatText, items, columns, next.value, count - 1, paths, outputs, row1, got, at, before);
      }
    } else {
      SplitsNoMore(format, items, j, count, paths, outputs, row);
    }
  }

  /** Column `c` is filled because the text of column `j` is its name: the next column's name is taken for its value. */
  predicate Fills(columns: seq<Column>, j: nat, c: nat, cell: Cell) {
    && j + 1 < |columns| && c < |columns| && columns[j].value.Str? && columns[j].value.bytes == columns[c].name
    && cell == Text(columns[j + 1].name)
  }

  /** The entry that starts at a column's value: a text is taken for a key and the next name for its value. */
  lemma ValueEntry(format: Format, floatText: FloatText, items: seq<Item>, columns: seq<Column>, k: nat,
                   paths: seq<Path>, outputs: seq<nat>, row: seq<Cell>)
    requires RowOf(format, floatText, items, columns) && Requests(columns, paths, outputs, |row|) && k < |columns|
    ensures var entry := StreamEntry(format, items[2 * k + 1..], paths, outputs, row);
            if k + 1 == |columns| || !columns[k].value.Str? then entry.None?
            else
              var f := FirstMatch(paths, 0, columns[k].value.bytes);
              entry == Some((items[2 * k + 3..],
                             if f.Some? then row[outputs[f.value] := Text(columns[k + 1].name)] else row))
  {
    var from := items[2 * k + 1..];
    assert ColumnAt(format, floatText, items, columns, k);
    assert from[0] == items[2 * k + 1];
    if k + 1 < |columns| && columns[k].value.Str? {
      assert ColumnAt(format, floatText, items, columns, k + 1);
      assert from[1..][0] == items[2 * (k + 1)] && from[1..][1..] == items[2 * k + 3..];
    }
  }

  lemma {:induction false} ChainFills(format: Format, floatText: FloatText, items: seq<Item>, columns: seq<Column>,
                                      k: nat, count: nat, paths: seq<Path>, outputs: seq<nat>, row: seq<Cell>, c: nat,
                                      out: seq<Cell>) returns (filler: nat)
    requires RowOf(format, floatText, items, columns) && Requests(columns, paths, outputs, |row|)
    requires k < |columns| && c < |columns|
    requires out == OutOfStep(format, items, Some((k, count)), paths, outputs, row)
    requires out[outputs[c]] != row[outputs[c]]
    ensures k <= filler && Fills(columns, filler, c, out[outputs[c]])
    decreases count
  {
    ValueEntry(format, floatText, items, columns, k, paths, outputs, row);
    FieldOfName(columns, paths, outputs, |row|, columns[k].value.bytes);
    var row1 := StreamEntry(format, items[2 * k + 1..], paths, outputs, row).value.1;
    if out[outputs[c]] != row1[outputs[c]] {
      filler := ChainFills(format, floatText, items, columns, k + 1, count - 1, paths, outputs, row1, c, out);
    } else {
      filler := k;
    }
  }

  // ---------------------------------------------------------------- nothing can make up for it

  /** Column `c` is filled with its text by the column that `g` gives for it, one of `t`. */
  ghost predicate Filled(floatText: FloatText, columns: seq<Column>, t: set<nat>, g: map<nat, nat>, c: nat) {
    && MapsInto(t, g, c) && c < |columns|
    && Fills(columns, g[c], c, TextOf(floatText, columns[c].value))
  }

  /** Columns that have a text cannot all be filled with it by columns among them: the last one would have to fill one
      with the name of a later column, and that column's name would be the text of one of them. */
  lemma NoneFilled(floatText: FloatText, columns: seq<Column>, t: set<nat>, g: map<nat, nat>)
    requires DistinctNames(columns) && t == g.Keys
    requires forall c {:trigger Filled(floatText, columns, t, g, c)} | c in t :: Filled(floatText, columns, t, g, c)
    ensures t == {}
  {
    if t != {} {
      var m := Largest(t);
      forall a, b | a in t && b in t && a != b ensures g[a] != g[b] {
        assert Filled(floatText, columns, t, g, a) && Filled(floatText, columns, t, g, b);
      }
      forall a | a in t ensures MapsInto(t, g, a) {
        assert Filled(floatText, columns, t, g, a);
      }
      var c := InjectiveIsOnto(t, g, m);
      var d := InjectiveIsOnto(t, g, c);
      assert Filled(floatText, columns, t, g, c) && Filled(floatText, columns, t, g, d) && d <= m;
      NotBoth(floatText, columns, m, c, d);
    }
  }

  lemma NotBoth(floatText: FloatText, columns: seq<Column>, m: nat, c: nat, d: nat)
    requires DistinctNames(columns) && d <= m && c < |columns|
    requires Fills(columns, m, c, TextOf(floatText, columns[c].value))
    ensures !(d < |columns| && Fills(columns, c, d, TextOf(floatText, columns[d].value)))
  {
    assert m + 1 < |columns| && columns[d].name != columns[m + 1].name;
  }

  // ---------------------------------------------------------------- exactly when a row reads back

  /** Nothing that has a text is left out. */
  ghost predicate OthersHaveNone(floatText: FloatText, columns: seq<Column>, visited: set<nat>) {
    forall c | 0 <= c < |columns| && c !in visited :: TextOf(floatText, columns[c].value) == Null
  }

  /** What was read in step: the texts of the columns visited. */
  ghost predicate InStep(floatText: FloatText, columns: seq<Column>, visited: set<nat>, outputs: seq<nat>,
                         before: seq<Cell>) {
    && Separate(outputs) && |outputs| == |columns|
    && forall c | 0 <= c < |columns| ::
         && outputs[c] < |before|
         && before[outputs[c]] == if c in visited then TextOf(floatText, columns[c].value) else Null
  }

  /** Everything about reading out of step from column `at.0` on. */
  ghost predicate Astray(format: Format, floatText: FloatText, items: seq<Item>, columns: seq<Column>,
                         visited: set<nat>, at: Option<(nat, nat)>, paths: seq<Path>, outputs: seq<nat>,
                         before: seq<Cell>, out: seq<Cell>) {
    && RowOf(format, floatText, items, columns) && Requests(columns, paths, outputs, |before|)
    && InStep(floatText, columns, visited, outputs, before)
    && (at.Some? ==> at.value.0 < |columns| && forall c | at.value.0 <= c :: c !in visited)
    && out == OutOfStep(format, items, at, paths, outputs, before)
  }

  ghost predicate Missing(floatText: FloatText, columns: seq<Column>, visited: set<nat>, c: nat) {
    c < |columns| && c !in visited && TextOf(floatText, columns[c].value) != Null
  }

  lemma FillerOf(format: Format, floatText: FloatText, items: seq<Item>, columns: seq<Column>, visited: set<nat>,
                 at: Option<(nat, nat)>, paths: seq<Path>, outputs: seq<nat>, before: seq<Cell>, out: seq<Cell>, c: nat)
    returns (filler: nat)
    requires Astray(format, floatText, items, columns, visited, at, paths, outputs, before, out)
    requires AllTexts(floatText, columns, outputs, out) && Missing(floatText, columns, visited, c)
    ensures Missing(floatText, columns, visited, filler)
    ensures Fills(columns, filler, c, TextOf(floatText, columns[c].value))
  {
    assert out[outputs[c]] != before[outputs[c]];
    var (k, count) := at.value;
    filler := ChainFills(format, floatText, items, columns, k, count, paths, outputs, before, c, out);
  }

  /** One of `t` has filled column `c` with its text. */
  ghost predicate Fillable(floatText: FloatText, columns: seq<Column>, t: set<nat>, c: nat) {
    c < |columns| && exists filler :: filler in t && Fills(columns, filler, c, TextOf(floatText, columns[c].value))
  }

  ghost function FillerIn(floatText: FloatText, columns: seq<Column>, t: set<nat>, c: nat): (filler: nat)
    requires Fillable(floatText, columns, t, c)
    ensures filler in t && Fills(columns, filler, c, TextOf(floatText, columns[c].value))
  {
    var filler :| filler in t && Fills(columns, filler, c, TextOf(floatText, columns[c].value));
    filler
  }

  /** For each of `t`, one of them that has filled it. */
  lemma Fillers(floatText: FloatText, columns: seq<Column>, t: set<nat>) returns (g: map<nat, nat>)
    requires forall c {:trigger Fillable(floatText, columns, t, c)} | c in t :: Fillable(floatText, columns, t, c)
    ensures g.Keys == t
    ensures forall c {:trigger Filled(floatText, columns, t, g, c)} | c in t :: Filled(floatText, columns, t, g, c)
  {
    g := map c | c in t :: FillerIn(floatText, columns, t, c);
  }

  lemma NothingMissing(format: Format, floatText: FloatText, items: seq<Item>, columns: seq<Column>, visited: set<nat>,
                       at: Option<(nat, nat)>, paths: seq<Path>, outputs: seq<nat>, before: seq<Cell>, out: seq<Cell>)
    requires Astray(format, floatText, items, columns, visited, at, paths, outputs, before, out)
    requires AllTexts(floatText, columns, outputs, out)
    ensures OthersHaveNone(floatText, columns, visited)
  {
    var t := set c: nat | c < |columns| && Missing(floatText, columns, visited, c);
    forall c | c in t ensures Fillable(floatText, columns, t, c) {
      var filler := FillerOf(format, floatText, items, columns, visited, at, paths, outputs, before, out, c);
      assert filler in t;
    }
    var g := Fillers(floatText, columns, t);
    NoneFilled(floatText, columns, t, g);
    forall c | 0 <= c < |columns| && c !in visited ensures TextOf(floatText, columns[c].value) == Null {
      assert c !in t;
    }
  }

  lemma NothingAstray(format: Format, floatText: FloatText, items: seq<Item>, columns: seq<Column>, visited: set<nat>,
                      at: Option<(nat, nat)>, paths: seq<Path>, outputs: seq<nat>, before: seq<Cell>, out: seq<Cell>)
    requires Astray(format, floatText, items, columns, visited, at, paths, outputs, before, out)
    requires OthersHaveNone(floatText, columns, visited)
    ensures out == before && AllTexts(floatText, columns, outputs, out)
  {
    if at.Some? {
      var (k, count) := at.value;
      assert !columns[k].value.Str?;
      ValueEntry(format, floatText, items, columns, k, paths, outputs, before);
    }
  }

  /** The columns that are read when the encoded row is decoded. */
  function ColumnsRead(cbor: bool, floatText: FloatText, columns: seq<Column>): set<nat> {
    Visited(FormatOf(cbor, floatText), ColumnItems(cbor, columns), 0, Kept(cbor, |columns|))
  }

  lemma WholeRow(format: Format, floatText: FloatText, items: seq<Item>, columns: seq<Column>, count: nat,
                 paths: seq<Path>, outputs: seq<nat>, clear: seq<Cell>, out: seq<Cell>)
    returns (at: Option<(nat, nat)>, before: seq<Cell>)
    requires RowOf(format, floatText, items, columns) && Requests(columns, paths, outputs, |clear|)
    requires forall c | 0 <= c < |outputs| :: clear[outputs[c]] == Null
    requires Aligned(format, items, 0, count) && out == StreamRow(format, items, count, paths, outputs, clear)
    ensures Astray(format, floatText, items, columns, Visited(format, items, 0, count), at, paths, outputs, before, out)
    ensures |out| == |clear|
  {
    at, before := Misstep(format, items, 0, count), VisitedRow(format, items, 0, count, outputs, clear);
    assert items[2 * 0..] == items;
    RowSplits(format, floatText, items, columns, 0, count, paths, outputs, clear, out, at, before);
    forall c | 0 <= c < |columns|
      ensures before[outputs[c]]
              == if c in Visited(format, items, 0, count) then TextOf(floatText, columns[c].value) else Null
    {
      VisitedRowAt(format, floatText, items, columns, 0, count, outputs, clear, c);
    }
    if at.Some? {
      forall c | at.value.0 <= c ensures c !in Visited(format, items, 0, count) {
        MisstepIsLater(format, items, 0, count, at, c);
      }
      MisstepIsLater(format, items, 0, count, at, 0);
    }
  }

  ghost predicate ReadsBack(cbor: bool, floatText: FloatText, columns: seq<Column>, paths: seq<Path>, outputs: seq<nat>,
                            row: seq<Cell>)
    requires InRange(outputs, paths, row) && |paths| == |columns|
  {
    AllTexts(floatText, columns, outputs,
             DecodeRow(FormatOf(cbor, floatText), Encode(RowItem(cbor, columns)), paths, outputs, row))
  }

  lemma AlignedReadsBack(cbor: bool, floatText: FloatText, columns: seq<Column>, paths: seq<Path>, outputs: seq<nat>,
                         row: seq<Cell>, visited: set<nat>)
    requires RowRepresentable(columns) && DistinctNames(columns)
    requires RequestsAll(columns, paths) && Columns(outputs, paths, |row|)
    requires Aligned(FormatOf(cbor, floatText), ColumnItems(cbor, columns), 0, Kept(cbor, |columns|))
    requires visited == ColumnsRead(cbor, floatText, columns)
    ensures ReadsBack(cbor, floatText, columns, paths, outputs, row) <==> OthersHaveNone(floatText, columns, visited)
  {
    var format, items, n := FormatOf(cbor, floatText), ColumnItems(cbor, columns), Kept(cbor, |columns|);
    var clear := Cleared(outputs, row);
    NamesCompatible(columns, paths);
    RowIsStream(cbor, floatText, columns, paths, outputs, row);
    RowOfColumns(cbor, floatText, columns);
    var out := StreamRow(format, items, n, paths, outputs, clear);
    var at, before := WholeRow(format, floatText, items, columns, n, paths, outputs, clear, out);
    if AllTexts(floatText, columns, outputs, out) {
      NothingMissing(format, floatText, items, columns, visited, at, paths, outputs, before, out);
    }
    if OthersHaveNone(floatText, columns, visited) {
      NothingAstray(format, floatText, items, columns, visited, at, paths, outputs, before, out);
    }
  }

  /** An encoded row gives back every column's text exactly when the columns that are not read have none: those that the
      head cannot count, and those behind a value that is nested too deep or, in CBOR, holds nulls. */
  lemma ReadsBackIff(cbor: bool, floatText: FloatText, columns: seq<Column>, paths: seq<Path>, outputs: seq<nat>,
                     row: seq<Cell>)
    requires RowRepresentable(columns) && RowCountsFit(cbor, columns) && DistinctNames(columns)
    requires RequestsAll(columns, paths) && Columns(outputs, paths, |row|)
    ensures ReadsBack(cbor, floatText, columns, paths, outputs, row)
            <==> OthersHaveNone(floatText, columns, ColumnsRead(cbor, floatText, columns))
  {
    ColumnsCounted(cbor, floatText, columns);
    CountedAligned(FormatOf(cbor, floatText), ColumnItems(cbor, columns), 0, Kept(cbor, |columns|));
    AlignedReadsBack(cbor, floatText, columns, paths, outputs, row, ColumnsRead(cbor, floatText, columns));
  }
}
