/** Which rows read back: the exact condition for rows of publishable columns, and that publishable columns are exactly
    those that do no harm to the column behind them. */
module RowRoundTrip {
  import opened Options
  import opened Projection
  import opened Wire
  import opened Formats
  import opened ItemStream
  import opened StructuredEncoder
  import opened PayloadRoundTrip
  import opened RowReading
  import opened RowReadBack

  // ---------------------------------------------------------------- skipping well-formed items

  /** Skipping a well-formed item leaves what follows it, unless it is nested too deep. */
  lemma {:induction false} TakeWhole(format: Format, item: Item, rest: seq<Item>, depth: nat)
    requires WellFormed(format, item)
    ensures Take(format, [item] + rest, depth) == if depth + Depth(item) <= MAX_DECODE_DEPTH then Some(rest) else None
    decreases item, 0
  {
    var items := [item] + rest;
    assert items[1..] == rest;
    if item.Group? {
      TakeWholeAll(format, item.items, rest, depth + 1);
    }
  }

  ghost predicate WholeLeft(items: seq<Item>, rest: seq<Item>, depth: nat, left: Option<seq<Item>>) {
    left == if items == [] || depth + DepthAll(items) <= MAX_DECODE_DEPTH then Some(rest) else None
  }

  lemma WholeLeftCons(items: seq<Item>, rest: seq<Item>, depth: nat, left: Option<seq<Item>>)
    requires items != []
    requires if depth + Depth(items[0]) <= MAX_DECODE_DEPTH then WholeLeft(items[1..], rest, depth, left)
             else left == None
    ensures WholeLeft(items, rest, depth, left)
  {
    assert DepthAll(items) == if Depth(items[0]) < DepthAll(items[1..]) then DepthAll(items[1..]) else Depth(items[0]);
    assert items[1..] == [] ==> DepthAll(items[1..]) == 0;
  }

  lemma {:induction false} TakeWholeAll(format: Format, items: seq<Item>, rest: seq<Item>, depth: nat)
    requires AllWellFormed(format, items)
    ensures WholeLeft(items, rest, depth, TakeAll(format, items + rest, |items|, depth))
    decreases items, 1
  {
    if items == [] {
      assert items + rest == rest;
    } else {
      assert items + rest == [items[0]] + (items[1..] + rest);
      TakeWhole(format, items[0], items[1..] + rest, depth);
      TakeWholeAll(format, items[1..], rest, depth);
      WholeLeftCons(items, rest, depth, TakeAll(format, items + rest, |items|, depth));
    }
  }

  // ---------------------------------------------------------------- rows of publishable columns

  /** What follows the key of column `j`: its value and the columns behind it. */
  lemma {:induction false} ValueAndRest(cbor: bool, columns: seq<Column>, items: seq<Item>, j: nat)
    requires items == ColumnItems(cbor, columns) && j < |columns|
    ensures items[2 * j + 1..] == [ItemOf(cbor, Fast(columns[j]), columns[j].value)] + items[2 * (j + 1)..]
  {
    ItemsAt(cbor, columns, j);
  }

  /** A publishable column is skipped alone. */
  lemma {:induction false} TakePublishable(cbor: bool, floatText: FloatText, c: Column, rest: seq<Item>)
    requires Publishable(cbor, c)
    ensures Take(FormatOf(cbor, floatText), [ItemOf(cbor, Fast(c), c.value)] + rest, 0) == Some(rest)
  {
    ItemRight(cbor, Fast(c), floatText, c.value);
    TakeWhole(FormatOf(cbor, floatText), ItemOf(cbor, Fast(c), c.value), rest, 0);
  }

  lemma {:induction false} EndAtColumn(items: seq<Item>, k: nat, taken: Option<seq<Item>>)
    requires 2 * k <= |items| && taken == Some(items[2 * k..])
    ensures EndIn(items, taken) == AtColumn(k)
  {
  }

  /** Skipping the value of column `j` ends at the next column. */
  ghost predicate Alone(format: Format, items: seq<Item>, j: nat) {
    && 2 * (j + 1) <= |items|
    && After(format, items, j) == AtColumn(j + 1) && Take(format, items[2 * j + 1..], 0) == Some(items[2 * (j + 1)..])
  }

  ghost predicate AllAlone(format: Format, items: seq<Item>, m: nat) {
    forall i | 0 <= i < m :: Alone(format, items, i)
  }

  lemma {:induction false} AfterPublishable(cbor: bool, floatText: FloatText, columns: seq<Column>, items: seq<Item>,
                                            j: nat)
    requires items == ColumnItems(cbor, columns) && j < |columns| && Publishable(cbor, columns[j])
    ensures Alone(FormatOf(cbor, floatText), items, j)
  {
    ValueAndRest(cbor, columns, items, j);
    TakePublishable(cbor, floatText, columns[j], items[2 * (j + 1)..]);
    EndAtColumn(items, j + 1, Take(FormatOf(cbor, floatText), items[2 * j + 1..], 0));
  }

  /** Reading from column `j` on stays in the row and visits these columns. */
  ghost predicate Reads(format: Format, items: seq<Item>, j: nat, count: nat, visited: set<nat>) {
    visited == Visited(format, items, j, count) && Aligned(format, items, j, count)
  }

  lemma {:induction false} ReadsOne(format: Format, items: seq<Item>, m: nat, left: nat, later: set<nat>)
    requires m > 0 && AllAlone(format, items, m) && Reads(format, items, m, left, later)
    ensures AllAlone(format, items, m - 1) && Reads(format, items, m - 1, left + 1, {m - 1} + later)
  {
    assert Alone(format, items, m - 1);
  }

  function WithBelow(m: nat, later: set<nat>): set<nat> {
    if m == 0 then later else WithBelow(m - 1, {m - 1} + later)
  }

  lemma {:induction false} WithBelowHas(m: nat, later: set<nat>)
    ensures forall c: nat :: c in WithBelow(m, later) <==> c < m || c in later
    decreases m
  {
    if m > 0 {
      WithBelowHas(m - 1, {m - 1} + later);
    }
  }

  /** Such columns are read one after the other. */
  lemma {:induction false} ReadsAlone(format: Format, items: seq<Item>, m: nat, left: nat, count: nat, later: set<nat>,
                                      visited: set<nat>)
    requires count == m + left && AllAlone(format, items, m) && Reads(format, items, m, left, later)
    requires visited == WithBelow(m, later)
    ensures Reads(format, items, 0, count, visited)
    decreases m
  {
    if m > 0 {
      ReadsOne(format, items, m, left, later);
      ReadsAlone(format, items, m - 1, left + 1, count, {m - 1} + later, visited);
    }
  }

  lemma {:induction false} PublishableAlone(cbor: bool, floatText: FloatText, columns: seq<Column>, items: seq<Item>,
                                            m: nat)
    requires items == ColumnItems(cbor, columns) && m <= |columns| && AllPublishable(cbor, columns[..m])
    ensures AllAlone(FormatOf(cbor, floatText), items, m)
  {
    forall i | 0 <= i < m ensures Alone(FormatOf(cbor, floatText), items, i) {
      assert columns[i] == columns[..m][i];
      AfterPublishable(cbor, floatText, columns, items, i);
    }
  }

  /** Publishing a row and extracting its columns gives back every column's text, on any mix of the two paths, exactly
      when the columns that the head cannot count have none. */
  lemma RoundTripIff(cbor: bool, floatText: FloatText, columns: seq<Column>, paths: seq<Path>, outputs: seq<nat>,
                     row: seq<Cell>)
    requires AllPublishable(cbor, columns[..Kept(cbor, |columns|)]) && RowRepresentable(columns)
    requires DistinctNames(columns)
    requires RequestsAll(columns, paths) && Columns(outputs, paths, |row|)
    ensures ReadsBack(cbor, floatText, columns, paths, outputs, row)
            <==> NoTextFrom(floatText, columns, Kept(cbor, |columns|))
  {
    var format, m, items := FormatOf(cbor, floatText), Kept(cbor, |columns|), ColumnItems(cbor, columns);
    PublishableAlone(cbor, floatText, columns, items, m);
    var visited := WithBelow(m, {});
    WithBelowHas(m, {});
    ReadsAlone(format, items, m, 0, m, {}, visited);
    AlignedReadsBack(cbor, floatText, columns, paths, outputs, row, visited);
    NoneBehind(floatText, columns, visited, m);
  }

  lemma NoneBehind(floatText: FloatText, columns: seq<Column>, visited: set<nat>, m: nat)
    requires forall c: nat :: c in visited <==> c < m
    ensures OthersHaveNone(floatText, columns, visited) <==> NoTextFrom(floatText, columns, m)
  {
  }

  /** Up to 65535 columns in MessagePack, and below 2^32 in CBOR, nothing is lost. */
  lemma RoundTrip(cbor: bool, floatText: FloatText, columns: seq<Column>, paths: seq<Path>, outputs: seq<nat>,
                  row: seq<Cell>)
    requires AllPublishable(cbor, columns) && DistinctNames(columns) && |columns| < CountLimit(cbor)
    requires RequestsAll(columns, paths) && Columns(outputs, paths, |row|)
    ensures ReadsBack(cbor, floatText, columns, paths, outputs, row)
  {
    forall c | c in columns ensures |c.name| < TWO32 && Representable(c.value) {
      SizedRepresentable(cbor, c.value);
    }
    assert columns[..|columns|] == columns;
    RoundTripIff(cbor, floatText, columns, paths, outputs, row);
  }

  lemma {:induction false} SizedRepresentable(cbor: bool, value: Value)
    requires Sized(cbor, value)
    ensures Representable(value)
    decreases value, 0
  {
    match value
    case List(children) => AllSizedRepresentable(cbor, children);
    case Struct(fields) => FieldsSizedRepresentable(cbor, fields);
    case _ =>
  }

  lemma {:induction false} AllSizedRepresentable(cbor: bool, children: seq<Value>)
    requires AllSized(cbor, children)
    ensures AllRepresentable(children)
    decreases children, 1
  {
    if children != [] {
      SizedRepresentable(cbor, children[0]);
      AllSizedRepresentable(cbor, children[1..]);
    }
  }

  lemma {:induction false} FieldsSizedRepresentable(cbor: bool, fields: seq<Field>)
    requires FieldsSized(cbor, fields)
    ensures FieldsRepresentable(fields)
    decreases fields, 1
  {
    if fields != [] {
      SizedRepresentable(cbor, fields[0].value);
      FieldsSizedRepresentable(cbor, fields[1..]);
    }
  }

  // ---------------------------------------------------------------- rows with a CBOR null

  lemma {:induction false} OneTaken(format: Format, items: seq<Item>, depth: nat, left: Option<seq<Item>>)
    requires items != [] && left == Take(format, items, depth)
    ensures TakeAll(format, items, 1, depth) == left
  {
    assert left.Some? ==> TakeAll(format, left.value, 0, depth) == left;
  }

  /** The byte for null takes the next item along. */
  lemma {:induction false} NullTakesOne(floatText: FloatText, rest: seq<Item>, depth: nat, left: Option<seq<Item>>)
    requires rest != [] && depth <= MAX_DECODE_DEPTH && left == Take(Cbor(floatText), rest, depth + 1)
    ensures Take(Cbor(floatText), [NULL_ITEM] + rest, depth) == left
  {
    NullIsTag(floatText);
    OneTaken(Cbor(floatText), rest, depth + 1, left);
    TakeOpens(Cbor(floatText), NULL_ITEM, rest, depth);
    assert Kids(NULL_ITEM) + rest == rest;
  }

  lemma {:induction false} TakeNull(floatText: FloatText, next: Item, rest: seq<Item>)
    requires WellFormed(Cbor(floatText), next) && Depth(next) == 0
    ensures Take(Cbor(floatText), [NULL_ITEM, next] + rest, 0) == Some(rest)
  {
    TakeWhole(Cbor(floatText), next, rest, 1);
    NullTakesOne(floatText, [next] + rest, 0, Some(rest));
    assert [NULL_ITEM, next] + rest == [NULL_ITEM] + ([next] + rest);
  }

  lemma {:induction false} TakeLastNull(floatText: FloatText)
    ensures Take(Cbor(floatText), [NULL_ITEM], 0) == None
  {
    NullIsTag(floatText);
    assert Opened([NULL_ITEM]) == [];
  }

  lemma {:induction false} EndAtValue(items: seq<Item>, k: nat, taken: Option<seq<Item>>)
    requires 2 * k + 1 <= |items| && taken == Some(items[2 * k + 1..])
    ensures EndIn(items, taken) == AtValue(k)
  {
  }

  /** Reading ends with column `k`: what follows its value does not start at a column, or is not there. */
  ghost predicate Swerves(format: Format, items: seq<Item>, k: nat) {
    && 2 * k + 1 < |items|
    && var end, taken := After(format, items, k), Take(format, items[2 * k + 1..], 0);
       !end.AtColumn? && Later(items, k, end, taken)
  }

  lemma {:induction false} SwervesTo(items: seq<Item>, k: nat, taken: Option<seq<Item>>)
    requires 2 * k + 1 < |items| && |items| % 2 == 0
    requires taken == if k + 1 < |items| / 2 then Some(items[2 * (k + 1) + 1..]) else None
    ensures !EndIn(items, taken).AtColumn? && Later(items, k, EndIn(items, taken), taken)
  {
    if taken.Some? {
      EndAtValue(items, k + 1, taken);
    }
  }

  lemma {:induction false} TakenAfterNull(floatText: FloatText, columns: seq<Column>, items: seq<Item>, k: nat)
    requires items == ColumnItems(true, columns) && k < |columns| && columns[k].value.NullValue?
    requires RowRepresentable(columns)
    ensures |items| == 2 * |columns|
    ensures Take(FormatOf(true, floatText), items[2 * k + 1..], 0)
            == if k + 1 < |columns| then Some(items[2 * (k + 1) + 1..]) else None
  {
    ItemsAt(true, columns, k);
    if k + 1 < |columns| {
      var next, rest := items[2 * (k + 1)], items[2 * (k + 1) + 1..];
      ItemsAt(true, columns, k + 1);
      assert columns[k + 1] in columns;
      TextItemRight(true, floatText, columns[k + 1].name);
      TakeNull(floatText, next, rest);
      assert items[2 * k + 1..] == [NULL_ITEM, next] + rest;
    } else {
      TakeLastNull(floatText);
      assert items[2 * k + 1..] == [NULL_ITEM];
    }
  }

  /** After a null, reading goes on before the next column's value, or not at all. */
  lemma {:induction false} AfterNull(floatText: FloatText, columns: seq<Column>, items: seq<Item>, k: nat)
    requires items == ColumnItems(true, columns) && k < |columns| && columns[k].value.NullValue?
    requires RowRepresentable(columns)
    ensures Swerves(FormatOf(true, floatText), items, k)
  {
    TakenAfterNull(floatText, columns, items, k);
    SwervesFrom(FormatOf(true, floatText), items, k, Take(FormatOf(true, floatText), items[2 * k + 1..], 0));
  }

  lemma {:induction false} SwervesFrom(format: Format, items: seq<Item>, k: nat, taken: Option<seq<Item>>)
    requires 2 * k + 1 < |items| && |items| % 2 == 0 && taken == Take(format, items[2 * k + 1..], 0)
    requires taken == if k + 1 < |items| / 2 then Some(items[2 * (k + 1) + 1..]) else None
    ensures Swerves(format, items, k)
  {
    SwervesTo(items, k, taken);
  }

  lemma {:induction false} ReadsLast(format: Format, items: seq<Item>, k: nat, count: nat)
    requires count > 0 && Swerves(format, items, k)
    ensures Reads(format, items, k, count, {k})
  {
  }

  lemma {:induction false} ReadsUpTo(format: Format, items: seq<Item>, k: nat, count: nat) returns (visited: set<nat>)
    requires k < count && AllAlone(format, items, k) && Swerves(format, items, k)
    ensures Reads(format, items, 0, count, visited) && forall c: nat :: c in visited <==> c < k + 1
  {
    ReadsLast(format, items, k, count - k);
    visited := WithBelow(k, {k});
    WithBelowHas(k, {k});
    ReadsAlone(format, items, k, count - k, count, {k}, visited);
  }

  /** A CBOR row with a null column behind publishable ones reads back, column by column, exactly when nothing behind
      that null has a text.  (For any columns in front of it, see NullDemands.) */
  lemma CborNullIff(floatText: FloatText, columns: seq<Column>, k: nat, paths: seq<Path>, outputs: seq<nat>,
                    row: seq<Cell>)
    requires k < |columns| < TWO32 && columns[k].value.NullValue? && RowRepresentable(columns)
    requires AllPublishable(true, columns[..k]) && DistinctNames(columns)
    requires RequestsAll(columns, paths) && Columns(outputs, paths, |row|)
    ensures ReadsBack(true, floatText, columns, paths, outputs, row) <==> NoTextFrom(floatText, columns, k)
  {
    var format, items := FormatOf(true, floatText), ColumnItems(true, columns);
    PublishableAlone(true, floatText, columns, items, k);
    AfterNull(floatText, columns, items, k);
    var visited := ReadsUpTo(format, items, k, |columns|);
    AlignedReadsBack(true, floatText, columns, paths, outputs, row, visited);
    NoneBehind(floatText, columns, visited, k + 1);
    assert TextOf(floatText, columns[k].value) == Null;
  }

  /** For example: a number behind a null is lost. */
  lemma NullSwallows(floatText: FloatText, columns: seq<Column>, paths: seq<Path>, outputs: seq<nat>, row: seq<Cell>)
    requires |columns| == 2 && columns[0].value.NullValue? && columns[1].value == Signed(5) && RowRepresentable(columns)
    requires DistinctNames(columns) && RequestsAll(columns, paths) && Columns(outputs, paths, |row|)
    ensures !ReadsBack(true, floatText, columns, paths, outputs, row)
  {
    CborNullIff(floatText, columns, 0, paths, outputs, row);
    assert TextOf(floatText, columns[1].value) != Null;
  }
}
