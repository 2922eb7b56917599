/** Which columns of an encoded row are read, by its values alone.  In CBOR every null demands one further item, so a
    column passes over as much of the row behind it as its nulls demand, and those of what it passes over, as long as
    nothing is skipped more than 256 deep. */
module NullDemands {
  import opened Options
  import opened Projection
  import opened Wire
  import opened Formats
  import opened ItemStream
  import opened StructuredEncoder
  import opened PayloadRoundTrip
  import opened RowReading
  import opened RowReadBack
  import opened RowRoundTrip

  // ---------------------------------------------------------------- passing over values

  function Times(n: nat, depth: nat): (depths: seq<nat>)
    ensures |depths| == n
  {
    seq(n, _ => depth)
  }

  /** What is wanted when an item that announces `n` others is taken for the first of the items wanted. */
  function Inside(n: nat, wanted: seq<nat>): (inside: seq<nat>)
    requires wanted != []
    ensures |inside| == n + |wanted| - 1
  {
    Times(n, wanted[0] + 1) + wanted[1..]
  }

  /** What is wanted behind a value that is taken for the first of the items wanted; `wanted` lists the depths at which
      they are skipped.  None when something is too deep. */
  function Pass(cbor: bool, value: Value, wanted: seq<nat>): (left: Option<seq<nat>>)
    requires wanted != []
    ensures left.Some? ==> |left.value| == |wanted| - 1 + Demand(cbor, value)
    decreases value, 0
  {
    if wanted[0] > MAX_DECODE_DEPTH then None
    else
      match value
      case NullValue => Some(Inside(if cbor then 1 else 0, wanted))
      case List(children) => PassAll(cbor, children, Inside(|children|, wanted))
      case Struct(fields) => PassFields(cbor, fields, Inside(2 * |fields|, wanted))
      case _ => Some(wanted[1..])
  }

  function PassAll(cbor: bool, children: seq<Value>, wanted: seq<nat>): (left: Option<seq<nat>>)
    requires |wanted| >= |children|
    ensures left.Some? ==> |left.value| == |wanted| - |children| + DemandAll(cbor, children)
    decreases children, 1
  {
    if children == [] then Some(wanted)
    else
      match Pass(cbor, children[0], wanted)
      case None => None
      case Some(left) => PassAll(cbor, children[1..], left)
  }

  function PassFields(cbor: bool, fields: seq<Field>, wanted: seq<nat>): (left: Option<seq<nat>>)
    requires |wanted| >= 2 * |fields|
    ensures left.Some? ==> |left.value| == |wanted| - 2 * |fields| + DemandFields(cbor, fields)
    decreases fields, 1
  {
    if fields == [] then Some(wanted)
    else if wanted[0] > MAX_DECODE_DEPTH then None
    else
      match Pass(cbor, fields[0].value, wanted[1..])
      case None => None
      case Some(left) => PassFields(cbor, fields[1..], left)
  }

  /** How many items a value demands beyond itself: one for each CBOR null in it. */
  function Demand(cbor: bool, value: Value): nat
    decreases value, 0
  {
    match value
    case NullValue => if cbor then 1 else 0
    case List(children) => DemandAll(cbor, children)
    case Struct(fields) => DemandFields(cbor, fields)
    case _ => 0
  }

  function DemandAll(cbor: bool, children: seq<Value>): nat
    decreases children, 1
  {
    if children == [] then 0 else Demand(cbor, children[0]) + DemandAll(cbor, children[1..])
  }

  function DemandFields(cbor: bool, fields: seq<Field>): nat
    decreases fields, 1
  {
    if fields == [] then 0 else Demand(cbor, fields[0].value) + DemandFields(cbor, fields[1..])
  }

  // ---------------------------------------------------------------- the skipper passes over values in this way

  /** Takes one item at each depth. */
  function TakeEach(format: Format, items: seq<Item>, wanted: seq<nat>): Option<seq<Item>>
    decreases |wanted|
  {
    if wanted == [] then Some(items)
    else if items == [] then None
    else
      match Take(format, items, wanted[0])
      case None => None
      case Some(left) => TakeEach(format, left, wanted[1..])
  }

  /** Takes what else is wanted from what is left. */
  function TakeOn(format: Format, left: Option<seq<Item>>, wanted: seq<nat>): Option<seq<Item>> {
    match left case None => None case Some(items) => TakeEach(format, items, wanted)
  }

  /** Taking a number of items and then what else is wanted. */
  lemma {:induction false} TakeAllThen(format: Format, items: seq<Item>, n: nat, depth: nat, wanted: seq<nat>,
                                       left: Option<seq<Item>>)
    requires left == TakeAll(format, items, n, depth)
    ensures TakeEach(format, items, Times(n, depth) + wanted) == TakeOn(format, left, wanted)
    decreases n
  {
    var all := Times(n, depth) + wanted;
    if n == 0 {
      assert all == wanted;
    } else if items != [] {
      assert all[0] == depth && all[1..] == Times(n - 1, depth) + wanted;
      var left1 := Take(format, items, depth);
      if left1.Some? {
        TakeAllThen(format, left1.value, n - 1, depth, wanted, left);
      }
    }
  }

  lemma {:induction false} TakeFirst(format: Format, items: seq<Item>, wanted: seq<nat>, left: Option<seq<Item>>)
    requires items != [] && wanted != [] && left == Take(format, items, wanted[0])
    ensures TakeEach(format, items, wanted) == TakeOn(format, left, wanted[1..])
  {
  }

  /** Taking a container is taking its items, and taking a CBOR null is taking one more. */
  lemma {:induction false} TakeGroup(format: Format, item: Item, rest: seq<Item>, wanted: seq<nat>, n: nat)
    requires wanted != [] && wanted[0] <= MAX_DECODE_DEPTH && Encloses(format.shape(item.tag))
    requires n == Announced(format, item)
    ensures TakeEach(format, [item] + rest, wanted) == TakeEach(format, Kids(item) + rest, Inside(n, wanted))
  {
    var inside := Kids(item) + rest;
    var left := TakeAll(format, inside, n, wanted[0] + 1);
    TakeOpens(format, item, rest, wanted[0]);
    TakeFirst(format, [item] + rest, wanted, left);
    TakeAllThen(format, inside, n, wanted[0] + 1, wanted[1..], left);
  }

  lemma {:induction false} TakePlain(format: Format, item: Item, rest: seq<Item>, wanted: seq<nat>)
    requires wanted != [] && !Encloses(format.shape(item.tag))
    ensures TakeEach(format, [item] + rest, wanted)
            == if wanted[0] > MAX_DECODE_DEPTH then None else TakeEach(format, rest, wanted[1..])
  {
    assert ([item] + rest)[1..] == rest;
  }

  lemma {:induction false} TakeTooDeep(format: Format, items: seq<Item>, wanted: seq<nat>)
    requires wanted != [] && wanted[0] > MAX_DECODE_DEPTH
    ensures TakeEach(format, items, wanted) == None
  {
  }

  /** What is left of the items behind a value. */
  function ThenTake(format: Format, items: seq<Item>, wanted: Option<seq<nat>>): Option<seq<Item>> {
    match wanted case None => None case Some(wanted) => TakeEach(format, items, wanted)
  }

  lemma {:induction false} PlainValue(cbor: bool, fast: bool, floatText: FloatText, value: Value)
    requires Representable(value) && !value.List? && !value.Struct? && !(cbor && value.NullValue?)
    ensures !Encloses(FormatOf(cbor, floatText).shape(ItemOf(cbor, fast, value).tag))
  {
    ItemRight(cbor, fast, floatText, value);
  }

  lemma {:induction false} TakeLeaf(cbor: bool, fast: bool, floatText: FloatText, value: Value, rest: seq<Item>,
                                    wanted: seq<nat>)
    requires Representable(value) && !value.List? && !value.Struct? && wanted != [] && wanted[0] <= MAX_DECODE_DEPTH
    ensures TakeEach(FormatOf(cbor, floatText), [ItemOf(cbor, fast, value)] + rest, wanted)
            == ThenTake(FormatOf(cbor, floatText), rest, Pass(cbor, value, wanted))
  {
    var format, item := FormatOf(cbor, floatText), ItemOf(cbor, fast, value);
    if cbor && value.NullValue? {
      NullIsTag(floatText);
      TakeGroup(format, item, rest, wanted, 1);
      assert Kids(item) + rest == rest;
    } else {
      PlainValue(cbor, fast, floatText, value);
      TakePlain(format, item, rest, wanted);
      assert Inside(0, wanted) == wanted[1..];
    }
  }

  /** Skipping an encoded value is passing over it. */
  lemma {:induction false} TakeValue(cbor: bool, fast: bool, floatText: FloatText, value: Value, rest: seq<Item>,
                                     wanted: seq<nat>)
    requires Representable(value) && CountsFit(cbor, value) && wanted != []
    ensures TakeEach(FormatOf(cbor, floatText), [ItemOf(cbor, fast, value)] + rest, wanted)
            == ThenTake(FormatOf(cbor, floatText), rest, Pass(cbor, value, wanted))
    decreases value, 0
  {
    var format, item := FormatOf(cbor, floatText), ItemOf(cbor, fast, value);
    if wanted[0] > MAX_DECODE_DEPTH {
      TakeTooDeep(format, [item] + rest, wanted);
    } else {
      match value
      case List(children) =>
        CountHead(cbor, floatText, false, |children|, item.items);
        TakeGroup(format, item, rest, wanted, |children|);
        TakeValues(cbor, floatText, children, rest, Inside(|children|, wanted));
      case Struct(fields) =>
        CountHead(cbor, floatText, true, |fields|, item.items);
        TakeGroup(format, item, rest, wanted, 2 * |fields|);
        TakeFields(cbor, floatText, fields, rest, Inside(2 * |fields|, wanted));
      case _ => TakeLeaf(cbor, fast, floatText, value, rest, wanted);
    }
  }

  lemma {:induction false} TakeValues(cbor: bool, floatText: FloatText, children: seq<Value>, rest: seq<Item>,
                                      wanted: seq<nat>)
    requires AllRepresentable(children) && AllCountsFit(cbor, children) && |wanted| >= |children|
    ensures TakeEach(FormatOf(cbor, floatText), ItemsOf(cbor, children) + rest, wanted)
            == ThenTake(FormatOf(cbor, floatText), rest, PassAll(cbor, children, wanted))
    decreases children, 1
  {
    if children == [] {
      assert ItemsOf(cbor, children) + rest == rest;
    } else {
      var first, others := ItemOf(cbor, false, children[0]), ItemsOf(cbor, children[1..]);
      assert ItemsOf(cbor, children) + rest == [first] + (others + rest);
      TakeValue(cbor, false, floatText, children[0], others + rest, wanted);
      var left := Pass(cbor, children[0], wanted);
      if left.Some? {
        TakeValues(cbor, floatText, children[1..], rest, left.value);
      }
    }
  }

  lemma {:induction false} TakeFields(cbor: bool, floatText: FloatText, fields: seq<Field>, rest: seq<Item>,
                                      wanted: seq<nat>)
    requires FieldsRepresentable(fields) && FieldCountsFit(cbor, fields) && |wanted| >= 2 * |fields|
    ensures TakeEach(FormatOf(cbor, floatText), FieldItems(cbor, fields) + rest, wanted)
            == ThenTake(FormatOf(cbor, floatText), rest, PassFields(cbor, fields, wanted))
    decreases fields, 1
  {
    if fields == [] {
      assert FieldItems(cbor, fields) + rest == rest;
    } else {
      var key, value := TextItem(cbor, fields[0].name), ItemOf(cbor, false, fields[0].value);
      var others := FieldItems(cbor, fields[1..]);
      assert FieldItems(cbor, fields) + rest == [key] + ([value] + (others + rest));
      TextReads(cbor, floatText, fields[0].name);
      TakePlain(FormatOf(cbor, floatText), key, [value] + (others + rest), wanted);
      if wanted[0] <= MAX_DECODE_DEPTH {
        TakeValue(cbor, false, floatText, fields[0].value, others + rest, wanted[1..]);
        var left := Pass(cbor, fields[0].value, wanted[1..]);
        if left.Some? {
          TakeFields(cbor, floatText, fields[1..], rest, left.value);
        }
      }
    }
  }

  // ---------------------------------------------------------------- rows

  /** Where passing over columns from the `j`-th on ends when so much is wanted. */
  function Reach(cbor: bool, columns: seq<Column>, j: nat, wanted: seq<nat>): End
    requires j <= |columns|
    decreases |columns| - j
  {
    if wanted == [] then AtColumn(j)
    else if j == |columns| || wanted[0] > MAX_DECODE_DEPTH then Stuck
    else if |wanted| == 1 then AtValue(j)
    else
      match Pass(cbor, columns[j].value, wanted[1..])
      case None => Stuck
      case Some(left) => Reach(cbor, columns, j + 1, left)
  }

  /** Where skipping the value of column `j` ends. */
  function EndOf(cbor: bool, columns: seq<Column>, j: nat): End
    requires j < |columns|
  {
    match Pass(cbor, columns[j].value, [0])
    case None => Stuck
    case Some(left) => Reach(cbor, columns, j + 1, left)
  }

  /** The columns that are read when skipping the value of each ends there. */
  function Walk(ends: seq<End>, j: nat, count: nat): set<nat>
    decreases count
  {
    if count == 0 || j >= |ends| then {}
    else
      match ends[j]
      case AtColumn(k) => {j} + Walk(ends, k, count - 1)
      case _ => {j}
  }

  function EndsOf(cbor: bool, columns: seq<Column>): seq<End> {
    seq(|columns|, j requires 0 <= j < |columns| => EndOf(cbor, columns, j))
  }

  function ReadByValues(cbor: bool, columns: seq<Column>): set<nat> {
    Walk(EndsOf(cbor, columns), 0, Kept(cbor, |columns|))
  }

  lemma {:induction false} KeyAndRest(cbor: bool, columns: seq<Column>, items: seq<Item>, j: nat)
    requires items == ColumnItems(cbor, columns) && j < |columns|
    ensures 2 * j + 1 < |items| && items[2 * j..] == [TextItem(cbor, columns[j].name)] + items[2 * j + 1..]
  {
    ItemsAt(cbor, columns, j);
  }

  /** The values from the `j`-th column on can be passed over. */
  ghost predicate Passable(cbor: bool, columns: seq<Column>, items: seq<Item>) {
    items == ColumnItems(cbor, columns) && RowRepresentable(columns) && RowCountsFit(cbor, columns)
  }

  lemma {:induction false} RowLength(cbor: bool, columns: seq<Column>)
    ensures |ColumnItems(cbor, columns)| == 2 * |columns|
  {
    if columns != [] {
      ItemsAt(cbor, columns, 0);
    }
  }

  lemma {:induction false} TakeName(cbor: bool, floatText: FloatText, columns: seq<Column>, items: seq<Item>, j: nat,
                                    wanted: seq<nat>)
    requires Passable(cbor, columns, items) && j < |columns| && 2 * (j + 1) <= |items| && wanted != []
    ensures TakeEach(FormatOf(cbor, floatText), items[2 * j..], wanted)
            == if wanted[0] > MAX_DECODE_DEPTH then None
               else TakeEach(FormatOf(cbor, floatText), items[2 * j + 1..], wanted[1..])
  {
    assert columns[j] in columns;
    KeyAndRest(cbor, columns, items, j);
    TextReads(cbor, floatText, columns[j].name);
    TakePlain(FormatOf(cbor, floatText), TextItem(cbor, columns[j].name), items[2 * j + 1..], wanted);
  }

  lemma {:induction false} TakeColumn(cbor: bool, floatText: FloatText, columns: seq<Column>, items: seq<Item>, j: nat,
                                      wanted: seq<nat>)
    requires Passable(cbor, columns, items) && j < |columns| && 2 * (j + 1) <= |items| && wanted != []
    ensures TakeEach(FormatOf(cbor, floatText), items[2 * j + 1..], wanted)
            == ThenTake(FormatOf(cbor, floatText), items[2 * (j + 1)..], Pass(cbor, columns[j].value, wanted))
  {
    var c := columns[j];
    assert c in columns;
    ValueAndRest(cbor, columns, items, j);
    TakeValue(cbor, Fast(c), floatText, c.value, items[2 * (j + 1)..], wanted);
  }

  lemma {:induction false} EndStuck(items: seq<Item>)
    ensures EndIn(items, None) == Stuck
  {
  }

  /** Passing over columns ends here. */
  lemma {:induction false} ReachHere(cbor: bool, floatText: FloatText, columns: seq<Column>, items: seq<Item>, j: nat,
                                     wanted: seq<nat>, taken: Option<seq<Item>>)
    requires Passable(cbor, columns, items) && j <= |columns| && |items| == 2 * |columns|
    requires |wanted| <= 1 || j == |columns| || wanted[0] > MAX_DECODE_DEPTH
    requires taken == TakeEach(FormatOf(cbor, floatText), items[2 * j..], wanted)
    ensures EndIn(items, taken) == Reach(cbor, columns, j, wanted)
  {
    EndStuck(items);
    if wanted == [] {
      EndAtColumn(items, j, taken);
    } else if j < |columns| {
      TakeName(cbor, floatText, columns, items, j, wanted);
      if wanted[0] <= MAX_DECODE_DEPTH {
        EndAtValue(items, j, taken);
      }
    }
  }

  /** One column further. */
  lemma {:induction false} ReachStep(cbor: bool, floatText: FloatText, columns: seq<Column>, items: seq<Item>, j: nat,
                                     wanted: seq<nat>)
    requires Passable(cbor, columns, items) && j < |columns| && 2 * (j + 1) <= |items| && |wanted| > 1
    requires wanted[0] <= MAX_DECODE_DEPTH
    ensures TakeEach(FormatOf(cbor, floatText), items[2 * j..], wanted)
            == ThenTake(FormatOf(cbor, floatText), items[2 * (j + 1)..], Pass(cbor, columns[j].value, wanted[1..]))
  {
    TakeName(cbor, floatText, columns, items, j, wanted);
    TakeColumn(cbor, floatText, columns, items, j, wanted[1..]);
  }

  lemma {:induction false} ReachIsEnd(cbor: bool, floatText: FloatText, columns: seq<Column>, items: seq<Item>, j: nat,
                                      wanted: seq<nat>, taken: Option<seq<Item>>)
    requires Passable(cbor, columns, items) && j <= |columns| && |items| == 2 * |columns|
    requires taken == TakeEach(FormatOf(cbor, floatText), items[2 * j..], wanted)
    ensures EndIn(items, taken) == Reach(cbor, columns, j, wanted)
    decreases |columns| - j
  {
    if |wanted| <= 1 || j == |columns| || wanted[0] > MAX_DECODE_DEPTH {
      ReachHere(cbor, floatText, columns, items, j, wanted, taken);
    } else {
      ReachStep(cbor, floatText, columns, items, j, wanted);
      EndStuck(items);
      var left := Pass(cbor, columns[j].value, wanted[1..]);
      if left.Some? {
        ReachIsEnd(cbor, floatText, columns, items, j + 1, left.value, taken);
      }
    }
  }

  lemma {:induction false} TakeOne(format: Format, items: seq<Item>, depth: nat)
    requires items != []
    ensures TakeEach(format, items, [depth]) == Take(format, items, depth)
  {
  }

  lemma {:induction false} TakeBehindName(cbor: bool, floatText: FloatText, columns: seq<Column>, items: seq<Item>,
                                          j: nat)
    requires Passable(cbor, columns, items) && j < |columns| && 2 * (j + 1) <= |items|
    ensures Take(FormatOf(cbor, floatText), items[2 * j + 1..], 0)
            == ThenTake(FormatOf(cbor, floatText), items[2 * (j + 1)..], Pass(cbor, columns[j].value, [0]))
  {
    TakeColumn(cbor, floatText, columns, items, j, [0]);
    TakeOne(FormatOf(cbor, floatText), items[2 * j + 1..], 0);
  }

  lemma {:induction false} AfterIsEnd(cbor: bool, floatText: FloatText, columns: seq<Column>, items: seq<Item>, j: nat,
                                      taken: Option<seq<Item>>)
    requires Passable(cbor, columns, items) && j < |columns| && |items| == 2 * |columns|
    requires taken == Take(FormatOf(cbor, floatText), items[2 * j + 1..], 0)
    ensures EndIn(items, taken) == EndOf(cbor, columns, j)
  {
    EndStuck(items);
    TakeBehindName(cbor, floatText, columns, items, j);
    var left := Pass(cbor, columns[j].value, [0]);
    if left.Some? {
      ReachIsEnd(cbor, floatText, columns, items, j + 1, left.value, taken);
    }
  }

  lemma {:induction false} VisitedWalk(format: Format, items: seq<Item>, ends: seq<End>, j: nat, count: nat)
    requires |items| == 2 * |ends| && forall i | 0 <= i < |ends| :: ends[i] == After(format, items, i)
    ensures Visited(format, items, j, count) == Walk(ends, j, count)
    decreases count
  {
    if count > 0 && j < |ends| && ends[j].AtColumn? {
      VisitedWalk(format, items, ends, ends[j].column, count - 1);
    }
  }

  lemma {:induction false} ColumnsReadByValues(cbor: bool, floatText: FloatText, columns: seq<Column>)
    requires RowRepresentable(columns) && RowCountsFit(cbor, columns)
    ensures ColumnsRead(cbor, floatText, columns) == ReadByValues(cbor, columns)
  {
    var format, items, ends := FormatOf(cbor, floatText), ColumnItems(cbor, columns), EndsOf(cbor, columns);
    RowLength(cbor, columns);
    forall j | 0 <= j < |ends| ensures ends[j] == After(format, items, j) {
      AfterIsEnd(cbor, floatText, columns, items, j, Take(format, items[2 * j + 1..], 0));
    }
    VisitedWalk(format, items, ends, 0, Kept(cbor, |columns|));
  }

  /** A row of any values whose counts fit reads back exactly when the columns have no text that its values, taken one
      after the other, pass over. */
  lemma {:induction false} ReadsBackByValues(cbor: bool, floatText: FloatText, columns: seq<Column>, paths: seq<Path>,
                                             outputs: seq<nat>, row: seq<Cell>)
    requires RowRepresentable(columns) && RowCountsFit(cbor, columns) && DistinctNames(columns)
    requires RequestsAll(columns, paths) && Columns(outputs, paths, |row|)
    ensures ReadsBack(cbor, floatText, columns, paths, outputs, row)
            <==> OthersHaveNone(floatText, columns, ReadByValues(cbor, columns))
  {
    ReadsBackIff(cbor, floatText, columns, paths, outputs, row);
    ColumnsReadByValues(cbor, floatText, columns);
  }

  // ---------------------------------------------------------------- rows that are not too deep

  /** The lists, structs and nulls of a value: each opens one more level at most. */
  function Openers(value: Value): nat
    decreases value, 0
  {
    match value
    case NullValue => 1
    case List(children) => 1 + OpenersAll(children)
    case Struct(fields) => 1 + OpenersFields(fields)
    case _ => 0
  }

  function OpenersAll(children: seq<Value>): nat
    decreases children, 1
  {
    if children == [] then 0 else Openers(children[0]) + OpenersAll(children[1..])
  }

  function OpenersFields(fields: seq<Field>): nat
    decreases fields, 1
  {
    if fields == [] then 0 else Openers(fields[0].value) + OpenersFields(fields[1..])
  }

  function OpenersFrom(columns: seq<Column>, j: nat): nat
    decreases |columns| - j
  {
    if j >= |columns| then 0 else Openers(columns[j].value) + OpenersFrom(columns, j + 1)
  }

  /** Nothing is wanted deeper than `depth`. */
  ghost predicate Within(wanted: seq<nat>, depth: nat) {
    forall i | 0 <= i < |wanted| :: wanted[i] <= depth
  }

  ghost predicate SomeWithin(wanted: Option<seq<nat>>, depth: nat) {
    wanted.Some? && Within(wanted.value, depth)
  }

  lemma {:induction false} PassWithin(cbor: bool, value: Value, wanted: seq<nat>, depth: nat)
    requires wanted != [] && Within(wanted, depth) && depth + Openers(value) <= MAX_DECODE_DEPTH
    ensures SomeWithin(Pass(cbor, value, wanted), depth + Openers(value))
    decreases value, 0
  {
    match value
    case List(children) => PassAllWithin(cbor, children, Inside(|children|, wanted), depth + 1);
    case Struct(fields) => PassFieldsWithin(cbor, fields, Inside(2 * |fields|, wanted), depth + 1);
    case _ =>
  }

  lemma {:induction false} PassAllWithin(cbor: bool, children: seq<Value>, wanted: seq<nat>, depth: nat)
    requires |wanted| >= |children| && Within(wanted, depth) && depth + OpenersAll(children) <= MAX_DECODE_DEPTH
    ensures SomeWithin(PassAll(cbor, children, wanted), depth + OpenersAll(children))
    decreases children, 1
  {
    if children != [] {
      PassWithin(cbor, children[0], wanted, depth);
      var left := Pass(cbor, children[0], wanted);
      PassAllWithin(cbor, children[1..], left.value, depth + Openers(children[0]));
    }
  }

  lemma {:induction false} PassFieldsWithin(cbor: bool, fields: seq<Field>, wanted: seq<nat>, depth: nat)
    requires |wanted| >= 2 * |fields| && Within(wanted, depth) && depth + OpenersFields(fields) <= MAX_DECODE_DEPTH
    ensures SomeWithin(PassFields(cbor, fields, wanted), depth + OpenersFields(fields))
    decreases fields, 1
  {
    if fields != [] {
      PassWithin(cbor, fields[0].value, wanted[1..], depth);
      var left := Pass(cbor, fields[0].value, wanted[1..]);
      PassFieldsWithin(cbor, fields[1..], left.value, depth + Openers(fields[0].value));
    }
  }

  /** Where passing over columns ends when so many items are wanted, at any depth. */
  function CountedReach(cbor: bool, columns: seq<Column>, j: nat, wanted: nat): End
    requires j <= |columns|
    decreases |columns| - j
  {
    if wanted == 0 then AtColumn(j)
    else if j == |columns| then Stuck
    else if wanted == 1 then AtValue(j)
    else CountedReach(cbor, columns, j + 1, wanted - 2 + Demand(cbor, columns[j].value))
  }

  lemma {:induction false} ReachCounts(cbor: bool, columns: seq<Column>, j: nat, wanted: seq<nat>, depth: nat)
    requires j <= |columns| && Within(wanted, depth) && depth + OpenersFrom(columns, j) <= MAX_DECODE_DEPTH
    ensures Reach(cbor, columns, j, wanted) == CountedReach(cbor, columns, j, |wanted|)
    decreases |columns| - j
  {
    if |wanted| > 1 && j < |columns| {
      PassWithin(cbor, columns[j].value, wanted[1..], depth);
      var left := Pass(cbor, columns[j].value, wanted[1..]);
      ReachCounts(cbor, columns, j + 1, left.value, depth + Openers(columns[j].value));
    }
  }

  function CountedEnds(cbor: bool, columns: seq<Column>): seq<End> {
    seq(|columns|, j requires 0 <= j < |columns| =>
      CountedReach(cbor, columns, j + 1, Demand(cbor, columns[j].value)))
  }

  /** The columns that are read when every null of a column takes one item along. */
  function ReadByCounting(cbor: bool, columns: seq<Column>): set<nat> {
    Walk(CountedEnds(cbor, columns), 0, Kept(cbor, |columns|))
  }

  lemma {:induction false} OpenersLater(columns: seq<Column>, j: nat, k: nat)
    requires j <= k
    ensures OpenersFrom(columns, k) <= OpenersFrom(columns, j)
    decreases k - j
  {
    if j < k {
      OpenersLater(columns, j + 1, k);
    }
  }

  lemma {:induction false} EndsCount(cbor: bool, columns: seq<Column>)
    requires OpenersFrom(columns, 0) <= MAX_DECODE_DEPTH
    ensures EndsOf(cbor, columns) == CountedEnds(cbor, columns)
  {
    forall j | 0 <= j < |columns| ensures EndsOf(cbor, columns)[j] == CountedEnds(cbor, columns)[j] {
      OpenersLater(columns, 0, j);
      PassWithin(cbor, columns[j].value, [0], 0);
      ReachCounts(cbor, columns, j + 1, Pass(cbor, columns[j].value, [0]).value, Openers(columns[j].value));
    }
  }

  /** With at most 256 lists, structs and nulls in the row, depth plays no part: a row reads back exactly when no column
      has a text that nulls, each taking one item along, pass over. */
  lemma {:induction false} ReadsBackByCounting(cbor: bool, floatText: FloatText, columns: seq<Column>, paths: seq<Path>,
                                               outputs: seq<nat>, row: seq<Cell>)
    requires RowRepresentable(columns) && RowCountsFit(cbor, columns) && DistinctNames(columns)
    requires OpenersFrom(columns, 0) <= MAX_DECODE_DEPTH
    requires RequestsAll(columns, paths) && Columns(outputs, paths, |row|)
    ensures ReadsBack(cbor, floatText, columns, paths, outputs, row)
            <==> OthersHaveNone(floatText, columns, ReadByCounting(cbor, columns))
  {
    ReadsBackByValues(cbor, floatText, columns, paths, outputs, row);
    EndsCount(cbor, columns);
  }

  // ---------------------------------------------------------------- for example

  lemma {:induction false} ThreeNulls()
    ensures var value := List([NullValue, NullValue, NullValue]);
            Demand(true, value) == 3 && Openers(value) == 4 && CountsFit(true, value)
  {
    var one, two, three := [NullValue], [NullValue, NullValue], [NullValue, NullValue, NullValue];
    assert three[1..] == two && two[1..] == one && one[1..] == [];
    assert DemandAll(true, one) == 1 && DemandAll(true, two) == 2;
    assert OpenersAll(one) == 1 && OpenersAll(two) == 2;
    assert AllCountsFit(true, one) && AllCountsFit(true, two);
  }

  lemma {:induction false} NullsThenNumber(columns: seq<Column>)
    requires |columns| == 4 && columns[0].value == List([NullValue, NullValue, NullValue])
    requires columns[1].value == NullValue && columns[2].value == List([]) && columns[3].value == Signed(5)
    ensures OpenersFrom(columns, 0) == 6 && RowCountsFit(true, columns)
    ensures ReadByCounting(true, columns) == {0, 3}
  {
    ThreeNulls();
    assert OpenersFrom(columns, 3) == 0;
    assert Openers(columns[2].value) == 1 && OpenersFrom(columns, 2) == 1;
    assert OpenersFrom(columns, 1) == 2;
    assert Demand(true, columns[2].value) == 0;
    assert CountedReach(true, columns, 1, 3) == CountedReach(true, columns, 2, 2) == AtColumn(3);
    assert CountedEnds(true, columns)[0] == AtColumn(3) && CountedEnds(true, columns)[3] == AtColumn(4);
    assert Walk(CountedEnds(true, columns), 3, 3) == {3};
  }

  /** Nulls can make up for each other: three in a list take the null column and the empty list behind it along, and
      reading is in step again before the number. */
  lemma {:induction false} NullsInStep(floatText: FloatText, columns: seq<Column>, paths: seq<Path>, outputs: seq<nat>,
                                       row: seq<Cell>)
    requires |columns| == 4 && columns[0].value == List([NullValue, NullValue, NullValue])
    requires columns[1].value == NullValue && columns[2].value == List([]) && columns[3].value == Signed(5)
    requires RowRepresentable(columns) && DistinctNames(columns)
    requires RequestsAll(columns, paths) && Columns(outputs, paths, |row|)
    ensures ReadsBack(true, floatText, columns, paths, outputs, row) && !NoTextFrom(floatText, columns, 1)
  {
    NullsThenNumber(columns);
    ReadsBackByCounting(true, floatText, columns, paths, outputs, row);
    assert TextOf(floatText, columns[3].value) != Null;
  }

  lemma {:induction false} NullThenNumber(columns: seq<Column>)
    requires |columns| == 3 && columns[0].value == List([NullValue])
    requires columns[1].value == Signed(5) && columns[2].value == NullValue
    ensures OpenersFrom(columns, 0) == 3 && RowCountsFit(true, columns) && ReadByCounting(true, columns) == {0}
  {
    assert Demand(true, columns[0].value) == 1 && Openers(columns[0].value) == 2;
    assert OpenersFrom(columns, 2) == 1;
    assert OpenersFrom(columns, 1) == 1;
    assert CountedEnds(true, columns)[0] == AtValue(1);
  }

  /** A null in a list loses the column behind it, although nothing behind the only null column has a text. */
  lemma {:induction false} NestedNullSwallows(floatText: FloatText, columns: seq<Column>, paths: seq<Path>,
                                              outputs: seq<nat>, row: seq<Cell>)
    requires |columns| == 3 && columns[0].value == List([NullValue])
    requires columns[1].value == Signed(5) && columns[2].value == NullValue
    requires RowRepresentable(columns) && DistinctNames(columns)
    requires RequestsAll(columns, paths) && Columns(outputs, paths, |row|)
    ensures !ReadsBack(true, floatText, columns, paths, outputs, row) && NoTextFrom(floatText, columns, 2)
  {
    NullThenNumber(columns);
    ReadsBackByCounting(true, floatText, columns, paths, outputs, row);
    assert TextOf(floatText, columns[1].value) != Null;
  }
}
