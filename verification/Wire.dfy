/** The two binary formats as the readers of src/nats_message_decode.cpp understand them.  MessagePack and CBOR
    share one description here: every item is a tag byte, an argument of a width fixed by the tag, and contents. */
module Wire {
  import opened Options
  import opened Bytes
  import opened Projection

  /** What a tag byte announces: `width` argument bytes (none when the argument is in the tag, as `inline`). */
  datatype Shape =
    | Invalid
    | Leaf(width: nat, isScalar: bool)
    | Run(width: nat, inline: nat, isText: bool)
    | Nest(width: nat, inline: nat, isMap: bool)
    | Tagged(width: nat)

  predicate IsText(shape: Shape) { shape.Run? && shape.isText }

  predicate IsMap(shape: Shape) { shape.Nest? && shape.isMap }

  /** A binary format: the shape of each tag, and the cell that a scalar leaf denotes given its tag and argument. */
  datatype Format = Format(shape: byte -> Shape, cell: (byte, nat) -> Cell)

  const MAX_DECODE_DEPTH := 256

  // ---------------------------------------------------------------- items

  /** A parsed item; a map lists its keys and values in turn. */
  datatype Item =
    | Atom(tag: byte, arg: Bytes)
    | Blob(tag: byte, arg: Bytes, data: Bytes)
    | Group(tag: byte, arg: Bytes, items: seq<Item>)

  function Argument(width: nat, inline: nat, arg: Bytes): nat {
    if width == 0 then inline else FromBigEndian(arg)
  }

  /** A map of `n` pairs has twice as many items. */
  function Children(isMap: bool, n: nat): nat {
    if isMap then 2 * n else n
  }

  predicate WellFormed(format: Format, item: Item)
    decreases item, 0
  {
    var shape := format.shape(item.tag);
    match item
    case Atom(_, arg) => shape.Leaf? && shape.width == |arg|
    case Blob(_, arg, data) =>
      shape.Run? && shape.width == |arg| && Argument(shape.width, shape.inline, arg) == |data|
    case Group(_, arg, items) =>
      && (match shape
          case Nest(width, inline, isMap) => width == |arg| && |items| == Children(isMap, Argument(width, inline, arg))
          case Tagged(width) => width == |arg| && |items| == 1
          case _ => false)
      && AllWellFormed(format, items)
  }

  predicate AllWellFormed(format: Format, items: seq<Item>)
    decreases items, 1
  {
    items != [] ==> WellFormed(format, items[0]) && AllWellFormed(format, items[1..])
  }

  function Encode(item: Item): (bytes: Bytes)
    ensures |bytes| >= 1 && bytes[0] == item.tag
    decreases item, 1
  {
    [item.tag] + item.arg + Contents(item)
  }

  function Contents(item: Item): Bytes
    decreases item, 0
  {
    match item
    case Atom(_, _) => []
    case Blob(_, _, data) => data
    case Group(_, _, items) => EncodeAll(items)
  }

  function EncodeAll(items: seq<Item>): Bytes
    decreases items, 2
  {
    if items == [] then [] else Encode(items[0]) + EncodeAll(items[1..])
  }

  /** How many containers enclose the innermost item. */
  function Depth(item: Item): nat
    decreases item, 0
  {
    if item.Group? && item.items != [] then 1 + DepthAll(item.items) else 0
  }

  function DepthAll(items: seq<Item>): nat
    decreases items, 1
  {
    if items == [] then 0
    else
      var d, rest := Depth(items[0]), DepthAll(items[1..]);
      if d < rest then rest else d
  }

  lemma BlobIsWellFormed(format: Format, tag: byte, arg: Bytes, data: Bytes)
    requires var shape := format.shape(tag);
             shape.Run? && shape.width == |arg| && Argument(shape.width, shape.inline, arg) == |data|
    ensures WellFormed(format, Blob(tag, arg, data))
  {
  }

  lemma GroupIsWellFormed(format: Format, tag: byte, arg: Bytes, items: seq<Item>)
    requires AllWellFormed(format, items)
    requires var shape := format.shape(tag);
             && shape.Nest? && shape.width == |arg|
             && |items| == Children(shape.isMap, Argument(shape.width, shape.inline, arg))
    ensures WellFormed(format, Group(tag, arg, items))
  {
  }

  // ---------------------------------------------------------------- reading at a position

  /** The argument that starts at `i`, after the tag. */
  function ArgumentAt(p: Bytes, i: nat, width: nat, inline: nat): Option<nat>
    requires i <= |p|
  {
    if width > |p| - i then None else Some(Argument(width, inline, p[i..i + width]))
  }

  /** What lies behind a tag: nothing readable, a stretch to jump over, or a number of items. */
  datatype Head = Bad | Jump(end: nat) | Into(start: nat, count: nat)

  function HeadAt(format: Format, p: Bytes, i: nat, tag: byte): (head: Head)
    requires i <= |p|
    ensures head.Jump? ==> i <= head.end <= |p|
    ensures head.Into? ==> i <= head.start <= |p|
  {
    match format.shape(tag)
    case Invalid => Bad
    case Leaf(width, _) => if width > |p| - i then Bad else Jump(i + width)
    case Run(width, inline, _) =>
      var n := ArgumentAt(p, i, width, inline);
      if n.None? || n.value > |p| - i - width then Bad else Jump(i + width + n.value)
    case Nest(width, inline, isMap) =>
      var n := ArgumentAt(p, i, width, inline);
      if n.None? then Bad else Into(i + width, Children(isMap, n.value))
    case Tagged(width) => if width > |p| - i then Bad else Into(i + width, 1)
  }

  /** The position after an item whose tag has been read; None when the skipper gives up. */
  function SkipAt(format: Format, p: Bytes, i: nat, tag: byte, depth: nat): (end: Option<nat>)
    requires i <= |p|
    ensures end.Some? ==> i <= end.value <= |p|
    decreases |p| - i, 1
  {
    if depth > MAX_DECODE_DEPTH then None
    else
      match HeadAt(format, p, i, tag)
      case Bad => None
      case Jump(end) => Some(end)
      case Into(start, count) => SkipItems(format, p, start, count, depth + 1)
  }

  function SkipItems(format: Format, p: Bytes, i: nat, count: nat, depth: nat): (end: Option<nat>)
    requires i <= |p|
    ensures end.Some? ==> i + count <= end.value <= |p|
    decreases |p| - i, 0
  {
    if count == 0 then Some(i)
    else if i == |p| then None
    else
      match SkipAt(format, p, i + 1, p[i], depth)
      case None => None
      case Some(j) => SkipItems(format, p, j, count - 1, depth)
  }

  /** Skipping several items skips one and then the rest. */
  lemma SkipOne(format: Format, p: Bytes, i: nat, count: nat, depth: nat)
    requires i <= |p| && count > 0
    ensures SkipItems(format, p, i, count, depth)
            == match SkipItems(format, p, i, 1, depth)
               case None => None
               case Some(j) => SkipItems(format, p, j, count - 1, depth)
  {
  }

  // ---------------------------------------------------------------- skipping is exact

  /** `w` lies at position `i` of the payload, whatever follows it. */
  ghost predicate At(p: Bytes, i: nat, w: Bytes) {
    i + |w| <= |p| && forall k | 0 <= k < |w| :: p[i + k] == w[k]
  }

  lemma AtSplit(p: Bytes, i: nat, a: Bytes, b: Bytes)
    ensures At(p, i, a + b) <==> At(p, i, a) && At(p, i + |a|, b)
  {
    if At(p, i, a + b) {
      assert p[i..i + |a|] == p[i..i + |a + b|][..|a|] == (a + b)[..|a|];
      assert p[i + |a|..i + |a| + |b|] == p[i..i + |a + b|][|a|..] == (a + b)[|a|..];
    }
    if At(p, i, a) && At(p, i + |a|, b) {
      assert p[i..i + |a + b|] == p[i..i + |a|] + p[i + |a|..i + |a| + |b|];
    }
  }

  lemma {:induction false} EncodeConcat(a: seq<Item>, b: seq<Item>)
    ensures EncodeAll(a + b) == EncodeAll(a) + EncodeAll(b)
  {
    if a == [] {
      assert a + b == b;
    } else {
      assert (a + b)[1..] == a[1..] + b;
      EncodeConcat(a[1..], b);
    }
  }

  /** `w` is what is left of the payload at `i`. */
  ghost predicate Tail(p: Bytes, i: nat, w: Bytes) {
    At(p, i, w) && i + |w| == |p|
  }

  lemma TailSplit(p: Bytes, i: nat, a: Bytes, b: Bytes)
    requires Tail(p, i, a + b)
    ensures At(p, i, a) && Tail(p, i + |a|, b)
  {
    AtSplit(p, i, a, b);
  }

  lemma PartsAt(p: Bytes, i: nat, tag: byte, arg: Bytes, contents: Bytes)
    requires At(p, i, [tag] + arg + contents)
    ensures i < |p| && p[i] == tag && At(p, i + 1, arg) && At(p, i + 1 + |arg|, contents)
  {
    AtSplit(p, i, [tag] + arg, contents);
    AtSplit(p, i, [tag], arg);
    assert p[i + 0] == [tag][0];
  }

  /** An encoded item is its tag, its argument and its contents. */
  lemma ItemAt(p: Bytes, i: nat, item: Item)
    requires At(p, i, Encode(item))
    ensures i < |p| && p[i] == item.tag
    ensures At(p, i + 1, item.arg) && At(p, i + 1 + |item.arg|, Contents(item))
    ensures |Encode(item)| == 1 + |item.arg| + |Contents(item)| && i + |Encode(item)| <= |p|
  {
    PartsAt(p, i, item.tag, item.arg, Contents(item));
  }

  /** The tag and argument of an encoded item say exactly how far its contents go. */
  lemma HeadExact(format: Format, p: Bytes, i: nat, item: Item)
    requires WellFormed(format, item) && At(p, i, Encode(item))
    ensures i + 1 <= |p|
    ensures HeadAt(format, p, i + 1, item.tag)
            == if item.Group? then Into(i + 1 + |item.arg|, |item.items|) else Jump(i + |Encode(item)|)
  {
    ItemAt(p, i, item);
    assert p[i + 1..i + 1 + |item.arg|] == item.arg;
    var shape, head := format.shape(item.tag), HeadAt(format, p, i + 1, item.tag);
    match item
    case Atom(_, arg) =>
      assert shape.Leaf? && shape.width == |arg| && Contents(item) == [];
      assert head == Jump(i + 1 + |arg|);
    case Blob(_, arg, data) =>
      assert ArgumentAt(p, i + 1, |arg|, shape.inline) == Some(|data|);
      assert head == Jump(i + 1 + |arg| + |data|);
    case Group(_, arg, items) =>
      assert shape.Nest? ==> ArgumentAt(p, i + 1, |arg|, shape.inline) == Some(Argument(|arg|, shape.inline, arg));
      assert head == Into(i + 1 + |arg|, |items|);
  }

  /** Where the skipper ends on an encoded item: behind it, unless it is nested too deep. */
  function EndOf(i: nat, item: Item, depth: nat): Option<nat> {
    if depth + Depth(item) <= MAX_DECODE_DEPTH then Some(i + |Encode(item)|) else None
  }

  function EndOfAll(i: nat, items: seq<Item>, depth: nat): Option<nat> {
    if items == [] || depth + DepthAll(items) <= MAX_DECODE_DEPTH then Some(i + |EncodeAll(items)|) else None
  }

  /** Skipping an encoded item leaves exactly what follows it, if and only if it is not nested too deep. */
  lemma {:induction false} SkipExact(format: Format, p: Bytes, i: nat, item: Item, depth: nat)
    requires WellFormed(format, item) && At(p, i, Encode(item))
    ensures i + 1 <= |p| && SkipAt(format, p, i + 1, item.tag, depth) == EndOf(i, item, depth)
    decreases item, 0
  {
    ItemAt(p, i, item);
    HeadExact(format, p, i, item);
    if item.Group? {
      SkipAllExact(format, p, i + 1 + |item.arg|, item.items, depth + 1);
    }
  }

  lemma EndOfCons(i: nat, items: seq<Item>, depth: nat)
    requires items != []
    ensures EndOfAll(i, items, depth)
            == match EndOf(i, items[0], depth) case None => None case Some(k) => EndOfAll(k, items[1..], depth)
  {
    var first, rest := items[0], items[1..];
    assert EncodeAll(items) == Encode(first) + EncodeAll(rest);
    assert rest == [] ==> EncodeAll(rest) == [] && DepthAll(rest) == 0;
    assert DepthAll(items) == if Depth(first) < DepthAll(rest) then DepthAll(rest) else Depth(first);
  }

  lemma {:induction false} SkipAllExact(format: Format, p: Bytes, i: nat, items: seq<Item>, depth: nat)
    requires AllWellFormed(format, items) && At(p, i, EncodeAll(items))
    ensures SkipItems(format, p, i, |items|, depth) == EndOfAll(i, items, depth)
    decreases items, 1
  {
    if items != [] {
      AtSplit(p, i, Encode(items[0]), EncodeAll(items[1..]));
      ItemAt(p, i, items[0]);
      EndOfCons(i, items, depth);
      SkipExact(format, p, i, items[0], depth);
      SkipAllExact(format, p, i + |Encode(items[0])|, items[1..], depth);
    }
  }

  // ---------------------------------------------------------------- what is skipped is an item

  /** Items lie at `i`, end at `j`, and are not nested too deep for `depth` containers around them. */
  ghost predicate ItemsFill(format: Format, p: Bytes, i: nat, j: nat, items: seq<Item>, depth: nat) {
    && AllWellFormed(format, items) && At(p, i, EncodeAll(items)) && j == i + |EncodeAll(items)|
    && (items == [] || depth + DepthAll(items) <= MAX_DECODE_DEPTH)
  }

  lemma ItemsCons(format: Format, p: Bytes, i: nat, k: nat, j: nat, first: Item, rest: seq<Item>, depth: nat)
    requires WellFormed(format, first) && At(p, i, Encode(first)) && k == i + |Encode(first)|
    requires depth + Depth(first) <= MAX_DECODE_DEPTH && ItemsFill(format, p, k, j, rest, depth)
    ensures ItemsFill(format, p, i, j, [first] + rest, depth)
  {
    var items := [first] + rest;
    assert items[1..] == rest;
    AtSplit(p, i, Encode(first), EncodeAll(rest));
  }

  /** A stretch that the skipper jumps over after a tag is the rest of an item without items in it. */
  lemma JumpIsItem(format: Format, p: Bytes, i: nat) returns (item: Item)
    requires i < |p| && HeadAt(format, p, i + 1, p[i]).Jump?
    ensures WellFormed(format, item) && At(p, i, Encode(item)) && Depth(item) == 0
    ensures i + |Encode(item)| == HeadAt(format, p, i + 1, p[i]).end
  {
    var shape, end := format.shape(p[i]), HeadAt(format, p, i + 1, p[i]).end;
    var arg := p[i + 1..i + 1 + shape.width];
    if shape.Leaf? {
      item := Atom(p[i], arg);
    } else {
      item := Blob(p[i], arg, p[i + 1 + shape.width..end]);
    }
  }

  /** Items behind a tag that announces them make one item with it. */
  lemma IntoIsItem(format: Format, p: Bytes, i: nat, items: seq<Item>, j: nat, depth: nat) returns (item: Item)
    requires i < |p| && depth <= MAX_DECODE_DEPTH
    requires var head := HeadAt(format, p, i + 1, p[i]);
             head.Into? && |items| == head.count && ItemsFill(format, p, head.start, j, items, depth + 1)
    ensures WellFormed(format, item) && At(p, i, Encode(item)) && j == i + |Encode(item)|
    ensures depth + Depth(item) <= MAX_DECODE_DEPTH
  {
    var shape, start := format.shape(p[i]), HeadAt(format, p, i + 1, p[i]).start;
    var arg := p[i + 1..i + 1 + shape.width];
    item := Group(p[i], arg, items);
    AtSplit(p, i, [p[i]] + arg, EncodeAll(items));
  }

  /** Whatever the skipper takes is a sequence of well-formed items, not nested too deep. */
  lemma {:induction false} SkippedIsItems(format: Format, p: Bytes, i: nat, count: nat, depth: nat, j: nat)
    returns (items: seq<Item>)
    requires i <= |p| && SkipItems(format, p, i, count, depth) == Some(j)
    ensures |items| == count && ItemsFill(format, p, i, j, items, depth)
    decreases |p| - i
  {
    if count == 0 {
      items := [];
    } else {
      var first, head := Atom(0, []), HeadAt(format, p, i + 1, p[i]);
      var k := SkipAt(format, p, i + 1, p[i], depth).value;
      if head.Jump? {
        first := JumpIsItem(format, p, i);
      } else {
        var inner := SkippedIsItems(format, p, head.start, head.count, depth + 1, k);
        first := IntoIsItem(format, p, i, inner, k, depth);
      }
      var rest := SkippedIsItems(format, p, k, count - 1, depth, j);
      ItemsCons(format, p, i, k, j, first, rest, depth);
      items := [first] + rest;
    }
  }

  lemma OneItem(format: Format, p: Bytes, i: nat, j: nat, item: Item, depth: nat)
    ensures ItemsFill(format, p, i, j, [item], depth)
            <==> WellFormed(format, item) && At(p, i, Encode(item)) && j == i + |Encode(item)|
                 && depth + Depth(item) <= MAX_DECODE_DEPTH
  {
    assert [item][1..] == [];
    assert AllWellFormed(format, [item]) == WellFormed(format, item);
    assert EncodeAll([item]) == Encode(item) + EncodeAll([]) == Encode(item);
    assert DepthAll([]) == 0 && DepthAll([item]) == Depth(item);
  }

  /** The skipper takes one item to `j` exactly when a well-formed item, not nested too deep, lies up to there. */
  lemma SkipIffItem(format: Format, p: Bytes, i: nat, depth: nat, j: nat)
    requires i <= |p|
    ensures SkipItems(format, p, i, 1, depth) == Some(j) <==> exists item :: ItemsFill(format, p, i, j, [item], depth)
  {
    if SkipItems(format, p, i, 1, depth) == Some(j) {
      var items := SkippedIsItems(format, p, i, 1, depth, j);
      assert items == [items[0]];
    }
    forall item | ItemsFill(format, p, i, j, [item], depth) ensures SkipItems(format, p, i, 1, depth) == Some(j) {
      SkipAllExact(format, p, i, [item], depth);
    }
  }
}
