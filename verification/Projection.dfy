/** Extracting dotted paths from a document in one pass over its entries, against looking each path up on its own.
    The pass is the tree-level meaning of both DecodeMap functions of src/nats_message_decode.cpp. */
module Projection {
  import opened Options
  import opened Bytes

  /** The cell of an output column. */
  datatype Cell = Null | Text(bytes: Bytes)

  /** A decoded document: scalars have a text or are null; arrays, blobs and the like are opaque. */
  datatype Doc = Scalar(cell: Cell) | Opaque | Node(entries: seq<Entry>)

  datatype Entry = Entry(key: Bytes, value: Doc)

  type Path = p: seq<Bytes> | p != [] witness [[]]

  // ---------------------------------------------------------------- the pass

  predicate Matches(path: Path, depth: nat, key: Bytes) {
    depth < |path| && path[depth] == key
  }

  /** The first field whose component at this depth is the key; only that component is compared. */
  function FirstMatch(paths: seq<Path>, depth: nat, key: Bytes): (f: Option<nat>)
    ensures f.Some? ==> f.value < |paths| && Matches(paths[f.value], depth, key)
    ensures f.Some? ==> forall g | 0 <= g < f.value :: !Matches(paths[g], depth, key)
    ensures f.None? ==> forall g | 0 <= g < |paths| :: !Matches(paths[g], depth, key)
  {
    MatchFrom(paths, depth, key, 0)
  }

  function MatchFrom(paths: seq<Path>, depth: nat, key: Bytes, from: nat): (f: Option<nat>)
    requires from <= |paths|
    ensures f.Some? ==> from <= f.value < |paths| && Matches(paths[f.value], depth, key)
    ensures f.Some? ==> forall g | from <= g < f.value :: !Matches(paths[g], depth, key)
    ensures f.None? ==> forall g | from <= g < |paths| :: !Matches(paths[g], depth, key)
    decreases |paths| - from
  {
    if from == |paths| then None
    else if Matches(paths[from], depth, key) then Some(from)
    else MatchFrom(paths, depth, key, from + 1)
  }

  /** Field `f` is written to column `columns[f]` of the row. */
  ghost predicate Columns(columns: seq<nat>, paths: seq<Path>, width: nat) {
    && |columns| == |paths|
    && (forall f | 0 <= f < |columns| :: columns[f] < width)
    && (forall f, g | 0 <= f < g < |columns| :: columns[f] != columns[g])
  }

  predicate InRange(columns: seq<nat>, paths: seq<Path>, row: seq<Cell>) {
    |columns| == |paths| && forall f | 0 <= f < |columns| :: columns[f] < |row|
  }

  function ProjectEntry(e: Entry, depth: nat, paths: seq<Path>, columns: seq<nat>, row: seq<Cell>): (r: seq<Cell>)
    requires InRange(columns, paths, row)
    ensures |r| == |row|
    decreases e, 0
  {
    match FirstMatch(paths, depth, e.key)
    case None => row
    case Some(f) =>
      if depth + 1 == |paths[f]| then
        if e.value.Scalar? then row[columns[f] := e.value.cell] else row
      else if e.value.Node? then Project(e.value.entries, depth + 1, paths, columns, row)
      else row
  }

  function Project(entries: seq<Entry>, depth: nat, paths: seq<Path>, columns: seq<nat>, row: seq<Cell>): (r: seq<Cell>)
    requires InRange(columns, paths, row)
    ensures |r| == |row|
    decreases entries, 1
  {
    if entries == [] then row
    else Project(entries[1..], depth, paths, columns, ProjectEntry(entries[0], depth, paths, columns, row))
  }

  // ---------------------------------------------------------------- independent lookup

  /** The value of a key, by the first entry that has it. */
  function Find(entries: seq<Entry>, key: Bytes): (v: Option<Doc>)
    ensures v.Some? ==> exists e | e in entries :: e.key == key && e.value == v.value
    ensures v.None? ==> forall e | e in entries :: e.key != key
  {
    if entries == [] then None
    else if entries[0].key == key then Some(entries[0].value)
    else Find(entries[1..], key)
  }

  /** The scalar at the end of a path, from component `depth` on. */
  function LookupFrom(doc: Doc, path: Path, depth: nat): Option<Cell>
    requires depth <= |path|
    decreases |path| - depth
  {
    if depth == |path| then if doc.Scalar? then Some(doc.cell) else None
    else if !doc.Node? then None
    else
      match Find(doc.entries, path[depth])
      case None => None
      case Some(value) => LookupFrom(value, path, depth + 1)
  }

  /** The text at a path; null when there is no scalar. */
  function Lookup(doc: Doc, path: Path): Cell {
    match LookupFrom(doc, path, 0)
    case None => Null
    case Some(cell) => cell
  }

  /** The scalar at the end of a path from component `depth` on that comes last, where keys may be repeated. */
  function LastIn(doc: Doc, path: Path, depth: nat): Option<Cell>
    decreases doc, 0
  {
    if depth >= |path| then if depth == |path| && doc.Scalar? then Some(doc.cell) else None
    else if doc.Node? then LastAmong(doc.entries, path, depth)
    else None
  }

  function LastAmong(entries: seq<Entry>, path: Path, depth: nat): Option<Cell>
    decreases entries, 1
  {
    if entries == [] || depth >= |path| then None
    else
      var later := LastAmong(entries[1..], path, depth);
      if later.Some? then later
      else if entries[0].key == path[depth] then LastIn(entries[0].value, path, depth + 1)
      else None
  }

  /** The last text at a path; null when there is no scalar. */
  function LastLookup(doc: Doc, path: Path): Cell {
    match LastIn(doc, path, 0)
    case None => Null
    case Some(cell) => cell
  }

  predicate DistinctKeys(doc: Doc) {
    doc.Node? ==> DistinctEntries(doc.entries)
  }

  predicate DistinctEntries(entries: seq<Entry>) {
    entries != [] ==>
      && (forall e | e in entries[1..] :: e.key != entries[0].key)
      && DistinctKeys(entries[0].value)
      && DistinctEntries(entries[1..])
  }

  // ---------------------------------------------------------------- when they agree

  predicate SamePrefix(p: Path, q: Path, depth: nat) {
    depth <= |p| && depth <= |q| && p[..depth] == q[..depth]
  }

  /** No path is a prefix of another, and two paths that go deeper than `d` agree on their first `d` components. */
  ghost predicate Compatible(paths: seq<Path>) {
    && (forall f, g | 0 <= f < |paths| && 0 <= g < |paths| && f != g :: !(paths[f] <= paths[g]))
    && (forall f, g, d | 0 <= f < |paths| && 0 <= g < |paths| && 0 <= d < |paths[f]| && d < |paths[g]| ::
          SamePrefix(paths[f], paths[g], d))
  }

  function OrElse(found: Option<Cell>, cell: Cell): Cell {
    if found.Some? then found.value else cell
  }

  lemma ExtendsPrefix(p: Path, q: Path, d: nat)
    requires SamePrefix(p, q, d) && d < |p| && d < |q| && p[d] == q[d]
    ensures SamePrefix(p, q, d + 1)
  {
    assert p[..d + 1] == p[..d] + [p[d]] && q[..d + 1] == q[..d] + [q[d]];
  }

  /** Two fields that agree at depth `d` go on together, or are the same field. */
  lemma CompatibleAt(paths: seq<Path>, f: nat, g: nat, d: nat)
    requires Compatible(paths) && f < |paths| && g < |paths| && f != g
    requires d < |paths[f]| && d < |paths[g]| && paths[f][d] == paths[g][d]
    ensures d + 1 < |paths[f]| && d + 1 < |paths[g]|
  {
    ExtendsPrefix(paths[f], paths[g], d);
    assert paths[f][..|paths[f]|] == paths[f] && paths[g][..|paths[g]|] == paths[g];
  }

  lemma DeeperAgree(paths: seq<Path>, f: nat, g: nat, d: nat)
    requires Compatible(paths) && f < |paths| && g < |paths| && d + 1 < |paths[f]| && d + 1 < |paths[g]|
    ensures paths[f][d] == paths[g][d]
  {
    assert SamePrefix(paths[f], paths[g], d + 1);
    assert paths[f][d] == paths[f][..d + 1][d] && paths[g][d] == paths[g][..d + 1][d];
  }

  /** One entry writes to the column of `f` exactly what lies on the path of `f` inside it. */
  lemma {:induction false} EntryRight(e: Entry, depth: nat, paths: seq<Path>, columns: seq<nat>, row: seq<Cell>, f: nat)
    requires Compatible(paths) && Columns(columns, paths, |row|) && f < |paths|
    ensures var inside := if Matches(paths[f], depth, e.key) then LastIn(e.value, paths[f], depth + 1) else None;
            ProjectEntry(e, depth, paths, columns, row)[columns[f]] == OrElse(inside, row[columns[f]])
    decreases e, 0
  {
    var first := FirstMatch(paths, depth, e.key);
    if first.Some? {
      var g := first.value;
      if Matches(paths[f], depth, e.key) && g != f {
        CompatibleAt(paths, f, g, depth);
      }
      if depth + 1 < |paths[g]| && e.value.Node? {
        if depth + 1 < |paths[f]| {
          DeeperAgree(paths, f, g, depth);
        }
        EntriesRight(e.value.entries, depth + 1, paths, columns, row, f);
      }
    }
  }

  lemma {:induction false} EntriesRight(entries: seq<Entry>, depth: nat, paths: seq<Path>, columns: seq<nat>,
                                        row: seq<Cell>, f: nat)
    requires Compatible(paths) && Columns(columns, paths, |row|) && f < |paths|
    ensures Project(entries, depth, paths, columns, row)[columns[f]]
            == OrElse(LastAmong(entries, paths[f], depth), row[columns[f]])
    decreases entries, 1
  {
    if entries != [] {
      var e, rest := entries[0], entries[1..];
      EntryRight(e, depth, paths, columns, row, f);
      EntriesRight(rest, depth, paths, columns, ProjectEntry(e, depth, paths, columns, row), f);
    }
  }

  /** Every column holds the independent lookup of its path. */
  ghost predicate ProjectsRight(entries: seq<Entry>, paths: seq<Path>, columns: seq<nat>, row: seq<Cell>)
    requires InRange(columns, paths, row)
  {
    var out := Project(entries, 0, paths, columns, row);
    forall f | 0 <= f < |paths| :: out[columns[f]] == Lookup(Node(entries), paths[f])
  }

  ghost predicate NullRow(columns: seq<nat>, row: seq<Cell>) {
    forall f | 0 <= f < |columns| :: columns[f] < |row| && row[columns[f]] == Null
  }

  /** With compatible paths, on any document, every column receives the last scalar at its path. */
  lemma ProjectionIsLast(entries: seq<Entry>, paths: seq<Path>, columns: seq<nat>, row: seq<Cell>)
    requires Compatible(paths) && Columns(columns, paths, |row|) && NullRow(columns, row)
    ensures var out := Project(entries, 0, paths, columns, row);
            forall f | 0 <= f < |paths| :: out[columns[f]] == LastLookup(Node(entries), paths[f])
  {
    var out := Project(entries, 0, paths, columns, row);
    forall f | 0 <= f < |paths| ensures out[columns[f]] == LastLookup(Node(entries), paths[f]) {
      EntriesRight(entries, 0, paths, columns, row, f);
    }
  }

  /** Where no key is repeated, the last scalar at a path is the only one. */
  lemma {:induction false} DistinctLast(doc: Doc, path: Path, depth: nat)
    requires DistinctKeys(doc) && depth <= |path|
    ensures LastIn(doc, path, depth) == LookupFrom(doc, path, depth)
    decreases doc, 0
  {
    if depth < |path| && doc.Node? {
      DistinctAmong(doc.entries, path, depth);
    }
  }

  lemma {:induction false} DistinctAmong(entries: seq<Entry>, path: Path, depth: nat)
    requires DistinctEntries(entries) && depth < |path|
    ensures LastAmong(entries, path, depth)
            == match Find(entries, path[depth]) case None => None case Some(v) => LookupFrom(v, path, depth + 1)
    decreases entries, 1
  {
    if entries != [] {
      DistinctAmong(entries[1..], path, depth);
      DistinctLast(entries[0].value, path, depth + 1);
    }
  }

  lemma ProjectionIsLookup(entries: seq<Entry>, paths: seq<Path>, columns: seq<nat>, row: seq<Cell>)
    requires Compatible(paths) && Columns(columns, paths, |row|) && NullRow(columns, row)
    requires DistinctEntries(entries)
    ensures ProjectsRight(entries, paths, columns, row)
  {
    ProjectionIsLast(entries, paths, columns, row);
    forall f | 0 <= f < |paths| ensures LastLookup(Node(entries), paths[f]) == Lookup(Node(entries), paths[f]) {
      DistinctLast(Node(entries), paths[f], 0);
    }
  }

  // ---------------------------------------------------------------- and only then

  /** The document that holds one scalar, at the end of one path. */
  function Chain(path: seq<Bytes>, cell: Cell): (doc: Doc)
    ensures path != [] ==> doc.Node?
    decreases |path|
  {
    if path == [] then Scalar(cell) else Node([Entry(path[0], Chain(path[1..], cell))])
  }

  lemma {:induction false} ChainDistinct(path: seq<Bytes>, cell: Cell)
    ensures DistinctKeys(Chain(path, cell))
    decreases |path|
  {
    if path != [] {
      ChainDistinct(path[1..], cell);
      var entries := Chain(path, cell).entries;
      assert entries[1..] == [];
    }
  }

  /** Looking up in a chain finds its scalar on the path of the chain and nowhere else. */
  lemma {:induction false} ChainLookup(path: Path, depth: nat, chain: seq<Bytes>, cell: Cell)
    requires depth <= |path|
    ensures LookupFrom(Chain(chain, cell), path, depth) == if path[depth..] == chain then Some(cell) else None
    decreases |path| - depth
  {
    var doc := Chain(chain, cell);
    if depth < |path| && chain != [] {
      assert doc.entries[1..] == [];
      assert path[depth..] == [path[depth]] + path[depth + 1..];
      assert chain == [chain[0]] + chain[1..];
      if chain[0] == path[depth] {
        ChainLookup(path, depth + 1, chain[1..], cell);
      }
    }
  }

  /** Where the pass puts the scalar of a chain: down to some field whose last component it meets, or nowhere. */
  function Target(paths: seq<Path>, depth: nat, chain: seq<Bytes>): Option<nat>
    decreases |chain|
  {
    if chain == [] then None
    else
      match FirstMatch(paths, depth, chain[0])
      case None => None
      case Some(f) =>
        if depth + 1 == |paths[f]| then if |chain| == 1 then Some(f) else None
        else if |chain| == 1 then None else Target(paths, depth + 1, chain[1..])
  }

  lemma {:induction false} ChainProject(chain: seq<Bytes>, cell: Cell, depth: nat, paths: seq<Path>, columns: seq<nat>,
                                        row: seq<Cell>)
    requires InRange(columns, paths, row) && chain != []
    requires Target(paths, depth, chain).Some? ==> Target(paths, depth, chain).value < |paths|
    ensures Project(Chain(chain, cell).entries, depth, paths, columns, row)
            == match Target(paths, depth, chain)
               case None => row
               case Some(f) => row[columns[f] := cell]
    decreases |chain|
  {
    var entries := Chain(chain, cell).entries;
    assert entries[1..] == [];
    assert Project(entries, depth, paths, columns, row) == ProjectEntry(entries[0], depth, paths, columns, row);
    if |chain| > 1 {
      var first := FirstMatch(paths, depth, chain[0]);
      if first.Some? && depth + 1 != |paths[first.value]| {
        ChainProject(chain[1..], cell, depth + 1, paths, columns, row);
      }
    } else {
      assert chain[1..] == [];
    }
  }

  lemma {:induction false} TargetInRange(paths: seq<Path>, depth: nat, chain: seq<Bytes>)
    ensures Target(paths, depth, chain).Some? ==> Target(paths, depth, chain).value < |paths|
    decreases |chain|
  {
    if |chain| > 1 {
      TargetInRange(paths, depth + 1, chain[1..]);
    }
  }

  /** The pass is right on every document with distinct keys. */
  ghost predicate AlwaysRight(paths: seq<Path>, columns: seq<nat>, row: seq<Cell>)
    requires InRange(columns, paths, row)
  {
    forall entries | DistinctEntries(entries) :: ProjectsRight(entries, paths, columns, row)
  }

  /** What the pass makes of a chain, and what independent lookup makes of it. */
  lemma ChainOutcome(chain: Path, paths: seq<Path>, columns: seq<nat>, row: seq<Cell>, f: nat)
    requires Columns(columns, paths, |row|) && NullRow(columns, row) && f < |paths|
    requires AlwaysRight(paths, columns, row)
    ensures chain == paths[f] <==> Target(paths, 0, chain) == Some(f)
  {
    var cell := Text([]);
    ChainDistinct(chain, cell);
    var entries := Chain(chain, cell).entries;
    assert ProjectsRight(entries, paths, columns, row);
    ChainLookup(paths[f], 0, chain, cell);
    assert paths[f][0..] == paths[f];
    TargetInRange(paths, 0, chain);
    ChainProject(chain, cell, 0, paths, columns, row);
    assert Project(entries, 0, paths, columns, row)[columns[f]] == Lookup(Node(entries), paths[f]);
  }

  /** Walking down a chain that reaches its field: what follows depth `d` depends only on the components there. */
  lemma {:induction false} TargetTail(paths: seq<Path>, depth: nat, chain: seq<Bytes>, f: nat, d: nat, tail: seq<Bytes>,
                                      long: seq<Bytes>, found: Option<nat>)
    requires Target(paths, depth, chain) == Some(f) && d < |chain| && tail != []
    requires long == chain[..d] + tail && found == Target(paths, depth + d, tail)
    ensures Target(paths, depth, long) == found
    decreases d
  {
    if d == 0 {
      assert long == tail;
    } else {
      var rest := long[1..];
      assert long[0] == chain[0] && rest == chain[1..][..d - 1] + tail && |long| > 1;
      TargetStep(paths, depth, chain, f, long);
      TargetTail(paths, depth + 1, chain[1..], f, d - 1, tail, rest, found);
    }
  }

  /** A chain that reaches a field goes on below its first component, and so does any that starts with it. */
  lemma TargetStep(paths: seq<Path>, depth: nat, chain: seq<Bytes>, f: nat, long: seq<Bytes>)
    requires Target(paths, depth, chain) == Some(f) && |chain| > 1 && |long| > 1 && long[0] == chain[0]
    ensures Target(paths, depth, long) == Target(paths, depth + 1, long[1..])
    ensures Target(paths, depth + 1, chain[1..]) == Some(f)
  {
  }

  lemma OnlyCompatible(paths: seq<Path>, columns: seq<nat>, row: seq<Cell>)
    requires Columns(columns, paths, |row|) && NullRow(columns, row) && AlwaysRight(paths, columns, row)
    ensures Compatible(paths)
  {
    forall f, g | 0 <= f < |paths| && 0 <= g < |paths| && f != g ensures !(paths[f] <= paths[g]) {
      NoPrefix(paths, columns, row, f, g);
    }
    forall f, g, d | 0 <= f < |paths| && 0 <= g < |paths| && 0 <= d < |paths[f]| && d < |paths[g]|
      ensures SamePrefix(paths[f], paths[g], d)
    {
      NoWrongBranch(paths, columns, row, f, g, d);
    }
  }

  lemma NoPrefix(paths: seq<Path>, columns: seq<nat>, row: seq<Cell>, f: nat, g: nat)
    requires Columns(columns, paths, |row|) && NullRow(columns, row) && AlwaysRight(paths, columns, row)
    requires f < |paths| && g < |paths| && f != g
    ensures !(paths[f] <= paths[g])
  {
    if paths[f] <= paths[g] {
      var d := |paths[f]| - 1;
      assert paths[f][..d] + paths[f][d..] == paths[f] && paths[g][..d] + paths[g][d..] == paths[g];
      ChainOutcome(paths[f], paths, columns, row, f);
      ChainOutcome(paths[g], paths, columns, row, g);
      TargetTail(paths, 0, paths[f], f, d, paths[f][d..], paths[f], Target(paths, d, paths[f][d..]));
      TargetTail(paths, 0, paths[g], g, d, paths[g][d..], paths[g], Target(paths, d, paths[g][d..]));
    }
  }

  /** A document that leaves the path of `g` at depth `d` and goes on like `f` would make the pass fill `f`. */
  lemma NoWrongBranch(paths: seq<Path>, columns: seq<nat>, row: seq<Cell>, f: nat, g: nat, d: nat)
    requires Columns(columns, paths, |row|) && NullRow(columns, row) && AlwaysRight(paths, columns, row)
    requires f < |paths| && g < |paths| && d < |paths[f]| && d < |paths[g]|
    ensures paths[f][..d] == paths[g][..d]
  {
    var tail := paths[f][d..];
    var mixed := paths[g][..d] + tail;
    assert paths[f][..d] + tail == paths[f] && mixed[..d] == paths[g][..d];
    ChainOutcome(paths[f], paths, columns, row, f);
    ChainOutcome(paths[g], paths, columns, row, g);
    TargetTail(paths, 0, paths[f], f, d, tail, paths[f][..d] + tail, Target(paths, d, tail));
    TargetTail(paths, 0, paths[g], g, d, tail, paths[g][..d] + tail, Target(paths, d, tail));
    ChainOutcome(mixed, paths, columns, row, f);
  }

  /** The one-pass decoder equals independent lookup on every document with distinct keys, exactly when the
      requested paths are compatible. */
  lemma ProjectionIffCompatible(paths: seq<Path>, columns: seq<nat>, row: seq<Cell>)
    requires Columns(columns, paths, |row|) && NullRow(columns, row)
    ensures AlwaysRight(paths, columns, row) <==> Compatible(paths)
  {
    if Compatible(paths) {
      forall entries | DistinctEntries(entries) ensures ProjectsRight(entries, paths, columns, row) {
        ProjectionIsLookup(entries, paths, columns, row);
      }
    }
    if AlwaysRight(paths, columns, row) {
      OnlyCompatible(paths, columns, row);
    }
  }
}
