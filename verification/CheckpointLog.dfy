/** The append-only checkpoint log, its latest-row view and its compaction,
    against the keyed table that older databases keep: src/nats_ingest.cpp, lines 237-269, 888-973, 996-1013. */
module CheckpointLog {
  import opened Options

  type Key = (string, string)

  datatype Checkpoint = Checkpoint(committed: nat, delivered: nat, rows: nat, batches: nat)

  datatype LogRow = LogRow(key: Key, checkpoint: Checkpoint)

  predicate Newer(a: Checkpoint, b: Checkpoint) {
    a.committed > b.committed || (a.committed == b.committed && a.batches > b.batches)
  }

  /** `c` may be the rank-1 row of its key in the view, whichever way equal rows are ordered. */
  ghost predicate IsLatest(log: seq<LogRow>, key: Key, c: Checkpoint) {
    LogRow(key, c) in log && forall r | r in log && r.key == key :: !Newer(r.checkpoint, c)
  }

  predicate Superseded(log: seq<LogRow>, row: LogRow) {
    exists r | r in log :: r.key == row.key && Newer(r.checkpoint, row.checkpoint)
  }

  /** The rows of `rows` that no row of `log` supersedes. */
  function Surviving(log: seq<LogRow>, rows: seq<LogRow>): seq<LogRow> {
    if rows == [] then []
    else (if Superseded(log, rows[0]) then [] else [rows[0]]) + Surviving(log, rows[1..])
  }

  function Compacted(log: seq<LogRow>): seq<LogRow> {
    Surviving(log, log)
  }

  /** The view as a function: the last of the rows that nothing supersedes. */
  function Latest(log: seq<LogRow>, key: Key): Option<Checkpoint> {
    if log == [] then None
    else
      var best, row := Latest(log[..|log| - 1], key), log[|log| - 1];
      if row.key == key && (best.None? || !Newer(best.value, row.checkpoint)) then Some(row.checkpoint) else best
  }

  lemma {:induction false} LatestIsLatest(log: seq<LogRow>, key: Key)
    ensures Latest(log, key).None? <==> forall r | r in log :: r.key != key
    ensures Latest(log, key).Some? ==> IsLatest(log, key, Latest(log, key).value)
  {
    if log != [] {
      LatestIsLatest(log[..|log| - 1], key);
      assert log == log[..|log| - 1] + [log[|log| - 1]];
      assert log[|log| - 1] in log;
    }
  }

  lemma {:induction false} SurvivingRows(log: seq<LogRow>, rows: seq<LogRow>)
    ensures forall r :: r in Surviving(log, rows) <==> r in rows && !Superseded(log, r)
    ensures |Surviving(log, rows)| <= |rows|
    ensures (forall r | r in rows :: !Superseded(log, r)) ==> Surviving(log, rows) == rows
  {
    if rows != [] {
      SurvivingRows(log, rows[1..]);
      assert rows == [rows[0]] + rows[1..];
    }
  }

  /** Some row of every non-empty key has nothing newer. */
  lemma NewestExists(log: seq<LogRow>, row: LogRow) returns (top: LogRow)
    requires row in log
    ensures top in log && top.key == row.key && !Superseded(log, top)
    ensures top == row || Newer(top.checkpoint, row.checkpoint)
  {
    if !Superseded(log, row) {
      top := row;
    } else {
      LatestIsLatest(log, row.key);
      top := LogRow(row.key, Latest(log, row.key).value);
      var r :| r in log && r.key == row.key && Newer(r.checkpoint, row.checkpoint);
      assert !Newer(r.checkpoint, top.checkpoint);
    }
  }

  /** Compaction never changes what the view shows. */
  lemma CompactionKeepsView(log: seq<LogRow>, key: Key, c: Checkpoint)
    ensures IsLatest(Compacted(log), key, c) <==> IsLatest(log, key, c)
  {
    SurvivingRows(log, log);
    if IsLatest(Compacted(log), key, c) {
      forall r | r in log && r.key == key ensures !Newer(r.checkpoint, c) {
        var top := NewestExists(log, r);
        assert top in Compacted(log);
      }
    }
  }

  /** Compacting twice is compacting once. */
  lemma CompactionIdempotent(log: seq<LogRow>)
    ensures Compacted(Compacted(log)) == Compacted(log)
  {
    SurvivingRows(log, log);
    var small := Compacted(log);
    forall r | r in small ensures !Superseded(small, r) {
      assert !Superseded(log, r);
    }
    SurvivingRows(small, small);
  }

  // ---------------------------------------------------------------- against the keyed table

  datatype Operation = Upsert(key: Key, checkpoint: Checkpoint) | Compact

  function LogAfter(log: seq<LogRow>, op: Operation): seq<LogRow> {
    match op
    case Upsert(key, c) => log + [LogRow(key, c)]
    case Compact => Compacted(log)
  }

  function KeyedAfter(keyed: map<Key, Checkpoint>, op: Operation): map<Key, Checkpoint> {
    match op
    case Upsert(key, c) => keyed[key := c]
    case Compact => keyed
  }

  /** The view shows exactly the rows of the keyed table. */
  ghost predicate Agree(log: seq<LogRow>, keyed: map<Key, Checkpoint>) {
    forall key, c :: IsLatest(log, key, c) <==> key in keyed && keyed[key] == c
  }

  /** The new row replaces the one shown for its key, or repeats it. */
  predicate Rising(keyed: map<Key, Checkpoint>, op: Operation) {
    op.Upsert? && op.key in keyed ==> Newer(op.checkpoint, keyed[op.key]) || op.checkpoint == keyed[op.key]
  }

  lemma AppendAgrees(log: seq<LogRow>, keyed: map<Key, Checkpoint>, op: Operation)
    requires op.Upsert? && Agree(log, keyed) && Rising(keyed, op)
    ensures Agree(LogAfter(log, op), KeyedAfter(keyed, op))
  {
    var log', keyed' := LogAfter(log, op), KeyedAfter(keyed, op);
    forall r | r in log && r.key == op.key
      ensures !Newer(r.checkpoint, op.checkpoint)
      ensures r.checkpoint == op.checkpoint || Newer(op.checkpoint, r.checkpoint)
    {
      var top := NewestExists(log, r);
      assert IsLatest(log, op.key, top.checkpoint);
    }
    forall key, c ensures IsLatest(log', key, c) <==> key in keyed' && keyed'[key] == c {
      if key == op.key {
        assert LogRow(key, op.checkpoint) in log';
      } else {
        assert forall r: LogRow :: r in log' <==> r in log || r == LogRow(op.key, op.checkpoint);
        assert IsLatest(log', key, c) <==> IsLatest(log, key, c);
        assert IsLatest(log, key, c) <==> key in keyed && keyed[key] == c;
      }
    }
  }

  /** One operation keeps the log and the keyed table in agreement exactly when its row rises. */
  lemma AgreementStep(log: seq<LogRow>, keyed: map<Key, Checkpoint>, op: Operation)
    requires Agree(log, keyed)
    ensures Agree(LogAfter(log, op), KeyedAfter(keyed, op)) <==> Rising(keyed, op)
  {
    match op
    case Compact =>
      forall key, c ensures IsLatest(LogAfter(log, op), key, c) <==> key in keyed && keyed[key] == c {
        CompactionKeepsView(log, key, c);
        assert IsLatest(log, key, c) <==> key in keyed && keyed[key] == c;
      }
    case Upsert(key, c) =>
      if Rising(keyed, op) {
        AppendAgrees(log, keyed, op);
      } else {
        assert IsLatest(log, key, keyed[key]);
        assert IsLatest(LogAfter(log, op), key, keyed[key]);
      }
  }

  function LogRun(ops: seq<Operation>): seq<LogRow> {
    if ops == [] then [] else LogAfter(LogRun(ops[..|ops| - 1]), ops[|ops| - 1])
  }

  function KeyedRun(ops: seq<Operation>): map<Key, Checkpoint> {
    if ops == [] then map[] else KeyedAfter(KeyedRun(ops[..|ops| - 1]), ops[|ops| - 1])
  }

  /** Every upsert of the run rises over the row shown at its time. */
  ghost predicate AllRising(ops: seq<Operation>) {
    ops != [] ==>
      && AllRising(ops[..|ops| - 1])
      && Rising(KeyedRun(ops[..|ops| - 1]), ops[|ops| - 1])
  }

  /** View and keyed table agree after every prefix of the run. */
  ghost predicate AgreeThroughout(ops: seq<Operation>) {
    && Agree(LogRun(ops), KeyedRun(ops))
    && (ops != [] ==> AgreeThroughout(ops[..|ops| - 1]))
  }

  /** Under any mix of upserts and compactions the view equals the keyed table all along,
      exactly when every upsert rises. */
  lemma {:induction false} LogRefinesKeyedTable(ops: seq<Operation>)
    ensures AgreeThroughout(ops) <==> AllRising(ops)
  {
    if ops != [] {
      var before, op := ops[..|ops| - 1], ops[|ops| - 1];
      LogRefinesKeyedTable(before);
      if AgreeThroughout(before) {
        AgreementStep(LogRun(before), KeyedRun(before), op);
      }
    }
  }

  /** When the shown rows are unique, compaction leaves one row per key. */
  lemma CompactionLeavesOneRow(log: seq<LogRow>, keyed: map<Key, Checkpoint>, r: LogRow, s: LogRow)
    requires Agree(log, keyed) && r in Compacted(log) && s in Compacted(log) && r.key == s.key
    ensures r == s
  {
    SurvivingRows(log, log);
    assert IsLatest(log, r.key, r.checkpoint) && IsLatest(log, s.key, s.checkpoint);
  }

  function Lookup(keyed: map<Key, Checkpoint>, key: Key): Option<Checkpoint> {
    if key in keyed then Some(keyed[key]) else None
  }

  /** The view as a function is a lookup in the keyed table that the log agrees with. */
  lemma LatestIsLookup(log: seq<LogRow>, keyed: map<Key, Checkpoint>, key: Key)
    requires Agree(log, keyed)
    ensures Latest(log, key) == Lookup(keyed, key)
  {
    LatestIsLatest(log, key);
    if key in keyed {
      assert IsLatest(log, key, keyed[key]);
    }
  }

  /** What the checkpoint object shows for a key: a row of the view or of the keyed table. */
  function ShownIn(appendOnly: bool, log: seq<LogRow>, keyed: map<Key, Checkpoint>, key: Key): Option<Checkpoint> {
    if appendOnly then Latest(log, key) else Lookup(keyed, key)
  }

  /** The checkpoint object of one database, in either of its two layouts; `content` is the table that it stands for. */
  class CheckpointStore {
    const appendOnly: bool
    var log: seq<LogRow>
    var keyed: map<Key, Checkpoint>
    ghost var content: map<Key, Checkpoint>

    ghost predicate Valid()
      reads this
    {
      if appendOnly then Agree(log, content) else keyed == content
    }

    /** What a reader sees for a key. */
    function Shown(key: Key): Option<Checkpoint>
      reads this
    {
      ShownIn(appendOnly, log, keyed, key)
    }

    constructor (appendOnly: bool)
      ensures Valid() && content == map[] && this.appendOnly == appendOnly
    {
      this.appendOnly := appendOnly;
      log, keyed, content := [], map[], map[];
    }

    /** Readers see the new row from here on, exactly when it is not older than the row it replaces. */
    method UpsertCheckpoint(key: Key, checkpoint: Checkpoint)
      requires Valid()
      modifies this
      ensures content == old(content)[key := checkpoint]
      ensures Valid() <==> !appendOnly || Rising(old(content), Upsert(key, checkpoint))
      ensures Valid() <==>
                !appendOnly || key !in old(content) || checkpoint == old(content)[key]
                || checkpoint.committed > old(content)[key].committed
                || (checkpoint.committed == old(content)[key].committed
                    && checkpoint.batches > old(content)[key].batches)
      ensures appendOnly ==> log == old(log) + [LogRow(key, checkpoint)] && keyed == old(keyed)
      ensures !appendOnly ==> log == old(log)
    {
      AgreementHere(Upsert(key, checkpoint));
      content := content[key := checkpoint];
      if appendOnly {
        log := log + [LogRow(key, checkpoint)];
      } else {
        keyed := keyed[key := checkpoint];
      }
    }

    /** Fewer rows, the same answers. */
    method CompactCheckpointLog()
      modifies this`log
      ensures Valid() == old(Valid()) && log == Compacted(old(log)) && |log| <= |old(log)|
      ensures forall r :: r in log <==>
                r in old(log) && forall o | o in old(log) && o.key == r.key ::
                  o.checkpoint.committed < r.checkpoint.committed
                  || (o.checkpoint.committed == r.checkpoint.committed && o.checkpoint.batches <= r.checkpoint.batches)
      ensures forall key, c :: IsLatest(log, key, c) <==> IsLatest(old(log), key, c)
      ensures Valid() ==> forall key :: Shown(key) == ShownIn(appendOnly, old(log), old(keyed), key)
      ensures Valid() && appendOnly ==> forall r, s | r in log && s in log && r.key == s.key :: r == s
    {
      ghost var before := log;
      SurvivingRows(log, log);
      log := Compacted(log);
      forall key, c ensures IsLatest(log, key, c) <==> IsLatest(before, key, c) {
        CompactionKeepsView(before, key, c);
      }
      if Valid() && appendOnly {
        SameAnswers(before);
      }
    }

    lemma SameAnswers(before: seq<LogRow>)
      requires Valid() && appendOnly && log == Compacted(before) && Agree(before, content)
      ensures forall key :: Shown(key) == ShownIn(appendOnly, before, keyed, key)
      ensures forall r, s | r in log && s in log && r.key == s.key :: r == s
    {
      forall key ensures Shown(key) == ShownIn(appendOnly, before, keyed, key) {
        LatestIsLookup(before, content, key);
        LatestIsLookup(log, content, key);
      }
      forall r, s | r in log && s in log && r.key == s.key ensures r == s {
        CompactionLeavesOneRow(before, content, r, s);
      }
    }

    lemma AgreementHere(op: Operation)
      requires Valid()
      ensures appendOnly ==> (Agree(LogAfter(log, op), KeyedAfter(content, op)) <==> Rising(content, op))
    {
      if appendOnly {
        AgreementStep(log, content, op);
      }
    }

    /** Reads the checkpoint of a key and the sequence to resume from. */
    method LoadCheckpoint(key: Key, startSeq: nat) returns (found: Option<Checkpoint>, resumeSeq: nat)
      requires Valid()
      ensures if key in content then found == Some(content[key]) && resumeSeq == content[key].committed + 1
              else found == None && resumeSeq == startSeq
    {
      if appendOnly {
        LatestIsLookup(log, content, key);
      }
      found := Shown(key);
      resumeSeq := if found.Some? then found.value.committed + 1 else startSeq;
    }
  }
}
