/** Messages, configuration and the meaning of one ingest batch (src/nats_ingest.cpp). */
module IngestBatch {
  import opened Basics
  import opened Options

  /** A JetStream message: its stream sequence (0 when unknown) and its subject (None for a null pointer). */
  datatype Message = Message(sequence: nat, subject: Option<string>)

  /** The parts of a job's configuration that decide which rows it writes. */
  datatype Config = Config(key: (string, string), startSeq: nat, batchSize: nat, subjectContains: string, resume: bool)
  {
    predicate Valid() {
      1 <= batchSize <= 65536
    }

    predicate Passes(m: Message) {
      subjectContains == "" || (m.subject.Some? && Contains(m.subject.value, subjectContains))
    }
  }

  /** The counters of a job that are made durable with every commit. */
  datatype Progress = Progress(committed: nat, rows: nat, batches: nat)

  const NO_PROGRESS := Progress(0, 0, 0)

  predicate AtMost(p: Progress, q: Progress) {
    p.committed <= q.committed && p.rows <= q.rows && p.batches <= q.batches
  }

  predicate Holds(batch: seq<Message>, sequence: nat) {
    exists k :: 0 <= k < |batch| && batch[k].sequence == sequence
  }

  /** A message is dropped when its sequence is known and is committed already or was seen earlier in the batch. */
  predicate Duplicate(committed: nat, before: seq<Message>, m: Message) {
    m.sequence != 0 && (m.sequence <= committed || Holds(before, m.sequence))
  }

  predicate Accepted(cfg: Config, committed: nat, before: seq<Message>, m: Message) {
    !Duplicate(committed, before, m) && cfg.Passes(m)
  }

  /** The rows that a batch adds to the target table, in order. */
  function NewRows(cfg: Config, committed: nat, batch: seq<Message>): seq<Message> {
    if batch == [] then []
    else
      var before, m := batch[..|batch| - 1], batch[|batch| - 1];
      NewRows(cfg, committed, before) + if Accepted(cfg, committed, before, m) then [m] else []
  }

  function Duplicates(committed: nat, batch: seq<Message>): nat {
    if batch == [] then 0
    else
      var before, m := batch[..|batch| - 1], batch[|batch| - 1];
      Duplicates(committed, before) + if Duplicate(committed, before, m) then 1 else 0
  }

  function MaxSequence(batch: seq<Message>): nat {
    if batch == [] then 0
    else
      var rest, m := MaxSequence(batch[..|batch| - 1]), batch[|batch| - 1].sequence;
      if m > rest then m else rest
  }

  /** The progress written with the commit of a batch. */
  function NextProgress(cfg: Config, p: Progress, batch: seq<Message>): Progress {
    Progress(if MaxSequence(batch) == 0 then p.committed else MaxSequence(batch),
             p.rows + |NewRows(cfg, p.committed, batch)|, p.batches + 1)
  }

  ghost predicate Distinct(rows: seq<Message>) {
    forall i, j :: 0 <= i < j < |rows| ==> rows[i].sequence != rows[j].sequence
  }

  ghost predicate Increasing(rows: seq<Message>) {
    forall i, j :: 0 <= i < j < |rows| ==> rows[i].sequence < rows[j].sequence
  }

  lemma {:induction false} MaxSequenceBounds(batch: seq<Message>)
    ensures forall m | m in batch :: m.sequence <= MaxSequence(batch)
    ensures batch != [] ==> Holds(batch, MaxSequence(batch))
  {
    if batch != [] {
      var before := batch[..|batch| - 1];
      MaxSequenceBounds(before);
      assert batch == before + [batch[|batch| - 1]];
      if before != [] && MaxSequence(batch) == MaxSequence(before) {
        var k :| 0 <= k < |before| && before[k].sequence == MaxSequence(before);
        assert batch[k].sequence == MaxSequence(batch);
      } else {
        assert batch[|batch| - 1].sequence == MaxSequence(batch);
      }
    }
  }

  /** Without a filter everything passes; with one, exactly the messages whose subject has the text somewhere in it. */
  lemma PassesIff(cfg: Config, m: Message)
    ensures cfg.Passes(m)
            <==> cfg.subjectContains == [] || (m.subject.Some?
                                               && exists a, c :: m.subject.value == a + cfg.subjectContains + c)
  {
    if m.subject.Some? {
      ContainsIff(m.subject.value, cfg.subjectContains);
    }
  }

  /** The rows of a batch are new, pass the filter, come from the batch and carry distinct sequences. */
  lemma {:induction false} NewRowsSound(cfg: Config, committed: nat, batch: seq<Message>)
    requires forall m | m in batch :: m.sequence != 0
    ensures forall m | m in NewRows(cfg, committed, batch) :: m in batch && m.sequence > committed && cfg.Passes(m)
    ensures Distinct(NewRows(cfg, committed, batch))
  {
    if batch != [] {
      var before := batch[..|batch| - 1];
      NewRowsSound(cfg, committed, before);
      var m := batch[|batch| - 1];
      assert batch == before + [m];
      var rows := NewRows(cfg, committed, before);
      if Accepted(cfg, committed, before, m) {
        forall i | 0 <= i < |rows| ensures rows[i].sequence != m.sequence {
          assert rows[i] in before;
          var k :| 0 <= k < |before| && before[k] == rows[i];
        }
      }
    }
  }

  /** Nothing new is left out: every new, filter-passing sequence of the batch is among its rows, and so is every
      filter-passing message without a sequence. */
  lemma {:induction false} NewRowsComplete(cfg: Config, committed: nat, batch: seq<Message>, m: Message)
    requires m in batch && cfg.Passes(m)
    requires m.sequence == 0
             || (m.sequence > committed && forall o | o in batch && o.sequence == m.sequence :: o == m)
    ensures m in NewRows(cfg, committed, batch)
  {
    var before, last := batch[..|batch| - 1], batch[|batch| - 1];
    assert batch == before + [last];
    if m in before {
      NewRowsComplete(cfg, committed, before, m);
    } else {
      assert last == m;
      assert m.sequence != 0 ==> !Holds(before, m.sequence);
    }
  }

  function Filtered(cfg: Config, committed: nat, batch: seq<Message>): nat {
    if batch == [] then 0
    else
      var before, m := batch[..|batch| - 1], batch[|batch| - 1];
      Filtered(cfg, committed, before) + if !Duplicate(committed, before, m) && !cfg.Passes(m) then 1 else 0
  }

  /** Every message taken is inserted, skipped as a duplicate, or filtered out, and only one of these. */
  lemma {:induction false} BatchConservation(cfg: Config, committed: nat, batch: seq<Message>)
    ensures |NewRows(cfg, committed, batch)| + Duplicates(committed, batch) + Filtered(cfg, committed, batch) == |batch|
  {
    if batch != [] {
      BatchConservation(cfg, committed, batch[..|batch| - 1]);
    }
  }

  /** The places of a batch whose sequence is known and is committed already or stands further in front. */
  ghost function Repeated(committed: nat, batch: seq<Message>): set<nat> {
    set k | 0 <= k < |batch| && batch[k].sequence != 0
            && (batch[k].sequence <= committed || exists i :: 0 <= i < k && batch[i].sequence == batch[k].sequence)
  }

  /** The places of the others that the filter drops. */
  ghost function Dropped(cfg: Config, committed: nat, batch: seq<Message>): set<nat> {
    set k | 0 <= k < |batch| && k !in Repeated(committed, batch) && !cfg.Passes(batch[k])
  }

  /** The counters are the sizes of these sets, and the rows are as many as all other messages. */
  lemma BatchCounted(cfg: Config, committed: nat, batch: seq<Message>)
    ensures Duplicates(committed, batch) == |Repeated(committed, batch)|
    ensures |NewRows(cfg, committed, batch)|
            == |batch| - |Repeated(committed, batch)| - |Dropped(cfg, committed, batch)|
  {
    SetsCounted(cfg, committed, batch);
    BatchConservation(cfg, committed, batch);
  }

  lemma {:induction false} SetsCounted(cfg: Config, committed: nat, batch: seq<Message>)
    ensures Duplicates(committed, batch) == |Repeated(committed, batch)|
    ensures Filtered(cfg, committed, batch) == |Dropped(cfg, committed, batch)|
  {
    if batch != [] {
      var before, m := batch[..|batch| - 1], batch[|batch| - 1];
      SetsCounted(cfg, committed, before);
      assert batch == before + [m];
      CountedSnoc(cfg, committed, before, m);
    }
  }

  lemma CountedSnoc(cfg: Config, committed: nat, before: seq<Message>, m: Message)
    ensures |Repeated(committed, before + [m])|
            == |Repeated(committed, before)| + if Duplicate(committed, before, m) then 1 else 0
    ensures |Dropped(cfg, committed, before + [m])|
            == |Dropped(cfg, committed, before)| + if !Duplicate(committed, before, m) && !cfg.Passes(m) then 1 else 0
  {
    RepeatedSnoc(committed, before, m);
    DroppedSnoc(cfg, committed, before, m);
    OneMore(Repeated(committed, before), Repeated(committed, before + [m]), |before|, Duplicate(committed, before, m));
    OneMore(Dropped(cfg, committed, before), Dropped(cfg, committed, before + [m]), |before|,
            !Duplicate(committed, before, m) && !cfg.Passes(m));
  }

  lemma DroppedSnoc(cfg: Config, committed: nat, before: seq<Message>, m: Message)
    ensures Dropped(cfg, committed, before + [m])
            == Dropped(cfg, committed, before)
               + if !Duplicate(committed, before, m) && !cfg.Passes(m) then {|before|} else {}
  {
    RepeatedSnoc(committed, before, m);
    var batch := before + [m];
    forall k | 0 <= k < |before| ensures k in Dropped(cfg, committed, batch) <==> k in Dropped(cfg, committed, before) {
      assert batch[k] == before[k];
    }
    assert batch[|before|] == m && |before| !in Repeated(committed, before);
  }

  lemma RepeatedSnoc(committed: nat, before: seq<Message>, m: Message)
    ensures Repeated(committed, before + [m])
            == Repeated(committed, before) + if Duplicate(committed, before, m) then {|before|} else {}
  {
    var batch := before + [m];
    forall k | 0 <= k < |before| ensures k in Repeated(committed, batch) <==> k in Repeated(committed, before) {
      assert forall i | 0 <= i <= k :: batch[i] == before[i];
      if k in Repeated(committed, batch) && batch[k].sequence > committed {
        var i :| 0 <= i < k && batch[i].sequence == batch[k].sequence;
        assert before[i].sequence == before[k].sequence;
      }
    }
    if Holds(before, m.sequence) {
      var i :| 0 <= i < |before| && before[i].sequence == m.sequence;
      assert batch[i].sequence == batch[|before|].sequence;
    }
  }

  /** The rows keep the order of the batch: they are the messages at rising places. */
  ghost predicate Subsequence(rows: seq<Message>, batch: seq<Message>) {
    rows == [] || (batch != [] &&
      var before, m := batch[..|batch| - 1], batch[|batch| - 1];
      || Subsequence(rows, before)
      || (rows[|rows| - 1] == m && Subsequence(rows[..|rows| - 1], before)))
  }

  lemma {:induction false} NewRowsInOrder(cfg: Config, committed: nat, batch: seq<Message>)
    ensures Subsequence(NewRows(cfg, committed, batch), batch)
  {
    if batch != [] {
      var before, m := batch[..|batch| - 1], batch[|batch| - 1];
      NewRowsInOrder(cfg, committed, before);
      var rows := NewRows(cfg, committed, before);
      if Accepted(cfg, committed, before, m) {
        assert NewRows(cfg, committed, batch) == rows + [m];
        assert (rows + [m])[..|rows|] == rows;
      } else {
        assert NewRows(cfg, committed, batch) == rows;
      }
    }
  }
}
