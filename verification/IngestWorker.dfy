/** One turn of the ingest worker: collecting a batch into write chunks, then one transaction with the compaction and
    the registry write that are due after it, or a rollback, then the acknowledgements (src/nats_ingest.cpp, lines
    2131-2367). */
module IngestWorker {
  import opened Basics
  import opened Options
  import opened CheckpointLog
  import opened IngestBatch
  import opened IngestLease
  import opened PrefetchSource
  import Protocol = IngestProtocol

  /** Every chunk is full, except that the last one may be shorter but not empty. */
  ghost predicate WellChunked(chunks: seq<seq<Message>>, size: nat) {
    && (forall i | 0 <= i < |chunks| :: 0 < |chunks[i]| <= size)
    && (forall i | 0 <= i < |chunks| - 1 :: |chunks[i]| == size)
  }

  /** The accounts of a partly collected batch. */
  datatype Account = Account(rows: seq<Message>, duplicates: nat, seen: set<nat>, last: nat)

  predicate Repeats(committed: nat, seen: set<nat>, m: Message) {
    m.sequence != 0 && (m.sequence <= committed || m.sequence in seen)
  }

  /** What one more message does to the accounts. */
  function Taken(cfg: Config, committed: nat, a: Account, m: Message): Account {
    if Repeats(committed, a.seen, m) then a.(duplicates := a.duplicates + 1, last := Max(a.last, m.sequence))
    else Account(a.rows + if cfg.Passes(m) then [m] else [], a.duplicates,
                 if m.sequence == 0 then a.seen else a.seen + {m.sequence}, Max(a.last, m.sequence))
  }

  function Collect(cfg: Config, committed: nat, batch: seq<Message>): Account {
    if batch == [] then Account([], 0, {}, 0)
    else Taken(cfg, committed, Collect(cfg, committed, batch[..|batch| - 1]), batch[|batch| - 1])
  }

  lemma CollectOne(cfg: Config, committed: nat, batch: seq<Message>, m: Message)
    ensures Collect(cfg, committed, batch + [m]) == Taken(cfg, committed, Collect(cfg, committed, batch), m)
  {
    assert (batch + [m])[..|batch|] == batch;
  }

  /** The loop's running accounts are the meaning of the batch. */
  lemma {:induction false} CollectMeaning(cfg: Config, committed: nat, batch: seq<Message>)
    ensures Collect(cfg, committed, batch).rows == NewRows(cfg, committed, batch)
    ensures Collect(cfg, committed, batch).duplicates == Duplicates(committed, batch)
    ensures Collect(cfg, committed, batch).last == MaxSequence(batch)
    ensures forall q :: q in Collect(cfg, committed, batch).seen <==> q != 0 && q > committed && Holds(batch, q)
  {
    if batch != [] {
      var before, m := batch[..|batch| - 1], batch[|batch| - 1];
      CollectMeaning(cfg, committed, before);
      assert batch == before + [m];
      LongerHolds(before, m);
    }
  }

  lemma AccountMeaning(cfg: Config, progress: Progress, batch: seq<Message>, a: Account)
    requires a == Collect(cfg, progress.committed, batch)
    ensures a.rows == NewRows(cfg, progress.committed, batch) && a.duplicates == Duplicates(progress.committed, batch)
    ensures CheckpointAfter(progress, |a.rows|, a.last) == NextProgress(cfg, progress, batch)
  {
    CollectMeaning(cfg, progress.committed, batch);
  }

  /** The checkpoint that a commit of so many rows would write. */
  function CheckpointAfter(progress: Progress, inserted: nat, last: nat): Progress {
    Progress(if last == 0 then progress.committed else last, progress.rows + inserted, progress.batches + 1)
  }

  lemma LongerHolds(before: seq<Message>, m: Message)
    ensures forall q :: Holds(before + [m], q) <==> Holds(before, q) || q == m.sequence
  {
    var batch := before + [m];
    forall q ensures Holds(batch, q) <==> Holds(before, q) || q == m.sequence {
      if Holds(before, q) {
        var k :| 0 <= k < |before| && before[k].sequence == q;
        assert batch[k].sequence == q;
      }
      assert batch[|before|].sequence == m.sequence;
    }
  }

  /** So many messages taken from the buffer. */
  function Nexts(n: nat): seq<Step<Message>> {
    if n == 0 then [] else Nexts(n - 1) + [Step.Next]
  }

  /** What became of a batch: without rows the lease may be renewed; a commit may be followed by a compaction and by
      writing the registry row. */
  datatype Outcome = Skipped(renewal: Renewal) | Committed(compacted: bool, persisted: bool) | LeaseLost
  {
    /** The worker throws. */
    predicate Fails() {
      this == LeaseLost || this == Skipped(Lost)
    }

    predicate Renews() {
      this == Skipped(Renewed) || this.Committed?
    }
  }

  /** What the head of the loop finds: messages, none yet, or the prefetch thread's error. */
  datatype Arrival = Ready | Nothing | SourceFailed

  /** The lease row, the time of its last renewal, the tables, and whether readers of the checkpoints see what they
      should. */
  datatype Record = Record(row: Option<Lease>, lastRenewal: int, table: seq<Message>, progress: Progress,
                           registry: Option<Progress>, log: seq<LogRow>, content: map<Key, Checkpoint>, valid: bool)

  class Worker {
    const cfg: Config
    const owner: nat
    const token: nat
    const lease: LeaseTable
    const store: CheckpointStore
    const source: NatsJetStreamBatchSource<Message>
    const compactEvery: nat
    const persistEvery: nat
    const writeChunk: array<Message>
    var writeRow: nat
    var appended: seq<seq<Message>>   // chunks handed to the appender since the last commit or rollback
    var progress: Progress
    var duplicatesSkipped: nat
    var lastDelivered: nat
    var lastRenewal: int
    var table: seq<Message>
    var registry: Option<Progress>
    var acked: seq<Message>

    /** The write buffer and the appender are empty, as they are between transactions. */
    ghost predicate Idle()
      reads this, source
    {
      && cfg.Valid() && persistEvery > 0 && source.Valid()
      && writeChunk.Length > 0 && writeRow == 0 && appended == []
    }

    /** The messages one turn takes: all that is buffered, but at most a batch. */
    ghost function NextBatch(): (batch: seq<Message>)
      reads this, source
    {
      source.State().Front(cfg.batchSize)
    }

    constructor (cfg: Config, owner: nat, token: nat, lease: LeaseTable, store: CheckpointStore,
                 source: NatsJetStreamBatchSource<Message>, vectorSize: nat, compactEvery: nat, persistEvery: nat,
                 progress: Progress, table: seq<Message>, registry: Option<Progress>, now: int)
      requires cfg.Valid() && vectorSize > 0 && persistEvery > 0 && source.Valid()
      ensures Idle() && this.cfg == cfg && this.owner == owner && this.token == token
      ensures this.lease == lease && this.store == store && this.source == source
      ensures fresh(writeChunk) && writeChunk.Length == vectorSize
      ensures this.compactEvery == compactEvery && this.persistEvery == persistEvery && lastRenewal == now
      ensures this.progress == progress && this.table == table && this.registry == registry && acked == []
    {
      this.cfg, this.owner, this.token, this.lease, this.store, this.source := cfg, owner, token, lease, store, source;
      writeChunk := new Message[vectorSize](_ => Message(0, None));
      writeRow, appended := 0, [];
      this.compactEvery, this.persistEvery, lastRenewal := compactEvery, persistEvery, now;
      this.progress, this.table, this.registry, acked := progress, table, registry, [];
      duplicatesSkipped, lastDelivered := 0, 0;
    }

    /** The head of the loop: fetches only when nothing is buffered, and renews the lease when nothing comes. */
    method FetchIfEmpty(now: int) returns (arrival: Arrival, renewal: Renewal)
      requires Idle()
      modifies source, lease, this`lastRenewal
      ensures Idle()
      ensures arrival.SourceFailed? <==> old(source.nextIndex >= |source.messages| && source.fetcher.Failed?)
      ensures arrival.Ready? <==> old(source.nextIndex < |source.messages|)
                                  || old(!source.fetcher.Failed? && source.queue != [] && source.queue[0] != [])
      ensures arrival.Ready? ==> source.nextIndex < |source.messages|
      ensures old(source.nextIndex < |source.messages| || source.fetcher.Failed?) ==> unchanged(source)
      ensures arrival.Ready? && old(source.nextIndex >= |source.messages|) ==>
                && source.messages == old(source.queue)[0] && source.nextIndex == 0
                && source.queue == old(source.queue)[1..]
      ensures source.steps == if old(source.HasBufferedMessages() || source.fetcher.Failed?) then old(source.steps)
                              else old(source.steps) + [Step.FetchBatch]
      ensures source.State().Received() == old(source.State().Received())
      ensures renewal == if arrival.Nothing? then RenewalOf(old(lease.row), owner, token, now, old(lastRenewal))
                         else NotDue
      ensures renewal.NotDue? <==> !arrival.Nothing? || now - old(lastRenewal) < 10
      ensures renewal.Renewed? ==> lease.row == Some(Lease(owner, token, now + 30)) && lastRenewal == now
      ensures AfterRenewal(renewal, old(lease.row), old(lastRenewal), now)
    {
      renewal := NotDue;
      source.ValidConserves();
      if !source.HasBufferedMessages() {
        if source.fetcher.Failed? {
          return SourceFailed, renewal;
        }
        FetchKeepsReceived(source.size, source.State());
        var taken := source.FetchBatch();
        if !taken || !source.HasBufferedMessages() {
          renewal := RenewIfDue(now);
          return Nothing, renewal;
        }
      }
      arrival := Ready;
    }

    /** A renewal extends the lease; nothing else changes it. */
    ghost predicate AfterRenewal(renewal: Renewal, row: Option<Lease>, last: int, now: int)
      reads this, lease
    {
      && lease.row == (if renewal.Renewed? then AfterFence(row, owner, token, now) else row)
      && lastRenewal == if renewal.Renewed? then now else last
    }

    /** RenewIngestLeaseIfDue between transactions. */
    method RenewIfDue(now: int) returns (renewal: Renewal)
      modifies lease, this`lastRenewal
      ensures renewal == RenewalOf(old(lease.row), owner, token, now, old(lastRenewal))
      ensures renewal.NotDue? <==> now - old(lastRenewal) < 10
      ensures AfterRenewal(renewal, old(lease.row), old(lastRenewal), now)
    {
      renewal := if now - lastRenewal < LEASE_SECONDS / 3 then NotDue else Renewed;
      var held;
      held, lastRenewal := lease.RenewIngestLeaseIfDue(owner, token, now, lastRenewal, false);
      if !held {
        renewal := Lost;
      }
    }

    /** AppendDataChunk and Reset. */
    method AppendChunk()
      requires 0 < writeRow <= writeChunk.Length
      modifies this`writeRow, this`appended
      ensures writeRow == 0 && appended == old(appended) + [writeChunk[..old(writeRow)]]
      ensures Flatten(appended) == Flatten(old(appended)) + writeChunk[..old(writeRow)]
    {
      FlattenAppend(appended, writeChunk[..writeRow]);
      appended := appended + [writeChunk[..writeRow]];
      writeRow := 0;
    }

    /** The rows collected so far, appended or still in the write buffer. */
    ghost function Collected(): seq<Message>
      requires writeRow <= writeChunk.Length
      reads this, writeChunk
    {
      Flatten(appended) + writeChunk[..writeRow]
    }

    /** AppendMessageRow into the write buffer, which is handed on when it is full. */
    method AppendRow(m: Message)
      requires writeRow < writeChunk.Length
      requires forall i | 0 <= i < |appended| :: |appended[i]| == writeChunk.Length
      modifies this`writeRow, this`appended, writeChunk
      ensures writeRow < writeChunk.Length
      ensures forall i | 0 <= i < |appended| :: |appended[i]| == writeChunk.Length
      ensures Collected() == old(Collected()) + [m]
    {
      writeChunk[writeRow] := m;
      writeRow := writeRow + 1;
      assert writeChunk[..writeRow] == old(writeChunk[..writeRow]) + [m];
      if writeRow == writeChunk.Length {
        AppendChunk();
      }
    }

    /** The buffers and counters stand as the accounts say; `skipped` and `delivered` are the counters'
        values before the batch. */
    ghost predicate Collecting(a: Account, inserted: nat, skipped: nat, delivered: nat)
      reads this, writeChunk
    {
      && writeRow < writeChunk.Length
      && (forall i | 0 <= i < |appended| :: |appended[i]| == writeChunk.Length)
      && Collected() == a.rows && inserted == |a.rows|
      && duplicatesSkipped == skipped + a.duplicates
      && delivered <= lastDelivered <= Max(delivered, a.last)
    }

    /** The body of the collecting loop: drops `m` as a duplicate, filters it out, or appends its row. */
    method TakeMessage(m: Message, ghost a: Account, seen: set<nat>, inserted: nat, ghost skipped: nat,
                       ghost delivered: nat)
      returns (seen': set<nat>, inserted': nat)
      requires Collecting(a, inserted, skipped, delivered) && seen == a.seen
      modifies this`writeRow, this`appended, this`duplicatesSkipped, this`lastDelivered, writeChunk
      ensures Collecting(Taken(cfg, progress.committed, a, m), inserted', skipped, delivered)
      ensures seen' == Taken(cfg, progress.committed, a, m).seen
    {
      seen', inserted' := seen, inserted;
      if m.sequence != 0 {
        if m.sequence <= progress.committed {
          duplicatesSkipped := duplicatesSkipped + 1;
          return;
        }
        if m.sequence in seen {
          duplicatesSkipped := duplicatesSkipped + 1;
          return;
        }
        seen' := seen + {m.sequence};
      }
      if cfg.subjectContains != "" && (m.subject.None? || !Contains(m.subject.value, cfg.subjectContains)) {
        lastDelivered := Max(lastDelivered, m.sequence);
        return;
      }
      AppendRow(m);
      inserted' := inserted + 1;
    }

    /** The loop's variables and the buffers stand as the batch so far says. */
    ghost predicate Accounted(batch: seq<Message>, seen: set<nat>, inserted: nat, last: nat, skipped: nat,
                              delivered: nat)
      reads this, writeChunk
    {
      var a := Collect(cfg, progress.committed, batch);
      Collecting(a, inserted, skipped, delivered) && seen == a.seen && last == a.last
    }

    method AccountFor(m: Message, ghost batch: seq<Message>, seen: set<nat>, inserted: nat, last: nat,
                      ghost skipped: nat, ghost delivered: nat)
      returns (seen': set<nat>, inserted': nat, last': nat)
      requires Accounted(batch, seen, inserted, last, skipped, delivered)
      modifies this`writeRow, this`appended, this`duplicatesSkipped, this`lastDelivered, writeChunk
      ensures Accounted(batch + [m], seen', inserted', last', skipped, delivered)
    {
      CollectOne(cfg, progress.committed, batch, m);
      last' := Max(last, m.sequence);
      seen', inserted' := TakeMessage(m, Collect(cfg, progress.committed, batch), seen, inserted, skipped, delivered);
    }

    /** From `s0` on, the messages of `batch` have been taken from the buffer, and nothing else was done. */
    ghost predicate Took(s0: Source<Message>, steps: seq<Step<Message>>, batch: seq<Message>)
      reads source
    {
      && source.Valid() && s0.nextIndex + |batch| <= |s0.messages|
      && (forall i | 0 <= i < |batch| :: batch[i] == s0.messages[s0.nextIndex + i])
      && source.State() == s0.(nextIndex := s0.nextIndex + |batch|, consumed := s0.consumed + batch)
      && source.steps == steps + Nexts(|batch|)
    }

    static lemma OneMore(s0: Source<Message>, batch: seq<Message>, m: Message)
      requires s0.nextIndex + |batch| < |s0.messages| && m == s0.messages[s0.nextIndex + |batch|]
      requires forall i | 0 <= i < |batch| :: batch[i] == s0.messages[s0.nextIndex + i]
      ensures forall i | 0 <= i < |batch + [m]| :: (batch + [m])[i] == s0.messages[s0.nextIndex + i]
      ensures Apply(s0.(nextIndex := s0.nextIndex + |batch|, consumed := s0.consumed + batch), Step.Next)
              == s0.(nextIndex := s0.nextIndex + |batch + [m]|, consumed := s0.consumed + (batch + [m]))
    {
    }

    /** Whatever the transport would give, the message comes from the buffer. */
    method TakeNext(ghost s0: Source<Message>, ghost steps: seq<Step<Message>>, ghost batch: seq<Message>)
      returns (m: Message)
      requires Took(s0, steps, batch) && source.HasBufferedMessages()
      modifies source
      ensures Took(s0, steps, batch + [m])
    {
      var direct: seq<Message> := *;
      var message := source.Next(direct);
      m := message[0];
      OneMore(s0, batch, m);
      assert source.steps == steps + Nexts(|batch + [m]|);
    }

    /** The body of the collecting loop. */
    method CollectNext(ghost s0: Source<Message>, ghost steps: seq<Step<Message>>, batch: seq<Message>, seen: set<nat>,
                       inserted: nat, last: nat, ghost skipped: nat, ghost delivered: nat)
      returns (m: Message, seen': set<nat>, inserted': nat, last': nat)
      requires Took(s0, steps, batch) && source.HasBufferedMessages()
      requires Accounted(batch, seen, inserted, last, skipped, delivered)
      modifies source, this`writeRow, this`appended, this`duplicatesSkipped, this`lastDelivered, writeChunk
      ensures Took(s0, steps, batch + [m]) && Accounted(batch + [m], seen', inserted', last', skipped, delivered)
    {
      m := TakeNext(s0, steps, batch);
      seen', inserted', last' := AccountFor(m, batch, seen, inserted, last, skipped, delivered);
    }

    /** The collecting loop over the buffered messages: `Next` steps of a guarded run, and nothing else. */
    method CollectBatch() returns (batch: seq<Message>, inserted: nat, last: nat)
      requires Idle()
      modifies source, this`writeRow, this`appended, this`duplicatesSkipped, this`lastDelivered, writeChunk
      ensures batch == old(NextBatch()) && Took(old(source.State()), old(source.steps), batch)
      ensures var a := Collect(cfg, progress.committed, batch);
              last == a.last && Collecting(a, inserted, old(duplicatesSkipped), old(lastDelivered))
    {
      source.InBounds();
      ghost var s0, steps := source.State(), source.steps;
      var seen: set<nat> := {};
      batch, inserted, last := [], 0, 0;
      while source.HasBufferedMessages()
        invariant Took(s0, steps, batch) && |batch| <= cfg.batchSize
        invariant Accounted(batch, seen, inserted, last, old(duplicatesSkipped), old(lastDelivered))
        decreases |s0.messages| - |batch|
      {
        if |batch| == cfg.batchSize {
          break;
        }
        var m;
        m, seen, inserted, last :=
          CollectNext(s0, steps, batch, seen, inserted, last, old(duplicatesSkipped), old(lastDelivered));
        batch := batch + [m];
      }
      WholeBatch(s0, batch);
    }

    lemma WholeBatch(s0: Source<Message>, batch: seq<Message>)
      requires s0.nextIndex + |batch| <= |s0.messages| && |batch| <= cfg.batchSize
      requires forall i | 0 <= i < |batch| :: batch[i] == s0.messages[s0.nextIndex + i]
      requires |batch| == cfg.batchSize || s0.nextIndex + |batch| == |s0.messages|
      ensures batch == s0.Front(cfg.batchSize)
    {
    }

    /** The last chunk goes to the appender too. */
    method TakeChunks() returns (chunks: seq<seq<Message>>)
      requires writeRow < writeChunk.Length && forall i | 0 <= i < |appended| :: |appended[i]| == writeChunk.Length
      modifies this`writeRow, this`appended
      ensures writeRow == 0 && appended == []
      ensures Flatten(chunks) == old(Collected()) && WellChunked(chunks, writeChunk.Length)
    {
      if writeRow > 0 {
        AppendChunk();
      }
      chunks := appended;
      appended := [];
    }

    /** What a turn can change, as values. */
    ghost function Recorded(): Record
      reads this, lease, store
    {
      Record(lease.row, lastRenewal, table, progress, registry, store.log, store.content, store.Valid())
    }

    /** The progress is the checkpoint that readers are shown; a compaction changes neither. */
    ghost predicate Checkpointed(r: Record, next: Progress, compacted: bool, r': Record) {
      var upsert := Upsert(cfg.key, Protocol.CheckpointOf(next));
      var log := LogAfter(r.log, upsert);
      && r'.content == KeyedAfter(r.content, upsert)
      && (r'.valid <==> !store.appendOnly || Rising(r.content, upsert))
      && (store.appendOnly ==> r'.log == if compacted then Compacted(log) else log)
    }

    /** Rows, checkpoint and fence take effect together; the lease is extended. */
    ghost predicate Commits(r: Record, rows: seq<Message>, next: Progress, now: int, compacted: bool, persisted: bool,
                            r': Record)
    {
      && r'.row == AfterFence(r.row, owner, token, now) && r'.lastRenewal == now
      && r'.table == r.table + rows && r'.progress == next
      && r'.registry == (if persisted then Some(next) else r.registry)
      && Checkpointed(r, next, compacted, r')
    }

    /** What a batch comes to.  Without rows nothing is written, but the lease may be renewed; with rows everything is
        written with the next checkpoint, together with the compaction and the registry row that are due; or, when the
        lease is gone, nothing is.  A compaction that fails is passed over. */
    ghost predicate Finishes(r: Record, rows: seq<Message>, next: Progress, now: int, compactionFails: bool,
                             outcome: Outcome, r': Record)
      requires persistEvery > 0
    {
      match outcome
      case Skipped(renewal) =>
        && rows == [] && renewal == RenewalOf(r.row, owner, token, now, r.lastRenewal)
        && r' == if renewal.Renewed? then r.(row := AfterFence(r.row, owner, token, now), lastRenewal := now) else r
      case Committed(compacted, persisted) =>
        && rows != [] && HeldBy(r.row, owner, token)
        && (compacted <==> store.appendOnly && compactEvery > 0 && next.batches % compactEvery == 0 && !compactionFails)
        && (persisted <==> next.batches % persistEvery == 0)
        && Commits(r, rows, next, now, compacted, persisted, r')
      case LeaseLost => rows != [] && !HeldBy(r.row, owner, token) && r' == r
    }

    /** The final chunk, the checkpoint, the fence and the commit; everything is undone when the lease is gone. */
    method CommitBatch(inserted: nat, last: nat, now: int) returns (committed: bool, chunks: seq<seq<Message>>)
      requires cfg.Valid() && writeRow < writeChunk.Length && store.Valid()
      requires forall i | 0 <= i < |appended| :: |appended[i]| == writeChunk.Length
      requires inserted == |Collected()| > 0
      modifies this`writeRow, this`appended, this`table, this`progress, this`lastDelivered, this`lastRenewal
      modifies lease, store
      ensures writeRow == 0 && appended == []
      ensures Flatten(chunks) == old(Collected()) && WellChunked(chunks, writeChunk.Length)
      ensures committed == HeldBy(old(lease.row), owner, token)
      ensures !committed ==> Recorded() == old(Recorded()) && lastDelivered == old(lastDelivered)
      ensures committed ==> lastDelivered == progress.committed
      ensures committed ==>
                Commits(old(Recorded()), old(Collected()), CheckpointAfter(old(progress), inserted, last), now, false,
                        false, Recorded())
    {
      chunks := TakeChunks();
      var rows, next := Flatten(chunks), CheckpointAfter(progress, inserted, last);
      var log, keyed := store.log, store.keyed;
      ghost var content := store.content;
      store.UpsertCheckpoint(cfg.key, Checkpoint(next.committed, next.committed, next.rows, next.batches));
      committed := lease.FenceIngestCommit(owner, token, now);
      if !committed {
        store.log, store.keyed, store.content := log, keyed, content;
        return;
      }
      lastRenewal := now;
      table := table + rows;
      progress := next;
      lastDelivered := next.committed;
    }

    /** What follows a commit: the log is compacted when that is due, unless it fails, and the registry is written. */
    method MaintainDatabase(compactionFails: bool) returns (compacted: bool, persisted: bool)
      requires persistEvery > 0
      modifies this`registry, store`log
      ensures compacted <==> store.appendOnly && compactEvery > 0 && progress.batches % compactEvery == 0
                             && !compactionFails
      ensures persisted <==> progress.batches % persistEvery == 0
      ensures store.Valid() == old(store.Valid())
      ensures store.log == if compacted then Compacted(old(store.log)) else old(store.log)
      ensures registry == if persisted then Some(progress) else old(registry)
    {
      compacted, persisted := false, false;
      if store.appendOnly && compactEvery > 0 && progress.batches % compactEvery == 0 {
        if !compactionFails {
          store.CompactCheckpointLog();
          compacted := true;
        }
      }
      if progress.batches % persistEvery == 0 {
        registry := Some(progress);
        persisted := true;
      }
    }

    /** The end of a turn: without rows the transaction is rolled back, with rows it is committed if the lease is still
        held; messages are acknowledged after either. */
    method FinishBatch(batch: seq<Message>, inserted: nat, last: nat, now: int, compactionFails: bool)
      returns (outcome: Outcome, chunks: seq<seq<Message>>)
      requires cfg.Valid() && persistEvery > 0 && writeRow < writeChunk.Length && store.Valid()
      requires forall i | 0 <= i < |appended| :: |appended[i]| == writeChunk.Length
      requires inserted == |Collected()|
      modifies this`writeRow, this`appended, this`table, this`progress, this`lastDelivered, this`lastRenewal
      modifies this`registry, this`acked, lease, store
      ensures writeRow == 0 && appended == []
      ensures Flatten(chunks) == old(Collected()) && WellChunked(chunks, writeChunk.Length)
      ensures acked == if outcome.LeaseLost? then old(acked) else old(acked) + batch
      ensures lastDelivered == if outcome.Committed? then progress.committed else Max(old(lastDelivered), last)
      ensures Finishes(old(Recorded()), Flatten(chunks), CheckpointAfter(old(progress), inserted, last), now,
                       compactionFails, outcome, Recorded())
    {
      lastDelivered := Max(lastDelivered, last);
      if inserted == 0 {
        NoRowsNoChunks(appended, writeChunk.Length);
        acked := acked + batch;
        var renewal := RenewIfDue(now);
        return Skipped(renewal), [];
      }
      var committed;
      committed, chunks := CommitBatch(inserted, last, now);
      NoChunksNoRows(chunks, writeChunk.Length);
      if !committed {
        return LeaseLost, chunks;
      }
      var compacted, persisted := MaintainDatabase(compactionFails);
      acked := acked + batch;
      outcome := Committed(compacted, persisted);
    }

    /** The collecting loop, by what it leaves to be written: the batch's new rows, and the checkpoint for them. */
    method TakeBatch() returns (batch: seq<Message>, inserted: nat, last: nat)
      requires Idle()
      modifies source, this`writeRow, this`appended, this`duplicatesSkipped, this`lastDelivered, writeChunk
      ensures batch == old(NextBatch()) && Took(old(source.State()), old(source.steps), batch)
      ensures writeRow < writeChunk.Length && forall i | 0 <= i < |appended| :: |appended[i]| == writeChunk.Length
      ensures Collected() == NewRows(cfg, progress.committed, batch) && inserted == |Collected()|
      ensures duplicatesSkipped == old(duplicatesSkipped) + Duplicates(progress.committed, batch)
      ensures CheckpointAfter(progress, inserted, last) == NextProgress(cfg, progress, batch)
    {
      batch, inserted, last := CollectBatch();
      AccountMeaning(cfg, progress, batch, Collect(cfg, progress.committed, batch));
    }

    /** Taking a batch and finishing it, by what it makes of the record. */
    method TakeAndFinish(now: int, compactionFails: bool) returns (outcome: Outcome, chunks: seq<seq<Message>>)
      requires Idle() && store.Valid()
      modifies this, writeChunk, lease, store, source
      ensures Idle()
      ensures Took(old(source.State()), old(source.steps), old(NextBatch()))
      ensures duplicatesSkipped == old(duplicatesSkipped + Duplicates(progress.committed, NextBatch()))
      ensures Flatten(chunks) == old(NewRows(cfg, progress.committed, NextBatch()))
      ensures WellChunked(chunks, writeChunk.Length)
      ensures acked == if outcome.LeaseLost? then old(acked) else old(acked) + old(NextBatch())
      ensures Finishes(old(Recorded()), Flatten(chunks), old(NextProgress(cfg, progress, NextBatch())), now,
                       compactionFails, outcome, Recorded())
    {
      ghost var before := Recorded();
      var batch, inserted, last := TakeBatch();
      ghost var state, steps := source.State(), source.steps;
      assert Recorded() == before;
      outcome, chunks := FinishBatch(batch, inserted, last, now, compactionFails);
      assert source.State() == state && source.steps == steps && source.Valid();
    }

    /** One turn of the loop on a non-empty buffer. */
    method ProcessBatch(now: int, compactionFails: bool) returns (outcome: Outcome, chunks: seq<seq<Message>>)
      requires Idle() && store.Valid()
      modifies this, writeChunk, lease, store, source
      ensures Idle()
      ensures Took(old(source.State()), old(source.steps), old(NextBatch()))
      ensures duplicatesSkipped == old(duplicatesSkipped + Duplicates(progress.committed, NextBatch()))
      ensures Flatten(chunks) == old(NewRows(cfg, progress.committed, NextBatch()))
      ensures WellChunked(chunks, writeChunk.Length)
      ensures acked == if outcome.LeaseLost? then old(acked) else old(acked) + old(NextBatch())
      ensures Finishes(old(Recorded()), Flatten(chunks), old(NextProgress(cfg, progress, NextBatch())), now,
                       compactionFails, outcome, Recorded())
      ensures outcome.Skipped? <==> Flatten(chunks) == []
      ensures outcome.Skipped? ==> (outcome.renewal.NotDue? <==> now - old(lastRenewal) < 10)
      ensures outcome.Renews() ==> lease.row == Some(Lease(owner, token, now + 30)) && lastRenewal == now
      ensures outcome.Committed? ==>
                && table == old(table) + Flatten(chunks)
                && registry == (if progress.batches % persistEvery == 0 then Some(progress) else old(registry))
                && (outcome.compacted <==> store.appendOnly && compactEvery > 0 && !compactionFails
                                           && progress.batches % compactEvery == 0)
      ensures !outcome.Committed? ==> table == old(table) && progress == old(progress) && registry == old(registry)
    {
      ghost var r, next := Recorded(), NextProgress(cfg, progress, NextBatch());
      outcome, chunks := TakeAndFinish(now, compactionFails);
      FinishesMeans(r, Flatten(chunks), next, now, compactionFails, outcome, Recorded());
    }

    /** What a turn makes of the record, field by field. */
    lemma FinishesMeans(r: Record, rows: seq<Message>, next: Progress, now: int, compactionFails: bool,
                        outcome: Outcome, r': Record)
      requires persistEvery > 0 && Finishes(r, rows, next, now, compactionFails, outcome, r')
      ensures outcome.Skipped? <==> rows == []
      ensures outcome.Skipped? ==> (outcome.renewal.NotDue? <==> now - r.lastRenewal < 10)
      ensures outcome.Renews() ==> r'.row == Some(Lease(owner, token, now + 30)) && r'.lastRenewal == now
      ensures outcome.Committed? ==>
                && r'.table == r.table + rows && r'.progress == next
                && r'.registry == (if next.batches % persistEvery == 0 then Some(next) else r.registry)
                && (outcome.compacted <==> store.appendOnly && compactEvery > 0 && !compactionFails
                                           && next.batches % compactEvery == 0)
      ensures !outcome.Committed? ==>
                r'.table == r.table && r'.progress == r.progress && r'.registry == r.registry
    {
    }
  }

  lemma NoChunksNoRows(chunks: seq<seq<Message>>, size: nat)
    requires WellChunked(chunks, size)
    ensures chunks == [] <==> Flatten(chunks) == []
  {
    if chunks != [] {
      assert |chunks[|chunks| - 1]| > 0;
    }
  }

  lemma {:induction false} NoRowsNoChunks(chunks: seq<seq<Message>>, size: nat)
    requires size > 0 && (forall i | 0 <= i < |chunks| :: |chunks[i]| == size)
    ensures chunks != [] ==> |Flatten(chunks)| >= size
  {
  }
}
