/** Completeness under the delivery assumption: the table is exactly the filter-passing messages up to the
    checkpoint, and nothing acknowledged is missing. */
module IngestDelivery {
  import opened Basics
  import opened IngestBatch
  import opened IngestProtocol
  import opened IngestSafety

  /** The job must put this message into the table. */
  predicate Due(cfg: Config, m: Message) {
    cfg.startSeq <= m.sequence && cfg.Passes(m)
  }

  /** The due messages of the stream with low < sequence <= high, in stream order. */
  function Select(cfg: Config, stream: seq<Message>, low: nat, high: nat): seq<Message> {
    if stream == [] then []
    else
      var m := stream[|stream| - 1];
      Select(cfg, stream[..|stream| - 1], low, high) + if Due(cfg, m) && low < m.sequence <= high then [m] else []
  }

  /** Whatever comes at some place of the pipeline, all earlier due messages above `low` come before it. */
  ghost predicate InOrder(cfg: Config, stream: seq<Message>, low: nat, pipeline: seq<Message>) {
    forall i, m | 0 <= i < |pipeline| && m in stream ::
      Due(cfg, m) && low < m.sequence < pipeline[i].sequence ==> m in pipeline[..i]
  }

  // ---------------------------------------------------------------- selecting from the stream

  lemma {:induction false} SelectMembers(cfg: Config, stream: seq<Message>, low: nat, high: nat)
    ensures forall m :: m in Select(cfg, stream, low, high) <==>
                          m in stream && Due(cfg, m) && low < m.sequence <= high
  {
    if stream != [] {
      SelectMembers(cfg, stream[..|stream| - 1], low, high);
      assert stream == stream[..|stream| - 1] + [stream[|stream| - 1]];
    }
  }

  lemma {:induction false} SelectNothing(cfg: Config, stream: seq<Message>, low: nat, high: nat)
    requires forall m | m in stream :: !(Due(cfg, m) && low < m.sequence <= high)
    ensures Select(cfg, stream, low, high) == []
  {
    if stream != [] {
      assert stream[|stream| - 1] in stream;
      SelectNothing(cfg, stream[..|stream| - 1], low, high);
    }
  }

  lemma {:induction false} SelectJoins(cfg: Config, stream: seq<Message>, low: nat, mid: nat, high: nat)
    requires Increasing(stream) && low <= mid <= high
    ensures Select(cfg, stream, low, high) == Select(cfg, stream, low, mid) + Select(cfg, stream, mid, high)
  {
    if stream != [] {
      var m := stream[|stream| - 1];
      var before := stream[..|stream| - 1];
      SelectJoins(cfg, before, low, mid, high);
      if m.sequence <= mid {
        SelectNothing(cfg, before, mid, high);
      }
    }
  }

  lemma {:induction false} SelectSame(cfg: Config, stream: seq<Message>, low: nat, high: nat, high': nat)
    requires forall m | m in stream && Due(cfg, m) && low < m.sequence :: m.sequence <= high <==> m.sequence <= high'
    ensures Select(cfg, stream, low, high) == Select(cfg, stream, low, high')
  {
    if stream != [] {
      assert stream[|stream| - 1] in stream;
      SelectSame(cfg, stream[..|stream| - 1], low, high, high');
    }
  }

  /** When nothing else is due in (low, m.sequence], the selection there is `m` itself or empty. */
  lemma {:induction false} SelectOne(cfg: Config, stream: seq<Message>, low: nat, m: Message)
    requires Increasing(stream) && m in stream && low < m.sequence
    requires forall o | o in stream && Due(cfg, o) :: !(low < o.sequence < m.sequence)
    ensures Select(cfg, stream, low, m.sequence) == if Due(cfg, m) then [m] else []
  {
    var last, before := stream[|stream| - 1], stream[..|stream| - 1];
    assert stream == before + [last];
    if last == m {
      SelectNothing(cfg, before, low, m.sequence);
    } else {
      SelectOne(cfg, before, low, m);
    }
  }

  /** The heart of completeness: a batch from an ordered pipeline adds exactly the due messages up to its maximum. */
  lemma {:induction false} BatchSelects(cfg: Config, stream: seq<Message>, low: nat, batch: seq<Message>)
    requires Increasing(stream) && InOrder(cfg, stream, low, batch)
    requires forall m | m in batch :: m in stream && m.sequence >= cfg.startSeq && m.sequence != 0
    ensures NewRows(cfg, low, batch) == Select(cfg, stream, low, Max(low, MaxSequence(batch)))
  {
    if batch == [] {
      SelectNothing(cfg, stream, low, low);
    } else {
      var before, m := batch[..|batch| - 1], batch[|batch| - 1];
      assert batch == before + [m];
      assert m in batch;
      PrefixInOrder(cfg, stream, low, batch, |batch| - 1);
      BatchSelects(cfg, stream, low, before);
      if m.sequence <= Max(low, MaxSequence(before)) {
        OldSequenceAddsNothing(cfg, stream, low, batch);
      } else {
        NewSequenceAddsItself(cfg, stream, low, before, m);
      }
    }
  }

  lemma PrefixInOrder(cfg: Config, stream: seq<Message>, low: nat, batch: seq<Message>, n: nat)
    requires InOrder(cfg, stream, low, batch) && n <= |batch|
    ensures InOrder(cfg, stream, low, batch[..n])
    ensures forall m | m in batch[..n] :: m in batch
  {
    var before := batch[..n];
    forall i, m | 0 <= i < |before| && m in stream && Due(cfg, m) && low < m.sequence < before[i].sequence
      ensures m in before[..i]
    {
      assert before[i] == batch[i] && before[..i] == batch[..i];
    }
  }

  lemma NewSequenceAddsItself(cfg: Config, stream: seq<Message>, low: nat, before: seq<Message>, m: Message)
    requires Increasing(stream) && InOrder(cfg, stream, low, before + [m]) && m in stream
    requires m.sequence >= cfg.startSeq && m.sequence > Max(low, MaxSequence(before))
    ensures Accepted(cfg, low, before, m) <==> cfg.Passes(m)
    ensures var top := Max(low, MaxSequence(before));
            Select(cfg, stream, low, m.sequence) == Select(cfg, stream, low, top) + if cfg.Passes(m) then [m] else []
  {
    MaxSequenceBounds(before);
    var top, batch := Max(low, MaxSequence(before)), before + [m];
    assert batch[|before|] == m && batch[..|before|] == before;
    assert forall k | 0 <= k < |before| :: before[k] in before;
    SelectJoins(cfg, stream, low, top, m.sequence);
    SelectOne(cfg, stream, top, m);
  }

  lemma OldSequenceAddsNothing(cfg: Config, stream: seq<Message>, low: nat, batch: seq<Message>)
    requires Increasing(stream) && InOrder(cfg, stream, low, batch) && batch != []
    requires forall m | m in batch :: m in stream && m.sequence >= cfg.startSeq && m.sequence != 0
    requires var before := batch[..|batch| - 1];
             batch[|batch| - 1].sequence <= Max(low, MaxSequence(before))
    ensures !Accepted(cfg, low, batch[..|batch| - 1], batch[|batch| - 1])
  {
    var before, m := batch[..|batch| - 1], batch[|batch| - 1];
    MaxSequenceBounds(before);
    if m.sequence > low && cfg.Passes(m) {
      assert before != [];
      var k :| 0 <= k < |before| && before[k].sequence == MaxSequence(before);
      assert m in batch;
      CameBefore(cfg, stream, low, batch, m, k);
    }
  }

  /** A due message is in the batch before any later one. */
  lemma CameBefore(cfg: Config, stream: seq<Message>, low: nat, batch: seq<Message>, m: Message, k: nat)
    requires InOrder(cfg, stream, low, batch) && m in stream && Due(cfg, m) && low < m.sequence
    requires k + 1 < |batch| && m.sequence <= batch[k].sequence
    ensures Holds(batch[..|batch| - 1], m.sequence)
  {
    var before := batch[..|batch| - 1];
    if m.sequence < batch[k].sequence {
      assert m in batch[..k];
      var i :| 0 <= i < k && batch[..k][i] == m;
      assert before[i].sequence == m.sequence;
    } else {
      assert before[k].sequence == m.sequence;
    }
  }

  // ---------------------------------------------------------------- the invariant

  ghost predicate TableExact(cfg: Config, s: System) {
    s.table == Select(cfg, s.stream, 0, s.Durable(cfg.key).committed)
  }

  ghost predicate AckedSafe(cfg: Config, s: System) {
    && (forall q | q in s.acked :: q <= s.LastSequence())
    && (forall m | m in s.stream && m.sequence in s.acked && Due(cfg, m) :: m in s.table)
  }

  /** The consumer starts at a resume point, and every message it handed out is pending or acknowledged. */
  ghost predicate ConsumerOk(cfg: Config, s: System) {
    s.consumer.Some? ==>
      var c := s.consumer.value;
      && cfg.startSeq <= c.start <= c.next
      && (c.next <= cfg.startSeq || c.next <= s.LastSequence() + 1)
      && (forall q | q in c.pending :: c.start <= q < c.next)
      && (forall m | m in s.stream && c.start <= m.sequence < c.next ::
            m.sequence in c.pending || m.sequence in s.acked)
      && (forall m | m in s.stream && Due(cfg, m) && m.sequence < c.start :: m in s.table)
  }

  /** Every due message that the consumer will not hand out again is in the table or in this pipeline. */
  ghost predicate Covered(cfg: Config, s: System, pipeline: seq<Message>) {
    && s.consumer.Some?
    && forall m | m in s.stream && Due(cfg, m) && m.sequence < s.consumer.value.next :: m in s.table || m in pipeline
  }

  ghost predicate DeliveryOk(cfg: Config, s: System, job: Job, holds: bool) {
    && (job.phase.Loaded? ==>
          job.phase.resumeAt <= cfg.startSeq || job.phase.resumeAt <= s.Durable(cfg.key).committed + 1)
    && (job.phase.Bound? || job.Working() ==> s.consumer.Some?)
    && (forall m | m in job.pipeline :: m.sequence >= cfg.startSeq)
    && (forall m | m in job.Unacked() && Due(cfg, m) :: m in s.table)
    && (holds && (job.phase.Bound? || job.Working()) ==>
          Covered(cfg, s, job.pipeline) && InOrder(cfg, s.stream, job.Effective().committed, job.pipeline))
  }

  ghost predicate AllDeliveryOk(cfg: Config, s: System) {
    forall j | 0 <= j < |s.jobs| :: DeliveryOk(cfg, s, s.jobs[j], s.Holds(j))
  }

  ghost predicate OrderedInv(cfg: Config, s: System) {
    && Inv(cfg, s)
    && TableExact(cfg, s) && AckedSafe(cfg, s) && ConsumerOk(cfg, s) && AllDeliveryOk(cfg, s)
  }

  // ---------------------------------------------------------------- steps keep it

  /** Jobs other than `j` keep their part when the table and the covered messages only grow. */
  lemma OthersKeepDelivery(cfg: Config, s: System, s': System, j: nat)
    requires AllDeliveryOk(cfg, s) && j < |s.jobs| && |s'.jobs| == |s.jobs|
    requires forall k | 0 <= k < |s.jobs| && k != j :: s'.jobs[k] == s.jobs[k]
    requires s'.stream == s.stream && forall m | m in s.table :: m in s'.table
    requires s.Durable(cfg.key).committed <= s'.Durable(cfg.key).committed
    requires s'.lease == s.lease || s'.lease.None? || s'.lease.value.owner == j
    requires s.consumer.Some? ==> s'.consumer.Some?
    requires s'.consumer.Some? ==>
               forall m | m in s.stream && Due(cfg, m) && m.sequence < s'.consumer.value.next ::
                 || m in s'.table || s'.Holds(j)
                 || (s.consumer.Some? && m.sequence < s.consumer.value.next)
    requires DeliveryOk(cfg, s', s'.jobs[j], s'.Holds(j))
    ensures AllDeliveryOk(cfg, s')
  {
    forall k | 0 <= k < |s'.jobs| ensures DeliveryOk(cfg, s', s'.jobs[k], s'.Holds(k)) {
      if k != j {
        assert DeliveryOk(cfg, s, s.jobs[k], s.Holds(k));
        assert s'.Holds(k) ==> s.Holds(k) && !s'.Holds(j);
      }
    }
  }

  lemma PublishedJob(cfg: Config, s: System, m: Message, k: nat)
    requires OrderedInv(cfg, s) && m.sequence > s.LastSequence() && k < |s.jobs|
    ensures DeliveryOk(cfg, s.(stream := s.stream + [m]), s.jobs[k], s.Holds(k))
  {
    var job := s.jobs[k];
    assert DeliveryOk(cfg, s, job, s.Holds(k)) && JobOk(s, s.Durable(cfg.key), job, s.Holds(k));
    assert forall i | 0 <= i < |job.pipeline| ::
        job.pipeline[i] in job.pipeline && job.pipeline[i].sequence < m.sequence;
    assert Due(cfg, m) && s.consumer.Some? ==> m.sequence >= s.consumer.value.next;
  }

  lemma CommittedBefore(cfg: Config, s: System, m: Message)
    requires OrderedInv(cfg, s) && m.sequence > s.LastSequence()
    ensures s.Durable(cfg.key).committed < m.sequence
  {
  }

  lemma PublishedTable(cfg: Config, s: System, m: Message)
    requires TableExact(cfg, s) && s.Durable(cfg.key).committed < m.sequence
    ensures TableExact(cfg, s.(stream := s.stream + [m]))
  {
    assert (s.stream + [m])[..|s.stream + [m]| - 1] == s.stream;
  }

  lemma PublishedAcks(cfg: Config, s: System, m: Message)
    requires AckedSafe(cfg, s) && m.sequence > s.LastSequence()
    ensures AckedSafe(cfg, s.(stream := s.stream + [m]))
  {
    assert s.(stream := s.stream + [m]).LastSequence() == m.sequence;
  }

  lemma PublishedConsumer(cfg: Config, s: System, m: Message)
    requires ConsumerOk(cfg, s) && m.sequence > s.LastSequence()
    ensures ConsumerOk(cfg, s.(stream := s.stream + [m]))
  {
    assert s.(stream := s.stream + [m]).LastSequence() == m.sequence;
  }

  lemma PublishKeeps(cfg: Config, s: System, m: Message)
    requires OrderedInv(cfg, s) && m.sequence > s.LastSequence()
    requires Inv(cfg, s.(stream := s.stream + [m]))
    ensures OrderedInv(cfg, s.(stream := s.stream + [m]))
  {
    var s' := s.(stream := s.stream + [m]);
    CommittedBefore(cfg, s, m);
    PublishedTable(cfg, s, m);
    PublishedAcks(cfg, s, m);
    PublishedConsumer(cfg, s, m);
    forall k | 0 <= k < |s'.jobs| ensures DeliveryOk(cfg, s', s'.jobs[k], s'.Holds(k)) {
      PublishedJob(cfg, s, m, k);
      assert s'.Holds(k) == s.Holds(k);
    }
  }

  lemma TableUpToCheckpoint(cfg: Config, s: System)
    requires TableExact(cfg, s)
    ensures forall m :: m in s.table <==> m in s.stream && Due(cfg, m) && 0 < m.sequence <= s.Durable(cfg.key).committed
  {
    SelectMembers(cfg, s.stream, 0, s.Durable(cfg.key).committed);
  }

  /** Whichever way the consumer is bound or recreated, it hands out every due message that the table misses. */
  lemma BindMissesNothing(cfg: Config, s: System, j: nat, unusable: bool)
    requires OrderedInv(cfg, s) && CanAct(cfg, true, s, j, Bind(unusable))
    ensures ConsumerOk(cfg, AfterBind(cfg, s, j, unusable))
    ensures forall m | m in s.stream && Due(cfg, m)
                       && m.sequence < AfterBind(cfg, s, j, unusable).consumer.value.next ::
              m in s.table || (s.consumer.Some? && m.sequence < s.consumer.value.next)
    ensures Covered(cfg, AfterBind(cfg, s, j, unusable), [])
  {
    assert DeliveryOk(cfg, s, s.jobs[j], s.Holds(j)) && JobOk(s, s.Durable(cfg.key), s.jobs[j], s.Holds(j));
    TableUpToCheckpoint(cfg, s);
  }

  lemma BindKeeps(cfg: Config, s: System, j: nat, unusable: bool)
    requires OrderedInv(cfg, s) && CanAct(cfg, true, s, j, Bind(unusable))
    requires Inv(cfg, AfterBind(cfg, s, j, unusable))
    ensures OrderedInv(cfg, AfterBind(cfg, s, j, unusable))
  {
    var s' := AfterBind(cfg, s, j, unusable);
    assert DeliveryOk(cfg, s, s.jobs[j], s.Holds(j)) && JobOk(s, s.Durable(cfg.key), s.jobs[j], s.Holds(j));
    BindMissesNothing(cfg, s, j, unusable);
    OthersKeepDelivery(cfg, s, s', j);
  }

  lemma ReceiveKeepsOrder(cfg: Config, s: System, low: nat, pipeline: seq<Message>, m: Message)
    requires InOrder(cfg, s.stream, low, pipeline)
    requires forall o | o in s.stream && Due(cfg, o) && low < o.sequence < m.sequence :: o in pipeline
    ensures InOrder(cfg, s.stream, low, pipeline + [m])
  {
    var p := pipeline + [m];
    forall i, o | 0 <= i < |p| && o in s.stream && Due(cfg, o) && low < o.sequence < p[i].sequence
      ensures o in p[..i]
    {
      if i < |pipeline| {
        assert p[..i] == pipeline[..i];
      } else {
        assert p[..i] == pipeline;
      }
    }
  }

  /** The consumer's account of what it handed out stays right when it hands out one more message. */
  lemma HandOut(cfg: Config, s: System, s': System, m: Message)
    requires StreamOk(s) && ConsumerOk(cfg, s) && FirstDelivery(s, m)
    requires s'.stream == s.stream && s'.acked == s.acked && s'.table == s.table
    requires s'.consumer == AfterDelivery(s, m).consumer
    ensures ConsumerOk(cfg, s')
    ensures forall o | o in s.stream && o.sequence < s'.consumer.value.next ::
              o == m || o.sequence < s.consumer.value.next
  {
    forall o | o in s.stream && s.consumer.value.next <= o.sequence < s'.consumer.value.next ensures o == m {
      SameSequence(s.stream, o, m);
    }
  }

  lemma DeliverKeeps(cfg: Config, s: System, j: nat, m: Message)
    requires OrderedInv(cfg, s) && CanAct(cfg, true, s, j, Deliver(m))
    requires Inv(cfg, AfterAction(cfg, true, s, j, Deliver(m)))
    ensures OrderedInv(cfg, AfterAction(cfg, true, s, j, Deliver(m)))
  {
    var s' := AfterAction(cfg, true, s, j, Deliver(m));
    var job, job' := s.jobs[j], s'.jobs[j];
    assert DeliveryOk(cfg, s, job, s.Holds(j)) && JobOk(s, s.Durable(cfg.key), job, s.Holds(j));
    HandOut(cfg, s, s', m);
    TableUpToCheckpoint(cfg, s);
    ReceiveKeepsOrder(cfg, s, job.Effective().committed, job.pipeline, m);
    assert job'.pipeline == job.pipeline + [m] && job'.Effective() == job.Effective();
    assert Covered(cfg, s', job'.pipeline);
    OthersKeepDelivery(cfg, s, s', j);
  }

  lemma SameSequence(stream: seq<Message>, a: Message, b: Message)
    requires Increasing(stream) && a in stream && b in stream && a.sequence == b.sequence
    ensures a == b
  {
  }

  lemma RedeliverKeeps(cfg: Config, s: System, j: nat, m: Message)
    requires OrderedInv(cfg, s) && CanAct(cfg, true, s, j, Redeliver(m))
    requires Inv(cfg, AfterAction(cfg, true, s, j, Redeliver(m)))
    ensures OrderedInv(cfg, AfterAction(cfg, true, s, j, Redeliver(m)))
  {
    var s' := AfterAction(cfg, true, s, j, Redeliver(m));
    var job := s.jobs[j];
    assert DeliveryOk(cfg, s, job, s.Holds(j)) && JobOk(s, s.Durable(cfg.key), job, s.Holds(j));
    TableUpToCheckpoint(cfg, s);
    if s.Holds(j) {
      ReceiveKeepsOrder(cfg, s, job.Effective().committed, job.pipeline, m);
    }
    OthersKeepDelivery(cfg, s, s', j);
  }

  /** Dropping a processed prefix keeps the rest in order above the new lower bound. */
  lemma RestInOrder(cfg: Config, stream: seq<Message>, low: nat, low': nat, pipeline: seq<Message>, n: nat)
    requires InOrder(cfg, stream, low, pipeline) && low <= low' && n <= |pipeline|
    requires forall m | m in pipeline[..n] && Due(cfg, m) :: m.sequence <= low'
    ensures InOrder(cfg, stream, low', pipeline[n..])
  {
    var rest := pipeline[n..];
    forall i, m | 0 <= i < |rest| && m in stream && Due(cfg, m) && low' < m.sequence < rest[i].sequence
      ensures m in rest[..i]
    {
      assert rest[i] == pipeline[n + i];
      assert m in pipeline[..n + i];
      assert pipeline[..n + i] == pipeline[..n] + rest[..i];
    }
  }

  /** The commit extends the table by exactly the due messages between the two checkpoints. */
  lemma CommitIsExact(cfg: Config, s: System, j: nat, n: nat)
    requires OrderedInv(cfg, s) && CanAct(cfg, true, s, j, CommitBatch(n))
    ensures var s' := AfterCommit(cfg, s, j, n);
            && TableExact(cfg, s')
            && s'.Durable(cfg.key).committed == MaxSequence(s.jobs[j].pipeline[..n])
            && s.Durable(cfg.key).committed == s.jobs[j].progress.committed < s'.Durable(cfg.key).committed
  {
    var job := s.jobs[j];
    assert DeliveryOk(cfg, s, job, s.Holds(j)) && JobOk(s, s.Durable(cfg.key), job, s.Holds(j));
    CommitRises(cfg, s, j, n);
    PipelineSelects(cfg, s.stream, job.progress.committed, job.pipeline, n);
  }

  lemma PipelineSelects(cfg: Config, stream: seq<Message>, low: nat, pipeline: seq<Message>, n: nat)
    requires Increasing(stream) && InOrder(cfg, stream, low, pipeline) && n <= |pipeline|
    requires forall m | m in pipeline :: m in stream && m.sequence >= cfg.startSeq
    requires forall m | m in stream :: m.sequence >= 1
    requires low < MaxSequence(pipeline[..n])
    ensures Select(cfg, stream, 0, low) + NewRows(cfg, low, pipeline[..n])
            == Select(cfg, stream, 0, MaxSequence(pipeline[..n]))
  {
    var batch := pipeline[..n];
    PrefixInOrder(cfg, stream, low, pipeline, n);
    BatchSelects(cfg, stream, low, batch);
    SelectJoins(cfg, stream, 0, low, MaxSequence(batch));
  }

  /** After the commit of a batch, its due messages are in the table. */
  lemma BatchInTable(cfg: Config, s: System, j: nat, n: nat)
    requires OrderedInv(cfg, s) && CanAct(cfg, true, s, j, CommitBatch(n))
    ensures var s' := AfterCommit(cfg, s, j, n);
            && (forall m | m in s.table :: m in s'.table)
            && (forall m | m in s.jobs[j].pipeline[..n] && Due(cfg, m) :: m in s'.table)
  {
    var s' := AfterCommit(cfg, s, j, n);
    var job, batch := s.jobs[j], s.jobs[j].pipeline[..n];
    assert JobOk(s, s.Durable(cfg.key), job, s.Holds(j));
    CommitIsExact(cfg, s, j, n);
    MaxSequenceBounds(batch);
    SelectMembers(cfg, s.stream, 0, s'.Durable(cfg.key).committed);
    BatchOfPipeline(s, job, n);
  }

  /** What is due of the batch is then in the table, and the rest of the pipeline is in order. */
  lemma CommitDelivery(cfg: Config, s: System, j: nat, n: nat)
    requires OrderedInv(cfg, s) && CanAct(cfg, true, s, j, CommitBatch(n))
    ensures var s' := AfterCommit(cfg, s, j, n);
            && DeliveryOk(cfg, s', s'.jobs[j], s'.Holds(j))
            && (forall m | m in s.table :: m in s'.table)
  {
    var s' := AfterCommit(cfg, s, j, n);
    var job, job' := s.jobs[j], s'.jobs[j];
    var batch, rest := job.pipeline[..n], job.pipeline[n..];
    assert DeliveryOk(cfg, s, job, s.Holds(j)) && JobOk(s, s.Durable(cfg.key), job, s.Holds(j));
    BatchInTable(cfg, s, j, n);
    CommitIsExact(cfg, s, j, n);
    var high := s'.Durable(cfg.key).committed;
    MaxSequenceBounds(batch);
    assert job.pipeline == batch + rest;
    BatchOfPipeline(s, job, n);
    RestInOrder(cfg, s.stream, job.progress.committed, high, job.pipeline, n);
    CoveredRest(cfg, s, s', batch, rest);
    assert job'.Effective().committed == high && job'.pipeline == rest && job'.Unacked() == batch;
  }

  lemma BatchOfPipeline(s: System, job: Job, n: nat)
    requires n <= |job.pipeline| && forall m | m in job.pipeline :: m in s.stream
    ensures forall m | m in job.pipeline[..n] :: m in job.pipeline && m in s.stream
    ensures forall m | m in job.pipeline[n..] :: m in job.pipeline && m in s.stream
  {
  }

  /** A processed batch whose due messages are in the table leaves the rest of the pipeline to cover. */
  lemma CoveredRest(cfg: Config, s: System, s': System, batch: seq<Message>, rest: seq<Message>)
    requires Covered(cfg, s, batch + rest)
    requires s'.stream == s.stream && s'.consumer == s.consumer
    requires forall m | m in s.table :: m in s'.table
    requires forall m | m in batch && Due(cfg, m) :: m in s'.table
    ensures Covered(cfg, s', rest)
  {
  }

  lemma CommitKeeps(cfg: Config, s: System, j: nat, n: nat)
    requires OrderedInv(cfg, s) && CanAct(cfg, true, s, j, CommitBatch(n))
    requires Inv(cfg, AfterCommit(cfg, s, j, n))
    ensures OrderedInv(cfg, AfterCommit(cfg, s, j, n))
  {
    var s' := AfterCommit(cfg, s, j, n);
    CommitIsExact(cfg, s, j, n);
    CommitDelivery(cfg, s, j, n);
    OthersKeepDelivery(cfg, s, s', j);
    GrowingTableKeeps(cfg, s, s');
  }

  lemma GrowingTableKeeps(cfg: Config, s: System, s': System)
    requires AckedSafe(cfg, s) && ConsumerOk(cfg, s)
    requires s'.stream == s.stream && s'.acked == s.acked && s'.consumer == s.consumer
    requires forall m | m in s.table :: m in s'.table
    ensures AckedSafe(cfg, s') && ConsumerOk(cfg, s')
  {
  }

  lemma SkipDelivery(cfg: Config, s: System, j: nat, n: nat)
    requires OrderedInv(cfg, s) && CanAct(cfg, true, s, j, SkipBatch(n))
    ensures var s' := AfterAction(cfg, true, s, j, SkipBatch(n));
            SameStore(s, s') && DeliveryOk(cfg, s', s'.jobs[j], s'.Holds(j))
  {
    var s' := AfterAction(cfg, true, s, j, SkipBatch(n));
    var job, job' := s.jobs[j], s'.jobs[j];
    var batch, rest, low := job.pipeline[..n], job.pipeline[n..], job.progress.committed;
    assert DeliveryOk(cfg, s, job, s.Holds(j)) && JobOk(s, s.Durable(cfg.key), job, s.Holds(j));
    BatchOfPipeline(s, job, n);
    TableUpToCheckpoint(cfg, s);
    forall m | m in batch && Due(cfg, m) ensures m.sequence <= low && m in s.table {
      if m.sequence > low {
        forall o | o in batch && o.sequence == m.sequence ensures o == m { SameSequence(s.stream, o, m); }
        NewRowsComplete(cfg, low, batch, m);
      }
    }
    assert job.pipeline == batch + rest;
    assert job'.pipeline == rest && job'.Unacked() == batch && job'.Effective() == job.Effective();
    if s.Holds(j) {
      RestInOrder(cfg, s.stream, low, low, job.pipeline, n);
      CoveredRest(cfg, s, s', batch, rest);
    }
  }

  lemma SkipKeeps(cfg: Config, s: System, j: nat, n: nat)
    requires OrderedInv(cfg, s) && CanAct(cfg, true, s, j, SkipBatch(n))
    requires Inv(cfg, AfterAction(cfg, true, s, j, SkipBatch(n)))
    ensures OrderedInv(cfg, AfterAction(cfg, true, s, j, SkipBatch(n)))
  {
    var s' := AfterAction(cfg, true, s, j, SkipBatch(n));
    SkipDelivery(cfg, s, j, n);
    OthersKeepDelivery(cfg, s, s', j);
    SameStoreKeeps(cfg, s, s');
  }

  /** What is acknowledged is in the table, if it is due, and no longer pending. */
  lemma AckStore(cfg: Config, s: System, j: nat)
    requires OrderedInv(cfg, s) && CanAct(cfg, true, s, j, Ack)
    ensures var s' := AfterAck(s, j); AckedSafe(cfg, s') && ConsumerOk(cfg, s')
  {
    var job := s.jobs[j];
    assert DeliveryOk(cfg, s, job, s.Holds(j)) && JobOk(s, s.Durable(cfg.key), job, s.Holds(j));
    var m := job.phase.acks[0];
    assert m in job.Unacked();
    forall o | o in s.stream && o.sequence == m.sequence && Due(cfg, o) ensures o in s.table {
      SameSequence(s.stream, o, m);
    }
  }

  lemma AckDelivery(cfg: Config, s: System, j: nat)
    requires OrderedInv(cfg, s) && CanAct(cfg, true, s, j, Ack)
    ensures var s' := AfterAck(s, j); DeliveryOk(cfg, s', s'.jobs[j], s'.Holds(j))
  {
    assert DeliveryOk(cfg, s, s.jobs[j], s.Holds(j));
    assert forall m | m in AfterAck(s, j).jobs[j].Unacked() :: m in s.jobs[j].Unacked();
  }

  lemma AckKeeps(cfg: Config, s: System, j: nat)
    requires OrderedInv(cfg, s) && CanAct(cfg, true, s, j, Ack)
    requires Inv(cfg, AfterAck(s, j))
    ensures OrderedInv(cfg, AfterAck(s, j))
  {
    AckStore(cfg, s, j);
    AckDelivery(cfg, s, j);
    OthersKeepDelivery(cfg, s, AfterAck(s, j), j);
  }

  predicate Quiet(action: Action) {
    || action.Claim? || action.Load? || action.Start? || action.FinishCommit? || action.NextBatch?
    || action.Renew? || action.Release? || action.Crash?
  }

  /** Everything but the jobs, the lease, the clock and the registry is the same. */
  ghost predicate SameStore(s: System, s': System) {
    && s'.stream == s.stream && s'.consumer == s.consumer && s'.acked == s.acked
    && s'.table == s.table && s'.keyed == s.keyed
  }

  lemma QuietDelivery(cfg: Config, s: System, j: nat, action: Action)
    requires OrderedInv(cfg, s) && CanAct(cfg, true, s, j, action) && Quiet(action)
    ensures var s' := AfterAction(cfg, true, s, j, action);
            SameStore(s, s') && DeliveryOk(cfg, s', s'.jobs[j], s'.Holds(j))
  {
    if action.Claim? || action.Load? || action.Start? {
      StartingDelivery(cfg, s, j, action);
    } else {
      LaterDelivery(cfg, s, j, action);
    }
  }

  lemma StartingDelivery(cfg: Config, s: System, j: nat, action: Action)
    requires OrderedInv(cfg, s) && CanAct(cfg, true, s, j, action) && (action.Claim? || action.Load? || action.Start?)
    ensures var s' := AfterAction(cfg, true, s, j, action);
            SameStore(s, s') && DeliveryOk(cfg, s', s'.jobs[j], s'.Holds(j))
  {
    var job := s.jobs[j];
    assert DeliveryOk(cfg, s, job, s.Holds(j)) && JobOk(s, s.Durable(cfg.key), job, s.Holds(j));
    LoadReadsDurable(cfg, s);
  }

  /** A job that goes on working keeps its pipeline and its progress. */
  lemma DeliveryStays(cfg: Config, s: System, s': System, job: Job, job': Job, held: bool, held': bool)
    requires SameStore(s, s') && DeliveryOk(cfg, s, job, held)
    requires !job'.phase.Loaded? && !job'.phase.Bound? && (job'.Working() ==> job.Working())
    requires forall m | m in job'.pipeline :: m in job.pipeline
    requires forall m | m in job'.Unacked() :: m in job.Unacked()
    requires held' && job'.Working() ==>
               held && job'.pipeline == job.pipeline && job'.Effective().committed == job.Effective().committed
    ensures DeliveryOk(cfg, s', job', held')
  {
  }

  lemma LaterDelivery(cfg: Config, s: System, j: nat, action: Action)
    requires OrderedInv(cfg, s) && CanAct(cfg, true, s, j, action) && Quiet(action)
    requires !action.Claim? && !action.Load? && !action.Start?
    ensures var s' := AfterAction(cfg, true, s, j, action);
            SameStore(s, s') && DeliveryOk(cfg, s', s'.jobs[j], s'.Holds(j))
  {
    var s' := AfterAction(cfg, true, s, j, action);
    DeliveryStays(cfg, s, s', s.jobs[j], s'.jobs[j], s.Holds(j), s'.Holds(j));
  }

  lemma QuietKeeps(cfg: Config, s: System, j: nat, action: Action)
    requires OrderedInv(cfg, s) && CanAct(cfg, true, s, j, action) && Quiet(action)
    requires Inv(cfg, AfterAction(cfg, true, s, j, action))
    ensures OrderedInv(cfg, AfterAction(cfg, true, s, j, action))
  {
    var s' := AfterAction(cfg, true, s, j, action);
    QuietDelivery(cfg, s, j, action);
    OthersKeepDelivery(cfg, s, s', j);
    SameStoreKeeps(cfg, s, s');
  }

  lemma SameStoreKeeps(cfg: Config, s: System, s': System)
    requires OrderedInv(cfg, s) && SameStore(s, s')
    ensures TableExact(cfg, s') && AckedSafe(cfg, s') && ConsumerOk(cfg, s')
  {
  }

  lemma RestKeeps(cfg: Config, s: System, step: Step)
    requires OrderedInv(cfg, s) && Enabled(cfg, true, s, step)
    requires step.Tick? || step.Launch? || (step.Act? && (step.action.Persist? || step.action.CompactLog?))
    requires Inv(cfg, Apply(cfg, true, s, step))
    ensures OrderedInv(cfg, Apply(cfg, true, s, step))
  {
    var s' := Apply(cfg, true, s, step);
    assert SameStore(s, s') && s'.lease == s.lease;
    SameStoreKeeps(cfg, s, s');
    SameJobsKeep(cfg, s, s');
  }

  lemma SameJobsKeep(cfg: Config, s: System, s': System)
    requires AllDeliveryOk(cfg, s) && SameStore(s, s') && s'.lease == s.lease && LeaseOk(s)
    requires || s'.jobs == s.jobs
             || exists job: Job :: s'.jobs == s.jobs + [job] && job.phase.Created? && job.pipeline == []
    ensures AllDeliveryOk(cfg, s')
  {
    forall k | 0 <= k < |s'.jobs| ensures DeliveryOk(cfg, s', s'.jobs[k], s'.Holds(k)) {
      if k < |s.jobs| {
        assert DeliveryOk(cfg, s, s.jobs[k], s.Holds(k));
        assert s'.jobs[k] == s.jobs[k] && s'.Holds(k) == s.Holds(k);
      }
    }
  }

  lemma OrderedStep(cfg: Config, s: System, step: Step)
    requires cfg.resume && OrderedInv(cfg, s) && Enabled(cfg, true, s, step)
    ensures OrderedInv(cfg, Apply(cfg, true, s, step))
  {
    StepKeepsInv(cfg, true, s, step);
    match step
    case Publish(m) => PublishKeeps(cfg, s, m);
    case Act(j, action) => OrderedAct(cfg, s, j, action);
    case _ => RestKeeps(cfg, s, step);
  }

  lemma OrderedAct(cfg: Config, s: System, j: nat, action: Action)
    requires cfg.resume && OrderedInv(cfg, s) && CanAct(cfg, true, s, j, action)
    requires Inv(cfg, AfterAction(cfg, true, s, j, action))
    ensures OrderedInv(cfg, AfterAction(cfg, true, s, j, action))
  {
    match action
    case Bind(unusable) => BindKeeps(cfg, s, j, unusable);
    case Deliver(m) => DeliverKeeps(cfg, s, j, m);
    case Redeliver(m) => RedeliverKeeps(cfg, s, j, m);
    case CommitBatch(n) => CommitKeeps(cfg, s, j, n);
    case SkipBatch(n) => SkipKeeps(cfg, s, j, n);
    case Ack => AckKeeps(cfg, s, j);
    case Persist => RestKeeps(cfg, s, Act(j, action));
    case CompactLog => RestKeeps(cfg, s, Act(j, action));
    case _ => QuietKeeps(cfg, s, j, action);
  }

  lemma {:induction false} ReachableOrdered(cfg: Config, steps: seq<Step>, s: System)
    requires cfg.resume && Reaches(cfg, true, steps, s)
    ensures OrderedInv(cfg, s)
  {
    if steps != [] {
      var before := steps[..|steps| - 1];
      var s0 := Exec(cfg, true, before).value;
      ReachableOrdered(cfg, before, s0);
      OrderedStep(cfg, s0, steps[|steps| - 1]);
    }
  }
}
