/** What every run of the protocol keeps, with no assumption on delivery: fencing, the holder's view of the
    checkpoint, and no sequence twice.  Holds for jobs that resume from their checkpoint. */
module IngestSafety {
  import opened IngestBatch
  import opened CheckpointLog
  import opened IngestProtocol

  ghost predicate StreamOk(s: System) {
    Increasing(s.stream) && forall m | m in s.stream :: 1 <= m.sequence <= s.LastSequence()
  }

  ghost predicate LeaseOk(s: System) {
    s.lease.Some? ==>
      && s.lease.value.owner < |s.jobs|
      && !s.jobs[s.lease.value.owner].phase.Created?
      && s.jobs[s.lease.value.owner].token == s.lease.value.token
  }

  ghost predicate TableOk(cfg: Config, s: System) {
    var durable := s.Durable(cfg.key);
    && Agree(s.log, s.keyed)
    && durable.committed <= s.LastSequence()
    && durable.rows == |s.table|
    && Distinct(s.table)
    && (forall m | m in s.table :: m in s.stream && cfg.Passes(m) && m.sequence <= durable.committed)
    && (s.registry.Some? ==> AtMost(s.registry.value, durable))
  }

  /** The per-job part; `holds` says that the lease row is this job's. */
  ghost predicate JobOk(s: System, durable: Progress, job: Job, holds: bool) {
    && AtMost(job.progress, durable) && AtMost(job.Effective(), durable)
    && (job.snapshot.Some? ==> AtMost(job.snapshot.value, durable))
    && (job.phase.Created? || job.phase.Claimed? ==> job.progress == NO_PROGRESS)
    && (!job.Working() ==> job.pipeline == [])
    && (forall m | m in job.pipeline :: m in s.stream)
    && (forall m | m in job.Unacked() :: m in s.stream)
    && (holds && job.Resumed() ==> job.Effective() == durable)
  }

  ghost predicate JobsOk(cfg: Config, s: System) {
    forall j | 0 <= j < |s.jobs| :: JobOk(s, s.Durable(cfg.key), s.jobs[j], s.Holds(j))
  }

  ghost predicate Inv(cfg: Config, s: System) {
    StreamOk(s) && LeaseOk(s) && TableOk(cfg, s) && JobsOk(cfg, s)
  }

  /** The view never disagrees with the keyed table, so a load reads the durable progress. */
  lemma LoadReadsDurable(cfg: Config, s: System)
    requires TableOk(cfg, s)
    ensures Latest(s.log, cfg.key).None? <==> cfg.key !in s.keyed
    ensures Latest(s.log, cfg.key).Some? ==> ProgressOf(Latest(s.log, cfg.key).value) == s.Durable(cfg.key)
    ensures Latest(s.log, cfg.key).None? ==> s.Durable(cfg.key) == NO_PROGRESS
  {
    LatestIsLatest(s.log, cfg.key);
    if cfg.key in s.keyed {
      assert IsLatest(s.log, cfg.key, s.keyed[cfg.key]);
    }
    if Latest(s.log, cfg.key).Some? {
      assert IsLatest(s.log, cfg.key, Latest(s.log, cfg.key).value);
    }
  }

  /** What the commit of a batch by the lease holder adds: newer rows only, and a strictly risen checkpoint. */
  lemma CommitRises(cfg: Config, s: System, j: nat, n: nat)
    requires Inv(cfg, s) && CanAct(cfg, false, s, j, CommitBatch(n))
    ensures var s' := AfterCommit(cfg, s, j, n);
            && s.jobs[j].progress == s.Durable(cfg.key)
            && s'.Durable(cfg.key) == s'.jobs[j].Effective()
            && s'.Durable(cfg.key).committed > s.Durable(cfg.key).committed
            && AtMost(s.Durable(cfg.key), s'.Durable(cfg.key))
            && TableOk(cfg, s')
  {
    var s' := AfterCommit(cfg, s, j, n);
    var job := s.jobs[j];
    assert JobOk(s, s.Durable(cfg.key), job, s.Holds(j));
    var batch := job.pipeline[..n];
    var rows := NewRows(cfg, job.progress.committed, batch);
    assert forall m | m in batch :: m in job.pipeline;
    BatchRises(cfg, s, job.progress.committed, batch);
    var next := NextProgress(cfg, job.progress, batch);
    AgreementStep(s.log, s.keyed, Upsert(cfg.key, CheckpointOf(next)));
    assert Agree(s'.log, s'.keyed);
    DistinctConcat(s.table, rows, job.progress.committed);
  }

  /** A batch with new rows ends above the committed sequence, at a sequence of the stream. */
  lemma BatchRises(cfg: Config, s: System, committed: nat, batch: seq<Message>)
    requires StreamOk(s) && (forall m | m in batch :: m in s.stream) && NewRows(cfg, committed, batch) != []
    ensures committed < MaxSequence(batch) <= s.LastSequence()
    ensures Distinct(NewRows(cfg, committed, batch))
    ensures forall m | m in NewRows(cfg, committed, batch) ::
              m in s.stream && cfg.Passes(m) && committed < m.sequence <= MaxSequence(batch)
  {
    NewRowsSound(cfg, committed, batch);
    MaxSequenceBounds(batch);
    var rows := NewRows(cfg, committed, batch);
    assert rows[0] in rows && rows[0] in batch;
    var k :| 0 <= k < |batch| && batch[k].sequence == MaxSequence(batch);
    assert batch[k] in batch;
  }

  lemma DistinctConcat(rows: seq<Message>, more: seq<Message>, bound: nat)
    requires Distinct(rows) && Distinct(more)
    requires forall m | m in rows :: m.sequence <= bound
    requires forall m | m in more :: m.sequence > bound
    ensures Distinct(rows + more)
  {
    var all := rows + more;
    forall i, j | 0 <= i < j < |all| ensures all[i].sequence != all[j].sequence {
      if i < |rows| {
        assert rows[i] in rows;
      }
      if j >= |rows| {
        assert more[j - |rows|] in more;
      } else {
        assert rows[j] in rows;
      }
    }
  }

  /** Replacing one job keeps the others' part of the invariant. */
  lemma OneJobChanged(cfg: Config, s: System, s': System, j: nat)
    requires Inv(cfg, s) && j < |s.jobs| && |s'.jobs| == |s.jobs|
    requires forall k | 0 <= k < |s.jobs| && k != j :: s'.jobs[k] == s.jobs[k]
    requires s'.stream == s.stream && AtMost(s.Durable(cfg.key), s'.Durable(cfg.key))
    requires s'.lease == s.lease || s'.lease.None? || s'.lease.value.owner == j
    requires s'.Durable(cfg.key) == s.Durable(cfg.key) || s.Holds(j)
    requires JobOk(s', s'.Durable(cfg.key), s'.jobs[j], s'.Holds(j))
    ensures JobsOk(cfg, s')
  {
    forall k | 0 <= k < |s'.jobs| ensures JobOk(s', s'.Durable(cfg.key), s'.jobs[k], s'.Holds(k)) {
      if k != j {
        assert JobOk(s, s.Durable(cfg.key), s.jobs[k], s.Holds(k));
      }
    }
  }

  lemma CommitKeepsInv(cfg: Config, s: System, j: nat, n: nat)
    requires Inv(cfg, s) && CanAct(cfg, false, s, j, CommitBatch(n))
    ensures Inv(cfg, AfterCommit(cfg, s, j, n))
  {
    var s' := AfterCommit(cfg, s, j, n);
    CommitRises(cfg, s, j, n);
    var job, job' := s.jobs[j], s'.jobs[j];
    assert JobOk(s, s.Durable(cfg.key), job, s.Holds(j));
    assert job.pipeline == job'.pipeline + job.pipeline[..n] || forall m | m in job'.pipeline :: m in job.pipeline;
    assert forall m | m in job.pipeline[..n] :: m in job.pipeline;
    OneJobChanged(cfg, s, s', j);
  }

  /** The stream, the table, the checkpoint and the registry are the same. */
  ghost predicate SameData(s: System, s': System) {
    && s'.stream == s.stream && s'.table == s.table && s'.registry == s.registry
    && s'.log == s.log && s'.keyed == s.keyed
  }

  lemma SameDataKeeps(cfg: Config, s: System, s': System)
    requires StreamOk(s) && TableOk(cfg, s) && SameData(s, s')
    ensures StreamOk(s') && TableOk(cfg, s') && s'.Durable(cfg.key) == s.Durable(cfg.key)
  {
  }

  /** One job acts, the data stay: what is left to show is that job's part and the lease row's. */
  lemma OneJobActs(cfg: Config, s: System, s': System, j: nat)
    requires Inv(cfg, s) && SameData(s, s') && LeaseOk(s')
    requires j < |s.jobs| == |s'.jobs| && s'.jobs == s.jobs[j := s'.jobs[j]]
    requires s'.lease == s.lease || s'.lease.None? || s'.lease.value.owner == j
    requires JobOk(s', s.Durable(cfg.key), s'.jobs[j], s'.Holds(j))
    ensures Inv(cfg, s')
  {
    SameDataKeeps(cfg, s, s');
    OneJobChanged(cfg, s, s', j);
  }

  predicate OnLease(action: Action) {
    action.Renew? || action.Release? || action.Crash?
  }

  predicate OnPhase(action: Action) {
    action.Load? || action.Bind? || action.Start? || action.FinishCommit? || action.NextBatch? || action.Ack?
  }

  predicate OnPipeline(action: Action) {
    action.Deliver? || action.Redeliver? || action.SkipBatch?
  }

  lemma ClaimKeepsInv(cfg: Config, s: System, j: nat)
    requires Inv(cfg, s) && CanAct(cfg, false, s, j, Claim)
    ensures Inv(cfg, AfterAction(cfg, false, s, j, Claim))
  {
    var s' := AfterAction(cfg, false, s, j, Claim);
    assert JobOk(s, s.Durable(cfg.key), s.jobs[j], s.Holds(j));
    assert JobOk(s', s.Durable(cfg.key), s'.jobs[j], s'.Holds(j));
    OneJobActs(cfg, s, s', j);
  }

  lemma LeaseActionKeepsInv(cfg: Config, s: System, j: nat, action: Action)
    requires Inv(cfg, s) && CanAct(cfg, false, s, j, action) && OnLease(action)
    ensures Inv(cfg, AfterAction(cfg, false, s, j, action))
  {
    var s' := AfterAction(cfg, false, s, j, action);
    var job, job' := s.jobs[j], s'.jobs[j];
    assert JobOk(s, s.Durable(cfg.key), job, s.Holds(j));
    assert job' == job || job' == job.(phase := Gone, pipeline := []);
    assert JobOk(s', s.Durable(cfg.key), job', s'.Holds(j));
    OneJobActs(cfg, s, s', j);
  }

  lemma SetupKeepsJob(cfg: Config, s: System, j: nat, action: Action)
    requires cfg.resume && Inv(cfg, s) && CanAct(cfg, false, s, j, action)
    requires action.Load? || action.Bind? || action.Start?
    ensures var s' := AfterAction(cfg, false, s, j, action);
            JobOk(s', s.Durable(cfg.key), s'.jobs[j], s'.Holds(j))
  {
    assert JobOk(s, s.Durable(cfg.key), s.jobs[j], s.Holds(j));
    LoadReadsDurable(cfg, s);
  }

  lemma FinishKeepsJob(cfg: Config, s: System, j: nat, action: Action)
    requires Inv(cfg, s) && CanAct(cfg, false, s, j, action)
    requires action.FinishCommit? || action.NextBatch? || action.Ack?
    ensures var s' := AfterAction(cfg, false, s, j, action);
            JobOk(s', s.Durable(cfg.key), s'.jobs[j], s'.Holds(j))
  {
    assert JobOk(s, s.Durable(cfg.key), s.jobs[j], s.Holds(j));
    var job' := AfterAction(cfg, false, s, j, action).jobs[j];
    assert forall m | m in job'.Unacked() :: m in s.jobs[j].Unacked();
  }

  lemma PhaseActionKeepsInv(cfg: Config, s: System, j: nat, action: Action)
    requires cfg.resume && Inv(cfg, s) && CanAct(cfg, false, s, j, action) && OnPhase(action)
    ensures Inv(cfg, AfterAction(cfg, false, s, j, action))
  {
    var s' := AfterAction(cfg, false, s, j, action);
    if action.Load? || action.Bind? || action.Start? {
      SetupKeepsJob(cfg, s, j, action);
    } else {
      FinishKeepsJob(cfg, s, j, action);
    }
    assert s'.lease == s.lease && SameData(s, s');
    OneJobActs(cfg, s, s', j);
  }

  lemma PipelineActionKeepsJob(cfg: Config, s: System, j: nat, action: Action)
    requires Inv(cfg, s) && CanAct(cfg, false, s, j, action) && OnPipeline(action)
    ensures var s' := AfterAction(cfg, false, s, j, action);
            JobOk(s', s.Durable(cfg.key), s'.jobs[j], s'.Holds(j))
  {
    var s' := AfterAction(cfg, false, s, j, action);
    var job, job' := s.jobs[j], s'.jobs[j];
    assert JobOk(s, s.Durable(cfg.key), job, s.Holds(j));
    assert forall m | m in job'.pipeline :: m in s.stream;
    assert forall m | m in job'.Unacked() :: m in s.stream;
  }

  lemma PipelineActionKeepsInv(cfg: Config, s: System, j: nat, action: Action)
    requires Inv(cfg, s) && CanAct(cfg, false, s, j, action) && OnPipeline(action)
    ensures Inv(cfg, AfterAction(cfg, false, s, j, action))
  {
    var s' := AfterAction(cfg, false, s, j, action);
    PipelineActionKeepsJob(cfg, s, j, action);
    assert s'.lease == s.lease && SameData(s, s');
    OneJobActs(cfg, s, s', j);
  }

  /** Unchanged jobs stay right when nothing they depend on moves. */
  lemma SameJobs(cfg: Config, s: System, s': System)
    requires Inv(cfg, s) && s'.lease == s.lease && s'.Durable(cfg.key) == s.Durable(cfg.key)
    requires forall m | m in s.stream :: m in s'.stream
    requires s.jobs <= s'.jobs
    requires forall k | |s.jobs| <= k < |s'.jobs| :: JobOk(s', s'.Durable(cfg.key), s'.jobs[k], s'.Holds(k))
    ensures JobsOk(cfg, s') && LeaseOk(s')
  {
    forall k | 0 <= k < |s.jobs| ensures JobOk(s', s'.Durable(cfg.key), s'.jobs[k], s'.Holds(k)) {
      assert JobOk(s, s.Durable(cfg.key), s.jobs[k], s.Holds(k));
      assert s'.jobs[k] == s.jobs[k] && s'.Holds(k) == s.Holds(k);
    }
  }

  lemma StoreActionKeepsInv(cfg: Config, s: System, j: nat, action: Action)
    requires Inv(cfg, s) && CanAct(cfg, false, s, j, action) && (action.CompactLog? || action.Persist?)
    ensures Inv(cfg, AfterAction(cfg, false, s, j, action))
  {
    var s' := AfterAction(cfg, false, s, j, action);
    AgreementStep(s.log, s.keyed, Compact);
    assert JobOk(s, s.Durable(cfg.key), s.jobs[j], s.Holds(j));
    SameJobs(cfg, s, s');
  }

  lemma TickKeepsInv(cfg: Config, s: System, seconds: nat)
    requires Inv(cfg, s)
    ensures Inv(cfg, s.(now := s.now + seconds))
  {
    var s' := s.(now := s.now + seconds);
    SameDataKeeps(cfg, s, s');
    SameJobs(cfg, s, s');
  }

  lemma LaunchKeepsInv(cfg: Config, s: System, rehydrate: bool)
    requires Inv(cfg, s) && (rehydrate ==> s.registry.Some?)
    ensures Inv(cfg, Apply(cfg, false, s, Launch(rehydrate)))
  {
    var s' := Apply(cfg, false, s, Launch(rehydrate));
    SameDataKeeps(cfg, s, s');
    SameJobs(cfg, s, s');
  }

  lemma LossKeepsInv(cfg: Config, s: System, m: Message)
    requires Inv(cfg, s) && s.consumer.Some?
    ensures Inv(cfg, AfterDelivery(s, m))
  {
    SameDataKeeps(cfg, s, AfterDelivery(s, m));
    SameJobs(cfg, s, AfterDelivery(s, m));
  }

  lemma PublishKeepsInv(cfg: Config, s: System, m: Message)
    requires Inv(cfg, s) && m.sequence > s.LastSequence()
    ensures Inv(cfg, s.(stream := s.stream + [m]))
  {
    var s' := s.(stream := s.stream + [m]);
    PublishKeepsStream(s, m);
    SameJobs(cfg, s, s');
  }

  lemma PublishKeepsStream(s: System, m: Message)
    requires StreamOk(s) && m.sequence > s.LastSequence()
    ensures StreamOk(s.(stream := s.stream + [m]))
    ensures s.LastSequence() <= s.(stream := s.stream + [m]).LastSequence()
  {
    var stream := s.stream + [m];
    forall i, j | 0 <= i < j < |stream| ensures stream[i].sequence < stream[j].sequence {
      assert stream[i] in s.stream;
    }
  }

  /** A step that is possible under the delivery assumption is possible without it, and does the same. */
  lemma DropOrdered(cfg: Config, ordered: bool, s: System, step: Step)
    requires Enabled(cfg, ordered, s, step)
    ensures Enabled(cfg, false, s, step)
    ensures Apply(cfg, ordered, s, step) == Apply(cfg, false, s, step)
  {
  }

  lemma StepKeepsInv(cfg: Config, ordered: bool, s: System, step: Step)
    requires cfg.resume && Inv(cfg, s) && Enabled(cfg, ordered, s, step)
    ensures Inv(cfg, Apply(cfg, ordered, s, step))
  {
    DropOrdered(cfg, ordered, s, step);
    if step.Act? && step.action.CommitBatch? {
      CommitKeepsInv(cfg, s, step.job, step.action.count);
    } else if step.Act? && step.action.Claim? {
      ClaimKeepsInv(cfg, s, step.job);
    } else if step.Act? && OnLease(step.action) {
      LeaseActionKeepsInv(cfg, s, step.job, step.action);
    } else if step.Act? && OnPhase(step.action) {
      PhaseActionKeepsInv(cfg, s, step.job, step.action);
    } else if step.Act? && OnPipeline(step.action) {
      PipelineActionKeepsInv(cfg, s, step.job, step.action);
    } else if step.Act? {
      StoreActionKeepsInv(cfg, s, step.job, step.action);
    } else {
      match step
      case Tick(seconds) => TickKeepsInv(cfg, s, seconds);
      case Publish(m) => PublishKeepsInv(cfg, s, m);
      case Launch(rehydrate) => LaunchKeepsInv(cfg, s, rehydrate);
      case LoseDelivery(m) => LossKeepsInv(cfg, s, m);
    }
  }

  /** The invariant holds in every reachable state. */
  lemma {:induction false} ReachableInv(cfg: Config, ordered: bool, steps: seq<Step>, s: System)
    requires cfg.resume && Reaches(cfg, ordered, steps, s)
    ensures Inv(cfg, s)
  {
    if steps != [] {
      var before := steps[..|steps| - 1];
      var s0 := Exec(cfg, ordered, before).value;
      ReachableInv(cfg, ordered, before, s0);
      StepKeepsInv(cfg, ordered, s0, steps[|steps| - 1]);
    }
  }
}
