/** The ingest protocol as a state machine: one durable consumer, one database, any number of jobs that claim,
    crash, stop and are relaunched (src/nats_ingest.cpp).  Every transaction is one step. */
module IngestProtocol {
  import opened Basics
  import opened Options
  import opened IngestBatch
  import opened IngestLease
  import opened CheckpointLog

  // ---------------------------------------------------------------- state

  /** Where a job stands between LaunchIngestJob and the end of its worker. */
  datatype Phase =
    | Created
    | Claimed
    | Loaded(resumeAt: nat)
    | Bound
    | Running
    | Committed(next: Progress, batch: seq<Message>)  // durable, but not yet copied to the in-memory progress
    | Acking(acks: seq<Message>)
    | Gone

  /** A job object; its index in `System.jobs` is its unique lease owner id.
      `pipeline` holds what the client received and the worker has not taken yet, in order. */
  datatype Job = Job(phase: Phase, token: nat, progress: Progress, snapshot: Option<Progress>, pipeline: seq<Message>)
  {
    predicate Working() {
      phase.Running? || phase.Committed? || phase.Acking?
    }

    predicate Resumed() {
      phase.Loaded? || phase.Bound? || Working()
    }

    function Effective(): Progress {
      if phase.Committed? then phase.next else progress
    }

    function Unacked(): seq<Message> {
      if phase.Committed? then phase.batch else if phase.Acking? then phase.acks else []
    }
  }

  /** The durable consumer: it has handed out every message in [start, next). */
  datatype Consumer = Consumer(start: nat, next: nat, pending: set<nat>)

  datatype System = System(
    stream: seq<Message>,        // messages under the server-side subject filter
    consumer: Option<Consumer>,
    acked: set<nat>,             // every sequence ever acknowledged
    jobs: seq<Job>,
    now: int,
    lease: Option<Lease>,
    log: seq<LogRow>,            // the checkpoint log
    keyed: map<Key, Checkpoint>, // what a keyed checkpoint table would hold
    table: seq<Message>,         // the target table
    registry: Option<Progress>)
  {
    function LastSequence(): nat {
      if stream == [] then 0 else stream[|stream| - 1].sequence
    }

    function Durable(key: Key): Progress {
      if key in keyed then ProgressOf(keyed[key]) else NO_PROGRESS
    }

    predicate Holds(j: nat) {
      j < |jobs| && HeldBy(lease, j, jobs[j].token)
    }

    predicate Is(j: nat) {
      j < |jobs| && !jobs[j].phase.Gone?
    }

    function With(j: nat, job: Job): System
      requires j < |jobs|
    {
      this.(jobs := jobs[j := job])
    }
  }

  const INITIAL := System([], None, {}, [], 0, None, [], map[], [], None)

  function ProgressOf(c: Checkpoint): Progress {
    Progress(c.committed, c.rows, c.batches)
  }

  function CheckpointOf(p: Progress): Checkpoint {
    Checkpoint(p.committed, p.committed, p.rows, p.batches)
  }

  /** The field-wise maximum taken when a job is rehydrated from the registry. */
  function Restored(p: Progress, snapshot: Option<Progress>): Progress {
    match snapshot
    case None => p
    case Some(q) => Progress(Max(p.committed, q.committed), Max(p.rows, q.rows), Max(p.batches, q.batches))
  }

  // ---------------------------------------------------------------- steps

  /** What a job does, or what happens to it. */
  datatype Action =
    | Claim
    | Load
    | Bind(unusable: bool)
    | Start
    | Persist
    | Deliver(first: Message)
    | Redeliver(again: Message)
    | CommitBatch(count: nat)
    | SkipBatch(count: nat)
    | FinishCommit
    | Ack
    | NextBatch
    | CompactLog
    | Renew
    | Release
    | Crash

  datatype Step =
    | Tick(seconds: nat)
    | Publish(message: Message)
    | Launch(rehydrate: bool)
    | LoseDelivery(lost: Message)
    | Act(job: nat, action: Action)

  /** `m` is the next message that the consumer hands out for the first time. */
  ghost predicate FirstDelivery(s: System, m: Message) {
    && s.consumer.Some?
    && m in s.stream && s.consumer.value.next <= m.sequence
    && forall o | o in s.stream && s.consumer.value.next <= o.sequence :: m.sequence <= o.sequence
  }

  predicate Takes(cfg: Config, job: Job, count: nat) {
    job.phase.Running? && 0 < count <= |job.pipeline| && count <= cfg.batchSize
  }

  /** `ordered` is the delivery assumption: first deliveries reach the worker that holds the lease. */
  ghost predicate CanAct(cfg: Config, ordered: bool, s: System, j: nat, action: Action) {
    && s.Is(j)
    && var job := s.jobs[j];
    match action
    case Claim => job.phase.Created? && Claimable(s.lease, j, s.now)
    case Load => job.phase.Claimed?
    case Bind(_) => job.phase.Loaded?
    case Start => job.phase.Bound?
    case Persist => true
    case Deliver(m) => job.Working() && FirstDelivery(s, m) && (ordered ==> s.Holds(j))
    case Redeliver(m) =>
      job.Working() && s.consumer.Some? && m in s.stream && m.sequence in s.consumer.value.pending
    case CommitBatch(n) =>
      Takes(cfg, job, n) && NewRows(cfg, job.progress.committed, job.pipeline[..n]) != [] && s.Holds(j)
    case SkipBatch(n) =>
      Takes(cfg, job, n) && NewRows(cfg, job.progress.committed, job.pipeline[..n]) == []
    case FinishCommit => job.phase.Committed?
    case Ack => job.phase.Acking? && job.phase.acks != []
    case NextBatch => job.phase == Acking([])
    case CompactLog => job.Working()
    case Renew => job.phase.Running? && s.Holds(j)
    case Release => true
    case Crash => true
  }

  ghost predicate Enabled(cfg: Config, ordered: bool, s: System, step: Step) {
    match step
    case Tick(_) => true
    case Publish(m) => m.sequence > s.LastSequence()
    case Launch(rehydrate) => rehydrate ==> s.registry.Some?
    case LoseDelivery(m) => !ordered && FirstDelivery(s, m)
    case Act(j, action) => CanAct(cfg, ordered, s, j, action)
  }

  ghost function AfterAction(cfg: Config, ordered: bool, s: System, j: nat, action: Action): System
    requires CanAct(cfg, ordered, s, j, action)
  {
    var job := s.jobs[j];
    match action
    case Claim =>
      s.With(j, job.(phase := Claimed, token := ClaimedToken(s.lease))).(lease := AfterClaim(s.lease, j, s.now))
    case Load => s.With(j, AfterLoad(cfg, s, job))
    case Bind(unusable) => AfterBind(cfg, s, j, unusable)
    case Start => s.With(j, job.(phase := Running, progress := Restored(job.progress, job.snapshot)))
    case Persist => s.(registry := Some(job.progress))
    case Deliver(m) => AfterDelivery(s.With(j, job.(pipeline := job.pipeline + [m])), m)
    case Redeliver(m) => s.With(j, job.(pipeline := job.pipeline + [m]))
    case CommitBatch(n) => AfterCommit(cfg, s, j, n)
    case SkipBatch(n) => s.With(j, job.(phase := Acking(job.pipeline[..n]), pipeline := job.pipeline[n..]))
    case FinishCommit => s.With(j, job.(phase := Acking(job.phase.batch), progress := job.phase.next))
    case Ack => AfterAck(s, j)
    case NextBatch => s.With(j, job.(phase := Running))
    case CompactLog => s.(log := LogAfter(s.log, Compact), keyed := KeyedAfter(s.keyed, Compact))
    case Renew => s.(lease := AfterFence(s.lease, j, job.token, s.now))
    case Release => s.With(j, job.(phase := Gone, pipeline := [])).(lease := AfterRelease(s.lease, j, job.token))
    case Crash => s.With(j, job.(phase := Gone, pipeline := []))
  }

  ghost function Apply(cfg: Config, ordered: bool, s: System, step: Step): System
    requires Enabled(cfg, ordered, s, step)
  {
    match step
    case Tick(seconds) => s.(now := s.now + seconds)
    case Publish(m) => s.(stream := s.stream + [m])
    case Launch(rehydrate) =>
      s.(jobs := s.jobs + [Job(Created, 0, NO_PROGRESS, if rehydrate then s.registry else None, [])])
    case LoseDelivery(m) => AfterDelivery(s, m)
    case Act(j, action) => AfterAction(cfg, ordered, s, j, action)
  }

  /** LoadCheckpoint, or nothing when the job does not resume from its checkpoint. */
  function AfterLoad(cfg: Config, s: System, job: Job): Job {
    var found := Latest(s.log, cfg.key);
    if cfg.resume && found.Some?
    then job.(phase := Loaded(found.value.committed + 1), progress := ProgressOf(found.value))
    else job.(phase := Loaded(cfg.startSeq))
  }

  /** Binds a consumer without unacknowledged messages; otherwise (re)creates it at the resume point. */
  function AfterBind(cfg: Config, s: System, j: nat, unusable: bool): System
    requires j < |s.jobs| && s.jobs[j].phase.Loaded?
  {
    var start := Max(cfg.startSeq, s.jobs[j].phase.resumeAt);
    var consumer :=
      if s.consumer.Some? && s.consumer.value.pending == {} && !unusable then s.consumer
      else Some(Consumer(start, start, {}));
    s.With(j, s.jobs[j].(phase := Bound)).(consumer := consumer)
  }

  function AfterDelivery(s: System, m: Message): System
    requires s.consumer.Some?
  {
    var c := s.consumer.value;
    s.(consumer := Some(Consumer(c.start, m.sequence + 1, c.pending + {m.sequence})))
  }

  /** One transaction: the rows, the checkpoint and the lease fence. */
  function AfterCommit(cfg: Config, s: System, j: nat, n: nat): System
    requires j < |s.jobs| && n <= |s.jobs[j].pipeline|
  {
    var job := s.jobs[j];
    var batch := job.pipeline[..n];
    var next := NextProgress(cfg, job.progress, batch);
    var upsert := Upsert(cfg.key, CheckpointOf(next));
    s.With(j, job.(phase := Committed(next, batch), pipeline := job.pipeline[n..]))
    .(lease := AfterFence(s.lease, j, job.token, s.now),
      table := s.table + NewRows(cfg, job.progress.committed, batch),
      log := LogAfter(s.log, upsert),
      keyed := KeyedAfter(s.keyed, upsert))
  }

  function AfterAck(s: System, j: nat): System
    requires j < |s.jobs| && s.jobs[j].phase.Acking? && s.jobs[j].phase.acks != []
  {
    var job := s.jobs[j];
    var sequence := job.phase.acks[0].sequence;
    s.With(j, job.(phase := Acking(job.phase.acks[1..])))
    .(acked := s.acked + {sequence},
      consumer := if s.consumer.None? then None
                  else Some(s.consumer.value.(pending := s.consumer.value.pending - {sequence})))
  }

  // ---------------------------------------------------------------- runs

  /** The state after a run, None if some step of it was not possible. */
  ghost function Exec(cfg: Config, ordered: bool, steps: seq<Step>): Option<System> {
    if steps == [] then Some(INITIAL)
    else
      var before, step := Exec(cfg, ordered, steps[..|steps| - 1]), steps[|steps| - 1];
      if before.Some? && Enabled(cfg, ordered, before.value, step) then Some(Apply(cfg, ordered, before.value, step))
      else None
  }

  ghost predicate Reaches(cfg: Config, ordered: bool, steps: seq<Step>, s: System) {
    Exec(cfg, ordered, steps) == Some(s)
  }

  lemma Extend(cfg: Config, ordered: bool, steps: seq<Step>, s: System, step: Step)
    requires Reaches(cfg, ordered, steps, s) && Enabled(cfg, ordered, s, step)
    ensures Reaches(cfg, ordered, steps + [step], Apply(cfg, ordered, s, step))
  {
    assert (steps + [step])[..|steps|] == steps;
  }

  /** One more step of a run. */
  lemma Do(cfg: Config, ordered: bool, steps: seq<Step>, s: System, step: Step) returns (steps': seq<Step>, s': System)
    requires Reaches(cfg, ordered, steps, s) && Enabled(cfg, ordered, s, step)
    ensures steps' == steps + [step] && s' == Apply(cfg, ordered, s, step) && Reaches(cfg, ordered, steps', s')
  {
    Extend(cfg, ordered, steps, s, step);
    steps', s' := steps + [step], Apply(cfg, ordered, s, step);
  }
}
