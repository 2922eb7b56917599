/** The worker object runs the protocol: one turn of its loop is a commit with the compaction and the registry write
    that follow it, or a skipped batch, the acknowledgements and a renewal, as steps of a possible run, from and to a
    state that the object mirrors. */
module IngestRefinement {
  import opened Basics
  import opened Options
  import opened CheckpointLog
  import opened IngestBatch
  import opened IngestLease
  import opened IngestProtocol
  import opened IngestSafety
  import P = PrefetchSource
  import W = IngestWorker

  // ---------------------------------------------------------------- a turn as steps

  function Acks(j: nat, n: nat): seq<Step> {
    if n == 0 then [] else [Act(j, Ack)] + Acks(j, n - 1)
  }

  function Optionally(taken: bool, step: Step): seq<Step> {
    if taken then [step] else []
  }

  /** The renewal after a skipped batch; a worker whose lease is lost ends. */
  function RenewalSteps(j: nat, renewal: Renewal): seq<Step> {
    match renewal
    case NotDue => []
    case Renewed => [Act(j, Renew)]
    case Lost => [Act(j, Release)]
  }

  /** The commit of `n` messages and what follows it in the database. */
  function CommitSteps(j: nat, n: nat, compacted: bool, persisted: bool): seq<Step> {
    [Act(j, CommitBatch(n))] + [Act(j, FinishCommit)] + Optionally(compacted, Act(j, CompactLog))
    + Optionally(persisted, Act(j, Persist))
  }

  /** A turn on `n` messages: their commit, or dropping them, then an acknowledgement for each; or the job's end. */
  function TurnSteps(j: nat, n: nat, outcome: W.Outcome): seq<Step> {
    match outcome
    case Skipped(renewal) => [Act(j, SkipBatch(n))] + Acks(j, n) + [Act(j, NextBatch)] + RenewalSteps(j, renewal)
    case Committed(compacted, persisted) =>
      CommitSteps(j, n, compacted, persisted) + Acks(j, n) + [Act(j, NextBatch)]
    case LeaseLost => [Act(j, Release)]
  }

  function Sequences(messages: seq<Message>): set<nat> {
    if messages == [] then {} else {messages[0].sequence} + Sequences(messages[1..])
  }

  function Settled(c: Option<Consumer>, messages: seq<Message>): Option<Consumer> {
    if c.None? then None else Some(c.value.(pending := c.value.pending - Sequences(messages)))
  }

  /** All of `acks` are acknowledged. */
  function AfterAcks(s: System, j: nat, acks: seq<Message>): System
    requires j < |s.jobs|
  {
    s.With(j, s.jobs[j].(phase := Acking([])))
    .(acked := s.acked + Sequences(acks), consumer := Settled(s.consumer, acks))
  }

  lemma FirstAck(s: System, j: nat, acks: seq<Message>)
    requires j < |s.jobs| && s.jobs[j].phase == Acking(acks) && acks != []
    ensures AfterAcks(AfterAck(s, j), j, acks[1..]) == AfterAcks(s, j, acks)
  {
    var s1 := AfterAck(s, j);
    assert s1.acked + Sequences(acks[1..]) == s.acked + Sequences(acks);
    if s.consumer.Some? {
      var pending := s.consumer.value.pending;
      assert pending - {acks[0].sequence} - Sequences(acks[1..]) == pending - Sequences(acks);
    }
    assert AfterAcks(s1, j, acks[1..]).jobs == AfterAcks(s, j, acks).jobs;
  }

  lemma NoAcks(s: System, j: nat)
    requires j < |s.jobs| && s.jobs[j].phase == Acking([])
    ensures AfterAcks(s, j, []) == s
  {
    assert s.jobs[j := s.jobs[j].(phase := Acking([]))] == s.jobs;
    assert s.consumer.Some? ==> s.consumer.value.pending - {} == s.consumer.value.pending;
    assert s.acked + {} == s.acked;
  }

  lemma {:induction false} AckAll(cfg: Config, ordered: bool, steps: seq<Step>, s: System, j: nat, acks: seq<Message>)
    requires Reaches(cfg, ordered, steps, s) && j < |s.jobs| && s.jobs[j].phase == Acking(acks)
    ensures Reaches(cfg, ordered, steps + Acks(j, |acks|), AfterAcks(s, j, acks))
    decreases |acks|
  {
    if acks == [] {
      assert steps + [] == steps;
      NoAcks(s, j);
    } else {
      Extend(cfg, ordered, steps, s, Act(j, Ack));
      FirstAck(s, j, acks);
      AckAll(cfg, ordered, steps + [Act(j, Ack)], AfterAck(s, j), j, acks[1..]);
      assert steps + [Act(j, Ack)] + Acks(j, |acks| - 1) == steps + Acks(j, |acks|);
    }
  }

  function Finished(s: System, j: nat, acks: seq<Message>): System
    requires j < |s.jobs|
  {
    s.With(j, s.jobs[j].(phase := Running)).(acked := s.acked + Sequences(acks), consumer := Settled(s.consumer, acks))
  }

  /** The end of a turn: everything taken is acknowledged, and the worker goes on. */
  lemma FinishTurn(cfg: Config, ordered: bool, steps: seq<Step>, s: System, j: nat, acks: seq<Message>)
    requires Reaches(cfg, ordered, steps, s) && j < |s.jobs| && s.jobs[j].phase == Acking(acks)
    ensures Reaches(cfg, ordered, steps + Acks(j, |acks|) + [Act(j, NextBatch)], Finished(s, j, acks))
  {
    AckAll(cfg, ordered, steps, s, j, acks);
    var s1 := AfterAcks(s, j, acks);
    Extend(cfg, ordered, steps + Acks(j, |acks|), s1, Act(j, NextBatch));
    assert s1.With(j, s1.jobs[j].(phase := Running)).jobs == Finished(s, j, acks).jobs;
  }

  /** Everything taken in a turn is acknowledged, and the worker goes on. */
  function Acknowledged(s: System, j: nat, progress: Progress, n: nat): System
    requires j < |s.jobs| && n <= |s.jobs[j].pipeline|
  {
    var job := s.jobs[j];
    s.With(j, job.(phase := Running, progress := progress, pipeline := job.pipeline[n..]))
    .(acked := s.acked + Sequences(job.pipeline[..n]), consumer := Settled(s.consumer, job.pipeline[..n]))
  }

  lemma Joined(steps: seq<Step>, first: seq<Step>, acks: seq<Step>, last: seq<Step>)
    ensures ((steps + first) + acks) + last == steps + ((first + acks) + last)
  {
  }

  lemma FinishedIsAcknowledged(s: System, j: nat, progress: Progress, n: nat)
    requires j < |s.jobs| && n <= |s.jobs[j].pipeline|
    ensures var job := s.jobs[j]; var batch := job.pipeline[..n];
            var taken := job.(phase := Acking(batch), progress := progress, pipeline := job.pipeline[n..]);
            Finished(s.With(j, taken), j, batch) == Acknowledged(s, j, progress, n)
  {
    var job := s.jobs[j]; var batch := job.pipeline[..n];
    var taken := job.(phase := Acking(batch), progress := progress, pipeline := job.pipeline[n..]);
    assert Finished(s.With(j, taken), j, batch).jobs == Acknowledged(s, j, progress, n).jobs;
  }

  /** The state after the renewal that follows a skipped batch. */
  function Renewing(s: System, j: nat, renewal: Renewal): System
    requires j < |s.jobs|
  {
    match renewal
    case NotDue => s
    case Renewed => s.(lease := AfterFence(s.lease, j, s.jobs[j].token, s.now))
    case Lost => s.With(j, s.jobs[j].(phase := Gone, pipeline := []))
  }

  /** A lease is renewed while it is held, and lost when it is not. */
  ghost predicate CanRenew(s: System, j: nat, renewal: Renewal) {
    (renewal.Renewed? ==> s.Holds(j)) && (renewal.Lost? ==> !s.Holds(j))
  }

  lemma RenewalRuns(cfg: Config, ordered: bool, steps: seq<Step>, s: System, j: nat, renewal: Renewal)
    requires Reaches(cfg, ordered, steps, s) && j < |s.jobs| && s.jobs[j].phase.Running? && CanRenew(s, j, renewal)
    ensures Reaches(cfg, ordered, steps + RenewalSteps(j, renewal), Renewing(s, j, renewal))
  {
    match renewal
    case NotDue => assert steps + [] == steps;
    case Renewed => Extend(cfg, ordered, steps, s, Act(j, Renew));
    case Lost => Extend(cfg, ordered, steps, s, Act(j, Release));
  }

  lemma SkippedTurn(cfg: Config, ordered: bool, steps: seq<Step>, s: System, j: nat, n: nat, renewal: Renewal)
    requires Reaches(cfg, ordered, steps, s) && CanAct(cfg, ordered, s, j, SkipBatch(n)) && CanRenew(s, j, renewal)
    ensures Reaches(cfg, ordered, steps + TurnSteps(j, n, W.Skipped(renewal)),
                    Renewing(Acknowledged(s, j, s.jobs[j].progress, n), j, renewal))
  {
    var batch, s' := s.jobs[j].pipeline[..n], Acknowledged(s, j, s.jobs[j].progress, n);
    var turn := [Act(j, SkipBatch(n))] + Acks(j, n) + [Act(j, NextBatch)];
    var steps1, s1 := Do(cfg, ordered, steps, s, Act(j, SkipBatch(n)));
    FinishTurn(cfg, ordered, steps1, s1, j, batch);
    Joined(steps, [Act(j, SkipBatch(n))], Acks(j, n), [Act(j, NextBatch)]);
    FinishedIsAcknowledged(s, j, s.jobs[j].progress, n);
    RenewalRuns(cfg, ordered, steps + turn, s', j, renewal);
    assert steps + turn + RenewalSteps(j, renewal) == steps + (turn + RenewalSteps(j, renewal));
  }

  /** What the committed transaction of `n` messages makes durable. */
  function Durably(cfg: Config, s: System, j: nat, n: nat): System
    requires j < |s.jobs| && n <= |s.jobs[j].pipeline|
  {
    AfterCommit(cfg, s, j, n).(jobs := s.jobs)
  }

  lemma CommitAndCopy(cfg: Config, ordered: bool, steps: seq<Step>, s: System, j: nat, n: nat)
    requires Reaches(cfg, ordered, steps, s) && CanAct(cfg, ordered, s, j, CommitBatch(n))
    ensures var job := s.jobs[j];
            var next := NextProgress(cfg, job.progress, job.pipeline[..n]);
            var done := job.(phase := Acking(job.pipeline[..n]), progress := next, pipeline := job.pipeline[n..]);
            Reaches(cfg, ordered, steps + [Act(j, CommitBatch(n))] + [Act(j, FinishCommit)],
                    Durably(cfg, s, j, n).With(j, done))
  {
    var steps1, s1 := Do(cfg, ordered, steps, s, Act(j, CommitBatch(n)));
    var steps2, s2 := Do(cfg, ordered, steps1, s1, Act(j, FinishCommit));
    assert s2.jobs == Durably(cfg, s, j, n).With(j, s2.jobs[j]).jobs;
  }

  /** The database after the compaction and the registry write that follow a commit. */
  function Maintained(s: System, progress: Progress, compacted: bool, persisted: bool): System {
    s.(log := if compacted then Compacted(s.log) else s.log,
       registry := if persisted then Some(progress) else s.registry)
  }

  lemma CompactRuns(cfg: Config, ordered: bool, steps: seq<Step>, s: System, j: nat, compacted: bool)
    requires Reaches(cfg, ordered, steps, s) && j < |s.jobs| && s.jobs[j].phase.Acking?
    ensures Reaches(cfg, ordered, steps + Optionally(compacted, Act(j, CompactLog)),
                    s.(log := if compacted then Compacted(s.log) else s.log))
  {
    if compacted {
      Extend(cfg, ordered, steps, s, Act(j, CompactLog));
    } else {
      assert steps + [] == steps;
    }
  }

  lemma PersistRuns(cfg: Config, ordered: bool, steps: seq<Step>, s: System, j: nat, persisted: bool)
    requires Reaches(cfg, ordered, steps, s) && j < |s.jobs| && s.jobs[j].phase.Acking?
    ensures Reaches(cfg, ordered, steps + Optionally(persisted, Act(j, Persist)),
                    s.(registry := if persisted then Some(s.jobs[j].progress) else s.registry))
  {
    if persisted {
      Extend(cfg, ordered, steps, s, Act(j, Persist));
    } else {
      assert steps + [] == steps;
    }
  }

  /** A commit and what follows it in the database. */
  lemma CommitRuns(cfg: Config, ordered: bool, steps: seq<Step>, s: System, j: nat, n: nat, compacted: bool,
                   persisted: bool)
    requires Reaches(cfg, ordered, steps, s) && CanAct(cfg, ordered, s, j, CommitBatch(n))
    ensures var job := s.jobs[j];
            var next := NextProgress(cfg, job.progress, job.pipeline[..n]);
            var done := job.(phase := Acking(job.pipeline[..n]), progress := next, pipeline := job.pipeline[n..]);
            Reaches(cfg, ordered, steps + CommitSteps(j, n, compacted, persisted),
                    Maintained(Durably(cfg, s, j, n), next, compacted, persisted).With(j, done))
  {
    var job := s.jobs[j];
    var next := NextProgress(cfg, job.progress, job.pipeline[..n]);
    var done := job.(phase := Acking(job.pipeline[..n]), progress := next, pipeline := job.pipeline[n..]);
    var first, second := [Act(j, CommitBatch(n))] + [Act(j, FinishCommit)], Optionally(compacted, Act(j, CompactLog));
    var s1 := Durably(cfg, s, j, n).With(j, done);
    var s2 := s1.(log := if compacted then Compacted(s1.log) else s1.log);
    CommitAndCopy(cfg, ordered, steps, s, j, n);
    CompactRuns(cfg, ordered, steps + [Act(j, CommitBatch(n))] + [Act(j, FinishCommit)], s1, j, compacted);
    assert steps + [Act(j, CommitBatch(n))] + [Act(j, FinishCommit)] + second == steps + (first + second);
    PersistRuns(cfg, ordered, steps + (first + second), s2, j, persisted);
    assert steps + (first + second) + Optionally(persisted, Act(j, Persist))
        == steps + CommitSteps(j, n, compacted, persisted);
  }

  lemma CommittedTurn(cfg: Config, ordered: bool, steps: seq<Step>, s: System, j: nat, n: nat, compacted: bool,
                      persisted: bool)
    requires Reaches(cfg, ordered, steps, s) && CanAct(cfg, ordered, s, j, CommitBatch(n))
    ensures var next := NextProgress(cfg, s.jobs[j].progress, s.jobs[j].pipeline[..n]);
            Reaches(cfg, ordered, steps + TurnSteps(j, n, W.Committed(compacted, persisted)),
                    Acknowledged(Maintained(Durably(cfg, s, j, n), next, compacted, persisted), j, next, n))
  {
    var job := s.jobs[j];
    var batch := job.pipeline[..n];
    var next := NextProgress(cfg, job.progress, batch);
    var durable := Maintained(Durably(cfg, s, j, n), next, compacted, persisted);
    var s1 := durable.With(j, job.(phase := Acking(batch), progress := next, pipeline := job.pipeline[n..]));
    var first := CommitSteps(j, n, compacted, persisted);
    CommitRuns(cfg, ordered, steps, s, j, n, compacted, persisted);
    FinishTurn(cfg, ordered, steps + first, s1, j, batch);
    Joined(steps, first, Acks(j, n), [Act(j, NextBatch)]);
    FinishedIsAcknowledged(durable, j, next, n);
  }

  // ---------------------------------------------------------------- the object

  /** What the protocol knows of a worker object and its database. */
  datatype View = View(owner: nat, token: nat, pipeline: seq<Message>, acked: seq<Message>, appendOnly: bool,
                       record: W.Record)

  /** The pipeline is what the source has received and the worker has not taken. */
  ghost function ViewOf(w: W.Worker): View
    reads w, w.lease, w.store, w.source
  {
    View(w.owner, w.token, w.source.State().Received(), w.acked, w.store.appendOnly, w.Recorded())
  }

  /** What other jobs and readers see of the object is the state's. */
  ghost predicate SameDatabase(v: View, s: System) {
    var r := v.record;
    && s.lease == r.row && s.table == r.table && s.keyed == r.content && (v.appendOnly ==> s.log == r.log)
    && s.registry == r.registry
  }

  /** The object is job `owner` of the state, in its loop. */
  ghost predicate Mirrors(v: View, s: System) {
    && v.owner < |s.jobs| && SameDatabase(v, s)
    && s.jobs[v.owner].phase == Running && s.jobs[v.owner].token == v.token
    && s.jobs[v.owner].progress == v.record.progress && s.jobs[v.owner].pipeline == v.pipeline
    && forall m | m in v.acked :: m.sequence in s.acked
  }

  /** After a turn the object mirrors the state again, or it has failed: then its job has ended in the state, and the
      database is the same. */
  ghost predicate MirrorsOrEnds(v: View, s: System, fails: bool) {
    if fails then v.owner < |s.jobs| && s.jobs[v.owner].phase.Gone? && SameDatabase(v, s) else Mirrors(v, s)
  }

  /** What one turn makes of an object. */
  ghost predicate Turned(cfg: Config, v: View, v': View, n: nat, outcome: W.Outcome, now: int) {
    && n <= |v.pipeline|
    && v'.owner == v.owner && v'.token == v.token && v'.appendOnly == v.appendOnly && v'.pipeline == v.pipeline[n..]
    && v'.acked == (if outcome.LeaseLost? then v.acked else v.acked + v.pipeline[..n])
    && Writes(cfg, v, NewRows(cfg, v.record.progress.committed, v.pipeline[..n]),
              NextProgress(cfg, v.record.progress, v.pipeline[..n]), now, outcome, v'.record)
  }

  /** What it makes of the database. */
  ghost predicate Writes(cfg: Config, v: View, rows: seq<Message>, next: Progress, now: int, outcome: W.Outcome,
                         r': W.Record)
  {
    var r := v.record;
    && Decides(rows, HeldBy(r.row, v.owner, v.token), outcome)
    && r'.row == (if outcome.Renews() then AfterFence(r.row, v.owner, v.token, now) else r.row)
    && r'.registry == (if outcome.Committed? && outcome.persisted then Some(next) else r.registry)
    && if !outcome.Committed? then
         r'.progress == r.progress && r'.table == r.table && r'.content == r.content && r'.log == r.log
       else
         var upsert := Upsert(cfg.key, CheckpointOf(next));
         var log := LogAfter(r.log, upsert);
         && r'.progress == next && r'.table == r.table + rows && r'.content == KeyedAfter(r.content, upsert)
         && (v.appendOnly ==> r'.log == if outcome.compacted then Compacted(log) else log)
  }

  lemma FinishesWrites(w: W.Worker, v: View, rows: seq<Message>, next: Progress, now: int,
                       compactionFails: bool, outcome: W.Outcome, r': W.Record)
    requires w.persistEvery > 0 && w.Finishes(v.record, rows, next, now, compactionFails, outcome, r')
    requires v.owner == w.owner && v.token == w.token && v.appendOnly == w.store.appendOnly
    ensures Writes(w.cfg, v, rows, next, now, outcome, r')
    ensures v.record.valid && !v.appendOnly ==> r'.valid
  {
  }

  /** The outcomes that a turn can have, by the rows of its batch and by who holds the lease. */
  ghost predicate Decides(rows: seq<Message>, held: bool, outcome: W.Outcome) {
    match outcome
    case Skipped(renewal) => rows == [] && (renewal.Renewed? ==> held) && (renewal.Lost? ==> !held)
    case Committed(_, _) => rows != [] && held
    case LeaseLost => rows != [] && !held
  }

  lemma {:induction false} InSequences(messages: seq<Message>, m: Message)
    requires m in messages
    ensures m.sequence in Sequences(messages)
  {
    if m != messages[0] {
      InSequences(messages[1..], m);
    }
  }

  /** The batch that the worker takes is the front of what it has received. */
  lemma BatchIsPipeline(source: P.Source<Message>, size: nat, batch: seq<Message>, rest: P.Source<Message>)
    requires batch == source.Front(size) && source.HasBufferedMessages() && size > 0
    requires rest == source.(nextIndex := source.nextIndex + |batch|, consumed := source.consumed + batch)
    ensures 0 < |batch| <= |source.Received()| && |batch| <= size
    ensures source.Received()[..|batch|] == batch && rest.Received() == source.Received()[|batch|..]
  {
    assert source.Unread() == batch + rest.Unread();
    FrontOf(batch, rest.Unread(), Flatten(source.queue), source.InFlight());
  }

  lemma FrontOf(batch: seq<Message>, unread: seq<Message>, queued: seq<Message>, inFlight: seq<Message>)
    ensures ((batch + unread) + queued) + inFlight == batch + ((unread + queued) + inFlight)
    ensures (((batch + unread) + queued) + inFlight)[..|batch|] == batch
    ensures (((batch + unread) + queued) + inFlight)[|batch|..] == (unread + queued) + inFlight
  {
  }

  /** The state after a turn with the given outcome. */
  function TurnState(cfg: Config, s: System, j: nat, n: nat, outcome: W.Outcome): System
    requires j < |s.jobs| && n <= |s.jobs[j].pipeline|
  {
    var job := s.jobs[j];
    match outcome
    case Skipped(renewal) => Renewing(Acknowledged(s, j, job.progress, n), j, renewal)
    case Committed(compacted, persisted) =>
      var next := NextProgress(cfg, job.progress, job.pipeline[..n]);
      Acknowledged(Maintained(Durably(cfg, s, j, n), next, compacted, persisted), j, next, n)
    case LeaseLost => s.With(j, job.(phase := Gone, pipeline := []))
  }

  /** A turn of job `j` on the first `n` messages of its pipeline can have this outcome. */
  ghost predicate CanTurn(cfg: Config, s: System, j: nat, n: nat, outcome: W.Outcome) {
    && j < |s.jobs| && Takes(cfg, s.jobs[j], n)
    && Decides(NewRows(cfg, s.jobs[j].progress.committed, s.jobs[j].pipeline[..n]), s.Holds(j), outcome)
  }

  /** A turn is a run of the protocol: the commit with its acknowledgements, or the skipped batch with its own, or the
      end of a job that has lost its lease. */
  lemma TurnRuns(cfg: Config, ordered: bool, steps: seq<Step>, s: System, j: nat, n: nat, outcome: W.Outcome)
    requires Reaches(cfg, ordered, steps, s) && CanTurn(cfg, s, j, n, outcome)
    ensures Reaches(cfg, ordered, steps + TurnSteps(j, n, outcome), TurnState(cfg, s, j, n, outcome))
  {
    match outcome
    case Skipped(renewal) => SkippedTurn(cfg, ordered, steps, s, j, n, renewal);
    case Committed(compacted, persisted) => CommittedTurn(cfg, ordered, steps, s, j, n, compacted, persisted);
    case LeaseLost => Extend(cfg, ordered, steps, s, Act(j, Release));
  }

  /** Everything taken, together with what was acknowledged before, is acknowledged. */
  lemma AckedToo(before: seq<Message>, batch: seq<Message>, acked: set<nat>)
    requires forall m | m in before :: m.sequence in acked
    ensures forall m | m in before + batch :: m.sequence in acked + Sequences(batch)
  {
    forall m | m in before + batch ensures m.sequence in acked + Sequences(batch) {
      if m in batch {
        InSequences(batch, m);
      }
    }
  }

  /** A turn of an object that mirrors a state ends in one that mirrors the state after the turn's steps, or, when the
      lease is gone, in one with the same database, where the job has ended. */
  lemma MirroredTurn(cfg: Config, s: System, v: View, v': View, n: nat, outcome: W.Outcome)
    requires Mirrors(v, s) && Turned(cfg, v, v', n, outcome, s.now)
    ensures 0 < n <= cfg.batchSize ==> CanTurn(cfg, s, v.owner, n, outcome)
    ensures MirrorsOrEnds(v', TurnState(cfg, s, v.owner, n, outcome), outcome.Fails())
  {
    AckedToo(v.acked, v.pipeline[..n], s.acked);
  }

  /** With resuming, what holds of every run holds of the object's store and table. */
  lemma ResumedIsSafe(w: W.Worker, ordered: bool, steps: seq<Step>, s: System)
    requires w.cfg.resume && Reaches(w.cfg, ordered, steps, s) && SameDatabase(ViewOf(w), s)
    requires !w.store.appendOnly ==> w.store.Valid()
    ensures w.store.Valid() && Distinct(w.table)
  {
    ReachableInv(w.cfg, ordered, steps, s);
  }

  /** One turn of the object is one run of steps of the protocol from the state that it mirrors, to one that it mirrors
      again; when the lease is gone, the job ends and the database stays as it was.  What is proved of every run of the
      protocol holds of the object: with resuming, no sequence is in its table twice and its checkpoints only rise. */
  method Turn(w: W.Worker, now: int, compactionFails: bool, ghost ordered: bool, ghost steps: seq<Step>,
              ghost s: System)
    returns (outcome: W.Outcome, ghost s': System)
    requires w.Idle() && w.store.Valid() && w.source.HasBufferedMessages()
    requires Reaches(w.cfg, ordered, steps, s) && Mirrors(ViewOf(w), s) && s.now == now
    modifies w, w.writeChunk, w.lease, w.store, w.source
    ensures w.Idle() && Reaches(w.cfg, ordered, steps + TurnSteps(w.owner, old(|w.NextBatch()|), outcome), s')
    ensures MirrorsOrEnds(ViewOf(w), s', outcome.Fails())
    ensures w.cfg.resume ==> w.store.Valid() && Distinct(w.table)
  {
    ghost var n, v := |w.NextBatch()|, ViewOf(w);
    outcome := ViewedTurn(w, now, compactionFails);
    s' := TurnState(w.cfg, s, w.owner, n, outcome);
    MirroredTurn(w.cfg, s, v, ViewOf(w), n, outcome);
    TurnRuns(w.cfg, ordered, steps, s, w.owner, n, outcome);
    if w.cfg.resume {
      ResumedIsSafe(w, ordered, steps + TurnSteps(w.owner, n, outcome), s');
    }
  }

  /** The view after a renewal, and the renewals that it allows. */
  ghost function WithRenewal(v: View, renewal: Renewal, now: int): View {
    if renewal.Renewed? then
      v.(record := v.record.(row := AfterFence(v.record.row, v.owner, v.token, now), lastRenewal := now))
    else
      v
  }

  ghost predicate RenewalDecided(v: View, renewal: Renewal) {
    && (renewal.Renewed? ==> HeldBy(v.record.row, v.owner, v.token))
    && (renewal.Lost? ==> !HeldBy(v.record.row, v.owner, v.token))
  }

  lemma MirroredRenewal(s: System, v: View, renewal: Renewal)
    requires Mirrors(v, s) && RenewalDecided(v, renewal)
    ensures CanRenew(s, v.owner, renewal)
    ensures MirrorsOrEnds(WithRenewal(v, renewal, s.now), Renewing(s, v.owner, renewal), renewal.Lost?)
  {
  }

  /** The head of the loop is a renewal at most: fetching only moves messages within the pipeline. */
  method FetchTurn(w: W.Worker, now: int, ghost ordered: bool, ghost steps: seq<Step>, ghost s: System)
    returns (arrival: W.Arrival, renewal: Renewal, ghost s': System)
    requires w.Idle() && Reaches(w.cfg, ordered, steps, s) && Mirrors(ViewOf(w), s) && s.now == now
    modifies w`lastRenewal, w.source, w.lease
    ensures w.Idle() && (arrival.Ready? ==> w.source.HasBufferedMessages())
    ensures Reaches(w.cfg, ordered, steps + RenewalSteps(w.owner, renewal), s')
    ensures MirrorsOrEnds(ViewOf(w), s', renewal.Lost?)
  {
    ghost var v := ViewOf(w);
    arrival, renewal := ViewedFetch(w, now);
    s' := Renewing(s, w.owner, renewal);
    MirroredRenewal(s, v, renewal);
    RenewalRuns(w.cfg, ordered, steps, s, w.owner, renewal);
  }

  /** FetchIfEmpty, as far as the protocol sees it. */
  method ViewedFetch(w: W.Worker, now: int) returns (arrival: W.Arrival, renewal: Renewal)
    requires w.Idle()
    modifies w`lastRenewal, w.source, w.lease
    ensures w.Idle() && (arrival.Ready? ==> w.source.HasBufferedMessages())
    ensures RenewalDecided(old(ViewOf(w)), renewal) && ViewOf(w) == WithRenewal(old(ViewOf(w)), renewal, now)
  {
    arrival, renewal := w.FetchIfEmpty(now);
    assert arrival.Ready? ==> w.source.State().Unread() != [];
  }

  /** ProcessBatch, as far as the protocol sees it. */
  method ViewedTurn(w: W.Worker, now: int, compactionFails: bool) returns (outcome: W.Outcome)
    requires w.Idle() && w.store.Valid() && w.source.HasBufferedMessages()
    modifies w, w.writeChunk, w.lease, w.store, w.source
    ensures w.Idle() && 0 < old(|w.NextBatch()|) <= w.cfg.batchSize
    ensures Turned(w.cfg, old(ViewOf(w)), ViewOf(w), old(|w.NextBatch()|), outcome, now)
    ensures !w.store.appendOnly ==> w.store.Valid()
  {
    ghost var v, batch, source := ViewOf(w), w.NextBatch(), w.source.State();
    ghost var rest := source.(nextIndex := source.nextIndex + |batch|, consumed := source.consumed + batch);
    ghost var next := NextProgress(w.cfg, w.progress, batch);
    BatchIsPipeline(source, w.cfg.batchSize, batch, rest);
    var chunks;
    outcome, chunks := w.ProcessBatch(now, compactionFails);
    FinishesWrites(w, v, Flatten(chunks), next, now, compactionFails, outcome, w.Recorded());
    assert w.source.State() == rest;
  }
}
