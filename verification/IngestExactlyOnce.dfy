/** The main results about ingest: exactly-once contents, no loss across acknowledgement and restart, and the
    exact conditions under which they hold. */
module IngestExactlyOnce {
  import opened Basics
  import opened Options
  import opened IngestBatch
  import opened IngestLease
  import opened CheckpointLog
  import opened IngestProtocol
  import opened IngestSafety
  import opened IngestDelivery

  /** The table is the due part of the stream up to the checkpoint, and nothing due is acknowledged but missing. */
  ghost predicate Exact(cfg: Config, s: System) {
    && s.table == Select(cfg, s.stream, 0, s.Durable(cfg.key).committed)
    && forall m | m in s.stream && m.sequence in s.acked && Due(cfg, m) :: m in s.table
  }

  /** Exactly once, in stream order, whatever the interleaving of crashes, takeovers and redeliveries. */
  lemma ExactlyOnce(cfg: Config, steps: seq<Step>, s: System)
    requires cfg.resume && Reaches(cfg, true, steps, s)
    ensures Exact(cfg, s)
    ensures s.Durable(cfg.key).rows == |s.table|
  {
    ReachableOrdered(cfg, steps, s);
  }

  /** A restart, whether it binds the consumer or recreates it, hands out every due message the table misses. */
  lemma RestartMissesNothing(cfg: Config, steps: seq<Step>, s: System, j: nat, unusable: bool, m: Message)
    requires cfg.resume && Reaches(cfg, true, steps, s)
    requires CanAct(cfg, true, s, j, Bind(unusable))
    requires m in s.stream && Due(cfg, m) && m !in s.table
    ensures AfterBind(cfg, s, j, unusable).consumer.value.next <= m.sequence
  {
    ReachableOrdered(cfg, steps, s);
    BindMissesNothing(cfg, s, j, unusable);
  }

  /** While a worker holds the lease, every due message missing from the table waits in its pipeline or is still
      to be handed out. */
  lemma MissingIsOnItsWay(cfg: Config, steps: seq<Step>, s: System, j: nat, m: Message)
    requires cfg.resume && Reaches(cfg, true, steps, s)
    requires s.Holds(j) && s.jobs[j].Working()
    requires m in s.stream && Due(cfg, m) && m !in s.table
    ensures m in s.jobs[j].pipeline || (s.consumer.Some? && s.consumer.value.next <= m.sequence)
  {
    ReachableOrdered(cfg, steps, s);
    assert DeliveryOk(cfg, s, s.jobs[j], s.Holds(j));
  }

  // ---------------------------------------------------------------- when it fails

  /** Every message is delivered to some worker. */
  predicate NoLoss(steps: seq<Step>) {
    forall step | step in steps :: !step.LoseDelivery?
  }

  /** A message that passes the filter, `k` places after the first due sequence. */
  function DueMessage(cfg: Config, k: nat): (m: Message)
    ensures Due(cfg, m) && m.sequence == Max(1, cfg.startSeq) + k
  {
    assert OccursAt(cfg.subjectContains, cfg.subjectContains, 0);
    Message(Max(1, cfg.startSeq) + k, Some(cfg.subjectContains))
  }

  /** A new job claims a lease that is free or has expired. */
  lemma LaunchAndClaim(cfg: Config, ordered: bool, steps: seq<Step>, s: System) returns (steps': seq<Step>, s': System)
    requires Reaches(cfg, ordered, steps, s) && Claimable(s.lease, |s.jobs|, s.now)
    ensures Reaches(cfg, ordered, steps', s') && (NoLoss(steps) ==> NoLoss(steps'))
    ensures s' == s.(jobs := s.jobs + [Job(Claimed, ClaimedToken(s.lease), NO_PROGRESS, None, [])],
                     lease := Some(Lease(|s.jobs|, ClaimedToken(s.lease), s.now + LEASE_SECONDS)))
  {
    steps', s' := Do(cfg, ordered, steps, s, Launch(false));
    steps', s' := Do(cfg, ordered, steps', s', Act(|s.jobs|, Claim));
    assert s'.jobs == s.jobs + [Job(Claimed, ClaimedToken(s.lease), NO_PROGRESS, None, [])];
  }

  /** It finds no checkpoint, or does not look for one, binds its consumer and starts its loop. */
  lemma BindAndStart(cfg: Config, ordered: bool, steps: seq<Step>, s: System, token: nat)
    returns (steps': seq<Step>, s': System)
    requires Reaches(cfg, ordered, steps, s) && (!cfg.resume || s.log == [])
    requires s.jobs != [] && s.jobs[|s.jobs| - 1] == Job(Claimed, token, NO_PROGRESS, None, [])
    ensures Reaches(cfg, ordered, steps', s') && (NoLoss(steps) ==> NoLoss(steps'))
    ensures s' == s.(jobs := s.jobs[|s.jobs| - 1 := Job(Running, token, NO_PROGRESS, None, [])],
                     consumer := if s.consumer.Some? && s.consumer.value.pending == {} then s.consumer
                                 else Some(Consumer(cfg.startSeq, cfg.startSeq, {})))
  {
    var j := |s.jobs| - 1;
    steps', s' := Do(cfg, ordered, steps, s, Act(j, Load));
    steps', s' := Do(cfg, ordered, steps', s', Act(j, Bind(false)));
    steps', s' := Do(cfg, ordered, steps', s', Act(j, Start));
    assert s'.jobs == s.jobs[j := Job(Running, token, NO_PROGRESS, None, [])];
  }

  /** A user starts a job on a free lease; its consumer has to be created or recreated. */
  lemma StartJob(cfg: Config, ordered: bool, steps: seq<Step>, s: System) returns (steps': seq<Step>, s': System)
    requires Reaches(cfg, ordered, steps, s) && s.lease.None?
    requires s.consumer.Some? ==> s.consumer.value.pending != {}
    requires !cfg.resume || s.log == []
    ensures Reaches(cfg, ordered, steps', s') && (NoLoss(steps) ==> NoLoss(steps'))
    ensures s' == s.(jobs := s.jobs + [Job(Running, 2, NO_PROGRESS, None, [])],
                     lease := Some(Lease(|s.jobs|, 2, s.now + LEASE_SECONDS)),
                     consumer := Some(Consumer(cfg.startSeq, cfg.startSeq, {})))
  {
    steps', s' := LaunchAndClaim(cfg, ordered, steps, s);
    steps', s' := BindAndStart(cfg, ordered, steps', s', 2);
    assert s'.jobs == s.jobs + [Job(Running, 2, NO_PROGRESS, None, [])];
  }

  lemma OneRow(cfg: Config, low: nat, m: Message)
    requires Due(cfg, m) && m.sequence > low
    ensures NewRows(cfg, low, [m]) == [m]
    ensures MaxSequence([m]) == m.sequence
  {
    assert [m][..0] == [] && !Holds([], m.sequence);
    assert Accepted(cfg, low, [], m);
    assert MaxSequence([]) == 0;
  }

  lemma NoRow(cfg: Config, low: nat, m: Message)
    requires 0 < m.sequence <= low
    ensures NewRows(cfg, low, [m]) == []
  {
    assert [m][..0] == [];
    assert !Accepted(cfg, low, [], m);
  }

  /** The worker that holds the lease receives one message for the first time and commits it alone. */
  lemma CommitOne(cfg: Config, ordered: bool, steps: seq<Step>, s: System, j: nat, token: nat, m: Message)
    returns (steps': seq<Step>, s': System)
    requires cfg.Valid() && Reaches(cfg, ordered, steps, s)
    requires j < |s.jobs| && s.jobs[j] == Job(Running, token, NO_PROGRESS, None, []) && s.Holds(j)
    requires FirstDelivery(s, m) && Due(cfg, m) && m.sequence > 0
    ensures Reaches(cfg, ordered, steps', s') && (NoLoss(steps) ==> NoLoss(steps'))
    ensures s'.table == s.table + [m] && s'.stream == s.stream && s'.acked == s.acked
    ensures s'.jobs == s.jobs[j := Job(Committed(Progress(m.sequence, 1, 1), [m]), token, NO_PROGRESS, None, [])]
    ensures s'.Durable(cfg.key) == Progress(m.sequence, 1, 1) && s'.Holds(j)
    ensures s'.consumer == AfterDelivery(s, m).consumer
  {
    steps', s' := Do(cfg, ordered, steps, s, Act(j, Deliver(m)));
    assert s'.jobs[j].pipeline == [m];
    steps', s' := CommitReceived(cfg, ordered, steps', s', j, token, m);
    assert s'.jobs == s.jobs[j := s'.jobs[j]];
  }

  lemma CommitReceived(cfg: Config, ordered: bool, steps: seq<Step>, s: System, j: nat, token: nat, m: Message)
    returns (steps': seq<Step>, s': System)
    requires cfg.Valid() && Reaches(cfg, ordered, steps, s)
    requires j < |s.jobs| && s.jobs[j] == Job(Running, token, NO_PROGRESS, None, [m]) && s.Holds(j)
    requires Due(cfg, m) && m.sequence > 0
    ensures Reaches(cfg, ordered, steps', s') && (NoLoss(steps) ==> NoLoss(steps'))
    ensures s'.table == s.table + [m] && s'.stream == s.stream && s'.acked == s.acked
    ensures s'.jobs == s.jobs[j := Job(Committed(Progress(m.sequence, 1, 1), [m]), token, NO_PROGRESS, None, [])]
    ensures s'.Durable(cfg.key) == Progress(m.sequence, 1, 1) && s'.Holds(j)
    ensures s'.consumer == s.consumer
  {
    CanCommitOne(cfg, ordered, s, j, token, m);
    OneRow(cfg, 0, m);
    CommitOfOne(cfg, s, j, token, m);
    steps', s' := Do(cfg, ordered, steps, s, Act(j, CommitBatch(1)));
  }

  lemma CanCommitOne(cfg: Config, ordered: bool, s: System, j: nat, token: nat, m: Message)
    requires cfg.Valid() && j < |s.jobs| && s.jobs[j] == Job(Running, token, NO_PROGRESS, None, [m]) && s.Holds(j)
    requires Due(cfg, m) && m.sequence > 0
    ensures CanAct(cfg, ordered, s, j, CommitBatch(1))
  {
    OneRow(cfg, 0, m);
    var batch := s.jobs[j].pipeline[..1];
    assert batch == [m];
  }

  lemma CommitOfOne(cfg: Config, s: System, j: nat, token: nat, m: Message)
    requires j < |s.jobs| && s.jobs[j] == Job(Running, token, NO_PROGRESS, None, [m]) && s.Holds(j)
    requires NewRows(cfg, 0, [m]) == [m] && MaxSequence([m]) == m.sequence > 0
    ensures AfterCommit(cfg, s, j, 1)
            == s.With(j, Job(Committed(Progress(m.sequence, 1, 1), [m]), token, NO_PROGRESS, None, []))
               .(lease := AfterFence(s.lease, j, token, s.now), table := s.table + [m],
                 log := s.log + [LogRow(cfg.key, Checkpoint(m.sequence, m.sequence, 1, 1))],
                 keyed := s.keyed[cfg.key := Checkpoint(m.sequence, m.sequence, 1, 1)])
  {
    var job := s.jobs[j];
    assert job.pipeline[..1] == [m] && job.pipeline[1..] == [];
    assert NextProgress(cfg, NO_PROGRESS, [m]) == Progress(m.sequence, 1, 1);
  }

  /** A job that stops between committing its only message and acknowledging it. */
  lemma StopsBeforeAck(cfg: Config, ordered: bool) returns (steps: seq<Step>, s: System)
    requires cfg.Valid()
    ensures Reaches(cfg, ordered, steps, s) && NoLoss(steps)
    ensures s.table == [DueMessage(cfg, 0)] && s.stream == [DueMessage(cfg, 0)] && |s.jobs| == 1 && s.lease.None?
    ensures s.consumer.Some? && s.consumer.value.pending == {DueMessage(cfg, 0).sequence}
  {
    steps, s := Do(cfg, ordered, [], INITIAL, Publish(DueMessage(cfg, 0)));
    steps, s := StartJob(cfg, ordered, steps, s);
    steps, s := CommitOne(cfg, ordered, steps, s, 0, 2, DueMessage(cfg, 0));
    steps, s := Do(cfg, ordered, steps, s, Act(0, Release));
  }

  /** Without resuming from the checkpoint, a stop before the acknowledgement and a restart insert a message twice. */
  lemma RestartDuplicates(cfg: Config, ordered: bool) returns (steps: seq<Step>, s: System)
    requires cfg.Valid() && !cfg.resume
    ensures Reaches(cfg, ordered, steps, s) && NoLoss(steps)
    ensures s.table == [DueMessage(cfg, 0), DueMessage(cfg, 0)] && s.stream == [DueMessage(cfg, 0)]
  {
    steps, s := StopsBeforeAck(cfg, ordered);
    assert DueMessage(cfg, 0).sequence in s.consumer.value.pending;
    steps, s := StartJob(cfg, ordered, steps, s);
    steps, s := CommitOne(cfg, ordered, steps, s, 1, 2, DueMessage(cfg, 0));
  }

  /** Two due messages, and a job that is about to receive them. */
  lemma TwoPublished(cfg: Config) returns (steps: seq<Step>, s: System)
    ensures Reaches(cfg, false, steps, s) && NoLoss(steps)
    ensures s == System([DueMessage(cfg, 0), DueMessage(cfg, 1)], Some(Consumer(cfg.startSeq, cfg.startSeq, {})), {},
                        [Job(Running, 2, NO_PROGRESS, None, [])], 0, Some(Lease(0, 2, LEASE_SECONDS)), [], map[],
                        [], None)
  {
    steps, s := Do(cfg, false, [], INITIAL, Publish(DueMessage(cfg, 0)));
    steps, s := Do(cfg, false, steps, s, Publish(DueMessage(cfg, 1)));
    steps, s := StartJob(cfg, false, steps, s);
  }

  /** Once the first message has been handed out to nobody who commits it, the commit of the second passes over it, and
      when it comes again it is dropped as a duplicate and acknowledged. */
  lemma PassOver(cfg: Config, steps: seq<Step>, s: System, j: nat, token: nat) returns (steps': seq<Step>, s': System)
    requires cfg.Valid() && Reaches(cfg, false, steps, s)
    requires s.stream == [DueMessage(cfg, 0), DueMessage(cfg, 1)] && s.table == [] && s.acked == {}
    requires s.consumer.Some? && s.consumer.value.next == DueMessage(cfg, 1).sequence
    requires s.consumer.value.pending == {DueMessage(cfg, 0).sequence}
    requires j < |s.jobs| && s.jobs[j] == Job(Running, token, NO_PROGRESS, None, []) && s.Holds(j)
    ensures Reaches(cfg, false, steps', s') && (NoLoss(steps) ==> NoLoss(steps')) && PassedOver(cfg, s')
  {
    var m, n := DueMessage(cfg, 0), DueMessage(cfg, 1);
    assert FirstDelivery(s, n);
    steps', s' := CommitOne(cfg, false, steps, s, j, token, n);
    steps', s' := AckCommitted(cfg, steps', s', j, token, n);
    assert m.sequence in s'.consumer.value.pending;
    steps', s' := DropOlder(cfg, steps', s', j, token, Progress(n.sequence, 1, 1), m);
  }

  /** Both messages are acknowledged, but only the second is in the table. */
  ghost predicate PassedOver(cfg: Config, s: System) {
    && s.stream == [DueMessage(cfg, 0), DueMessage(cfg, 1)] && s.table == [DueMessage(cfg, 1)]
    && s.acked == {DueMessage(cfg, 0).sequence, DueMessage(cfg, 1).sequence}
  }

  /** When a first delivery never reaches anybody, a newer commit passes over it: the message is dropped as a duplicate
      when it comes again, acknowledged, and never in the table. */
  lemma LostDelivery(cfg: Config) returns (steps: seq<Step>, s: System)
    requires cfg.Valid()
    ensures Reaches(cfg, false, steps, s) && PassedOver(cfg, s)
  {
    steps, s := TwoPublished(cfg);
    steps, s := Do(cfg, false, steps, s, LoseDelivery(DueMessage(cfg, 0)));
    steps, s := PassOver(cfg, steps, s, 0, 2);
  }

  /** A second job takes over an expired lease, and binds the consumer that the first is still bound to. */
  lemma TakeOver(cfg: Config) returns (steps: seq<Step>, s: System)
    ensures Reaches(cfg, false, steps, s) && NoLoss(steps)
    ensures s.stream == [DueMessage(cfg, 0), DueMessage(cfg, 1)] && s.table == [] && s.acked == {}
    ensures s.consumer == Some(Consumer(cfg.startSeq, cfg.startSeq, {})) && s.Holds(1)
    ensures s.jobs == [Job(Running, 2, NO_PROGRESS, None, []), Job(Running, 3, NO_PROGRESS, None, [])]
  {
    steps, s := TwoPublished(cfg);
    steps, s := Do(cfg, false, steps, s, Tick(LEASE_SECONDS));
    steps, s := LaunchAndClaim(cfg, false, steps, s);
    steps, s := BindAndStart(cfg, false, steps, s, 3);
  }

  /** How that happens without anything getting lost: a job whose lease has expired is still bound to the consumer and
      receives the message that its successor should have had. */
  lemma FencedTakesDelivery(cfg: Config) returns (steps: seq<Step>, s: System)
    requires cfg.Valid()
    ensures Reaches(cfg, false, steps, s) && NoLoss(steps) && PassedOver(cfg, s)
  {
    steps, s := TakeOver(cfg);
    steps, s := Do(cfg, false, steps, s, Act(0, Deliver(DueMessage(cfg, 0))));
    steps, s := PassOver(cfg, steps, s, 1, 3);
  }

  /** Acknowledges the committed `n` and goes on to the next batch. */
  lemma AckCommitted(cfg: Config, steps: seq<Step>, s: System, j: nat, token: nat, n: Message)
    returns (steps': seq<Step>, s': System)
    requires Reaches(cfg, false, steps, s) && j < |s.jobs| && s.consumer.Some?
    requires s.jobs[j] == Job(Committed(Progress(n.sequence, 1, 1), [n]), token, NO_PROGRESS, None, [])
    ensures Reaches(cfg, false, steps', s') && (NoLoss(steps) ==> NoLoss(steps'))
    ensures s' == s.(jobs := s.jobs[j := Job(Running, token, Progress(n.sequence, 1, 1), None, [])],
                     acked := s.acked + {n.sequence},
                     consumer := Some(s.consumer.value.(pending := s.consumer.value.pending - {n.sequence})))
  {
    steps', s' := Do(cfg, false, steps, s, Act(j, FinishCommit));
    steps', s' := Do(cfg, false, steps', s', Act(j, Ack));
    assert [n][1..] == [];
    steps', s' := Do(cfg, false, steps', s', Act(j, NextBatch));
    assert s'.jobs == s.jobs[j := Job(Running, token, Progress(n.sequence, 1, 1), None, [])];
  }

  /** An older message that comes again is dropped as a duplicate and acknowledged. */
  lemma DropOlder(cfg: Config, steps: seq<Step>, s: System, j: nat, token: nat, p: Progress, m: Message)
    returns (steps': seq<Step>, s': System)
    requires cfg.Valid() && Reaches(cfg, false, steps, s)
    requires j < |s.jobs| && s.jobs[j] == Job(Running, token, p, None, [])
    requires s.consumer.Some? && m.sequence in s.consumer.value.pending && m in s.stream
    requires 0 < m.sequence <= p.committed
    ensures Reaches(cfg, false, steps', s') && (NoLoss(steps) ==> NoLoss(steps'))
    ensures s'.stream == s.stream && s'.table == s.table && s'.acked == s.acked + {m.sequence}
  {
    steps', s' := Do(cfg, false, steps, s, Act(j, Redeliver(m)));
    assert s'.jobs[j].pipeline == [m];
    assert s'.jobs == s.jobs[j := Job(Running, token, p, None, [m])];
    steps', s' := SkipOlder(cfg, steps', s', j, token, p, m);
  }

  lemma SkipOlder(cfg: Config, steps: seq<Step>, s: System, j: nat, token: nat, p: Progress, m: Message)
    returns (steps': seq<Step>, s': System)
    requires cfg.Valid() && Reaches(cfg, false, steps, s)
    requires j < |s.jobs| && s.jobs[j] == Job(Running, token, p, None, [m]) && 0 < m.sequence <= p.committed
    ensures Reaches(cfg, false, steps', s') && (NoLoss(steps) ==> NoLoss(steps'))
    ensures s'.stream == s.stream && s'.table == s.table && s'.acked == s.acked + {m.sequence}
  {
    NoRow(cfg, p.committed, m);
    var batch, rest := s.jobs[j].pipeline[..1], s.jobs[j].pipeline[1..];
    assert batch == [m] && rest == [];
    steps', s' := Do(cfg, false, steps, s, Act(j, SkipBatch(1)));
    assert s'.jobs[j] == Job(Acking([m]), token, p, None, []);
    steps', s' := Do(cfg, false, steps', s', Act(j, Ack));
  }

  /** No sequence is ever inserted twice exactly when the job resumes from its checkpoint; delivery order is
      irrelevant to this. */
  lemma AtMostOnceIffResume(cfg: Config, ordered: bool)
    requires cfg.Valid()
    ensures (forall steps, s | Reaches(cfg, ordered, steps, s) :: Distinct(s.table)) <==> cfg.resume
  {
    if cfg.resume {
      forall steps, s | Reaches(cfg, ordered, steps, s) ensures Distinct(s.table) {
        ReachableInv(cfg, ordered, steps, s);
      }
    } else {
      var steps, s := RestartDuplicates(cfg, ordered);
      assert s.table[0].sequence == s.table[1].sequence;
    }
  }

  /** The table is exact in every reachable state exactly when the job resumes from its checkpoint and first
      deliveries reach the lease holder in order; runs in which every message is delivered to some worker decide it. */
  lemma ExactlyOnceIff(cfg: Config, ordered: bool)
    requires cfg.Valid()
    ensures (forall steps, s | Reaches(cfg, ordered, steps, s) :: Exact(cfg, s)) <==> cfg.resume && ordered
    ensures (forall steps, s | Reaches(cfg, ordered, steps, s) && NoLoss(steps) :: Exact(cfg, s))
            <==> cfg.resume && ordered
  {
    if !cfg.resume {
      var steps, s := RestartDuplicates(cfg, ordered);
      DuplicatesNotExact(cfg, s);
    } else if !ordered {
      var steps, s := FencedTakesDelivery(cfg);
      assert DueMessage(cfg, 0) in s.stream && DueMessage(cfg, 0) !in s.table;
    } else {
      forall steps, s | Reaches(cfg, ordered, steps, s) ensures Exact(cfg, s) {
        ExactlyOnce(cfg, steps, s);
      }
    }
  }

  lemma DuplicatesNotExact(cfg: Config, s: System)
    requires s.stream == [DueMessage(cfg, 0)] && |s.table| == 2
    ensures !Exact(cfg, s)
  {
    assert [DueMessage(cfg, 0)][..0] == [];
    assert |Select(cfg, s.stream, 0, s.Durable(cfg.key).committed)| <= 1;
  }
}
