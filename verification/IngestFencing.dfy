/** Fencing over whole runs, and what the base invariant means for readers of the database. */
module IngestFencing {
  import opened Basics
  import opened IngestBatch
  import opened IngestLease
  import opened CheckpointLog
  import opened IngestProtocol
  import opened IngestSafety

  /** The state after the first `n` steps of a possible run. */
  ghost function StateAt(cfg: Config, ordered: bool, steps: seq<Step>, n: nat): System
    requires n <= |steps| && Exec(cfg, ordered, steps).Some?
  {
    PrefixRuns(cfg, ordered, steps, n);
    Exec(cfg, ordered, steps[..n]).value
  }

  lemma {:induction false} PrefixRuns(cfg: Config, ordered: bool, steps: seq<Step>, n: nat)
    requires n <= |steps| && Exec(cfg, ordered, steps).Some?
    ensures Exec(cfg, ordered, steps[..n]).Some?
  {
    if n == |steps| {
      assert steps[..n] == steps;
    } else {
      var before := steps[..|steps| - 1];
      PrefixRuns(cfg, ordered, before, n);
      assert before[..n] == steps[..n];
    }
  }

  lemma StepAt(cfg: Config, ordered: bool, steps: seq<Step>, n: nat)
    requires n < |steps| && Exec(cfg, ordered, steps).Some?
    ensures Enabled(cfg, ordered, StateAt(cfg, ordered, steps, n), steps[n])
    ensures StateAt(cfg, ordered, steps, n + 1) == Apply(cfg, ordered, StateAt(cfg, ordered, steps, n), steps[n])
  {
    PrefixRuns(cfg, ordered, steps, n + 1);
    assert steps[..n + 1][..n] == steps[..n];
  }

  /** The job has claimed the lease once, and the lease row is no longer (owner, token) of that claim. */
  predicate Fenced(s: System, j: nat) {
    j < |s.jobs| && !s.jobs[j].phase.Created? && !s.Holds(j)
  }

  /** The lease row changes only by the hand of the job that ends up in it, or by the release of its holder. */
  lemma LeaseChangesHands(cfg: Config, ordered: bool, s: System, j: nat, action: Action)
    requires CanAct(cfg, ordered, s, j, action)
    ensures var s' := AfterAction(cfg, ordered, s, j, action);
            && |s'.jobs| == |s.jobs| && (forall k | 0 <= k < |s.jobs| && k != j :: s'.jobs[k] == s.jobs[k])
            && (s'.jobs[j].phase.Created? ==> s.jobs[j].phase.Created?)
            && (!action.Claim? ==> s'.jobs[j].token == s.jobs[j].token)
            && (action.Claim? ==> s.jobs[j].phase.Created? && s'.lease.Some? && s'.lease.value.owner == j)
            && (!action.Claim? ==> s'.lease.None? || (s.lease.Some? && s'.lease.value.owner == s.lease.value.owner
                                                     && s'.lease.value.token == s.lease.value.token))
  {
  }

  lemma FencedStep(cfg: Config, ordered: bool, s: System, step: Step, j: nat)
    requires Enabled(cfg, ordered, s, step) && Fenced(s, j)
    ensures Fenced(Apply(cfg, ordered, s, step), j)
  {
    if step.Act? {
      LeaseChangesHands(cfg, ordered, s, step.job, step.action);
    }
  }

  lemma {:induction false} FencedForGood(cfg: Config, ordered: bool, steps: seq<Step>, n: nat, m: nat, j: nat)
    requires n <= m <= |steps| && Exec(cfg, ordered, steps).Some?
    requires Fenced(StateAt(cfg, ordered, steps, n), j)
    ensures Fenced(StateAt(cfg, ordered, steps, m), j)
    decreases m
  {
    if n < m {
      FencedForGood(cfg, ordered, steps, n, m - 1, j);
      StepAt(cfg, ordered, steps, m - 1);
      FencedStep(cfg, ordered, StateAt(cfg, ordered, steps, m - 1), steps[m - 1], j);
    }
  }

  /** The table, the checkpoint that readers see and the lease row are the same in both states. */
  ghost predicate SameOutcome(s: System, s': System) {
    && s'.table == s.table && s'.keyed == s.keyed && s'.lease == s.lease
    && forall key, c :: IsLatest(s'.log, key, c) <==> IsLatest(s.log, key, c)
  }

  /** A fenced job can neither commit nor renew, and its release deletes nothing. */
  lemma FencedIsPowerless(cfg: Config, ordered: bool, s: System, j: nat, action: Action)
    requires CanAct(cfg, ordered, s, j, action) && Fenced(s, j)
    ensures SameOutcome(s, AfterAction(cfg, ordered, s, j, action))
  {
    if action.CompactLog? {
      forall key, c ensures IsLatest(Compacted(s.log), key, c) <==> IsLatest(s.log, key, c) {
        CompactionKeepsView(s.log, key, c);
      }
    } else {
      assert AfterAction(cfg, ordered, s, j, action).log == s.log;
    }
  }

  lemma ClaimFences(cfg: Config, ordered: bool, s: System, k: nat, j: nat)
    requires CanAct(cfg, ordered, s, k, Claim)
    requires j != k && j < |s.jobs| && !s.jobs[j].phase.Created?
    ensures Fenced(AfterAction(cfg, ordered, s, k, Claim), j)
  {
  }

  /** Once another owner's claim has committed, nothing an earlier owner does changes the table, the checkpoint
      that readers see, or the lease row; it never holds the lease again. */
  lemma TakeoverFences(cfg: Config, ordered: bool, steps: seq<Step>, n: nat, m: nat, j: nat, k: nat)
    requires n < m < |steps| && Exec(cfg, ordered, steps).Some?
    requires steps[n] == Act(k, Claim) && k != j && steps[m].Act? && steps[m].job == j
    requires j < |StateAt(cfg, ordered, steps, n).jobs| && !StateAt(cfg, ordered, steps, n).jobs[j].phase.Created?
    ensures SameOutcome(StateAt(cfg, ordered, steps, m), StateAt(cfg, ordered, steps, m + 1))
    ensures !StateAt(cfg, ordered, steps, m).Holds(j) && !StateAt(cfg, ordered, steps, m + 1).Holds(j)
  {
    StepAt(cfg, ordered, steps, n);
    ClaimFences(cfg, ordered, StateAt(cfg, ordered, steps, n), k, j);
    FencedForGood(cfg, ordered, steps, n + 1, m, j);
    FencedForGood(cfg, ordered, steps, n + 1, m + 1, j);
    StepAt(cfg, ordered, steps, m);
    FencedIsPowerless(cfg, ordered, StateAt(cfg, ordered, steps, m), j, steps[m].action);
  }

  /** No sequence is ever committed twice, and the checkpoint counts exactly the rows of the table. */
  lemma CommittedAtMostOnce(cfg: Config, ordered: bool, steps: seq<Step>, s: System)
    requires cfg.resume && Reaches(cfg, ordered, steps, s)
    ensures Distinct(s.table)
    ensures s.Durable(cfg.key).rows == |s.table|
    ensures forall m | m in s.table :: m in s.stream && cfg.Passes(m) && m.sequence <= s.Durable(cfg.key).committed
  {
    ReachableInv(cfg, ordered, steps, s);
  }

  /** The lease holder's in-memory progress is the checkpoint that the view shows. */
  lemma HolderKnowsCheckpoint(cfg: Config, ordered: bool, steps: seq<Step>, s: System, j: nat)
    requires cfg.resume && Reaches(cfg, ordered, steps, s)
    requires s.Holds(j) && s.jobs[j].Resumed()
    ensures match Latest(s.log, cfg.key)
            case None => s.jobs[j].Effective() == NO_PROGRESS
            case Some(c) => s.jobs[j].Effective() == ProgressOf(c)
  {
    ReachableInv(cfg, ordered, steps, s);
    LoadReadsDurable(cfg, s);
    assert JobOk(s, s.Durable(cfg.key), s.jobs[j], s.Holds(j));
  }

  /** The registry never runs ahead of the checkpoint, so rehydration leaves the holder's resume point alone. */
  lemma RehydrationKeepsResumePoint(cfg: Config, ordered: bool, steps: seq<Step>, s: System, j: nat)
    requires cfg.resume && Reaches(cfg, ordered, steps, s)
    ensures s.registry.Some? ==> AtMost(s.registry.value, s.Durable(cfg.key))
    ensures s.Holds(j) && s.jobs[j].phase.Bound? ==>
              Restored(s.jobs[j].progress, s.jobs[j].snapshot) == s.jobs[j].progress == s.Durable(cfg.key)
  {
    ReachableInv(cfg, ordered, steps, s);
    if s.Holds(j) {
      assert JobOk(s, s.Durable(cfg.key), s.jobs[j], s.Holds(j));
    }
  }

  /** A job resumes behind the checkpoint that it has loaded, or, without one, where the configuration says. */
  lemma {:induction false} LoadedBehind(cfg: Config, ordered: bool, steps: seq<Step>, s: System, j: nat)
    requires cfg.resume && Reaches(cfg, ordered, steps, s) && j < |s.jobs| && s.jobs[j].phase.Loaded?
    ensures || s.jobs[j].phase.resumeAt == s.jobs[j].progress.committed + 1
            || (s.jobs[j].progress == NO_PROGRESS && s.jobs[j].phase.resumeAt == cfg.startSeq)
  {
    var before, step := steps[..|steps| - 1], steps[|steps| - 1];
    var s0 := Exec(cfg, ordered, before).value;
    if j < |s0.jobs| && s0.jobs[j].phase.Loaded? && s0.jobs[j] == s.jobs[j] {
      LoadedBehind(cfg, ordered, before, s0, j);
    } else {
      ReachableInv(cfg, ordered, before, s0);
      OnlyLoads(cfg, ordered, s0, step, j);
      assert JobOk(s0, s0.Durable(cfg.key), s0.jobs[j], s0.Holds(j));
    }
  }

  lemma OnlyLoads(cfg: Config, ordered: bool, s: System, step: Step, j: nat)
    requires Enabled(cfg, ordered, s, step) && j < |Apply(cfg, ordered, s, step).jobs|
    requires Apply(cfg, ordered, s, step).jobs[j].phase.Loaded?
    requires !(j < |s.jobs| && s.jobs[j] == Apply(cfg, ordered, s, step).jobs[j])
    ensures step == Act(j, Load) && CanAct(cfg, ordered, s, j, Load)
    ensures Apply(cfg, ordered, s, step).jobs[j] == AfterLoad(cfg, s, s.jobs[j])
  {
    if step.Act? {
      LeaseChangesHands(cfg, ordered, s, step.job, step.action);
      if step.job == j {
        OnlyLoadLoads(cfg, ordered, s, j, step.action);
      }
    }
  }

  lemma OnlyLoadLoads(cfg: Config, ordered: bool, s: System, j: nat, action: Action)
    requires CanAct(cfg, ordered, s, j, action) && AfterAction(cfg, ordered, s, j, action).jobs[j].phase.Loaded?
    ensures action.Load? || AfterAction(cfg, ordered, s, j, action).jobs[j] == s.jobs[j]
  {
  }

  /** A consumer that the lease holder recreates hands out nothing again that is in the table, and begins right behind
      the checkpoint, or where the configuration says. */
  lemma ResumesBehindTable(cfg: Config, ordered: bool, steps: seq<Step>, s: System, j: nat)
    requires cfg.resume && Reaches(cfg, ordered, steps, s) && s.Holds(j) && CanAct(cfg, ordered, s, j, Bind(true))
    ensures var consumer := AfterBind(cfg, s, j, true).consumer; var committed := s.Durable(cfg.key).committed;
            && consumer.Some? && consumer.value.pending == {}
            && (forall m | m in s.table :: m.sequence < consumer.value.next)
            && (consumer.value.next == Max(cfg.startSeq, committed + 1)
                || (s.table == [] && consumer.value.next == cfg.startSeq))
  {
    ReachableInv(cfg, ordered, steps, s);
    LoadedBehind(cfg, ordered, steps, s, j);
    assert JobOk(s, s.Durable(cfg.key), s.jobs[j], s.Holds(j));
  }

  /** The append-only log shows what the keyed table would hold, in every reachable state; compaction then
      leaves one row per key. */
  lemma LogAgreesInEveryRun(cfg: Config, ordered: bool, steps: seq<Step>, s: System)
    requires cfg.resume && Reaches(cfg, ordered, steps, s)
    ensures forall key, c :: IsLatest(s.log, key, c) <==> key in s.keyed && s.keyed[key] == c
    ensures forall r, q | r in Compacted(s.log) && q in Compacted(s.log) && r.key == q.key :: r == q
  {
    ReachableInv(cfg, ordered, steps, s);
    forall r, q | r in Compacted(s.log) && q in Compacted(s.log) && r.key == q.key ensures r == q {
      CompactionLeavesOneRow(s.log, s.keyed, r, q);
    }
  }

  // ---------------------------------------------------------------- how long a lease lasts

  predicate ExtendsLease(step: Step, j: nat) {
    step.Act? && step.job == j && (step.action.Claim? || step.action.CommitBatch? || step.action.Renew?)
  }

  /** The lease row is job `j`'s, with the token of its claim, at least until `until`. */
  predicate LeasedUntil(s: System, j: nat, until: int) {
    && j < |s.jobs| && !s.jobs[j].phase.Created?
    && s.lease.Some? && s.lease.value.owner == j && s.lease.value.token == s.jobs[j].token
    && s.lease.value.until >= until
  }

  lemma ExtendingLeases(cfg: Config, ordered: bool, s: System, step: Step, j: nat)
    requires Enabled(cfg, ordered, s, step) && ExtendsLease(step, j)
    ensures LeasedUntil(Apply(cfg, ordered, s, step), j, s.now + 30) && Apply(cfg, ordered, s, step).now == s.now
  {
  }

  /** Only claims, commits, renewals and releases touch the lease row, and only these ways. */
  lemma LeaseAfter(cfg: Config, ordered: bool, s: System, k: nat, action: Action)
    requires CanAct(cfg, ordered, s, k, action)
    ensures AfterAction(cfg, ordered, s, k, action).lease
            == if action.Claim? then AfterClaim(s.lease, k, s.now)
               else if action.CommitBatch? || action.Renew? then AfterFence(s.lease, k, s.jobs[k].token, s.now)
               else if action.Release? then AfterRelease(s.lease, k, s.jobs[k].token)
               else s.lease
  {
  }

  lemma LeasedAction(cfg: Config, ordered: bool, s: System, k: nat, action: Action, j: nat, until: int)
    requires CanAct(cfg, ordered, s, k, action) && (k == j ==> !action.Release?)
    requires LeasedUntil(s, j, until) && s.now < until <= s.now + 30
    ensures LeasedUntil(AfterAction(cfg, ordered, s, k, action), j, until)
  {
    LeaseAfter(cfg, ordered, s, k, action);
    LeaseChangesHands(cfg, ordered, s, k, action);
  }

  /** Before it runs out, nobody but its owner ends a lease. */
  lemma LeasedStep(cfg: Config, ordered: bool, s: System, step: Step, j: nat, until: int)
    requires Enabled(cfg, ordered, s, step) && step != Act(j, Release)
    requires LeasedUntil(s, j, until) && s.now < until <= s.now + 30
    ensures LeasedUntil(Apply(cfg, ordered, s, step), j, until)
  {
    if step.Act? {
      LeasedAction(cfg, ordered, s, step.job, step.action, j, until);
    }
  }

  /** In every run, from a claim, a commit or a renewal on and for 30 seconds, the lease row is that job's, unless the
      job releases it itself. */
  lemma {:induction false} LeaseLasts(cfg: Config, ordered: bool, steps: seq<Step>, n: nat, m: nat, j: nat)
    requires n < m <= |steps| && Exec(cfg, ordered, steps).Some? && ExtendsLease(steps[n], j)
    requires forall k | n < k < m :: steps[k] != Act(j, Release)
    requires StateAt(cfg, ordered, steps, m).now < StateAt(cfg, ordered, steps, n).now + 30
    ensures LeasedUntil(StateAt(cfg, ordered, steps, m), j, StateAt(cfg, ordered, steps, n).now + 30)
    ensures StateAt(cfg, ordered, steps, n).now <= StateAt(cfg, ordered, steps, m).now
    decreases m
  {
    StepAt(cfg, ordered, steps, m - 1);
    if n == m - 1 {
      ExtendingLeases(cfg, ordered, StateAt(cfg, ordered, steps, n), steps[n], j);
    } else {
      ClockRises(cfg, ordered, StateAt(cfg, ordered, steps, m - 1), steps[m - 1]);
      LeaseLasts(cfg, ordered, steps, n, m - 1, j);
      LeasedStep(cfg, ordered, StateAt(cfg, ordered, steps, m - 1), steps[m - 1], j,
                 StateAt(cfg, ordered, steps, n).now + 30);
    }
  }

  lemma ClockRises(cfg: Config, ordered: bool, s: System, step: Step)
    requires Enabled(cfg, ordered, s, step)
    ensures s.now <= Apply(cfg, ordered, s, step).now
  {
  }

  /** So another job's claim has to wait: it succeeds 30 seconds after the owner's last claim, commit or renewal at the
      earliest, or after the owner's release. */
  lemma TakeoverWaits(cfg: Config, ordered: bool, steps: seq<Step>, n: nat, m: nat, j: nat, k: nat)
    requires n < m < |steps| && Exec(cfg, ordered, steps).Some?
    requires ExtendsLease(steps[n], j) && steps[m] == Act(k, Claim) && k != j
    requires forall i | n < i < m :: steps[i] != Act(j, Release)
    ensures StateAt(cfg, ordered, steps, m).now >= StateAt(cfg, ordered, steps, n).now + 30
  {
    if StateAt(cfg, ordered, steps, m).now < StateAt(cfg, ordered, steps, n).now + 30 {
      LeaseLasts(cfg, ordered, steps, n, m, j);
      StepAt(cfg, ordered, steps, m);
    }
  }

  /** And it has to wait no longer: a job that has not claimed yet can as soon as the row has run out or is gone. */
  lemma ExpiredIsFree(cfg: Config, ordered: bool, s: System, k: nat)
    requires k < |s.jobs| && s.jobs[k].phase.Created?
    ensures CanAct(cfg, ordered, s, k, Claim)
            <==> s.lease.None? || s.lease.value.owner == k || s.now >= s.lease.value.until
  {
  }
}
