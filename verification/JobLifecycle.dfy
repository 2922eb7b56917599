/** Creating, removing and finishing background jobs: the managers of src/nats_ingest.cpp and src/nats_subscribe.cpp.
    A call takes the manager's lock, drops it to look at the job it found, and takes it again; every locked section is
    one step here, and steps of different calls and of workers interleave freely. */
module JobLifecycle {
  import opened Options

  type Name = string
  type Id = nat
  type Caller = nat

  /** A job object.  `alive`: it is being launched or its worker runs; `finished` is the flag that the code keeps. */
  datatype Job = Job(name: Name, alive: bool, finished: bool, running: bool, stopRequested: bool, stopped: bool,
                     failed: bool)

  datatype Operation = Create | Remove

  /** Where a call stands between its locked sections. */
  datatype Call =
    | Starting(op: Operation, name: Name)
    | Looked(op: Operation, name: Name, existing: Id)
    | Waiting(op: Operation, name: Name, existing: Id)
    | Checked(op: Operation, name: Name, existing: Id)
    | Returned(ok: bool)
    | Threw

  datatype State = State(jobs: map<Name, Id>, records: map<Id, Job>, calls: map<Caller, Call>)

  function NewJob(name: Name): Job {
    Job(name, true, false, false, false, false, false)
  }

  // ---------------------------------------------------------------- the locked sections

  /** What a locked section leaves: the manager's map, the jobs, and where the call goes on. */
  datatype Section = Section(jobs: map<Name, Id>, records: map<Id, Job>, call: Call)

  /** The first section: insert under a free name, or remember the job found. */
  function Begin(jobs: map<Name, Id>, records: map<Id, Job>, op: Operation, name: Name, newId: Id): Section {
    if name in jobs then Section(jobs, records, Looked(op, name, jobs[name]))
    else if op.Create? then Section(jobs[name := newId], records[newId := NewJob(name)], Returned(true))
    else Section(jobs, records, Returned(false))
  }

  /** The second section, under the job's lock.  The ingest manager also lets a stopped job be waited for. */
  function Check(job: Job, ingest: bool, call: Call): Call
    requires call.Looked?
  {
    if job.running && !job.stopRequested then Threw
    else if job.finished then Checked(call.op, call.name, call.existing)
    else if !job.stopRequested && !(ingest && job.stopped) && !job.failed then Threw
    else Waiting(call.op, call.name, call.existing)
  }

  /** The third section: erase the job if it is still the one found and has finished; a create inserts its own. */
  function Commit(jobs: map<Name, Id>, records: map<Id, Job>, call: Call, newId: Id): Section
    requires call.Checked? && call.existing in records
  {
    var job := records[call.existing];
    if call.name !in jobs || jobs[call.name] != call.existing then
      Section(jobs, records, if call.op.Create? then Starting(Create, call.name) else Returned(false))
    else if !job.finished || job.running then
      Section(jobs, records, if call.op.Create? then Starting(Create, call.name) else Threw)
    else if call.op.Create? then
      Section(jobs[call.name := newId], records[newId := NewJob(call.name)], Returned(true))
    else
      Section(jobs - {call.name}, records, Returned(true))
  }

  // ---------------------------------------------------------------- what every section keeps

  predicate CallOk(records: map<Id, Job>, call: Call) {
    (call.Looked? || call.Waiting? || call.Checked?) ==>
      && call.existing in records && records[call.existing].name == call.name
      && (call.Checked? ==> records[call.existing].finished)
  }

  ghost predicate JobsOk(jobs: map<Name, Id>, records: map<Id, Job>) {
    && (forall name | name in jobs :: jobs[name] in records && records[jobs[name]].name == name)
    && (forall id | id in records :: records[id].finished == !records[id].alive)
    && (forall id | id in records && records[id].alive :: records[id].name in jobs && jobs[records[id].name] == id)
  }

  /** Jobs keep their names, and finished ones stay finished. */
  ghost predicate Keeps(records: map<Id, Job>, later: map<Id, Job>) {
    forall id | id in records ::
      id in later && later[id].name == records[id].name && (records[id].finished ==> later[id].finished)
  }

  lemma BeginOk(jobs: map<Name, Id>, records: map<Id, Job>, op: Operation, name: Name, newId: Id)
    requires JobsOk(jobs, records) && newId !in records
    ensures var section := Begin(jobs, records, op, name, newId);
            && JobsOk(section.jobs, section.records) && Keeps(records, section.records)
            && CallOk(section.records, section.call)
  {
  }

  /** A name can be given to a new job when it is free or its job has finished. */
  lemma InsertOk(jobs: map<Name, Id>, records: map<Id, Job>, name: Name, newId: Id)
    requires JobsOk(jobs, records) && newId !in records && (name in jobs ==> records[jobs[name]].finished)
    ensures JobsOk(jobs[name := newId], records[newId := NewJob(name)])
    ensures Keeps(records, records[newId := NewJob(name)])
  {
  }

  lemma EraseOk(jobs: map<Name, Id>, records: map<Id, Job>, name: Name)
    requires JobsOk(jobs, records) && (name in jobs ==> records[jobs[name]].finished)
    ensures JobsOk(jobs - {name}, records)
  {
  }

  lemma CommitOk(jobs: map<Name, Id>, records: map<Id, Job>, call: Call, newId: Id)
    requires JobsOk(jobs, records) && newId !in records && call.Checked? && CallOk(records, call)
    ensures var section := Commit(jobs, records, call, newId);
            && JobsOk(section.jobs, section.records) && Keeps(records, section.records)
            && CallOk(section.records, section.call)
  {
    if call.name in jobs && jobs[call.name] == call.existing {
      InsertOk(jobs, records, call.name, newId);
      EraseOk(jobs, records, call.name);
    }
  }

  /** The only job of its name that has not finished. */
  ghost predicate Alone(jobs: map<Name, Id>, records: map<Id, Job>, id: Id) {
    && id in records && !records[id].finished && records[id].name in jobs && jobs[records[id].name] == id
    && forall other | other in records && other != id && records[other].name == records[id].name ::
         records[other].finished
  }

  /** The job has been asked to stop, or its run is over and its worker is only cleaning up. */
  predicate Ending(job: Job, ingest: bool) {
    job.stopRequested || (!job.running && (job.failed || (ingest && job.stopped)))
  }

  /** The manager, with the locked sections of its calls as methods. */
  class JobManager {
    var jobs: map<Name, Id>
    var records: map<Id, Job>

    /** Names in the map are those of their jobs, and a job whose worker has not finished is in it. */
    ghost predicate Valid()
      reads this
    {
      JobsOk(jobs, records)
    }

    constructor ()
      ensures Valid() && jobs == map[] && records == map[]
    {
      jobs, records := map[], map[];
    }

    /** Remembers the job of that name; without one, a create inserts its own and a remove has nothing to do. */
    method FindOrInsert(op: Operation, name: Name, newId: Id) returns (call: Call)
      requires Valid() && newId !in records
      modifies this
      ensures Valid() && Keeps(old(records), records) && CallOk(records, call)
      ensures Section(jobs, records, call) == Begin(old(jobs), old(records), op, name, newId)
      ensures name in old(jobs) ==>
                call == Looked(op, name, old(jobs)[name]) && jobs == old(jobs) && records == old(records)
      ensures name !in old(jobs) ==> call == Returned(op.Create?) && forall other | other in old(jobs) ::
                                       other in jobs && jobs[other] == old(jobs)[other]
      ensures call == Returned(true) ==> records[newId].name == name && Alone(jobs, records, newId)
      ensures call == Returned(false) ==> name !in jobs && jobs == old(jobs)
    {
      BeginOk(jobs, records, op, name, newId);
      if name !in jobs {
        if op.Remove? {
          return Returned(false);
        }
        records := records[newId := NewJob(name)];
        jobs := jobs[name := newId];
        return Returned(true);
      }
      call := Looked(op, name, jobs[name]);
    }

    /** Goes on when the job has finished, waits when it is about to, and throws when nobody has asked it to. */
    method CheckFinished(call: Call, ingest: bool) returns (next: Call)
      requires Valid() && call.Looked? && CallOk(records, call)
      ensures CallOk(records, next) && next == Check(records[call.existing], ingest, call)
      ensures next.Waiting? <==> !records[call.existing].finished && Ending(records[call.existing], ingest)
      ensures next.Checked? <==>
                && records[call.existing].finished
                && (records[call.existing].running ==> records[call.existing].stopRequested)
      ensures !next.Threw? ==> next.op == call.op && next.name == call.name && next.existing == call.existing
    {
      var job := records[call.existing];
      if job.running && !job.stopRequested {
        return Threw;
      }
      if !job.finished {
        if !job.stopRequested && !(ingest && job.stopped) && !job.failed {
          return Threw;
        }
        return Waiting(call.op, call.name, call.existing);
      }
      next := Checked(call.op, call.name, call.existing);
    }

    /** Takes out the job that was found, if it is still the one in the map and does not run; a create puts its own in
        its place.  Nothing else leaves the map, and nothing that has not finished. */
    method Replace(call: Call, newId: Id) returns (next: Call)
      requires Valid() && call.Checked? && CallOk(records, call) && newId !in records
      modifies this
      ensures Valid() && Keeps(old(records), records) && CallOk(records, next)
      ensures Section(jobs, records, next) == Commit(old(jobs), old(records), call, newId)
      ensures forall name | name in old(jobs) && (name !in jobs || jobs[name] != old(jobs)[name]) ::
                && name == call.name && old(jobs)[name] == call.existing
                && records[call.existing].finished && !records[call.existing].alive && !records[call.existing].running
      ensures next == Returned(true) <==>
                call.name in old(jobs) && old(jobs)[call.name] == call.existing && !old(records)[call.existing].running
      ensures next == Returned(true) && call.op.Create? ==>
                records[newId].name == call.name && Alone(jobs, records, newId)
      ensures next == Returned(true) && call.op.Remove? ==> jobs == old(jobs) - {call.name} && records == old(records)
      ensures next != Returned(true) ==> jobs == old(jobs) && records == old(records)
    {
      CommitOk(jobs, records, call, newId);
      if call.name !in jobs || jobs[call.name] != call.existing {
        return if call.op.Create? then Starting(Create, call.name) else Returned(false);
      }
      var job := records[call.existing];
      if !job.finished || job.running {
        return if call.op.Create? then Starting(Create, call.name) else Threw;
      }
      ghost var before := jobs;
      jobs := jobs - {call.name};
      if call.op.Create? {
        records := records[newId := NewJob(call.name)];
        jobs := jobs[call.name := newId];
        assert jobs == before[call.name := newId];
      }
      next := Returned(true);
    }
  }

  // ---------------------------------------------------------------- steps

  /** A call is made or goes on; someone sets a job's flags; a worker ends, or launching it has failed. */
  datatype Action =
    | Invoke(caller: Caller, op: Operation, name: Name)
    | BeginStep(caller: Caller, newId: Id)
    | CheckStep(caller: Caller)
    | WakeStep(caller: Caller)
    | TimeoutStep(caller: Caller)
    | CommitStep(caller: Caller, newId: Id)
    | FlagStep(id: Id, running: bool, stopRequested: bool, stopped: bool, failed: bool)
    | FinishStep(id: Id)

  function Put(s: State, caller: Caller, section: Section): State {
    State(section.jobs, section.records, s.calls[caller := section.call])
  }

  predicate At(s: State, caller: Caller) { caller in s.calls }

  /** The state after an action, None where it cannot happen. */
  function Step(s: State, a: Action, ingest: bool): Option<State> {
    match a
    case Invoke(caller, op, name) =>
      if At(s, caller) && !s.calls[caller].Returned? && !s.calls[caller].Threw? then None
      else Some(s.(calls := s.calls[caller := Starting(op, name)]))
    case BeginStep(caller, newId) =>
      if !At(s, caller) || !s.calls[caller].Starting? || newId in s.records then None
      else Some(Put(s, caller, Begin(s.jobs, s.records, s.calls[caller].op, s.calls[caller].name, newId)))
    case CheckStep(caller) =>
      if !At(s, caller) || !s.calls[caller].Looked? || s.calls[caller].existing !in s.records then None
      else Some(s.(calls := s.calls[caller := Check(s.records[s.calls[caller].existing], ingest, s.calls[caller])]))
    case WakeStep(caller) =>
      if !At(s, caller) || !s.calls[caller].Waiting? || s.calls[caller].existing !in s.records then None
      else if !s.records[s.calls[caller].existing].finished then None
      else
        var call := s.calls[caller];
        Some(s.(calls := s.calls[caller := Checked(call.op, call.name, call.existing)]))
    case TimeoutStep(caller) =>
      if !At(s, caller) || !s.calls[caller].Waiting? then None
      else Some(s.(calls := s.calls[caller := Threw]))
    case CommitStep(caller, newId) =>
      if !At(s, caller) || !s.calls[caller].Checked? || s.calls[caller].existing !in s.records then None
      else if newId in s.records then None
      else Some(Put(s, caller, Commit(s.jobs, s.records, s.calls[caller], newId)))
    case FlagStep(id, running, stopRequested, stopped, failed) =>
      if id !in s.records then None
      else
        var job := s.records[id].(running := running, stopRequested := stopRequested, stopped := stopped,
                                  failed := failed);
        Some(s.(records := s.records[id := job]))
    case FinishStep(id) =>
      if id !in s.records || !s.records[id].alive then None
      else Some(s.(records := s.records[id := s.records[id].(alive := false, finished := true)]))
  }

  const INITIAL: State := State(map[], map[], map[])

  function Exec(s: State, run: seq<Action>, ingest: bool): Option<State>
    decreases run
  {
    if run == [] then Some(s)
    else match Step(s, run[0], ingest) case None => None case Some(next) => Exec(next, run[1..], ingest)
  }

  ghost predicate Reachable(s: State, ingest: bool) {
    exists run :: Exec(INITIAL, run, ingest) == Some(s)
  }

  ghost predicate Inv(s: State) {
    JobsOk(s.jobs, s.records) && forall caller | caller in s.calls :: CallOk(s.records, s.calls[caller])
  }

  /** Calls stay sound while jobs keep their names and stay finished. */
  lemma CallsOk(s: State, later: State, caller: Caller)
    requires Inv(s) && Keeps(s.records, later.records) && caller in later.calls
    requires later.calls == s.calls[caller := later.calls[caller]] && CallOk(later.records, later.calls[caller])
    ensures forall c | c in later.calls :: CallOk(later.records, later.calls[c])
  {
    forall c | c in later.calls && c != caller ensures CallOk(later.records, later.calls[c]) {
      assert CallOk(s.records, s.calls[c]);
    }
  }

  lemma StepKeepsInv(s: State, a: Action, ingest: bool)
    requires Inv(s) && Step(s, a, ingest).Some?
    ensures Inv(Step(s, a, ingest).value) && Keeps(s.records, Step(s, a, ingest).value.records)
  {
    var later := Step(s, a, ingest).value;
    match a
    case FlagStep(_, _, _, _, _) => JobChanges(s, later);
    case FinishStep(_) => JobChanges(s, later);
    case BeginStep(caller, newId) =>
      BeginOk(s.jobs, s.records, s.calls[caller].op, s.calls[caller].name, newId);
      CallsOk(s, later, caller);
    case CommitStep(caller, newId) =>
      assert CallOk(s.records, s.calls[caller]);
      CommitOk(s.jobs, s.records, s.calls[caller], newId);
      CallsOk(s, later, caller);
    case Invoke(caller, _, _) => CallsOk(s, later, caller);
    case CheckStep(caller) =>
      assert CallOk(s.records, s.calls[caller]);
      CallsOk(s, later, caller);
    case WakeStep(caller) =>
      assert CallOk(s.records, s.calls[caller]);
      CallsOk(s, later, caller);
    case TimeoutStep(caller) => CallsOk(s, later, caller);
  }

  lemma JobChanges(s: State, later: State)
    requires Inv(s) && JobsOk(later.jobs, later.records) && Keeps(s.records, later.records) && later.calls == s.calls
    ensures Inv(later)
  {
    forall c | c in later.calls ensures CallOk(later.records, later.calls[c]) {
      assert CallOk(s.records, s.calls[c]);
    }
  }

  lemma {:induction false} ExecKeepsInv(s: State, run: seq<Action>, ingest: bool)
    requires Inv(s) && Exec(s, run, ingest).Some?
    ensures Inv(Exec(s, run, ingest).value)
    decreases run
  {
    if run != [] {
      StepKeepsInv(s, run[0], ingest);
      ExecKeepsInv(Step(s, run[0], ingest).value, run[1..], ingest);
    }
  }

  lemma ReachableInv(s: State, ingest: bool)
    requires Reachable(s, ingest)
    ensures Inv(s)
  {
    var run :| Exec(INITIAL, run, ingest) == Some(s);
    ExecKeepsInv(INITIAL, run, ingest);
  }

  /** At any time at most one job of a name is unfinished, and it is the one in the manager's map. */
  lemma OneUnfinishedPerName(s: State, ingest: bool, a: Id, b: Id)
    requires Reachable(s, ingest) && a in s.records && b in s.records && s.records[a].name == s.records[b].name
    requires !s.records[a].finished && !s.records[b].finished
    ensures a == b && s.records[a].name in s.jobs && s.jobs[s.records[a].name] == a
  {
    ReachableInv(s, ingest);
  }

  /** A job leaves the map only after its worker has finished, though the lock is dropped between check and erase. */
  lemma LeavesOnlyFinished(s: State, a: Action, ingest: bool, name: Name)
    requires Reachable(s, ingest) && Step(s, a, ingest).Some? && name in s.jobs
    requires var next := Step(s, a, ingest).value; name !in next.jobs || next.jobs[name] != s.jobs[name]
    ensures s.jobs[name] in s.records
    ensures var job := s.records[s.jobs[name]]; job.finished && !job.alive && !job.running
  {
    ReachableInv(s, ingest);
  }

  predicate Listed(jobs: map<Name, Id>, records: map<Id, Job>, id: Id) {
    id in records && records[id].name in jobs && jobs[records[id].name] == id
  }

  predicate InMap(s: State, id: Id) { Listed(s.jobs, s.records, id) }

  lemma BeginLeavesOut(jobs: map<Name, Id>, records: map<Id, Job>, op: Operation, name: Name, newId: Id, id: Id)
    requires newId !in records && id in records && !Listed(jobs, records, id)
    ensures var section := Begin(jobs, records, op, name, newId);
            id in section.records && !Listed(section.jobs, section.records, id)
  {
  }

  lemma CommitLeavesOut(jobs: map<Name, Id>, records: map<Id, Job>, call: Call, newId: Id, id: Id)
    requires newId !in records && call.Checked? && call.existing in records
    requires id in records && !Listed(jobs, records, id)
    ensures var section := Commit(jobs, records, call, newId);
            id in section.records && !Listed(section.jobs, section.records, id)
  {
  }

  lemma StaysOut(s: State, a: Action, ingest: bool, id: Id)
    requires Step(s, a, ingest).Some? && id in s.records && !InMap(s, id)
    ensures var later := Step(s, a, ingest).value; id in later.records && !InMap(later, id)
  {
    match a
    case BeginStep(caller, newId) =>
      BeginLeavesOut(s.jobs, s.records, s.calls[caller].op, s.calls[caller].name, newId, id);
    case CommitStep(caller, newId) => CommitLeavesOut(s.jobs, s.records, s.calls[caller], newId, id);
    case _ =>
  }

  /** A job that has left the map never comes back, whatever is called afterwards, even under its own name. */
  lemma {:induction false} LeftForGood(s: State, run: seq<Action>, ingest: bool, id: Id)
    requires Inv(s) && Exec(s, run, ingest).Some? && id in s.records && !InMap(s, id)
    ensures var later := Exec(s, run, ingest).value;
            Inv(later) && !InMap(later, id) && forall name | name in later.jobs :: later.jobs[name] != id
    decreases run
  {
    if run != [] {
      var next := Step(s, run[0], ingest).value;
      StaysOut(s, run[0], ingest, id);
      StepKeepsInv(s, run[0], ingest);
      LeftForGood(next, run[1..], ingest, id);
    }
  }

  /** A remove that returns true has taken out the very job that it found, which had finished and was not running; no
      later call finds that job again. */
  lemma RemovedForGood(s: State, a: Action, run: seq<Action>, ingest: bool)
    requires Reachable(s, ingest) && a.CommitStep? && Step(s, a, ingest).Some? && s.calls[a.caller].op.Remove?
    requires var next := Step(s, a, ingest).value;
             next.calls[a.caller] == Returned(true) && Exec(next, run, ingest).Some?
    ensures var call, later := s.calls[a.caller], Exec(Step(s, a, ingest).value, run, ingest).value;
            && InMap(s, call.existing) && s.records[call.existing].name == call.name
            && s.records[call.existing].finished && !s.records[call.existing].running
            && forall name | name in later.jobs :: later.jobs[name] != call.existing
  {
    ReachableInv(s, ingest);
    assert CallOk(s.records, s.calls[a.caller]);
    StepKeepsInv(s, a, ingest);
    LeftForGood(Step(s, a, ingest).value, run, ingest, s.calls[a.caller].existing);
  }

  /** Where a create returns, its own job is in the map, unfinished, and every other job of that name has finished. */
  lemma CreatedAlone(s: State, a: Action, ingest: bool, newId: Id)
    requires Reachable(s, ingest) && Step(s, a, ingest).Some?
    requires newId !in s.records && newId in Step(s, a, ingest).value.records
    ensures var later := Step(s, a, ingest).value; var name := later.records[newId].name;
            && name in later.jobs && later.jobs[name] == newId && !later.records[newId].finished
            && forall id | id in later.records && id != newId && later.records[id].name == name ::
                 later.records[id].finished
  {
    ReachableInv(s, ingest);
    StepKeepsInv(s, a, ingest);
  }

  /** A finished job stays finished, so a call that has seen that need not fear it changes while no lock is held; the
      second look at the flag in the last section never fails. */
  lemma FinishedForGood(s: State, ingest: bool, caller: Caller)
    requires Reachable(s, ingest) && caller in s.calls && s.calls[caller].Checked?
    ensures s.calls[caller].existing in s.records && s.records[s.calls[caller].existing].finished
  {
    ReachableInv(s, ingest);
    assert CallOk(s.records, s.calls[caller]);
  }

  lemma {:induction false} ExecAppend(s: State, run: seq<Action>, more: seq<Action>, ingest: bool)
    requires Exec(s, run, ingest).Some?
    ensures Exec(s, run + more, ingest) == Exec(Exec(s, run, ingest).value, more, ingest)
    decreases run
  {
    if run == [] {
      assert run + more == more;
    } else {
      assert (run + more)[1..] == run[1..] + more;
      ExecAppend(Step(s, run[0], ingest).value, run[1..], more, ingest);
    }
  }

  lemma ReachableStep(s: State, a: Action, ingest: bool)
    requires Reachable(s, ingest) && Step(s, a, ingest).Some?
    ensures Reachable(Step(s, a, ingest).value, ingest)
  {
    var run :| Exec(INITIAL, run, ingest) == Some(s);
    ExecAppend(INITIAL, run, [a], ingest);
    var next := Step(s, a, ingest).value;
    assert Exec(s, [a], ingest) == Exec(next, [a][1..], ingest);
  }

  /** A job has been created and has finished. */
  lemma OneFinished(name: Name, ingest: bool) returns (s: State)
    ensures Reachable(s, ingest) && s.jobs == map[name := 0] && s.calls == map[0 := Returned(true)]
    ensures s.records == map[0 := NewJob(name).(alive := false, finished := true)]
  {
    assert Exec(INITIAL, [], ingest) == Some(INITIAL);
    s := Take(INITIAL, Invoke(0, Create, name), ingest);
    s := Take(s, BeginStep(0, 0), ingest);
    s := Take(s, FinishStep(0), ingest);
  }

  /** A remove has seen the job finish and has dropped the job's lock. */
  lemma SeenFinished(name: Name, ingest: bool) returns (s: State)
    ensures Reachable(s, ingest) && s.jobs == map[name := 0]
    ensures s.records == map[0 := NewJob(name).(alive := false, finished := true)]
    ensures s.calls == map[0 := Returned(true), 1 := Checked(Remove, name, 0)]
  {
    s := OneFinished(name, ingest);
    s := Take(s, Invoke(1, Remove, name), ingest);
    s := Take(s, BeginStep(1, 1), ingest);
    s := Take(s, CheckStep(1), ingest);
  }

  /** Finding the same job again is needed: a remove that has seen its job finish can face another, unfinished one
      under the name, which erasing whatever is there would drop. */
  lemma ReplacedMeanwhile(name: Name, ingest: bool) returns (s: State, caller: Caller)
    ensures Reachable(s, ingest) && caller in s.calls && s.calls[caller].Checked? && s.calls[caller].op.Remove?
    ensures var call := s.calls[caller];
            && call.existing in s.records && s.records[call.existing].finished && call.name in s.jobs
            && s.jobs[call.name] in s.records && !s.records[s.jobs[call.name]].finished
  {
    s := SeenFinished(name, ingest);
    caller := 1;
    s := Take(s, Invoke(2, Create, name), ingest);
    s := Take(s, BeginStep(2, 1), ingest);
    s := Take(s, CheckStep(2), ingest);
    s := Take(s, CommitStep(2, 1), ingest);
  }

  lemma Take(s: State, a: Action, ingest: bool) returns (next: State)
    requires Reachable(s, ingest) && Step(s, a, ingest).Some?
    ensures Some(next) == Step(s, a, ingest) && Reachable(next, ingest)
  {
    next := Step(s, a, ingest).value;
    ReachableStep(s, a, ingest);
  }
}
