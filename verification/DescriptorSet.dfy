/** Building the files of a protobuf descriptor set in dependency order: src/nats_proto_schema.cpp. */
module DescriptorSet {
  import opened Bytes

  type Name = Bytes

  datatype File = File(name: Name, dependencies: seq<Name>)

  /** Everything was built; a file did not build; or the rest has unresolved or cyclic dependencies. */
  datatype Outcome = Built | BuildFailed | Unresolved

  // ---------------------------------------------------------------- the least fixpoint

  function Names(files: set<File>): set<Name> {
    set f | f in files :: f.name
  }

  /** All dependencies of the file are known or among the files given. */
  ghost predicate Ready(file: File, files: set<File>, known: set<Name>) {
    forall d | d in file.dependencies :: d in known + Names(files)
  }

  /** Whatever can be built on top of `s` is in `s`. */
  ghost predicate Closed(s: set<File>, files: set<File>, known: set<Name>, valid: File -> bool) {
    forall f | f in files && valid(f) && Ready(f, s, known) :: f in s
  }

  /** The file lies in the least fixpoint of "all dependencies available". */
  ghost predicate Available(file: File, files: set<File>, known: set<Name>, valid: File -> bool) {
    forall s: set<File> | Closed(s, files, known, valid) :: file in s
  }

  ghost function Least(files: set<File>, known: set<Name>, valid: File -> bool): set<File> {
    set f | f in files && Available(f, files, known, valid)
  }

  /** What becomes of a set of files, whatever order it is listed in. */
  ghost function OutcomeOf(files: set<File>, known: set<Name>, valid: File -> bool): Outcome {
    var least := Least(files, known, valid);
    if files <= least then Built
    else if exists f :: f in files && !valid(f) && Ready(f, least, known) then BuildFailed
    else Unresolved
  }

  lemma ReadyMonotone(file: File, small: set<File>, big: set<File>, known: set<Name>)
    requires Ready(file, small, known) && small <= big
    ensures Ready(file, big, known)
  {
    assert forall n | n in Names(small) :: n in Names(big);
  }

  /** A file that does not build is in no least fixpoint. */
  lemma InvalidNotAvailable(file: File, files: set<File>, known: set<Name>, valid: File -> bool)
    requires file in files && !valid(file)
    ensures file !in Least(files, known, valid)
  {
    assert Closed(files - {file}, files, known, valid);
  }

  /** Files that are all in every closed set, and that are closed themselves, are the least fixpoint. */
  lemma LeastIs(done: set<File>, files: set<File>, known: set<Name>, valid: File -> bool)
    requires done <= files && Closed(done, files, known, valid)
    requires forall f | f in done :: Available(f, files, known, valid)
    ensures Least(files, known, valid) == done
  {
    forall f | f in Least(files, known, valid) ensures f in done {
      assert Available(f, files, known, valid);
    }
  }

  // ---------------------------------------------------------------- the build loop

  ghost predicate Indices(files: seq<File>, order: seq<nat>) {
    forall i | 0 <= i < |order| :: order[i] < |files|
  }

  ghost function FilesAt(files: seq<File>, order: seq<nat>): set<File>
    requires Indices(files, order)
  {
    if order == [] then {} else FilesAt(files, order[..|order| - 1]) + {files[order[|order| - 1]]}
  }

  /** The file built at this place is buildable, and comes after all of its dependencies. */
  ghost predicate InTurn(files: seq<File>, order: seq<nat>, i: nat, known: set<Name>, valid: File -> bool)
    requires Indices(files, order) && i < |order|
  {
    valid(files[order[i]]) && Ready(files[order[i]], FilesAt(files, order[..i]), known)
  }

  /** Each file built once, each one buildable, and after all of its dependencies. */
  ghost predicate DependencyOrder(files: seq<File>, order: seq<nat>, known: set<Name>, valid: File -> bool) {
    && Indices(files, order)
    && (forall i, j | 0 <= i < j < |order| :: order[i] != order[j])
    && (forall i | 0 <= i < |order| :: InTurn(files, order, i, known, valid))
  }

  lemma {:induction false} FilesAtHas(files: seq<File>, order: seq<nat>, i: nat)
    requires Indices(files, order) && i < |order|
    ensures files[order[i]] in FilesAt(files, order)
  {
    if i < |order| - 1 {
      FilesAtHas(files, order[..|order| - 1], i);
    }
  }

  lemma {:induction false} FilesAtFrom(files: seq<File>, order: seq<nat>, f: File) returns (i: nat)
    requires Indices(files, order) && f in FilesAt(files, order)
    ensures i < |order| && files[order[i]] == f
  {
    if files[order[|order| - 1]] == f {
      i := |order| - 1;
    } else {
      i := FilesAtFrom(files, order[..|order| - 1], f);
    }
  }

  lemma {:induction false} FilesAtPrefix(files: seq<File>, order: seq<nat>, i: nat)
    requires Indices(files, order) && i <= |order|
    ensures FilesAt(files, order[..i]) <= FilesAt(files, order)
  {
    if i < |order| {
      assert order[..|order| - 1][..i] == order[..i];
      FilesAtPrefix(files, order[..|order| - 1], i);
    } else {
      assert order[..i] == order;
    }
  }

  method DependenciesReady(file: File, pool: set<Name>) returns (ready: bool)
    ensures ready <==> PoolHas(file, pool)
  {
    for k := 0 to |file.dependencies|
      invariant forall d | d in file.dependencies[..k] :: d in pool
    {
      if file.dependencies[k] !in pool {
        return false;
      }
      assert file.dependencies[..k + 1] == file.dependencies[..k] + [file.dependencies[k]];
    }
    assert file.dependencies[..|file.dependencies|] == file.dependencies;
    return true;
  }

  function CountFalse(flags: seq<bool>): nat {
    if flags == [] then 0 else CountFalse(flags[..|flags| - 1]) + if flags[|flags| - 1] then 0 else 1
  }

  lemma {:induction false} SetTrue(flags: seq<bool>, i: nat)
    requires i < |flags| && !flags[i]
    ensures CountFalse(flags[i := true]) == CountFalse(flags) - 1
  {
    var n := |flags| - 1;
    if i < n {
      SetTrue(flags[..n], i);
      assert flags[i := true][..n] == flags[..n][i := true];
    } else {
      assert flags[i := true][..n] == flags[..n];
    }
  }

  lemma {:induction false} NoneFalse(flags: seq<bool>)
    ensures CountFalse(flags) == 0 <==> forall i | 0 <= i < |flags| :: flags[i]
  {
    if flags != [] {
      NoneFalse(flags[..|flags| - 1]);
      assert forall i | 0 <= i < |flags| - 1 :: flags[i] == flags[..|flags| - 1][i];
    }
  }

  lemma {:induction false} AllFalse(flags: seq<bool>)
    requires forall i | 0 <= i < |flags| :: !flags[i]
    ensures CountFalse(flags) == |flags|
  {
    if flags != [] {
      AllFalse(flags[..|flags| - 1]);
    }
  }

  ghost function Listed(files: seq<File>): set<File> {
    set f | f in files
  }

  /** The state of the loop: `order` lists what has been built. */
  ghost predicate Progress(files: seq<File>, built: seq<bool>, pool: set<Name>, remaining: nat, order: seq<nat>,
                           known: set<Name>, valid: File -> bool) {
    && DependencyOrder(files, order, known, valid)
    && |built| == |files| && (forall k | 0 <= k < |files| :: built[k] <==> k in order)
    && remaining == CountFalse(built)
    && pool == known + Names(FilesAt(files, order))
    && (forall f | f in FilesAt(files, order) :: Available(f, Listed(files), known, valid))
  }

  lemma FilesSnoc(files: seq<File>, order: seq<nat>, i: nat)
    requires Indices(files, order) && i < |files|
    ensures FilesAt(files, order + [i]) == FilesAt(files, order) + {files[i]}
    ensures Names(FilesAt(files, order + [i])) == Names(FilesAt(files, order)) + {files[i].name}
  {
    assert (order + [i])[..|order|] == order;
  }

  /** A file whose dependencies are built is available if it builds. */
  lemma ReadyIsAvailable(file: File, done: set<File>, files: set<File>, known: set<Name>, valid: File -> bool)
    requires file in files && valid(file) && Ready(file, done, known)
    requires forall f | f in done :: Available(f, files, known, valid)
    ensures Available(file, files, known, valid)
  {
    forall s: set<File> | Closed(s, files, known, valid) ensures file in s {
      assert done <= s;
      ReadyMonotone(file, done, s, known);
    }
  }

  lemma OrderSnoc(files: seq<File>, order: seq<nat>, i: nat, known: set<Name>, valid: File -> bool)
    requires DependencyOrder(files, order, known, valid) && i < |files| && i !in order
    requires valid(files[i]) && Ready(files[i], FilesAt(files, order), known)
    ensures DependencyOrder(files, order + [i], known, valid)
  {
    var longer := order + [i];
    forall k | 0 <= k < |longer| ensures InTurn(files, longer, k, known, valid) {
      if k < |order| {
        assert InTurn(files, order, k, known, valid);
        assert longer[..k] == order[..k];
      } else {
        assert longer[..k] == order;
      }
    }
  }

  lemma BuildStep(files: seq<File>, built: seq<bool>, pool: set<Name>, remaining: nat, order: seq<nat>,
                  known: set<Name>, valid: File -> bool, i: nat)
    requires Progress(files, built, pool, remaining, order, known, valid) && i < |files| && !built[i]
    requires valid(files[i]) && PoolHas(files[i], pool)
    ensures remaining > 0 && i !in order
    ensures Progress(files, built[i := true], pool + {files[i].name}, remaining - 1, order + [i], known, valid)
  {
    FilesSnoc(files, order, i);
    OrderSnoc(files, order, i, known, valid);
    ReadyIsAvailable(files[i], FilesAt(files, order), Listed(files), known, valid);
    SetTrue(built, i);
  }

  lemma BuiltIsDone(files: seq<File>, built: seq<bool>, order: seq<nat>, k: nat)
    requires Indices(files, order) && |built| == |files| && forall k | 0 <= k < |files| :: built[k] <==> k in order
    requires k < |files| && built[k]
    ensures files[k] in FilesAt(files, order)
  {
    var i :| 0 <= i < |order| && order[i] == k;
    FilesAtHas(files, order, i);
  }

  lemma AllBuilt(files: seq<File>, built: seq<bool>, pool: set<Name>, order: seq<nat>, known: set<Name>,
                 valid: File -> bool)
    requires Progress(files, built, pool, 0, order, known, valid)
    ensures OutcomeOf(Listed(files), known, valid) == Built
    ensures forall k | 0 <= k < |files| :: k in order
  {
    NoneFalse(built);
    forall f | f in files ensures f in Least(Listed(files), known, valid) {
      var k :| 0 <= k < |files| && files[k] == f;
      BuiltIsDone(files, built, order, k);
    }
  }

  lemma FailedToBuild(files: seq<File>, built: seq<bool>, pool: set<Name>, remaining: nat, order: seq<nat>,
                      known: set<Name>, valid: File -> bool, i: nat)
    requires Progress(files, built, pool, remaining, order, known, valid) && i < |files|
    requires !valid(files[i]) && PoolHas(files[i], pool)
    ensures OutcomeOf(Listed(files), known, valid) == BuildFailed
  {
    var least := Least(Listed(files), known, valid);
    InvalidNotAvailable(files[i], Listed(files), known, valid);
    assert FilesAt(files, order) <= least;
    ReadyMonotone(files[i], FilesAt(files, order), least, known);
  }

  /** What a built file needs stays there. */
  lemma BuiltStaysReady(files: seq<File>, order: seq<nat>, known: set<Name>, valid: File -> bool, f: File)
    requires DependencyOrder(files, order, known, valid) && f in FilesAt(files, order)
    ensures valid(f) && Ready(f, FilesAt(files, order), known)
  {
    var i := FilesAtFrom(files, order, f);
    assert InTurn(files, order, i, known, valid);
    FilesAtPrefix(files, order, i);
    ReadyMonotone(f, FilesAt(files, order[..i]), FilesAt(files, order), known);
  }

  predicate PoolHas(file: File, pool: set<Name>) {
    forall d | d in file.dependencies :: d in pool
  }

  /** None of the first files is unbuilt with all its dependencies in the pool. */
  predicate StuckUpTo(files: seq<File>, built: seq<bool>, pool: set<Name>, i: nat)
    requires |built| == |files| && i <= |files|
  {
    forall k | 0 <= k < i :: built[k] || !PoolHas(files[k], pool)
  }

  lemma StuckNext(files: seq<File>, built: seq<bool>, pool: set<Name>, i: nat)
    requires |built| == |files| && i < |files|
    ensures StuckUpTo(files, built, pool, i + 1)
            <==> StuckUpTo(files, built, pool, i) && (built[i] || !PoolHas(files[i], pool))
  {
  }

  lemma NoProgress(files: seq<File>, built: seq<bool>, pool: set<Name>, remaining: nat, order: seq<nat>,
                   known: set<Name>, valid: File -> bool)
    requires Progress(files, built, pool, remaining, order, known, valid) && remaining > 0
    requires StuckUpTo(files, built, pool, |files|)
    ensures OutcomeOf(Listed(files), known, valid) == Unresolved
  {
    var done, all := FilesAt(files, order), Listed(files);
    forall f | f in all && Ready(f, done, known) ensures f in done {
      var k :| 0 <= k < |files| && files[k] == f;
      assert PoolHas(f, pool);
      BuiltIsDone(files, built, order, k);
    }
    LeastIs(done, all, known, valid);
    NoneFalse(built);
    var k :| 0 <= k < |files| && !built[k];
    if files[k] in done {
      BuiltStaysReady(files, order, known, valid, files[k]);
    }
    assert files[k] in all && files[k] !in done;
    forall f | f in all && Ready(f, done, known) ensures valid(f) {
      BuiltStaysReady(files, order, known, valid, f);
    }
  }

  /** What becomes of a file when its turn comes. */
  datatype Attempt = Passed | Made | Broken

  /** The body of the pass: builds the file if it is not built and all its dependencies are there. */
  method TryToBuild(file: File, built: array<bool>, i: nat, pool: set<Name>, valid: File -> bool)
    returns (attempt: Attempt)
    requires i < built.Length
    modifies built
    ensures attempt == if old(built[i]) || !PoolHas(file, pool) then Passed
                       else if valid(file) then Made else Broken
    ensures built[..] == if attempt.Made? then old(built[..])[i := true] else old(built[..])
  {
    if built[i] {
      return Passed;
    }
    var ready := DependenciesReady(file, pool);
    if !ready {
      return Passed;
    }
    if !valid(file) {
      return Broken;
    }
    built[i] := true;
    attempt := Made;
  }

  /** One turn of a pass. */
  method BuildNext(files: seq<File>, built: array<bool>, i: nat, pool: set<Name>, remaining: nat,
                   ghost order: seq<nat>, known: set<Name>, valid: File -> bool)
    returns (failed: bool, nowPool: set<Name>, nowRemaining: nat, ghost nowOrder: seq<nat>)
    requires Progress(files, built[..], pool, remaining, order, known, valid) && i < |files|
    modifies built
    ensures Progress(files, built[..], nowPool, nowRemaining, nowOrder, known, valid) && nowRemaining <= remaining
    ensures failed ==> OutcomeOf(Listed(files), known, valid) == BuildFailed
    ensures nowRemaining == remaining ==> built[..] == old(built[..]) && nowPool == pool
    ensures nowRemaining == remaining && !failed ==> built[i] || !PoolHas(files[i], pool)
  {
    ghost var flags := built[..];
    assert flags[i] == built[i];
    var attempt := TryToBuild(files[i], built, i, pool, valid);
    failed, nowPool, nowRemaining, nowOrder := attempt.Broken?, pool, remaining, order;
    if attempt.Broken? {
      FailedToBuild(files, flags, pool, remaining, order, known, valid, i);
    } else if attempt.Made? {
      BuildStep(files, flags, pool, remaining, order, known, valid, i);
      nowPool, nowRemaining, nowOrder := pool + {files[i].name}, remaining - 1, order + [i];
    }
  }

  /** One pass: builds the files that are ready when their turn comes. */
  method BuildPass(files: seq<File>, built: array<bool>, pool: set<Name>, remaining: nat, ghost order: seq<nat>,
                   known: set<Name>, valid: File -> bool)
    returns (failed: bool, nowPool: set<Name>, nowRemaining: nat, ghost nowOrder: seq<nat>)
    requires Progress(files, built[..], pool, remaining, order, known, valid)
    modifies built
    ensures Progress(files, built[..], nowPool, nowRemaining, nowOrder, known, valid)
    ensures failed ==> OutcomeOf(Listed(files), known, valid) == BuildFailed
    ensures nowRemaining <= remaining
    ensures !failed && nowRemaining == remaining ==> StuckUpTo(files, built[..], nowPool, |files|)
  {
    failed, nowPool, nowRemaining, nowOrder := false, pool, remaining, order;
    for i := 0 to |files|
      invariant Progress(files, built[..], nowPool, nowRemaining, nowOrder, known, valid) && nowRemaining <= remaining
      invariant nowRemaining == remaining ==> StuckUpTo(files, built[..], nowPool, i)
    {
      StuckNext(files, built[..], nowPool, i);
      failed, nowPool, nowRemaining, nowOrder :=
        BuildNext(files, built, i, nowPool, nowRemaining, nowOrder, known, valid);
      if failed {
        return;
      }
    }
  }

  /** Passes over the files until all are built, one does not build, or a pass makes no progress. */
  method BuildFiles(files: seq<File>, known: set<Name>, valid: File -> bool)
    returns (outcome: Outcome, ghost order: seq<nat>)
    ensures outcome == OutcomeOf(Listed(files), known, valid)
    ensures DependencyOrder(files, order, known, valid)
    ensures outcome == Built ==> forall k | 0 <= k < |files| :: k in order
  {
    var built := new bool[|files|](_ => false);
    var pool, remaining: nat := known, |files|;
    order := [];
    AllFalse(built[..]);
    while remaining > 0
      invariant Progress(files, built[..], pool, remaining, order, known, valid)
    {
      var before := remaining;
      var failed;
      failed, pool, remaining, order := BuildPass(files, built, pool, remaining, order, known, valid);
      if failed {
        return BuildFailed, order;
      }
      if remaining == before {
        NoProgress(files, built[..], pool, remaining, order, known, valid);
        return Unresolved, order;
      }
    }
    AllBuilt(files, built[..], pool, order, known, valid);
    outcome := Built;
  }

  /** Any listing of the same files has the same outcome. */
  lemma SameForPermutations(files: seq<File>, listed: seq<File>, known: set<Name>, valid: File -> bool)
    requires multiset(files) == multiset(listed)
    ensures OutcomeOf(Listed(files), known, valid) == OutcomeOf(Listed(listed), known, valid)
  {
    forall f ensures f in files <==> f in listed {
      assert f in multiset(files) <==> f in multiset(listed);
    }
    assert Listed(files) == Listed(listed);
  }

  /** The build succeeds exactly when every file lies in the least fixpoint. */
  lemma BuiltIff(files: seq<File>, known: set<Name>, valid: File -> bool)
    ensures OutcomeOf(Listed(files), known, valid) == Built
            <==> forall f | f in files :: Available(f, Listed(files), known, valid)
  {
    if OutcomeOf(Listed(files), known, valid) == Built {
      forall f | f in files ensures Available(f, Listed(files), known, valid) {
        assert f in Listed(files);
      }
    }
  }
}
