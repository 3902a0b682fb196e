/**
 The status of recovery test runs, written by the scheduler, by the endpoint that triggers a run on demand,
 and by the appliances. The endpoint creates runs and makes the same unguarded running write as the scheduler,
 but no write when enqueueing fails: its runs are those of the actions Create and EnqueueOk.
 */
module RunLifecycle {
  import opened Wrappers

  datatype Status = Pending | Running | Passed | Failed
  {
    predicate Final() { Passed? || Failed? }

    // How far the run has come.
    function Rank(): (r: nat)
      ensures (r == 0 <==> Pending?) && (r == 2 <==> Final()) && r <= 2
    {
      if Pending? then 0 else if Running? then 1 else 2
    }
  }

  datatype StepStatus = StepRunning | StepPassed | StepFailed | StepOther

  datatype TestRun = TestRun(workload: int, status: Status, startedAt: Option<int>, completedAt: Option<int>)

  datatype StepRow = StepRow(run: int, name: string, status: StepStatus)

  // `owner` gives each workload's appliance.
  datatype Db = Db(owner: map<int, int>, runs: map<int, TestRun>, steps: seq<StepRow>)

  datatype Action =
    | Create(run: int, workload: int)
    | EnqueueOk(run: int, now: int)
    | EnqueueFailed(run: int, now: int)
    | Progress(run: int, appliance: int, step: string, stepStatus: StepStatus, now: int)
    | Result(run: int, appliance: int, passed: bool, now: int)

  predicate Owns(db: Db, run: int, appliance: int) {
    && run in db.runs
    && db.runs[run].workload in db.owner
    && db.owner[db.runs[run].workload] == appliance
  }

  // The posts the service refuses with a permission error.
  predicate Refused(db: Db, a: Action) {
    match a
    case Progress(run, appliance, _, _, _) => !Owns(db, run, appliance)
    case Result(run, appliance, _, _) => !Owns(db, run, appliance)
    case _ => false
  }

  // An update of a row that does not exist has no effect.
  function Updated(db: Db, run: int, r: TestRun): Db {
    if run in db.runs then db.(runs := db.runs[run := r]) else db
  }

  function Verdict(passed: bool): Status { if passed then Passed else Failed }

  function Next(db: Db, a: Action): Db {
    if Refused(db, a) then db
    else
      match a
      case Create(run, w) =>
        if run in db.runs then db else db.(runs := db.runs[run := TestRun(w, Pending, None, None)])
      case EnqueueOk(run, now) =>
        if run in db.runs then Updated(db, run, db.runs[run].(status := Running, startedAt := Some(now))) else db
      case EnqueueFailed(run, now) =>
        if run in db.runs then Updated(db, run, db.runs[run].(status := Failed, completedAt := Some(now))) else db
      case Progress(run, _, step, status, now) =>
        var logged := db.(steps := db.steps + [StepRow(run, step, status)]);
        if status == StepRunning && db.runs[run].status == Pending
        then Updated(logged, run, db.runs[run].(status := Running, startedAt := Some(now)))
        else logged
      case Result(run, _, passed, now) =>
        Updated(db, run, db.runs[run].(status := Verdict(passed), completedAt := Some(now)))
  }

  datatype PermissionError = PermissionError(run: int, appliance: int)

  class RunStore {
    const owner: map<int, int>
    var runs: map<int, TestRun>
    var steps: seq<StepRow>

    constructor (owner: map<int, int>)
      ensures this.owner == owner && runs == map[] && steps == []
    {
      this.owner := owner;
      runs, steps := map[], [];
    }

    function Contents(): Db
      reads this
    {
      Db(owner, runs, steps)
    }

    predicate RunBelongsTo(run: int, appliance: int)
      reads this
    {
      run in runs && runs[run].workload in owner && owner[runs[run].workload] == appliance
    }

    // Creating the run and writing the enqueue outcome are two commits.
    method CreateRun(run: int, workload: int)
      requires run !in runs
      modifies this
      ensures Contents() == Next(old(Contents()), Create(run, workload))
      ensures runs == old(runs)[run := TestRun(workload, Pending, None, None)] && steps == old(steps)
    {
      runs := runs[run := TestRun(workload, Pending, None, None)];
    }

    method RecordEnqueue(run: int, enqueued: bool, now: int)
      modifies this
      ensures Contents() == Next(old(Contents()), if enqueued then EnqueueOk(run, now) else EnqueueFailed(run, now))
      ensures steps == old(steps) && runs.Keys == old(runs).Keys
      ensures forall k :: k in runs && k != run ==> runs[k] == old(runs)[k]
      ensures run in runs ==>
        runs[run] == if enqueued then old(runs)[run].(status := Running, startedAt := Some(now))
                     else old(runs)[run].(status := Failed, completedAt := Some(now))
    {
      if run in runs {
        if enqueued {
          runs := runs[run := runs[run].(status := Running, startedAt := Some(now))];
        } else {
          runs := runs[run := runs[run].(status := Failed, completedAt := Some(now))];
        }
      }
    }

    method UpdateRunProgress(run: int, appliance: int, step: string, status: StepStatus, now: int)
      returns (r: Wrappers.Result<(), PermissionError>)
      modifies this
      ensures Contents() == Next(old(Contents()), Progress(run, appliance, step, status, now))
      ensures r.Err? <==> Refused(old(Contents()), Progress(run, appliance, step, status, now))
      ensures r.Ok? <==>
        run in old(runs) && old(runs)[run].workload in owner && owner[old(runs)[run].workload] == appliance
      ensures r.Err? ==> runs == old(runs) && steps == old(steps)
      ensures r.Ok? ==> steps == old(steps) + [StepRow(run, step, status)]
      ensures r.Ok? ==>
        runs == if status == StepRunning && old(runs)[run].status == Pending
                then old(runs)[run := old(runs)[run].(status := Running, startedAt := Some(now))] else old(runs)
    {
      if !RunBelongsTo(run, appliance) {
        return Err(PermissionError(run, appliance));
      }
      steps := steps + [StepRow(run, step, status)];
      if status == StepRunning {
        if runs[run].status == Pending {
          runs := runs[run := runs[run].(status := Running, startedAt := Some(now))];
        }
      }
      return Ok(());
    }

    method FinaliseRun(run: int, appliance: int, passed: bool, now: int)
      returns (r: Wrappers.Result<(), PermissionError>)
      modifies this
      ensures Contents() == Next(old(Contents()), Result(run, appliance, passed, now))
      ensures r.Err? <==> Refused(old(Contents()), Result(run, appliance, passed, now))
      ensures r.Ok? <==>
        run in old(runs) && old(runs)[run].workload in owner && owner[old(runs)[run].workload] == appliance
      ensures steps == old(steps) && (r.Err? ==> runs == old(runs))
      ensures r.Ok? ==>
        runs == old(runs)[run := old(runs)[run].(status := if passed then Passed else Failed, completedAt := Some(now))]
    {
      if !RunBelongsTo(run, appliance) {
        return Err(PermissionError(run, appliance));
      }
      runs := runs[run := runs[run].(status := if passed then Passed else Failed, completedAt := Some(now))];
      return Ok(());
    }
  }

  /******* Single steps *******/

  // The writes that set a final status, and those that set a status without looking at the old one.
  predicate WritesFinal(db: Db, a: Action, run: int) {
    a.run == run && run in db.runs && !Refused(db, a) && (a.EnqueueFailed? || a.Result?)
  }

  predicate WritesBlindly(db: Db, a: Action, run: int) {
    a.run == run && run in db.runs && !Refused(db, a) && (a.EnqueueOk? || a.EnqueueFailed? || a.Result?)
  }

  // A status moves backwards exactly when a late "running" write hits a final run.
  lemma MovesBackExactlyWhen(db: Db, a: Action, run: int)
    requires run in db.runs
    ensures run in Next(db, a).runs
    ensures Next(db, a).runs[run].status.Rank() < db.runs[run].status.Rank()
       <==> a.EnqueueOk? && a.run == run && db.runs[run].status.Final()
  {
  }

  // A final status changes exactly on the late "running" write and on a blind write of the other verdict.
  lemma FinalChangesExactlyWhen(db: Db, a: Action, run: int)
    requires run in db.runs && db.runs[run].status.Final()
    ensures Next(db, a).runs[run].status != db.runs[run].status <==>
      && WritesBlindly(db, a, run)
      && (a.EnqueueFailed? ==> db.runs[run].status == Passed)
      && (a.Result? ==> db.runs[run].status != Verdict(a.passed))
  {
  }

  /******* Every interleaving *******/

  // The states along a run of the system; state n is reached by the first n actions.
  function After(start: Db, actions: seq<Action>, n: nat): Db
    requires n <= |actions|
  {
    if n == 0 then start else Next(After(start, actions, n - 1), actions[n - 1])
  }

  // Action i writes a final status of the run, or writes its status without looking at the old one.
  ghost predicate FinalAt(start: Db, actions: seq<Action>, i: nat, run: int)
    requires i < |actions|
  {
    WritesFinal(After(start, actions, i), actions[i], run)
  }

  ghost predicate BlindAt(start: Db, actions: seq<Action>, i: nat, run: int)
    requires i < |actions|
  {
    WritesBlindly(After(start, actions, i), actions[i], run)
  }

  predicate IsEnqueueOk(a: Action, run: int) { a.EnqueueOk? && a.run == run }

  // No "running" write comes after a final write of the same run.
  ghost predicate RunningBeforeFinal(start: Db, actions: seq<Action>) {
    forall i, j, run :: 0 <= i < j < |actions| && FinalAt(start, actions, i, run) ==> !IsEnqueueOk(actions[j], run)
  }

  // No blind write at all does: the enqueue outcome precedes a single verdict.
  ghost predicate SingleVerdict(start: Db, actions: seq<Action>) {
    forall i, j, run :: 0 <= i < j < |actions| && FinalAt(start, actions, i, run) ==> !BlindAt(start, actions, j, run)
  }

  ghost predicate NoRuns(db: Db) { db.runs == map[] }

  // A final status was written by some earlier action.
  lemma {:induction false} FinalWasWritten(start: Db, actions: seq<Action>, n: nat, run: int) returns (i: nat)
    requires NoRuns(start) && n <= |actions|
    requires run in After(start, actions, n).runs && After(start, actions, n).runs[run].status.Final()
    ensures i < n && FinalAt(start, actions, i, run)
  {
    var before := After(start, actions, n - 1);
    if FinalAt(start, actions, n - 1, run) {
      i := n - 1;
    } else {
      assert run in before.runs && before.runs[run].status.Final();
      i := FinalWasWritten(start, actions, n - 1, run);
    }
  }

  /******* What the status says *******/

  // In state n the run belongs to a workload of this appliance.
  ghost predicate OwnedAt(start: Db, actions: seq<Action>, n: nat, run: int, appliance: int)
    requires n <= |actions|
  {
    var db := After(start, actions, n);
    run in db.runs && db.runs[run].workload in start.owner && start.owner[db.runs[run].workload] == appliance
  }

  // Action i writes the run's status whatever it was: an enqueue outcome, or a result from the owner.
  ghost predicate WritesAt(start: Db, actions: seq<Action>, i: nat, run: int)
    requires i < |actions|
  {
    var a := actions[i];
    && a.run == run && run in After(start, actions, i).runs
    && (a.EnqueueOk? || a.EnqueueFailed? || (a.Result? && OwnedAt(start, actions, i, run, a.appliance)))
  }

  // Action i is the last such write among the first n actions.
  ghost predicate LastWrite(start: Db, actions: seq<Action>, n: nat, run: int, i: nat)
    requires n <= |actions|
  {
    i < n && WritesAt(start, actions, i, run) && forall j :: i < j < n ==> !WritesAt(start, actions, j, run)
  }

  // Action i is the owner's report that a step of the run has started.
  ghost predicate StartsAt(start: Db, actions: seq<Action>, i: nat, run: int)
    requires i < |actions|
  {
    var a := actions[i];
    a.run == run && a.Progress? && a.stepStatus == StepRunning && OwnedAt(start, actions, i, run, a.appliance)
  }

  ghost predicate Unwritten(start: Db, actions: seq<Action>, n: nat, run: int)
    requires n <= |actions|
  {
    forall i :: 0 <= i < n ==> !WritesAt(start, actions, i, run)
  }

  // What the last write leaves: the recorded status is its own; without one the run is running once
  // its owner has reported a started step, and pending before.
  ghost predicate StatusIsLastWrite(start: Db, actions: seq<Action>, n: nat, run: int, v: Status)
    requires n <= |actions|
  {
    && (v == Passed <==>
          exists i: nat :: LastWrite(start, actions, n, run, i) && actions[i].Result? && actions[i].passed)
    && (v == Failed <==>
          exists i: nat :: LastWrite(start, actions, n, run, i)
            && (actions[i].EnqueueFailed? || (actions[i].Result? && !actions[i].passed)))
    && (v == Running <==>
          || (exists i: nat :: LastWrite(start, actions, n, run, i) && actions[i].EnqueueOk?)
          || (Unwritten(start, actions, n, run) && exists i :: 0 <= i < n && StartsAt(start, actions, i, run)))
    && (v == Pending <==>
          Unwritten(start, actions, n, run) && forall i :: 0 <= i < n ==> !StartsAt(start, actions, i, run))
  }

  lemma {:induction false} OwnersStay(start: Db, actions: seq<Action>, n: nat)
    requires n <= |actions|
    ensures After(start, actions, n).owner == start.owner
  {
    if n > 0 {
      OwnersStay(start, actions, n - 1);
    }
  }

  // The state of the proof: the run's status is v, and the last write is the one at w, or there is
  // none and `started` says whether its owner has reported a started step.
  ghost predicate Follows(start: Db, actions: seq<Action>, n: nat, run: int, v: Status, w: Option<nat>, started: bool)
    requires n <= |actions|
  {
    match w
    case Some(i) =>
      LastWrite(start, actions, n, run, i)
      && v == (if actions[i].EnqueueOk? then Running
               else if actions[i].Result? && actions[i].passed then Passed else Failed)
    case None =>
      && Unwritten(start, actions, n, run)
      && (started <==> exists i :: 0 <= i < n && StartsAt(start, actions, i, run))
      && v == if started then Running else Pending
  }

  lemma FollowsDecides(
    start: Db, actions: seq<Action>, n: nat, run: int, v: Status, w: Option<nat>, started: bool)
    requires n <= |actions| && Follows(start, actions, n, run, v, w, started)
    ensures StatusIsLastWrite(start, actions, n, run, v)
  {
    if w.Some? {
      forall i: nat | LastWrite(start, actions, n, run, i) ensures i == w.value {
        assert !(i < w.value) && !(w.value < i);
      }
    }
  }

  lemma FollowsStep(
    start: Db, actions: seq<Action>, n: nat, run: int, w: Option<nat>, started: bool)
    returns (w': Option<nat>, started': bool)
    requires n < |actions| && run in After(start, actions, n).runs
    requires Follows(start, actions, n, run, After(start, actions, n).runs[run].status, w, started)
    ensures run in After(start, actions, n + 1).runs
    ensures Follows(start, actions, n + 1, run, After(start, actions, n + 1).runs[run].status, w', started')
  {
    OwnersStay(start, actions, n);
    if WritesAt(start, actions, n, run) {
      w', started' := Some(n), started;
    } else {
      w', started' := w, started || StartsAt(start, actions, n, run);
    }
  }

  lemma {:induction false} FollowsUpTo(start: Db, actions: seq<Action>, n: nat, run: int)
    returns (w: Option<nat>, started: bool)
    requires NoRuns(start) && n <= |actions| && run in After(start, actions, n).runs
    ensures Follows(start, actions, n, run, After(start, actions, n).runs[run].status, w, started)
  {
    if run in After(start, actions, n - 1).runs {
      w, started := FollowsUpTo(start, actions, n - 1, run);
      w, started := FollowsStep(start, actions, n - 1, run, w, started);
    } else {
      w, started := None, false;
      NotBefore(start, actions, n - 1, run);
    }
  }

  // A run that does not exist yet was never written nor started.
  lemma {:induction false} NotBefore(start: Db, actions: seq<Action>, n: nat, run: int)
    requires n <= |actions| && run !in After(start, actions, n).runs
    ensures Unwritten(start, actions, n, run)
    ensures forall i :: 0 <= i < n ==> !StartsAt(start, actions, i, run)
  {
    if n > 0 {
      NotBefore(start, actions, n - 1, run);
    }
  }

  // Over every sequence of actions a run's status is the one its last unguarded write left.
  lemma StatusTellsLastWrite(start: Db, actions: seq<Action>, n: nat, run: int)
    requires NoRuns(start) && n <= |actions| && run in After(start, actions, n).runs
    ensures StatusIsLastWrite(start, actions, n, run, After(start, actions, n).runs[run].status)
  {
    var w, started := FollowsUpTo(start, actions, n, run);
    FollowsDecides(start, actions, n, run, After(start, actions, n).runs[run].status, w, started);
  }

  // When "running" is never written after a final write, statuses only move forward.
  lemma {:induction false} StatusOnlyMovesForward(start: Db, actions: seq<Action>, m: nat, n: nat, run: int)
    requires NoRuns(start) && RunningBeforeFinal(start, actions)
    requires m <= n <= |actions| && run in After(start, actions, m).runs
    ensures run in After(start, actions, n).runs
    ensures After(start, actions, m).runs[run].status.Rank() <= After(start, actions, n).runs[run].status.Rank()
  {
    if m < n {
      StatusOnlyMovesForward(start, actions, m, n - 1, run);
      var before := After(start, actions, n - 1);
      MovesBackExactlyWhen(before, actions[n - 1], run);
      if before.runs[run].status.Final() {
        var i := FinalWasWritten(start, actions, n - 1, run);
        assert !IsEnqueueOk(actions[n - 1], run);
      }
    }
  }

  ghost predicate StepForward(start: Db, actions: seq<Action>, n: nat, run: int)
    requires n < |actions|
  {
    run in After(start, actions, n).runs ==>
      && run in After(start, actions, n + 1).runs
      && After(start, actions, n).runs[run].status.Rank() <= After(start, actions, n + 1).runs[run].status.Rank()
  }

  lemma {:induction false} FinalStays(start: Db, actions: seq<Action>, m: nat, n: nat, run: int)
    requires m <= n <= |actions|
    requires forall k :: m <= k < n ==> StepForward(start, actions, k, run)
    requires run in After(start, actions, m).runs && After(start, actions, m).runs[run].status.Final()
    ensures run in After(start, actions, n).runs && After(start, actions, n).runs[run].status.Final()
  {
    if m < n {
      FinalStays(start, actions, m, n - 1, run);
      assert StepForward(start, actions, n - 1, run);
    }
  }

  // Exactly those interleavings keep every status moving forward.
  lemma ForwardExactlyWhen(start: Db, actions: seq<Action>)
    requires NoRuns(start)
    ensures (forall n, run :: 0 <= n < |actions| ==> StepForward(start, actions, n, run))
       <==> RunningBeforeFinal(start, actions)
  {
    if RunningBeforeFinal(start, actions) {
      forall n, run | 0 <= n < |actions| ensures StepForward(start, actions, n, run) {
        if run in After(start, actions, n).runs {
          StatusOnlyMovesForward(start, actions, n, n + 1, run);
        }
      }
    }
    if forall n, run :: 0 <= n < |actions| ==> StepForward(start, actions, n, run) {
      forall i, j, run | 0 <= i < j < |actions| && FinalAt(start, actions, i, run)
        ensures !IsEnqueueOk(actions[j], run)
      {
        FinalStays(start, actions, i + 1, j, run);
        MovesBackExactlyWhen(After(start, actions, j), actions[j], run);
        assert StepForward(start, actions, j, run);
      }
    }
  }

  // The status a blind write sets.
  function Written(a: Action): Status
    requires a.EnqueueOk? || a.EnqueueFailed? || a.Result?
  {
    if a.EnqueueOk? then Running else if a.EnqueueFailed? then Failed else Verdict(a.passed)
  }

  // Action k is a blind write of another status than v to the run.
  ghost predicate Overturns(start: Db, actions: seq<Action>, k: nat, run: int, v: Status)
    requires k < |actions|
  {
    BlindAt(start, actions, k, run) && Written(actions[k]) != v
  }

  ghost predicate HasStatus(start: Db, actions: seq<Action>, n: nat, run: int, v: Status)
    requires n <= |actions|
  {
    run in After(start, actions, n).runs && After(start, actions, n).runs[run].status == v
  }

  // One step keeps a final status exactly when it is no blind write of another one.
  lemma FinalKeptExactlyWhen(start: Db, actions: seq<Action>, k: nat, run: int, v: Status)
    requires k < |actions| && v.Final() && HasStatus(start, actions, k, run, v)
    ensures HasStatus(start, actions, k + 1, run, v) <==> !Overturns(start, actions, k, run, v)
  {
    MovesBackExactlyWhen(After(start, actions, k), actions[k], run);
    FinalChangesExactlyWhen(After(start, actions, k), actions[k], run);
  }

  lemma {:induction false} FinalKeptUntil(start: Db, actions: seq<Action>, m: nat, n: nat, run: int, v: Status)
    requires m <= n <= |actions| && v.Final() && HasStatus(start, actions, m, run, v)
    requires forall k :: m <= k < n ==> !Overturns(start, actions, k, run, v)
    ensures HasStatus(start, actions, n, run, v)
  {
    if m < n {
      FinalKeptUntil(start, actions, m, n - 1, run, v);
      FinalKeptExactlyWhen(start, actions, n - 1, run, v);
    }
  }

  // Over every run of the system a final status is kept for good exactly when no later running write
  // and no later blind write of the other verdict hits the run.
  lemma FinalForeverExactlyWhen(start: Db, actions: seq<Action>, m: nat, run: int, v: Status)
    requires m <= |actions| && v.Final() && HasStatus(start, actions, m, run, v)
    ensures (forall n :: m <= n <= |actions| ==> HasStatus(start, actions, n, run, v))
       <==> (forall k :: m <= k < |actions| ==> !Overturns(start, actions, k, run, v))
  {
    if forall k :: m <= k < |actions| ==> !Overturns(start, actions, k, run, v) {
      forall n | m <= n <= |actions| ensures HasStatus(start, actions, n, run, v) {
        FinalKeptUntil(start, actions, m, n, run, v);
      }
    } else {
      var k :| m <= k < |actions| && Overturns(start, actions, k, run, v);
      if HasStatus(start, actions, k, run, v) {
        FinalKeptExactlyWhen(start, actions, k, run, v);
        assert !HasStatus(start, actions, k + 1, run, v);
      }
    }
  }

  // In particular when the enqueue outcome precedes a single verdict.
  lemma FinalStatusIsForever(start: Db, actions: seq<Action>, m: nat, n: nat, run: int)
    requires NoRuns(start) && SingleVerdict(start, actions)
    requires m <= n <= |actions| && run in After(start, actions, m).runs
    requires After(start, actions, m).runs[run].status.Final()
    ensures run in After(start, actions, n).runs
    ensures After(start, actions, n).runs[run].status == After(start, actions, m).runs[run].status
  {
    var v := After(start, actions, m).runs[run].status;
    var i := FinalWasWritten(start, actions, m, run);
    forall k | m <= k < |actions| ensures !Overturns(start, actions, k, run, v) {
      assert !BlindAt(start, actions, k, run);
    }
    FinalKeptUntil(start, actions, m, n, run, v);
  }

  // The appliance can finish before the scheduler's own write: the run then ends up running, with its
  // completion time set.
  lemma LateEnqueueWriteReopensRun()
    ensures var actions := [Create(1, 7), Result(1, 9, true, 10), EnqueueOk(1, 11)];
      var start := Db(map[7 := 9], map[], []);
      && After(start, actions, 2).runs[1] == TestRun(7, Passed, None, Some(10))
      && After(start, actions, 3).runs[1] == TestRun(7, Running, Some(11), Some(10))
  {
    var actions := [Create(1, 7), Result(1, 9, true, 10), EnqueueOk(1, 11)];
    var start := Db(map[7 := 9], map[], []);
    assert After(start, actions, 1) == Next(start, actions[0]);
    assert After(start, actions, 2) == Next(After(start, actions, 1), actions[1]);
    assert After(start, actions, 3) == Next(After(start, actions, 2), actions[2]);
  }

  /******* Posts from appliances that do not own the run *******/

  // The actions that were not refused when they came.
  function Heard(start: Db, actions: seq<Action>, n: nat): (r: seq<Action>)
    requires n <= |actions|
    ensures |r| <= n
  {
    if n == 0 then []
    else Heard(start, actions, n - 1)
         + if Refused(After(start, actions, n - 1), actions[n - 1]) then [] else [actions[n - 1]]
  }

  lemma {:induction false} AfterExtends(start: Db, actions: seq<Action>, more: seq<Action>, n: nat)
    requires n <= |actions|
    ensures After(start, actions + more, n) == After(start, actions, n)
  {
    if n > 0 {
      AfterExtends(start, actions, more, n - 1);
    }
  }

  // Refused posts leave no trace: every run of the system ends as it would without them.
  lemma {:induction false} ForeignPostsAreInvisible(start: Db, actions: seq<Action>, n: nat)
    requires n <= |actions|
    ensures After(start, Heard(start, actions, n), |Heard(start, actions, n)|) == After(start, actions, n)
  {
    if n > 0 {
      ForeignPostsAreInvisible(start, actions, n - 1);
      var front := Heard(start, actions, n - 1);
      if !Refused(After(start, actions, n - 1), actions[n - 1]) {
        AfterExtends(start, front, [actions[n - 1]], |front|);
        assert Heard(start, actions, n) == front + [actions[n - 1]];
      } else {
        assert Heard(start, actions, n) == front;
      }
    }
  }
}
