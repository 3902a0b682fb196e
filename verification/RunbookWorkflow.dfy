/** The appliance's runbook workflow: steps one at a time in number order, against the planned waves. */
module RunbookWorkflow {
  import opened Wrappers
  import opened RunbookEngine
  import opened Sorting

  datatype StepStatus = Pending | Running | Completed | Failed | Skipped | WaitingGate

  datatype RunStatus = RunCompleted | RunFailed | RolledBack

  // A fetched execution step: the runbook step and its recorded status.
  datatype ExecStep = ExecStep(step: Step, status: StepStatus)

  // An executed step with the result posted back for it.
  datatype Posted = Posted(step: ExecStep, result: StepStatus)

  function SeqKey(e: ExecStep): real { e.step.seqNo as real }

  predicate Done(e: ExecStep) { e.status == Completed || e.status == Skipped }

  function Todo(steps: seq<ExecStep>): seq<ExecStep> {
    if steps == [] then []
    else (if Done(steps[0]) then [] else [steps[0]]) + Todo(steps[1..])
  }

  function Marking(e: ExecStep): OnFailure { e.step.onFailure.GetOr(Stop) }

  // A failed step ends the run when it is marked stop or rollback; any other marking goes on.
  predicate Ends(p: Posted) {
    p.result == Failed && (Marking(p.step) == Stop || Marking(p.step) == Rollback)
  }

  // What a run over the steps still to do amounts to when results(i) is what its i-th execute_step
  // activity answers: which of them it executes, with which results posted, and how it ends.
  ghost predicate Outcome(todo: seq<ExecStep>, results: nat -> StepStatus, log: seq<Posted>, status: RunStatus) {
    && |log| <= |todo|
    && (forall i :: 0 <= i < |log| ==> log[i] == Posted(todo[i], results(i)))
    && (forall i :: 0 <= i < |log| - 1 ==> !Ends(log[i]))
    && (status == RunCompleted <==> log == [] || !Ends(log[|log| - 1]))
    && (status == RunCompleted ==> |log| == |todo|)
    && (status != RunCompleted ==>
          status == (if Marking(log[|log| - 1].step) == Stop then RunFailed else RolledBack))
  }

  // The loop's state: `ran` was executed, `rest` is still to do, and nothing has ended the run.
  ghost predicate Progressed(
    todo: seq<ExecStep>, results: nat -> StepStatus, ran: seq<ExecStep>, rest: seq<ExecStep>, log: seq<Posted>)
  {
    && todo == ran + rest && |log| == |ran|
    && forall k :: 0 <= k < |log| ==> log[k] == Posted(ran[k], results(k)) && !Ends(log[k])
  }

  lemma OneMoreRan(
    todo: seq<ExecStep>, results: nat -> StepStatus,
    ran: seq<ExecStep>, e: ExecStep, rest: seq<ExecStep>, log: seq<Posted>)
    requires Progressed(todo, results, ran, [e] + rest, log)
    ensures var p := Posted(e, results(|log|));
      if Ends(p) then Outcome(todo, results, log + [p], if Marking(e) == Stop then RunFailed else RolledBack)
      else Progressed(todo, results, ran + [e], rest, log + [p])
  {
    assert ran + ([e] + rest) == (ran + [e]) + rest;
  }

  lemma AllRan(todo: seq<ExecStep>, results: nat -> StepStatus, ran: seq<ExecStep>, log: seq<Posted>)
    requires Progressed(todo, results, ran, [], log)
    ensures Outcome(todo, results, log, RunCompleted)
  {
    assert ran + [] == ran;
  }

  lemma TodoAt(ordered: seq<ExecStep>, i: nat)
    requires i < |ordered|
    ensures Todo(ordered[i..]) == (if Done(ordered[i]) then [] else [ordered[i]]) + Todo(ordered[i + 1..])
  {
    assert ordered[i..][1..] == ordered[i + 1..];
  }

  method Run(steps: seq<ExecStep>, results: nat -> StepStatus) returns (log: seq<Posted>, status: RunStatus)
    ensures Outcome(Todo(SortBy(steps, SeqKey)), results, log, status)
  {
    var ordered := SortBy(steps, SeqKey);
    status, log := RunCompleted, [];
    ghost var todo, ran: seq<ExecStep> := Todo(ordered), [];
    assert ordered[0..] == ordered && todo == ran + todo;
    var i := 0;
    while i < |ordered|
      invariant status == RunCompleted && 0 <= i <= |ordered|
      invariant Progressed(todo, results, ran, Todo(ordered[i..]), log)
    {
      var e := ordered[i];
      TodoAt(ordered, i);
      i := i + 1;
      if Done(e) {
        continue;
      }
      OneMoreRan(todo, results, ran, e, Todo(ordered[i..]), log);
      ran := ran + [e];
      var result := results(|log|);
      log := log + [Posted(e, result)];
      if result == Failed {
        if Marking(e) == Stop {
          status := RunFailed;
          break;
        } else if Marking(e) == Rollback {
          status := RolledBack;
          break;
        }
      }
    }
    if status == RunCompleted {
      assert ordered[i..] == [];
      AllRan(todo, results, ran, log);
    }
  }

  lemma {:induction false} TodoMembers(steps: seq<ExecStep>)
    ensures forall e :: e in Todo(steps) <==> e in steps && !Done(e)
  {
    if steps != [] {
      TodoMembers(steps[1..]);
      assert steps == [steps[0]] + steps[1..];
    }
  }

  // A recorded status that leaves the step to be executed.
  ghost predicate Open(e: ExecStep) { e.status !in {Completed, Skipped} }

  function Executed(log: seq<Posted>): (r: seq<ExecStep>)
    ensures |r| == |log| && forall i :: 0 <= i < |log| ==> r[i] == log[i].step
  {
    seq(|log|, i requires 0 <= i < |log| => log[i].step)
  }

  // A result that fails a step whose marking asks to stop (also by default), and one that asks to roll back.
  ghost predicate FailsToStop(p: Posted) {
    p.result == Failed && (p.step.step.onFailure == None || p.step.step.onFailure == Some(Stop))
  }

  ghost predicate FailsToRollback(p: Posted) { p.result == Failed && p.step.step.onFailure == Some(Rollback) }

  // How a run ends, by results and markings: it goes on after everything but these two, and each of
  // them decides the final status.
  lemma RunEndsExactlyWhen(todo: seq<ExecStep>, results: nat -> StepStatus, log: seq<Posted>, status: RunStatus)
    requires Outcome(todo, results, log, status)
    ensures forall i :: 0 <= i < |log| - 1 ==> !FailsToStop(log[i]) && !FailsToRollback(log[i])
    ensures status == RunFailed <==> log != [] && FailsToStop(log[|log| - 1])
    ensures status == RolledBack <==> log != [] && FailsToRollback(log[|log| - 1])
    ensures status == RunCompleted ==> |log| == |todo|
  {
  }

  lemma {:induction false} TodoCounts(steps: seq<ExecStep>, e: ExecStep)
    ensures multiset(Todo(steps))[e] == if Open(e) then multiset(steps)[e] else 0
  {
    if steps != [] {
      TodoCounts(steps[1..], e);
      assert steps == [steps[0]] + steps[1..];
    }
  }

  // The open steps, as often as they occur, in number order.
  ghost predicate OpenInOrder(steps: seq<ExecStep>, todo: seq<ExecStep>) {
    && (forall e :: e in todo <==> e in steps && Open(e))
    && (forall i, j :: 0 <= i < j < |todo| ==> todo[i].step.seqNo <= todo[j].step.seqNo)
    && forall e :: Open(e) ==> multiset(todo)[e] == multiset(steps)[e]
  }

  lemma TodoIsOpenInOrder(steps: seq<ExecStep>)
    ensures OpenInOrder(steps, Todo(SortBy(steps, SeqKey)))
  {
    var order := SortBy(steps, SeqKey);
    SortOrdered(steps, SeqKey);
    SortMembers(steps, SeqKey);
    TodoMembers(order);
    TodoKeepsOrder(order);
    forall i, j | 0 <= i < j < |Todo(order)| ensures Todo(order)[i].step.seqNo <= Todo(order)[j].step.seqNo {
      assert SeqKey(Todo(order)[i]) <= SeqKey(Todo(order)[j]);
    }
    forall e | Open(e) ensures multiset(Todo(order))[e] == multiset(steps)[e] {
      TodoCounts(order, e);
    }
  }

  // What a run over the steps executes: open ones only, in number order, each with the result its
  // activity gave; all of them when it completes, and otherwise at least those with a smaller number
  // than its last step.
  ghost predicate ExecutesOpen(
    steps: seq<ExecStep>, results: nat -> StepStatus, log: seq<Posted>, status: RunStatus)
  {
    && (forall i :: 0 <= i < |log| ==> log[i].step in steps && Open(log[i].step) && log[i].result == results(i))
    && (forall i, j :: 0 <= i < j < |log| ==> log[i].step.step.seqNo <= log[j].step.step.seqNo)
    && (status == RunCompleted ==> forall e :: Open(e) ==> multiset(Executed(log))[e] == multiset(steps)[e])
    && (log == [] ==> status == RunCompleted)
    && (status != RunCompleted ==>
          forall e :: e in steps && Open(e) && e.step.seqNo < log[|log| - 1].step.step.seqNo ==> e in Executed(log))
  }

  lemma OutcomeExecutesOpen(
    steps: seq<ExecStep>, todo: seq<ExecStep>, results: nat -> StepStatus, log: seq<Posted>, status: RunStatus)
    requires OpenInOrder(steps, todo) && Outcome(todo, results, log, status)
    ensures ExecutesOpen(steps, results, log, status)
  {
    assert Executed(log) == todo[..|log|];
    if status == RunCompleted {
      assert todo[..|log|] == todo;
    } else {
      var last := log[|log| - 1].step;
      forall e | e in steps && Open(e) && e.step.seqNo < last.step.seqNo ensures e in Executed(log) {
        var i :| 0 <= i < |todo| && todo[i] == e;
        assert i < |log| && Executed(log)[i] == e;
      }
    }
  }

  lemma RunExecutesOpenSteps(steps: seq<ExecStep>, results: nat -> StepStatus, log: seq<Posted>, status: RunStatus)
    requires Outcome(Todo(SortBy(steps, SeqKey)), results, log, status)
    ensures ExecutesOpen(steps, results, log, status)
  {
    TodoIsOpenInOrder(steps);
    OutcomeExecutesOpen(steps, Todo(SortBy(steps, SeqKey)), results, log, status);
  }

  // The endpoint the executor fetches its steps from leaves the marking out. Then every run executes
  // its steps up to and including the first failure, fails if there is one, and never rolls back.
  lemma UnmarkedStopsAtFirstFailure(
    steps: seq<ExecStep>, results: nat -> StepStatus, log: seq<Posted>, status: RunStatus)
    requires Outcome(Todo(SortBy(steps, SeqKey)), results, log, status)
    requires forall e :: e in steps ==> e.step.onFailure == None
    ensures status == if exists i :: 0 <= i < |log| && log[i].result == Failed then RunFailed else RunCompleted
    ensures forall i :: 0 <= i < |log| - 1 ==> log[i].result != Failed
    ensures |log| == |Todo(SortBy(steps, SeqKey))| || status == RunFailed
  {
    var todo := Todo(SortBy(steps, SeqKey));
    SortMembers(steps, SeqKey);
    TodoMembers(SortBy(steps, SeqKey));
    forall i | 0 <= i < |log| ensures Ends(log[i]) <==> log[i].result == Failed {
      assert log[i].step == todo[i] && todo[i] in steps;
    }
  }

  // The steps as that endpoint hands them out.
  function Unmarked(steps: seq<ExecStep>): (r: seq<ExecStep>)
    ensures |r| == |steps|
    ensures forall i :: 0 <= i < |steps| ==> r[i] == steps[i].(step := steps[i].step.(onFailure := None))
  {
    seq(|steps|, i requires 0 <= i < |steps| => steps[i].(step := steps[i].step.(onFailure := None)))
  }

  // The run is the one its markings ask for exactly when no step that fails in it is marked otherwise
  // than stop.
  lemma MarkingsHonouredExactlyWhen(
    todo: seq<ExecStep>, results: nat -> StepStatus,
    asked: seq<Posted>, askedStatus: RunStatus, log: seq<Posted>, status: RunStatus)
    requires Outcome(todo, results, asked, askedStatus) && Outcome(Unmarked(todo), results, log, status)
    ensures |log| == |asked| && status == askedStatus
       <==> forall i :: 0 <= i < |log| && log[i].result == Failed ==> Marking(todo[i]) == Stop
  {
    assert forall i :: 0 <= i < |log| ==> (Ends(log[i]) <==> log[i].result == Failed);
    assert forall i :: 0 <= i < |asked| && i < |log| ==> (Ends(asked[i]) ==> Ends(log[i]));
    assert |asked| >= |log|;
    if |log| > 0 && log[|log| - 1].result == Failed {
      assert asked[|log| - 1] == Posted(todo[|log| - 1], Failed);
    }
  }

  // Of the results only the failures matter: two runs over the same steps that fail at the same
  // steps execute the same steps and end with the same status. So it makes no difference to a run
  // whether a manual gate answers that it waits or that it was approved.
  lemma OnlyFailuresMatter(
    todo: seq<ExecStep>, results: nat -> StepStatus, log: seq<Posted>, status: RunStatus,
    others: nat -> StepStatus, otherLog: seq<Posted>, otherStatus: RunStatus)
    requires Outcome(todo, results, log, status) && Outcome(todo, others, otherLog, otherStatus)
    requires forall i :: 0 <= i < |todo| ==> (results(i) == Failed <==> others(i) == Failed)
    ensures |log| == |otherLog| && status == otherStatus
    ensures forall i :: 0 <= i < |log| ==> log[i].step == otherLog[i].step
  {
    forall i | 0 <= i < |log| && i < |otherLog| ensures Ends(log[i]) <==> Ends(otherLog[i]) {
    }
  }

  /******* Manual gates *******/

  const MANUAL_GATE := "manual_gate"

  // A manual gate, and no other step, answers that it waits.
  ghost predicate AnswersGates(todo: seq<ExecStep>, results: nat -> StepStatus) {
    forall i :: 0 <= i < |todo| ==> (results(i) == WaitingGate <==> todo[i].step.stepType == MANUAL_GATE)
  }

  // No step is executed after a gate that waits.
  ghost predicate GatesHold(log: seq<Posted>) {
    forall i :: 0 <= i < |log| - 1 ==> log[i].result != WaitingGate
  }

  ghost predicate GatesHoldAlways(todo: seq<ExecStep>) {
    forall results: nat -> StepStatus, log, status ::
      AnswersGates(todo, results) && Outcome(todo, results, log, status) ==> GatesHold(log)
  }

  // The run goes on after a waiting gate unless nothing is left to do, and then it ends completed.
  lemma GateNeverHolds(todo: seq<ExecStep>, results: nat -> StepStatus, log: seq<Posted>, status: RunStatus, i: nat)
    requires Outcome(todo, results, log, status) && i < |log| && log[i].result == WaitingGate
    ensures i + 1 < |log| <==> i + 1 < |todo|
    ensures i + 1 == |log| ==> status == RunCompleted
  {
  }

  // So the gates of a runbook hold in each of its runs exactly when only the last step is a gate.
  lemma GatesHoldExactlyWhen(todo: seq<ExecStep>)
    ensures GatesHoldAlways(todo) <==> forall i :: 0 <= i < |todo| - 1 ==> todo[i].step.stepType != MANUAL_GATE
  {
    if GatesHoldAlways(todo) {
      var results := (i: nat) => if i < |todo| && todo[i].step.stepType == MANUAL_GATE then WaitingGate else Completed;
      var log := seq(|todo|, i requires 0 <= i < |todo| => Posted(todo[i], results(i)));
      assert Outcome(todo, results, log, RunCompleted);
      assert GatesHold(log);
      forall i | 0 <= i < |todo| - 1 ensures todo[i].step.stepType != MANUAL_GATE {
        assert log[i].result != WaitingGate;
      }
    }
  }

  lemma SortTwo(first: ExecStep, second: ExecStep)
    requires first.step.seqNo < second.step.seqNo && !Done(first) && !Done(second)
    ensures Todo(SortBy([first, second], SeqKey)) == [first, second]
  {
    assert [first, second][1..] == [second] && [second][1..] == [];
    assert SortBy([second], SeqKey) == [second];
    assert SortBy([first, second], SeqKey) == Insert(first, [second], SeqKey) == [first, second];
    assert Todo([second]) == [second];
  }

  lemma TwoComplete(first: ExecStep, second: ExecStep, results: nat -> StepStatus)
    requires first.step.seqNo < second.step.seqNo && !Done(first) && !Done(second)
    requires results(0) != Failed && results(1) != Failed
    ensures Outcome(Todo(SortBy([first, second], SeqKey)), results,
                    [Posted(first, results(0)), Posted(second, results(1))], RunCompleted)
  {
    SortTwo(first, second);
  }

  // The gate of a recovery runbook and the check that depends on it: the check runs unapproved.
  lemma CheckRunsUnapproved()
    ensures var gate := ExecStep(Step(7, "Confirm VPN access", MANUAL_GATE, [6], false, None, None), Pending);
            var check := ExecStep(
              Step(8, "Final health check", "health_check", [7], false, Some(15), Some(Stop)), Pending);
            var results := (i: nat) => if i == 0 then WaitingGate else Completed;
            && gate.step.seqNo in check.step.dependsOn
            && Outcome(Todo(SortBy([gate, check], SeqKey)), results,
                       [Posted(gate, WaitingGate), Posted(check, Completed)], RunCompleted)
  {
    var gate := ExecStep(Step(7, "Confirm VPN access", MANUAL_GATE, [6], false, None, None), Pending);
    var check := ExecStep(Step(8, "Final health check", "health_check", [7], false, Some(15), Some(Stop)), Pending);
    TwoComplete(gate, check, (i: nat) => if i == 0 then WaitingGate else Completed);
  }

  /******* The executor's order against the declared dependencies *******/

  // Every dependency that exists in the runbook has a smaller number than the step naming it.
  ghost predicate DepsPointBack(steps: seq<ExecStep>) {
    forall s, t :: s in steps && t in steps && t.step.seqNo in s.step.dependsOn ==> t.step.seqNo < s.step.seqNo
  }

  // No step comes before (or is) one of its own dependencies.
  ghost predicate Linearises(order: seq<ExecStep>) {
    forall i, j :: 0 <= i < |order| && 0 <= j < |order| && order[i].step.seqNo in order[j].step.dependsOn ==> i < j
  }

  lemma OrderedLinearisesIff(order: seq<ExecStep>)
    requires Ordered(order, SeqKey)
    ensures Linearises(order) <==> DepsPointBack(order)
  {
    if Linearises(order) {
      forall s, t | s in order && t in order && t.step.seqNo in s.step.dependsOn
        ensures t.step.seqNo < s.step.seqNo
      {
        var i :| 0 <= i < |order| && order[i] == t;
        var j :| 0 <= j < |order| && order[j] == s;
        assert i < j && SeqKey(order[i]) <= SeqKey(order[j]);
      }
    }
    if DepsPointBack(order) {
      forall i, j | 0 <= i < |order| && 0 <= j < |order| && order[i].step.seqNo in order[j].step.dependsOn
        ensures i < j
      {
        assert SeqKey(order[i]) < SeqKey(order[j]);
      }
    }
  }

  // Running in number order respects the dependencies exactly when they all point back.
  lemma OrderLinearisesIff(steps: seq<ExecStep>)
    ensures Linearises(SortBy(steps, SeqKey)) <==> DepsPointBack(steps)
  {
    SortMembers(steps, SeqKey);
    SortOrdered(steps, SeqKey);
    OrderedLinearisesIff(SortBy(steps, SeqKey));
  }

  // A step that names a later one: the planner puts the later one first, the executor the earlier one.
  lemma ForwardReferenceReversed(one: ExecStep, two: ExecStep)
    requires one.step.seqNo < two.step.seqNo && !Done(one) && !Done(two)
    requires one.step.dependsOn == [two.step.seqNo] && two.step.dependsOn == []
    ensures Resolve([one.step, two.step]) == Some([[two.step], [one.step]])
    ensures Todo(SortBy([one, two], SeqKey)) == [one, two]
  {
    ForwardReferencePlanned(one.step, two.step);
    SortTwo(one, two);
  }

  lemma ForwardReferencePlanned(a: Step, b: Step)
    requires a.dependsOn == [b.seqNo] && b.dependsOn == []
    ensures Resolve([a, b]) == Some([[b], [a]])
  {
    assert !Ready(a, {}) by { assert b.seqNo in a.dependsOn; }
    assert SeqNos([b]) == {b.seqNo} by { assert b in [b]; }
    assert [a, b][1..] == [b];
    SelectOne(b, {});
    assert Select([a, b], {}, true) == [b] && Select([a, b], {}, false) == [a] + [];
    SelectOne(a, {b.seqNo});
    assert {} + SeqNos([b]) == {b.seqNo};
    assert Peel([a], {b.seqNo}) == Some([[a]] + []);
    assert [[a]] + [] == [[a]] && [[b]] + [[a]] == [[b], [a]];
  }

  lemma ForwardReferenceRunsEarly()
    ensures var one := ExecStep(Step(1, "one", "wait", [2], false, None, None), Pending);
            var two := ExecStep(Step(2, "two", "wait", [], false, None, None), Pending);
            && Resolve([one.step, two.step]) == Some([[two.step], [one.step]])
            && Todo(SortBy([one, two], SeqKey)) == [one, two]
  {
    ForwardReferenceReversed(ExecStep(Step(1, "one", "wait", [2], false, None, None), Pending),
                             ExecStep(Step(2, "two", "wait", [], false, None, None), Pending));
  }

  /******* What a run guarantees about dependencies *******/

  lemma {:induction false} TodoKeepsOrder(order: seq<ExecStep>)
    requires Ordered(order, SeqKey)
    ensures Ordered(Todo(order), SeqKey)
  {
    if order != [] {
      forall i, j | 0 <= i < j < |order[1..]| ensures SeqKey(order[1..][i]) <= SeqKey(order[1..][j]) {
        assert SeqKey(order[1 + i]) <= SeqKey(order[1 + j]);
      }
      TodoKeepsOrder(order[1..]);
      TodoMembers(order[1..]);
      forall k | 0 <= k < |Todo(order[1..])| ensures SeqKey(order[0]) <= SeqKey(Todo(order[1..])[k]) {
        assert Todo(order[1..])[k] in order[1..];
        var i :| 0 <= i < |order[1..]| && order[1..][i] == Todo(order[1..])[k];
        assert SeqKey(order[0]) <= SeqKey(order[1 + i]);
      }
    }
  }

  lemma SmallerGoesFirst(todo: seq<ExecStep>, j: nat, t: ExecStep)
    requires Ordered(todo, SeqKey) && j < |todo|
    requires t in todo && t.step.seqNo < todo[j].step.seqNo
    ensures t in todo[..j]
  {
    var i :| 0 <= i < |todo| && todo[i] == t;
    assert SeqKey(todo[i]) < SeqKey(todo[j]);
    assert todo[..j][i] == t;
  }

  // In any run over back-pointing dependencies, each dependency of an executed step was already
  // done when the run started or was executed before it (with whatever result).
  lemma DependenciesGoFirst(steps: seq<ExecStep>, todo: seq<ExecStep>, j: nat, t: ExecStep)
    requires DepsPointBack(steps)
    requires todo == Todo(SortBy(steps, SeqKey)) && j < |todo|
    requires t in steps && t.step.seqNo in todo[j].step.dependsOn
    ensures Done(t) || t in todo[..j]
  {
    var s := todo[j];
    SortOrdered(steps, SeqKey);
    TodoKeepsOrder(SortBy(steps, SeqKey));
    TodoMembers(SortBy(steps, SeqKey));
    SortMembers(steps, SeqKey);
    assert s in steps;
    assert t.step.seqNo < s.step.seqNo;
    if !Done(t) {
      SmallerGoesFirst(todo, j, t);
    }
  }

  // So each dependency of an executed step was already done or was executed before it without ending
  // the run; when the steps carry no marking, that is without failing.
  lemma DependenciesSucceedFirst(
    steps: seq<ExecStep>, results: nat -> StepStatus, log: seq<Posted>, status: RunStatus, j: nat, t: ExecStep)
    requires Outcome(Todo(SortBy(steps, SeqKey)), results, log, status) && DepsPointBack(steps)
    requires j < |log| && t in steps && t.step.seqNo in log[j].step.step.dependsOn
    ensures Done(t) || exists i :: 0 <= i < j && log[i].step == t && !Ends(log[i])
    ensures (forall e :: e in steps ==> e.step.onFailure == None) ==>
      Done(t) || exists i :: 0 <= i < j && log[i].step == t && log[i].result != Failed
  {
    var todo := Todo(SortBy(steps, SeqKey));
    DependenciesGoFirst(steps, todo, j, t);
    if !Done(t) {
      var i :| 0 <= i < |todo[..j]| && todo[..j][i] == t;
      assert log[i].step == t && !Ends(log[i]);
    }
  }

  // Back-pointing, complete dependencies can always be planned: numbers fall along every chain.
  lemma {:induction false} ChainNumbersRise(steps: seq<Step>, c: seq<Step>)
    requires Chain(steps, c)
    requires forall s, t :: s in steps && t in steps && t.seqNo in s.dependsOn ==> t.seqNo < s.seqNo
    ensures |c| > 1 ==> c[0].seqNo < Last(c).seqNo
    decreases |c|
  {
    if |c| > 1 {
      var front := c[..|c| - 1];
      assert c[|c| - 2].seqNo in c[|c| - 2 + 1].dependsOn;
      assert c[|c| - 2] in c && c[|c| - 1] in c;
      ChainNumbersRise(steps, front);
    }
  }

  lemma BackPointingResolves(steps: seq<Step>)
    requires !MissingDependency(steps)
    requires forall s, t :: s in steps && t in steps && t.seqNo in s.dependsOn ==> t.seqNo < s.seqNo
    ensures Resolve(steps).Some?
  {
    forall c | Chain(steps, c) && |c| >= 2 ensures c[0] != Last(c) {
      ChainNumbersRise(steps, c);
    }
    if Resolve(steps) == None {
      StuckMeansCircular(steps);
    }
  }
}
