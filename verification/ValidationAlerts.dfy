/** The scheduler's policy runs: one row per workload, and alerts on consecutive failures. */
module ValidationAlerts {
  import opened Wrappers
  import opened ContinuousValidation

  datatype Policy = Policy(
    id: int, enabled: bool, alertOnFailure: bool, threshold: nat, intervalMins: int, checks: map<Check, bool>)

  datatype Workload = Workload(id: int, telemetry: Telemetry)

  datatype RunRow = RunRow(policy: int, workload: int, status: Status, ranAt: real, alertSent: bool)

  // `consecutive` is the count the alert's detail text reports.
  datatype Alert = Alert(policy: int, workload: int, consecutive: nat, createdAt: real, resolved: bool)

  datatype Db = Db(runs: seq<RunRow>, alerts: seq<Alert>)

  predicate IsFor(r: RunRow, p: int, w: int) { r.policy == p && r.workload == w }

  // The runs of (p, w) in the order they were recorded: their statuses, oldest first.
  function Trail(runs: seq<RunRow>, p: int, w: int): seq<Status> {
    if runs == [] then []
    else
      var last := runs[|runs| - 1];
      Trail(runs[..|runs| - 1], p, w) + if IsFor(last, p, w) then [last.status] else []
  }

  // The n newest rows of (p, w), newest first, for a table recorded in time order.
  function Recent(runs: seq<RunRow>, p: int, w: int, n: nat): seq<RunRow> {
    if runs == [] || n == 0 then []
    else
      var front, last := runs[..|runs| - 1], runs[|runs| - 1];
      if IsFor(last, p, w) then [last] + Recent(front, p, w, n - 1) else Recent(front, p, w, n)
  }

  // The loop over the query's rows: non-pass statuses before the first pass.
  function CountFailures(rows: seq<RunRow>): nat {
    if rows == [] || rows[0].status == Pass then 0 else 1 + CountFailures(rows[1..])
  }

  predicate HasOpenAlert(alerts: seq<Alert>, p: int, w: int) {
    exists i :: 0 <= i < |alerts| && alerts[i].policy == p && alerts[i].workload == w && !alerts[i].resolved
  }

  function ObservedStatus(policy: Policy, w: Workload, now: real): Status {
    EvaluateCheckResults(CheckResults(policy.checks, w.telemetry, policy.intervalMins, now))
  }

  // Whether recording this status raises an alert, and what the check records.
  predicate Raises(db: Db, policy: Policy, w: int, status: Status, now: real) {
    var runs := db.runs + [RunRow(policy.id, w, status, now, false)];
    && policy.alertOnFailure && status == Fail
    && CountFailures(Recent(runs, policy.id, w, policy.threshold)) >= policy.threshold
    && !HasOpenAlert(db.alerts, policy.id, w)
  }

  function AfterCheck(db: Db, policy: Policy, w: int, status: Status, now: real): Db {
    var raises := Raises(db, policy, w, status, now);
    var row := RunRow(policy.id, w, status, now, false);
    var consecutive := CountFailures(Recent(db.runs + [row], policy.id, w, policy.threshold));
    Db(db.runs + [row.(alertSent := raises)],
       if raises then db.alerts + [Alert(policy.id, w, consecutive, now, false)] else db.alerts)
  }

  // A policy run over the first n workloads.
  function AfterChecks(db: Db, policy: Policy, ws: seq<Workload>, n: nat, now: real): Db
    requires n <= |ws|
  {
    if n == 0 then db
    else AfterCheck(AfterChecks(db, policy, ws, n - 1, now), policy, ws[n - 1].id,
                    ObservedStatus(policy, ws[n - 1], now), now)
  }

  function AfterPolicyRun(db: Db, policy: Policy, ws: seq<Workload>, now: real): Db {
    if policy.enabled then AfterChecks(db, policy, ws, |ws|, now) else db
  }

  class ValidationStore {
    var runs: seq<RunRow>
    var alerts: seq<Alert>

    constructor ()
      ensures runs == [] && alerts == []
    {
      runs, alerts := [], [];
    }

    function Contents(): Db
      reads this
    {
      Db(runs, alerts)
    }

    method CountConsecutive(recent: seq<RunRow>) returns (consecutive: nat)
      ensures consecutive == CountFailures(recent)
    {
      consecutive := 0;
      while consecutive < |recent|
        invariant consecutive <= |recent|
        invariant CountFailures(recent) == consecutive + CountFailures(recent[consecutive..])
      {
        if recent[consecutive].status == Pass {
          break;
        }
        consecutive := consecutive + 1;
      }
    }

    method RecordCheck(policy: Policy, w: int, status: Status, now: real)
      modifies this
      ensures Contents() == AfterCheck(old(Contents()), policy, w, status, now)
    {
      var row := RunRow(policy.id, w, status, now, false);
      runs := runs + [row];
      if policy.alertOnFailure && status == Fail {
        var consecutive := CountConsecutive(Recent(runs, policy.id, w, policy.threshold));
        if consecutive >= policy.threshold {
          if !HasOpenAlert(alerts, policy.id, w) {
            alerts := alerts + [Alert(policy.id, w, consecutive, now, false)];
            runs := runs[..|runs| - 1] + [row.(alertSent := true)];
          }
        }
      }
    }

    method RunValidationPolicy(policy: Policy, ws: seq<Workload>, now: real)
      modifies this
      ensures Contents() == AfterPolicyRun(old(Contents()), policy, ws, now)
      ensures !policy.enabled ==> runs == old(runs) && alerts == old(alerts)
    {
      if !policy.enabled {
        return;
      }
      for n := 0 to |ws|
        invariant Contents() == AfterChecks(old(Contents()), policy, ws, n, now)
      {
        var results := BuildCheckResults(policy.checks, ws[n].telemetry, policy.intervalMins, now);
        var status := EvaluateCheckResults(results);
        RecordCheck(policy, ws[n].id, status, now);
      }
    }

    method ResolveAlert(i: nat)
      modifies this
      ensures Contents() == AfterResolve(old(Contents()), i)
      ensures runs == old(runs) && |alerts| == |old(alerts)| && (i < |alerts| ==> alerts[i].resolved)
      ensures forall k :: 0 <= k < |alerts| ==>
        alerts[k] == if k == i then old(alerts)[k].(resolved := true) else old(alerts)[k]
    {
      if i < |alerts| {
        alerts := alerts[i := alerts[i].(resolved := true)];
      }
    }
  }

  function AfterResolve(db: Db, i: nat): Db {
    if i < |db.alerts| then db.(alerts := db.alerts[i := db.alerts[i].(resolved := true)]) else db
  }

  /******* The streak the scheduler sees *******/

  // The limited newest-first query sees the true streak, cut off at the limit.
  lemma {:induction false} LimitedStreak(runs: seq<RunRow>, p: int, w: int, n: nat)
    ensures CountFailures(Recent(runs, p, w, n)) == Min(n, TrailingStreak(Trail(runs, p, w)))
  {
    if runs != [] && n > 0 {
      var front, last := runs[..|runs| - 1], runs[|runs| - 1];
      if IsFor(last, p, w) {
        LimitedStreak(front, p, w, n - 1);
        assert Trail(runs, p, w)[..|Trail(front, p, w)|] == Trail(front, p, w);
        assert Recent(runs, p, w, n)[1..] == Recent(front, p, w, n - 1);
      } else {
        LimitedStreak(front, p, w, n);
        assert Trail(runs, p, w) == Trail(front, p, w);
      }
    }
  }

  // An alert is raised exactly on a failing check that ends a streak of at least the threshold,
  // with no alert open; its text then always reports the threshold, however long the streak is.
  lemma RaisedExactlyWhen(db: Db, policy: Policy, w: int, status: Status, now: real)
    ensures Raises(db, policy, w, status, now) <==>
      && policy.alertOnFailure && status == Fail
      && TrailingStreak(Trail(AfterCheck(db, policy, w, status, now).runs, policy.id, w)) >= policy.threshold
      && !HasOpenAlert(db.alerts, policy.id, w)
    ensures Raises(db, policy, w, status, now) ==>
      AfterCheck(db, policy, w, status, now).alerts == db.alerts + [Alert(policy.id, w, policy.threshold, now, false)]
  {
    var row := RunRow(policy.id, w, status, now, false);
    LimitedStreak(db.runs + [row], policy.id, w, policy.threshold);
    var runs := AfterCheck(db, policy, w, status, now).runs;
    assert runs[..|runs| - 1] == db.runs && (db.runs + [row])[..|db.runs|] == db.runs;
    assert Trail(runs, policy.id, w) == Trail(db.runs + [row], policy.id, w);
  }

  lemma FailLengthensStreak(db: Db, policy: Policy, w: int, now: real)
    ensures TrailingStreak(Trail(AfterCheck(db, policy, w, Fail, now).runs, policy.id, w))
         == TrailingStreak(Trail(db.runs, policy.id, w)) + 1
  {
    var runs := AfterCheck(db, policy, w, Fail, now).runs;
    assert runs[..|runs| - 1] == db.runs;
    assert Trail(runs, policy.id, w) == Trail(db.runs, policy.id, w) + [Fail];
    assert (Trail(db.runs, policy.id, w) + [Fail])[..|Trail(db.runs, policy.id, w)|] == Trail(db.runs, policy.id, w);
  }

  // The count in the text is the streak exactly when that is just the threshold: the check before it
  // ended a streak one short of it.
  lemma TextIsRightExactlyWhen(db: Db, policy: Policy, w: int, status: Status, now: real)
    requires Raises(db, policy, w, status, now)
    ensures var after := AfterCheck(db, policy, w, status, now);
      var streak := TrailingStreak(Trail(after.runs, policy.id, w));
      && |after.alerts| == |db.alerts| + 1 && after.alerts[|db.alerts|].consecutive <= streak
      && (after.alerts[|db.alerts|].consecutive == streak <==> streak == policy.threshold)
      && (streak == policy.threshold <==> TrailingStreak(Trail(db.runs, policy.id, w)) + 1 == policy.threshold)
  {
    RaisedExactlyWhen(db, policy, w, status, now);
    FailLengthensStreak(db, policy, w, now);
  }

  /******* A recorded check in figures *******/

  ghost predicate Of(r: RunRow, p: int, w: int) { r.policy == p && r.workload == w }

  // Row i belongs to (p, w), and no row of theirs from there on is a pass.
  ghost predicate InStreak(runs: seq<RunRow>, p: int, w: int, i: int)
    requires 0 <= i < |runs|
  {
    Of(runs[i], p, w) && forall j :: i <= j < |runs| && Of(runs[j], p, w) ==> runs[j].status != Pass
  }

  ghost function Streak(runs: seq<RunRow>, p: int, w: int): set<int> {
    set i | 0 <= i < |runs| && InStreak(runs, p, w, i)
  }

  lemma StreakGrows(runs: seq<RunRow>, row: RunRow, p: int, w: int)
    ensures Streak(runs + [row], p, w) ==
      if !Of(row, p, w) then Streak(runs, p, w)
      else if row.status == Pass then {} else Streak(runs, p, w) + {|runs|}
  {
    var after, n := runs + [row], |runs|;
    forall i | 0 <= i < |after|
      ensures InStreak(after, p, w, i) <==>
        if !Of(row, p, w) then i < n && InStreak(runs, p, w, i)
        else row.status != Pass && (i == n || InStreak(runs, p, w, i))
    {
      assert after[n] == row && forall j :: i <= j < n ==> after[j] == runs[j];
    }
  }

  // The trailing streak counts the rows since the last pass.
  lemma {:induction false} CountsStreak(runs: seq<RunRow>, p: int, w: int)
    ensures TrailingStreak(Trail(runs, p, w)) == |Streak(runs, p, w)|
  {
    if runs != [] {
      var front, last := runs[..|runs| - 1], runs[|runs| - 1];
      CountsStreak(front, p, w);
      StreakGrows(front, last, p, w);
      assert runs == front + [last];
      if IsFor(last, p, w) {
        assert Trail(runs, p, w)[..|Trail(front, p, w)|] == Trail(front, p, w);
      } else {
        assert Trail(runs, p, w) == Trail(front, p, w);
      }
    }
  }

  // The workload's failure is to be alerted: the check failed, the rows since its last pass are enough,
  // and every earlier alert of the pair is resolved.
  ghost predicate ToAlert(db: Db, policy: Policy, w: int, status: Status, after: seq<RunRow>) {
    && policy.alertOnFailure && status == Fail && |Streak(after, policy.id, w)| >= policy.threshold
    && forall a :: a in db.alerts && a.policy == policy.id && a.workload == w ==> a.resolved
  }

  // What recording a check leaves: one row more, and one alert more exactly when there is to be one.
  lemma CheckRecords(db: Db, policy: Policy, w: int, status: Status, now: real)
    ensures var after := AfterCheck(db, policy, w, status, now);
      var alerted := ToAlert(db, policy, w, status, after.runs);
      && after.runs == db.runs + [RunRow(policy.id, w, status, now, alerted)]
      && after.alerts == db.alerts + if alerted then [Alert(policy.id, w, policy.threshold, now, false)] else []
  {
    RaisedExactlyWhen(db, policy, w, status, now);
    CountsStreak(AfterCheck(db, policy, w, status, now).runs, policy.id, w);
    if !HasOpenAlert(db.alerts, policy.id, w) {
      forall a | a in db.alerts && a.policy == policy.id && a.workload == w ensures a.resolved {
        var i :| 0 <= i < |db.alerts| && db.alerts[i] == a;
      }
    }
  }

  /******* Invariants over every run of the system *******/

  datatype Action = PolicyRun(policy: Policy, ws: seq<Workload>, now: real) | Resolve(i: nat)

  function Next(db: Db, a: Action): Db {
    match a
    case PolicyRun(policy, ws, now) => AfterPolicyRun(db, policy, ws, now)
    case Resolve(i) => AfterResolve(db, i)
  }

  function After(actions: seq<Action>): Db {
    if actions == [] then Db([], []) else Next(After(actions[..|actions| - 1]), actions[|actions| - 1])
  }

  ghost predicate DistinctIds(ws: seq<Workload>) {
    forall i, j :: 0 <= i < j < |ws| ==> ws[i].id != ws[j].id
  }

  // Policy runs are sequential: each sees every workload once, at a time later than its earlier runs.
  ghost predicate Admissible(db: Db, a: Action) {
    a.PolicyRun? ==>
      && DistinctIds(a.ws)
      && forall r :: r in db.runs && r.policy == a.policy.id ==> r.ranAt < a.now
  }

  ghost predicate Sequential(actions: seq<Action>) {
    forall n :: 0 <= n < |actions| ==> Admissible(After(actions[..n]), actions[n])
  }

  ghost predicate OneOpenAlert(alerts: seq<Alert>) {
    forall i, j :: 0 <= i < j < |alerts|
      && alerts[i].policy == alerts[j].policy && alerts[i].workload == alerts[j].workload
      ==> alerts[i].resolved || alerts[j].resolved
  }

  // Row n - 1 is the failing run that raised the alert, at the end of a long enough streak.
  ghost predicate RaisedAt(runs: seq<RunRow>, a: Alert, n: nat)
    requires 1 <= n <= |runs|
  {
    && IsFor(runs[n - 1], a.policy, a.workload)
    && runs[n - 1].status == Fail && runs[n - 1].alertSent && runs[n - 1].ranAt == a.createdAt
    && TrailingStreak(Trail(runs[..n], a.policy, a.workload)) >= a.consecutive
  }

  ghost predicate Founded(runs: seq<RunRow>, a: Alert) {
    exists n :: 1 <= n <= |runs| && RaisedAt(runs, a, n)
  }

  function SentCount(runs: seq<RunRow>): nat {
    if runs == [] then 0 else SentCount(runs[..|runs| - 1]) + if runs[|runs| - 1].alertSent then 1 else 0
  }

  ghost predicate Inv(db: Db) {
    && OneOpenAlert(db.alerts)
    && (forall a :: a in db.alerts ==> Founded(db.runs, a))
    && |db.alerts| == SentCount(db.runs)
  }

  lemma FoundedGrows(runs: seq<RunRow>, row: RunRow, a: Alert)
    requires Founded(runs, a)
    ensures Founded(runs + [row], a)
  {
    var n :| 1 <= n <= |runs| && RaisedAt(runs, a, n);
    assert (runs + [row])[..n] == runs[..n];
    assert RaisedAt(runs + [row], a, n);
  }

  lemma CheckKeepsInv(db: Db, policy: Policy, w: int, status: Status, now: real)
    requires Inv(db)
    ensures Inv(AfterCheck(db, policy, w, status, now))
  {
    var after := AfterCheck(db, policy, w, status, now);
    var row := after.runs[|db.runs|];
    RaisedExactlyWhen(db, policy, w, status, now);
    assert after.runs == db.runs + [row] && after.runs[..|db.runs|] == db.runs;
    forall a | a in after.alerts ensures Founded(after.runs, a) {
      if a in db.alerts {
        FoundedGrows(db.runs, row, a);
      } else {
        assert after.runs[..|after.runs|] == after.runs;
        assert RaisedAt(after.runs, a, |after.runs|);
      }
    }
  }

  lemma {:induction false} ChecksKeepInv(db: Db, policy: Policy, ws: seq<Workload>, n: nat, now: real)
    requires Inv(db) && n <= |ws|
    ensures Inv(AfterChecks(db, policy, ws, n, now))
  {
    if n > 0 {
      ChecksKeepInv(db, policy, ws, n - 1, now);
      CheckKeepsInv(AfterChecks(db, policy, ws, n - 1, now), policy, ws[n - 1].id,
                    ObservedStatus(policy, ws[n - 1], now), now);
    }
  }

  lemma ResolveKeepsInv(db: Db, i: nat)
    requires Inv(db)
    ensures Inv(AfterResolve(db, i))
  {
    if i < |db.alerts| {
      forall a | a in AfterResolve(db, i).alerts ensures Founded(db.runs, a) {
        if a !in db.alerts {
          assert db.alerts[i] in db.alerts;
          var n :| 1 <= n <= |db.runs| && RaisedAt(db.runs, db.alerts[i], n);
          assert RaisedAt(db.runs, a, n);
        }
      }
    }
  }

  // In every reachable state each (policy, workload) has at most one open alert, each alert stands on
  // a failing run that ended a streak of the reported length, and alerts and flagged rows match up.
  lemma {:induction false} AlertsAlwaysFounded(actions: seq<Action>)
    ensures Inv(After(actions))
  {
    if actions != [] {
      var db, a := After(actions[..|actions| - 1]), actions[|actions| - 1];
      AlertsAlwaysFounded(actions[..|actions| - 1]);
      match a
      case PolicyRun(policy, ws, now) => ChecksKeepInv(db, policy, ws, |ws|, now);
      case Resolve(i) => ResolveKeepsInv(db, i);
    }
  }

  /******* The query really is newest first *******/

  ghost predicate Clocked(runs: seq<RunRow>) {
    forall i, j :: 0 <= i < j < |runs| && runs[i].policy == runs[j].policy && runs[i].workload == runs[j].workload
      ==> runs[i].ranAt < runs[j].ranAt
  }

  // What the first n checks of a policy run added to the table.
  ghost predicate Stamped(
    after: seq<RunRow>, runs: seq<RunRow>, p: int, ws: seq<Workload>, ss: seq<Status>, n: nat, now: real)
    requires n <= |ws| == |ss|
  {
    && |after| == |runs| + n && after[..|runs|] == runs
    && forall i :: |runs| <= i < |after| ==>
         Of(after[i], p, ws[i - |runs|].id) && after[i].ranAt == now && after[i].status == ss[i - |runs|]
  }

  // One recorded check: a row for (p, w) at this time, and no alert lost.
  ghost predicate Step(before: Db, after: Db, p: int, w: int, status: Status, now: real) {
    && |after.runs| == |before.runs| + 1 && after.runs[..|before.runs|] == before.runs
    && IsFor(after.runs[|before.runs|], p, w) && after.runs[|before.runs|].ranAt == now
    && after.runs[|before.runs|].status == status
    && before.alerts <= after.alerts
  }

  // The states a policy run goes through.
  ghost function Trace(db: Db, policy: Policy, ws: seq<Workload>, now: real): (r: seq<Db>)
    ensures |r| == |ws| + 1
    ensures forall k {:trigger r[k]} :: 0 <= k <= |ws| ==> r[k] == AfterChecks(db, policy, ws, k, now)
  {
    seq(|ws| + 1, k requires 0 <= k <= |ws| => AfterChecks(db, policy, ws, k, now))
  }

  ghost predicate Steps(trace: seq<Db>, p: int, ws: seq<Workload>, ss: seq<Status>, now: real) {
    && |trace| == |ws| + 1 && |ss| == |ws|
    && forall k :: 0 <= k < |ws| ==> Step(trace[k], trace[k + 1], p, ws[k].id, ss[k], now)
  }

  // What the checks of a policy run observe.
  ghost function Observed(policy: Policy, ws: seq<Workload>, now: real): (r: seq<Status>)
    ensures |r| == |ws| && forall k {:trigger r[k]} :: 0 <= k < |ws| ==> r[k] == ObservedStatus(policy, ws[k], now)
  {
    seq(|ws|, k requires 0 <= k < |ws| => ObservedStatus(policy, ws[k], now))
  }

  lemma CheckIsStep(db: Db, policy: Policy, w: int, status: Status, now: real)
    ensures Step(db, AfterCheck(db, policy, w, status, now), policy.id, w, status, now)
  {
  }

  lemma NextCheckIsStep(db: Db, policy: Policy, ws: seq<Workload>, k: nat, now: real)
    requires k < |ws|
    ensures Step(AfterChecks(db, policy, ws, k, now), AfterChecks(db, policy, ws, k + 1, now), policy.id, ws[k].id,
                 ObservedStatus(policy, ws[k], now), now)
  {
    CheckIsStep(AfterChecks(db, policy, ws, k, now), policy, ws[k].id, ObservedStatus(policy, ws[k], now), now);
  }

  lemma TraceSteps(db: Db, policy: Policy, ws: seq<Workload>, now: real)
    ensures Steps(Trace(db, policy, ws, now), policy.id, ws, Observed(policy, ws, now), now)
  {
    var trace, ss := Trace(db, policy, ws, now), Observed(policy, ws, now);
    forall k | 0 <= k < |ws| ensures Step(trace[k], trace[k + 1], policy.id, ws[k].id, ss[k], now) {
      NextCheckIsStep(db, policy, ws, k, now);
    }
  }

  lemma StampOne(
    runs: seq<RunRow>, before: seq<RunRow>, row: RunRow, p: int, ws: seq<Workload>, ss: seq<Status>, n: nat, now: real)
    requires n < |ws| == |ss| && Stamped(before, runs, p, ws, ss, n, now)
    requires Of(row, p, ws[n].id) && row.ranAt == now && row.status == ss[n]
    ensures Stamped(before + [row], runs, p, ws, ss, n + 1, now)
  {
    assert (before + [row])[..|runs|] == before[..|runs|];
  }

  lemma {:induction false} StepsStamp(trace: seq<Db>, p: int, ws: seq<Workload>, ss: seq<Status>, n: nat, now: real)
    requires Steps(trace, p, ws, ss, now) && n <= |ws|
    ensures Stamped(trace[n].runs, trace[0].runs, p, ws, ss, n, now)
  {
    if n > 0 {
      var before, after := trace[n - 1], trace[n - 1 + 1];
      StepsStamp(trace, p, ws, ss, n - 1, now);
      assert Step(before, after, p, ws[n - 1].id, ss[n - 1], now);
      assert after.runs == before.runs + [after.runs[|before.runs|]];
      StampOne(trace[0].runs, before.runs, after.runs[|before.runs|], p, ws, ss, n - 1, now);
    }
  }

  // Rows stamped with a later time, one for each of distinct workloads, keep the table clocked.
  lemma StampedStaysClocked(
    after: seq<RunRow>, runs: seq<RunRow>, p: int, ws: seq<Workload>, ss: seq<Status>, now: real)
    requires |ss| == |ws| && Stamped(after, runs, p, ws, ss, |ws|, now) && Clocked(runs) && DistinctIds(ws)
    requires forall r :: r in runs && r.policy == p ==> r.ranAt < now
    ensures Clocked(after)
  {
    forall i, j | 0 <= i < j < |after| && after[i].policy == after[j].policy && after[i].workload == after[j].workload
      ensures after[i].ranAt < after[j].ranAt
    {
      if i < |runs| {
        assert after[i] == runs[i] && runs[i] in runs;
        assert j < |runs| ==> after[j] == runs[j];
      }
    }
  }

  lemma {:induction false} StepsKeepAlerts(
    trace: seq<Db>, p: int, ws: seq<Workload>, ss: seq<Status>, n: nat, now: real)
    requires Steps(trace, p, ws, ss, now) && n <= |ws|
    ensures trace[0].alerts <= trace[n].alerts
  {
    if n > 0 {
      StepsKeepAlerts(trace, p, ws, ss, n - 1, now);
      assert Step(trace[n - 1], trace[n - 1 + 1], p, ws[n - 1].id, ss[n - 1], now);
    }
  }

  // A policy run records, in order, one row for each workload with the status it observes, and loses no
  // row and no alert; a disabled policy records nothing.
  lemma PolicyRunRecords(db: Db, policy: Policy, ws: seq<Workload>, now: real)
    ensures !policy.enabled ==> AfterPolicyRun(db, policy, ws, now) == db
    ensures policy.enabled ==>
      && Stamped(AfterPolicyRun(db, policy, ws, now).runs, db.runs, policy.id, ws, Observed(policy, ws, now), |ws|, now)
      && db.alerts <= AfterPolicyRun(db, policy, ws, now).alerts
  {
    var trace := Trace(db, policy, ws, now);
    TraceSteps(db, policy, ws, now);
    StepsKeepAlerts(trace, policy.id, ws, Observed(policy, ws, now), |ws|, now);
    StepsStamp(trace, policy.id, ws, Observed(policy, ws, now), |ws|, now);
  }

  lemma PolicyRunKeepsClock(db: Db, policy: Policy, ws: seq<Workload>, now: real)
    requires Clocked(db.runs) && DistinctIds(ws)
    requires forall r :: r in db.runs && r.policy == policy.id ==> r.ranAt < now
    ensures Clocked(AfterPolicyRun(db, policy, ws, now).runs)
  {
    var trace := Trace(db, policy, ws, now);
    TraceSteps(db, policy, ws, now);
    StepsStamp(trace, policy.id, ws, Observed(policy, ws, now), |ws|, now);
    StampedStaysClocked(trace[|ws|].runs, trace[0].runs, policy.id, ws, Observed(policy, ws, now), now);
  }

  lemma {:induction false} RunsStayClocked(actions: seq<Action>)
    requires Sequential(actions)
    ensures Clocked(After(actions).runs)
  {
    if actions != [] {
      var front, a := actions[..|actions| - 1], actions[|actions| - 1];
      forall n | 0 <= n < |front| ensures Admissible(After(front[..n]), front[n]) {
        assert front[..n] == actions[..n] && front[n] == actions[n];
      }
      RunsStayClocked(front);
      assert Admissible(After(actions[..|front|]), actions[|front|]);
      if a.PolicyRun? {
        PolicyRunKeepsClock(After(front), a.policy, a.ws, a.now);
      }
    }
  }

  // The query's rows are those of (p, w), strictly newest first, and none left out is newer.
  ghost predicate NewestFirst(runs: seq<RunRow>, p: int, w: int, rows: seq<RunRow>) {
    && (forall r :: r in rows ==> r in runs && IsFor(r, p, w))
    && (forall i, j :: 0 <= i < j < |rows| ==> rows[i].ranAt > rows[j].ranAt)
    && forall r, s :: r in runs && IsFor(r, p, w) && r !in rows && s in rows ==> r.ranAt < s.ranAt
  }

  lemma NewestFirstCons(front: seq<RunRow>, last: RunRow, p: int, w: int, rows: seq<RunRow>)
    requires NewestFirst(front, p, w, rows) && IsFor(last, p, w)
    requires forall r :: r in front && IsFor(r, p, w) ==> r.ranAt < last.ranAt
    ensures NewestFirst(front + [last], p, w, [last] + rows)
  {
    forall i, j | 0 <= i < j < |rows| + 1 ensures ([last] + rows)[i].ranAt > ([last] + rows)[j].ranAt {
      assert rows[j - 1] in rows;
    }
  }

  lemma NewestFirstSkip(front: seq<RunRow>, last: RunRow, p: int, w: int, rows: seq<RunRow>)
    requires NewestFirst(front, p, w, rows) && !IsFor(last, p, w)
    ensures NewestFirst(front + [last], p, w, rows)
  {
  }

  lemma EarlierThanLast(runs: seq<RunRow>, p: int, w: int)
    requires Clocked(runs) && runs != [] && IsFor(runs[|runs| - 1], p, w)
    ensures forall r :: r in runs[..|runs| - 1] && IsFor(r, p, w) ==> r.ranAt < runs[|runs| - 1].ranAt
  {
    forall r | r in runs[..|runs| - 1] && IsFor(r, p, w) ensures r.ranAt < runs[|runs| - 1].ranAt {
      var i :| 0 <= i < |runs| - 1 && runs[i] == r;
    }
  }

  lemma {:induction false} RecentIsNewestFirst(runs: seq<RunRow>, p: int, w: int, n: nat)
    requires Clocked(runs)
    ensures NewestFirst(runs, p, w, Recent(runs, p, w, n))
    ensures |Recent(runs, p, w, n)| == Min(n, |Trail(runs, p, w)|)
  {
    if runs != [] && n > 0 {
      var front, last := runs[..|runs| - 1], runs[|runs| - 1];
      assert runs == front + [last];
      if IsFor(last, p, w) {
        RecentIsNewestFirst(front, p, w, n - 1);
        EarlierThanLast(runs, p, w);
        NewestFirstCons(front, last, p, w, Recent(front, p, w, n - 1));
      } else {
        RecentIsNewestFirst(front, p, w, n);
        NewestFirstSkip(front, last, p, w, Recent(front, p, w, n));
      }
    }
  }

  /******* No failing streak goes unalerted *******/

  lemma {:induction false} OpenAlertStays(
    trace: seq<Db>, p: int, ws: seq<Workload>, ss: seq<Status>, n: nat, m: nat, now: real, w: int)
    requires Steps(trace, p, ws, ss, now) && n <= m <= |ws| && HasOpenAlert(trace[n].alerts, p, w)
    ensures HasOpenAlert(trace[m].alerts, p, w)
  {
    if n < m {
      OpenAlertStays(trace, p, ws, ss, n, m - 1, now, w);
      var before, after := trace[m - 1].alerts, trace[m].alerts;
      assert Step(trace[m - 1], trace[m - 1 + 1], p, ws[m - 1].id, ss[m - 1], now);
      var i :| 0 <= i < |before| && before[i].policy == p && before[i].workload == w && !before[i].resolved;
      assert after[i] == before[i];
    }
  }

  // The history of the workload ends in a streak of at least the threshold.
  ghost predicate StreakReached(runs: seq<RunRow>, policy: Policy, w: int) {
    TrailingStreak(Trail(runs, policy.id, w)) >= policy.threshold
  }

  lemma TrailOfOthers(before: Db, after: Db, p: int, w: int, status: Status, now: real, other: int)
    requires Step(before, after, p, w, status, now) && other != w
    ensures Trail(after.runs, p, other) == Trail(before.runs, p, other)
  {
    assert after.runs[..|after.runs| - 1] == before.runs;
  }

  // The rows of later workloads do not touch this workload's trail.
  lemma {:induction false} TrailStays(
    trace: seq<Db>, p: int, ws: seq<Workload>, ss: seq<Status>, n: nat, m: nat, now: real, w: int)
    requires Steps(trace, p, ws, ss, now) && n <= m <= |ws| && forall k :: n <= k < m ==> ws[k].id != w
    ensures Trail(trace[m].runs, p, w) == Trail(trace[n].runs, p, w)
  {
    if n < m {
      TrailStays(trace, p, ws, ss, n, m - 1, now, w);
      assert Step(trace[m - 1], trace[m - 1 + 1], p, ws[m - 1].id, ss[m - 1], now);
      TrailOfOthers(trace[m - 1], trace[m], p, ws[m - 1].id, ss[m - 1], now, w);
    }
  }

  lemma FailingStreakIsAlerted(db: Db, policy: Policy, w: int, now: real)
    requires policy.alertOnFailure
    requires StreakReached(AfterCheck(db, policy, w, Fail, now).runs, policy, w)
    ensures HasOpenAlert(AfterCheck(db, policy, w, Fail, now).alerts, policy.id, w)
  {
    var after := AfterCheck(db, policy, w, Fail, now).alerts;
    RaisedExactlyWhen(db, policy, w, Fail, now);
    if Raises(db, policy, w, Fail, now) {
      var a := after[|db.alerts|];
      assert a.policy == policy.id && a.workload == w && !a.resolved;
    }
  }

  lemma StreakAlertedAtOnce(db: Db, policy: Policy, ws: seq<Workload>, n: nat, now: real)
    requires policy.alertOnFailure && n < |ws| && ObservedStatus(policy, ws[n], now) == Fail
    requires StreakReached(AfterChecks(db, policy, ws, n + 1, now).runs, policy, ws[n].id)
    ensures HasOpenAlert(AfterChecks(db, policy, ws, n + 1, now).alerts, policy.id, ws[n].id)
  {
    FailingStreakIsAlerted(AfterChecks(db, policy, ws, n, now), policy, ws[n].id, now);
  }

  // After a run of an enabled, alerting policy over distinct workloads, every workload whose check
  // failed and whose history now ends in a streak of at least the threshold has an open alert.
  lemma FailingStreaksAreAlerted(db: Db, policy: Policy, ws: seq<Workload>, n: nat, now: real)
    requires policy.enabled && policy.alertOnFailure && n < |ws|
    requires DistinctIds(ws)
    requires ObservedStatus(policy, ws[n], now) == Fail
    requires StreakReached(AfterPolicyRun(db, policy, ws, now).runs, policy, ws[n].id)
    ensures HasOpenAlert(AfterPolicyRun(db, policy, ws, now).alerts, policy.id, ws[n].id)
  {
    var trace, ss, w := Trace(db, policy, ws, now), Observed(policy, ws, now), ws[n].id;
    TraceSteps(db, policy, ws, now);
    assert trace[|ws|] == AfterPolicyRun(db, policy, ws, now);
    assert trace[n + 1] == AfterChecks(db, policy, ws, n + 1, now);
    TrailStays(trace, policy.id, ws, ss, n + 1, |ws|, now, w);
    StreakAlertedAtOnce(db, policy, ws, n, now);
    OpenAlertStays(trace, policy.id, ws, ss, n + 1, |ws|, now, w);
  }

  /******* A text that is wrong *******/

  // A policy that only checks the RPO observes the status of that check.
  lemma OnlyRpoObserved(policy: Policy, w: Workload, now: real)
    requires policy.checks == map[RpoCompliance := true]
    ensures ObservedStatus(policy, w, now) == CheckRpoCompliance(w.telemetry, now)
  {
    var results := CheckResults(policy.checks, w.telemetry, policy.intervalMins, now);
    assert RpoCompliance in results && results[RpoCompliance] == CheckRpoCompliance(w.telemetry, now);
    assert forall check :: check in results ==> check == RpoCompliance;
  }

  lemma OneCheckRun(db: Db, policy: Policy, w: Workload, now: real)
    requires policy.enabled && policy.checks == map[RpoCompliance := true]
    ensures AfterPolicyRun(db, policy, [w], now)
         == AfterCheck(db, policy, w.id, CheckRpoCompliance(w.telemetry, now), now)
  {
    OnlyRpoObserved(policy, w, now);
    assert AfterChecks(db, policy, [w], 0, now) == db;
  }

  // A warning followed by a failure, with threshold 1: the streak is 2 and the text says 1.
  lemma WarnThenFail(policy: Policy, w: int, first: real, second: real)
    requires policy.alertOnFailure && policy.threshold == 1
    ensures var warned := AfterCheck(Db([], []), policy, w, Warn, first);
      var after := AfterCheck(warned, policy, w, Fail, second);
      && warned == Db([RunRow(policy.id, w, Warn, first, false)], [])
      && after.alerts == [Alert(policy.id, w, 1, second, false)]
      && TrailingStreak(Trail(after.runs, policy.id, w)) == 2
  {
    var warned := AfterCheck(Db([], []), policy, w, Warn, first);
    assert warned.runs == [RunRow(policy.id, w, Warn, first, false)] && warned.runs[..0] == [];
    assert Trail(warned.runs, policy.id, w) == [Warn] && [Warn][..0] == [];
    assert TrailingStreak([Warn]) == 1;
    FailLengthensStreak(warned, policy, w, second);
    RaisedExactlyWhen(warned, policy, w, Fail, second);
  }

  // That history is reached by two policy runs: a backup 120 minutes old, then 200, against a target of 100.
  lemma WarnedStreakMisreported()
    ensures var policy := Policy(1, true, true, 1, 60, map[RpoCompliance := true]);
      var w := Workload(7, Telemetry(Some(0.0), Some(100), None));
      var actions := [PolicyRun(policy, [w], 120.0), PolicyRun(policy, [w], 200.0)];
      && Sequential(actions)
      && After(actions).alerts == [Alert(1, 7, 1, 200.0, false)]
      && TrailingStreak(Trail(After(actions).runs, 1, 7)) == 2
  {
    var policy := Policy(1, true, true, 1, 60, map[RpoCompliance := true]);
    var w := Workload(7, Telemetry(Some(0.0), Some(100), None));
    var actions := [PolicyRun(policy, [w], 120.0), PolicyRun(policy, [w], 200.0)];
    OneCheckRun(Db([], []), policy, w, 120.0);
    var warned := AfterCheck(Db([], []), policy, 7, Warn, 120.0);
    OneCheckRun(warned, policy, w, 200.0);
    WarnThenFail(policy, 7, 120.0, 200.0);
    AfterTwo(actions[0], actions[1]);
  }

  lemma AfterTwo(a: Action, b: Action)
    ensures After([]) == Db([], []) && After([a]) == Next(Db([], []), a) && After([a, b]) == Next(After([a]), b)
    ensures [a, b][..0] == [] && [a, b][..1] == [a]
  {
    assert [a][..0] == [] && [a, b][..1] == [a];
  }
}
