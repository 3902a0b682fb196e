/** The micro-validation checks, the overall status, and the rolling health. Times are exact minutes. */
module ContinuousValidation {
  import opened Wrappers
  import opened Rounding
  import opened Counting

  datatype Status = Pass | Warn | Fail | Skipped
  {
    function Severity(): (n: nat)
      ensures (n == 0 <==> Pass? || Skipped?) && (n == 1 <==> Warn?) && n <= 2
    {
      match this
      case Fail => 2
      case Warn => 1
      case _ => 0
    }
  }

  datatype Check =
    | RestorePointFreshness | MountCheck | VeeamJobStatus | AgentHeartbeat | VcenterConnectivity | RpoCompliance
    | UnknownCheck(name: string)

  // What is known of a workload when a policy runs.
  datatype Telemetry = Telemetry(lastBackupAt: Option<real>, rpoTargetMins: Option<int>, lastHeartbeat: Option<real>)

  function AgeMins(ts: Option<real>, now: real): Option<real> {
    match ts
    case None => None
    case Some(t) => Some(now - t)
  }

  // A target that is absent or zero counts as one day.
  function TargetMins(rpoTargetMins: Option<int>): int {
    if rpoTargetMins.Some? && rpoTargetMins.value != 0 then rpoTargetMins.value else 1440
  }

  // Pass up to the first limit, warn up to the second, fail beyond or without a timestamp.
  function Banded(age: Option<real>, passLimit: real, warnLimit: real): Status {
    if age.None? then Fail
    else if age.value <= passLimit then Pass
    else if age.value <= warnLimit then Warn
    else Fail
  }

  function CheckRestorePointFreshness(t: Telemetry, now: real): Status {
    var target := TargetMins(t.rpoTargetMins) as real;
    Banded(AgeMins(t.lastBackupAt, now), target, target * 2.0)
  }

  function CheckRpoCompliance(t: Telemetry, now: real): Status {
    var target := TargetMins(t.rpoTargetMins) as real;
    Banded(AgeMins(t.lastBackupAt, now), target, target * 1.5)
  }

  function CheckAgentHeartbeat(t: Telemetry, intervalMins: int, now: real): Status {
    Banded(AgeMins(t.lastHeartbeat, now), intervalMins as real * 2.0, intervalMins as real * 4.0)
  }

  function CheckStatus(check: Check, t: Telemetry, intervalMins: int, now: real): Status {
    match check
    case RestorePointFreshness => CheckRestorePointFreshness(t, now)
    case RpoCompliance => CheckRpoCompliance(t, now)
    case AgentHeartbeat => CheckAgentHeartbeat(t, intervalMins, now)
    case _ => Skipped
  }

  function CheckResults(enabled: map<Check, bool>, t: Telemetry, intervalMins: int, now: real): map<Check, Status> {
    map check | check in enabled && enabled[check] :: CheckStatus(check, t, intervalMins, now)
  }

  // The dictionary is filled check by check; the order of the checks does not matter.
  method BuildCheckResults(enabled: map<Check, bool>, t: Telemetry, intervalMins: int, now: real)
    returns (results: map<Check, Status>)
    ensures results == CheckResults(enabled, t, intervalMins, now)
  {
    results := map[];
    var todo := enabled.Keys;
    while todo != {}
      invariant todo <= enabled.Keys
      invariant results == map check | check in enabled.Keys - todo && enabled[check] ::
        CheckStatus(check, t, intervalMins, now)
      decreases todo
    {
      var check :| check in todo;
      todo := todo - {check};
      if enabled[check] {
        results := results[check := CheckStatus(check, t, intervalMins, now)];
      }
    }
  }

  function EvaluateCheckResults(results: map<Check, Status>): Status {
    if exists check :: check in results && results[check] == Fail then Fail
    else if exists check :: check in results && results[check] == Warn then Warn
    else Pass
  }

  // The overall status is the most severe one reported, skipped checks counting as passes.
  lemma OverallIsWorst(results: map<Check, Status>)
    ensures EvaluateCheckResults(results) != Skipped
    ensures forall check :: check in results ==> results[check].Severity() <= EvaluateCheckResults(results).Severity()
    ensures EvaluateCheckResults(results) != Pass ==>
      exists check :: check in results && results[check] == EvaluateCheckResults(results)
  {
  }

  lemma CheckNeverImproves(check: Check, t: Telemetry, intervalMins: int, now: real, later: real)
    requires now <= later
    ensures CheckStatus(check, t, intervalMins, now).Severity() <= CheckStatus(check, t, intervalMins, later).Severity()
  {
  }

  // While a workload's backup and heartbeat stay the same, its status never improves with time.
  lemma StatusNeverImproves(enabled: map<Check, bool>, t: Telemetry, intervalMins: int, now: real, later: real)
    requires now <= later
    ensures EvaluateCheckResults(CheckResults(enabled, t, intervalMins, now)).Severity()
         <= EvaluateCheckResults(CheckResults(enabled, t, intervalMins, later)).Severity()
  {
    var before, after := CheckResults(enabled, t, intervalMins, now), CheckResults(enabled, t, intervalMins, later);
    forall check | check in before ensures check in after && before[check].Severity() <= after[check].Severity() {
      CheckNeverImproves(check, t, intervalMins, now, later);
    }
    OverallIsWorst(before);
    OverallIsWorst(after);
  }

  // The freshness check never reports worse than the compliance check on the same workload, so
  // switching it off beside the other changes no overall status.
  lemma FreshnessIsRedundant(enabled: map<Check, bool>, t: Telemetry, intervalMins: int, now: real)
    requires RpoCompliance in enabled && enabled[RpoCompliance]
    ensures EvaluateCheckResults(CheckResults(enabled, t, intervalMins, now))
         == EvaluateCheckResults(CheckResults(enabled[RestorePointFreshness := false], t, intervalMins, now))
  {
    var all := CheckResults(enabled, t, intervalMins, now);
    var less := CheckResults(enabled[RestorePointFreshness := false], t, intervalMins, now);
    assert CheckRestorePointFreshness(t, now).Severity() <= CheckRpoCompliance(t, now).Severity();
    assert all[RpoCompliance] == less[RpoCompliance] == CheckRpoCompliance(t, now);
    assert forall check :: check in all && check != RestorePointFreshness ==>
      check in less && less[check] == all[check];
    assert forall check :: check in less ==> check in all && less[check] == all[check];
    OverallIsWorst(all);
    OverallIsWorst(less);
  }

  /******* The checks in figures *******/

  ghost predicate On(enabled: map<Check, bool>, check: Check) { check in enabled && enabled[check] }

  // The RPO target in minutes: a day when it is absent or zero.
  ghost function Target(t: Telemetry): real {
    if t.rpoTargetMins == None || t.rpoTargetMins == Some(0) then 1440.0 else t.rpoTargetMins.value as real
  }

  // There is no such time, or it lies more than both these spans back.
  ghost predicate Stale(ts: Option<real>, now: real, span: real, limit: real) {
    ts == None || (now - ts.value > span && now - ts.value > limit)
  }

  // Which checks report, and what: a heartbeat may be four policy intervals old before it fails, a
  // backup one and a half targets for compliance and two for freshness; nothing else is measured.
  lemma ResultsInFigures(enabled: map<Check, bool>, t: Telemetry, intervalMins: int, now: real, check: Check)
    ensures var results := CheckResults(enabled, t, intervalMins, now);
      && (check in results <==> On(enabled, check))
      && (check in results ==>
            match check
            case RestorePointFreshness => Reports(results[check], t.lastBackupAt, now, Target(t), 2.0 * Target(t))
            case RpoCompliance => Reports(results[check], t.lastBackupAt, now, Target(t), 1.5 * Target(t))
            case AgentHeartbeat =>
              Reports(results[check], t.lastHeartbeat, now, 2.0 * intervalMins as real, 4.0 * intervalMins as real)
            case _ => results[check] == Skipped)
  {
  }

  ghost predicate Reports(status: Status, ts: Option<real>, now: real, span: real, limit: real) {
    && (status == Pass <==> !Stale(ts, now, span, span))
    && (status == Fail <==> Stale(ts, now, span, limit))
    && status != Skipped
  }

  // The overall status, in the same figures.
  lemma StatusInFigures(enabled: map<Check, bool>, t: Telemetry, intervalMins: int, now: real)
    ensures var status := EvaluateCheckResults(CheckResults(enabled, t, intervalMins, now));
      var interval := intervalMins as real;
      && (status == Fail <==>
            || (On(enabled, RpoCompliance) && Stale(t.lastBackupAt, now, Target(t), 1.5 * Target(t)))
            || (On(enabled, RestorePointFreshness) && Stale(t.lastBackupAt, now, Target(t), 2.0 * Target(t)))
            || (On(enabled, AgentHeartbeat) && Stale(t.lastHeartbeat, now, 2.0 * interval, 4.0 * interval)))
      && (status == Pass <==>
            && (On(enabled, RpoCompliance) || On(enabled, RestorePointFreshness) ==>
                  !Stale(t.lastBackupAt, now, Target(t), Target(t)))
            && (On(enabled, AgentHeartbeat) ==> !Stale(t.lastHeartbeat, now, 2.0 * interval, 2.0 * interval)))
      && status != Skipped
  {
    var results := CheckResults(enabled, t, intervalMins, now);
    forall check ensures
      && (check in results <==> On(enabled, check))
      && (check in results && check !in {RpoCompliance, RestorePointFreshness, AgentHeartbeat} ==>
            results[check] == Skipped)
    {
      ResultsInFigures(enabled, t, intervalMins, now, check);
    }
    ResultsInFigures(enabled, t, intervalMins, now, RpoCompliance);
    ResultsInFigures(enabled, t, intervalMins, now, RestorePointFreshness);
    ResultsInFigures(enabled, t, intervalMins, now, AgentHeartbeat);
  }

  /******* Streaks and rolling health *******/

  // The number of non-pass statuses at the start, and at the end.
  function LeadingStreak(ss: seq<Status>): nat {
    if ss == [] || ss[0] == Pass then 0 else 1 + LeadingStreak(ss[1..])
  }

  function TrailingStreak(ss: seq<Status>): nat {
    if ss == [] || ss[|ss| - 1] == Pass then 0 else 1 + TrailingStreak(ss[..|ss| - 1])
  }

  datatype HealthStatus = NoData | Healthy | Degraded | Failing
  datatype Health = Health(
    status: HealthStatus, passRate: int, lastCheck: Option<real>,
    consecutiveFailures: nat, totalRuns: nat, passed: nat)

  // A recorded run as the health function sees it.
  datatype Observation = Observation(status: Status, ranAt: real)

  function Statuses(obs: seq<Observation>): (r: seq<Status>)
    ensures |r| == |obs| && forall i :: 0 <= i < |obs| ==> r[i] == obs[i].status
  {
    seq(|obs|, i requires 0 <= i < |obs| => obs[i].status)
  }

  function LastCheck(obs: seq<Observation>): Option<real> {
    if obs == [] then None else Some(obs[|obs| - 1].ranAt)
  }

  function PassCount(ss: seq<Status>): nat {
    if ss == [] then 0 else PassCount(ss[..|ss| - 1]) + if ss[|ss| - 1] == Pass then 1 else 0
  }

  ghost function Passing(): Status -> bool { s => s == Pass }

  lemma {:induction false} CountsPasses(ss: seq<Status>)
    ensures PassCount(ss) == HowMany(ss, Passing())
  {
    if ss != [] {
      CountsPasses(ss[..|ss| - 1]);
      HowManyLast(ss, Passing());
    }
  }

  // A streak holds no pass and is as long as it can be.
  lemma {:induction false} TrailingIsLongest(ss: seq<Status>)
    ensures var n := TrailingStreak(ss);
      && n <= |ss| && (forall i :: |ss| - n <= i < |ss| ==> ss[i] != Pass)
      && (n < |ss| ==> ss[|ss| - n - 1] == Pass)
  {
    if ss != [] && ss[|ss| - 1] != Pass {
      TrailingIsLongest(ss[..|ss| - 1]);
    }
  }

  lemma {:induction false} LeadingIsLongest(ss: seq<Status>)
    ensures var n := LeadingStreak(ss);
      n <= |ss| && (forall i :: 0 <= i < n ==> ss[i] != Pass) && (n < |ss| ==> ss[n] == Pass)
  {
    if ss != [] && ss[0] != Pass {
      LeadingIsLongest(ss[1..]);
      assert forall i :: 1 <= i < |ss| ==> ss[i] == ss[1..][i - 1];
    }
  }

  // `recent` is taken to be oldest first: the loop walks back from its end.
  method ComputeContinuousHealth(recent: seq<Observation>) returns (h: Health)
    ensures h.consecutiveFailures == TrailingStreak(Statuses(recent)) && h.lastCheck == LastCheck(recent)
    ensures recent == [] <==> h.status == NoData
    ensures recent != [] ==>
      && h.totalRuns == |recent| && h.passed == HowMany(Statuses(recent), Passing())
      && h.passRate == RoundHalfEven(h.passed as real / |recent| as real * 100.0)
      && (h.status == Healthy <==> h.passRate >= 90) && (h.status == Failing <==> h.passRate < 70)
  {
    if recent == [] {
      return Health(NoData, 0, None, 0, 0, 0);
    }
    var total := |recent|;
    ghost var statuses := Statuses(recent);
    var passed := PassCount(Statuses(recent));
    CountsPasses(statuses);
    var passRate := RoundHalfEven(passed as real / total as real * 100.0);
    var consecutive := 0;
    var i := total;
    assert statuses[..total] == statuses;
    while i > 0
      invariant 0 <= i <= total && consecutive + i == total
      invariant TrailingStreak(statuses) == consecutive + TrailingStreak(statuses[..i])
    {
      assert statuses[..i][..i - 1] == statuses[..i - 1];
      if recent[i - 1].status != Pass {
        consecutive := consecutive + 1;
      } else {
        break;
      }
      i := i - 1;
    }
    var lastCheck := recent[total - 1].ranAt;
    var overall := if passRate >= 90 then Healthy else if passRate >= 70 then Degraded else Failing;
    h := Health(overall, passRate, Some(lastCheck), consecutive, total, passed);
  }

  function Reverse<T>(xs: seq<T>): (r: seq<T>)
    ensures |r| == |xs|
  {
    if xs == [] then [] else [xs[|xs| - 1]] + Reverse(xs[..|xs| - 1])
  }

  lemma {:induction false} StatusesReverse(obs: seq<Observation>)
    ensures Statuses(Reverse(obs)) == Reverse(Statuses(obs))
  {
    if obs != [] {
      var n := |obs| - 1;
      StatusesReverse(obs[..n]);
      assert Statuses(obs)[..n] == Statuses(obs[..n]);
      assert Statuses([obs[n]] + Reverse(obs[..n])) == [obs[n].status] + Statuses(Reverse(obs[..n]));
    }
  }

  lemma {:induction false} ReverseLast<T>(xs: seq<T>)
    requires xs != []
    ensures Reverse(xs) == Reverse(xs[1..]) + [xs[0]]
  {
    if |xs| > 1 {
      ReverseLast(xs[..|xs| - 1]);
      assert xs[..|xs| - 1][1..] == xs[1..][..|xs| - 2];
    } else {
      assert xs[1..] == [] && xs[..0] == [];
    }
  }

  lemma ReverseEnds<T>(xs: seq<T>)
    requires xs != []
    ensures Reverse(xs)[|xs| - 1] == xs[0]
  {
    ReverseLast(xs);
  }

  lemma {:induction false} ReversedStreak(ss: seq<Status>)
    ensures TrailingStreak(Reverse(ss)) == LeadingStreak(ss)
  {
    if ss != [] {
      ReverseLast(ss);
      ReversedStreak(ss[1..]);
      assert (Reverse(ss[1..]) + [ss[0]])[..|ss| - 1] == Reverse(ss[1..]);
    }
  }

  // The health endpoint hands the runs over newest first. What it reports is then the streak of the
  // oldest runs, which is right exactly when the list starts and ends with equally long streaks.
  lemma NewestFirstReportsOldestStreak(history: seq<Observation>)
    ensures TrailingStreak(Statuses(Reverse(history))) == LeadingStreak(Statuses(history))
    ensures TrailingStreak(Statuses(Reverse(history))) == TrailingStreak(Statuses(history))
       <==> LeadingStreak(Statuses(history)) == TrailingStreak(Statuses(history))
  {
    StatusesReverse(history);
    ReversedStreak(Statuses(history));
  }

  ghost predicate InTimeOrder(history: seq<Observation>) {
    forall i, j :: 0 <= i < j < |history| ==> history[i].ranAt <= history[j].ranAt
  }

  lemma OneTimeOnly(history: seq<Observation>)
    requires history != [] && InTimeOrder(history)
    ensures history[|history| - 1].ranAt == history[0].ranAt
       <==> forall i :: 0 <= i < |history| ==> history[i].ranAt == history[0].ranAt
  {
    var n := |history| - 1;
    forall i | 0 <= i < |history| && history[n].ranAt == history[0].ranAt
      ensures history[i].ranAt == history[0].ranAt
    {
      assert (0 < i ==> history[0].ranAt <= history[i].ranAt) && (i < n ==> history[i].ranAt <= history[n].ranAt);
    }
  }

  // And its last check is the time of the oldest run, right exactly when all runs share one time.
  lemma NewestFirstReportsOldestCheck(history: seq<Observation>)
    requires history != [] && InTimeOrder(history)
    ensures LastCheck(Reverse(history)) == Some(history[0].ranAt)
    ensures LastCheck(Reverse(history)) == LastCheck(history)
       <==> forall i :: 0 <= i < |history| ==> history[i].ranAt == history[0].ranAt
  {
    ReverseEnds(history);
    OneTimeOnly(history);
  }

  // A workload that failed once and has passed since is reported as failing, last checked at the failure.
  lemma RecoveredReportedFailing()
    ensures var history := [Observation(Fail, 1.0), Observation(Pass, 2.0)];
      && TrailingStreak(Statuses(Reverse(history))) == 1 && TrailingStreak(Statuses(history)) == 0
      && LastCheck(Reverse(history)) == Some(1.0) && LastCheck(history) == Some(2.0)
  {
    var history := [Observation(Fail, 1.0), Observation(Pass, 2.0)];
    assert Statuses(history) == [Fail, Pass] && [Fail, Pass][1..] == [Pass];
    NewestFirstReportsOldestStreak(history);
    NewestFirstReportsOldestCheck(history);
  }
}
