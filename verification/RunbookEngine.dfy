/** Runbook planning: dependency waves, their optimality, and the estimated duration. */
module RunbookEngine {
  import opened Wrappers
  import opened Sorting

  const DEFAULT_TIMEOUT_MINS := 60

  // Any other marking is kept as Unknown; the executor goes on after it as after Continue.
  datatype OnFailure = Stop | Continue | Rollback | Unknown(marking: string)

  // `seqNo` is the step's "seq" and `dependsOn` its "depends_on_seq" (empty when absent).
  datatype Step = Step(
    seqNo: int, name: string, stepType: string, dependsOn: seq<int>,
    parallel: bool, timeoutMins: Option<int>, onFailure: Option<OnFailure>)
  {
    function Timeout(): int { timeoutMins.GetOr(DEFAULT_TIMEOUT_MINS) }
  }

  datatype ResolveError = IterationLimit | NoStepsReady

  /******* The resolver *******/

  predicate Ready(s: Step, completed: set<int>) {
    forall d :: d in s.dependsOn ==> d in completed
  }

  function SeqNos(steps: seq<Step>): set<int> {
    set s | s in steps :: s.seqNo
  }

  // The sublist of steps whose readiness is `wanted`, in order.
  function Select(steps: seq<Step>, completed: set<int>, wanted: bool): seq<Step> {
    if steps == [] then []
    else (if Ready(steps[0], completed) == wanted then [steps[0]] else [])
         + Select(steps[1..], completed, wanted)
  }

  lemma {:induction false} SelectMembers(steps: seq<Step>, completed: set<int>, wanted: bool)
    ensures forall s :: s in Select(steps, completed, wanted) <==> s in steps && Ready(s, completed) == wanted
  {
    if steps != [] {
      SelectMembers(steps[1..], completed, wanted);
      assert steps == [steps[0]] + steps[1..];
    }
  }

  lemma {:induction false} SelectPartitions(steps: seq<Step>, completed: set<int>)
    ensures multiset(Select(steps, completed, true)) + multiset(Select(steps, completed, false)) == multiset(steps)
    ensures |Select(steps, completed, true)| + |Select(steps, completed, false)| == |steps|
  {
    if steps != [] {
      SelectPartitions(steps[1..], completed);
      assert steps == [steps[0]] + steps[1..];
    }
  }

  // What the loop computes from a given `remaining` and `completed`: None when it gets stuck.
  function Peel(remaining: seq<Step>, completed: set<int>): Option<seq<seq<Step>>>
    decreases |remaining|
  {
    var ready := Select(remaining, completed, true);
    if remaining == [] then Some([])
    else if ready == [] then None
    else
      SelectPartitions(remaining, completed);
      match Peel(Select(remaining, completed, false), completed + SeqNos(ready))
      case None => None
      case Some(waves) => Some([ready] + waves)
  }

  ghost function After(waves: seq<seq<Step>>, rest: Option<seq<seq<Step>>>): Option<seq<seq<Step>>> {
    match rest
    case None => None
    case Some(more) => Some(waves + more)
  }

  function Resolve(steps: seq<Step>): Option<seq<seq<Step>>> {
    Peel(steps, {})
  }

  // Drops the first element equal to x.
  function RemoveFirst(xs: seq<Step>, x: Step): (r: seq<Step>)
    requires x in xs
    ensures |r| == |xs| - 1
  {
    if xs[0] == x then xs[1..] else [xs[0]] + RemoveFirst(xs[1..], x)
  }

  lemma {:induction false} RemoveAt(xs: seq<Step>, n: nat)
    requires n < |xs| && forall i :: 0 <= i < n ==> xs[i] != xs[n]
    ensures xs[n] in xs && RemoveFirst(xs, xs[n]) == xs[..n] + xs[n + 1..]
  {
    if n > 0 {
      RemoveAt(xs[1..], n - 1);
      assert RemoveFirst(xs, xs[n]) == [xs[0]] + RemoveFirst(xs[1..], xs[n]);
    }
  }

  // Splits `remaining` at its first ready step; what precedes it stays blocked.
  function BlockedPrefix(remaining: seq<Step>, completed: set<int>): (n: nat)
    ensures n <= |remaining|
    ensures forall i :: 0 <= i < n ==> !Ready(remaining[i], completed)
    ensures n < |remaining| ==> Ready(remaining[n], completed)
  {
    if remaining == [] || Ready(remaining[0], completed) then 0
    else 1 + BlockedPrefix(remaining[1..], completed)
  }

  lemma {:induction false} SelectSkips(before: seq<Step>, after: seq<Step>, completed: set<int>)
    requires forall s :: s in before ==> !Ready(s, completed)
    ensures Select(before + after, completed, true) == Select(after, completed, true)
    ensures Select(before + after, completed, false) == before + Select(after, completed, false)
  {
    if before == [] {
      assert before + after == after;
      assert before + Select(after, completed, false) == Select(after, completed, false);
    } else {
      assert !Ready(before[0], completed) by { assert before[0] in before; }
      SelectSkips(before[1..], after, completed);
      assert (before + after)[1..] == before[1..] + after;
      assert before == [before[0]] + before[1..];
    }
  }

  // Removing the first ready step removes it from the ready sublist and leaves the blocked one.
  lemma RemoveStep(remaining: seq<Step>, completed: set<int>, s: Step, rest: seq<Step>)
    requires Select(remaining, completed, true) == [s] + rest
    ensures s in remaining
    ensures Select(RemoveFirst(remaining, s), completed, true) == rest
    ensures Select(RemoveFirst(remaining, s), completed, false) == Select(remaining, completed, false)
  {
    var n := BlockedPrefix(remaining, completed);
    var before, after := remaining[..n], remaining[n..];
    assert remaining == before + after;
    SelectSkips(before, after, completed);
    assert after != [];
    assert Select(after, completed, true)[0] == after[0];
    RemoveAt(remaining, n);
    assert after[1..] == remaining[n + 1..];
    SelectSkips(before, after[1..], completed);
    assert ([s] + rest)[1..] == rest;
  }

  lemma {:induction false} SelectNone(steps: seq<Step>, completed: set<int>)
    requires Select(steps, completed, true) == []
    ensures Select(steps, completed, false) == steps
  {
    if steps != [] {
      SelectNone(steps[1..], completed);
      assert steps == [steps[0]] + steps[1..];
    }
  }

  lemma SeqNosAppend(steps: seq<Step>, s: Step)
    ensures SeqNos(steps + [s]) == SeqNos(steps) + {s.seqNo}
  {
    forall q ensures q in SeqNos(steps + [s]) <==> q in SeqNos(steps) + {s.seqNo} {
      if q == s.seqNo {
        assert s in steps + [s];
      } else if q in SeqNos(steps) {
        var t :| t in steps && t.seqNo == q;
        assert t in steps + [s];
      }
    }
  }

  lemma CompleteStep(ready: seq<Step>, i: nat, left: seq<Step>, completed: set<int>)
    requires i < |ready| && Select(left, completed, true) == ready[i..]
    ensures ready[i] in left
    ensures Select(RemoveFirst(left, ready[i]), completed, true) == ready[i + 1..]
    ensures Select(RemoveFirst(left, ready[i]), completed, false) == Select(left, completed, false)
    ensures SeqNos(ready[..i + 1]) == SeqNos(ready[..i]) + {ready[i].seqNo}
  {
    assert ready[i..] == [ready[i]] + ready[i + 1..];
    RemoveStep(left, completed, ready[i], ready[i + 1..]);
    assert ready[..i + 1] == ready[..i] + [ready[i]];
    SeqNosAppend(ready[..i], ready[i]);
  }

  // The inner loop: marks one wave completed and takes its steps off the list.
  method CompleteWave(ready: seq<Step>, remaining: seq<Step>, completed: set<int>)
    returns (left: seq<Step>, done: set<int>)
    requires ready == Select(remaining, completed, true)
    ensures left == Select(remaining, completed, false)
    ensures done == completed + SeqNos(ready)
  {
    left, done := remaining, completed;
    for i := 0 to |ready|
      invariant done == completed + SeqNos(ready[..i])
      invariant Select(left, completed, true) == ready[i..]
      invariant Select(left, completed, false) == Select(remaining, completed, false)
    {
      CompleteStep(ready, i, left, completed);
      done := done + {ready[i].seqNo};
      left := RemoveFirst(left, ready[i]);
    }
    assert ready[..|ready|] == ready;
    SelectNone(left, completed);
  }

  // One round of the loop: the ready wave moves from what is to be peeled to the waves.
  lemma PeelRound(waves: seq<seq<Step>>, remaining: seq<Step>, completed: set<int>)
    requires remaining != [] && Select(remaining, completed, true) != []
    ensures |Select(remaining, completed, false)| < |remaining|
    ensures After(waves, Peel(remaining, completed))
         == After(waves + [Select(remaining, completed, true)],
                  Peel(Select(remaining, completed, false), completed + SeqNos(Select(remaining, completed, true))))
  {
    var ready := Select(remaining, completed, true);
    SelectPartitions(remaining, completed);
    var rest := Peel(Select(remaining, completed, false), completed + SeqNos(ready));
    assert rest.Some? ==> waves + ([ready] + rest.value) == (waves + [ready]) + rest.value;
  }

  method ResolveExecutionOrder(steps: seq<Step>) returns (r: Result<seq<seq<Step>>, ResolveError>)
    ensures r == match Resolve(steps) case Some(waves) => Ok(waves) case None => Err(NoStepsReady)
    ensures r != Err(IterationLimit)
  {
    var completed: set<int> := {};
    var remaining := steps;
    var waves: seq<seq<Step>> := [];
    var maxIterations := |steps| + 1;
    var iteration := 0;
    assert Resolve(steps).Some? ==> [] + Resolve(steps).value == Resolve(steps).value;
    while remaining != []
      invariant iteration == |waves| && |waves| + |remaining| <= |steps|
      invariant Resolve(steps) == After(waves, Peel(remaining, completed))
      decreases |remaining|
    {
      iteration := iteration + 1;
      if iteration > maxIterations {
        return Err(IterationLimit);
      }
      var ready := Select(remaining, completed, true);
      if ready == [] {
        return Err(NoStepsReady);
      }
      PeelRound(waves, remaining, completed);
      waves := waves + [ready];
      remaining, completed := CompleteWave(ready, remaining, completed);
    }
    assert waves + [] == waves;
    return Ok(waves);
  }

  /******* What the waves mean *******/

  function Flatten(waves: seq<seq<Step>>): seq<Step> {
    if waves == [] then [] else waves[0] + Flatten(waves[1..])
  }

  // Some step of an earlier wave carries the sequence number d.
  ghost predicate DoneBefore(waves: seq<seq<Step>>, k: int, d: int) {
    exists j, t :: 0 <= j < k && j < |waves| && t in waves[j] && t.seqNo == d
  }

  // Every dependency of a step is carried by a step of an earlier wave.
  ghost predicate DepsInEarlierWaves(waves: seq<seq<Step>>) {
    forall k, s, d :: 0 <= k < |waves| && s in waves[k] && d in s.dependsOn ==> DoneBefore(waves, k, d)
  }

  // A concurrent schedule for `steps`, however it was obtained.
  ghost predicate ValidSchedule(steps: seq<Step>, waves: seq<seq<Step>>) {
    multiset(Flatten(waves)) == multiset(steps) && DepsInEarlierWaves(waves)
  }

  // A step that the previous wave could not have held: one of its dependencies is not done before it.
  ghost predicate Held(waves: seq<seq<Step>>, k: int, s: Step, d: int) {
    d in s.dependsOn && !DoneBefore(waves, k - 1, d)
  }

  ghost predicate NoWaveTooLate(waves: seq<seq<Step>>) {
    forall k, s :: 1 <= k < |waves| && s in waves[k] ==> exists d :: Held(waves, k, s, d)
  }

  // Generalises the two wave properties to a resolver that starts with some numbers completed.
  ghost predicate DoneFrom(waves: seq<seq<Step>>, completed: set<int>, k: int, d: int) {
    d in completed || DoneBefore(waves, k, d)
  }

  lemma DoneFromShift(ready: seq<Step>, rest: seq<seq<Step>>, completed: set<int>, k: int, d: int)
    requires k >= 0
    ensures DoneFrom([ready] + rest, completed, k + 1, d) <==> DoneFrom(rest, completed + SeqNos(ready), k, d)
  {
    var waves := [ready] + rest;
    if d !in completed && DoneBefore(waves, k + 1, d) {
      var j: int, t: Step :| 0 <= j < k + 1 && j < |waves| && t in waves[j] && t.seqNo == d;
      if j > 0 {
        assert waves[j] == rest[j - 1];
      }
    }
    if DoneBefore(rest, k, d) {
      var j: int, t: Step :| 0 <= j < k && j < |rest| && t in rest[j] && t.seqNo == d;
      assert waves[j + 1] == rest[j];
    }
    if d in SeqNos(ready) {
      var t :| t in ready && t.seqNo == d;
      assert t in waves[0];
    }
  }

  // The facts PeelWaves proves of what Peel returns.
  ghost predicate Layered(waves: seq<seq<Step>>, completed: set<int>) {
    && (forall k :: 0 <= k < |waves| ==> waves[k] != [])
    && (forall k, s, d :: 0 <= k < |waves| && s in waves[k] && d in s.dependsOn ==> DoneFrom(waves, completed, k, d))
    && (forall k, s :: 1 <= k < |waves| && s in waves[k] ==> HeldFrom(waves, completed, k, s))
  }

  ghost predicate HeldFrom(waves: seq<seq<Step>>, completed: set<int>, k: int, s: Step) {
    exists d :: d in s.dependsOn && !DoneFrom(waves, completed, k - 1, d)
  }

  lemma LayeredCons(ready: seq<Step>, rest: seq<seq<Step>>, completed: set<int>)
    requires ready != [] && Layered(rest, completed + SeqNos(ready))
    requires forall s :: s in ready ==> Ready(s, completed)
    requires rest != [] ==> forall s :: s in rest[0] ==> !Ready(s, completed)
    ensures Layered([ready] + rest, completed)
  {
    var waves := [ready] + rest;
    forall k, s: Step, d | 0 <= k < |waves| && s in waves[k] && d in s.dependsOn
      ensures DoneFrom(waves, completed, k, d)
    {
      if k > 0 {
        assert s in rest[k - 1];
        assert DoneFrom(rest, completed + SeqNos(ready), k - 1, d);
        DoneFromShift(ready, rest, completed, k - 1, d);
      }
    }
    forall k, s: Step | 1 <= k < |waves| && s in waves[k] ensures HeldFrom(waves, completed, k, s) {
      assert s in rest[k - 1];
      if k == 1 {
        var d :| d in s.dependsOn && d !in completed;
        assert !DoneFrom(waves, completed, 0, d);
      } else {
        assert HeldFrom(rest, completed + SeqNos(ready), k - 1, s);
        var d :| d in s.dependsOn && !DoneFrom(rest, completed + SeqNos(ready), k - 2, d);
        DoneFromShift(ready, rest, completed, k - 2, d);
      }
    }
  }

  ghost predicate InWaves(waves: seq<seq<Step>>, s: Step) {
    exists k :: 0 <= k < |waves| && s in waves[k]
  }

  lemma {:induction false} FlattenMember(waves: seq<seq<Step>>, s: Step)
    ensures s in Flatten(waves) <==> InWaves(waves, s)
  {
    if waves != [] {
      FlattenMember(waves[1..], s);
      if InWaves(waves[1..], s) {
        var k :| 0 <= k < |waves[1..]| && s in waves[1..][k];
        assert s in waves[k + 1];
      }
      if k :| 0 <= k < |waves| && s in waves[k] {
        assert k > 0 ==> waves[k] == waves[1..][k - 1];
      }
    }
  }

  lemma {:induction false} PeelWaves(remaining: seq<Step>, completed: set<int>)
    requires Peel(remaining, completed).Some?
    ensures multiset(Flatten(Peel(remaining, completed).value)) == multiset(remaining)
    ensures Layered(Peel(remaining, completed).value, completed)
    decreases |remaining|
  {
    if remaining != [] {
      var ready, blocked := Select(remaining, completed, true), Select(remaining, completed, false);
      var rest := Peel(blocked, completed + SeqNos(ready)).value;
      SelectPartitions(remaining, completed);
      PeelWaves(blocked, completed + SeqNos(ready));
      SelectMembers(remaining, completed, true);
      SelectMembers(remaining, completed, false);
      if rest != [] {
        forall s | s in rest[0] ensures !Ready(s, completed) {
          assert s in multiset(Flatten(rest));
          assert s in blocked;
        }
      }
      LayeredCons(ready, rest, completed);
      assert ([ready] + rest)[1..] == rest;
    }
  }

  // A resolved plan is a valid schedule in which no step waits a wave longer than its dependencies force.
  lemma ResolvedPlan(steps: seq<Step>, waves: seq<seq<Step>>)
    requires Resolve(steps) == Some(waves)
    ensures ValidSchedule(steps, waves) && NoWaveTooLate(waves)
    ensures forall k :: 0 <= k < |waves| ==> waves[k] != []
  {
    PeelWaves(steps, {});
    forall k, s: Step, d | 0 <= k < |waves| && s in waves[k] && d in s.dependsOn ensures DoneBefore(waves, k, d) {
      assert DoneFrom(waves, {}, k, d);
    }
    forall k, s: Step | 1 <= k < |waves| && s in waves[k] ensures exists d :: Held(waves, k, s, d) {
      assert HeldFrom(waves, {}, k, s);
      var d :| d in s.dependsOn && !DoneFrom(waves, {}, k - 1, d);
      assert Held(waves, k, s, d);
    }
  }

  lemma InSomeWave(steps: seq<Step>, waves: seq<seq<Step>>, s: Step)
    requires multiset(Flatten(waves)) == multiset(steps)
    ensures s in steps <==> InWaves(waves, s)
  {
    FlattenMember(waves, s);
    assert s in Flatten(waves) <==> s in multiset(Flatten(waves));
    assert s in steps <==> s in multiset(steps);
  }

  // A step's dependency is carried by some step of an earlier wave.
  lemma EarlierCarrier(steps: seq<Step>, waves: seq<seq<Step>>, k: nat, s: Step, d: int) returns (j: nat, t: Step)
    requires ValidSchedule(steps, waves) && k < |waves| && s in waves[k] && d in s.dependsOn
    ensures j < k && t in waves[j] && t in steps && t.seqNo == d
  {
    assert DoneBefore(waves, k, d);
    j, t :| j < k && t in waves[j] && t.seqNo == d;
    InSomeWave(steps, waves, t);
  }

  /******* Earliest wave and fewest waves *******/

  // No valid schedule, found in any way, runs a step in an earlier wave than the resolver does.
  lemma {:induction false} EarliestWave(
    steps: seq<Step>, waves: seq<seq<Step>>, k: nat, other: seq<seq<Step>>, m: nat, s: Step)
    requires Resolve(steps) == Some(waves) && ValidSchedule(steps, other)
    requires k < |waves| && s in waves[k]
    requires m < |other| && s in other[m]
    ensures k <= m
    decreases m
  {
    ResolvedPlan(steps, waves);
    if m < k {
      var d :| Held(waves, k, s, d);
      var j, t := EarlierCarrier(steps, other, m, s, d);
      InSomeWave(steps, waves, t);
      var i :| 0 <= i < |waves| && t in waves[i];
      EarliestWave(steps, waves, i, other, j, t);
    }
  }

  // Hence no valid schedule has fewer waves.
  lemma FewestWaves(steps: seq<Step>, waves: seq<seq<Step>>, other: seq<seq<Step>>)
    requires Resolve(steps) == Some(waves) && ValidSchedule(steps, other)
    ensures |waves| <= |other|
  {
    if waves != [] {
      ResolvedPlan(steps, waves);
      var last := |waves| - 1;
      var s := waves[last][0];
      InSomeWave(steps, waves, s);
      InSomeWave(steps, other, s);
      var m :| 0 <= m < |other| && s in other[m];
      EarliestWave(steps, waves, last, other, m, s);
    }
  }

  /******* Dependency chains *******/

  ghost predicate DistinctSeqs(steps: seq<Step>) {
    forall i, j :: 0 <= i < j < |steps| ==> steps[i].seqNo != steps[j].seqNo
  }

  // c lists steps of the runbook, each named by the next one's dependencies.
  ghost predicate Chain(steps: seq<Step>, c: seq<Step>) {
    && c != []
    && (forall s :: s in c ==> s in steps)
    && forall i :: 0 <= i < |c| - 1 ==> c[i].seqNo in c[i + 1].dependsOn
  }

  function Last(c: seq<Step>): Step
    requires c != []
  {
    c[|c| - 1]
  }

  lemma SameSeqSameStep(steps: seq<Step>, s: Step, t: Step)
    requires DistinctSeqs(steps) && s in steps && t in steps && s.seqNo == t.seqNo
    ensures s == t
  {
    var i :| 0 <= i < |steps| && steps[i] == s;
    var j :| 0 <= j < |steps| && steps[j] == t;
    assert !(i < j) && !(j < i);
  }

  // Every number the chain waits for is carried by the chain's own step only.
  ghost predicate UniqueAlong(steps: seq<Step>, c: seq<Step>) {
    forall i, t :: 0 <= i < |c| - 1 && t in steps && t.seqNo == c[i].seqNo ==> t == c[i]
  }

  lemma DistinctIsUniqueAlong(steps: seq<Step>, c: seq<Step>)
    requires DistinctSeqs(steps) && Chain(steps, c)
    ensures UniqueAlong(steps, c)
  {
    forall i, t | 0 <= i < |c| - 1 && t in steps && t.seqNo == c[i].seqNo ensures t == c[i] {
      assert c[i] in c;
      SameSeqSameStep(steps, t, c[i]);
    }
  }

  function Front(c: seq<Step>): seq<Step>
    requires c != []
  {
    c[..|c| - 1]
  }

  lemma ChainFront(steps: seq<Step>, c: seq<Step>)
    requires Chain(steps, c) && |c| > 1
    ensures Chain(steps, Front(c)) && Last(Front(c)).seqNo in Last(c).dependsOn
    ensures UniqueAlong(steps, c) ==>
      UniqueAlong(steps, Front(c)) && forall t :: t in steps && t.seqNo == Last(Front(c)).seqNo ==> t == Last(Front(c))
  {
    var n := |c| - 2;
    assert c[n].seqNo in c[n + 1].dependsOn;
  }

  // The step before the last of such a chain lies in a strictly earlier wave.
  lemma LinkRises(steps: seq<Step>, waves: seq<seq<Step>>, c: seq<Step>, k: nat) returns (i: nat)
    requires ValidSchedule(steps, waves) && UniqueAlong(steps, c)
    requires Chain(steps, c) && |c| > 1 && k < |waves| && Last(c) in waves[k]
    ensures Chain(steps, Front(c)) && UniqueAlong(steps, Front(c))
    ensures i < k && Last(Front(c)) in waves[i]
  {
    var t;
    ChainFront(steps, c);
    i, t := EarlierCarrier(steps, waves, k, Last(c), Last(Front(c)).seqNo);
  }

  lemma {:induction false} ChainRises(steps: seq<Step>, waves: seq<seq<Step>>, c: seq<Step>, k: nat)
    returns (j: nat)
    requires ValidSchedule(steps, waves) && UniqueAlong(steps, c)
    requires Chain(steps, c) && k < |waves| && Last(c) in waves[k]
    ensures j < |waves| && c[0] in waves[j] && j + |c| - 1 <= k
    decreases |c|
  {
    if |c| == 1 {
      j := k;
    } else {
      var i := LinkRises(steps, waves, c, k);
      j := ChainRises(steps, waves, Front(c), i);
    }
  }

  // A step that could not run a wave earlier waits for one of the wave before.
  lemma WaitsForWaveBefore(steps: seq<Step>, waves: seq<seq<Step>>, k: nat, s: Step) returns (t: Step)
    requires ValidSchedule(steps, waves) && NoWaveTooLate(waves)
    requires 1 <= k < |waves| && s in waves[k]
    ensures t in waves[k - 1] && t.seqNo in s.dependsOn
  {
    var d :| Held(waves, k, s, d);
    var j;
    j, t := EarlierCarrier(steps, waves, k, s, d);
    assert j == k - 1;
  }

  lemma ChainExtends(steps: seq<Step>, c: seq<Step>, s: Step)
    requires Chain(steps, c) && s in steps && Last(c).seqNo in s.dependsOn
    ensures Chain(steps, c + [s]) && Last(c + [s]) == s
  {
  }

  lemma {:induction false} ChainReaching(steps: seq<Step>, waves: seq<seq<Step>>, k: nat, s: Step)
    returns (c: seq<Step>)
    requires ValidSchedule(steps, waves) && NoWaveTooLate(waves)
    requires k < |waves| && s in waves[k]
    ensures Chain(steps, c) && Last(c) == s && |c| == k + 1
  {
    InSomeWave(steps, waves, s);
    if k == 0 {
      c := [s];
    } else {
      var t := WaitsForWaveBefore(steps, waves, k, s);
      var front := ChainReaching(steps, waves, k - 1, t);
      ChainExtends(steps, front, s);
      c := front + [s];
    }
  }

  // A step's wave index is one less than the length of some dependency chain ending in it. No chain
  // over unique numbers is longer, hence with distinct numbers no chain at all.
  lemma WaveIsLongestChain(steps: seq<Step>, waves: seq<seq<Step>>, k: nat, s: Step)
    requires Resolve(steps) == Some(waves)
    requires k < |waves| && s in waves[k]
    ensures exists c :: Chain(steps, c) && Last(c) == s && |c| == k + 1
    ensures forall c :: Chain(steps, c) && Last(c) == s && UniqueAlong(steps, c) ==> |c| <= k + 1
    ensures DistinctSeqs(steps) ==> forall c :: Chain(steps, c) && Last(c) == s ==> |c| <= k + 1
  {
    ResolvedPlan(steps, waves);
    var longest := ChainReaching(steps, waves, k, s);
    forall c | Chain(steps, c) && Last(c) == s && UniqueAlong(steps, c) ensures |c| <= k + 1 {
      var _ := ChainRises(steps, waves, c, k);
    }
    if DistinctSeqs(steps) {
      forall c | Chain(steps, c) && Last(c) == s ensures |c| <= k + 1 {
        DistinctIsUniqueAlong(steps, c);
      }
    }
  }

  /******* Exactly which runbooks resolve *******/

  ghost predicate MissingDependency(steps: seq<Step>) {
    exists s, d :: s in steps && d in s.dependsOn && d !in SeqNos(steps)
  }

  // Some step depends on itself, directly or through other steps.
  ghost predicate Circular(steps: seq<Step>) {
    exists c :: Chain(steps, c) && |c| >= 2 && c[0] == Last(c)
  }

  lemma {:induction false} NoCircleIn(steps: seq<Step>, waves: seq<seq<Step>>, c: seq<Step>, k: nat)
    requires ValidSchedule(steps, waves) && UniqueAlong(steps, c)
    requires Chain(steps, c) && |c| >= 2 && c[0] == Last(c)
    ensures !(k < |waves| && Last(c) in waves[k])
  {
    if k < |waves| && Last(c) in waves[k] {
      var j := ChainRises(steps, waves, c, k);
      NoCircleIn(steps, waves, c, j);
    }
  }

  // Among these steps each names a number that no step outside them carries. (A missing number is
  // carried by no step at all.)
  ghost predicate Deadlocked(steps: seq<Step>, left: seq<Step>) {
    && left != [] && (forall s :: s in left ==> s in steps)
    && forall s :: s in left ==> exists d :: d in s.dependsOn && OnlyCarriedIn(steps, left, d)
  }

  ghost predicate OnlyCarriedIn(steps: seq<Step>, left: seq<Step>, d: int) {
    forall t :: t in steps && t.seqNo == d ==> t in left
  }

  lemma {:induction false} PeelStuck(steps: seq<Step>, remaining: seq<Step>, completed: set<int>)
    returns (left: seq<Step>)
    requires Peel(remaining, completed) == None
    requires forall s :: s in remaining ==> s in steps
    requires forall s :: s in steps ==> s in remaining || s.seqNo in completed
    ensures Deadlocked(steps, left)
    decreases |remaining|
  {
    var ready, blocked := Select(remaining, completed, true), Select(remaining, completed, false);
    SelectMembers(remaining, completed, true);
    SelectMembers(remaining, completed, false);
    if ready == [] {
      left := remaining;
      forall s | s in left ensures exists d :: d in s.dependsOn && OnlyCarriedIn(steps, left, d) {
        assert !Ready(s, completed);
        var d :| d in s.dependsOn && d !in completed;
        assert OnlyCarriedIn(steps, left, d);
      }
    } else {
      SelectPartitions(remaining, completed);
      left := PeelStuck(steps, blocked, completed + SeqNos(ready));
    }
  }

  // A deadlocked step has a deadlocked step in an earlier wave of any schedule, without end.
  lemma {:induction false} NoDeadlockInSchedule(
    steps: seq<Step>, waves: seq<seq<Step>>, left: seq<Step>, s: Step, k: nat)
    requires ValidSchedule(steps, waves) && Deadlocked(steps, left) && s in left
    ensures !(k < |waves| && s in waves[k])
    decreases k
  {
    if k < |waves| && s in waves[k] {
      var d :| d in s.dependsOn && OnlyCarriedIn(steps, left, d);
      var j, t := EarlierCarrier(steps, waves, k, s, d);
      NoDeadlockInSchedule(steps, waves, left, t, j);
    }
  }

  // For every runbook, repeated numbers included: the resolver succeeds exactly when some schedule is
  // possible at all, and gets stuck exactly when some of the steps wait only for one another.
  lemma ResolvesExactlyWhenSchedulable(steps: seq<Step>)
    ensures Resolve(steps).Some? <==> exists waves :: ValidSchedule(steps, waves)
    ensures Resolve(steps) == None <==> exists left :: Deadlocked(steps, left)
  {
    if Resolve(steps).Some? {
      ResolvedPlan(steps, Resolve(steps).value);
    } else {
      var left := PeelStuck(steps, steps, {});
    }
    forall waves, left | ValidSchedule(steps, waves) && Deadlocked(steps, left) ensures false {
      InSomeWave(steps, waves, left[0]);
      var k :| 0 <= k < |waves| && left[0] in waves[k];
      NoDeadlockInSchedule(steps, waves, left, left[0], k);
    }
  }

  // Walking back along the named numbers never has to stop among deadlocked steps.
  lemma {:induction false} WalkBack(steps: seq<Step>, left: seq<Step>, n: nat) returns (c: seq<Step>)
    requires Deadlocked(steps, left) && !MissingDependency(steps)
    ensures Chain(steps, c) && |c| == n + 1
    ensures forall s :: s in c ==> s in left
  {
    if n == 0 {
      c := [left[0]];
    } else {
      var back := WalkBack(steps, left, n - 1);
      assert back[0] in back;
      var d :| d in back[0].dependsOn && OnlyCarriedIn(steps, left, d);
      assert d in SeqNos(steps);
      var t :| t in steps && t.seqNo == d;
      c := [t] + back;
    }
  }

  lemma {:induction false} Pigeonhole(c: seq<Step>, holes: set<Step>) returns (i: nat, j: nat)
    requires forall s :: s in c ==> s in holes
    requires |c| > |holes|
    ensures i < j < |c| && c[i] == c[j]
  {
    if c[0] in c[1..] {
      i := 0;
      j :| 0 < j < |c| && c[j] == c[0];
    } else {
      i, j := Pigeonhole(c[1..], holes - {c[0]});
      i, j := i + 1, j + 1;
    }
  }

  lemma RepeatIsCircle(steps: seq<Step>, c: seq<Step>, i: nat, j: nat)
    requires Chain(steps, c) && i < j < |c| && c[i] == c[j]
    ensures Circular(steps)
  {
    var circle := c[i..j + 1];
    forall x | 0 <= x < |circle| - 1 ensures circle[x].seqNo in circle[x + 1].dependsOn {
      assert c[i + x].seqNo in c[i + x + 1].dependsOn;
    }
    assert Chain(steps, circle) && circle[0] == Last(circle);
  }

  lemma StuckMeansCircular(steps: seq<Step>)
    requires Resolve(steps) == None && !MissingDependency(steps)
    ensures Circular(steps)
  {
    ResolvesExactlyWhenSchedulable(steps);
    var left :| Deadlocked(steps, left);
    var members := set s | s in left;
    var c := WalkBack(steps, left, |members|);
    var i, j := Pigeonhole(c, members);
    RepeatIsCircle(steps, c, i, j);
  }

  // With distinct numbers, that is exactly on runbooks without missing and without circular dependencies.
  lemma ResolvesExactlyWithoutCircles(steps: seq<Step>)
    requires DistinctSeqs(steps)
    ensures Resolve(steps).Some? <==> !MissingDependency(steps) && !Circular(steps)
  {
    if Resolve(steps).Some? {
      var waves := Resolve(steps).value;
      ResolvedPlan(steps, waves);
      forall s, d | s in steps && d in s.dependsOn ensures d in SeqNos(steps) {
        InSomeWave(steps, waves, s);
        var k :| 0 <= k < |waves| && s in waves[k];
        var j, t := EarlierCarrier(steps, waves, k, s, d);
      }
      forall c | Chain(steps, c) && |c| >= 2 ensures c[0] != Last(c) {
        InSomeWave(steps, waves, Last(c));
        var k :| 0 <= k < |waves| && Last(c) in waves[k];
        if c[0] == Last(c) {
          DistinctIsUniqueAlong(steps, c);
          NoCircleIn(steps, waves, c, k);
        }
      }
    } else if !MissingDependency(steps) {
      StuckMeansCircular(steps);
    }
  }

  // Numbers are not checked for uniqueness: a step that names its own number resolves when a twin
  // with that number is ready, so being free of circles is the exact condition for distinct numbers only.
  lemma TwinHidesCircle(a: Step, b: Step)
    requires a.seqNo == b.seqNo && a.dependsOn == [] && b.dependsOn == [b.seqNo]
    ensures Resolve([a, b]) == Some([[a], [b]]) && Circular([a, b])
  {
    var n := b.seqNo;
    assert !Ready(b, {}) by { assert n in b.dependsOn; }
    assert SeqNos([a]) == {n} by { assert a in [a]; }
    SelectTwo(a, b, {});
    SelectOne(b, {n});
    assert {} + SeqNos([a]) == {n};
    assert Peel([b], {n}) == Some([[b]] + []);
    assert [[b]] + [] == [[b]] && [[a]] + [[b]] == [[a], [b]];
    assert Peel([a, b], {}) == Some([[a]] + [[b]]);
    assert Chain([a, b], [b, b]) && Last([b, b]) == b;
  }

  lemma DuplicateHidesCircle()
    ensures var a := Step(1, "a", "wait", [], false, None, None);
            var b := Step(1, "b", "wait", [1], false, None, None);
            Resolve([a, b]) == Some([[a], [b]]) && Circular([a, b])
  {
    TwinHidesCircle(Step(1, "a", "wait", [], false, None, None), Step(1, "b", "wait", [1], false, None, None));
  }

  lemma SelectOne(s: Step, completed: set<int>)
    ensures Select([s], completed, true) == if Ready(s, completed) then [s] else []
    ensures Select([s], completed, false) == if Ready(s, completed) then [] else [s]
  {
    assert [s][1..] == [];
  }

  lemma SelectTwo(s: Step, t: Step, completed: set<int>)
    requires Ready(s, completed) && !Ready(t, completed)
    ensures Select([s, t], completed, true) == [s] && Select([s, t], completed, false) == [t]
  {
    assert [s, t][1..] == [t];
    SelectOne(t, completed);
  }

  /******* The priced plan *******/

  function SumTimeouts(steps: seq<Step>): int {
    if steps == [] then 0 else steps[0].Timeout() + SumTimeouts(steps[1..])
  }

  function MaxTimeout(wave: seq<Step>): int
    requires wave != []
  {
    if |wave| == 1 then wave[0].Timeout() else Max(wave[0].Timeout(), MaxTimeout(wave[1..]))
  }

  function EstimatedDuration(waves: seq<seq<Step>>): int
    requires forall k :: 0 <= k < |waves| ==> waves[k] != []
  {
    if waves == [] then 0 else MaxTimeout(waves[0]) + EstimatedDuration(waves[1..])
  }

  datatype PlannedWave = PlannedWave(wave: nat, parallel: bool, steps: seq<Step>)
  datatype Plan = Plan(waves: seq<PlannedWave>, estimatedDurationMins: int, stepCount: nat)

  predicate AnyParallel(wave: seq<Step>) {
    exists s :: s in wave && s.parallel
  }

  function BuildExecutionPlan(steps: seq<Step>): Result<Plan, ResolveError> {
    match Resolve(steps)
    case None => Err(NoStepsReady)
    case Some(waves) =>
      ResolvedPlan(steps, waves);
      Ok(Plan(seq(|waves|, i requires 0 <= i < |waves| =>
                PlannedWave(i + 1, |waves[i]| > 1 || AnyParallel(waves[i]), waves[i])),
              EstimatedDuration(waves), |steps|))
  }

  function WavesOf(plan: Plan): seq<seq<Step>> {
    seq(|plan.waves|, i requires 0 <= i < |plan.waves| => plan.waves[i].steps)
  }

  // The plan exists exactly when the runbook resolves; it is then a valid schedule of all its steps in
  // numbered, non-empty waves, and only a wave of one unmarked step is not parallel.
  lemma PlanIsSchedule(steps: seq<Step>)
    ensures BuildExecutionPlan(steps).Ok? <==> Resolve(steps).Some?
    ensures BuildExecutionPlan(steps).Ok? ==>
      var plan := BuildExecutionPlan(steps).value;
      && ValidSchedule(steps, WavesOf(plan)) && |Flatten(WavesOf(plan))| == plan.stepCount
      && forall i :: 0 <= i < |plan.waves| ==>
           && plan.waves[i].wave == i + 1 && plan.waves[i].steps != []
           && (!plan.waves[i].parallel <==> exists s :: plan.waves[i].steps == [s] && !s.parallel)
  {
    if Resolve(steps).Some? {
      var waves, plan := Resolve(steps).value, BuildExecutionPlan(steps).value;
      ResolvedPlan(steps, waves);
      assert WavesOf(plan) == waves;
      assert |multiset(Flatten(waves))| == |multiset(steps)|;
      forall i | 0 <= i < |plan.waves|
        ensures !plan.waves[i].parallel <==> exists s :: plan.waves[i].steps == [s] && !s.parallel
      {
        var wave := plan.waves[i].steps;
        if !plan.waves[i].parallel {
          assert wave == [wave[0]] && wave[0] in wave;
        }
      }
    }
  }

  ghost predicate TimeoutsNonNegative(steps: seq<Step>) {
    forall s :: s in steps ==> s.Timeout() >= 0
  }

  lemma {:induction false} MaxTimeoutBounds(wave: seq<Step>)
    requires wave != [] && TimeoutsNonNegative(wave)
    ensures forall s :: s in wave ==> s.Timeout() <= MaxTimeout(wave)
    ensures 0 <= MaxTimeout(wave) <= SumTimeouts(wave)
  {
    assert wave[0] in wave;
    if |wave| > 1 {
      MaxTimeoutBounds(wave[1..]);
      assert wave == [wave[0]] + wave[1..];
    } else {
      assert SumTimeouts(wave[1..]) == 0;
    }
  }

  lemma {:induction false} SumConcat(a: seq<Step>, b: seq<Step>)
    ensures SumTimeouts(a + b) == SumTimeouts(a) + SumTimeouts(b)
  {
    if a == [] {
      assert a + b == b;
    } else {
      SumConcat(a[1..], b);
      assert (a + b)[1..] == a[1..] + b;
    }
  }

  lemma SumWithout(b: seq<Step>, i: nat)
    requires i < |b|
    ensures SumTimeouts(b) == b[i].Timeout() + SumTimeouts(Without(b, i))
  {
    assert b == b[..i] + b[i..];
    SumConcat(b[..i], b[i..]);
    SumConcat(b[..i], b[i + 1..]);
    assert b[i..][1..] == b[i + 1..];
  }

  lemma {:induction false} SumPermuted(a: seq<Step>, b: seq<Step>)
    requires multiset(a) == multiset(b)
    ensures SumTimeouts(a) == SumTimeouts(b)
    decreases |a|
  {
    if a == [] {
      assert |multiset(b)| == 0;
    } else {
      var i := MatchFirst(a, b);
      SumWithout(b, i);
      SumPermuted(a[1..], Without(b, i));
    }
  }

  lemma {:induction false} EstimateAtMostSum(waves: seq<seq<Step>>)
    requires forall k :: 0 <= k < |waves| ==> waves[k] != []
    requires TimeoutsNonNegative(Flatten(waves))
    ensures 0 <= EstimatedDuration(waves) <= SumTimeouts(Flatten(waves))
  {
    if waves != [] {
      assert forall s :: s in waves[0] || s in Flatten(waves[1..]) ==> s in Flatten(waves);
      MaxTimeoutBounds(waves[0]);
      EstimateAtMostSum(waves[1..]);
      SumConcat(waves[0], Flatten(waves[1..]));
    }
  }

  lemma {:induction false} EstimateGrows(waves: seq<seq<Step>>, k: nat)
    requires k < |waves|
    requires forall i :: 0 <= i < |waves| ==> waves[i] != [] && TimeoutsNonNegative(waves[i])
    ensures EstimatedDuration(waves[..k + 1]) == EstimatedDuration(waves[..k]) + MaxTimeout(waves[k])
    ensures 0 <= EstimatedDuration(waves[..k]) <= EstimatedDuration(waves)
  {
    MaxTimeoutBounds(waves[0]);
    assert waves[..k + 1][1..] == waves[1..][..k];
    if k > 0 {
      assert waves[..k][1..] == waves[1..][..k - 1];
      EstimateGrows(waves[1..], k - 1);
    } else {
      assert waves[1..][..0] == [];
      EstimateNonNegative(waves[1..]);
    }
  }

  lemma {:induction false} EstimateNonNegative(waves: seq<seq<Step>>)
    requires forall i :: 0 <= i < |waves| ==> waves[i] != [] && TimeoutsNonNegative(waves[i])
    ensures 0 <= EstimatedDuration(waves)
  {
    if waves != [] {
      MaxTimeoutBounds(waves[0]);
      EstimateNonNegative(waves[1..]);
    }
  }

  lemma SumFront(c: seq<Step>)
    requires c != []
    ensures SumTimeouts(c) == SumTimeouts(Front(c)) + Last(c).Timeout()
  {
    assert c == Front(c) + [Last(c)];
    SumConcat(Front(c), [Last(c)]);
    assert [Last(c)][1..] == [];
  }

  lemma {:induction false} ChainWithinEstimate(steps: seq<Step>, waves: seq<seq<Step>>, c: seq<Step>, k: nat)
    requires ValidSchedule(steps, waves) && UniqueAlong(steps, c)
    requires forall i :: 0 <= i < |waves| ==> waves[i] != [] && TimeoutsNonNegative(waves[i])
    requires Chain(steps, c) && k < |waves| && Last(c) in waves[k]
    ensures SumTimeouts(c) <= EstimatedDuration(waves[..k + 1])
    decreases |c|
  {
    SumFront(c);
    EstimateGrows(waves, k);
    MaxTimeoutBounds(waves[k]);
    if |c| > 1 {
      var i := LinkRises(steps, waves, c, k);
      ChainWithinEstimate(steps, waves, Front(c), i);
      assert waves[..k][..i + 1] == waves[..i + 1];
      EstimatePrefix(waves[..k], i + 1);
    }
  }

  lemma EstimatePrefix(waves: seq<seq<Step>>, k: nat)
    requires k <= |waves|
    requires forall i :: 0 <= i < |waves| ==> waves[i] != [] && TimeoutsNonNegative(waves[i])
    ensures EstimatedDuration(waves[..k]) <= EstimatedDuration(waves)
  {
    if k < |waves| {
      EstimateGrows(waves, k);
    } else {
      assert waves[..k] == waves;
    }
  }

  lemma {:induction false} MaxTimeoutAttained(wave: seq<Step>) returns (s: Step)
    requires wave != []
    ensures s in wave && s.Timeout() == MaxTimeout(wave)
    ensures forall r :: r in wave ==> r.Timeout() <= MaxTimeout(wave)
  {
    s := wave[0];
    if |wave| > 1 {
      var later := MaxTimeoutAttained(wave[1..]);
      assert wave == [wave[0]] + wave[1..];
      if later.Timeout() > s.Timeout() {
        s := later;
      }
    }
  }

  // One step out of every wave.
  ghost predicate OnePerWave(waves: seq<seq<Step>>, choice: seq<Step>) {
    |choice| == |waves| && forall k :: 0 <= k < |waves| ==> choice[k] in waves[k]
  }

  lemma {:induction false} ChoiceWithinEstimate(waves: seq<seq<Step>>, choice: seq<Step>)
    requires forall k :: 0 <= k < |waves| ==> waves[k] != []
    requires OnePerWave(waves, choice)
    ensures SumTimeouts(choice) <= EstimatedDuration(waves)
  {
    if waves != [] {
      ChoiceWithinEstimate(waves[1..], choice[1..]);
      var _ := MaxTimeoutAttained(waves[0]);
    }
  }

  lemma {:induction false} LongestChoice(waves: seq<seq<Step>>) returns (choice: seq<Step>)
    requires forall k :: 0 <= k < |waves| ==> waves[k] != []
    ensures OnePerWave(waves, choice) && SumTimeouts(choice) == EstimatedDuration(waves)
  {
    if waves == [] {
      choice := [];
    } else {
      var s := MaxTimeoutAttained(waves[0]);
      var rest := LongestChoice(waves[1..]);
      choice := [s] + rest;
      assert choice[1..] == rest;
    }
  }

  // The minutes a list of steps takes one after the other, an hour for a step without a timeout.
  ghost function Minutes(steps: seq<Step>): int {
    if steps == [] then 0
    else (if steps[0].timeoutMins == None then 60 else steps[0].timeoutMins.value) + Minutes(steps[1..])
  }

  lemma {:induction false} TimeoutsAreMinutes(steps: seq<Step>)
    ensures SumTimeouts(steps) == Minutes(steps)
  {
    if steps != [] {
      TimeoutsAreMinutes(steps[1..]);
    }
  }

  // The estimate is what the slowest step of every wave takes: some choice of one step per wave takes
  // that long in total, and no choice takes longer.
  lemma EstimateIsSlowestChoice(steps: seq<Step>, plan: Plan)
    requires BuildExecutionPlan(steps) == Ok(plan)
    ensures exists choice :: OnePerWave(WavesOf(plan), choice) && Minutes(choice) == plan.estimatedDurationMins
    ensures forall choice :: OnePerWave(WavesOf(plan), choice) ==> Minutes(choice) <= plan.estimatedDurationMins
  {
    var waves := Resolve(steps).value;
    ResolvedPlan(steps, waves);
    assert WavesOf(plan) == waves;
    var slowest := LongestChoice(waves);
    TimeoutsAreMinutes(slowest);
    forall choice | OnePerWave(waves, choice) ensures Minutes(choice) <= plan.estimatedDurationMins {
      ChoiceWithinEstimate(waves, choice);
      TimeoutsAreMinutes(choice);
    }
  }

  // The estimate covers every dependency chain over unique numbers, hence with distinct numbers every
  // chain at all, and never exceeds running the steps one by one.
  lemma EstimateBounds(steps: seq<Step>, plan: Plan)
    requires BuildExecutionPlan(steps) == Ok(plan)
    requires TimeoutsNonNegative(steps)
    ensures plan.estimatedDurationMins <= SumTimeouts(steps)
    ensures forall c :: Chain(steps, c) && UniqueAlong(steps, c) ==> SumTimeouts(c) <= plan.estimatedDurationMins
    ensures DistinctSeqs(steps) ==> forall c :: Chain(steps, c) ==> SumTimeouts(c) <= plan.estimatedDurationMins
  {
    var waves := Resolve(steps).value;
    ResolvedPlan(steps, waves);
    forall k, s | 0 <= k < |waves| && s in waves[k] ensures s in steps {
      InSomeWave(steps, waves, s);
    }
    forall s | s in Flatten(waves) ensures s in steps {
      assert s in multiset(Flatten(waves));
    }
    EstimateAtMostSum(waves);
    SumPermuted(Flatten(waves), steps);
    forall c | Chain(steps, c) && UniqueAlong(steps, c) ensures SumTimeouts(c) <= plan.estimatedDurationMins {
      UniqueChainWithinEstimate(steps, waves, c);
    }
    if DistinctSeqs(steps) {
      forall c | Chain(steps, c) ensures SumTimeouts(c) <= plan.estimatedDurationMins {
        DistinctIsUniqueAlong(steps, c);
      }
    }
  }

  lemma UniqueChainWithinEstimate(steps: seq<Step>, waves: seq<seq<Step>>, c: seq<Step>)
    requires ValidSchedule(steps, waves) && Chain(steps, c) && UniqueAlong(steps, c)
    requires forall i :: 0 <= i < |waves| ==> waves[i] != [] && TimeoutsNonNegative(waves[i])
    ensures SumTimeouts(c) <= EstimatedDuration(waves)
  {
    InSomeWave(steps, waves, Last(c));
    var k :| 0 <= k < |waves| && Last(c) in waves[k];
    ChainWithinEstimate(steps, waves, c, k);
    EstimatePrefix(waves, k + 1);
  }

  // Two steps with one number, the second waiting for the first: a chain that repeats the second
  // exceeds the estimate as soon as its repetitions outlast the first step.
  lemma TwinChainTotals(a: Step, b: Step)
    requires a.seqNo == b.seqNo && a.dependsOn == [] && b.dependsOn == [b.seqNo]
    ensures BuildExecutionPlan([a, b]).Ok?
    ensures BuildExecutionPlan([a, b]).value.estimatedDurationMins == a.Timeout() + b.Timeout()
    ensures Chain([a, b], [b, b, b]) && SumTimeouts([b, b, b]) == 3 * b.Timeout()
  {
    TwinHidesCircle(a, b);
    assert [[a], [b]][1..] == [[b]] && [[b]][1..] == [];
    assert EstimatedDuration([[b]]) == b.Timeout();
    assert [b, b, b][1..] == [b, b] && [b, b][1..] == [b] && [b][1..] == [];
    assert SumTimeouts([b]) == b.Timeout();
  }

  // For instance a chain of 180 minutes against an estimate of 120.
  lemma TwinChainExceedsEstimate()
    ensures var a := Step(1, "a", "wait", [], false, None, None);
            var b := Step(1, "b", "wait", [1], false, None, None);
            && BuildExecutionPlan([a, b]).Ok? && BuildExecutionPlan([a, b]).value.estimatedDurationMins == 120
            && Chain([a, b], [b, b, b]) && SumTimeouts([b, b, b]) == 180
  {
    TwinChainTotals(Step(1, "a", "wait", [], false, None, None), Step(1, "b", "wait", [1], false, None, None));
  }
}
