/** Choosing a restore point and scoring a recovery. Times are whole microseconds. */
module VeeamSelection {
  import opened Wrappers
  import opened Sorting
  import opened Rounding
  import opened Vectors

  const MINUTE: int := 60_000_000

  datatype RestorePoint = RestorePoint(id: string, creationTime: int, isConsistent: bool)

  datatype NoRestorePoint = NoneReturned | NoneConsistent

  // Whole minutes, floored, never negative.
  function ComputeAgeMinutes(earlier: int, now: int): int {
    Max(0, (now - earlier) / MINUTE)
  }

  function Consistent(points: seq<RestorePoint>): seq<RestorePoint> {
    if points == [] then []
    else (if points[0].isConsistent then [points[0]] else []) + Consistent(points[1..])
  }

  function InWindow(points: seq<RestorePoint>, now: int, rpoTargetMins: int): seq<RestorePoint> {
    if points == [] then []
    else (if ComputeAgeMinutes(points[0].creationTime, now) <= rpoTargetMins then [points[0]] else [])
         + InWindow(points[1..], now, rpoTargetMins)
  }

  // Sorting by this key puts the newest point first and keeps the order of equally old ones.
  function NewestKey(p: RestorePoint): real { -(p.creationTime as real) }

  // Position i holds the first consistent point of greatest creation time.
  ghost predicate FirstNewest(points: seq<RestorePoint>, i: nat)
    requires i < |points|
  {
    && points[i].isConsistent
    && (forall j :: 0 <= j < |points| && points[j].isConsistent ==> points[j].creationTime <= points[i].creationTime)
    && forall j :: 0 <= j < i && points[j].isConsistent ==> points[j].creationTime < points[i].creationTime
  }

  // The contract names no target: the point chosen is the same for every RPO target and for none.
  method SelectRestorePoint(points: seq<RestorePoint>, now: int, rpoTargetMins: Option<int>)
    returns (r: Result<RestorePoint, NoRestorePoint>)
    ensures r == Err(NoneReturned) <==> points == []
    ensures r == Err(NoneConsistent) <==> points != [] && forall j :: 0 <= j < |points| ==> !points[j].isConsistent
    ensures r.Ok? ==> exists i :: 0 <= i < |points| && FirstNewest(points, i) && r.value == points[i]
  {
    if points == [] {
      return Err(NoneReturned);
    }
    var consistent := Consistent(points);
    ConsistentMembers(points);
    if consistent == [] {
      return Err(NoneConsistent);
    }
    var i := NewestConsistent(points);
    consistent := SortBy(consistent, NewestKey);
    if rpoTargetMins.Some? {
      var inWindow := InWindow(consistent, now, rpoTargetMins.value);
      if inWindow != [] {
        SortOrdered(Consistent(points), NewestKey);
        WindowKeepsHead(consistent, now, rpoTargetMins.value);
        return Ok(inWindow[0]);
      }
    }
    return Ok(consistent[0]);
  }

  // The age is the number of whole minutes passed, and zero for a point in the future.
  lemma AgeInMinutes(earlier: int, now: int)
    ensures var age := ComputeAgeMinutes(earlier, now);
      if earlier <= now then 60_000_000 * age <= now - earlier < 60_000_000 * (age + 1) else age == 0
  {
  }

  lemma AgeAntitone(a: int, b: int, now: int)
    requires a <= b
    ensures ComputeAgeMinutes(b, now) <= ComputeAgeMinutes(a, now)
  {
  }

  // If any point of a newest-first list is in the window, its head is.
  lemma WindowKeepsHead(points: seq<RestorePoint>, now: int, rpoTargetMins: int)
    requires Ordered(points, NewestKey) && InWindow(points, now, rpoTargetMins) != []
    ensures InWindow(points, now, rpoTargetMins)[0] == points[0]
  {
    if ComputeAgeMinutes(points[0].creationTime, now) > rpoTargetMins {
      var k := SomeInWindow(points, now, rpoTargetMins);
      assert k > 0 ==> NewestKey(points[0]) <= NewestKey(points[k]);
      AgeAntitone(points[k].creationTime, points[0].creationTime, now);
    }
  }

  // The points in the window are those not older than the target.
  lemma {:induction false} InWindowMembers(points: seq<RestorePoint>, now: int, rpoTargetMins: int)
    ensures forall p :: p in InWindow(points, now, rpoTargetMins) <==>
      p in points && ComputeAgeMinutes(p.creationTime, now) <= rpoTargetMins
  {
    if points != [] {
      InWindowMembers(points[1..], now, rpoTargetMins);
      assert points == [points[0]] + points[1..];
    }
  }

  lemma {:induction false} SomeInWindow(points: seq<RestorePoint>, now: int, rpoTargetMins: int) returns (k: nat)
    requires InWindow(points, now, rpoTargetMins) != []
    ensures k < |points| && ComputeAgeMinutes(points[k].creationTime, now) <= rpoTargetMins
  {
    if ComputeAgeMinutes(points[0].creationTime, now) <= rpoTargetMins {
      k := 0;
    } else {
      var j := SomeInWindow(points[1..], now, rpoTargetMins);
      k := j + 1;
    }
  }

  // How the first newest point moves when one point is put in front.
  lemma FrontSkipped(points: seq<RestorePoint>, k: nat)
    requires points != [] && k + 1 < |points| && FirstNewest(points[1..], k)
    requires points[0].isConsistent ==> points[0].creationTime < points[k + 1].creationTime
    ensures FirstNewest(points, k + 1)
  {
    assert forall j :: 1 <= j < |points| ==> points[j] == points[1..][j - 1];
  }

  lemma FrontTaken(points: seq<RestorePoint>, k: nat)
    requires points != [] && k + 1 < |points| && FirstNewest(points[1..], k)
    requires points[0].isConsistent && points[k + 1].creationTime <= points[0].creationTime
    ensures FirstNewest(points, 0)
  {
    assert forall j :: 1 <= j < |points| ==> points[j] == points[1..][j - 1];
  }

  lemma InsertedHead(p: RestorePoint, rest: seq<RestorePoint>)
    ensures SortBy([p] + rest, NewestKey)[0]
         == if rest == [] || SortBy(rest, NewestKey)[0].creationTime <= p.creationTime then p
            else SortBy(rest, NewestKey)[0]
  {
    assert ([p] + rest)[1..] == rest;
  }

  ghost predicate IsHead(points: seq<RestorePoint>, i: nat) {
    Consistent(points) != [] ==>
      i < |points| && FirstNewest(points, i) && SortBy(Consistent(points), NewestKey)[0] == points[i]
  }

  // One point more in front: the head stays or is the new point.
  lemma HeadWithFront(points: seq<RestorePoint>, k: nat) returns (i: nat)
    requires points != [] && points[0].isConsistent && Consistent(points[1..]) != [] && IsHead(points[1..], k)
    ensures IsHead(points, i)
  {
    InsertedHead(points[0], Consistent(points[1..]));
    if points[0].creationTime < points[k + 1].creationTime {
      FrontSkipped(points, k);
      i := k + 1;
    } else {
      FrontTaken(points, k);
      i := 0;
    }
  }

  lemma {:induction false} ConsistentMembers(points: seq<RestorePoint>)
    ensures Consistent(points) == [] <==> forall j :: 0 <= j < |points| ==> !points[j].isConsistent
  {
    if points != [] {
      ConsistentMembers(points[1..]);
      assert forall j :: 1 <= j < |points| ==> points[j] == points[1..][j - 1];
    }
  }

  lemma HeadAlone(points: seq<RestorePoint>)
    requires points != [] && points[0].isConsistent && Consistent(points[1..]) == []
    ensures IsHead(points, 0)
  {
    ConsistentMembers(points[1..]);
    assert forall j :: 1 <= j < |points| ==> points[j] == points[1..][j - 1];
    assert Consistent(points) == [points[0]];
    assert [points[0]][1..] == [];
  }

  lemma HeadBehind(points: seq<RestorePoint>, k: nat)
    requires points != [] && !points[0].isConsistent && IsHead(points[1..], k)
    ensures IsHead(points, k + 1)
  {
    assert Consistent(points) == Consistent(points[1..]);
    if Consistent(points[1..]) != [] {
      FrontSkipped(points, k);
    }
  }

  // The head of the sorted consistent points is the first newest one of the input.
  lemma {:induction false} NewestConsistent(points: seq<RestorePoint>) returns (i: nat)
    ensures IsHead(points, i)
  {
    i := 0;
    if points != [] {
      var k := NewestConsistent(points[1..]);
      if !points[0].isConsistent {
        HeadBehind(points, k);
        i := k + 1;
      } else if Consistent(points[1..]) != [] {
        i := HeadWithFront(points, k);
      } else {
        HeadAlone(points);
      }
    }
  }

  /******* The readiness score *******/

  function ObjectivePoints(actual: int, target: int, maxPoints: int): int {
    if target <= 0 then (if actual <= 0 then maxPoints else 0)
    else if actual <= target then maxPoints
    else
      var overshoot := Quot((actual - target) as real, target as real);
      Max(0, RoundHalfEven(Mul(maxPoints as real, 1.0 - overshoot)))
  }

  function Unclamped(healthPassed: bool, rtoActual: int, rtoTarget: int, rpoActual: int, rpoTarget: int): int {
    (if healthPassed then 60 else 0)
    + ObjectivePoints(rtoActual, rtoTarget, 20) + ObjectivePoints(rpoActual, rpoTarget, 20)
  }

  function ReadinessScore(healthPassed: bool, rtoActual: int, rtoTarget: int, rpoActual: int, rpoTarget: int): int {
    Max(0, Min(100, Unclamped(healthPassed, rtoActual, rtoTarget, rpoActual, rpoTarget)))
  }

  lemma QuotOrder(x: real, y: real, d: real)
    requires d > 0.0 && x <= y
    ensures Quot(x, d) <= Quot(y, d)
  {
    QuotTimes(x, d);
    QuotTimes(y, d);
    ScaleOrder(Quot(x, d), Quot(y, d), d);
  }

  lemma PointsRange(actual: int, target: int, maxPoints: nat)
    ensures 0 <= ObjectivePoints(actual, target, maxPoints) <= maxPoints
  {
    if target > 0 && actual > target {
      var overshoot, m := Quot((actual - target) as real, target as real), maxPoints as real;
      QuotOrder(0.0, (actual - target) as real, target as real);
      QuotTimes(0.0, target as real);
      ProductSign(m, overshoot);
      DistributeLess(m, 1.0, overshoot);
      Unit(m);
      RoundMonotone(Mul(m, 1.0 - overshoot), m);
      RoundUnique(m, maxPoints);
    }
  }

  // Between the target and twice the target the points stay within half a point of the straight line
  // from the maximum down to zero; from twice the target on there are none.
  lemma PointsFollowLine(actual: int, target: int, maxPoints: nat)
    requires 0 < target <= actual
    ensures actual >= 2 * target ==> ObjectivePoints(actual, target, maxPoints) == 0
    ensures actual <= 2 * target ==>
      -0.5 <= ObjectivePoints(actual, target, maxPoints) as real
              - Mul(maxPoints as real, Quot((2 * target - actual) as real, target as real)) <= 0.5
  {
    var m, t := maxPoints as real, target as real;
    var overshoot, rest := Quot((actual - target) as real, t), Quot((2 * target - actual) as real, t);
    QuotTimes((actual - target) as real, t);
    QuotTimes((2 * target - actual) as real, t);
    SumOfQuotients(overshoot, rest, t);
    ProductSign(rest, t);
    ProductSign(m, rest);
    RoundIsNearest(Mul(m, rest));
    RoundUnique(0.0, 0);
    if actual >= 2 * target {
      RoundMonotone(Mul(m, rest), 0.0);
    } else {
      RoundMonotone(0.0, Mul(m, rest));
    }
    Unit(m);
    if actual == target {
      Unit(t);
      ScaleOrder(rest, 1.0, t);
      ScaleOrder(1.0, rest, t);
    }
  }

  lemma SumOfQuotients(x: real, y: real, t: real)
    requires t > 0.0 && Mul(x, t) + Mul(y, t) == t
    ensures x + y == 1.0
  {
    Commute(x, t);
    Commute(y, t);
    Commute(x + y, t);
    Distribute(t, x, y);
    Unit(t);
    ScaleOrder(x + y, 1.0, t);
    ScaleOrder(1.0, x + y, t);
  }

  // A longer measured time never earns more points.
  lemma PointsAntitone(a: int, b: int, target: int, maxPoints: nat)
    requires a <= b
    ensures ObjectivePoints(b, target, maxPoints) <= ObjectivePoints(a, target, maxPoints)
  {
    PointsRange(a, target, maxPoints);
    PointsRange(b, target, maxPoints);
    if target > 0 && a > target {
      OvershootMatters((a - target) as real, target as real, (b - target) as real, target as real, maxPoints);
    }
  }

  // A laxer target never earns fewer.
  lemma PointsMonotone(actual: int, s: int, t: int, maxPoints: nat)
    requires s <= t
    ensures ObjectivePoints(actual, s, maxPoints) <= ObjectivePoints(actual, t, maxPoints)
  {
    PointsRange(actual, s, maxPoints);
    PointsRange(actual, t, maxPoints);
    if s > 0 && actual > t {
      OvershootMatters((actual - t) as real, t as real, (actual - s) as real, s as real, maxPoints);
    }
  }

  // A smaller excess over a larger target is a smaller overshoot and rounds to no fewer points.
  lemma OvershootMatters(x: real, s: real, y: real, t: real, maxPoints: nat)
    requires 0.0 <= x <= y && s >= t > 0.0
    ensures RoundHalfEven(Mul(maxPoints as real, 1.0 - Quot(y, t)))
         <= RoundHalfEven(Mul(maxPoints as real, 1.0 - Quot(x, s)))
  {
    var m, p, q := maxPoints as real, Quot(x, s), Quot(y, t);
    QuotOrder(x, y, t);
    SmallerDivisor(x, s, t);
    ProductSign(m, q - p);
    DistributeLess(m, 1.0 - p, q - p);
    RoundMonotone(Mul(m, 1.0 - q), Mul(m, 1.0 - p));
  }

  lemma SmallerDivisor(x: real, s: real, t: real)
    requires x >= 0.0 && s >= t > 0.0
    ensures Quot(x, s) <= Quot(x, t)
  {
    var p := Quot(x, s);
    QuotTimes(x, s);
    QuotTimes(x, t);
    ProductSign(p, s);
    Unit(s);
    ProductSign(p, s - t);
    DistributeLess(p, s, t);
    ScaleOrder(p, Quot(x, t), t);
  }

  // The clamp never binds, and the score tells health: at least 60 exactly when it passed.
  lemma ScoreRange(healthPassed: bool, rtoActual: int, rtoTarget: int, rpoActual: int, rpoTarget: int)
    ensures var score := Unclamped(healthPassed, rtoActual, rtoTarget, rpoActual, rpoTarget);
      0 <= score <= 100 && ReadinessScore(healthPassed, rtoActual, rtoTarget, rpoActual, rpoTarget) == score
    ensures ReadinessScore(healthPassed, rtoActual, rtoTarget, rpoActual, rpoTarget) >= 60 <==> healthPassed
  {
    PointsRange(rtoActual, rtoTarget, 20);
    PointsRange(rpoActual, rpoTarget, 20);
  }

  // The share a measured time earns of maxPoints: all within the target, none from twice the target on,
  // and in between the whole number nearest to the straight line. A target of zero or less is met by
  // measuring zero or less only.
  ghost predicate EarnedShare(share: int, actual: int, target: int, maxPoints: int) {
    if target <= 0 then share == if actual <= 0 then maxPoints else 0
    else if actual <= target then share == maxPoints
    else if 2 * target <= actual then share == 0
    else NearestWhole(share, maxPoints * (2 * target - actual), target)
  }

  lemma PointsAreShare(actual: int, target: int, maxPoints: nat)
    ensures EarnedShare(ObjectivePoints(actual, target, maxPoints), actual, target, maxPoints)
  {
    if 0 < target < actual {
      PointsFollowLine(actual, target, maxPoints);
      var t, m := target as real, maxPoints as real;
      var overshoot, rest := Quot((actual - target) as real, t), Quot((2 * target - actual) as real, t);
      QuotTimes((actual - target) as real, t);
      QuotTimes((2 * target - actual) as real, t);
      SumOfQuotients(overshoot, rest, t);
      Associate(m, rest, t);
      assert Mul(m, (2 * target - actual) as real) == (maxPoints * (2 * target - actual)) as real;
      RoundedQuotient(Mul(m, rest), maxPoints * (2 * target - actual), target);
      if actual < 2 * target {
        ProductSign(rest, t);
        ProductSign(m, rest);
        RoundUnique(0.0, 0);
        RoundMonotone(0.0, Mul(m, rest));
      }
    }
  }

  // The score is 60 for health, and each of the two objectives adds its own share of 20.
  lemma ScoreAddsShares(healthPassed: bool, rtoActual: int, rtoTarget: int, rpoActual: int, rpoTarget: int)
    ensures exists rto, rpo ::
      && EarnedShare(rto, rtoActual, rtoTarget, 20) && EarnedShare(rpo, rpoActual, rpoTarget, 20)
      && ReadinessScore(healthPassed, rtoActual, rtoTarget, rpoActual, rpoTarget)
         == (if healthPassed then 60 else 0) + rto + rpo
  {
    ScoreRange(healthPassed, rtoActual, rtoTarget, rpoActual, rpoTarget);
    PointsAreShare(rtoActual, rtoTarget, 20);
    PointsAreShare(rpoActual, rpoTarget, 20);
  }

  // A share is determined by the measured time and the target.
  lemma ShareIsUnique(a: int, b: int, actual: int, target: int, maxPoints: int)
    requires EarnedShare(a, actual, target, maxPoints) && EarnedShare(b, actual, target, maxPoints)
    ensures a == b
  {
    if 0 < target < actual < 2 * target {
      NearestWholeUnique(a, b, maxPoints * (2 * target - actual), target);
    }
  }

  // Worse measurements against stricter targets never score higher.
  lemma ScoreMonotone(
    healthPassed: bool, rtoA: int, rtoB: int, rtoS: int, rtoT: int, rpoA: int, rpoB: int, rpoS: int, rpoT: int)
    requires rtoA <= rtoB && rpoA <= rpoB && rtoS <= rtoT && rpoS <= rpoT
    ensures ReadinessScore(healthPassed, rtoB, rtoS, rpoB, rpoS) <= ReadinessScore(healthPassed, rtoA, rtoT, rpoA, rpoT)
  {
    PointsAntitone(rtoA, rtoB, rtoS, 20);
    PointsMonotone(rtoA, rtoS, rtoT, 20);
    PointsAntitone(rpoA, rpoB, rpoS, 20);
    PointsMonotone(rpoA, rpoS, rpoT, 20);
  }
}
