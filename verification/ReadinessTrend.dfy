/** Weekly pass rates and the executive trend rebuilt from them. Times are whole microseconds. */
module ReadinessTrend {
  import opened Wrappers
  import opened Counting
  import opened Rounding
  import opened Vectors

  const WEEK: int := 7 * 24 * 3600 * 1_000_000

  datatype Run = Run(completedAt: int, passed: bool)

  datatype Bucket = Bucket(weekEnding: int, runs: nat, passRate: Option<int>)

  datatype TrendPoint = TrendPoint(date: int, score: int, passing: int, total: nat, rtoPct: int)

  predicate InWindow(r: Run, start: int, end: int) { start < r.completedAt <= end }

  // Runs completed in (start, end], and those of them that passed.
  function CountIn(runs: seq<Run>, start: int, end: int): nat {
    if runs == [] then 0
    else
      var n := |runs| - 1;
      CountIn(runs[..n], start, end) + if InWindow(runs[n], start, end) then 1 else 0
  }

  function PassedIn(runs: seq<Run>, start: int, end: int): (n: nat)
    ensures n <= CountIn(runs, start, end)
  {
    if runs == [] then 0
    else
      var n := |runs| - 1;
      PassedIn(runs[..n], start, end) + if InWindow(runs[n], start, end) && runs[n].passed then 1 else 0
  }

  ghost function CompletedIn(start: int, end: int): Run -> bool { (r: Run) => start < r.completedAt <= end }

  ghost function PassedWithin(start: int, end: int): Run -> bool {
    (r: Run) => start < r.completedAt <= end && r.passed
  }

  lemma {:induction false} CountsRuns(runs: seq<Run>, start: int, end: int)
    ensures CountIn(runs, start, end) == HowMany(runs, CompletedIn(start, end))
    ensures PassedIn(runs, start, end) == HowMany(runs, PassedWithin(start, end))
  {
    if runs != [] {
      CountsRuns(runs[..|runs| - 1], start, end);
      HowManyLast(runs, CompletedIn(start, end));
      HowManyLast(runs, PassedWithin(start, end));
    }
  }

  // The rounded percentage that part is of the whole.
  function Percent(part: int, whole: int): int
    requires whole != 0
  {
    RoundHalfEven(Mul(Quot(part as real, whole as real), 100.0))
  }

  // The count that a rounded percentage stands for among n.
  function Rebuilt(rate: int, n: int): int {
    RoundHalfEven(Mul(Quot(rate as real, 100.0), n as real))
  }

  function FailRatePct(totalRuns: int, failedRuns: int): int {
    if totalRuns == 0 then 0 else Percent(failedRuns, totalRuns)
  }

  function BucketEnding(runs: seq<Run>, end: int): Bucket {
    var total := CountIn(runs, end - WEEK, end);
    Bucket(end, total, if total > 0 then Some(Percent(PassedIn(runs, end - WEEK, end), total)) else None)
  }

  lemma PercentIsNearest(part: int, whole: int)
    requires whole > 0
    ensures NearestWhole(Percent(part, whole), 100 * part, whole)
  {
    var q, w := Quot(part as real, whole as real), whole as real;
    QuotTimes(part as real, w);
    Associate(q, 100.0, w);
    Associate(100.0, q, w);
    Commute(q, 100.0);
    RoundedQuotient(Mul(q, 100.0), 100 * part, whole);
  }

  // What a bucket says about the week of seven days that ends at `end`.
  ghost predicate DescribesWeek(b: Bucket, runs: seq<Run>, end: int) {
    var start := end - 604_800_000_000;
    && b.weekEnding == end
    && b.runs == HowMany(runs, CompletedIn(start, end))
    && (b.passRate == None <==> b.runs == 0)
    && (b.runs > 0 ==> NearestWhole(b.passRate.value, 100 * HowMany(runs, PassedWithin(start, end)), b.runs))
  }

  lemma BucketDescribesWeek(runs: seq<Run>, end: int)
    ensures DescribesWeek(BucketEnding(runs, end), runs, end)
  {
    CountsRuns(runs, end - WEEK, end);
    if CountIn(runs, end - WEEK, end) > 0 {
      PercentIsNearest(PassedIn(runs, end - WEEK, end), CountIn(runs, end - WEEK, end));
    }
  }

  method CountWindow(runs: seq<Run>, start: int, end: int) returns (total: nat, passed: nat)
    ensures total == CountIn(runs, start, end) && passed == PassedIn(runs, start, end)
  {
    total, passed := 0, 0;
    for i := 0 to |runs|
      invariant total == CountIn(runs[..i], start, end) && passed == PassedIn(runs[..i], start, end)
    {
      assert runs[..i + 1][..i] == runs[..i];
      if InWindow(runs[i], start, end) {
        total := total + 1;
        if runs[i].passed {
          passed := passed + 1;
        }
      }
    }
    assert runs[..|runs|] == runs;
  }

  method BucketWeeklyPassRate(runs: seq<Run>, weeks: int, now: int) returns (buckets: seq<Bucket>)
    ensures |buckets| == Max(0, weeks)
    ensures forall k :: 0 <= k < |buckets| ==> buckets[k] == BucketEnding(runs, now - (weeks - 1 - k) * WEEK)
    ensures forall k :: 0 <= k < |buckets| ==>
      DescribesWeek(buckets[k], runs, now - (weeks - 1 - k) * 604_800_000_000)
  {
    buckets := [];
    var w := weeks - 1;
    while w >= 0
      invariant w == weeks - 1 - |buckets| && |buckets| <= Max(0, weeks)
      invariant forall k :: 0 <= k < |buckets| ==> buckets[k] == BucketEnding(runs, now - (weeks - 1 - k) * WEEK)
      invariant forall k :: 0 <= k < |buckets| ==> DescribesWeek(buckets[k], runs, now - (weeks - 1 - k) * WEEK)
    {
      var end := now - w * WEEK;
      BucketDescribesWeek(runs, end);
      var total, passedN := CountWindow(runs, end - WEEK, end);
      buckets := buckets + [Bucket(end, total, if total > 0 then Some(Percent(passedN, total)) else None)];
      w := w - 1;
    }
  }

  // Bucket b holds at most a hundred runs, and they are those of the week before its end.
  ghost predicate SmallBucketOf(b: Bucket, runs: seq<Run>) {
    b == BucketEnding(runs, b.weekEnding) && b.runs <= 100
  }

  lemma RebuiltIsNearest(rate: int, n: int)
    ensures NearestWhole(Rebuilt(rate, n), rate * n, 100)
  {
    var q := Quot(rate as real, 100.0);
    QuotTimes(rate as real, 100.0);
    assert Mul(q, n as real) * 100.0 == (rate * n) as real by {
      Associate(100.0, q, n as real);
      Commute(100.0, q);
      Commute(100.0, Mul(q, n as real));
      assert Mul(rate as real, n as real) == (rate * n) as real;
    }
    RoundedQuotient(Mul(q, n as real), rate * n, 100);
  }

  // What a trend point says about its bucket: a week without runs scores zero.
  ghost predicate DescribesBucket(p: TrendPoint, b: Bucket, rtoPct: int) {
    && p.date == b.weekEnding && p.total == b.runs && p.rtoPct == rtoPct
    && p.score == (if b.passRate == None then 0 else b.passRate.value)
    && NearestWhole(p.passing, p.score * p.total, 100)
  }

  // The trend projection of the live scorecard. The rebuilt passing count of a bucket of at most a
  // hundred runs is the number of runs that passed in its week.
  method ProjectTrend(weekly: seq<Bucket>, rtoPct: int) returns (trend: seq<TrendPoint>)
    ensures |trend| == |weekly|
    ensures forall k :: 0 <= k < |weekly| ==> DescribesBucket(trend[k], weekly[k], rtoPct)
    ensures forall k :: 0 <= k < |weekly| ==> trend[k] == Projected(weekly[k], rtoPct)
    ensures forall k, runs :: 0 <= k < |weekly| && SmallBucketOf(weekly[k], runs) ==>
      trend[k].passing == PassedIn(runs, weekly[k].weekEnding - WEEK, weekly[k].weekEnding)
  {
    trend := [];
    for k := 0 to |weekly|
      invariant |trend| == k
      invariant forall j :: 0 <= j < k ==> trend[j] == Projected(weekly[j], rtoPct)
      invariant forall j :: 0 <= j < k ==> DescribesBucket(trend[j], weekly[j], rtoPct)
    {
      var rate := weekly[k].passRate.GetOr(0);
      var n := weekly[k].runs;
      RebuiltIsNearest(rate, n);
      trend := trend + [TrendPoint(weekly[k].weekEnding, rate, Rebuilt(rate, n), n, rtoPct)];
    }
    forall k, runs | 0 <= k < |weekly| && SmallBucketOf(weekly[k], runs)
      ensures trend[k].passing == PassedIn(runs, weekly[k].weekEnding - WEEK, weekly[k].weekEnding)
    {
      TrendPassingIsExact(runs, weekly[k].weekEnding, rtoPct);
    }
  }

  function Projected(b: Bucket, rtoPct: int): TrendPoint {
    TrendPoint(b.weekEnding, b.passRate.GetOr(0), Rebuilt(b.passRate.GetOr(0), b.runs), b.runs, rtoPct)
  }

  /******* Conservation over the windows *******/

  function SumRuns(buckets: seq<Bucket>): int {
    if buckets == [] then 0 else SumRuns(buckets[..|buckets| - 1]) + buckets[|buckets| - 1].runs
  }

  // Adjacent windows neither overlap nor leave a gap.
  lemma {:induction false} WindowsAdd(runs: seq<Run>, a: int, b: int, c: int)
    requires a <= b <= c
    ensures CountIn(runs, a, c) == CountIn(runs, a, b) + CountIn(runs, b, c)
    ensures PassedIn(runs, a, c) == PassedIn(runs, a, b) + PassedIn(runs, b, c)
  {
    if runs != [] {
      WindowsAdd(runs[..|runs| - 1], a, b, c);
    }
  }

  lemma {:induction false} EmptyWindow(runs: seq<Run>, a: int)
    ensures CountIn(runs, a, a) == 0
  {
    if runs != [] {
      EmptyWindow(runs[..|runs| - 1], a);
    }
  }

  // The weekly counts add up to the runs of the whole span (first week's start, last week's end].
  lemma {:induction false} BucketsCoverSpan(runs: seq<Run>, buckets: seq<Bucket>, start: int)
    requires forall k :: 0 <= k < |buckets| ==> buckets[k] == BucketEnding(runs, start + (k + 1) * WEEK)
    ensures SumRuns(buckets) == CountIn(runs, start, start + |buckets| * WEEK)
  {
    if buckets == [] {
      EmptyWindow(runs, start);
    } else {
      var n := |buckets| - 1;
      var mid, end := start + n * WEEK, start + (n + 1) * WEEK;
      BucketsCoverSpan(runs, buckets[..n], start);
      assert buckets[n] == BucketEnding(runs, end) && end - WEEK == mid;
      WindowsAdd(runs, start, mid, end);
    }
  }

  // For the buckets the service returns: nothing in (now - weeks, now] is lost or counted twice.
  lemma WeeklyTotalsConserved(runs: seq<Run>, buckets: seq<Bucket>, weeks: nat, now: int)
    requires |buckets| == weeks
    requires forall k :: 0 <= k < |buckets| ==> buckets[k] == BucketEnding(runs, now - (weeks - 1 - k) * WEEK)
    ensures SumRuns(buckets) == CountIn(runs, now - weeks * WEEK, now)
  {
    BucketsCoverSpan(runs, buckets, now - weeks * WEEK);
  }

  /******* The round trip through the rounded rate *******/

  // Rounding the rate by delta moves the rebuilt count, before its own rounding, by delta * n / 100.
  lemma RebuiltShift(part: int, n: int, rate: int)
    requires n > 0
    ensures var delta := rate as real - Mul(Quot(part as real, n as real), 100.0);
      Mul(Quot(rate as real, 100.0), n as real) == part as real + Mul(Quot(delta, 100.0), n as real)
  {
    var q := Quot(part as real, n as real);
    var delta := rate as real - Mul(q, 100.0);
    QuotTimes(part as real, n as real);
    assert Quot(rate as real, 100.0) == q + Quot(delta, 100.0);
    Commute(n as real, q);
    Commute(n as real, Quot(delta, 100.0));
    Commute(n as real, q + Quot(delta, 100.0));
    Distribute(n as real, q, Quot(delta, 100.0));
  }

  lemma ShiftBound(delta: real, n: int)
    requires n > 0 && -0.5 <= delta <= 0.5
    ensures -(n as real) / 200.0 <= Mul(Quot(delta, 100.0), n as real) <= n as real / 200.0
  {
    var w := n as real;
    ProductSign(0.005 - Quot(delta, 100.0), w);
    ProductSign(Quot(delta, 100.0) + 0.005, w);
    assert Mul(0.005 - Quot(delta, 100.0), w) == 0.005 * w - Mul(Quot(delta, 100.0), w);
    assert Mul(Quot(delta, 100.0) + 0.005, w) == Mul(Quot(delta, 100.0), w) + 0.005 * w;
  }

  // The rebuilt count is off by at most n / 200 + 1 / 2, and not at all up to a hundred runs.
  lemma RebuiltCloseness(part: int, n: int)
    requires n > 0
    ensures -(n as real) / 200.0 - 0.5 <= Rebuilt(Percent(part, n), n) as real - part as real <= n as real / 200.0 + 0.5
    ensures n <= 100 ==> Rebuilt(Percent(part, n), n) == part
  {
    var x := Mul(Quot(part as real, n as real), 100.0);
    var rate := Percent(part, n);
    var back := Mul(Quot(rate as real, 100.0), n as real);
    RoundIsNearest(x);
    RebuiltShift(part, n, rate);
    ShiftBound(rate as real - x, n);
    RoundIsNearest(back);
    if n < 100 {
      RoundUnique(back, part);
    } else if n == 100 {
      QuotTimes(part as real, 100.0);
      RoundUnique(x, part);
      assert rate == part;
      QuotTimes(rate as real, 100.0);
      RoundUnique(back, part);
    }
  }

  lemma PercentRange(part: int, n: int)
    requires 0 <= part <= n && n > 0
    ensures 0 <= Percent(part, n) <= 100
    ensures Percent(n, n) == 100
    ensures part < n ==> Percent(part, n) <= Percent(part + 1, n)
  {
    var w := n as real;
    var q, one := Quot(part as real, w), Quot(w, w);
    QuotTimes(part as real, w);
    QuotTimes(w, w);
    ScaleOrder(one, 1.0, w);
    Unit(w);
    assert one == 1.0;
    ScaleOrder(q, 1.0, w);
    ScaleOrder(0.0, q, w);
    RoundUnique(100.0, 100);
    RoundUnique(0.0, 0);
    RoundMonotone(0.0, Mul(q, 100.0));
    RoundMonotone(Mul(q, 100.0), 100.0);
    var next := Quot((part + 1) as real, w);
    QuotTimes((part + 1) as real, w);
    ScaleOrder(q, next, w);
    if part < n {
      RoundMonotone(Mul(q, 100.0), Mul(next, 100.0));
    }
  }

  ghost predicate Lossless(n: int)
    requires n > 0
  {
    forall part :: 0 <= part <= n ==> Rebuilt(Percent(part, n), n) == part
  }

  // Distinct counts would need distinct rates, but there are only 101 of them.
  lemma {:induction false} LosslessRatesClimb(n: int, part: nat)
    requires n > 0 && part <= n && Lossless(n)
    ensures Percent(part, n) >= part
  {
    PercentRange(part, n);
    if part > 0 {
      LosslessRatesClimb(n, part - 1);
      PercentRange(part - 1, n);
      assert Rebuilt(Percent(part, n), n) == part && Rebuilt(Percent(part - 1, n), n) == part - 1;
    }
  }

  // Every pass count survives the rounded rate exactly when the bucket has at most a hundred runs.
  lemma LosslessUpToAHundred(n: int)
    requires n > 0
    ensures Lossless(n) <==> n <= 100
  {
    if n <= 100 {
      forall part | 0 <= part <= n ensures Rebuilt(Percent(part, n), n) == part {
        RebuiltCloseness(part, n);
      }
    } else if Lossless(n) {
      LosslessRatesClimb(n, n);
      PercentRange(n, n);
    }
  }

  // For a trend over buckets of at most a hundred runs each, the passing counts are the true ones.
  lemma TrendPassingIsExact(runs: seq<Run>, end: int, rtoPct: int)
    requires CountIn(runs, end - WEEK, end) <= 100
    ensures Projected(BucketEnding(runs, end), rtoPct).passing == PassedIn(runs, end - WEEK, end)
  {
    var n, passed := CountIn(runs, end - WEEK, end), PassedIn(runs, end - WEEK, end);
    if n > 0 {
      RebuiltCloseness(passed, n);
    } else {
      Unit(Quot(0.0, 100.0));
      RoundUnique(0.0, 0);
    }
  }

  // The fail rate is the nearest whole percentage, and zero without runs.
  lemma FailRateIsNearest(total: nat, failed: int)
    ensures if total == 0 then FailRatePct(total, failed) == 0
            else NearestWhole(FailRatePct(total, failed), 100 * failed, total)
  {
    if total > 0 {
      PercentIsNearest(failed, total);
    }
  }

  // Half-to-even rounding makes the pass and fail percentages of the same runs add up to 100.
  lemma PassAndFailRatesComplement(total: int, failed: int)
    requires total > 0
    ensures Percent(total - failed, total) + FailRatePct(total, failed) == 100
  {
    var w := total as real;
    var f, p := Quot(failed as real, w), Quot((total - failed) as real, w);
    QuotTimes(failed as real, w);
    QuotTimes((total - failed) as real, w);
    Commute(w, p);
    Commute(w, f);
    Commute(w, p + f);
    Distribute(w, p, f);
    Unit(w);
    ScaleOrder(p + f, 1.0, w);
    ScaleOrder(1.0, p + f, w);
    assert Mul(p, 100.0) == 100 as real - Mul(f, 100.0);
    RoundReflects(100, Mul(f, 100.0));
  }
}
