/** RTO trend prediction (least squares) and anomaly detection (z-score), over exact reals. */
module AiInsights {
  import opened Wrappers
  import opened Rounding
  import opened Vectors

  /******* Least squares *******/

  // The indices and the readings, centred on their means.
  function CentredX(n: nat): (r: seq<real>)
    requires n > 0
    ensures |r| == n
  {
    Less(Range(n), Mean(Range(n)))
  }

  function CentredY(ys: seq<real>): (r: seq<real>)
    requires ys != []
    ensures |r| == |ys|
  {
    Less(ys, Mean(ys))
  }

  function Slope(ys: seq<real>): real
    requires ys != []
  {
    var u := CentredX(|ys|);
    if Dot(u, u) != 0.0 then Quot(Dot(u, CentredY(ys)), Dot(u, u)) else 0.0
  }

  function Intercept(ys: seq<real>): real
    requires ys != []
  {
    Mean(ys) - Mul(Slope(ys), Mean(Range(|ys|)))
  }

  datatype Direction = Degrading | Improving | Stable
  datatype Risk = Low | Medium | High | Critical
  datatype Trend =
    | InsufficientData
    | Report(predicted: real, trend: Direction, slope: real, risk: Risk, breachInTests: Option<int>, current: real)

  function PredictRtoTrend(readings: seq<real>, target: real): Trend {
    if |readings| < 2 then InsufficientData
    else
      var slope := Slope(readings);
      var raw := RoundTo(Intercept(readings) + Mul(slope, |readings| as real), 10.0);
      var predicted := if raw > 0.0 then raw else 0.0;
      var trend := if slope > 0.5 then Degrading else if slope < -0.5 then Improving else Stable;
      var risk := if predicted >= target then Critical
                  else if predicted >= target * 0.85 then High
                  else if predicted >= target * 0.70 then Medium
                  else Low;
      var breach := if trend == Degrading && predicted < target && slope > 0.0
                    then Some(Max(0, RoundHalfEven(Quot(target - predicted, slope))))
                    else None;
      Report(predicted, trend, RoundTo(slope, 1000.0), risk, breach, RoundTo(readings[|readings| - 1], 10.0))
  }

  // The line a * x + b.
  function Line(a: real, b: real, x: real): real { Mul(a, x) + b }

  // Its vertical errors over the readings, and their summed squares.
  function Errors(ys: seq<real>, a: real, b: real): (r: seq<real>)
    ensures |r| == |ys| && forall i :: 0 <= i < |ys| ==> r[i] == ys[i] - Line(a, b, i as real)
  {
    seq(|ys|, i requires 0 <= i < |ys| => ys[i] - Line(a, b, i as real))
  }

  function SquaredError(ys: seq<real>, a: real, b: real): real {
    Dot(Errors(ys, a, b), Errors(ys, a, b))
  }

  lemma CentredXSquares(n: nat)
    requires n >= 2
    ensures Dot(CentredX(n), CentredX(n)) > 0.0
  {
    var u := CentredX(n);
    DotSelf(u);
    assert u[1] == u[0] + 1.0;
  }

  // A line's value at x from its value at the mean index.
  lemma LineFromMeans(a: real, b: real, x: real, xMean: real)
    ensures Line(a, b, x) == Line(a, b, xMean) + Mul(a, x - xMean)
  {
    DistributeLess(a, x, xMean);
  }

  lemma TrendAtMean(ys: seq<real>)
    requires ys != []
    ensures Line(Slope(ys), Intercept(ys), Mean(Range(|ys|))) == Mean(ys)
  {
  }

  lemma SlopeBalances(ys: seq<real>)
    requires |ys| >= 2
    ensures Mul(Slope(ys), Dot(CentredX(|ys|), CentredX(|ys|))) == Dot(CentredX(|ys|), CentredY(ys))
  {
    var u := CentredX(|ys|);
    CentredXSquares(|ys|);
    QuotTimes(Dot(u, CentredY(ys)), Dot(u, u));
  }

  // The trend line's errors and its slope part add up to the centred readings.
  lemma ErrorsAreResiduals(ys: seq<real>)
    requires |ys| >= 2
    ensures var r, tilt, v := Errors(ys, Slope(ys), Intercept(ys)), Scaled(Slope(ys), CentredX(|ys|)), CentredY(ys);
      forall i :: 0 <= i < |ys| ==> v[i] == r[i] + tilt[i]
  {
    TrendAtMean(ys);
    forall i | 0 <= i < |ys|
      ensures CentredY(ys)[i] == Errors(ys, Slope(ys), Intercept(ys))[i] + Scaled(Slope(ys), CentredX(|ys|))[i]
    {
      LineFromMeans(Slope(ys), Intercept(ys), i as real, Mean(Range(|ys|)));
    }
  }

  // The normal equations: the trend line's errors sum to zero, plain and weighted by the centred index.
  lemma NormalEquations(ys: seq<real>)
    requires |ys| >= 2
    ensures Sum(Errors(ys, Slope(ys), Intercept(ys))) == 0.0
    ensures Dot(CentredX(|ys|), Errors(ys, Slope(ys), Intercept(ys))) == 0.0
  {
    ErrorsAreResiduals(ys);
    SlopeBalances(ys);
    DeviationsCancel(Range(|ys|));
    DeviationsCancel(ys);
    Orthogonal(CentredX(|ys|), CentredY(ys), Slope(ys), Errors(ys, Slope(ys), Intercept(ys)));
  }

  lemma Orthogonal(u: seq<real>, v: seq<real>, s: real, r: seq<real>)
    requires |u| == |v| == |r| && Sum(u) == 0.0 && Sum(v) == 0.0
    requires forall i :: 0 <= i < |u| ==> v[i] == r[i] + Scaled(s, u)[i]
    requires Mul(s, Dot(u, u)) == Dot(u, v)
    ensures Sum(r) == 0.0 && Dot(u, r) == 0.0
  {
    assert Sum(r) == 0.0 by {
      SumAdd(r, Scaled(s, u), v);
      SumScale(s, u);
      Unit(s);
    }
    DotAdd(u, r, Scaled(s, u), v);
    DotScale(u, s, u);
  }

  // The gap between the trend line and another line, reading by reading.
  ghost function Gap(ys: seq<real>, a: real, b: real): (gap: seq<real>)
    requires ys != []
    ensures |gap| == |ys|
  {
    var u, e := CentredX(|ys|), Mean(ys) - Line(a, b, Mean(Range(|ys|)));
    seq(|ys|, i requires 0 <= i < |ys| => e + Mul(Slope(ys) - a, u[i]))
  }

  lemma ErrorsAddGap(ys: seq<real>, a: real, b: real)
    requires |ys| >= 2
    ensures var r, w := Errors(ys, Slope(ys), Intercept(ys)), Errors(ys, a, b);
      forall i :: 0 <= i < |ys| ==> w[i] == r[i] + Gap(ys, a, b)[i]
  {
    var xMean, s := Mean(Range(|ys|)), Slope(ys);
    TrendAtMean(ys);
    forall i | 0 <= i < |ys|
      ensures Errors(ys, a, b)[i] == Errors(ys, s, Intercept(ys))[i] + Gap(ys, a, b)[i]
    {
      LineFromMeans(s, Intercept(ys), i as real, xMean);
      LineFromMeans(a, b, i as real, xMean);
      SplitSlope(s, a, i as real - xMean);
    }
  }

  lemma SplitSlope(s: real, a: real, u: real)
    ensures Mul(s, u) == Mul(a, u) + Mul(s - a, u)
  {
    Commute(s, u);
    Commute(a, u);
    Commute(s - a, u);
    DistributeLess(u, s, a);
  }

  // Another line's squared error is the trend line's plus the squared gap between the two.
  lemma ErrorSplits(ys: seq<real>, a: real, b: real)
    requires |ys| >= 2
    ensures SquaredError(ys, a, b)
         == SquaredError(ys, Slope(ys), Intercept(ys)) + Dot(Gap(ys, a, b), Gap(ys, a, b))
  {
    var r, u := Errors(ys, Slope(ys), Intercept(ys)), CentredX(|ys|);
    NormalEquations(ys);
    OrthogonalToLines(r, u, Slope(ys) - a, Mean(ys) - Line(a, b, Mean(Range(|ys|))), Gap(ys, a, b));
    ErrorsAddGap(ys, a, b);
    Pythagoras(r, Gap(ys, a, b), Errors(ys, a, b));
  }

  // No line has a smaller squared error over the readings than the trend line, and no other has the same.
  lemma TrendLineIsLeastSquares(ys: seq<real>, a: real, b: real)
    requires |ys| >= 2
    ensures SquaredError(ys, Slope(ys), Intercept(ys)) <= SquaredError(ys, a, b)
    ensures SquaredError(ys, Slope(ys), Intercept(ys)) == SquaredError(ys, a, b)
       <==> a == Slope(ys) && b == Intercept(ys)
  {
    ErrorSplits(ys, a, b);
    DotSelf(Gap(ys, a, b));
    NoGapSameLine(ys, a, b);
  }

  lemma NoGapSameLine(ys: seq<real>, a: real, b: real)
    requires |ys| >= 2
    ensures (forall i :: 0 <= i < |ys| ==> Gap(ys, a, b)[i] == 0.0) ==> a == Slope(ys) && b == Intercept(ys)
  {
    var gap, u, d := Gap(ys, a, b), CentredX(|ys|), Slope(ys) - a;
    if forall i :: 0 <= i < |ys| ==> gap[i] == 0.0 {
      assert gap[0] == 0.0 && gap[1] == 0.0 && u[1] == u[0] + 1.0;
      Distribute(d, u[0], 1.0);
      Unit(d);
      Unit(u[0]);
      TrendAtMean(ys);
    }
  }

  ghost predicate OnLine(ys: seq<real>, a: real, b: real) {
    forall k :: 0 <= k < |ys| ==> ys[k] == Line(a, b, k as real)
  }

  lemma ErrorZeroOnLine(ys: seq<real>, a: real, b: real)
    ensures SquaredError(ys, a, b) >= 0.0
    ensures SquaredError(ys, a, b) == 0.0 <==> OnLine(ys, a, b)
  {
    var w := Errors(ys, a, b);
    DotSelf(w);
    assert forall k :: 0 <= k < |ys| ==> (w[k] == 0.0 <==> ys[k] == Line(a, b, k as real));
  }

  // Readings that lie on a line give back that line, and its next value as the raw prediction.
  lemma LinearSeriesIsReproduced(ys: seq<real>, a: real, b: real)
    requires |ys| >= 2 && OnLine(ys, a, b)
    ensures Slope(ys) == a && Intercept(ys) == b
    ensures Line(Slope(ys), Intercept(ys), |ys| as real) == Line(a, b, |ys| as real)
  {
    var s, i := Slope(ys), Intercept(ys);
    TrendLineIsLeastSquares(ys, a, b);
    ErrorZeroOnLine(ys, a, b);
    ErrorZeroOnLine(ys, s, i);
    SameLine(ys, a, b, s, i);
  }

  // So the report of a linear series names the line's own direction and its next value, rounded.
  lemma LinearSeriesReport(ys: seq<real>, a: real, b: real, target: real)
    requires |ys| >= 2 && OnLine(ys, a, b)
    ensures var report := PredictRtoTrend(ys, target);
      && report.Report?
      && (report.trend == Degrading <==> a > 0.5) && (report.trend == Improving <==> a < -0.5)
      && report.predicted == (if Line(a, b, |ys| as real) >= 0.0 then RoundTo(Line(a, b, |ys| as real), 10.0) else 0.0)
      && (report.breachInTests.Some? <==> a > 0.5 && report.predicted < target)
  {
    LinearSeriesIsReproduced(ys, a, b);
    RoundTenthSign(Line(a, b, |ys| as real));
  }

  /******* The report in figures *******/

  // b is the whole number of tests nearest to gap / slope, the even one of two equally near.
  ghost predicate NearestTests(b: int, gap: real, slope: real) {
    && b >= 0 && -slope <= 2.0 * (Mul(b as real, slope) - gap) <= slope
    && (2.0 * (Mul(b as real, slope) - gap) in {-slope, slope} ==> b % 2 == 0)
  }

  // What a report says of a line with this slope whose next value is `next`.
  ghost predicate Says(r: Trend, slope: real, next: real, last: real, target: real) {
    && r.Report?
    && (if next > 0.0 then NearestDecimal(r.predicted, next, 10.0) else r.predicted == 0.0)
    && (r.trend == Degrading <==> slope > 0.5) && (r.trend == Improving <==> slope < -0.5)
    && NearestDecimal(r.slope, slope, 1000.0) && NearestDecimal(r.current, last, 10.0)
    && (r.risk == Critical <==> r.predicted >= target)
    && (r.risk == High <==> target > r.predicted >= 0.85 * target)
    && (r.risk == Medium <==> target > r.predicted >= 0.70 * target && r.predicted < 0.85 * target)
    && (r.breachInTests.Some? <==> slope > 0.5 && r.predicted < target)
    && (r.breachInTests.Some? ==> NearestTests(r.breachInTests.value, target - r.predicted, slope))
  }

  lemma TestsAreNearest(gap: real, slope: real)
    requires gap > 0.0 && slope > 0.0
    ensures NearestTests(Max(0, RoundHalfEven(Quot(gap, slope))), gap, slope)
  {
    var q := Quot(gap, slope);
    var b := RoundHalfEven(q);
    QuotTimes(gap, slope);
    ProductSign(q, slope);
    RoundUnique(0.0, 0);
    RoundMonotone(0.0, q);
    RoundIsNearest(q);
    var off := b as real - q;
    Commute(off, slope);
    DistributeLess(slope, b as real, q);
    Commute(slope, b as real);
    Commute(slope, q);
    ProductSign(0.5 - off, slope);
    ProductSign(off + 0.5, slope);
    assert Mul(0.5 - off, slope) == 0.5 * slope - Mul(off, slope);
    assert Mul(off + 0.5, slope) == Mul(off, slope) + 0.5 * slope;
  }

  // The report of two readings or more, for the line of least squares; of fewer there is none.
  lemma ReportSays(ys: seq<real>, target: real)
    ensures PredictRtoTrend(ys, target) == InsufficientData <==> |ys| < 2
    ensures |ys| >= 2 ==>
      Says(PredictRtoTrend(ys, target), Slope(ys), Line(Slope(ys), Intercept(ys), |ys| as real), ys[|ys| - 1], target)
  {
    if |ys| >= 2 {
      var s, next := Slope(ys), Line(Slope(ys), Intercept(ys), |ys| as real);
      RoundToIsNearest(next, 10.0);
      RoundToIsNearest(s, 1000.0);
      RoundToIsNearest(ys[|ys| - 1], 10.0);
      RoundTenthSign(next);
      if s > 0.5 && PredictRtoTrend(ys, target).predicted < target {
        TestsAreNearest(target - PredictRtoTrend(ys, target).predicted, s);
      }
    }
  }

  lemma SameLine(ys: seq<real>, a: real, b: real, s: real, i: real)
    requires |ys| >= 2 && OnLine(ys, a, b) && OnLine(ys, s, i)
    ensures s == a && i == b
  {
    assert ys[0] == Line(a, b, 0 as real) == Line(s, i, 0 as real);
    assert ys[1] == Line(a, b, 1 as real) == Line(s, i, 1 as real);
    Unit(a);
    Unit(s);
  }

  /******* The sign of the slope *******/

  ghost predicate NonDecreasing(ys: seq<real>) { forall i, j :: 0 <= i < j < |ys| ==> ys[i] <= ys[j] }

  ghost predicate NonIncreasing(ys: seq<real>) { forall i, j :: 0 <= i < j < |ys| ==> ys[i] >= ys[j] }

  lemma QuotSign(x: real, d: real)
    requires d > 0.0
    ensures x >= 0.0 ==> Quot(x, d) >= 0.0
    ensures x <= 0.0 ==> Quot(x, d) <= 0.0
  {
    QuotTimes(x, d);
    ProductSign(Quot(x, d), d);
  }

  // The deviations of the index cancel, so the readings may be centred anywhere, say on a reading
  // beside the middle; then every term has the sign of the trend.
  lemma CrossSumSign(ys: seq<real>)
    requires |ys| >= 2
    ensures NonDecreasing(ys) ==> Dot(CentredX(|ys|), CentredY(ys)) >= 0.0
    ensures NonIncreasing(ys) ==> Dot(CentredX(|ys|), CentredY(ys)) <= 0.0
  {
    var n, u := |ys|, CentredX(|ys|);
    MeanBounds(Range(n), 0.0, (n - 1) as real);
    var m := Mean(Range(n)).Floor;
    var w := Less(ys, ys[m]);
    var products := seq(n, i requires 0 <= i < n => Mul(u[i], w[i]));
    TermSigns(ys, m, products);
    SumSign(products);
    DotOfProducts(u, w, products);
    Recentre(ys, ys[m]);
  }

  lemma TermSigns(ys: seq<real>, m: nat, products: seq<real>)
    requires m < |ys| && m as real <= Mean(Range(|ys|)) < (m + 1) as real
    requires |products| == |ys|
    requires forall k :: 0 <= k < |ys| ==> products[k] == Mul(CentredX(|ys|)[k], Less(ys, ys[m])[k])
    ensures NonDecreasing(ys) ==> forall k :: 0 <= k < |ys| ==> products[k] >= 0.0
    ensures NonIncreasing(ys) ==> forall k :: 0 <= k < |ys| ==> products[k] <= 0.0
  {
    forall k | 0 <= k < |ys|
      ensures NonDecreasing(ys) ==> products[k] >= 0.0
      ensures NonIncreasing(ys) ==> products[k] <= 0.0
    {
      var u, w := CentredX(|ys|)[k], Less(ys, ys[m])[k];
      assert k <= m ==> u <= 0.0;
      assert k > m ==> u >= 0.0;
      ProductSign(u, w);
    }
  }

  // Monotone readings fix the sign of the slope.
  lemma SlopeSign(ys: seq<real>)
    requires |ys| >= 2
    ensures NonDecreasing(ys) ==> Slope(ys) >= 0.0
    ensures NonIncreasing(ys) ==> Slope(ys) <= 0.0
  {
    CrossSumSign(ys);
    CentredXSquares(|ys|);
    QuotSign(Dot(CentredX(|ys|), CentredY(ys)), Dot(CentredX(|ys|), CentredX(|ys|)));
  }

  lemma Recentre(ys: seq<real>, c: real)
    requires ys != []
    ensures Dot(CentredX(|ys|), CentredY(ys)) == Dot(CentredX(|ys|), Less(ys, c))
  {
    var n := |ys|;
    var u, v, w, level := CentredX(n), CentredY(ys), Less(ys, c), seq(n, _ => c - Mean(ys));
    DotAdd(u, w, level, v);
    DotConstant(u, c - Mean(ys), level);
    DeviationsCancel(Range(n));
    Unit(c - Mean(ys));
  }

  // A series that never falls is never called improving; one that never rises is never called
  // degrading and gets no breach forecast.
  lemma MonotoneSeriesLabels(ys: seq<real>, target: real)
    requires |ys| >= 2
    ensures PredictRtoTrend(ys, target).Report?
    ensures NonDecreasing(ys) ==> PredictRtoTrend(ys, target).trend != Improving
    ensures NonIncreasing(ys) ==>
      PredictRtoTrend(ys, target).trend != Degrading && PredictRtoTrend(ys, target).breachInTests == None
  {
    SlopeSign(ys);
  }

  function RiskRank(r: Risk): (n: nat)
    ensures (n == 0 <==> r == Low) && (n == 1 <==> r == Medium) && (n == 3 <==> r == Critical) && n <= 3
  {
    match r
    case Low => 0
    case Medium => 1
    case High => 2
    case Critical => 3
  }

  // A stricter target never lowers the reported risk, and a breach is forecast only below critical.
  lemma StricterTargetIsRiskier(ys: seq<real>, strict: real, lax: real)
    requires |ys| >= 2 && strict <= lax
    ensures PredictRtoTrend(ys, strict).Report? && PredictRtoTrend(ys, lax).Report?
    ensures RiskRank(PredictRtoTrend(ys, strict).risk) >= RiskRank(PredictRtoTrend(ys, lax).risk)
    ensures PredictRtoTrend(ys, lax).breachInTests.Some? ==> PredictRtoTrend(ys, lax).risk != Critical
  {
  }

  /******* Anomalies *******/

  function SquaredDeviations(ys: seq<real>): real
    requires ys != []
  {
    Dot(CentredY(ys), CentredY(ys))
  }

  // statistics.stdev: the non-negative square root of the sample variance.
  ghost predicate IsStdev(ys: seq<real>, stdev: real) {
    |ys| >= 2 && stdev >= 0.0 && Mul(Sq(stdev), (|ys| - 1) as real) == SquaredDeviations(ys)
  }

  datatype Anomaly = Anomaly(index: nat, value: real, zScore: real, spike: bool)

  // The squared deviations times n - 1: the test |z| > 2 with the square root and the division
  // cleared compares them with four times the summed squares.
  function ScaledSquares(ys: seq<real>): (r: seq<real>)
    requires ys != []
    ensures |r| == |ys|
  {
    Scaled((|ys| - 1) as real, Squares(CentredY(ys)))
  }

  function Squares(a: seq<real>): (r: seq<real>)
    ensures |r| == |a| && forall i :: 0 <= i < |a| ==> r[i] == Sq(a[i])
  {
    seq(|a|, i requires 0 <= i < |a| => Sq(a[i]))
  }

  // The indices below n of the outliers.
  ghost function Outliers(ys: seq<real>, n: nat): seq<nat>
    requires ys != [] && n <= |ys|
  {
    Above(ScaledSquares(ys), 4.0 * SquaredDeviations(ys), n)
  }

  lemma SquareOrder(z: real)
    ensures Sq(z) > 4.0 <==> z > 2.0 || z < -2.0
  {
    assert Sq(z) - 4.0 == Mul(z - 2.0, z + 2.0);
    ProductSign(z - 2.0, z + 2.0);
  }

  // A squared product times m, regrouped.
  lemma RegroupSquares(z: real, stdev: real, m: real)
    ensures Mul(m, Sq(Mul(z, stdev))) == Mul(Sq(z), Mul(Sq(stdev), m))
  {
    Associate(z, stdev, Mul(z, stdev));
    Regroup(z, stdev, stdev);
    Associate(z, z, Sq(stdev));
    Commute(m, Mul(Sq(z), Sq(stdev)));
    Associate(Sq(z), Sq(stdev), m);
  }

  lemma ZTest(z: real, stdev: real, m: real, total: real)
    requires stdev > 0.0 && m > 0.0 && Mul(Sq(stdev), m) == total
    ensures (z > 2.0 || z < -2.0) <==> Mul(m, Sq(Mul(z, stdev))) > 4.0 * total
    ensures z > 0.0 <==> Mul(z, stdev) > 0.0
  {
    SquareSign(stdev);
    ProductSign(Sq(stdev), m);
    RegroupSquares(z, stdev, m);
    SquareOrder(z);
    ScaleOrder(Sq(z), 4.0, total);
    ProductSign(z, stdev);
  }

  function ZScore(ys: seq<real>, i: nat, stdev: real): real
    requires i < |ys| && stdev != 0.0
  {
    Quot(ys[i] - Mean(ys), stdev)
  }

  lemma FlaggedIffOutlier(ys: seq<real>, i: nat, stdev: real)
    requires i < |ys| && IsStdev(ys, stdev) && stdev != 0.0
    ensures (ZScore(ys, i, stdev) > 2.0 || ZScore(ys, i, stdev) < -2.0)
       <==> ScaledSquares(ys)[i] > 4.0 * SquaredDeviations(ys)
    ensures ZScore(ys, i, stdev) > 0.0 <==> ys[i] > Mean(ys)
  {
    QuotTimes(ys[i] - Mean(ys), stdev);
    ZTest(ZScore(ys, i, stdev), stdev, (|ys| - 1) as real, SquaredDeviations(ys));
  }

  lemma {:induction false} OutliersInOrder(ys: seq<real>, n: nat)
    requires ys != [] && n <= |ys|
    ensures forall i: nat :: i in Outliers(ys, n) <==> i < n && ScaledSquares(ys)[i] > 4.0 * SquaredDeviations(ys)
    ensures forall j, k :: 0 <= j < k < |Outliers(ys, n)| ==> Outliers(ys, n)[j] < Outliers(ys, n)[k]
  {
    if n > 0 {
      var before := Outliers(ys, n - 1);
      OutliersInOrder(ys, n - 1);
      forall j | 0 <= j < |before| ensures before[j] < n - 1 {
        assert before[j] in before;
      }
    }
  }

  ghost predicate FarOff(ys: seq<real>, i: nat, stdev: real)
    requires i < |ys|
  {
    ys[i] - Mean(ys) > 2.0 * stdev || Mean(ys) - ys[i] > 2.0 * stdev
  }

  // The flagged readings, in order: those more than two standard deviations away from the mean.
  lemma OutliersAreFarOff(ys: seq<real>, stdev: real)
    requires |ys| >= 2 && IsStdev(ys, stdev)
    ensures forall i: nat :: i in Outliers(ys, |ys|) <==> i < |ys| && FarOff(ys, i, stdev)
    ensures forall j, k :: 0 <= j < k < |Outliers(ys, |ys|)| ==> Outliers(ys, |ys|)[j] < Outliers(ys, |ys|)[k]
  {
    OutliersInOrder(ys, |ys|);
    forall i: nat | i < |ys| ensures FarOff(ys, i, stdev) <==> ScaledSquares(ys)[i] > 4.0 * SquaredDeviations(ys) {
      FarOffIffOutlier(ys, i, stdev);
    }
  }

  lemma FarOffIffOutlier(ys: seq<real>, i: nat, stdev: real)
    requires i < |ys| && IsStdev(ys, stdev)
    ensures FarOff(ys, i, stdev) <==> ScaledSquares(ys)[i] > 4.0 * SquaredDeviations(ys)
  {
    if stdev == 0.0 {
      Unit((|ys| - 1) as real);
      Unit(0.0);
      DotSelf(CentredY(ys));
      assert CentredY(ys)[i] == 0.0;
    } else {
      var z := ZScore(ys, i, stdev);
      FlaggedIffOutlier(ys, i, stdev);
      QuotTimes(ys[i] - Mean(ys), stdev);
      ScaleOrder(z, 2.0, stdev);
      ScaleOrder(-2.0, z, stdev);
    }
  }

  // What the record of a flagged reading says about it.
  ghost predicate Describes(a: Anomaly, ys: seq<real>, i: nat, stdev: real)
    requires i < |ys| && stdev != 0.0
  {
    && a.index == i
    && a.value == RoundTo(ys[i], 10.0)
    && a.zScore == RoundTo(ZScore(ys, i, stdev), 100.0)
    && (a.spike <==> ys[i] > Mean(ys))
  }

  method DetectAnomalies(series: seq<real>, stdev: real) returns (anomalies: seq<Anomaly>)
    requires |series| >= 4 ==> IsStdev(series, stdev)
    ensures |series| < 4 ==> anomalies == []
    ensures |series| >= 4 ==>
      && |anomalies| == |Outliers(series, |series|)|
      && forall j :: 0 <= j < |anomalies| ==>
           var i := Outliers(series, |series|)[j];
           i < |series| && stdev != 0.0 && Describes(anomalies[j], series, i, stdev)
  {
    anomalies := [];
    if |series| < 4 {
      return;
    }
    if stdev == 0.0 {
      NoOutliersWithoutSpread(series, |series|);
      return;
    }
    for i := 0 to |series|
      invariant |anomalies| == |Outliers(series, i)|
      invariant forall j :: 0 <= j < |anomalies| ==>
        Outliers(series, i)[j] < i && Describes(anomalies[j], series, Outliers(series, i)[j], stdev)
    {
      var z := ZScore(series, i, stdev);
      FlaggedIffOutlier(series, i, stdev);
      if z > 2.0 || z < -2.0 {
        anomalies := anomalies + [Anomaly(i, RoundTo(series[i], 10.0), RoundTo(z, 100.0), z > 0.0)];
      }
    }
  }

  lemma {:induction false} NoOutliersWithoutSpread(ys: seq<real>, n: nat)
    requires ys != [] && n <= |ys| && SquaredDeviations(ys) == 0.0
    ensures Outliers(ys, n) == []
  {
    if n > 0 {
      NoOutliersWithoutSpread(ys, n - 1);
      DotSelf(CentredY(ys));
      assert CentredY(ys)[n - 1] == 0.0;
      Unit(0.0);
      Unit((|ys| - 1) as real);
    }
  }

  lemma ScaledSquaresSum(ys: seq<real>)
    requires ys != []
    ensures Sum(ScaledSquares(ys)) == Mul((|ys| - 1) as real, SquaredDeviations(ys))
    ensures forall i :: 0 <= i < |ys| ==> ScaledSquares(ys)[i] >= 0.0
  {
    var v := CentredY(ys);
    DotOfProducts(v, v, Squares(v));
    SumScale((|ys| - 1) as real, Squares(v));
    forall i | 0 <= i < |ys| ensures ScaledSquares(ys)[i] >= 0.0 {
      SquareSign(v[i]);
      ProductSign((|ys| - 1) as real, Squares(v)[i]);
    }
  }

  // With k readings flagged out of n, 4k < n - 1; in particular four or five readings flag none.
  lemma AnomaliesAreFew(ys: seq<real>)
    requires |ys| >= 4
    ensures 4 * |Outliers(ys, |ys|)| < |ys| - 1
    ensures |ys| <= 5 ==> Outliers(ys, |ys|) == []
  {
    var a, total, k := ScaledSquares(ys), SquaredDeviations(ys), |Outliers(ys, |ys|)|;
    if k > 0 {
      ScaledSquaresSum(ys);
      AboveTakeTheirShare(a, 4.0 * total, |ys|);
      assert a[..|ys|] == a;
      DotSelf(CentredY(ys));
      CompareFactors(total, k as real, (|ys| - 1) as real);
    }
  }

  lemma CompareFactors(total: real, k: real, m: real)
    requires total >= 0.0 && Mul(m, total) > Mul(k, 4.0 * total)
    ensures 4.0 * k < m
  {
    Commute(m, total);
    Commute(k, 4.0 * total);
    Associate(4.0, total, k);
    Regroup(4.0, total, k);
    DistributeLess(total, m, 4.0 * k);
    ProductSign(total, m - 4.0 * k);
  }

  // Readings that deviate as much as possible at the first k places, up and down in turn, and by the
  // same small amount at the others, which balances the sum.
  ghost function Extreme(n: nat, k: nat): (r: seq<real>)
    requires k < n
    ensures |r| == n
  {
    seq(n, i => if k <= i then -Odd(k) else if i % 2 == 0 then (n - k) as real else -((n - k) as real))
  }

  ghost function Odd(k: nat): real { if k % 2 == 1 then 1.0 else 0.0 }

  lemma {:induction false} ExtremeSum(n: nat, k: nat, m: nat)
    requires k < n && m <= n
    ensures Sum(Extreme(n, k)[..m])
         == if m <= k then (if m % 2 == 1 then (n - k) as real else 0.0)
            else if k % 2 == 1 then (n - m) as real else 0.0
  {
    if m > 0 {
      ExtremeSum(n, k, m - 1);
      assert Extreme(n, k)[..m][..m - 1] == Extreme(n, k)[..m - 1];
      assert m % 2 == 1 - (m - 1) % 2;
      assert Extreme(n, k)[..m][m - 1] ==
        if k < m then -Odd(k) else if m % 2 == 1 then (n - k) as real else -((n - k) as real);
    }
  }

  lemma {:induction false} ExtremeSquares(n: nat, k: nat, m: nat)
    requires k < n && m <= n
    ensures var ys := Extreme(n, k)[..m];
      Dot(ys, ys) == if m <= k then Mul(m as real, Sq((n - k) as real))
                     else Mul(k as real, Sq((n - k) as real)) + (if k % 2 == 1 then (m - k) as real else 0.0)
  {
    var big := (n - k) as real;
    if m > 0 {
      ExtremeSquares(n, k, m - 1);
      assert Extreme(n, k)[..m][..m - 1] == Extreme(n, k)[..m - 1];
      OneMore(m - 1, Sq(big));
      SquareOfOpposite(big);
    } else {
      Unit(Sq(big));
    }
    SquareOfOpposite(Odd(k));
  }

  lemma SquareOfOpposite(x: real)
    ensures Sq(-x) == Sq(x) && (x == 1.0 || x == 0.0 ==> Sq(x) == x)
  {
    assert (-x) * (-x) == x * x;
    Unit(x);
  }

  lemma ExtremeCentred(n: nat, k: nat)
    requires k < n
    ensures CentredY(Extreme(n, k)) == Extreme(n, k)
    ensures SquaredDeviations(Extreme(n, k)) == Mul(k as real, Sq((n - k) as real)) + Mul(Odd(k), (n - k) as real)
  {
    var ys := Extreme(n, k);
    ExtremeSum(n, k, n);
    ExtremeSquares(n, k, n);
    assert ys[..n] == ys;
    QuotTimes(0.0, n as real);
    assert Mean(ys) == 0.0;
    assert CentredY(ys) == ys;
    Unit((n - k) as real);
  }

  // The large deviations pass the test and the small ones do not.
  lemma ExtremeTest(n: nat, k: nat, total: real)
    requires 4 * k + 1 < n
    requires total == Mul(k as real, Sq((n - k) as real)) + Mul(Odd(k), (n - k) as real)
    ensures k > 0 ==> Mul((n - 1) as real, Sq((n - k) as real)) > 4.0 * total
    ensures Mul((n - 1) as real, Odd(k)) <= 4.0 * total
  {
    var big, q := (n - k) as real, Sq((n - k) as real);
    Unit(big);
    Unit((n - 1) as real);
    SquareSign(big);
    ProductSign(k as real, q);
    if k > 0 {
      ScaleAtMost(5.0, big, big);
      ScaleAtMost((4 * k + 1) as real, (n - 1) as real, q);
      ScaleAtMost(1.0, k as real, q);
      Unit(q);
      OneMore(4 * k, q);
      Associate(4.0, k as real, q);
      assert (4 * k) as real == Mul(4.0, k as real);
    }
  }

  lemma ScaleAtMost(x: real, y: real, q: real)
    requires x <= y && q >= 0.0
    ensures Mul(x, q) <= Mul(y, q)
  {
    ProductSign(y - x, q);
    Commute(y - x, q);
    DistributeLess(q, y, x);
    Commute(q, x);
    Commute(q, y);
  }

  lemma ExtremeFlags(n: nat, k: nat)
    requires 4 * k + 1 < n
    ensures |Outliers(Extreme(n, k), n)| == k
  {
    var ys, total := Extreme(n, k), SquaredDeviations(Extreme(n, k));
    ExtremeCentred(n, k);
    ExtremeTest(n, k, total);
    forall i | 0 <= i < n ensures ScaledSquares(ys)[i] > 4.0 * total <==> i < k {
      SquareOfOpposite((n - k) as real);
      SquareOfOpposite(Odd(k));
    }
    AbovePrefix(ScaledSquares(ys), 4.0 * total, k, n);
  }

  // The bound is sharp: some n readings have exactly k flagged ones if and only if 4k < n - 1.
  lemma FlagCountsPossible(n: nat, k: nat)
    requires n >= 4
    ensures (exists ys: seq<real> :: |ys| == n && |Outliers(ys, n)| == k) <==> 4 * k < n - 1
  {
    if 4 * k < n - 1 {
      ExtremeFlags(n, k);
    }
    if ys: seq<real> :| |ys| == n && |Outliers(ys, n)| == k {
      AnomaliesAreFew(ys);
    }
  }

  // Six readings can flag one.
  lemma SixReadingsCanFlag()
    ensures Outliers([0.0, 0.0, 0.0, 0.0, 0.0, 6.0], 6) != []
  {
    var zeros := [0.0, 0.0, 0.0, 0.0, 0.0];
    var ys := [0.0, 0.0, 0.0, 0.0, 0.0, 6.0];
    var minus := [-1.0, -1.0, -1.0, -1.0, -1.0];
    SumSign(zeros);
    SumLess(zeros, 1.0);
    assert Less(zeros, 1.0) == minus;
    assert ys[..5] == zeros;
    assert Mean(ys) == 1.0;
    assert CentredY(ys) == minus + [5.0];
    assert CentredY(ys)[..5] == minus;
    DotConstant(minus, -1.0, minus);
    assert SquaredDeviations(ys) == 30.0 && ScaledSquares(ys)[5] == 125.0;
  }
}
