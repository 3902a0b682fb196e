/** Ransomware indicators over restore points, oldest first, and the choice of a clean one. */
module ThreatAnalysis {
  import opened Wrappers
  import opened Sorting
  import opened Counting

  const ENTROPY_ENCRYPTED_THRESHOLD := 7.9
  const ENTROPY_SPIKE_DELTA := 1.5
  const MASS_RENAME_RATIO := 0.25

  // Missing metadata is 0 or empty. `createdAt` is the rank of the creation text in string order;
  // `extensionHits` are the new extensions that belong to known ransomware families.
  datatype RestorePoint = RestorePoint(
    id: int, createdAt: Option<int>, avgEntropy: real, totalFiles: int, renamedFiles: int, extensionHits: seq<string>)

  datatype Severity = NoSeverity | LowSeverity | MediumSeverity | HighSeverity | CriticalSeverity
  {
    function Rank(): (r: nat)
      ensures (r == 0 <==> NoSeverity?) && (r == 1 <==> LowSeverity?) && (r == 4 <==> CriticalSeverity?) && r <= 4
    {
      match this
      case NoSeverity => 0
      case LowSeverity => 1
      case MediumSeverity => 2
      case HighSeverity => 3
      case CriticalSeverity => 4
    }
  }

  datatype Indicator = EntropyAnomaly | EntropySpike | MassFileRename | RansomwareExtension
  {
    function Severity(): Severity {
      match this
      case EntropyAnomaly => HighSeverity
      case EntropySpike => MediumSeverity
      case MassFileRename => HighSeverity
      case RansomwareExtension => CriticalSeverity
    }
  }

  datatype Analysis = Analysis(
    restorePointId: int, createdAt: Option<int>, indicators: seq<Indicator>, maxSeverity: Severity, isClean: bool)

  /******* One restore point *******/

  predicate MassRenamed(rp: RestorePoint) {
    rp.totalFiles != 0 && rp.renamedFiles as real / rp.totalFiles as real >= MASS_RENAME_RATIO
  }

  predicate HasRansomwareExtension(rp: RestorePoint) { rp.extensionHits != [] }

  function EntropyIndicators(entropy: real, baseline: Option<real>): seq<Indicator> {
    if entropy >= ENTROPY_ENCRYPTED_THRESHOLD then [EntropyAnomaly]
    else if baseline.Some? && entropy - baseline.value >= ENTROPY_SPIKE_DELTA then [EntropySpike]
    else []
  }

  function Assemble(entropy: seq<Indicator>, renamed: bool, extension: bool): seq<Indicator> {
    entropy + (if renamed then [MassFileRename] else []) + (if extension then [RansomwareExtension] else [])
  }

  function IndicatorsFor(rp: RestorePoint, baseline: Option<real>): seq<Indicator> {
    Assemble(EntropyIndicators(rp.avgEntropy, baseline), MassRenamed(rp), HasRansomwareExtension(rp))
  }

  // The highest severity among the indicators.
  function MaxSeverity(indicators: seq<Indicator>): Severity {
    if RansomwareExtension in indicators then CriticalSeverity
    else if EntropyAnomaly in indicators || MassFileRename in indicators then HighSeverity
    else if EntropySpike in indicators then MediumSeverity
    else NoSeverity
  }

  /******* The rolling baseline *******/

  function Itself(x: real): real { x }

  function Entropies(rps: seq<RestorePoint>): (r: seq<real>)
    ensures |r| == |rps| && forall i {:trigger r[i]} :: 0 <= i < |rps| ==> r[i] == rps[i].avgEntropy
  {
    seq(|rps|, i requires 0 <= i < |rps| => rps[i].avgEntropy)
  }

  // The upper median of the entropies seen so far.
  function Baseline(seen: seq<real>): Option<real> {
    if seen == [] then None else Some(SortBy(seen, Itself)[|seen| / 2])
  }

  function Analyze(rp: RestorePoint, seen: seq<real>): Analysis {
    var indicators := IndicatorsFor(rp, Baseline(seen));
    var severity := MaxSeverity(indicators);
    Analysis(rp.id, rp.createdAt, indicators, severity, severity.Rank() < HighSeverity.Rank())
  }

  method HighestSeverity(indicators: seq<Indicator>) returns (maxSev: Severity)
    ensures maxSev == MaxSeverity(indicators)
  {
    maxSev := NoSeverity;
    for k := 0 to |indicators|
      invariant maxSev == MaxSeverity(indicators[..k])
    {
      assert indicators[..k + 1] == indicators[..k] + [indicators[k]];
      if indicators[k].Severity().Rank() > maxSev.Rank() {
        maxSev := indicators[k].Severity();
      }
    }
    assert indicators[..|indicators|] == indicators;
  }

  method AnalyzePoint(rp: RestorePoint, seenEntropies: seq<real>) returns (a: Analysis)
    ensures a == Analyze(rp, seenEntropies)
  {
    var baseline := Baseline(seenEntropies);
    var indicators := IndicatorsFor(rp, baseline);
    var maxSev := HighestSeverity(indicators);
    a := Analysis(rp.id, rp.createdAt, indicators, maxSev, maxSev.Rank() < HighSeverity.Rank());
  }

  // Point i is judged against the entropies of the points before it.
  function AnalyzeAll(rps: seq<RestorePoint>): (r: seq<Analysis>)
    ensures |r| == |rps| && forall i {:trigger r[i]} :: 0 <= i < |rps| ==> r[i] == Analyze(rps[i], Entropies(rps)[..i])
  {
    seq(|rps|, i requires 0 <= i < |rps| => Analyze(rps[i], Entropies(rps)[..i]))
  }

  lemma OneMoreTaken<T>(s: seq<T>, n: nat)
    requires n < |s|
    ensures s[..n + 1] == s[..n] + [s[n]]
  {
  }

  method AnalyzeRestorePoints(rps: seq<RestorePoint>) returns (results: seq<Analysis>)
    ensures results == AnalyzeAll(rps)
  {
    results := [];
    var seenEntropies: seq<real> := [];
    for n := 0 to |rps|
      invariant results == AnalyzeAll(rps)[..n]
      invariant seenEntropies == Entropies(rps)[..n]
    {
      OneMoreTaken(AnalyzeAll(rps), n);
      OneMoreTaken(Entropies(rps), n);
      var a := AnalyzePoint(rps[n], seenEntropies);
      results := results + [a];
      seenEntropies := seenEntropies + [rps[n].avgEntropy];
    }
  }

  /******* What the baseline is *******/

  function CountAbove(s: seq<real>, t: real): nat {
    if s == [] then 0 else (if s[0] > t then 1 else 0) + CountAbove(s[1..], t)
  }

  lemma {:induction false} InsertCounts(x: real, xs: seq<real>, t: real)
    ensures CountAbove(Insert(x, xs, Itself), t) == CountAbove(xs, t) + if x > t then 1 else 0
  {
    if xs != [] && Itself(xs[0]) < Itself(x) {
      InsertCounts(x, xs[1..], t);
      assert Insert(x, xs, Itself)[1..] == Insert(x, xs[1..], Itself);
    } else {
      assert ([x] + xs)[1..] == xs;
    }
  }

  lemma {:induction false} SortCounts(xs: seq<real>, t: real)
    ensures CountAbove(SortBy(xs, Itself), t) == CountAbove(xs, t)
  {
    if xs != [] {
      SortCounts(xs[1..], t);
      InsertCounts(xs[0], SortBy(xs[1..], Itself), t);
    }
  }

  // In an ordered list the element at k exceeds t exactly when all but k or fewer elements do.
  lemma {:induction false} OrderedCount(xs: seq<real>, k: nat, t: real)
    requires k < |xs| && Ordered(xs, Itself)
    ensures xs[k] > t <==> CountAbove(xs, t) >= |xs| - k
    ensures CountAbove(xs, t) <= |xs|
  {
    forall i, j | 0 <= i < j < |xs[1..]| ensures Itself(xs[1..][i]) <= Itself(xs[1..][j]) {
      assert Itself(xs[1 + i]) <= Itself(xs[1 + j]);
    }
    if k > 0 {
      OrderedCount(xs[1..], k - 1, t);
      assert Itself(xs[0]) <= Itself(xs[k]);
    } else if |xs| > 1 {
      assert Itself(xs[0]) <= Itself(xs[1]);
      OrderedCount(xs[1..], 0, t);
    }
  }

  // The baseline is at most t exactly when no more than half of the other seen points exceed t.
  lemma BaselineAtMost(seen: seq<real>, t: real)
    requires seen != []
    ensures Baseline(seen).value <= t <==> CountAbove(seen, t) <= (|seen| - 1) / 2
  {
    SortOrdered(seen, Itself);
    SortCounts(seen, t);
    OrderedCount(SortBy(seen, Itself), |seen| / 2, t);
  }

  lemma {:induction false} CountSplit(a: seq<real>, b: seq<real>, t: real)
    ensures CountAbove(a + b, t) == CountAbove(a, t) + CountAbove(b, t)
  {
    if a == [] {
      assert a + b == b;
    } else {
      CountSplit(a[1..], b, t);
      assert (a + b)[1..] == a[1..] + b;
    }
  }

  lemma CountWithout(b: seq<real>, i: nat, t: real)
    requires i < |b|
    ensures CountAbove(b, t) == CountAbove(Without(b, i), t) + if b[i] > t then 1 else 0
  {
    assert b == b[..i] + b[i..];
    CountSplit(b[..i], b[i..], t);
    CountSplit(b[..i], b[i + 1..], t);
    assert b[i..][1..] == b[i + 1..];
  }

  lemma {:induction false} CountPermuted(a: seq<real>, b: seq<real>, t: real)
    requires multiset(a) == multiset(b)
    ensures CountAbove(a, t) == CountAbove(b, t)
    decreases |a|
  {
    if a == [] {
      assert |multiset(b)| == 0;
    } else {
      var i := MatchFirst(a, b);
      CountWithout(b, i, t);
      CountPermuted(a[1..], Without(b, i), t);
    }
  }

  // The baseline forgets the order of the earlier points.
  lemma BaselineIgnoresOrder(a: seq<real>, b: seq<real>)
    requires multiset(a) == multiset(b)
    ensures Baseline(a) == Baseline(b)
  {
    assert |multiset(a)| == |multiset(b)|;
    if a != [] {
      var x, y := Baseline(a).value, Baseline(b).value;
      CountPermuted(a, b, x);
      CountPermuted(a, b, y);
      BaselineAtMost(a, x);
      BaselineAtMost(b, x);
      BaselineAtMost(a, y);
      BaselineAtMost(b, y);
    }
  }

  // An entropy shows exactly when it is encrypted-like by itself or no more than half of the earlier
  // points lie above what the jump allows.
  lemma EntropyShowsExactlyWhen(entropy: real, seen: seq<real>)
    ensures EntropyIndicators(entropy, Baseline(seen)) != [] <==>
      || entropy >= ENTROPY_ENCRYPTED_THRESHOLD
      || (seen != [] && CountAbove(seen, entropy - ENTROPY_SPIKE_DELTA) <= (|seen| - 1) / 2)
  {
    if seen != [] {
      BaselineAtMost(seen, entropy - ENTROPY_SPIKE_DELTA);
    }
  }

  lemma {:induction false} CountAntitone(seen: seq<real>, s: real, t: real)
    requires s <= t
    ensures CountAbove(seen, t) <= CountAbove(seen, s)
  {
    if seen != [] {
      CountAntitone(seen[1..], s, t);
    }
  }

  ghost predicate HasEntropyIndicator(a: Analysis) {
    EntropyAnomaly in a.indicators || EntropySpike in a.indicators
  }

  lemma EntropyInAnalysis(rp: RestorePoint, seen: seq<real>)
    ensures HasEntropyIndicator(Analyze(rp, seen)) <==> EntropyIndicators(rp.avgEntropy, Baseline(seen)) != []
  {
    EntropyAssembled(EntropyIndicators(rp.avgEntropy, Baseline(seen)), MassRenamed(rp), HasRansomwareExtension(rp));
  }

  lemma EntropyAssembled(entropy: seq<Indicator>, renamed: bool, extension: bool)
    requires entropy in {[], [EntropySpike], [EntropyAnomaly]}
    ensures var found := Assemble(entropy, renamed, extension);
      EntropyAnomaly in found || EntropySpike in found <==> entropy != []
  {
    if entropy != [] {
      assert Assemble(entropy, renamed, extension)[0] == entropy[0];
    }
  }

  // Up to half of the earlier points may be infected: a jump over the healthy level still shows.
  lemma SpikeSurvivesInfectedHistory(rps: seq<RestorePoint>, i: nat, t: real)
    requires 1 <= i < |rps|
    requires CountAbove(Entropies(rps)[..i], t) <= (i - 1) / 2
    requires rps[i].avgEntropy >= t + ENTROPY_SPIKE_DELTA
    ensures HasEntropyIndicator(Analyze(rps[i], Entropies(rps)[..i]))
  {
    var seen := Entropies(rps)[..i];
    CountAntitone(seen, t, rps[i].avgEntropy - ENTROPY_SPIKE_DELTA);
    EntropyShowsExactlyWhen(rps[i].avgEntropy, seen);
    EntropyInAnalysis(rps[i], seen);
  }

  // With any larger part of them infected the jump is hidden, unless it is encrypted-like by itself.
  lemma MajorityInfectedHidesSpike(rps: seq<RestorePoint>, i: nat)
    requires 1 <= i < |rps| && rps[i].avgEntropy < ENTROPY_ENCRYPTED_THRESHOLD
    requires CountAbove(Entropies(rps)[..i], rps[i].avgEntropy - ENTROPY_SPIKE_DELTA) > (i - 1) / 2
    ensures !HasEntropyIndicator(Analyze(rps[i], Entropies(rps)[..i]))
  {
    var seen := Entropies(rps)[..i];
    EntropyShowsExactlyWhen(rps[i].avgEntropy, seen);
    EntropyInAnalysis(rps[i], seen);
  }

  // The smallest such history: after 5 and 7, another 7 is no spike over 5.
  lemma OneOfTwoHidesSpike()
    ensures CountAbove([5.0, 7.0], 5.0) == 1 && Baseline([5.0, 7.0]) == Some(7.0)
    ensures EntropyIndicators(7.0, Baseline([5.0, 7.0])) == []
  {
    assert [5.0, 7.0][1..] == [7.0] && [7.0][1..] == [];
    assert SortBy([7.0], Itself) == [7.0];
    assert SortBy([5.0, 7.0], Itself) == Insert(5.0, [7.0], Itself) == [5.0, 7.0];
  }

  /******* What being clean means *******/

  // Cleanness is a property of the point alone: a spike against the baseline never makes a point
  // unclean, so neither the verdict nor the selection depends on the earlier points.
  lemma CleanIgnoresHistory(rp: RestorePoint, seen: seq<real>)
    ensures Analyze(rp, seen).isClean
       <==> rp.avgEntropy < ENTROPY_ENCRYPTED_THRESHOLD && !MassRenamed(rp) && !HasRansomwareExtension(rp)
  {
    AssembledSeverity(EntropyIndicators(rp.avgEntropy, Baseline(seen)), MassRenamed(rp), HasRansomwareExtension(rp));
  }

  /******* The verdict on a point, in figures *******/

  ghost function AboveLevel(t: real): real -> bool { x => x > t }

  lemma {:induction false} CountsAbove(s: seq<real>, t: real)
    ensures CountAbove(s, t) == HowMany(s, AboveLevel(t))
  {
    if s != [] {
      var n := |s| - 1;
      CountsAbove(s[..n], t);
      HowManyLast(s, AboveLevel(t));
      assert s == s[..n] + [s[n]] && [s[n]][1..] == [];
      CountSplit(s[..n], [s[n]], t);
    }
  }

  // A quarter of the files or more were renamed.
  ghost predicate QuarterRenamed(rp: RestorePoint) {
    || (rp.totalFiles > 0 && 4 * rp.renamedFiles >= rp.totalFiles)
    || (rp.totalFiles < 0 && 4 * rp.renamedFiles <= rp.totalFiles)
  }

  lemma RenamedIsQuarter(rp: RestorePoint)
    ensures MassRenamed(rp) <==> QuarterRenamed(rp)
  {
    if rp.totalFiles != 0 {
      var t, q := rp.totalFiles as real, rp.renamedFiles as real / rp.totalFiles as real;
      assert q * t == rp.renamedFiles as real;
      assert (q - 0.25) * t == rp.renamedFiles as real - 0.25 * t;
    }
  }

  // A jump of 1.5 over the upper median: no more than half of the other earlier points lie above what
  // it allows.
  ghost predicate JumpsUp(entropy: real, seen: seq<real>) {
    entropy < 7.9 && seen != [] && HowMany(seen, AboveLevel(entropy - 1.5)) <= (|seen| - 1) / 2
  }

  // The order in which a point's indicators are listed.
  ghost function Place(i: Indicator): nat {
    match i
    case EntropyAnomaly => 0
    case EntropySpike => 0
    case MassFileRename => 1
    case RansomwareExtension => 2
  }

  ghost predicate ListedOnce(indicators: seq<Indicator>) {
    forall i, j :: 0 <= i < j < |indicators| ==> Place(indicators[i]) < Place(indicators[j])
  }

  ghost predicate LooksClean(rp: RestorePoint) {
    rp.avgEntropy < 7.9 && !QuarterRenamed(rp) && rp.extensionHits == []
  }

  // Which indicators a point gets, how severe the point is, and when it is clean.
  lemma PointVerdict(rp: RestorePoint, seen: seq<real>)
    ensures var a := Analyze(rp, seen);
      && a.restorePointId == rp.id && a.createdAt == rp.createdAt && ListedOnce(a.indicators)
      && (EntropyAnomaly in a.indicators <==> rp.avgEntropy >= 7.9)
      && (EntropySpike in a.indicators <==> JumpsUp(rp.avgEntropy, seen))
      && (MassFileRename in a.indicators <==> QuarterRenamed(rp))
      && (RansomwareExtension in a.indicators <==> rp.extensionHits != [])
    ensures var a := Analyze(rp, seen);
      && (a.maxSeverity == CriticalSeverity <==> rp.extensionHits != [])
      && (a.maxSeverity == HighSeverity <==> rp.extensionHits == [] && (rp.avgEntropy >= 7.9 || QuarterRenamed(rp)))
      && (a.maxSeverity == MediumSeverity <==>
            rp.extensionHits == [] && !QuarterRenamed(rp) && JumpsUp(rp.avgEntropy, seen))
      && a.maxSeverity != LowSeverity
      && (a.isClean <==> LooksClean(rp))
  {
    EntropyInFigures(rp.avgEntropy, seen);
    RenamedIsQuarter(rp);
    var entropy := EntropyIndicators(rp.avgEntropy, Baseline(seen));
    AssembledIndicators(entropy, MassRenamed(rp), HasRansomwareExtension(rp));
    AssembledSeverity(entropy, MassRenamed(rp), HasRansomwareExtension(rp));
    assert Analyze(rp, seen).indicators == Assemble(entropy, MassRenamed(rp), HasRansomwareExtension(rp));
  }

  lemma EntropyInFigures(entropy: real, seen: seq<real>)
    ensures EntropyIndicators(entropy, Baseline(seen)) ==
      if entropy >= 7.9 then [EntropyAnomaly] else if JumpsUp(entropy, seen) then [EntropySpike] else []
  {
    EntropyShowsExactlyWhen(entropy, seen);
    CountsAbove(seen, entropy - 1.5);
  }

  lemma AssembledSeverity(entropy: seq<Indicator>, renamed: bool, extension: bool)
    requires entropy in {[], [EntropySpike], [EntropyAnomaly]}
    ensures MaxSeverity(Assemble(entropy, renamed, extension)) ==
      if extension then CriticalSeverity
      else if renamed || entropy == [EntropyAnomaly] then HighSeverity
      else if entropy == [EntropySpike] then MediumSeverity
      else NoSeverity
  {
    AssembledIndicators(entropy, renamed, extension);
  }

  lemma AssembledIndicators(entropy: seq<Indicator>, renamed: bool, extension: bool)
    requires entropy in {[], [EntropySpike], [EntropyAnomaly]}
    ensures var found := Assemble(entropy, renamed, extension);
      && ListedOnce(found)
      && (EntropyAnomaly in found <==> entropy == [EntropyAnomaly])
      && (EntropySpike in found <==> entropy == [EntropySpike])
      && (MassFileRename in found <==> renamed) && (RansomwareExtension in found <==> extension)
  {
  }

  /******* The clean point chosen *******/

  // Undated points rank before dated ones, and equally with one another.
  predicate NoLater(a: Option<int>, b: Option<int>) {
    a.None? || (b.Some? && a.value <= b.value)
  }

  function CleanOnes(analyzed: seq<Analysis>): seq<Analysis> {
    if analyzed == [] then []
    else (if analyzed[0].isClean then [analyzed[0]] else []) + CleanOnes(analyzed[1..])
  }

  // The first element that no other is later than.
  function Newest(xs: seq<Analysis>): Analysis
    requires xs != []
  {
    if |xs| == 1 then xs[0]
    else
      var rest := Newest(xs[1..]);
      if NoLater(rest.createdAt, xs[0].createdAt) then xs[0] else rest
  }

  function SelectCleanRestorePoint(rps: seq<RestorePoint>): Option<Analysis> {
    var clean := CleanOnes(AnalyzeAll(rps));
    if clean == [] then None else Some(Newest(clean))
  }

  // Position i is the first clean point that no other clean point is later than.
  ghost predicate FirstNewestClean(analyzed: seq<Analysis>, i: nat)
    requires i < |analyzed|
  {
    && analyzed[i].isClean
    && (forall j :: 0 <= j < |analyzed| && analyzed[j].isClean ==>
          NoLater(analyzed[j].createdAt, analyzed[i].createdAt))
    && forall j :: 0 <= j < i && analyzed[j].isClean ==> !NoLater(analyzed[i].createdAt, analyzed[j].createdAt)
  }

  // How the first newest clean point moves when one point is put in front.
  lemma FrontUnclean(analyzed: seq<Analysis>, k: nat)
    requires analyzed != [] && !analyzed[0].isClean && k + 1 < |analyzed| && FirstNewestClean(analyzed[1..], k)
    ensures FirstNewestClean(analyzed, k + 1)
  {
    assert forall j :: 1 <= j < |analyzed| ==> analyzed[j] == analyzed[1..][j - 1];
  }

  lemma FrontOlder(analyzed: seq<Analysis>, k: nat)
    requires analyzed != [] && k + 1 < |analyzed| && FirstNewestClean(analyzed[1..], k)
    requires !NoLater(analyzed[k + 1].createdAt, analyzed[0].createdAt)
    ensures FirstNewestClean(analyzed, k + 1)
  {
    assert forall j :: 1 <= j < |analyzed| ==> analyzed[j] == analyzed[1..][j - 1];
  }

  lemma FrontNewest(analyzed: seq<Analysis>, k: nat)
    requires analyzed != [] && analyzed[0].isClean && k + 1 < |analyzed| && FirstNewestClean(analyzed[1..], k)
    requires NoLater(analyzed[k + 1].createdAt, analyzed[0].createdAt)
    ensures FirstNewestClean(analyzed, 0)
  {
    assert forall j :: 1 <= j < |analyzed| ==> analyzed[j] == analyzed[1..][j - 1];
  }

  lemma {:induction false} NewestClean(analyzed: seq<Analysis>) returns (i: nat)
    ensures CleanOnes(analyzed) == [] <==> forall j :: 0 <= j < |analyzed| ==> !analyzed[j].isClean
    ensures CleanOnes(analyzed) != [] ==>
      i < |analyzed| && FirstNewestClean(analyzed, i) && Newest(CleanOnes(analyzed)) == analyzed[i]
  {
    i := 0;
    if analyzed != [] {
      var k := NewestClean(analyzed[1..]);
      var rest := CleanOnes(analyzed[1..]);
      assert forall j :: 1 <= j < |analyzed| ==> analyzed[j] == analyzed[1..][j - 1];
      if rest == [] {
        if analyzed[0].isClean {
          assert CleanOnes(analyzed) == [analyzed[0]];
          assert FirstNewestClean(analyzed, 0);
        }
      } else if !analyzed[0].isClean {
        assert CleanOnes(analyzed) == rest;
        FrontUnclean(analyzed, k);
        i := k + 1;
      } else {
        assert CleanOnes(analyzed)[1..] == rest;
        if NoLater(analyzed[k + 1].createdAt, analyzed[0].createdAt) {
          FrontNewest(analyzed, k);
        } else {
          FrontOlder(analyzed, k);
          i := k + 1;
        }
      }
    }
  }

  // Nothing is selected exactly when every point is flagged; otherwise the first of the newest clean ones is.
  lemma SelectsNewestClean(rps: seq<RestorePoint>)
    ensures SelectCleanRestorePoint(rps) == None <==> forall i :: 0 <= i < |rps| ==> !AnalyzeAll(rps)[i].isClean
    ensures SelectCleanRestorePoint(rps).Some? ==> exists i ::
      0 <= i < |rps| && FirstNewestClean(AnalyzeAll(rps), i) && SelectCleanRestorePoint(rps).value == AnalyzeAll(rps)[i]
  {
    var i := NewestClean(AnalyzeAll(rps));
  }

  // Position i holds the first clean point of the latest date, or the first clean one when all are undated.
  ghost predicate FirstOfLatest(rps: seq<RestorePoint>, i: nat)
    requires i < |rps|
  {
    && LooksClean(rps[i])
    && (rps[i].createdAt == None ==>
          forall j :: 0 <= j < |rps| && LooksClean(rps[j]) ==> rps[j].createdAt == None && i <= j)
    && (rps[i].createdAt.Some? ==>
          forall j :: 0 <= j < |rps| && LooksClean(rps[j]) && rps[j].createdAt.Some? ==>
            rps[j].createdAt.value <= rps[i].createdAt.value
            && (j < i ==> rps[j].createdAt.value < rps[i].createdAt.value))
  }

  // The selection in figures: nothing exactly when no point looks clean, and otherwise that one.
  lemma SelectsFirstOfLatest(rps: seq<RestorePoint>)
    ensures SelectCleanRestorePoint(rps) == None <==> forall j :: 0 <= j < |rps| ==> !LooksClean(rps[j])
    ensures SelectCleanRestorePoint(rps).Some? ==> exists i ::
      0 <= i < |rps| && FirstOfLatest(rps, i) && SelectCleanRestorePoint(rps).value == AnalyzeAll(rps)[i]
  {
    var all := AnalyzeAll(rps);
    var i := NewestClean(all);
    forall j | 0 <= j < |rps| ensures all[j].createdAt == rps[j].createdAt && (all[j].isClean <==> LooksClean(rps[j])) {
      PointVerdict(rps[j], Entropies(rps)[..j]);
    }
    if CleanOnes(all) != [] {
      LatestFromNewest(rps, i);
    }
  }

  lemma LatestFromNewest(rps: seq<RestorePoint>, i: nat)
    requires i < |rps| && FirstNewestClean(AnalyzeAll(rps), i)
    requires forall j :: 0 <= j < |rps| ==>
      AnalyzeAll(rps)[j].createdAt == rps[j].createdAt && (AnalyzeAll(rps)[j].isClean <==> LooksClean(rps[j]))
    ensures FirstOfLatest(rps, i)
  {
    var all := AnalyzeAll(rps);
    forall j | 0 <= j < |rps| && LooksClean(rps[j])
      ensures NoLater(rps[j].createdAt, rps[i].createdAt) && (j < i ==> !NoLater(rps[i].createdAt, rps[j].createdAt))
    {
      assert all[j].isClean && all[j].createdAt == rps[j].createdAt;
    }
  }

  // Undated points are not ordered newest first: the selection is the first, that is the oldest, of them.
  lemma UndatedSelectsOldest(rps: seq<RestorePoint>, i: nat)
    requires i < |rps| && forall j :: 0 <= j < |rps| ==> rps[j].createdAt == None
    requires AnalyzeAll(rps)[i].isClean && forall j :: 0 <= j < i ==> !AnalyzeAll(rps)[j].isClean
    ensures SelectCleanRestorePoint(rps) == Some(AnalyzeAll(rps)[i])
  {
    var k := NewestClean(AnalyzeAll(rps));
    assert k == i;
  }

  // So among undated points with distinct ids, listed oldest first, the newest clean one is selected
  // exactly when no earlier one is clean.
  lemma UndatedSelectsNewestExactlyWhen(rps: seq<RestorePoint>, last: nat)
    requires last < |rps| && forall j :: 0 <= j < |rps| ==> rps[j].createdAt == None
    requires forall i, j :: 0 <= i < j < |rps| ==> rps[i].id != rps[j].id
    requires AnalyzeAll(rps)[last].isClean && forall j :: last < j < |rps| ==> !AnalyzeAll(rps)[j].isClean
    ensures SelectCleanRestorePoint(rps) == Some(AnalyzeAll(rps)[last])
       <==> forall j :: 0 <= j < last ==> !AnalyzeAll(rps)[j].isClean
  {
    var k := NewestClean(AnalyzeAll(rps));
    assert AnalyzeAll(rps)[k].restorePointId == rps[k].id && AnalyzeAll(rps)[last].restorePointId == rps[last].id;
    assert k != last ==> rps[k].id != rps[last].id;
  }
}
