# R3VP recovery validation: a verified model

R3VP tests whether backups can be recovered. This project models the parts of it that keep state,
loop or do arithmetic with consequences, and proves what they guarantee:

- the runbook planner (`RunbookEngine`) and the workflow that runs a runbook (`RunbookWorkflow`);
- the hash-chained audit log of the appliance, with one and with several appenders (`AuditChain`);
- the fixed-window rate limiter of the API (`RateLimit`);
- RTO trend prediction and anomaly detection (`AiInsights`, over sums in `Vectors`);
- ransomware indicators and the choice of a clean restore point (`ThreatAnalysis`);
- continuous validation: checks and health (`ContinuousValidation`), policy runs and alerts (`ValidationAlerts`);
- the status of recovery test runs (`RunLifecycle`) and the inventory sync (`Inventory`);
- weekly pass rates and the executive trend (`ReadinessTrend`);
- Veeam restore-point selection and the readiness score (`VeeamSelection`).

`Sorting` and `Rounding` model Python's stable sort and half-to-even `round`; `Counting` counts the elements of a
list that have a property.

## Conventions

- Floating-point numbers are exact reals; the models say nothing about rounding errors of floats.
  Times are exact numbers in the unit each module names.
- SHA-256 is a parameter. Collision freedom and never yielding the genesis value are premises about the
  finite set of texts a statement talks about.
- Clocks, activity results, telemetry and generated identifiers are parameters. Database tables are
  sequences or maps held by classes; every method equates the new table with a function of the old one,
  and the invariants are proved about those functions over every run.
- Text is compared only for equality. Creation texts that the source orders are ranks.

## Where the code and its documentation differ

- `README.md:117` promises that any modification, insertion or deletion of an audit record is detected.
  For a collision-free hash and without a retained hash, the walk accepts exactly the tables whose rows,
  from the first changed one on, are all rewritten, linked and hashed anew
  (`AuditChain.AcceptedIffTailRewritten`): trailing rows may be dropped, the last row replaced, rows
  appended, or a whole tail rebuilt. With the last hash retained, every change of evidence is detected
  (`AuditChain.TamperEvident`). Either way evidence is the hashed text, so an edit that only moves
  characters over a field boundary is missed. The same README gives one payload encoding, but `append`
  hashes and stores two different ones.
- `docs/phases/phase-12.md:45` describes waves whose marked steps run concurrently. The workflow runs one
  step at a time in number order and never reads the dependencies; `RunbookWorkflow.OrderLinearisesIff`
  says when that order respects them. The endpoint it fetches its steps from
  (`apps/api/src/routers/runbooks.py:250-275`) hands out no failure marking, so as deployed every failure
  stops the run (`RunbookWorkflow.UnmarkedStopsAtFirstFailure`), against `docs/phases/phase-12.md:55-58`;
  `RunbookWorkflow.MarkingsHonouredExactlyWhen` says when that makes no difference.
- `docs/phases/phase-12.md:36` promises that a manual gate waits for approval before the run continues. A waiting
  result is not a failure, so the run goes on; the promise is kept in every run exactly when no step but the
  last is a gate (`RunbookWorkflow.GatesHoldExactlyWhen`).
- `select_clean_restore_point` is documented to return the newest clean point and to fall back to input
  order for undated ones; among undated points it returns the oldest, which is the newest exactly when
  no other is clean. An entropy spike never makes a point unclean.
- The health endpoint passes runs newest first to a function that reads them oldest first: streak and last check
  are those of the oldest runs.
- An alert's text always reports the threshold, because the query it counts is limited to it; that is the
  streak only when the streak has just reached the threshold (`ValidationAlerts.TextIsRightExactlyWhen`).
- The scheduler's late status write can reopen a finished run. So can the same unguarded write of the endpoint
  that triggers a run on demand (`apps/api/src/routers/test_runs.py:77-104`), which leaves a run pending when
  enqueueing fails; its writes are the actions `Create` and `EnqueueOk` of `RunLifecycle`.

## Model

| member | source | states |
|---|---|---|
| `RunbookEngine.ResolveExecutionOrder` | apps/api/src/services/runbook_engine.py:12-43 | The loop returns the waves of the peeling specification or the not-ready error, and the iteration-limit error is never raised, because the remaining list shrinks every round |
| `RunbookEngine.CompleteWave` | apps/api/src/services/runbook_engine.py:38-41 | Marking a ready wave and removing its steps one by one leaves exactly the blocked steps, in order, and adds exactly the wave's numbers to the completed set |
| `RunbookEngine.ResolvedPlan` | apps/api/src/services/runbook_engine.py:26-43 | The waves are non-empty, a permutation of the input, hold every dependency in a strictly earlier wave, and hold no step that its dependencies would have allowed a wave earlier; duplicates included |
| `RunbookEngine.EarliestWave` | apps/api/src/services/runbook_engine.py:26-43 | No valid schedule, however found, runs a step in an earlier wave than the resolver does |
| `RunbookEngine.FewestWaves` | apps/api/src/services/runbook_engine.py:26-43 | No valid schedule has fewer waves |
| `RunbookEngine.WaveIsLongestChain` | apps/api/src/services/runbook_engine.py:26-43 | A step's wave index is one less than the length of some dependency chain ending in it, and no chain whose numbers are unique is longer; with distinct numbers no chain at all |
| `RunbookEngine.ResolvesExactlyWhenSchedulable` | apps/api/src/services/runbook_engine.py:26-36 | For every runbook, repeated numbers included: resolution succeeds if and only if some valid schedule exists, and fails if and only if some of the steps each wait for a number that only they carry, or nobody |
| `RunbookEngine.ResolvesExactlyWithoutCircles` | apps/api/src/services/runbook_engine.py:26-36 | With distinct numbers that means: no dependency is missing and no step depends on itself through a chain |
| `RunbookEngine.StuckMeansCircular` | apps/api/src/services/runbook_engine.py:31-36 | Even with duplicate numbers, being stuck without a missing dependency exhibits a circular chain |
| `RunbookEngine.DuplicateHidesCircle` | apps/api/src/services/runbook_engine.py:31-41 | Concrete runbook with a repeated number in which a step naming its own number still resolves, so freedom from circles is exact for distinct numbers only |
| `RunbookEngine.PlanIsSchedule` | apps/api/src/services/runbook_engine.py:46-78 | A plan exists exactly when the runbook resolves; it is a valid schedule of all counted steps in numbered non-empty waves, and a wave is not parallel exactly when it is one unmarked step |
| `RunbookEngine.EstimateIsSlowestChoice` | apps/api/src/services/runbook_engine.py:48-52 | For every plan some choice of one step per wave takes exactly the estimate in total, and no such choice takes longer |
| `RunbookEngine.EstimateBounds` | apps/api/src/services/runbook_engine.py:48-52 | For non-negative timeouts the estimate is at most the sum of all timeouts and at least the total along every dependency chain that waits only for numbers carried by one step; with distinct numbers along every chain |
| `RunbookEngine.TwinChainExceedsEstimate` | apps/api/src/services/runbook_engine.py:48-52 | Concrete runbook with a repeated number, estimated at 120 minutes, with a chain of 180 |
| `RunbookWorkflow.Run` | apps/appliance/src/workflows/runbook_workflow.py:157-185 | The run executes and posts, in number order, exactly the steps not done yet up to and including the first failure marked stop or rollback; it ends completed if and only if there is none, and otherwise with the outcome of that marking |
| `RunbookWorkflow.RunEndsExactlyWhen` | apps/appliance/src/workflows/runbook_workflow.py:178-185 | By results and markings alone: only the last entry can be a failure marked stop, rollback or not at all; the run fails if and only if it is one marked stop or not at all, and is rolled back if and only if it is one marked rollback |
| `RunbookWorkflow.RunExecutesOpenSteps` | apps/appliance/src/workflows/runbook_workflow.py:157-169 | A run executes only steps recorded neither completed nor skipped, in number order and with the results of their activities: all of them when it completes, otherwise at least those numbered below its last step |
| `RunbookWorkflow.UnmarkedStopsAtFirstFailure` | apps/api/src/routers/runbooks.py:250-275 | With steps as the deployed endpoint hands them out, without a marking, a run executes up to the first failure, fails if and only if there is one, and never rolls back |
| `RunbookWorkflow.MarkingsHonouredExactlyWhen` | apps/api/src/routers/runbooks.py:250-275 | A run over steps handed out without markings is the run the markings ask for if and only if no step that fails in it is marked otherwise than stop |
| `RunbookWorkflow.OnlyFailuresMatter` | apps/appliance/src/workflows/runbook_workflow.py:171-185 | Two runs over the same steps that fail at the same steps execute the same steps and end alike; waiting for approval and being approved make no difference |
| `RunbookWorkflow.GateNeverHolds` | docs/phases/phase-12.md:36 | After a waiting gate the run goes on exactly when anything is left to do, and otherwise ends completed |
| `RunbookWorkflow.GatesHoldExactlyWhen` | docs/phases/phase-12.md:36 | The promise that a manual gate waits for approval is kept in every run of a runbook if and only if no step to do but the last is a gate |
| `RunbookWorkflow.CheckRunsUnapproved` | docs/phases/phase-12.md:36 | Concrete gate with a check that depends on it: the check runs and the run completes while the gate still waits |
| `RunbookWorkflow.OrderLinearisesIff` | apps/appliance/src/workflows/runbook_workflow.py:157 | Number order respects the declared dependencies if and only if every existing dependency has a smaller number than the step naming it; repeated numbers included |
| `RunbookWorkflow.DependenciesGoFirst` | apps/appliance/src/workflows/runbook_workflow.py:157-169 | With back-pointing dependencies, each dependency of a step the run reaches was already done or comes earlier in the run |
| `RunbookWorkflow.DependenciesSucceedFirst` | apps/appliance/src/workflows/runbook_workflow.py:157-185 | With back-pointing dependencies, each dependency of an executed step was done or executed earlier without ending the run, and without failing when no step is marked |
| `RunbookWorkflow.BackPointingResolves` | apps/api/src/services/runbook_engine.py:26-43 | Complete, back-pointing dependencies always resolve, repeated numbers included, so planner and executor agree on them |
| `RunbookWorkflow.ForwardReferenceReversed` | apps/appliance/src/workflows/runbook_workflow.py:157-169 | Of two steps of which the earlier names the later, the planner puts the later first and the executor the earlier |
| `RunbookWorkflow.ForwardReferenceRunsEarly` | apps/appliance/src/workflows/runbook_workflow.py:157-169 | Concrete runbook with a forward reference: the planner puts step 2 first, the executor runs step 1 first |
| `AuditChain.AuditLog.Append` | apps/appliance/src/audit/chain.py:51-65 | Append inserts one row that continues the last hash, hashing the sorted-key text and storing the insertion-order text, or is refused by the UNIQUE column and changes nothing |
| `AuditChain.AuditLog.VerifyChain` | apps/appliance/src/audit/chain.py:68-82 | The verdict is true with -1 exactly on accepted tables, and otherwise the number of the first broken row |
| `AuditChain.TamperEvident` | apps/appliance/src/audit/chain.py:68-82 | Against the retained final hash of an accepted log, a table is accepted if and only if it has the same length, hashed text and hashes at every position, given a hash without collisions among the texts at hand |
| `AuditChain.SameHeadSameEvidence` | apps/appliance/src/audit/chain.py:68-82 | Two accepted tables with the same final hash carry the same evidence at every position |
| `AuditChain.AcceptedPrefix` | apps/appliance/src/audit/chain.py:68-82 | Every prefix of an accepted chain is accepted |
| `AuditChain.TruncationUndetected` | apps/appliance/src/audit/chain.py:73-82 | Dropping rows from the end is never detected by the walk alone |
| `AuditChain.DeletionDetectedUnlessTail` | apps/appliance/src/audit/chain.py:73-82 | Deleting any choice of rows from an accepted log is detected if and only if what is left is not a prefix |
| `AuditChain.AcceptedIffTailRewritten` | apps/appliance/src/audit/chain.py:68-82 | Without a retained hash, any table at all is accepted if and only if it keeps the log's evidence up to some row and from there on consists of intact rows none of which carries an entry hash of the log |
| `AuditChain.ModificationDetectedUnless` | apps/appliance/src/audit/chain.py:68-82 | Replacing a row is accepted if and only if the new row carries the old evidence, or is the last row and is linked and hashed anew |
| `AuditChain.InsertionDetectedUnlessAtEnd` | apps/appliance/src/audit/chain.py:68-82 | Inserting a row is accepted if and only if it is put at the end, linked to the last hash and hashed |
| `AuditChain.RebuiltTailUndetected` | apps/appliance/src/audit/chain.py:39-82 | Replacing the rows from any position on by rows linked and hashed anew is accepted, whatever they say |
| `AuditChain.FieldsFromText` | apps/appliance/src/audit/chain.py:77 | Equal hashed texts give back equal fields if and only if the two unseparated field boundaries agree |
| `AuditChain.BoundaryShiftUndetected` | apps/appliance/src/audit/chain.py:56-77 | Concrete edit of timestamp and event type that moves a digit over the boundary and is accepted, for every hash |
| `AuditChain.RunsKeepInv` | apps/appliance/src/audit/chain.py:51-65 | In every interleaving of appenders that read and then insert, each row is the one its writer built from the hash it read, and entry hashes stay distinct |
| `AuditChain.InterleavingVerdict` | apps/appliance/src/audit/chain.py:55-82 | In every interleaving, verification breaks at exactly the rows whose append overlapped another insert or whose stored payload text differs from the hashed one |
| `AuditChain.SerialVerdict` | apps/appliance/src/audit/chain.py:51-82 | A log written by serialised appends verifies if and only if every payload has one encoding, and otherwise the first broken row is the first whose two encodings differ; rows are numbered from 1 |
| `AuditChain.SerialNeverRefused` | apps/appliance/src/audit/chain.py:39-61 | Serialised appends are never refused by the UNIQUE column: event k becomes row k |
| `AuditChain.SerialIsAnInterleaving` | apps/appliance/src/audit/chain.py:51-65 | The serialised log is the interleaving in which every insert follows its own read |
| `RateLimit.FixedWindowRateLimiter.Hit` | apps/api/src/rate_limit.py:38-54 | A hit updates the store and answers as the hit specification says, purging when the store exceeds the tracked-key bound |
| `RateLimit.FixedWindowRateLimiter.Purge` | apps/api/src/rate_limit.py:56-59 | Purging keeps a key if and only if its slot starts at the current window or later, and changes no slot it keeps |
| `RateLimit.StoreTracks` | apps/api/src/rate_limit.py:38-59 | While the window never goes back, the purged store holds the exact count of every key of the current window and nothing newer |
| `RateLimit.CountExactlyWhenRemembered` | apps/api/src/rate_limit.py:38-59 | For every run of calls on any clock, a call is counted as by a limiter that remembers all hits if and only if no call after a hit of its key in its window moved the key to another window or purged it from a later one, and is otherwise counted lower |
| `RateLimit.CountExactlyWhenKeyStays` | apps/api/src/rate_limit.py:38-59 | While the calls so far name at most 10,000 keys, that is if and only if the key was not hit in this window and afterwards in another one |
| `RateLimit.ClockKeepsWindowsInOrder` | apps/api/src/rate_limit.py:43 | On a clock that never goes back the window never does |
| `RateLimit.RefinesFullHistory` | apps/api/src/rate_limit.py:38-59 | While the window never goes back, every call gets the verdict, remaining count and reset time of a limiter that remembers all hits |
| `RateLimit.ClockStepBackForgets` | apps/api/src/rate_limit.py:44-47 | Concrete run with a clock that steps back in which a spent window lets another call through |
| `RateLimit.AllowedPerWindow` | apps/api/src/rate_limit.py:38-54 | An aligned window lets through exactly the smaller of its calls and the limit, per key |
| `RateLimit.RemainingIsUnspent` | apps/api/src/rate_limit.py:48-54 | The remaining count of every answer plus the calls let through in that window so far, this one included, is the limit |
| `RateLimit.AnswerInFigures` | apps/api/src/rate_limit.py:43-54 | The reset time ends the window that holds the call; a call passes if and only if fewer than the limit of its key's calls came before it in that window, and the remaining count is what they and it leave |
| `RateLimit.AllowedPerInterval` | apps/api/src/rate_limit.py:38-54 | Any closed interval of one window length lets through at most twice the limit, per key |
| `RateLimit.TwiceTheLimitIsReached` | apps/api/src/rate_limit.py:44-54 | Concrete run in which intervals of one window length let through twice the limit |
| `RateLimit.StoreBounded` | apps/api/src/rate_limit.py:50-59 | The store never exceeds the larger of 10,000 and the distinct keys hit in the current window |
| `AiInsights.NormalEquations` | apps/api/src/services/ai_insights.py:24-32 | The trend line's errors sum to zero, plain and weighted by the centred index |
| `AiInsights.ErrorSplits` | apps/api/src/services/ai_insights.py:24-32 | The squared error of any line is the trend line's plus the squared gap between the two |
| `AiInsights.TrendLineIsLeastSquares` | apps/api/src/services/ai_insights.py:24-32 | No line has a smaller squared error over the readings than the trend line, and no other line has the same |
| `AiInsights.LinearSeriesIsReproduced` | apps/api/src/services/ai_insights.py:24-34 | Readings on a line give back its slope and intercept, and its next value before rounding and clamping |
| `AiInsights.LinearSeriesReport` | apps/api/src/services/ai_insights.py:34-65 | The report of a linear series names the line's direction and its next value rounded to a tenth and clamped at zero, with a breach forecast exactly when it degrades below target |
| `AiInsights.ReportSays` | apps/api/src/services/ai_insights.py:14-65 | For every series: the prediction is the next value of the least-squares line to the nearest tenth and not below zero; direction, risk bands, the presence of a breach forecast and its number of tests follow from it in the stated figures; fewer than two readings give none |
| `AiInsights.SlopeSign` | apps/api/src/services/ai_insights.py:29-31 | A non-decreasing series has slope at least 0, a non-increasing one at most 0 |
| `AiInsights.MonotoneSeriesLabels` | apps/api/src/services/ai_insights.py:37-55 | A series that never falls is never labelled improving; one that never rises is never labelled degrading and gets no breach forecast |
| `AiInsights.StricterTargetIsRiskier` | apps/api/src/services/ai_insights.py:44-55 | For the same readings a stricter target never lowers the reported risk, and a breach is forecast only below critical |
| `AiInsights.DetectAnomalies` | apps/api/src/services/ai_insights.py:68-84 | The loop records, in index order, exactly the readings whose squared deviation times n - 1 exceeds four times the summed squares, with rounded value, rounded z-score and direction |
| `AiInsights.FlaggedIffOutlier` | apps/api/src/services/ai_insights.py:80-83 | The z-score test is that comparison with the square root and the divisions cleared |
| `AiInsights.OutliersAreFarOff` | apps/api/src/services/ai_insights.py:73-84 | The flagged readings are, in order, exactly those more than two standard deviations away from the mean |
| `AiInsights.AnomaliesAreFew` | apps/api/src/services/ai_insights.py:73-84 | With k of n readings flagged, 4k < n - 1, so series of four or five readings flag none |
| `AiInsights.FlagCountsPossible` | apps/api/src/services/ai_insights.py:73-84 | The bound is sharp: some n readings have exactly k flagged ones if and only if 4k < n - 1 |
| `AiInsights.SixReadingsCanFlag` | apps/api/src/services/ai_insights.py:80-83 | Concrete series of six readings with a flagged one, so the bound on the length is sharp |
| `ThreatAnalysis.AnalyzeRestorePoints` | apps/api/src/services/threat_analysis.py:95-120 | Each restore point is judged against the upper median of the entropies before it, in input order |
| `ThreatAnalysis.PointVerdict` | apps/api/src/services/threat_analysis.py:54-120 | For every point and history: each indicator, the maximal severity and cleanness in figures, with entropy 7.9, a jump of 1.5 over half of the earlier points, a quarter of the files renamed, and any known extension |
| `ThreatAnalysis.HighestSeverity` | apps/api/src/services/threat_analysis.py:108-111 | The severity loop returns the highest severity among the indicators in the declared order |
| `ThreatAnalysis.BaselineAtMost` | apps/api/src/services/threat_analysis.py:104-106 | The baseline is at most t if and only if at most (n - 1) / 2, rounded down, of the n earlier points exceed t |
| `ThreatAnalysis.BaselineIgnoresOrder` | apps/api/src/services/threat_analysis.py:104-106 | The baseline depends only on the multiset of earlier entropies |
| `ThreatAnalysis.EntropyShowsExactlyWhen` | apps/api/src/services/threat_analysis.py:57-71 | A point gets an entropy indicator if and only if its entropy is encrypted-like by itself, or it has predecessors and at most (n - 1) / 2 of them lie above its entropy less 1.5 |
| `ThreatAnalysis.SpikeSurvivesInfectedHistory` | apps/api/src/services/threat_analysis.py:57-71 | With at most (n - 1) / 2 infected predecessors, a point at least 1.5 above the healthy level always gets an entropy indicator |
| `ThreatAnalysis.MajorityInfectedHidesSpike` | apps/api/src/services/threat_analysis.py:65-71 | With more predecessors than that above it less 1.5, a point below the encrypted threshold gets no entropy indicator |
| `ThreatAnalysis.OneOfTwoHidesSpike` | apps/api/src/services/threat_analysis.py:65-71 | Concrete history of two in which a jump of 2 over the healthy level gets none |
| `ThreatAnalysis.CleanIgnoresHistory` | apps/api/src/services/threat_analysis.py:107-118 | A point is clean if and only if its own entropy, rename ratio and extensions are unsuspicious; the baseline never decides it |
| `ThreatAnalysis.SelectsNewestClean` | apps/api/src/services/threat_analysis.py:123-130 | Nothing is selected exactly when all points are flagged; otherwise the first of the clean points that no clean point is later than |
| `ThreatAnalysis.SelectsFirstOfLatest` | apps/api/src/services/threat_analysis.py:123-130 | In the same figures: nothing is selected exactly when no point is clean; otherwise the first clean point of the latest date, or the first clean one when none is dated |
| `ThreatAnalysis.UndatedSelectsOldest` | apps/api/src/services/threat_analysis.py:123-130 | Among undated points the selection is the first clean one, that is the oldest, although the documentation speaks of the newest |
| `ThreatAnalysis.UndatedSelectsNewestExactlyWhen` | apps/api/src/services/threat_analysis.py:123-130 | Among undated points with distinct ids, listed oldest first, the newest clean one is selected if and only if no earlier one is clean |
| `ContinuousValidation.BuildCheckResults` | apps/api/src/services/continuous_validation.py:109-137 | Exactly the enabled checks get a result, each the result of its own check, whatever the order they are processed in |
| `ContinuousValidation.ResultsInFigures` | apps/api/src/services/continuous_validation.py:50-137 | Exactly the enabled checks report; compliance fails beyond one and a half targets, freshness beyond two, a heartbeat beyond four intervals, each also without a timestamp; every other check is skipped |
| `ContinuousValidation.StatusInFigures` | apps/api/src/services/continuous_validation.py:50-147 | The overall status fails, and passes, exactly when the ages of backup and heartbeat say so for the enabled checks |
| `ContinuousValidation.OverallIsWorst` | apps/api/src/services/continuous_validation.py:140-147 | The overall status is the most severe one reported, skipped checks counting as passes |
| `ContinuousValidation.StatusNeverImproves` | apps/api/src/services/continuous_validation.py:56-147 | While backup and heartbeat stay the same, the overall status never improves with time |
| `ContinuousValidation.FreshnessIsRedundant` | apps/api/src/services/continuous_validation.py:56-87 | Beside an enabled compliance check, the freshness check never changes the overall status |
| `ContinuousValidation.ComputeContinuousHealth` | apps/api/src/services/continuous_validation.py:150-172 | The function reports the trailing non-pass streak of the list, its pass count, the rounded pass rate, the banded status and the time of the list's last run |
| `ContinuousValidation.TrailingIsLongest` | apps/api/src/services/continuous_validation.py:157-162 | The reported streak holds no pass and is preceded by one or reaches the start of the list |
| `ContinuousValidation.NewestFirstReportsOldestStreak` | apps/api/src/routers/continuous_validation.py:137-146 | Handing the history over newest first reports the streak of its oldest runs, which is right if and only if the list starts and ends with equally long streaks |
| `ContinuousValidation.NewestFirstReportsOldestCheck` | apps/api/src/routers/continuous_validation.py:137-146 | The last check it reports is the time of the oldest run, right if and only if all runs share one time |
| `ContinuousValidation.RecoveredReportedFailing` | apps/api/src/routers/continuous_validation.py:137-146 | Concrete history of a recovered workload that the endpoint reports with one consecutive failure and the failure's time as the last check |
| `ValidationAlerts.ValidationStore.RecordCheck` | apps/api/src/scheduler.py:175-226 | Recording one check adds one run row and, when the streak in the limited query reaches the threshold and no alert is open, one alert with the row flagged |
| `ValidationAlerts.ValidationStore.RunValidationPolicy` | apps/api/src/scheduler.py:122-229 | A policy run does nothing when disabled and otherwise evaluates and records every workload in turn |
| `ValidationAlerts.PolicyRunRecords` | apps/api/src/scheduler.py:122-189 | An enabled policy run keeps all rows and alerts and adds, in order, one row per workload with the status it observes; a disabled one changes nothing |
| `ValidationAlerts.ValidationStore.ResolveAlert` | apps/api/src/routers/continuous_validation.py:167-179 | Resolving an existing alert marks it and changes nothing else; an unknown alert changes nothing |
| `ValidationAlerts.LimitedStreak` | apps/api/src/scheduler.py:192-206 | The streak counted from the limited newest-first query is the smaller of the limit and the true trailing streak |
| `ValidationAlerts.CountsStreak` | apps/api/src/scheduler.py:192-206 | The trailing streak is the number of rows of the policy and workload since their last pass |
| `ValidationAlerts.CheckRecords` | apps/api/src/scheduler.py:175-226 | Recording a check adds one row, and one alert with the row flagged if and only if the check failed, alerting is on, the rows since the last pass reach the threshold and every earlier alert of the pair is resolved |
| `ValidationAlerts.RaisedExactlyWhen` | apps/api/src/scheduler.py:191-226 | An alert is raised if and only if alerting is on, the check failed, the trailing streak reaches the threshold and no alert is open; its text always reports the threshold |
| `ValidationAlerts.TextIsRightExactlyWhen` | apps/api/src/scheduler.py:192-222 | The count in an alert's text is at most the streak, and equal to it if and only if the check before it ended a streak one short of the threshold |
| `ValidationAlerts.WarnedStreakMisreported` | apps/api/src/scheduler.py:192-222 | Reachable history of two policy runs, a warning and a failure with threshold 1: the streak is 2 and the text says 1 |
| `ValidationAlerts.AlertsAlwaysFounded` | apps/api/src/scheduler.py:187-226 | In every reachable state each policy and workload has at most one open alert, each alert stands on a failing run that ended a streak of the reported length, and alerts match the flagged rows in number |
| `ValidationAlerts.RunsStayClocked` | apps/api/src/scheduler.py:160-189 | Over sequential policy runs the rows of a policy and workload are recorded in strictly increasing time |
| `ValidationAlerts.RecentIsNewestFirst` | apps/api/src/scheduler.py:192-200 | On such a table the query's rows are those of the policy and workload, strictly newest first, and none left out is newer |
| `ValidationAlerts.FailingStreaksAreAlerted` | apps/api/src/scheduler.py:191-226 | After an enabled, alerting policy run every workload that failed and whose history then ends in a streak of at least the threshold has an open alert |
| `RunLifecycle.RunStore.CreateRun` | apps/api/src/scheduler.py:44-47 | A created run is pending |
| `RunLifecycle.RunStore.RecordEnqueue` | apps/api/src/scheduler.py:57-77 | The enqueue outcome overwrites the status with running or failed, whatever it was |
| `RunLifecycle.RunStore.UpdateRunProgress` | apps/api/src/services/appliance.py:174-205 | Progress from the owner logs a step and moves a pending run to running; from anyone else it is refused and changes nothing |
| `RunLifecycle.RunStore.FinaliseRun` | apps/api/src/services/appliance.py:208-234 | A result from the owner sets the verdict whatever the status was; from anyone else it is refused and changes nothing |
| `RunLifecycle.StatusTellsLastWrite` | apps/api/src/services/appliance.py:155-234 | Over every sequence of actions a run is passed if and only if its last unguarded write was the owner's passing result, failed if and only if that was a failed enqueue or a failing result, running after a successful enqueue or, without any such write, once the owner reported a started step, and pending otherwise |
| `RunLifecycle.MovesBackExactlyWhen` | apps/api/src/scheduler.py:58-64 | A status moves backwards if and only if the scheduler's running write hits a final run |
| `RunLifecycle.FinalChangesExactlyWhen` | apps/api/src/services/appliance.py:222-233 | A final status changes if and only if it is hit by one of the unguarded writes with another value |
| `RunLifecycle.StatusOnlyMovesForward` | apps/api/src/scheduler.py:44-77 | In every interleaving in which no running write follows a final write of the same run, statuses only move forward |
| `RunLifecycle.ForwardExactlyWhen` | apps/api/src/scheduler.py:44-77 | An interleaving keeps every status moving forward if and only if no running write follows a final write of the same run |
| `RunLifecycle.FinalForeverExactlyWhen` | apps/api/src/services/appliance.py:208-234 | Over every run of the system a final status is kept for good if and only if no later running write and no later unguarded write of the other verdict hits the run |
| `RunLifecycle.FinalStatusIsForever` | apps/api/src/services/appliance.py:208-234 | In every interleaving in which the enqueue outcome precedes a single verdict, a final status never changes again |
| `RunLifecycle.LateEnqueueWriteReopensRun` | apps/api/src/scheduler.py:51-65 | Concrete interleaving in which a run passed before the scheduler's write ends running with its completion time set |
| `RunLifecycle.ForeignPostsAreInvisible` | apps/api/src/services/appliance.py:155-171 | Every run of the system ends in the same state without the posts of appliances that do not own the run |
| `Inventory.WorkloadTable.AcceptInventorySync` | apps/api/src/services/appliance.py:107-152 | The loop upserts every reported VM in order and returns their number |
| `Inventory.SyncKeepsUnique` | apps/api/src/services/appliance.py:134-146 | A sync keeps object ids unique per appliance, keeps every row's identity, and touches no row of another appliance or without an id |
| `Inventory.SyncMakes` | apps/api/src/services/appliance.py:118-147 | What a sync makes of the table: rows of reported ids take name, protection and last backup of the last report, every other row stays, and each added row is that of a VM without an id or of an id's first report, so refreshed |
| `Inventory.AlwaysUnique` | apps/api/src/models/workload.py:22-30 | Over every sequence of syncs there is at most one row per appliance and object id, and one for every id the last sync reported |
| `Inventory.GrowsByNewIds` | apps/api/src/services/appliance.py:118-147 | The table grows by exactly the newly seen ids plus the VMs without an id |
| `Inventory.SyncTwiceIsSyncOnce` | apps/api/src/services/appliance.py:118-147 | Sending the same inventory twice leaves the table as sending it once if and only if every VM has an id |
| `Inventory.RepeatInsertsUnidentified` | apps/api/src/services/appliance.py:134-146 | A repeated sync adds exactly one row for each VM without an id |
| `Inventory.UnidentifiedDuplicates` | apps/api/src/services/appliance.py:134-146 | Concrete VM without an id that is inserted anew by every sync |
| `ReadinessTrend.BucketWeeklyPassRate` | apps/api/src/services/readiness_scoring.py:45-71 | One bucket per week of seven days, oldest first: its count is the number of runs completed after its start and not after its end, its rate the whole percentage nearest to the passed share of them, absent exactly without runs |
| `ReadinessTrend.CountsRuns` | apps/api/src/services/readiness_scoring.py:63-65 | The window counts are the numbers of positions whose run was completed in the window, and passed |
| `ReadinessTrend.ProjectTrend` | apps/api/src/services/executive_snapshot.py:141-151 | Each bucket becomes a trend point with its week, rate (zero without runs) and run count, whose passing count is the whole number nearest to rate percent of it, and the number of runs that passed whenever there were at most a hundred |
| `ReadinessTrend.WindowsAdd` | apps/api/src/services/readiness_scoring.py:58-63 | Adjacent windows neither overlap nor leave a gap, for runs and for passed runs |
| `ReadinessTrend.WeeklyTotalsConserved` | apps/api/src/services/readiness_scoring.py:58-70 | The bucket counts add up to the runs completed in (now - weeks, now] |
| `ReadinessTrend.RebuiltCloseness` | apps/api/src/services/executive_snapshot.py:143-148 | The rebuilt passing count is off by at most n / 200 + 1 / 2 and exact up to a hundred runs |
| `ReadinessTrend.LosslessUpToAHundred` | apps/api/src/services/executive_snapshot.py:143-148 | Every passing count survives the rounded rate if and only if the bucket has at most a hundred runs |
| `ReadinessTrend.TrendPassingIsExact` | apps/api/src/services/executive_snapshot.py:141-151 | The passing count of a trend point over at most a hundred runs, none included, is the true one |
| `ReadinessTrend.FailRateIsNearest` | apps/api/src/services/readiness_scoring.py:82-86 | The fail rate is the whole percentage nearest to the failed share, and zero without runs |
| `ReadinessTrend.PassAndFailRatesComplement` | apps/api/src/services/readiness_scoring.py:82-86 | Rounded pass and fail percentages of the same runs add up to 100 |
| `VeeamSelection.SelectRestorePoint` | apps/appliance/src/connectors/veeam/rest.py:161-187 | The first of the newest consistent points is returned for every RPO target and for none; the two errors arise exactly without points and without consistent ones |
| `VeeamSelection.WindowKeepsHead` | apps/appliance/src/connectors/veeam/rest.py:180-186 | If any point of a newest-first list is inside the window, its head is |
| `VeeamSelection.AgeInMinutes` | apps/appliance/src/connectors/veeam/rest.py:275-278 | The age is the number of whole minutes passed, zero for a time in the future |
| `VeeamSelection.ScoreRange` | apps/appliance/src/connectors/veeam/rest.py:290-306 | The score lies in 0 to 100 before clamping and is at least 60 if and only if health passed |
| `VeeamSelection.ScoreAddsShares` | apps/appliance/src/connectors/veeam/rest.py:290-316 | The score is 60 for passed health plus one share of 20 for each objective: all within its target, none from twice the target on, and in between the whole number nearest to the straight line |
| `VeeamSelection.ScoreMonotone` | apps/appliance/src/connectors/veeam/rest.py:290-316 | Longer measured times and stricter targets never raise the score |
| `VeeamSelection.PointsFollowLine` | apps/appliance/src/connectors/veeam/rest.py:309-316 | Beyond the target the points stay within half a point of the straight line that reaches zero at twice the target, and are zero from there on |
| `VeeamSelection.PointsAntitone` | apps/appliance/src/connectors/veeam/rest.py:309-316 | A longer measured time never earns more points |
| `VeeamSelection.PointsMonotone` | apps/appliance/src/connectors/veeam/rest.py:309-316 | A laxer target never earns fewer points |
| `Sorting.SortStable` | apps/appliance/src/workflows/runbook_workflow.py:157 | The sort of the library orders by key and keeps the input order of equal keys |
| `Sorting.SortHead` | apps/appliance/src/connectors/veeam/rest.py:179-187 | The head of a sorted list is the first input element of least key |
| `Rounding.RoundIsNearest` | apps/api/src/services/readiness_scoring.py:68 | Rounding is to the nearest integer, with ties to the even one |
| `Rounding.RoundToIsNearest` | apps/api/src/services/ai_insights.py:35 | Rounding to decimals gives the nearest multiple of the unit, with ties to the even one |

## Left out

- RateLimit: windows of zero (every hit raises a division error) or negative length, which no caller configures; concurrent hits on one limiter.
- AuditChain: the JSON encoder, SQLite and timestamps as numbers; a row carries the timestamp's text, and an event both payload texts.
- RunbookWorkflow.Run: an activity that raises instead of returning a result ends the workflow before finalisation; retries, timeouts and the measured RTO are not modelled either.
- RunbookEngine: step configuration and runbook fields that are only copied into the plan; `compute_rto`.
- AiInsights: that `rank_workload_risks` lists every workload once, stably by falling score, and that its score rises with staleness, recovery time and failure rate; the natural-language answers. The square root inside `statistics.stdev` is a parameter characterised by its square.
- ThreatAnalysis: the table of ransomware extensions and its normalisation; a restore point carries the matching extensions. Detail texts.
- ContinuousValidation: detail texts and the reported ages of a check.
- ValidationAlerts: negative thresholds, which the database rejects as a limit; concurrent runs of one policy; the selection of workloads by scope; check counts and durations on a run row.
- RunLifecycle: measured RTO, RPO and score columns, breach notifications, and the recovery workflow's own activities.
- RunLifecycle.RunStore.CreateRun: run identifiers are random and taken to be new.
- Inventory: the random row identifier, so a row is known by its position; columns that a sync never writes.
- ReadinessTrend: that the composite score stays within 0 to 100 and rises with its shares; that the snapshot lists at most five risks, high ones first; the second clock reading between query and bucketing.
- VeeamSelection: version parsing and API-version headers, request building and polling.
- Network and vendor clients, routers and authentication, report rendering, the portal, and threat-intelligence scanning.
