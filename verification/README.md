# Thermal control stack of the fan controller

A Dafny model of the fan controller's thermal stack, from the arithmetic of one
curve up to whole runs, with proofs of what the design claims for it.
`dafny verify dfyconfig.toml` checks the whole project.

The stack has five layers, and the modules follow them:

1. **Inner loop** (`Control`, `FanController`, `CycleSafety`, `Dynamics`): the
   temperature-to-fan curve, the time-aware smoothing, max-wins, the asymmetric
   down-slew and the cycle with its three exits (read failure, emergency, normal).
2. **Outer loop** (`Learn`, `Convergence`, `PlantLoop`, `ScanFit`, `Placement`,
   `LearnIntegration`, `LearnRuns`, `BoxScan`): the target-seeking learner, its
   convergence over any plant that follows the ramp start without overtaking it
   and hence over every plant that more fan never heats, the first-run scan with its
   least-squares line, and the comforts they write.
3. **Observation** (`Observation`, `ObserverHistory`, `Percentile`,
   `Moments`, `SteadyWindows`): the rolling window of each class and its statistics.
4. **Intent layer** (`Mode`, `Adaptive`, `Drift`, `ModeChoices`, `DriftRuns`,
   `Handoff`, `HandoffSync`, `LiveTargets`): the optional target drift and its handoff between
   two goroutines, atomic first and then field by field under the store's lock.
5. **Actuation and persistence** (`Ipmi`, `Startup`, `ControlLoop`, `StateFile`,
   `StateText`): the BMC negotiation, the main loop and the state file.

The objects that the program updates in place (controller, observer, reconciler,
target store, BMC client, configuration) are classes here.  Each method is proved
equal to a step function on the object's value (`View()`), and the run-level
theorems are about those step functions, so they hold of every run of the methods.
The one-line handlers (constructors, setters, getters, single BMC commands) carry
contracts that give their whole new state and have no row below.

## Conventions

- `real` stands for float64; every rounding to an integer is an explicit call.
- `exp` and `sqrt` are function parameters with their laws as hypotheses
  (`Control.IsDecay`, `Observation.IsSqrt`); time parsing is a parameter with
  `StateFile.TimeCodec`.
- The failing cases of the drift and its handoff are exhibited on full buffers
  passed through their statistics (`SteadyWindows`).
- Clock values, readings, read failures and learn ticks are arbitrary inputs.
- `Settings.Limits.Valid` is the configuration validation
  (internal/config/config.go:323-373) plus a positive active-GPU emergency, which
  the validation does not check; with a zero one, an absent active GPU (reading
  0) would be a permanent emergency.
- The BMC accepts a fixed set of selectors, and mode commands take effect.

## What the proofs found

- **Emergency hold after the first-run scan.** The emergency branch writes nothing
  when the controller already believes it is at 100 percent
  (internal/controller/controller.go:292-305).  The scan moves the fans without
  telling the controller.  So after a scan that did not abort on an emergency, a
  run that is one emergency from its first cycle on has the fans at full speed if
  and only if the resumed speed was not 100 (`Startup.EmergencyAfterScan`).  The
  belief is right after every other run of a cycle or more: `CycleSafety.FansFollowIff` and
  `Startup.FansAfterScanIff` give the exact condition over all runs, from wherever
  the fans are.
- **The p90 threshold.** The comment at internal/mode/mode.go:149 promises that a
  fan pinned for a tenth of the window shows.  A tenth never shows
  (`ObserverHistory.TenthDoesNotShow`); the exact count is in
  `ObserverHistory.PinnedFanShows` and `Percentile.NinetyNeedsMoreThanATenth`.
- **Deadband handoff.** The comment at cmd/fan-controller/main.go:678-681 says a
  changed deadband is staged.  A decision that settles the target is skipped, new
  deadband and all, so the stored deadband is the reconciler's at every idle moment
  if and only if no pass settles a target while wanting another deadband
  (`HandoffSync.DeadbandInStepIff`).  One steady buffer is enough to break it
  (`HandoffSync.SteadyWindowDropsDeadband`).
- **Targets out of range.** A start outside the drift range is pulled in by a
  settled decision, which is not staged; targets are always handed over if and only
  if they start in range (`HandoffSync.InStepIffInRange`).
- **Faster drift.** The "up"/"down" counters are exact if and only if the rate is
  one degree per pass or the drift range is a single degree
  (`DriftRuns.CountersAreExactIff`, `DriftRuns.ConservedIffSingleSteps`).
- **Deadband range.** The deadband stays at or above the mode's default if and only
  if the configured cap is (`DriftRuns.SmallCapBreaksDeadband`).
- **Truncation.** `FitComfort` rounds by truncation, so it can start the ramp above
  a negative target; `Placement.NeverAboveTargetIff` says exactly when it cannot.
  Its caller is on the safe side under the validated configuration
  (`LearnIntegration.ScanPlacesSafely`).

## Model

| member | source | states |
|---|---|---|
| Control.CurveIsRoundedRamp | internal/control/control.go:158-178 | for a present class and a proper window the curve is the straight ramp between its two ends, capped and rounded half up |
| Control.RampRange | internal/control/control.go:158-178 | the ramp stays in the fan range and is at the top from emergency on |
| Control.RampFollowsShift | internal/control/control.go:158-178 | raising the ramp start by no more than the temperature rose never lowers the demand; with equal starts, monotone in temperature |
| Control.RampAntitoneInComfort | internal/control/control.go:158-178 | a later ramp start never raises the demand at the same temperature |
| Control.RampGain | internal/envelope/envelope.go:101-128 | the ramp's gain is its height over its width |
| Control.SlewIsMax | internal/control/control.go:204-216 | the slewed setpoint is the larger of the wanted speed and the previous speed less the allowed drop |
| Control.DropIsRateTimesTime | internal/control/control.go:204-216 | the largest fall is the rate times the elapsed time to within half a percent, and one percent when that is less |
| Control.SlewFallsAtRate | internal/control/control.go:204-216 | a fall that the rate limits is the rate times the elapsed time to within half a percent |
| Control.EwmaBetween | internal/control/control.go:187-196 | smoothing stays between the previous value and the sample |
| Control.MaxWins | internal/control/control.go:320-331 | the loop returns the clamped value and the name of the first of the largest candidates |
| Learn.SeekIsSafe | internal/learn/learn.go:114-168 | holds keep the ramp start; actions land inside the clamp, move at most the step, and in the direction of the error with fan left to move |
| Learn.StepIsNearestDegree | internal/learn/learn.go:136-167 | a step is the error to the nearest degree, between one degree and the allowed step, and never smaller for a larger error |
| Learn.ReasonsExplain | internal/learn/learn.go:114-168 | each reason is reported exactly when it holds: unsettled, in tolerance, saturated, at the floor, clamped or moved |
| Learn.ActsIffMoves | internal/learn/learn.go:99-168 | a decision reports an action exactly when it moves the ramp start |
| Learn.FloorNeverRaises | internal/learn/learn.go:60-69 | a demand at the minimum fan never raises the ramp start |
| Learn.EquilibriumShift | internal/learn/learn.go:1-23 | over every plant that more fan never heats, linear or not, raising the ramp start raises the settled temperature by at least nothing and at most as many degrees |
| Learn.EquilibriumUnique | internal/learn/learn.go:1-23 | curve and plant agree on at most one temperature, whatever the plant's response |
| Learn.LinearPlantCools | internal/learn/scan.go:1-22 | the plant the scan fits is such a plant and settles under every curve |
| Convergence.NoOvershoot | internal/learn/learn.go:27-43 | in any responsive loop no tick crosses the tolerance band: too hot stays above target + 1, too cool stays at or below target, a hold changes nothing |
| Convergence.HoldsIffAtRest | internal/learn/learn.go:136-167 | a settled tick holds exactly when in band, saturated, at the floor or clamped |
| Convergence.NeverReverses | internal/learn/learn.go:6-11 | no run ever moves in both directions: the loop cannot hunt |
| Convergence.MovesAreDistance | internal/learn/learn.go:6-11 | the number of moves in any run is the distance travelled, hence at most the clamp's width |
| Convergence.RestIsPermanent | internal/learn/learn.go:6-11 | after a settled hold no later tick, settled or not, moves the ramp start |
| Convergence.TwoTimescaleConvergence | internal/learn/learn.go:6-20 | after as many settled ticks as the clamp is wide, every later tick of every run holds, and settled ones are at rest |
| PlantLoop.CoolingPlantIsResponsive | internal/control/control.go:158-178 | every cooling plant under the curve follows the ramp start and never overtakes it |
| PlantLoop.PlantRunIsRun | internal/learn/learn.go:1-23 | ticks that each observe an equilibrium of plant and curve form a run of the abstract loop |
| PlantLoop.PlantRunsExist | internal/learn/learn.go:1-23 | such runs exist from every start inside the clamp, for any window spreads |
| PlantLoop.CoolingPlantConverges | internal/learn/learn.go:1-23 | against every cooling plant that settles, linear or not, a run moves one way only, and once as many windows have settled as the clamp is wide it has stopped for good, at rest |
| ScanFit.TwoDistinctFans | internal/learn/scan.go:74-85 | the scan loop finds two distinct fan levels exactly when there are two |
| ScanFit.LinFit | internal/learn/scan.go:88-108 | the accumulation loop succeeds exactly with two distinct levels and returns the one line of least squared error |
| ScanFit.DenominatorZeroIffOneLevel | internal/learn/scan.go:101-104 | the denominator is non-negative and zero exactly when all points share a level |
| ScanFit.NormalLineIsLeastSquares | internal/learn/scan.go:87-108 | no line has a smaller squared error than the fitted one and no other line has the same |
| ScanFit.CollinearRecovered | internal/learn/scan.go:87-108 | points on a line give back that line exactly |
| Placement.FitComfort | internal/learn/scan.go:28-72 | the method is the placement of its points' fit, or the fallback without one |
| Placement.NoCoolingFallsBack | internal/learn/scan.go:33-55 | without a fit, a falling line or a fan range the ramp starts the margin below the target, as far as floor and cap let it |
| Placement.FallbackCoolsAtTarget | internal/learn/scan.go:11-34 | with a positive margin the fans are then above their minimum at the target |
| Placement.ExtremesOfPlacement | internal/learn/scan.go:46-63 | a line that needs nearly the whole fan range starts the ramp at the floor, one that needs no more than the minimum at the target |
| Placement.PlacementInvertsCurve | internal/learn/scan.go:46-69 | with no clamp binding, the unrounded comfort makes the target the one equilibrium of line and curve |
| Placement.RoundedPlacementHoldsTarget | internal/learn/scan.go:65-71 | with the comfort rounded to a degree, any equilibrium is within half a degree of the target |
| Placement.PlacementIsBounded | internal/learn/scan.go:16-34 | fit or fallback, the result is between the floor and the span cap |
| Placement.NeverAboveTargetIff | internal/learn/scan.go:65-71 | no fit starts the ramp above the larger of floor and target if and only if the target is not negative, or the clamp excludes it |
| Placement.PlacementIsAtRest | internal/learn/scan.go:46-71 | a comfort that no clamp binds leaves the fitted plant within half a degree of the target and the learner with nothing to do |
| Placement.ScanLeavesLearnerAtRest | internal/learn/scan.go:11-22 | a plant that is linear over the scan is placed so that the learner never moves it in any run |
| Percentile.Sort | internal/adaptive/observer.go:187-192 | sorting is ascending and a permutation |
| Percentile.PercentileByRank | internal/adaptive/observer.go:187-214 | a percentile reaches a value exactly when at least n - index samples do |
| Percentile.PercentileMonotone | internal/adaptive/observer.go:194-196 | percentiles are ordered by their rank |
| Percentile.IndexIsNearestRank | internal/adaptive/observer.go:265-274 | the rank is the nearest to p hundredths of the way through the window |
| Percentile.NinetyNeedsMoreThanATenth | internal/adaptive/observer.go:265-274 | the samples that pin a p90 are strictly more than a tenth of the window and less than a tenth plus one and a half |
| Observation.Observer.Add | internal/adaptive/observer.go:109-142 | a sane sample is appended to its window with eviction; an inlet jump first empties every class; a rejected sample changes nothing |
| Observation.JumpEmptiesAll | internal/adaptive/observer.go:126-142 | an accepted inlet jump leaves that one sample and nothing of any other class |
| Observation.Observer.Stats | internal/adaptive/observer.go:157-261 | the loops compute the mean, population deviation, percentiles and change rate of the class's window |
| Moments.StatsAreMoments | internal/adaptive/observer.go:163-185 | n times each mean is the sum, and n squared times each squared spread is n times the sum of squares less the square of the sum |
| Moments.NoSpreadIff | internal/adaptive/observer.go:180-185 | no spread is reported if and only if all temperatures of the window are equal |
| Moments.OutlierForcesSpread | internal/adaptive/observer.go:180-185 | a sample d away from the mean forces n times the squared spread to at least d squared |
| Moments.MeanBetween | internal/adaptive/observer.go:163-180 | a mean lies within the samples |
| Moments.RateIsPerMinute | internal/adaptive/observer.go:216-250 | the change rate is the number of demand changes per minute, zero when no time passed |
| ObserverHistory.BufferIsRecentHistory | internal/adaptive/observer.go:101-142 | after any interleaving of additions and resets a window is the last windowSize accepted samples of its class since it was last emptied |
| ObserverHistory.RejectedSampleIsInvisible | internal/adaptive/observer.go:113-122 | deleting a rejected sample from any history changes no later state |
| ObserverHistory.WindowsHoldTheBand | internal/adaptive/observer.go:113-122 | after any history every sample of a window is within its class's plausible temperatures |
| ObserverHistory.BandDecides | internal/adaptive/observer.go:113-142 | a sample in the band becomes the newest of its window, one outside changes nothing |
| ObserverHistory.ConstantWindow | internal/adaptive/observer.go:144-154 | a window of one temperature and one demand reports exactly those, with no spread |
| ObserverHistory.WindowPercentilesOrdered | internal/adaptive/observer.go:187-196 | p10 <= p50 <= p90 for every window |
| ObserverHistory.PinnedFanShows | internal/adaptive/observer.go:205-214 | p90 demand reaches a level exactly when enough samples did, however deep the other samples dip |
| ObserverHistory.TenthDoesNotShow | internal/mode/mode.go:141-151 | with a tenth of its samples or fewer at a demand, every window reports a p90 below it |
| ObserverHistory.FloorByRank | internal/adaptive/observer.go:205-214 | too few samples above the minimum fan leave the p90 demand at it |
| Adaptive.Reconciler.ReconcileClass | internal/adaptive/reconciler.go:371-575 | the action returned and the state and counters left, for every exit; what the exits mean is in ModeChoices and DriftRuns |
| Adaptive.Reconciler.Step | internal/adaptive/reconciler.go:328-352 | one pass over the four windows in order |
| ModeChoices.ChoiceIsExact | internal/adaptive/reconciler.go:448-477 | the choice of every mode over every window and rate, by explicit slopes of its position term and weights of spread, changes and saturation |
| ModeChoices.CalmBalanced | internal/mode/mode.go:171-217 | on a calm window balanced goes up from below the band, down from more than 0.177 degrees above it, and stays in between |
| ModeChoices.CalmMaxCool | internal/mode/mode.go:151-170 | on a calm window max-cool goes down from more than 0.045 degrees above the bottom of the band and never up |
| ModeChoices.CalmQuiet | internal/mode/mode.go:188-209 | on a calm window the quiet modes go up from more than 5/6 of a degree below the top of the band and down from more than 2.045/6 above it |
| ModeChoices.InitialTargetIsBest | internal/mode/mode.go:55-69 | a mode starts where its score is best: max-cool at the warmest such mean, the quiet modes at the only one, balanced inside the band |
| ModeChoices.ModesAreOrdered | internal/mode/mode.go:55-69 | from max-cool to eco targets never get cooler and deadbands always wider |
| Drift.SaturationAlwaysWins | internal/mode/mode.go:132-207 | with p90 demand above 91 every mode asks for a warmer target |
| Drift.SaturationThresholdIsExact | internal/mode/mode.go:132-207 | that holds for all modes and windows if and only if the p90 is above 91 |
| Drift.QuietModesReclaim | internal/mode/mode.go:188-207 | min-noise and eco with a low fan and a mean a degree above the band ask for a cooler target if and only if the spread is below 791/60 degrees |
| Drift.RestIsKept | internal/mode/mode.go:132-207 | a steady, unsaturated window at the mode's best temperature leaves the target alone at every rate |
| DriftRuns.ClassesDriftAlone | internal/adaptive/reconciler.go:328-352 | over any run a class drifts as if it were the only one |
| DriftRuns.RunKeepsBounds | internal/adaptive/reconciler.go:479-544 | over any run the target stays in [PreferredLow, MaxSafe-1] and the deadband between the mode default and the cap |
| DriftRuns.FreshStartIsInBounds | internal/adaptive/reconciler.go:211-236 | a fresh reconciler starts inside both ranges with zero counters |
| DriftRuns.ReasonsTellTruth | internal/adaptive/reconciler.go:500-532 | each reason of a judged pass holds exactly when its move or its bound does, and the target moves accordingly |
| DriftRuns.UnjudgedIsLeft | internal/adaptive/reconciler.go:371-402 | a pinned, warming-up or unknown class keeps its state, and its action says so |
| DriftRuns.DeadbandCoversSpread | internal/adaptive/reconciler.go:536-544 | the deadband covers one and a half spreads and is no larger than the spread or the mode asks, unless the cap cuts it; it grows with the spread |
| DriftRuns.JumpyWindowResets | internal/adaptive/reconciler.go:404-430 | one outlier in a full window sends the class back to the mode's own target and deadband |
| DriftRuns.CountersCountReasons | internal/adaptive/reconciler.go:555-573 | over any run each counter is the number of passes with its own reason |
| DriftRuns.LatestDirectionIsKept | internal/adaptive/reconciler.go:546-552 | the direction remembered is that of the latest pass that was asked to move or was reset |
| DriftRuns.RestartResumesSameMode | internal/adaptive/reconciler.go:195-245 | a restart in the same mode resumes every saved class, in another mode none |
| DriftRuns.DefaultsFillTheUnset | internal/adaptive/reconciler.go:174-194 | set options are kept, and the defaults leave every mode its deadband and the quiet modes their way down |
| DriftRuns.SmallCapBreaksDeadband | internal/adaptive/reconciler.go:536-543 | a judged pass keeps the deadband at or above the mode default if and only if the cap is |
| DriftRuns.StepConserves | internal/adaptive/reconciler.go:500-573 | where steps are single a pass moves the target by what it counts; bounded passes leave it |
| DriftRuns.TargetIsConserved | internal/adaptive/reconciler.go:555-573 | where steps are single the target is its value at the latest variance reset or start, plus ups and minus downs since |
| DriftRuns.CountersAreExactIff | internal/adaptive/reconciler.go:500-524 | in an envelope bounded steps stay put, and steps move by what they count, if and only if the rate is one or the drift range is one degree |
| DriftRuns.OnlyRateOneIsExact | internal/adaptive/reconciler.go:500-524 | over all envelopes that is so if and only if the rate is one |
| DriftRuns.ConservedIffSingleSteps | internal/adaptive/reconciler.go:500-573 | conservation over every run from every in-bounds start holds if and only if steps are single, in every mode |
| DriftRuns.PinnedRunClimbs | internal/adaptive/reconciler.go:479-489 | k pinned windows give min(MaxSafe-1, t+k) in any mode and no downward count |
| DriftRuns.FullFanBufferLosesCount | internal/adaptive/reconciler.go:500-573 | where steps are not single, one full buffer at full fan moves the target uncounted, in every mode |
| DriftRuns.ReclaimingRunDescends | internal/adaptive/reconciler.go:479-524 | in the quiet modes k windows with a low fan and a mean above the band give max(PreferredLow, t-k) and no upward count |
| DriftRuns.BalancedRunDescends | internal/adaptive/reconciler.go:448-524 | in balanced, k calm windows above the band give max(PreferredLow, t-k) and no upward count |
| DriftRuns.ReclaimNeedsReset | internal/adaptive/reconciler.go:419-447 | every judged window of that kind is reclaimed if and only if the variance reset is below 791/60 degrees |
| Handoff.Store.ApplyTo | internal/livetargets/livetargets.go:76-95 | staged classes overwrite their configuration, others keep theirs |
| Handoff.SeedLiveTargets | cmd/fan-controller/main.go:664-676 | the store holds the reconciler's targets of every class that is not pinned |
| Handoff.AdaptivePass | cmd/fan-controller/main.go:687-711 | one ticker firing stages exactly the non-quiet actions of one pass |
| Handoff.StoreIsHandedOver | cmd/fan-controller/main.go:664-711 | in every interleaving and from any start, whenever the adaptive loop is idle the store has for each class the announcement of that class's latest decision that was not quiet |
| HandoffSync.IdleMeansInStep | cmd/fan-controller/main.go:664-711 | in every interleaving, whenever the adaptive loop is idle the stored target of an unpinned class that started in range is the reconciler's, whatever the other classes do |
| HandoffSync.PinsAreNeverTouched | cmd/fan-controller/main.go:664-704 | in every interleaving the configured pair of a pinned class stays the operator's |
| HandoffSync.AnnouncesIffInRange | internal/adaptive/reconciler.go:500-524 | every buffer's decision is quiet with an unchanged target or announces the target it writes, if and only if the target is in range (or no window is ever judged), in every mode and at every rate |
| HandoffSync.InStepIffInRange | cmd/fan-controller/main.go:664-711 | over all runs on observable windows the stored target is in step at every idle moment if and only if the class starts in range (or no window is ever judged) |
| HandoffSync.StepKeepsDeadbandIff | cmd/fan-controller/main.go:699-704 | one pass keeps a stored deadband in step if and only if it does not settle the target while wanting another deadband |
| HandoffSync.DeadbandInStepIff | cmd/fan-controller/main.go:664-711 | in every interleaving that ends idle, the stored deadband is in step at every idle moment if and only if no pass did that |
| HandoffSync.SteadyWindowDropsDeadband | cmd/fan-controller/main.go:699-704 | it happens in every mode and at every rate: one full steady buffer drops any deadband other than the mode's own |
| Handoff.ConfigIsASnapshot | internal/livetargets/livetargets.go:64-95 | in every atomic interleaving the configuration is the initial one overlaid with the store of one single moment |
| LiveTargets.AccessesRefine | internal/livetargets/livetargets.go:1-95 | with the mutex, every interleaving of single field reads and writes is an interleaving of whole passes, whole Sets and whole ApplyTos |
| LiveTargets.CyclesSeeOneSnapshot | internal/livetargets/livetargets.go:64-95 | every cycle runs on the initial configuration overlaid with the whole store of one moment |
| LiveTargets.CyclesSeeWholeDecisions | internal/livetargets/livetargets.go:1-11 | every cycle's pair of a class is the initial one or what that class's decisions up to one pass handed over, never a torn pair |
| LiveTargets.IdleEntryIsInStep | internal/livetargets/livetargets.go:1-95 | the in-step theorem holds of the store's own entries under the mutex |
| LiveTargets.TearsWithoutLock | internal/livetargets/livetargets.go:5-11 | without the mutex every announcement that changes both values can be read by a cycle as the new target with the old deadband |
| Ipmi.Client.SetFan | internal/ipmi/ipmi.go:105-123 | broadcast or per index, non-negative, stopping at the first rejection |
| Ipmi.Client.ProbeFanAddressing | internal/ipmi/ipmi.go:146-156 | broadcast if accepted, else exactly the accepted indices in order |
| Ipmi.Client.VerifyIndices | internal/ipmi/ipmi.go:162-170 | exactly the accepted candidates in order, all of them written to |
| Ipmi.DrivableSetsAll | internal/ipmi/ipmi.go:105-123 | on an accepted dialect every selector ends at the commanded percentage, others keep theirs, and exactly those writes are issued |
| FanController.ResumeSpeed | internal/controller/controller.go:177-213 | the resumed speed is always inside the fan range |
| FanController.Controller.LoadState | internal/controller/controller.go:177-213 | speed, baseline and samples from the saved state or its absence |
| FanController.Controller.Cycle | internal/controller/controller.go:242-463 | the whole new controller state, the outcome and the BMC commands of one cycle |
| FanController.WinningCandidate | internal/controller/controller.go:350-359 | max-wins over the cycle's candidates is the specified demand and source |
| CycleSafety.CurveInRange | internal/controller/controller.go:328-336 | absent classes abstain, present ones stay in the fan range, and no ramp is narrower than its span |
| CycleSafety.AssistShape | internal/control/control.go:279-296 | the assist is off below its threshold, in the fan range above, full at 100 percent, and monotone |
| CycleSafety.AssistIsLinear | internal/control/control.go:279-296 | between threshold and a saturated card the assist is the minimum plus the linear share of the fan range, to the nearest percent |
| CycleSafety.AssistNeedsACard | internal/controller/controller.go:340-347 | there is an assist if and only if an active GPU reads something and its fan has reached the threshold |
| CycleSafety.DemandIsMaximum | internal/controller/controller.go:349-359 | the demand is the largest of the minimum fan, the curves and the assist |
| CycleSafety.EmergencyIsOverThreshold | internal/controller/controller.go:287-292 | the emergency test holds if and only if some class, active GPU included, is at or above its own threshold |
| CycleSafety.CycleStaysSafe | internal/controller/controller.go:242-373 | bounds, the three exits with an emergency exactly over a threshold, dominance over every curve and the assist, the first largest source, immediate rises of one cycle |
| CycleSafety.EveryCycleIsSafe | internal/controller/controller.go:242-373 | the same for every cycle of every run of readings, failures, clocks and ramp starts |
| CycleSafety.BaselineFollowsSpeed | internal/controller/controller.go:386-388 | the baseline's distance to the setpoint shrinks by exactly the adaptation weight, and only on counted cycles |
| CycleSafety.BaselineConverges | internal/controller/controller.go:386-388 | over normal cycles at one setpoint that distance shrinks geometrically |
| CycleSafety.FlagTellsLatestRead | internal/controller/controller.go:287-320 | the emergency flag survives failed reads and tells whether the latest good one was an emergency |
| CycleSafety.FansFollowIff | internal/controller/controller.go:242-373 | from wherever the fans are, after any run they are at the setpoint if and only if some cycle was not an emergency, or a cycle ran from a setpoint other than 100, or they were there at the start |
| CycleSafety.FansFollowController | internal/controller/controller.go:242-373 | started in sync, the fans are at the controller's setpoint after every cycle and the BMC is manual |
| CycleSafety.MonitorOnlyNeverWrites | internal/controller/controller.go:157-172 | without fan control no run of cycles touches the BMC |
| Dynamics.NormalCycleSlews | internal/controller/controller.go:361-365 | a normal cycle's setpoint in terms of demand, ceiling and drop |
| Dynamics.SlewClosedForm | internal/controller/controller.go:361-373 | over any run of normal cycles the setpoint is the maximum of the start and every past demand, each less the drops since |
| Dynamics.ConstantDemandIsReached | internal/controller/controller.go:49-53 | a constant demand is reached within as many cycles as percent to fall and then held |
| Dynamics.ReadsTakeClockTime | internal/controller/controller.go:267-278 | over any run with advancing clocks the reads take exactly the clock time from the latest read before it to the latest in it |
| Dynamics.ElapsedIsClockTime | internal/controller/controller.go:267-278 | the elapsed time is the clock's, and one nominal interval at the first read or when the clock did not advance |
| Dynamics.FallFollowsClock | internal/controller/controller.go:49-53 | over normal cycles the setpoint never falls faster than 0.2 percent per second of clock time but for rounding, and falls that fast while the slew binds |
| Dynamics.HeldReadingSmoothsByClock | internal/controller/controller.go:267-282 | a class that reads one temperature throughout a run is smoothed as by one sample over the clock time |
| Dynamics.SmoothStaysInRange | internal/controller/controller.go:465-477 | the smoothed value stays within the readings since it was seeded |
| Dynamics.SmoothForgets | internal/control/control.go:180-196 | two histories fed the same readings differ by exactly the decay of the elapsed time |
| Dynamics.SmoothIgnoresPartition | internal/control/control.go:180-196 | a held reading sampled at any instants equals one sample at the end |
| Dynamics.SmoothRestarts | internal/controller/controller.go:465-477 | an absent reading wipes the history: the smoothed value is that of the reads after the latest absent one |
| Dynamics.CyclesSmoothPerClass | internal/controller/controller.go:267-282 | over any run, failures and emergencies included, a class's smoothed value is the smoothing of its own readings |
| Dynamics.RunSmoothsWithinReadings | internal/controller/controller.go:267-282 | over any run of cycles the smoothed value is zero while a class is absent and otherwise within its readings since it was last seeded |
| Dynamics.CurveNoise | internal/envelope/envelope.go:101-128 | jitter of delta moves a class's curve by less than (max-min)*delta/span + 1, whatever its comfort |
| Dynamics.OneDegreeGain | internal/envelope/envelope.go:101-128 | one degree of noise on a 90 percent fan range moves the processor's curve by at most 9, a passive GPU's by 12, a drive's by 15 |
| Dynamics.EndToEndNoiseGain | internal/envelope/envelope.go:101-150 | jitter of delta moves the max-wins demand by less than (max-min)*delta/6 + 1 |
| LearnIntegration.LoadBaseline | cmd/fan-controller/learn_integration.go:103-141 | every class's restored comfort, and nothing from another epoch |
| LearnIntegration.DefaultEnvelopesLeaveRoom | internal/envelope/envelope.go:34-100 | the compiled-in envelopes are ordered and leave each class its span above floor and band |
| LearnIntegration.ScanPlacesSafely | cmd/fan-controller/scan.go:59-67 | under the validated configuration every placed comfort is between floor and cap and never above the larger of floor and target |
| LearnIntegration.EnforceCurveSpan | cmd/fan-controller/learn_integration.go:63-87 | every comfort is lowered to its span cap |
| LearnIntegration.RunLearnTick | cmd/fan-controller/learn_integration.go:168-202 | every class's learned comfort from its own window; reports a change exactly when one happened |
| LearnRuns.SpanAlwaysHeld | cmd/fan-controller/learn_integration.go:51-87 | in every state reachable from startup no comfort exceeds emergency minus the minimum span |
| LearnRuns.RestartRestores | cmd/fan-controller/learn_integration.go:103-159 | a restart restores a comfort between floor and cap unchanged, the cap for one above it, and nothing for one below the floor or of another epoch |
| LearnRuns.OnlyManagedClassesMove | cmd/fan-controller/learn_integration.go:168-202 | a tick or a scan moves a comfort only of a class with a target, room for its span and data outside the tolerance |
| LearnRuns.UninformativeScanBacksOff | cmd/fan-controller/scan.go:59-67 | a scan that shows a class no cooling starts its ramp five degrees below the target, within floor and cap |
| LearnRuns.ScanHoldsTarget | cmd/fan-controller/scan.go:59-67 | on the controller's own limits a scan of a linear class places its ramp to settle within half a degree of the target |
| LearnRuns.JumpyWindowHolds | internal/learn/learn.go:116-121 | one outlier in a window is enough to keep its class's comfort where it is |
| LearnRuns.IdleClassIsNotRaised | internal/learn/learn.go:149-157 | a class with too few samples above the minimum fan never has its comfort raised |
| LearnRuns.LearnTickIsLoopTick | cmd/fan-controller/learn_integration.go:188-198 | over any window with the loop's settled temperature as median and its demand as p90, whatever its spread, the learn tick is the loop's tick at that spread |
| LearnRuns.SettledWindowTicks | internal/adaptive/observer.go:187-214 | a window of whole degrees with enough samples at the settled temperature and too few above is such a window, however the rest jitters |
| BoxScan.HoldLevel | cmd/fan-controller/scan.go:109-151 | the dwell at one level: abort, full speed on emergency, early stop near one |
| BoxScan.FitScan | cmd/fan-controller/scan.go:59-67 | only the class's comfort is placed, and only with points, a target and room for the span |
| BoxScan.RunBoxScan | cmd/fan-controller/scan.go:85-179 | the descent, its BMC commands, and the comforts placed on completion only |
| BoxScan.ScanAbortsAtEmergency | cmd/fan-controller/scan.go:101-107 | the scan aborts at exactly the emergencies of the controller |
| BoxScan.DwellEndsAsItShould | cmd/fan-controller/scan.go:109-151 | the exact outcome of a dwell: cancelled, over a threshold, near one with the reading that showed it, or its latest reading |
| BoxScan.DwellReasserts | cmd/fan-controller/scan.go:127-134 | every reading of a dwell re-asserts every selected fan, once |
| BoxScan.DescendsOnlyWithRoom | cmd/fan-controller/scan.go:135-140 | the scan goes below a level only if it never showed a class within three degrees of its threshold |
| BoxScan.ScanFitsWhatWasRead | cmd/fan-controller/scan.go:152-170 | every point of a completed scan is what its class read last at its level |
| BoxScan.ScanNeverBelow30 | cmd/fan-controller/scan.go:85-170 | whatever it reads, a scan never commands less than 30 percent |
| BoxScan.LevelHolds | cmd/fan-controller/scan.go:109-151 | a level ends at its own speed, or at 100 after an emergency |
| BoxScan.DescentIsSafe | cmd/fan-controller/scan.go:109-170 | the descent ends at full speed after an emergency and else at one of its levels, with points in strictly descending order |
| BoxScan.ScanIsSafe | cmd/fan-controller/scan.go:85-179 | the same for the whole scan, which leaves the BMC manual |
| BoxScan.TwoPointsFit | cmd/fan-controller/scan.go:49-67 | two points of a scan are two levels, so they always give a fit |
| Startup.Start | cmd/fan-controller/main.go:281-367 | start speed, opt-out and the negotiated dialect with the commands it took |
| Startup.NeverStranded | cmd/fan-controller/main.go:291-367 | control is on with every selected selector at the start speed, or off with the fans handed back last |
| Startup.EngagedIff | cmd/fan-controller/main.go:281-367 | control is engaged if and only if the operator did not opt out and something asked for is accepted, at 50 percent or more when the range allows it |
| Startup.NegotiationFindsDialect | cmd/fan-controller/main.go:323-366 | the dialect is decided by the accept set, broadcast first, else every accepted index in order |
| Startup.FirstRun | cmd/fan-controller/main.go:369-410 | when a first run scans, what it leaves on the BMC, whether it is done, and the comforts it places |
| Startup.FirstRunScansIff | cmd/fan-controller/main.go:369-410 | the first run touches the BMC if and only if control is on, no scan is on record and a drive or passive GPU read something |
| Startup.HandedBackUntilShutdown | cmd/fan-controller/main.go:369-470 | after a handback no scan and no cycle of any run changes the BMC |
| Startup.InSyncFromStartup | cmd/fan-controller/main.go:281-367 | without a scan the fans follow the controller from the first cycle of every run |
| Startup.FansAfterScanIff | internal/controller/controller.go:292-305 | the same condition for every run after a first-run scan |
| Startup.EmergencyAfterScan | internal/controller/controller.go:292-305 | after a scan that no emergency stopped, a run that is one emergency throughout has the fans at full speed if and only if the start speed was not 100 |
| Startup.HeldEmergencyNeverWrites | internal/controller/controller.go:292-305 | an emergency held from 100 percent writes no fan speed for its whole length |
| Startup.FullSpeedIsResumed | internal/controller/controller.go:204-206 | a saved speed of 100 starts at 100 exactly when the fan range allows it |
| Startup.ResumesWhatWasSaved | internal/controller/controller.go:177-213 | a usable saved speed is resumed as it is, else the saved baseline to the nearest percent, else the minimum |
| ControlLoop.SampleObserver | cmd/fan-controller/main.go:593-615 | each class that ever read something adds its own temperature and demand |
| ControlLoop.Tick | cmd/fan-controller/main.go:462-478 | apply targets, cycle, sample, learn: the loop's whole new state |
| ControlLoop.TickPerClass | cmd/fan-controller/main.go:593-615 | a tick changes a class as a function of its own state, its own reading, the clock and the exit taken |
| ControlLoop.ClassesDoNotInterfere | internal/controller/controller.go:98-107 | two runs that agree on a class's readings, the clocks and the exits agree on its smoothed temperature, demand, window and comfort |
| StateText.IntRoundTrip | internal/state/state.go:130-137 | every integer, negative ones included, is read back as written |
| StateText.SignsAreRead | internal/state/state.go:130-137 | signed digits are read with their sign, and nothing else is a number |
| StateText.FixedRoundTrip | internal/state/state.go:126-129 | a four-decimal number is read back as the number rounded to four decimals |
| StateText.Round4IsClose | internal/state/state.go:20-22 | that rounding is within half of the fourth decimal |
| StateFile.Read | internal/state/state.go:106-147 | the line loop computes the parse of the body |
| StateFile.StateRoundTrip | internal/state/state.go:71-147 | reading a written body returns speed, samples and instant, and the base speed to four decimals |
| StateFile.QuotedReadsLikeBare | internal/state/state.go:117-124 | a quoted value reads as what is between the quotes, a plain one the same with and without |
| StateFile.PaddingIsIgnored | internal/state/state.go:106-114 | space around a line is ignored |
| StateFile.ForeignLinesAreIgnored | internal/state/state.go:106-147 | inserting a blank, comment, keyless or unknown line at any line boundary of any body changes nothing |

## Left out

- PlantLoop.CoolingPlantConverges: the equilibria are those of the unrounded curve, since with whole-percent demands curve and plant may agree nowhere; the recorded demand is the rounded one. The plant is not driven into an emergency exit. That a continuous response has an equilibrium is proved for linear plants and a hypothesis for the others.
- LiveTargets.AccessesRefine: the mutex itself is a state with atomic transitions; the memory model beneath it is not modelled.
- Startup.NeverStranded: mode commands always take effect; a BMC that rejects the handback itself is not modelled.
- StateFile.StateRoundTrip: exponent, hexadecimal, infinity and NaN spellings that the float parser also accepts, 64-bit integer range and the scanner's line-length limit are not modelled.
- Float64 rounding error, NaN and overflow.
- Sensor subprocesses, sysfs, SMART and GPU text parsing; their results are arbitrary readings.
- Metrics rendering, logging, JSON encoding, temp-file-and-rename atomicity, checkpoint cadences.
- Profile files, environment overlay, mode parsing and the text form of FAN_INDICES; the parsed forms are inputs.
- The vendor guard and the sensor probes at startup, which end the process before control is taken.
- StepPID and ProximityFloor: the retired control law, which the cycle does not call.
- Observer persistence, which the runtime does not use.
- The fallback of an invalid mode to balanced: modes are the four valid ones.
