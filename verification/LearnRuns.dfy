/** What the learner keeps over every reachable state, and how one learn tick is
    a tick of the convergence argument. */
module LearnRuns {
  import opened Rounding
  import opened Thermal
  import opened Settings
  import opened Mode
  import opened Percentile
  import opened Observation
  import opened ObserverHistory
  import opened Moments
  import Learn
  import opened Convergence
  import opened ScanFit
  import opened Placement
  import opened LearnIntegration

  // ---------------------------------------------------------- the span invariant

  /** Every class's ramp is at least its minimum span wide. */
  predicate SpanHeld(l: Limits, comfort: Quad<int>) {
    forall c: Managed :: comfort.At(c) <= l.Cap(c)
  }

  /** What may happen to the comforts and targets once startup is over: learn
      ticks, a box scan's fit, and targets handed over by the reconciler. */
  datatype Change =
    | LearnTick(stats: Quad<WindowStats>)
    | ScanFitted(pts: Quad<seq<ScanPoint>>)
    | TargetsApplied(pairs: Quad<Pair>)

  datatype Tuning = Tuning(comfort: Quad<int>, pairs: Quad<Pair>)

  ghost function Changed(l: Limits, t: Tuning, ch: Change): Tuning {
    match ch
    case LearnTick(stats) => t.(comfort := Learned(l, t.comfort, t.pairs, stats))
    case ScanFitted(pts) => t.(comfort := Fitted(l, t.comfort, t.pairs, pts))
    case TargetsApplied(pairs) => t.(pairs := pairs)
  }

  ghost function AfterChanges(l: Limits, t: Tuning, chs: seq<Change>): Tuning {
    if chs == [] then t
    else Changed(l, AfterChanges(l, t, chs[..|chs| - 1]), chs[|chs| - 1])
  }

  /** Startup: restore what was saved, then hold every class to its span. */
  function AtStartup(l: Limits, configured: Quad<int>, saved: Option<Baseline>): Quad<int> {
    Capped(l, if saved.Some? && saved.value.epoch == LEARN_EPOCH
              then Restored(l, configured, saved.value.comfort) else configured)
  }

  lemma LearnKeepsSpan(l: Limits, c: Managed, comfort: int, target: int, st: WindowStats)
    requires comfort <= l.Cap(c)
    ensures LearnedValue(l, c, comfort, target, st) <= l.Cap(c)
    ensures LEARN_COMFORT_FLOOR <= comfort ==> LEARN_COMFORT_FLOOR <= LearnedValue(l, c, comfort, target, st)
  {
  }

  lemma FitKeepsSpan(l: Limits, c: Managed, comfort: int, target: int, pts: seq<ScanPoint>)
    requires comfort <= l.Cap(c)
    ensures FittedValue(l, c, comfort, target, pts) <= l.Cap(c)
    ensures LEARN_COMFORT_FLOOR <= comfort ==> LEARN_COMFORT_FLOOR <= FittedValue(l, c, comfort, target, pts)
  {
    hide Request.RealComfort, Request.Fraction, FitOf;
  }

  /** Over every state reachable from startup, through any learn ticks, scan
      fits and target changes, no ramp is narrower than its class's span, and a
      comfort that has reached the learner's floor never falls below it. */
  lemma {:induction false} SpanAlwaysHeld(l: Limits, configured: Quad<int>, saved: Option<Baseline>, pairs: Quad<Pair>,
                                          chs: seq<Change>)
    ensures var start := AtStartup(l, configured, saved);
      var t := AfterChanges(l, Tuning(start, pairs), chs);
      && SpanHeld(l, t.comfort)
      && forall c: Managed :: LEARN_COMFORT_FLOOR <= start.At(c) ==> LEARN_COMFORT_FLOOR <= t.comfort.At(c)
  {
    hide LearnedValue, FittedValue, RestoredValue;
    if chs != [] {
      var n := |chs| - 1;
      SpanAlwaysHeld(l, configured, saved, pairs, chs[..n]);
      var before := AfterChanges(l, Tuning(AtStartup(l, configured, saved), pairs), chs[..n]);
      match chs[n]
      case LearnTick(stats) =>
        forall c: Managed {
          LearnKeepsSpan(l, c, before.comfort.At(c), before.pairs.At(c).target, stats.At(c));
        }
      case ScanFitted(pts) =>
        forall c: Managed {
          FitKeepsSpan(l, c, before.comfort.At(c), before.pairs.At(c).target, pts.At(c));
        }
      case TargetsApplied(_) =>
    }
  }

  /** A restart brings back exactly what was saved for every class whose comfort
      is between the floor and its cap, whatever is configured; the cap for one
      above it; and nothing for one below the floor or of another epoch. */
  lemma RestartRestores(l: Limits, configured: Quad<int>, learned: Quad<int>, scanned: bool, c: Managed)
    ensures var v := AtStartup(l, configured, Some(SaveBaseline(learned, scanned))).At(c);
      && (LEARN_COMFORT_FLOOR <= learned.At(c) <= l.Cap(c) ==> v == learned.At(c))
      && (LEARN_COMFORT_FLOOR <= learned.At(c) && learned.At(c) > l.Cap(c) ==> v == l.Cap(c))
      && (learned.At(c) < LEARN_COMFORT_FLOOR ==> v == AtStartup(l, configured, None).At(c))
    ensures forall e: int :: e != LEARN_EPOCH ==>
      AtStartup(l, configured, Some(SaveBaseline(learned, scanned).(epoch := e))) == AtStartup(l, configured, None)
  {
  }

  // ------------------------------------------------------------ the floor guard

  /** A class whose window has too few samples above the minimum fan never has
      its comfort raised, however cool it is. */
  lemma IdleClassIsNotRaised(l: Limits, c: Managed, comfort: int, target: int, buf: seq<Sample>, sqrt: real -> real)
    requires buf != [] && comfort >= LEARN_COMFORT_FLOOR
    requires DemandCount(buf, l.minFan + 1) < |buf| - PercentileIndex(90, |buf|)
    ensures LearnedValue(l, c, comfort, target, StatsOf(buf, sqrt)) <= comfort
  {
    hide StatsOf, DemandCount, PercentileIndex, Learn.TargetSeek;
    var st := StatsOf(buf, sqrt);
    FloorByRank(buf, sqrt, l.minFan);
    Learn.FloorNeverRaises(st.tempP50, st.tempStdDev, st.fanDemandP90, comfort, target,
                           Learn.DefaultParams(LEARN_COMFORT_FLOOR, l.Cap(c), l.minFan as real));
  }

  // -------------------------------------------------- which classes move at all

  /** A learn tick only moves the comfort of a class that has a target, room for
      its span, a reading, and a temperature outside its tolerance band; a scan
      only places one that has a target, room and points. */
  lemma OnlyManagedClassesMove(l: Limits, c: Managed, comfort: int, target: int, st: WindowStats, pts: seq<ScanPoint>)
    ensures LearnedValue(l, c, comfort, target, st) != comfort ==>
      && target > 0 && l.Cap(c) >= LEARN_COMFORT_FLOOR && st.tempP50 > 0.0 && st.tempStdDev <= 1.5
      && !(-1.0 < st.tempP50 - target as real <= 2.0)
    ensures FittedValue(l, c, comfort, target, pts) != comfort ==>
      target > 0 && l.Cap(c) >= LEARN_COMFORT_FLOOR && pts != []
  {
    hide Request.Place, FitOf;
  }

  /** A scan that shows no cooling for a class starts its ramp five degrees below
      its target, as far as floor and cap let it. */
  lemma UninformativeScanBacksOff(cfg: Config, c: Managed, pts: seq<ScanPoint>)
    requires cfg.Validated() && pts != [] && cfg.limits.Cap(c) >= LEARN_COMFORT_FLOOR
    requires FitOf(pts).None? || FitOf(pts).value.b >= 0.0
    ensures var wanted := cfg.pairs.At(c).target - 5;
      var v := FittedValue(cfg.limits, c, cfg.comfort.At(c), cfg.pairs.At(c).target, pts);
      && (LEARN_COMFORT_FLOOR <= wanted <= cfg.limits.Cap(c) ==> v == wanted)
      && (wanted < LEARN_COMFORT_FLOOR ==> v == LEARN_COMFORT_FLOOR)
      && (wanted > cfg.limits.Cap(c) ==> v == cfg.limits.Cap(c))
  {
    hide Request.Place, FitOf;
    NoCoolingFallsBack(FitOf(pts), ScanRequest(cfg.limits, c, cfg.pairs.At(c).target));
  }

  /** The scan's purpose, on the controller's own limits: a class whose points lie
      on a falling line that reaches the target inside the fan range gets a ramp
      start at which that line and the curve settle within half a degree of the
      target, unless floor or cap bind. */
  lemma ScanHoldsTarget(l: Limits, c: Managed, comfort: int, target: int, pts: seq<ScanPoint>, line: Line, t: real)
    requires l.Valid() && 0 < target < l.emergency.At(c) && l.minFan < l.maxFan && l.Cap(c) >= LEARN_COMFORT_FLOOR
    requires TwoLevels(pts) && line.b < -0.000001
    requires forall i :: 0 <= i < |pts| ==> pts[i].tempC == line.At(pts[i].X())
    requires var fan := (target as real - line.a) / line.b;
      l.minFan as real <= fan < l.minFan as real + 0.999 * (l.maxFan - l.minFan) as real
    requires var v := FittedValue(l, c, comfort, target, pts);
      && LEARN_COMFORT_FLOOR < v < l.Cap(c)
      && Learn.LinearPlant(line.a, -line.b, l.emergency.At(c), l.minFan, l.maxFan).Equilibrium(t, v as real)
    ensures AbsReal(t - target as real) <= 0.5
  {
    hide NormalLine, Line.At, Request.RealComfort, Learn.Plant.Equilibrium, Learn.Plant.Cooling;
    hide Learn.Plant.AlwaysSettles;
    var r := ScanRequest(l, c, target);
    CollinearRecovered(pts, line);
    NeedIsShort(line, r);
    RoundedPlacementHoldsTarget(line, r, t);
  }

  lemma NeedIsShort(line: Line, r: Request)
    requires line.b < 0.0 && r.minFan < r.maxFan
    requires r.minFan as real <= r.FanAtTarget(line) < r.minFan as real + 0.999 * (r.maxFan - r.minFan) as real
    ensures r.FanAtTarget(line) == (r.target as real - line.a) / line.b
    ensures r.FanAtTarget(line) <= r.maxFan as real && r.Fraction(line) < 0.999
  {
    var x, h := r.FanAtTarget(line) - r.minFan as real, r.maxFan as real - r.minFan as real;
    assert h == (r.maxFan - r.minFan) as real;
    assert r.ClampedFan(line) == r.FanAtTarget(line);
    LessThanShare(x, h, 0.999);
  }

  lemma LessThanShare(x: real, w: real, k: real)
    requires w > 0.0 && x < k * w
    ensures x / w < k
  {
    var q := x / w;
    assert q * w == x;
    if q >= k {
      MulMonotone(w, k, q);
      assert q * w >= k * w;
    }
  }

  // ----------------------------------------------------------- the settle gate

  /** One outlier is enough: a window with a sample further than 1.5 sqrt(n)
      degrees from its mean never moves its class's comfort. */
  lemma JumpyWindowHolds(l: Limits, c: Managed, comfort: int, target: int, buf: seq<Sample>, sqrt: real -> real, i: nat)
    requires IsSqrt(sqrt) && i < |buf|
    requires var away := buf[i].tempCelsius - StatsOf(buf, sqrt).tempMean;
      Times(away, away) > Times(|buf| as real, 2.25)
    ensures LearnedValue(l, c, comfort, target, StatsOf(buf, sqrt)) == comfort
  {
    hide StatsOf, IsSqrt, Times;
    var sd := StatsOf(buf, sqrt).tempStdDev;
    OutlierForcesSpread(buf, sqrt, i);
    StatsAreMoments(buf, sqrt);
    SpreadExceeds(|buf| as real, sd, 1.5);
    GateSquared();
  }

  lemma GateSquared()
    ensures Times(1.5, 1.5) == 2.25
  {
  }

  // ---------------------------------------------- the tick of the closed loop

  /** Over any window whose median is the loop's settled temperature and whose
      p90 demand is the recorded one, the learn tick decides exactly what the
      convergence argument's loop decides at the window's spread. */
  lemma LearnTickIsLoopTick(l: Limits, c: Managed, comfort: int, st: WindowStats, loop: Loop)
    requires st.tempP50 == loop.settled(comfort) > 0.0 && st.fanDemandP90 == loop.demand(comfort) as real
    requires loop.target > 0 && loop.minRamp == LEARN_COMFORT_FLOOR && loop.maxRamp == l.Cap(c) >= LEARN_COMFORT_FLOOR
    requires loop.minFan == l.minFan
    ensures LearnedValue(l, c, comfort, loop.target, st) == loop.Decide(comfort, st.tempStdDev).newRampStart
  {
    hide Learn.TargetSeek;
  }

  /** How many samples of a window read at least `t`. */
  function TempCount(buf: seq<Sample>, t: real): nat {
    CountAtLeast(Temps(buf), t)
  }

  /** A window of whole-degree readings settled around the loop's temperature:
      enough samples at it or above, and too few a degree above.  However the
      others jitter, its tick is the loop's. */
  lemma SettledWindowTicks(l: Limits, c: Managed, comfort: int, buf: seq<Sample>, sqrt: real -> real, loop: Loop,
                           t: int)
    requires buf != [] && loop.settled(comfort) == t as real && t > 0
    requires forall i :: 0 <= i < |buf| ==>
      buf[i].tempCelsius == buf[i].tempCelsius.Floor as real && buf[i].fanDemandPct == loop.demand(comfort)
    requires TempCount(buf, t as real) >= |buf| - PercentileIndex(50, |buf|) > TempCount(buf, (t + 1) as real)
    requires loop.target > 0 && loop.minRamp == LEARN_COMFORT_FLOOR && loop.maxRamp == l.Cap(c) >= LEARN_COMFORT_FLOOR
    requires loop.minFan == l.minFan
    ensures var st := StatsOf(buf, sqrt);
      LearnedValue(l, c, comfort, loop.target, st) == loop.Decide(comfort, st.tempStdDev).newRampStart
  {
    hide StatsOf, Learn.TargetSeek, LearnedValue, Loop.Decide, PercentileOf, PercentileIndex, CountAtLeast;
    var st := StatsOf(buf, sqrt);
    MedianByRank(buf, sqrt, t);
    ConstantDemand(buf, sqrt, loop.demand(comfort));
    LearnTickIsLoopTick(l, c, comfort, st, loop);
  }

  lemma MedianByRank(buf: seq<Sample>, sqrt: real -> real, t: int)
    requires buf != [] && forall i :: 0 <= i < |buf| ==> buf[i].tempCelsius == buf[i].tempCelsius.Floor as real
    requires TempCount(buf, t as real) >= |buf| - PercentileIndex(50, |buf|) > TempCount(buf, (t + 1) as real)
    ensures StatsOf(buf, sqrt).tempP50 == t as real
  {
    hide *;
    MedianRank(buf, sqrt, t as real);
    MedianRank(buf, sqrt, (t + 1) as real);
    var i := MedianIsASample(buf, sqrt);
    WholeBetween(buf[i].tempCelsius.Floor, t);
  }

  lemma MedianRank(buf: seq<Sample>, sqrt: real -> real, v: real)
    requires buf != []
    ensures StatsOf(buf, sqrt).tempP50 >= v <==> TempCount(buf, v) >= |buf| - PercentileIndex(50, |buf|)
  {
    PercentileByRank(Temps(buf), 50, v);
  }

  lemma MedianIsASample(buf: seq<Sample>, sqrt: real -> real) returns (i: nat)
    requires buf != []
    ensures i < |buf| && StatsOf(buf, sqrt).tempP50 == buf[i].tempCelsius
  {
    i := PercentileIsASample(Temps(buf), 50);
  }

  lemma WholeBetween(x: int, t: int)
    ensures t as real <= x as real < (t + 1) as real ==> x as real == t as real
  {
    if x > t {
      assert x as real >= (t + 1) as real;
    } else if x < t {
      assert x as real < t as real;
    }
  }

  lemma ConstantDemand(buf: seq<Sample>, sqrt: real -> real, d: int)
    requires buf != [] && forall i :: 0 <= i < |buf| ==> buf[i].fanDemandPct == d
    ensures StatsOf(buf, sqrt).fanDemandP90 == d as real
  {
    PercentileOfConstant(Demands(buf), 90, d as real);
  }
}
