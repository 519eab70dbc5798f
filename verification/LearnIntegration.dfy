/** The learner's glue: restoring and saving comforts, the span cap, the learn
    tick and the placement of scan results. */
module LearnIntegration {
  import opened Rounding
  import opened Thermal
  import opened Settings
  import opened Mode
  import opened Observation
  import Learn
  import opened ScanFit
  import opened Placement

  const LEARN_COMFORT_FLOOR := 20
  const LEARN_EPOCH := 4
  const SCAN_FALLBACK_MARGIN := 5

  /** The saved learner state. */
  datatype Baseline = Baseline(epoch: int, scanned: bool, comfort: Quad<int>)

  // -------------------------------------------------------------- by class

  /** A restored value: ignored below the floor, clamped down to the cap. */
  function RestoredValue(saved: int, current: int, hi: int): int {
    if saved < LEARN_COMFORT_FLOOR then current else if saved > hi then hi else saved
  }

  /** What one learn tick makes of one class's comfort. */
  function LearnedValue(l: Limits, c: Managed, comfort: int, target: int, st: WindowStats): int {
    var hi := l.Cap(c);
    if target <= 0 || hi < LEARN_COMFORT_FLOOR then comfort
    else if st.tempP50 <= 0.0 then comfort
    else
      Learn.TargetSeek(st.tempP50, st.tempStdDev, st.fanDemandP90, comfort, target,
                       Learn.DefaultParams(LEARN_COMFORT_FLOOR, hi, l.minFan as real)).newRampStart
  }

  /** The placement request of one class. */
  function ScanRequest(l: Limits, c: Managed, target: int): Request {
    Request(target, l.emergency.At(c), l.minFan, l.maxFan, LEARN_COMFORT_FLOOR, SCAN_FALLBACK_MARGIN, MinCurveSpan(c))
  }

  /** What the scan makes of one class's comfort. */
  ghost function FittedValue(l: Limits, c: Managed, comfort: int, target: int, pts: seq<ScanPoint>): int {
    if pts == [] || target <= 0 || l.Cap(c) < LEARN_COMFORT_FLOOR then comfort
    else ScanRequest(l, c, target).Place(FitOf(pts))
  }

  /** The compiled-in envelopes are ordered, and each leaves its class's minimum
      span above the learner's floor and above its preferred band's bottom. */
  lemma DefaultEnvelopesLeaveRoom(c: Managed)
    ensures DefaultEnvelope(c).Some? && DefaultEnvelope(c).value.Valid()
    ensures var env := DefaultEnvelope(c).value;
      MaxRampStart(c, env.emergency) > LEARN_COMFORT_FLOOR && MaxRampStart(c, env.emergency) > env.preferredLow
  {
  }

  /** Whatever was scanned, a validated configuration places every class with
      room for its span between the learner's floor and its cap, and starts no
      ramp above the larger of floor and target. */
  lemma ScanPlacesSafely(cfg: Config, c: Managed, pts: seq<ScanPoint>)
    requires cfg.Validated() && pts != [] && cfg.limits.Cap(c) >= LEARN_COMFORT_FLOOR
    ensures var target := cfg.pairs.At(c).target;
      var v := FittedValue(cfg.limits, c, cfg.comfort.At(c), target, pts);
      LEARN_COMFORT_FLOOR <= v <= cfg.limits.Cap(c) && v <= Max(LEARN_COMFORT_FLOOR, target)
  {
    hide Request.Place, FitOf;
    var r := ScanRequest(cfg.limits, c, cfg.pairs.At(c).target);
    PlacementIsBounded(FitOf(pts), r);
    StaysBelowTarget(FitOf(pts), r);
  }

  // ------------------------------------------------------------ by configuration

  function Restored(l: Limits, comfort: Quad<int>, saved: Quad<int>): (q: Quad<int>)
    ensures forall c: Managed :: q.At(c) == RestoredValue(saved.At(c), comfort.At(c), l.Cap(c))
  {
    Quad(RestoredValue(saved.cpu, comfort.cpu, l.Cap(CPU)), RestoredValue(saved.pg, comfort.pg, l.Cap(PassiveGPU)),
         RestoredValue(saved.hdd, comfort.hdd, l.Cap(HDD)), RestoredValue(saved.ssd, comfort.ssd, l.Cap(SSD)))
  }

  function Capped(l: Limits, comfort: Quad<int>): (q: Quad<int>)
    ensures forall c: Managed :: q.At(c) == Min(comfort.At(c), l.Cap(c))
  {
    Quad(Min(comfort.cpu, l.Cap(CPU)), Min(comfort.pg, l.Cap(PassiveGPU)),
         Min(comfort.hdd, l.Cap(HDD)), Min(comfort.ssd, l.Cap(SSD)))
  }

  function Learned(l: Limits, comfort: Quad<int>, pairs: Quad<Pair>, stats: Quad<WindowStats>): (q: Quad<int>)
    ensures forall c: Managed :: q.At(c) == LearnedValue(l, c, comfort.At(c), pairs.At(c).target, stats.At(c))
  {
    Quad(LearnedValue(l, CPU, comfort.cpu, pairs.cpu.target, stats.cpu),
         LearnedValue(l, PassiveGPU, comfort.pg, pairs.pg.target, stats.pg),
         LearnedValue(l, HDD, comfort.hdd, pairs.hdd.target, stats.hdd),
         LearnedValue(l, SSD, comfort.ssd, pairs.ssd.target, stats.ssd))
  }

  ghost function Fitted(l: Limits, comfort: Quad<int>, pairs: Quad<Pair>, pts: Quad<seq<ScanPoint>>): (q: Quad<int>)
    ensures forall c: Managed :: q.At(c) == FittedValue(l, c, comfort.At(c), pairs.At(c).target, pts.At(c))
  {
    Quad(FittedValue(l, CPU, comfort.cpu, pairs.cpu.target, pts.cpu),
         FittedValue(l, PassiveGPU, comfort.pg, pairs.pg.target, pts.pg),
         FittedValue(l, HDD, comfort.hdd, pairs.hdd.target, pts.hdd),
         FittedValue(l, SSD, comfort.ssd, pairs.ssd.target, pts.ssd))
  }

  // -------------------------------------------------------------------- methods

  /** The classes before position `i` have their new values, the others their old. */
  ghost predicate UpTo<T>(q: Quad<T>, done: Quad<T>, todo: Quad<T>, i: int) {
    forall j :: 0 <= j < |MANAGED| ==> q.At(MANAGED[j]) == (if j < i then done else todo).At(MANAGED[j])
  }

  lemma AllDone<T>(q: Quad<T>, done: Quad<T>, todo: Quad<T>)
    requires UpTo(q, done, todo, |MANAGED|)
    ensures q == done
  {
    assert q.At(MANAGED[0]) == done.At(MANAGED[0]) && q.At(MANAGED[1]) == done.At(MANAGED[1]);
    assert q.At(MANAGED[2]) == done.At(MANAGED[2]) && q.At(MANAGED[3]) == done.At(MANAGED[3]);
  }

  /** Overlays a saved baseline; a stale epoch restores nothing. */
  method LoadBaseline(cfg: Config, saved: Option<Baseline>) returns (scanned: bool)
    modifies cfg`comfort
    ensures scanned == (saved.Some? && saved.value.epoch == LEARN_EPOCH && saved.value.scanned)
    ensures cfg.comfort == if saved.Some? && saved.value.epoch == LEARN_EPOCH
                           then Restored(cfg.limits, old(cfg.comfort), saved.value.comfort)
                           else old(cfg.comfort)
  {
    if saved.None? || saved.value.epoch != LEARN_EPOCH {
      return false;
    }
    ghost var goal := Restored(cfg.limits, cfg.comfort, saved.value.comfort);
    for i := 0 to |MANAGED|
      invariant UpTo(cfg.comfort, goal, old(cfg.comfort), i)
    {
      var c := MANAGED[i];
      var v, hi := saved.value.comfort.At(c), cfg.limits.Cap(c);
      if v >= LEARN_COMFORT_FLOOR {
        if v > hi {
          v := hi;
        }
        cfg.comfort := cfg.comfort.With(c, v);
      }
    }
    AllDone(cfg.comfort, goal, old(cfg.comfort));
    return saved.value.scanned;
  }

  lemma Differs<T>(p: Quad<T>, q: Quad<T>)
    ensures p != q <==> exists j :: 0 <= j < |MANAGED| && p.At(MANAGED[j]) != q.At(MANAGED[j])
  {
    if forall j :: 0 <= j < |MANAGED| ==> p.At(MANAGED[j]) == q.At(MANAGED[j]) {
      AllDone(p, q, q);
    }
  }

  function SaveBaseline(comfort: Quad<int>, scanned: bool): Baseline {
    Baseline(LEARN_EPOCH, scanned, comfort)
  }

  /** Startup: every class's comfort is held to its span cap. */
  method EnforceCurveSpan(cfg: Config)
    modifies cfg`comfort
    ensures cfg.comfort == Capped(cfg.limits, old(cfg.comfort))
  {
    ghost var goal := Capped(cfg.limits, cfg.comfort);
    for i := 0 to |MANAGED|
      invariant UpTo(cfg.comfort, goal, old(cfg.comfort), i)
    {
      var c := MANAGED[i];
      var hi := cfg.limits.Cap(c);
      if cfg.comfort.At(c) > hi {
        cfg.comfort := cfg.comfort.With(c, hi);
      }
    }
    AllDone(cfg.comfort, goal, old(cfg.comfort));
  }

  /** One class's share of a learn tick. */
  method LearnClass(cfg: Config, obs: Observer, sqrt: real -> real, c: Managed) returns (acted: bool)
    requires obs.Valid()
    modifies cfg`comfort
    ensures var learned := LearnedValue(cfg.limits, c, old(cfg.comfort).At(c), cfg.pairs.At(c).target,
                                        StatsOf(obs.View().Buffer(c), sqrt));
      cfg.comfort == old(cfg.comfort).With(c, learned) && (acted <==> learned != old(cfg.comfort).At(c))
  {
    hide StatsOf, Learn.TargetSeek;
    var target, hi := cfg.pairs.At(c).target, cfg.limits.Cap(c);
    if target <= 0 || hi < LEARN_COMFORT_FLOOR {
      return false;
    }
    var st := obs.Stats(c, sqrt);
    if st.tempP50 <= 0.0 {
      return false;
    }
    var p := Learn.DefaultParams(LEARN_COMFORT_FLOOR, hi, cfg.limits.minFan as real);
    var d := Learn.TargetSeek(st.tempP50, st.tempStdDev, st.fanDemandP90, cfg.comfort.At(c), target, p);
    Learn.ActsIffMoves(st.tempP50, st.tempStdDev, st.fanDemandP90, cfg.comfort.At(c), target, p);
    if d.acted {
      cfg.comfort := cfg.comfort.With(c, d.newRampStart);
    }
    return d.acted;
  }

  /** One learn tick over every class. */
  method RunLearnTick(cfg: Config, obs: Observer, sqrt: real -> real) returns (changed: bool)
    requires obs.Valid()
    modifies cfg`comfort
    ensures cfg.comfort == Learned(cfg.limits, old(cfg.comfort), cfg.pairs, WindowsOf(obs.View(), sqrt))
    ensures changed <==> cfg.comfort != old(cfg.comfort)
  {
    hide LearnedValue, StatsOf;
    ghost var goal := Learned(cfg.limits, old(cfg.comfort), cfg.pairs, WindowsOf(obs.View(), sqrt));
    changed := false;
    for i := 0 to |MANAGED|
      invariant UpTo(cfg.comfort, goal, old(cfg.comfort), i)
      invariant changed <==> exists j :: 0 <= j < i && goal.At(MANAGED[j]) != old(cfg.comfort).At(MANAGED[j])
    {
      var acted := LearnClass(cfg, obs, sqrt, MANAGED[i]);
      changed := changed || acted;
    }
    AllDone(cfg.comfort, goal, old(cfg.comfort));
    Differs(goal, old(cfg.comfort));
  }
}
