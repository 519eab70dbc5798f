/** The optional intent layer: once per adaptive cycle, each class's target may
    drift one step toward the best of three projected mode scores. */
module Adaptive {
  import opened Rounding
  import opened Thermal
  import opened Mode
  import opened Observation

  // ------------------------------------------------------------------- options

  datatype Options = Options(
    mode: Mode,
    driftRate: int,
    maxDeadbandC: int,
    varianceReset: real,
    minFill: real,
    windowSize: int,
    overrides: set<Class>,
    envelopes: map<Class, Envelope>)
  {
    /** NewReconciler's defaults for unset fields. */
    function Normalized(): (o: Options)
      ensures o.Valid()
    {
      Options(mode,
              if driftRate <= 0 then 1 else driftRate,
              if maxDeadbandC <= 0 then 7 else maxDeadbandC,
              if varianceReset <= 0.0 then 5.0 else varianceReset,
              if minFill <= 0.0 then 1.0 else minFill,
              if windowSize <= 0 then 480 else windowSize,
              overrides, envelopes)
    }

    predicate Valid() {
      driftRate >= 1 && maxDeadbandC >= 1 && varianceReset > 0.0 && minFill > 0.0 && windowSize >= 1
    }

    /** The class has an envelope that respects its ordering invariant. */
    predicate HasEnvelope(c: Class) {
      c in envelopes && envelopes[c].Valid()
    }

    predicate WarmingUp(st: WindowStats)
      requires Valid()
    {
      st.samples as real / windowSize as real < minFill
    }
  }

  // --------------------------------------------------------------------- state

  datatype ClassState = ClassState(target: real, deadband: real, lastChange: int) {
    function Target(): int { RoundHalfAway(target) }
    function Deadband(): int { RoundHalfAway(deadband) }
  }

  datatype Counters = Counters(up: nat, down: nat, boundedHigh: nat, boundedLow: nat, resets: nat)

  const NO_COUNTS := Counters(0, 0, 0, 0, 0)

  datatype DriftReason =
    | Skipped | WarmingUp | Settled | DriftUp | DriftDown
    | BoundedHigh | BoundedLow | VarianceReset | Error

  datatype DriftAction = DriftAction(
    class_: Class, reason: DriftReason,
    oldTarget: int, newTarget: int, oldDeadband: int, newDeadband: int)

  datatype AdaptiveState = AdaptiveState(classes: map<Class, ClassState>, counts: map<Class, Counters>) {
    function Class_(c: Class): ClassState {
      if c in classes then classes[c] else ClassState(0.0, 0.0, 0)
    }

    function Counts(c: Class): Counters {
      if c in counts then counts[c] else NO_COUNTS
    }
  }

  // ------------------------------------------------------------ the projections

  function ProjectUp(st: WindowStats, drift: real): WindowStats {
    st.(tempMean := st.tempMean + drift,
        tempStdDev := MaxReal(0.0, st.tempStdDev - 0.30 * drift),
        fanChangeRate := MaxReal(0.0, st.fanChangeRate - 0.50 * drift),
        fanDemandMean := MaxReal(0.0, st.fanDemandMean - 5.0 * drift),
        fanDemandP90 := MaxReal(0.0, st.fanDemandP90 - 5.0 * drift))
  }

  function ProjectDown(st: WindowStats, drift: real): WindowStats {
    st.(tempMean := st.tempMean - drift,
        tempStdDev := st.tempStdDev + 0.30 * drift,
        fanChangeRate := st.fanChangeRate + 0.50 * drift,
        fanDemandMean := MinReal(100.0, st.fanDemandMean + 5.0 * drift),
        fanDemandP90 := MinReal(100.0, st.fanDemandP90 + 5.0 * drift))
  }

  /** The signed drift the scores ask for. */
  function Choose(m: Mode, env: Envelope, st: WindowStats, driftRate: int): int {
    var drift := driftRate as real;
    var now := Score(m, env, st);
    var up := Score(m, env, ProjectUp(st, drift));
    var down := Score(m, env, ProjectDown(st, drift));
    var best := if up < now then up else now;
    if down < best then -driftRate
    else if up < now then driftRate
    else 0
  }

  // ------------------------------------------------------------- one class

  /** The clamped target and the reason for it. */
  function Bounded(env: Envelope, current: int, delta: int): (r: (int, DriftReason))
    ensures r.1 in {BoundedHigh, BoundedLow, DriftUp, DriftDown, Settled}
  {
    var highClamp := env.maxSafe - 1;
    var raw := current + delta;
    var high := if raw > highClamp then highClamp else raw;
    var target := if high < env.preferredLow then env.preferredLow else high;
    var reason :=
      if high < env.preferredLow && delta < 0 then BoundedLow
      else if raw > highClamp && delta > 0 then BoundedHigh
      else if delta > 0 then DriftUp
      else if delta < 0 then DriftDown
      else Settled;
    (target, reason)
  }

  function DesiredDeadband(o: Options, env: Envelope, st: WindowStats): int {
    Min(Max(Ceiling(st.tempStdDev * 1.5), InitialTarget(env, o.mode).1), o.maxDeadbandC)
  }

  function Counted(k: Counters, r: DriftReason): Counters {
    match r
    case DriftUp => k.(up := k.up + 1)
    case DriftDown => k.(down := k.down + 1)
    case BoundedHigh => k.(boundedHigh := k.boundedHigh + 1)
    case BoundedLow => k.(boundedLow := k.boundedLow + 1)
    case VarianceReset => k.(resets := k.resets + 1)
    case _ => k
  }

  /** The decision for one class, from its state and its window. */
  function Decide(o: Options, c: Class, cs: ClassState, st: WindowStats): DriftAction
    requires o.Valid()
  {
    var cur, db := cs.Target(), cs.Deadband();
    if c !in o.envelopes then DriftAction(c, Error, cur, cur, db, db)
    else if c in o.overrides then DriftAction(c, Skipped, cur, cur, db, db)
    else if o.WarmingUp(st) then DriftAction(c, WarmingUp, cur, cur, db, db)
    else
      var env := o.envelopes[c];
      if st.tempStdDev > o.varianceReset then
        var (t, d) := InitialTarget(env, o.mode);
        DriftAction(c, VarianceReset, cur, t, db, d)
      else
        var (t, r) := Bounded(env, cur, Choose(o.mode, env, st, o.driftRate));
        DriftAction(c, r, cur, t, db, DesiredDeadband(o, env, st))
  }

  /** The decision written back: targets move only when the class was judged. */
  function Applied(o: Options, s: AdaptiveState, c: Class, st: WindowStats): AdaptiveState
    requires o.Valid()
  {
    var a := Decide(o, c, s.Class_(c), st);
    if a.reason in {Error, Skipped, WarmingUp} then s
    else
      var last :=
        if a.reason == VarianceReset then 0
        else
          var delta := Choose(o.mode, o.envelopes[c], st, o.driftRate);
          if delta != 0 then delta else s.Class_(c).lastChange;
      AdaptiveState(s.classes[c := ClassState(a.newTarget as real, a.newDeadband as real, last)],
            s.counts[c := Counted(s.Counts(c), a.reason)])
  }

  /** A pass over classes in order: the state and the actions. */
  function Pass(o: Options, s: AdaptiveState, cs: seq<Managed>, stats: Quad<WindowStats>)
    : (AdaptiveState, seq<DriftAction>)
    requires o.Valid()
  {
    if cs == [] then (s, [])
    else
      var n := |cs| - 1;
      var (before, actions) := Pass(o, s, cs[..n], stats);
      (Applied(o, before, cs[n], stats.At(cs[n])),
       actions + [Decide(o, cs[n], before.Class_(cs[n]), stats.At(cs[n]))])
  }

  /** One reconcile pass. */
  function Stepped(o: Options, s: AdaptiveState, stats: Quad<WindowStats>): (AdaptiveState, seq<DriftAction>)
    requires o.Valid()
  {
    Pass(o, s, MANAGED, stats)
  }

  /** The state a fresh reconciler starts from: what was loaded for this mode,
      completed with the mode's initial targets. */
  function Initial(o: Options, loaded: Option<(Mode, map<Class, ClassState>)>): AdaptiveState {
    var base := if loaded.Some? && loaded.value.0 == o.mode then loaded.value.1 else map[];
    AdaptiveState(
      map c | c in base.Keys + (set d | d in o.envelopes && d.Managed()) ::
        if c in base then base[c]
        else
          var (t, d) := InitialTarget(o.envelopes[c], o.mode);
          ClassState(t as real, d as real, 0),
      map[CPU := NO_COUNTS, PassiveGPU := NO_COUNTS, HDD := NO_COUNTS, SSD := NO_COUNTS])
  }

  // ----------------------------------------------------- the branches, in order

  method BestDelta(m: Mode, env: Envelope, st: WindowStats, driftRate: int) returns (bestDelta: int)
    ensures bestDelta == Choose(m, env, st, driftRate)
  {
    hide Score, ProjectUp, ProjectDown;
    var drift := driftRate as real;
    var scoreNow := Score(m, env, st);
    var scoreUp := Score(m, env, ProjectUp(st, drift));
    var scoreDown := Score(m, env, ProjectDown(st, drift));
    bestDelta := 0;
    var bestScore := scoreNow;
    if scoreUp < bestScore {
      bestDelta, bestScore := driftRate, scoreUp;
    }
    if scoreDown < bestScore {
      bestDelta := -driftRate;
    }
  }

  method BoundTarget(env: Envelope, current: int, bestDelta: int) returns (newTarget: int, reason: DriftReason)
    ensures (newTarget, reason) == Bounded(env, current, bestDelta)
  {
    var bound: Option<DriftReason> := None;
    var highClamp := env.maxSafe - 1;
    newTarget := current + bestDelta;
    if newTarget > highClamp {
      newTarget := highClamp;
      if bestDelta > 0 {
        bound := Some(BoundedHigh);
      }
    }
    if newTarget < env.preferredLow {
      newTarget := env.preferredLow;
      if bestDelta < 0 {
        bound := Some(BoundedLow);
      }
    }
    if bound.Some? {
      return newTarget, bound.value;
    }
    reason := if bestDelta > 0 then DriftUp else if bestDelta < 0 then DriftDown else Settled;
  }

  method DeadbandFor(o: Options, env: Envelope, st: WindowStats) returns (desired: int)
    ensures desired == DesiredDeadband(o, env, st)
  {
    var (_, modeDefault) := InitialTarget(env, o.mode);
    desired := Ceiling(st.tempStdDev * 1.5);
    if desired < modeDefault {
      desired := modeDefault;
    }
    if desired > o.maxDeadbandC {
      desired := o.maxDeadbandC;
    }
  }

  // ----------------------------------------------------------------- the class

  class Reconciler {
    const o: Options
    var classes: map<Class, ClassState>
    var counts: map<Class, Counters>

    ghost function View(): AdaptiveState
      reads this
    {
      AdaptiveState(classes, counts)
    }

    constructor (opts: Options, loaded: Option<(Mode, map<Class, ClassState>)>)
      ensures o == opts.Normalized()
      ensures View() == Initial(o, loaded)
    {
      o := opts.Normalized();
      var init := Initial(opts.Normalized(), loaded);
      classes := init.classes;
      counts := init.counts;
    }

    method Target(c: Class) returns (t: Option<(int, int)>)
      ensures t == if c in classes then Some((classes[c].Target(), classes[c].Deadband())) else None
    {
      if c !in classes {
        return None;
      }
      return Some((RoundHalfAway(classes[c].target), RoundHalfAway(classes[c].deadband)));
    }

    method ReconcileClass(c: Managed, st: WindowStats) returns (a: DriftAction)
      requires o.Valid()
      modifies this
      ensures a == Decide(o, c, old(View()).Class_(c), st)
      ensures View() == Applied(o, old(View()), c, st)
    {
      hide Choose, Bounded, DesiredDeadband, RoundHalfAway;
      var cs := if c in classes then classes[c] else ClassState(0.0, 0.0, 0);
      a := DriftAction(c, Error, cs.Target(), cs.Target(), cs.Deadband(), cs.Deadband());
      if c !in o.envelopes {
        return;
      }
      var env := o.envelopes[c];
      if c in o.overrides {
        a := a.(reason := Skipped);
        return;
      }
      var fill := st.samples as real / o.windowSize as real;
      if fill < o.minFill {
        a := a.(reason := WarmingUp);
        return;
      }
      if st.tempStdDev > o.varianceReset {
        var (t, d) := InitialTarget(env, o.mode);
        classes := classes[c := ClassState(t as real, d as real, 0)];
        a := a.(reason := VarianceReset, newTarget := t, newDeadband := d);
        Count(c, VarianceReset);
        return;
      }
      var bestDelta := BestDelta(o.mode, env, st, o.driftRate);
      var newTarget, reason := BoundTarget(env, cs.Target(), bestDelta);
      var desired := DeadbandFor(o, env, st);
      a := a.(reason := reason, newTarget := newTarget, newDeadband := desired);
      classes := classes[c := ClassState(newTarget as real, desired as real,
                                         if bestDelta != 0 then bestDelta else cs.lastChange)];
      Count(c, reason);
    }

    /** The per-class counters; settled decisions count nothing. */
    method Count(c: Class, r: DriftReason)
      modifies this`counts
      ensures counts == old(counts)[c := Counted(if c in old(counts) then old(counts)[c] else NO_COUNTS, r)]
    {
      var k := if c in counts then counts[c] else NO_COUNTS;
      counts := counts[c := Counted(k, r)];
    }

    method Step(obs: Observer, sqrt: real -> real) returns (actions: seq<DriftAction>)
      requires o.Valid() && obs.Valid()
      modifies this
      ensures (View(), actions) == Stepped(o, old(View()), WindowsOf(obs.View(), sqrt))
    {
      hide StatsOf, Decide, Applied;
      ghost var stats := WindowsOf(obs.View(), sqrt);
      actions := [];
      for i := 0 to |MANAGED|
        invariant (View(), actions) == Pass(o, old(View()), MANAGED[..i], stats)
      {
        var st := obs.Stats(MANAGED[i], sqrt);
        assert MANAGED[..i + 1][..i] == MANAGED[..i];
        assert st == stats.At(MANAGED[i]);
        var a := ReconcileClass(MANAGED[i], st);
        actions := actions + [a];
      }
      assert MANAGED[..|MANAGED|] == MANAGED;
    }
  }
}
