/** Whole runs of the reconciler: bounds, conservation and saturation. */
module DriftRuns {
  import opened Rounding
  import opened Thermal
  import opened Mode
  import opened Observation
  import opened Moments
  import opened SteadyWindows
  import opened Adaptive
  import opened Drift
  import opened ModeChoices

  /** One class's share of the reconciler. */
  datatype Entry = Entry(cs: ClassState, counts: Counters)

  function EntryOf(s: AdaptiveState, c: Class): Entry {
    Entry(s.Class_(c), s.Counts(c))
  }

  /** The reconciler after some passes. */
  function After(o: Options, s: AdaptiveState, inputs: seq<Quad<WindowStats>>): AdaptiveState
    requires o.Valid()
  {
    if inputs == [] then s
    else Stepped(o, After(o, s, inputs[..|inputs| - 1]), inputs[|inputs| - 1]).0
  }

  /** One pass, seen by one class. */
  function StepOne(o: Options, c: Class, e: Entry, st: WindowStats): Entry
    requires o.Valid()
  {
    var s := Applied(o, AdaptiveState(map[c := e.cs], map[c := e.counts]), c, st);
    EntryOf(s, c)
  }

  /** The windows of one class over a run. */
  function Windows(inputs: seq<Quad<WindowStats>>, c: Managed): (w: seq<WindowStats>)
    ensures |w| == |inputs|
  {
    seq(|inputs|, i requires 0 <= i < |inputs| => inputs[i].At(c))
  }

  lemma WindowsOfFront(inputs: seq<Quad<WindowStats>>, c: Managed)
    requires inputs != []
    ensures var n := |inputs| - 1;
      Windows(inputs, c)[..n] == Windows(inputs[..n], c) && Windows(inputs, c)[n] == inputs[n].At(c)
  {
  }

  function Alone(o: Options, c: Class, e: Entry, ws: seq<WindowStats>): Entry
    requires o.Valid()
  {
    if ws == [] then e
    else StepOne(o, c, Alone(o, c, e, ws[..|ws| - 1]), ws[|ws| - 1])
  }

  // ----------------------------------------------------- classes do not interact

  lemma AppliedElsewhere(o: Options, s: AdaptiveState, c: Class, st: WindowStats, d: Class)
    requires o.Valid()
    ensures EntryOf(Applied(o, s, c, st), d) == if d == c then StepOne(o, c, EntryOf(s, c), st) else EntryOf(s, d)
  {
    hide Decide, Choose;
  }

  lemma {:induction false} PassPerClass(o: Options, s: AdaptiveState, cs: seq<Managed>, stats: Quad<WindowStats>,
                                        d: Managed)
    requires o.Valid()
    requires forall i, j :: 0 <= i < j < |cs| ==> cs[i] != cs[j]
    ensures EntryOf(Pass(o, s, cs, stats).0, d)
         == if d in cs then StepOne(o, d, EntryOf(s, d), stats.At(d)) else EntryOf(s, d)
    ensures |Pass(o, s, cs, stats).1| == |cs|
    ensures forall i :: 0 <= i < |cs| ==>
      Pass(o, s, cs, stats).1[i] == Decide(o, cs[i], s.Class_(cs[i]), stats.At(cs[i]))
  {
    hide Applied, Decide, StepOne;
    if cs != [] {
      var n := |cs| - 1;
      PassPerClass(o, s, cs[..n], stats, d);
      PassPerClass(o, s, cs[..n], stats, cs[n]);
      AppliedElsewhere(o, Pass(o, s, cs[..n], stats).0, cs[n], stats.At(cs[n]), d);
    }
  }

  lemma SteppedPerClass(o: Options, s: AdaptiveState, stats: Quad<WindowStats>, c: Managed)
    requires o.Valid()
    ensures EntryOf(Stepped(o, s, stats).0, c) == StepOne(o, c, EntryOf(s, c), stats.At(c))
  {
    hide StepOne, Pass, EntryOf;
    PassPerClass(o, s, MANAGED, stats, c);
    assert MANAGED[Position(c)] == c;
  }

  /** Each class drifts as if it were alone, whatever the other windows show. */
  lemma {:induction false} ClassesDriftAlone(o: Options, s: AdaptiveState, inputs: seq<Quad<WindowStats>>, c: Managed)
    requires o.Valid()
    ensures EntryOf(After(o, s, inputs), c) == Alone(o, c, EntryOf(s, c), Windows(inputs, c))
  {
    if inputs != [] {
      hide StepOne, Stepped, EntryOf, Windows;
      var n := |inputs| - 1;
      ClassesDriftAlone(o, s, inputs[..n], c);
      SteppedPerClass(o, After(o, s, inputs[..n]), inputs[n], c);
      WindowsOfFront(inputs, c);
    }
  }

  // ----------------------------------------------------------------- invariants

  /** A whole-degree target inside the drift bounds. */
  predicate InBounds(env: Envelope, cs: ClassState) {
    && cs.target == cs.Target() as real
    && env.preferredLow <= cs.Target() <= env.maxSafe - 1
  }

  /** A whole-degree deadband between the mode's default and the cap. */
  predicate DeadbandInRange(o: Options, env: Envelope, cs: ClassState) {
    && cs.deadband == cs.Deadband() as real
    && InitialTarget(env, o.mode).1 <= cs.Deadband() <= o.maxDeadbandC
  }

  lemma ModeTargetInBounds(env: Envelope, m: Mode)
    requires env.Valid()
    ensures env.preferredLow <= InitialTarget(env, m).0 <= env.maxSafe - 1
  {
  }

  lemma StepKeepsBounds(o: Options, c: Class, e: Entry, st: WindowStats)
    requires o.Valid() && o.HasEnvelope(c) && InBounds(o.envelopes[c], e.cs)
    ensures InBounds(o.envelopes[c], StepOne(o, c, e, st).cs)
    ensures o.maxDeadbandC >= InitialTarget(o.envelopes[c], o.mode).1 && DeadbandInRange(o, o.envelopes[c], e.cs)
        ==> DeadbandInRange(o, o.envelopes[c], StepOne(o, c, e, st).cs)
  {
    hide Choose, RoundHalfAway;
    var a := Decide(o, c, e.cs, st);
    WholeRounds(a.newTarget);
    WholeRounds(a.newDeadband);
    ModeTargetInBounds(o.envelopes[c], o.mode);
  }

  /** Over every run, targets and deadbands stay in their ranges. */
  lemma {:induction false} RunKeepsBounds(o: Options, c: Class, e: Entry, ws: seq<WindowStats>)
    requires o.Valid() && o.HasEnvelope(c) && InBounds(o.envelopes[c], e.cs)
    ensures InBounds(o.envelopes[c], Alone(o, c, e, ws).cs)
    ensures o.maxDeadbandC >= InitialTarget(o.envelopes[c], o.mode).1 && DeadbandInRange(o, o.envelopes[c], e.cs)
        ==> DeadbandInRange(o, o.envelopes[c], Alone(o, c, e, ws).cs)
  {
    hide InBounds, DeadbandInRange, StepOne;
    if ws != [] {
      RunKeepsBounds(o, c, e, ws[..|ws| - 1]);
      StepKeepsBounds(o, c, Alone(o, c, e, ws[..|ws| - 1]), ws[|ws| - 1]);
    }
  }

  /** A fresh reconciler starts inside both ranges for every class it manages. */
  lemma FreshStartIsInBounds(o: Options, c: Managed)
    requires o.Valid() && o.HasEnvelope(c)
    ensures var e := EntryOf(Initial(o, None), c);
      && InBounds(o.envelopes[c], e.cs)
      && (o.maxDeadbandC >= InitialTarget(o.envelopes[c], o.mode).1 ==> DeadbandInRange(o, o.envelopes[c], e.cs))
      && e.counts == NO_COUNTS
  {
    hide RoundHalfAway;
    WholeRounds(InitialTarget(o.envelopes[c], o.mode).0);
    WholeRounds(InitialTarget(o.envelopes[c], o.mode).1);
    ModeTargetInBounds(o.envelopes[c], o.mode);
  }

  /** A deadband cap below the mode's own deadband breaks the lower bound. */
  lemma SmallCapBreaksDeadband(o: Options, c: Class, e: Entry, st: WindowStats)
    requires o.Valid() && o.HasEnvelope(c) && c !in o.overrides
    requires !o.WarmingUp(st) && st.tempStdDev <= o.varianceReset
    ensures InitialTarget(o.envelopes[c], o.mode).1 <= StepOne(o, c, e, st).cs.Deadband()
       <==> o.maxDeadbandC >= InitialTarget(o.envelopes[c], o.mode).1
  {
    hide Choose, RoundHalfAway;
    WholeRounds(Decide(o, c, e.cs, st).newDeadband);
  }

  // --------------------------------------------------------------- conservation

  /** The number of passes up to and including the latest variance reset. */
  function LastReset(o: Options, c: Class, e: Entry, ws: seq<WindowStats>): (k: nat)
    requires o.Valid()
    ensures k <= |ws|
  {
    if ws == [] then 0
    else
      var n := |ws| - 1;
      if Decide(o, c, Alone(o, c, e, ws[..n]).cs, ws[n]).reason == VarianceReset then |ws|
      else LastReset(o, c, e, ws[..n])
  }

  /** The net of the counted moves. */
  function Net(k: Counters): int { k.up - k.down }

  /** What one reason adds to the net. */
  function Worth(r: DriftReason): int {
    if r == DriftUp then 1 else if r == DriftDown then -1 else 0
  }

  predicate InRange(env: Envelope, t: int) { env.preferredLow <= t <= env.maxSafe - 1 }

  /** A step called bounded leaves the target where it was. */
  ghost predicate BoundedStays(env: Envelope, rate: int) {
    forall t, delta ::
      && InRange(env, t) && delta in {-rate, 0, rate}
      && Bounded(env, t, delta).1 in {BoundedHigh, BoundedLow}
      ==> Bounded(env, t, delta).0 == t
  }

  /** Every step moves the target by what its reason counts. */
  ghost predicate StepsAreCounted(env: Envelope, rate: int) {
    forall t, delta :: InRange(env, t) && delta in {-rate, 0, rate}
      ==> Bounded(env, t, delta).0 - t == Worth(Bounded(env, t, delta).1)
  }

  /** One degree per pass, or a drift range of a single degree. */
  predicate SingleSteps(env: Envelope, rate: int) {
    rate == 1 || env.preferredLow == env.maxSafe - 1
  }

  /** Both readings of the counters are right for exactly the same rates. */
  lemma CountersAreExactIff(env: Envelope, rate: int)
    requires env.Valid() && rate >= 1
    ensures BoundedStays(env, rate) <==> SingleSteps(env, rate)
    ensures StepsAreCounted(env, rate) <==> SingleSteps(env, rate)
  {
    if !SingleSteps(env, rate) {
      assert Bounded(env, env.maxSafe - 2, rate) == (env.maxSafe - 1, BoundedHigh);
      assert InRange(env, env.maxSafe - 2);
    }
  }

  /** Over all envelopes: at one degree per pass and at no other rate. */
  lemma OnlyRateOneIsExact(rate: int)
    requires rate >= 1
    ensures (forall env: Envelope :: env.Valid() ==> BoundedStays(env, rate)) <==> rate == 1
    ensures (forall env: Envelope :: env.Valid() ==> StepsAreCounted(env, rate)) <==> rate == 1
  {
    hide BoundedStays, StepsAreCounted;
    forall env: Envelope | env.Valid()
      ensures BoundedStays(env, rate) <==> SingleSteps(env, rate)
      ensures StepsAreCounted(env, rate) <==> SingleSteps(env, rate)
    {
      CountersAreExactIff(env, rate);
    }
    assert Envelope(0, 1, 1, 1, 3, 4).Valid() && !SingleSteps(Envelope(0, 1, 1, 1, 3, 4), 2);
  }

  /** A judged pass, in terms of the drift its scores ask for. */
  lemma JudgedStep(o: Options, c: Class, e: Entry, st: WindowStats)
    requires o.Valid() && c in o.envelopes && c !in o.overrides && !o.WarmingUp(st) && st.tempStdDev <= o.varianceReset
    ensures var r := Bounded(o.envelopes[c], e.cs.Target(), Choose(o.mode, o.envelopes[c], st, o.driftRate));
      && Decide(o, c, e.cs, st).reason == r.1
      && StepOne(o, c, e, st).cs.Target() == r.0
      && StepOne(o, c, e, st).counts == Counted(e.counts, r.1)
  {
    hide RoundHalfAway, Choose, DesiredDeadband, Bounded, Options.WarmingUp;
    WholeRounds(Decide(o, c, e.cs, st).newTarget);
  }

  /** Where steps are single, a pass moves the target by exactly what it counts. */
  lemma StepConserves(o: Options, c: Class, e: Entry, st: WindowStats)
    requires o.Valid() && o.HasEnvelope(c) && InBounds(o.envelopes[c], e.cs)
    requires SingleSteps(o.envelopes[c], o.driftRate)
    ensures var a, e' := Decide(o, c, e.cs, st), StepOne(o, c, e, st);
      && (a.reason == VarianceReset ==>
            e'.cs.Target() == InitialTarget(o.envelopes[c], o.mode).0 && Net(e'.counts) == Net(e.counts))
      && (a.reason != VarianceReset ==>
            e'.cs.Target() - e.cs.Target() == Net(e'.counts) - Net(e.counts))
      && (a.reason in {BoundedHigh, BoundedLow} ==> e'.cs.Target() == e.cs.Target())
  {
    hide RoundHalfAway, Choose, DesiredDeadband;
    var env := o.envelopes[c];
    if c !in o.overrides && !o.WarmingUp(st) && st.tempStdDev <= o.varianceReset {
      hide Decide, StepOne, Options.WarmingUp, Bounded, SingleSteps;
      JudgedStep(o, c, e, st);
      CountersAreExactIff(env, o.driftRate);
      ChooseIsAStep(o.mode, env, st, o.driftRate);
    } else {
      WholeRounds(Decide(o, c, e.cs, st).newTarget);
    }
  }

  lemma ChooseIsAStep(m: Mode, env: Envelope, st: WindowStats, rate: int)
    ensures Choose(m, env, st, rate) in {-rate, 0, rate}
  {
    hide Score;
  }

  /** The target is where it was at the latest variance reset (or at the start),
      plus the "up" and minus the "down" counts since. */
  predicate Conserved(o: Options, c: Class, e: Entry, ws: seq<WindowStats>)
    requires o.Valid() && o.HasEnvelope(c)
  {
    var k := LastReset(o, c, e, ws);
    var base, end := Alone(o, c, e, ws[..k]), Alone(o, c, e, ws);
    && (k > 0 ==> base.cs.Target() == InitialTarget(o.envelopes[c], o.mode).0)
    && end.cs.Target() == base.cs.Target() + Net(end.counts) - Net(base.counts)
  }

  lemma {:induction false} TargetIsConserved(o: Options, c: Class, e: Entry, ws: seq<WindowStats>)
    requires o.Valid() && o.HasEnvelope(c) && InBounds(o.envelopes[c], e.cs)
    requires SingleSteps(o.envelopes[c], o.driftRate)
    ensures Conserved(o, c, e, ws)
  {
    hide StepOne, Decide, InBounds, ClassState.Target, SingleSteps;
    if ws == [] {
      assert ws[..0] == ws;
    } else {
      var n := |ws| - 1;
      var front := Alone(o, c, e, ws[..n]);
      TargetIsConserved(o, c, e, ws[..n]);
      RunKeepsBounds(o, c, e, ws[..n]);
      StepConserves(o, c, front, ws[n]);
      var k := LastReset(o, c, e, ws);
      if k == |ws| {
        assert ws[..k] == ws;
      } else {
        assert ws[..n][..k] == ws[..k];
      }
    }
  }

  /** Every run from every in-bounds start. */
  ghost predicate AlwaysConserved(o: Options, c: Class)
    requires o.Valid() && o.HasEnvelope(c)
  {
    forall e: Entry, ws: seq<WindowStats> :: InBounds(o.envelopes[c], e.cs) ==> Conserved(o, c, e, ws)
  }

  /** Conservation holds of a class that can drift exactly where steps are single. */
  lemma ConservedIffSingleSteps(o: Options, c: Class)
    requires o.Valid() && o.HasEnvelope(c) && c !in o.overrides
    ensures AlwaysConserved(o, c) <==> SingleSteps(o.envelopes[c], o.driftRate)
  {
    hide Conserved, InBounds, SingleSteps;
    if SingleSteps(o.envelopes[c], o.driftRate) {
      forall e: Entry, ws: seq<WindowStats> | InBounds(o.envelopes[c], e.cs)
        ensures Conserved(o, c, e, ws)
      {
        TargetIsConserved(o, c, e, ws);
      }
    } else {
      var n := EnoughSamples(o);
      var e, t := BelowCeiling(o.envelopes[c]), (o.envelopes[c].preferredLow - o.driftRate) as real;
      var st := WindowStats(t, 0.0, t, t, t, 100.0, 100.0, 0.0, 0.0, 0.0, n);
      FasterDriftLosesCount(o, c, st);
      assert !Conserved(o, c, e, [st]);
    }
  }

  lemma EnoughSamples(o: Options) returns (n: nat)
    requires o.Valid()
    ensures n as real / o.windowSize as real >= o.minFill
  {
    n := Max(0, Ceiling(o.minFill * o.windowSize as real));
    Share(n as real, o.windowSize as real, o.minFill);
  }

  lemma Share(x: real, w: real, m: real)
    requires w > 0.0 && x >= m * w
    ensures x / w >= m
  {
    var q := x / w;
    assert q * w == x;
    if q < m {
      MulStrict(w, q, m);
      assert q * w < m * w;
    }
  }

  /** One degree below the ceiling, nothing counted. */
  function BelowCeiling(env: Envelope): Entry {
    Entry(ClassState((env.maxSafe - 2) as real, 0.0, 0), NO_COUNTS)
  }

  /** A steady window at full fan, one drift step below the preferred band. */
  predicate AtFullFan(env: Envelope, rate: int, st: WindowStats) {
    && st.tempMean == (env.preferredLow - rate) as real && st.tempStdDev == 0.0
    && st.fanChangeRate == 0.0 && st.fanDemandP90 == 100.0
  }

  /** Where steps are not single, one pass loses a degree: it stops short at the
      ceiling, counts nothing, and the target has moved. */
  lemma LosingStep(o: Options, c: Class, st: WindowStats)
    requires o.Valid() && o.HasEnvelope(c) && c !in o.overrides && !SingleSteps(o.envelopes[c], o.driftRate)
    requires AtFullFan(o.envelopes[c], o.driftRate, st) && !o.WarmingUp(st)
    ensures var e := BelowCeiling(o.envelopes[c]);
      && InBounds(o.envelopes[c], e.cs)
      && Decide(o, c, e.cs, st).reason == BoundedHigh
      && Net(StepOne(o, c, e, st).counts) == Net(e.counts)
      && StepOne(o, c, e, st).cs.Target() == e.cs.Target() + 1
  {
    hide Choose, Decide, StepOne, Options.WarmingUp, AtFullFan, BelowCeiling, InBounds, Bounded, Counted, Net;
    hide SingleSteps, ClassState.Target;
    var env := o.envelopes[c];
    FullFanDrift(o, c, st);
    JudgedStep(o, c, BelowCeiling(env), st);
    StopsShort(env, o.driftRate);
  }

  lemma FullFanDrift(o: Options, c: Class, st: WindowStats)
    requires o.Valid() && o.HasEnvelope(c)
    requires AtFullFan(o.envelopes[c], o.driftRate, st)
    ensures Choose(o.mode, o.envelopes[c], st, o.driftRate) == o.driftRate
    ensures st.tempStdDev <= o.varianceReset && c in o.envelopes && o.envelopes[c].Valid()
  {
    hide Choose;
    FullFanClimbs(o.mode, o.envelopes[c], st, o.driftRate);
  }

  lemma StopsShort(env: Envelope, rate: int)
    requires env.Valid() && rate >= 1
    ensures !SingleSteps(env, rate) ==>
      && InBounds(env, BelowCeiling(env).cs)
      && Bounded(env, BelowCeiling(env).cs.Target(), rate) == (BelowCeiling(env).cs.Target() + 1, BoundedHigh)
    ensures forall k: Counters :: Net(Counted(k, BoundedHigh)) == Net(k)
  {
    WholeRounds(env.maxSafe - 2);
  }

  lemma FasterDriftLosesCount(o: Options, c: Class, st: WindowStats)
    requires o.Valid() && o.HasEnvelope(c) && c !in o.overrides && !SingleSteps(o.envelopes[c], o.driftRate)
    requires AtFullFan(o.envelopes[c], o.driftRate, st) && !o.WarmingUp(st)
    ensures InBounds(o.envelopes[c], BelowCeiling(o.envelopes[c]).cs)
    ensures !Conserved(o, c, BelowCeiling(o.envelopes[c]), [st])
  {
    hide Decide, StepOne, InBounds, ClassState.Target, AtFullFan, SingleSteps, BelowCeiling;
    LosingStep(o, c, st);
    var e := BelowCeiling(o.envelopes[c]);
    assert [st][..0] == [];
    assert Alone(o, c, e, []) == e && LastReset(o, c, e, []) == 0;
    assert Alone(o, c, e, [st]) == StepOne(o, c, e, st) && LastReset(o, c, e, [st]) == 0;
  }

  /** ... and a real buffer does it: one held at that temperature at full fan. */
  lemma FullFanBufferLosesCount(o: Options, c: Class, sqrt: real -> real)
    requires o.Valid() && o.HasEnvelope(c) && c !in o.overrides && !SingleSteps(o.envelopes[c], o.driftRate)
    requires IsSqrt(sqrt) && o.minFill <= 1.0
    ensures var t := (o.envelopes[c].preferredLow - o.driftRate) as real;
      var st := StatsOf(SteadyBuffer(o.windowSize, t, 100), sqrt);
      InBounds(o.envelopes[c], BelowCeiling(o.envelopes[c]).cs) && !Conserved(o, c, BelowCeiling(o.envelopes[c]), [st])
  {
    hide StatsOf, Conserved, InBounds, SingleSteps, BelowCeiling;
    var t := (o.envelopes[c].preferredLow - o.driftRate) as real;
    SteadyWindow(o.windowSize, t, 100, sqrt);
    assert o.windowSize as real / o.windowSize as real == 1.0;
    FasterDriftLosesCount(o, c, StatsOf(SteadyBuffer(o.windowSize, t, 100), sqrt));
  }

  /** At full fan below the band every mode asks for a warmer target, whatever
      the rate. */
  lemma FullFanClimbs(m: Mode, env: Envelope, st: WindowStats, rate: int)
    requires env.Valid() && rate >= 1 && AtFullFan(env, rate, st)
    ensures Choose(m, env, st, rate) == rate
  {
    hide Times, SaturationPenalty;
    TimesZero(0.0);
    SquareSign(0.3 * rate as real);
    PenaltyAtFull(MaxReal(0.0, 100.0 - 5.0 * rate as real));
  }

  lemma PenaltyAtFull(relieved: real)
    requires relieved <= 95.0
    ensures SaturationPenalty(100.0) == 100.0 && 0.0 <= SaturationPenalty(relieved) <= 25.0
  {
    hide SaturationPenalty, Times;
    PenaltyIsSquare(100.0);
    PenaltyIsSquare(relieved);
    SquareGap(5.0, MaxReal(0.0, relieved - 90.0));
    SquareSign(MaxReal(0.0, relieved - 90.0));
    SquareValues();
  }

  lemma SquareValues()
    ensures Times(10.0, 10.0) == 100.0 && Times(5.0, 5.0) == 25.0
  {
  }

  /** What the reason of a judged pass says about its target: a drift moved it by
      the whole rate, a bounded pass was asked past the end it now stands at, a
      settled one was asked nothing and moved nothing. */
  lemma ReasonsTellTruth(o: Options, c: Class, e: Entry, st: WindowStats)
    requires o.Valid() && o.HasEnvelope(c) && c !in o.overrides && !o.WarmingUp(st) && st.tempStdDev <= o.varianceReset
    requires InRange(o.envelopes[c], e.cs.Target())
    ensures var env, delta := o.envelopes[c], Choose(o.mode, o.envelopes[c], st, o.driftRate);
      var a, t, t' := Decide(o, c, e.cs, st), e.cs.Target(), StepOne(o, c, e, st).cs.Target();
      && a.oldTarget == t && a.oldDeadband == e.cs.Deadband() && a.newTarget == t'
      && (a.reason == DriftUp <==> delta > 0 && t + delta <= env.maxSafe - 1)
      && (a.reason == DriftDown <==> delta < 0 && t + delta >= env.preferredLow)
      && (a.reason == BoundedHigh <==> delta > 0 && t + delta > env.maxSafe - 1)
      && (a.reason == BoundedLow <==> delta < 0 && t + delta < env.preferredLow)
      && (a.reason == Settled <==> delta == 0)
      && (a.reason in {DriftUp, DriftDown, Settled} ==> t' == t + delta)
      && (a.reason == BoundedHigh ==> t' == env.maxSafe - 1)
      && (a.reason == BoundedLow ==> t' == env.preferredLow)
  {
    hide Choose, RoundHalfAway, DesiredDeadband, Options.WarmingUp;
    WholeRounds(Decide(o, c, e.cs, st).newTarget);
  }

  /** A class that is not judged is left as it is, and its action says so. */
  lemma UnjudgedIsLeft(o: Options, c: Class, e: Entry, st: WindowStats)
    requires o.Valid() && (c !in o.envelopes || c in o.overrides || o.WarmingUp(st))
    ensures var a := Decide(o, c, e.cs, st);
      && StepOne(o, c, e, st) == e
      && a.oldTarget == a.newTarget == e.cs.Target() && a.oldDeadband == a.newDeadband == e.cs.Deadband()
      && (a.reason == Error <==> c !in o.envelopes)
      && (a.reason == Skipped <==> c in o.envelopes && c in o.overrides)
  {
    hide Options.WarmingUp, RoundHalfAway;
  }

  // ------------------------------------------------------ runs of one direction

  /** A full, steady window, which the reconciler judges. */
  predicate Judged(o: Options, st: WindowStats)
    requires o.Valid()
  {
    !o.WarmingUp(st) && st.tempStdDev <= o.varianceReset
  }

  /** Every window of the run is judged and asks for a drift of `delta`. */
  predicate AllChoose(o: Options, env: Envelope, ws: seq<WindowStats>, delta: int)
    requires o.Valid()
  {
    forall i :: 0 <= i < |ws| ==> Judged(o, ws[i]) && Choose(o.mode, env, ws[i], o.driftRate) == delta
  }

  /** Windows that all ask for warmer climb one degree per pass to the ceiling,
      and count no downward move. */
  lemma {:induction false} ClimbingRun(o: Options, c: Class, e: Entry, ws: seq<WindowStats>)
    requires o.Valid() && o.HasEnvelope(c) && c !in o.overrides && InBounds(o.envelopes[c], e.cs)
    requires AllChoose(o, o.envelopes[c], ws, 1)
    ensures Alone(o, c, e, ws).cs.Target() == Min(o.envelopes[c].maxSafe - 1, e.cs.Target() + |ws|)
    ensures Alone(o, c, e, ws).counts.down == e.counts.down
  {
    hide StepOne, Choose, Options.WarmingUp, ClassState.Target;
    if ws != [] {
      var n := |ws| - 1;
      ClimbingRun(o, c, e, ws[..n]);
      RunKeepsBounds(o, c, e, ws[..n]);
      JudgedStep(o, c, Alone(o, c, e, ws[..n]), ws[n]);
    }
  }

  /** Windows that all ask for cooler descend one degree per pass to the bottom of
      the band, and count no upward move. */
  lemma {:induction false} DescendingRun(o: Options, c: Class, e: Entry, ws: seq<WindowStats>)
    requires o.Valid() && o.HasEnvelope(c) && c !in o.overrides && InBounds(o.envelopes[c], e.cs)
    requires AllChoose(o, o.envelopes[c], ws, -1)
    ensures Alone(o, c, e, ws).cs.Target() == Max(o.envelopes[c].preferredLow, e.cs.Target() - |ws|)
    ensures Alone(o, c, e, ws).counts.up == e.counts.up
  {
    hide StepOne, Choose, Options.WarmingUp, ClassState.Target;
    if ws != [] {
      var n := |ws| - 1;
      DescendingRun(o, c, e, ws[..n]);
      RunKeepsBounds(o, c, e, ws[..n]);
      JudgedStep(o, c, Alone(o, c, e, ws[..n]), ws[n]);
    }
  }

  /** A judged window whose fan was pinned. */
  predicate Pinned(o: Options, st: WindowStats)
    requires o.Valid()
  {
    Plausible(st) && st.fanDemandP90 > 91.0 && Judged(o, st)
  }

  /** A run of pinned windows climbs one degree per pass to the ceiling, in any
      mode, and counts no downward move. */
  lemma PinnedRunClimbs(o: Options, c: Class, e: Entry, ws: seq<WindowStats>)
    requires o.Valid() && o.driftRate == 1 && o.HasEnvelope(c) && c !in o.overrides
    requires InBounds(o.envelopes[c], e.cs)
    requires forall i :: 0 <= i < |ws| ==> Pinned(o, ws[i])
    ensures Alone(o, c, e, ws).cs.Target() == Min(o.envelopes[c].maxSafe - 1, e.cs.Target() + |ws|)
    ensures Alone(o, c, e, ws).counts.down == e.counts.down
  {
    hide Choose, Alone, Judged, InBounds;
    forall i | 0 <= i < |ws|
      ensures Judged(o, ws[i]) && Choose(o.mode, o.envelopes[c], ws[i], o.driftRate) == 1
    {
      SaturationAlwaysWins(o.mode, o.envelopes[c], ws[i]);
    }
    ClimbingRun(o, c, e, ws);
  }

  /** A judged window with the fan low and the class above its band. */
  predicate Reclaimable(o: Options, env: Envelope, st: WindowStats)
    requires o.Valid()
  {
    && Plausible(st) && Judged(o, st)
    && st.fanDemandP90 <= 85.0 && st.tempMean >= env.preferredHigh as real + 1.0
  }

  /** A run of such windows gives back one degree per pass down to the bottom of
      the band, in both quiet modes, and counts no upward move.  The bound on the
      variance reset is met by its default of 5. */
  lemma ReclaimingRunDescends(o: Options, c: Class, e: Entry, ws: seq<WindowStats>)
    requires o.Valid() && o.driftRate == 1 && o.HasEnvelope(c) && c !in o.overrides
    requires (o.mode == MinNoise || o.mode == Eco) && 60.0 * o.varianceReset < 791.0
    requires InBounds(o.envelopes[c], e.cs)
    requires forall i :: 0 <= i < |ws| ==> Reclaimable(o, o.envelopes[c], ws[i])
    ensures Alone(o, c, e, ws).cs.Target() == Max(o.envelopes[c].preferredLow, e.cs.Target() - |ws|)
    ensures Alone(o, c, e, ws).counts.up == e.counts.up
  {
    hide Choose, Alone, InBounds, Options.WarmingUp;
    forall i | 0 <= i < |ws|
      ensures Judged(o, ws[i]) && Choose(o.mode, o.envelopes[c], ws[i], o.driftRate) == -1
    {
      QuietModesReclaim(o.mode, o.envelopes[c], ws[i]);
    }
    DescendingRun(o, c, e, ws);
  }

  /** The default mode never calls a class settled above its band: a run of calm
      windows more than 0.177 degrees above it gives back one degree per pass. */
  lemma BalancedRunDescends(o: Options, c: Class, e: Entry, ws: seq<WindowStats>)
    requires o.Valid() && o.driftRate == 1 && o.HasEnvelope(c) && c !in o.overrides && o.mode == Balanced
    requires InBounds(o.envelopes[c], e.cs) && o.envelopes[c].preferredLow < o.envelopes[c].preferredHigh
    requires forall i :: 0 <= i < |ws| ==>
      Calm(ws[i]) && !o.WarmingUp(ws[i]) && ws[i].tempMean > o.envelopes[c].preferredHigh as real + 0.177
    ensures Alone(o, c, e, ws).cs.Target() == Max(o.envelopes[c].preferredLow, e.cs.Target() - |ws|)
    ensures Alone(o, c, e, ws).counts.up == e.counts.up
  {
    hide Choose, Alone, InBounds, Options.WarmingUp;
    forall i | 0 <= i < |ws|
      ensures Judged(o, ws[i]) && Choose(o.mode, o.envelopes[c], ws[i], o.driftRate) == -1
    {
      CalmBalanced(o.envelopes[c], ws[i]);
    }
    DescendingRun(o, c, e, ws);
  }

  /** The bound on the variance reset is exact: above it some window that the
      reconciler judges is not reclaimed. */
  lemma ReclaimNeedsReset(o: Options, env: Envelope)
    requires o.Valid() && env.Valid() && (o.mode == MinNoise || o.mode == Eco)
    ensures (forall st: WindowStats :: Reclaimable(o, env, st) ==> Choose(o.mode, env, st, 1) == -1)
       <==> 60.0 * o.varianceReset < 791.0
  {
    hide Choose;
    forall st: WindowStats | Reclaimable(o, env, st)
      ensures Choose(o.mode, env, st, 1) == -1 <==> 60.0 * st.tempStdDev < 791.0
    {
      QuietModesReclaim(o.mode, env, st);
    }
    if 60.0 * o.varianceReset >= 791.0 {
      var n := EnoughSamples(o);
      var t, sd := (env.preferredHigh + 1) as real, o.varianceReset;
      var st := WindowStats(t, sd, t - sd, t + sd, t + sd, 50.0, 50.0, 0.0, 0.0, 0.0, n);
      assert Reclaimable(o, env, st);
    }
  }

  // ----------------------------------------------------------- the deadband's size

  /** The deadband asked for covers one and a half spreads, is at least the
      mode's own and no larger than it must be, all unless the cap cuts it off;
      and a larger spread never asks for less. */
  lemma DeadbandCoversSpread(o: Options, env: Envelope, st: WindowStats, wider: WindowStats)
    requires o.Valid() && st.tempStdDev <= wider.tempStdDev
    ensures var d, own := DesiredDeadband(o, env, st), InitialTarget(env, o.mode).1;
      && d <= o.maxDeadbandC
      && (d == o.maxDeadbandC || (d >= own && d as real >= 1.5 * st.tempStdDev))
      && (d == own || d == o.maxDeadbandC || (d - 1) as real < 1.5 * st.tempStdDev)
      && d <= DesiredDeadband(o, env, wider)
  {
  }

  /** One outlier resets: a full window with a sample further than sqrt(n) times
      the variance reset from its mean goes back to the mode's own target. */
  lemma JumpyWindowResets(o: Options, c: Class, cs: ClassState, buf: seq<Sample>, sqrt: real -> real, i: nat)
    requires o.Valid() && c in o.envelopes && c !in o.overrides && IsSqrt(sqrt) && i < |buf|
    requires !o.WarmingUp(StatsOf(buf, sqrt))
    requires var away := buf[i].tempCelsius - StatsOf(buf, sqrt).tempMean;
      Times(away, away) > Times(|buf| as real, Times(o.varianceReset, o.varianceReset))
    ensures var a := Decide(o, c, cs, StatsOf(buf, sqrt));
      a.reason == VarianceReset && (a.newTarget, a.newDeadband) == InitialTarget(o.envelopes[c], o.mode)
  {
    hide StatsOf, IsSqrt, Times, Options.WarmingUp, InitialTarget, RoundHalfAway;
    OutlierForcesSpread(buf, sqrt, i);
    StatsAreMoments(buf, sqrt);
    SpreadExceeds(|buf| as real, StatsOf(buf, sqrt).tempStdDev, o.varianceReset);
  }

  // ------------------------------------------------------------------- counters

  /** How many passes of a run ended with reason `r`. */
  function PassesWith(o: Options, c: Class, e: Entry, ws: seq<WindowStats>, r: DriftReason): nat
    requires o.Valid()
  {
    if ws == [] then 0
    else
      var n := |ws| - 1;
      PassesWith(o, c, e, ws[..n], r)
        + if Decide(o, c, Alone(o, c, e, ws[..n]).cs, ws[n]).reason == r then 1 else 0
  }

  /** Each counter counts the passes with its own reason, and no others. */
  lemma {:induction false} CountersCountReasons(o: Options, c: Class, e: Entry, ws: seq<WindowStats>)
    requires o.Valid()
    ensures var before, after := e.counts, Alone(o, c, e, ws).counts;
      && after.up == before.up + PassesWith(o, c, e, ws, DriftUp)
      && after.down == before.down + PassesWith(o, c, e, ws, DriftDown)
      && after.boundedHigh == before.boundedHigh + PassesWith(o, c, e, ws, BoundedHigh)
      && after.boundedLow == before.boundedLow + PassesWith(o, c, e, ws, BoundedLow)
      && after.resets == before.resets + PassesWith(o, c, e, ws, VarianceReset)
  {
    hide Decide, StepOne;
    if ws != [] {
      var n := |ws| - 1;
      CountersCountReasons(o, c, e, ws[..n]);
      CountedByReason(o, c, Alone(o, c, e, ws[..n]), ws[n]);
    }
  }

  lemma CountedByReason(o: Options, c: Class, e: Entry, st: WindowStats)
    requires o.Valid()
    ensures StepOne(o, c, e, st).counts == Counted(e.counts, Decide(o, c, e.cs, st).reason)
  {
    hide Choose, RoundHalfAway, DesiredDeadband, Options.WarmingUp;
  }

  // ------------------------------------------------------------ the last direction

  /** The pass sets the direction last moved in: a judged one that was asked to
      move, or a reset, which clears it. */
  predicate Directs(o: Options, c: Class, st: WindowStats)
    requires o.Valid()
  {
    && c in o.envelopes && c !in o.overrides && !o.WarmingUp(st)
    && (st.tempStdDev > o.varianceReset || Choose(o.mode, o.envelopes[c], st, o.driftRate) != 0)
  }

  function Direction(o: Options, c: Class, st: WindowStats): int
    requires o.Valid() && Directs(o, c, st)
  {
    if st.tempStdDev > o.varianceReset then 0 else Choose(o.mode, o.envelopes[c], st, o.driftRate)
  }

  /** The latest pass of a run that set a direction is the one remembered. */
  lemma {:induction false} LatestDirectionIsKept(o: Options, c: Class, e: Entry, ws: seq<WindowStats>, k: nat)
    requires o.Valid() && k <= |ws|
    requires forall j :: k <= j < |ws| ==> !Directs(o, c, ws[j])
    requires k > 0 ==> Directs(o, c, ws[k - 1])
    ensures Alone(o, c, e, ws).cs.lastChange == if k > 0 then Direction(o, c, ws[k - 1]) else e.cs.lastChange
  {
    hide Directs, StepOne;
    if ws != [] {
      var n := |ws| - 1;
      DirectionOfStep(o, c, Alone(o, c, e, ws[..n]), ws[n]);
      if k <= n {
        LatestDirectionIsKept(o, c, e, ws[..n], k);
      }
    }
  }

  lemma DirectionOfStep(o: Options, c: Class, e: Entry, st: WindowStats)
    requires o.Valid()
    ensures StepOne(o, c, e, st).cs.lastChange == if Directs(o, c, st) then Direction(o, c, st) else e.cs.lastChange
  {
    hide Choose, RoundHalfAway, DesiredDeadband, Options.WarmingUp;
  }

  // -------------------------------------------------------------------- restarts

  /** Options that are set are kept; the defaults that fill the others leave every
      mode its own deadband and the quiet modes their way down. */
  lemma DefaultsFillTheUnset(o: Options, env: Envelope)
    ensures o.Valid() ==> o.Normalized() == o
    ensures o.Normalized().Normalized() == o.Normalized()
    ensures o.maxDeadbandC <= 0 ==> o.Normalized().maxDeadbandC > InitialTarget(env, o.mode).1
    ensures o.varianceReset <= 0.0 ==> 60.0 * o.Normalized().varianceReset < 791.0
  {
  }

  /** A restart in the same mode resumes every saved class; in another mode, or
      without a saved state, every class starts from the mode's own target. */
  lemma RestartResumesSameMode(o: Options, saved: AdaptiveState, m: Mode, c: Managed)
    requires o.Valid() && c in o.envelopes
    ensures var e := EntryOf(Initial(o, Some((m, saved.classes))), c);
      && (m == o.mode && c in saved.classes ==> e.cs == saved.classes[c])
      && (m != o.mode || c !in saved.classes ==> e == EntryOf(Initial(o, None), c))
      && e.counts == NO_COUNTS
  {
    hide InitialTarget;
  }
}
