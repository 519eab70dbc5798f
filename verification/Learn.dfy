/** The target-seeking outer loop and its composition with the fan curve. */
module Learn {
  import opened Rounding
  import opened Control

  // ------------------------------------------------------------- the decision

  datatype Params = Params(
    toleranceHotC: real,
    toleranceCoolC: real,
    maxStepC: int,
    settleStdDev: real,
    satFanP90: real,
    minRampStart: int,
    maxRampStart: int,
    minFanFloor: real)

  function DefaultParams(minRampStart: int, maxRampStart: int, minFanFloor: real): Params {
    Params(2.0, 1.0, 1, 1.5, 99.0, minRampStart, maxRampStart, minFanFloor)
  }

  datatype Reason = NotSettled | InTolerance | TooHot | TooCool | Saturated | Clamped | AtFloor

  datatype Decision = Decision(newRampStart: int, acted: bool, reason: Reason)

  function Hold(current: int, r: Reason): Decision { Decision(current, false, r) }

  function StepFor(mag: real, maxStepC: int): int {
    Max(1, Min(Trunc(mag + 0.5), maxStepC))
  }

  function TargetSeek(steadyTempC: real, tempStdDev: real, fanDemandP90: real,
                      currentRampStart: int, targetC: int, p: Params): Decision
  {
    if tempStdDev > p.settleStdDev then Hold(currentRampStart, NotSettled)
    else
      var errC := steadyTempC - targetC as real;
      if errC > p.toleranceHotC then
        if fanDemandP90 >= p.satFanP90 then Hold(currentRampStart, Saturated)
        else
          var nr := Clamp(currentRampStart - StepFor(errC, p.maxStepC), p.minRampStart, p.maxRampStart);
          if nr == currentRampStart then Hold(currentRampStart, Clamped)
          else Decision(nr, true, TooHot)
      else if errC <= -p.toleranceCoolC then
        if fanDemandP90 <= p.minFanFloor then Hold(currentRampStart, AtFloor)
        else
          var nr := Clamp(currentRampStart + StepFor(-errC, p.maxStepC), p.minRampStart, p.maxRampStart);
          if nr == currentRampStart then Hold(currentRampStart, Clamped)
          else Decision(nr, true, TooCool)
      else Hold(currentRampStart, InTolerance)
  }

  /** The step is the error to the nearest degree, at least one degree and at most
      the allowed step; a larger error never asks for a smaller step. */
  lemma StepIsNearestDegree(mag: real, larger: real, maxStepC: int)
    requires 0.0 <= mag <= larger && maxStepC >= 1
    ensures 1 <= StepFor(mag, maxStepC) <= maxStepC
    ensures 1.0 <= mag <= maxStepC as real ==> AbsReal(StepFor(mag, maxStepC) as real - mag) <= 0.5
    ensures mag >= maxStepC as real ==> StepFor(mag, maxStepC) == maxStepC
    ensures StepFor(mag, maxStepC) <= StepFor(larger, maxStepC)
  {
  }

  /** What one decision may do, whatever the parameters and the observation:
      a hold keeps the ramp start, an action lands inside the clamp, and from
      inside the clamp it moves toward more fan exactly when too hot. */
  lemma SeekIsSafe(t: real, sd: real, p90: real, c: int, target: int, p: Params)
    requires p.minRampStart <= p.maxRampStart && p.maxStepC >= 1
    ensures var d := TargetSeek(t, sd, p90, c, target, p);
      && (!d.acted ==> d.newRampStart == c)
      && (d.acted ==> d.reason in {TooHot, TooCool} && p.minRampStart <= d.newRampStart <= p.maxRampStart)
      && (p.minRampStart <= c <= p.maxRampStart ==> Abs(d.newRampStart - c) <= p.maxStepC)
      && (p.minRampStart <= c <= p.maxRampStart && d.reason == TooHot ==>
            d.newRampStart < c && t > target as real + p.toleranceHotC && p90 < p.satFanP90)
      && (p.minRampStart <= c <= p.maxRampStart && d.reason == TooCool ==>
            d.newRampStart > c && t <= target as real - p.toleranceCoolC && p90 > p.minFanFloor)
  {
  }

  /** Too warm or too cool by more than the tolerance. */
  predicate OffTarget(t: real, target: int, p: Params) {
    t - target as real > p.toleranceHotC || t - target as real <= -p.toleranceCoolC
  }

  /** The reason reported is the one that holds: unsettled first, then in
      tolerance, then no fan left to give or to take, then nowhere to move. */
  lemma ReasonsExplain(t: real, sd: real, p90: real, c: int, target: int, p: Params)
    requires p.minRampStart <= c <= p.maxRampStart && p.maxStepC >= 1
    requires p.toleranceHotC >= 0.0 && p.toleranceCoolC >= 0.0
    ensures var r, hot := TargetSeek(t, sd, p90, c, target, p).reason, t > target as real + p.toleranceHotC;
      && (r == NotSettled <==> sd > p.settleStdDev)
      && (r == InTolerance <==> r != NotSettled && !OffTarget(t, target, p))
      && (r == Saturated <==> r != NotSettled && hot && p90 >= p.satFanP90)
      && (r == AtFloor <==> r != NotSettled && OffTarget(t, target, p) && !hot && p90 <= p.minFanFloor)
      && (r == TooHot <==> r != NotSettled && hot && p90 < p.satFanP90 && c > p.minRampStart)
      && (r == TooCool <==>
            r != NotSettled && OffTarget(t, target, p) && !hot && p90 > p.minFanFloor && c < p.maxRampStart)
      && (r == Clamped <==> r !in {NotSettled, InTolerance, Saturated, AtFloor, TooHot, TooCool})
  {
  }

  /** A decision acts exactly when it moves the ramp start. */
  lemma ActsIffMoves(t: real, sd: real, p90: real, c: int, target: int, p: Params)
    ensures TargetSeek(t, sd, p90, c, target, p).acted <==> TargetSeek(t, sd, p90, c, target, p).newRampStart != c
  {
  }

  /** A class whose own demand never leaves the floor is never asked to ramp later. */
  lemma FloorNeverRaises(t: real, sd: real, p90: real, c: int, target: int, p: Params)
    requires p90 <= p.minFanFloor && p.toleranceHotC >= 0.0
    requires p.minRampStart <= c
    ensures TargetSeek(t, sd, p90, c, target, p).newRampStart <= c
  {
  }

  // --------------------------------------------------------- the cooling plant

  /** A plant that settles at a temperature for every fan percentage, and the
      curve's fixed ends. */
  datatype Plant = Plant(settles: real -> real, emergency: int, minFan: int, maxFan: int) {

    /** More fan is never hotter; nothing else is asked of the response. */
    ghost predicate Cooling() {
      && minFan <= maxFan
      && forall f, g :: minFan as real <= f <= g <= maxFan as real ==> settles(g) <= settles(f)
    }

    /** The unrounded demand of the class's curve with ramp start `c`. */
    function Demand(t: real, c: real): real
      requires c < emergency as real
    {
      Ramp(t, c, emergency as real, minFan as real, maxFan as real)
    }

    /** `t` is a temperature at which plant and curve agree. */
    predicate Equilibrium(t: real, c: real)
      requires c < emergency as real
    {
      t == settles(Demand(t, c))
    }

    ghost predicate HasEquilibrium(c: real) {
      c < emergency as real ==> exists t: real :: Equilibrium(t, c)
    }

    /** The response has no jump that a curve could fall into. */
    ghost predicate AlwaysSettles() {
      forall c: real :: HasEquilibrium(c)
    }
  }

  /** The shift theorem: raising the ramp start by some degrees raises the
      settled temperature, and by no more than that. */
  lemma EquilibriumShift(p: Plant, c1: real, t1: real, c2: real, t2: real)
    requires p.Cooling() && c1 <= c2 < p.emergency as real
    requires p.Equilibrium(t1, c1) && p.Equilibrium(t2, c2)
    ensures 0.0 <= t2 - t1 <= c2 - c1
  {
    hide Ramp;
    var e, lo, hi := p.emergency as real, p.minFan as real, p.maxFan as real;
    RampRange(t1, c1, e, lo, hi);
    RampRange(t2, c2, e, lo, hi);
    if t2 < t1 {
      // Cooler under a later ramp: less fan, so not cooler after all.
      RampFollowsShift(t2, c2, t1, c2, e, lo, hi);
      RampAntitoneInComfort(t1, c1, c2, e, lo, hi);
    }
    if t2 - t1 > c2 - c1 {
      // Overtaking the ramp start: more fan, so not warmer after all.
      RampFollowsShift(t1, c1, t2, c2, e, lo, hi);
    }
  }

  /** A ramp start has at most one equilibrium. */
  lemma EquilibriumUnique(p: Plant, c: real, t1: real, t2: real)
    requires p.Cooling() && c < p.emergency as real
    requires p.Equilibrium(t1, c) && p.Equilibrium(t2, c)
    ensures t1 == t2
  {
    EquilibriumShift(p, c, t1, c, t2);
  }

  // ----------------------------------------------------------- linear plants

  /** The plant the scan fits: one percent of fan removes `b` degrees. */
  function LinearPlant(a: real, b: real, emergency: int, minFan: int, maxFan: int): Plant {
    Plant(f => a - b * f, emergency, minFan, maxFan)
  }

  /** A linear plant whose fan does not heat is a cooling plant, and it settles
      under every curve. */
  lemma LinearPlantCools(a: real, b: real, emergency: int, minFan: int, maxFan: int)
    requires b >= 0.0 && minFan <= maxFan
    ensures LinearPlant(a, b, emergency, minFan, maxFan).Cooling()
    ensures LinearPlant(a, b, emergency, minFan, maxFan).AlwaysSettles()
  {
    hide Plant.Demand, Plant.HasEquilibrium;
    var p := LinearPlant(a, b, emergency, minFan, maxFan);
    forall f, g | minFan as real <= f <= g <= maxFan as real
      ensures p.settles(g) <= p.settles(f)
    {
      MoreFanIsCooler(a, b, f, g);
    }
    forall c: real
      ensures p.HasEquilibrium(c)
    {
      LinearPlantSettles(a, b, emergency, minFan, maxFan, c);
    }
  }

  lemma LinearPlantSettles(a: real, b: real, emergency: int, minFan: int, maxFan: int, c: real)
    requires b >= 0.0 && minFan <= maxFan
    ensures LinearPlant(a, b, emergency, minFan, maxFan).HasEquilibrium(c)
  {
    hide Ramp;
    if c < emergency as real {
      var t := SettlesSomewhere(a, b, c, emergency as real, minFan as real, maxFan as real);
      assert LinearPlant(a, b, emergency, minFan, maxFan).Equilibrium(t, c);
    }
  }

  lemma MoreFanIsCooler(a: real, b: real, f: real, g: real)
    requires b >= 0.0 && f <= g
    ensures a - b * g <= a - b * f
  {
    MulMonotone(b, f, g);
  }

  lemma SettlesSomewhere(a: real, b: real, c: real, e: real, lo: real, hi: real) returns (t: real)
    requires c < e && lo <= hi && b >= 0.0
    ensures t == a - b * Ramp(t, c, e, lo, hi)
  {
    if a - b * lo <= c {
      t := a - b * lo;
    } else if a - b * hi >= e {
      t := a - b * hi;
      RampRange(t, c, e, lo, hi);
    } else {
      t := SettledOnRamp(a, b, c, e, lo, hi);
    }
  }

  lemma SettledOnRamp(a: real, b: real, c: real, e: real, lo: real, hi: real) returns (t: real)
    requires c < e && lo <= hi && b >= 0.0
    requires a - b * lo > c && a - b * hi < e
    ensures t == a - b * Ramp(t, c, e, lo, hi)
  {
    MulMonotone(b, lo, hi);
    var drop := b * (hi - lo);
    var rise := a - b * lo - c;
    var q := rise / (e - c + drop);
    Quotient(rise, e - c + drop);
    t := c + q * (e - c);
    MulMonotone(e - c, 0.0, q);
    MulMonotone(e - c, q, 1.0);
    var r := RampFraction(t, c, e, lo, hi);
    SameFraction(q, r, e - c, t - c);
    calc {
      a - b * Ramp(t, c, e, lo, hi);
      a - b * (lo + q * (hi - lo));
      a - b * lo - q * drop;
      c + q * (e - c);
    }
  }

  lemma SameFraction(q: real, r: real, w: real, x: real)
    requires w > 0.0 && q * w == x && r * w == x
    ensures q == r
  {
  }
}
