/** Turning the scan's line into a ramp start: the inverse placement of the curve. */
module Placement {
  import opened Rounding
  import opened Control
  import opened Thermal
  import opened Learn
  import opened Convergence
  import opened PlantLoop
  import opened ScanFit

  /** The fixed inputs of one placement. */
  datatype Request = Request(
    target: int,
    emergency: int,
    minFan: int,
    maxFan: int,
    floorComfort: int,
    fallbackMargin: int,
    minSpan: int)
  {
    function Span(): int { Max(minSpan, 1) }

    function HiComfort(): int { emergency - Span() }

    function Fallback(): int { Clamp(target - fallbackMargin, floorComfort, HiComfort()) }

    /** The fan level that would hold the target on the line. */
    function FanAtTarget(l: Line): real
      requires l.b != 0.0
    {
      (target as real - l.a) / l.b
    }

    /** ... clamped to the fan range, maximum last. */
    function ClampedFan(l: Line): real
      requires l.b != 0.0
    {
      MinReal(MaxReal(FanAtTarget(l), minFan as real), maxFan as real)
    }

    /** The fraction of the fan range needed at the target. */
    function Fraction(l: Line): real
      requires l.b != 0.0 && minFan < maxFan
    {
      (ClampedFan(l) - minFan as real) / (maxFan as real - minFan as real)
    }

    /** The ramp start whose curve is at fraction `k` when the temperature is
        at the target. */
    function RealComfort(k: real): real
      requires k < 1.0
    {
      (target as real - k * emergency as real) / (1.0 - k)
    }

    /** The part of FitComfort after the fit. */
    function Place(fit: Option<Line>): int {
      if fit.None? || fit.value.b >= -0.000001 then Fallback()
      else if maxFan - minFan <= 0 then Fallback()
      else
        var k := Fraction(fit.value);
        if k >= 0.999 then floorComfort
        else Clamp(Trunc(RealComfort(k) + 0.5), floorComfort, HiComfort())
    }
  }

  /** The fit of a scan, when its fan levels allow one. */
  ghost function FitOf(pts: seq<ScanPoint>): Option<Line> {
    if TwoLevels(pts) then Some(NormalLine(pts)) else None
  }

  method FitComfort(pts: seq<ScanPoint>, r: Request) returns (comfort: int)
    ensures comfort == r.Place(FitOf(pts))
  {
    hide NormalLine;
    var two := TwoDistinctFans(pts);
    if !two {
      return r.Fallback();
    }
    var fit := LinFit(pts);
    comfort := r.Place(fit);
  }

  // ------------------------------------------------------ the curve is inverted

  /** The line seen as a cooling plant. */
  ghost function PlantOf(l: Line, r: Request): (p: Plant)
    ensures l.b <= 0.0 && r.minFan <= r.maxFan ==> p.Cooling() && p.AlwaysSettles()
  {
    var p := LinearPlant(l.a, -l.b, r.emergency, r.minFan, r.maxFan);
    if l.b <= 0.0 && r.minFan <= r.maxFan then
      LinearPlantCools(l.a, -l.b, r.emergency, r.minFan, r.maxFan);
      p
    else p
  }

  /** A usable fit whose target is inside the fan range and short of the top. */
  predicate Reachable(l: Line, r: Request) {
    && l.b < 0.0
    && r.minFan < r.maxFan
    && r.target < r.emergency
    && r.minFan as real <= r.FanAtTarget(l) <= r.maxFan as real
    && r.Fraction(l) < 0.999
  }

  /** The unrounded comfort puts the curve through (target, fan at target), so
      the target is the one temperature at which curve and line agree. */
  lemma PlacementInvertsCurve(l: Line, r: Request)
    requires Reachable(l, r)
    ensures var c := r.RealComfort(r.Fraction(l));
      && c <= r.target as real < r.emergency as real
      && (forall t: real :: PlantOf(l, r).Equilibrium(t, c) <==> t == r.target as real)
  {
    hide Plant.Equilibrium, Plant.Cooling, Plant.AlwaysSettles, Request.RealComfort, Request.Fraction;
    TargetIsEquilibrium(l, r);
    var p, c := PlantOf(l, r), r.RealComfort(r.Fraction(l));
    forall t: real | p.Equilibrium(t, c)
      ensures t == r.target as real
    {
      EquilibriumUnique(p, c, t, r.target as real);
    }
  }

  lemma TargetIsEquilibrium(l: Line, r: Request)
    requires Reachable(l, r)
    ensures var c := r.RealComfort(r.Fraction(l));
      c <= r.target as real && PlantOf(l, r).Equilibrium(r.target as real, c)
  {
    hide Ramp, Request.RealComfort, Request.Fraction, Request.FanAtTarget, Plant.Cooling, Plant.AlwaysSettles;
    PlacementEquations(l, r);
    var c := r.RealComfort(r.Fraction(l));
    var lo, hi := r.minFan as real, r.maxFan as real;
    var q := RampFraction(r.target as real, c, r.emergency as real, lo, hi);
    SameFraction(q, r.Fraction(l), r.emergency as real - c, r.target as real - c);
    assert PlantOf(l, r).Demand(r.target as real, c) == r.FanAtTarget(l);
  }

  /** The three equations of the placement: the fraction, the comfort, the line. */
  lemma PlacementEquations(l: Line, r: Request)
    requires Reachable(l, r)
    ensures var k, lo, hi := r.Fraction(l), r.minFan as real, r.maxFan as real;
      var c := r.RealComfort(k);
      && r.FanAtTarget(l) == lo + k * (hi - lo)
      && c <= r.target as real
      && k * (r.emergency as real - c) == r.target as real - c
      && r.target as real == l.a - (-l.b) * r.FanAtTarget(l)
  {
    var lo, hi := r.minFan as real, r.maxFan as real;
    Quotient(r.FanAtTarget(l) - lo, hi - lo);
    ComfortSolves(r.target as real, r.emergency as real, r.Fraction(l), r.RealComfort(r.Fraction(l)));
    OnTheLine(r.target as real, l.a, l.b, r.FanAtTarget(l));
  }

  lemma ComfortSolves(t: real, e: real, k: real, c: real)
    requires 0.0 <= k < 1.0 && t < e
    requires c == (t - k * e) / (1.0 - k)
    ensures c <= t
    ensures k * (e - c) == t - c
  {
    var d := 1.0 - k;
    Quotient(t - k * e, d);
    assert c * d == t - k * e;
    assert k * (e - c) == t - c;
    StartsBelow(k, e - c, t - c, e - t);
  }

  lemma TimesOneMinus(w: real, k: real)
    ensures w * (1.0 - k) == w - k * w
  {
  }

  lemma StartsBelow(k: real, w: real, x: real, rest: real)
    requires 0.0 <= k < 1.0 && k * w == x && w == x + rest && rest > 0.0
    ensures x >= 0.0
  {
    // rest == (1 - k) w, so the window is positive.
    if w <= 0.0 {
      MulMonotone(1.0 - k, w, 0.0);
      TimesOneMinus(w, k);
    }
    PartOf(k, w);
  }

  lemma OnTheLine(t: real, a: real, b: real, f: real)
    requires b < 0.0 && f == (t - a) / b
    ensures t == a - (-b) * f
  {
    assert b * f == t - a;
  }

  /** Rounding the comfort to a whole degree costs at most half a degree. */
  lemma RoundedPlacementHoldsTarget(l: Line, r: Request, t: real)
    requires Reachable(l, r) && l.b < -0.000001
    requires r.floorComfort > 0 || r.RealComfort(r.Fraction(l)) >= -0.5
    requires var ci := Trunc(r.RealComfort(r.Fraction(l)) + 0.5); r.floorComfort <= ci <= r.HiComfort()
    requires PlantOf(l, r).Equilibrium(t, r.Place(Some(l)) as real)
    ensures AbsReal(t - r.target as real) <= 0.5
  {
    hide Ramp, Plant.Equilibrium, Plant.Cooling, Plant.AlwaysSettles;
    PlacementInvertsCurve(l, r);
    var c := r.RealComfort(r.Fraction(l));
    var ci := r.Place(Some(l));
    assert AbsReal(ci as real - c) <= 0.5;
    var p := PlantOf(l, r);
    if c <= ci as real {
      EquilibriumShift(p, c, r.target as real, ci as real, t);
    } else {
      EquilibriumShift(p, ci as real, t, c, r.target as real);
    }
  }

  // ------------------------------------------------------------------- bounds

  /** Fit or fallback, the result stays between the floor and the span cap. */
  lemma PlacementIsBounded(fit: Option<Line>, r: Request)
    requires r.floorComfort <= r.HiComfort()
    ensures r.floorComfort <= r.Place(fit) <= r.HiComfort() <= r.emergency - r.minSpan
  {
    hide Request.Fraction, Request.RealComfort;
  }

  /** A scan that shows no cooling: no fit, a line that does not fall, or no fan
      range to place it in. */
  predicate ShowsNoCooling(fit: Option<Line>, r: Request) {
    fit.None? || fit.value.b >= 0.0 || r.maxFan <= r.minFan
  }

  /** Without cooling to place by, the ramp starts the margin below the target,
      as far as floor and cap let it. */
  lemma NoCoolingFallsBack(fit: Option<Line>, r: Request)
    requires ShowsNoCooling(fit, r) && r.floorComfort <= r.HiComfort()
    ensures var wanted := r.target - r.fallbackMargin;
      && (r.floorComfort <= wanted <= r.HiComfort() ==> r.Place(fit) == wanted)
      && (wanted < r.floorComfort ==> r.Place(fit) == r.floorComfort)
      && (wanted > r.HiComfort() ==> r.Place(fit) == r.HiComfort())
  {
    hide Request.Fraction, Request.RealComfort;
  }

  /** ... so with a positive margin the fans are already above their minimum when
      the class reaches its target. */
  lemma FallbackCoolsAtTarget(fit: Option<Line>, r: Request)
    requires ShowsNoCooling(fit, r) && r.floorComfort <= r.HiComfort() && r.minSpan > 0
    requires r.minFan < r.maxFan && r.fallbackMargin > 0 && r.floorComfort < r.target
    ensures r.Place(fit) < r.target && r.Place(fit) < r.emergency
    ensures Ramp(r.target as real, r.Place(fit) as real, r.emergency as real, r.minFan as real, r.maxFan as real)
          > r.minFan as real
  {
    hide Request.Place, Ramp;
    NoCoolingFallsBack(fit, r);
    AboveTheFoot(r.target as real, r.Place(fit) as real, r.emergency as real, r.minFan as real, r.maxFan as real);
  }

  lemma AboveTheFoot(t: real, c: real, e: real, lo: real, hi: real)
    requires c < e && c < t && lo < hi
    ensures Ramp(t, c, e, lo, hi) > lo
  {
    hide Ramp;
    var q := RampFraction(t, c, e, lo, hi);
    if t < e && q <= 0.0 {
      MulMonotone(e - c, q, 0.0);
    }
    PositiveProduct(q, hi - lo);
  }

  /** A line that needs nearly the whole fan range at the target starts the ramp
      at the floor; one that needs no more than the minimum fan starts it at the
      target. */
  lemma ExtremesOfPlacement(l: Line, r: Request)
    requires l.b < -0.000001 && r.minFan < r.maxFan
    ensures r.FanAtTarget(l) >= r.minFan as real + 0.999 * (r.maxFan - r.minFan) as real
      ==> r.Place(Some(l)) == r.floorComfort
    ensures r.FanAtTarget(l) <= r.minFan as real && r.target >= 0
      ==> r.Place(Some(l)) == Clamp(r.target, r.floorComfort, r.HiComfort())
  {
    hide Request.FanAtTarget, Request.RealComfort;
    var lo, h := r.minFan as real, r.maxFan as real - r.minFan as real;
    var f := r.ClampedFan(l);
    assert h == (r.maxFan - r.minFan) as real;
    if r.FanAtTarget(l) >= lo + 0.999 * h {
      AtLeastShare(f - lo, h, 0.999);
    }
    if r.FanAtTarget(l) <= lo {
      assert f == lo;
      Quotient(0.0, h);
      assert r.Fraction(l) == 0.0;
      NoFanNeeded(r);
    }
  }

  lemma AtLeastShare(x: real, w: real, k: real)
    requires w > 0.0 && x >= k * w
    ensures x / w >= k
  {
    var q := x / w;
    assert q * w == x;
    if q < k {
      MulStrict(w, q, k);
      assert q * w < k * w;
    }
  }

  lemma NoFanNeeded(r: Request)
    ensures r.RealComfort(0.0) == r.target as real
  {
  }

  /** No fit starts the ramp above the target. */
  ghost predicate NeverAboveTarget(r: Request) {
    forall fit: Option<Line> :: r.Place(fit) <= Max(r.floorComfort, r.target)
  }

  /** Where truncation toward zero cannot lift a placement over the target. */
  predicate RoundsDown(r: Request) {
    r.target >= 0 || r.floorComfort > r.target || r.HiComfort() <= r.target
  }

  /** Exactly when no fit starts the ramp above the target: a negative target
      inside the clamp is rounded up by the truncation. */
  lemma NeverAboveTargetIff(r: Request)
    requires r.minFan < r.maxFan && r.target < r.emergency && r.floorComfort <= r.HiComfort() && r.fallbackMargin >= 0
    ensures NeverAboveTarget(r) <==> RoundsDown(r)
  {
    hide Request.Place;
    if RoundsDown(r) {
      forall fit: Option<Line>
        ensures r.Place(fit) <= Max(r.floorComfort, r.target)
      {
        StaysBelowTarget(fit, r);
      }
    } else {
      TruncationOvershoots(r);
      var fit := Some(Line((r.target + r.minFan) as real, -1.0));
      assert r.Place(fit) > Max(r.floorComfort, r.target);
    }
  }

  lemma StaysBelowTarget(fit: Option<Line>, r: Request)
    requires r.target < r.emergency && r.floorComfort <= r.HiComfort() && r.fallbackMargin >= 0 && RoundsDown(r)
    ensures r.Place(fit) <= Max(r.floorComfort, r.target)
  {
    if fit.Some? && fit.value.b < -0.000001 && r.minFan < r.maxFan && r.Fraction(fit.value) < 0.999 {
      hide Request.Fraction, Request.RealComfort;
      var k := r.Fraction(fit.value);
      FractionInRange(fit.value, r);
      RealComfortBelowTarget(r, k);
    }
  }

  lemma FractionInRange(l: Line, r: Request)
    requires l.b != 0.0 && r.minFan < r.maxFan
    ensures 0.0 <= r.Fraction(l) <= 1.0
  {
    Quotient(r.ClampedFan(l) - r.minFan as real, r.maxFan as real - r.minFan as real);
  }

  lemma RealComfortBelowTarget(r: Request, k: real)
    requires 0.0 <= k < 1.0 && r.target < r.emergency
    ensures r.RealComfort(k) <= r.target as real
  {
    ComfortSolves(r.target as real, r.emergency as real, k, r.RealComfort(k));
  }

  /** The line that needs the minimum fan at a negative target is placed one
      degree above it. */
  lemma TruncationOvershoots(r: Request)
    requires r.minFan < r.maxFan && r.target < r.emergency && r.floorComfort <= r.HiComfort() && !RoundsDown(r)
    ensures r.Place(Some(Line((r.target + r.minFan) as real, -1.0))) == r.target + 1 > Max(r.floorComfort, r.target)
  {
    var l := Line((r.target + r.minFan) as real, -1.0);
    assert r.FanAtTarget(l) == r.minFan as real;
    assert r.Fraction(l) == 0.0;
    assert r.RealComfort(0.0) == r.target as real;
  }

  // -------------------------------------------------------- scan, then learn

  /** The plant's loop at the placed comfort is in the tolerance band. */
  lemma PlacementIsAtRest(l: Line, r: Request)
    requires Reachable(l, r) && l.b < -0.000001 && r.floorComfort > 0
    requires var ci := Trunc(r.RealComfort(r.Fraction(l)) + 0.5); r.floorComfort <= ci <= r.HiComfort()
    ensures LoopOf(PlantOf(l, r), r.target, r.floorComfort, r.HiComfort()).AtRest(r.Place(Some(l)))
    ensures AbsReal(SettledAt(PlantOf(l, r), r.Place(Some(l))) - r.target as real) <= 0.5
  {
    hide Ramp, CurveF, SettledAt, DemandAt, Plant.Equilibrium;
    RoundedPlacementHoldsTarget(l, r, SettledAt(PlantOf(l, r), r.Place(Some(l))));
  }

  /** A plant that is linear over the scanned levels is placed so well that the
      learner, started from the scan, is at rest at once and never moves. */
  lemma ScanLeavesLearnerAtRest(pts: seq<ScanPoint>, l: Line, r: Request, cs: seq<int>, sds: seq<real>)
    requires TwoLevels(pts)
    requires forall i :: 0 <= i < |pts| ==> pts[i].tempC == l.At(pts[i].X())
    requires Reachable(l, r) && l.b < -0.000001 && r.floorComfort > 0
    requires var ci := Trunc(r.RealComfort(r.Fraction(l)) + 0.5); r.floorComfort <= ci <= r.HiComfort()
    requires Run(LoopOf(PlantOf(l, r), r.target, r.floorComfort, r.HiComfort()), cs, sds)
    requires cs[0] == r.Place(FitOf(pts))
    ensures forall i :: 0 <= i < |cs| ==> cs[i] == r.Place(FitOf(pts))
  {
    hide NormalLine, Line.At, Request.Place, Request.RealComfort, Request.Fraction, Request.FanAtTarget, Loop.AtRest;
    hide Loop.Decide, LoopOf;
    CollinearRecovered(pts, l);
    PlacementIsAtRest(l, r);
    var loop := LoopOf(PlantOf(l, r), r.target, r.floorComfort, r.HiComfort());
    forall i | 0 <= i < |cs|
      ensures cs[i] == cs[0]
    {
      RestHolds(loop, cs, sds, i);
    }
  }

  /** From rest no tick moves, whatever the spreads. */
  lemma {:induction false} RestHolds(loop: Loop, cs: seq<int>, sds: seq<real>, i: nat)
    requires Run(loop, cs, sds) && i < |cs| && loop.AtRest(cs[0])
    ensures cs[i] == cs[0]
  {
    if i > 0 {
      RestHolds(loop, cs, sds, i - 1);
    }
  }
}
