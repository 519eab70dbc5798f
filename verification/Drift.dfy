/** What the optional drift does: which way each mode moves, where targets can
    go over any run, and what the counters say. */
module Drift {
  import opened Rounding
  import opened Thermal
  import opened Mode
  import opened Adaptive

  /** A window the scores are ever applied to: a spread, a change rate and a
      demand in range. */
  predicate Plausible(st: WindowStats) {
    st.tempStdDev >= 0.0 && st.fanChangeRate >= 0.0 && 0.0 <= st.fanDemandP90 <= 100.0
  }

  // ------------------------------------------------------ saturation always wins

  /** The penalty is the square of the excess over 90 percent. */
  lemma PenaltyIsSquare(p: real)
    ensures var e := MaxReal(0.0, p - 90.0); SaturationPenalty(p) == Times(e, e)
  {
    var e := MaxReal(0.0, p - 90.0);
    assert Times(e / 10.0, e / 10.0) * 100.0 == e * e;
  }

  lemma SquareGap(x: real, y: real)
    requires 0.0 <= y <= x
    ensures Times(x, x) - Times(y, y) == Times(x - y, x + y)
    ensures Times(y, y) <= Times(x, x)
  {
    assert (x - y) * (x + y) >= 0.0;
  }

  /** Above 91 percent, one projected degree of relief saves more than one unit
      of penalty, and one degree of tightening costs at least ten over it. */
  lemma PenaltySteps(p: real)
    requires 91.0 < p <= 100.0
    ensures SaturationPenalty(p) - SaturationPenalty(MaxReal(0.0, p - 5.0)) > 1.0
    ensures SaturationPenalty(MinReal(100.0, p + 5.0)) >= SaturationPenalty(p)
    ensures SaturationPenalty(MinReal(100.0, p + 5.0)) - SaturationPenalty(MaxReal(0.0, p - 5.0)) >= 10.0
  {
    hide SaturationPenalty, Times;
    PenaltyIsSquare(p);
    PenaltyIsSquare(MaxReal(0.0, p - 5.0));
    PenaltyIsSquare(MinReal(100.0, p + 5.0));
    var now, up, down := p - 90.0, MaxReal(0.0, p - 95.0), MinReal(10.0, p - 85.0);
    assert MaxReal(0.0, MaxReal(0.0, p - 5.0) - 90.0) == up;
    assert MaxReal(0.0, MinReal(100.0, p + 5.0) - 90.0) == down;
    SquareGap(now, up);
    SquareGap(down, now);
    SquareGap(down, up);
    ProductAbove(now - up, now + up, p);
    ProductWellAbove(down - up, down + up, p);
  }

  lemma ProductAbove(x: real, y: real, p: real)
    requires 91.0 < p <= 100.0
    requires x == p - 90.0 - MaxReal(0.0, p - 95.0) && y == p - 90.0 + MaxReal(0.0, p - 95.0)
    ensures Times(x, y) > 1.0
  {
    hide Times;
    OverOne(x, y);
  }

  lemma OverOne(x: real, y: real)
    requires x > 1.0 && y > 1.0
    ensures Times(x, y) > y
  {
    calc {
      x * y;
    > { MulStrict(y, 1.0, x); }
      1.0 * y;
      y;
    }
  }

  lemma ProductWellAbove(x: real, y: real, p: real)
    requires 91.0 < p <= 100.0
    requires x == MinReal(10.0, p - 85.0) - MaxReal(0.0, p - 95.0)
    requires y == MinReal(10.0, p - 85.0) + MaxReal(0.0, p - 95.0)
    ensures Times(x, y) >= 10.0
  {
    hide Times;
    FiveTimes(x, y);
  }

  lemma FiveTimes(x: real, y: real)
    requires x >= 5.0 && y >= 0.0
    ensures Times(x, y) >= 5.0 * y
  {
    MulMonotone(y, 5.0, x);
  }

  /** Widening the spread never lowers its square. */
  lemma SpreadSteps(sd: real)
    requires sd >= 0.0
    ensures Times(MaxReal(0.0, sd - 0.3), MaxReal(0.0, sd - 0.3)) <= Times(sd, sd)
    ensures Times(sd, sd) <= Times(sd + 0.3, sd + 0.3)
  {
    hide Times;
    SquareGap(sd, MaxReal(0.0, sd - 0.3));
    SquareGap(sd + 0.3, sd);
  }

  /** With the fan pinned, every mode asks for a warmer target. */
  lemma SaturationAlwaysWins(m: Mode, env: Envelope, st: WindowStats)
    requires env.Valid() && Plausible(st) && st.fanDemandP90 > 91.0
    ensures Choose(m, env, st, 1) == 1
  {
    hide Times, SaturationPenalty;
    PenaltySteps(st.fanDemandP90);
    SpreadSteps(st.tempStdDev);
    assert 0.30 * 1.0 == 0.3 && 5.0 * 1.0 == 5.0 && 0.5 * 1.0 == 0.5;
  }

  /** The threshold is exact: 91 percent is where some mode stops. */
  lemma SaturationThresholdIsExact(env: Envelope, p: real)
    requires env.Valid() && 0.0 <= p <= 100.0
    ensures (forall m: Mode, st: WindowStats :: Plausible(st) && st.fanDemandP90 == p ==> Choose(m, env, st, 1) == 1)
       <==> p > 91.0
  {
    if p > 91.0 {
      forall m: Mode, st: WindowStats | Plausible(st) && st.fanDemandP90 == p
        ensures Choose(m, env, st, 1) == 1
      {
        SaturationAlwaysWins(m, env, st);
      }
    } else {
      var st := ZERO_STATS.(tempMean := env.preferredLow as real, fanDemandP90 := p);
      MaxCoolHoldsAt91(env, st);
      assert Plausible(st) && Choose(MaxCool, env, st, 1) != 1;
    }
  }

  lemma MaxCoolHoldsAt91(env: Envelope, st: WindowStats)
    requires st.tempMean == env.preferredLow as real && st.tempStdDev == 0.0 && 0.0 <= st.fanDemandP90 <= 91.0
    ensures Choose(MaxCool, env, st, 1) != 1
  {
    hide Times, SaturationPenalty;
    var p := st.fanDemandP90;
    PenaltyIsSquare(p);
    PenaltyIsSquare(MaxReal(0.0, p - 5.0));
    TimesZero(0.0);
    SmallSquare(MaxReal(0.0, p - 90.0));
  }

  lemma SmallSquare(e: real)
    requires 0.0 <= e <= 1.0
    ensures 0.0 <= Times(e, e) <= 1.0
  {
    PartOf(e, e);
  }

  /** The converse for the quiet modes: with a cool enough fan and a mean a
      degree above the preferred band they ask for a cooler target exactly when
      the spread is below 791/60 degrees, about 13.2. */
  lemma QuietModesReclaim(m: Mode, env: Envelope, st: WindowStats)
    requires m == MinNoise || m == Eco
    requires Plausible(st) && st.fanDemandP90 <= 85.0 && st.tempMean >= env.preferredHigh as real + 1.0
    ensures Choose(m, env, st, 1) == -1 <==> 60.0 * st.tempStdDev < 791.0
  {
    hide Times, SaturationPenalty;
    var p := st.fanDemandP90;
    PenaltyIsSquare(p);
    PenaltyIsSquare(MaxReal(0.0, p - 5.0));
    PenaltyIsSquare(MinReal(100.0, p + 5.0));
    SpreadGrowth(st.tempStdDev);
  }

  /** One step of the spread changes its square by a linear amount. */
  lemma SpreadGrowth(sd: real)
    requires sd >= 0.0
    ensures Times(sd + 0.3, sd + 0.3) - Times(sd, sd) == 0.6 * sd + 0.09
    ensures sd >= 0.3 ==> Times(sd, sd) - Times(sd - 0.3, sd - 0.3) == 0.6 * sd - 0.09
    ensures sd < 0.3 ==> 0.0 <= Times(sd, sd) - Times(0.0, 0.0) <= 1.0
  {
    assert (sd + 0.3) * (sd + 0.3) == sd * sd + 0.6 * sd + 0.09;
    if sd >= 0.3 {
      assert (sd - 0.3) * (sd - 0.3) == sd * sd - 0.6 * sd + 0.09;
    } else {
      SmallSquare(sd);
    }
  }

  // ------------------------------------------------------------- quiet windows

  /** A window with nothing to improve: no spread, no changes, no saturation,
      and a mean at the best point of the mode's score. */
  predicate AtRest(m: Mode, env: Envelope, st: WindowStats) {
    && st.tempStdDev == 0.0 && st.fanChangeRate == 0.0 && 0.0 <= st.fanDemandP90 <= 90.0
    && st.tempMean == (if m == MaxCool then env.preferredLow else env.preferredHigh) as real
  }

  lemma PenaltyNotNegative(p: real)
    ensures SaturationPenalty(p) >= 0.0
    ensures p <= 90.0 ==> SaturationPenalty(p) == 0.0
  {
    SquareSign(MaxReal(0.0, p - 90.0));
    PenaltyIsSquare(p);
  }

  lemma ScoreNotNegative(m: Mode, env: Envelope, st: WindowStats)
    requires st.fanChangeRate >= 0.0
    ensures Score(m, env, st) >= 0.0
  {
    hide Times, SaturationPenalty;
    SquareSign(st.tempStdDev);
    PenaltyNotNegative(st.fanDemandP90);
  }

  /** A window at rest leaves the target alone in its mode, whatever the rate. */
  lemma RestIsKept(m: Mode, env: Envelope, st: WindowStats, rate: int)
    requires env.Valid() && AtRest(m, env, st) && rate >= 0
    ensures Choose(m, env, st, rate) == 0
  {
    hide Times, SaturationPenalty;
    TimesZero(0.0);
    PenaltyNotNegative(st.fanDemandP90);
    assert Score(m, env, st) == 0.0;
    hide Score;
    ScoreNotNegative(m, env, ProjectUp(st, rate as real));
    ScoreNotNegative(m, env, ProjectDown(st, rate as real));
  }
}
