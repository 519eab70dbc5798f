/** What the projected scores choose, exactly: one table of slopes and weights
    for the four modes. */
module ModeChoices {
  import opened Rounding
  import opened Thermal
  import opened Mode
  import opened Adaptive
  import opened Drift

  // ---------------------------------------------------------------- the terms

  /** `x` held to the interval from zero to `d`. */
  function Part(x: real, d: real): real { MinReal(d, MaxReal(0.0, x)) }

  /** What a mode's position term gains from the mean coming down by `d` degrees
      to `x - d`: which side of which bound hurts, and how much. */
  function Slope(m: Mode, env: Envelope, x: real, d: real): real {
    var lo, hi := env.preferredLow as real, env.preferredHigh as real;
    match m
    case MaxCool => Part(x - lo, d)
    case Balanced => Part(x - hi, d) - Part(lo + d - x, d)
    case MinNoise => 5.0 * Part(x - hi, d) - Part(hi + d - x, d)
    case Eco => 5.0 * Part(x - hi, d) - Part(hi + d - x, d)
  }

  /** A mode's weighted sum of spread, changes and saturation. */
  function Weighted(m: Mode, spread: real, change: real, saturation: real): real {
    match m
    case MaxCool => 0.5 * spread + saturation
    case Balanced => 0.3 * spread + 0.3 * change + 5.0 * saturation
    case MinNoise => 0.5 * spread + 2.0 * change + 10.0 * saturation
    case Eco => 0.5 * spread + 2.0 * change + 10.0 * saturation
  }

  /** The square of the excess over 90 percent. */
  function Excess(p: real): real {
    var e := MaxReal(0.0, p - 90.0);
    Times(e, e)
  }

  /** What `d` degrees of relief take off the terms other than position: the
      spread narrows by 0.3, the changes fall by 0.5 and the fan by 5 percent
      for each, none of them below zero. */
  function Relief(m: Mode, st: WindowStats, d: real): real {
    var sd, k, p := st.tempStdDev, 0.3 * d, st.fanDemandP90;
    Weighted(m, if sd >= k then Times(k, 2.0 * sd - k) else Times(sd, sd),
             MinReal(st.fanChangeRate, 0.5 * d),
             Excess(p) - Excess(p - 5.0 * d))
  }

  /** What `d` degrees of tightening add to them. */
  function Price(m: Mode, st: WindowStats, d: real): real {
    var k, p := 0.3 * d, st.fanDemandP90;
    Weighted(m, Times(k, 2.0 * st.tempStdDev + k), 0.5 * d, Excess(MinReal(100.0, p + 5.0 * d)) - Excess(p))
  }

  /** A mode's position term. */
  function PositionTerm(m: Mode, env: Envelope, x: real): real {
    var lo, hi := env.preferredLow as real, env.preferredHigh as real;
    match m
    case MaxCool => MaxReal(0.0, x - lo)
    case Balanced => MaxReal(MaxReal(0.0, lo - x), x - hi)
    case MinNoise => MaxReal(0.0, hi - x) + 5.0 * MaxReal(0.0, x - hi)
    case Eco => MaxReal(0.0, hi - x) + 5.0 * MaxReal(0.0, x - hi)
  }

  // ------------------------------------------------------------- score by score

  lemma ScoreIsSum(m: Mode, env: Envelope, st: WindowStats)
    requires env.preferredLow <= env.preferredHigh
    ensures Score(m, env, st)
         == PositionTerm(m, env, st.tempMean)
            + Weighted(m, Times(st.tempStdDev, st.tempStdDev), st.fanChangeRate, Excess(st.fanDemandP90))
  {
    hide Times, SaturationPenalty;
    PenaltyIsSquare(st.fanDemandP90);
  }

  lemma SlopeOfPosition(m: Mode, env: Envelope, x: real, d: real)
    requires env.preferredLow <= env.preferredHigh && d >= 0.0
    ensures PositionTerm(m, env, x) - PositionTerm(m, env, x - d) == Slope(m, env, x, d)
  {
  }

  lemma WeightedDifference(m: Mode, a: real, b: real, c: real, x: real, y: real, z: real)
    ensures Weighted(m, a - x, b - y, c - z) == Weighted(m, a, b, c) - Weighted(m, x, y, z)
  {
  }

  lemma ExcessIgnoresZero(p: real)
    ensures Excess(MaxReal(0.0, p)) == Excess(p)
  {
  }

  lemma SquareMoves(sd: real, k: real)
    requires sd >= 0.0 && k >= 0.0
    ensures Times(sd + k, sd + k) - Times(sd, sd) == Times(k, 2.0 * sd + k)
    ensures sd >= k ==> Times(sd, sd) - Times(sd - k, sd - k) == Times(k, 2.0 * sd - k)
  {
    assert (sd + k) * (sd + k) == sd * sd + k * (2.0 * sd + k);
    assert (sd - k) * (sd - k) == sd * sd - k * (2.0 * sd - k);
  }

  /** Relief costs the slope above and saves the relief. */
  lemma UpGap(m: Mode, env: Envelope, st: WindowStats, d: real)
    requires env.preferredLow <= env.preferredHigh && st.tempStdDev >= 0.0 && st.fanChangeRate >= 0.0 && d >= 0.0
    ensures Score(m, env, ProjectUp(st, d)) - Score(m, env, st) == Slope(m, env, st.tempMean + d, d) - Relief(m, st, d)
  {
    hide Times, Score, PositionTerm, Slope, Excess, Weighted;
    var up := ProjectUp(st, d);
    ScoreIsSum(m, env, st);
    ScoreIsSum(m, env, up);
    SlopeOfPosition(m, env, st.tempMean + d, d);
    assert up.tempMean == st.tempMean + d && st.tempMean + d - d == st.tempMean;
    ExcessIgnoresZero(st.fanDemandP90 - 5.0 * d);
    assert up.fanDemandP90 == MaxReal(0.0, st.fanDemandP90 - 5.0 * d);
    SquareMoves(st.tempStdDev, 0.3 * d);
    TimesZero(0.0);
    assert up.tempStdDev == MaxReal(0.0, st.tempStdDev - 0.3 * d);
    assert up.fanChangeRate == st.fanChangeRate - MinReal(st.fanChangeRate, 0.5 * d);
    WeightedDifference(m, Times(st.tempStdDev, st.tempStdDev), st.fanChangeRate, Excess(st.fanDemandP90),
                       Times(up.tempStdDev, up.tempStdDev), up.fanChangeRate, Excess(up.fanDemandP90));
  }

  /** Tightening gains the slope here and pays the price. */
  lemma DownGap(m: Mode, env: Envelope, st: WindowStats, d: real)
    requires env.preferredLow <= env.preferredHigh && st.tempStdDev >= 0.0 && st.fanChangeRate >= 0.0 && d >= 0.0
    ensures Score(m, env, ProjectDown(st, d)) - Score(m, env, st) == Price(m, st, d) - Slope(m, env, st.tempMean, d)
  {
    hide Times, Score, PositionTerm, Slope, Excess, Weighted;
    var down := ProjectDown(st, d);
    ScoreIsSum(m, env, st);
    ScoreIsSum(m, env, down);
    SlopeOfPosition(m, env, st.tempMean, d);
    assert down.tempMean == st.tempMean - d;
    assert down.fanDemandP90 == MinReal(100.0, st.fanDemandP90 + 5.0 * d);
    SquareMoves(st.tempStdDev, 0.3 * d);
    assert down.tempStdDev == st.tempStdDev + 0.3 * d;
    assert down.fanChangeRate == st.fanChangeRate + 0.5 * d;
    WeightedDifference(m, Times(down.tempStdDev, down.tempStdDev), down.fanChangeRate, Excess(down.fanDemandP90),
                       Times(st.tempStdDev, st.tempStdDev), st.fanChangeRate, Excess(st.fanDemandP90));
  }

  // ----------------------------------------------------------------- the choice

  /** The choice of every mode over every window, at every rate: cooler when that
      gains more than it costs and more than going warmer would, else warmer when
      that saves more than it costs, else neither. */
  lemma ChoiceIsExact(m: Mode, env: Envelope, st: WindowStats, rate: int)
    requires env.preferredLow <= env.preferredHigh && st.tempStdDev >= 0.0 && st.fanChangeRate >= 0.0 && rate >= 1
    ensures var d := rate as real;
      var gain, cost := Slope(m, env, st.tempMean, d), Slope(m, env, st.tempMean + d, d);
      var relief, price := Relief(m, st, d), Price(m, st, d);
      Choose(m, env, st, rate)
      == if gain > price + MaxReal(0.0, relief - cost) then -rate else if relief > cost then rate else 0
  {
    hide Score, Slope, Relief, Price, ProjectUp, ProjectDown;
    UpGap(m, env, st, rate as real);
    DownGap(m, env, st, rate as real);
  }

  /** No spread, no changes, no saturation within a step of one degree. */
  predicate Calm(st: WindowStats) {
    st.tempStdDev == 0.0 && st.fanChangeRate == 0.0 && 0.0 <= st.fanDemandP90 <= 85.0
  }

  lemma CalmTerms(m: Mode, st: WindowStats)
    requires Calm(st)
    ensures Relief(m, st, 1.0) == 0.0
    ensures Price(m, st, 1.0) == Weighted(m, 0.09, 0.5, 0.0)
  {
    hide Times;
    TimesZero(0.0);
    StepSquared();
  }

  lemma StepSquared()
    ensures Times(0.3 * 1.0, 2.0 * 0.0 + 0.3 * 1.0) == 0.09
  {
  }

  /** Balanced on a calm window: up from below the band, down from more than
      0.177 degrees above it, and neither in between. */
  lemma CalmBalanced(env: Envelope, st: WindowStats)
    requires env.preferredLow < env.preferredHigh && Calm(st)
    ensures Choose(Balanced, env, st, 1)
         == if st.tempMean < env.preferredLow as real then 1
            else if st.tempMean > env.preferredHigh as real + 0.177 then -1
            else 0
  {
    hide Choose, Relief, Price;
    ChoiceIsExact(Balanced, env, st, 1);
    CalmTerms(Balanced, st);
  }

  /** Max-cool on a calm window: down from more than 0.045 degrees above the
      bottom of the band, and never up. */
  lemma CalmMaxCool(env: Envelope, st: WindowStats)
    requires env.preferredLow <= env.preferredHigh && Calm(st)
    ensures Choose(MaxCool, env, st, 1) == if st.tempMean > env.preferredLow as real + 0.045 then -1 else 0
  {
    hide Choose, Relief, Price;
    ChoiceIsExact(MaxCool, env, st, 1);
    CalmTerms(MaxCool, st);
  }

  /** The quiet modes on a calm window: up while the mean is more than 5/6 of a
      degree below the top of the band, down from more than 2.045/6 above it. */
  lemma CalmQuiet(m: Mode, env: Envelope, st: WindowStats)
    requires (m == MinNoise || m == Eco) && env.preferredLow <= env.preferredHigh && Calm(st)
    ensures Choose(m, env, st, 1)
         == if 6.0 * (st.tempMean - env.preferredHigh as real) > 2.045 then -1
            else if 6.0 * (st.tempMean + 1.0 - env.preferredHigh as real) < 1.0 then 1
            else 0
  {
    hide Choose, Relief, Price;
    ChoiceIsExact(m, env, st, 1);
    CalmTerms(m, st);
  }

  // --------------------------------------------------------- initial targets

  /** From max-cool over balanced and min-noise to eco, the target never gets
      cooler and the deadband always gets wider. */
  lemma ModesAreOrdered(env: Envelope)
    requires env.Valid()
    ensures var cool, balanced := InitialTarget(env, MaxCool), InitialTarget(env, Balanced);
      var quiet, eco := InitialTarget(env, MinNoise), InitialTarget(env, Eco);
      && cool.0 <= balanced.0 <= quiet.0 <= eco.0
      && 0 < cool.1 < balanced.1 < quiet.1 < eco.1
  {
  }

  /** The target a mode starts from scores at least as well as any other mean of
      an otherwise equal window: max-cool starts at the warmest of its best
      means, the quiet modes at their only one, balanced inside the band. */
  lemma InitialTargetIsBest(m: Mode, env: Envelope, st: WindowStats)
    requires env.Valid()
    ensures var best := st.(tempMean := InitialTarget(env, m).0 as real);
      && Score(m, env, best) <= Score(m, env, st)
      && (m == MaxCool && st.tempMean > best.tempMean ==> Score(m, env, best) < Score(m, env, st))
      && ((m == MinNoise || m == Eco) && st.tempMean != best.tempMean ==> Score(m, env, best) < Score(m, env, st))
      && (m == Balanced ==> env.preferredLow as real <= best.tempMean <= env.preferredHigh as real)
  {
    hide Times, SaturationPenalty;
  }
}
