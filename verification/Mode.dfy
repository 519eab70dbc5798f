/** Operator intent: mode targets and the mode score functions. */
module Mode {
  import opened Rounding
  import opened Thermal

  datatype Mode = MaxCool | Balanced | MinNoise | Eco

  /** The statistics of one class's window. */
  datatype WindowStats = WindowStats(
    tempMean: real,
    tempStdDev: real,
    tempP10: real,
    tempP50: real,
    tempP90: real,
    fanDemandMean: real,
    fanDemandP90: real,
    fanChangeRate: real,
    inletMean: real,
    inletStdDev: real,
    samples: int)

  const ZERO_STATS := WindowStats(0.0, 0.0, 0.0, 0.0, 0.0, 0.0, 0.0, 0.0, 0.0, 0.0, 0)

  function InitialTarget(env: Envelope, m: Mode): (int, int) {
    match m
    case MaxCool => (env.preferredLow, 2)
    case Balanced => (env.preferredMid, 3)
    case MinNoise => (env.preferredHigh, 4)
    case Eco => (env.preferredHigh, 5)
  }

  function SaturationPenalty(fanDemandP90: real): real {
    var excess := MaxReal(0.0, fanDemandP90 - 90.0) / 10.0;
    Times(excess, excess) * 100.0
  }

  function BandDistance(x: real, lo: real, hi: real): real {
    if x < lo then lo - x else if x > hi then x - hi else 0.0
  }

  function ScoreMaxCool(env: Envelope, s: WindowStats): real {
    var aboveLow := MaxReal(0.0, s.tempMean - env.preferredLow as real);
    var variance := Times(s.tempStdDev, s.tempStdDev);
    aboveLow + 0.5 * variance + 1.0 * SaturationPenalty(s.fanDemandP90)
  }

  function ScoreBalanced(env: Envelope, s: WindowStats): real {
    var bandViolation := BandDistance(s.tempMean, env.preferredLow as real, env.preferredHigh as real);
    var variance := Times(s.tempStdDev, s.tempStdDev);
    bandViolation + 0.3 * variance + 0.3 * s.fanChangeRate + 5.0 * SaturationPenalty(s.fanDemandP90)
  }

  function ScoreMinNoise(env: Envelope, s: WindowStats): real {
    var belowHigh := MaxReal(0.0, env.preferredHigh as real - s.tempMean);
    var aboveHigh := MaxReal(0.0, s.tempMean - env.preferredHigh as real);
    var variance := Times(s.tempStdDev, s.tempStdDev);
    belowHigh + 5.0 * aboveHigh + 2.0 * s.fanChangeRate + 0.5 * variance
      + 10.0 * SaturationPenalty(s.fanDemandP90)
  }

  function Score(m: Mode, env: Envelope, s: WindowStats): real {
    match m
    case MaxCool => ScoreMaxCool(env, s)
    case Balanced => ScoreBalanced(env, s)
    case MinNoise => ScoreMinNoise(env, s)
    case Eco => ScoreMinNoise(env, s)
  }
}
