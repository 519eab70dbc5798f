/** The resolved configuration: fixed limits, and the per-class values that the
    scan, the learner and the reconciler write while the controller runs. */
module Settings {
  import opened Thermal

  /** What no part of the running controller changes. */
  datatype Limits = Limits(
    minFan: int,
    maxFan: int,
    intervalSec: int,
    adaptAlpha: real,
    emergency: Quad<int>,
    activeGPUEmergency: int,
    ownFanThreshold: int)
  {
    /** The startup validation of the limits, with the one bound it leaves out:
        a zero active-GPU threshold would read as a permanent emergency. */
    predicate Valid() {
      && 0 < minFan <= maxFan <= 100
      && intervalSec > 0
      && 0.0 < adaptAlpha < 1.0
      && (forall c: Managed :: emergency.At(c) > 0)
      && activeGPUEmergency > 0
    }

    /** The highest ramp start the minimum span leaves a class. */
    function Cap(c: Managed): int { MaxRampStart(c, emergency.At(c)) }
  }

  /** A target and its deadband, always handed over together. */
  datatype Pair = Pair(target: int, deadband: int)

  class Config {
    const limits: Limits
    var comfort: Quad<int>
    var pairs: Quad<Pair>

    constructor (limits: Limits, comfort: Quad<int>, pairs: Quad<Pair>)
      ensures this.limits == limits && this.comfort == comfort && this.pairs == pairs
    {
      this.limits := limits;
      this.comfort := comfort;
      this.pairs := pairs;
    }

    /** The per-class part of the startup validation. */
    ghost predicate Validated()
      reads this
    {
      && limits.Valid()
      && forall c: Managed ::
           && 0 < pairs.At(c).target < limits.emergency.At(c)
           && pairs.At(c).deadband >= 0
    }
  }
}
