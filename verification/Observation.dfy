/** The per-class rolling window: sanity filter, resets, ring buffer and the
    window statistics every learner guard reads. */
module Observation {
  import opened Rounding
  import opened Thermal
  import opened Mode
  import opened Percentile

  datatype Sample = Sample(timestamp: real, tempCelsius: real, fanDemandPct: int, inletCelsius: real)

  /** The observer's fixed parameters. */
  datatype Params = Params(windowSize: nat, inletJumpC: real) {
    predicate Valid() { windowSize > 0 && inletJumpC > 0.0 }
  }

  /** NewObserver's defaults for non-positive parameters. */
  function NewParams(windowSize: int, inletJumpC: real): (p: Params)
    ensures p.Valid()
  {
    Params(if windowSize <= 0 then 480 else windowSize, if inletJumpC <= 0.0 then 10.0 else inletJumpC)
  }

  /** The temperature bounds outside which a sample is a sensor fault. */
  predicate Sane(c: Class, s: Sample) {
    var env := DefaultEnvelope(c);
    env.Some? ==> env.value.minSafe as real <= s.tempCelsius <= 2.0 * env.value.emergency as real
  }

  // ------------------------------------------------------------ the state, by value

  datatype WindowState = WindowState(buffers: map<Class, seq<Sample>>, lastInlet: Option<real>) {
    function Buffer(c: Class): seq<Sample> {
      if c in buffers then buffers[c] else []
    }

    predicate Jumps(p: Params, s: Sample) {
      lastInlet.Some? && AbsReal(s.inletCelsius - lastInlet.value) > p.inletJumpC
    }

    function Added(p: Params, c: Class, s: Sample): WindowState
      requires p.Valid()
    {
      if !Sane(c, s) then this
      else
        var cleared := if Jumps(p, s) then map d | d in buffers :: [] else buffers;
        var buf := if c in cleared then cleared[c] else [];
        var room := if |buf| >= p.windowSize then buf[1..] else buf;
        WindowState(cleared[c := room + [s]], Some(s.inletCelsius))
    }

    function WithReset(c: Class): WindowState {
      this.(buffers := buffers[c := []])
    }
  }

  /** An accepted sample whose inlet jumped is all that is left of any class. */
  lemma JumpEmptiesAll(v: WindowState, p: Params, c: Class, s: Sample, d: Class)
    requires p.Valid() && Sane(c, s) && v.Jumps(p, s)
    ensures v.Added(p, c, s).Buffer(d) == if d == c then [s] else []
  {
  }

  const EMPTY := WindowState(map[], None)

  // ----------------------------------------------------------------- statistics

  /** `sqrt` stands for math.Sqrt. */
  ghost predicate IsSqrt(sqrt: real -> real) {
    forall x: real :: x >= 0.0 ==> sqrt(x) >= 0.0 && Times(sqrt(x), sqrt(x)) == x
  }

  function Temps(buf: seq<Sample>): seq<real> { seq(|buf|, i requires 0 <= i < |buf| => buf[i].tempCelsius) }

  function Demands(buf: seq<Sample>): seq<real> { seq(|buf|, i requires 0 <= i < |buf| => buf[i].fanDemandPct as real) }

  function Inlets(buf: seq<Sample>): seq<real> { seq(|buf|, i requires 0 <= i < |buf| => buf[i].inletCelsius) }

  function Sum(xs: seq<real>): real {
    if xs == [] then 0.0 else Sum(xs[..|xs| - 1]) + xs[|xs| - 1]
  }

  function Mean(xs: seq<real>): real
    requires xs != []
  {
    Sum(xs) / |xs| as real
  }

  function SquaresAbout(xs: seq<real>, m: real): real {
    if xs == [] then 0.0
    else SquaresAbout(xs[..|xs| - 1], m) + Times(xs[|xs| - 1] - m, xs[|xs| - 1] - m)
  }

  /** Population variance. */
  function Variance(xs: seq<real>): real
    requires xs != []
  {
    SquaresAbout(xs, Mean(xs)) / |xs| as real
  }

  /** Adjacent pairs whose demand differs. */
  function Changes(buf: seq<Sample>): nat {
    if |buf| < 2 then 0
    else Changes(buf[..|buf| - 1]) + if buf[|buf| - 1].fanDemandPct != buf[|buf| - 2].fanDemandPct then 1 else 0
  }

  function ChangeRate(buf: seq<Sample>): real
    requires buf != []
  {
    var duration := buf[|buf| - 1].timestamp - buf[0].timestamp;
    if duration > 0.0 then Changes(buf) as real / (duration / 60.0) else 0.0
  }

  function StatsOf(buf: seq<Sample>, sqrt: real -> real): WindowStats {
    if buf == [] then ZERO_STATS
    else
      WindowStats(
        Mean(Temps(buf)), sqrt(Variance(Temps(buf))),
        PercentileOf(Temps(buf), 10), PercentileOf(Temps(buf), 50), PercentileOf(Temps(buf), 90),
        Mean(Demands(buf)), PercentileOf(Demands(buf), 90), ChangeRate(buf),
        Mean(Inlets(buf)), sqrt(Variance(Inlets(buf))),
        |buf|)
  }

  /** The statistics of the four windows. */
  function WindowsOf(v: WindowState, sqrt: real -> real): (q: Quad<WindowStats>)
    ensures forall c: Managed :: q.At(c) == StatsOf(v.Buffer(c), sqrt)
  {
    Quad(StatsOf(v.Buffer(CPU), sqrt), StatsOf(v.Buffer(PassiveGPU), sqrt),
         StatsOf(v.Buffer(HDD), sqrt), StatsOf(v.Buffer(SSD), sqrt))
  }

  method SumOf(xs: seq<real>) returns (sum: real)
    ensures sum == Sum(xs)
  {
    sum := 0.0;
    for i := 0 to |xs|
      invariant sum == Sum(xs[..i])
    {
      assert xs[..i + 1][..i] == xs[..i];
      sum := sum + xs[i];
    }
    assert xs[..|xs|] == xs;
  }

  method SquaresOf(xs: seq<real>, mean: real) returns (sum: real)
    ensures sum == SquaresAbout(xs, mean)
  {
    sum := 0.0;
    for i := 0 to |xs|
      invariant sum == SquaresAbout(xs[..i], mean)
    {
      assert xs[..i + 1][..i] == xs[..i];
      var diff := xs[i] - mean;
      sum := sum + diff * diff;
    }
    assert xs[..|xs|] == xs;
  }

  method CountChanges(buf: seq<Sample>) returns (changes: nat)
    requires buf != []
    ensures changes == Changes(buf)
  {
    changes := 0;
    for i := 1 to |buf|
      invariant changes == Changes(buf[..i])
    {
      assert buf[..i + 1][..i] == buf[..i];
      var diff := buf[i].fanDemandPct - buf[i - 1].fanDemandPct;
      if diff < 0 {
        diff := -diff;
      }
      if diff >= 1 {
        changes := changes + 1;
      }
    }
    assert buf[..|buf|] == buf;
  }

  // ------------------------------------------------------------------ the class

  class Observer {
    const p: Params
    var buffers: map<Class, seq<Sample>>
    var lastInlet: real
    var haveLastInlet: bool

    ghost predicate Valid()
      reads this
    {
      p.Valid() && forall c :: c in buffers ==> |buffers[c]| <= p.windowSize
    }

    /** The observer's state as a value. */
    ghost function View(): WindowState
      reads this
    {
      WindowState(buffers, if haveLastInlet then Some(lastInlet) else None)
    }

    constructor (windowSize: int, inletJumpC: real)
      ensures Valid() && p == NewParams(windowSize, inletJumpC)
      ensures View() == EMPTY
    {
      p := NewParams(windowSize, inletJumpC);
      buffers := map[];
      lastInlet := 0.0;
      haveLastInlet := false;
    }

    method Add(c: Class, s: Sample) returns (accepted: bool, reset: bool)
      requires Valid()
      modifies this
      ensures Valid()
      ensures View() == old(View()).Added(p, c, s)
      ensures accepted == Sane(c, s)
      ensures reset == (accepted && old(View()).Jumps(p, s))
      ensures !accepted ==> View() == old(View())
    {
      hide DefaultEnvelope, AbsReal;
      var env := DefaultEnvelope(c);
      if env.Some? && s.tempCelsius < env.value.minSafe as real {
        return false, false;
      }
      if env.Some? && s.tempCelsius > 2.0 * env.value.emergency as real {
        return false, false;
      }
      reset := false;
      if haveLastInlet && AbsReal(s.inletCelsius - lastInlet) > p.inletJumpC {
        buffers := map d | d in buffers :: [];
        reset := true;
      }
      lastInlet := s.inletCelsius;
      haveLastInlet := true;
      var buf := if c in buffers then buffers[c] else [];
      if |buf| >= p.windowSize {
        buf := buf[1..];
      }
      buf := buf + [s];
      buffers := buffers[c := buf];
      return true, reset;
    }

    method Reset(c: Class)
      requires Valid()
      modifies this
      ensures Valid()
      ensures View() == old(View()).WithReset(c)
    {
      buffers := buffers[c := []];
    }

    method Stats(c: Class, sqrt: real -> real) returns (st: WindowStats)
      requires Valid()
      ensures st == StatsOf(View().Buffer(c), sqrt)
    {
      hide PercentileOf, Sum, SquaresAbout, Changes;
      var buf := if c in buffers then buffers[c] else [];
      if |buf| == 0 {
        return ZERO_STATS;
      }
      var n := |buf| as real;
      var tempSum := SumOf(Temps(buf));
      var tempMean := tempSum / n;
      var tempSquares := SquaresOf(Temps(buf), tempMean);
      var fanSum := SumOf(Demands(buf));
      var changes := CountChanges(buf);
      var duration := buf[|buf| - 1].timestamp - buf[0].timestamp;
      var changeRate := 0.0;
      if duration > 0.0 {
        changeRate := changes as real / (duration / 60.0);
      }
      var inletSum := SumOf(Inlets(buf));
      var inletMean := inletSum / n;
      var inletSquares := SquaresOf(Inlets(buf), inletMean);
      st := WindowStats(
        tempMean, sqrt(tempSquares / n),
        PercentileOf(Temps(buf), 10), PercentileOf(Temps(buf), 50), PercentileOf(Temps(buf), 90),
        fanSum / n, PercentileOf(Demands(buf), 90), changeRate,
        inletMean, sqrt(inletSquares / n),
        |buf|);
    }
  }
}
