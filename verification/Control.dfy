/** The pure control law: temperature-to-fan curve, time-aware smoothing,
    asymmetric down-slew, active-GPU assist and max-wins. */
module Control {
  import opened Rounding

  // ---------------------------------------------------------------- the curve

  /** The curve before rounding: `lo` up to `comfort`, a straight ramp to `hi`
      at `emergency`, `hi` above it. */
  function Ramp(temp: real, comfort: real, emergency: real, lo: real, hi: real): real
    requires comfort < emergency
  {
    if temp <= comfort then lo
    else
      var f := lo + (temp - comfort) / (emergency - comfort) * (hi - lo);
      if f > hi then hi else f
  }

  function CurveF(temp: real, comfort: int, emergency: int, minFan: int, maxFan: int): int {
    if temp <= 0.0 then 0
    else if emergency - comfort <= 0 then
      if temp >= emergency as real then maxFan else minFan
    else
      var diff := temp - comfort as real;
      if diff <= 0.0 then minFan
      else
        var f := minFan as real + diff / (emergency - comfort) as real * (maxFan - minFan) as real;
        RoundHalfUp(if f > maxFan as real then maxFan as real else f)
  }

  /** On a real ramp and a present class, CurveF is the ramp rounded half up. */
  lemma CurveIsRoundedRamp(temp: real, comfort: int, emergency: int, minFan: int, maxFan: int)
    requires comfort < emergency && temp > 0.0
    ensures CurveF(temp, comfort, emergency, minFan, maxFan)
         == RoundHalfUp(Ramp(temp, comfort as real, emergency as real, minFan as real, maxFan as real))
  {
    assert (emergency - comfort) as real == emergency as real - comfort as real;
    assert (maxFan - minFan) as real == maxFan as real - minFan as real;
  }

  /** The smaller numerator over the larger window is the smaller fraction. */
  lemma FractionOrder(q1: real, w1: real, q2: real, w2: real)
    requires 0.0 < w2 <= w1 && q1 >= 0.0
    requires q1 * w1 <= q2 * w2
    ensures q1 <= q2
  {
    if q2 < q1 {
      MulStrict(w2, q2, q1);
      MulMonotone(q1, w2, w1);
    }
  }

  /** A ramp is `lo + q * (hi - lo)` for the climbed fraction `q`. */
  lemma RampFraction(temp: real, comfort: real, emergency: real, lo: real, hi: real) returns (q: real)
    requires comfort < emergency && lo <= hi
    ensures 0.0 <= q <= 1.0
    ensures temp <= comfort ==> q == 0.0
    ensures temp >= emergency ==> q == 1.0
    ensures comfort <= temp <= emergency ==> q * (emergency - comfort) == temp - comfort
    ensures Ramp(temp, comfort, emergency, lo, hi) == lo + q * (hi - lo)
  {
    if temp <= comfort {
      q := 0.0;
    } else {
      var p := (temp - comfort) / (emergency - comfort);
      Quotient(temp - comfort, emergency - comfort);
      q := if temp >= emergency then 1.0 else p;
      if temp >= emergency {
        MulMonotone(hi - lo, 1.0, p);
      } else {
        MulMonotone(hi - lo, p, 1.0);
      }
    }
  }

  lemma RampRange(temp: real, comfort: real, emergency: real, lo: real, hi: real)
    requires comfort < emergency && lo <= hi
    ensures lo <= Ramp(temp, comfort, emergency, lo, hi) <= hi
    ensures temp >= emergency ==> Ramp(temp, comfort, emergency, lo, hi) == hi
  {
    hide *;
    var q := RampFraction(temp, comfort, emergency, lo, hi);
    PartOf(q, hi - lo);
  }

  /** Moving the ramp start up by no more than the temperature moved never
      lowers the demand.  With equal starts this is monotonicity in temperature. */
  lemma RampFollowsShift(t1: real, c1: real, t2: real, c2: real, e: real, lo: real, hi: real)
    requires c1 <= c2 < e && lo <= hi
    requires t2 - c2 >= t1 - c1
    ensures Ramp(t1, c1, e, lo, hi) <= Ramp(t2, c2, e, lo, hi)
  {
    hide *;
    var q1 := RampFraction(t1, c1, e, lo, hi);
    var q2 := RampFraction(t2, c2, e, lo, hi);
    if c1 < t1 && t2 < e {
      FractionOrder(q1, e - c1, q2, e - c2);
    }
    MulMonotone(hi - lo, q1, q2);
  }

  /** A later ramp start never raises the demand at the same temperature. */
  lemma RampAntitoneInComfort(t: real, c1: real, c2: real, e: real, lo: real, hi: real)
    requires c1 <= c2 < e && lo <= hi
    ensures Ramp(t, c2, e, lo, hi) <= Ramp(t, c1, e, lo, hi)
  {
    hide *;
    var q1 := RampFraction(t, c1, e, lo, hi);
    var q2 := RampFraction(t, c2, e, lo, hi);
    if c2 < t < e {
      // The fractions still to climb are e - t over the two windows.
      assert (1.0 - q1) * (e - c1) == e - t;
      assert (1.0 - q2) * (e - c2) == e - t;
      FractionOrder(1.0 - q1, e - c1, 1.0 - q2, e - c2);
    }
    MulMonotone(hi - lo, q2, q1);
  }

  /** The gain of a ramp is its height over its width: a move of `g` windows
      in temperature moves the demand by at most `g` heights. */
  lemma RampGain(t1: real, t2: real, c: real, e: real, lo: real, hi: real, g: real)
    requires c < e && lo <= hi
    requires AbsReal(t1 - t2) <= Times(g, e - c)
    ensures AbsReal(Ramp(t1, c, e, lo, hi) - Ramp(t2, c, e, lo, hi)) <= Times(g, hi - lo)
  {
    hide Ramp;
    if t1 <= t2 {
      RampRise(t1, t2, c, e, lo, hi, g);
    } else {
      RampRise(t2, t1, c, e, lo, hi, g);
    }
  }

  lemma RampRise(t1: real, t2: real, c: real, e: real, lo: real, hi: real, g: real)
    requires c < e && lo <= hi
    requires t1 <= t2 <= t1 + g * (e - c)
    ensures 0.0 <= Ramp(t2, c, e, lo, hi) - Ramp(t1, c, e, lo, hi) <= g * (hi - lo)
  {
    hide *;
    RampFollowsShift(t1, c, t2, c, e, lo, hi);
    var q1 := RampFraction(t1, c, e, lo, hi);
    var q2 := RampFraction(t2, c, e, lo, hi);
    var x1 := ClampedRise(t1, c, e, q1);
    var x2 := ClampedRise(t2, c, e, q2);
    calc {
      q2 * (e - c) - q1 * (e - c);
      x2 - x1;
    <=
      t2 - t1;
    <=
      g * (e - c);
    }
    RiseBound(q1, q2, g, e - c, hi - lo);
  }

  lemma ClampedRise(t: real, c: real, e: real, q: real) returns (x: real)
    requires c < e
    requires t <= c ==> q == 0.0
    requires t >= e ==> q == 1.0
    requires c <= t <= e ==> q * (e - c) == t - c
    ensures x == MinReal(MaxReal(t - c, 0.0), e - c)
    ensures q * (e - c) == x
  {
    x := MinReal(MaxReal(t - c, 0.0), e - c);
  }

  lemma RiseBound(q1: real, q2: real, g: real, w: real, h: real)
    requires w > 0.0 && h >= 0.0
    requires q2 * w - q1 * w <= g * w
    ensures q2 * h - q1 * h <= g * h
  {
    if g < q2 - q1 {
      MulStrict(w, g, q2 - q1);
    }
    MulMonotone(h, q2 - q1, g);
  }

  // ------------------------------------------------------------ rate limiting

  function SlewDown(prev: int, want: int, dtSec: real, downPctPerSec: real): int {
    if want >= prev || downPctPerSec <= 0.0 then want
    else
      var maxDrop := DropFor(dtSec, downPctPerSec);
      if prev - want > maxDrop then prev - maxDrop else want
  }

  /** The largest fall one cycle may apply. */
  function DropFor(dtSec: real, downPctPerSec: real): (d: int)
    ensures d >= 1
  {
    Max(1, RoundHalfAway(downPctPerSec * dtSec))
  }

  /** Rises pass, falls are limited: the result is the larger of the two. */
  lemma SlewIsMax(prev: int, want: int, dtSec: real, rate: real)
    requires rate > 0.0
    ensures SlewDown(prev, want, dtSec, rate) == Max(want, prev - DropFor(dtSec, rate))
  {
  }

  /** The largest fall is the rate times the elapsed time to within half a
      percent, and one percent when that is less. */
  lemma DropIsRateTimesTime(dt: real, rate: real)
    requires rate > 0.0 && dt > 0.0
    ensures Times(rate, dt) >= 0.5 ==> AbsReal(DropFor(dt, rate) as real - Times(rate, dt)) <= 0.5
    ensures Times(rate, dt) < 0.5 ==> DropFor(dt, rate) == 1
    ensures Times(rate, dt) - 0.5 <= DropFor(dt, rate) as real <= Times(rate, dt) + 1.0
  {
    PositiveProduct(rate, dt);
  }

  /** A fall that the rate limits is the rate times the elapsed time. */
  lemma SlewFallsAtRate(prev: int, want: int, dt: real, rate: real)
    requires rate > 0.0 && dt > 0.0 && Times(rate, dt) >= 0.5
    requires (prev - want) as real >= Times(rate, dt) + 0.5
    ensures AbsReal((prev - SlewDown(prev, want, dt, rate)) as real - Times(rate, dt)) <= 0.5
  {
    hide Times, DropFor;
    DropIsRateTimesTime(dt, rate);
    SlewIsMax(prev, want, dt, rate);
  }

  // ---------------------------------------------------------------- smoothing

  /** `decay(x)` stands for exp(-x): the laws the smoothing relies on. */
  ghost predicate IsDecay(decay: real -> real) {
    && decay(0.0) == 1.0
    && (forall x: real :: x > 0.0 ==> 0.0 < decay(x) < 1.0)
    && (forall x: real, y: real :: x >= 0.0 && y >= 0.0 ==> decay(x + y) == decay(x) * decay(y))
  }

  function EwmaDt(decay: real -> real, prev: real, sample: real, dtSec: real, tauSec: real): real {
    if tauSec <= 0.0 then sample
    else if dtSec <= 0.0 then prev
    else
      var alpha := 1.0 - decay(dtSec / tauSec);
      prev + alpha * (sample - prev)
  }

  function Ewma(prev: real, sample: real, alpha: real): real {
    (1.0 - alpha) * prev + alpha * sample
  }

  /** The distance to a held sample shrinks by exactly the decay factor. */
  lemma EwmaDistance(decay: real -> real, prev: real, sample: real, level: real, dt: real, tau: real)
    requires dt > 0.0 && tau > 0.0
    ensures EwmaDt(decay, prev, sample, dt, tau) - level
         == decay(dt / tau) * (prev - level) + (1.0 - decay(dt / tau)) * (sample - level)
  {
    var d := decay(dt / tau);
    assert prev + (1.0 - d) * (sample - prev) - level == d * (prev - level) + (1.0 - d) * (sample - level);
  }

  /** A weighted mean stays between its two ends. */
  lemma MixBetween(d: real, e: real, x: real, y: real, lo: real, hi: real)
    requires d >= 0.0 && e >= 0.0 && d + e == 1.0
    requires lo <= x <= hi && lo <= y <= hi
    ensures lo <= x * d + y * e <= hi
  {
    calc {
      lo;
      lo * (d + e);
      lo * d + lo * e;
    <= { MulMonotone(d, lo, x); }
      x * d + lo * e;
    <= { MulMonotone(e, lo, y); }
      x * d + y * e;
    }
    calc {
      x * d + y * e;
    <= { MulMonotone(d, x, hi); }
      hi * d + y * e;
    <= { MulMonotone(e, y, hi); }
      hi * d + hi * e;
      hi * (d + e);
      hi;
    }
  }

  lemma EwmaBetween(decay: real -> real, prev: real, sample: real, dt: real, tau: real, lo: real, hi: real)
    requires IsDecay(decay) && dt > 0.0 && tau > 0.0
    requires lo <= prev <= hi && lo <= sample <= hi
    ensures lo <= EwmaDt(decay, prev, sample, dt, tau) <= hi
  {
    PositiveQuotient(dt, tau);
    MixBetween(decay(dt / tau), 1.0 - decay(dt / tau), prev, sample, lo, hi);
    EwmaDistance(decay, prev, sample, 0.0, dt, tau);
  }

  lemma PositiveQuotient(x: real, y: real)
    requires x > 0.0 && y > 0.0
    ensures x / y > 0.0
  {
  }

  // ---------------------------------------------------------------- the assist

  function ActiveGPUAssist(ownFan: int, threshold: int, minFan: int, maxFan: int): int {
    if ownFan < threshold then 0
    else if threshold >= 100 then
      if ownFan >= 100 then maxFan else 0
    else Clamp(minFan + AssistLift(Min(ownFan, 100) - threshold, 100 - threshold, maxFan - minFan), minFan, maxFan)
  }

  /** The share `x / w` of a height, rounded to a whole percent. */
  function AssistLift(x: int, w: int, h: int): int
    requires w > 0
  {
    RoundHalfAway(Share(x as real, w as real, h as real))
  }

  function Share(x: real, w: real, h: real): real
    requires w > 0.0
  {
    x / w * h
  }

  // ------------------------------------------------------------------ max-wins

  datatype Source = FromCPU | FromPG | FromHDD | FromSSD | FromAssist | FromSlew

  datatype Candidate = Candidate(name: Source, value: int)

  /** `k` is the first of the largest candidates. */
  predicate Wins(cs: seq<Candidate>, k: nat) {
    && k < |cs|
    && (forall i :: 0 <= i < |cs| ==> cs[i].value <= cs[k].value)
    && (forall i :: 0 <= i < k ==> cs[i].value < cs[k].value)
  }

  /** The winning index over the candidates in order. */
  function Winner(cs: seq<Candidate>): (k: nat)
    requires |cs| > 0
    ensures Wins(cs, k)
  {
    if |cs| == 1 then 0
    else
      var k := Winner(cs[..|cs| - 1]);
      if cs[|cs| - 1].value > cs[k].value then |cs| - 1 else k
  }

  lemma WinnerUnique(cs: seq<Candidate>, j: nat, k: nat)
    requires Wins(cs, j) && Wins(cs, k)
    ensures j == k
  {
    assert cs[j].value == cs[k].value;
  }

  method MaxWins(initial: Candidate, candidates: seq<Candidate>, minFan: int, maxFan: int)
    returns (newSpeed: int, src: Source)
    ensures var all := [initial] + candidates;
            exists k: nat :: Wins(all, k) && src == all[k].name && newSpeed == Clamp(all[k].value, minFan, maxFan)
  {
    var all := [initial] + candidates;
    newSpeed := initial.value;
    src := initial.name;
    ghost var k: nat := 0;
    for i := 0 to |candidates|
      invariant Wins(all[..i + 1], k)
      invariant newSpeed == all[k].value && src == all[k].name
    {
      assert all[..i + 2][..i + 1] == all[..i + 1];
      assert all[i + 1] == candidates[i];
      if candidates[i].value > newSpeed {
        newSpeed := candidates[i].value;
        src := candidates[i].name;
        k := i + 1;
      }
    }
    assert all[..|candidates| + 1] == all;
    newSpeed := Clamp(newSpeed, minFan, maxFan);
    assert Wins(all, k);
  }
}
