/** What the mean, the spread and the change rate of a window say about its
    samples. */
module Moments {
  import opened Rounding
  import opened Mode
  import opened Observation
  import opened ObserverHistory

  // ----------------------------------------------------------------------- sums

  /** A sum is over all of its parts, once each. */
  lemma {:induction false} SumSplits(xs: seq<real>, ys: seq<real>)
    ensures Sum(xs + ys) == Sum(xs) + Sum(ys)
  {
    if ys == [] {
      assert xs + ys == xs;
    } else {
      assert (xs + ys)[..|xs + ys| - 1] == xs + ys[..|ys| - 1];
      SumSplits(xs, ys[..|ys| - 1]);
    }
  }

  lemma {:induction false} SumBetween(xs: seq<real>, lo: real, hi: real)
    requires forall i :: 0 <= i < |xs| ==> lo <= xs[i] <= hi
    ensures Times(|xs| as real, lo) <= Sum(xs) <= Times(|xs| as real, hi)
  {
    hide Times;
    if xs == [] {
      TimesZero(lo);
      TimesZero(hi);
    } else {
      SumBetween(xs[..|xs| - 1], lo, hi);
      OneMore((|xs| - 1) as real, lo);
      OneMore((|xs| - 1) as real, hi);
      assert |xs| as real == (|xs| - 1) as real + 1.0;
    }
  }

  /** A mean lies within the samples. */
  lemma MeanBetween(xs: seq<real>, lo: real, hi: real)
    requires xs != [] && forall i :: 0 <= i < |xs| ==> lo <= xs[i] <= hi
    ensures lo <= Mean(xs) <= hi
  {
    hide Times;
    SumBetween(xs, lo, hi);
    DivideBack(|xs| as real, lo);
    DivideBack(|xs| as real, hi);
    QuotientOrdered(Times(|xs| as real, lo), Sum(xs), |xs| as real);
    QuotientOrdered(Sum(xs), Times(|xs| as real, hi), |xs| as real);
  }

  lemma QuotientOrdered(x: real, y: real, w: real)
    requires x <= y && w > 0.0
    ensures x / w <= y / w
  {
  }

  // -------------------------------------------------------------------- squares

  function Squares(xs: seq<real>): (ys: seq<real>)
    ensures |ys| == |xs|
  {
    seq(|xs|, i requires 0 <= i < |xs| => Times(xs[i], xs[i]))
  }

  /** The squares about a point, expanded. */
  lemma {:induction false} SquaresExpand(xs: seq<real>, m: real)
    ensures SquaresAbout(xs, m)
         == Sum(Squares(xs)) - 2.0 * Times(m, Sum(xs)) + Times(|xs| as real, Times(m, m))
  {
    hide Times;
    if xs == [] {
      TimesZero(m);
      TimesZero(Times(m, m));
    } else {
      var n := |xs| - 1;
      SquaresExpand(xs[..n], m);
      assert Squares(xs)[..n] == Squares(xs[..n]);
      OneSquare(xs[n], m);
      Adds(m, Sum(xs[..n]), xs[n]);
      OneMore(n as real, Times(m, m));
      assert |xs| as real == n as real + 1.0;
    }
  }

  lemma OneSquare(x: real, m: real)
    ensures Times(x - m, x - m) == Times(x, x) - 2.0 * Times(m, x) + Times(m, m)
  {
  }

  lemma Adds(m: real, x: real, y: real)
    ensures Times(m, x + y) == Times(m, x) + Times(m, y)
  {
  }

  /** n squared times the variance is n times the sum of the squares less the
      square of the sum. */
  lemma VarianceIdentity(xs: seq<real>)
    requires xs != []
    ensures var n := |xs| as real;
      Times(Times(n, n), Variance(xs)) == Times(n, Sum(Squares(xs))) - Times(Sum(xs), Sum(xs))
  {
    hide Times, SquaresAbout, Sum, Mean, Variance, Squares;
    var n, m := |xs| as real, Mean(xs);
    SquaresExpand(xs, m);
    MeanTimesCount(xs);
    VarianceTimesCount(xs);
    Scaled(n, Sum(xs), m, Sum(Squares(xs)), SquaresAbout(xs, m), Variance(xs));
  }

  lemma VarianceTimesCount(xs: seq<real>)
    requires xs != []
    ensures Times(Variance(xs), |xs| as real) == SquaresAbout(xs, Mean(xs))
  {
    hide SquaresAbout, Mean;
    Quotient(SquaresAbout(xs, Mean(xs)), |xs| as real);
  }

  lemma Scaled(n: real, s: real, m: real, q: real, about: real, v: real)
    requires Times(m, n) == s && Times(v, n) == about
    requires about == q - 2.0 * Times(m, s) + Times(n, Times(m, m))
    ensures Times(Times(n, n), v) == Times(n, q) - Times(s, s)
  {
    calc {
      n * n * v;
      n * about;
      n * q - 2.0 * (n * (m * s)) + n * (n * (m * m));
      { assert n * (m * s) == s * s; assert n * (n * (m * m)) == s * s; }
      n * q - s * s;
    }
  }

  lemma {:induction false} SquaresDominate(xs: seq<real>, m: real, i: nat)
    ensures SquaresAbout(xs, m) >= 0.0
    ensures i < |xs| ==> SquaresAbout(xs, m) >= Times(xs[i] - m, xs[i] - m)
  {
    hide Times;
    if xs != [] {
      var n := |xs| - 1;
      SquareSign(xs[n] - m);
      SquaresDominate(xs[..n], m, i);
    }
  }

  lemma SpreadSquared(xs: seq<real>, sqrt: real -> real)
    requires IsSqrt(sqrt) && xs != []
    ensures var sd := sqrt(Variance(xs));
      && sd >= 0.0
      && Times(sd, sd) == Variance(xs)
      && Times(|xs| as real, Times(sd, sd)) == SquaresAbout(xs, Mean(xs))
  {
    hide Times, SquaresAbout, Sum;
    var about := SquaresAbout(xs, Mean(xs));
    SquaresDominate(xs, Mean(xs), 0);
    Quotient(about, |xs| as real);
    NotNegative(about, |xs| as real);
    TimesIs(|xs| as real, about / |xs| as real);
  }

  lemma NotNegative(x: real, w: real)
    requires x >= 0.0 && w > 0.0
    ensures x / w >= 0.0
  {
  }

  lemma TimesIs(x: real, y: real)
    ensures Times(x, y) == y * x
  {
  }

  // ------------------------------------------------------------------ the window

  /** The reported moments are those of the samples. */
  lemma StatsAreMoments(buf: seq<Sample>, sqrt: real -> real)
    requires IsSqrt(sqrt) && buf != []
    ensures var st, n := StatsOf(buf, sqrt), |buf| as real;
      && Times(st.tempMean, n) == Sum(Temps(buf))
      && Times(st.fanDemandMean, n) == Sum(Demands(buf))
      && Times(st.inletMean, n) == Sum(Inlets(buf))
      && st.tempStdDev >= 0.0 && st.inletStdDev >= 0.0
      && Times(Times(n, n), Times(st.tempStdDev, st.tempStdDev))
         == Times(n, Sum(Squares(Temps(buf)))) - Times(Sum(Temps(buf)), Sum(Temps(buf)))
      && Times(Times(n, n), Times(st.inletStdDev, st.inletStdDev))
         == Times(n, Sum(Squares(Inlets(buf)))) - Times(Sum(Inlets(buf)), Sum(Inlets(buf)))
  {
    hide Times, Variance, Sum, Squares, Changes, IsSqrt;
    MeanTimesCount(Temps(buf));
    MeanTimesCount(Demands(buf));
    MeanTimesCount(Inlets(buf));
    VarianceIdentity(Temps(buf));
    VarianceIdentity(Inlets(buf));
    SpreadSquared(Temps(buf), sqrt);
    SpreadSquared(Inlets(buf), sqrt);
  }

  lemma MeanTimesCount(xs: seq<real>)
    requires xs != []
    ensures Times(Mean(xs), |xs| as real) == Sum(xs)
  {
    Quotient(Sum(xs), |xs| as real);
  }

  /** A sample `d` away from the mean forces a spread of at least d / sqrt(n). */
  lemma OutlierForcesSpread(buf: seq<Sample>, sqrt: real -> real, i: nat)
    requires IsSqrt(sqrt) && i < |buf|
    ensures var st := StatsOf(buf, sqrt);
      Times(|buf| as real, Times(st.tempStdDev, st.tempStdDev))
      >= Times(buf[i].tempCelsius - st.tempMean, buf[i].tempCelsius - st.tempMean)
  {
    hide StatsOf, Times, SquaresAbout, Mean, Variance, IsSqrt;
    TempMoments(buf, sqrt);
    SpreadSquared(Temps(buf), sqrt);
    SquaresDominate(Temps(buf), Mean(Temps(buf)), i);
  }

  lemma SpreadExceeds(n: real, sd: real, bound: real)
    requires n > 0.0 && sd >= 0.0 && bound >= 0.0
    ensures Times(n, Times(sd, sd)) > Times(n, Times(bound, bound)) ==> sd > bound
  {
    if sd <= bound {
      MulMonotone(sd, sd, bound);
      MulMonotone(bound, sd, bound);
      MulMonotone(n, sd * sd, bound * bound);
    }
  }

  lemma TempMoments(buf: seq<Sample>, sqrt: real -> real)
    requires buf != []
    ensures var st := StatsOf(buf, sqrt); st.tempMean == Mean(Temps(buf)) && st.tempStdDev == sqrt(Variance(Temps(buf)))
  {
    hide Mean, Variance, ChangeRate;
  }

  /** No spread is reported exactly for a window of one temperature. */
  lemma NoSpreadIff(buf: seq<Sample>, sqrt: real -> real)
    requires IsSqrt(sqrt) && buf != []
    ensures StatsOf(buf, sqrt).tempStdDev == 0.0
       <==> forall i, j :: 0 <= i < |buf| && 0 <= j < |buf| ==> buf[i].tempCelsius == buf[j].tempCelsius
  {
    hide Times, StatsOf, IsSqrt;
    var st := StatsOf(buf, sqrt);
    if st.tempStdDev == 0.0 {
      forall i | 0 <= i < |buf|
        ensures buf[i].tempCelsius == st.tempMean
      {
        OutlierForcesSpread(buf, sqrt, i);
        TimesZero(0.0);
        TimesZero(|buf| as real);
        SquareSign(buf[i].tempCelsius - st.tempMean);
      }
    } else if forall i, j :: 0 <= i < |buf| && 0 <= j < |buf| ==> buf[i].tempCelsius == buf[j].tempCelsius {
      OneTemperature(buf, sqrt);
    }
  }

  lemma OneTemperature(buf: seq<Sample>, sqrt: real -> real)
    requires IsSqrt(sqrt) && buf != []
    requires forall i :: 0 <= i < |buf| ==> buf[i].tempCelsius == buf[0].tempCelsius
    ensures StatsOf(buf, sqrt).tempStdDev == 0.0
  {
    hide Times, Sum, SquaresAbout, Changes;
    var t := buf[0].tempCelsius;
    SumOfConstant(Temps(buf), t);
    DivideBack(|buf| as real, t);
    assert Variance(Temps(buf)) == 0.0;
    SquareSign(sqrt(0.0));
  }

  // ------------------------------------------------------------ the change rate

  /** The positions at which the demand differs from the sample before. */
  function ChangedAt(buf: seq<Sample>): set<int> {
    set i | 1 <= i < |buf| && Differs(buf, i)
  }

  predicate Differs(buf: seq<Sample>, i: int)
    requires 1 <= i < |buf|
  {
    buf[i].fanDemandPct != buf[i - 1].fanDemandPct
  }

  lemma {:induction false} ChangesAreCounted(buf: seq<Sample>)
    ensures Changes(buf) == |ChangedAt(buf)|
  {
    if |buf| < 2 {
      assert ChangedAt(buf) == {};
    } else {
      var n := |buf| - 1;
      ChangesAreCounted(buf[..n]);
      assert forall i :: 1 <= i < n ==> (Differs(buf, i) <==> Differs(buf[..n], i));
      if buf[n].fanDemandPct != buf[n - 1].fanDemandPct {
        assert ChangedAt(buf) == ChangedAt(buf[..n]) + {n};
      } else {
        assert ChangedAt(buf) == ChangedAt(buf[..n]);
      }
    }
  }

  /** The change rate is the number of demand changes per minute, and zero when
      no time passed. */
  lemma RateIsPerMinute(buf: seq<Sample>, sqrt: real -> real)
    requires buf != []
    ensures var st, seconds := StatsOf(buf, sqrt), buf[|buf| - 1].timestamp - buf[0].timestamp;
      if seconds > 0.0 then Times(st.fanChangeRate, seconds) == 60.0 * |ChangedAt(buf)| as real
      else st.fanChangeRate == 0.0
  {
    hide StatsOf, Changes, ChangedAt;
    ChangesAreCounted(buf);
    RateOfWindow(buf, sqrt);
    var seconds := buf[|buf| - 1].timestamp - buf[0].timestamp;
    if seconds > 0.0 {
      PerMinute(Changes(buf) as real, seconds);
    }
  }

  lemma RateOfWindow(buf: seq<Sample>, sqrt: real -> real)
    requires buf != []
    ensures StatsOf(buf, sqrt).fanChangeRate == ChangeRate(buf)
  {
    hide ChangeRate, Mean, Variance;
  }

  lemma PerMinute(x: real, seconds: real)
    requires seconds > 0.0
    ensures Times(x / (seconds / 60.0), seconds) == 60.0 * x
  {
    var minutes := seconds / 60.0;
    Quotient(x, minutes);
    calc {
      x / minutes * seconds;
      x / minutes * (minutes * 60.0);
      x / minutes * minutes * 60.0;
      60.0 * x;
    }
  }
}
