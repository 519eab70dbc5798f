/** Full buffers held at one temperature and one demand: the windows on which
    failing cases are exhibited. */
module SteadyWindows {
  import opened Rounding
  import opened Mode
  import opened Observation
  import opened ObserverHistory
  import opened Moments

  /** A full buffer of one class, held at a temperature and a demand. */
  function SteadyBuffer(n: nat, temp: real, demand: int): (b: seq<Sample>)
    ensures |b| == n && forall i :: 0 <= i < n ==> b[i] == Sample(i as real, temp, demand, 0.0)
  {
    seq(n, i requires 0 <= i < n => Sample(i as real, temp, demand, 0.0))
  }

  lemma {:induction false} NoChanges(n: nat, temp: real, demand: int)
    ensures Changes(SteadyBuffer(n, temp, demand)) == 0
  {
    if n >= 2 {
      NoChanges(n - 1, temp, demand);
      assert SteadyBuffer(n, temp, demand)[..n - 1] == SteadyBuffer(n - 1, temp, demand);
    }
  }

  lemma SteadyChangeRate(n: nat, temp: real, demand: int, sqrt: real -> real)
    requires n > 0
    ensures StatsOf(SteadyBuffer(n, temp, demand), sqrt).fanChangeRate == 0.0
  {
    hide StatsOf, SteadyBuffer, ChangeRate;
    NoChanges(n, temp, demand);
    RateOfWindow(SteadyBuffer(n, temp, demand), sqrt);
    NoRate(SteadyBuffer(n, temp, demand));
  }

  lemma NoRate(buf: seq<Sample>)
    requires buf != [] && Changes(buf) == 0
    ensures ChangeRate(buf) == 0.0
  {
    hide Changes;
    var minutes := (buf[|buf| - 1].timestamp - buf[0].timestamp) / 60.0;
    if minutes > 0.0 {
      Quotient(0.0, minutes);
      assert 0.0 / minutes == 0.0;
    }
  }

  /** What such a buffer shows. */
  lemma SteadyWindow(n: nat, temp: real, demand: int, sqrt: real -> real)
    requires n > 0 && IsSqrt(sqrt)
    ensures var st := StatsOf(SteadyBuffer(n, temp, demand), sqrt);
      && st.tempMean == temp && st.tempStdDev == 0.0 && st.fanChangeRate == 0.0
      && st.fanDemandP90 == demand as real && st.samples == n
  {
    hide StatsOf, IsSqrt;
    ConstantWindow(SteadyBuffer(n, temp, demand), sqrt, temp, demand);
    SteadyChangeRate(n, temp, demand, sqrt);
  }
}
