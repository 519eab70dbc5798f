/** What the ring buffers hold after any interleaving of additions and resets,
    stated over the whole event history. */
module ObserverHistory {
  import opened Rounding
  import opened Thermal
  import opened Mode
  import opened Percentile
  import opened Observation

  datatype Event = AddEvent(class_: Class, sample: Sample) | ResetEvent(class_: Class)

  /** The observer after a history, from empty. */
  function After(p: Params, es: seq<Event>): WindowState
    requires p.Valid()
  {
    if es == [] then EMPTY
    else
      var before := After(p, es[..|es| - 1]);
      match es[|es| - 1]
      case AddEvent(c, s) => before.Added(p, c, s)
      case ResetEvent(c) => before.WithReset(c)
  }

  predicate Accepts(e: Event) {
    e.AddEvent? && Sane(e.class_, e.sample)
  }

  /** The inlet of the latest accepted sample of any class. */
  function Baseline(es: seq<Event>): Option<real> {
    if es == [] then None
    else
      var e := es[|es| - 1];
      if Accepts(e) then Some(e.sample.inletCelsius) else Baseline(es[..|es| - 1])
  }

  /** The last event of `es` is an accepted sample whose inlet jumped. */
  predicate IsJump(p: Params, es: seq<Event>) {
    && es != []
    && Accepts(es[|es| - 1])
    && var base := Baseline(es[..|es| - 1]);
       base.Some? && AbsReal(es[|es| - 1].sample.inletCelsius - base.value) > p.inletJumpC
  }

  /** From which event on class `c` has not been emptied. */
  function Cut(p: Params, es: seq<Event>, c: Class): (k: nat)
    ensures k <= |es|
  {
    if es == [] then 0
    else if es[|es| - 1] == ResetEvent(c) then |es|
    else if IsJump(p, es) then |es| - 1
    else Cut(p, es[..|es| - 1], c)
  }

  /** The accepted samples of class `c`, in order. */
  function AcceptedOf(es: seq<Event>, c: Class): seq<Sample> {
    if es == [] then []
    else
      var e := es[|es| - 1];
      AcceptedOf(es[..|es| - 1], c) + if Accepts(e) && e.class_ == c then [e.sample] else []
  }

  function LastN<T>(s: seq<T>, n: nat): seq<T> {
    if |s| <= n then s else s[|s| - n..]
  }

  lemma {:induction false} BaselineIsLastInlet(p: Params, es: seq<Event>)
    requires p.Valid()
    ensures After(p, es).lastInlet == Baseline(es)
  {
    if es != [] {
      BaselineIsLastInlet(p, es[..|es| - 1]);
    }
  }

  lemma LastNStep<T>(h: seq<T>, x: T, n: nat)
    requires n > 0
    ensures var buf := LastN(h, n);
      LastN(h + [x], n) == (if |buf| >= n then buf[1..] else buf) + [x]
  {
  }

  lemma AcceptedStep(es: seq<Event>, k: nat, c: Class)
    requires k < |es|
    ensures var e := es[|es| - 1];
      AcceptedOf(es[k..], c)
        == AcceptedOf(es[..|es| - 1][k..], c) + if Accepts(e) && e.class_ == c then [e.sample] else []
  {
    assert es[k..][..|es| - 1 - k] == es[..|es| - 1][k..];
  }

  /** What one addition does to the buffer of any class. */
  lemma AddedBuffer(p: Params, st: WindowState, c: Class, s: Sample, d: Class)
    requires p.Valid()
    ensures var kept := if st.Jumps(p, s) then [] else st.Buffer(d);
      st.Added(p, c, s).Buffer(d)
        == if !Sane(c, s) then st.Buffer(d)
           else if d != c then kept
           else (if |kept| >= p.windowSize then kept[1..] else kept) + [s]
  {
  }

  lemma LastEvent(p: Params, es: seq<Event>, c: Class)
    requires p.Valid() && es != []
    ensures var st, e := After(p, es[..|es| - 1]), es[|es| - 1];
      After(p, es).Buffer(c)
        == if e == ResetEvent(c) then []
           else
             var kept := if IsJump(p, es) then [] else st.Buffer(c);
             if Accepts(e) && e.class_ == c
             then (if |kept| >= p.windowSize then kept[1..] else kept) + [e.sample]
             else kept
  {
    hide Sane, AbsReal, Baseline;
    BaselineIsLastInlet(p, es[..|es| - 1]);
    var st, e := After(p, es[..|es| - 1]), es[|es| - 1];
    if e.AddEvent? {
      hide WindowState.Added;
      AddedBuffer(p, st, e.class_, e.sample, c);
    }
  }

  /** Window refinement: after any history, each class's buffer is the last
      `windowSize` accepted samples of that class since it was last emptied. */
  lemma {:induction false} BufferIsRecentHistory(p: Params, es: seq<Event>, c: Class)
    requires p.Valid()
    ensures After(p, es).Buffer(c) == LastN(AcceptedOf(es[Cut(p, es, c)..], c), p.windowSize)
  {
    if es != [] {
      hide Accepts, IsJump, LastN, AcceptedOf, WindowState.Buffer, After;
      var front, e := es[..|es| - 1], es[|es| - 1];
      BufferIsRecentHistory(p, front, c);
      LastEvent(p, es, c);
      NothingYet(c, p.windowSize);
      if e == ResetEvent(c) {
        assert es[|es|..] == [];
      } else {
        var k := Cut(p, es, c);
        var kept := if IsJump(p, es) then [] else AcceptedOf(front[k..], c);
        AcceptedStep(es, k, c);
        assert IsJump(p, es) ==> front[k..] == [];
        if Accepts(e) && e.class_ == c {
          LastNStep(kept, e.sample, p.windowSize);
        } else {
          assert kept + [] == kept;
        }
      }
    }
  }

  lemma NothingYet(c: Class, n: nat)
    ensures AcceptedOf([], c) == [] && LastN<Sample>([], n) == []
  {
  }

  /** A rejected sample leaves no trace anywhere in the future. */
  lemma {:induction false} RejectedSampleIsInvisible(p: Params, es: seq<Event>, k: nat)
    requires p.Valid() && k < |es|
    requires es[k].AddEvent? && !Sane(es[k].class_, es[k].sample)
    ensures After(p, es) == After(p, es[..k] + es[k + 1..])
  {
    var without := es[..k] + es[k + 1..];
    if k == |es| - 1 {
      assert without == es[..k];
    } else {
      RejectedSampleIsInvisible(p, es[..|es| - 1], k);
      assert without[..|without| - 1] == es[..|es| - 1][..k] + es[..|es| - 1][k + 1..];
      assert without[|without| - 1] == es[|es| - 1];
    }
  }

  // ------------------------------------------------------------ the sanity band

  /** The temperatures a class can really have: from its envelope's bottom to
      twice its emergency; an active GPU has no envelope and is not filtered. */
  function SaneBand(c: Class): Option<(real, real)> {
    match c
    case CPU => Some((20.0, 180.0))
    case PassiveGPU => Some((30.0, 180.0))
    case HDD => Some((10.0, 100.0))
    case SSD => Some((15.0, 160.0))
    case ActiveGPU => None
  }

  predicate InBand(c: Class, t: real) {
    SaneBand(c).Some? ==> SaneBand(c).value.0 <= t <= SaneBand(c).value.1
  }

  predicate AllInBand(c: Class, buf: seq<Sample>) {
    forall i :: 0 <= i < |buf| ==> InBand(c, buf[i].tempCelsius)
  }

  /** After any history every sample of every window is inside its class's band. */
  lemma {:induction false} WindowsHoldTheBand(p: Params, es: seq<Event>, c: Class)
    requires p.Valid()
    ensures AllInBand(c, After(p, es).Buffer(c))
  {
    if es != [] {
      var before, e := After(p, es[..|es| - 1]), es[|es| - 1];
      WindowsHoldTheBand(p, es[..|es| - 1], c);
      if e.AddEvent? {
        hide SaneBand, InBand, Sane, WindowState.Added, WindowState.Buffer;
        AddedBuffer(p, before, e.class_, e.sample, c);
        SaneIsInBand(e.class_, e.sample);
      }
    }
  }

  /** A sample inside the band is the newest of its window as soon as it is
      added; one outside changes nothing. */
  lemma BandDecides(p: Params, st: WindowState, c: Class, s: Sample)
    requires p.Valid()
    ensures var after := st.Added(p, c, s);
      if InBand(c, s.tempCelsius) then after.Buffer(c) != [] && after.Buffer(c)[|after.Buffer(c)| - 1] == s
      else after == st
  {
    hide SaneBand, InBand, Sane;
    SaneIsInBand(c, s);
    AddedBuffer(p, st, c, s, c);
  }

  lemma SaneIsInBand(c: Class, s: Sample)
    ensures Sane(c, s) <==> InBand(c, s.tempCelsius)
  {
  }

  // --------------------------------------------------------- steady windows

  lemma {:induction false} SumOfConstant(xs: seq<real>, v: real)
    requires forall i :: 0 <= i < |xs| ==> xs[i] == v
    ensures Sum(xs) == Times(|xs| as real, v)
    ensures SquaresAbout(xs, v) == 0.0
  {
    if xs != [] {
      SumOfConstant(xs[..|xs| - 1], v);
      OneMore((|xs| - 1) as real, v);
      assert |xs| as real == (|xs| - 1) as real + 1.0;
    }
  }

  lemma OneMore(n: real, v: real)
    ensures Times(n + 1.0, v) == Times(n, v) + v
  {
  }

  lemma DivideBack(n: real, v: real)
    requires n > 0.0
    ensures Times(n, v) / n == v
  {
  }

  /** A window that reads one temperature and one demand is reported as exactly
      that, with no spread: what the convergence argument calls a settled window. */
  lemma ConstantWindow(buf: seq<Sample>, sqrt: real -> real, t: real, d: int)
    requires IsSqrt(sqrt) && buf != []
    requires forall i :: 0 <= i < |buf| ==> buf[i].tempCelsius == t && buf[i].fanDemandPct == d
    ensures var st := StatsOf(buf, sqrt);
      && st.tempMean == t && st.tempP10 == t && st.tempP50 == t && st.tempP90 == t
      && st.tempStdDev == 0.0
      && st.fanDemandMean == d as real && st.fanDemandP90 == d as real
      && st.samples == |buf|
  {
    hide PercentileOf, Times, Sum, SquaresAbout;
    SumOfConstant(Temps(buf), t);
    DivideBack(|buf| as real, t);
    SumOfConstant(Demands(buf), d as real);
    DivideBack(|buf| as real, d as real);
    PercentileOfConstant(Temps(buf), 10, t);
    PercentileOfConstant(Temps(buf), 50, t);
    PercentileOfConstant(Temps(buf), 90, t);
    PercentileOfConstant(Demands(buf), 90, d as real);
    assert Variance(Temps(buf)) == 0.0;
    SquareSign(sqrt(0.0));
  }

  /** Percentiles of a window are ordered. */
  lemma WindowPercentilesOrdered(buf: seq<Sample>, sqrt: real -> real)
    requires buf != []
    ensures var st := StatsOf(buf, sqrt); st.tempP10 <= st.tempP50 <= st.tempP90
  {
    PercentileMonotone(Temps(buf), 10, 50);
    PercentileMonotone(Temps(buf), 50, 90);
  }

  /** How many samples of a window demanded at least `d`. */
  function DemandCount(buf: seq<Sample>, d: int): nat {
    CountAtLeast(Demands(buf), d as real)
  }

  /** The saturation signal: p90 demand reaches `d` exactly when at least
      n - round(0.9 (n-1)) samples did, however deep the other samples dip. */
  lemma PinnedFanShows(buf: seq<Sample>, sqrt: real -> real, d: int)
    requires buf != []
    ensures StatsOf(buf, sqrt).fanDemandP90 >= d as real
       <==> DemandCount(buf, d) >= |buf| - PercentileIndex(90, |buf|)
  {
    PercentileByRank(Demands(buf), 90, d as real);
  }

  /** A tenth of the window is not enough: with exactly a tenth of its samples at
      `d` or above, or fewer, every window reports a p90 below `d`. */
  lemma TenthDoesNotShow(buf: seq<Sample>, sqrt: real -> real, d: int)
    requires buf != [] && 10 * DemandCount(buf, d) <= |buf|
    ensures StatsOf(buf, sqrt).fanDemandP90 < d as real
  {
    hide StatsOf, DemandCount, PercentileIndex;
    PinnedFanShows(buf, sqrt, d);
    NinetyNeedsMoreThanATenth(|buf|);
  }

  /** The p90 is one of the recorded demands. */
  lemma P90IsADemand(buf: seq<Sample>, sqrt: real -> real) returns (i: nat)
    requires buf != []
    ensures i < |buf| && StatsOf(buf, sqrt).fanDemandP90 == buf[i].fanDemandPct as real
  {
    i := PercentileIsASample(Demands(buf), 90);
  }

  /** Too few samples above the floor leave the p90 at the floor. */
  lemma FloorByRank(buf: seq<Sample>, sqrt: real -> real, minFan: int)
    requires buf != []
    requires DemandCount(buf, minFan + 1) < |buf| - PercentileIndex(90, |buf|)
    ensures StatsOf(buf, sqrt).fanDemandP90 <= minFan as real
  {
    hide *;
    PinnedFanShows(buf, sqrt, minFan + 1);
    var i := P90IsADemand(buf, sqrt);
    WholeBelow(buf[i].fanDemandPct, minFan);
  }

  lemma WholeBelow(x: int, m: int)
    ensures x as real < (m + 1) as real ==> x as real <= m as real
  {
    if x >= m + 1 {
      assert x as real >= (m + 1) as real;
    } else {
      assert x <= m;
    }
  }
}
