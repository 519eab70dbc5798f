/** The main loop: cycle, sample, learn.  Thermal classes share one chassis fan
    but never each other's data. */
module ControlLoop {
  import opened Rounding
  import opened Thermal
  import opened Control
  import opened Settings
  import opened Observation
  import opened FanController
  import opened LearnIntegration
  import opened Handoff

  /** What one tick of the main loop is given. */
  datatype TickInput = TickInput(reading: Option<Reading>, now: real, sampledAt: real, learn: bool)

  /** The state the loop owns. */
  datatype App = App(ctrl: Ctrl, obs: WindowState, comfort: Quad<int>)

  /** The fixed surroundings of a run: limits, targets, observer parameters and
      the two library functions. */
  datatype Setup = Setup(
    l: Limits,
    pairs: Quad<Pair>,
    p: Observation.Params,
    decay: real -> real,
    sqrt: real -> real)

  // ------------------------------------------------------------------- sampling

  function SampleOf(s: Ctrl, c: Managed, at: real): Sample {
    Sample(at, s.lastTemp.At(c) as real, s.lastDemand.At(c), 0.0)
  }

  function SampledClass(p: Observation.Params, v: WindowState, s: Ctrl, c: Managed, at: real): WindowState
    requires p.Valid()
  {
    if s.lastTemp.At(c) < 0 then v else v.Added(p, c, SampleOf(s, c, at))
  }

  function SampledAll(p: Observation.Params, v: WindowState, s: Ctrl, cs: seq<Managed>, at: real): WindowState
    requires p.Valid()
  {
    if cs == [] then v
    else SampledClass(p, SampledAll(p, v, s, cs[..|cs| - 1], at), s, cs[|cs| - 1], at)
  }

  method SampleObserver(obs: Observer, c: Controller, at: real)
    requires obs.Valid()
    modifies obs
    ensures obs.Valid()
    ensures obs.View() == SampledAll(obs.p, old(obs.View()), c.View(), MANAGED, at)
  {
    hide WindowState.Added, Sane;
    for i := 0 to |MANAGED|
      invariant obs.Valid()
      invariant c.View() == old(c.View())
      invariant obs.View() == SampledAll(obs.p, old(obs.View()), c.View(), MANAGED[..i], at)
    {
      assert MANAGED[..i + 1][..i] == MANAGED[..i];
      var cl := MANAGED[i];
      if c.lastTemp.At(cl) >= 0 {
        var _, _ := obs.Add(cl, Sample(at, c.lastTemp.At(cl) as real, c.lastDemand.At(cl), 0.0));
      }
    }
    assert MANAGED[..|MANAGED|] == MANAGED;
  }

  // ------------------------------------------------------------------- one tick

  function TickOutcome(u: Setup, a: App, i: TickInput): Outcome {
    CycleStep(u.decay, u.l, a.comfort, a.ctrl, i.reading, i.now).1
  }

  function TickStep(u: Setup, a: App, i: TickInput): App
    requires u.p.Valid()
  {
    var ctrl := CycleStep(u.decay, u.l, a.comfort, a.ctrl, i.reading, i.now).0;
    var obs := SampledAll(u.p, a.obs, ctrl, MANAGED, i.sampledAt);
    App(ctrl, obs, if i.learn then Learned(u.l, a.comfort, u.pairs, WindowsOf(obs, u.sqrt)) else a.comfort)
  }

  /** One firing of the main ticker. */
  method Tick(c: Controller, obs: Observer, lt: Store, decay: real -> real, sqrt: real -> real, i: TickInput)
    requires obs.Valid()
    modifies c, c.client`bmc, c.cfg`comfort, c.cfg`pairs, obs
    ensures obs.Valid()
    ensures c.cfg.pairs == Overlaid(old(c.cfg.pairs), lt.targets)
    ensures App(c.View(), obs.View(), c.cfg.comfort)
         == TickStep(Setup(c.cfg.limits, c.cfg.pairs, obs.p, decay, sqrt),
                     App(old(c.View()), old(obs.View()), old(c.cfg.comfort)), i)
    ensures c.client.bmc
         == BmcAfter(old(c.client.bmc), c.client.fanIndices, c.fanControl,
                     CommandFor(old(c.View()), c.View(),
                                TickOutcome(Setup(c.cfg.limits, c.cfg.pairs, obs.p, decay, sqrt),
                                            App(old(c.View()), old(obs.View()), old(c.cfg.comfort)), i)))
    ensures c.fanControl == old(c.fanControl)
  {
    hide CycleStep, BmcAfter, CommandFor, SampledAll, WindowsOf, Learned;
    lt.ApplyTo(c.cfg);
    var _ := c.Cycle(decay, i.reading, i.now);
    SampleObserver(obs, c, i.sampledAt);
    if i.learn {
      var _ := RunLearnTick(c.cfg, obs, sqrt);
    }
  }

  // -------------------------------------------------------------- one class alone

  /** What one class owns of the loop's state. */
  datatype ClassView = ClassView(smooth: real, lastTemp: int, lastDemand: int, buffer: seq<Sample>, comfort: int)

  function ViewOf(a: App, c: Managed): ClassView {
    ClassView(a.ctrl.smooth.At(c), a.ctrl.lastTemp.At(c), a.ctrl.lastDemand.At(c), a.obs.Buffer(c), a.comfort.At(c))
  }

  /** Which way the cycle went, without its details. */
  datatype Exit = ExitFailed | ExitEmergency | ExitNormal

  function ExitOf(o: Outcome): Exit {
    match o
    case ReadFailed => ExitFailed
    case Emergency => ExitEmergency
    case Normal(_, _, _, _) => ExitNormal
  }

  /** The ring buffer of one class when no reset can happen. */
  function Pushed(p: Observation.Params, buffer: seq<Sample>, c: Managed, s: Sample): seq<Sample> {
    if !Sane(c, s) then buffer
    else (if |buffer| >= p.windowSize then (if buffer == [] then [] else buffer[1..]) else buffer) + [s]
  }

  /** The tick as one class lives it: its own raw reading, the shared clock and
      the way the cycle went. */
  function Alone(u: Setup, c: Managed, v: ClassView, last: Option<real>, exit: Exit, raw: int,
                 i: TickInput): ClassView {
    var smooth :=
      if exit.ExitFailed? then v.smooth
      else SmoothTemp(u.decay, v.smooth, raw, Elapsed(last, i.now, u.l.intervalSec));
    var updated := exit.ExitNormal? && raw > 0;
    var temp := if updated then raw else v.lastTemp;
    var demand :=
      if updated then CurveF(smooth, Min(v.comfort, u.l.Cap(c)), u.l.emergency.At(c), u.l.minFan, u.l.maxFan)
      else v.lastDemand;
    var buffer :=
      if temp < 0 then v.buffer else Pushed(u.p, v.buffer, c, Sample(i.sampledAt, temp as real, demand, 0.0));
    var comfort :=
      if i.learn then LearnedValue(u.l, c, v.comfort, u.pairs.At(c).target, StatsOf(buffer, u.sqrt)) else v.comfort;
    ClassView(smooth, temp, demand, buffer, comfort)
  }

  /** The inlet temperature is not wired up, so no sample ever jumps. */
  predicate QuietInlet(v: WindowState) {
    v.lastInlet == None || v.lastInlet == Some(0.0)
  }

  lemma AddedQuietly(p: Observation.Params, v: WindowState, c: Managed, s: Sample, d: Managed)
    requires p.Valid() && QuietInlet(v) && s.inletCelsius == 0.0
    ensures QuietInlet(v.Added(p, c, s))
    ensures v.Added(p, c, s).Buffer(d) == if d == c then Pushed(p, v.Buffer(c), c, s) else v.Buffer(d)
  {
    hide Sane;
  }

  lemma {:induction false} SampledPerClass(p: Observation.Params, v: WindowState, s: Ctrl, cs: seq<Managed>, at: real,
                                           d: Managed)
    requires p.Valid() && QuietInlet(v)
    requires forall i, j :: 0 <= i < j < |cs| ==> cs[i] != cs[j]
    ensures var v' := SampledAll(p, v, s, cs, at);
      && QuietInlet(v')
      && v'.Buffer(d) == if d in cs && s.lastTemp.At(d) >= 0 then Pushed(p, v.Buffer(d), d, SampleOf(s, d, at))
                         else v.Buffer(d)
  {
    hide WindowState.Added, WindowState.Buffer, Pushed, QuietInlet;
    if cs != [] {
      var n := |cs| - 1;
      SampledPerClass(p, v, s, cs[..n], at, d);
      if s.lastTemp.At(cs[n]) >= 0 {
        AddedQuietly(p, SampledAll(p, v, s, cs[..n], at), cs[n], SampleOf(s, cs[n], at), d);
      }
    }
  }

  /** What a cycle does to one class's temperatures and demand. */
  lemma CyclePerClass(u: Setup, a: App, i: TickInput, c: Managed)
    ensures var (s, o) := CycleStep(u.decay, u.l, a.comfort, a.ctrl, i.reading, i.now);
      && (ExitOf(o).ExitFailed? <==> i.reading.None?)
      && s.lastReadAt == (if i.reading.None? then a.ctrl.lastReadAt else Some(i.now))
      && (i.reading.None? ==> s.smooth == a.ctrl.smooth)
      && (i.reading.Some? ==>
            var dt := Elapsed(a.ctrl.lastReadAt, i.now, u.l.intervalSec);
            s.smooth.At(c) == SmoothTemp(u.decay, a.ctrl.smooth.At(c), i.reading.value.temp.At(c), dt))
      && (if ExitOf(o).ExitNormal? && i.reading.value.temp.At(c) > 0
          then s.lastTemp.At(c) == i.reading.value.temp.At(c)
               && s.lastDemand.At(c) == ClassCurve(u.l, a.comfort, s.smooth, c)
          else s.lastTemp.At(c) == a.ctrl.lastTemp.At(c) && s.lastDemand.At(c) == a.ctrl.lastDemand.At(c))
  {
    hide SmoothTemp, Elapsed, IsEmergency, ClassCurve, Assist, DemandOf, Slewed, Ewma, Winner;
  }

  /** Each class lives its tick alone. */
  lemma TickPerClass(u: Setup, a: App, i: TickInput, c: Managed)
    requires u.p.Valid() && QuietInlet(a.obs)
    ensures var exit := ExitOf(TickOutcome(u, a, i));
      && QuietInlet(TickStep(u, a, i).obs)
      && TickStep(u, a, i).ctrl.lastReadAt == (if i.reading.None? then a.ctrl.lastReadAt else Some(i.now))
      && (exit.ExitFailed? <==> i.reading.None?)
      && ViewOf(TickStep(u, a, i), c)
         == Alone(u, c, ViewOf(a, c), a.ctrl.lastReadAt, exit,
                  if i.reading.Some? then i.reading.value.temp.At(c) else 0, i)
  {
    hide CycleStep, SampledAll, Pushed, WindowState.Buffer, StatsOf, LearnedValue, SmoothTemp, Elapsed, CurveF;
    hide QuietInlet;
    CyclePerClass(u, a, i, c);
    var s := CycleStep(u.decay, u.l, a.comfort, a.ctrl, i.reading, i.now).0;
    SampledPerClass(u.p, a.obs, s, MANAGED, i.sampledAt, c);
    assert MANAGED[Position(c)] == c;
  }

  // -------------------------------------------------------------------- two runs

  function RunTicks(u: Setup, a: App, ins: seq<TickInput>): App
    requires u.p.Valid()
  {
    if ins == [] then a else TickStep(u, RunTicks(u, a, ins[..|ins| - 1]), ins[|ins| - 1])
  }

  /** Two inputs with the same clocks that show class `c` the same reading. */
  predicate SameFor(c: Managed, i: TickInput, j: TickInput) {
    && i.now == j.now && i.sampledAt == j.sampledAt && i.learn == j.learn
    && (i.reading.Some? <==> j.reading.Some?)
    && (i.reading.Some? ==> i.reading.value.temp.At(c) == j.reading.value.temp.At(c))
  }

  /** Two runs that agree on one class's readings, on the clocks and on when the
      emergency exit was taken. */
  ghost predicate RunsAgreeFor(u: Setup, c: Managed, a: App, b: App, xs: seq<TickInput>, ys: seq<TickInput>)
    requires u.p.Valid()
  {
    && |xs| == |ys|
    && (forall k :: 0 <= k < |xs| ==> SameFor(c, xs[k], ys[k]))
    && (forall k :: 0 <= k < |xs| ==>
          ExitOf(TickOutcome(u, RunTicks(u, a, xs[..k]), xs[k]))
          == ExitOf(TickOutcome(u, RunTicks(u, b, ys[..k]), ys[k])))
    && QuietInlet(a.obs) && QuietInlet(b.obs)
    && ViewOf(a, c) == ViewOf(b, c) && a.ctrl.lastReadAt == b.ctrl.lastReadAt
  }

  /** Cross-class non-interference: whatever the other classes read, and
      whatever the chassis fan did for them, a class's smoothed temperature,
      recorded demand, window and learned comfort are the same in both runs. */
  lemma {:induction false} ClassesDoNotInterfere(u: Setup, c: Managed, a: App, b: App, xs: seq<TickInput>,
                                                 ys: seq<TickInput>)
    requires u.p.Valid() && RunsAgreeFor(u, c, a, b, xs, ys)
    ensures var x, y := RunTicks(u, a, xs), RunTicks(u, b, ys);
      && ViewOf(x, c) == ViewOf(y, c)
      && x.ctrl.lastReadAt == y.ctrl.lastReadAt
      && QuietInlet(x.obs) && QuietInlet(y.obs)
  {
    if xs != [] {
      hide RunsAgreeFor, TickStep, TickOutcome, Alone, ViewOf, QuietInlet, ExitOf;
      var n := |xs| - 1;
      AgreeBefore(u, c, a, b, xs, ys);
      ClassesDoNotInterfere(u, c, a, b, xs[..n], ys[..n]);
      TickAgrees(u, c, RunTicks(u, a, xs[..n]), RunTicks(u, b, ys[..n]), xs[n], ys[n]);
    }
  }

  lemma AgreeBefore(u: Setup, c: Managed, a: App, b: App, xs: seq<TickInput>, ys: seq<TickInput>)
    requires u.p.Valid() && RunsAgreeFor(u, c, a, b, xs, ys) && xs != []
    ensures var n := |xs| - 1;
      && |ys| == |xs|
      && RunsAgreeFor(u, c, a, b, xs[..n], ys[..n])
      && SameFor(c, xs[n], ys[n])
      && ExitOf(TickOutcome(u, RunTicks(u, a, xs[..n]), xs[n]))
         == ExitOf(TickOutcome(u, RunTicks(u, b, ys[..n]), ys[n]))
  {
    hide TickStep, TickOutcome, ViewOf, QuietInlet, ExitOf, SameFor;
    var n := |xs| - 1;
    forall k | 0 <= k < n
      ensures xs[..n][..k] == xs[..k] && ys[..n][..k] == ys[..k]
    {
    }
  }

  lemma TickAgrees(u: Setup, c: Managed, a: App, b: App, i: TickInput, j: TickInput)
    requires u.p.Valid() && QuietInlet(a.obs) && QuietInlet(b.obs) && SameFor(c, i, j)
    requires ViewOf(a, c) == ViewOf(b, c) && a.ctrl.lastReadAt == b.ctrl.lastReadAt
    requires ExitOf(TickOutcome(u, a, i)) == ExitOf(TickOutcome(u, b, j))
    ensures ViewOf(TickStep(u, a, i), c) == ViewOf(TickStep(u, b, j), c)
    ensures TickStep(u, a, i).ctrl.lastReadAt == TickStep(u, b, j).ctrl.lastReadAt
    ensures QuietInlet(TickStep(u, a, i).obs) && QuietInlet(TickStep(u, b, j).obs)
  {
    hide TickStep, TickOutcome, Alone, ViewOf, QuietInlet;
    TickPerClass(u, a, i, c);
    TickPerClass(u, b, j, c);
    AloneSame(u, c, ViewOf(a, c), a.ctrl.lastReadAt, ExitOf(TickOutcome(u, a, i)),
              if i.reading.Some? then i.reading.value.temp.At(c) else 0, i, j);
  }

  /** A class's own tick does not look at the other classes' readings. */
  lemma AloneSame(u: Setup, c: Managed, v: ClassView, last: Option<real>, exit: Exit, raw: int, i: TickInput,
                  j: TickInput)
    requires SameFor(c, i, j)
    ensures Alone(u, c, v, last, exit, raw, i) == Alone(u, c, v, last, exit, raw, j)
  {
  }
}
