/** The convergence theorem for cooling plants, linear or not: any response that
    more fan never heats, held by the fan curve and trimmed by the learner. */
module PlantLoop {
  import opened Control
  import opened Learn
  import opened Convergence

  /** Where the plant settles under the curve with ramp start `c`. */
  ghost function SettledAt(p: Plant, c: int): (t: real)
    requires p.AlwaysSettles() && c < p.emergency
    ensures p.Equilibrium(t, c as real)
  {
    assert p.HasEquilibrium(c as real);
    var t: real :| p.Equilibrium(t, c as real);
    t
  }

  /** The recorded demand: the class's own curve, rounded as the controller
      rounds it. */
  ghost function DemandAt(p: Plant, c: int): int
    requires p.AlwaysSettles() && c < p.emergency
  {
    CurveF(SettledAt(p, c), c, p.emergency, p.minFan, p.maxFan)
  }

  /** The plant's closed loop. */
  ghost function LoopOf(p: Plant, target: int, minRamp: int, maxRamp: int): Loop
    requires p.AlwaysSettles()
  {
    Loop(c => if c < p.emergency then SettledAt(p, c) else 0.0,
         c => if c < p.emergency then DemandAt(p, c) else 0,
         target, minRamp, maxRamp, p.minFan)
  }

  /** Whatever its response, a cooling plant under the curve responds to the ramp
      start without overtaking it. */
  lemma CoolingPlantIsResponsive(p: Plant, target: int, minRamp: int, maxRamp: int)
    requires p.Cooling() && p.AlwaysSettles() && minRamp <= maxRamp < p.emergency
    ensures LoopOf(p, target, minRamp, maxRamp).Responsive()
  {
    hide CurveF, Plant.Equilibrium, Plant.Cooling, Plant.AlwaysSettles, SettledAt, DemandAt;
    var l := LoopOf(p, target, minRamp, maxRamp);
    forall c1, c2 | minRamp <= c1 <= c2 <= maxRamp
      ensures 0.0 <= l.settled(c2) - l.settled(c1) <= (c2 - c1) as real
    {
      EquilibriumShift(p, c1 as real, SettledAt(p, c1), c2 as real, SettledAt(p, c2));
    }
  }

  /** Any equilibrium that is observed is the one where the plant settles. */
  lemma ObservedIsSettled(p: Plant, c: int, t: real)
    requires p.Cooling() && p.AlwaysSettles() && c < p.emergency && p.Equilibrium(t, c as real)
    ensures t == SettledAt(p, c)
  {
    hide Plant.Equilibrium, Plant.Cooling, Plant.AlwaysSettles, SettledAt;
    EquilibriumUnique(p, c as real, t, SettledAt(p, c));
  }

  /** What the learner sees at one slow tick. */
  datatype Observed = Observed(temp: real, stdDev: real)

  function Spreads(ws: seq<Observed>): (sds: seq<real>)
    ensures |sds| == |ws|
  {
    seq(|ws|, i requires 0 <= i < |ws| => ws[i].stdDev)
  }

  /** A run against the plant: every tick observes an equilibrium of the
      unrounded curve, with the rounded curve as its demand. */
  ghost predicate PlantRun(p: Plant, target: int, minRamp: int, maxRamp: int, cs: seq<int>, ws: seq<Observed>)
    requires maxRamp < p.emergency
  {
    && |cs| == |ws| + 1
    && (forall i :: 0 <= i < |cs| ==> minRamp <= cs[i] <= maxRamp)
    && (forall i :: 0 <= i < |ws| ==> p.Equilibrium(ws[i].temp, cs[i] as real))
    && (forall i :: 0 <= i < |ws| ==>
          cs[i + 1] == TargetSeek(ws[i].temp, ws[i].stdDev,
                                  CurveF(ws[i].temp, cs[i], p.emergency, p.minFan, p.maxFan) as real,
                                  cs[i], target, DefaultParams(minRamp, maxRamp, p.minFan as real)).newRampStart)
  }

  /** A run against the plant is a run of its loop. */
  lemma PlantRunIsRun(p: Plant, target: int, minRamp: int, maxRamp: int, cs: seq<int>, ws: seq<Observed>)
    requires p.Cooling() && p.AlwaysSettles() && minRamp <= maxRamp < p.emergency
    requires PlantRun(p, target, minRamp, maxRamp, cs, ws)
    ensures Run(LoopOf(p, target, minRamp, maxRamp), cs, Spreads(ws))
  {
    hide CurveF, Plant.Equilibrium, Plant.Cooling, Plant.AlwaysSettles, TargetSeek, SettledAt;
    forall i | 0 <= i < |ws|
      ensures ws[i].temp == SettledAt(p, cs[i])
    {
      ObservedIsSettled(p, cs[i], ws[i].temp);
    }
  }

  /** ... and every start inside the clamp has a run against the plant over any
      spreads. */
  lemma PlantRunsExist(p: Plant, target: int, minRamp: int, maxRamp: int, c: int, sds: seq<real>)
    returns (cs: seq<int>, ws: seq<Observed>)
    requires p.Cooling() && p.AlwaysSettles() && minRamp <= c <= maxRamp < p.emergency
    ensures PlantRun(p, target, minRamp, maxRamp, cs, ws) && cs[0] == c && Spreads(ws) == sds
  {
    hide CurveF, Plant.Equilibrium, Plant.Cooling, Plant.AlwaysSettles, TargetSeek, SettledAt;
    CoolingPlantIsResponsive(p, target, minRamp, maxRamp);
    cs := RunsExist(LoopOf(p, target, minRamp, maxRamp), c, sds);
    ws := seq(|sds|, i requires 0 <= i < |sds| => Observed(if cs[i] < p.emergency then SettledAt(p, cs[i]) else 0.0,
                                                           sds[i]));
  }

  /** The design's claim, against every cooling plant and over every run: the
      ramp start never turns back, and once `maxRamp - minRamp` windows have
      settled it has stopped for good, at rest. */
  lemma CoolingPlantConverges(p: Plant, target: int, minRamp: int, maxRamp: int, cs: seq<int>, ws: seq<Observed>,
                              n: nat)
    requires p.Cooling() && p.AlwaysSettles() && minRamp <= maxRamp < p.emergency
    requires PlantRun(p, target, minRamp, maxRamp, cs, ws)
    requires n <= |ws| && SettledTicks(Spreads(ws), n) >= maxRamp - minRamp
    ensures (forall i :: 0 <= i < |ws| ==> cs[i + 1] <= cs[i]) || (forall i :: 0 <= i < |ws| ==> cs[i + 1] >= cs[i])
    ensures forall j :: n <= j < |cs| ==> cs[j] == cs[n]
    ensures forall j :: n <= j < |ws| && IsSettled(ws[j].stdDev) ==> LoopOf(p, target, minRamp, maxRamp).AtRest(cs[j])
  {
    hide PlantRun, LoopOf, Loop.AtRest, Plant.Cooling, Plant.AlwaysSettles;
    var l := LoopOf(p, target, minRamp, maxRamp);
    CoolingPlantIsResponsive(p, target, minRamp, maxRamp);
    PlantRunIsRun(p, target, minRamp, maxRamp, cs, ws);
    OneWay(l, cs, Spreads(ws));
    LoopBounds(p, target, minRamp, maxRamp);
    forall j | n < j < |cs|
      ensures cs[j] == cs[n]
    {
      TwoTimescaleConvergence(l, cs, Spreads(ws), n, j - 1);
    }
    forall j | n <= j < |ws| && IsSettled(ws[j].stdDev)
      ensures l.AtRest(cs[j])
    {
      TwoTimescaleConvergence(l, cs, Spreads(ws), n, j);
    }
  }

  lemma LoopBounds(p: Plant, target: int, minRamp: int, maxRamp: int)
    requires p.AlwaysSettles()
    ensures var l := LoopOf(p, target, minRamp, maxRamp); l.minRamp == minRamp && l.maxRamp == maxRamp
  {
  }

  /** Moving one way, stated on the ramp starts. */
  lemma OneWay(l: Loop, cs: seq<int>, sds: seq<real>)
    requires l.Responsive() && Run(l, cs, sds)
    ensures (forall i :: 0 <= i < |sds| ==> cs[i + 1] <= cs[i]) || (forall i :: 0 <= i < |sds| ==> cs[i + 1] >= cs[i])
  {
    NeverReverses(l, cs, sds);
    if Never(l, cs, sds, TooCool) {
      forall i | 0 <= i < |sds|
        ensures cs[i + 1] <= cs[i]
      {
        NoOvershoot(l, cs[i], sds[i]);
        assert l.Decide(cs[i], sds[i]).reason != TooCool;
      }
    } else {
      forall i | 0 <= i < |sds|
        ensures cs[i + 1] >= cs[i]
      {
        NoOvershoot(l, cs[i], sds[i]);
        assert l.Decide(cs[i], sds[i]).reason != TooHot;
      }
    }
  }
}
