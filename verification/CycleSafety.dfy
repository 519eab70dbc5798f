/** What every cycle keeps, over any run of readings, failures, clocks and
    ramp starts. */
module CycleSafety {
  import opened Rounding
  import opened Thermal
  import opened Control
  import opened Settings
  import opened Ipmi
  import opened FanController

  // ---------------------------------------------------------- curves and demand

  /** On valid limits a class's curve abstains for an absent class and is in the
      fan range otherwise; its ramp is never narrower than the class's span. */
  lemma CurveInRange(l: Limits, comfort: Quad<int>, smooth: Quad<real>, c: Managed)
    requires l.Valid()
    ensures l.emergency.At(c) - Min(comfort.At(c), l.Cap(c)) >= MinCurveSpan(c) >= 6
    ensures var v := ClassCurve(l, comfort, smooth, c);
      if smooth.At(c) <= 0.0 then v == 0 else l.minFan <= v <= l.maxFan
  {
    hide Ramp;
    var com, e := Min(comfort.At(c), l.Cap(c)), l.emergency.At(c);
    if smooth.At(c) > 0.0 {
      CurveIsRoundedRamp(smooth.At(c), com, e, l.minFan, l.maxFan);
      RampRange(smooth.At(c), com as real, e as real, l.minFan as real, l.maxFan as real);
    }
  }

  /** The assist is off below the threshold, in the fan range from it on, full
      at a saturated card, and never falls as the card's own fan speeds up. */
  lemma AssistShape(l: Limits, own: int, own': int)
    requires l.Valid() && own <= own'
    ensures var v := ActiveGPUAssist(own, l.ownFanThreshold, l.minFan, l.maxFan);
      && (own < l.ownFanThreshold ==> v == 0)
      && (v == 0 || l.minFan <= v <= l.maxFan)
      && (own >= 100 && own >= l.ownFanThreshold ==> v == l.maxFan)
      && v <= ActiveGPUAssist(own', l.ownFanThreshold, l.minFan, l.maxFan)
  {
    hide AssistLift;
    var th := l.ownFanThreshold;
    if th <= own && th < 100 {
      AssistMonotone(Min(own, 100) - th, Min(own', 100) - th, 100 - th, l.maxFan - l.minFan);
    }
  }

  lemma AssistMonotone(x: int, y: int, w: int, h: int)
    requires 0 <= x <= y <= w && w > 0 && h >= 0
    ensures 0 <= AssistLift(x, w, h) <= AssistLift(y, w, h)
    ensures x == w ==> AssistLift(x, w, h) == h
  {
    hide RoundHalfAway, Share;
    ScaledQuotients(x as real, y as real, w as real, h as real);
    RoundHalfAwayMonotone(0.0, Share(x as real, w as real, h as real));
    RoundHalfAwayMonotone(Share(x as real, w as real, h as real), Share(y as real, w as real, h as real));
    WholeRounds(0);
    WholeRounds(h);
  }

  lemma ScaledQuotients(x: real, y: real, w: real, h: real)
    requires 0.0 <= x <= y && w > 0.0 && h >= 0.0
    ensures 0.0 <= Share(x, w, h) <= Share(y, w, h)
    ensures x == w ==> Share(x, w, h) == h
  {
    QuotientOrder(0.0, x, w);
    QuotientOrder(x, y, w);
    Quotient(x, w);
    ScaledOrder(x / w, y / w, h);
  }

  lemma ScaledOrder(p: real, q: real, h: real)
    requires 0.0 <= p <= q && h >= 0.0
    ensures 0.0 <= p * h <= q * h
  {
    MulMonotone(h, 0.0, p);
    MulMonotone(h, p, q);
  }

  lemma QuotientOrder(x: real, y: real, w: real)
    requires x <= y && w > 0.0
    ensures x / w <= y / w
  {
  }

  /** Between the threshold and a saturated card the assist is the fan minimum
      plus the linear share of the range, rounded to the nearest percent. */
  lemma AssistIsLinear(l: Limits, own: int)
    requires l.Valid() && l.ownFanThreshold <= own <= 100 && l.ownFanThreshold < 100
    ensures var v, th := ActiveGPUAssist(own, l.ownFanThreshold, l.minFan, l.maxFan), l.ownFanThreshold;
      var lift, share := (v - l.minFan) as real, (own - th) as real;
      AbsReal(Times(lift, (100 - th) as real) - Times(share, (l.maxFan - l.minFan) as real))
      <= Times(0.5, (100 - th) as real)
  {
    hide AssistLift, Times;
    var x, w, h := own - l.ownFanThreshold, 100 - l.ownFanThreshold, l.maxFan - l.minFan;
    AssistMonotone(0, x, w, h);
    AssistMonotone(x, w, w, h);
    AssistMonotone(w, w, w, h);
    LiftIsNearest(x, w, h);
    assert ActiveGPUAssist(own, l.ownFanThreshold, l.minFan, l.maxFan) == l.minFan + AssistLift(x, w, h);
  }

  lemma LiftIsNearest(x: int, w: int, h: int)
    requires w > 0
    ensures AbsReal(Times(AssistLift(x, w, h) as real, w as real) - Times(x as real, h as real))
         <= Times(0.5, w as real)
  {
    var q := x as real / w as real;
    Quotient(x as real, w as real);
    var lift := AssistLift(x, w, h) as real;
    assert q * h as real - 0.5 <= lift <= q * h as real + 0.5;
    Rescaled(q, x as real, w as real, h as real, lift);
  }

  lemma Rescaled(q: real, x: real, w: real, h: real, lift: real)
    requires w > 0.0 && q * w == x && q * h - 0.5 <= lift <= q * h + 0.5
    ensures AbsReal(Times(lift, w) - Times(x, h)) <= Times(0.5, w)
  {
    var e := lift - q * h;
    calc {
      Times(lift, w) - Times(x, h);
      (q * h + e) * w - q * w * h;
      e * w;
    }
    ScaledError(e, w);
  }

  lemma ScaledError(e: real, w: real)
    requires -0.5 <= e <= 0.5 && w > 0.0
    ensures AbsReal(e * w) <= Times(0.5, w)
  {
    MulMonotone(w, e, 0.5);
    MulMonotone(w, -e, 0.5);
    assert (-e) * w == -(e * w);
  }

  /** A reading without an active GPU is never assisted, one with it exactly as
      its own fan asks. */
  lemma AssistNeedsACard(l: Limits, r: Reading)
    requires l.Valid() && l.ownFanThreshold < 100
    ensures Assist(l, r) > 0 <==> r.activeGPU > 0 && r.activeGPUFan >= l.ownFanThreshold
  {
    hide ActiveGPUAssist;
    AssistShape(l, r.activeGPUFan, r.activeGPUFan);
    if r.activeGPUFan >= l.ownFanThreshold {
      AssistIsOn(l, r.activeGPUFan);
    }
  }

  lemma AssistIsOn(l: Limits, own: int)
    requires l.Valid() && l.ownFanThreshold < 100 && own >= l.ownFanThreshold
    ensures ActiveGPUAssist(own, l.ownFanThreshold, l.minFan, l.maxFan) >= l.minFan
  {
    hide AssistLift;
  }

  /** Max-wins over the cycle's candidates: the largest of the minimum speed,
      the four curves and the assist. */
  lemma DemandIsMaximum(l: Limits, curves: Quad<int>, assist: int)
    requires l.Valid()
    requires forall c: Managed :: curves.At(c) <= l.maxFan
    requires assist <= l.maxFan
    ensures var d := DemandOf(l, curves, assist);
      && l.minFan <= d <= l.maxFan && assist <= d
      && (forall c: Managed :: curves.At(c) <= d)
      && (d == l.minFan || d == assist || exists c: Managed :: d == curves.At(c))
  {
    var cs := Candidates(curves, assist);
    var k := Winner(cs);
    assert cs[0].value == curves.At(CPU) && cs[1].value == curves.At(PassiveGPU);
    assert cs[2].value == curves.At(HDD) && cs[3].value == curves.At(SSD) && cs[4].value == assist;
  }

  // ------------------------------------------------------------------- one cycle

  /** The candidate a max-wins source names; the slew names none. */
  function ValueOf(source: Source, curves: Quad<int>, assist: int): int {
    match source
    case FromCPU => curves.cpu
    case FromPG => curves.pg
    case FromHDD => curves.hdd
    case FromSSD => curves.ssd
    case FromAssist => assist
    case FromSlew => 0
  }

  /** The classes that win ties against a source. */
  predicate Before(c: Managed, source: Source) {
    match source
    case FromCPU => false
    case FromPG => c == CPU
    case FromHDD => c == CPU || c == PassiveGPU
    case FromSSD => c != SSD
    case FromAssist => true
    case FromSlew => false
  }

  /** The source is the largest candidate, and the first of them in the order
      processor, passive GPU, hard disk, solid state, assist. */
  predicate Binds(source: Source, curves: Quad<int>, assist: int) {
    var v := ValueOf(source, curves, assist);
    && assist <= v
    && (forall c: Managed :: curves.At(c) <= v)
    && (forall c: Managed :: Before(c, source) ==> curves.At(c) < v)
  }

  /** Some class is at or above its own emergency threshold. */
  ghost predicate OverThreshold(l: Limits, r: Reading) {
    (exists c: Managed :: r.temp.At(c) >= l.emergency.At(c)) || r.activeGPU >= l.activeGPUEmergency
  }

  /** The emergency test of the cycle looks at every class and nothing else. */
  lemma EmergencyIsOverThreshold(l: Limits, r: Reading)
    requires l.Valid()
    ensures IsEmergency(l, r) <==> OverThreshold(l, r)
  {
    assert r.temp.cpu == r.temp.At(CPU) && r.temp.pg == r.temp.At(PassiveGPU);
    assert r.temp.hdd == r.temp.At(HDD) && r.temp.ssd == r.temp.At(SSD);
    assert l.emergency.cpu == l.emergency.At(CPU) && l.emergency.pg == l.emergency.At(PassiveGPU);
    assert l.emergency.hdd == l.emergency.At(HDD) && l.emergency.ssd == l.emergency.At(SSD);
  }

  predicate SafeSpeed(l: Limits, s: Ctrl) {
    l.minFan <= s.speed <= 100
  }

  /** What one cycle leaves, for each of its three exits. */
  ghost predicate CycleIsSafe(l: Limits, before: Ctrl, reading: Option<Reading>, after: Ctrl, o: Outcome) {
    && SafeSpeed(l, after)
    && (o.ReadFailed? <==> reading.None?)
    && (o.Emergency? <==> reading.Some? && OverThreshold(l, reading.value))
    && after.inEmergency == (if reading.None? then before.inEmergency else o.Emergency?)
    && (o.ReadFailed? || o.Emergency? ==> after.speed == 100)
    && (o.Normal? ==>
         && l.minFan <= o.demand <= after.speed <= l.maxFan
         && (forall c: Managed :: o.curves.At(c) <= after.speed)
         && o.assist <= after.speed
         && (o.source == FromSlew <==> after.speed > o.demand)
         && (o.source != FromSlew ==>
               && Binds(o.source, o.curves, o.assist)
               && after.speed == Max(l.minFan, ValueOf(o.source, o.curves, o.assist)))
         && (after.speed > before.speed ==> after.speed == o.demand)
         && (o.demand >= before.speed ==> after.speed == o.demand))
  }

  lemma CycleStaysSafe(decay: real -> real, l: Limits, comfort: Quad<int>, s: Ctrl, reading: Option<Reading>, now: real)
    requires l.Valid() && SafeSpeed(l, s)
    ensures var (s', o) := CycleStep(decay, l, comfort, s, reading, now);
      CycleIsSafe(l, s, reading, s', o)
  {
    if reading.Some? {
      EmergencyIsOverThreshold(l, reading.value);
    }
    if reading.Some? && !IsEmergency(l, reading.value) {
      hide OverThreshold;
      hide Curves, SmoothAll, Elapsed, Slewed, IsEmergency, Assist, Ewma, Winner, Candidates, DemandOf, ValueOf;
      hide Binds, Latest;
      var r := reading.value;
      var dt := Elapsed(s.lastReadAt, now, l.intervalSec);
      var smooth := SmoothAll(decay, s.smooth, r, dt);
      CurvesAndAssistInRange(l, comfort, smooth, r);
      NormalExit(l, s.speed, Curves(l, comfort, smooth), Assist(l, r), dt);
    }
  }

  lemma CurvesAndAssistInRange(l: Limits, comfort: Quad<int>, smooth: Quad<real>, r: Reading)
    requires l.Valid()
    ensures forall c: Managed :: Curves(l, comfort, smooth).At(c) <= l.maxFan
    ensures Assist(l, r) <= l.maxFan
  {
    hide ClassCurve, ActiveGPUAssist;
    forall c: Managed
      ensures Curves(l, comfort, smooth).At(c) <= l.maxFan
    {
      CurveInRange(l, comfort, smooth, c);
    }
    AssistShape(l, r.activeGPUFan, r.activeGPUFan);
  }

  /** Demand, setpoint and source of a normal exit. */
  lemma NormalExit(l: Limits, speed: int, curves: Quad<int>, assist: int, dt: real)
    requires l.Valid() && l.minFan <= speed <= 100
    requires (forall c: Managed :: curves.At(c) <= l.maxFan) && assist <= l.maxFan
    ensures var d, next := DemandOf(l, curves, assist), Slewed(l, speed, DemandOf(l, curves, assist), dt);
      var cs := Candidates(curves, assist);
      var source := if next > d then FromSlew else cs[Winner(cs)].name;
      && l.minFan <= d <= next <= l.maxFan
      && (forall c: Managed :: curves.At(c) <= next)
      && assist <= next
      && (source == FromSlew <==> next > d)
      && (source != FromSlew ==>
            Binds(source, curves, assist) && next == Max(l.minFan, ValueOf(source, curves, assist)))
      && (next > speed ==> next == d)
      && (d >= speed ==> next == d)
  {
    hide Binds, ValueOf, Winner, Candidates, SlewDown;
    DemandIsMaximum(l, curves, assist);
    SourceNames(curves, assist);
    SlewIsMax(speed, DemandOf(l, curves, assist), dt, SLEW_DOWN_PCT_PER_SEC);
    BindingValueInRange(l, curves, assist);
  }

  lemma BindingValueInRange(l: Limits, curves: Quad<int>, assist: int)
    requires (forall c: Managed :: curves.At(c) <= l.maxFan) && assist <= l.maxFan
    ensures var cs := Candidates(curves, assist); cs[Winner(cs)].value <= l.maxFan
  {
    var cs := Candidates(curves, assist);
    assert cs[0].value == curves.At(CPU) && cs[1].value == curves.At(PassiveGPU);
    assert cs[2].value == curves.At(HDD) && cs[3].value == curves.At(SSD) && cs[4].value == assist;
  }

  /** The winner's name is the name of a largest candidate. */
  lemma SourceNames(curves: Quad<int>, assist: int)
    ensures var cs := Candidates(curves, assist);
      var k := Winner(cs);
      cs[k].name != FromSlew && Binds(cs[k].name, curves, assist) && ValueOf(cs[k].name, curves, assist) == cs[k].value
  {
    var cs := Candidates(curves, assist);
    assert cs[0].value == curves.At(CPU) && cs[1].value == curves.At(PassiveGPU);
    assert cs[2].value == curves.At(HDD) && cs[3].value == curves.At(SSD) && cs[4].value == assist;
  }

  // ------------------------------------------------------------------ whole runs

  /** What one cycle of a run is given. */
  datatype Input = Input(reading: Option<Reading>, now: real, comfort: Quad<int>)

  function RunCycles(decay: real -> real, l: Limits, s: Ctrl, ins: seq<Input>): Ctrl {
    if ins == [] then s
    else
      var i := ins[|ins| - 1];
      CycleStep(decay, l, i.comfort, RunCycles(decay, l, s, ins[..|ins| - 1]), i.reading, i.now).0
  }

  function OutcomeAt(decay: real -> real, l: Limits, s: Ctrl, ins: seq<Input>, k: nat): Outcome
    requires k < |ins|
  {
    CycleStep(decay, l, ins[k].comfort, RunCycles(decay, l, s, ins[..k]), ins[k].reading, ins[k].now).1
  }

  /** Safety of every cycle of every run. */
  lemma {:induction false} EveryCycleIsSafe(decay: real -> real, l: Limits, s: Ctrl, ins: seq<Input>, k: nat)
    requires l.Valid() && SafeSpeed(l, s) && k < |ins|
    ensures CycleIsSafe(l, RunCycles(decay, l, s, ins[..k]), ins[k].reading,
                        RunCycles(decay, l, s, ins[..k + 1]), OutcomeAt(decay, l, s, ins, k))
  {
    hide CycleStep;
    assert ins[..k + 1][..k] == ins[..k];
    if k > 0 {
      EveryCycleIsSafe(decay, l, s, ins, k - 1);
    }
    CycleStaysSafe(decay, l, ins[k].comfort, RunCycles(decay, l, s, ins[..k]), ins[k].reading, ins[k].now);
  }

  /** The baseline is pulled toward each normal cycle's setpoint, by exactly the
      adaptation weight, and only normal cycles are counted. */
  lemma BaselineFollowsSpeed(decay: real -> real, l: Limits, comfort: Quad<int>, s: Ctrl, reading: Option<Reading>,
                             now: real)
    requires l.Valid()
    ensures var (s', o) := CycleStep(decay, l, comfort, s, reading, now);
      && (o.Normal? ==> MinReal(s.base, s'.speed as real) <= s'.base <= MaxReal(s.base, s'.speed as real))
      && (o.Normal? ==> s'.base - s'.speed as real == Times(1.0 - l.adaptAlpha, s.base - s'.speed as real))
      && (!o.Normal? ==> s'.base == s.base)
      && s'.samples == s.samples + (if o.Normal? then 1 else 0)
  {
    hide SmoothAll, Elapsed, IsEmergency, Curves, Assist, DemandOf, Slewed, Winner;
    var (s', _) := CycleStep(decay, l, comfort, s, reading, now);
    var speed := s'.speed as real;
    MixBetween(1.0 - l.adaptAlpha, l.adaptAlpha, s.base, speed, MinReal(s.base, speed), MaxReal(s.base, speed));
    EwmaIsMix(s.base, speed, l.adaptAlpha);
  }

  lemma EwmaIsMix(base: real, speed: real, alpha: real)
    ensures Ewma(base, speed, alpha) == base * (1.0 - alpha) + speed * alpha
    ensures Ewma(base, speed, alpha) - speed == Times(1.0 - alpha, base - speed)
  {
  }

  function Power(x: real, n: nat): real {
    if n == 0 then 1.0 else Times(x, Power(x, n - 1))
  }

  /** Cycle `k` was a normal one and left the setpoint at `v`. */
  predicate NormalAt(decay: real -> real, l: Limits, s: Ctrl, ins: seq<Input>, v: int, k: nat)
    requires k < |ins|
  {
    OutcomeAt(decay, l, s, ins, k).Normal? && RunCycles(decay, l, s, ins[..k + 1]).speed == v
  }

  /** Over normal cycles at one setpoint the baseline's distance to it shrinks
      geometrically. */
  lemma {:induction false} BaselineConverges(decay: real -> real, l: Limits, s: Ctrl, ins: seq<Input>, v: int)
    requires l.Valid()
    requires forall k :: 0 <= k < |ins| ==> NormalAt(decay, l, s, ins, v, k)
    ensures RunCycles(decay, l, s, ins).base - v as real
         == Times(Power(1.0 - l.adaptAlpha, |ins|), s.base - v as real)
  {
    hide CycleStep, Times;
    if ins == [] {
      OneTimes(s.base - v as real);
    } else {
      var n := |ins| - 1;
      var front := ins[..n];
      assert ins[..n + 1] == ins;
      assert NormalAt(decay, l, s, ins, v, n);
      forall k | 0 <= k < n
        ensures NormalAt(decay, l, s, front, v, k)
      {
        assert front[..k] == ins[..k] && front[..k + 1] == ins[..k + 1];
        assert NormalAt(decay, l, s, ins, v, k);
      }
      BaselineConverges(decay, l, s, front, v);
      BaselineFollowsSpeed(decay, l, ins[n].comfort, RunCycles(decay, l, s, front), ins[n].reading, ins[n].now);
      Regroup(1.0 - l.adaptAlpha, Power(1.0 - l.adaptAlpha, n), s.base - v as real);
    }
  }

  lemma OneTimes(x: real)
    ensures Times(1.0, x) == x
  {
  }

  lemma Regroup(x: real, y: real, z: real)
    ensures Times(x, Times(y, z)) == Times(Times(x, y), z)
  {
  }

  /** The latest successful read of a run was an emergency. */
  function LatestWasEmergency(decay: real -> real, l: Limits, s: Ctrl, ins: seq<Input>): bool {
    if ins == [] then s.inEmergency
    else if ins[|ins| - 1].reading.None? then LatestWasEmergency(decay, l, s, ins[..|ins| - 1])
    else OutcomeAt(decay, l, s, ins, |ins| - 1).Emergency?
  }

  /** The emergency flag survives failed reads and tells of the latest good one. */
  lemma {:induction false} FlagTellsLatestRead(decay: real -> real, l: Limits, s: Ctrl, ins: seq<Input>)
    requires l.Valid() && SafeSpeed(l, s)
    ensures RunCycles(decay, l, s, ins).inEmergency == LatestWasEmergency(decay, l, s, ins)
  {
    hide CycleStep, OverThreshold;
    if ins != [] {
      var n := |ins| - 1;
      FlagTellsLatestRead(decay, l, s, ins[..n]);
      EveryCycleIsSafe(decay, l, s, ins, n);
      assert ins[..n + 1] == ins;
    }
  }

  // ---------------------------------------------------------------- the BMC side

  /** Control is on, the dialect works, and the fans are where the controller
      believes them to be. */
  predicate InSync(b: Bmc, indices: seq<int>, s: Ctrl) {
    b.Drivable(indices) && b.AllAt(indices, s.speed)
  }

  lemma FanSetWorks(b: Bmc, indices: seq<int>, pct: int)
    requires b.Drivable(indices)
    ensures var b' := b.FanSet(indices, pct).0;
      && b'.Drivable(indices) && b'.AllAt(indices, if pct < 0 then 0 else pct) && b'.manual == b.manual
      && LastMode(b'.log) == LastMode(b.log)
  {
    DrivableSetsAll(b, Selected(indices), Max(pct, 0));
    WritesKeepMode(b, Selected(indices), Max(pct, 0));
  }

  /** The BMC over a run, next to the controller. */
  function RunBmc(decay: real -> real, l: Limits, s: Ctrl, b: Bmc, indices: seq<int>, fanControl: bool,
                  ins: seq<Input>): Bmc {
    if ins == [] then b
    else
      var n := |ins| - 1;
      var before := RunCycles(decay, l, s, ins[..n]);
      var (after, o) := CycleStep(decay, l, ins[n].comfort, before, ins[n].reading, ins[n].now);
      BmcAfter(RunBmc(decay, l, s, b, indices, fanControl, ins[..n]), indices, fanControl, CommandFor(before, after, o))
  }

  /** Some cycle of the run was not an emergency. */
  ghost predicate SomeWrite(decay: real -> real, l: Limits, s: Ctrl, ins: seq<Input>) {
    exists k :: 0 <= k < |ins| && !OutcomeAt(decay, l, s, ins, k).Emergency?
  }

  lemma SomeWriteStep(decay: real -> real, l: Limits, s: Ctrl, ins: seq<Input>)
    requires ins != []
    ensures SomeWrite(decay, l, s, ins)
       <==> (SomeWrite(decay, l, s, ins[..|ins| - 1]) || !OutcomeAt(decay, l, s, ins, |ins| - 1).Emergency?)
  {
    hide CycleStep, RunCycles;
    var n := |ins| - 1;
    assert forall k :: 0 <= k < n ==> ins[..n][..k] == ins[..k];
    assert forall k :: 0 <= k < n ==> OutcomeAt(decay, l, s, ins[..n], k) == OutcomeAt(decay, l, s, ins, k);
  }

  /** The controller's belief, exactly: with drivable fans and from wherever they
      are, after a run of cycles the fans are at the controller's setpoint if and
      only if some cycle was not an emergency, or a cycle ran and the setpoint
      was not 100 at the start, or the fans were there from the start. */
  lemma {:induction false} FansFollowIff(decay: real -> real, l: Limits, s: Ctrl, b: Bmc, indices: seq<int>,
                                         ins: seq<Input>)
    requires l.Valid() && SafeSpeed(l, s) && b.Drivable(indices)
    ensures var b' := RunBmc(decay, l, s, b, indices, true, ins);
      && b'.Drivable(indices)
      && (ins != [] ==> b'.manual && LastMode(b'.log) == [true])
      && (b'.AllAt(indices, RunCycles(decay, l, s, ins).speed)
          <==> (SomeWrite(decay, l, s, ins) || (ins != [] && s.speed != 100) || b.AllAt(indices, s.speed)))
      && (ins != [] && !SomeWrite(decay, l, s, ins) ==> RunCycles(decay, l, s, ins).speed == 100)
  {
    hide CycleStep, Bmc.FanSet, LastMode, SomeWrite, Bmc.AllAt, Bmc.Drivable;
    if ins == [] {
      NothingWritten(decay, l, s);
    } else {
      var n := |ins| - 1;
      var before := RunCycles(decay, l, s, ins[..n]);
      var (after, o) := CycleStep(decay, l, ins[n].comfort, before, ins[n].reading, ins[n].now);
      FansFollowIff(decay, l, s, b, indices, ins[..n]);
      EveryCycleIsSafe(decay, l, s, ins, n);
      SomeWriteStep(decay, l, s, ins);
      assert ins[..n + 1] == ins;
      var b1 := RunBmc(decay, l, s, b, indices, true, ins[..n]);
      EngagedKeepsFans(b1, indices);
      if CommandFor(before, after, o).Some? {
        FanSetWorks(b1.Engaged(), indices, CommandFor(before, after, o).value);
      }
      if n == 0 {
        NothingWritten(decay, l, s);
      }
    }
  }

  lemma NothingWritten(decay: real -> real, l: Limits, s: Ctrl)
    ensures !SomeWrite(decay, l, s, []) && RunCycles(decay, l, s, []) == s
  {
  }

  lemma EngagedKeepsFans(b: Bmc, indices: seq<int>)
    ensures b.Engaged().manual && LastMode(b.Engaged().log) == [true]
    ensures b.Engaged().Drivable(indices) <==> b.Drivable(indices)
    ensures forall pct :: b.Engaged().AllAt(indices, pct) <==> b.AllAt(indices, pct)
  {
    ModeCommandsShow(b);
  }

  /** Started in sync, the fans are at the controller's setpoint after every
      cycle of every run. */
  lemma FansFollowController(decay: real -> real, l: Limits, s: Ctrl, b: Bmc, indices: seq<int>, ins: seq<Input>)
    requires l.Valid() && SafeSpeed(l, s) && InSync(b, indices, s)
    ensures var b' := RunBmc(decay, l, s, b, indices, true, ins);
      && InSync(b', indices, RunCycles(decay, l, s, ins))
      && (ins != [] ==> b'.manual && LastMode(b'.log) == [true])
  {
    hide RunBmc, RunCycles, SomeWrite, LastMode, Bmc.AllAt, Bmc.Drivable;
    FansFollowIff(decay, l, s, b, indices, ins);
  }

  /** Without fan control no cycle of any run touches the BMC. */
  lemma {:induction false} MonitorOnlyNeverWrites(decay: real -> real, l: Limits, s: Ctrl, b: Bmc, indices: seq<int>,
                                                  ins: seq<Input>)
    ensures RunBmc(decay, l, s, b, indices, false, ins) == b
  {
    if ins != [] {
      MonitorOnlyNeverWrites(decay, l, s, b, indices, ins[..|ins| - 1]);
    }
  }
}
