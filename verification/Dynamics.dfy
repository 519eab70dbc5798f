/** How the setpoint moves over time: the down-slew in closed form, the
    time-aware smoothing, and the end-to-end noise gain. */
module Dynamics {
  import opened Rounding
  import opened Thermal
  import opened Control
  import opened Settings
  import opened FanController
  import opened CycleSafety

  // -------------------------------------------------------------- the down-slew

  /** What the slew sees of one normal cycle. */
  datatype Tick = Tick(demand: int, drop: int)

  /** One normal cycle in terms of its demand and its largest fall. */
  lemma NormalCycleSlews(l: Limits, speed: int, demand: int, dt: real)
    requires l.Valid() && l.minFan <= demand <= l.maxFan
    ensures Slewed(l, speed, demand, dt)
         == Max(demand, Min(l.maxFan, speed - DropFor(dt, SLEW_DOWN_PCT_PER_SEC)))
  {
    hide DropFor, SlewDown;
    SlewIsMax(speed, demand, dt, SLEW_DOWN_PCT_PER_SEC);
  }

  /** The falls allowed from tick `i` on. */
  function DropsFrom(ts: seq<Tick>, i: nat): int {
    if i >= |ts| then 0 else DropsFrom(ts[..|ts| - 1], i) + ts[|ts| - 1].drop
  }

  /** What is left of the start after the first tick's fall and all later ones. */
  function StartTerm(maxFan: int, s0: int, ts: seq<Tick>): int
    requires ts != []
  {
    Min(maxFan, s0 - ts[0].drop) - DropsFrom(ts, 1)
  }

  /** What is left of tick `i`'s demand after the falls since. */
  function DemandTerm(ts: seq<Tick>, i: nat): int
    requires i < |ts|
  {
    ts[i].demand - DropsFrom(ts, i + 1)
  }

  /** `v` is the maximum of the start term and every demand term. */
  predicate IsSlewMaximum(maxFan: int, s0: int, ts: seq<Tick>, v: int)
    requires ts != []
  {
    && StartTerm(maxFan, s0, ts) <= v
    && (forall i :: 0 <= i < |ts| ==> DemandTerm(ts, i) <= v)
    && (v == StartTerm(maxFan, s0, ts) || exists i :: 0 <= i < |ts| && v == DemandTerm(ts, i))
  }

  predicate AllNormal(decay: real -> real, l: Limits, s: Ctrl, ins: seq<Input>) {
    forall k :: 0 <= k < |ins| ==> OutcomeAt(decay, l, s, ins, k).Normal?
  }

  /** Demand and largest fall of each cycle of a run of normal cycles. */
  function TicksOf(decay: real -> real, l: Limits, s: Ctrl, ins: seq<Input>): (ts: seq<Tick>)
    ensures |ts| == |ins|
  {
    if ins == [] then []
    else
      var n := |ins| - 1;
      var before := RunCycles(decay, l, s, ins[..n]);
      var o := CycleStep(decay, l, ins[n].comfort, before, ins[n].reading, ins[n].now).1;
      var dt := Elapsed(before.lastReadAt, ins[n].now, l.intervalSec);
      TicksOf(decay, l, s, ins[..n])
        + [Tick(if o.Normal? then o.demand else 100, DropFor(dt, SLEW_DOWN_PCT_PER_SEC))]
  }

  lemma NormalStep(decay: real -> real, l: Limits, s: Ctrl, ins: seq<Input>)
    requires l.Valid() && SafeSpeed(l, s) && ins != [] && AllNormal(decay, l, s, ins)
    ensures var n := |ins| - 1;
      var t := TicksOf(decay, l, s, ins)[n];
      && AllNormal(decay, l, s, ins[..n])
      && t.drop >= 1 && l.minFan <= t.demand <= l.maxFan
      && RunCycles(decay, l, s, ins).speed
         == Max(t.demand, Min(l.maxFan, RunCycles(decay, l, s, ins[..n]).speed - t.drop))
  {
    hide Curves, SmoothAll, Elapsed, DemandOf, IsEmergency, Assist, Ewma, DropFor, Slewed, CycleIsSafe;
    var n := |ins| - 1;
    assert ins[..n + 1] == ins;
    var before := RunCycles(decay, l, s, ins[..n]);
    forall k | 0 <= k < n
      ensures OutcomeAt(decay, l, s, ins[..n], k).Normal?
    {
      assert ins[..n][..k] == ins[..k];
      assert OutcomeAt(decay, l, s, ins, k).Normal?;
    }
    assert OutcomeAt(decay, l, s, ins, n).Normal?;
    DemandOfCycle(decay, l, s, ins);
    NormalCycleSlews(l, before.speed, TicksOf(decay, l, s, ins)[n].demand,
                     Elapsed(before.lastReadAt, ins[n].now, l.intervalSec));
  }

  lemma DemandOfCycle(decay: real -> real, l: Limits, s: Ctrl, ins: seq<Input>)
    requires l.Valid() && SafeSpeed(l, s) && ins != [] && OutcomeAt(decay, l, s, ins, |ins| - 1).Normal?
    ensures l.minFan <= OutcomeAt(decay, l, s, ins, |ins| - 1).demand <= l.maxFan
  {
    hide CycleStep;
    EveryCycleIsSafe(decay, l, s, ins, |ins| - 1);
  }

  /** The closed form: over any run of normal cycles the setpoint is the maximum
      of what is left of the start and what is left of every past demand. */
  lemma {:induction false} SlewClosedForm(decay: real -> real, l: Limits, s: Ctrl, ins: seq<Input>)
    requires l.Valid() && SafeSpeed(l, s) && ins != [] && AllNormal(decay, l, s, ins)
    ensures IsSlewMaximum(l.maxFan, s.speed, TicksOf(decay, l, s, ins), RunCycles(decay, l, s, ins).speed)
    ensures RunCycles(decay, l, s, ins).speed <= l.maxFan
  {
    hide AllNormal, CycleStep;
    var n := |ins| - 1;
    var ts := TicksOf(decay, l, s, ins);
    var v := RunCycles(decay, l, s, ins).speed;
    NormalStep(decay, l, s, ins);
    if n == 0 {
      assert ins[..0] == [];
      assert ts[..0] == [];
      assert v == StartTerm(l.maxFan, s.speed, ts) || v == DemandTerm(ts, 0);
    } else {
      SlewClosedForm(decay, l, s, ins[..n]);
      var before := TicksOf(decay, l, s, ins[..n]);
      assert ts[..n] == before;
      SlewMaximumStep(l.maxFan, s.speed, ts, RunCycles(decay, l, s, ins[..n]).speed, v);
    }
  }

  lemma SlewMaximumStep(maxFan: int, s0: int, ts: seq<Tick>, v: int, v': int)
    requires |ts| > 1 && v <= maxFan && ts[|ts| - 1].drop >= 0
    requires IsSlewMaximum(maxFan, s0, ts[..|ts| - 1], v)
    requires v' == Max(ts[|ts| - 1].demand, Min(maxFan, v - ts[|ts| - 1].drop))
    ensures IsSlewMaximum(maxFan, s0, ts, v')
  {
    var n := |ts| - 1;
    var drop := ts[n].drop;
    assert StartTerm(maxFan, s0, ts) == StartTerm(maxFan, s0, ts[..n]) - drop;
    assert DemandTerm(ts, n) == ts[n].demand;
    forall i | 0 <= i < n
      ensures DemandTerm(ts, i) == DemandTerm(ts[..n], i) - drop
    {
    }
    if v == StartTerm(maxFan, s0, ts[..n]) {
      assert v - drop == StartTerm(maxFan, s0, ts);
    } else {
      var i :| 0 <= i < n && v == DemandTerm(ts[..n], i);
      assert v - drop == DemandTerm(ts, i);
    }
  }

  lemma {:induction false} DropsAtLeast(ts: seq<Tick>, i: nat)
    requires i <= |ts| && forall j :: 0 <= j < |ts| ==> ts[j].drop >= 1
    ensures DropsFrom(ts, i) >= |ts| - i
  {
    if i < |ts| {
      DropsAtLeast(ts[..|ts| - 1], i);
    }
  }

  lemma {:induction false} TicksDrop(decay: real -> real, l: Limits, s: Ctrl, ins: seq<Input>)
    ensures forall j :: 0 <= j < |ins| ==> TicksOf(decay, l, s, ins)[j].drop >= 1
  {
    if ins != [] {
      TicksDrop(decay, l, s, ins[..|ins| - 1]);
    }
  }

  /** A constant demand is reached within as many cycles as there are percent to
      fall, and held from then on; a rise is reached in the first cycle. */
  lemma ConstantDemandIsReached(decay: real -> real, l: Limits, s: Ctrl, ins: seq<Input>, d: int)
    requires l.Valid() && SafeSpeed(l, s) && AllNormal(decay, l, s, ins)
    requires forall j :: 0 <= j < |ins| ==> TicksOf(decay, l, s, ins)[j].demand == d
    requires |ins| >= Max(1, s.speed - d)
    ensures RunCycles(decay, l, s, ins).speed == d
  {
    hide AllNormal, CycleStep, TicksOf, RunCycles;
    var ts := TicksOf(decay, l, s, ins);
    var n := |ts| - 1;
    SlewClosedForm(decay, l, s, ins);
    TicksDrop(decay, l, s, ins);
    assert DemandTerm(ts, n) == d;
    DropsAtLeast(ts, 1);
    forall i | 0 <= i < |ts|
      ensures DemandTerm(ts, i) <= d
    {
      DropsAtLeast(ts, i + 1);
    }
  }

  // ------------------------------------------------------ clocks that advance

  /** Every cycle's clock is later than the one before, and the first later than
      the latest read. */
  predicate ClocksAdvance(s: Ctrl, ins: seq<Input>) {
    && s.lastReadAt.Some?
    && (forall i :: 0 <= i < |ins| ==> ins[i].now > s.lastReadAt.value)
    && (forall i, j :: 0 <= i < j < |ins| ==> ins[i].now < ins[j].now)
  }

  /** The time since the latest read when the clock advanced, and one nominal
      interval at the first read or after a clock that stood still or went back. */
  lemma ElapsedIsClockTime(last: Option<real>, now: real, intervalSec: int)
    ensures last.Some? && now > last.value ==> last.value + Elapsed(last, now, intervalSec) == now
    ensures intervalSec > 0 && (last.None? || now <= last.value)
      ==> Elapsed(last, now, intervalSec) == intervalSec as real
  {
  }

  /** The latest read of a run is no later than its latest clock, and the clock
      of the latest cycle that read something. */
  lemma {:induction false} LatestReadIsSeen(decay: real -> real, l: Limits, s: Ctrl, ins: seq<Input>)
    requires ClocksAdvance(s, ins)
    ensures var last := RunCycles(decay, l, s, ins).lastReadAt;
      && last.Some?
      && s.lastReadAt.value <= last.value <= (if ins == [] then s.lastReadAt.value else ins[|ins| - 1].now)
      && (ins != [] && ins[|ins| - 1].reading.Some? ==> last == Some(ins[|ins| - 1].now))
  {
    hide SmoothAll, IsEmergency, NormalPass;
    if ins != [] {
      var n := |ins| - 1;
      LatestReadIsSeen(decay, l, s, ins[..n]);
      ReadAtOfCycle(decay, l, ins[n].comfort, RunCycles(decay, l, s, ins[..n]), ins[n].reading, ins[n].now);
    }
  }

  lemma ReadAtOfCycle(decay: real -> real, l: Limits, comfort: Quad<int>, s: Ctrl, reading: Option<Reading>, now: real)
    ensures CycleStep(decay, l, comfort, s, reading, now).0.lastReadAt
         == if reading.Some? then Some(now) else s.lastReadAt
  {
    hide SmoothAll, IsEmergency, Curves, Assist, Candidates, DemandOf, Slewed, Winner, Latest, Ewma;
  }

  /** The reads of a run, whatever fails or stops in between, take exactly the
      clock time from the latest read before the run to the latest read in it. */
  lemma {:induction false} ReadsTakeClockTime(decay: real -> real, l: Limits, s: Ctrl, ins: seq<Input>, c: Managed)
    requires ClocksAdvance(s, ins)
    ensures var last := RunCycles(decay, l, s, ins).lastReadAt;
      last.Some? && s.lastReadAt.value + TotalTime(ReadsOf(decay, l, s, ins, c)) == last.value
  {
    hide CycleStep, Elapsed;
    if ins != [] {
      var n := |ins| - 1;
      var before := RunCycles(decay, l, s, ins[..n]);
      ReadsTakeClockTime(decay, l, s, ins[..n], c);
      LatestReadIsSeen(decay, l, s, ins[..n]);
      ReadAtOfCycle(decay, l, ins[n].comfort, before, ins[n].reading, ins[n].now);
      ElapsedIsClockTime(before.lastReadAt, ins[n].now, l.intervalSec);
      var front, all := ReadsOf(decay, l, s, ins[..n], c), ReadsOf(decay, l, s, ins, c);
      if ins[n].reading.Some? {
        assert all[..|all| - 1] == front;
      } else {
        assert all == front;
      }
    }
  }

  /** A class that reads one temperature throughout a run ends where one sample
      over the clock time between its reads would have put it. */
  lemma HeldReadingSmoothsByClock(decay: real -> real, l: Limits, s: Ctrl, ins: seq<Input>, c: Managed, raw: int)
    requires IsDecay(decay) && ClocksAdvance(s, ins) && raw > 0 && s.smooth.At(c) > 0.0
    requires ReadsOf(decay, l, s, ins, c) != []
    requires forall i :: 0 <= i < |ins| && ins[i].reading.Some? ==> ins[i].reading.value.temp.At(c) == raw
    ensures var end := RunCycles(decay, l, s, ins);
      && end.lastReadAt.Some?
      && end.smooth.At(c) == SmoothTemp(decay, s.smooth.At(c), raw, end.lastReadAt.value - s.lastReadAt.value)
  {
    hide IsDecay, RunCycles, SmoothTemp, ReadsOf;
    ReadsTakeClockTime(decay, l, s, ins, c);
    CyclesSmoothPerClass(decay, l, s, ins, c);
    ReadsAdvance(decay, l, s, ins, c);
    ReadsAreHeld(decay, l, s, ins, c, raw);
    SmoothIgnoresPartition(decay, s.smooth.At(c), raw, ReadsOf(decay, l, s, ins, c));
  }

  lemma {:induction false} ReadsAreHeld(decay: real -> real, l: Limits, s: Ctrl, ins: seq<Input>, c: Managed, raw: int)
    requires forall i :: 0 <= i < |ins| && ins[i].reading.Some? ==> ins[i].reading.value.temp.At(c) == raw
    ensures forall i :: 0 <= i < |ReadsOf(decay, l, s, ins, c)| ==> ReadsOf(decay, l, s, ins, c)[i].0 == raw
  {
    hide RunCycles;
    if ins != [] {
      ReadsAreHeld(decay, l, s, ins[..|ins| - 1], c, raw);
    }
  }

  // ------------------------------------------------------------ fall over time

  /** Every cycle of the run is bound by the slew: its setpoint ends above what
      the curves ask for. */
  predicate AllSlewing(decay: real -> real, l: Limits, s: Ctrl, ins: seq<Input>) {
    forall k :: 0 <= k < |ins| ==>
      OutcomeAt(decay, l, s, ins, k).Normal? && OutcomeAt(decay, l, s, ins, k).source == FromSlew
  }

  /** The falls of a run of normal cycles against the clock: 0.2 percent per
      second, to within half a percent above and one percent below per cycle. */
  lemma {:induction false} DropsFollowClock(decay: real -> real, l: Limits, s: Ctrl, ins: seq<Input>)
    requires l.Valid() && SafeSpeed(l, s) && AllNormal(decay, l, s, ins) && ClocksAdvance(s, ins)
    ensures ins != [] ==>
      var time := 0.2 * (ins[|ins| - 1].now - s.lastReadAt.value);
      time - 0.5 * |ins| as real <= DropsFrom(TicksOf(decay, l, s, ins), 0) as real <= time + |ins| as real
  {
    hide CycleStep, AllNormal, Elapsed, DropFor;
    if ins != [] {
      var n := |ins| - 1;
      var before := RunCycles(decay, l, s, ins[..n]);
      NormalStep(decay, l, s, ins);
      LastDrop(decay, l, s, ins);
      ReadEveryCycle(decay, l, s, ins);
      ElapsedIsClockTime(before.lastReadAt, ins[n].now, l.intervalSec);
      var dt := Elapsed(before.lastReadAt, ins[n].now, l.intervalSec);
      DropIsRateTimesTime(dt, SLEW_DOWN_PCT_PER_SEC);
      assert Times(SLEW_DOWN_PCT_PER_SEC, dt) == 0.2 * dt;
      if n > 0 {
        DropsFollowClock(decay, l, s, ins[..n]);
      }
    }
  }

  lemma LastDrop(decay: real -> real, l: Limits, s: Ctrl, ins: seq<Input>)
    requires ins != []
    ensures var n := |ins| - 1;
      var ts := TicksOf(decay, l, s, ins);
      && ts[..n] == TicksOf(decay, l, s, ins[..n])
      && DropsFrom(ts, 0) == DropsFrom(TicksOf(decay, l, s, ins[..n]), 0) + ts[n].drop
      && ts[n].drop
         == DropFor(Elapsed(RunCycles(decay, l, s, ins[..n]).lastReadAt, ins[n].now, l.intervalSec),
                    SLEW_DOWN_PCT_PER_SEC)
  {
    hide CycleStep, RunCycles, Elapsed, DropFor;
  }

  /** A normal cycle read something, so before cycle `n` the latest read is the
      cycle before, or the one before the run. */
  lemma ReadEveryCycle(decay: real -> real, l: Limits, s: Ctrl, ins: seq<Input>)
    requires l.Valid() && SafeSpeed(l, s) && ins != [] && AllNormal(decay, l, s, ins) && ClocksAdvance(s, ins)
    ensures var n := |ins| - 1;
      var last := RunCycles(decay, l, s, ins[..n]).lastReadAt;
      && last == (if n == 0 then s.lastReadAt else Some(ins[n - 1].now))
      && last.value < ins[n].now
  {
    hide CycleStep;
    var n := |ins| - 1;
    if n == 0 {
      assert ins[..0] == [];
    } else {
      LatestReadIsSeen(decay, l, s, ins[..n]);
      EveryCycleIsSafe(decay, l, s, ins, n - 1);
      assert OutcomeAt(decay, l, s, ins, n - 1).Normal?;
      assert ins[..n][n - 1] == ins[n - 1];
    }
  }

  /** Over normal cycles the setpoint never falls faster than 0.2 percent per
      second of clock time, but for one percent of rounding per cycle; while the
      slew binds it falls just as fast, but for half a percent. */
  lemma {:induction false} FallFollowsClock(decay: real -> real, l: Limits, s: Ctrl, ins: seq<Input>)
    requires l.Valid() && SafeSpeed(l, s) && s.speed <= l.maxFan && ins != []
    requires AllNormal(decay, l, s, ins) && ClocksAdvance(s, ins)
    ensures var fall := (s.speed - RunCycles(decay, l, s, ins).speed) as real;
      var time := ins[|ins| - 1].now - s.lastReadAt.value;
      && fall <= 0.2 * time + |ins| as real
      && (AllSlewing(decay, l, s, ins) ==> fall >= 0.2 * time - 0.5 * |ins| as real)
  {
    hide CycleStep, AllNormal, AllSlewing, TicksOf, RunCycles;
    DropsFollowClock(decay, l, s, ins);
    FallIsDrops(decay, l, s, ins);
  }

  lemma {:induction false} FallIsDrops(decay: real -> real, l: Limits, s: Ctrl, ins: seq<Input>)
    requires l.Valid() && SafeSpeed(l, s) && s.speed <= l.maxFan && AllNormal(decay, l, s, ins)
    ensures var fall, drops := s.speed - RunCycles(decay, l, s, ins).speed, DropsFrom(TicksOf(decay, l, s, ins), 0);
      && RunCycles(decay, l, s, ins).speed <= l.maxFan
      && fall <= drops
      && (AllSlewing(decay, l, s, ins) ==> fall == drops)
  {
    hide CycleStep, AllNormal;
    if ins != [] {
      var n := |ins| - 1;
      NormalStep(decay, l, s, ins);
      LastDrop(decay, l, s, ins);
      FallIsDrops(decay, l, s, ins[..n]);
      if AllSlewing(decay, l, s, ins) {
        SlewingBefore(decay, l, s, ins);
      }
    }
  }

  lemma SlewingBefore(decay: real -> real, l: Limits, s: Ctrl, ins: seq<Input>)
    requires l.Valid() && SafeSpeed(l, s) && ins != [] && AllSlewing(decay, l, s, ins)
    ensures AllSlewing(decay, l, s, ins[..|ins| - 1])
    ensures RunCycles(decay, l, s, ins).speed > TicksOf(decay, l, s, ins)[|ins| - 1].demand
  {
    hide CycleStep, OverThreshold;
    var n := |ins| - 1;
    assert ins[..n + 1] == ins;
    assert OutcomeAt(decay, l, s, ins, n).source == FromSlew;
    EveryCycleIsSafe(decay, l, s, ins, n);
    forall k | 0 <= k < n
      ensures OutcomeAt(decay, l, s, ins[..n], k) == OutcomeAt(decay, l, s, ins, k)
    {
      assert ins[..n][..k] == ins[..k];
    }
  }

  // ------------------------------------------------------------------ smoothing

  /** The smoothing of one class over successful reads: a reading and the time
      since the read before. */
  function SmoothRun(decay: real -> real, s: real, steps: seq<(int, real)>): real {
    if steps == [] then s
    else
      var n := |steps| - 1;
      SmoothTemp(decay, SmoothRun(decay, s, steps[..n]), steps[n].0, steps[n].1)
  }

  function TotalTime(steps: seq<(int, real)>): real {
    if steps == [] then 0.0 else TotalTime(steps[..|steps| - 1]) + steps[|steps| - 1].1
  }

  /** Readings in a positive range, at positive intervals. */
  predicate Readings(steps: seq<(int, real)>, lo: real, hi: real) {
    && 0.0 < lo
    && forall i :: 0 <= i < |steps| ==> lo <= steps[i].0 as real <= hi && steps[i].1 > 0.0
  }

  /** The smoothed value never leaves the range of the readings since it was seeded. */
  lemma {:induction false} SmoothStaysInRange(decay: real -> real, s: real, steps: seq<(int, real)>, lo: real, hi: real)
    requires IsDecay(decay) && Readings(steps, lo, hi)
    requires (s <= 0.0 && steps != []) || lo <= s <= hi
    ensures lo <= SmoothRun(decay, s, steps) <= hi
  {
    hide EwmaDt, IsDecay;
    if steps != [] {
      var n := |steps| - 1;
      if n > 0 || lo <= s {
        SmoothStaysInRange(decay, s, steps[..n], lo, hi);
        EwmaBetween(decay, SmoothRun(decay, s, steps[..n]), steps[n].0 as real, steps[n].1,
                    CURVE_SMOOTH_TAU_SEC, lo, hi);
      } else {
        assert SmoothRun(decay, s, steps[..n]) == s;
      }
    }
  }

  /** Two histories fed the same readings differ by exactly the decay of the
      elapsed time. */
  lemma {:induction false} SmoothForgets(decay: real -> real, s: real, t: real, steps: seq<(int, real)>, lo: real,
                                         hi: real)
    requires IsDecay(decay) && Readings(steps, lo, hi)
    requires lo <= s <= hi && lo <= t <= hi
    ensures TotalTime(steps) >= 0.0
    ensures SmoothRun(decay, s, steps) - SmoothRun(decay, t, steps)
         == Times(decay(TotalTime(steps) / CURVE_SMOOTH_TAU_SEC), s - t)
  {
    hide Times, EwmaDt, IsDecay;
    if steps == [] {
      DecayOfNothing(decay, s - t);
    } else {
      var n := |steps| - 1;
      var (raw, dt) := steps[n];
      SmoothForgets(decay, s, t, steps[..n], lo, hi);
      SmoothStaysInRange(decay, s, steps[..n], lo, hi);
      SmoothStaysInRange(decay, t, steps[..n], lo, hi);
      var x, y := SmoothRun(decay, s, steps[..n]), SmoothRun(decay, t, steps[..n]);
      EwmaContracts(decay, x, y, raw as real, dt);
      DecayAdds(decay, TotalTime(steps[..n]), dt, s - t);
    }
  }

  lemma DecayOfNothing(decay: real -> real, gap: real)
    requires IsDecay(decay)
    ensures Times(decay(0.0 / CURVE_SMOOTH_TAU_SEC), gap) == gap
  {
    assert 0.0 / CURVE_SMOOTH_TAU_SEC == 0.0;
  }

  lemma EwmaContracts(decay: real -> real, x: real, y: real, z: real, dt: real)
    requires dt > 0.0
    ensures EwmaDt(decay, x, z, dt, CURVE_SMOOTH_TAU_SEC) - EwmaDt(decay, y, z, dt, CURVE_SMOOTH_TAU_SEC)
         == Times(decay(dt / CURVE_SMOOTH_TAU_SEC), x - y)
  {
    Contraction(decay(dt / CURVE_SMOOTH_TAU_SEC), x, y, z);
  }

  lemma Contraction(d: real, x: real, y: real, z: real)
    ensures x + (1.0 - d) * (z - x) - (y + (1.0 - d) * (z - y)) == Times(d, x - y)
  {
  }

  lemma DecayAdds(decay: real -> real, t: real, dt: real, gap: real)
    requires IsDecay(decay) && t >= 0.0 && dt > 0.0
    ensures Times(decay(dt / CURVE_SMOOTH_TAU_SEC), Times(decay(t / CURVE_SMOOTH_TAU_SEC), gap))
         == Times(decay((t + dt) / CURVE_SMOOTH_TAU_SEC), gap)
  {
    hide Times, IsDecay;
    var a, b := t / CURVE_SMOOTH_TAU_SEC, dt / CURVE_SMOOTH_TAU_SEC;
    assert (t + dt) / CURVE_SMOOTH_TAU_SEC == a + b;
    DecaySplits(decay, a, b);
    Associates(decay(b), decay(a), gap, decay(a + b));
  }

  lemma DecaySplits(decay: real -> real, a: real, b: real)
    requires IsDecay(decay) && a >= 0.0 && b >= 0.0
    ensures decay(a + b) == Times(decay(a), decay(b))
  {
  }

  lemma Associates(x: real, y: real, z: real, yx: real)
    requires yx == Times(y, x)
    ensures Times(x, Times(y, z)) == Times(yx, z)
  {
  }

  /** Only elapsed time matters: a held reading sampled at any instants gives
      the same value as one sample at the end. */
  lemma SmoothIgnoresPartition(decay: real -> real, s: real, raw: int, steps: seq<(int, real)>)
    requires IsDecay(decay) && raw > 0 && s > 0.0 && steps != []
    requires forall i :: 0 <= i < |steps| ==> steps[i].0 == raw && steps[i].1 > 0.0
    ensures SmoothRun(decay, s, steps) == SmoothTemp(decay, s, raw, TotalTime(steps))
  {
    hide Times, SmoothTemp, IsDecay;
    var lo, hi := MinReal(s, raw as real), MaxReal(s, raw as real);
    var total := TotalTime(steps);
    TimePasses(steps);
    var once := [(raw, total)];
    assert once[..0] == [];
    assert TotalTime([]) == 0.0 && TotalTime(once) == total;
    assert SmoothRun(decay, s, []) == s && SmoothRun(decay, s, once) == SmoothTemp(decay, s, raw, total);
    SmoothForgets(decay, s, raw as real, steps, lo, hi);
    SmoothForgets(decay, s, raw as real, once, lo, hi);
    SmoothStaysInRange(decay, raw as real, steps, raw as real, raw as real);
    SmoothStaysInRange(decay, raw as real, once, raw as real, raw as real);
  }

  lemma {:induction false} TimePasses(steps: seq<(int, real)>)
    requires forall i :: 0 <= i < |steps| ==> steps[i].1 > 0.0
    ensures TotalTime(steps) >= 0.0 && (steps != [] ==> TotalTime(steps) > 0.0)
  {
    if steps != [] {
      TimePasses(steps[..|steps| - 1]);
    }
  }

  /** The successful reads of a run, as one class sees them. */
  function ReadsOf(decay: real -> real, l: Limits, s: Ctrl, ins: seq<Input>, c: Managed): seq<(int, real)> {
    if ins == [] then []
    else
      var n := |ins| - 1;
      ReadsOf(decay, l, s, ins[..n], c)
        + match ins[n].reading
          case None => []
          case Some(r) =>
            [(r.temp.At(c), Elapsed(RunCycles(decay, l, s, ins[..n]).lastReadAt, ins[n].now, l.intervalSec))]
  }

  /** What one cycle does to a class's smoothed temperature. */
  lemma CycleSmooths(decay: real -> real, l: Limits, comfort: Quad<int>, s: Ctrl, reading: Option<Reading>, now: real,
                     c: Managed)
    ensures CycleStep(decay, l, comfort, s, reading, now).0.smooth.At(c)
         == match reading
            case None => s.smooth.At(c)
            case Some(r) =>
              SmoothTemp(decay, s.smooth.At(c), r.temp.At(c), Elapsed(s.lastReadAt, now, l.intervalSec))
  {
    hide SmoothTemp, Elapsed, IsEmergency, Curves, Assist, DemandOf, Slewed, Ewma, Latest, Candidates, Winner;
  }

  /** Over any run of cycles, emergencies and failures included, a class's
      smoothed temperature is the smoothing of that class's own readings. */
  lemma {:induction false} CyclesSmoothPerClass(decay: real -> real, l: Limits, s: Ctrl, ins: seq<Input>, c: Managed)
    ensures RunCycles(decay, l, s, ins).smooth.At(c) == SmoothRun(decay, s.smooth.At(c), ReadsOf(decay, l, s, ins, c))
  {
    hide SmoothTemp, Elapsed, CycleStep;
    if ins != [] {
      var n := |ins| - 1;
      CyclesSmoothPerClass(decay, l, s, ins[..n], c);
      CycleSmooths(decay, l, ins[n].comfort, RunCycles(decay, l, s, ins[..n]), ins[n].reading, ins[n].now, c);
      var front, all := ReadsOf(decay, l, s, ins[..n], c), ReadsOf(decay, l, s, ins, c);
      if ins[n].reading.Some? {
        assert all[..|all| - 1] == front;
      } else {
        assert all == front;
      }
    }
  }

  /** How many reads there are up to and including the latest absent one. */
  function LastAbsent(steps: seq<(int, real)>): (k: nat)
    ensures k <= |steps|
    ensures k > 0 ==> steps[k - 1].0 <= 0
    ensures forall i :: k <= i < |steps| ==> steps[i].0 > 0
  {
    if steps == [] then 0
    else if steps[|steps| - 1].0 <= 0 then |steps|
    else LastAbsent(steps[..|steps| - 1])
  }

  /** An absent reading wipes the history: the smoothing starts over after it. */
  lemma {:induction false} SmoothRestarts(decay: real -> real, s: real, steps: seq<(int, real)>)
    ensures var k := LastAbsent(steps);
      SmoothRun(decay, s, steps) == SmoothRun(decay, if k > 0 then 0.0 else s, steps[k..])
  {
    hide EwmaDt;
    var k := LastAbsent(steps);
    if k == |steps| {
      assert steps[k..] == [];
    } else {
      var n := |steps| - 1;
      SmoothRestarts(decay, s, steps[..n]);
      assert steps[k..][..n - k] == steps[..n][k..];
    }
  }

  lemma {:induction false} ReadsAdvance(decay: real -> real, l: Limits, s: Ctrl, ins: seq<Input>, c: Managed)
    ensures forall i :: 0 <= i < |ReadsOf(decay, l, s, ins, c)| ==> ReadsOf(decay, l, s, ins, c)[i].1 > 0.0
  {
    hide RunCycles;
    if ins != [] {
      ReadsAdvance(decay, l, s, ins[..|ins| - 1], c);
    }
  }

  /** Over any run of cycles the smoothed value is zero while the class is absent,
      and otherwise stays within the readings since it was last seeded. */
  lemma RunSmoothsWithinReadings(decay: real -> real, l: Limits, s: Ctrl, ins: seq<Input>, c: Managed, lo: real,
                                 hi: real)
    requires IsDecay(decay) && 0.0 < lo
    requires s.smooth.At(c) <= 0.0 || lo <= s.smooth.At(c) <= hi
    requires var steps := ReadsOf(decay, l, s, ins, c);
      forall i :: LastAbsent(steps) <= i < |steps| ==> lo <= steps[i].0 as real <= hi
    ensures var steps, v := ReadsOf(decay, l, s, ins, c), RunCycles(decay, l, s, ins).smooth.At(c);
      if LastAbsent(steps) < |steps| then lo <= v <= hi
      else v == if steps == [] then s.smooth.At(c) else 0.0
  {
    hide IsDecay, RunCycles, ReadsOf, SmoothTemp;
    var steps := ReadsOf(decay, l, s, ins, c);
    var k := LastAbsent(steps);
    var seed := if k > 0 then 0.0 else s.smooth.At(c);
    CyclesSmoothPerClass(decay, l, s, ins, c);
    SmoothRestarts(decay, s.smooth.At(c), steps);
    ReadsAdvance(decay, l, s, ins, c);
    if k < |steps| {
      SmoothStaysInRange(decay, seed, steps[k..], lo, hi);
    }
  }

  // ----------------------------------------------------------------- noise gain

  /** The same classes report in both cycles, and no smoothed temperature moved
      by more than `delta`. */
  predicate Jitter(m1: Quad<real>, m2: Quad<real>, delta: real) {
    forall c: Managed :: (m1.At(c) <= 0.0 <==> m2.At(c) <= 0.0) && AbsReal(m1.At(c) - m2.At(c)) <= delta
  }

  /** A class's curve moves by less than `g` fan ranges plus the rounding,
      where `delta` degrees are `g` times the class's minimum span. */
  lemma CurveNoise(l: Limits, comfort: Quad<int>, m1: Quad<real>, m2: Quad<real>, c: Managed, delta: real, g: real)
    requires l.Valid() && Jitter(m1, m2, delta)
    requires g >= 0.0 && delta == Times(g, MinCurveSpan(c) as real)
    ensures Abs(ClassCurve(l, comfort, m1, c) - ClassCurve(l, comfort, m2, c)) as real
          < Times(g, (l.maxFan - l.minFan) as real) + 1.0
  {
    hide Ramp, CurveF, RoundHalfUp, Times;
    CurveInRange(l, comfort, m1, c);
    CurveInRange(l, comfort, m2, c);
    var com, e := Min(comfort.At(c), l.Cap(c)), l.emergency.At(c);
    var lo, hi := l.minFan as real, l.maxFan as real;
    NonNegative(g, hi - lo);
    assert (l.maxFan - l.minFan) as real == hi - lo;
    if m1.At(c) > 0.0 {
      CurveIsRoundedRamp(m1.At(c), com, e, l.minFan, l.maxFan);
      CurveIsRoundedRamp(m2.At(c), com, e, l.minFan, l.maxFan);
      WiderIsMore(g, MinCurveSpan(c) as real, e as real - com as real);
      RampGain(m1.At(c), m2.At(c), com as real, e as real, lo, hi, g);
      RoundHalfUpGap(Ramp(m1.At(c), com as real, e as real, lo, hi), Ramp(m2.At(c), com as real, e as real, lo, hi),
                     Times(g, hi - lo));
    }
  }

  lemma NonNegative(x: real, y: real)
    requires x >= 0.0 && y >= 0.0
    ensures Times(x, y) >= 0.0
  {
    MulMonotone(y, 0.0, x);
  }

  lemma WiderIsMore(g: real, narrow: real, wide: real)
    requires g >= 0.0 && narrow <= wide
    ensures Times(g, narrow) <= Times(g, wide)
  {
    MulMonotone(g, narrow, wide);
  }

  /** Two maxima differ by less than a bound if every pair of terms does. */
  lemma DemandNoise(l: Limits, q1: Quad<int>, q2: Quad<int>, assist: int, bound: real)
    requires l.Valid() && bound > 0.0
    requires forall c: Managed :: Abs(q1.At(c) - q2.At(c)) as real < bound
    ensures Abs(DemandOf(l, q1, assist) - DemandOf(l, q2, assist)) as real < bound
  {
    var c1, c2 := Candidates(q1, assist), Candidates(q2, assist);
    assert forall i :: 0 <= i < 5 ==> Abs(c1[i].value - c2[i].value) as real < bound by {
      assert q1.At(CPU) == c1[0].value && q2.At(CPU) == c2[0].value;
      assert q1.At(PassiveGPU) == c1[1].value && q2.At(PassiveGPU) == c2[1].value;
      assert q1.At(HDD) == c1[2].value && q2.At(HDD) == c2[2].value;
      assert q1.At(SSD) == c1[3].value && q2.At(SSD) == c2[3].value;
    }
    var w1, w2 := Winner(c1), Winner(c2);
    assert c1[w2].value <= c1[w1].value && c2[w1].value <= c2[w2].value;
  }

  /** End-to-end gain: sensor noise of `delta` degrees moves the demand by less
      than (maxFan - minFan) * delta / 6 + 1 percent, whatever the ramp starts. */
  lemma EndToEndNoiseGain(l: Limits, comfort: Quad<int>, m1: Quad<real>, m2: Quad<real>, assist: int, delta: real)
    requires l.Valid() && delta >= 0.0 && Jitter(m1, m2, delta)
    ensures Abs(DemandOf(l, Curves(l, comfort, m1), assist) - DemandOf(l, Curves(l, comfort, m2), assist)) as real
          < Times(delta / 6.0, (l.maxFan - l.minFan) as real) + 1.0
  {
    hide ClassCurve, DemandOf, Jitter, Times;
    var h := (l.maxFan - l.minFan) as real;
    NonNegative(delta / 6.0, h);
    forall c: Managed
      ensures Abs(Curves(l, comfort, m1).At(c) - Curves(l, comfort, m2).At(c)) as real < Times(delta / 6.0, h) + 1.0
    {
      NarrowestSpan(delta, MinCurveSpan(c) as real, h);
      CurveNoise(l, comfort, m1, m2, c, delta, delta / MinCurveSpan(c) as real);
    }
    DemandNoise(l, Curves(l, comfort, m1), Curves(l, comfort, m2), assist, Times(delta / 6.0, h) + 1.0);
  }

  lemma NarrowestSpan(delta: real, span: real, h: real)
    requires delta >= 0.0 && span >= 6.0 && h >= 0.0
    ensures 0.0 <= delta / span && Times(delta / span, span) == delta
    ensures Times(delta / span, h) <= Times(delta / 6.0, h)
  {
    Quotient(delta, span);
    Quotient(delta, 6.0);
    QuotientOrder(0.0, delta, span);
    FractionOrder(delta / span, span, delta / 6.0, 6.0);
    MulMonotone(h, delta / span, delta / 6.0);
  }

  /** One degree of noise, on the default fan range of 10 to 100: at most 9
      percent for the processor, 12 for a passive GPU, 15 for a drive. */
  lemma OneDegreeGain(l: Limits, comfort: Quad<int>, m1: Quad<real>, m2: Quad<real>, c: Managed)
    requires l.Valid() && l.maxFan - l.minFan <= 90 && Jitter(m1, m2, 1.0)
    ensures Abs(ClassCurve(l, comfort, m1, c) - ClassCurve(l, comfort, m2, c))
         <= match c case CPU => 9 case PassiveGPU => 12 case HDD => 15 case SSD => 15
  {
    hide ClassCurve, Jitter;
    var span := MinCurveSpan(c) as real;
    SpanShare(span);
    CurveNoise(l, comfort, m1, m2, c, 1.0, 1.0 / span);
    ScaledHeight(1.0 / span, (l.maxFan - l.minFan) as real);
  }

  lemma SpanShare(span: real)
    requires span > 0.0
    ensures 1.0 / span > 0.0 && Times(1.0 / span, span) == 1.0
    ensures span == 10.0 ==> 90.0 * (1.0 / span) == 9.0
    ensures span == 8.0 ==> 90.0 * (1.0 / span) == 11.25
    ensures span == 6.0 ==> 90.0 * (1.0 / span) == 15.0
  {
    Quotient(1.0, span);
  }

  lemma ScaledHeight(g: real, h: real)
    requires g > 0.0 && h <= 90.0
    ensures Times(g, h) <= 90.0 * g
  {
    MulMonotone(g, h, 90.0);
  }
}
