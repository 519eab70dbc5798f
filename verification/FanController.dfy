/** The per-cycle decision loop: read-fail, emergency and normal exits, the
    smoothing, the curves, max-wins, the down-slew and the BMC writes. */
module FanController {
  import opened Rounding
  import opened Thermal
  import opened Control
  import opened Settings
  import opened Ipmi

  const CURVE_SMOOTH_TAU_SEC := 60.0
  const SLEW_DOWN_PCT_PER_SEC := 0.2

  /** One cycle's temperatures; zero means the source is absent. */
  datatype Reading = Reading(temp: Quad<int>, activeGPU: int, activeGPUFan: int)

  /** The controller's fields, by value. */
  datatype Ctrl = Ctrl(
    speed: int,
    base: real,
    samples: int,
    inEmergency: bool,
    lastTemp: Quad<int>,
    lastDemand: Quad<int>,
    smooth: Quad<real>,
    lastReadAt: Option<real>)

  /** Why the cycle commanded what it did. */
  datatype Outcome =
    | ReadFailed
    | Emergency
    | Normal(source: Source, demand: int, curves: Quad<int>, assist: int)

  // ------------------------------------------------------------------ the parts

  /** Seconds since the previous successful read, one nominal interval when
      there was none or the clock did not advance. */
  function Elapsed(last: Option<real>, now: real, intervalSec: int): (dt: real)
    ensures dt > 0.0
  {
    var dt := if last.Some? then now - last.value else 0.0;
    if dt > 0.0 then dt
    else if intervalSec > 0 then intervalSec as real
    else 15.0
  }

  function SmoothTemp(decay: real -> real, s: real, raw: int, dtSec: real): real {
    if raw <= 0 then 0.0
    else if s <= 0.0 then raw as real
    else EwmaDt(decay, s, raw as real, dtSec, CURVE_SMOOTH_TAU_SEC)
  }

  function SmoothAll(decay: real -> real, s: Quad<real>, r: Reading, dt: real): (q: Quad<real>)
    ensures forall c: Managed :: q.At(c) == SmoothTemp(decay, s.At(c), r.temp.At(c), dt)
  {
    Quad(SmoothTemp(decay, s.cpu, r.temp.cpu, dt), SmoothTemp(decay, s.pg, r.temp.pg, dt),
         SmoothTemp(decay, s.hdd, r.temp.hdd, dt), SmoothTemp(decay, s.ssd, r.temp.ssd, dt))
  }

  /** Any class at its emergency threshold, on the raw readings. */
  predicate IsEmergency(l: Limits, r: Reading) {
    || r.temp.cpu >= l.emergency.cpu
    || r.temp.pg >= l.emergency.pg
    || r.activeGPU >= l.activeGPUEmergency
    || (r.temp.hdd > 0 && r.temp.hdd >= l.emergency.hdd)
    || (r.temp.ssd > 0 && r.temp.ssd >= l.emergency.ssd)
  }

  /** The class's curve with its ramp start held to the minimum span. */
  function ClassCurve(l: Limits, comfort: Quad<int>, smooth: Quad<real>, c: Managed): int {
    CurveF(smooth.At(c), Min(comfort.At(c), l.Cap(c)), l.emergency.At(c), l.minFan, l.maxFan)
  }

  function Curves(l: Limits, comfort: Quad<int>, smooth: Quad<real>): (q: Quad<int>)
    ensures forall c: Managed :: q.At(c) == ClassCurve(l, comfort, smooth, c)
  {
    Quad(ClassCurve(l, comfort, smooth, CPU), ClassCurve(l, comfort, smooth, PassiveGPU),
         ClassCurve(l, comfort, smooth, HDD), ClassCurve(l, comfort, smooth, SSD))
  }

  function Assist(l: Limits, r: Reading): int {
    if r.activeGPU > 0 then ActiveGPUAssist(r.activeGPUFan, l.ownFanThreshold, l.minFan, l.maxFan) else 0
  }

  function Candidates(curves: Quad<int>, assist: int): (cs: seq<Candidate>)
    ensures |cs| == 5
  {
    [Candidate(FromCPU, curves.cpu), Candidate(FromPG, curves.pg), Candidate(FromHDD, curves.hdd),
     Candidate(FromSSD, curves.ssd), Candidate(FromAssist, assist)]
  }

  /** The demand of the cycle before the slew. */
  function DemandOf(l: Limits, curves: Quad<int>, assist: int): int {
    var cs := Candidates(curves, assist);
    Clamp(cs[Winner(cs)].value, l.minFan, l.maxFan)
  }

  /** The setpoint after the slew. */
  function Slewed(l: Limits, speed: int, demand: int, dt: real): int {
    Clamp(SlewDown(speed, demand, dt, SLEW_DOWN_PCT_PER_SEC), l.minFan, l.maxFan)
  }

  /** Only classes that read something replace their last values. */
  function Latest(last: Quad<int>, current: Quad<int>, r: Reading): (q: Quad<int>)
    ensures forall c: Managed :: q.At(c) == if r.temp.At(c) > 0 then current.At(c) else last.At(c)
  {
    Quad(if r.temp.cpu > 0 then current.cpu else last.cpu,
         if r.temp.pg > 0 then current.pg else last.pg,
         if r.temp.hdd > 0 then current.hdd else last.hdd,
         if r.temp.ssd > 0 then current.ssd else last.ssd)
  }

  // ------------------------------------------------------------------ one cycle

  /** The normal exit, on fields whose temperatures are already smoothed. */
  function NormalPass(l: Limits, comfort: Quad<int>, s: Ctrl, r: Reading, dt: real): (Ctrl, Outcome) {
    var curves := Curves(l, comfort, s.smooth);
    var assist := Assist(l, r);
    var cs := Candidates(curves, assist);
    var demand := DemandOf(l, curves, assist);
    var speed := Slewed(l, s.speed, demand, dt);
    (s.(speed := speed,
        inEmergency := false,
        base := Ewma(s.base, speed as real, l.adaptAlpha),
        samples := s.samples + 1,
        lastTemp := Latest(s.lastTemp, r.temp, r),
        lastDemand := Latest(s.lastDemand, curves, r)),
     Normal(if speed > demand then FromSlew else cs[Winner(cs)].name, demand, curves, assist))
  }

  /** One decision pass on the controller's fields. */
  function CycleStep(decay: real -> real, l: Limits, comfort: Quad<int>, s: Ctrl,
                     reading: Option<Reading>, now: real): (Ctrl, Outcome)
  {
    match reading
    case None => (s.(speed := 100), ReadFailed)
    case Some(r) =>
      var dt := Elapsed(s.lastReadAt, now, l.intervalSec);
      var read := s.(lastReadAt := Some(now), smooth := SmoothAll(decay, s.smooth, r, dt));
      if IsEmergency(l, r) then (read.(speed := 100, inEmergency := true), Emergency)
      else NormalPass(l, comfort, read, r, dt)
  }

  /** The percentage the cycle writes, if it writes one: an emergency that finds
      the controller at 100 already writes nothing. */
  function CommandFor(before: Ctrl, after: Ctrl, o: Outcome): Option<int> {
    match o
    case ReadFailed => Some(100)
    case Emergency => if before.speed != 100 then Some(100) else None
    case Normal(_, _, _, _) => Some(after.speed)
  }

  /** What the cycle does to the BMC: manual mode is re-asserted first, and
      without fan control nothing is written at all. */
  function BmcAfter(b: Bmc, indices: seq<int>, fanControl: bool, command: Option<int>): Bmc {
    if !fanControl then b
    else if command.None? then b.Engaged()
    else b.Engaged().FanSet(indices, command.value).0
  }

  // ----------------------------------------------------------------- start speed

  /** The resumed speed: the saved last speed, else the saved base, else the
      minimum; always inside the fan range. */
  function ResumeSpeed(l: Limits, saved: Option<(real, int)>): (speed: int)
    ensures l.minFan <= l.maxFan ==> l.minFan <= speed <= l.maxFan
  {
    match saved
    case None => l.minFan
    case Some((base, last)) =>
      if last > 0 then Clamp(last, l.minFan, l.maxFan)
      else Clamp(Trunc(base + 0.5), l.minFan, l.maxFan)
  }

  // ------------------------------------------------------------------- the class

  class Controller {
    const cfg: Config
    const client: Client
    var currentSpeed: int
    var baseSpeed: real
    var samples: int
    var inEmergency: bool
    var fanControl: bool
    var lastTemp: Quad<int>
    var lastDemand: Quad<int>
    var smooth: Quad<real>
    var lastReadAt: Option<real>

    ghost function View(): Ctrl
      reads this
    {
      Ctrl(currentSpeed, baseSpeed, samples, inEmergency, lastTemp, lastDemand, smooth, lastReadAt)
    }

    /** The state of a new controller before the saved state is loaded. */
    constructor (cfg: Config, client: Client)
      ensures this.cfg == cfg && this.client == client && fanControl
      ensures View() == Ctrl(0, 0.0, 0, false, Quad(-1, -1, -1, -1), Quad(0, 0, 0, 0), Quad(0.0, 0.0, 0.0, 0.0), None)
    {
      this.cfg := cfg;
      this.client := client;
      currentSpeed, baseSpeed, samples := 0, 0.0, 0;
      inEmergency, fanControl := false, true;
      lastTemp := Quad(-1, -1, -1, -1);
      lastDemand := Quad(0, 0, 0, 0);
      smooth := Quad(0.0, 0.0, 0.0, 0.0);
      lastReadAt := None;
    }

    method LoadState(saved: Option<(real, int, int)>)
      modifies this
      ensures View() == old(View()).(
        speed := ResumeSpeed(cfg.limits, if saved.Some? then Some((saved.value.0, saved.value.1)) else None),
        base := if saved.Some? then saved.value.0 else cfg.limits.minFan as real,
        samples := if saved.Some? then saved.value.2 else 0)
      ensures fanControl == old(fanControl)
    {
      if saved.None? {
        currentSpeed := cfg.limits.minFan;
        baseSpeed := cfg.limits.minFan as real;
        samples := 0;
        return;
      }
      baseSpeed := saved.value.0;
      samples := saved.value.2;
      if saved.value.1 > 0 {
        currentSpeed := Clamp(saved.value.1, cfg.limits.minFan, cfg.limits.maxFan);
      } else {
        var intBase := Trunc(saved.value.0 + 0.5);
        currentSpeed := Clamp(intBase, cfg.limits.minFan, cfg.limits.maxFan);
      }
    }

    method EngageManual()
      modifies client`bmc
      ensures client.bmc == if fanControl then old(client.bmc).Engaged() else old(client.bmc)
    {
      if !fanControl {
        return;
      }
      client.EngageManual();
    }

    method SetFan(pct: int)
      modifies client`bmc
      ensures client.bmc == if fanControl then old(client.bmc).FanSet(client.fanIndices, pct).0 else old(client.bmc)
    {
      if !fanControl {
        return;
      }
      var _ := client.SetFan(pct);
    }

    /** Last temperatures and demands, for the classes that read something. */
    method Remember(r: Reading, curves: Quad<int>)
      modifies this`lastTemp, this`lastDemand
      ensures lastTemp == Latest(old(lastTemp), r.temp, r)
      ensures lastDemand == Latest(old(lastDemand), curves, r)
    {
      if r.temp.cpu > 0 {
        lastTemp, lastDemand := lastTemp.(cpu := r.temp.cpu), lastDemand.(cpu := curves.cpu);
      }
      if r.temp.pg > 0 {
        lastTemp, lastDemand := lastTemp.(pg := r.temp.pg), lastDemand.(pg := curves.pg);
      }
      if r.temp.hdd > 0 {
        lastTemp, lastDemand := lastTemp.(hdd := r.temp.hdd), lastDemand.(hdd := curves.hdd);
      }
      if r.temp.ssd > 0 {
        lastTemp, lastDemand := lastTemp.(ssd := r.temp.ssd), lastDemand.(ssd := curves.ssd);
      }
    }

    /** Curves, max-wins, down-slew, the write and the bookkeeping. */
    method NormalExit(r: Reading, dt: real) returns (o: Outcome)
      modifies this, client`bmc
      ensures (View(), o) == NormalPass(cfg.limits, cfg.comfort, old(View()), r, dt)
      ensures fanControl == old(fanControl)
      ensures client.bmc == if fanControl then old(client.bmc).FanSet(client.fanIndices, currentSpeed).0
                            else old(client.bmc)
    {
      hide Curves, ActiveGPUAssist, Bmc.FanSet, SlewDown, Ewma, Latest, Candidates, DemandOf, Winner, Wins, Clamp;
      var l := cfg.limits;
      if inEmergency {
        inEmergency := false;
      }
      var curves := Curves(l, cfg.comfort, smooth);
      var agAssist := 0;
      if r.activeGPU > 0 {
        agAssist := ActiveGPUAssist(r.activeGPUFan, l.ownFanThreshold, l.minFan, l.maxFan);
      }
      var demand, src := MaxWins(
        Candidate(FromCPU, curves.cpu),
        [Candidate(FromPG, curves.pg), Candidate(FromHDD, curves.hdd),
         Candidate(FromSSD, curves.ssd), Candidate(FromAssist, agAssist)],
        l.minFan, l.maxFan);
      WinningCandidate(curves, agAssist, l, demand, src);
      currentSpeed := Clamp(SlewDown(currentSpeed, demand, dt, SLEW_DOWN_PCT_PER_SEC), l.minFan, l.maxFan);
      if currentSpeed > demand {
        src := FromSlew;
      }
      SetFan(currentSpeed);
      baseSpeed := Ewma(baseSpeed, currentSpeed as real, l.adaptAlpha);
      samples := samples + 1;
      Remember(r, curves);
      return Normal(src, demand, curves, agAssist);
    }

    method Cycle(decay: real -> real, reading: Option<Reading>, now: real) returns (o: Outcome)
      modifies this, client`bmc
      ensures (View(), o) == CycleStep(decay, cfg.limits, cfg.comfort, old(View()), reading, now)
      ensures client.bmc
        == BmcAfter(old(client.bmc), client.fanIndices, fanControl, CommandFor(old(View()), View(), o))
      ensures fanControl == old(fanControl)
    {
      hide Elapsed, SmoothAll, IsEmergency, Curves, Assist, Slewed, Bmc.FanSet, Ewma, Latest, Candidates, DemandOf;
      hide Winner;
      EngageManual();
      if reading.None? {
        SetFan(100);
        currentSpeed := 100;
        return ReadFailed;
      }
      var l, r := cfg.limits, reading.value;
      var dt := Elapsed(lastReadAt, now, l.intervalSec);
      lastReadAt := Some(now);
      smooth := SmoothAll(decay, smooth, r, dt);
      if IsEmergency(l, r) {
        if currentSpeed != 100 {
          SetFan(100);
          currentSpeed := 100;
        }
        inEmergency := true;
        return Emergency;
      }
      o := NormalExit(r, dt);
    }
  }

  /** Max-wins over the cycle's candidates is the winner of the specification. */
  lemma WinningCandidate(curves: Quad<int>, assist: int, l: Limits, demand: int, src: Source)
    requires var all := [Candidate(FromCPU, curves.cpu)]
        + [Candidate(FromPG, curves.pg), Candidate(FromHDD, curves.hdd),
           Candidate(FromSSD, curves.ssd), Candidate(FromAssist, assist)];
      exists k: nat :: Wins(all, k) && src == all[k].name && demand == Clamp(all[k].value, l.minFan, l.maxFan)
    ensures var cs := Candidates(curves, assist);
      src == cs[Winner(cs)].name && demand == DemandOf(l, curves, assist)
  {
    var cs := Candidates(curves, assist);
    assert cs == [cs[0]] + cs[1..];
    var k: nat :| Wins(cs, k) && src == cs[k].name && demand == Clamp(cs[k].value, l.minFan, l.maxFan);
    WinnerUnique(cs, k, Winner(cs));
  }
}
