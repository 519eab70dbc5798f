/** The first-run box scan: a descent through fixed fan levels that aborts at an
    emergency, stops near one, and fits what it saw. */
module BoxScan {
  import opened Rounding
  import opened Thermal
  import opened Settings
  import opened Ipmi
  import opened FanController
  import opened CycleSafety
  import opened ScanFit
  import opened Placement
  import opened LearnIntegration

  const SCAN_LEVELS: seq<int> := [80, 55, 30]
  const SCAN_APPROACH_MARGIN := 3

  /** What the scan meets while it dwells: ticks of the sampling ticker, with or
      without a reading, or the end of the process. */
  datatype ScanEvent = Sampled(reading: Option<Reading>) | Cancelled

  /** Any class within `back` degrees of its emergency. */
  predicate OverBy(l: Limits, r: Reading, back: int) {
    || r.temp.cpu >= l.emergency.cpu - back
    || r.temp.pg >= l.emergency.pg - back
    || r.activeGPU >= l.activeGPUEmergency - back
    || (r.temp.hdd > 0 && r.temp.hdd >= l.emergency.hdd - back)
    || (r.temp.ssd > 0 && r.temp.ssd >= l.emergency.ssd - back)
  }

  // ------------------------------------------------------------------ one level

  datatype LevelResult =
    | Aborted(bmc: Bmc, emergency: bool)
    | Held(bmc: Bmc, last: Reading, approaching: bool)

  /** The dwell at one level, from what has been read so far. */
  function Dwell(l: Limits, b: Bmc, indices: seq<int>, lvl: int, events: seq<ScanEvent>,
                 last: Option<Reading>): LevelResult
    decreases |events|
  {
    if events == [] then
      if last.None? then Aborted(b, false) else Held(b, last.value, false)
    else
      match events[0]
      case Cancelled => Aborted(b, false)
      case Sampled(None) => Dwell(l, b, indices, lvl, events[1..], last)
      case Sampled(Some(r)) =>
        if OverBy(l, r, 0) then Aborted(b.FanSet(indices, 100).0, true)
        else
          var b' := b.FanSet(indices, lvl).0;
          if OverBy(l, r, SCAN_APPROACH_MARGIN) then Held(b', r, true)
          else Dwell(l, b', indices, lvl, events[1..], Some(r))
  }

  function Level(l: Limits, b: Bmc, indices: seq<int>, lvl: int, events: seq<ScanEvent>): LevelResult {
    var (b', ok) := b.FanSet(indices, lvl);
    if !ok then Aborted(b', false) else Dwell(l, b', indices, lvl, events, None)
  }

  /** A level adds one point for every class that read something. */
  function Recorded(pts: Quad<seq<ScanPoint>>, lvl: int, r: Reading): (q: Quad<seq<ScanPoint>>)
    ensures forall c: Managed ::
      q.At(c) == pts.At(c) + if r.temp.At(c) > 0 then [ScanPoint(lvl, r.temp.At(c) as real)] else []
  {
    Quad(pts.cpu + (if r.temp.cpu > 0 then [ScanPoint(lvl, r.temp.cpu as real)] else []),
         pts.pg + (if r.temp.pg > 0 then [ScanPoint(lvl, r.temp.pg as real)] else []),
         pts.hdd + (if r.temp.hdd > 0 then [ScanPoint(lvl, r.temp.hdd as real)] else []),
         pts.ssd + (if r.temp.ssd > 0 then [ScanPoint(lvl, r.temp.ssd as real)] else []))
  }

  // ---------------------------------------------------------------- all levels

  datatype ScanResult = ScanResult(bmc: Bmc, pts: Option<Quad<seq<ScanPoint>>>, emergency: bool)

  /** The descent over the remaining levels. */
  function Descend(l: Limits, b: Bmc, indices: seq<int>, levels: seq<int>, script: seq<seq<ScanEvent>>,
                   pts: Quad<seq<ScanPoint>>): ScanResult
    requires |script| == |levels|
    decreases |levels|
  {
    if levels == [] then ScanResult(b, Some(pts), false)
    else
      match Level(l, b, indices, levels[0], script[0])
      case Aborted(b', emergency) => ScanResult(b', None, emergency)
      case Held(b', last, approaching) =>
        var pts' := Recorded(pts, levels[0], last);
        if approaching then ScanResult(b', Some(pts'), false)
        else Descend(l, b', indices, levels[1..], script[1..], pts')
  }

  const NO_POINTS: Quad<seq<ScanPoint>> := Quad([], [], [], [])

  function Scan(l: Limits, b: Bmc, indices: seq<int>, script: seq<seq<ScanEvent>>): ScanResult
    requires |script| == |SCAN_LEVELS|
  {
    Descend(l, b.Engaged(), indices, SCAN_LEVELS, script, NO_POINTS)
  }

  // -------------------------------------------------------------------- methods

  /** The dwell loop of one level; `ok` is false when the scan must abort. */
  method HoldLevel(cfg: Config, client: Client, lvl: int, events: seq<ScanEvent>)
    returns (ok: bool, last: Option<Reading>, approaching: bool, ghost emergency: bool)
    modifies client`bmc
    ensures Level(cfg.limits, old(client.bmc), client.fanIndices, lvl, events)
         == if ok && last.Some? then Held(client.bmc, last.value, approaching) else Aborted(client.bmc, emergency)
    ensures ok ==> last.Some?
  {
    hide OverBy, Bmc.FanSet;
    ok, last, approaching, emergency := false, None, false, false;
    var set_ := client.SetFan(lvl);
    if !set_ {
      return;
    }
    ghost var goal := Dwell(cfg.limits, client.bmc, client.fanIndices, lvl, events, None);
    var rest := events;
    while rest != []
      invariant Dwell(cfg.limits, client.bmc, client.fanIndices, lvl, rest, last) == goal
      decreases |rest|
    {
      var e := rest[0];
      if e.Cancelled? {
        return;
      }
      if e.reading.Some? {
        var r := e.reading.value;
        if OverBy(cfg.limits, r, 0) {
          var _ := client.SetFan(100);
          emergency := true;
          return;
        }
        var _ := client.SetFan(lvl);
        last := Some(r);
        if OverBy(cfg.limits, r, SCAN_APPROACH_MARGIN) {
          return true, last, true, false;
        }
      }
      rest := rest[1..];
    }
    ok := last.Some?;
  }

  /** Places one class's comfort from its points. */
  method FitScan(cfg: Config, c: Managed, pts: seq<ScanPoint>)
    modifies cfg`comfort
    ensures cfg.comfort
      == old(cfg.comfort).With(c, FittedValue(cfg.limits, c, old(cfg.comfort).At(c), cfg.pairs.At(c).target, pts))
  {
    hide Request.Place;
    var target := cfg.pairs.At(c).target;
    if |pts| == 0 || target <= 0 || cfg.limits.Cap(c) < LEARN_COMFORT_FLOOR {
      return;
    }
    var v := FitComfort(pts, ScanRequest(cfg.limits, c, target));
    cfg.comfort := cfg.comfort.With(c, v);
  }

  method RunBoxScan(cfg: Config, client: Client, script: seq<seq<ScanEvent>>) returns (done: bool)
    requires |script| == |SCAN_LEVELS|
    modifies cfg`comfort, client`bmc
    ensures var res := Scan(cfg.limits, old(client.bmc), client.fanIndices, script);
      && client.bmc == res.bmc
      && (done <==> res.pts.Some?)
      && cfg.comfort == if done then Fitted(cfg.limits, old(cfg.comfort), cfg.pairs, res.pts.value)
                        else old(cfg.comfort)
  {
    hide FittedValue, Level;
    client.EngageManual();
    ghost var goal := Scan(cfg.limits, old(client.bmc), client.fanIndices, script);
    var pts := NO_POINTS;
    var i := 0;
    var stop := false;
    while i < |SCAN_LEVELS| && !stop
      invariant 0 <= i <= |SCAN_LEVELS|
      invariant cfg.comfort == old(cfg.comfort)
      invariant if stop then goal == ScanResult(client.bmc, Some(pts), false)
                else Descend(cfg.limits, client.bmc, client.fanIndices, SCAN_LEVELS[i..], script[i..], pts) == goal
      decreases |SCAN_LEVELS| - i, !stop
    {
      var ok, last, approaching, emergency := HoldLevel(cfg, client, SCAN_LEVELS[i], script[i]);
      if !ok {
        return false;
      }
      pts := Recorded(pts, SCAN_LEVELS[i], last.value);
      if approaching {
        stop := true;
      } else {
        i := i + 1;
      }
    }
    FitScan(cfg, CPU, pts.cpu);
    FitScan(cfg, PassiveGPU, pts.pg);
    FitScan(cfg, HDD, pts.hdd);
    FitScan(cfg, SSD, pts.ssd);
    return true;
  }

  // ----------------------------------------------------------------- properties

  /** The commands a level issues: its own level, or full speed on an emergency. */
  lemma {:induction false} DwellHolds(l: Limits, b: Bmc, indices: seq<int>, lvl: int, events: seq<ScanEvent>,
                                      last: Option<Reading>)
    requires b.Drivable(indices) && b.AllAt(indices, lvl) && 0 <= lvl <= 100
    requires last.Some? ==> !OverBy(l, last.value, SCAN_APPROACH_MARGIN)
    ensures var res := Dwell(l, b, indices, lvl, events, last);
      && res.bmc.Drivable(indices) && res.bmc.manual == b.manual
      && LastMode(res.bmc.log) == LastMode(b.log)
      && (res.Aborted? && res.emergency ==> res.bmc.AllAt(indices, 100))
      && (res.Aborted? && !res.emergency ==> res.bmc.AllAt(indices, lvl))
      && (res.Held? ==> res.bmc.AllAt(indices, lvl) && !OverBy(l, res.last, 0)
                        && (res.approaching <==> OverBy(l, res.last, SCAN_APPROACH_MARGIN)))
    decreases |events|
  {
    hide Bmc.FanSet, Bmc.Drivable, Bmc.AllAt, LastMode;
    if events != [] {
      FanSetWorks(b, indices, 100);
      FanSetWorks(b, indices, lvl);
      match events[0]
      case Cancelled =>
      case Sampled(None) => DwellHolds(l, b, indices, lvl, events[1..], last);
      case Sampled(Some(r)) =>
        if !OverBy(l, r, 0) && !OverBy(l, r, SCAN_APPROACH_MARGIN) {
          DwellHolds(l, b.FanSet(indices, lvl).0, indices, lvl, events[1..], Some(r));
        }
    }
    CloserIsNearer(l, last);
  }

  /** Outside the approach margin is outside the emergency. */
  lemma CloserIsNearer(l: Limits, last: Option<Reading>)
    ensures last.Some? && !OverBy(l, last.value, SCAN_APPROACH_MARGIN) ==> !OverBy(l, last.value, 0)
  {
  }

  /** Drivable fans: every level is taken, so a level ends at its own speed, or
      at full speed after an emergency. */
  lemma LevelHolds(l: Limits, b: Bmc, indices: seq<int>, lvl: int, events: seq<ScanEvent>)
    requires b.Drivable(indices) && 0 <= lvl <= 100
    ensures var res := Level(l, b, indices, lvl, events);
      && res.bmc.Drivable(indices) && res.bmc.manual == b.manual
      && LastMode(res.bmc.log) == LastMode(b.log)
      && (res.Aborted? && res.emergency ==> res.bmc.AllAt(indices, 100))
      && (res.Aborted? && !res.emergency ==> res.bmc.AllAt(indices, lvl))
      && (res.Held? ==> res.bmc.AllAt(indices, lvl) && !OverBy(l, res.last, 0)
                        && (res.approaching <==> OverBy(l, res.last, SCAN_APPROACH_MARGIN)))
  {
    hide Dwell, OverBy, LastMode;
    FanSetWorks(b, indices, lvl);
    DrivableSetsAll(b, Selected(indices), Max(lvl, 0));
    DwellHolds(l, b.FanSet(indices, lvl).0, indices, lvl, events, None);
  }

  // --------------------------------------------------- what stops a level, and what it saw

  /** Some class is within `back` degrees of its own emergency threshold; a drive
      that reads nothing is not. */
  ghost predicate NearThreshold(l: Limits, r: Reading, back: int) {
    || r.activeGPU >= l.activeGPUEmergency - back
    || exists c: Managed :: r.temp.At(c) >= l.emergency.At(c) - back && (c == HDD || c == SSD ==> r.temp.At(c) > 0)
  }

  lemma OverByIsNear(l: Limits, r: Reading, back: int)
    ensures OverBy(l, r, back) <==> NearThreshold(l, r, back)
  {
    assert r.temp.cpu == r.temp.At(CPU) && r.temp.pg == r.temp.At(PassiveGPU);
    assert r.temp.hdd == r.temp.At(HDD) && r.temp.ssd == r.temp.At(SSD);
    assert l.emergency.cpu == l.emergency.At(CPU) && l.emergency.pg == l.emergency.At(PassiveGPU);
    assert l.emergency.hdd == l.emergency.At(HDD) && l.emergency.ssd == l.emergency.At(SSD);
  }

  /** The scan aborts at exactly the emergencies of the controller. */
  lemma ScanAbortsAtEmergency(l: Limits, r: Reading)
    requires l.Valid()
    ensures OverBy(l, r, 0) <==> OverThreshold(l, r)
  {
    hide OverThreshold;
    EmergencyIsOverThreshold(l, r);
  }

  /** An event that ends the dwell. */
  ghost predicate Stops(l: Limits, e: ScanEvent) {
    e.Cancelled? || (e.reading.Some? && NearThreshold(l, e.reading.value, SCAN_APPROACH_MARGIN))
  }

  /** The first event that ends the dwell, or the end of the dwell. */
  ghost function StopAt(l: Limits, events: seq<ScanEvent>): (k: nat)
    ensures k <= |events| && (k < |events| ==> Stops(l, events[k]))
    ensures forall i :: 0 <= i < k ==> !Stops(l, events[i])
  {
    if events == [] || Stops(l, events[0]) then 0 else 1 + StopAt(l, events[1..])
  }

  /** The latest reading among some events, or `last` without one. */
  function LatestReading(events: seq<ScanEvent>, last: Option<Reading>): Option<Reading> {
    if events == [] then last
    else
      var e := events[|events| - 1];
      if e.Sampled? && e.reading.Some? then e.reading else LatestReading(events[..|events| - 1], last)
  }

  lemma {:induction false} LatestFromFront(events: seq<ScanEvent>, last: Option<Reading>)
    requires events != [] && events[0].Sampled?
    ensures LatestReading(events, last)
         == LatestReading(events[1..], if events[0].reading.Some? then events[0].reading else last)
  {
    var n := |events| - 1;
    if n > 0 {
      assert events[1..][..n - 1] == events[..n][1..];
      assert events[1..][n - 1] == events[n];
      LatestFromFront(events[..n], last);
    } else {
      assert events[1..] == [] && events[..0] == [];
    }
  }

  /** What ends a dwell and what it leaves: cancelled, over a threshold, near one
      with the reading that showed it, or run to its end with its latest reading. */
  ghost predicate DwellOutcome(l: Limits, events: seq<ScanEvent>, last: Option<Reading>, res: LevelResult) {
    var k := StopAt(l, events);
    if k == |events| then
      var seen := LatestReading(events, last);
      if seen.None? then res.Aborted? && !res.emergency else res.Held? && res.last == seen.value && !res.approaching
    else if events[k].Cancelled? then res.Aborted? && !res.emergency
    else if OverBy(l, events[k].reading.value, 0) then res.Aborted? && res.emergency
    else res.Held? && res.last == events[k].reading.value && res.approaching
  }

  lemma {:induction false} DwellEndsAsItShould(l: Limits, b: Bmc, indices: seq<int>, lvl: int, events: seq<ScanEvent>,
                                               last: Option<Reading>)
    ensures DwellOutcome(l, events, last, Dwell(l, b, indices, lvl, events, last))
    decreases |events|
  {
    hide OverBy, NearThreshold, Bmc.FanSet;
    if events != [] {
      if events[0].Sampled? && events[0].reading.Some? {
        OverByIsNear(l, events[0].reading.value, SCAN_APPROACH_MARGIN);
        CloserIsNearer(l, events[0].reading);
      }
      if !Stops(l, events[0]) {
        var r := if events[0].reading.Some? then events[0].reading else last;
        var b' := if events[0].reading.Some? then b.FanSet(indices, lvl).0 else b;
        LatestFromFront(events, last);
        DwellEndsAsItShould(l, b', indices, lvl, events[1..], r);
      }
    }
  }

  /** The reading a level records: the last one of its dwell. */
  ghost function LastSeen(l: Limits, events: seq<ScanEvent>): Option<Reading> {
    var k := StopAt(l, events);
    if k < |events| && events[k].Sampled? then events[k].reading else LatestReading(events[..k], None)
  }

  lemma HeldReadingIsLast(l: Limits, b: Bmc, indices: seq<int>, lvl: int, events: seq<ScanEvent>)
    ensures var res := Level(l, b, indices, lvl, events); res.Held? ==> LastSeen(l, events) == Some(res.last)
  {
    hide Dwell, StopAt, Bmc.FanSet;
    var (b', ok) := b.FanSet(indices, lvl);
    if ok {
      DwellEndsAsItShould(l, b', indices, lvl, events, None);
      assert events[..|events|] == events;
    }
  }

  /** The scan only goes on to a lower level when the one it leaves never showed a
      class within three degrees of its threshold. */
  lemma DescendsOnlyWithRoom(l: Limits, b: Bmc, indices: seq<int>, lvl: int, events: seq<ScanEvent>, i: nat, c: Managed)
    requires var res := Level(l, b, indices, lvl, events); res.Held? && !res.approaching
    requires i < |events| && events[i].Sampled? && events[i].reading.Some?
    ensures var r := events[i].reading.value;
      && r.activeGPU < l.activeGPUEmergency - 3
      && (r.temp.At(c) > 0 ==> r.temp.At(c) < l.emergency.At(c) - 3)
  {
    hide Dwell, OverBy, Bmc.FanSet;
    DwellEndsAsItShould(l, b.FanSet(indices, lvl).0, indices, lvl, events, None);
    assert !Stops(l, events[i]);
  }

  /** The point is what class `c` read last at one of the levels. */
  ghost predicate WasRead(l: Limits, levels: seq<int>, script: seq<seq<ScanEvent>>, c: Managed, p: ScanPoint)
    requires |script| == |levels|
  {
    exists i :: 0 <= i < |levels| && ReadAt(l, levels[i], script[i], c, p)
  }

  ghost predicate ReadAt(l: Limits, lvl: int, events: seq<ScanEvent>, c: Managed, p: ScanPoint) {
    var r := LastSeen(l, events);
    p.fanPct == lvl && r.Some? && r.value.temp.At(c) > 0 && p.tempC == r.value.temp.At(c) as real
  }

  /** Every point the descent adds is the last reading of the dwell at its level. */
  lemma {:induction false} PointsWereRead(l: Limits, b: Bmc, indices: seq<int>, levels: seq<int>,
                                          script: seq<seq<ScanEvent>>, pts: Quad<seq<ScanPoint>>, c: Managed)
    requires |script| == |levels|
    ensures var res := Descend(l, b, indices, levels, script, pts);
      res.pts.Some? ==>
        forall p :: p in res.pts.value.At(c) ==> p in pts.At(c) || WasRead(l, levels, script, c, p)
    decreases |levels|
  {
    hide Level, LastSeen;
    if levels != [] {
      HeldReadingIsLast(l, b, indices, levels[0], script[0]);
      match Level(l, b, indices, levels[0], script[0])
      case Aborted(_, _) =>
      case Held(b', last, approaching) =>
        var pts' := Recorded(pts, levels[0], last);
        assert forall p :: p in pts'.At(c) && p !in pts.At(c) ==> ReadAt(l, levels[0], script[0], c, p);
        if !approaching {
          PointsWereRead(l, b', indices, levels[1..], script[1..], pts', c);
          var res := Descend(l, b', indices, levels[1..], script[1..], pts');
          if res.pts.Some? {
            forall p | p in res.pts.value.At(c) && WasRead(l, levels[1..], script[1..], c, p)
              ensures WasRead(l, levels, script, c, p)
            {
              var i :| 0 <= i < |levels| - 1 && ReadAt(l, levels[1..][i], script[1..][i], c, p);
              assert ReadAt(l, levels[i + 1], script[i + 1], c, p);
            }
          }
        }
    }
  }

  /** A completed scan fits each class on what that class read last at the levels
      held, and on nothing else. */
  lemma ScanFitsWhatWasRead(l: Limits, b: Bmc, indices: seq<int>, script: seq<seq<ScanEvent>>, c: Managed)
    requires |script| == |SCAN_LEVELS|
    ensures var res := Scan(l, b, indices, script);
      res.pts.Some? ==> forall p :: p in res.pts.value.At(c) ==> WasRead(l, SCAN_LEVELS, script, c, p)
  {
    hide Descend, WasRead;
    PointsWereRead(l, b.Engaged(), indices, SCAN_LEVELS, script, NO_POINTS, c);
  }

  // ------------------------------------------------------------ what a scan commands

  function Readings(events: seq<ScanEvent>): nat {
    if events == [] then 0
    else Readings(events[1..]) + if events[0].Sampled? && events[0].reading.Some? then 1 else 0
  }

  /** The events a dwell takes in: up to and including the one that stops it. */
  ghost function TakenIn(l: Limits, events: seq<ScanEvent>): seq<ScanEvent> {
    var k := StopAt(l, events);
    if k < |events| then events[..k + 1] else events
  }

  /** Every reading of a dwell re-asserts the fans: on drivable fans a dwell issues
      one write per selected fan and reading it takes in, no fewer and no more. */
  lemma {:induction false} DwellReasserts(l: Limits, b: Bmc, indices: seq<int>, lvl: int, events: seq<ScanEvent>,
                                          last: Option<Reading>)
    requires b.Drivable(indices)
    ensures |Dwell(l, b, indices, lvl, events, last).bmc.log|
         == |b.log| + Readings(TakenIn(l, events)) * |Selected(indices)|
    decreases |events|
  {
    hide OverBy, NearThreshold, Bmc.FanSet;
    if events != [] {
      SetWritesEach(b, indices, lvl);
      SetWritesEach(b, indices, 100);
      if events[0].Sampled? && events[0].reading.Some? {
        OverByIsNear(l, events[0].reading.value, SCAN_APPROACH_MARGIN);
        CloserIsNearer(l, events[0].reading);
      }
      if Stops(l, events[0]) {
        assert TakenIn(l, events) == [events[0]];
        assert [events[0]][1..] == [];
      } else {
        var r := if events[0].reading.Some? then events[0].reading else last;
        var b' := if events[0].reading.Some? then b.FanSet(indices, lvl).0 else b;
        DwellReasserts(l, b', indices, lvl, events[1..], r);
        assert TakenIn(l, events) == [events[0]] + TakenIn(l, events[1..]);
        assert ([events[0]] + TakenIn(l, events[1..]))[1..] == TakenIn(l, events[1..]);
        OneMoreRound(Readings(TakenIn(l, events[1..])), |Selected(indices)|);
      }
    }
  }

  lemma OneMoreRound(n: nat, k: nat)
    ensures (n + 1) * k == n * k + k
  {
  }

  lemma SetWritesEach(b: Bmc, indices: seq<int>, pct: int)
    requires b.Drivable(indices)
    ensures var b' := b.FanSet(indices, pct).0;
      b'.Drivable(indices) && |b'.log| == |b.log| + |Selected(indices)|
  {
    DrivableSetsAll(b, Selected(indices), Max(pct, 0));
  }

  /** `later` continues `log`, and every fan write in between is at least `floor`
      percent. */
  predicate WritesAbove(log: seq<Command>, later: seq<Command>, floor: int) {
    && log <= later
    && forall i :: |log| <= i < |later| && later[i].WriteCommand? ==> later[i].pct >= floor
  }

  lemma {:induction false} WritesContinue(b: Bmc, selectors: seq<int>, pct: int, floor: int)
    requires pct >= floor
    ensures WritesAbove(b.log, b.WroteUntilRejected(selectors, pct).0.log, floor)
  {
    if selectors != [] {
      WritesContinue(b, selectors[..|selectors| - 1], pct, floor);
    }
  }

  lemma SetContinues(b: Bmc, indices: seq<int>, pct: int, floor: int)
    requires pct >= floor >= 0
    ensures WritesAbove(b.log, b.FanSet(indices, pct).0.log, floor)
  {
    WritesContinue(b, Selected(indices), Max(pct, 0), floor);
  }

  lemma {:induction false} DwellContinues(l: Limits, b: Bmc, indices: seq<int>, lvl: int, events: seq<ScanEvent>,
                                          last: Option<Reading>, floor: int)
    requires 100 >= lvl >= floor >= 0
    ensures WritesAbove(b.log, Dwell(l, b, indices, lvl, events, last).bmc.log, floor)
    decreases |events|
  {
    hide OverBy, Bmc.FanSet;
    if events != [] {
      SetContinues(b, indices, 100, floor);
      SetContinues(b, indices, lvl, floor);
      match events[0]
      case Cancelled =>
      case Sampled(None) => DwellContinues(l, b, indices, lvl, events[1..], last, floor);
      case Sampled(Some(r)) =>
        if !OverBy(l, r, 0) && !OverBy(l, r, SCAN_APPROACH_MARGIN) {
          DwellContinues(l, b.FanSet(indices, lvl).0, indices, lvl, events[1..], Some(r), floor);
        }
    }
  }

  lemma {:induction false} DescentContinues(l: Limits, b: Bmc, indices: seq<int>, levels: seq<int>,
                                            script: seq<seq<ScanEvent>>, pts: Quad<seq<ScanPoint>>, floor: int)
    requires |script| == |levels| && floor >= 0
    requires forall i :: 0 <= i < |levels| ==> floor <= levels[i] <= 100
    ensures WritesAbove(b.log, Descend(l, b, indices, levels, script, pts).bmc.log, floor)
    decreases |levels|
  {
    hide Dwell, Bmc.FanSet;
    if levels != [] {
      SetContinues(b, indices, levels[0], floor);
      DwellContinues(l, b.FanSet(indices, levels[0]).0, indices, levels[0], script[0], None, floor);
      match Level(l, b, indices, levels[0], script[0])
      case Aborted(_, _) =>
      case Held(b', last, approaching) =>
        if !approaching {
          DescentContinues(l, b', indices, levels[1..], script[1..], Recorded(pts, levels[0], last), floor);
        }
    }
  }

  /** Whatever it reads, a scan never commands less than 30 percent. */
  lemma ScanNeverBelow30(l: Limits, b: Bmc, indices: seq<int>, script: seq<seq<ScanEvent>>)
    requires |script| == |SCAN_LEVELS|
    ensures WritesAbove(b.Engaged().log, Scan(l, b, indices, script).bmc.log, 30)
  {
    hide Descend;
    DescentContinues(l, b.Engaged(), indices, SCAN_LEVELS, script, NO_POINTS, 30);
  }

  // -------------------------------------------------------- where a scan leaves the fans

  /** Each class's points are at distinct levels, taken from the descent. */
  predicate PointsAbove(pts: seq<ScanPoint>, level: int) {
    && (forall i :: 0 <= i < |pts| ==> pts[i].fanPct > level)
    && (forall i, j :: 0 <= i < j < |pts| ==> pts[i].fanPct > pts[j].fanPct)
  }

  /** Where the descent leaves the fans: at full speed if an emergency aborted
      it, else at one of its levels.  A completed scan has at most one point per
      class and level, in descending order. */
  lemma {:induction false} DescentIsSafe(l: Limits, b: Bmc, indices: seq<int>, levels: seq<int>,
                                         script: seq<seq<ScanEvent>>,
                                         pts: Quad<seq<ScanPoint>>)
    requires |script| == |levels| && b.Drivable(indices)
    requires forall i :: 0 <= i < |levels| ==> 0 < levels[i] <= 100
    requires forall i, j :: 0 <= i < j < |levels| ==> levels[i] > levels[j]
    requires forall c: Managed :: PointsAbove(pts.At(c), if levels == [] then 0 else levels[0])
    ensures var res := Descend(l, b, indices, levels, script, pts);
      && res.bmc.Drivable(indices) && res.bmc.manual == b.manual && LastMode(res.bmc.log) == LastMode(b.log)
      && (res.emergency ==> res.pts.None? && res.bmc.AllAt(indices, 100))
      && (!res.emergency ==>
            (levels == [] && res.bmc == b) || exists lvl :: lvl in levels && res.bmc.AllAt(indices, lvl))
      && (res.pts.Some? ==> forall c: Managed :: PointsAbove(res.pts.value.At(c), 0))
    decreases |levels|
  {
    hide Level, LastMode, Bmc.Drivable, Bmc.AllAt;
    if levels != [] {
      LevelHolds(l, b, indices, levels[0], script[0]);
      assert levels[0] in levels;
      match Level(l, b, indices, levels[0], script[0])
      case Aborted(_, _) =>
      case Held(b', last, approaching) =>
        var pts' := Recorded(pts, levels[0], last);
        forall c: Managed
          ensures PointsAbove(pts'.At(c), if |levels| == 1 || approaching then 0 else levels[1])
        {
        }
        if !approaching {
          DescentIsSafe(l, b', indices, levels[1..], script[1..], pts');
        }
    }
  }

  /** The whole scan on drivable fans. */
  lemma ScanIsSafe(l: Limits, b: Bmc, indices: seq<int>, script: seq<seq<ScanEvent>>)
    requires |script| == |SCAN_LEVELS| && b.Drivable(indices)
    ensures var res := Scan(l, b, indices, script);
      && res.bmc.Drivable(indices) && res.bmc.manual && LastMode(res.bmc.log) == [true]
      && (res.emergency ==> res.pts.None? && res.bmc.AllAt(indices, 100))
      && (!res.emergency ==> exists lvl :: lvl in SCAN_LEVELS && res.bmc.AllAt(indices, lvl))
      && (res.pts.Some? ==> forall c: Managed :: PointsAbove(res.pts.value.At(c), 0))
  {
    hide Descend, LastMode;
    ModeCommandsShow(b);
    DescentIsSafe(l, b.Engaged(), indices, SCAN_LEVELS, script, NO_POINTS);
  }

  /** Descending points: two of them are two levels, so every scan with at least
      two points of a class yields a fit for it. */
  lemma TwoPointsFit(pts: seq<ScanPoint>)
    requires PointsAbove(pts, 0)
    ensures TwoLevels(pts) <==> |pts| >= 2
    ensures FitOf(pts).Some? <==> |pts| >= 2
  {
    hide NormalLine;
    if |pts| >= 2 {
      assert pts[0].fanPct != pts[1].fanPct;
    }
  }
}
