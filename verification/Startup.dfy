/** Startup: the fan-addressing negotiation, the first-run scan, and what they
    leave the first cycles with. */
module Startup {
  import opened Rounding
  import opened Thermal
  import opened Settings
  import opened Ipmi
  import opened FanController
  import opened CycleSafety
  import opened LearnIntegration
  import opened BoxScan

  const SAFE_START_FAN := 50

  /** HOST_AGENT_FAN_CONTROL, as far as startup distinguishes it. */
  datatype FanControlSetting = Unset | Off | MonitorOnly

  /** FAN_INDICES after parsing. */
  datatype FanSpec = Auto | ForceBroadcast | Indices(candidates: seq<int>) | Unparseable

  /** Whether the operator left the fans to the BMC; a legacy "off" is ignored
      on the one chassis that used to ship it. */
  predicate OptedOut(setting: FanControlSetting, legacyChassis: bool) {
    setting.MonitorOnly? || (setting.Off? && !legacyChassis)
  }

  /** The speed control is engaged at. */
  function StartSpeed(l: Limits, resumed: int): int {
    Min(Max(resumed, SAFE_START_FAN), l.maxFan)
  }

  // ---------------------------------------------------------------- negotiation

  /** The dialect the BMC speaks, if any, and the BMC after finding out. */
  function Negotiate(b: Bmc, spec: FanSpec, pct: int): (Bmc, Option<seq<int>>) {
    var engaged := b.Engaged();
    match spec
    case Auto =>
      var tried := engaged.Wrote(BROADCAST, pct);
      if BROADCAST in b.accepts then (tried, Some([]))
      else
        var probed := tried.WroteEach(ProbeOrder(), pct);
        var indices := AcceptedOf(ProbeOrder(), b.accepts);
        if indices == [] then (probed.HandedBack(), None) else (probed, Some(indices))
    case ForceBroadcast =>
      var (set_, ok) := engaged.FanSet([], pct);
      if ok then (set_, Some([])) else (set_.HandedBack(), None)
    case Indices(candidates) =>
      var probed := engaged.WroteEach(candidates, pct);
      var indices := AcceptedOf(candidates, b.accepts);
      if indices == [] then (probed.HandedBack(), None) else (probed, Some(indices))
    case Unparseable => (engaged.HandedBack(), None)
  }

  /** The BMC after startup and the dialect if control was taken. */
  function Started(b: Bmc, optedOut: bool, spec: FanSpec, pct: int): (Bmc, Option<seq<int>>) {
    if optedOut then (b.HandedBack(), None) else Negotiate(b, spec, pct)
  }

  method HandbackMonitorOnly(c: Controller)
    modifies c`fanControl, c.client`bmc
    ensures !c.fanControl && c.client.bmc == old(c.client.bmc).HandedBack()
  {
    c.client.HandbackAuto();
    c.fanControl := false;
  }

  /** Take manual mode and settle the dialect, or hand the fans back. */
  method TakeControl(c: Controller, spec: FanSpec)
    requires c.fanControl && c.client.fanIndices == []
    modifies c`fanControl, c.client
    ensures var (b, dialect) := Negotiate(old(c.client.bmc), spec, c.currentSpeed);
      && c.client.bmc == b
      && (c.fanControl <==> dialect.Some?)
      && (dialect.Some? ==> c.client.fanIndices == dialect.value)
  {
    hide AcceptedOf, Bmc.WroteEach, Bmc.FanSet;
    c.client.EngageManual();
    match spec
    case Auto =>
      var indices, broadcast, ok := c.client.ProbeFanAddressing(c.currentSpeed);
      if !ok {
        HandbackMonitorOnly(c);
      } else if !broadcast {
        c.client.fanIndices := indices;
      }
    case ForceBroadcast =>
      var ok := c.client.SetFan(c.currentSpeed);
      if !ok {
        HandbackMonitorOnly(c);
      }
    case Indices(candidates) =>
      var indices := c.client.VerifyIndices(candidates, c.currentSpeed);
      if |indices| == 0 {
        HandbackMonitorOnly(c);
      } else {
        c.client.fanIndices := indices;
      }
    case Unparseable => HandbackMonitorOnly(c);
  }

  method Start(c: Controller, setting: FanControlSetting, legacyChassis: bool, spec: FanSpec)
    requires c.fanControl && c.client.fanIndices == []
    modifies c`currentSpeed, c`fanControl, c.client
    ensures c.View() == old(c.View()).(speed := StartSpeed(c.cfg.limits, old(c.currentSpeed)))
    ensures var (b, dialect) := Started(old(c.client.bmc), OptedOut(setting, legacyChassis), spec, c.currentSpeed);
      && c.client.bmc == b
      && (c.fanControl <==> dialect.Some?)
      && (dialect.Some? ==> c.client.fanIndices == dialect.value)
  {
    hide Negotiate;
    var startSpeed := c.currentSpeed;
    if startSpeed < SAFE_START_FAN {
      startSpeed := SAFE_START_FAN;
    }
    if startSpeed > c.cfg.limits.maxFan {
      startSpeed := c.cfg.limits.maxFan;
    }
    c.currentSpeed := startSpeed;
    match setting {
      case Off =>
        if !legacyChassis {
          c.fanControl := false;
        }
      case MonitorOnly => c.fanControl := false;
      case Unset =>
    }
    if !c.fanControl {
      c.client.HandbackAuto();
      return;
    }
    TakeControl(c, spec);
  }

  /** Startup never strands a BMC in manual mode: for every accept set and every
      form of FAN_INDICES, either control is on, every selected selector has
      accepted the start speed and the last mode command was manual, or control
      is off and the last mode command handed the fans back. */
  lemma NeverStranded(b: Bmc, optedOut: bool, spec: FanSpec, pct: int)
    requires pct >= 0
    ensures var (b', dialect) := Started(b, optedOut, spec, pct);
      && b'.accepts == b.accepts
      && (dialect.Some? ==> b'.manual && LastMode(b'.log) == [true]
                            && b'.Drivable(dialect.value) && b'.AllAt(dialect.value, pct))
      && (dialect.None? ==> !b'.manual && LastMode(b'.log) == [false])
  {
    hide LastMode, AcceptedOf, Bmc.WroteEach, Bmc.FanSet;
    ModeCommandsShow(b);
    var e := b.Engaged();
    if !optedOut {
      match spec
      case Auto =>
        var tried := e.Wrote(BROADCAST, pct);
        OneWriteKeepsMode(e, BROADCAST, pct);
        EachWriteKeepsMode(tried, ProbeOrder(), pct);
        EachAcceptedIsAt(tried, ProbeOrder(), pct);
        ModeCommandsShow(tried.WroteEach(ProbeOrder(), pct));
      case ForceBroadcast =>
        ModeCommandsShow(e.FanSet([], pct).0);
        BroadcastOnly(e, pct);
      case Indices(candidates) =>
        EachWriteKeepsMode(e, candidates, pct);
        EachAcceptedIsAt(e, candidates, pct);
        ModeCommandsShow(e.WroteEach(candidates, pct));
      case Unparseable => ModeCommandsShow(e);
    }
  }

  /** Whether a spec names something the BMC accepts. */
  ghost predicate Addressable(accepts: set<int>, spec: FanSpec) {
    match spec
    case Auto => BROADCAST in accepts || exists i :: 0 <= i < MAX_FAN_INDEX_PROBE && i in accepts
    case ForceBroadcast => BROADCAST in accepts
    case Indices(candidates) => exists i :: i in candidates && i in accepts
    case Unparseable => false
  }

  /** Control is engaged exactly when the operator did not opt out, an "off" on
      the legacy chassis not counting, and the BMC accepts something asked for;
      and then every selected fan is at 50 percent or more, or at the maximum
      when that is less. */
  lemma EngagedIff(b: Bmc, setting: FanControlSetting, legacyChassis: bool, spec: FanSpec, l: Limits, resumed: int)
    requires l.Valid()
    ensures var pct := StartSpeed(l, resumed);
      var (b', dialect) := Started(b, OptedOut(setting, legacyChassis), spec, pct);
      && (dialect.Some? <==> (setting == Unset || (setting == Off && legacyChassis)) && Addressable(b.accepts, spec))
      && (dialect.Some? ==> b'.AllAt(dialect.value, pct))
      && pct <= l.maxFan
      && (l.maxFan >= 50 ==> pct >= 50)
      && (l.maxFan < 50 ==> pct == l.maxFan)
      && (50 <= resumed <= l.maxFan ==> pct == resumed)
  {
    hide Bmc.WroteEach, Bmc.FanSet, AcceptedOf, Negotiate;
    var pct := StartSpeed(l, resumed);
    NeverStranded(b, OptedOut(setting, legacyChassis), spec, pct);
    NegotiationFindsDialect(b, spec, pct);
  }

  lemma OneWriteKeepsMode(b: Bmc, selector: int, pct: int)
    ensures LastMode(b.Wrote(selector, pct).log) == LastMode(b.log)
  {
    LastModeSkipsWrites(b.log, selector, pct);
  }

  lemma BroadcastOnly(b: Bmc, pct: int)
    requires pct >= 0
    ensures var (b', ok) := b.FanSet([], pct);
      && b'.accepts == b.accepts && b'.manual == b.manual && LastMode(b'.log) == LastMode(b.log)
      && (ok <==> BROADCAST in b.accepts)
      && (ok ==> b'.AllAt([], pct))
  {
    hide LastMode;
    OneWrite(b, BROADCAST, pct);
    OneWriteKeepsMode(b, BROADCAST, pct);
  }

  /** What negotiation finds is decided by the accept set alone: broadcast when
      it is accepted, else exactly the accepted indices in order. */
  lemma NegotiationFindsDialect(b: Bmc, spec: FanSpec, pct: int)
    ensures var (_, dialect) := Negotiate(b, spec, pct);
      match spec
      case Auto =>
        if BROADCAST in b.accepts then dialect == Some([])
        else if exists i :: 0 <= i < MAX_FAN_INDEX_PROBE && i in b.accepts
        then dialect == Some(AcceptedOf(ProbeOrder(), b.accepts)) && AscendingWithout(dialect.value, b.accepts)
        else dialect == None
      case ForceBroadcast => dialect == if BROADCAST in b.accepts then Some([]) else None
      case Indices(candidates) =>
        dialect == if exists i :: i in candidates && i in b.accepts then Some(AcceptedOf(candidates, b.accepts))
                   else None
      case Unparseable => dialect == None
  {
    match spec
    case Auto =>
      assert forall i :: 0 <= i < MAX_FAN_INDEX_PROBE ==> ProbeOrder()[i] == i;
      AcceptedAscend(MAX_FAN_INDEX_PROBE, b.accepts);
      assert ProbeOrder()[..MAX_FAN_INDEX_PROBE] == ProbeOrder();
      SomeAccepted(ProbeOrder(), b.accepts);
    case ForceBroadcast => OneWrite(b.Engaged(), BROADCAST, Max(pct, 0));
    case Indices(candidates) =>
      SomeAccepted(candidates, b.accepts);
    case Unparseable =>
  }

  lemma SomeAccepted(candidates: seq<int>, accepts: set<int>)
    ensures AcceptedOf(candidates, accepts) != [] <==> exists i :: i in candidates && i in accepts
  {
    var found := AcceptedOf(candidates, accepts);
    if found != [] {
      var i := found[0];
      assert i in found;
      assert i in candidates && i in accepts;
    }
    if exists i :: i in candidates && i in accepts {
      var i :| i in candidates && i in accepts;
      assert i in found;
      assert found != [];
    }
  }

  /** Ascending, and missing no accepted index of the probe. */
  ghost predicate AscendingWithout(found: seq<int>, accepts: set<int>) {
    && (forall i, j :: 0 <= i < j < |found| ==> found[i] < found[j])
    && (forall x :: x in found <==> 0 <= x < MAX_FAN_INDEX_PROBE && x in accepts)
  }

  lemma {:induction false} AcceptedAscend(n: nat, accepts: set<int>)
    requires n <= MAX_FAN_INDEX_PROBE
    ensures var found := AcceptedOf(ProbeOrder()[..n], accepts);
      && (forall x :: x in found <==> 0 <= x < n && x in accepts)
      && (forall i, j :: 0 <= i < j < |found| ==> found[i] < found[j])
  {
    if n > 0 {
      var s := ProbeOrder()[..n];
      assert s[..n - 1] == ProbeOrder()[..n - 1] && s[n - 1] == n - 1;
      AcceptedAscend(n - 1, accepts);
      var before := AcceptedOf(s[..n - 1], accepts);
      assert forall i :: 0 <= i < |before| ==> before[i] in before;
    }
  }

  // ------------------------------------------------------------- first-run scan

  predicate ScanWorthwhile(r: Reading) {
    r.temp.hdd > 0 || r.temp.ssd > 0 || r.temp.pg > 0
  }

  /** Whether the first run scans at all. */
  predicate Scans(fanControl: bool, scanned: bool, first: Option<Reading>) {
    fanControl && !scanned && first.Some? && ScanWorthwhile(first.value)
  }

  /** The BMC after the first-run decision: without control nothing is scanned. */
  function AfterFirstRun(l: Limits, b: Bmc, indices: seq<int>, fanControl: bool, scanned: bool,
                         first: Option<Reading>, script: seq<seq<ScanEvent>>): Bmc
    requires |script| == |SCAN_LEVELS|
  {
    if Scans(fanControl, scanned, first) then Scan(l, b, indices, script).bmc else b
  }

  method FirstRun(c: Controller, scanned: bool, first: Option<Reading>,
                  script: seq<seq<ScanEvent>>) returns (done: bool)
    requires |script| == |SCAN_LEVELS|
    modifies c.client`bmc, c.cfg`comfort
    ensures c.client.bmc
      == AfterFirstRun(c.cfg.limits, old(c.client.bmc), c.client.fanIndices, c.fanControl, scanned, first, script)
    ensures var res := Scan(c.cfg.limits, old(c.client.bmc), c.client.fanIndices, script);
      if Scans(c.fanControl, scanned, first) then
        && (done <==> res.pts.Some?)
        && c.cfg.comfort == (if done then Fitted(c.cfg.limits, old(c.cfg.comfort), c.cfg.pairs, res.pts.value)
                             else old(c.cfg.comfort))
      else done && c.cfg.comfort == old(c.cfg.comfort)
  {
    hide Scan, Fitted;
    done := scanned;
    if !done && !c.fanControl {
      done := true;
    }
    if !done {
      if first.None? || !ScanWorthwhile(first.value) {
        done := true;
      } else {
        done := RunBoxScan(c.cfg, c.client, script);
      }
    }
  }

  /** The first run touches the BMC exactly when control is on, no scan is on
      record, and a drive or a passive GPU read something: never for a processor
      alone. */
  lemma FirstRunScansIff(l: Limits, b: Bmc, indices: seq<int>, fanControl: bool, scanned: bool, first: Option<Reading>,
                         script: seq<seq<ScanEvent>>)
    requires |script| == |SCAN_LEVELS|
    ensures AfterFirstRun(l, b, indices, fanControl, scanned, first, script) != b
       <==> (fanControl && !scanned && first.Some? && exists c: Managed :: c != CPU && first.value.temp.At(c) > 0)
  {
    hide Descend, Bmc.FanSet;
    if first.Some? {
      var t := first.value.temp;
      assert t.hdd == t.At(HDD) && t.ssd == t.At(SSD) && t.pg == t.At(PassiveGPU);
    }
    ScanNeverBelow30(l, b, indices, script);
  }

  /** Once handed back, nothing touches the BMC until shutdown: not the scan, and
      no cycle of any run. */
  lemma HandedBackUntilShutdown(decay: real -> real, l: Limits, b: Bmc, optedOut: bool, spec: FanSpec, pct: int,
                                s: Ctrl,
                                scanned: bool, first: Option<Reading>, script: seq<seq<ScanEvent>>, ins: seq<Input>)
    requires pct >= 0 && |script| == |SCAN_LEVELS|
    requires Started(b, optedOut, spec, pct).1.None?
    ensures var handed := Started(b, optedOut, spec, pct).0;
      var scannedBmc := AfterFirstRun(l, handed, [], false, scanned, first, script);
      RunBmc(decay, l, s, scannedBmc, [], false, ins) == handed && !handed.manual && LastMode(handed.log) == [false]
  {
    hide LastMode, Started;
    var handed := Started(b, optedOut, spec, pct).0;
    NeverStranded(b, optedOut, spec, pct);
    MonitorOnlyNeverWrites(decay, l, s, handed, [], ins);
  }

  /** With control on and no scan, the first cycle starts with the fans where the
      controller believes them to be, and every later cycle too. */
  lemma InSyncFromStartup(decay: real -> real, l: Limits, b: Bmc, spec: FanSpec, s: Ctrl, ins: seq<Input>)
    requires l.Valid()
    requires s.speed == StartSpeed(l, s.speed) && l.minFan <= s.speed
    requires Started(b, false, spec, s.speed).1.Some?
    ensures var (b', dialect) := Started(b, false, spec, s.speed);
      InSync(RunBmc(decay, l, s, b', dialect.value, true, ins), dialect.value, RunCycles(decay, l, s, ins))
  {
    hide Started, RunBmc, RunCycles;
    NeverStranded(b, false, spec, s.speed);
    var (b', dialect) := Started(b, false, spec, s.speed);
    FansFollowController(decay, l, s, b', dialect.value, ins);
  }

  // ---------------------------------------------- the scan and the emergency hold

  /** After a first-run scan, over every run: the fans are at the controller's
      setpoint if and only if some cycle was not an emergency, or a cycle ran and
      the start speed was not 100, or the scan happened to end at that speed. */
  lemma FansAfterScanIff(decay: real -> real, l: Limits, s: Ctrl, b: Bmc, indices: seq<int>,
                         script: seq<seq<ScanEvent>>, ins: seq<Input>)
    requires l.Valid() && SafeSpeed(l, s) && b.Drivable(indices) && |script| == |SCAN_LEVELS|
    ensures var scanned := Scan(l, b, indices, script).bmc;
      RunBmc(decay, l, s, scanned, indices, true, ins).AllAt(indices, RunCycles(decay, l, s, ins).speed)
      <==> (SomeWrite(decay, l, s, ins) || (ins != [] && s.speed != 100) || scanned.AllAt(indices, s.speed))
  {
    hide Scan, RunBmc, RunCycles, SomeWrite, LastMode, Bmc.AllAt, Bmc.Drivable;
    ScanIsSafe(l, b, indices, script);
    FansFollowIff(decay, l, s, Scan(l, b, indices, script).bmc, indices, ins);
  }

  /** A run that is one emergency from its first cycle to its last, after a scan
      that no emergency stopped, has the fans at full speed exactly when the
      start speed was not 100: at 100 the hold branch writes nothing. */
  lemma EmergencyAfterScan(decay: real -> real, l: Limits, s: Ctrl, b: Bmc, indices: seq<int>,
                           script: seq<seq<ScanEvent>>, ins: seq<Input>)
    requires l.Valid() && SafeSpeed(l, s) && b.Drivable(indices) && |script| == |SCAN_LEVELS|
    requires !Scan(l, b, indices, script).emergency && ins != [] && !SomeWrite(decay, l, s, ins)
    ensures var scanned := Scan(l, b, indices, script).bmc;
      RunBmc(decay, l, s, scanned, indices, true, ins).AllAt(indices, 100) <==> s.speed != 100
  {
    hide Scan, RunBmc, RunCycles, SomeWrite, LastMode, Bmc.Drivable;
    ScanIsSafe(l, b, indices, script);
    var b' := Scan(l, b, indices, script).bmc;
    var lvl :| lvl in SCAN_LEVELS && b'.AllAt(indices, lvl);
    var x := Selected(indices)[0];
    assert x in Selected(indices);
    assert b'.setpoint[x] == lvl <= 80;
    FansFollowIff(decay, l, s, b', indices, ins);
  }

  /** ... and it stays that way for as long as the emergency lasts. */
  lemma {:induction false} HeldEmergencyNeverWrites(decay: real -> real, l: Limits, s: Ctrl, b: Bmc, indices: seq<int>,
                                                    ins: seq<Input>)
    requires l.Valid() && s.speed == 100
    requires forall k :: 0 <= k < |ins| ==> ins[k].reading.Some? && OverThreshold(l, ins[k].reading.value)
    ensures RunBmc(decay, l, s, b, indices, true, ins).setpoint == b.setpoint
    ensures RunCycles(decay, l, s, ins).speed == 100
  {
    hide IsEmergency, OverThreshold, SmoothAll, Elapsed;
    if ins != [] {
      EmergencyIsOverThreshold(l, ins[|ins| - 1].reading.value);
      HeldEmergencyNeverWrites(decay, l, s, b, indices, ins[..|ins| - 1]);
    }
  }

  /** A usable saved speed is resumed as it is, and without one the saved baseline
      to the nearest percent; without a saved state control resumes at the minimum. */
  lemma ResumesWhatWasSaved(l: Limits, base: real, last: int)
    requires l.Valid()
    ensures l.minFan <= last <= l.maxFan ==> ResumeSpeed(l, Some((base, last))) == last
    ensures last <= 0 && l.minFan as real <= base <= l.maxFan as real
      ==> AbsReal(ResumeSpeed(l, Some((base, last))) as real - base) <= 0.5
    ensures ResumeSpeed(l, None) == l.minFan
  {
  }

  /** A saved last speed of 100 is resumed as 100 when the range allows it. */
  lemma FullSpeedIsResumed(l: Limits, base: real)
    requires l.Valid()
    ensures StartSpeed(l, ResumeSpeed(l, Some((base, 100)))) == 100 <==> l.maxFan == 100
  {
  }
}
