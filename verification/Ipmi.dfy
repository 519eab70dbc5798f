/** The BMC as the controller can observe it, and the client that speaks to it. */
module Ipmi {
  import opened Rounding

  const BROADCAST := 0xff
  const MAX_FAN_INDEX_PROBE := 16

  datatype Command = EngageCommand | HandbackCommand | WriteCommand(selector: int, pct: int)

  /** A BMC that deterministically accepts some selectors.  `setpoint` is the
      percentage last accepted for a selector; `log` is every command issued. */
  datatype Bmc = Bmc(accepts: set<int>, manual: bool, setpoint: map<int, int>, log: seq<Command>) {

    function Engaged(): Bmc {
      this.(manual := true, log := log + [EngageCommand])
    }

    function HandedBack(): Bmc {
      this.(manual := false, log := log + [HandbackCommand])
    }

    function Wrote(selector: int, pct: int): Bmc {
      this.(log := log + [WriteCommand(selector, pct)],
            setpoint := if selector in accepts then setpoint[selector := pct] else setpoint)
    }

    /** Writes in order, stopping at the first rejection. */
    function WroteUntilRejected(selectors: seq<int>, pct: int): (Bmc, bool) {
      if selectors == [] then (this, true)
      else
        var n := |selectors| - 1;
        var (b, ok) := WroteUntilRejected(selectors[..n], pct);
        if !ok then (b, false) else (b.Wrote(selectors[n], pct), selectors[n] in b.accepts)
    }

    /** Writes in order, whatever is rejected. */
    function WroteEach(selectors: seq<int>, pct: int): Bmc {
      if selectors == [] then this
      else WroteEach(selectors[..|selectors| - 1], pct).Wrote(selectors[|selectors| - 1], pct)
    }

    /** The selector and percentage of one fan command under a dialect. */
    function FanSet(indices: seq<int>, pct: int): (Bmc, bool) {
      WroteUntilRejected(Selected(indices), Max(pct, 0))
    }

    /** Every selected selector last accepted `pct`. */
    predicate AllAt(indices: seq<int>, pct: int) {
      forall x :: x in Selected(indices) ==> x in setpoint && setpoint[x] == pct
    }

    /** Every selected selector is one the BMC accepts. */
    predicate Drivable(indices: seq<int>) {
      forall x :: x in Selected(indices) ==> x in accepts
    }
  }

  /** The selectors a dialect addresses: the broadcast, or each index. */
  function Selected(indices: seq<int>): (s: seq<int>)
    ensures |s| > 0
  {
    if indices == [] then [BROADCAST] else indices
  }

  /** The latest mode command of a log, if any: engaged or not. */
  function LastMode(log: seq<Command>): seq<bool> {
    if log == [] then []
    else match log[|log| - 1]
      case EngageCommand => [true]
      case HandbackCommand => [false]
      case WriteCommand(_, _) => LastMode(log[..|log| - 1])
  }

  /** The members of `candidates` that are accepted, in order. */
  function AcceptedOf(candidates: seq<int>, accepts: set<int>): (r: seq<int>)
    ensures forall x :: x in r <==> x in candidates && x in accepts
  {
    if candidates == [] then []
    else
      var n := |candidates| - 1;
      assert candidates == candidates[..n] + [candidates[n]];
      AcceptedOf(candidates[..n], accepts) + if candidates[n] in accepts then [candidates[n]] else []
  }

  /** The probed indices. */
  function ProbeOrder(): (s: seq<int>)
    ensures |s| == MAX_FAN_INDEX_PROBE && forall i :: 0 <= i < |s| ==> s[i] == i
  {
    seq(MAX_FAN_INDEX_PROBE, i => i)
  }

  // ------------------------------------------------------- what a command does

  /** A drivable dialect takes every write: all of its selectors end at `pct`,
      the others keep their setting, and exactly its writes are logged. */
  lemma {:induction false} DrivableSetsAll(b: Bmc, selectors: seq<int>, pct: int)
    requires forall x :: x in selectors ==> x in b.accepts
    ensures var (b', ok) := b.WroteUntilRejected(selectors, pct);
      && ok && b'.accepts == b.accepts && b'.manual == b.manual
      && (forall x :: x in selectors ==> x in b'.setpoint && b'.setpoint[x] == pct)
      && (forall x :: x !in selectors ==> (x in b'.setpoint <==> x in b.setpoint))
      && (forall x :: x !in selectors && x in b.setpoint ==> b'.setpoint[x] == b.setpoint[x])
      && b'.log == b.log + seq(|selectors|, i requires 0 <= i < |selectors| => WriteCommand(selectors[i], pct))
  {
    if selectors != [] {
      var n := |selectors| - 1;
      assert selectors == selectors[..n] + [selectors[n]];
      DrivableSetsAll(b, selectors[..n], pct);
    }
  }

  /** A command never changes the mode or the accept set. */
  lemma {:induction false} WritesKeepMode(b: Bmc, selectors: seq<int>, pct: int)
    ensures var b' := b.WroteUntilRejected(selectors, pct).0;
      b'.accepts == b.accepts && b'.manual == b.manual && LastMode(b'.log) == LastMode(b.log)
  {
    if selectors != [] {
      var n := |selectors| - 1;
      WritesKeepMode(b, selectors[..n], pct);
      LastModeSkipsWrites(b.WroteUntilRejected(selectors[..n], pct).0.log, selectors[n], pct);
    }
  }

  lemma {:induction false} EachWriteKeepsMode(b: Bmc, selectors: seq<int>, pct: int)
    ensures var b' := b.WroteEach(selectors, pct);
      b'.accepts == b.accepts && b'.manual == b.manual && LastMode(b'.log) == LastMode(b.log)
  {
    if selectors != [] {
      var n := |selectors| - 1;
      EachWriteKeepsMode(b, selectors[..n], pct);
      LastModeSkipsWrites(b.WroteEach(selectors[..n], pct).log, selectors[n], pct);
    }
  }

  lemma LastModeSkipsWrites(log: seq<Command>, selector: int, pct: int)
    ensures LastMode(log + [WriteCommand(selector, pct)]) == LastMode(log)
  {
    assert (log + [WriteCommand(selector, pct)])[..|log|] == log;
  }

  lemma ModeCommandsShow(b: Bmc)
    ensures LastMode(b.Engaged().log) == [true] && LastMode(b.HandedBack().log) == [false]
  {
  }

  /** After writing to every candidate, the accepted ones are at `pct`. */
  lemma {:induction false} EachAcceptedIsAt(b: Bmc, selectors: seq<int>, pct: int)
    ensures var b' := b.WroteEach(selectors, pct);
      forall x :: x in selectors && x in b.accepts ==> x in b'.setpoint && b'.setpoint[x] == pct
  {
    if selectors != [] {
      var n := |selectors| - 1;
      assert selectors == selectors[..n] + [selectors[n]];
      EachAcceptedIsAt(b, selectors[..n], pct);
      EachWriteKeepsMode(b, selectors[..n], pct);
    }
  }

  // ----------------------------------------------------------------- the client

  class Client {
    var fanIndices: seq<int>
    var bmc: Bmc

    constructor (bmc: Bmc)
      ensures this.bmc == bmc && fanIndices == []
    {
      this.bmc := bmc;
      fanIndices := [];
    }

    method EngageManual()
      modifies this`bmc
      ensures bmc == old(bmc).Engaged()
    {
      bmc := bmc.Engaged();
    }

    method HandbackAuto()
      modifies this`bmc
      ensures bmc == old(bmc).HandedBack()
    {
      bmc := bmc.HandedBack();
    }

    method SetSelector(selector: int, pct: int) returns (ok: bool)
      modifies this`bmc
      ensures bmc == old(bmc).Wrote(selector, pct)
      ensures ok <==> selector in old(bmc).accepts
    {
      ok := selector in bmc.accepts;
      bmc := bmc.Wrote(selector, pct);
    }

    method SetFan(pct: int) returns (ok: bool)
      modifies this`bmc
      ensures (bmc, ok) == old(bmc).FanSet(fanIndices, pct)
    {
      var p := pct;
      if p < 0 {
        p := 0;
      }
      if |fanIndices| == 0 {
        ok := SetSelector(BROADCAST, p);
        OneWrite(old(bmc), BROADCAST, p);
        return;
      }
      for i := 0 to |fanIndices|
        invariant (bmc, true) == old(bmc).WroteUntilRejected(fanIndices[..i], p)
      {
        assert fanIndices[..i + 1][..i] == fanIndices[..i];
        var accepted := SetSelector(fanIndices[i], p);
        if !accepted {
          StopsAtRejection(old(bmc), fanIndices, i, p);
          return false;
        }
      }
      assert fanIndices[..|fanIndices|] == fanIndices;
      return true;
    }

    method ProbeFanAddressing(probePct: int) returns (indices: seq<int>, broadcast: bool, ok: bool)
      modifies this`bmc
      ensures broadcast <==> BROADCAST in old(bmc).accepts
      ensures broadcast ==> ok && indices == [] && bmc == old(bmc).Wrote(BROADCAST, probePct)
      ensures !broadcast ==>
        && indices == AcceptedOf(ProbeOrder(), old(bmc).accepts)
        && (ok <==> indices != [])
        && bmc == old(bmc).Wrote(BROADCAST, probePct).WroteEach(ProbeOrder(), probePct)
    {
      var all := SetSelector(BROADCAST, probePct);
      if all {
        return [], true, true;
      }
      indices := [];
      for i := 0 to MAX_FAN_INDEX_PROBE
        invariant indices == AcceptedOf(ProbeOrder()[..i], old(bmc).accepts)
        invariant bmc == old(bmc).Wrote(BROADCAST, probePct).WroteEach(ProbeOrder()[..i], probePct)
      {
        assert ProbeOrder()[..i + 1][..i] == ProbeOrder()[..i];
        EachWriteKeepsMode(old(bmc).Wrote(BROADCAST, probePct), ProbeOrder()[..i], probePct);
        var accepted := SetSelector(i, probePct);
        if accepted {
          indices := indices + [i];
        }
      }
      assert ProbeOrder()[..MAX_FAN_INDEX_PROBE] == ProbeOrder();
      return indices, false, |indices| > 0;
    }

    method VerifyIndices(candidates: seq<int>, probePct: int) returns (ok: seq<int>)
      modifies this`bmc
      ensures ok == AcceptedOf(candidates, old(bmc).accepts)
      ensures bmc == old(bmc).WroteEach(candidates, probePct)
    {
      ok := [];
      for i := 0 to |candidates|
        invariant ok == AcceptedOf(candidates[..i], old(bmc).accepts)
        invariant bmc == old(bmc).WroteEach(candidates[..i], probePct)
      {
        assert candidates[..i + 1][..i] == candidates[..i];
        EachWriteKeepsMode(old(bmc), candidates[..i], probePct);
        var accepted := SetSelector(candidates[i], probePct);
        if accepted {
          ok := ok + [candidates[i]];
        }
      }
      assert candidates[..|candidates|] == candidates;
    }
  }

  lemma OneWrite(b: Bmc, selector: int, pct: int)
    ensures b.WroteUntilRejected([selector], pct) == (b.Wrote(selector, pct), selector in b.accepts)
  {
    assert [selector][..0] == [];
    assert b.WroteUntilRejected([], pct) == (b, true);
  }

  /** After a rejection nothing more is written. */
  lemma {:induction false} StopsAtRejection(b: Bmc, selectors: seq<int>, i: nat, pct: int)
    requires i < |selectors|
    requires b.WroteUntilRejected(selectors[..i], pct).1
    requires selectors[i] !in b.WroteUntilRejected(selectors[..i], pct).0.accepts
    ensures b.WroteUntilRejected(selectors, pct)
         == (b.WroteUntilRejected(selectors[..i], pct).0.Wrote(selectors[i], pct), false)
    decreases |selectors|
  {
    var n := |selectors| - 1;
    if i < n {
      assert selectors[..n][..i] == selectors[..i];
      StopsAtRejection(b, selectors[..n], i, pct);
    }
  }
}
