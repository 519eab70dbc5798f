/** When the store and the reconciler agree: exactly which targets and which
    deadbands the handoff keeps in step, over every interleaving. */
module HandoffSync {
  import opened Rounding
  import opened Thermal
  import opened Mode
  import opened Observation
  import opened SteadyWindows
  import opened Settings
  import opened Adaptive
  import opened Drift
  import opened DriftRuns
  import opened Handoff

  // ------------------------------------------------- the target keeps in step

  /** The decision leaves the target alone and is quiet, or announces exactly the
      target it writes. */
  predicate AnnouncesTarget(o: Options, c: Class, e: Entry, st: WindowStats)
    requires o.Valid()
  {
    var a, e' := Decide(o, c, e.cs, st), StepOne(o, c, e, st);
    if Quiet(a.reason) then e'.cs.Target() == e.cs.Target() else a.newTarget == e'.cs.Target()
  }

  /** A class that cannot drift, or drifts inside its bounds. */
  predicate StartsInRange(o: Options, c: Class, t: int) {
    c in o.envelopes ==> o.HasEnvelope(c) && InRange(o.envelopes[c], t)
  }

  lemma InRangeAnnounces(o: Options, c: Class, e: Entry, st: WindowStats)
    requires o.Valid() && c !in o.overrides && StartsInRange(o, c, e.cs.Target())
    ensures AnnouncesTarget(o, c, e, st) && StartsInRange(o, c, StepOne(o, c, e, st).cs.Target())
  {
    hide RoundHalfAway, Choose, DesiredDeadband;
    WholeRounds(Decide(o, c, e.cs, st).newTarget);
    if c in o.envelopes {
      ModeTargetInBounds(o.envelopes[c], o.mode);
    }
  }

  lemma {:induction false} TargetIsHandedOver(o: Options, c: Class, e: Entry, start: Pair, ws: seq<WindowStats>)
    requires o.Valid() && c !in o.overrides && StartsInRange(o, c, e.cs.Target())
    requires start.target == e.cs.Target()
    ensures StartsInRange(o, c, Alone(o, c, e, ws).cs.Target())
    ensures var p := HandedOver(o, c, e, Some(start), ws); p.Some? && p.value.target == Alone(o, c, e, ws).cs.Target()
  {
    hide StartsInRange, Decide, StepOne, ClassState.Target;
    if ws != [] {
      var n := |ws| - 1;
      TargetIsHandedOver(o, c, e, start, ws[..n]);
      InRangeAnnounces(o, c, Alone(o, c, e, ws[..n]), ws[n]);
    }
  }

  /** The store has the reconciler's target for class `c`. */
  predicate InStep(s: Shared, c: Class) {
    c in s.store && s.store[c].target == s.recon.Class_(c).Target()
  }

  /** Whenever the adaptive loop is idle, the stored target of a class that is
      not pinned and starts in range is the reconciler's own, in every
      interleaving and whatever the other classes do. */
  lemma IdleMeansInStep(o: Options, recon: AdaptiveState, cfg: Quad<Pair>, es: seq<Event>, c: Managed)
    requires o.Valid() && c !in o.overrides && c in recon.classes
    requires StartsInRange(o, c, recon.Class_(c).Target())
    ensures var s := Interleaved(o, Start(o, recon, cfg), es);
      s.pending == [] ==> InStep(s, c)
  {
    hide StartsInRange, HandedOver, Alone, Interleaved, ClassState.Target, ClassState.Deadband;
    var s0 := Start(o, recon, cfg);
    if Interleaved(o, s0, es).pending == [] {
      StoreIsHandedOver(o, s0, es, c);
      ClassAfterPasses(o, s0, es, c);
      TargetIsHandedOver(o, c, EntryOf(recon, c), s0.store[c], Windows(Passes(o, s0, es), c));
    }
  }

  /** A pinned class is never touched: in every interleaving its configured pair
      stays the operator's. */
  lemma PinsAreNeverTouched(o: Options, recon: AdaptiveState, cfg: Quad<Pair>, es: seq<Event>, c: Managed)
    requires o.Valid() && c in o.overrides && c in o.envelopes
    ensures Interleaved(o, Start(o, recon, cfg), es).cfg.At(c) == cfg.At(c)
  {
    hide Interleaved, Start, HandedOver, EntryOf;
    var s0 := Start(o, recon, cfg);
    PinIsNotSeeded(o, recon, cfg, c);
    PairsComeFromOneDecision(o, s0, es, c);
    var p, ws := Interleaved(o, s0, es).cfg.At(c), Windows(Passes(o, s0, es), c);
    if p != cfg.At(c) {
      var j :| 0 <= j <= |ws| && Some(p) == HandedOver(o, c, EntryOf(s0.recon, c), Stored(s0.store, c), ws[..j]);
      PinHandsNothingOver(o, c, EntryOf(s0.recon, c), ws[..j]);
      assert false;
    }
  }

  lemma PinIsNotSeeded(o: Options, recon: AdaptiveState, cfg: Quad<Pair>, c: Managed)
    requires o.Valid() && c in o.overrides
    ensures var s0 := Start(o, recon, cfg); s0.pending == [] && s0.cfg == cfg && Stored(s0.store, c) == None
  {
    hide ClassState.Target, ClassState.Deadband;
  }

  lemma {:induction false} PinHandsNothingOver(o: Options, c: Class, e: Entry, ws: seq<WindowStats>)
    requires o.Valid() && c in o.overrides && c in o.envelopes
    ensures HandedOver(o, c, e, None, ws) == None
  {
    hide Alone;
    if ws != [] {
      PinHandsNothingOver(o, c, e, ws[..|ws| - 1]);
    }
  }

  // --------------------------------------------------- when it falls behind

  /** Statistics that four ring buffers of the configured size can show. */
  ghost predicate Observable(o: Options, sqrt: real -> real, stats: Quad<WindowStats>) {
    exists v: WindowState :: (forall c: Class :: |v.Buffer(c)| <= o.windowSize) && stats == WindowsOf(v, sqrt)
  }

  ghost predicate ObservableRun(o: Options, sqrt: real -> real, es: seq<Event>) {
    forall i :: 0 <= i < |es| && es[i].Reconcile? ==> Observable(o, sqrt, es[i].stats)
  }

  /** The temperature at which a mode leaves a class alone. */
  function RestTemp(env: Envelope, m: Mode): real {
    (if m == MaxCool then env.preferredLow else env.preferredHigh) as real
  }

  /** A full window at rest, from a real buffer with an ordinary demand. */
  lemma SteadyIsAtRest(o: Options, env: Envelope, sqrt: real -> real)
    requires o.Valid() && IsSqrt(sqrt)
    ensures var st := StatsOf(SteadyBuffer(o.windowSize, RestTemp(env, o.mode), 30), sqrt);
      AtRest(o.mode, env, st) && (o.WarmingUp(st) <==> o.minFill > 1.0)
  {
    hide StatsOf, IsSqrt;
    var buf := SteadyBuffer(o.windowSize, RestTemp(env, o.mode), 30);
    SteadyWindow(o.windowSize, RestTemp(env, o.mode), 30, sqrt);
    assert o.windowSize as real / o.windowSize as real == 1.0;
  }

  /** A buffer that never fills past its size never reaches a fill above one. */
  lemma NeverJudged(o: Options, buf: seq<Sample>, sqrt: real -> real)
    requires o.Valid() && |buf| <= o.windowSize && o.minFill > 1.0
    ensures o.WarmingUp(StatsOf(buf, sqrt))
  {
    hide StatsOf;
    SamplesCount(buf, sqrt);
    QuotientAtMostOne(|buf| as real, o.windowSize as real);
  }

  lemma SamplesCount(buf: seq<Sample>, sqrt: real -> real)
    ensures StatsOf(buf, sqrt).samples == |buf|
  {
  }

  lemma QuotientAtMostOne(x: real, w: real)
    requires 0.0 <= x <= w && w > 0.0
    ensures x / w <= 1.0
  {
    Quotient(x, w);
  }

  /** Every buffer the observer can hold is decided with its target announced. */
  ghost predicate AlwaysAnnounces(o: Options, c: Class, e: Entry, sqrt: real -> real)
    requires o.Valid()
  {
    forall buf: seq<Sample> :: |buf| <= o.windowSize ==> AnnouncesTarget(o, c, e, StatsOf(buf, sqrt))
  }

  /** Exactly when every decision announces the target it writes, in every mode
      and at every rate: the target is in range, or no window is ever judged. */
  lemma AnnouncesIffInRange(o: Options, c: Class, e: Entry, sqrt: real -> real)
    requires o.Valid() && o.HasEnvelope(c) && c !in o.overrides && IsSqrt(sqrt)
    ensures AlwaysAnnounces(o, c, e, sqrt) <==> (InRange(o.envelopes[c], e.cs.Target()) || o.minFill > 1.0)
  {
    hide AnnouncesTarget, StatsOf, InRange, ClassState.Target;
    if o.minFill > 1.0 {
      forall buf: seq<Sample> | |buf| <= o.windowSize
        ensures AnnouncesTarget(o, c, e, StatsOf(buf, sqrt))
      {
        NeverJudged(o, buf, sqrt);
        WarmingUpAnnounces(o, c, e, StatsOf(buf, sqrt));
      }
    } else if InRange(o.envelopes[c], e.cs.Target()) {
      forall buf: seq<Sample> | |buf| <= o.windowSize
        ensures AnnouncesTarget(o, c, e, StatsOf(buf, sqrt))
      {
        InRangeAnnounces(o, c, e, StatsOf(buf, sqrt));
      }
    } else {
      var buf := SteadyBuffer(o.windowSize, RestTemp(o.envelopes[c], o.mode), 30);
      SteadyIsAtRest(o, o.envelopes[c], sqrt);
      SilentPull(o, c, e, StatsOf(buf, sqrt));
    }
  }

  lemma WarmingUpAnnounces(o: Options, c: Class, e: Entry, st: WindowStats)
    requires o.Valid() && o.HasEnvelope(c) && c !in o.overrides && o.WarmingUp(st)
    ensures AnnouncesTarget(o, c, e, st) && StepOne(o, c, e, st) == e
    ensures Decide(o, c, e.cs, st).reason == DriftReason.WarmingUp
  {
  }

  /** A window at rest pulls an out-of-range target in and calls it settled. */
  lemma SilentPull(o: Options, c: Class, e: Entry, st: WindowStats)
    requires o.Valid() && o.HasEnvelope(c) && c !in o.overrides
    requires AtRest(o.mode, o.envelopes[c], st) && !o.WarmingUp(st)
    requires !InRange(o.envelopes[c], e.cs.Target())
    ensures Decide(o, c, e.cs, st).reason == Settled
    ensures InRange(o.envelopes[c], StepOne(o, c, e, st).cs.Target())
    ensures !AnnouncesTarget(o, c, e, st)
  {
    hide Choose, RoundHalfAway, DesiredDeadband;
    RestIsKept(o.mode, o.envelopes[c], st, o.driftRate);
    WholeRounds(Decide(o, c, e.cs, st).newTarget);
  }

  /** One pass handed over completely. */
  function OnePass(stats: Quad<WindowStats>): seq<Event> {
    [Reconcile(stats), Stage, Stage, Stage, Stage]
  }

  lemma OneMoreEvent(o: Options, s: Shared, es: seq<Event>, e: Event)
    requires o.Valid()
    ensures Interleaved(o, s, es + [e]) == Next(o, Interleaved(o, s, es), e)
    ensures !e.Reconcile? ==> Passes(o, s, es + [e]) == Passes(o, s, es)
  {
    hide Next;
    assert (es + [e])[..|es|] == es;
  }

  lemma OnePassIsComplete(o: Options, s: Shared, stats: Quad<WindowStats>)
    requires o.Valid() && s.pending == []
    ensures Interleaved(o, s, OnePass(stats)).pending == []
    ensures Passes(o, s, OnePass(stats)) == [stats]
  {
    hide Interleaved, Passes, Pass;
    PassPerClass(o, s.recon, MANAGED, stats, CPU);
    var e1 := [Reconcile(stats)];
    FirstPass(o, s, stats);
    OneMoreEvent(o, s, e1, Stage);
    OneMoreEvent(o, s, e1 + [Stage], Stage);
    OneMoreEvent(o, s, e1 + [Stage] + [Stage], Stage);
    OneMoreEvent(o, s, e1 + [Stage] + [Stage] + [Stage], Stage);
    assert OnePass(stats) == e1 + [Stage] + [Stage] + [Stage] + [Stage];
  }

  lemma FirstPass(o: Options, s: Shared, stats: Quad<WindowStats>)
    requires o.Valid() && s.pending == []
    ensures Interleaved(o, s, [Reconcile(stats)]) == Next(o, s, Reconcile(stats))
    ensures Passes(o, s, [Reconcile(stats)]) == [stats]
  {
    hide Next;
    assert [Reconcile(stats)][..0] == [];
  }

  /** In step at every idle moment of every run over observable windows. */
  ghost predicate AlwaysInStep(o: Options, recon: AdaptiveState, cfg: Quad<Pair>, sqrt: real -> real, c: Managed)
    requires o.Valid()
  {
    forall es: seq<Event> :: ObservableRun(o, sqrt, es) && Interleaved(o, Start(o, recon, cfg), es).pending == []
      ==> InStep(Interleaved(o, Start(o, recon, cfg), es), c)
  }

  /** The stored target of a class that can drift is always in step exactly when
      it starts in range, or no window is ever judged. */
  lemma InStepIffInRange(o: Options, recon: AdaptiveState, cfg: Quad<Pair>, sqrt: real -> real, c: Managed)
    requires o.Valid() && o.HasEnvelope(c) && c !in o.overrides && c in recon.classes && IsSqrt(sqrt)
    ensures AlwaysInStep(o, recon, cfg, sqrt, c)
       <==> (InRange(o.envelopes[c], recon.Class_(c).Target()) || o.minFill > 1.0)
  {
    hide InStep, InRange, Interleaved, Start, ObservableRun, ClassState.Target, AdaptiveState.Class_;
    if o.minFill > 1.0 {
      forall es: seq<Event> | ObservableRun(o, sqrt, es) && Interleaved(o, Start(o, recon, cfg), es).pending == []
        ensures InStep(Interleaved(o, Start(o, recon, cfg), es), c)
      {
        NeverJudgedStays(o, recon, cfg, sqrt, es, c);
      }
    } else if InRange(o.envelopes[c], recon.Class_(c).Target()) {
      forall es: seq<Event> | ObservableRun(o, sqrt, es) && Interleaved(o, Start(o, recon, cfg), es).pending == []
        ensures InStep(Interleaved(o, Start(o, recon, cfg), es), c)
      {
        IdleMeansInStep(o, recon, cfg, es, c);
      }
    } else {
      var es := FallsBehind(o, recon, cfg, sqrt, c);
      assert !InStep(Interleaved(o, Start(o, recon, cfg), es), c);
    }
  }

  /** The class's buffer in a window state where the other classes are empty. */
  function OnlyBuffer(c: Class, buf: seq<Sample>): WindowState {
    WindowState(map[c := buf], None)
  }

  /** One pass over a real, steady window that takes a class out of step. */
  lemma FallsBehind(o: Options, recon: AdaptiveState, cfg: Quad<Pair>, sqrt: real -> real, c: Managed)
    returns (es: seq<Event>)
    requires o.Valid() && o.HasEnvelope(c) && c !in o.overrides && c in recon.classes && IsSqrt(sqrt)
    requires o.minFill <= 1.0 && !InRange(o.envelopes[c], recon.Class_(c).Target())
    ensures ObservableRun(o, sqrt, es) && Interleaved(o, Start(o, recon, cfg), es).pending == []
    ensures !InStep(Interleaved(o, Start(o, recon, cfg), es), c)
  {
    hide Interleaved, StatsOf, Decide, StepOne, ClassState.Target, ClassState.Deadband, InRange;
    var st;
    es, st := SteadyPass(o, recon, cfg, sqrt, c);
    SilentPull(o, c, EntryOf(recon, c), st);
  }

  lemma StateOf(recon: AdaptiveState, c: Class)
    requires c in recon.classes
    ensures EntryOf(recon, c).cs == recon.classes[c]
  {
  }

  /** One pass over a steady window of class `c`, by what it does to the class. */
  lemma SteadyPass(o: Options, recon: AdaptiveState, cfg: Quad<Pair>, sqrt: real -> real, c: Managed)
    returns (es: seq<Event>, st: WindowStats)
    requires o.Valid() && o.HasEnvelope(c) && c !in o.overrides && c in recon.classes && IsSqrt(sqrt)
    requires o.minFill <= 1.0
    ensures ObservableRun(o, sqrt, es) && AtRest(o.mode, o.envelopes[c], st) && !o.WarmingUp(st)
    ensures var s, e := Interleaved(o, Start(o, recon, cfg), es), EntryOf(recon, c);
      && s.pending == []
      && EntryOf(s.recon, c) == StepOne(o, c, e, st)
      && (Quiet(Decide(o, c, e.cs, st).reason) ==>
            c in s.store && s.store[c] == Pair(e.cs.Target(), e.cs.Deadband()))
  {
    hide Interleaved, StatsOf, Decide, StepOne, AtRest, ClassState.Target, ClassState.Deadband, EntryOf, Passes;
    var env := o.envelopes[c];
    var buf := SteadyBuffer(o.windowSize, RestTemp(env, o.mode), 30);
    var v := OnlyBuffer(c, buf);
    var stats, s0, e := WindowsOf(v, sqrt), Start(o, recon, cfg), EntryOf(recon, c);
    st := StatsOf(buf, sqrt);
    assert stats.At(c) == st by { assert v.Buffer(c) == buf; }
    es := OnePass(stats);
    assert Observable(o, sqrt, stats);
    SteadyIsAtRest(o, env, sqrt);
    OnePassIsComplete(o, s0, stats);
    StoreIsHandedOver(o, s0, es, c);
    ClassAfterPasses(o, s0, es, c);
    assert Windows([stats], c) == [st] && [st][..0] == [];
    assert Alone(o, c, e, []) == e && Alone(o, c, e, [st]) == StepOne(o, c, e, st);
    assert e.cs == recon.classes[c] by { StateOf(recon, c); }
  }

  lemma NeverJudgedStays(o: Options, recon: AdaptiveState, cfg: Quad<Pair>, sqrt: real -> real, es: seq<Event>,
                         c: Managed)
    requires o.Valid() && o.HasEnvelope(c) && c !in o.overrides && c in recon.classes && o.minFill > 1.0
    requires ObservableRun(o, sqrt, es) && Interleaved(o, Start(o, recon, cfg), es).pending == []
    ensures InStep(Interleaved(o, Start(o, recon, cfg), es), c)
  {
    hide Interleaved, Alone, HandedOver, ClassState.Target, ClassState.Deadband, Options.WarmingUp, Observable;
    var s0 := Start(o, recon, cfg);
    PassesWarmUp(o, sqrt, s0, es, c);
    AllWarmingUp(o, c, EntryOf(recon, c), Some(s0.store[c]), Windows(Passes(o, s0, es), c));
    StoreIsHandedOver(o, s0, es, c);
    ClassAfterPasses(o, s0, es, c);
  }

  lemma ObservableWarmsUp(o: Options, sqrt: real -> real, stats: Quad<WindowStats>, c: Managed)
    requires o.Valid() && o.minFill > 1.0 && Observable(o, sqrt, stats)
    ensures o.WarmingUp(stats.At(c))
  {
    hide StatsOf, Options.WarmingUp;
    var v: WindowState :| (forall d: Class :: |v.Buffer(d)| <= o.windowSize) && stats == WindowsOf(v, sqrt);
    NeverJudged(o, v.Buffer(c), sqrt);
  }

  lemma {:induction false} PassesWarmUp(o: Options, sqrt: real -> real, s: Shared, es: seq<Event>, c: Managed)
    requires o.Valid() && o.minFill > 1.0 && ObservableRun(o, sqrt, es)
    ensures forall i :: 0 <= i < |Passes(o, s, es)| ==> o.WarmingUp(Passes(o, s, es)[i].At(c))
  {
    hide Interleaved, Options.WarmingUp, Observable;
    if es != [] {
      var n := |es| - 1;
      PassesWarmUp(o, sqrt, s, es[..n], c);
      if es[n].Reconcile? {
        ObservableWarmsUp(o, sqrt, es[n].stats, c);
      }
    }
  }

  lemma {:induction false} AllWarmingUp(o: Options, c: Class, e: Entry, start: Option<Pair>, ws: seq<WindowStats>)
    requires o.Valid() && o.HasEnvelope(c) && c !in o.overrides
    requires forall i :: 0 <= i < |ws| ==> o.WarmingUp(ws[i])
    ensures Alone(o, c, e, ws) == e && HandedOver(o, c, e, start, ws) == start
  {
    hide Options.WarmingUp, Decide, StepOne;
    if ws != [] {
      var n := |ws| - 1;
      AllWarmingUp(o, c, e, start, ws[..n]);
      WarmingUpAnnounces(o, c, e, ws[n]);
    }
  }

  // ------------------------------------------------------ the deadband lags

  /** A judged window that settles the target but wants another deadband: what
      the handoff drops. */
  predicate DropsDeadband(o: Options, c: Class, cs: ClassState, st: WindowStats)
    requires o.Valid()
  {
    && c in o.envelopes && c !in o.overrides && !o.WarmingUp(st) && st.tempStdDev <= o.varianceReset
    && Choose(o.mode, o.envelopes[c], st, o.driftRate) == 0
    && DesiredDeadband(o, o.envelopes[c], st) != cs.Deadband()
  }

  /** One pass keeps a stored deadband in step exactly when it does not drop one. */
  lemma StepKeepsDeadbandIff(o: Options, c: Class, e: Entry, p: Pair, st: WindowStats)
    requires o.Valid() && p.deadband == e.cs.Deadband()
    ensures var a := Decide(o, c, e.cs, st);
      var stored := if Quiet(a.reason) then p else Pair(a.newTarget, a.newDeadband);
      stored.deadband == StepOne(o, c, e, st).cs.Deadband() <==> !DropsDeadband(o, c, e.cs, st)
  {
    hide Choose, RoundHalfAway, DesiredDeadband;
    WholeRounds(Decide(o, c, e.cs, st).newDeadband);
  }

  /** After all of `ws`, the pair handed over has the reconciler's deadband. */
  predicate DeadbandFollows(o: Options, c: Class, e: Entry, start: Pair, ws: seq<WindowStats>)
    requires o.Valid()
  {
    var p := HandedOver(o, c, e, Some(start), ws);
    p.Some? && p.value.deadband == Alone(o, c, e, ws).cs.Deadband()
  }

  /** ... and after every pass on the way. */
  ghost predicate AlwaysFollows(o: Options, c: Class, e: Entry, start: Pair, ws: seq<WindowStats>)
    requires o.Valid()
  {
    forall k :: 0 <= k <= |ws| ==> DeadbandFollows(o, c, e, start, ws[..k])
  }

  /** No window of `ws` drops a deadband when its turn comes. */
  ghost predicate NoneDropped(o: Options, c: Class, e: Entry, ws: seq<WindowStats>)
    requires o.Valid()
  {
    forall k :: 0 <= k < |ws| ==> !DropsDeadband(o, c, Alone(o, c, e, ws[..k]).cs, ws[k])
  }

  lemma {:induction false} AlwaysFollowsIff(o: Options, c: Class, e: Entry, start: Pair, ws: seq<WindowStats>)
    requires o.Valid() && start.deadband == e.cs.Deadband()
    ensures AlwaysFollows(o, c, e, start, ws) <==> NoneDropped(o, c, e, ws)
  {
    hide DropsDeadband, DeadbandFollows, Alone;
    if ws == [] {
      StartFollows(o, c, e, start);
      assert forall k :: 0 <= k <= 0 ==> ws[..k] == [];
    } else {
      var n := |ws| - 1;
      AlwaysFollowsIff(o, c, e, start, ws[..n]);
      LastPassSplits(o, c, e, start, ws);
      if AlwaysFollows(o, c, e, start, ws[..n]) {
        assert ws[..n][..n] == ws[..n];
        LastPassFollowsIff(o, c, e, start, ws);
      }
    }
  }

  lemma StartFollows(o: Options, c: Class, e: Entry, start: Pair)
    requires o.Valid() && start.deadband == e.cs.Deadband()
    ensures DeadbandFollows(o, c, e, start, [])
  {
  }

  lemma LastPassSplits(o: Options, c: Class, e: Entry, start: Pair, ws: seq<WindowStats>)
    requires o.Valid() && ws != []
    ensures var n := |ws| - 1;
      && (AlwaysFollows(o, c, e, start, ws) <==>
            AlwaysFollows(o, c, e, start, ws[..n]) && DeadbandFollows(o, c, e, start, ws))
      && (NoneDropped(o, c, e, ws) <==>
            NoneDropped(o, c, e, ws[..n]) && !DropsDeadband(o, c, Alone(o, c, e, ws[..n]).cs, ws[n]))
  {
    hide DropsDeadband, DeadbandFollows, Alone;
    var n := |ws| - 1;
    assert forall k :: 0 <= k <= n ==> ws[..n][..k] == ws[..k];
    assert ws[..|ws|] == ws;
  }

  lemma LastPassFollowsIff(o: Options, c: Class, e: Entry, start: Pair, ws: seq<WindowStats>)
    requires o.Valid() && ws != [] && DeadbandFollows(o, c, e, start, ws[..|ws| - 1])
    ensures DeadbandFollows(o, c, e, start, ws)
       <==> !DropsDeadband(o, c, Alone(o, c, e, ws[..|ws| - 1]).cs, ws[|ws| - 1])
  {
    hide Decide, StepOne, DropsDeadband, ClassState.Deadband;
    var n := |ws| - 1;
    StepKeepsDeadbandIff(o, c, Alone(o, c, e, ws[..n]), HandedOver(o, c, e, Some(start), ws[..n]).value, ws[n]);
  }

  /** The store has the reconciler's deadband for class `c`. */
  predicate DeadbandInStep(s: Shared, c: Class) {
    c in s.store && s.store[c].deadband == s.recon.Class_(c).Deadband()
  }

  /** Every idle moment of a run has the store and the reconciler agree. */
  ghost predicate DeadbandAlwaysInStep(o: Options, s: Shared, es: seq<Event>, c: Managed)
    requires o.Valid()
  {
    forall k :: 0 <= k <= |es| && Interleaved(o, s, es[..k]).pending == []
      ==> DeadbandInStep(Interleaved(o, s, es[..k]), c)
  }

  /** Between two passes, and after the last if it is complete, the loop is idle. */
  lemma {:induction false} IdleAfterEachPass(o: Options, s: Shared, es: seq<Event>, j: nat) returns (k: nat)
    requires o.Valid() && s.pending == [] && j <= |Passes(o, s, es)|
    requires j < |Passes(o, s, es)| || Interleaved(o, s, es).pending == []
    ensures k <= |es| && Interleaved(o, s, es[..k]).pending == [] && Passes(o, s, es[..k]) == Passes(o, s, es)[..j]
  {
    hide Next;
    if j == |Passes(o, s, es)| {
      k := |es|;
      assert es[..k] == es;
    } else {
      var n := |es| - 1;
      k := IdleAfterEachPass(o, s, es[..n], j);
      assert es[..n][..k] == es[..k];
    }
  }

  /** In every interleaving that ends idle, the stored deadband is the
      reconciler's at every idle moment exactly when no pass dropped one. */
  lemma DeadbandInStepIff(o: Options, recon: AdaptiveState, cfg: Quad<Pair>, es: seq<Event>, c: Managed)
    requires o.Valid() && c !in o.overrides && c in recon.classes
    requires Interleaved(o, Start(o, recon, cfg), es).pending == []
    ensures var s0 := Start(o, recon, cfg);
      DeadbandAlwaysInStep(o, s0, es, c) <==> NoneDropped(o, c, EntryOf(recon, c), Windows(Passes(o, s0, es), c))
  {
    hide Interleaved, Passes, DeadbandFollows, NoneDropped, DeadbandInStep, ClassState.Target, ClassState.Deadband;
    var s0, e := Start(o, recon, cfg), EntryOf(recon, c);
    var ws := Windows(Passes(o, s0, es), c);
    AlwaysFollowsIff(o, c, e, s0.store[c], ws);
    if AlwaysFollows(o, c, e, s0.store[c], ws) {
      forall k | 0 <= k <= |es| && Interleaved(o, s0, es[..k]).pending == []
        ensures DeadbandInStep(Interleaved(o, s0, es[..k]), c)
      {
        PassesArePrefixes(o, s0, es, k);
        var j := |Passes(o, s0, es[..k])|;
        assert Windows(Passes(o, s0, es[..k]), c) == ws[..j];
        DeadbandAtIdle(o, recon, cfg, es[..k], c);
      }
    } else {
      var j :| 0 <= j <= |ws| && !DeadbandFollows(o, c, e, s0.store[c], ws[..j]);
      var k := IdleAfterEachPass(o, s0, es, j);
      assert Windows(Passes(o, s0, es[..k]), c) == ws[..j];
      DeadbandAtIdle(o, recon, cfg, es[..k], c);
    }
  }

  lemma DeadbandAtIdle(o: Options, recon: AdaptiveState, cfg: Quad<Pair>, es: seq<Event>, c: Managed)
    requires o.Valid() && c !in o.overrides && c in recon.classes
    requires Interleaved(o, Start(o, recon, cfg), es).pending == []
    ensures var s0, e := Start(o, recon, cfg), EntryOf(recon, c);
      DeadbandInStep(Interleaved(o, s0, es), c)
      <==> DeadbandFollows(o, c, e, s0.store[c], Windows(Passes(o, s0, es), c))
  {
    hide Interleaved, Passes, HandedOver, Alone, ClassState.Target, ClassState.Deadband;
    StoreIsHandedOver(o, Start(o, recon, cfg), es, c);
    ClassAfterPasses(o, Start(o, recon, cfg), es, c);
  }

  /** It does happen: in every mode and at every rate, a full steady window drops
      any deadband other than the mode's own, as after a restart that loaded one. */
  lemma SteadyWindowDropsDeadband(o: Options, recon: AdaptiveState, cfg: Quad<Pair>, sqrt: real -> real, c: Managed)
    returns (es: seq<Event>)
    requires o.Valid() && o.HasEnvelope(c) && c !in o.overrides && c in recon.classes && IsSqrt(sqrt)
    requires o.minFill <= 1.0
    requires recon.Class_(c).Deadband() != Min(InitialTarget(o.envelopes[c], o.mode).1, o.maxDeadbandC)
    ensures ObservableRun(o, sqrt, es)
    ensures var s := Interleaved(o, Start(o, recon, cfg), es);
      && s.pending == [] && c in s.store
      && s.store[c].deadband == recon.Class_(c).Deadband() != s.recon.Class_(c).Deadband()
  {
    hide Interleaved, StatsOf, ClassState.Target, ClassState.Deadband, Choose, StepOne, Decide;
    var st;
    es, st := SteadyPass(o, recon, cfg, sqrt, c);
    SettlesToDefault(o, c, EntryOf(recon, c), st);
  }

  lemma SettlesToDefault(o: Options, c: Class, e: Entry, st: WindowStats)
    requires o.Valid() && o.HasEnvelope(c) && c !in o.overrides
    requires AtRest(o.mode, o.envelopes[c], st) && !o.WarmingUp(st)
    ensures Decide(o, c, e.cs, st).reason == Settled
    ensures StepOne(o, c, e, st).cs.Deadband() == Min(InitialTarget(o.envelopes[c], o.mode).1, o.maxDeadbandC)
  {
    hide Choose, RoundHalfAway;
    RestIsKept(o.mode, o.envelopes[c], st, o.driftRate);
    WholeRounds(Decide(o, c, e.cs, st).newDeadband);
  }
}
