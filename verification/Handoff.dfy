/** The handoff of drifted targets from the reconciler's goroutine to the
    control loop's configuration, under every interleaving. */
module Handoff {
  import opened Thermal
  import opened Mode
  import opened Observation
  import opened Settings
  import opened Adaptive
  import opened DriftRuns

  type Targets = map<Class, Pair>

  /** The configuration with every staged class overwritten. */
  function Overlaid(pairs: Quad<Pair>, targets: Targets): (q: Quad<Pair>)
    ensures forall c: Managed :: q.At(c) == if c in targets then targets[c] else pairs.At(c)
  {
    Quad(if CPU in targets then targets[CPU] else pairs.cpu,
         if PassiveGPU in targets then targets[PassiveGPU] else pairs.pg,
         if HDD in targets then targets[HDD] else pairs.hdd,
         if SSD in targets then targets[SSD] else pairs.ssd)
  }

  /** Actions that are not handed over. */
  predicate Quiet(r: DriftReason) {
    r in {Settled, DriftReason.WarmingUp, Skipped}
  }

  function Staged(targets: Targets, a: DriftAction): Targets {
    if Quiet(a.reason) then targets else targets[a.class_ := Pair(a.newTarget, a.newDeadband)]
  }

  function StagedAll(targets: Targets, actions: seq<DriftAction>): Targets {
    if actions == [] then targets
    else Staged(StagedAll(targets, actions[..|actions| - 1]), actions[|actions| - 1])
  }

  /** What startup stages: the reconciler's own targets, pins excepted. */
  function Seeded(classes: map<Class, ClassState>, overrides: set<Class>): Targets {
    map c | c in classes && c !in overrides :: Pair(classes[c].Target(), classes[c].Deadband())
  }

  // ------------------------------------------------------------------ the store

  class Store {
    var targets: Targets

    constructor ()
      ensures targets == map[]
    {
      targets := map[];
    }

    method Set(c: Class, target: int, deadband: int)
      modifies this
      ensures targets == old(targets)[c := Pair(target, deadband)]
    {
      targets := targets[c := Pair(target, deadband)];
    }

    method Get(c: Class) returns (p: Option<Pair>)
      ensures p == if c in targets then Some(targets[c]) else None
    {
      if c in targets {
        return Some(targets[c]);
      }
      return None;
    }

    method ApplyTo(cfg: Config)
      modifies cfg`pairs
      ensures cfg.pairs == Overlaid(old(cfg.pairs), targets)
    {
      if CPU in targets {
        cfg.pairs := cfg.pairs.(cpu := targets[CPU]);
      }
      if PassiveGPU in targets {
        cfg.pairs := cfg.pairs.(pg := targets[PassiveGPU]);
      }
      if HDD in targets {
        cfg.pairs := cfg.pairs.(hdd := targets[HDD]);
      }
      if SSD in targets {
        cfg.pairs := cfg.pairs.(ssd := targets[SSD]);
      }
    }
  }

  /** Startup: the learned targets are in the store before the first cycle. */
  method SeedLiveTargets(r: Reconciler, lt: Store, overrides: set<Class>)
    requires lt.targets == map[]
    modifies lt
    ensures lt.targets == Seeded(r.classes, overrides)
  {
    hide ClassState.Target, ClassState.Deadband;
    var left := r.classes.Keys;
    while left != {}
      invariant left <= r.classes.Keys
      invariant lt.targets == map c | c in r.classes && c !in overrides && c !in left ::
                  Pair(r.classes[c].Target(), r.classes[c].Deadband())
      decreases left
    {
      var c :| c in left;
      left := left - {c};
      if c !in overrides {
        var td := r.Target(c);
        lt.Set(c, td.value.0, td.value.1);
      }
    }
  }

  /** One firing of the adaptive ticker. */
  method AdaptivePass(r: Reconciler, obs: Observer, sqrt: real -> real, lt: Store)
    requires r.o.Valid() && obs.Valid()
    modifies r, lt
    ensures var (next, actions) := Stepped(r.o, old(r.View()), WindowsOf(obs.View(), sqrt));
      r.View() == next && lt.targets == StagedAll(old(lt.targets), actions)
  {
    hide Stepped, WindowsOf;
    var actions := r.Step(obs, sqrt);
    for i := 0 to |actions|
      invariant r.View() == Stepped(r.o, old(r.View()), WindowsOf(obs.View(), sqrt)).0
      invariant lt.targets == StagedAll(old(lt.targets), actions[..i])
    {
      assert actions[..i + 1][..i] == actions[..i];
      var a := actions[i];
      if !Quiet(a.reason) {
        lt.Set(a.class_, a.newTarget, a.newDeadband);
      }
    }
    assert actions[..|actions|] == actions;
  }

  // -------------------------------------------------------- every interleaving

  /** The two goroutines, between atomic steps. */
  datatype Shared = Shared(recon: AdaptiveState, pending: seq<DriftAction>, store: Targets, cfg: Quad<Pair>)

  /** Reconcile is one pass under the reconciler's lock, Stage hands over the
      next action under the store's lock, Apply is the control loop's read.
      Module LiveTargets justifies the atomicity of the last two. */
  datatype Event = Reconcile(stats: Quad<WindowStats>) | Stage | Apply

  /** One atomic step; an event that is not enabled changes nothing. */
  function Next(o: Options, s: Shared, e: Event): Shared
    requires o.Valid()
  {
    match e
    case Reconcile(stats) =>
      if s.pending != [] then s
      else
        var (recon, actions) := Stepped(o, s.recon, stats);
        s.(recon := recon, pending := actions)
    case Stage =>
      if s.pending == [] then s
      else s.(pending := s.pending[1..], store := Staged(s.store, s.pending[0]))
    case Apply => s.(cfg := Overlaid(s.cfg, s.store))
  }

  function Interleaved(o: Options, s: Shared, es: seq<Event>): Shared
    requires o.Valid()
  {
    if es == [] then s
    else Next(o, Interleaved(o, s, es[..|es| - 1]), es[|es| - 1])
  }

  /** Startup after seeding. */
  function Start(o: Options, recon: AdaptiveState, cfg: Quad<Pair>): Shared {
    Shared(recon, [], Seeded(recon.classes, o.overrides), cfg)
  }

  // -------------------------------------------------------- what is handed over

  /** The windows of the passes that ran; one that finds the loop busy waits. */
  function Passes(o: Options, s: Shared, es: seq<Event>): seq<Quad<WindowStats>>
    requires o.Valid()
  {
    if es == [] then []
    else
      var n := |es| - 1;
      Passes(o, s, es[..n])
        + if es[n].Reconcile? && Interleaved(o, s, es[..n]).pending == [] then [es[n].stats] else []
  }

  function Stored(t: Targets, c: Class): Option<Pair> {
    if c in t then Some(t[c]) else None
  }

  /** The pair of class `c` once everything decided over windows `ws` has been
      handed over: the announcement of the latest decision that was not quiet. */
  function HandedOver(o: Options, c: Class, e: Entry, start: Option<Pair>, ws: seq<WindowStats>): Option<Pair>
    requires o.Valid()
  {
    if ws == [] then start
    else
      var n := |ws| - 1;
      var a := Decide(o, c, Alone(o, c, e, ws[..n]).cs, ws[n]);
      if Quiet(a.reason) then HandedOver(o, c, e, start, ws[..n]) else Some(Pair(a.newTarget, a.newDeadband))
  }

  lemma {:induction false} ReconIsAfterPasses(o: Options, s: Shared, es: seq<Event>)
    requires o.Valid()
    ensures Interleaved(o, s, es).recon == After(o, s.recon, Passes(o, s, es))
  {
    hide Stepped;
    if es != [] {
      var n := |es| - 1;
      ReconIsAfterPasses(o, s, es[..n]);
      var front, all := Passes(o, s, es[..n]), Passes(o, s, es);
      if es[n].Reconcile? && Interleaved(o, s, es[..n]).pending == [] {
        assert all[..|all| - 1] == front;
      } else {
        assert all == front;
      }
    }
  }

  /** The pending actions are the rest of one pass.  Class `c` has been handed
      everything over, or everything but the one action still pending. */
  predicate Tracking(o: Options, s: Shared, c: Managed, e: Entry, start: Option<Pair>, ws: seq<WindowStats>)
    requires o.Valid()
  {
    var k, i := |MANAGED| - |s.pending|, Position(c);
    && k >= 0
    && (forall j :: 0 <= j < |s.pending| ==> s.pending[j].class_ == MANAGED[k + j])
    && if i < k then Stored(s.store, c) == HandedOver(o, c, e, start, ws)
       else
         && ws != []
         && Stored(s.store, c) == HandedOver(o, c, e, start, ws[..|ws| - 1])
         && s.pending[i - k] == Decide(o, c, Alone(o, c, e, ws[..|ws| - 1]).cs, ws[|ws| - 1])
  }

  lemma ReconcileTracks(o: Options, s: Shared, stats: Quad<WindowStats>, c: Managed, e: Entry, start: Option<Pair>,
                        ws: seq<WindowStats>)
    requires o.Valid() && s.pending == [] && Tracking(o, s, c, e, start, ws)
    requires s.recon.Class_(c) == Alone(o, c, e, ws).cs
    ensures Tracking(o, Next(o, s, Reconcile(stats)), c, e, start, ws + [stats.At(c)])
  {
    hide Stepped, HandedOver, Alone, Decide, AdaptiveState.Class_;
    PassActions(o, s.recon, stats, c);
    assert (ws + [stats.At(c)])[..|ws|] == ws;
  }

  /** The actions of one pass, in order, and the one of class `c`. */
  lemma PassActions(o: Options, recon: AdaptiveState, stats: Quad<WindowStats>, c: Managed)
    requires o.Valid()
    ensures var actions := Stepped(o, recon, stats).1;
      && |actions| == |MANAGED|
      && (forall j :: 0 <= j < |MANAGED| ==> actions[j].class_ == MANAGED[j])
      && actions[Position(c)] == Decide(o, c, recon.Class_(c), stats.At(c))
  {
    hide Pass, Decide, AdaptiveState.Class_, StepOne, EntryOf;
    PassPerClass(o, recon, MANAGED, stats, c);
    var actions := Stepped(o, recon, stats).1;
    forall j | 0 <= j < |MANAGED|
      ensures actions[j].class_ == MANAGED[j]
    {
      ActionNamesClass(o, MANAGED[j], recon.Class_(MANAGED[j]), stats.At(MANAGED[j]));
    }
  }

  lemma ActionNamesClass(o: Options, c: Class, cs: ClassState, st: WindowStats)
    requires o.Valid()
    ensures Decide(o, c, cs, st).class_ == c
  {
  }

  lemma StageTracks(o: Options, s: Shared, c: Managed, e: Entry, start: Option<Pair>, ws: seq<WindowStats>)
    requires o.Valid() && Tracking(o, s, c, e, start, ws)
    ensures Tracking(o, Next(o, s, Stage), c, e, start, ws)
  {
    hide HandedOver, Alone, Decide, Stepped;
    if s.pending != [] {
      var k := |MANAGED| - |s.pending|;
      var s' := Next(o, s, Stage);
      assert s.pending[0].class_ == MANAGED[k + 0];
      assert forall j :: 0 <= j < |s'.pending| ==> s'.pending[j] == s.pending[j + 1];
      if Position(c) == k {
        OwnAction(o, c, e, start, ws, s.store);
      } else {
        assert MANAGED[k] != MANAGED[Position(c)];
      }
    }
  }

  /** Staging the class's own latest action completes the handover. */
  lemma OwnAction(o: Options, c: Class, e: Entry, start: Option<Pair>, ws: seq<WindowStats>, store: Targets)
    requires o.Valid() && ws != [] && Stored(store, c) == HandedOver(o, c, e, start, ws[..|ws| - 1])
    ensures Stored(Staged(store, Decide(o, c, Alone(o, c, e, ws[..|ws| - 1]).cs, ws[|ws| - 1])), c)
         == HandedOver(o, c, e, start, ws)
  {
    hide Alone, Decide;
    ActionNamesClass(o, c, Alone(o, c, e, ws[..|ws| - 1]).cs, ws[|ws| - 1]);
  }

  lemma {:induction false} RunTracks(o: Options, s: Shared, es: seq<Event>, c: Managed)
    requires o.Valid() && s.pending == []
    ensures Tracking(o, Interleaved(o, s, es), c, EntryOf(s.recon, c), Stored(s.store, c), Windows(Passes(o, s, es), c))
  {
    var en, start := EntryOf(s.recon, c), Stored(s.store, c);
    if es != [] {
      hide Next, Tracking, EntryOf, Stored, Alone;
      var n := |es| - 1;
      var before := Interleaved(o, s, es[..n]);
      var ws := Windows(Passes(o, s, es[..n]), c);
      RunTracks(o, s, es[..n], c);
      match es[n]
      case Reconcile(stats) =>
        if before.pending == [] {
          ClassAfterPasses(o, s, es[..n], c);
          ReconcileTracks(o, before, stats, c, en, start, ws);
          assert Windows(Passes(o, s, es), c) == ws + [stats.At(c)];
        } else {
          BusyReconcileWaits(o, before, stats);
          assert Passes(o, s, es) == Passes(o, s, es[..n]);
        }
      case Stage =>
        StageTracks(o, before, c, en, start, ws);
        assert Passes(o, s, es) == Passes(o, s, es[..n]);
      case Apply =>
        ApplyTracks(o, before, c, en, start, ws);
        assert Passes(o, s, es) == Passes(o, s, es[..n]);
    }
  }

  lemma ClassAfterPasses(o: Options, s: Shared, es: seq<Event>, c: Managed)
    requires o.Valid()
    ensures EntryOf(Interleaved(o, s, es).recon, c) == Alone(o, c, EntryOf(s.recon, c), Windows(Passes(o, s, es), c))
    ensures Interleaved(o, s, es).recon.Class_(c) == Alone(o, c, EntryOf(s.recon, c), Windows(Passes(o, s, es), c)).cs
  {
    hide Alone, After, Interleaved, Passes;
    ReconIsAfterPasses(o, s, es);
    ClassesDriftAlone(o, s.recon, Passes(o, s, es), c);
  }

  lemma BusyReconcileWaits(o: Options, s: Shared, stats: Quad<WindowStats>)
    requires o.Valid() && s.pending != []
    ensures Next(o, s, Reconcile(stats)) == s
  {
  }

  lemma ApplyTracks(o: Options, s: Shared, c: Managed, e: Entry, start: Option<Pair>, ws: seq<WindowStats>)
    requires o.Valid() && Tracking(o, s, c, e, start, ws)
    ensures Tracking(o, Next(o, s, Apply), c, e, start, ws)
  {
    hide Alone, Decide, HandedOver;
  }

  /** The handoff, exactly: whenever the adaptive loop is idle, in every
      interleaving and from any start, the store has for each class what its own
      decisions announced, and nothing of any other class. */
  lemma StoreIsHandedOver(o: Options, s: Shared, es: seq<Event>, c: Managed)
    requires o.Valid() && s.pending == [] && Interleaved(o, s, es).pending == []
    ensures Stored(Interleaved(o, s, es).store, c)
         == HandedOver(o, c, EntryOf(s.recon, c), Stored(s.store, c), Windows(Passes(o, s, es), c))
  {
    hide HandedOver, Stored;
    RunTracks(o, s, es, c);
  }

  lemma {:induction false} PassesArePrefixes(o: Options, s: Shared, es: seq<Event>, k: nat)
    requires o.Valid() && k <= |es|
    ensures Passes(o, s, es[..k]) <= Passes(o, s, es)
  {
    hide Interleaved;
    if k < |es| {
      var n := |es| - 1;
      PassesArePrefixes(o, s, es[..n], k);
      assert es[..n][..k] == es[..k];
    } else {
      assert es[..k] == es;
    }
  }

  // ------------------------------------------------------------------ snapshots

  lemma {:induction false} StoreKeysGrow(o: Options, s: Shared, es: seq<Event>, k: nat)
    requires o.Valid() && k <= |es|
    ensures Interleaved(o, s, es[..k]).store.Keys <= Interleaved(o, s, es).store.Keys
  {
    hide Stepped;
    if k < |es| {
      StoreKeysGrow(o, s, es[..|es| - 1], k);
      assert es[..|es| - 1][..k] == es[..k];
    } else {
      assert es[..k] == es;
    }
  }

  /** The configuration is the initial one overlaid with the store of one single
      moment of the run: the four classes are never of different ages. */
  lemma {:induction false} ConfigIsASnapshot(o: Options, s: Shared, es: seq<Event>)
    requires o.Valid()
    ensures var cfg := Interleaved(o, s, es).cfg;
      cfg == s.cfg || exists k :: 0 <= k <= |es| && cfg == Overlaid(s.cfg, Interleaved(o, s, es[..k]).store)
  {
    hide Stepped, Overlaid;
    if es != [] {
      var n := |es| - 1;
      ConfigIsASnapshot(o, s, es[..n]);
      var before := Interleaved(o, s, es[..n]);
      if before.cfg != s.cfg {
        var k :| 0 <= k <= n && before.cfg == Overlaid(s.cfg, Interleaved(o, s, es[..n][..k]).store);
        assert es[..n][..k] == es[..k];
        StoreKeysGrow(o, s, es[..n], k);
        LaterOverlayWins(s.cfg, Interleaved(o, s, es[..k]).store, before.store);
      }
      if es[n].Apply? {
        assert Interleaved(o, s, es).cfg == Overlaid(s.cfg, before.store);
      }
    }
  }

  lemma LaterOverlayWins(q: Quad<Pair>, t: Targets, u: Targets)
    requires t.Keys <= u.Keys
    ensures Overlaid(Overlaid(q, t), u) == Overlaid(q, u)
  {
  }

  /** Each class's configured pair is the initial one, the seeded one, or the
      announcement of one single decision. */
  lemma PairsComeFromOneDecision(o: Options, s: Shared, es: seq<Event>, c: Managed)
    requires o.Valid() && s.pending == []
    ensures var p, ws := Interleaved(o, s, es).cfg.At(c), Windows(Passes(o, s, es), c);
      p == s.cfg.At(c)
      || exists j :: 0 <= j <= |ws| && Some(p) == HandedOver(o, c, EntryOf(s.recon, c), Stored(s.store, c), ws[..j])
  {
    hide Interleaved, Passes, HandedOver, EntryOf;
    ConfigIsASnapshot(o, s, es);
    var cfg, ws := Interleaved(o, s, es).cfg, Windows(Passes(o, s, es), c);
    if cfg.At(c) != s.cfg.At(c) {
      var k :| 0 <= k <= |es| && cfg == Overlaid(s.cfg, Interleaved(o, s, es[..k]).store);
      RunTracks(o, s, es[..k], c);
      PassesArePrefixes(o, s, es, k);
      var w := Windows(Passes(o, s, es[..k]), c);
      assert w == ws[..|w|];
      assert w != [] ==> w[..|w| - 1] == ws[..|w| - 1];
    }
  }
}
