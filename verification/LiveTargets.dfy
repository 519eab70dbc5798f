/** The target store under its lock, field by field: the reads and writes of the
    two goroutines interleave freely, and the control loop still only ever runs
    on one snapshot of the store. */
module LiveTargets {
  import opened Thermal
  import opened Mode
  import opened Settings
  import opened Adaptive
  import opened DriftRuns
  import opened Handoff
  import opened HandoffSync

  // ------------------------------------------------------ fields and the mutex

  datatype Field = TargetField | DeadbandField | SetField

  /** One entry of the store; an absent class reads as an entry never set. */
  datatype Slot = Slot(target: int, deadband: int, isSet: bool)

  const UNSET := Slot(0, 0, false)

  /** The read-write mutex; there is one goroutine on each side. */
  datatype Mutex = Free | WriteHeld | ReadHeld

  /** Which fields have been done so far. */
  datatype Done = Done(target: bool, deadband: bool, isSet: bool) {
    function With(f: Field): Done {
      match f
      case TargetField => this.(target := true)
      case DeadbandField => this.(deadband := true)
      case SetField => this.(isSet := true)
    }

    predicate All() { target && deadband && isSet }
  }

  const NONE := Done(false, false, false)

  /** The adaptive goroutine outside or inside Set. */
  datatype Setter = Parked | Setting(action: DriftAction, written: Done)

  /** The main goroutine outside or inside ApplyTo. */
  datatype Applier = Running | Applying(copied: Quad<Done>)

  datatype Memory = Memory(
    recon: AdaptiveState,
    pending: seq<DriftAction>,
    slots: map<Class, Slot>,
    mutex: Mutex,
    setter: Setter,
    applier: Applier,
    cfg: Quad<Pair>,
    seen: seq<Quad<Pair>>)
  {
    function SlotOf(c: Class): Slot {
      if c in slots then slots[c] else UNSET
    }
  }

  /** Single accesses.  Set and ApplyTo may do their fields in any order and any
      number of times; `seen` records the configuration of every cycle. */
  datatype Access =
    | Reconciles(stats: Quad<WindowStats>)
    | SkipsQuiet
    | LocksForWrite
    | Writes(f: Field)
    | UnlocksWrite
    | LocksForRead
    | Copies(c: Managed, f: Field)
    | UnlocksRead
    | Cycles

  function Written(slot: Slot, a: DriftAction, f: Field): Slot {
    match f
    case TargetField => slot.(target := a.newTarget)
    case DeadbandField => slot.(deadband := a.newDeadband)
    case SetField => slot.(isSet := true)
  }

  function Copied(p: Pair, slot: Slot, f: Field): Pair {
    if !slot.isSet then p
    else
      match f
      case TargetField => p.(target := slot.target)
      case DeadbandField => p.(deadband := slot.deadband)
      case SetField => p
  }

  /** One access; one that is not enabled changes nothing.  Without `guarded`
      nobody waits for the mutex. */
  function Accessed(o: Options, guarded: bool, m: Memory, e: Access): Memory
    requires o.Valid()
  {
    match e
    case Reconciles(stats) =>
      if m.setter.Setting? || m.pending != [] then m
      else
        var (recon, actions) := Stepped(o, m.recon, stats);
        m.(recon := recon, pending := actions)
    case SkipsQuiet =>
      if m.setter.Setting? || m.pending == [] || !Quiet(m.pending[0].reason) then m
      else m.(pending := m.pending[1..])
    case LocksForWrite =>
      if m.setter.Setting? || m.pending == [] || Quiet(m.pending[0].reason) || (guarded && !m.mutex.Free?) then m
      else m.(pending := m.pending[1..], setter := Setting(m.pending[0], NONE), mutex := WriteHeld)
    case Writes(f) =>
      if m.setter.Parked? then m
      else
        var a := m.setter.action;
        m.(slots := m.slots[a.class_ := Written(m.SlotOf(a.class_), a, f)],
           setter := Setting(a, m.setter.written.With(f)))
    case UnlocksWrite =>
      if m.setter.Parked? || !m.setter.written.All() then m
      else m.(setter := Parked, mutex := Free)
    case LocksForRead =>
      if m.applier.Applying? || (guarded && !m.mutex.Free?) then m
      else m.(applier := Applying(Quad(NONE, NONE, NONE, NONE)), mutex := ReadHeld)
    case Copies(c, f) =>
      if m.applier.Running? then m
      else
        m.(cfg := m.cfg.With(c, Copied(m.cfg.At(c), m.SlotOf(c), f)),
           applier := Applying(m.applier.copied.With(c, m.applier.copied.At(c).With(f))))
    case UnlocksRead =>
      if m.applier.Running? || !AllCopied(m.applier.copied) then m
      else m.(applier := Running, mutex := Free)
    case Cycles =>
      if m.applier.Applying? then m else m.(seen := m.seen + [m.cfg])
  }

  predicate AllCopied(copied: Quad<Done>) {
    forall c: Managed :: copied.At(c).All()
  }

  function Accesses(o: Options, guarded: bool, m: Memory, es: seq<Access>): Memory
    requires o.Valid()
  {
    if es == [] then m
    else Accessed(o, guarded, Accesses(o, guarded, m, es[..|es| - 1]), es[|es| - 1])
  }

  // ------------------------------------------------------- the abstraction

  /** The store as if a Set that has the lock were already complete. */
  function Entries(m: Memory): map<Class, Slot> {
    if m.setter.Parked? then m.slots
    else
      var a := m.setter.action;
      m.slots[a.class_ := Slot(a.newTarget, a.newDeadband, true)]
  }

  function StoreOf(m: Memory): Targets {
    var entries := Entries(m);
    map c | c in entries && entries[c].isSet :: Pair(entries[c].target, entries[c].deadband)
  }

  /** The configuration as if an ApplyTo that has the lock were already complete. */
  function ConfigOf(m: Memory): Quad<Pair> {
    if m.applier.Running? then m.cfg else Overlaid(m.cfg, StoreOf(m))
  }

  function Abstract(m: Memory): Shared {
    Shared(m.recon, m.pending, StoreOf(m), ConfigOf(m))
  }

  /** The atomic step an access amounts to, if any: Set and ApplyTo take effect
      when they take the lock. */
  function AtomicOf(m: Memory, e: Access): (es: seq<Event>)
    ensures |es| <= 1
  {
    match e
    case Reconciles(stats) => if m.setter.Setting? || m.pending != [] then [] else [Reconcile(stats)]
    case SkipsQuiet =>
      if m.setter.Setting? || m.pending == [] || !Quiet(m.pending[0].reason) then [] else [Stage]
    case LocksForWrite =>
      if m.setter.Setting? || m.pending == [] || Quiet(m.pending[0].reason) || !m.mutex.Free? then [] else [Stage]
    case LocksForRead => if m.applier.Applying? || !m.mutex.Free? then [] else [Apply]
    case _ => []
  }

  /** The mutex says who is inside, and what has been done so far has its value. */
  predicate Consistent(m: Memory) {
    && (m.mutex.WriteHeld? <==> m.setter.Setting?)
    && (m.mutex.ReadHeld? <==> m.applier.Applying?)
    && (m.setter.Setting? ==>
          var a, slot, w := m.setter.action, m.SlotOf(m.setter.action.class_), m.setter.written;
          && (w.target ==> slot.target == a.newTarget)
          && (w.deadband ==> slot.deadband == a.newDeadband)
          && (w.isSet ==> slot.isSet))
    && (m.applier.Applying? ==> forall c: Managed :: CopyHolds(m.cfg.At(c), m.SlotOf(c), m.applier.copied.At(c)))
  }

  predicate CopyHolds(p: Pair, slot: Slot, d: Done) {
    && (d.target && slot.isSet ==> p.target == slot.target)
    && (d.deadband && slot.isSet ==> p.deadband == slot.deadband)
  }

  // ------------------------------------------------- every access refines

  function OneStep(o: Options, s: Shared, es: seq<Event>): Shared
    requires o.Valid() && |es| <= 1
  {
    if es == [] then s else Next(o, s, es[0])
  }

  /** With the mutex, every single access is one atomic step or none. */
  lemma AccessRefines(o: Options, m: Memory, e: Access)
    requires o.Valid() && Consistent(m)
    ensures Consistent(Accessed(o, true, m, e))
    ensures Abstract(Accessed(o, true, m, e)) == OneStep(o, Abstract(m), AtomicOf(m, e))
  {
    match e
    case Reconciles(_) =>
    case SkipsQuiet =>
    case LocksForWrite => LockRefines(o, m);
    case Writes(f) => WriteRefines(o, m, f);
    case UnlocksWrite => UnlockRefines(o, m);
    case LocksForRead =>
    case Copies(c, f) => CopyRefines(o, m, c, f);
    case UnlocksRead => AppliedRefines(o, m);
    case Cycles =>
  }

  lemma LockRefines(o: Options, m: Memory)
    requires o.Valid() && Consistent(m)
    ensures Consistent(Accessed(o, true, m, LocksForWrite))
    ensures Abstract(Accessed(o, true, m, LocksForWrite)) == OneStep(o, Abstract(m), AtomicOf(m, LocksForWrite))
  {
    hide Stepped, Overlaid;
    var m' := Accessed(o, true, m, LocksForWrite);
    if m' != m {
      assert StoreOf(m') == Staged(StoreOf(m), m.pending[0]);
    }
  }

  lemma WriteRefines(o: Options, m: Memory, f: Field)
    requires o.Valid() && Consistent(m)
    ensures Consistent(Accessed(o, true, m, Writes(f)))
    ensures Abstract(Accessed(o, true, m, Writes(f))) == Abstract(m)
  {
    hide Stepped, Overlaid;
    assert Entries(Accessed(o, true, m, Writes(f))) == Entries(m);
  }

  lemma UnlockRefines(o: Options, m: Memory)
    requires o.Valid() && Consistent(m)
    ensures Consistent(Accessed(o, true, m, UnlocksWrite))
    ensures Abstract(Accessed(o, true, m, UnlocksWrite)) == Abstract(m)
  {
    hide Stepped, Overlaid;
    var m' := Accessed(o, true, m, UnlocksWrite);
    if m' != m {
      assert m.setter.action.class_ in m.slots;
      assert Entries(m') == Entries(m);
    }
  }

  lemma CopyRefines(o: Options, m: Memory, c: Managed, f: Field)
    requires o.Valid() && Consistent(m)
    ensures Consistent(Accessed(o, true, m, Copies(c, f)))
    ensures Abstract(Accessed(o, true, m, Copies(c, f))) == Abstract(m)
  {
    hide Stepped;
    var m' := Accessed(o, true, m, Copies(c, f));
    assert Entries(m') == Entries(m);
    if m.applier.Applying? {
      assert Overlaid(m'.cfg, StoreOf(m)) == Overlaid(m.cfg, StoreOf(m));
    }
  }

  lemma AppliedRefines(o: Options, m: Memory)
    requires o.Valid() && Consistent(m)
    ensures Consistent(Accessed(o, true, m, UnlocksRead))
    ensures Abstract(Accessed(o, true, m, UnlocksRead)) == Abstract(m)
  {
    hide Stepped;
    if m.applier.Applying? && AllCopied(m.applier.copied) {
      forall c: Managed
        ensures m.cfg.At(c) == Overlaid(m.cfg, StoreOf(m)).At(c)
      {
        assert CopyHolds(m.cfg.At(c), m.SlotOf(c), m.applier.copied.At(c));
      }
    }
  }

  // ------------------------------------------------------------- whole runs

  /** The atomic steps of a run of accesses, in the order of their locks. */
  function AtomicRun(o: Options, m: Memory, es: seq<Access>): seq<Event>
    requires o.Valid()
  {
    if es == [] then []
    else
      var n := |es| - 1;
      AtomicRun(o, m, es[..n]) + AtomicOf(Accesses(o, true, m, es[..n]), es[n])
  }

  /** Refinement: with the mutex, every interleaving of single accesses is an
      interleaving of whole passes, whole Sets and whole ApplyTos. */
  lemma {:induction false} AccessesRefine(o: Options, m: Memory, es: seq<Access>)
    requires o.Valid() && Consistent(m)
    ensures Consistent(Accesses(o, true, m, es))
    ensures Abstract(Accesses(o, true, m, es)) == Interleaved(o, Abstract(m), AtomicRun(o, m, es))
  {
    hide Consistent, Accessed, Abstract, AtomicOf, Next;
    if es != [] {
      var n := |es| - 1;
      AccessesRefine(o, m, es[..n]);
      AccessRefines(o, Accesses(o, true, m, es[..n]), es[n]);
      AppendStep(o, Abstract(m), AtomicRun(o, m, es[..n]), AtomicOf(Accesses(o, true, m, es[..n]), es[n]));
    }
  }

  lemma AppendStep(o: Options, s: Shared, es: seq<Event>, more: seq<Event>)
    requires o.Valid() && |more| <= 1
    ensures Interleaved(o, s, es + more) == OneStep(o, Interleaved(o, s, es), more)
  {
    hide Next;
    if more == [] {
      assert es + more == es;
    } else {
      assert (es + more)[..|es|] == es;
    }
  }

  /** `q` is the configuration at some moment of an atomic run. */
  ghost predicate OccursIn(o: Options, s: Shared, run: seq<Event>, q: Quad<Pair>)
    requires o.Valid()
  {
    exists k :: 0 <= k <= |run| && q == Interleaved(o, s, run[..k]).cfg
  }

  lemma StillOccurs(o: Options, s: Shared, run: seq<Event>, more: seq<Event>, q: Quad<Pair>)
    requires o.Valid() && OccursIn(o, s, run, q)
    ensures OccursIn(o, s, run + more, q)
  {
    hide Interleaved;
    var k :| 0 <= k <= |run| && q == Interleaved(o, s, run[..k]).cfg;
    assert (run + more)[..k] == run[..k];
  }

  lemma LastOccurs(o: Options, s: Shared, run: seq<Event>)
    requires o.Valid()
    ensures OccursIn(o, s, run, Interleaved(o, s, run).cfg)
  {
    hide Interleaved;
    assert run[..|run|] == run;
  }

  /** No cycle ever reads a half-applied or half-set configuration: what it runs
      on is the configuration of the atomic run at some moment. */
  lemma {:induction false} CyclesSeeAtomicConfigs(o: Options, m: Memory, es: seq<Access>, i: nat)
    requires o.Valid() && Consistent(m) && |m.seen| <= i < |Accesses(o, true, m, es).seen|
    ensures OccursIn(o, Abstract(m), AtomicRun(o, m, es), Accesses(o, true, m, es).seen[i])
  {
    hide Consistent, Abstract, AtomicOf, Accessed, OccursIn;
    var n := |es| - 1;
    var before := Accesses(o, true, m, es[..n]);
    var front := AtomicRun(o, m, es[..n]);
    AccessesRefine(o, m, es[..n]);
    SeenGrows(o, before, es[n]);
    if i < |before.seen| {
      CyclesSeeAtomicConfigs(o, m, es[..n], i);
    } else {
      LastOccurs(o, Abstract(m), front);
    }
    StillOccurs(o, Abstract(m), front, AtomicOf(before, es[n]), Accesses(o, true, m, es).seen[i]);
  }

  lemma SeenGrows(o: Options, m: Memory, e: Access)
    requires o.Valid()
    ensures var m' := Accessed(o, true, m, e);
      m'.seen == m.seen || (m'.seen == m.seen + [m.cfg] && Abstract(m).cfg == m.cfg)
  {
    hide Stepped, StoreOf;
  }

  /** Every cycle runs on the initial configuration overlaid with the whole store
      of one moment: no torn pair, and no mixture of two ApplyTos. */
  lemma CyclesSeeOneSnapshot(o: Options, m: Memory, es: seq<Access>, i: nat)
    requires o.Valid() && Consistent(m) && |m.seen| <= i < |Accesses(o, true, m, es).seen|
    ensures var run, seen := AtomicRun(o, m, es), Accesses(o, true, m, es).seen[i];
      seen == ConfigOf(m)
      || exists k :: 0 <= k <= |run| && seen == Overlaid(ConfigOf(m), Interleaved(o, Abstract(m), run[..k]).store)
  {
    hide Consistent, Accesses, AtomicRun, Interleaved, Overlaid, ConfigOf, StoreOf;
    CyclesSeeAtomicConfigs(o, m, es, i);
    var run, seen := AtomicRun(o, m, es), Accesses(o, true, m, es).seen[i];
    var k :| 0 <= k <= |run| && seen == Interleaved(o, Abstract(m), run[..k]).cfg;
    ConfigIsASnapshot(o, Abstract(m), run[..k]);
    if seen != ConfigOf(m) {
      var j :| 0 <= j <= k && seen == Overlaid(ConfigOf(m), Interleaved(o, Abstract(m), run[..k][..j]).store);
      assert run[..k][..j] == run[..j];
    }
  }

  /** The pair is what a class's decisions over `ws` handed over. */
  predicate IsHandover(o: Options, m: Memory, c: Class, ws: seq<WindowStats>, p: Pair)
    requires o.Valid()
  {
    Some(p) == HandedOver(o, c, EntryOf(m.recon, c), Stored(StoreOf(m), c), ws)
  }

  /** ... and each class's pair comes from one single decision. */
  lemma CyclesSeeWholeDecisions(o: Options, m: Memory, es: seq<Access>, i: nat, c: Managed)
    requires o.Valid() && Consistent(m) && m.pending == []
    requires |m.seen| <= i < |Accesses(o, true, m, es).seen|
    ensures var p := Accesses(o, true, m, es).seen[i].At(c);
      var ws := Windows(Passes(o, Abstract(m), AtomicRun(o, m, es)), c);
      p == ConfigOf(m).At(c)
      || exists j :: 0 <= j <= |ws| && IsHandover(o, m, c, ws[..j], p)
  {
    hide Consistent, Accesses, AtomicRun, Interleaved, Passes, ConfigOf, StoreOf, HandedOver, EntryOf, Stored;
    CyclesSeeAtomicConfigs(o, m, es, i);
    var run := AtomicRun(o, m, es);
    var k :| 0 <= k <= |run| && Accesses(o, true, m, es).seen[i] == Interleaved(o, Abstract(m), run[..k]).cfg;
    PairsComeFromOneDecision(o, Abstract(m), run[..k], c);
    PassesArePrefixes(o, Abstract(m), run, k);
    var some, all := Passes(o, Abstract(m), run[..k]), Passes(o, Abstract(m), run);
    assert Windows(some, c) == Windows(all, c)[..|some|];
    assert forall j :: 0 <= j <= |some| ==> Windows(some, c)[..j] == Windows(all, c)[..j];
  }

  /** Memory at startup, after seeding. */
  function StartMemory(o: Options, recon: AdaptiveState, cfg: Quad<Pair>): (m: Memory)
    ensures Consistent(m)
    ensures Abstract(m) == Start(o, recon, cfg)
  {
    var seeded := Seeded(recon.classes, o.overrides);
    var slots := map c | c in seeded :: Slot(seeded[c].target, seeded[c].deadband, true);
    var m := Memory(recon, [], slots, Free, Parked, Running, cfg, []);
    assert StoreOf(m) == seeded;
    m
  }

  /** The handoff theorem for single accesses: whenever the adaptive goroutine is
      between two passes and outside Set, the entry of a class that is not pinned
      and starts in range has the reconciler's own target. */
  lemma IdleEntryIsInStep(o: Options, recon: AdaptiveState, cfg: Quad<Pair>, es: seq<Access>, c: Managed)
    requires o.Valid() && c !in o.overrides && c in recon.classes
    requires StartsInRange(o, c, recon.Class_(c).Target())
    ensures var m := Accesses(o, true, StartMemory(o, recon, cfg), es);
      m.setter.Parked? && m.pending == [] ==> m.SlotOf(c).isSet && m.SlotOf(c).target == m.recon.Class_(c).Target()
  {
    hide Accesses, AtomicRun, Interleaved, StartsInRange, Consistent, StartMemory, Start, ClassState.Target;
    var m0 := StartMemory(o, recon, cfg);
    AccessesRefine(o, m0, es);
    IdleMeansInStep(o, recon, cfg, AtomicRun(o, m0, es), c);
  }

  // ------------------------------------------------------ without the mutex

  lemma OneMoreAccess(o: Options, m: Memory, es: seq<Access>, e: Access)
    requires o.Valid()
    ensures Accesses(o, false, m, es + [e]) == Accessed(o, false, Accesses(o, false, m, es), e)
  {
    hide Accessed;
    assert (es + [e])[..|es|] == es;
  }

  /** ApplyTo goes over one class. */
  lemma CopiesClass(o: Options, m: Memory, es: seq<Access>, c: Managed) returns (es': seq<Access>)
    requires o.Valid() && Accesses(o, false, m, es).applier.Applying?
    ensures var before, after := Accesses(o, false, m, es), Accesses(o, false, m, es');
      && after == before.(cfg := after.cfg, applier := after.applier)
      && after.applier.Applying?
      && after.applier.copied.At(c).All()
      && (forall d: Managed :: d != c ==> after.applier.copied.At(d) == before.applier.copied.At(d))
      && (forall d: Managed :: d != c ==> after.cfg.At(d) == before.cfg.At(d))
      && var slot := before.SlotOf(c);
         after.cfg.At(c) == if slot.isSet then Pair(slot.target, slot.deadband) else before.cfg.At(c)
  {
    hide Accesses, Stepped;
    OneMoreAccess(o, m, es, Copies(c, TargetField));
    OneMoreAccess(o, m, es + [Copies(c, TargetField)], Copies(c, DeadbandField));
    es' := es + [Copies(c, TargetField)] + [Copies(c, DeadbandField)] + [Copies(c, SetField)];
    OneMoreAccess(o, m, es + [Copies(c, TargetField)] + [Copies(c, DeadbandField)], Copies(c, SetField));
  }

  /** ApplyTo from its lock to its unlock, then a cycle. */
  lemma AppliesAndCycles(o: Options, m: Memory, es: seq<Access>) returns (es': seq<Access>)
    requires o.Valid() && Accesses(o, false, m, es).applier.Running?
    ensures var before, after := Accesses(o, false, m, es), Accesses(o, false, m, es');
      && |after.seen| == |before.seen| + 1
      && forall c: Managed ::
           var slot := before.SlotOf(c);
           slot.isSet ==> after.seen[|before.seen|].At(c) == Pair(slot.target, slot.deadband)
  {
    hide Accesses, Stepped, AllCopied;
    OneMoreAccess(o, m, es, LocksForRead);
    es' := es + [LocksForRead];
    es' := CopiesClass(o, m, es', CPU);
    es' := CopiesClass(o, m, es', PassiveGPU);
    es' := CopiesClass(o, m, es', HDD);
    es' := CopiesClass(o, m, es', SSD);
    AllClassesCopied(Accesses(o, false, m, es').applier.copied);
    OneMoreAccess(o, m, es', UnlocksRead);
    OneMoreAccess(o, m, es' + [UnlocksRead], Cycles);
    es' := es' + [UnlocksRead] + [Cycles];
  }

  lemma AllClassesCopied(copied: Quad<Done>)
    requires copied.At(CPU).All() && copied.At(PassiveGPU).All() && copied.At(HDD).All() && copied.At(SSD).All()
    ensures AllCopied(copied)
  {
  }

  /** The mutex is needed: without it, every announcement that changes both
      values of a stored pair has an interleaving in which a cycle runs on the
      new target with the old deadband. */
  lemma TearsWithoutLock(o: Options, m: Memory, c: Managed) returns (es: seq<Access>)
    requires o.Valid() && m.setter.Parked? && m.applier.Running?
    requires m.pending != [] && m.pending[0].class_ == c && !Quiet(m.pending[0].reason)
    requires var a, slot := m.pending[0], m.SlotOf(c);
      slot.isSet && slot.target != a.newTarget && slot.deadband != a.newDeadband
    ensures var after, a, slot := Accesses(o, false, m, es), m.pending[0], m.SlotOf(c);
      && |after.seen| == |m.seen| + 1
      && after.seen[|m.seen|].At(c) == Pair(a.newTarget, slot.deadband)
      && after.seen[|m.seen|].At(c) !in {Pair(a.newTarget, a.newDeadband), Pair(slot.target, slot.deadband)}
  {
    hide Stepped;
    es := [LocksForWrite];
    OneMoreAccess(o, m, [], LocksForWrite);
    assert [] + [LocksForWrite] == es && Accesses(o, false, m, []) == m;
    OneMoreAccess(o, m, es, Writes(TargetField));
    es := es + [Writes(TargetField)];
    hide Accesses;
    es := AppliesAndCycles(o, m, es);
  }
}
