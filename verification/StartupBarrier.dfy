/**
 * The invariant startup barrier of `scripts/test-invariants.ts`: the patched plugin registration,
 * the host it starts on first use, and the readiness every ordinary plugin waits for. Fibers run
 * between the steps as they please; of the plugin runtime only two things are assumed: a fiber with
 * an unmet injection stays pending, and registering a plugin does not run its callback.
 */
module StartupBarrier {
  import opened Prelude

  datatype FiberState = Pending | Loading | Active | Failed | Unloading | Disposed

  /** `gated`: registered with the readiness injection; `begun`: its callback has been entered. */
  datatype Fiber = Fiber(parent: nat, gated: bool, state: FiberState, begun: bool)

  type Callback = string

  /** How far the ready chain has come. `waiting` are the mounted fibers not yet observed active. */
  datatype Phase =
    | AwaitService
    | LoadCompanions
    | AwaitCompanions(waiting: set<nat>)
    | Ready
    | Broken

  datatype Host = Host(
    byCallback: map<Callback, nat>, owners: set<nat>, mounted: set<nat>, observed: set<nat>, service: nat, phase: Phase)

  /** Which fibers the host mounts for a test file. */
  datatype Selection = Selection(service: Callback, attachment: Option<Callback>, companions: seq<Callback>)

  datatype System = System(fibers: seq<Fiber>, host: Option<Host>, provided: bool)

  /** What a registration returns: an existing or new fiber, joined to readiness or raw. */
  datatype Registration = Registered(fiber: nat, joined: bool) | Threw

  // ---------------------------------------------------------------- the fiber tree

  /** Fiber 0 is the root and its own parent; every other fiber is younger than its parent. */
  predicate Tree(fibers: seq<Fiber>) {
    && |fibers| > 0 && fibers[0].parent == 0
    && forall i | 0 < i < |fibers| :: fibers[i].parent < i
  }

  predicate Above(fibers: seq<Fiber>, a: nat, d: nat)
    requires Tree(fibers) && d < |fibers|
    decreases d
  {
    a == d || (d > 0 && Above(fibers, a, fibers[d].parent))
  }

  /** A live owner: one whose callback is running or has completed. */
  predicate LiveOwner(fibers: seq<Fiber>, owners: set<nat>, i: nat)
    requires i < |fibers|
  {
    i in owners && (fibers[i].state == Loading || fibers[i].state == Active)
  }

  predicate HasOwner(fibers: seq<Fiber>, owners: set<nat>, d: nat)
    requires Tree(fibers) && d < |fibers|
    decreases d
  {
    LiveOwner(fibers, owners, d) || (d > 0 && HasOwner(fibers, owners, fibers[d].parent))
  }

  /** `hasBarrierOwner`: walk the parents until a live owner or the root. */
  method HasBarrierOwner(fibers: seq<Fiber>, owners: set<nat>, ctx: nat) returns (r: bool)
    requires Tree(fibers) && ctx < |fibers|
    ensures r <==> exists a | 0 <= a < |fibers| :: Above(fibers, a, ctx) && LiveOwner(fibers, owners, a)
    ensures r == HasOwner(fibers, owners, ctx)
  {
    OwnerIffAncestor(fibers, owners, ctx);
    var fiber: nat := ctx;
    while true
      invariant fiber < |fibers|
      invariant HasOwner(fibers, owners, ctx) == HasOwner(fibers, owners, fiber)
      decreases fiber
    {
      if fiber in owners && (fibers[fiber].state == Loading || fibers[fiber].state == Active) { return true; }
      var parent := fibers[fiber].parent;
      if parent == fiber { return false; }
      fiber := parent;
    }
  }

  lemma {:induction false} OwnerIffAncestor(fibers: seq<Fiber>, owners: set<nat>, d: nat)
    requires Tree(fibers) && d < |fibers|
    ensures HasOwner(fibers, owners, d) <==>
            exists a | 0 <= a < |fibers| :: Above(fibers, a, d) && LiveOwner(fibers, owners, a)
    decreases d
  {
    if d > 0 { OwnerIffAncestor(fibers, owners, fibers[d].parent); }
    if a :| 0 <= a < |fibers| && Above(fibers, a, d) && LiveOwner(fibers, owners, a) {
      if a != d { assert Above(fibers, a, fibers[d].parent); }
    }
    if LiveOwner(fibers, owners, d) { assert Above(fibers, d, d); }
  }

  // ---------------------------------------------------------------- steps

  function NewFiber(s: System, parent: nat, gated: bool): System {
    s.(fibers := s.fibers + [Fiber(parent, gated, Pending, false)])
  }

  /** `mount`: a host fiber under the root, known by its callback, allowed across the barrier. */
  function Mount(s: System, cb: Callback): System
    requires s.host.Some?
  {
    var id := |s.fibers|;
    var h := s.host.value;
    NewFiber(s, 0, false).(host :=
      Some(h.(byCallback := h.byCallback[cb := id], owners := h.owners + {id}, mounted := h.mounted + {id})))
  }

  function StartHost(s: System, sel: Selection): System {
    var h := Host(map[], {}, {}, {}, |s.fibers|, AwaitService);
    Mount(s.(host := Some(h)), sel.service)
  }

  function EnsureHost(s: System, sel: Selection): (s': System)
    ensures s'.host.Some?
  {
    if s.host.Some? then s else StartHost(s, sel)
  }

  /** The patched registration, called from fiber `ctx` with a callback that may be invalid. */
  function Plugin(s0: System, sel: Selection, ctx: nat, cb: Option<Callback>): (System, Registration)
    requires Tree(s0.fibers) && ctx < |s0.fibers|
  {
    var s := EnsureHost(s0, sel);
    var h := s.host.value;
    assert Tree(s.fibers);
    if cb.Some? && cb.value in h.byCallback then
      (s, Registered(h.byCallback[cb.value], !HasOwner(s.fibers, h.owners, ctx)))
    else if cb.None? || s.fibers[ctx].state == Disposed then (s, Threw)
    else if HasOwner(s.fibers, h.owners, ctx) then
      (NewFiber(s, ctx, false), Registered(|s.fibers|, false))
    else
      var id := |s.fibers|;
      (NewFiber(s, ctx, true).(host := Some(h.(owners := h.owners + {id}))), Registered(id, true))
  }

  function MountAll(s: System, cbs: seq<Callback>): (s': System)
    requires s.host.Some?
    ensures s'.host.Some?
    decreases |cbs|
  {
    if cbs == [] then s else MountAll(Mount(s, cbs[0]), cbs[1..])
  }

  function SetPhase(s: System, phase: Phase): System
    requires s.host.Some?
  {
    s.(host := Some(s.host.value.(phase := phase)))
  }

  function Observe(s: System, id: nat): System
    requires s.host.Some?
  {
    s.(host := Some(s.host.value.(observed := s.host.value.observed + {id})))
  }

  /** The service has settled: go on only if it is active. */
  function ServiceSettled(s: System, sel: Selection): System
    requires s.host.Some? && s.host.value.service < |s.fibers|
  {
    if s.fibers[s.host.value.service].state != Active then SetPhase(s, Broken)
    else
      var s1 := SetPhase(Observe(s, s.host.value.service), LoadCompanions);
      if sel.attachment.Some? then Mount(s1, sel.attachment.value) else s1
  }

  /** Every companion module has loaded: mount them all and wait for each. */
  function CompanionsLoaded(s: System, sel: Selection): System
    requires s.host.Some?
  {
    var s1 := MountAll(s, sel.companions);
    SetPhase(s1, AwaitCompanions(s1.host.value.mounted - {s1.host.value.service}))
  }

  function CompanionSettled(s: System, id: nat): System
    requires s.host.Some? && s.host.value.phase.AwaitCompanions? && id < |s.fibers|
  {
    if s.fibers[id].state != Active then SetPhase(s, Broken)
    else SetPhase(Observe(s, id), AwaitCompanions(s.host.value.phase.waiting - {id}))
  }

  function Provide(s: System): System
    requires s.host.Some?
  {
    SetPhase(s, Ready).(provided := true)
  }

  /**
   * What the plugin runtime may do to a fiber: any change of state, except that a callback is not
   * entered while the readiness injection is unmet, and only an entered one is loading or active.
   */
  predicate Moves(f: Fiber, f': Fiber, provided: bool) {
    && f'.parent == f.parent && f'.gated == f.gated
    && (f.begun ==> f'.begun)
    && (f'.state == Loading || f'.state == Active ==> f'.begun)
    && (f'.begun && !f.begun ==> !f.gated || provided)
  }

  ghost predicate Next(sel: Selection, s: System, s': System)
    requires Tree(s.fibers)
  {
    || (exists ctx: nat, cb | ctx < |s.fibers| :: s' == Plugin(s, sel, ctx, cb).0)
    || (exists i: nat, f | i < |s.fibers| && Moves(s.fibers[i], f, s.provided) :: s' == s.(fibers := s.fibers[i := f]))
    || (s.host.Some? && HostStep(sel, s, s'))
  }

  /** The steps of the ready chain; a failed import or mount breaks it. */
  ghost predicate HostStep(sel: Selection, s: System, s': System)
    requires s.host.Some?
  {
    match s.host.value.phase
    case AwaitService => s.host.value.service < |s.fibers| && s' == ServiceSettled(s, sel)
    case LoadCompanions => s' == CompanionsLoaded(s, sel) || s' == SetPhase(s, Broken)
    case AwaitCompanions(waiting) =>
      || (exists id | id in waiting && id < |s.fibers| :: s' == CompanionSettled(s, id))
      || (waiting == {} && s' == Provide(s))
      || s' == SetPhase(s, Broken)
    case Ready => false
    case Broken => false
  }

  const ROOT := Fiber(0, false, Active, true)

  ghost predicate Init(s: System) {
    s == System([ROOT], None, false)
  }

  ghost predicate Execution(sel: Selection, trace: seq<System>) {
    && trace != [] && Init(trace[0])
    && forall k | 0 <= k < |trace| - 1 :: Tree(trace[k].fibers) && Next(sel, trace[k], trace[k + 1])
  }

  // ---------------------------------------------------------------- the invariant

  /** Inside the host's own subtree: at or below a fiber the host mounted. */
  predicate InHost(fibers: seq<Fiber>, mounted: set<nat>, d: nat)
    requires Tree(fibers) && d < |fibers|
    decreases d
  {
    d in mounted || (d > 0 && InHost(fibers, mounted, fibers[d].parent))
  }

  function Selected(sel: Selection): set<Callback> {
    {sel.service} + (if sel.attachment.Some? then {sel.attachment.value} else {}) + (set c | c in sel.companions)
  }

  /** The host has a fiber for each of these callbacks, and has seen it active. */
  ghost predicate ObservedAll(h: Host, cbs: set<Callback>) {
    forall c | c in cbs :: c in h.byCallback && h.byCallback[c] in h.observed
  }

  ghost predicate PhaseInv(sel: Selection, h: Host) {
    match h.phase
    case AwaitService => h.mounted == {h.service} && h.byCallback.Keys == {sel.service}
    case LoadCompanions =>
      && h.service in h.observed && sel.service in h.byCallback
      && (sel.attachment.Some? ==> sel.attachment.value in h.byCallback)
    case AwaitCompanions(waiting) =>
      h.mounted <= h.observed + waiting && Selected(sel) <= h.byCallback.Keys
    case Ready => h.mounted <= h.observed && Selected(sel) <= h.byCallback.Keys
    case Broken => true
  }

  ghost predicate FiberInv(s: System, mounted: set<nat>, i: nat)
    requires Tree(s.fibers) && 0 < i < |s.fibers|
  {
    var f := s.fibers[i];
    && (f.gated || s.provided || InHost(s.fibers, mounted, i))
    && (f.gated && f.begun ==> s.provided)
    && (f.state == Loading || f.state == Active ==> f.begun)
  }

  /** The owners are the fibers the host mounted and those registered behind the barrier. */
  ghost predicate OwnersAre(fibers: seq<Fiber>, owners: set<nat>, mounted: set<nat>) {
    && (forall i | i in owners :: 0 < i < |fibers| && (i in mounted || fibers[i].gated))
    && (forall i | i in mounted :: 0 < i < |fibers| && i in owners)
    && (forall i | 0 < i < |fibers| && fibers[i].gated :: i in owners)
  }

  /** What the host mounts hangs under the root and waits for nothing. */
  ghost predicate UnderRoot(fibers: seq<Fiber>, mounted: set<nat>) {
    forall i | i in mounted && i < |fibers| :: fibers[i].parent == 0 && !fibers[i].gated
  }

  ghost predicate Inv(sel: Selection, s: System) {
    && Tree(s.fibers)
    && (s.host.None? ==> |s.fibers| == 1 && !s.provided)
    && (s.host.Some? ==>
          var h := s.host.value;
          && h.service in h.mounted
          && OwnersAre(s.fibers, h.owners, h.mounted)
          && (forall c | c in h.byCallback :: h.byCallback[c] in h.mounted)
          && UnderRoot(s.fibers, h.mounted)
          && PhaseInv(sel, h)
          && (s.provided <==> h.phase.Ready?)
          && forall i | 0 < i < |s.fibers| :: FiberInv(s, h.mounted, i))
  }

  /** The same tree, possibly with more fibers and more mounts. */
  ghost predicate Grown(fibers: seq<Fiber>, fibers': seq<Fiber>) {
    |fibers| <= |fibers'| && forall i | 0 <= i < |fibers| :: fibers'[i].parent == fibers[i].parent
  }

  lemma {:induction false} StillInHost(
    fibers: seq<Fiber>, fibers': seq<Fiber>, mounted: set<nat>, mounted': set<nat>, d: nat)
    requires Tree(fibers) && Tree(fibers') && Grown(fibers, fibers') && mounted <= mounted'
    requires d < |fibers| && InHost(fibers, mounted, d)
    ensures InHost(fibers', mounted', d)
    decreases d
  {
    if d !in mounted { StillInHost(fibers, fibers', mounted, mounted', fibers[d].parent); }
  }

  /** A live owner above `d` is the host's own, or a gated fiber that has crossed the barrier. */
  lemma {:induction false} OwnerMeans(sel: Selection, s: System, d: nat)
    requires Inv(sel, s) && s.host.Some? && d < |s.fibers|
    requires HasOwner(s.fibers, s.host.value.owners, d)
    ensures s.provided || InHost(s.fibers, s.host.value.mounted, d)
    decreases d
  {
    var h := s.host.value;
    if LiveOwner(s.fibers, h.owners, d) {
      assert FiberInv(s, h.mounted, d);
    } else {
      OwnerMeans(sel, s, s.fibers[d].parent);
    }
  }

  lemma Others(s: System, s': System, mounted: set<nat>, mounted': set<nat>, changed: int)
    requires Tree(s.fibers) && Tree(s'.fibers) && Grown(s.fibers, s'.fibers) && mounted <= mounted'
    requires s.provided ==> s'.provided
    requires forall i | 0 <= i < |s.fibers| && i != changed :: s'.fibers[i] == s.fibers[i]
    requires forall i | 0 < i < |s.fibers| :: FiberInv(s, mounted, i)
    ensures forall i | 0 < i < |s.fibers| && i != changed :: FiberInv(s', mounted', i)
  {
    forall i | 0 < i < |s.fibers| && i != changed ensures FiberInv(s', mounted', i) {
      assert FiberInv(s, mounted, i);
      if InHost(s.fibers, mounted, i) { StillInHost(s.fibers, s'.fibers, mounted, mounted', i); }
    }
  }

  lemma InvMount(sel: Selection, s: System, cb: Callback)
    requires Inv(sel, s) && s.host.Some? && (s.host.value.phase.LoadCompanions?)
    ensures Inv(sel, Mount(s, cb)) && Mount(s, cb).host.value.phase == s.host.value.phase
    ensures Mount(s, cb).host.value.byCallback.Keys == s.host.value.byCallback.Keys + {cb}
    ensures Mount(s, cb).host.value.service == s.host.value.service
    ensures Mount(s, cb).host.value.observed == s.host.value.observed
  {
    var s' := Mount(s, cb);
    assert Grown(s.fibers, s'.fibers) && Tree(s'.fibers);
    Others(s, s', s.host.value.mounted, s'.host.value.mounted, -1);
    assert FiberInv(s', s'.host.value.mounted, |s.fibers|);
  }

  lemma {:induction false} InvMountAll(sel: Selection, s: System, cbs: seq<Callback>)
    requires Inv(sel, s) && s.host.Some? && s.host.value.phase.LoadCompanions?
    ensures var s' := MountAll(s, cbs);
            && Inv(sel, s') && s'.host.value.phase.LoadCompanions?
            && s'.host.value.byCallback.Keys == s.host.value.byCallback.Keys + (set c | c in cbs)
            && s'.host.value.observed == s.host.value.observed && s'.host.value.service == s.host.value.service
    decreases |cbs|
  {
    if cbs != [] {
      hide Inv, Mount;
      InvMount(sel, s, cbs[0]);
      InvMountAll(sel, Mount(s, cbs[0]), cbs[1..]);
      assert (set c | c in cbs) == {cbs[0]} + (set c | c in cbs[1..]);
    }
  }

  lemma InvEnsureHost(sel: Selection, s: System)
    requires Inv(sel, s)
    ensures Inv(sel, EnsureHost(s, sel)) && |s.fibers| <= |EnsureHost(s, sel).fibers|
    ensures EnsureHost(s, sel).provided == s.provided
  {
    var s' := EnsureHost(s, sel);
    if s.host.None? {
      assert s'.fibers == [s.fibers[0]] + [Fiber(0, false, Pending, false)];
      assert Tree(s'.fibers);
      assert s'.host.value.byCallback.Keys == {sel.service};
      assert InHost(s'.fibers, s'.host.value.mounted, 1);
      assert FiberInv(s', s'.host.value.mounted, 1);
    }
  }

  lemma InvPlugin(sel: Selection, s0: System, ctx: nat, cb: Option<Callback>)
    requires Inv(sel, s0) && ctx < |s0.fibers|
    ensures Inv(sel, Plugin(s0, sel, ctx, cb).0)
  {
    InvEnsureHost(sel, s0);
    var s := EnsureHost(s0, sel);
    var h := s.host.value;
    var s' := Plugin(s0, sel, ctx, cb).0;
    if s' != s {
      var id := |s.fibers|;
      var gated := !HasOwner(s.fibers, h.owners, ctx);
      assert s'.fibers == s.fibers + [Fiber(ctx, gated, Pending, false)];
      assert Grown(s.fibers, s'.fibers) && Tree(s'.fibers);
      Others(s, s', h.mounted, h.mounted, -1);
      if !gated {
        OwnerMeans(sel, s, ctx);
        if !s.provided { StillInHost(s.fibers, s'.fibers, h.mounted, h.mounted, ctx); }
      }
      assert FiberInv(s', h.mounted, id);
      hide FiberInv, PhaseInv, InHost, HasOwner;
    }
  }

  lemma InvMove(sel: Selection, s: System, i: nat, f: Fiber)
    requires Inv(sel, s) && i < |s.fibers| && Moves(s.fibers[i], f, s.provided)
    ensures Inv(sel, s.(fibers := s.fibers[i := f]))
  {
    var s' := s.(fibers := s.fibers[i := f]);
    assert Grown(s.fibers, s'.fibers) && Tree(s'.fibers);
    if s.host.Some? {
      var h := s.host.value;
      Others(s, s', h.mounted, h.mounted, i);
      if i > 0 {
        assert FiberInv(s, h.mounted, i);
        if InHost(s.fibers, h.mounted, i) { StillInHost(s.fibers, s'.fibers, h.mounted, h.mounted, i); }
        assert FiberInv(s', h.mounted, i);
      }
    }
  }

  lemma InvHostStep(sel: Selection, s: System, s': System)
    requires Inv(sel, s) && s.host.Some? && HostStep(sel, s, s')
    ensures Inv(sel, s')
  {
    hide Inv;
    match s.host.value.phase
    case AwaitService => InvService(sel, s, s');
    case LoadCompanions =>
      if s' == CompanionsLoaded(s, sel) { InvLoaded(sel, s); } else { InvBreak(sel, s); }
    case AwaitCompanions(waiting) => InvAwait(sel, s, s');
    case Ready =>
    case Broken =>
  }

  lemma InvBreak(sel: Selection, s: System)
    requires Inv(sel, s) && s.host.Some? && !s.host.value.phase.Ready?
    ensures Inv(sel, SetPhase(s, Broken))
  {
    var h := s.host.value;
    Others(s, SetPhase(s, Broken), h.mounted, h.mounted, -1);
  }

  lemma InvService(sel: Selection, s: System, s': System)
    requires Inv(sel, s) && s.host.Some? && s.host.value.phase.AwaitService? && HostStep(sel, s, s')
    ensures Inv(sel, s')
  {
    var h := s.host.value;
    if s.fibers[h.service].state != Active {
      InvBreak(sel, s);
    } else {
      var s1 := SetPhase(Observe(s, h.service), LoadCompanions);
      if sel.attachment.None? {
        Others(s, s1, h.mounted, h.mounted, -1);
      } else {
        MountAttachment(sel, s, s1);
      }
    }
  }

  lemma InvLoaded(sel: Selection, s: System)
    requires Inv(sel, s) && s.host.Some? && s.host.value.phase.LoadCompanions?
    ensures Inv(sel, CompanionsLoaded(s, sel))
  {
    InvMountAll(sel, s, sel.companions);
    var s1 := MountAll(s, sel.companions);
    Others(s1, CompanionsLoaded(s, sel), s1.host.value.mounted, s1.host.value.mounted, -1);
  }

  lemma InvAwait(sel: Selection, s: System, s': System)
    requires Inv(sel, s) && s.host.Some? && s.host.value.phase.AwaitCompanions? && HostStep(sel, s, s')
    ensures Inv(sel, s')
  {
    var h := s.host.value;
    Others(s, s', h.mounted, h.mounted, -1);
  }

  lemma MountAttachment(sel: Selection, s: System, s1: System)
    requires Inv(sel, s) && s.host.Some? && s.host.value.phase.AwaitService? && sel.attachment.Some?
    requires s1 == SetPhase(Observe(s, s.host.value.service), LoadCompanions)
    ensures Inv(sel, Mount(s1, sel.attachment.value))
  {
    var none := sel.(attachment := None);
    Others(s, s1, s.host.value.mounted, s1.host.value.mounted, -1);
    assert Inv(none, s1);
    InvMount(none, s1, sel.attachment.value);
  }

  lemma InvNext(sel: Selection, s: System, s': System)
    requires Inv(sel, s) && Next(sel, s, s')
    ensures Inv(sel, s')
  {
    if ctx: nat, cb :| ctx < |s.fibers| && s' == Plugin(s, sel, ctx, cb).0 {
      InvPlugin(sel, s, ctx, cb);
    } else if i: nat, f :| i < |s.fibers| && Moves(s.fibers[i], f, s.provided) && s' == s.(fibers := s.fibers[i := f]) {
      InvMove(sel, s, i, f);
    } else {
      InvHostStep(sel, s, s');
    }
  }

  lemma {:induction false} InvAlways(sel: Selection, trace: seq<System>, k: nat)
    requires Execution(sel, trace) && k < |trace|
    ensures Inv(sel, trace[k])
    decreases k
  {
    if k > 0 {
      InvAlways(sel, trace, k - 1);
      InvNext(sel, trace[k - 1], trace[k - 1 + 1]);
    }
  }

  // ---------------------------------------------------------------- what the barrier promises

  /**
   * In every run, a fiber outside the host's own subtree has entered its callback only if the
   * service and every selected companion have been observed active before.
   */
  lemma NobodyStartsEarly(sel: Selection, trace: seq<System>, k: nat, i: nat)
    requires Execution(sel, trace) && k < |trace| && 0 < i < |trace[k].fibers|
    requires trace[k].fibers[i].begun
    ensures Tree(trace[k].fibers) && trace[k].host.Some?
    ensures InHost(trace[k].fibers, trace[k].host.value.mounted, i) || AllWereActive(trace, k, Selected(sel))
  {
    InvAlways(sel, trace, k);
    var h := trace[k].host.value;
    assert FiberInv(trace[k], h.mounted, i);
    if !InHost(trace[k].fibers, h.mounted, i) {
      assert ObservedAll(h, Selected(sel));
      forall c | c in Selected(sel) ensures c in h.byCallback && WasActive(trace, k, h.byCallback[c]) {
        ObservedWasActive(sel, trace, k, h.byCallback[c]);
      }
    }
  }

  /** The fiber was active in some state up to this one. */
  ghost predicate WasActive(trace: seq<System>, k: nat, i: nat) {
    exists j | 0 <= j <= k < |trace| :: i < |trace[j].fibers| && trace[j].fibers[i].state == Active
  }

  /** A step of the system observes a fiber only in a state in which it is active. */
  lemma ObservesActive(sel: Selection, s: System, s': System, i: nat)
    requires Tree(s.fibers) && Next(sel, s, s') && s'.host.Some? && i in s'.host.value.observed
    ensures (s.host.Some? && i in s.host.value.observed) || (i < |s.fibers| && s.fibers[i].state == Active)
  {
    if s.host.Some? && HostStep(sel, s, s') {
      match s.host.value.phase
      case AwaitService => MountsObserveNothing(SetPhase(Observe(s, s.host.value.service), LoadCompanions), []);
      case LoadCompanions => MountsObserveNothing(s, sel.companions);
      case AwaitCompanions(_) =>
      case Ready =>
      case Broken =>
    }
  }

  lemma {:induction false} MountsObserveNothing(s: System, cbs: seq<Callback>)
    requires s.host.Some?
    ensures MountAll(s, cbs).host.value.observed == s.host.value.observed
    decreases |cbs|
  {
    if cbs != [] { MountsObserveNothing(Mount(s, cbs[0]), cbs[1..]); }
  }

  /** Whatever the ready chain counts as observed really was active. */
  lemma {:induction false} ObservedWasActive(sel: Selection, trace: seq<System>, k: nat, i: nat)
    requires Execution(sel, trace) && k < |trace| && trace[k].host.Some? && i in trace[k].host.value.observed
    ensures WasActive(trace, k, i)
    decreases k
  {
    assert k > 0;
    assert Tree(trace[k - 1].fibers) && Next(sel, trace[k - 1], trace[k - 1 + 1]);
    ObservesActive(sel, trace[k - 1], trace[k], i);
    if trace[k - 1].host.Some? && i in trace[k - 1].host.value.observed {
      ObservedWasActive(sel, trace, k - 1, i);
      var j :| 0 <= j <= k - 1 && i < |trace[j].fibers| && trace[j].fibers[i].state == Active;
    }
  }

  /** The host's fibers for these callbacks have all been active. */
  ghost predicate AllWereActive(trace: seq<System>, k: nat, cbs: set<Callback>)
    requires k < |trace| && trace[k].host.Some?
  {
    forall c | c in cbs ::
      c in trace[k].host.value.byCallback && WasActive(trace, k, trace[k].host.value.byCallback[c])
  }

  lemma {:induction false} BrokenStays(sel: Selection, trace: seq<System>, j: nat, k: nat)
    requires Execution(sel, trace) && j <= k < |trace|
    requires trace[j].host.Some? && trace[j].host.value.phase.Broken?
    ensures trace[k].host.Some? && trace[k].host.value.phase.Broken?
    decreases k
  {
    if j < k {
      BrokenStays(sel, trace, j, k - 1);
      assert Next(sel, trace[k - 1], trace[k - 1 + 1]);
    }
  }

  /** Once the service, an import or a companion has failed, no gated plugin ever begins. */
  lemma FailureHoldsTheGate(sel: Selection, trace: seq<System>, j: nat, k: nat, i: nat)
    requires Execution(sel, trace) && j <= k < |trace| && 0 < i < |trace[k].fibers|
    requires trace[j].host.Some? && trace[j].host.value.phase.Broken?
    requires trace[k].fibers[i].gated
    ensures !trace[k].fibers[i].begun
  {
    BrokenStays(sel, trace, j, k);
    InvAlways(sel, trace, k);
    assert FiberInv(trace[k], trace[k].host.value.mounted, i);
  }

  /** A fiber in whose subtree nothing waits: one the host mounted, or one that waited itself. */
  predicate Bypasses(s: System, a: nat)
    requires s.host.Some? && a < |s.fibers|
  {
    (a in s.host.value.mounted || s.fibers[a].gated) && (s.fibers[a].state == Loading || s.fibers[a].state == Active)
  }

  /**
   * A registration below a host fiber that is starting or running never waits for the readiness
   * that fiber is responsible for, nor does one below a plugin that has crossed the barrier: it is
   * neither gated nor joined.
   */
  lemma HostNeverWaitsForItself(sel: Selection, s: System, a: nat, ctx: nat, cb: Option<Callback>)
    requires Inv(sel, s) && s.host.Some? && 0 < a < |s.fibers| && ctx < |s.fibers|
    requires Bypasses(s, a) && Above(s.fibers, a, ctx)
    ensures var (s', r) := Plugin(s, sel, ctx, cb);
            r.Registered? ==>
              !r.joined && (r.fiber == |s.fibers| ==> |s'.fibers| > r.fiber && !s'.fibers[r.fiber].gated)
  {
    OwnerIffAncestor(s.fibers, s.host.value.owners, ctx);
    assert LiveOwner(s.fibers, s.host.value.owners, a);
  }

  ghost predicate OwnedAbove(fibers: seq<Fiber>, owners: set<nat>, ctx: nat)
    requires Tree(fibers) && ctx < |fibers|
  {
    exists a | 0 <= a < |fibers| :: Above(fibers, a, ctx) && LiveOwner(fibers, owners, a)
  }

  /**
   * What a registration comes back with, once the host is there. It throws only for an invalid callback
   * or a disposed context. It is joined to readiness exactly if no ancestor of its context is a live
   * owner. A known callback gives the host's own fiber and registers nothing; any other a new child
   * of the context, gated and made an owner exactly if it is joined.
   */
  lemma RegistrationIs(sel: Selection, s0: System, ctx: nat, cb: Option<Callback>)
    requires Inv(sel, s0) && ctx < |s0.fibers|
    ensures var s := EnsureHost(s0, sel);
            var h := s.host.value;
            var (s', r) := Plugin(s0, sel, ctx, cb);
            var known := cb.Some? && cb.value in h.byCallback;
            && Tree(s.fibers) && ctx < |s.fibers| && s.fibers[ctx] == s0.fibers[ctx]
            && (r.Threw? <==> !known && (cb.None? || s.fibers[ctx].state == Disposed))
            && (r.Threw? || known ==> s' == s)
            && (r.Registered? ==> (r.joined <==> !OwnedAbove(s.fibers, h.owners, ctx)))
            && (r.Registered? && known ==> r.fiber == h.byCallback[cb.value])
            && (r.Registered? && !known ==>
                  && r.fiber == |s.fibers| && s'.fibers == s.fibers + [Fiber(ctx, r.joined, Pending, false)]
                  && s'.provided == s.provided
                  && s'.host == Some(h.(owners := if r.joined then h.owners + {r.fiber} else h.owners)))
  {
    var s := EnsureHost(s0, sel);
    InvEnsureHost(sel, s0);
    OwnerIffAncestor(s.fibers, s.host.value.owners, ctx);
  }

  /** The first registration finds the host's service fiber: it is the invariant service under the root. */
  lemma HostIs(sel: Selection, s0: System)
    requires Inv(sel, s0) && s0.host.None?
    ensures var s := EnsureHost(s0, sel);
            var h := s.host.value;
            && s.fibers == s0.fibers + [Fiber(0, false, Pending, false)] && s.provided == s0.provided
            && h.byCallback == map[sel.service := |s0.fibers|] && h.owners == {|s0.fibers|}
            && h.service == |s0.fibers| && h.phase == AwaitService
  {
  }

  // ---------------------------------------------------------------- the patched method as it runs

  class PatchedRegistry {
    const sel: Selection
    var fibers: seq<Fiber>
    var host: Option<Host>
    var provided: bool

    constructor (sel: Selection)
      ensures this.sel == sel && Init(State())
    {
      this.sel := sel;
      fibers, host, provided := [ROOT], None, false;
    }

    function State(): System
      reads this
    {
      System(fibers, host, provided)
    }

    /** `originalPlugin`: a pending fiber under `parent`. */
    method OriginalPlugin(parent: nat, gated: bool) returns (id: nat)
      modifies this`fibers
      ensures id == old(|fibers|) && State() == NewFiber(old(State()), parent, gated)
    {
      id := |fibers|;
      fibers := fibers + [Fiber(parent, gated, Pending, false)];
    }

    method StartInvariantHost()
      requires host.None?
      modifies this
      ensures State() == StartHost(old(State()), sel)
    {
      var id := OriginalPlugin(0, false);
      host := Some(Host(map[sel.service := id], {id}, {id}, {}, id, AwaitService));
      assert {} + {id} == {id} && map[][sel.service := id] == map[sel.service := id];
    }

    /** The patched `RegistryService.prototype.plugin`. */
    method Register(ctx: nat, cb: Option<Callback>) returns (r: Registration)
      requires Tree(fibers) && ctx < |fibers|
      modifies this
      ensures (State(), r) == Plugin(old(State()), sel, ctx, cb)
    {
      if host.None? { StartInvariantHost(); }
      var h := host.value;
      var owned := HasBarrierOwner(fibers, h.owners, ctx);
      if cb.Some? && cb.value in h.byCallback {
        return Registered(h.byCallback[cb.value], !owned);
      }
      if cb.None? || fibers[ctx].state == Disposed { return Threw; }
      var id := OriginalPlugin(ctx, !owned);
      if !owned { host := Some(h.(owners := h.owners + {id})); }
      r := Registered(id, !owned);
    }
  }
}
