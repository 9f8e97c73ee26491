/**
 * The startup barrier of `scripts/test-invariants.ts` does open: until it is ready or broken the
 * ready chain has a step to take, and with every mounted fiber active it takes it to the end.
 */
module BarrierProgress {
  import opened Prelude
  import opened StartupBarrier

  /** What the host mounts is not gated by its own readiness, and it waits only for what it mounted. */
  ghost predicate Sound(s: System) {
    s.host.Some? ==>
      var h := s.host.value;
      && h.service in h.mounted
      && (forall i | i in h.mounted :: i < |s.fibers| && !s.fibers[i].gated)
      && (h.phase.AwaitCompanions? ==> h.phase.waiting <= h.mounted)
  }

  lemma SoundMount(s: System, cb: Callback)
    requires s.host.Some? && Sound(s)
    ensures Sound(Mount(s, cb)) && Mount(s, cb).host.value.phase == s.host.value.phase
    ensures Mount(s, cb).host.value.service == s.host.value.service
  {
  }

  lemma {:induction false} SoundMountAll(s: System, cbs: seq<Callback>)
    requires s.host.Some? && Sound(s)
    ensures Sound(MountAll(s, cbs)) && MountAll(s, cbs).host.value.phase == s.host.value.phase
    ensures MountAll(s, cbs).host.value.service == s.host.value.service
    decreases |cbs|
  {
    if cbs != [] {
      hide Mount, Sound;
      SoundMount(s, cbs[0]);
      SoundMountAll(Mount(s, cbs[0]), cbs[1..]);
    }
  }

  lemma SoundPlugin(sel: Selection, s: System, ctx: nat, cb: Option<Callback>)
    requires Tree(s.fibers) && ctx < |s.fibers| && Sound(s)
    ensures Sound(Plugin(s, sel, ctx, cb).0)
  {
    if s.host.None? {
      assert EnsureHost(s, sel).fibers == s.fibers + [Fiber(0, false, Pending, false)];
    }
    assert Sound(EnsureHost(s, sel));
  }

  lemma SoundHostStep(sel: Selection, s: System, s': System)
    requires Sound(s) && s.host.Some? && HostStep(sel, s, s')
    ensures Sound(s')
  {
    match s.host.value.phase
    case AwaitService =>
    case LoadCompanions =>
      if s' == CompanionsLoaded(s, sel) { SoundMountAll(s, sel.companions); }
    case AwaitCompanions(_) =>
    case Ready =>
    case Broken =>
  }

  lemma SoundNext(sel: Selection, s: System, s': System)
    requires Tree(s.fibers) && Sound(s) && Next(sel, s, s')
    ensures Sound(s')
  {
    if ctx: nat, cb :| ctx < |s.fibers| && s' == Plugin(s, sel, ctx, cb).0 {
      SoundPlugin(sel, s, ctx, cb);
    } else if i: nat, f :| i < |s.fibers| && Moves(s.fibers[i], f, s.provided) && s' == s.(fibers := s.fibers[i := f]) {
    } else {
      SoundHostStep(sel, s, s');
    }
  }

  lemma {:induction false} SoundAlways(sel: Selection, trace: seq<System>, k: nat)
    requires Execution(sel, trace) && k < |trace|
    ensures Sound(trace[k])
    decreases k
  {
    if k > 0 {
      SoundAlways(sel, trace, k - 1);
      SoundNext(sel, trace[k - 1], trace[k - 1 + 1]);
    }
  }

  /** Until the barrier is ready or broken, the ready chain always has a step. */
  lemma ChainNeverStuck(sel: Selection, trace: seq<System>) returns (s': System)
    requires Execution(sel, trace)
    requires var s := trace[|trace| - 1]; s.host.Some? && !s.host.value.phase.Ready? && !s.host.value.phase.Broken?
    ensures HostStep(sel, trace[|trace| - 1], s')
  {
    var s := trace[|trace| - 1];
    SoundAlways(sel, trace, |trace| - 1);
    match s.host.value.phase
    case AwaitService => s' := ServiceSettled(s, sel);
    case LoadCompanions => s' := CompanionsLoaded(s, sel);
    case AwaitCompanions(waiting) =>
      if waiting == {} {
        s' := Provide(s);
      } else {
        var id :| id in waiting;
        s' := CompanionSettled(s, id);
      }
  }

  function Last(trace: seq<System>): System
    requires trace != []
  {
    trace[|trace| - 1]
  }

  lemma Extend(sel: Selection, trace: seq<System>, s': System)
    requires Execution(sel, trace) && Tree(Last(trace).fibers) && Next(sel, Last(trace), s')
    ensures Execution(sel, trace + [s']) && Last(trace + [s']) == s'
  {
    var longer := trace + [s'];
    forall k | 0 <= k < |longer| - 1 ensures Tree(longer[k].fibers) && Next(sel, longer[k], longer[k + 1]) {
      if k < |trace| - 1 { assert Tree(trace[k].fibers) && Next(sel, trace[k], trace[k + 1]); }
    }
  }

  lemma ChainStep(sel: Selection, trace: seq<System>, s': System)
    requires Execution(sel, trace) && Last(trace).host.Some? && HostStep(sel, Last(trace), s')
    ensures Execution(sel, trace + [s']) && Last(trace + [s']) == s'
  {
    hide HostStep;
    InvAlways(sel, trace, |trace| - 1);
    assert Tree(Last(trace).fibers);
    assert Next(sel, Last(trace), s');
    Extend(sel, trace, s');
  }

  lemma ProvideIs(sel: Selection, s: System)
    requires s.host.Some? && s.host.value.phase == AwaitCompanions({})
    ensures HostStep(sel, s, Provide(s))
  {
  }

  lemma SettledIs(sel: Selection, s: System, id: nat)
    requires s.host.Some? && s.host.value.phase.AwaitCompanions? && id in s.host.value.phase.waiting
    requires id < |s.fibers| && s.fibers[id].state == Active
    ensures var s' := CompanionSettled(s, id);
            && HostStep(sel, s, s') && s'.fibers == s.fibers && s'.host.Some?
            && s'.host.value.phase == AwaitCompanions(s.host.value.phase.waiting - {id})
  {
  }

  /** With everything waited for active, each step of the chain brings it closer and none can break it. */
  lemma {:induction false} ActiveOpens(
    sel: Selection, trace: seq<System>, waiting: set<nat>) returns (longer: seq<System>)
    requires trace != [] && Execution(sel, trace)
    requires Last(trace).host.Some? && Last(trace).host.value.phase == AwaitCompanions(waiting)
    requires forall i | i in waiting :: i < |Last(trace).fibers| && Last(trace).fibers[i].state == Active
    ensures |longer| == |trace| + |waiting| + 1 && trace <= longer && Execution(sel, longer)
    ensures Last(longer).provided && Last(longer).fibers == Last(trace).fibers
    decreases |waiting|
  {
    hide Execution, HostStep;
    var s := Last(trace);
    if waiting == {} {
      ProvideIs(sel, s);
      ChainStep(sel, trace, Provide(s));
      longer := trace + [Provide(s)];
    } else {
      var id :| id in waiting;
      var s' := CompanionSettled(s, id);
      SettledIs(sel, s, id);
      ChainStep(sel, trace, s');
      longer := ActiveOpens(sel, trace + [s'], waiting - {id});
    }
  }

  /** The plugin runtime may bring a mounted fiber to life. */
  lemma Activate(sel: Selection, trace: seq<System>, id: nat) returns (longer: seq<System>)
    requires Execution(sel, trace) && Last(trace).host.Some? && id in Last(trace).host.value.mounted
    ensures Execution(sel, longer) && trace <= longer
    ensures Last(longer).host == Last(trace).host && |Last(longer).fibers| == |Last(trace).fibers|
    ensures id < |Last(longer).fibers| && Last(longer).fibers[id].state == Active
    ensures forall i: nat | i < |Last(trace).fibers| && i != id :: Last(longer).fibers[i] == Last(trace).fibers[i]
  {
    var s := Last(trace);
    SoundAlways(sel, trace, |trace| - 1);
    InvAlways(sel, trace, |trace| - 1);
    var f := s.fibers[id].(state := Active, begun := true);
    assert Moves(s.fibers[id], f, s.provided);
    var s' := s.(fibers := s.fibers[id := f]);
    assert Next(sel, s, s');
    Extend(sel, trace, s');
    longer := trace + [s'];
  }

  lemma {:induction false} ActivateAll(sel: Selection, trace: seq<System>, ids: set<nat>) returns (longer: seq<System>)
    requires Execution(sel, trace) && Last(trace).host.Some? && ids <= Last(trace).host.value.mounted
    ensures Execution(sel, longer) && trace <= longer && Last(longer).host == Last(trace).host
    ensures |Last(longer).fibers| == |Last(trace).fibers|
    ensures forall i: nat | i in ids :: i < |Last(longer).fibers| && Last(longer).fibers[i].state == Active
    decreases ids
  {
    if ids == {} {
      longer := trace;
    } else {
      var id :| id in ids;
      var mid := ActivateAll(sel, trace, ids - {id});
      longer := Activate(sel, mid, id);
      forall i: nat | i in ids ensures i < |Last(longer).fibers| && Last(longer).fibers[i].state == Active {
        if i != id { assert i in ids - {id}; }
      }
    }
  }

  /** As long as nothing has failed the barrier can still open: every reachable such state has a run that opens it. */
  lemma CanStillOpen(sel: Selection, trace: seq<System>) returns (longer: seq<System>)
    requires Execution(sel, trace) && Last(trace).host.Some? && !Last(trace).host.value.phase.Broken?
    ensures Execution(sel, longer) && trace <= longer && Last(longer).provided
  {
    hide HostStep, Next, Sound, Inv;
    SoundIs(sel, trace);
    longer := trace;
    var h := Last(trace).host.value;
    if h.phase.AwaitService? {
      longer := Activate(sel, longer, h.service);
      var s := Last(longer);
      StepsOf(sel, s);
      ChainStep(sel, longer, ServiceSettled(s, sel));
      longer := longer + [ServiceSettled(s, sel)];
    }
    if Last(longer).host.value.phase.LoadCompanions? {
      var s := Last(longer);
      StepsOf(sel, s);
      ChainStep(sel, longer, CompanionsLoaded(s, sel));
      longer := longer + [CompanionsLoaded(s, sel)];
    }
    SoundIs(sel, longer);
    if Last(longer).host.value.phase.AwaitCompanions? {
      var waiting := Last(longer).host.value.phase.waiting;
      longer := ActivateAll(sel, longer, waiting);
      longer := ActiveOpens(sel, longer, waiting);
    }
  }

  lemma SoundIs(sel: Selection, trace: seq<System>)
    requires Execution(sel, trace) && trace != [] && Last(trace).host.Some?
    ensures var h := Last(trace).host.value;
            && h.service in h.mounted && h.service < |Last(trace).fibers|
            && (h.phase.AwaitCompanions? ==> h.phase.waiting <= h.mounted)
            && (h.phase.Ready? ==> Last(trace).provided)
  {
    SoundAlways(sel, trace, |trace| - 1);
    InvAlways(sel, trace, |trace| - 1);
  }

  /** Where the chain goes from its first two phases when the service is active. */
  lemma StepsOf(sel: Selection, s: System)
    requires s.host.Some? && s.host.value.service < |s.fibers|
    ensures s.host.value.phase.AwaitService? && s.fibers[s.host.value.service].state == Active ==>
              var s' := ServiceSettled(s, sel);
              HostStep(sel, s, s') && s'.host.Some? && s'.host.value.phase.LoadCompanions?
              && s'.host.value.service == s.host.value.service && |s.fibers| <= |s'.fibers|
    ensures s.host.value.phase.LoadCompanions? ==>
              var s' := CompanionsLoaded(s, sel);
              HostStep(sel, s, s') && s'.host.Some? && s'.host.value.phase.AwaitCompanions?
  {
  }
}
