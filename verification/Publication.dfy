/**
 * Resumable publication of a release bundle (`scripts/publish-npm-baseline.ts`, RegistryPublication).
 * The registry keeps immutable versions and movable tags; a run is a sequence of remote calls, and
 * any number of runs of any number of bundles may interleave, fail or stop between two calls.
 */
module Publication {
  import opened Prelude

  // ---------------------------------------------------------------- registry and bundles

  datatype Package = Package(name: string, integrity: string)

  datatype Bundle = Bundle(version: string, distTag: string, packages: seq<Package>)

  datatype Registry = Registry(versions: map<(string, string), string>, tags: map<(string, string), string>)

  const ENTRY := "@deepseek-ai/dsh"
  const LATEST := "latest"

  /** The dist-tag a packed bundle is given. */
  function PackedDistTag(baseVersion: string): (tag: string)
    ensures tag != LATEST && tag != "latest" && |tag| == 4 + |baseVersion|
    ensures tag[..4] == "dev-" && tag[4..] == baseVersion
  {
    var tag := "dev-" + baseVersion;
    assert tag[0] != LATEST[0];
    tag
  }

  predicate HasPackage(reg: Registry, name: string) {
    exists k | k in reg.versions :: k.0 == name
  }

  function View(reg: Registry, name: string, version: string): Option<string> {
    if (name, version) in reg.versions then Some(reg.versions[(name, version)]) else None
  }

  function TagOf(reg: Registry, name: string, tag: string): Option<string> {
    if (name, tag) in reg.tags then Some(reg.tags[(name, tag)]) else None
  }

  function AddTag(reg: Registry, name: string, tag: string, version: string): Registry {
    reg.(tags := reg.tags[(name, tag) := version])
  }

  /** A version is accepted once; publishing it also moves the tag it is published under. */
  function NpmPublish(reg: Registry, b: Bundle, pkg: Package): Option<Registry> {
    if (pkg.name, b.version) in reg.versions then None
    else
      var versions := reg.versions[(pkg.name, b.version) := pkg.integrity];
      Some(AddTag(reg.(versions := versions), pkg.name, b.distTag, b.version))
  }

  predicate WellFormed(b: Bundle) {
    && b.packages != []
    && forall i, j | 0 <= i < j < |b.packages| :: b.packages[i].name != b.packages[j].name
  }

  predicate Recorded(reg: Registry, b: Bundle, pkg: Package) {
    View(reg, pkg.name, b.version) == Some(pkg.integrity)
  }

  /** Every package of the bundle is in the registry at its version with its recorded integrity. */
  predicate Complete(reg: Registry, b: Bundle) {
    forall pkg | pkg in b.packages :: Recorded(reg, b, pkg)
  }

  // ---------------------------------------------------------------- one run, call by call

  datatype Pc =
    | ViewVersion(i: nat)
    | PublishVersion(i: nat)
    | ListTag(i: nat)
    | MoveTag(i: nat)
    | ListLatest
    | MoveLatest
    | CheckVersion(i: nat)
    | CheckTag(i: nat)
    | CheckLatest
    | Finished
    | Stopped

  function Loop(b: Bundle, i: nat): Pc {
    if i < |b.packages| then ViewVersion(i) else ListLatest
  }

  function Check(b: Bundle, i: nat): Pc {
    if i < |b.packages| then CheckVersion(i) else CheckLatest
  }

  /** The code between two remote calls, with the call that ends it. */
  function Step(b: Bundle, pc: Pc, reg: Registry): (Pc, Registry) {
    match pc
    case ViewVersion(i) =>
      if i >= |b.packages| then (Stopped, reg)
      else (match View(reg, b.packages[i].name, b.version)
            case None => (PublishVersion(i), reg)
            case Some(integrity) => (if integrity == b.packages[i].integrity then ListTag(i) else Stopped, reg))
    case PublishVersion(i) =>
      if i >= |b.packages| then (Stopped, reg)
      else (match NpmPublish(reg, b, b.packages[i])
            case None => (Stopped, reg)
            case Some(reg') => (ListTag(i), reg'))
    case ListTag(i) =>
      if i >= |b.packages| || !HasPackage(reg, b.packages[i].name) then (Stopped, reg)
      else if TagOf(reg, b.packages[i].name, b.distTag) == Some(b.version) then (Loop(b, i + 1), reg)
      else (MoveTag(i), reg)
    case MoveTag(i) =>
      if i >= |b.packages| then (Stopped, reg)
      else (Loop(b, i + 1), AddTag(reg, b.packages[i].name, b.distTag, b.version))
    case ListLatest =>
      if !HasPackage(reg, ENTRY) then (Stopped, reg)
      else if TagOf(reg, ENTRY, LATEST) == Some(b.version) then (Check(b, 0), reg)
      else (MoveLatest, reg)
    case MoveLatest => (Check(b, 0), AddTag(reg, ENTRY, LATEST, b.version))
    case CheckVersion(i) =>
      (if i < |b.packages| && Recorded(reg, b, b.packages[i]) then CheckTag(i) else Stopped, reg)
    case CheckTag(i) =>
      (if i < |b.packages| && TagOf(reg, b.packages[i].name, b.distTag) == Some(b.version)
       then Check(b, i + 1) else Stopped, reg)
    case CheckLatest => (if TagOf(reg, ENTRY, LATEST) == Some(b.version) then Finished else Stopped, reg)
    case Finished => (Finished, reg)
    case Stopped => (Stopped, reg)
  }

  // ---------------------------------------------------------------- all runs together

  datatype Run = Run(bundle: Bundle, pc: Pc)

  datatype System = System(reg: Registry, runs: seq<Run>)

  ghost predicate DistinctVersions(bundles: set<Bundle>) {
    forall b, c | b in bundles && c in bundles && b.version == c.version :: b == c
  }

  /**
   * Somebody else writes: versions stay immutable and the entry's `latest` is not pointed at a
   * bundle, but anything else may appear or move.
   */
  ghost predicate ForeignWrite(bundles: set<Bundle>, reg: Registry, reg': Registry) {
    && (forall k | k in reg.versions :: k in reg'.versions && reg'.versions[k] == reg.versions[k])
    && (TagOf(reg', ENTRY, LATEST) == TagOf(reg, ENTRY, LATEST) ||
        forall b | b in bundles :: TagOf(reg', ENTRY, LATEST) != Some(b.version))
  }

  ghost predicate Next(bundles: set<Bundle>, s: System, s': System) {
    || (exists b | b in bundles :: s' == s.(runs := s.runs + [Run(b, ViewVersion(0))]))
    || (exists i | 0 <= i < |s.runs| ::
          var (pc, reg) := Step(s.runs[i].bundle, s.runs[i].pc, s.reg);
          s' == System(reg, s.runs[i := s.runs[i].(pc := pc)]))
    || (exists i | 0 <= i < |s.runs| :: s' == s.(runs := s.runs[i := s.runs[i].(pc := Stopped)]))
    || (s'.runs == s.runs && ForeignWrite(bundles, s.reg, s'.reg))
  }

  ghost predicate Init(bundles: set<Bundle>, s: System) {
    s.runs == [] && forall b | b in bundles :: TagOf(s.reg, ENTRY, LATEST) != Some(b.version)
  }

  ghost predicate Execution(bundles: set<Bundle>, trace: seq<System>) {
    && trace != [] && Init(bundles, trace[0])
    && forall k | 0 <= k < |trace| - 1 :: Next(bundles, trace[k], trace[k + 1])
  }

  /** `latest` never names a bundle that is not there in full. */
  ghost predicate LatestIsComplete(bundles: set<Bundle>, reg: Registry) {
    forall b | b in bundles && TagOf(reg, ENTRY, LATEST) == Some(b.version) :: Complete(reg, b)
  }

  /** Publishing or re-tagging a single package can never move the entry's `latest` too early. */
  predicate SafeTag(b: Bundle) {
    b.distTag == LATEST ==> forall i | 0 <= i < |b.packages| - 1 :: b.packages[i].name != ENTRY
  }

  /** How many packages a run has seen in the registry with their recorded integrity. */
  function Confirmed(b: Bundle, pc: Pc): nat {
    match pc
    case ViewVersion(i) => i
    case PublishVersion(i) => i
    case ListTag(i) => i + 1
    case MoveTag(i) => i + 1
    case Stopped => 0
    case _ => |b.packages|
  }

  ghost predicate RunInv(bundles: set<Bundle>, reg: Registry, r: Run) {
    && r.bundle in bundles
    && Confirmed(r.bundle, r.pc) <= |r.bundle.packages|
    && forall j | 0 <= j < Confirmed(r.bundle, r.pc) :: Recorded(reg, r.bundle, r.bundle.packages[j])
  }

  ghost predicate Inv(bundles: set<Bundle>, s: System) {
    LatestIsComplete(bundles, s.reg) && forall r | r in s.runs :: RunInv(bundles, s.reg, r)
  }

  ghost predicate Extends(reg: Registry, reg': Registry) {
    forall k | k in reg.versions :: k in reg'.versions && reg'.versions[k] == reg.versions[k]
  }

  lemma StepKeepsRun(bundles: set<Bundle>, r: Run, reg: Registry)
    requires RunInv(bundles, reg, r)
    ensures var (pc, reg') := Step(r.bundle, r.pc, reg);
            Extends(reg, reg') && RunInv(bundles, reg', r.(pc := pc))
  {
  }

  /** A step moves the entry's `latest` only to its own version, and only once all is confirmed. */
  lemma StepMovesLatest(bundles: set<Bundle>, r: Run, reg: Registry)
    requires RunInv(bundles, reg, r) && SafeTag(r.bundle)
    ensures var (pc, reg') := Step(r.bundle, r.pc, reg);
            TagOf(reg', ENTRY, LATEST) != TagOf(reg, ENTRY, LATEST) ==>
              TagOf(reg', ENTRY, LATEST) == Some(r.bundle.version) && Complete(reg', r.bundle)
  {
    var (pc, reg') := Step(r.bundle, r.pc, reg);
    var b := r.bundle;
    if TagOf(reg', ENTRY, LATEST) != TagOf(reg, ENTRY, LATEST) {
      StepKeepsRun(bundles, r, reg);
      forall pkg | pkg in b.packages ensures Recorded(reg', b, pkg) {
        var j :| 0 <= j < |b.packages| && b.packages[j] == pkg;
      }
    }
  }

  lemma CompleteExtends(reg: Registry, reg': Registry, b: Bundle)
    requires Complete(reg, b) && Extends(reg, reg')
    ensures Complete(reg', b)
  {
    forall pkg | pkg in b.packages ensures Recorded(reg', b, pkg) { assert Recorded(reg, b, pkg); }
  }

  lemma InvNext(bundles: set<Bundle>, s: System, s': System)
    requires DistinctVersions(bundles) && forall b | b in bundles :: SafeTag(b)
    requires Inv(bundles, s) && Next(bundles, s, s')
    ensures Inv(bundles, s')
  {
    if b :| b in bundles && s' == s.(runs := s.runs + [Run(b, ViewVersion(0))]) {
    } else if i :| 0 <= i < |s.runs| && s' == s.(runs := s.runs[i := s.runs[i].(pc := Stopped)]) {
      assert s.runs[i] in s.runs;
      assert forall r | r in s'.runs :: r in s.runs || r == s.runs[i].(pc := Stopped);
    } else if s'.runs == s.runs && ForeignWrite(bundles, s.reg, s'.reg) {
      InvExtends(bundles, s, s'.reg);
    } else {
      var i :| 0 <= i < |s.runs| &&
        var (pc, reg) := Step(s.runs[i].bundle, s.runs[i].pc, s.reg);
        s' == System(reg, s.runs[i := s.runs[i].(pc := pc)]);
      var r := s.runs[i];
      StepKeepsRun(bundles, r, s.reg);
      StepMovesLatest(bundles, r, s.reg);
      InvExtends(bundles, s, s'.reg);
      assert forall q | q in s'.runs :: q in s.runs || q == s'.runs[i];
    }
  }

  lemma InvExtends(bundles: set<Bundle>, s: System, reg': Registry)
    requires DistinctVersions(bundles) && Inv(bundles, s) && Extends(s.reg, reg')
    requires var t := TagOf(reg', ENTRY, LATEST);
             || t == TagOf(s.reg, ENTRY, LATEST)
             || (forall b | b in bundles :: t != Some(b.version))
             || (exists b | b in bundles :: t == Some(b.version) && Complete(reg', b))
    ensures Inv(bundles, s.(reg := reg'))
  {
    forall b | b in bundles && TagOf(reg', ENTRY, LATEST) == Some(b.version) ensures Complete(reg', b) {
      if TagOf(reg', ENTRY, LATEST) == TagOf(s.reg, ENTRY, LATEST) { CompleteExtends(s.reg, reg', b); }
    }
    forall r | r in s.runs ensures RunInv(bundles, reg', r) {
      assert RunInv(bundles, s.reg, r);
      forall j | 0 <= j < Confirmed(r.bundle, r.pc) ensures Recorded(reg', r.bundle, r.bundle.packages[j]) {
        assert Recorded(s.reg, r.bundle, r.bundle.packages[j]);
      }
    }
  }

  /**
   * Safety over whole executions: in any interleaving of runs, stops, failures and foreign writes,
   * whenever `latest` names a bundle, the whole bundle is in the registry.
   */
  lemma {:induction false} LatestAlwaysComplete(bundles: set<Bundle>, trace: seq<System>, k: nat)
    requires DistinctVersions(bundles) && forall b | b in bundles :: SafeTag(b)
    requires Execution(bundles, trace) && k < |trace|
    ensures Inv(bundles, trace[k])
    ensures LatestIsComplete(bundles, trace[k].reg)
    decreases k
  {
    if k > 0 {
      LatestAlwaysComplete(bundles, trace, k - 1);
      InvNext(bundles, trace[k - 1], trace[k]);
    }
  }

  // ---------------------------------------------------------------- the dist-tag `latest` itself

  lemma ExtendExecution(bundles: set<Bundle>, trace: seq<System>, s: System)
    requires Execution(bundles, trace) && Next(bundles, trace[|trace| - 1], s)
    ensures Execution(bundles, trace + [s])
  {
    var longer := trace + [s];
    forall k | 0 <= k < |longer| - 1 ensures Next(bundles, longer[k], longer[k + 1]) {
      if k < |trace| - 1 { assert Next(bundles, trace[k], trace[k + 1]); }
    }
  }

  /** A single run of `b` that has worked through its first `j` packages on an empty registry. */
  ghost predicate WorkedThrough(b: Bundle, s: System, j: nat) {
    && j <= |b.packages| && s.runs == [Run(b, Loop(b, j))]
    && (forall k | k in s.reg.versions :: exists i | 0 <= i < j :: k == (b.packages[i].name, b.version))
    && (b.distTag == LATEST ==>
          forall i | 0 <= i < j :: b.packages[i].name == ENTRY ==> TagOf(s.reg, ENTRY, LATEST) == Some(b.version))
  }

  lemma RunStep(
    bundles: set<Bundle>, trace: seq<System>, b: Bundle, pc: Pc, reg: Registry) returns (longer: seq<System>)
    requires Execution(bundles, trace) && trace[|trace| - 1].runs == [Run(b, pc)] && trace[|trace| - 1].reg == reg
    ensures var (pc', reg') := Step(b, pc, reg);
            Execution(bundles, longer) && longer[|longer| - 1] == System(reg', [Run(b, pc')])
  {
    var s := trace[|trace| - 1];
    var (pc', reg') := Step(b, pc, reg);
    var s' := System(reg', [Run(b, pc')]);
    assert s' == System(reg', s.runs[0 := s.runs[0].(pc := pc')]);
    ExtendExecution(bundles, trace, s');
    longer := trace + [s'];
  }

  lemma {:induction false} WorkThrough(b: Bundle, j: nat) returns (trace: seq<System>)
    requires WellFormed(b) && j <= |b.packages|
    ensures Execution({b}, trace) && WorkedThrough(b, trace[|trace| - 1], j)
    decreases j
  {
    if j == 0 {
      var empty := System(Registry(map[], map[]), []);
      var started := System(Registry(map[], map[]), [Run(b, ViewVersion(0))]);
      assert empty.runs + [Run(b, ViewVersion(0))] == started.runs;
      ExtendExecution({b}, [empty], started);
      trace := [empty] + [started];
    } else {
      hide Execution;
      trace := WorkThrough(b, j - 1);
      trace := WorkOne(b, j - 1, trace);
    }
  }

  lemma WorkOne(b: Bundle, j: nat, trace: seq<System>) returns (longer: seq<System>)
    requires WellFormed(b) && j < |b.packages|
    requires Execution({b}, trace) && WorkedThrough(b, trace[|trace| - 1], j)
    ensures Execution({b}, longer) && WorkedThrough(b, longer[|longer| - 1], j + 1)
  {
    var s, pkg := trace[|trace| - 1], b.packages[j];
    assert (pkg.name, b.version) !in s.reg.versions;
    hide Execution;
    longer := RunStep({b}, trace, b, ViewVersion(j), s.reg);
    longer := RunStep({b}, longer, b, PublishVersion(j), s.reg);
    var reg' := NpmPublish(s.reg, b, pkg).value;
    assert (pkg.name, b.version) in reg'.versions;
    longer := RunStep({b}, longer, b, ListTag(j), reg');
    assert b.packages[j] == pkg;
  }

  /**
   * Exactly when the safety above needs its condition: a bundle whose own dist-tag is `latest` and
   * whose entry package is not the last one breaks it, with a single uninterrupted run.
   */
  lemma SafeTagIsNeeded(b: Bundle)
    requires WellFormed(b)
    ensures SafeTag(b) <==>
            forall trace: seq<System>, k | Execution({b}, trace) && 0 <= k < |trace| ::
              LatestIsComplete({b}, trace[k].reg)
  {
    if SafeTag(b) {
      forall trace: seq<System>, k | Execution({b}, trace) && 0 <= k < |trace|
        ensures LatestIsComplete({b}, trace[k].reg)
      {
        LatestAlwaysComplete({b}, trace, k);
      }
    } else {
      var e :| 0 <= e < |b.packages| - 1 && b.packages[e].name == ENTRY;
      var trace := WorkThrough(b, e + 1);
      var reg := trace[|trace| - 1].reg;
      var last := b.packages[|b.packages| - 1];
      assert (last.name, b.version) !in reg.versions;
      assert !Recorded(reg, b, last) && last in b.packages;
      assert !LatestIsComplete({b}, reg);
    }
  }
}
