/**
 * One uninterrupted `publish` (`scripts/publish-npm-baseline.ts`), with this process as the only
 * writer: it resumes whatever earlier runs left behind, and running it again changes nothing.
 */
module PublishRun {
  import opened Prelude
  import opened Publication

  /** The registry has no other content under the bundle's version. */
  predicate Matching(reg: Registry, b: Bundle) {
    forall pkg | pkg in b.packages :: View(reg, pkg.name, b.version) in {None, Some(pkg.integrity)}
  }

  /** What a publication needs: no conflicting version, and an entry package to tag. */
  predicate Publishable(reg: Registry, b: Bundle) {
    Matching(reg, b) && (HasPackage(reg, ENTRY) || exists pkg | pkg in b.packages :: pkg.name == ENTRY)
  }

  /** What `verify` accepts. */
  predicate Accepts(reg: Registry, b: Bundle) {
    && (forall pkg | pkg in b.packages :: Recorded(reg, b, pkg) && TagOf(reg, pkg.name, b.distTag) == Some(b.version))
    && HasPackage(reg, ENTRY) && TagOf(reg, ENTRY, LATEST) == Some(b.version)
  }

  /** Which package and which tag the last verifier looks at. */
  lemma AcceptedEntry(reg: Registry, b: Bundle)
    requires Accepts(reg, b)
    ensures ("@deepseek-ai/dsh", "latest") in reg.tags && reg.tags[("@deepseek-ai/dsh", "latest")] == b.version
  {
  }

  /** One package published and tagged. */
  function Settle(reg: Registry, b: Bundle, pkg: Package): Registry {
    AddTag(reg.(versions := reg.versions[(pkg.name, b.version) := pkg.integrity]), pkg.name, b.distTag, b.version)
  }

  function SettleAll(reg: Registry, b: Bundle, n: nat): Registry
    requires n <= |b.packages|
  {
    if n == 0 then reg else Settle(SettleAll(reg, b, n - 1), b, b.packages[n - 1])
  }

  function Published(reg: Registry, b: Bundle): Registry {
    AddTag(SettleAll(reg, b, |b.packages|), ENTRY, LATEST, b.version)
  }

  function Names(b: Bundle, n: nat): set<string>
    requires n <= |b.packages|
  {
    set i | 0 <= i < n :: b.packages[i].name
  }

  /** Exactly what the first `n` packages change. */
  ghost predicate SettledOnly(reg: Registry, r: Registry, b: Bundle, n: nat)
    requires n <= |b.packages|
  {
    && (forall i | 0 <= i < n ::
          Recorded(r, b, b.packages[i]) && TagOf(r, b.packages[i].name, b.distTag) == Some(b.version))
    && (forall name, v | v != b.version || name !in Names(b, n) :: View(r, name, v) == View(reg, name, v))
    && (forall name, tag | tag != b.distTag || name !in Names(b, n) :: TagOf(r, name, tag) == TagOf(reg, name, tag))
  }

  lemma {:induction false} SettleAllIs(reg: Registry, b: Bundle, n: nat)
    requires WellFormed(b) && n <= |b.packages|
    ensures SettledOnly(reg, SettleAll(reg, b, n), b, n)
  {
    if n == 0 {
      SettledNone(reg, b);
    } else {
      hide SettledOnly, WellFormed;
      SettleAllIs(reg, b, n - 1);
      SettledStep(reg, b, n);
    }
  }

  lemma SettledStep(reg: Registry, b: Bundle, n: nat)
    requires WellFormed(b) && 0 < n <= |b.packages| && SettledOnly(reg, SettleAll(reg, b, n - 1), b, n - 1)
    ensures SettledOnly(reg, SettleAll(reg, b, n), b, n)
  {
    hide SettledOnly, WellFormed, Settle, Settles;
    SettleIs(SettleAll(reg, b, n - 1), b, b.packages[n - 1]);
    SettledOneMore(reg, SettleAll(reg, b, n - 1), SettleAll(reg, b, n), b, n);
  }

  lemma SettledNone(reg: Registry, b: Bundle)
    ensures SettledOnly(reg, reg, b, 0)
  {
  }

  lemma NamesStep(b: Bundle, n: nat)
    requires 0 < n <= |b.packages|
    ensures Names(b, n) == Names(b, n - 1) + {b.packages[n - 1].name}
  {
  }

  lemma SettledOneMore(reg: Registry, before: Registry, r: Registry, b: Bundle, n: nat)
    requires WellFormed(b) && 0 < n <= |b.packages|
    requires SettledOnly(reg, before, b, n - 1)
    requires Settles(before, r, b, b.packages[n - 1])
    ensures SettledOnly(reg, r, b, n)
  {
    NamesStep(b, n);
    hide View, TagOf, Names;
    forall i | 0 <= i < n
      ensures Recorded(r, b, b.packages[i]) && TagOf(r, b.packages[i].name, b.distTag) == Some(b.version)
    {
      if i < n - 1 { assert Recorded(before, b, b.packages[i]); }
    }
  }

  lemma SettleIs(reg: Registry, b: Bundle, pkg: Package)
    ensures Settles(reg, Settle(reg, b, pkg), b, pkg)
  {
  }

  /** One package's version and dist-tag are in place, and nothing else changed. */
  ghost predicate Settles(reg: Registry, r: Registry, b: Bundle, pkg: Package) {
    && (forall name, v :: View(r, name, v) ==
          if (name, v) == (pkg.name, b.version) then Some(pkg.integrity) else View(reg, name, v))
    && (forall name, tag :: TagOf(r, name, tag) ==
          if (name, tag) == (pkg.name, b.distTag) then Some(b.version) else TagOf(reg, name, tag))
  }

  /** Nothing outside the bundle's version, its dist-tag and the entry's `latest` moved. */
  ghost predicate OthersUntouched(reg: Registry, r: Registry, b: Bundle) {
    var names := Names(b, |b.packages|);
    && (forall name, v | v != b.version || name !in names :: View(r, name, v) == View(reg, name, v))
    && (forall name, tag | (tag != b.distTag || name !in names) && (name, tag) != (ENTRY, LATEST) ::
          TagOf(r, name, tag) == TagOf(reg, name, tag))
  }

  /**
   * A successful publication: everything both verifiers look at is right, no version already in the
   * registry changed, and nothing else moved.
   */
  lemma PublishedIs(reg: Registry, b: Bundle)
    requires WellFormed(b) && Publishable(reg, b)
    ensures var r := Published(reg, b); Accepts(r, b) && Extends(reg, r) && OthersUntouched(reg, r, b)
  {
    var n := |b.packages|;
    var s, r := SettleAll(reg, b, n), Published(reg, b);
    SettleAllIs(reg, b, n);
    SettleAllExtends(reg, b, n);
    forall pkg | pkg in b.packages
      ensures Recorded(r, b, pkg) && TagOf(r, pkg.name, b.distTag) == Some(b.version)
    {
      var i :| 0 <= i < n && b.packages[i] == pkg;
      assert Recorded(s, b, b.packages[i]);
    }
    EntryPresent(reg, b);
    assert forall name, v :: View(r, name, v) == View(s, name, v);
    assert forall name, tag | (name, tag) != (ENTRY, LATEST) :: TagOf(r, name, tag) == TagOf(s, name, tag);
  }

  lemma EntryPresent(reg: Registry, b: Bundle)
    requires WellFormed(b)
    requires Extends(reg, SettleAll(reg, b, |b.packages|))
    ensures HasPackage(SettleAll(reg, b, |b.packages|), ENTRY) <==>
            HasPackage(reg, ENTRY) || exists pkg | pkg in b.packages :: pkg.name == ENTRY
  {
    var n := |b.packages|;
    var s := SettleAll(reg, b, n);
    SettleAllIs(reg, b, n);
    if pkg :| pkg in b.packages && pkg.name == ENTRY {
      var i :| 0 <= i < n && b.packages[i] == pkg;
      assert Recorded(s, b, pkg);
      assert (ENTRY, b.version) in s.versions;
    } else {
      forall k | k in s.versions && k.0 == ENTRY ensures k in reg.versions {
        assert ENTRY !in Names(b, n);
        assert View(s, ENTRY, k.1) == View(reg, ENTRY, k.1);
      }
    }
  }

  lemma {:induction false} SettleAllExtends(reg: Registry, b: Bundle, n: nat)
    requires WellFormed(b) && Matching(reg, b) && n <= |b.packages|
    ensures Extends(reg, SettleAll(reg, b, n))
  {
    SettleAllIs(reg, b, n);
    var r := SettleAll(reg, b, n);
    forall k | k in reg.versions ensures k in r.versions && r.versions[k] == reg.versions[k] {
      assert View(reg, k.0, k.1) == Some(reg.versions[k]);
      if k.1 == b.version {
        if k.0 in Names(b, n) {
          var i :| 0 <= i < n && b.packages[i].name == k.0;
          assert b.packages[i] in b.packages && Recorded(r, b, b.packages[i]);
        } else {
          assert View(r, k.0, k.1) == View(reg, k.0, k.1);
        }
      } else {
        assert View(r, k.0, k.1) == View(reg, k.0, k.1);
      }
    }
  }

  /** Publishing again is the identity on an accepted registry. */
  lemma {:induction false} PublishedAgain(reg: Registry, b: Bundle, n: nat)
    requires Accepts(reg, b) && n <= |b.packages|
    ensures SettleAll(reg, b, n) == reg
  {
    if n > 0 {
      PublishedAgain(reg, b, n - 1);
      var pkg := b.packages[n - 1];
      assert Recorded(reg, b, pkg) && TagOf(reg, pkg.name, b.distTag) == Some(b.version);
      assert reg.versions[(pkg.name, b.version) := pkg.integrity] == reg.versions;
      assert reg.tags[(pkg.name, b.distTag) := b.version] == reg.tags;
    }
  }

  // ---------------------------------------------------------------- what interrupted runs leave

  /** A system step in which nobody but the runs writes. */
  ghost predicate OwnNext(bundles: set<Bundle>, s: System, s': System) {
    || (exists b | b in bundles :: s' == s.(runs := s.runs + [Run(b, ViewVersion(0))]))
    || (exists i | 0 <= i < |s.runs| ::
          var (pc, reg) := Step(s.runs[i].bundle, s.runs[i].pc, s.reg);
          s' == System(reg, s.runs[i := s.runs[i].(pc := pc)]))
    || (exists i | 0 <= i < |s.runs| :: s' == s.(runs := s.runs[i := s.runs[i].(pc := Stopped)]))
  }

  ghost predicate OwnInv(bundles: set<Bundle>, s: System) {
    && (forall r | r in s.runs :: r.bundle in bundles)
    && forall b | b in bundles :: Matching(s.reg, b)
  }

  lemma StepKeepsMatching(b: Bundle, c: Bundle, pc: Pc, reg: Registry)
    requires WellFormed(b) && Matching(reg, b) && (b.version == c.version ==> b == c)
    ensures Matching(Step(c, pc, reg).1, b)
  {
    var reg' := Step(c, pc, reg).1;
    forall pkg | pkg in b.packages ensures View(reg', pkg.name, b.version) in {None, Some(pkg.integrity)} {
      assert View(reg, pkg.name, b.version) in {None, Some(pkg.integrity)};
      if View(reg', pkg.name, b.version) != View(reg, pkg.name, b.version) {
        assert pc.PublishVersion? && c == b && b.packages[pc.i].name == pkg.name;
        assert b.packages[pc.i] == pkg;
      }
    }
  }

  /** However runs were interrupted, what they leave behind can be resumed. */
  lemma {:induction false} InterruptedRunsLeaveMatching(bundles: set<Bundle>, trace: seq<System>, k: nat)
    requires DistinctVersions(bundles) && forall b | b in bundles :: WellFormed(b)
    requires k < |trace| && OwnInv(bundles, trace[0])
    requires forall j | 0 <= j < |trace| - 1 :: OwnNext(bundles, trace[j], trace[j + 1])
    ensures OwnInv(bundles, trace[k])
    decreases k
  {
    if k > 0 {
      InterruptedRunsLeaveMatching(bundles, trace, k - 1);
      var s, s' := trace[k - 1], trace[k];
      assert OwnNext(bundles, s, trace[k - 1 + 1]);
      OwnStep(bundles, s, s');
    }
  }

  lemma OwnStep(bundles: set<Bundle>, s: System, s': System)
    requires DistinctVersions(bundles) && forall b | b in bundles :: WellFormed(b)
    requires OwnInv(bundles, s) && OwnNext(bundles, s, s')
    ensures OwnInv(bundles, s')
  {
    if b :| b in bundles && s' == s.(runs := s.runs + [Run(b, ViewVersion(0))]) {
    } else if i :| 0 <= i < |s.runs| && s' == s.(runs := s.runs[i := s.runs[i].(pc := Stopped)]) {
      assert s.runs[i] in s.runs;
      assert forall r | r in s'.runs :: r in s.runs || r == s.runs[i].(pc := Stopped);
    } else {
      var i :| 0 <= i < |s.runs| &&
        var (pc, reg) := Step(s.runs[i].bundle, s.runs[i].pc, s.reg);
        s' == System(reg, s.runs[i := s.runs[i].(pc := pc)]);
      assert s.runs[i] in s.runs;
      assert forall r | r in s'.runs :: r in s.runs || r == s'.runs[i];
      forall b | b in bundles ensures Matching(s'.reg, b) {
        StepKeepsMatching(b, s.runs[i].bundle, s.runs[i].pc, s.reg);
      }
    }
  }

  // ---------------------------------------------------------------- the run

  class RegistryPublication {
    const bundle: Bundle
    /** The remote registry, and how often it has been written to. */
    var reg: Registry
    var writes: nat

    constructor (bundle: Bundle, reg: Registry)
      ensures this.bundle == bundle && this.reg == reg && writes == 0
    {
      this.bundle, this.reg := bundle, reg;
      writes := 0;
    }

    method RemoteDistTag(name: string, tag: string) returns (r: Result<Option<string>, ()>)
      ensures r == if HasPackage(reg, name) then Ok(TagOf(reg, name, tag)) else Err(())
    {
      r := if HasPackage(reg, name) then Ok(TagOf(reg, name, tag)) else Err(());
    }

    method EnsureDistTag(name: string, tag: string) returns (ok: bool)
      modifies this
      ensures ok == old(HasPackage(reg, name))
      ensures reg == if ok then AddTag(old(reg), name, tag, bundle.version) else old(reg)
      ensures writes == old(writes) + if ok && old(TagOf(reg, name, tag)) != Some(bundle.version) then 1 else 0
    {
      var current := RemoteDistTag(name, tag);
      if current.Err? { return false; }
      if current.value == Some(bundle.version) {
        assert reg.tags[(name, tag) := bundle.version] == reg.tags;
        return true;
      }
      reg := AddTag(reg, name, tag, bundle.version);
      writes := writes + 1;
      ok := true;
    }

    /** Publish one package unless it is there, and point its dist-tag at this version. */
    method PublishPackage(pkg: Package) returns (ok: bool)
      modifies this
      ensures ok == old(View(reg, pkg.name, bundle.version) in {None, Some(pkg.integrity)})
      ensures reg == if ok then Settle(old(reg), bundle, pkg) else old(reg)
      ensures writes == old(writes) +
                if ok && old(!Recorded(reg, bundle, pkg)
                  || TagOf(reg, pkg.name, bundle.distTag) != Some(bundle.version))
                then 1 else 0
    {
      var existing := View(reg, pkg.name, bundle.version);
      if existing.None? {
        reg := NpmPublish(reg, bundle, pkg).value;
        writes := writes + 1;
      } else if existing.value != pkg.integrity {
        return false;
      } else {
        assert reg.versions[(pkg.name, bundle.version) := pkg.integrity] == reg.versions;
      }
      assert (pkg.name, bundle.version) in reg.versions;
      ok := EnsureDistTag(pkg.name, bundle.distTag);
      assert Settle(old(reg), bundle, pkg).tags == reg.tags;
    }

    method VerifyRemote() returns (ok: bool)
      ensures ok == Accepts(reg, bundle)
    {
      var i := 0;
      while i < |bundle.packages|
        invariant 0 <= i <= |bundle.packages|
        invariant forall j | 0 <= j < i ::
                    Recorded(reg, bundle, bundle.packages[j]) &&
                    TagOf(reg, bundle.packages[j].name, bundle.distTag) == Some(bundle.version)
      {
        var pkg := bundle.packages[i];
        assert pkg in bundle.packages;
        if View(reg, pkg.name, bundle.version) != Some(pkg.integrity) { return false; }
        assert (pkg.name, bundle.version) in reg.versions;
        var tag := RemoteDistTag(pkg.name, bundle.distTag);
        if tag != Ok(Some(bundle.version)) { return false; }
        i := i + 1;
      }
      var latest := RemoteDistTag(ENTRY, LATEST);
      ok := latest == Ok(Some(bundle.version));
    }

    /** Once every package is settled: the entry's `latest`, then both verifiers. */
    method Finish(ghost start: Registry) returns (ok: bool)
      requires WellFormed(bundle) && Matching(start, bundle)
      requires reg == SettleAll(start, bundle, |bundle.packages|)
      modifies this
      ensures ok == Publishable(start, bundle)
      ensures reg == if ok then Published(start, bundle) else old(reg)
      ensures ok ==> Accepts(reg, bundle) && Extends(start, reg)
      ensures old(TagOf(reg, ENTRY, LATEST)) == Some(bundle.version) ==> writes == old(writes)
    {
      SettleAllExtends(start, bundle, |bundle.packages|);
      EntryPresent(start, bundle);
      ok := EnsureDistTag(ENTRY, LATEST);
      if !ok { return; }
      assert TagOf(old(reg), ENTRY, LATEST) == Some(bundle.version) ==> writes == old(writes);
      PublishedIs(start, bundle);
      ok := VerifyRemote();
    }

    /**
     * Publish every package, then the entry's `latest`, then verify. From whatever earlier runs
     * left it succeeds exactly when nothing conflicts, never changes a published version, and does
     * not write at all when everything is already in place.
     */
    method Publish() returns (ok: bool)
      requires WellFormed(bundle)
      modifies this
      ensures ok == old(Publishable(reg, bundle))
      ensures ok ==> reg == Published(old(reg), bundle)
      ensures ok ==> Accepts(reg, bundle) && Extends(old(reg), reg)
      ensures !ok ==> exists n :: 0 <= n <= |bundle.packages| && reg == SettleAll(old(reg), bundle, n)
      ensures old(Accepts(reg, bundle)) ==> ok && reg == old(reg) && writes == old(writes)
    {
      hide Extends, Accepts, Settle, HasPackage, TagOf;
      ghost var start := reg;
      ghost var settled := Accepts(reg, bundle);
      if settled {
        AcceptedIsPublishable(reg, bundle);
        AcceptedTwice(reg, bundle);
      }
      var i := 0;
      while i < |bundle.packages|
        invariant 0 <= i <= |bundle.packages|
        invariant reg == SettleAll(start, bundle, i)
        invariant forall j | 0 <= j < i ::
                    View(start, bundle.packages[j].name, bundle.version) in {None, Some(bundle.packages[j].integrity)}
        invariant settled ==> reg == start && writes == old(writes)
      {
        var pkg := bundle.packages[i];
        UntouchedYet(start, bundle, i);
        if settled {
          PublishedAgain(start, bundle, i + 1);
          AcceptedPackage(start, bundle, i);
        }
        var done := PublishPackage(pkg);
        if !done {
          assert pkg in bundle.packages;
          return false;
        }
        i := i + 1;
      }
      ok := Finish(start);
    }
  }

  lemma UntouchedYet(reg: Registry, b: Bundle, i: nat)
    requires WellFormed(b) && i < |b.packages|
    ensures View(SettleAll(reg, b, i), b.packages[i].name, b.version) == View(reg, b.packages[i].name, b.version)
  {
    SettleAllIs(reg, b, i);
  }

  lemma AcceptedPackage(reg: Registry, b: Bundle, i: nat)
    requires Accepts(reg, b) && i < |b.packages|
    ensures Recorded(reg, b, b.packages[i]) && TagOf(reg, b.packages[i].name, b.distTag) == Some(b.version)
  {
    assert b.packages[i] in b.packages;
  }

  lemma AcceptedTwice(reg: Registry, b: Bundle)
    requires Accepts(reg, b)
    ensures Published(reg, b) == reg && TagOf(reg, ENTRY, LATEST) == Some(b.version)
  {
    PublishedAgain(reg, b, |b.packages|);
    assert reg.tags[(ENTRY, LATEST) := b.version] == reg.tags;
  }

  lemma AcceptedIsPublishable(reg: Registry, b: Bundle)
    requires Accepts(reg, b)
    ensures Publishable(reg, b)
  {
    forall pkg | pkg in b.packages ensures View(reg, pkg.name, b.version) in {None, Some(pkg.integrity)} {
      assert Recorded(reg, b, pkg);
    }
  }

  // ---------------------------------------------------------------- the same run, call by call

  /** `n` remote calls of one run, with nobody else in between. */
  function Calls(b: Bundle, pc: Pc, reg: Registry, n: nat): (Pc, Registry)
    decreases n
  {
    if n == 0 then (pc, reg) else var (pc', reg') := Step(b, pc, reg); Calls(b, pc', reg', n - 1)
  }

  lemma {:induction false} MoreCalls(b: Bundle, pc: Pc, reg: Registry, m: nat, n: nat)
    ensures var (pc', reg') := Calls(b, pc, reg, m); Calls(b, pc, reg, m + n) == Calls(b, pc', reg', n)
    decreases m
  {
    if m > 0 {
      var (pc', reg') := Step(b, pc, reg);
      MoreCalls(b, pc', reg', m - 1, n);
    }
  }

  lemma OneCall(b: Bundle, pc: Pc, reg: Registry)
    ensures Calls(b, pc, reg, 1) == Step(b, pc, reg)
  {
    var (pc', reg') := Step(b, pc, reg);
    assert Calls(b, pc', reg', 0) == (pc', reg');
  }

  /** A call, then `n` more. */
  lemma CallFirst(b: Bundle, pc: Pc, reg: Registry, n: nat)
    ensures var (pc', reg') := Step(b, pc, reg); Calls(b, pc, reg, n + 1) == Calls(b, pc', reg', n)
  {
  }

  /** The tag calls for one package. */
  lemma TagCalls(b: Bundle, i: nat, reg: Registry) returns (n: nat)
    requires i < |b.packages| && HasPackage(reg, b.packages[i].name)
    ensures Calls(b, ListTag(i), reg, n) == (Loop(b, i + 1), AddTag(reg, b.packages[i].name, b.distTag, b.version))
  {
    var name := b.packages[i].name;
    OneCall(b, MoveTag(i), reg);
    if TagOf(reg, name, b.distTag) == Some(b.version) {
      n := 1;
      OneCall(b, ListTag(i), reg);
      assert reg.tags[(name, b.distTag) := b.version] == reg.tags;
    } else {
      n := 2;
      CallFirst(b, ListTag(i), reg, 1);
    }
  }

  lemma PackageCalls(b: Bundle, i: nat, reg: Registry) returns (n: nat)
    requires i < |b.packages| && View(reg, b.packages[i].name, b.version) in {None, Some(b.packages[i].integrity)}
    ensures Calls(b, ViewVersion(i), reg, n) == (Loop(b, i + 1), Settle(reg, b, b.packages[i]))
  {
    var pkg := b.packages[i];
    if View(reg, pkg.name, b.version).None? {
      var reg' := NpmPublish(reg, b, pkg).value;
      assert (pkg.name, b.version) in reg'.versions;
      var m := TagCalls(b, i, reg');
      n := m + 2;
      CallFirst(b, ViewVersion(i), reg, m + 1);
      CallFirst(b, PublishVersion(i), reg, m);
      assert AddTag(reg', pkg.name, b.distTag, b.version) == Settle(reg, b, pkg) by {
        assert reg'.tags[(pkg.name, b.distTag) := b.version] == reg'.tags;
      }
    } else {
      assert (pkg.name, b.version) in reg.versions;
      var m := TagCalls(b, i, reg);
      n := m + 1;
      CallFirst(b, ViewVersion(i), reg, m);
      assert reg.versions[(pkg.name, b.version) := pkg.integrity] == reg.versions;
    }
  }

  /** Nothing conflicts with the first `n` packages. */
  predicate MatchingUpTo(reg: Registry, b: Bundle, n: nat)
    requires n <= |b.packages|
  {
    forall j | 0 <= j < n :: View(reg, b.packages[j].name, b.version) in {None, Some(b.packages[j].integrity)}
  }

  lemma MatchingIff(reg: Registry, b: Bundle)
    ensures Matching(reg, b) <==> MatchingUpTo(reg, b, |b.packages|)
  {
  }

  lemma OnePackageMore(b: Bundle, reg: Registry, i: nat, m: nat) returns (n: nat)
    requires WellFormed(b) && i < |b.packages| && MatchingUpTo(reg, b, i + 1)
    requires Calls(b, ViewVersion(0), reg, m) == (ViewVersion(i), SettleAll(reg, b, i))
    ensures Calls(b, ViewVersion(0), reg, n) == (Loop(b, i + 1), SettleAll(reg, b, i + 1))
  {
    hide Calls, View, Step, Settle, WellFormed, Loop;
    UntouchedYet(reg, b, i);
    var k := PackageCalls(b, i, SettleAll(reg, b, i));
    MoreCalls(b, ViewVersion(0), reg, m, k);
    n := m + k;
  }

  lemma {:induction false} AllPackageCalls(b: Bundle, reg: Registry, i: nat) returns (n: nat)
    requires WellFormed(b) && i <= |b.packages| && MatchingUpTo(reg, b, i)
    ensures Calls(b, ViewVersion(0), reg, n) == (Loop(b, i), SettleAll(reg, b, i))
    decreases i
  {
    if i == 0 {
      n := 0;
    } else {
      hide Calls, SettleAll;
      var m := AllPackageCalls(b, reg, i - 1);
      n := OnePackageMore(b, reg, i - 1, m);
    }
  }

  lemma {:induction false} CheckCalls(b: Bundle, reg: Registry, i: nat) returns (n: nat)
    requires Accepts(reg, b) && i <= |b.packages|
    ensures Calls(b, Check(b, i), reg, n) == (Finished, reg)
    decreases |b.packages| - i
  {
    if i == |b.packages| {
      n := 1;
      OneCall(b, CheckLatest, reg);
    } else {
      AcceptedPackage(reg, b, i);
      var m := CheckCalls(b, reg, i + 1);
      n := m + 2;
      CallFirst(b, CheckVersion(i), reg, m + 1);
      CallFirst(b, CheckTag(i), reg, m);
    }
  }

  lemma LatestCalls(b: Bundle, reg: Registry) returns (n: nat)
    requires HasPackage(reg, ENTRY)
    ensures Calls(b, ListLatest, reg, n) == (Check(b, 0), AddTag(reg, ENTRY, LATEST, b.version))
  {
    OneCall(b, MoveLatest, reg);
    if TagOf(reg, ENTRY, LATEST) == Some(b.version) {
      n := 1;
      OneCall(b, ListLatest, reg);
      assert reg.tags[(ENTRY, LATEST) := b.version] == reg.tags;
    } else {
      n := 2;
      CallFirst(b, ListLatest, reg, 1);
    }
  }

  /** The run of the interleaved machine, left alone, finishes in exactly the published registry. */
  lemma UndisturbedRunFinishes(reg: Registry, b: Bundle) returns (n: nat)
    requires WellFormed(b) && Publishable(reg, b)
    ensures Calls(b, ViewVersion(0), reg, n) == (Finished, Published(reg, b))
  {
    hide Step, Settle, View, Accepts, HasPackage;
    var settled, r := SettleAll(reg, b, |b.packages|), Published(reg, b);
    MatchingIff(reg, b);
    var i := AllPackageCalls(b, reg, |b.packages|);
    SettleAllExtends(reg, b, |b.packages|);
    EntryPresent(reg, b);
    var j := LatestCalls(b, settled);
    PublishedIs(reg, b);
    var k := CheckCalls(b, r, 0);
    MoreCalls(b, ViewVersion(0), reg, i, j);
    MoreCalls(b, ViewVersion(0), reg, i + j, k);
    n := i + j + k;
  }

  /** And only then does it finish: with a conflict or no entry package it stops, and stays stopped. */
  lemma UndisturbedRunStops(reg: Registry, b: Bundle) returns (n: nat)
    requires WellFormed(b) && !Publishable(reg, b)
    ensures Calls(b, ViewVersion(0), reg, n).0 == Stopped
  {
    hide Settle, HasPackage, Calls, Step;
    MatchingIff(reg, b);
    if Matching(reg, b) {
      SettleAllExtends(reg, b, |b.packages|);
      EntryPresent(reg, b);
      hide Matching, View;
      var settled := SettleAll(reg, b, |b.packages|);
      var m := AllPackageCalls(b, reg, |b.packages|);
      NoEntryStops(b, settled);
      MoreCalls(b, ViewVersion(0), reg, m, 1);
      n := m + 1;
    } else {
      var i := FirstConflict(reg, b, |b.packages|);
      var m := AllPackageCalls(b, reg, i);
      UntouchedYet(reg, b, i);
      ConflictStops(b, i, SettleAll(reg, b, i));
      MoreCalls(b, ViewVersion(0), reg, m, 1);
      n := m + 1;
    }
  }

  lemma {:induction false} FirstConflict(reg: Registry, b: Bundle, n: nat) returns (i: nat)
    requires n <= |b.packages| && !MatchingUpTo(reg, b, n)
    ensures i < n && MatchingUpTo(reg, b, i)
    ensures View(reg, b.packages[i].name, b.version) !in {None, Some(b.packages[i].integrity)}
  {
    if MatchingUpTo(reg, b, n - 1) { i := n - 1; } else { i := FirstConflict(reg, b, n - 1); }
  }

  lemma ConflictStops(b: Bundle, i: nat, reg: Registry)
    requires i < |b.packages| && View(reg, b.packages[i].name, b.version) !in {None, Some(b.packages[i].integrity)}
    ensures Calls(b, ViewVersion(i), reg, 1).0 == Stopped
  {
    OneCall(b, ViewVersion(i), reg);
  }

  lemma NoEntryStops(b: Bundle, reg: Registry)
    requires !HasPackage(reg, ENTRY)
    ensures Calls(b, ListLatest, reg, 1).0 == Stopped
  {
    OneCall(b, ListLatest, reg);
  }
}
