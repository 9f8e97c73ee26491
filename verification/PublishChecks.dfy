/**
 * What it is worth that a run of `scripts/publish-npm-baseline.ts` finishes while others interfere:
 * both verifiers read the registry call by call, each fact as it stands at that call.
 */
module PublishChecks {
  import opened Prelude
  import opened Publication

  /** The run has done its last write and is verifying, or has finished. */
  predicate Verifying(pc: Pc) {
    pc.CheckVersion? || pc.CheckTag? || pc.CheckLatest? || pc.Finished?
  }

  lemma VerifyingWritesNothing(b: Bundle, pc: Pc, reg: Registry)
    requires Verifying(pc)
    ensures Step(b, pc, reg).1 == reg
  {
  }

  /** What one step of the system can do to one run. */
  lemma RunMoves(bundles: set<Bundle>, s: System, s': System, i: nat)
    requires Next(bundles, s, s') && i < |s'.runs|
    ensures i >= |s.runs| ==> s'.runs[i].pc == ViewVersion(0)
    ensures i < |s.runs| ==>
              && s'.runs[i].bundle == s.runs[i].bundle
              && var pc, pc' := s.runs[i].pc, s'.runs[i].pc;
                 pc' == pc || pc' == Stopped || (pc', s'.reg) == Step(s.runs[i].bundle, pc, s.reg)
  {
    hide Step;
  }

  /** How many packages have had their version checked, and how many their tag. */
  function VersionsChecked(b: Bundle, pc: Pc): nat {
    match pc
    case CheckVersion(i) => i
    case CheckTag(i) => i + 1
    case CheckLatest => |b.packages|
    case Finished => |b.packages|
    case _ => 0
  }

  function TagsChecked(b: Bundle, pc: Pc): nat {
    match pc
    case CheckVersion(i) => i
    case CheckTag(i) => i
    case CheckLatest => |b.packages|
    case Finished => |b.packages|
    case _ => 0
  }

  ghost predicate VersionSeen(trace: seq<System>, from: nat, to: nat, b: Bundle, pkg: Package)
    requires to <= |trace|
  {
    exists q | from <= q < to :: Recorded(trace[q].reg, b, pkg)
  }

  ghost predicate TagSeen(trace: seq<System>, from: nat, to: nat, b: Bundle, pkg: Package)
    requires to <= |trace|
  {
    exists q | from <= q < to :: TagOf(trace[q].reg, pkg.name, b.distTag) == Some(b.version)
  }

  ghost predicate SeenRight(trace: seq<System>, from: nat, to: nat, b: Bundle, pc: Pc)
    requires to <= |trace|
  {
    && (forall j | 0 <= j < |b.packages| && j < VersionsChecked(b, pc) ::
      VersionSeen(trace, from, to, b, b.packages[j]))
    && (forall j | 0 <= j < |b.packages| && j < TagsChecked(b, pc) :: TagSeen(trace, from, to, b, b.packages[j]))
  }

  /** From state `from` to state `to` the run is there and only verifies. */
  ghost predicate VerifiesFrom(trace: seq<System>, from: nat, to: nat, i: nat, b: Bundle) {
    && from <= to < |trace|
    && forall q | from <= q <= to ::
      i < |trace[q].runs| && trace[q].runs[i].bundle == b && Verifying(trace[q].runs[i].pc)
  }

  lemma SeenLonger(trace: seq<System>, from: nat, to: nat, b: Bundle, pc: Pc)
    requires to < |trace| && SeenRight(trace, from, to, b, pc)
    ensures SeenRight(trace, from, to + 1, b, pc)
  {
    forall j | 0 <= j < |b.packages| && j < VersionsChecked(b, pc)
      ensures VersionSeen(trace, from, to + 1, b, b.packages[j])
    {
      assert VersionSeen(trace, from, to, b, b.packages[j]);
    }
    forall j | 0 <= j < |b.packages| && j < TagsChecked(b, pc)
      ensures TagSeen(trace, from, to + 1, b, b.packages[j])
    {
      assert TagSeen(trace, from, to, b, b.packages[j]);
    }
  }

  /** A verifying step goes on only past what it has just seen to be right. */
  lemma StepSees(trace: seq<System>, from: nat, k: nat, b: Bundle, pc: Pc)
    requires from <= k < |trace| && Verifying(pc) && SeenRight(trace, from, k, b, pc)
    ensures var pc' := Step(b, pc, trace[k].reg).0;
            Verifying(pc') ==> SeenRight(trace, from, k + 1, b, pc')
  {
    var pc' := Step(b, pc, trace[k].reg).0;
    SeenLonger(trace, from, k, b, pc);
    if Verifying(pc') {
      forall j | 0 <= j < |b.packages| && j < VersionsChecked(b, pc')
        ensures VersionSeen(trace, from, k + 1, b, b.packages[j])
      {
        if j >= VersionsChecked(b, pc) { assert Recorded(trace[k].reg, b, b.packages[j]); }
      }
      forall j | 0 <= j < |b.packages| && j < TagsChecked(b, pc')
        ensures TagSeen(trace, from, k + 1, b, b.packages[j])
      {
        if j >= TagsChecked(b, pc) {
          assert TagOf(trace[k].reg, b.packages[j].name, b.distTag) == Some(b.version);
        }
      }
    }
  }

  /**
   * Whatever others do in between: a run that is verifying has done so since some state, without
   * writing, and each fact it has checked was right in some state since then.
   */
  lemma {:induction false} CheckedSince(bundles: set<Bundle>, trace: seq<System>, k: nat, i: nat) returns (m: nat)
    requires Execution(bundles, trace) && k < |trace|
    requires i < |trace[k].runs| && Verifying(trace[k].runs[i].pc)
    ensures var r := trace[k].runs[i];
            VerifiesFrom(trace, m, k, i, r.bundle) && SeenRight(trace, m, k, r.bundle, r.pc)
    decreases k
  {
    var r := trace[k].runs[i];
    assert k > 0;
    var s := trace[k - 1];
    assert Next(bundles, s, trace[k - 1 + 1]);
    RunMoves(bundles, s, trace[k], i);
    var pc := s.runs[i].pc;
    if Verifying(pc) {
      m := CheckedSince(bundles, trace, k - 1, i);
      SeenLonger(trace, m, k - 1, r.bundle, pc);
      StepSees(trace, m, k - 1, r.bundle, pc);
    } else {
      m := k;
      NothingChecked(r.bundle, pc, s.reg);
    }
  }

  lemma NothingChecked(b: Bundle, pc: Pc, reg: Registry)
    requires !Verifying(pc) && Verifying(Step(b, pc, reg).0)
    ensures Step(b, pc, reg).0 == Check(b, 0)
    ensures VersionsChecked(b, Check(b, 0)) == 0 && TagsChecked(b, Check(b, 0)) == 0
  {
  }

  /** The one step by which a run finishes: the entry's `latest` names its version in that very state. */
  lemma FinishesOnLatest(bundles: set<Bundle>, s: System, s': System, i: nat)
    requires Next(bundles, s, s') && i < |s'.runs| && s'.runs[i].pc.Finished?
    requires i < |s.runs| ==> !s.runs[i].pc.Finished?
    ensures i < |s.runs| && s.runs[i].pc == CheckLatest && s'.reg == s.reg
    ensures TagOf(s.reg, ENTRY, LATEST) == Some(s'.runs[i].bundle.version)
  {
    RunMoves(bundles, s, s', i);
  }

  lemma NotYet(bundles: set<Bundle>, s: System, s': System, i: nat)
    requires Next(bundles, s, s') && i < |s.runs| && !s.runs[i].pc.Finished?
    requires TagOf(s.reg, ENTRY, LATEST) != Some(s.runs[i].bundle.version)
    ensures i < |s'.runs| && s'.runs[i].bundle == s.runs[i].bundle && !s'.runs[i].pc.Finished?
  {
    RunMoves(bundles, s, s', i);
  }

  /**
   * The run finished in the step from state `q`, where `latest` named its version; it had written
   * nothing since state `m`; and for each of its packages the recorded integrity and the dist-tag
   * were right in some state from `m` to `q`.
   */
  ghost predicate Established(trace: seq<System>, m: nat, q: nat, k: nat, i: nat, b: Bundle) {
    && VerifiesFrom(trace, m, k, i, b) && m <= q < k
    && trace[q].runs[i].pc == CheckLatest && trace[q + 1].runs[i].pc == Finished
    && TagOf(trace[q].reg, ENTRY, LATEST) == Some(b.version) && trace[q + 1].reg == trace[q].reg
    && AllSeen(trace, m, q, b)
  }

  ghost predicate AllSeen(trace: seq<System>, from: nat, to: nat, b: Bundle)
    requires to <= |trace|
  {
    forall pkg | pkg in b.packages :: VersionSeen(trace, from, to, b, pkg) && TagSeen(trace, from, to, b, pkg)
  }

  /** What a finished run has established, in any execution. */
  lemma {:induction false} FinishedMeans(bundles: set<Bundle>, trace: seq<System>, k: nat, i: nat)
    returns (m: nat, q: nat)
    requires Execution(bundles, trace) && k < |trace|
    requires i < |trace[k].runs| && trace[k].runs[i].pc.Finished?
    ensures Established(trace, m, q, k, i, trace[k].runs[i].bundle)
    decreases k
  {
    assert k > 0;
    var s := trace[k - 1];
    assert Next(bundles, s, trace[k - 1 + 1]);
    RunMoves(bundles, s, trace[k], i);
    hide Execution, Next, Step;
    if i < |s.runs| && s.runs[i].pc.Finished? {
      m, q := FinishedMeans(bundles, trace, k - 1, i);
      assert VerifiesFrom(trace, m, k - 1, i, s.runs[i].bundle);
      hide AllSeen;
      assert VerifiesFrom(trace, m, k, i, s.runs[i].bundle);
    } else {
      m, q := FinishedNow(bundles, trace, k, i);
    }
  }

  lemma ForEachPackage(trace: seq<System>, m: nat, q: nat, b: Bundle)
    requires q <= |trace| && SeenRight(trace, m, q, b, CheckLatest)
    ensures AllSeen(trace, m, q, b)
  {
    hide VersionSeen, TagSeen;
    forall pkg | pkg in b.packages ensures VersionSeen(trace, m, q, b, pkg) && TagSeen(trace, m, q, b, pkg) {
      var j :| 0 <= j < |b.packages| && b.packages[j] == pkg;
    }
  }

  lemma FinishedNow(bundles: set<Bundle>, trace: seq<System>, k: nat, i: nat) returns (m: nat, q: nat)
    requires Execution(bundles, trace) && 0 < k < |trace| && Next(bundles, trace[k - 1], trace[k])
    requires i < |trace[k].runs| && trace[k].runs[i].pc.Finished?
    requires i < |trace[k - 1].runs| ==> !trace[k - 1].runs[i].pc.Finished?
    ensures Established(trace, m, q, k, i, trace[k].runs[i].bundle)
  {
    FinishesOnLatest(bundles, trace[k - 1], trace[k], i);
    RunMoves(bundles, trace[k - 1], trace[k], i);
    q := k - 1;
    m := CheckedSince(bundles, trace, q, i);
    hide Execution, Next, Step, SeenRight, AllSeen;
    var b := trace[k].runs[i].bundle;
    ForEachPackage(trace, m, q, b);
    VerifiesOneMore(trace, m, q, i, b);
  }

  lemma VerifiesOneMore(trace: seq<System>, from: nat, to: nat, i: nat, b: Bundle)
    requires VerifiesFrom(trace, from, to, i, b) && to + 1 < |trace| && i < |trace[to + 1].runs|
    requires trace[to + 1].runs[i].bundle == b && Verifying(trace[to + 1].runs[i].pc)
    ensures VerifiesFrom(trace, from, to + 1, i, b)
  {
  }

  /** A run that has not finished does not finish while `latest` names something else. */
  lemma {:induction false} OvertakenNeverFinishes(bundles: set<Bundle>, trace: seq<System>, k: nat, l: nat, i: nat)
    requires Execution(bundles, trace) && k <= l < |trace|
    requires i < |trace[k].runs| && !trace[k].runs[i].pc.Finished?
    requires forall q | k <= q < l :: TagOf(trace[q].reg, ENTRY, LATEST) != Some(trace[k].runs[i].bundle.version)
    ensures i < |trace[l].runs| && trace[l].runs[i].bundle == trace[k].runs[i].bundle
    ensures !trace[l].runs[i].pc.Finished?
    decreases l
  {
    if k < l {
      OvertakenNeverFinishes(bundles, trace, k, l - 1, i);
      assert Next(bundles, trace[l - 1], trace[l - 1 + 1]);
      hide Execution, Next;
      NotYet(bundles, trace[l - 1], trace[l], i);
    }
  }

  /** And if it looks at `latest` then, it has failed for good. */
  lemma OvertakenStops(b: Bundle, reg: Registry, later: Registry)
    requires TagOf(reg, ENTRY, LATEST) != Some(b.version)
    ensures Step(b, CheckLatest, reg) == (Stopped, reg) && Step(b, Stopped, later) == (Stopped, later)
  {
  }
}
