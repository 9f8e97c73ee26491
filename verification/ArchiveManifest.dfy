/**
 * The append-only manifest of archived notes (`scripts/archived-agent-notes.ts`,
 * extendArchiveManifest and validateArchiveManifestExtension). A manifest maps paths to content
 * hashes; the hash is a parameter.
 */
module ArchiveManifest {
  import opened Prelude

  type Manifest = map<string, string>
  type Artifacts = map<string, string>

  datatype Problem = Missing(path: string) | Changed(path: string)

  /** The keys of an object in the order its entries come. */
  predicate Lists(paths: seq<string>, keys: set<string>) {
    && (forall i, j | 0 <= i < j < |paths| :: paths[i] != paths[j])
    && (forall p | p in paths :: p in keys) && (forall p | p in keys :: p in paths)
  }

  // ---------------------------------------------------------------- specification

  function SealProblem(sealed: Manifest, path: string, actual: Option<string>): seq<Problem> {
    if path !in sealed then []
    else if actual.None? then [Missing(path)]
    else if actual.value != sealed[path] then [Changed(path)]
    else []
  }

  function HashAt(artifacts: Artifacts, hash: string -> string, path: string): Option<string> {
    if path in artifacts then Some(hash(artifacts[path])) else None
  }

  function SealAt(m: Manifest, path: string): Option<string> {
    if path in m then Some(m[path]) else None
  }

  function Problems(sealed: Manifest, paths: seq<string>, actual: string -> Option<string>): seq<Problem>
    decreases |paths|
  {
    if paths == [] then [] else SealProblem(sealed, paths[0], actual(paths[0])) + Problems(sealed, paths[1..], actual)
  }

  /** Every seal kept, and one added for each artifact without one. */
  function Extended(existing: Manifest, artifacts: Artifacts, hash: string -> string): Manifest {
    map p | p in existing.Keys + artifacts.Keys :: if p in existing then existing[p] else hash(artifacts[p])
  }

  function Unsealed(existing: Manifest, paths: seq<string>): seq<string>
    decreases |paths|
  {
    if paths == [] then [] else (if paths[0] in existing then [] else [paths[0]]) + Unsealed(existing, paths[1..])
  }

  /** All of the first manifest is in the second. */
  predicate Extends(b: Manifest, m: Manifest) {
    forall p | p in b :: p in m && m[p] == b[p]
  }

  /** Every sealed artifact is there with the content that was sealed. */
  predicate Intact(m: Manifest, artifacts: Artifacts, hash: string -> string) {
    forall p | p in m :: p in artifacts && hash(artifacts[p]) == m[p]
  }

  lemma {:induction false} ProblemsIff(sealed: Manifest, paths: seq<string>, actual: string -> Option<string>)
    requires Lists(paths, sealed.Keys)
    ensures Problems(sealed, paths, actual) == [] <==> forall p | p in sealed :: actual(p) == Some(sealed[p])
  {
    NoProblem(sealed, paths, actual);
  }

  lemma {:induction false} NoProblem(sealed: Manifest, paths: seq<string>, actual: string -> Option<string>)
    ensures Problems(sealed, paths, actual) == [] <==>
            forall p | p in paths :: p in sealed ==> actual(p) == Some(sealed[p])
    decreases |paths|
  {
    if paths != [] {
      NoProblem(sealed, paths[1..], actual);
      assert forall p | p in paths :: p == paths[0] || p in paths[1..];
    }
  }

  /** The problems are exactly the seals without an artifact, and those whose artifact has another hash. */
  lemma {:induction false} ProblemsSay(
    sealed: Manifest, paths: seq<string>, actual: string -> Option<string>, path: string)
    ensures Missing(path) in Problems(sealed, paths, actual) <==>
              path in paths && path in sealed && actual(path) == None
    ensures Changed(path) in Problems(sealed, paths, actual) <==>
              path in paths && path in sealed && actual(path).Some? && actual(path).value != sealed[path]
    decreases |paths|
  {
    if paths != [] {
      ProblemsSay(sealed, paths[1..], actual, path);
      assert paths == [paths[0]] + paths[1..];
    }
  }

  lemma ProblemsStep(sealed: Manifest, paths: seq<string>, actual: string -> Option<string>, i: nat)
    requires i < |paths|
    ensures Problems(sealed, paths[i..], actual)
         == SealProblem(sealed, paths[i], actual(paths[i])) + Problems(sealed, paths[i + 1..], actual)
    ensures Problems(sealed, paths[|paths|..], actual) == []
  {
    assert paths[i..][1..] == paths[i + 1..];
  }

  lemma {:induction false} UnsealedIff(existing: Manifest, paths: seq<string>)
    ensures forall p :: p in Unsealed(existing, paths) <==> p in paths && p !in existing
    ensures Unsealed(existing, paths) == [] <==> forall p | p in paths :: p in existing
    decreases |paths|
  {
    if paths != [] {
      UnsealedIff(existing, paths[1..]);
      assert forall p | p in paths :: p == paths[0] || p in paths[1..];
    }
  }

  lemma UnsealedStep(existing: Manifest, paths: seq<string>, i: nat, r: seq<string>)
    requires i < |paths|
    ensures r + Unsealed(existing, paths[i..])
         == (if paths[i] in existing then r else r + [paths[i]]) + Unsealed(existing, paths[i + 1..])
  {
    assert paths[i..][1..] == paths[i + 1..];
  }

  lemma Whole(paths: seq<string>)
    ensures paths[0..] == paths && paths[..|paths|] == paths && paths[|paths|..] == []
  {
  }

  // ---------------------------------------------------------------- the loops

  method ValidateExtension(baseline: Manifest, paths: seq<string>, current: Manifest) returns (errors: seq<Problem>)
    requires Lists(paths, baseline.Keys)
    ensures errors == Problems(baseline, paths, p => SealAt(current, p))
    ensures errors == [] <==> Extends(baseline, current)
  {
    ghost var actual := p => SealAt(current, p);
    errors := CheckSeals(baseline, paths, current.Keys, p requires p in current => current[p], actual);
    ProblemsIff(baseline, paths, actual);
  }

  /** The loop both checks share: a lookup may fail, or give another hash. */
  method CheckSeals(sealed: Manifest, paths: seq<string>, present: set<string>, hashOf: string --> string,
                    ghost actual: string -> Option<string>)
    returns (errors: seq<Problem>)
    requires Lists(paths, sealed.Keys)
    requires forall p | p in present :: hashOf.requires(p) && actual(p) == Some(hashOf(p))
    requires forall p: string | p !in present :: actual(p) == None
    ensures errors == Problems(sealed, paths, actual)
  {
    hide Problems;
    errors := [];
    Whole(paths);
    for i := 0 to |paths|
      invariant Problems(sealed, paths, actual) == errors + Problems(sealed, paths[i..], actual)
    {
      var path := paths[i];
      ProblemsStep(sealed, paths, actual, i);
      if path !in present {
        errors := errors + [Missing(path)];
      } else if hashOf(path) != sealed[path] {
        errors := errors + [Changed(path)];
      }
    }
    NothingToCheck(sealed, actual);
  }

  lemma NothingToCheck(sealed: Manifest, actual: string -> Option<string>)
    ensures Problems(sealed, [], actual) == []
  {
  }

  method ExtendManifest(
    existing: Manifest, paths: seq<string>, artifacts: Artifacts, sorted: seq<string>, hash: string -> string)
    returns (files: Manifest, added: seq<string>, errors: seq<Problem>)
    requires Lists(paths, existing.Keys) && Lists(sorted, artifacts.Keys)
    ensures files == Extended(existing, artifacts, hash)
    ensures added == Unsealed(existing, sorted)
    ensures errors == Problems(existing, paths, p => HashAt(artifacts, hash, p))
    ensures errors == [] <==> Intact(existing, artifacts, hash)
  {
    ghost var actual := p => HashAt(artifacts, hash, p);
    errors := CheckSeals(existing, paths, artifacts.Keys, p requires p in artifacts => hash(artifacts[p]), actual);
    ProblemsIff(existing, paths, actual);
    files, added := Append(existing, artifacts, sorted, hash);
  }

  method Append(existing: Manifest, artifacts: Artifacts, sorted: seq<string>, hash: string -> string)
    returns (files: Manifest, added: seq<string>)
    requires Lists(sorted, artifacts.Keys)
    ensures files == Extended(existing, artifacts, hash)
    ensures added == Unsealed(existing, sorted)
  {
    hide Unsealed, Partly, AsSet, Lists, Extended;
    files, added := existing, [];
    ghost var done: set<string> := {};
    Whole(sorted);
    NothingSealed(existing, artifacts, hash);
    for i := 0 to |sorted|
      invariant Unsealed(existing, sorted) == added + Unsealed(existing, sorted[i..])
      invariant done == AsSet(sorted[..i]) && Partly(files, existing, artifacts, done, hash)
    {
      var path := sorted[i];
      UnsealedStep(existing, sorted, i, added);
      ListsStep(sorted, artifacts.Keys, i);
      PartlyStep(files, existing, artifacts, done, path, hash);
      if path !in files {
        files := files[path := hash(artifacts[path])];
        added := added + [path];
      }
      done := done + {path};
    }
    NothingUnsealed(existing, added);
    AllSealed(files, existing, artifacts, sorted, hash);
  }

  lemma NothingUnsealed(existing: Manifest, r: seq<string>)
    ensures r + Unsealed(existing, []) == r
  {
  }

  function AsSet(s: seq<string>): set<string> {
    set p | p in s
  }

  /** The manifest once these artifacts are sealed. */
  ghost predicate Partly(
    files: Manifest, existing: Manifest, artifacts: Artifacts, done: set<string>, hash: string -> string) {
    && done <= artifacts.Keys
    && files.Keys == existing.Keys + done
    && forall p | p in files :: files[p] == if p in existing then existing[p] else hash(artifacts[p])
  }

  lemma NothingSealed(existing: Manifest, artifacts: Artifacts, hash: string -> string)
    ensures Partly(existing, existing, artifacts, {}, hash) && AsSet([]) == {}
  {
  }

  lemma ListsStep(sorted: seq<string>, keys: set<string>, i: nat)
    requires Lists(sorted, keys) && i < |sorted|
    ensures AsSet(sorted[..i + 1]) == AsSet(sorted[..i]) + {sorted[i]}
    ensures sorted[i] in keys && sorted[i] !in AsSet(sorted[..i])
  {
    assert sorted[..i + 1] == sorted[..i] + [sorted[i]];
  }

  lemma PartlyStep(files: Manifest, existing: Manifest, artifacts: Artifacts, done: set<string>, path: string,
    hash: string -> string)
    requires Partly(files, existing, artifacts, done, hash) && path in artifacts && path !in done
    ensures path in files <==> path in existing
    ensures path in files ==> Partly(files, existing, artifacts, done + {path}, hash)
    ensures path !in files ==> Partly(files[path := hash(artifacts[path])], existing, artifacts, done + {path}, hash)
  {
  }

  lemma AllSealed(
    files: Manifest, existing: Manifest, artifacts: Artifacts, sorted: seq<string>, hash: string -> string)
    requires Lists(sorted, artifacts.Keys) && Partly(files, existing, artifacts, AsSet(sorted), hash)
    ensures files == Extended(existing, artifacts, hash)
  {
    assert AsSet(sorted) == artifacts.Keys;
  }

  // ---------------------------------------------------------------- one run

  /** No seal is dropped or changed by extending, whatever the artifacts are. */
  lemma ExtensionKeepsSeals(existing: Manifest, artifacts: Artifacts, hash: string -> string)
    ensures Extends(existing, Extended(existing, artifacts, hash))
    ensures Extended(existing, artifacts, hash).Keys == existing.Keys + artifacts.Keys
  {
  }

  predicate CollisionFree(hash: string -> string, xs: set<string>) {
    forall x, y | x in xs && y in xs && hash(x) == hash(y) :: x == y
  }

  /**
   * A check run reports nothing exactly when the manifest is the hash of each artifact, no more
   * and no less, and extends the trusted baseline.
   */
  lemma CheckIsCleanIff(
    baseline: Manifest, m: Manifest, artifacts: Artifacts, sorted: seq<string>, hash: string -> string)
    requires Lists(sorted, artifacts.Keys)
    ensures Extends(baseline, m) && Intact(m, artifacts, hash) && Unsealed(m, sorted) == []
            <==> Extends(baseline, m) && m == map p | p in artifacts :: hash(artifacts[p])
  {
    UnsealedIff(m, sorted);
    assert forall p | p in artifacts :: p in sorted;
  }

  /**
   * Rewriting manifest and content together does not pass: against a trusted baseline, sealed
   * content is the original.
   */
  lemma ForgedManifestIsCaught(
    baseline: Manifest, original: Artifacts, m: Manifest, artifacts: Artifacts, hash: string -> string)
    requires Intact(baseline, original, hash) && CollisionFree(hash, original.Values + artifacts.Values)
    requires Extends(baseline, m) && Intact(m, artifacts, hash)
    ensures forall p | p in baseline :: p in artifacts && p in original && artifacts[p] == original[p]
  {
    forall p | p in baseline ensures p in artifacts && p in original && artifacts[p] == original[p] {
      assert p in m && m[p] == baseline[p];
      assert original[p] in original.Values && artifacts[p] in artifacts.Values;
    }
  }

  // ---------------------------------------------------------------- histories

  /** Successive writing runs, each without errors, from one manifest to the next. */
  ghost predicate History(ms: seq<Manifest>, runs: seq<Artifacts>, hash: string -> string) {
    && |ms| == |runs| + 1
    && (forall i | 0 <= i < |runs| :: Intact(ms[i], runs[i], hash))
    && forall i | 0 <= i < |runs| :: Written(ms, runs, hash, i)
  }

  predicate Written(ms: seq<Manifest>, runs: seq<Artifacts>, hash: string -> string, i: nat)
    requires |ms| == |runs| + 1 && i < |runs|
  {
    ms[i + 1] == Extended(ms[i], runs[i], hash)
  }

  /** The last manifest passes validation against every earlier one. */
  lemma {:induction false} HistoryExtends(
    ms: seq<Manifest>, runs: seq<Artifacts>, hash: string -> string, i: nat, j: nat)
    requires History(ms, runs, hash) && i <= j < |ms|
    ensures Extends(ms[i], ms[j])
    decreases j
  {
    if i < j {
      HistoryExtends(ms, runs, hash, i, j - 1);
      assert Written(ms, runs, hash, j - 1);
      ExtensionKeepsSeals(ms[j - 1], runs[j - 1], hash);
    }
  }

  /** Content sealed in one run is byte for byte the content of every later run. */
  lemma SealedContentIsFrozen(
    ms: seq<Manifest>, runs: seq<Artifacts>, hash: string -> string, i: nat, j: nat, p: string)
    requires History(ms, runs, hash) && i < j < |runs| && p in runs[i]
    requires CollisionFree(hash, runs[i].Values + runs[j].Values)
    ensures p in runs[j] && runs[j][p] == runs[i][p]
  {
    assert Written(ms, runs, hash, i);
    assert Intact(ms[i], runs[i], hash) && Intact(ms[j], runs[j], hash);
    assert p in ms[i + 1] && ms[i + 1][p] == hash(runs[i][p]);
    HistoryExtends(ms, runs, hash, i + 1, j);
    assert p in ms[j] && ms[j][p] == hash(runs[i][p]);
    assert runs[i][p] in runs[i].Values && runs[j][p] in runs[j].Values;
  }
}
