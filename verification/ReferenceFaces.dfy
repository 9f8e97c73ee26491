/**
 * Compiler-face isolation across Project References (`scripts/project-reference-faces.ts`).
 * A path is its list of segments from the file-system root; a config names its references and its
 * parent by the paths they resolve to.
 */
module ReferenceFaces {
  import opened Prelude

  type Path = seq<string>

  datatype Face = HostFace | ClientFace

  /** `parent`: the local config it extends, if any; `references`: the configs its references name. */
  datatype Config = Config(parent: Option<Path>, references: seq<Path>)

  /** Every existing config file; one that cannot be parsed makes the collection throw. */
  datatype File = Parsed(config: Config) | Malformed

  datatype Repo = Repo(root: Path, files: map<Path, File>, splits: set<Path>)

  function At(dir: Path, name: string): Path { dir + [name] }

  function FaceFile(face: Face): string {
    match face case HostFace => "tsconfig.host.json" case ClientFace => "tsconfig.client.json"
  }

  // ---------------------------------------------------------------- the innermost split root

  /** `relative(root, path)` does not leave `root`. */
  predicate Inside(root: Path, path: Path) { root <= path }

  /** Length of the path as text: what split roots are sorted by. */
  function TextLength(p: Path): nat {
    if p == [] then 0 else TextLength(p[..|p| - 1]) + 1 + |p[|p| - 1]|
  }

  function PathText(p: Path): string {
    if p == [] then "" else PathText(p[..|p| - 1]) + "/" + p[|p| - 1]
  }

  lemma {:induction false} TextLengthIs(p: Path)
    ensures TextLength(p) == |PathText(p)|
  {
    if p != [] { TextLengthIs(p[..|p| - 1]); }
  }

  /** `splitRoots.find(...)` on roots sorted by descending length. */
  function FirstContaining(sorted: seq<Path>, path: Path): (r: Option<Path>)
    ensures r.Some? ==> r.value in sorted && Inside(r.value, path)
    ensures r.None? ==> forall s | s in sorted :: !Inside(s, path)
  {
    if sorted == [] then None
    else if Inside(sorted[0], path) then Some(sorted[0])
    else FirstContaining(sorted[1..], path)
  }

  predicate LongestFirst(sorted: seq<Path>) {
    forall i, j | 0 <= i < j < |sorted| :: TextLength(sorted[i]) >= TextLength(sorted[j])
  }

  lemma {:induction false} LongerIsDeeper(a: Path, b: Path, path: Path)
    requires Inside(a, path) && Inside(b, path)
    ensures |a| < |b| ==> TextLength(a) < TextLength(b)
    decreases |b|
  {
    if |a| < |b| {
      var c := b[..|b| - 1];
      assert c == path[..|c|];
      if |a| < |c| { LongerIsDeeper(a, c, path); } else { assert a == c; }
    }
  }

  /** The first match is the innermost split root around the target, whatever the ties. */
  lemma {:induction false} FirstIsInnermost(sorted: seq<Path>, path: Path, other: Path)
    requires LongestFirst(sorted) && other in sorted && Inside(other, path)
    ensures FirstContaining(sorted, path).Some? && Inside(other, FirstContaining(sorted, path).value)
  {
    if Inside(sorted[0], path) {
      var i :| 0 <= i < |sorted| && sorted[i] == other;
      LongerIsDeeper(sorted[0], other, path);
      assert other == path[..|other|] && sorted[0] == path[..|sorted[0]|];
      assert other == sorted[0][..|other|];
    } else {
      FirstIsInnermost(sorted[1..], path, other);
    }
  }

  ghost predicate Innermost(splits: set<Path>, path: Path, s: Path) {
    s in splits && Inside(s, path) && forall t | t in splits && Inside(t, path) :: Inside(t, s)
  }

  // ---------------------------------------------------------------- faces

  datatype FaceResult = Face(face: Option<Face>) | FaceThrows

  /** A face the path itself shows, before anything is followed. */
  function OwnFace(repo: Repo, path: Path): Option<Face> {
    if path != [] && path[|path| - 1] == "tsconfig.host.json" then Some(HostFace)
    else if path != [] && path[|path| - 1] == "tsconfig.client.json" then Some(ClientFace)
    else if path == At(repo.root, "tsconfig.base.json") then Some(HostFace)
    else if path == At(repo.root, "tsconfig.base.client.json") then Some(ClientFace)
    else None
  }

  /** Exactly which configs show a face by their own path. */
  lemma FacesByName(repo: Repo, path: Path)
    ensures OwnFace(repo, path) == Some(HostFace) <==>
              (path != [] && path[|path| - 1] == "tsconfig.host.json") || path == repo.root + ["tsconfig.base.json"]
    ensures OwnFace(repo, path) == Some(ClientFace) <==>
              (path != [] && path[|path| - 1] == "tsconfig.client.json")
              || path == repo.root + ["tsconfig.base.client.json"]
  {
    var host, client := "tsconfig.base.json", "tsconfig.base.client.json";
    assert (repo.root + [host])[|repo.root|] == host && (repo.root + [client])[|repo.root|] == client;
    assert |host| != |client| && |host| != |"tsconfig.client.json"| && |client| != |"tsconfig.host.json"|;
  }

  /** The next config on the `extends` chain, when there is one to follow. */
  function Parent(repo: Repo, path: Path): Option<Path> {
    if path in repo.files && repo.files[path].Parsed? && repo.files[path].config.parent.Some? &&
       repo.files[path].config.parent.value in repo.files
    then repo.files[path].config.parent else None
  }

  /** The `n`-th config of the chain. */
  function Ancestor(repo: Repo, path: Path, n: nat): Option<Path>
    decreases n
  {
    if n == 0 then Some(path)
    else match Parent(repo, path)
      case None => None
      case Some(p) => Ancestor(repo, p, n - 1)
  }

  /** `projectFace`, with the configs already passed through. */
  function ProjectFace(repo: Repo, path: Path, seen: set<Path>): FaceResult
    decreases repo.files.Keys - seen
  {
    var own := OwnFace(repo, path);
    if own.Some? then Face(own)
    else if path in seen then Face(None)
    else match Parent(repo, path)
      case None => Face(None)
      case Some(parent) =>
        if repo.files[parent].Malformed? then FaceThrows
        else ProjectFace(repo, parent, seen + {path})
  }

  /** The first face along the chain, at step `n`. */
  ghost predicate FirstFaceAt(repo: Repo, path: Path, n: nat, face: Face) {
    && Ancestor(repo, path, n).Some? && OwnFace(repo, Ancestor(repo, path, n).value) == Some(face)
    && forall m | 0 <= m < n :: Ancestor(repo, path, m).Some? && OwnFace(repo, Ancestor(repo, path, m).value).None?
  }

  lemma FaceStep(repo: Repo, path: Path, n: nat, face: Face)
    ensures FirstFaceAt(repo, path, n, face) <==>
            if n == 0 then OwnFace(repo, path) == Some(face)
            else
              OwnFace(repo, path).None? && Parent(repo, path).Some?
              && FirstFaceAt(repo, Parent(repo, path).value, n - 1, face)
  {
    if n > 0 && Parent(repo, path).Some? {
      var p := Parent(repo, path).value;
      assert forall m: nat :: Ancestor(repo, path, m + 1) == Ancestor(repo, p, m);
      assert Ancestor(repo, path, 0) == Some(path);
      if FirstFaceAt(repo, path, n, face) {
        forall m | 0 <= m < n - 1
          ensures Ancestor(repo, p, m).Some? && OwnFace(repo, Ancestor(repo, p, m).value).None?
        {
          assert Ancestor(repo, path, m + 1).Some?;
        }
      }
      if OwnFace(repo, path).None? && FirstFaceAt(repo, p, n - 1, face) {
        forall m | 0 <= m < n
          ensures Ancestor(repo, path, m).Some? && OwnFace(repo, Ancestor(repo, path, m).value).None?
        {
          if m > 0 { assert Ancestor(repo, p, m - 1).Some?; }
        }
      }
    } else if n > 0 {
      assert Ancestor(repo, path, n).None?;
    }
  }

  lemma {:induction false} LoopHasNoFace(repo: Repo, loop: set<Path>, path: Path, n: nat, face: Face)
    requires path in loop
    requires forall c | c in loop :: OwnFace(repo, c).None? && Parent(repo, c).Some? && Parent(repo, c).value in loop
    ensures !FirstFaceAt(repo, path, n, face)
    decreases n
  {
    FaceStep(repo, path, n, face);
    if n > 0 { LoopHasNoFace(repo, loop, Parent(repo, path).value, n - 1, face); }
  }

  /** `projectFace` answers with the first face on the chain, and with none exactly when there is none. */
  lemma {:induction false} FaceIsFirst(repo: Repo, path: Path, seen: set<Path>, face: Face)
    requires forall c | c in seen ::
               OwnFace(repo, c).None? && Parent(repo, c).Some?
                 && (Parent(repo, c).value in seen || Parent(repo, c).value == path)
    ensures var r := ProjectFace(repo, path, seen);
            r.Face? ==> (r.face == Some(face) <==> exists n: nat :: FirstFaceAt(repo, path, n, face))
    decreases repo.files.Keys - seen
  {
    if OwnFace(repo, path).Some? {
      forall n: nat ensures FirstFaceAt(repo, path, n, face) <==> n == 0 && OwnFace(repo, path) == Some(face) {
        FaceStep(repo, path, n, face);
      }
      assert FirstFaceAt(repo, path, 0, face) <==> OwnFace(repo, path) == Some(face);
    } else if path in seen {
      forall n: nat ensures !FirstFaceAt(repo, path, n, face) { LoopHasNoFace(repo, seen, path, n, face); }
    } else if Parent(repo, path).None? {
      forall n: nat ensures !FirstFaceAt(repo, path, n, face) { FaceStep(repo, path, n, face); }
    } else {
      var parent := Parent(repo, path).value;
      if repo.files[parent].Parsed? {
        FaceIsFirst(repo, parent, seen + {path}, face);
        forall n: nat ensures FirstFaceAt(repo, path, n, face) <==> n > 0 && FirstFaceAt(repo, parent, n - 1, face) {
          FaceStep(repo, path, n, face);
        }
        if n: nat :| FirstFaceAt(repo, parent, n, face) { assert FirstFaceAt(repo, path, n + 1, face); }
      }
    }
  }

  // ---------------------------------------------------------------- the traversal

  datatype Violation = Violation(source: Path, target: Path)

  /** A reference into a split project must name that project's leaf for the source's face. */
  predicate Bad(sorted: seq<Path>, face: Option<Face>, target: Path) {
    var split := FirstContaining(sorted, target);
    split.Some? && (face.None? || target != At(split.value, FaceFile(face.value)))
  }

  /** The reference enters a split project, the innermost one around it, by another file than the leaf of this face. */
  ghost predicate WrongLeaf(splits: set<Path>, face: Option<Face>, target: Path) {
    exists s :: Innermost(splits, target, s) && (face.None? || target != At(s, FaceFile(face.value)))
  }

  /** The check finds the wrong leaves, however the roots of equal length were sorted. */
  lemma BadMeans(splits: set<Path>, sorted: seq<Path>, face: Option<Face>, target: Path)
    requires LongestFirst(sorted) && forall s :: s in sorted <==> s in splits
    ensures Bad(sorted, face, target) <==> WrongLeaf(splits, face, target)
  {
    var split := FirstContaining(sorted, target);
    if split.Some? {
      forall t | t in splits && Inside(t, target) ensures Inside(t, split.value) {
        FirstIsInnermost(sorted, target, t);
      }
      assert Innermost(splits, target, split.value);
      forall s | Innermost(splits, target, s) ensures s == split.value {
        assert Inside(s, split.value) && Inside(split.value, s);
      }
    }
  }

  /** A reference that passes into a split project arrives at a config of the very face it came from. */
  lemma GoodKeepsFace(repo: Repo, face: Face, target: Path, s: Path, seen: set<Path>)
    requires Innermost(repo.splits, target, s) && !WrongLeaf(repo.splits, Some(face), target)
    ensures ProjectFace(repo, target, seen) == Face(Some(face))
    ensures target == s + [if face.HostFace? then "tsconfig.host.json" else "tsconfig.client.json"]
  {
    assert target == At(s, FaceFile(face)) && target[|target| - 1] == FaceFile(face);
  }

  /** What visiting a config yields: nothing if it does not exist. */
  datatype Visit = NoConfig | Throws | Visited(good: set<Path>, bad: set<Path>)

  ghost function VisitOf(repo: Repo, path: Path): Visit {
    if path !in repo.files then NoConfig
    else if repo.files[path].Malformed? then Throws
    else match ProjectFace(repo, path, {})
      case FaceThrows => Throws
      case Face(face) =>
        var refs := repo.files[path].config.references;
        Visited(set t | t in refs && !WrongLeaf(repo.splits, face, t),
                set t | t in refs && WrongLeaf(repo.splits, face, t))
  }

  function Aggregates(repo: Repo): set<Path> {
    {At(repo.root, "tsconfig.host.json"), At(repo.root, "tsconfig.client.json")}
  }

  /** Reached from an aggregate by `n` references, following every one of them, or only the good ones. */
  ghost predicate Reaches(visit: Path -> Visit, starts: set<Path>, all: bool, path: Path, n: nat)
    decreases n
  {
    if n == 0 then path in starts
    else exists p :: Reaches(visit, starts, all, p, n - 1) && visit(p).Visited? &&
                     (path in visit(p).good || (all && path in visit(p).bad))
  }

  ghost predicate Reached(visit: Path -> Visit, starts: set<Path>, all: bool, path: Path) {
    exists n: nat :: Reaches(visit, starts, all, path, n)
  }

  lemma ReachedOnce(visit: Path -> Visit, starts: set<Path>, all: bool, p: Path, q: Path)
    requires Reached(visit, starts, all, p) && visit(p).Visited?
    requires q in visit(p).good || (all && q in visit(p).bad)
    ensures Reached(visit, starts, all, q)
  {
    var n: nat :| Reaches(visit, starts, all, p, n);
    assert Reaches(visit, starts, all, q, n + 1);
  }

  /** A config reached past a bad reference is reached only after a config reached without any. */
  lemma {:induction false} FirstBad(visit: Path -> Visit, starts: set<Path>, path: Path, n: nat)
    requires Reaches(visit, starts, true, path, n)
    ensures Reached(visit, starts, false, path) ||
            exists p :: Reached(visit, starts, false, p) && visit(p).Visited? && visit(p).bad != {}
    decreases n
  {
    if n == 0 {
      assert Reaches(visit, starts, false, path, 0);
    } else {
      var p :| Reaches(visit, starts, true, p, n - 1) && visit(p).Visited? &&
               (path in visit(p).good || path in visit(p).bad);
      FirstBad(visit, starts, p, n - 1);
      if Reached(visit, starts, false, p) && visit(p).bad == {} { ReachedOnce(visit, starts, false, p, path); }
    }
  }

  lemma {:induction false} GoodReachSubset(visit: Path -> Visit, starts: set<Path>, path: Path, n: nat)
    requires Reaches(visit, starts, false, path, n)
    ensures Reaches(visit, starts, true, path, n)
    decreases n
  {
    if n > 0 {
      var p :| Reaches(visit, starts, false, p, n - 1) && visit(p).Visited? && path in visit(p).good;
      GoodReachSubset(visit, starts, p, n - 1);
    }
  }

  /** Exactly the bad references of configs reached through good ones. */
  ghost predicate Reports(visit: Path -> Visit, starts: set<Path>, violations: set<Violation>) {
    forall v :: v in violations <==>
      Reached(visit, starts, false, v.source) && visit(v.source).Visited? && v.target in visit(v.source).bad
  }

  /** No violation means every config reachable at all has only good references, and conversely. */
  lemma CleanIffAllGood(visit: Path -> Visit, starts: set<Path>, violations: set<Violation>)
    requires Reports(visit, starts, violations)
    ensures violations == {} <==>
            forall p | Reached(visit, starts, true, p) && visit(p).Visited? :: visit(p).bad == {}
  {
    if violations == {} {
      forall p | Reached(visit, starts, true, p) && visit(p).Visited? ensures visit(p).bad == {} {
        var n: nat :| Reaches(visit, starts, true, p, n);
        FirstBad(visit, starts, p, n);
        forall q | Reached(visit, starts, false, q) && visit(q).Visited? ensures visit(q).bad == {} {
          assert forall t | t in visit(q).bad :: Violation(q, t) in violations;
        }
      }
    } else {
      var v :| v in violations;
      var n: nat :| Reaches(visit, starts, false, v.source, n);
      GoodReachSubset(visit, starts, v.source, n);
      assert v.target in visit(v.source).bad;
    }
  }

  /** What holds of the work list between two rounds. */
  ghost predicate Inv(
    visit: Path -> Visit, starts: set<Path>, visited: set<Path>, pending: seq<Path>, violations: set<Violation>) {
    && (forall p | p in visited || p in pending :: Reached(visit, starts, false, p))
    && (forall p | p in visited :: visit(p).Visited?)
    && (forall p | p in starts :: p in visited || p in pending || visit(p).NoConfig?)
    && (forall p, t | p in visited && t in visit(p).good :: t in visited || t in pending || visit(t).NoConfig?)
    && (forall v :: v in violations <==> v.source in visited && v.target in visit(v.source).bad)
  }

  lemma {:induction false} Closed(
    visit: Path -> Visit, starts: set<Path>, visited: set<Path>, violations: set<Violation>, path: Path, n: nat)
    requires Inv(visit, starts, visited, [], violations) && Reaches(visit, starts, false, path, n)
    ensures path in visited || visit(path).NoConfig?
    decreases n
  {
    if n > 0 {
      var p :| Reaches(visit, starts, false, p, n - 1) && visit(p).Visited? && path in visit(p).good;
      Closed(visit, starts, visited, violations, p, n - 1);
    }
  }

  lemma AllVisited(visit: Path -> Visit, starts: set<Path>, visited: set<Path>, violations: set<Violation>)
    requires Inv(visit, starts, visited, [], violations)
    ensures Reports(visit, starts, violations)
    ensures forall p | Reached(visit, starts, false, p) :: !visit(p).Throws?
  {
    forall p | Reached(visit, starts, false, p) ensures !visit(p).Throws? {
      var n: nat :| Reaches(visit, starts, false, p, n);
      Closed(visit, starts, visited, violations, p, n);
    }
    forall v ensures v in violations <==>
      Reached(visit, starts, false, v.source) && visit(v.source).Visited? && v.target in visit(v.source).bad
    {
      if n: nat :| Reaches(visit, starts, false, v.source, n) {
        Closed(visit, starts, visited, violations, v.source, n);
      }
    }
  }

  lemma Skip(
    visit: Path -> Visit, starts: set<Path>, visited: set<Path>, pending: seq<Path>, violations: set<Violation>)
    requires Inv(visit, starts, visited, pending, violations) && pending != []
    requires var p := pending[|pending| - 1]; p in visited || visit(p).NoConfig?
    ensures Inv(visit, starts, visited, pending[..|pending| - 1], violations)
  {
    assert pending == pending[..|pending| - 1] + [pending[|pending| - 1]];
  }

  lemma Enter(
    visit: Path -> Visit, starts: set<Path>, visited: set<Path>, pending: seq<Path>, violations: set<Violation>,
              pending': seq<Path>, violations': set<Violation>)
    requires Inv(visit, starts, visited, pending, violations) && pending != []
    requires var p := pending[|pending| - 1];
             && p !in visited && visit(p).Visited?
             && (forall t :: t in pending' <==> t in pending[..|pending| - 1] || t in visit(p).good)
             && (forall v :: v in violations' <==> v in violations || (v.source == p && v.target in visit(p).bad))
    ensures Inv(visit, starts, visited + {pending[|pending| - 1]}, pending', violations')
  {
    var p := pending[|pending| - 1];
    assert pending == pending[..|pending| - 1] + [p];
    forall t | t in visit(p).good ensures Reached(visit, starts, false, t) { ReachedOnce(visit, starts, false, p, t); }
  }

  /** `splitProjectRoots`: the split roots, longest path first. */
  method SortRoots(splits: set<Path>) returns (sorted: seq<Path>)
    ensures LongestFirst(sorted) && forall s :: s in sorted <==> s in splits
  {
    sorted := [];
    var rest := splits;
    while rest != {}
      invariant rest <= splits && LongestFirst(sorted)
      invariant forall s :: s in sorted <==> s in splits - rest
    {
      var s :| s in rest;
      rest := rest - {s};
      var k := 0;
      while k < |sorted| && TextLength(sorted[k]) >= TextLength(s)
        invariant 0 <= k <= |sorted|
        invariant forall i | 0 <= i < k :: TextLength(sorted[i]) >= TextLength(s)
      {
        k := k + 1;
      }
      InsertMembers(sorted, s, k);
      sorted := sorted[..k] + [s] + sorted[k..];
    }
  }

  /** The references of one config: a bad one is reported, any other is put on the work list. */
  method ScanReferences(splits: set<Path>, roots: seq<Path>, path: Path, face: Option<Face>, refs: seq<Path>,
                        before: seq<Path>, was: set<Violation>)
    returns (pending: seq<Path>, violations: set<Violation>)
    requires LongestFirst(roots) && forall s :: s in roots <==> s in splits
    ensures forall t :: t in pending <==> t in before || (t in refs && !WrongLeaf(splits, face, t))
    ensures forall v :: v in violations <==>
              v in was || (v.source == path && v.target in refs && WrongLeaf(splits, face, v.target))
  {
    hide WrongLeaf, Bad, LongestFirst;
    pending, violations := before, was;
    for i := 0 to |refs|
      invariant forall t :: t in pending <==> t in before || (t in refs[..i] && !WrongLeaf(splits, face, t))
      invariant forall v :: v in violations <==>
                  v in was || (v.source == path && v.target in refs[..i] && WrongLeaf(splits, face, v.target))
    {
      assert refs[..i + 1] == refs[..i] + [refs[i]];
      BadMeans(splits, roots, face, refs[i]);
      if Bad(roots, face, refs[i]) {
        violations := violations + {Violation(path, refs[i])};
      } else {
        pending := pending + [refs[i]];
      }
    }
    assert refs[..|refs|] == refs;
  }

  /**
   * `collectProjectReferenceFaceViolations`. It ends on cyclic graphs, throws only on a malformed
   * config it needs, and otherwise reports exactly the references that enter a split project by
   * the wrong leaf.
   */
  method CollectViolations(repo: Repo) returns (r: Result<set<Violation>, ()>)
    ensures var visit := (p: Path) => VisitOf(repo, p);
            && (r.Ok? ==> Reports(visit, Aggregates(repo), r.value))
            && (r.Err? <==> exists p :: Reached(visit, Aggregates(repo), false, p) && visit(p).Throws?)
  {
    var roots := SortRoots(repo.splits);
    hide WrongLeaf;
    ghost var visit := (p: Path) => VisitOf(repo, p);
    ghost var starts := Aggregates(repo);
    var pending := [At(repo.root, "tsconfig.host.json"), At(repo.root, "tsconfig.client.json")];
    var visited: set<Path> := {};
    var violations: set<Violation> := {};
    Start(visit, starts, pending);
    while pending != []
      invariant visited <= repo.files.Keys
      invariant Inv(visit, starts, visited, pending, violations)
      decreases repo.files.Keys - visited, |pending|
    {
      var path := pending[|pending| - 1];
      ghost var before := pending;
      if path in visited || path !in repo.files {
        Skip(visit, starts, visited, pending, violations);
        pending := pending[..|pending| - 1];
        continue;
      }
      var face := if repo.files[path].Malformed? then FaceThrows else ProjectFace(repo, path, {});
      if face.FaceThrows? {
        assert visit(path).Throws? && path in pending;
        return Err(());
      }
      ghost var was := violations;
      var refs := repo.files[path].config.references;
      pending, violations :=
        ScanReferences(repo.splits, roots, path, face.face, refs, pending[..|pending| - 1], violations);
      Enter(visit, starts, visited, before, was, pending, violations);
      visited := visited + {path};
    }
    AllVisited(visit, starts, visited, violations);
    r := Ok(violations);
  }

  lemma Start(visit: Path -> Visit, starts: set<Path>, pending: seq<Path>)
    requires forall p :: p in pending <==> p in starts
    ensures Inv(visit, starts, {}, pending, {})
  {
    forall p | p in pending ensures Reached(visit, starts, false, p) {
      assert Reaches(visit, starts, false, p, 0);
    }
  }

  // ---------------------------------------------------------------- the aggregate's own face

  /** The config has this reference, and it enters the split project at `s`. */
  ghost predicate Enters(repo: Repo, p: Path, t: Path, s: Path)
    requires p in repo.files && repo.files[p].Parsed?
  {
    t in repo.files[p].config.references && Innermost(repo.splits, t, s)
  }

  ghost predicate NamesOnly(repo: Repo, p: Path, face: Face)
    requires p in repo.files && repo.files[p].Parsed?
  {
    forall t, s | Enters(repo, p, t, s) :: t == At(s, FaceFile(face))
  }

  ghost predicate FacesIfEnters(repo: Repo, p: Path, face: Face)
    requires p in repo.files && repo.files[p].Parsed?
  {
    (exists t, s :: Enters(repo, p, t, s)) ==> ProjectFace(repo, p, {}) == Face(Some(face))
  }

  lemma NamesIfFaces(repo: Repo, p: Path, face: Face)
    requires VisitOf(repo, p).Visited? && VisitOf(repo, p).bad == {}
    ensures NamesOnly(repo, p, face) <==> FacesIfEnters(repo, p, face)
  {
    var own, bad := ProjectFace(repo, p, {}).face, VisitOf(repo, p).bad;
    forall t, s | Enters(repo, p, t, s) ensures own.Some? && t == At(s, FaceFile(own.value)) {
      assert WrongLeaf(repo.splits, own, t) ==> t in bad;
      assert own.None? || t != At(s, FaceFile(own.value)) ==> WrongLeaf(repo.splits, own, t);
    }
    if t, s :| Enters(repo, p, t, s) {
      assert own.Some? && t == At(s, FaceFile(own.value));
      assert At(s, "tsconfig.host.json")[|s|] != At(s, "tsconfig.client.json")[|s|];
    }
  }

  /**
   * The documented property, that every reference reached from an aggregate names that aggregate's
   * leaf, follows from a clean report if and only if no config reached from it enters a split
   * project while extending its way to the other face.
   */
  lemma AggregateLeavesIff(repo: Repo, face: Face)
    requires var visit := (p: Path) => VisitOf(repo, p);
             forall p | Reached(visit, {At(repo.root, FaceFile(face))}, true, p) && visit(p).Visited? ::
               visit(p).bad == {}
    ensures var visit := (p: Path) => VisitOf(repo, p);
            (forall p | Reached(visit, {At(repo.root, FaceFile(face))}, true, p) && visit(p).Visited? ::
              NamesOnly(repo, p, face))
            <==>
            (forall p | Reached(visit, {At(repo.root, FaceFile(face))}, true, p) && visit(p).Visited? ::
              FacesIfEnters(repo, p, face))
  {
    var visit := (p: Path) => VisitOf(repo, p);
    forall p | Reached(visit, {At(repo.root, FaceFile(face))}, true, p) && visit(p).Visited?
      ensures NamesOnly(repo, p, face) <==> FacesIfEnters(repo, p, face)
    {
      NamesIfFaces(repo, p, face);
    }
  }
}
