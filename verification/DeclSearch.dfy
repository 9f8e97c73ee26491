/**
 * Name resolution in `scripts/gen-config-catalog.ts`: `findExportedTypeDecl`, a depth-first search
 * over possibly cyclic re-export chains that shares one `seen` set, and `declForTypeName`; and
 * exactly when the declaration it comes to is the one that the module exports.
 */
module DeclSearch {
  import opened Prelude

  type FileId = string

  /**
   * `export * from`, `export { source as name } from`, `export { source as name }`, or anything else.
   * A target is a relative `.ts` file.
   */
  datatype Export =
    | Star(target: Option<FileId>)
    | Listed(target: Option<FileId>, elements: seq<Element>)
    | Local(elements: seq<Element>)
    | NoReExport

  datatype Element = Element(name: string, source: string)

  datatype Import = FromFile(file: FileId, imported: string) | FromPackage(pkg: string, imported: string) | NotTs

  /** `exported` are the declarations with an `export` modifier. */
  datatype Source = Source(
    decls: set<string>, exported: set<string>, imports: map<string, Import>, exports: seq<Export>)

  type Files = map<FileId, Source>

  /** A name looked for in a file. */
  type Place = (FileId, string)

  datatype SearchResult = Hit(at: Place) | NoHit | Unreadable

  function FindElement(es: seq<Element>, name: string): Option<string> {
    if es == [] then None else if es[0].name == name then Some(es[0].source) else FindElement(es[1..], name)
  }

  /** Where a re-export statement sends a name, if it re-exports it at all. */
  function Follow(e: Export, name: string): Option<Place> {
    match e
    case Star(Some(f)) => Some((f, name))
    case Listed(Some(f), es) => (match FindElement(es, name) case Some(src) => Some((f, src)) case None => None)
    case _ => None
  }

  predicate DeclaredAt(files: Files, p: Place) {
    p.0 in files && p.1 in files[p.0].decls
  }

  /** The first element of a list that exports something under the name. */
  predicate FirstNamed(es: seq<Element>, i: nat, name: string) {
    i < |es| && es[i].name == name && forall j | 0 <= j < i :: es[j].name != name
  }

  /** A re-export as it is written: a star passes the name on, a list passes on what it exports under it. */
  ghost predicate Sends(e: Export, name: string, q: Place) {
    match e
    case Star(Some(f)) => q == (f, name)
    case Listed(Some(f), es) => q.0 == f && exists i: nat :: FirstNamed(es, i, name) && es[i].source == q.1
    case _ => false
  }

  ghost predicate Edge(files: Files, p: Place, q: Place) {
    p.0 in files && exists e | e in files[p.0].exports :: Sends(e, p.1, q)
  }

  lemma {:induction false} FindElementIs(es: seq<Element>, name: string)
    ensures FindElement(es, name).None? <==> forall el | el in es :: el.name != name
    ensures forall i: nat :: FirstNamed(es, i, name) ==> FindElement(es, name) == Some(es[i].source)
    ensures FindElement(es, name).Some? ==> exists i: nat :: FirstNamed(es, i, name)
  {
    if es != [] {
      FindElementIs(es[1..], name);
      forall i: nat | FirstNamed(es, i, name) && i > 0
        ensures FindElement(es, name) == Some(es[i].source)
      {
        assert forall j | 0 <= j < i - 1 :: es[1..][j] == es[j + 1];
        assert FirstNamed(es[1..], i - 1, name);
      }
      if es[0].name == name {
        assert FirstNamed(es, 0, name);
      } else if i: nat :| FirstNamed(es[1..], i, name) {
        assert forall j | 0 < j <= i :: es[j] == es[1..][j - 1];
        assert FirstNamed(es, i + 1, name);
      }
    }
  }

  /** The search follows a statement exactly as it is written. */
  lemma FollowsSends(e: Export, name: string, q: Place)
    ensures Follow(e, name) == Some(q) <==> Sends(e, name, q)
  {
    if e.Listed? { FindElementIs(e.elements, name); }
  }

  lemma AllFollowed(files: Files, p: Place, places: set<Place>)
    requires p.0 in files
    requires forall j | 0 <= j < |files[p.0].exports| ::
               var q := Follow(files[p.0].exports[j], p.1); q.Some? ==> q.value in places
    ensures forall q | Edge(files, p, q) :: q in places
  {
    forall q | Edge(files, p, q) ensures q in places {
      var e :| e in files[p.0].exports && Sends(e, p.1, q);
      FollowsSends(e, p.1, q);
    }
  }

  lemma FollowedEdge(files: Files, p: Place, e: Export)
    requires p.0 in files && e in files[p.0].exports
    ensures var next := Follow(e, p.1); next.Some? ==> Edge(files, p, next.value)
  {
    var next := Follow(e, p.1);
    if next.Some? { FollowsSends(e, p.1, next.value); }
  }

  /** A re-export chain of length `n`. */
  ghost predicate Reaches(files: Files, p: Place, q: Place, n: nat)
    decreases n
  {
    if n == 0 then p == q else exists m :: Edge(files, p, m) && Reaches(files, m, q, n - 1)
  }

  /** Every chain out of `set` places stays inside. */
  ghost predicate ClosedUnder(files: Files, places: set<Place>) {
    forall p, q | p in places && Edge(files, p, q) :: q in places
  }

  lemma {:induction false} ClosedContains(files: Files, places: set<Place>, p: Place, q: Place, n: nat)
    requires ClosedUnder(files, places) && p in places && Reaches(files, p, q, n)
    ensures q in places
    decreases n
  {
    if n > 0 {
      var m :| Edge(files, p, m) && Reaches(files, m, q, n - 1);
      ClosedContains(files, places, m, q, n - 1);
    }
  }

  /** The places any chain from `start` can visit: known files crossed with known names. */
  ghost function Universe(files: Files, start: Place): set<Place> {
    var targets := set f, e | f in files && e in files[f].exports
      && (e.Star? || e.Listed?) && e.target.Some? :: e.target.value;
    var names := set f, e, el | f in files && e in files[f].exports && e.Listed? && el in e.elements :: el.source;
    set f, n | f in targets + {start.0} && n in names + {start.1} :: (f, n)
  }

  lemma UniverseClosed(files: Files, start: Place)
    ensures start in Universe(files, start) && ClosedUnder(files, Universe(files, start))
  {
    var u := Universe(files, start);
    forall p, q | p in u && Edge(files, p, q) ensures q in u {
      var e :| e in files[p.0].exports && Sends(e, p.1, q);
      if e.Listed? {
        var i: nat :| FirstNamed(e.elements, i, p.1) && e.elements[i].source == q.1;
        assert e.elements[i] in e.elements;
      }
    }
  }

  /** A place no search needs to visit again: it declares nothing and all its chains are in `seen`. */
  ghost predicate Done(files: Files, seen: set<Place>, p: Place) {
    !DeclaredAt(files, p) && forall q | Edge(files, p, q) :: q in seen
  }

  // ---------------------------------------------------------------- the order of the search

  /** The search as a function: what it answers, and the places it has seen by then. */
  ghost function First(files: Files, universe: set<Place>, p: Place, seen: set<Place>): (r: (SearchResult, set<Place>))
    requires p.0 in files && ClosedUnder(files, universe) && p in universe && seen <= universe
    ensures seen <= r.1 <= universe
    decreases universe - seen, 1, 0
  {
    if p in seen then (NoHit, seen)
    else if p.1 in files[p.0].decls then (Hit(p), seen + {p})
    else FirstFrom(files, universe, p, 0, seen + {p})
  }

  /** The exports of one file from the `i`-th on, in order: the first that does not come up empty decides. */
  ghost function FirstFrom(
    files: Files, universe: set<Place>, p: Place, i: nat, seen: set<Place>): (r: (SearchResult, set<Place>))
    requires p.0 in files && i <= |files[p.0].exports|
    requires ClosedUnder(files, universe) && p in seen && seen <= universe
    ensures seen <= r.1 <= universe
    decreases universe - seen, 2, |files[p.0].exports| - i
  {
    var exports := files[p.0].exports;
    if i == |exports| then (NoHit, seen)
    else
      var next := Follow(exports[i], p.1);
      if next.None? then FirstFrom(files, universe, p, i + 1, seen)
      else
        assert Edge(files, p, next.value) by { FollowedEdge(files, p, exports[i]); }
        if next.value.0 !in files then (Unreadable, seen)
        else
          var r := First(files, universe, next.value, seen);
          if r.0.NoHit? then FirstFrom(files, universe, p, i + 1, r.1) else r
  }

  /** The places on the way of a search that hits. */
  ghost function Way(files: Files, universe: set<Place>, p: Place, seen: set<Place>): (way: seq<Place>)
    requires p.0 in files && ClosedUnder(files, universe) && p in universe && seen <= universe
    requires First(files, universe, p, seen).0.Hit?
    ensures Chain(files, way) && way[0] == p && way[|way| - 1] == First(files, universe, p, seen).0.at
    decreases universe - seen, 1, 0
  {
    if p.1 in files[p.0].decls then [p]
    else
      var rest := WayFrom(files, universe, p, 0, seen + {p});
      assert ([p] + rest)[1..] == rest;
      [p] + rest
  }

  ghost function WayFrom(files: Files, universe: set<Place>, p: Place, i: nat, seen: set<Place>): (way: seq<Place>)
    requires p.0 in files && i <= |files[p.0].exports|
    requires ClosedUnder(files, universe) && p in seen && seen <= universe
    requires FirstFrom(files, universe, p, i, seen).0.Hit?
    ensures Chain(files, way) && Edge(files, p, way[0])
    ensures way[|way| - 1] == FirstFrom(files, universe, p, i, seen).0.at
    decreases universe - seen, 2, |files[p.0].exports| - i
  {
    var next := Follow(files[p.0].exports[i], p.1);
    if next.None? then WayFrom(files, universe, p, i + 1, seen)
    else
      assert Edge(files, p, next.value) by { FollowedEdge(files, p, files[p.0].exports[i]); }
      var r := First(files, universe, next.value, seen);
      if r.0.NoHit? then WayFrom(files, universe, p, i + 1, r.1) else Way(files, universe, next.value, seen)
  }

  /** Re-exports as the search follows them, through places that declare nothing to one that does. */
  ghost predicate Chain(files: Files, way: seq<Place>)
    decreases |way|
  {
    && way != [] && way[0].0 in files
    && if |way| == 1 then DeclaredAt(files, way[0])
       else !DeclaredAt(files, way[0]) && Edge(files, way[0], way[1]) && Chain(files, way[1..])
  }

  // ---------------------------------------------------------------- what a module exports

  /** A declaration, what another module exports, or something outside the known files. */
  datatype Origin = Here(at: Place) | There(from: Place) | Beyond

  /** What a name means inside a file. */
  function Inside(files: Files, entries: map<string, FileId>, f: FileId, name: string): Origin
    requires f in files
  {
    if name in files[f].decls then Here((f, name))
    else if name !in files[f].imports then Beyond
    else match files[f].imports[name]
      case FromFile(g, imported) => There((g, imported))
      case FromPackage(pkg, imported) => if pkg in entries then There((entries[pkg], imported)) else Beyond
      case NotTs => Beyond
  }

  function Explicit(files: Files, entries: map<string, FileId>, p: Place): Option<Origin>
    requires p.0 in files
  {
    if p.1 in files[p.0].decls && p.1 in files[p.0].exported then Some(Here(p))
    else ExplicitFrom(files, entries, p, files[p.0].exports)
  }

  function ExplicitFrom(files: Files, entries: map<string, FileId>, p: Place, es: seq<Export>): Option<Origin>
    requires p.0 in files
  {
    if es == [] then None
    else
      var source := if es[0].Listed? || es[0].Local? then FindElement(es[0].elements, p.1) else None;
      if source.None? then ExplicitFrom(files, entries, p, es[1..])
      else if es[0].Local? then Some(Inside(files, entries, p.0, source.value))
      else Some(if es[0].target.Some? then There((es[0].target.value, source.value)) else Beyond)
  }

  /** A star lets everything through but `default`. */
  ghost predicate StarEdge(files: Files, p: Place, m: Place) {
    p.0 in files && p.1 != "default" && m.1 == p.1 && Star(Some(m.0)) in files[p.0].exports
  }

  /**
   * By the rules for modules, what `p` exports is declared at `q`, by a chain of length at most `n`:
   * an export by name takes precedence over every star, and only exported declarations count. A name
   * that two stars provide differently is an error of the language and leads to both.
   */
  ghost predicate Leads(files: Files, entries: map<string, FileId>, p: Place, q: Place, n: nat)
    decreases n
  {
    p.0 in files && match Explicit(files, entries, p)
      case Some(Here(d)) => d == q
      case Some(There(m)) => n > 0 && Leads(files, entries, m, q, n - 1)
      case Some(Beyond) => false
      case None => n > 0 && exists m :: StarEdge(files, p, m) && Leads(files, entries, m, q, n - 1)
  }

  ghost predicate Exports(files: Files, entries: map<string, FileId>, p: Place, q: Place) {
    exists n: nat :: Leads(files, entries, p, q, n)
  }

  /**
   * The search leaves what the modules export: on its way it takes a declaration that is not exported,
   * or a star past an export by name, and from there no chain of exports leads to where it ends.
   */
  ghost predicate Strays(files: Files, entries: map<string, FileId>, way: seq<Place>)
    requires Chain(files, way)
    decreases |way|
  {
    var p, q := way[0], way[|way| - 1];
    match Explicit(files, entries, p)
    case Some(Here(d)) => d != q
    case Some(There(m)) =>
      if |way| > 1 && way[1] == m then Strays(files, entries, way[1..]) else !Exports(files, entries, m, q)
    case Some(Beyond) => true
    case None =>
      forall m | StarEdge(files, p, m) ::
        if |way| > 1 && way[1] == m then Strays(files, entries, way[1..]) else !Exports(files, entries, m, q)
  }

  lemma ExportsOnward(files: Files, entries: map<string, FileId>, p: Place, q: Place)
    requires p.0 in files
    ensures match Explicit(files, entries, p)
            case Some(Here(d)) => Exports(files, entries, p, q) <==> d == q
            case Some(There(m)) => Exports(files, entries, p, q) <==> Exports(files, entries, m, q)
            case Some(Beyond) => !Exports(files, entries, p, q)
            case None =>
              Exports(files, entries, p, q) <==> exists m :: StarEdge(files, p, m) && Exports(files, entries, m, q)
  {
    match Explicit(files, entries, p)
    case Some(Here(d)) => assert Leads(files, entries, p, q, 0) <==> d == q;
    case Some(There(m)) =>
      if n: nat :| Leads(files, entries, m, q, n) { assert Leads(files, entries, p, q, n + 1); }
      if n: nat :| Leads(files, entries, p, q, n) { assert Leads(files, entries, m, q, n - 1); }
    case Some(Beyond) =>
    case None =>
      if m, n: nat :| StarEdge(files, p, m) && Leads(files, entries, m, q, n) {
        assert Leads(files, entries, p, q, n + 1);
      }
      if n: nat :| Leads(files, entries, p, q, n) {
        var m :| StarEdge(files, p, m) && Leads(files, entries, m, q, n - 1);
        assert Exports(files, entries, m, q);
      }
  }

  /** Where the search ends is what the module exports if and only if the search does not stray. */
  lemma {:induction false} ExportsIff(files: Files, entries: map<string, FileId>, way: seq<Place>)
    requires Chain(files, way)
    ensures Exports(files, entries, way[0], way[|way| - 1]) <==> !Strays(files, entries, way)
    decreases |way|
  {
    ExportsOnward(files, entries, way[0], way[|way| - 1]);
    if |way| > 1 { ExportsIff(files, entries, way[1..]); }
  }

  /** Wherever the search can come, names are declared only if exported and re-exported only one way. */
  ghost predicate Orderly(files: Files, entries: map<string, FileId>) {
    && (forall p | DeclaredAt(files, p) :: Explicit(files, entries, p) == Some(Here(p)))
    && forall p, m | Edge(files, p, m) && !DeclaredAt(files, p) ::
         match Explicit(files, entries, p)
         case Some(o) => o == There(m)
         case None => StarEdge(files, p, m)
  }

  /** Then it never strays. */
  lemma {:induction false} OrderlyIsRight(files: Files, entries: map<string, FileId>, way: seq<Place>)
    requires Orderly(files, entries) && Chain(files, way)
    ensures Exports(files, entries, way[0], way[|way| - 1])
    decreases |way|
  {
    ExportsOnward(files, entries, way[0], way[|way| - 1]);
    if |way| > 1 { OrderlyIsRight(files, entries, way[1..]); }
  }

  // ---------------------------------------------------------------- what the search misses

  ghost predicate ByList(files: Files, p: Place) {
    p.0 in files && exists e | e in files[p.0].exports :: e.Local? && FindElement(e.elements, p.1).Some?
  }

  lemma {:induction false} ExplicitKinds(files: Files, entries: map<string, FileId>, p: Place, es: seq<Export>)
    requires p.0 in files && forall e | e in es :: e in files[p.0].exports
    ensures match ExplicitFrom(files, entries, p, es)
            case Some(There(m)) => ByList(files, p) || Edge(files, p, m)
            case Some(Here(_)) => ByList(files, p)
            case _ => true
  {
    if es != [] {
      assert es[0] in files[p.0].exports;
      ExplicitKinds(files, entries, p, es[1..]);
      FollowedEdge(files, p, es[0]);
    }
  }

  /**
   * What is exported though no re-export chain comes to a declaration is exported by a list without a
   * module, which the search does not follow.
   */
  lemma {:induction false} MissedByList(files: Files, entries: map<string, FileId>, p: Place, q: Place, n: nat)
    returns (r: Place, k: nat)
    requires Leads(files, entries, p, q, n)
    requires forall m, k | Reaches(files, p, m, k) :: !DeclaredAt(files, m)
    ensures Reaches(files, p, r, k) && ByList(files, r)
    decreases n
  {
    assert Reaches(files, p, p, 0);
    if ByList(files, p) {
      r, k := p, 0;
    } else {
      ExplicitKinds(files, entries, p, files[p.0].exports);
      var o := Explicit(files, entries, p);
      var m: Place;
      if o.Some? {
        m := o.value.from;
      } else {
        m :| StarEdge(files, p, m) && Leads(files, entries, m, q, n - 1);
        assert Sends(Star(Some(m.0)), p.1, m);
      }
      forall m', k | Reaches(files, m, m', k) ensures !DeclaredAt(files, m') { StepFirst(files, p, m, m', k); }
      var r', k' := MissedByList(files, entries, m, q, n - 1);
      r, k := r', k' + 1;
      StepFirst(files, p, m, r', k');
    }
  }

  // ---------------------------------------------------------------- straying, concretely

  /**
   * A file with one list of re-exports: the search ends at what the list exports under the name,
   * whatever that is called in its own file, and comes up empty exactly if it exports nothing so.
   */
  lemma RenamingList(files: Files, universe: set<Place>, p: Place, t: FileId, es: seq<Element>)
    requires p.0 in files && t in files && t != p.0 && !DeclaredAt(files, p)
    requires files[p.0].exports == [Listed(Some(t), es)] && forall el | el in es :: DeclaredAt(files, (t, el.source))
    requires ClosedUnder(files, universe) && p in universe
    ensures First(files, universe, p, {}).0.NoHit? <==> forall el | el in es :: el.name != p.1
    ensures forall i: nat :: FirstNamed(es, i, p.1) ==> First(files, universe, p, {}).0 == Hit((t, es[i].source))
  {
    FindElementIs(es, p.1);
    var seen := {} + {p};
    if FindElement(es, p.1).Some? {
      var i: nat :| FirstNamed(es, i, p.1);
      FirstStatementWins(files, universe, p, 0, (t, es[i].source));
    } else {
      assert FirstFrom(files, universe, p, 1, seen) == (NoHit, seen);
      assert FirstFrom(files, universe, p, 0, seen) == FirstFrom(files, universe, p, 1, seen);
    }
  }

  const FOO := ("index.ts", "Foo")

  function Module(decls: set<string>, exported: set<string>, exports: seq<Export>): Source {
    Source(decls, exported, map[], exports)
  }

  /** `export * from './a.ts'` before `export { Foo } from './b.ts'`, with `Foo` declared in both. */
  const STAR_FIRST: Files := map[
    "index.ts" := Module({}, {}, [Star(Some("a.ts")), Listed(Some("b.ts"), [Element("Foo", "Foo")])]),
    "a.ts" := Module({"Foo"}, {"Foo"}, []),
    "b.ts" := Module({"Foo"}, {"Foo"}, [])]

  /** `Foo` is private in one file and exported by the next. */
  const PRIVATE_FIRST: Files := map[
    "index.ts" := Module({}, {}, [Star(Some("a.ts")), Star(Some("b.ts"))]),
    "a.ts" := Module({"Foo"}, {}, []),
    "b.ts" := Module({"Foo"}, {"Foo"}, [])]

  const FOO_A := ("a.ts", "Foo")
  const FOO_B := ("b.ts", "Foo")

  /** The first statement that re-exports the name decides, if its target declares it. */
  lemma FirstStatementWins(files: Files, universe: set<Place>, p: Place, i: nat, a: Place)
    requires p.0 in files && ClosedUnder(files, universe) && p in universe && !DeclaredAt(files, p)
    requires i < |files[p.0].exports| && Sends(files[p.0].exports[i], p.1, a) && DeclaredAt(files, a)
    requires forall j, q | 0 <= j < i :: !Sends(files[p.0].exports[j], p.1, q)
    ensures First(files, universe, p, {}).0 == Hit(a)
  {
    FollowsSends(files[p.0].exports[i], p.1, a);
    FollowedEdge(files, p, files[p.0].exports[i]);
    var seen := {} + {p};
    assert a != p;
    assert First(files, universe, a, seen) == (Hit(a), seen + {a});
    assert FirstFrom(files, universe, p, i, seen) == (Hit(a), seen + {a});
    SkipsOthers(files, universe, p, i, seen);
  }

  lemma {:induction false} SkipsOthers(files: Files, universe: set<Place>, p: Place, i: nat, seen: set<Place>)
    requires p.0 in files && i <= |files[p.0].exports|
    requires ClosedUnder(files, universe) && p in seen && seen <= universe
    requires forall j, q | 0 <= j < i :: !Sends(files[p.0].exports[j], p.1, q)
    ensures FirstFrom(files, universe, p, 0, seen) == FirstFrom(files, universe, p, i, seen)
  {
    if i > 0 {
      SkipsOthers(files, universe, p, i - 1, seen);
      var next := Follow(files[p.0].exports[i - 1], p.1);
      if next.Some? {
        FollowsSends(files[p.0].exports[i - 1], p.1, next.value);
        assert false;
      }
    }
  }

  /** Both searches end in `a.ts`, while the module exports the `Foo` of `b.ts` alone. */
  lemma BothStray(files: Files, q: Place)
    requires files == STAR_FIRST || files == PRIVATE_FIRST
    ensures (UniverseClosed(files, FOO); First(files, Universe(files, FOO), FOO, {}).0 == Hit(FOO_A))
    ensures Exports(files, map[], FOO, q) <==> q == FOO_B
  {
    UniverseClosed(files, FOO);
    FirstStatementWins(files, Universe(files, FOO), FOO, 0, FOO_A);
    hide First;
    if files == STAR_FIRST { NamedWins(q); } else { PrivateDoesNotCount(q); }
  }

  lemma NamedWins(q: Place)
    ensures Exports(STAR_FIRST, map[], FOO, q) <==> q == FOO_B
  {
    ExportsOnward(STAR_FIRST, map[], FOO_B, q);
    ExportsOnward(STAR_FIRST, map[], FOO, q);
    hide Exports;
    var es := STAR_FIRST["index.ts"].exports;
    assert ExplicitFrom(STAR_FIRST, map[], FOO, es) == ExplicitFrom(STAR_FIRST, map[], FOO, es[1..]);
    assert ExplicitFrom(STAR_FIRST, map[], FOO, es[1..]) == Some(There(FOO_B));
  }

  lemma PrivateDoesNotCount(q: Place)
    ensures Exports(PRIVATE_FIRST, map[], FOO, q) <==> q == FOO_B
  {
    ExportsOnward(PRIVATE_FIRST, map[], FOO_A, q);
    ExportsOnward(PRIVATE_FIRST, map[], FOO_B, q);
    ExportsOnward(PRIVATE_FIRST, map[], FOO, q);
    assert Explicit(PRIVATE_FIRST, map[], FOO_B) == Some(Here(FOO_B));
    hide Exports, Explicit, StarEdge;
    OnlyStars(q);
    OnlyStars(FOO_A);
    OnlyStars(FOO_B);
    forall m ensures StarEdge(PRIVATE_FIRST, FOO, m) <==> m == FOO_A || m == FOO_B { OnlyStars(m); }
    forall m ensures !StarEdge(PRIVATE_FIRST, FOO_A, m) { OnlyStars(m); }
  }

  lemma OnlyStars(m: Place)
    ensures Explicit(PRIVATE_FIRST, map[], FOO) == None && Explicit(PRIVATE_FIRST, map[], FOO_A) == None
    ensures StarEdge(PRIVATE_FIRST, FOO, m) <==> m == FOO_A || m == FOO_B
    ensures !StarEdge(PRIVATE_FIRST, FOO_A, m)
  {
    var es := PRIVATE_FIRST["index.ts"].exports;
    assert es[1..][1..] == [];
    assert ExplicitFrom(PRIVATE_FIRST, map[], FOO, es) == ExplicitFrom(PRIVATE_FIRST, map[], FOO, es[1..]);
    assert forall e | e in es :: e == es[0] || e == es[1];
    assert es[0] in es && es[1] in es;
  }

  class Search {
    const files: Files
    var seen: set<Place>

    constructor (files: Files)
      ensures this.files == files && seen == {}
    {
      this.files := files;
      seen := {};
    }

    /** `findExportedTypeDecl` once its file is loaded. */
    method Find(f: FileId, name: string, ghost universe: set<Place>) returns (r: SearchResult)
      requires f in files
      requires ClosedUnder(files, universe) && (f, name) in universe && seen <= universe
      modifies this`seen
      ensures old(seen) <= seen <= universe
      ensures (r, seen) == First(files, universe, (f, name), old(seen))
      ensures r.NoHit? ==> (f, name) in seen && forall p | p in seen - old(seen) :: Done(files, seen, p)
      ensures r.Hit? ==> DeclaredAt(files, r.at) && exists n :: Reaches(files, (f, name), r.at, n)
      ensures r.Unreadable? ==>
                exists p: Place, n :: p.0 !in files && Reaches(files, (f, name), p, n)
      decreases universe - seen
    {
      var key := (f, name);
      if key in seen { return NoHit; }
      seen := seen + {key};
      if name in files[f].decls {
        assert Reaches(files, key, key, 0);
        return Hit(key);
      }
      var exports := files[f].exports;
      var i := 0;
      while i < |exports|
        invariant 0 <= i <= |exports|
        invariant old(seen) + {key} <= seen <= universe
        invariant FirstFrom(files, universe, key, 0, old(seen) + {key}) == FirstFrom(files, universe, key, i, seen)
        invariant forall p | p in seen - old(seen) - {key} :: Done(files, seen, p)
        invariant forall j | 0 <= j < i :: var q := Follow(exports[j], name); q.Some? ==> q.value in seen
      {
        var next := Follow(exports[i], name);
        if next.Some? {
          var q := next.value;
          FollowedEdge(files, key, exports[i]);
          if q.0 !in files {
            StepFirst(files, key, q, q, 0);
            return Unreadable;
          }
          ghost var before := seen;
          r := Find(q.0, q.1, universe);
          if !r.NoHit? {
            if r.Hit? {
              ghost var n :| Reaches(files, q, r.at, n);
              StepFirst(files, key, q, r.at, n);
            } else {
              ghost var p: Place, n :| p.0 !in files && Reaches(files, q, p, n);
              StepFirst(files, key, q, p, n);
            }
            return;
          }
          StillDone(files, before, seen, old(seen) + {key});
        }
        i := i + 1;
      }
      AllFollowed(files, key, seen);
      r := NoHit;
    }

    /** `declForTypeName`: local, then through a relative import, then through a workspace entry file. */
    method DeclFor(ctx: FileId, name: string, entries: map<string, FileId>) returns (r: SearchResult)
      requires ctx in files && seen == {}
      modifies this`seen
      ensures r.Hit? ==> DeclaredAt(files, r.at)
      ensures match Inside(files, entries, ctx, name)
              case Here(d) => r == Hit(d)
              case Beyond => r.NoHit?
              case There(p) =>
                if p.0 !in files then r == if files[ctx].imports[name].FromFile? then Unreadable else NoHit
                else
                  && (UniverseClosed(files, p); r == First(files, Universe(files, p), p, {}).0)
                  && (r.Hit? ==> exists n :: Reaches(files, p, r.at, n))
                  && (r.NoHit? ==> forall q, n | Reaches(files, p, q, n) :: !DeclaredAt(files, q))
                  && (r.Unreadable? ==> exists q: Place, n :: q.0 !in files && Reaches(files, p, q, n))
                  && (r.Hit? ==>
                        (Exports(files, entries, p, r.at) <==>
                         !Strays(files, entries, Way(files, Universe(files, p), p, {}))))
    {
      if name in files[ctx].decls { return Hit((ctx, name)); }
      if name !in files[ctx].imports { return NoHit; }
      var p: Place;
      match files[ctx].imports[name] {
        case NotTs => return NoHit;
        case FromFile(f, imported) =>
          p := (f, imported);
          if f !in files { return Unreadable; }
        case FromPackage(pkg, imported) =>
          if pkg !in entries { return NoHit; }
          p := (entries[pkg], imported);
          if p.0 !in files { return NoHit; }
      }
      UniverseClosed(files, p);
      r := Find(p.0, p.1, Universe(files, p));
      if r.NoHit? {
        assert forall q | q in seen :: q in seen - {} && Done(files, seen, q);
        forall q, n | Reaches(files, p, q, n) ensures !DeclaredAt(files, q) {
          ClosedContains(files, seen, p, q, n);
        }
      }
      if r.Hit? { ExportsIff(files, entries, Way(files, Universe(files, p), p, {})); }
    }
  }

  lemma StepFirst(files: Files, p: Place, m: Place, q: Place, n: nat)
    requires Edge(files, p, m) && Reaches(files, m, q, n)
    ensures Reaches(files, p, q, n + 1)
  {
  }

  lemma StillDone(files: Files, before: set<Place>, after: set<Place>, outside: set<Place>)
    requires before <= after
    requires forall p | p in before - outside :: Done(files, before, p)
    requires forall p | p in after - before :: Done(files, after, p)
    ensures forall p | p in after - outside :: Done(files, after, p)
  {
    forall p | p in after - outside ensures Done(files, after, p) {
      if p in before {
        assert p in before - outside;
      } else {
        assert p in after - before;
      }
    }
  }
}
