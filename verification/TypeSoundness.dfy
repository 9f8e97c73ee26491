/**
 * The definite answers of `lookupPath`: what `missing` and `found` mean on any graph, cyclic or
 * not, for any fuel and whatever the shared `seen` set already holds.
 */
module TypeSoundness {
  import opened Prelude
  import opened TypeLookup
  import opened TypeMeaning
  import opened TypeTruth
  import opened TypeBlindSpots
  import opened TypeTermination

  // ---------------------------------------------------------------- missing

  lemma {:induction false} MissingTy(w: World, file: FileId, t: Ty, steps: seq<Step>, seen: set<Key>, fuel: nat, n: nat)
    ensures var e := LookupTy(w, file, t, steps, seen, fuel);
            e.Value? && e.r == Missing ==> !MayTy(w, file, t, steps, n)
    decreases fuel, 1
  {
    var e := LookupTy(w, file, t, steps, seen, fuel);
    if steps != [] && fuel > 0 && n > 0 && e.Value? && e.r == Missing {
      match t
      case Literal(ms) => MissingProp(w, file, Visible(ms, steps[0].name), steps, seen, fuel, n);
      case Paren(u) => MissingTy(w, file, u, steps, seen, fuel - 1, n - 1);
      case Intersection(ts) => MissingEach(w, file, ts, steps, seen, fuel - 1, n - 1);
      case Union(ts) =>
        MissingEach(w, file, ts, steps, seen, fuel - 1, n - 1);
        var rs := LookupEach(w, file, ts, steps, seen, fuel - 1).rs;
        assert forall i | 0 <= i < |ts| :: rs[i] in rs;
      case ArrayOf(u) => MissingTy(w, file, u, steps[1..], seen, fuel - 1, n - 1);
      case Operator(_, u) => MissingTy(w, file, u, steps, seen, fuel - 1, n - 1);
      case Indexed(u, index) => MissingTy(w, file, u, [Member(index.value)] + steps, seen, fuel - 1, n - 1);
      case Reference(_, _, _) => MissingRef(w, file, t, steps, seen, fuel, n);
      case Opaque =>
    }
  }

  lemma {:induction false} MissingRef(
    w: World, file: FileId, t: Ty, steps: seq<Step>, seen: set<Key>, fuel: nat, n: nat)
    requires t.Reference? && steps != [] && fuel > 0 && n > 0
    ensures var e := LookupTy(w, file, t, steps, seen, fuel);
            e.Value? && e.r == Missing ==> !MayTy(w, file, t, steps, n)
    decreases fuel, 0
  {
    var e := LookupTy(w, file, t, steps, seen, fuel);
    if e.Value? && e.r == Missing {
      if t.head in PASSTHROUGH && t.args != [] {
        MissingTy(w, file, t.args[0], steps, seen, fuel - 1, n - 1);
      } else if t.head in ARRAYS && t.args != [] {
        MissingTy(w, file, t.args[0], steps[1..], seen, fuel - 1, n - 1);
      } else {
        MissingName(w, file, t.head, steps, seen, fuel - 1, n - 1);
      }
    }
  }

  lemma {:induction false} MissingProp(
    w: World, file: FileId, p: Option<Prop>, steps: seq<Step>, seen: set<Key>, fuel: nat, n: nat)
    requires steps != []
    requires p.Some? ==> p.value.Property?
    ensures p.Some? ==>
              var e := LookupProp(w, file, p.value.ty, steps, seen, fuel);
              e.Value? && e.r == Missing ==> !MayProp(w, file, p, steps, n)
    decreases fuel, 0
  {
    if p.Some? && |steps| > 1 && p.value.ty.Some? && fuel > 0 && n > 0 {
      MissingTy(w, file, p.value.ty.value, steps[1..], seen, fuel - 1, n - 1);
    }
  }

  lemma {:induction false} MissingEach(
    w: World, file: FileId, ts: seq<Ty>, steps: seq<Step>, seen: set<Key>, fuel: nat, n: nat)
    ensures var e := LookupEach(w, file, ts, steps, seen, fuel);
            e.Values? ==>
              forall i | 0 <= i < |ts| && e.rs[i] == Missing :: !MayTy(w, file, ts[i], steps, n)
    decreases fuel, 4, |ts|
  {
    var e := LookupEach(w, file, ts, steps, seen, fuel);
    if ts != [] && e.Values? {
      MissingTy(w, file, ts[0], steps, seen, fuel, n);
      MissingEach(w, file, ts[1..], steps, LookupTy(w, file, ts[0], steps, seen, fuel).seen, fuel, n);
      forall i | 0 <= i < |ts| && e.rs[i] == Missing
        ensures !MayTy(w, file, ts[i], steps, n)
      {
        if i > 0 { assert ts[i] == ts[1..][i - 1]; }
      }
    }
  }

  lemma {:induction false} MissingName(
    w: World, file: FileId, name: string, steps: seq<Step>, seen: set<Key>, fuel: nat, n: nat)
    ensures var e := LookupName(w, file, name, steps, seen, fuel);
            e.Value? && e.r == Missing ==> !MayName(w, file, name, steps, n)
    decreases fuel, 2
  {
    var r := Resolve(w, file, name);
    if r.Known? { MissingDecl(w, r.id, steps, seen, fuel, n); }
  }

  /** `missing` is never said of a path the walk could have come by, however little of it was explored. */
  lemma {:induction false} MissingDecl(w: World, id: DeclId, steps: seq<Step>, seen: set<Key>, fuel: nat, n: nat)
    requires id in w.decls
    ensures var e := LookupDecl(w, id, steps, seen, fuel);
            e.Value? && e.r == Missing ==> !MayDecl(w, id, steps, n)
    decreases fuel, 1
  {
    var e := LookupDecl(w, id, steps, seen, fuel);
    if steps != [] && e.Value? && e.r == Missing && n > 0 {
      var seen' := seen + {(id, |steps|)};
      match w.decls[id]
      case Enum =>
      case Alias(_, body) => MissingTy(w, id.file, body, steps, seen', fuel - 1, n - 1);
      case Interface(_, ms, bases) =>
        var own := Visible(ms, steps[0].name);
        if own.Some? {
          MissingProp(w, id.file, own, steps, seen', fuel, n);
        } else {
          MissingBases(w, id.file, bases, steps, seen', fuel - 1, n - 1);
        }
    }
  }

  lemma {:induction false} MissingBases(
    w: World, file: FileId, bases: seq<Base>, steps: seq<Step>, seen: set<Key>, fuel: nat, n: nat)
    ensures var e := LookupBases(w, file, bases, steps, seen, fuel);
            e.Values? ==>
              forall i | 0 <= i < |bases| && e.rs[i] == Missing :: !MayBase(w, file, bases[i], steps, n)
    decreases fuel, 4, |bases|
  {
    var e := LookupBases(w, file, bases, steps, seen, fuel);
    if bases != [] && e.Values? {
      if bases[0].Named? { MissingName(w, file, bases[0].name, steps, seen, fuel, n); }
      MissingBases(w, file, bases[1..], steps, LookupBase(w, file, bases[0], steps, seen, fuel).seen, fuel, n);
      forall i | 0 <= i < |bases| && e.rs[i] == Missing
        ensures !MayBase(w, file, bases[i], steps, n)
      {
        if i > 0 { assert bases[i] == bases[1..][i - 1]; }
      }
    }
  }

  /** A bare name in a file, outside the scope of any type parameter. */
  function NameAt(file: FileId, name: string): (at: Site)
    ensures at.ty.Reference? && at.file == file && at.ty.head == name
  {
    Site(file, map[], Reference(name, false, []))
  }

  /**
   * The promise that `missing` is never mis-reported, and exactly where it fails: for every graph,
   * fuel, `seen` set and height, a path reported missing of what a name denotes can be there if and
   * only if it is hidden: by an element the walk overlooks or a name the code takes for another.
   */
  lemma MissingExistsIff(w: World, file: FileId, name: string, steps: seq<Step>, seen: set<Key>, fuel: nat, n: nat)
    requires var e := LookupName(w, file, name, steps, seen, fuel); e.Value? && e.r == Missing
    ensures CanRef(w, NameAt(file, name), [], steps, n) <==> HidesRef(w, NameAt(file, name), [], steps, n)
  {
    assert steps != [];
    hide LookupDecl, MayDecl, HidesRef, CanRef;
    MissingName(w, file, name, steps, seen, fuel, n);
    HiddenRef(w, NameAt(file, name), [], steps, n);
  }

  // ---------------------------------------------------------------- found

  lemma {:induction false} FoundTy(w: World, file: FileId, t: Ty, steps: seq<Step>, seen: set<Key>, fuel: nat)
    ensures var e := LookupTy(w, file, t, steps, seen, fuel);
            e.Value? && e.r == Found ==> MustTy(w, file, t, steps, fuel)
    decreases fuel, 1
  {
    var e := LookupTy(w, file, t, steps, seen, fuel);
    if steps != [] && e.Value? && e.r == Found {
      match t
      case Literal(ms) => FoundProp(w, file, Visible(ms, steps[0].name), steps, seen, fuel);
      case Paren(u) => FoundTy(w, file, u, steps, seen, fuel - 1);
      case Intersection(ts) => FoundEach(w, file, ts, steps, seen, fuel - 1);
      case Union(ts) =>
        FoundEach(w, file, ts, steps, seen, fuel - 1);
        var rs := LookupEach(w, file, ts, steps, seen, fuel - 1).rs;
        assert forall i | 0 <= i < |ts| :: rs[i] in rs;
      case ArrayOf(u) => FoundTy(w, file, u, steps[1..], seen, fuel - 1);
      case Operator(_, u) => FoundTy(w, file, u, steps, seen, fuel - 1);
      case Indexed(u, index) => FoundTy(w, file, u, [Member(index.value)] + steps, seen, fuel - 1);
      case Reference(head, _, args) =>
        if head in PASSTHROUGH && args != [] {
          FoundTy(w, file, args[0], steps, seen, fuel - 1);
        } else if head in ARRAYS && args != [] {
          FoundTy(w, file, args[0], steps[1..], seen, fuel - 1);
        } else {
          FoundName(w, file, head, steps, seen, fuel - 1);
        }
      case Opaque =>
    }
  }

  lemma {:induction false} FoundProp(
    w: World, file: FileId, p: Option<Prop>, steps: seq<Step>, seen: set<Key>, fuel: nat)
    requires steps != []
    requires p.Some? ==> p.value.Property?
    ensures p.Some? ==>
              var e := LookupProp(w, file, p.value.ty, steps, seen, fuel);
              e.Value? && e.r == Found ==> MustProp(w, file, p, steps, fuel)
    decreases fuel, 0
  {
    if p.Some? && |steps| > 1 && p.value.ty.Some? && fuel > 0 {
      FoundTy(w, file, p.value.ty.value, steps[1..], seen, fuel - 1);
    }
  }

  lemma {:induction false} FoundEach(w: World, file: FileId, ts: seq<Ty>, steps: seq<Step>, seen: set<Key>, fuel: nat)
    ensures var e := LookupEach(w, file, ts, steps, seen, fuel);
            e.Values? ==>
              forall i | 0 <= i < |ts| && e.rs[i] == Found :: MustTy(w, file, ts[i], steps, fuel)
    decreases fuel, 4, |ts|
  {
    var e := LookupEach(w, file, ts, steps, seen, fuel);
    if ts != [] && e.Values? {
      FoundTy(w, file, ts[0], steps, seen, fuel);
      FoundEach(w, file, ts[1..], steps, LookupTy(w, file, ts[0], steps, seen, fuel).seen, fuel);
      forall i | 0 <= i < |ts| && e.rs[i] == Found
        ensures MustTy(w, file, ts[i], steps, fuel)
      {
        if i > 0 { assert ts[i] == ts[1..][i - 1]; }
      }
    }
  }

  lemma {:induction false} FoundName(w: World, file: FileId, name: string, steps: seq<Step>, seen: set<Key>, fuel: nat)
    requires steps != []
    ensures var e := LookupName(w, file, name, steps, seen, fuel);
            e.Value? && e.r == Found ==> MustName(w, file, name, steps, fuel)
    decreases fuel, 2
  {
    var r := Resolve(w, file, name);
    if r.Known? { FoundDecl(w, r.id, steps, seen, fuel); }
  }

  /** `found` means the walk's reading has the path in every branch of every union on the way. */
  lemma {:induction false} FoundDecl(w: World, id: DeclId, steps: seq<Step>, seen: set<Key>, fuel: nat)
    requires id in w.decls
    ensures var e := LookupDecl(w, id, steps, seen, fuel);
            e.Value? && e.r == Found ==> MustDecl(w, id, steps, fuel)
    decreases fuel, 1
  {
    var e := LookupDecl(w, id, steps, seen, fuel);
    if steps != [] && e.Value? && e.r == Found {
      var seen' := seen + {(id, |steps|)};
      match w.decls[id]
      case Enum =>
      case Alias(_, body) => FoundTy(w, id.file, body, steps, seen', fuel - 1);
      case Interface(_, ms, bases) =>
        var own := Visible(ms, steps[0].name);
        if own.Some? {
          FoundProp(w, id.file, own, steps, seen', fuel);
        } else {
          FoundBases(w, id.file, bases, steps, seen', fuel - 1);
        }
    }
  }

  lemma {:induction false} FoundBases(
    w: World, file: FileId, bases: seq<Base>, steps: seq<Step>, seen: set<Key>, fuel: nat)
    requires steps != []
    ensures var e := LookupBases(w, file, bases, steps, seen, fuel);
            e.Values? ==>
              forall i | 0 <= i < |bases| && e.rs[i] == Found :: MustBase(w, file, bases[i], steps, fuel)
    decreases fuel, 4, |bases|
  {
    var e := LookupBases(w, file, bases, steps, seen, fuel);
    if bases != [] && e.Values? {
      if bases[0].Named? { FoundName(w, file, bases[0].name, steps, seen, fuel); }
      FoundBases(w, file, bases[1..], steps, LookupBase(w, file, bases[0], steps, seen, fuel).seen, fuel);
      forall i | 0 <= i < |bases| && e.rs[i] == Found
        ensures MustBase(w, file, bases[i], steps, fuel)
      {
        if i > 0 { assert bases[i] == bases[1..][i - 1]; }
      }
    }
  }

  /**
   * What `found` is worth, exactly: the walk's reading has a derivation, and what the name denotes
   * truly has the path at some height if and only if, at that height, not everything by which the
   * walk has it overstates.
   */
  lemma FoundTrueIff(w: World, file: FileId, name: string, steps: seq<Step>, seen: set<Key>, fuel: nat, n: nat)
    requires fuel <= n && steps != []
    requires var e := LookupName(w, file, name, steps, seen, fuel); e.Value? && e.r == Found
    ensures MustName(w, file, name, steps, n)
    ensures HasRef(w, NameAt(file, name), steps, n) <==> !OverstatesRef(w, NameAt(file, name), steps, n)
  {
    hide LookupName, MustName, OverstatesRef, HasRef;
    MoreFuelName(w, file, name, steps, seen, fuel, n - fuel);
    FoundName(w, file, name, steps, seen, n);
    OverstatedRef(w, NameAt(file, name), steps, n);
  }
}
