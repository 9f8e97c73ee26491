/** A criterion on the declarations alone under which every walk of `lookupPath` ends. */
module TypeBudget {
  import opened Prelude
  import opened TypeLookup
  import opened TypeTermination

  /**
   * A budget for every declaration. An indexed access spends one unit and stepping into a member
   * or an element earns one, so along any walk `|steps|` plus the remaining budget never grows.
   */
  type Budget = map<DeclId, nat>

  ghost predicate FitsTy(w: World, bud: Budget, file: FileId, t: Ty, b: int) {
    match t
    case Literal(ms) => forall m | m in ms && m.Property? && m.ty.Some? :: FitsTy(w, bud, file, m.ty.value, b + 1)
    case Paren(u) => FitsTy(w, bud, file, u, b)
    case Intersection(ts) => forall u | u in ts :: FitsTy(w, bud, file, u, b)
    case Union(ts) => forall u | u in ts :: FitsTy(w, bud, file, u, b)
    case ArrayOf(u) => FitsTy(w, bud, file, u, b + 1)
    case Operator(_, u) => FitsTy(w, bud, file, u, b)
    case Indexed(u, index) => index.Some? ==> FitsTy(w, bud, file, u, b - 1)
    case Reference(head, qualified, args) =>
      if head in PASSTHROUGH && args != [] then FitsTy(w, bud, file, args[0], b)
      else if head in ARRAYS && args != [] then FitsTy(w, bud, file, args[0], b + 1)
      else !qualified ==> FitsName(w, bud, file, head, b)
    case Opaque => true
  }

  ghost predicate FitsName(w: World, bud: Budget, file: FileId, name: string, b: int) {
    var r := Resolve(w, file, name);
    r.Known? ==> r.id in bud && bud[r.id] <= b
  }

  ghost predicate FitsDecl(w: World, bud: Budget, id: DeclId)
    requires id in w.decls && id in bud
  {
    match w.decls[id]
    case Enum => true
    case Alias(_, body) => FitsTy(w, bud, id.file, body, bud[id])
    case Interface(_, ms, bases) =>
      && FitsTy(w, bud, id.file, Literal(ms), bud[id])
      && forall base | base in bases && base.Named? :: FitsName(w, bud, id.file, base.name, bud[id])
  }

  ghost predicate Budgeted(w: World, bud: Budget) {
    bud.Keys == w.decls.Keys && forall id | id in w.decls :: FitsDecl(w, bud, id)
  }

  lemma {:induction false} FitsMore(w: World, bud: Budget, file: FileId, t: Ty, b: int, c: int)
    requires FitsTy(w, bud, file, t, b) && b <= c
    ensures FitsTy(w, bud, file, t, c)
    decreases t
  {
    match t
    case Literal(ms) =>
      forall m | m in ms && m.Property? && m.ty.Some? ensures FitsTy(w, bud, file, m.ty.value, c + 1) {
        FitsMore(w, bud, file, m.ty.value, b + 1, c + 1);
      }
    case Paren(u) => FitsMore(w, bud, file, u, b, c);
    case Intersection(ts) => forall u | u in ts { FitsMore(w, bud, file, u, b, c); }
    case Union(ts) => forall u | u in ts { FitsMore(w, bud, file, u, b, c); }
    case ArrayOf(u) => FitsMore(w, bud, file, u, b + 1, c + 1);
    case Operator(_, u) => FitsMore(w, bud, file, u, b, c);
    case Indexed(u, index) => if index.Some? { FitsMore(w, bud, file, u, b - 1, c - 1); }
    case Reference(head, _, args) =>
      if head in PASSTHROUGH && args != [] { FitsMore(w, bud, file, args[0], b, c); }
      else if head in ARRAYS && args != [] { FitsMore(w, bud, file, args[0], b + 1, c + 1); }
    case Opaque =>
  }

  // ---------------------------------------------------------------- a budget bounds the path

  lemma {:induction false} FitsBoundsTy(
    w: World, bud: Budget, top: nat, file: FileId, t: Ty, steps: seq<Step>, seen: set<Key>, fuel: nat)
    requires Budgeted(w, bud) && FitsTy(w, bud, file, t, top - |steps|)
    ensures LongestTy(w, file, t, steps, seen, fuel) <= top
    decreases fuel, 1
  {
    if steps != [] && fuel > 0 {
      match t
      case Literal(ms) =>
        if steps[0].Member? { FitsBoundsProp(w, bud, top, file, ms, Visible(ms, steps[0].name), steps, seen, fuel); }
      case Paren(u) => FitsBoundsTy(w, bud, top, file, u, steps, seen, fuel - 1);
      case Intersection(ts) => FitsBoundsEach(w, bud, top, file, ts, steps, seen, fuel - 1);
      case Union(ts) => FitsBoundsEach(w, bud, top, file, ts, steps, seen, fuel - 1);
      case ArrayOf(u) => if steps[0].Element? { FitsBoundsTy(w, bud, top, file, u, steps[1..], seen, fuel - 1); }
      case Operator(_, u) => FitsBoundsTy(w, bud, top, file, u, steps, seen, fuel - 1);
      case Indexed(u, index) =>
        if index.Some? { FitsBoundsTy(w, bud, top, file, u, [Member(index.value)] + steps, seen, fuel - 1); }
      case Reference(head, qualified, args) =>
        if head in PASSTHROUGH && args != [] {
          FitsBoundsTy(w, bud, top, file, args[0], steps, seen, fuel - 1);
        } else if head in ARRAYS && args != [] {
          if steps[0].Element? { FitsBoundsTy(w, bud, top, file, args[0], steps[1..], seen, fuel - 1); }
        } else if !qualified {
          FitsBoundsName(w, bud, top, file, head, steps, seen, fuel - 1);
        }
      case Opaque =>
    }
  }

  lemma {:induction false} FitsBoundsProp(w: World, bud: Budget, top: nat, file: FileId, ms: seq<Prop>,
    p: Option<Prop>, steps: seq<Step>, seen: set<Key>, fuel: nat)
    requires steps != [] && (p.Some? ==> p.value in ms && p.value.Property?)
    requires Budgeted(w, bud) && FitsTy(w, bud, file, Literal(ms), top - |steps|)
    ensures LongestProp(w, file, p, steps, seen, fuel) <= top
    decreases fuel, 0
  {
    if p.Some? && |steps| > 1 && p.value.ty.Some? && fuel > 0 {
      FitsBoundsTy(w, bud, top, file, p.value.ty.value, steps[1..], seen, fuel - 1);
    }
  }

  lemma {:induction false} FitsBoundsName(
    w: World, bud: Budget, top: nat, file: FileId, name: string, steps: seq<Step>, seen: set<Key>, fuel: nat)
    requires Budgeted(w, bud) && FitsName(w, bud, file, name, top - |steps|)
    ensures LongestName(w, file, name, steps, seen, fuel) <= top
    decreases fuel, 2
  {
    var r := Resolve(w, file, name);
    if r.Known? { FitsBoundsDecl(w, bud, top, r.id, steps, seen, fuel); }
  }

  lemma {:induction false} FitsBoundsDecl(
    w: World, bud: Budget, top: nat, id: DeclId, steps: seq<Step>, seen: set<Key>, fuel: nat)
    requires Budgeted(w, bud) && id in w.decls && bud[id] <= top - |steps|
    ensures LongestDecl(w, id, steps, seen, fuel) <= top
    decreases fuel, 1
  {
    if steps != [] && fuel > 0 {
      assert FitsDecl(w, bud, id);
      var seen' := seen + {(id, |steps|)};
      match w.decls[id]
      case Enum =>
      case Alias(_, body) =>
        FitsMore(w, bud, id.file, body, bud[id], top - |steps|);
        FitsBoundsTy(w, bud, top, id.file, body, steps, seen', fuel - 1);
      case Interface(_, ms, bases) =>
        if steps[0].Member? {
          FitsMore(w, bud, id.file, Literal(ms), bud[id], top - |steps|);
          FitsBoundsProp(w, bud, top, id.file, ms, Visible(ms, steps[0].name), steps, seen', fuel);
          FitsBoundsBases(w, bud, top, id.file, bases, steps, seen', fuel - 1);
        }
    }
  }

  lemma {:induction false} FitsBoundsEach(
    w: World, bud: Budget, top: nat, file: FileId, ts: seq<Ty>, steps: seq<Step>, seen: set<Key>, fuel: nat)
    requires Budgeted(w, bud) && forall t | t in ts :: FitsTy(w, bud, file, t, top - |steps|)
    ensures LongestEach(w, file, ts, steps, seen, fuel) <= top
    decreases fuel, 4, |ts|
  {
    if ts != [] {
      assert ts[0] in ts && forall t | t in ts[1..] :: t in ts;
      FitsBoundsTy(w, bud, top, file, ts[0], steps, seen, fuel);
      var e := LookupTy(w, file, ts[0], steps, seen, fuel);
      if e.Value? { FitsBoundsEach(w, bud, top, file, ts[1..], steps, e.seen, fuel); }
    }
  }

  lemma {:induction false} FitsBoundsBases(
    w: World, bud: Budget, top: nat, file: FileId, bases: seq<Base>, steps: seq<Step>, seen: set<Key>, fuel: nat)
    requires Budgeted(w, bud) && forall base | base in bases && base.Named? ::
             FitsName(w, bud, file, base.name, top - |steps|)
    ensures LongestBases(w, file, bases, steps, seen, fuel) <= top
    decreases fuel, 4, |bases|
  {
    if bases != [] {
      assert bases[0] in bases && forall base | base in bases[1..] :: base in bases;
      if bases[0].Named? { FitsBoundsName(w, bud, top, file, bases[0].name, steps, seen, fuel); }
      var e := LookupBase(w, file, bases[0], steps, seen, fuel);
      if e.Value? { FitsBoundsBases(w, bud, top, file, bases[1..], steps, e.seen, fuel); }
    }
  }

  predicate IndexFreeTy(t: Ty) {
    match t
    case Literal(ms) => forall m | m in ms && m.Property? && m.ty.Some? :: IndexFreeTy(m.ty.value)
    case Paren(u) => IndexFreeTy(u)
    case Intersection(ts) => forall u | u in ts :: IndexFreeTy(u)
    case Union(ts) => forall u | u in ts :: IndexFreeTy(u)
    case ArrayOf(u) => IndexFreeTy(u)
    case Operator(_, u) => IndexFreeTy(u)
    case Indexed(_, _) => false
    case Reference(_, _, args) => forall u | u in args :: IndexFreeTy(u)
    case Opaque => true
  }

  predicate IndexFree(w: World) {
    forall id | id in w.decls ::
      match w.decls[id]
      case Enum => true
      case Alias(_, body) => IndexFreeTy(body)
      case Interface(_, ms, _) => IndexFreeTy(Literal(ms))
  }

  /** Without indexed accesses paths never grow and the all-zero budget always fits. */
  lemma {:induction false} IndexFreeFits(w: World, bud: Budget, file: FileId, t: Ty, b: nat)
    requires bud.Keys == w.decls.Keys && forall id | id in bud :: bud[id] == 0
    requires IndexFreeTy(t)
    ensures FitsTy(w, bud, file, t, b)
    decreases t
  {
    match t
    case Literal(ms) =>
      forall m | m in ms && m.Property? && m.ty.Some? { IndexFreeFits(w, bud, file, m.ty.value, b + 1); }
    case Paren(u) => IndexFreeFits(w, bud, file, u, b);
    case Intersection(ts) => forall u | u in ts { IndexFreeFits(w, bud, file, u, b); }
    case Union(ts) => forall u | u in ts { IndexFreeFits(w, bud, file, u, b); }
    case ArrayOf(u) => IndexFreeFits(w, bud, file, u, b + 1);
    case Operator(_, u) => IndexFreeFits(w, bud, file, u, b);
    case Indexed(u, index) =>
    case Reference(head, _, args) =>
      if head in PASSTHROUGH && args != [] { IndexFreeFits(w, bud, file, args[0], b); }
      else if head in ARRAYS && args != [] { IndexFreeFits(w, bud, file, args[0], b + 1); }
    case Opaque =>
  }

  /** `lookupPath` returns (or throws) on every declaration and path of a budgeted graph. */
  lemma Terminates(w: World, bud: Budget, id: DeclId, steps: seq<Step>) returns (fuel: nat)
    requires Budgeted(w, bud) && id in w.decls
    ensures !LookupDecl(w, id, steps, {}, fuel).OutOfFuel?
  {
    var top := |steps| + bud[id];
    forall n: nat ensures LongestDecl(w, id, steps, {}, n) <= top { FitsBoundsDecl(w, bud, top, id, steps, {}, n); }
    fuel := BoundedEnds(w, id, steps, top);
  }

  /** In particular on every graph without indexed accesses, however cyclic. */
  lemma IndexFreeTerminates(w: World, id: DeclId, steps: seq<Step>) returns (fuel: nat)
    requires IndexFree(w) && id in w.decls
    ensures !LookupDecl(w, id, steps, {}, fuel).OutOfFuel?
  {
    var bud := map d | d in w.decls :: 0;
    forall d | d in w.decls ensures FitsDecl(w, bud, d) {
      match w.decls[d]
      case Enum =>
      case Alias(_, body) => IndexFreeFits(w, bud, d.file, body, 0);
      case Interface(_, ms, _) => IndexFreeFits(w, bud, d.file, Literal(ms), 0);
    }
    fuel := Terminates(w, bud, id, steps);
  }
}
