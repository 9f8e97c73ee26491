/**
 * What a type has as far as the walk looks, independently of any walk: derivations of bounded height
 * for "may have" and "must have" in which only the property signatures spelled like a key declare
 * it, a `keyof` stands for its operand, and a name is what the code resolves it to.
 */
module TypeMeaning {
  import opened Prelude
  import opened TypeLookup
  import opened TypeTruth

  // ---------------------------------------------------------------- may have

  /**
   * Some resolution of the path exists, by a derivation of height at most `n`. Whatever cannot be
   * enumerated may have anything; a union may have what one branch may have.
   */
  ghost predicate MayTy(w: World, file: FileId, t: Ty, steps: seq<Step>, n: nat)
    decreases n, 1
  {
    steps == [] || (n > 0 && match t
      case Literal(ms) =>
        steps[0].Element? || MayProp(w, file, Visible(ms, steps[0].name), steps, n)
      case Paren(u) => MayTy(w, file, u, steps, n - 1)
      case Intersection(ts) => exists i | 0 <= i < |ts| :: MayTy(w, file, ts[i], steps, n - 1)
      case Union(ts) => ts == [] || exists i | 0 <= i < |ts| :: MayTy(w, file, ts[i], steps, n - 1)
      case ArrayOf(u) => steps[0].Member? || MayTy(w, file, u, steps[1..], n - 1)
      case Operator(_, u) => MayTy(w, file, u, steps, n - 1)
      case Indexed(u, index) => index.None? || MayTy(w, file, u, [Member(index.value)] + steps, n - 1)
      case Reference(head, qualified, args) =>
        if Wrapper(head) && args != [] then MayTy(w, file, args[0], steps, n - 1)
        else if ArrayName(head) && args != [] then
          steps[0].Member? || MayTy(w, file, args[0], steps[1..], n - 1)
        else qualified || MayName(w, file, head, steps, n - 1)
      case Opaque => true)
  }

  ghost predicate MayProp(w: World, file: FileId, p: Option<Prop>, steps: seq<Step>, n: nat)
    requires steps != []
    decreases n, 0
  {
    p.Some? &&
    (|steps| == 1 || p.value.ty.None? ||
     (n > 0 && MayTy(w, file, p.value.ty.value, steps[1..], n - 1)))
  }

  ghost predicate MayName(w: World, file: FileId, name: string, steps: seq<Step>, n: nat)
    decreases n, 2
  {
    match Resolve(w, file, name)
    case OutOfReach => true
    case Unreadable => true
    case Known(id) => MayDecl(w, id, steps, n)
  }

  /** An interface's own key hides the inherited ones; otherwise any base may provide it. */
  ghost predicate MayDecl(w: World, id: DeclId, steps: seq<Step>, n: nat)
    requires id in w.decls
    decreases n, 1
  {
    steps == [] || w.decls[id].Enum? || (n > 0 && match w.decls[id]
      case Enum => true
      case Alias(_, body) => MayTy(w, id.file, body, steps, n - 1)
      case Interface(_, ms, bases) =>
        steps[0].Element? ||
        var own := Visible(ms, steps[0].name);
        if own.Some? then MayProp(w, id.file, own, steps, n)
        else exists i | 0 <= i < |bases| :: MayBase(w, id.file, bases[i], steps, n - 1))
  }

  ghost predicate MayBase(w: World, file: FileId, base: Base, steps: seq<Step>, n: nat)
    decreases n, 3
  {
    base.Computed? || MayName(w, file, base.name, steps, n)
  }

  // ---------------------------------------------------------------- must have

  /** The path is present in every branch of every union it crosses. */
  ghost predicate MustTy(w: World, file: FileId, t: Ty, steps: seq<Step>, n: nat)
    decreases n, 1
  {
    steps == [] || (n > 0 && match t
      case Literal(ms) =>
        steps[0].Member? && MustProp(w, file, Visible(ms, steps[0].name), steps, n)
      case Paren(u) => MustTy(w, file, u, steps, n - 1)
      case Intersection(ts) => exists i | 0 <= i < |ts| :: MustTy(w, file, ts[i], steps, n - 1)
      case Union(ts) => forall i | 0 <= i < |ts| :: MustTy(w, file, ts[i], steps, n - 1)
      case ArrayOf(u) => steps[0].Element? && MustTy(w, file, u, steps[1..], n - 1)
      case Operator(_, u) => MustTy(w, file, u, steps, n - 1)
      case Indexed(u, index) => index.Some? && MustTy(w, file, u, [Member(index.value)] + steps, n - 1)
      case Reference(head, qualified, args) =>
        if Wrapper(head) && args != [] then MustTy(w, file, args[0], steps, n - 1)
        else if ArrayName(head) && args != [] then
          steps[0].Element? && MustTy(w, file, args[0], steps[1..], n - 1)
        else !qualified && MustName(w, file, head, steps, n - 1)
      case Opaque => false)
  }

  ghost predicate MustProp(w: World, file: FileId, p: Option<Prop>, steps: seq<Step>, n: nat)
    requires steps != []
    decreases n, 0
  {
    p.Some? &&
    (|steps| == 1 || (p.value.ty.Some? && n > 0 && MustTy(w, file, p.value.ty.value, steps[1..], n - 1)))
  }

  ghost predicate MustName(w: World, file: FileId, name: string, steps: seq<Step>, n: nat)
    decreases n, 2
  {
    var r := Resolve(w, file, name);
    r.Known? && MustDecl(w, r.id, steps, n)
  }

  ghost predicate MustDecl(w: World, id: DeclId, steps: seq<Step>, n: nat)
    requires id in w.decls
    decreases n, 1
  {
    steps == [] || (n > 0 && match w.decls[id]
      case Enum => false
      case Alias(_, body) => MustTy(w, id.file, body, steps, n - 1)
      case Interface(_, ms, bases) =>
        steps[0].Member? &&
        var own := Visible(ms, steps[0].name);
        if own.Some? then MustProp(w, id.file, own, steps, n)
        else exists i | 0 <= i < |bases| :: MustBase(w, id.file, bases[i], steps, n - 1))
  }

  ghost predicate MustBase(w: World, file: FileId, base: Base, steps: seq<Step>, n: nat)
    decreases n, 3
  {
    base.Named? && MustName(w, file, base.name, steps, n)
  }

  // ---------------------------------------------------------------- what must be there may be there

  lemma {:induction false} MustMayTy(w: World, file: FileId, t: Ty, steps: seq<Step>, n: nat)
    requires MustTy(w, file, t, steps, n)
    ensures MayTy(w, file, t, steps, n)
    decreases n, 1
  {
    if steps != [] {
      match t
      case Literal(ms) => MustMayProp(w, file, Visible(ms, steps[0].name), steps, n);
      case Paren(u) => MustMayTy(w, file, u, steps, n - 1);
      case Intersection(ts) =>
        var i :| 0 <= i < |ts| && MustTy(w, file, ts[i], steps, n - 1);
        MustMayTy(w, file, ts[i], steps, n - 1);
      case Union(ts) => if ts != [] { MustMayTy(w, file, ts[0], steps, n - 1); }
      case ArrayOf(u) => MustMayTy(w, file, u, steps[1..], n - 1);
      case Operator(_, u) => MustMayTy(w, file, u, steps, n - 1);
      case Indexed(u, index) => MustMayTy(w, file, u, [Member(index.value)] + steps, n - 1);
      case Reference(head, _, args) =>
        if Wrapper(head) && args != [] {
          MustMayTy(w, file, args[0], steps, n - 1);
        } else if ArrayName(head) && args != [] {
          MustMayTy(w, file, args[0], steps[1..], n - 1);
        } else {
          MustMayDecl(w, Resolve(w, file, head).id, steps, n - 1);
        }
      case Opaque =>
    }
  }

  lemma {:induction false} MustMayProp(w: World, file: FileId, p: Option<Prop>, steps: seq<Step>, n: nat)
    requires steps != [] && MustProp(w, file, p, steps, n)
    ensures MayProp(w, file, p, steps, n)
    decreases n, 0
  {
    if |steps| > 1 { MustMayTy(w, file, p.value.ty.value, steps[1..], n - 1); }
  }

  lemma {:induction false} MustMayDecl(w: World, id: DeclId, steps: seq<Step>, n: nat)
    requires id in w.decls && MustDecl(w, id, steps, n)
    ensures MayDecl(w, id, steps, n)
    decreases n, 1
  {
    if steps != [] {
      match w.decls[id]
      case Alias(_, body) => MustMayTy(w, id.file, body, steps, n - 1);
      case Interface(_, ms, bases) =>
        var own := Visible(ms, steps[0].name);
        if own.Some? {
          MustMayProp(w, id.file, own, steps, n);
        } else {
          var i :| 0 <= i < |bases| && MustBase(w, id.file, bases[i], steps, n - 1);
          assert MustName(w, id.file, bases[i].name, steps, n - 1);
          MustMayDecl(w, Resolve(w, id.file, bases[i].name).id, steps, n - 1);
          assert MayName(w, id.file, bases[i].name, steps, n - 1);
          assert MayBase(w, id.file, bases[i], steps, n - 1);
        }
    }
  }
}
