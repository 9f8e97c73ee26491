/**
 * The schema-path check of `scripts/gen-config-catalog.ts`: `lookupPath` and its shared `seen` set.
 * A declaration graph may be cyclic, so the evaluator is a function of fuel and
 * every claim about its answers holds for every fuel; termination is a theorem of its own.
 */
module TypeLookup {
  import opened Prelude

  // ---------------------------------------------------------------- the declaration graph

  type FileId = string

  datatype DeclId = DeclId(file: FileId, pos: nat)

  datatype Step = Member(name: string) | Element

  datatype Ty =
    | Literal(members: seq<Prop>)
    | Paren(inner: Ty)
    | Intersection(parts: seq<Ty>)
    | Union(parts: seq<Ty>)
    | ArrayOf(element: Ty)
    | Operator(keyOf: bool, operand: Ty)
    | Indexed(object: Ty, index: Option<string>)
    | Reference(head: string, qualified: bool, args: seq<Ty>)
    | Opaque

  /**
   * One element of an interface body or type literal. `text` is the spelling of a property name
   * (quotes included) and `name` the key it declares; methods and accessors are `Hidden`, with the
   * type the key reads as; an index signature over strings, or over numbers only, is `AnyKey`.
   */
  datatype Prop =
    | Property(text: string, name: string, ty: Option<Ty>)
    | Hidden(name: string, ty: Option<Ty>)
    | AnyKey(numeric: bool, ty: Option<Ty>)

  datatype Base = Named(name: string, args: seq<Ty>) | Computed

  /** A type parameter with its default, if it has one. */
  datatype Param = Param(name: string, default: Option<Ty>)

  datatype Decl =
    | Interface(params: seq<Param>, members: seq<Prop>, bases: seq<Base>)
    | Alias(params: seq<Param>, body: Ty)
    | Enum

  /** What the code resolves a bare type name to; an unreadable file throws. */
  datatype Resolution = Known(id: DeclId) | OutOfReach | Unreadable

  /** What a declared or imported name denotes: declarations that merge, and perhaps more outside the graph. */
  datatype Meaning = Meaning(ids: seq<DeclId>, open: bool)

  /**
   * `names` is what the code makes of a name in a file, as `DeclSearch.Search.DeclFor` finds it;
   * `means` is what the name denotes there.
   */
  datatype World = World(
    decls: map<DeclId, Decl>,
    names: map<(FileId, string), Resolution>,
    means: map<(FileId, string), Meaning>)

  function Resolve(w: World, file: FileId, name: string): (r: Resolution)
    ensures r.Known? ==> r.id in w.decls
  {
    if (file, name) !in w.names then OutOfReach
    else
      var r := w.names[(file, name)];
      if r.Known? && r.id !in w.decls then OutOfReach else r
  }

  const PASSTHROUGH := {"Partial", "Required", "Readonly", "NonNullable"}
  const ARRAYS := {"Array", "ReadonlyArray"}

  // ---------------------------------------------------------------- the evaluator

  datatype PathLookup = Found | Missing | Unknown

  type Key = (DeclId, nat)

  datatype Eval = OutOfFuel | Threw | Value(r: PathLookup, seen: set<Key>)

  datatype EvalAll = AllOutOfFuel | AllThrew | Values(rs: seq<PathLookup>, seen: set<Key>)

  /** One part that has the path is enough; failing that, one part nobody can see into leaves it open. */
  function Combine(rs: seq<PathLookup>): PathLookup {
    if Found in rs then Found else if Unknown in rs then Unknown else Missing
  }

  /** Branches of a union must all say the same for a definite answer. */
  function Agree(rs: seq<PathLookup>): PathLookup {
    if forall r | r in rs :: r == Found then Found
    else if forall r | r in rs :: r == Missing then Missing
    else Unknown
  }

  /** The first property signature spelled `name`: all that the walk can see. */
  function Visible(ms: seq<Prop>, name: string): (p: Option<Prop>)
    ensures p.Some? ==> p.value in ms && p.value.Property?
  {
    if ms == [] then None
    else if ms[0].Property? && ms[0].text == name then Some(ms[0])
    else Visible(ms[1..], name)
  }

  function LookupProp(w: World, file: FileId, ty: Option<Ty>, steps: seq<Step>, seen: set<Key>, fuel: nat): Eval
    requires steps != []
    decreases fuel, 0
  {
    if |steps| == 1 then Value(Found, seen)
    else if ty.None? then Value(Unknown, seen)
    else if fuel == 0 then OutOfFuel
    else LookupTy(w, file, ty.value, steps[1..], seen, fuel - 1)
  }

  function LookupTy(w: World, file: FileId, t: Ty, steps: seq<Step>, seen: set<Key>, fuel: nat): Eval
    decreases fuel, 1
  {
    if steps == [] then Value(Found, seen)
    else if fuel == 0 then OutOfFuel
    else match t
      case Literal(ms) =>
        if steps[0].Element? then Value(Unknown, seen)
        else (match Visible(ms, steps[0].name)
              case None => Value(Missing, seen)
              case Some(p) => LookupProp(w, file, p.ty, steps, seen, fuel))
      case Paren(u) => LookupTy(w, file, u, steps, seen, fuel - 1)
      case Intersection(ts) =>
        (match LookupEach(w, file, ts, steps, seen, fuel - 1)
         case AllOutOfFuel => OutOfFuel
         case AllThrew => Threw
         case Values(rs, s) => Value(Combine(rs), s))
      case Union(ts) =>
        (match LookupEach(w, file, ts, steps, seen, fuel - 1)
         case AllOutOfFuel => OutOfFuel
         case AllThrew => Threw
         case Values(rs, s) => Value(Agree(rs), s))
      case ArrayOf(u) =>
        if steps[0].Element? then LookupTy(w, file, u, steps[1..], seen, fuel - 1) else Value(Unknown, seen)
      case Operator(_, u) => LookupTy(w, file, u, steps, seen, fuel - 1)
      case Indexed(u, index) =>
        if index.Some? then LookupTy(w, file, u, [Member(index.value)] + steps, seen, fuel - 1)
        else Value(Unknown, seen)
      case Reference(head, qualified, args) =>
        if head in PASSTHROUGH && args != [] then LookupTy(w, file, args[0], steps, seen, fuel - 1)
        else if head in ARRAYS && args != [] then
          if steps[0].Element? then LookupTy(w, file, args[0], steps[1..], seen, fuel - 1) else Value(Unknown, seen)
        else if qualified then Value(Unknown, seen)
        else LookupName(w, file, head, steps, seen, fuel - 1)
      case Opaque => Value(Unknown, seen)
  }

  function LookupName(w: World, file: FileId, name: string, steps: seq<Step>, seen: set<Key>, fuel: nat): Eval
    decreases fuel, 2
  {
    match Resolve(w, file, name)
    case OutOfReach => Value(Unknown, seen)
    case Unreadable => Threw
    case Known(id) => LookupDecl(w, id, steps, seen, fuel)
  }

  /** Only interfaces and aliases are guarded by `seen`; an enum cannot be enumerated. */
  function LookupDecl(w: World, id: DeclId, steps: seq<Step>, seen: set<Key>, fuel: nat): Eval
    requires id in w.decls
    decreases fuel, 1
  {
    if steps == [] then Value(Found, seen)
    else if w.decls[id].Enum? then Value(Unknown, seen)
    else if (id, |steps|) in seen then Value(Unknown, seen)
    else if fuel == 0 then OutOfFuel
    else
      var seen' := seen + {(id, |steps|)};
      match w.decls[id]
      case Alias(_, body) => LookupTy(w, id.file, body, steps, seen', fuel - 1)
      case Interface(_, ms, bases) =>
        if steps[0].Element? then Value(Unknown, seen')
        else match Visible(ms, steps[0].name)
          case Some(p) => LookupProp(w, id.file, p.ty, steps, seen', fuel)
          case None =>
            (match LookupBases(w, id.file, bases, steps, seen', fuel - 1)
             case AllOutOfFuel => OutOfFuel
             case AllThrew => Threw
             case Values(rs, s) => Value(Combine(rs), s))
  }

  /** Every branch is walked, in order, with one `seen` set threaded through all of them. */
  function LookupEach(w: World, file: FileId, ts: seq<Ty>, steps: seq<Step>, seen: set<Key>, fuel: nat): (e: EvalAll)
    ensures e.Values? ==> |e.rs| == |ts|
    decreases fuel, 4, |ts|
  {
    if ts == [] then Values([], seen)
    else match LookupTy(w, file, ts[0], steps, seen, fuel)
      case OutOfFuel => AllOutOfFuel
      case Threw => AllThrew
      case Value(r, s) => Prepend(r, LookupEach(w, file, ts[1..], steps, s, fuel))
  }

  function LookupBases(
    w: World, file: FileId, bases: seq<Base>, steps: seq<Step>, seen: set<Key>, fuel: nat): (e: EvalAll)
    ensures e.Values? ==> |e.rs| == |bases|
    decreases fuel, 4, |bases|
  {
    if bases == [] then Values([], seen)
    else match LookupBase(w, file, bases[0], steps, seen, fuel)
      case OutOfFuel => AllOutOfFuel
      case Threw => AllThrew
      case Value(r, s) => Prepend(r, LookupBases(w, file, bases[1..], steps, s, fuel))
  }

  function LookupBase(w: World, file: FileId, base: Base, steps: seq<Step>, seen: set<Key>, fuel: nat): Eval
    decreases fuel, 3
  {
    match base
    case Computed => Value(Unknown, seen)
    case Named(name, _) => LookupName(w, file, name, steps, seen, fuel)
  }

  function Prepend(r: PathLookup, rest: EvalAll): EvalAll {
    if rest.Values? then Values([r] + rest.rs, rest.seen) else rest
  }
}
