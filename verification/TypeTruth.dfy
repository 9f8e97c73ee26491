/**
 * What a type has by the rules of the language, whatever any walk makes of it: "has" and "can have"
 * by derivations of bounded height. Every kind of element declares its key, declarations of one name
 * merge, type arguments are substituted, a name means what it denotes where it stands, and an index
 * signature speaks only for keys that nothing more specific declares.
 */
module TypeTruth {
  import opened Prelude
  import opened DecimalText
  import opened TypeLookup

  // ---------------------------------------------------------------- what a reference stands for

  /** A type where it is written: its file, and what the type parameters in scope stand for. */
  datatype Site = Site(file: FileId, scope: map<string, Site>, ty: Ty)

  datatype Referent =
    | Stands(site: Site)
    | ArrayTo(element: Site)
    | Declared(ids: seq<DeclId>, args: seq<Site>, open: bool)
    | Outside

  /** The library's types whose keys are those of their argument. */
  predicate Wrapper(name: string) {
    name == "Partial" || name == "Required" || name == "Readonly" || name == "NonNullable"
  }

  /** The library's types whose elements are of their argument's type. */
  predicate ArrayName(name: string) {
    name == "Array" || name == "ReadonlyArray"
  }

  function Args(at: Site, ts: seq<Ty>): seq<Site> {
    seq(|ts|, i requires 0 <= i < |ts| => at.(ty := ts[i]))
  }

  /** A parameter is its argument, else its default, else anything. */
  function Bind(file: FileId, params: seq<Param>, args: seq<Site>): map<string, Site> {
    if params == [] then map[]
    else
      var last := |params| - 1;
      var scope := Bind(file, params[..last], args);
      var unbound := if params[last].default.Some? then params[last].default.value else Opaque;
      scope[params[last].name := if last < |args| then args[last] else Site(file, scope, unbound)]
  }

  /** Inside a declaration: its file, with its parameters bound. */
  function Inside(w: World, id: DeclId, args: seq<Site>): Site
    requires id in w.decls
  {
    Site(id.file, if w.decls[id].Enum? then map[] else Bind(id.file, w.decls[id].params, args), Opaque)
  }

  /** A parameter in scope, a declaration of that name, or one of the global wrapper and array types. */
  function Denoted(w: World, at: Site): (t: Referent)
    requires at.ty.Reference?
    ensures t.Declared? ==> t.ids != [] && forall id | id in t.ids :: id in w.decls
  {
    var head, args := at.ty.head, at.ty.args;
    if at.ty.qualified then Outside
    else if head in at.scope then Stands(at.scope[head])
    else if (at.file, head) in w.means then
      var m := w.means[(at.file, head)];
      if m.ids == [] || exists id | id in m.ids :: id !in w.decls then Outside
      else Declared(m.ids, Args(at, args), m.open)
    else if Wrapper(head) && args != [] then Stands(at.(ty := args[0]))
    else if ArrayName(head) && args != [] then ArrayTo(at.(ty := args[0]))
    else Outside
  }

  // ---------------------------------------------------------------- elements

  /** The element that names the key, whatever its kind or spelling. */
  function NamedBy(ms: seq<Prop>, step: Step): (p: Option<Prop>)
    ensures p.Some? ==> step.Member? && p.value in ms && !p.value.AnyKey? && p.value.name == step.name
    ensures p.None? && step.Member? ==> forall m | m in ms && !m.AnyKey? :: m.name != step.name
  {
    if ms == [] || step.Element? then None
    else if !ms[0].AnyKey? && ms[0].name == step.name then Some(ms[0])
    else NamedBy(ms[1..], step)
  }

  /** An index signature over numbers admits array elements and keys spelled like a number. */
  predicate Admits(p: Prop, step: Step) {
    p.AnyKey? && (!p.numeric || step.Element? || Canonical(step.name))
  }

  /** One of the merged bodies names the key: that hides what any of them inherits. */
  predicate OwnNamed(w: World, ids: seq<DeclId>, step: Step) {
    exists id | id in ids :: id in w.decls && w.decls[id].Interface? && NamedBy(w.decls[id].members, step).Some?
  }

  // ---------------------------------------------------------------- has

  /** The path is declared by name in every branch of every union it crosses. */
  ghost predicate HasTy(w: World, at: Site, steps: seq<Step>, n: nat)
    decreases n, 1
  {
    steps == [] || (n > 0 && match at.ty
      case Literal(ms) => HasProp(w, at, NamedBy(ms, steps[0]), steps, n)
      case Paren(u) => HasTy(w, at.(ty := u), steps, n - 1)
      case Intersection(ts) => exists i | 0 <= i < |ts| :: HasTy(w, at.(ty := ts[i]), steps, n - 1)
      case Union(ts) => forall i | 0 <= i < |ts| :: HasTy(w, at.(ty := ts[i]), steps, n - 1)
      case ArrayOf(u) => steps[0].Element? && HasTy(w, at.(ty := u), steps[1..], n - 1)
      case Operator(keyOf, u) => !keyOf && HasTy(w, at.(ty := u), steps, n - 1)
      case Indexed(u, index) => index.Some? && HasTy(w, at.(ty := u), [Member(index.value)] + steps, n - 1)
      case Reference(_, _, _) => HasRef(w, at, steps, n - 1)
      case Opaque => false)
  }

  ghost predicate HasProp(w: World, at: Site, p: Option<Prop>, steps: seq<Step>, n: nat)
    requires steps != []
    decreases n, 0
  {
    p.Some? &&
    (|steps| == 1 || (p.value.ty.Some? && n > 0 && HasTy(w, at.(ty := p.value.ty.value), steps[1..], n - 1)))
  }

  ghost predicate HasRef(w: World, at: Site, steps: seq<Step>, n: nat)
    requires at.ty.Reference?
    decreases n, 3
  {
    steps == [] || match Denoted(w, at)
      case Stands(site) => HasTy(w, site, steps, n)
      case ArrayTo(site) => steps[0].Element? && HasTy(w, site, steps[1..], n)
      case Declared(ids, args, _) => HasSym(w, ids, args, steps, n)
      case Outside => false
  }

  /** What the merged declarations of a name have. */
  ghost predicate HasSym(w: World, ids: seq<DeclId>, args: seq<Site>, steps: seq<Step>, n: nat)
    requires forall id | id in ids :: id in w.decls
    decreases n, 2
  {
    steps == [] || (n > 0 && exists id | id in ids :: HasDecl(w, ids, id, args, steps, n))
  }

  ghost predicate HasDecl(w: World, ids: seq<DeclId>, id: DeclId, args: seq<Site>, steps: seq<Step>, n: nat)
    requires id in w.decls && steps != [] && n > 0
    decreases n, 1
  {
    var at := Inside(w, id, args);
    match w.decls[id]
    case Enum => false
    case Alias(_, body) => HasTy(w, at.(ty := body), steps, n - 1)
    case Interface(_, ms, bases) =>
      var own := NamedBy(ms, steps[0]);
      if own.Some? then HasProp(w, at, own, steps, n)
      else !OwnNamed(w, ids, steps[0]) && exists i | 0 <= i < |bases| :: HasBase(w, at, bases[i], steps, n - 1)
  }

  ghost predicate HasBase(w: World, at: Site, base: Base, steps: seq<Step>, n: nat)
    decreases n, 4
  {
    base.Named? && HasRef(w, at.(ty := Reference(base.name, false, base.args)), steps, n)
  }

  // ---------------------------------------------------------------- when an index signature is silent

  datatype Whole = WholeType(site: Site) | WholeName(ids: seq<DeclId>, args: seq<Site>)

  /**
   * What takes precedence over an index signature further in. `Beside`: a type that contains it, the
   * path walked since, and how much was left when it was last the type at hand. `Nearer`: an
   * interface has an index signature of its own, so those of its bases are overridden.
   */
  datatype Rival = Beside(whole: Whole, path: seq<Step>, left: nat) | Nearer(numeric: bool, left: nat)

  ghost predicate Sure(w: World, whole: Whole, path: seq<Step>) {
    exists m: nat :: HasWhole(w, whole, path, m)
  }

  ghost predicate HasWhole(w: World, whole: Whole, path: seq<Step>, m: nat) {
    match whole
    case WholeType(site) => HasTy(w, site, path, m)
    case WholeName(ids, args) => (forall id | id in ids :: id in w.decls) && HasSym(w, ids, args, path, m)
  }

  ghost predicate Outranked(w: World, rivals: seq<Rival>, numeric: bool, steps: seq<Step>)
    requires steps != []
  {
    exists r | r in rivals :: Outranks(w, r, numeric, steps)
  }

  ghost predicate Outranks(w: World, r: Rival, numeric: bool, steps: seq<Step>)
    requires steps != []
  {
    r.left == |steps| && (r.Beside? ==> Sure(w, r.whole, r.path + [steps[0]])) && (r.Nearer? ==> r.numeric == numeric)
  }

  /** The rivals once the first step has been taken. */
  function Onward(rivals: seq<Rival>, steps: seq<Step>): seq<Rival>
    requires steps != []
  {
    if rivals == [] then []
    else
      var rest := Onward(rivals[1..], steps);
      if rivals[0].left != |steps| then [rivals[0]] + rest
      else match rivals[0]
        case Beside(whole, path, left) => [Beside(whole, path + [steps[0]], left - 1)] + rest
        case Nearer(_, _) => rest
  }

  function OwnIndexes(w: World, ids: seq<DeclId>, step: Step, left: nat): seq<Rival> {
    (if HasOwnIndex(w, ids, step, false) then [Nearer(false, left)] else []) +
    (if HasOwnIndex(w, ids, step, true) then [Nearer(true, left)] else [])
  }

  predicate HasOwnIndex(w: World, ids: seq<DeclId>, step: Step, numeric: bool) {
    exists id | id in ids :: id in w.decls && w.decls[id].Interface? &&
      exists m | m in w.decls[id].members :: Admits(m, step) && m.numeric == numeric
  }

  // ---------------------------------------------------------------- can have

  /**
   * The declarations do not rule the path out. What lies outside the graph can have anything; a
   * union can have what one branch can; a `keyof` is a set of keys and has none of its own.
   */
  ghost predicate CanTy(w: World, at: Site, rivals: seq<Rival>, steps: seq<Step>, n: nat)
    decreases n, 1
  {
    steps == [] || (n > 0 && match at.ty
      case Literal(ms) => CanMember(w, at, rivals, ms, steps, n)
      case Paren(u) => CanTy(w, at.(ty := u), rivals, steps, n - 1)
      case Intersection(ts) =>
        var all := rivals + [Beside(WholeType(at), [], |steps|)];
        exists i | 0 <= i < |ts| :: CanTy(w, at.(ty := ts[i]), all, steps, n - 1)
      case Union(ts) => ts == [] || exists i | 0 <= i < |ts| :: CanTy(w, at.(ty := ts[i]), rivals, steps, n - 1)
      case ArrayOf(u) => steps[0].Member? || CanTy(w, at.(ty := u), Onward(rivals, steps), steps[1..], n - 1)
      case Operator(keyOf, u) => !keyOf && CanTy(w, at.(ty := u), rivals, steps, n - 1)
      case Indexed(u, index) => index.None? || CanTy(w, at.(ty := u), rivals, [Member(index.value)] + steps, n - 1)
      case Reference(_, _, _) => CanRef(w, at, rivals, steps, n - 1)
      case Opaque => true)
  }

  ghost predicate CanMember(w: World, at: Site, rivals: seq<Rival>, ms: seq<Prop>, steps: seq<Step>, n: nat)
    requires steps != []
    decreases n, 0, 2
  {
    var own := NamedBy(ms, steps[0]);
    if own.Some? then CanProp(w, at, rivals, own.value, steps, n) else CanIndex(w, at, rivals, ms, steps, n)
  }

  ghost predicate CanIndex(w: World, at: Site, rivals: seq<Rival>, ms: seq<Prop>, steps: seq<Step>, n: nat)
    requires steps != []
    decreases n, 0, 1
  {
    exists m | m in ms ::
      Admits(m, steps[0]) && !Outranked(w, rivals, m.numeric, steps) && CanProp(w, at, rivals, m, steps, n)
  }

  ghost predicate CanProp(w: World, at: Site, rivals: seq<Rival>, p: Prop, steps: seq<Step>, n: nat)
    requires steps != []
    decreases n, 0, 0
  {
    |steps| == 1 || p.ty.None? ||
    (n > 0 && CanTy(w, at.(ty := p.ty.value), Onward(rivals, steps), steps[1..], n - 1))
  }

  ghost predicate CanRef(w: World, at: Site, rivals: seq<Rival>, steps: seq<Step>, n: nat)
    requires at.ty.Reference?
    decreases n, 3
  {
    steps == [] || match Denoted(w, at)
      case Stands(site) => CanTy(w, site, rivals, steps, n)
      case ArrayTo(site) => steps[0].Member? || CanTy(w, site, Onward(rivals, steps), steps[1..], n)
      case Declared(ids, args, open) => open || CanSym(w, ids, args, rivals, steps, n)
      case Outside => true
  }

  ghost predicate CanSym(w: World, ids: seq<DeclId>, args: seq<Site>, rivals: seq<Rival>, steps: seq<Step>, n: nat)
    requires forall id | id in ids :: id in w.decls
    decreases n, 2
  {
    steps == [] || exists id | id in ids :: CanDecl(w, ids, id, args, rivals, steps, n)
  }

  /** Named by this body; or named by none of them, and admitted by it or inherited. */
  ghost predicate CanDecl(
    w: World, ids: seq<DeclId>, id: DeclId, args: seq<Site>, rivals: seq<Rival>, steps: seq<Step>, n: nat)
    requires id in w.decls && steps != []
    decreases n, 1
  {
    var at := Inside(w, id, args);
    w.decls[id].Enum? || (n > 0 && match w.decls[id]
      case Enum => true
      case Alias(_, body) => CanTy(w, at.(ty := body), rivals, steps, n - 1)
      case Interface(_, ms, bases) =>
        var own := NamedBy(ms, steps[0]);
        if own.Some? then CanProp(w, at, rivals, own.value, steps, n)
        else !OwnNamed(w, ids, steps[0]) && CanInherit(w, ids, id, args, rivals, steps, n))
  }

  ghost predicate CanInherit(
    w: World, ids: seq<DeclId>, id: DeclId, args: seq<Site>, rivals: seq<Rival>, steps: seq<Step>, n: nat)
    requires id in w.decls && w.decls[id].Interface? && steps != [] && n > 0
    decreases n, 0, 3
  {
    var at, all := Inside(w, id, args), rivals + [Beside(WholeName(ids, args), [], |steps|)];
    var bases := w.decls[id].bases;
    || CanIndex(w, at, all, w.decls[id].members, steps, n)
    || exists i | 0 <= i < |bases| ::
         CanBase(w, at, all + OwnIndexes(w, ids, steps[0], |steps|), bases[i], steps, n - 1)
  }

  ghost predicate CanBase(w: World, at: Site, rivals: seq<Rival>, base: Base, steps: seq<Step>, n: nat)
    decreases n, 4
  {
    base.Computed? || CanRef(w, at.(ty := Reference(base.name, false, base.args)), rivals, steps, n)
  }

  // ---------------------------------------------------------------- what it has it can have

  lemma {:induction false} HasCanTy(w: World, at: Site, rivals: seq<Rival>, steps: seq<Step>, n: nat)
    requires HasTy(w, at, steps, n)
    ensures CanTy(w, at, rivals, steps, n)
    decreases n, 1
  {
    hide Outranked, Sure;
    if steps != [] {
      match at.ty
      case Literal(ms) => HasCanProp(w, at, rivals, NamedBy(ms, steps[0]), steps, n);
      case Paren(u) => HasCanTy(w, at.(ty := u), rivals, steps, n - 1);
      case Intersection(ts) =>
        var i :| 0 <= i < |ts| && HasTy(w, at.(ty := ts[i]), steps, n - 1);
        HasCanTy(w, at.(ty := ts[i]), rivals + [Beside(WholeType(at), [], |steps|)], steps, n - 1);
      case Union(ts) => if ts != [] { HasCanTy(w, at.(ty := ts[0]), rivals, steps, n - 1); }
      case ArrayOf(u) => HasCanTy(w, at.(ty := u), Onward(rivals, steps), steps[1..], n - 1);
      case Operator(_, u) => HasCanTy(w, at.(ty := u), rivals, steps, n - 1);
      case Indexed(u, index) => HasCanTy(w, at.(ty := u), rivals, [Member(index.value)] + steps, n - 1);
      case Reference(_, _, _) => HasCanRef(w, at, rivals, steps, n - 1);
      case Opaque =>
    }
  }

  lemma {:induction false} HasCanProp(w: World, at: Site, rivals: seq<Rival>, p: Option<Prop>, steps: seq<Step>, n: nat)
    requires steps != [] && HasProp(w, at, p, steps, n)
    ensures CanProp(w, at, rivals, p.value, steps, n)
    decreases n, 0
  {
    hide Outranked, Sure;
    if |steps| > 1 { HasCanTy(w, at.(ty := p.value.ty.value), Onward(rivals, steps), steps[1..], n - 1); }
  }

  /** Whatever is around it, a name that surely has a path is not ruled out to have it. */
  lemma {:induction false} HasCanRef(w: World, at: Site, rivals: seq<Rival>, steps: seq<Step>, n: nat)
    requires at.ty.Reference? && HasRef(w, at, steps, n)
    ensures CanRef(w, at, rivals, steps, n)
    decreases n, 3
  {
    hide Outranked, Sure;
    if steps != [] {
      match Denoted(w, at)
      case Stands(site) => HasCanTy(w, site, rivals, steps, n);
      case ArrayTo(site) => HasCanTy(w, site, Onward(rivals, steps), steps[1..], n);
      case Declared(ids, args, _) =>
        var id :| id in ids && HasDecl(w, ids, id, args, steps, n);
        HasCanDecl(w, ids, id, args, rivals, steps, n);
      case Outside =>
    }
  }

  lemma {:induction false} HasCanDecl(
    w: World, ids: seq<DeclId>, id: DeclId, args: seq<Site>, rivals: seq<Rival>, steps: seq<Step>, n: nat)
    requires id in w.decls && steps != [] && n > 0 && HasDecl(w, ids, id, args, steps, n)
    ensures CanDecl(w, ids, id, args, rivals, steps, n)
    decreases n, 1
  {
    hide Outranked, Sure, OwnNamed;
    var at := Inside(w, id, args);
    match w.decls[id]
    case Alias(_, body) => HasCanTy(w, at.(ty := body), rivals, steps, n - 1);
    case Interface(_, ms, bases) =>
      var own := NamedBy(ms, steps[0]);
      if own.Some? {
        HasCanProp(w, at, rivals, own, steps, n);
      } else {
        var i :| 0 <= i < |bases| && HasBase(w, at, bases[i], steps, n - 1);
        var all := rivals + [Beside(WholeName(ids, args), [], |steps|)] + OwnIndexes(w, ids, steps[0], |steps|);
        HasCanRef(w, at.(ty := Reference(bases[i].name, false, bases[i].args)), all, steps, n - 1);
        assert CanBase(w, at, all, bases[i], steps, n - 1);
      }
  }

  /** No index signature speaks for a key that the declarations it stands in surely have by name. */
  lemma SureSilencesIndex(
    w: World, whole: Whole, at: Site, rivals: seq<Rival>, ms: seq<Prop>, steps: seq<Step>, m: nat, n: nat)
    requires steps != [] && HasWhole(w, whole, [steps[0]], m)
    ensures !CanIndex(w, at, rivals + [Beside(whole, [], |steps|)], ms, steps, n)
  {
    var rival := Beside(whole, [], |steps|);
    assert rival in rivals + [rival] && [] + [steps[0]] == [steps[0]];
    forall numeric ensures Outranked(w, rivals + [rival], numeric, steps) {
      assert Outranks(w, rival, numeric, steps);
    }
  }
}
