/**
 * Exactly where the walk's reading of a type parts from the truth: at a member list where the walk
 * sees another element than the one that declares the key, at an index signature, at a name that
 * denotes something else than the code resolves it to, and at a `keyof`.
 */
module TypeBlindSpots {
  import opened Prelude
  import opened TypeLookup
  import opened TypeMeaning
  import opened TypeTruth

  /** A property signature whose name is spelled just like the key. */
  predicate Spells(m: Prop, key: string) {
    m.Property? && m.text == key
  }

  /** What the walk sees of a list is its first property signature spelled like the key, and nothing else. */
  lemma {:induction false} SeesFirstSpelled(ms: seq<Prop>, key: string)
    ensures Visible(ms, key).None? <==> forall i | 0 <= i < |ms| :: !Spells(ms[i], key)
    ensures forall i | 0 <= i < |ms| && Spells(ms[i], key) && (forall j | 0 <= j < i :: !Spells(ms[j], key)) ::
              Visible(ms, key) == Some(ms[i])
  {
    if ms != [] {
      var rest := ms[1..];
      SeesFirstSpelled(rest, key);
      assert forall i | 0 < i < |ms| :: ms[i] == rest[i - 1];
      assert forall i | 0 <= i < |rest| :: rest[i] == ms[i + 1];
      assert Visible(ms, key) == if Spells(ms[0], key) then Some(ms[0]) else Visible(rest, key);
      hide Visible, Spells;
      forall i | 0 <= i < |ms| && Spells(ms[i], key) && (forall j | 0 <= j < i :: !Spells(ms[j], key))
        ensures Visible(ms, key) == Some(ms[i])
      {
        if i > 0 { assert Spells(rest[i - 1], key) && forall j | 0 <= j < i - 1 :: !Spells(rest[j], key); }
      }
    }
  }

  /** The element the walk sees for a key is not the one that names it. */
  predicate Disagree(ms: seq<Prop>, key: string) {
    Visible(ms, key) != NamedBy(ms, Member(key))
  }

  /** Every element is a property signature written without quotes. */
  predicate Plain(ms: seq<Prop>) {
    forall m | m in ms :: m.Property? && m.text == m.name
  }

  /** On a plain list the walk sees the element that names the key. */
  lemma {:induction false} PlainAgrees(ms: seq<Prop>, key: string)
    requires Plain(ms)
    ensures !Disagree(ms, key)
  {
    if ms != [] {
      assert ms[0] in ms && forall m | m in ms[1..] :: m in ms;
      PlainAgrees(ms[1..], key);
    }
  }

  /** What the code takes a bare name for: one declaration, or something out of reach. */
  function TakenName(w: World, at: Site): (t: Referent)
    requires at.ty.Reference?
    ensures t.Declared? ==> exists id :: t.ids == [id] && id in w.decls
  {
    var r := Resolve(w, at.file, at.ty.head);
    if r.Known? then Declared([r.id], Args(at, at.ty.args), false) else Outside
  }

  /** What the code takes a reference for: the wrapper and array names come first. */
  function Taken(w: World, at: Site): (t: Referent)
    requires at.ty.Reference?
    ensures t.Declared? ==> exists id :: t.ids == [id] && id in w.decls
  {
    var head, args := at.ty.head, at.ty.args;
    if head in PASSTHROUGH && args != [] then Stands(at.(ty := args[0]))
    else if head in ARRAYS && args != [] then ArrayTo(at.(ty := args[0]))
    else if at.ty.qualified then Outside
    else TakenName(w, at)
  }

  /** The code takes the reference for what it denotes. */
  predicate Straight(w: World, at: Site)
    requires at.ty.Reference?
  {
    Taken(w, at) == Denoted(w, at)
  }

  function BaseSite(at: Site, base: Base): (s: Site)
    requires base.Named?
    ensures s.ty.Reference?
  {
    at.(ty := Reference(base.name, false, base.args))
  }

  /** In heritage clauses the code knows no wrappers. */
  predicate StraightBase(w: World, at: Site, base: Base)
    requires base.Named?
  {
    TakenName(w, BaseSite(at, base)) == Denoted(w, BaseSite(at, base))
  }

  // ---------------------------------------------------------------- where a path hides

  /**
   * Following only what it sees, and never into a `keyof`, the walk comes within height `n` to an
   * element it overlooks, or a name it takes for something else, and by the element that declares
   * the key or the declarations the name denotes the rest can be there.
   */
  ghost predicate HidesTy(w: World, at: Site, rivals: seq<Rival>, steps: seq<Step>, n: nat)
    decreases n, 1
  {
    steps != [] && n > 0 && match at.ty
      case Literal(ms) =>
        steps[0].Member? &&
        if Disagree(ms, steps[0].name) || Visible(ms, steps[0].name).None? then CanMember(w, at, rivals, ms, steps, n)
        else HidesProp(w, at, rivals, Visible(ms, steps[0].name).value, steps, n)
      case Paren(u) => HidesTy(w, at.(ty := u), rivals, steps, n - 1)
      case Intersection(ts) =>
        var all := rivals + [Beside(WholeType(at), [], |steps|)];
        exists i | 0 <= i < |ts| :: HidesTy(w, at.(ty := ts[i]), all, steps, n - 1)
      case Union(ts) => exists i | 0 <= i < |ts| :: HidesTy(w, at.(ty := ts[i]), rivals, steps, n - 1)
      case ArrayOf(u) => steps[0].Element? && HidesTy(w, at.(ty := u), Onward(rivals, steps), steps[1..], n - 1)
      case Operator(keyOf, u) => !keyOf && HidesTy(w, at.(ty := u), rivals, steps, n - 1)
      case Indexed(u, index) =>
        index.Some? && HidesTy(w, at.(ty := u), rivals, [Member(index.value)] + steps, n - 1)
      case Reference(_, _, _) => HidesRef(w, at, rivals, steps, n - 1)
      case Opaque => false
  }

  ghost predicate HidesProp(w: World, at: Site, rivals: seq<Rival>, p: Prop, steps: seq<Step>, n: nat)
    requires steps != []
    decreases n, 0
  {
    |steps| > 1 && p.ty.Some? && n > 0
    && HidesTy(w, at.(ty := p.ty.value), Onward(rivals, steps), steps[1..], n - 1)
  }

  ghost predicate HidesRef(w: World, at: Site, rivals: seq<Rival>, steps: seq<Step>, n: nat)
    requires at.ty.Reference?
    decreases n, 3
  {
    steps != [] &&
    if !Straight(w, at) then CanRef(w, at, rivals, steps, n)
    else match Taken(w, at)
      case Stands(site) => HidesTy(w, site, rivals, steps, n)
      case ArrayTo(site) => steps[0].Element? && HidesTy(w, site, Onward(rivals, steps), steps[1..], n)
      case Declared(ids, args, _) => HidesDecl(w, ids[0], args, rivals, steps, n)
      case Outside => false
  }

  ghost predicate HidesDecl(w: World, id: DeclId, args: seq<Site>, rivals: seq<Rival>, steps: seq<Step>, n: nat)
    requires id in w.decls
    decreases n, 1
  {
    steps != [] && n > 0 && match w.decls[id]
      case Enum => false
      case Alias(_, body) => HidesTy(w, Inside(w, id, args).(ty := body), rivals, steps, n - 1)
      case Interface(_, ms, bases) =>
        steps[0].Member? &&
        var own := NamedBy(ms, steps[0]);
        if Disagree(ms, steps[0].name) then
          if own.Some? then CanProp(w, Inside(w, id, args), rivals, own.value, steps, n)
          else CanInherit(w, [id], id, args, rivals, steps, n)
        else if own.Some? then HidesProp(w, Inside(w, id, args), rivals, own.value, steps, n)
        else HidesInherit(w, id, args, rivals, steps, n)
  }

  /** No element names the key: an index signature admits it, or a base hides it. */
  ghost predicate HidesInherit(w: World, id: DeclId, args: seq<Site>, rivals: seq<Rival>, steps: seq<Step>, n: nat)
    requires id in w.decls && w.decls[id].Interface? && steps != [] && n > 0
    decreases n, 0
  {
    var at, all := Inside(w, id, args), rivals + [Beside(WholeName([id], args), [], |steps|)];
    var bases := w.decls[id].bases;
    || CanIndex(w, at, all, w.decls[id].members, steps, n)
    || exists i | 0 <= i < |bases| ::
         HidesBase(w, at, all + OwnIndexes(w, [id], steps[0], |steps|), bases[i], steps, n - 1)
  }

  ghost predicate HidesBase(w: World, at: Site, rivals: seq<Rival>, base: Base, steps: seq<Step>, n: nat)
    requires steps != []
    decreases n, 4
  {
    base.Named? &&
    if !StraightBase(w, at, base) then CanRef(w, BaseSite(at, base), rivals, steps, n)
    else
      var t := TakenName(w, BaseSite(at, base));
      t.Declared? && HidesDecl(w, t.ids[0], t.args, rivals, steps, n)
  }

  lemma {:induction false} HiddenTy(w: World, at: Site, rivals: seq<Rival>, steps: seq<Step>, n: nat)
    ensures HidesTy(w, at, rivals, steps, n) ==> CanTy(w, at, rivals, steps, n)
    ensures CanTy(w, at, rivals, steps, n) ==> MayTy(w, at.file, at.ty, steps, n) || HidesTy(w, at, rivals, steps, n)
    decreases n, 1
  {
    hide CanMember, CanIndex, NamedBy, Visible;
    if steps != [] && n > 0 {
      match at.ty
      case Literal(ms) => HiddenMember(w, at, rivals, ms, steps, n);
      case Paren(u) => HiddenTy(w, at.(ty := u), rivals, steps, n - 1);
      case Intersection(ts) =>
        var all := rivals + [Beside(WholeType(at), [], |steps|)];
        forall i | 0 <= i < |ts| { HiddenTy(w, at.(ty := ts[i]), all, steps, n - 1); }
      case Union(ts) => forall i | 0 <= i < |ts| { HiddenTy(w, at.(ty := ts[i]), rivals, steps, n - 1); }
      case ArrayOf(u) => HiddenTy(w, at.(ty := u), Onward(rivals, steps), steps[1..], n - 1);
      case Operator(_, u) => HiddenTy(w, at.(ty := u), rivals, steps, n - 1);
      case Indexed(u, index) =>
        if index.Some? { HiddenTy(w, at.(ty := u), rivals, [Member(index.value)] + steps, n - 1); }
      case Reference(_, _, _) => HiddenRef(w, at, rivals, steps, n - 1);
      case Opaque =>
    }
  }

  lemma {:induction false} HiddenMember(
    w: World, at: Site, rivals: seq<Rival>, ms: seq<Prop>, steps: seq<Step>, n: nat)
    requires steps != [] && n > 0 && at.ty == Literal(ms)
    ensures HidesTy(w, at, rivals, steps, n) ==> CanTy(w, at, rivals, steps, n)
    ensures CanTy(w, at, rivals, steps, n) ==> MayTy(w, at.file, at.ty, steps, n) || HidesTy(w, at, rivals, steps, n)
    decreases n, 0, 1
  {
    hide CanIndex;
    if steps[0].Member? && !Disagree(ms, steps[0].name) && Visible(ms, steps[0].name).Some? {
      assert CanTy(w, at, rivals, steps, n) == CanMember(w, at, rivals, ms, steps, n);
      HiddenProp(w, at, rivals, Visible(ms, steps[0].name).value, steps, n);
    }
  }

  lemma {:induction false} HiddenProp(w: World, at: Site, rivals: seq<Rival>, p: Prop, steps: seq<Step>, n: nat)
    requires steps != []
    ensures HidesProp(w, at, rivals, p, steps, n) ==> CanProp(w, at, rivals, p, steps, n)
    ensures CanProp(w, at, rivals, p, steps, n) ==>
              MayProp(w, at.file, Some(p), steps, n) || HidesProp(w, at, rivals, p, steps, n)
    decreases n, 0, 0
  {
    if |steps| > 1 && p.ty.Some? && n > 0 {
      HiddenTy(w, at.(ty := p.ty.value), Onward(rivals, steps), steps[1..], n - 1);
    }
  }

  /** A reference as a type: what the walk makes of it one level down. */
  ghost predicate MayRef(w: World, at: Site, steps: seq<Step>, n: nat)
    requires at.ty.Reference? && steps != []
  {
    var head, args := at.ty.head, at.ty.args;
    if head in PASSTHROUGH && args != [] then MayTy(w, at.file, args[0], steps, n)
    else if head in ARRAYS && args != [] then steps[0].Member? || MayTy(w, at.file, args[0], steps[1..], n)
    else at.ty.qualified || MayName(w, at.file, head, steps, n)
  }

  lemma {:induction false} HiddenRef(w: World, at: Site, rivals: seq<Rival>, steps: seq<Step>, n: nat)
    requires at.ty.Reference? && steps != []
    ensures HidesRef(w, at, rivals, steps, n) ==> CanRef(w, at, rivals, steps, n)
    ensures CanRef(w, at, rivals, steps, n) ==> MayRef(w, at, steps, n) || HidesRef(w, at, rivals, steps, n)
    decreases n, 3
  {
    if Straight(w, at) {
      match Taken(w, at)
      case Stands(site) => HiddenTy(w, site, rivals, steps, n);
      case ArrayTo(site) => HiddenTy(w, site, Onward(rivals, steps), steps[1..], n);
      case Declared(ids, args, _) => HiddenIff(w, ids[0], args, rivals, steps, n);
      case Outside =>
    }
  }

  /**
   * What a declaration can have, if only the walk is asked where it sees straight: something the
   * walk's reading may have, or something hidden from it.
   */
  lemma {:induction false} HiddenIff(
    w: World, id: DeclId, args: seq<Site>, rivals: seq<Rival>, steps: seq<Step>, n: nat)
    requires id in w.decls
    ensures HidesDecl(w, id, args, rivals, steps, n) ==> CanSym(w, [id], args, rivals, steps, n)
    ensures CanSym(w, [id], args, rivals, steps, n) ==>
              MayDecl(w, id, steps, n) || HidesDecl(w, id, args, rivals, steps, n)
    decreases n, 1
  {
    hide CanIndex, NamedBy, Visible;
    if steps != [] && n > 0 {
      assert CanSym(w, [id], args, rivals, steps, n) == CanDecl(w, [id], id, args, rivals, steps, n);
      var at := Inside(w, id, args);
      match w.decls[id]
      case Enum =>
      case Alias(_, body) => HiddenTy(w, at.(ty := body), rivals, steps, n - 1);
      case Interface(_, ms, bases) =>
        var own := NamedBy(ms, steps[0]);
        assert OwnNamed(w, [id], steps[0]) <==> own.Some?;
        if own.Some? {
          HiddenProp(w, at, rivals, own.value, steps, n);
        } else {
          HiddenInherit(w, id, args, rivals, steps, n);
        }
    }
  }

  ghost predicate MayInherit(w: World, id: DeclId, steps: seq<Step>, n: nat)
    requires id in w.decls && w.decls[id].Interface? && n > 0
  {
    exists i | 0 <= i < |w.decls[id].bases| :: MayBase(w, id.file, w.decls[id].bases[i], steps, n - 1)
  }

  lemma {:induction false} HiddenInherit(
    w: World, id: DeclId, args: seq<Site>, rivals: seq<Rival>, steps: seq<Step>, n: nat)
    requires id in w.decls && w.decls[id].Interface? && steps != [] && n > 0
    ensures HidesInherit(w, id, args, rivals, steps, n) ==> CanInherit(w, [id], id, args, rivals, steps, n)
    ensures CanInherit(w, [id], id, args, rivals, steps, n) ==>
              MayInherit(w, id, steps, n) || HidesInherit(w, id, args, rivals, steps, n)
    decreases n, 0
  {
    hide CanIndex;
    var bases := w.decls[id].bases;
    var all := rivals + [Beside(WholeName([id], args), [], |steps|)] + OwnIndexes(w, [id], steps[0], |steps|);
    forall i | 0 <= i < |bases| { HiddenBase(w, Inside(w, id, args), all, bases[i], steps, n - 1); }
  }

  lemma {:induction false} HiddenBase(
    w: World, at: Site, rivals: seq<Rival>, base: Base, steps: seq<Step>, n: nat)
    requires steps != []
    ensures HidesBase(w, at, rivals, base, steps, n) ==> CanBase(w, at, rivals, base, steps, n)
    ensures CanBase(w, at, rivals, base, steps, n) ==>
              MayBase(w, at.file, base, steps, n) || HidesBase(w, at, rivals, base, steps, n)
    decreases n, 4
  {
    if base.Named? && StraightBase(w, at, base) {
      var t := TakenName(w, BaseSite(at, base));
      if t.Declared? {
        assert t.ids == [Resolve(w, at.file, base.name).id];
        HiddenIff(w, t.ids[0], t.args, rivals, steps, n);
        assert CanBase(w, at, rivals, base, steps, n) == CanSym(w, t.ids, t.args, rivals, steps, n);
      }
    }
  }

  // ---------------------------------------------------------------- where the walk sees too much

  /**
   * Everything by which the walk has the path is wrong: it goes through a `keyof`, past the element
   * that names the key or into a declaration the name does not denote, and by those the rest is not there.
   */
  ghost predicate OverstatesTy(w: World, at: Site, steps: seq<Step>, n: nat)
    decreases n, 1
  {
    steps != [] && n > 0 && match at.ty
      case Literal(ms) =>
        steps[0].Member? &&
        if Disagree(ms, steps[0].name) then !HasProp(w, at, NamedBy(ms, steps[0]), steps, n)
        else OverstatesProp(w, at, Visible(ms, steps[0].name), steps, n)
      case Paren(u) => OverstatesTy(w, at.(ty := u), steps, n - 1)
      case Intersection(ts) => forall i | 0 <= i < |ts| :: OverstatesPart(w, at.(ty := ts[i]), steps, n - 1)
      case Union(ts) => exists i | 0 <= i < |ts| :: OverstatesTy(w, at.(ty := ts[i]), steps, n - 1)
      case ArrayOf(u) => steps[0].Element? && OverstatesTy(w, at.(ty := u), steps[1..], n - 1)
      case Operator(keyOf, u) => keyOf || OverstatesTy(w, at.(ty := u), steps, n - 1)
      case Indexed(u, index) => index.Some? && OverstatesTy(w, at.(ty := u), [Member(index.value)] + steps, n - 1)
      case Reference(_, _, _) => OverstatesRef(w, at, steps, n - 1)
      case Opaque => false
  }

  /** A part the walk has overstates; a part it does not have has nothing it overlooks. */
  ghost predicate OverstatesPart(w: World, at: Site, steps: seq<Step>, n: nat)
    decreases n, 2
  {
    if MustTy(w, at.file, at.ty, steps, n) then OverstatesTy(w, at, steps, n) else !HasTy(w, at, steps, n)
  }

  ghost predicate OverstatesProp(w: World, at: Site, p: Option<Prop>, steps: seq<Step>, n: nat)
    requires steps != []
    decreases n, 0
  {
    p.Some? && |steps| > 1 && p.value.ty.Some? && n > 0
    && OverstatesTy(w, at.(ty := p.value.ty.value), steps[1..], n - 1)
  }

  ghost predicate OverstatesRef(w: World, at: Site, steps: seq<Step>, n: nat)
    requires at.ty.Reference?
    decreases n, 3
  {
    steps != [] &&
    if !Straight(w, at) then !HasRef(w, at, steps, n)
    else match Taken(w, at)
      case Stands(site) => OverstatesTy(w, site, steps, n)
      case ArrayTo(site) => steps[0].Element? && OverstatesTy(w, site, steps[1..], n)
      case Declared(ids, args, _) => OverstatesDecl(w, ids[0], args, steps, n)
      case Outside => false
  }

  ghost predicate OverstatesDecl(w: World, id: DeclId, args: seq<Site>, steps: seq<Step>, n: nat)
    requires id in w.decls
    decreases n, 1
  {
    steps != [] && n > 0 && match w.decls[id]
      case Enum => false
      case Alias(_, body) => OverstatesTy(w, Inside(w, id, args).(ty := body), steps, n - 1)
      case Interface(_, ms, bases) =>
        steps[0].Member? &&
        var at, own := Inside(w, id, args), NamedBy(ms, steps[0]);
        if own.None? then forall i | 0 <= i < |bases| :: OverstatesBase(w, at, bases[i], steps, n - 1)
        else if Disagree(ms, steps[0].name) then !HasProp(w, at, own, steps, n)
        else OverstatesProp(w, at, own, steps, n)
  }

  ghost predicate OverstatesBase(w: World, at: Site, base: Base, steps: seq<Step>, n: nat)
    requires steps != []
    decreases n, 4
  {
    if base.Named? && MustName(w, at.file, base.name, steps, n) && StraightBase(w, at, base) then
      OverstatesDecl(w, Resolve(w, at.file, base.name).id, Args(BaseSite(at, base), base.args), steps, n)
    else !HasBase(w, at, base, steps, n)
  }

  lemma {:induction false} OverstatedTy(w: World, at: Site, steps: seq<Step>, n: nat)
    requires MustTy(w, at.file, at.ty, steps, n)
    ensures HasTy(w, at, steps, n) <==> !OverstatesTy(w, at, steps, n)
    decreases n, 1
  {
    hide NamedBy, Visible, OwnNamed;
    if steps != [] {
      match at.ty
      case Literal(ms) =>
        if !Disagree(ms, steps[0].name) { OverstatedProp(w, at, Visible(ms, steps[0].name), steps, n); }
      case Paren(u) => OverstatedTy(w, at.(ty := u), steps, n - 1);
      case Intersection(ts) =>
        forall i | 0 <= i < |ts|
          ensures HasTy(w, at.(ty := ts[i]), steps, n - 1) <==> !OverstatesPart(w, at.(ty := ts[i]), steps, n - 1)
        {
          if MustTy(w, at.file, ts[i], steps, n - 1) { OverstatedTy(w, at.(ty := ts[i]), steps, n - 1); }
        }
      case Union(ts) => forall i | 0 <= i < |ts| { OverstatedTy(w, at.(ty := ts[i]), steps, n - 1); }
      case ArrayOf(u) => OverstatedTy(w, at.(ty := u), steps[1..], n - 1);
      case Operator(_, u) => OverstatedTy(w, at.(ty := u), steps, n - 1);
      case Indexed(u, index) => OverstatedTy(w, at.(ty := u), [Member(index.value)] + steps, n - 1);
      case Reference(_, _, _) => OverstatedRef(w, at, steps, n - 1);
      case Opaque =>
    }
  }

  lemma {:induction false} OverstatedProp(w: World, at: Site, p: Option<Prop>, steps: seq<Step>, n: nat)
    requires steps != [] && MustProp(w, at.file, p, steps, n)
    ensures HasProp(w, at, p, steps, n) <==> !OverstatesProp(w, at, p, steps, n)
    decreases n, 0
  {
    if |steps| > 1 { OverstatedTy(w, at.(ty := p.value.ty.value), steps[1..], n - 1); }
  }

  ghost predicate MustRef(w: World, at: Site, steps: seq<Step>, n: nat)
    requires at.ty.Reference? && steps != []
  {
    var head, args := at.ty.head, at.ty.args;
    if head in PASSTHROUGH && args != [] then MustTy(w, at.file, args[0], steps, n)
    else if head in ARRAYS && args != [] then steps[0].Element? && MustTy(w, at.file, args[0], steps[1..], n)
    else !at.ty.qualified && MustName(w, at.file, head, steps, n)
  }

  lemma {:induction false} OverstatedRef(w: World, at: Site, steps: seq<Step>, n: nat)
    requires at.ty.Reference? && steps != [] && MustRef(w, at, steps, n)
    ensures HasRef(w, at, steps, n) <==> !OverstatesRef(w, at, steps, n)
    decreases n, 3
  {
    if Straight(w, at) {
      match Taken(w, at)
      case Stands(site) => OverstatedTy(w, site, steps, n);
      case ArrayTo(site) => OverstatedTy(w, site, steps[1..], n);
      case Declared(ids, args, _) => OverstatedIff(w, ids[0], args, steps, n);
      case Outside =>
    }
  }

  /** What the walk has of a declaration is truly there exactly if not everything it has it by overstates. */
  lemma {:induction false} OverstatedIff(w: World, id: DeclId, args: seq<Site>, steps: seq<Step>, n: nat)
    requires id in w.decls && MustDecl(w, id, steps, n)
    ensures HasSym(w, [id], args, steps, n) <==> !OverstatesDecl(w, id, args, steps, n)
    decreases n, 1
  {
    hide NamedBy, Visible;
    if steps != [] {
      assert HasSym(w, [id], args, steps, n) == HasDecl(w, [id], id, args, steps, n);
      var at := Inside(w, id, args);
      match w.decls[id]
      case Alias(_, body) => OverstatedTy(w, at.(ty := body), steps, n - 1);
      case Interface(_, ms, bases) =>
        var own := NamedBy(ms, steps[0]);
        assert OwnNamed(w, [id], steps[0]) <==> own.Some?;
        if own.None? {
          forall i | 0 <= i < |bases| { OverstatedBase(w, at, bases[i], steps, n - 1); }
        } else if !Disagree(ms, steps[0].name) {
          OverstatedProp(w, at, own, steps, n);
        }
    }
  }

  lemma {:induction false} OverstatedBase(w: World, at: Site, base: Base, steps: seq<Step>, n: nat)
    requires steps != []
    ensures HasBase(w, at, base, steps, n) <==> !OverstatesBase(w, at, base, steps, n)
    decreases n, 4
  {
    if base.Named? && MustName(w, at.file, base.name, steps, n) && StraightBase(w, at, base) {
      var id, args := Resolve(w, at.file, base.name).id, Args(BaseSite(at, base), base.args);
      OverstatedIff(w, id, args, steps, n);
      assert HasRef(w, BaseSite(at, base), steps, n) == HasSym(w, [id], args, steps, n);
    }
  }
}
