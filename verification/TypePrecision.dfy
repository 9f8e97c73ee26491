/**
 * When `lookupPath` is definite. The walk that never looks at `seen` leaves a trail of guarded
 * keys; as long as none comes twice the answer is exact, and `missing` is said only then.
 */
module TypePrecision {
  import opened Prelude
  import opened TypeLookup
  import opened TypeMeaning
  import opened TypeSoundness
  import opened TypeTermination

  // ---------------------------------------------------------------- trails

  /** The (declaration, remaining length) keys of the unguarded walk, in order, cut at depth `n`. */
  ghost function TrailTy(w: World, file: FileId, t: Ty, steps: seq<Step>, n: nat): seq<Key>
    decreases n, 1
  {
    if steps == [] || n == 0 then []
    else match t
      case Literal(ms) => if steps[0].Element? then [] else TrailProp(w, file, Visible(ms, steps[0].name), steps, n)
      case Paren(u) => TrailTy(w, file, u, steps, n - 1)
      case Intersection(ts) => TrailEach(w, file, ts, steps, n - 1)
      case Union(ts) => TrailEach(w, file, ts, steps, n - 1)
      case ArrayOf(u) => if steps[0].Element? then TrailTy(w, file, u, steps[1..], n - 1) else []
      case Operator(_, u) => TrailTy(w, file, u, steps, n - 1)
      case Indexed(u, index) => if index.Some? then TrailTy(w, file, u, [Member(index.value)] + steps, n - 1) else []
      case Reference(head, qualified, args) =>
        if head in PASSTHROUGH && args != [] then TrailTy(w, file, args[0], steps, n - 1)
        else if head in ARRAYS && args != [] then
          if steps[0].Element? then TrailTy(w, file, args[0], steps[1..], n - 1) else []
        else if qualified then []
        else TrailName(w, file, head, steps, n - 1)
      case Opaque => []
  }

  ghost function TrailProp(w: World, file: FileId, p: Option<Prop>, steps: seq<Step>, n: nat): seq<Key>
    requires steps != []
    decreases n, 0
  {
    if p.Some? && |steps| > 1 && p.value.Property? && p.value.ty.Some? && n > 0
    then TrailTy(w, file, p.value.ty.value, steps[1..], n - 1) else []
  }

  ghost function TrailName(w: World, file: FileId, name: string, steps: seq<Step>, n: nat): seq<Key>
    decreases n, 2
  {
    var r := Resolve(w, file, name);
    if r.Known? then TrailDecl(w, r.id, steps, n) else []
  }

  ghost function TrailDecl(w: World, id: DeclId, steps: seq<Step>, n: nat): seq<Key>
    requires id in w.decls
    decreases n, 1
  {
    if steps == [] || w.decls[id].Enum? then []
    else [(id, |steps|)] + (if n == 0 then [] else TrailBody(w, id, steps, n))
  }

  ghost function TrailBody(w: World, id: DeclId, steps: seq<Step>, n: nat): seq<Key>
    requires id in w.decls && steps != [] && n > 0
    decreases n, 0
  {
    match w.decls[id]
    case Enum => []
    case Alias(_, body) => TrailTy(w, id.file, body, steps, n - 1)
    case Interface(_, ms, bases) =>
      if steps[0].Element? then []
      else
        var own := Visible(ms, steps[0].name);
        if own.Some? then
          if |steps| > 1 && own.value.ty.Some? then TrailTy(w, id.file, own.value.ty.value, steps[1..], n - 1) else []
        else TrailBases(w, id.file, bases, steps, n - 1)
  }

  ghost function TrailEach(w: World, file: FileId, ts: seq<Ty>, steps: seq<Step>, n: nat): seq<Key>
    decreases n, 4, |ts|
  {
    if ts == [] then [] else TrailTy(w, file, ts[0], steps, n) + TrailEach(w, file, ts[1..], steps, n)
  }

  ghost function TrailBases(w: World, file: FileId, bases: seq<Base>, steps: seq<Step>, n: nat): seq<Key>
    decreases n, 4, |bases|
  {
    if bases == [] then [] else TrailBase(w, file, bases[0], steps, n) + TrailBases(w, file, bases[1..], steps, n)
  }

  ghost function TrailBase(w: World, file: FileId, base: Base, steps: seq<Step>, n: nat): seq<Key>
    decreases n, 3
  {
    if base.Named? then TrailName(w, file, base.name, steps, n) else []
  }

  function AsSet(tr: seq<Key>): set<Key> {
    set k | k in tr
  }

  /** No key of the trail comes twice or is in `seen` before. */
  predicate Fresh(tr: seq<Key>, seen: set<Key>)
    decreases |tr|
  {
    tr == [] || (tr[0] !in seen && Fresh(tr[1..], seen + {tr[0]}))
  }

  lemma {:induction false} FreshJoin(a: seq<Key>, b: seq<Key>, seen: set<Key>)
    ensures Fresh(a + b, seen) <==> Fresh(a, seen) && Fresh(b, seen + AsSet(a))
    ensures seen + AsSet(a + b) == seen + AsSet(a) + AsSet(b)
    decreases |a|
  {
    if a == [] {
      assert a + b == b && seen + AsSet(a) == seen;
    } else {
      assert (a + b)[1..] == a[1..] + b;
      FreshJoin(a[1..], b, seen + {a[0]});
      assert seen + {a[0]} + AsSet(a[1..]) == seen + AsSet(a);
    }
  }

  lemma FreshFirst(k: Key, rest: seq<Key>, seen: set<Key>)
    ensures Fresh([k] + rest, seen) <==> k !in seen && Fresh(rest, seen + {k})
    ensures seen + AsSet([k] + rest) == seen + {k} + AsSet(rest)
  {
    assert ([k] + rest)[1..] == rest;
  }

  lemma {:induction false} FreshIff(tr: seq<Key>, seen: set<Key>)
    ensures Fresh(tr, seen) <==>
            (forall i, j | 0 <= i < j < |tr| :: tr[i] != tr[j]) && forall k | k in tr :: k !in seen
    decreases |tr|
  {
    if tr != [] {
      FreshIff(tr[1..], seen + {tr[0]});
      assert forall i | 0 <= i < |tr| - 1 :: tr[1..][i] == tr[i + 1];
      assert forall k | k in tr :: k == tr[0] || k in tr[1..];
      if forall i, j | 0 <= i < j < |tr| :: tr[i] != tr[j] {
        forall k | k in tr[1..] ensures k != tr[0] {
          var i :| 0 <= i < |tr[1..]| && tr[1..][i] == k;
          assert tr[i + 1] == k;
        }
      }
      if Fresh(tr, seen) {
        forall i, j | 0 <= i < j < |tr| ensures tr[i] != tr[j] {
          if i > 0 { assert tr[1..][i - 1] != tr[1..][j - 1]; } else { assert tr[j] in tr[1..]; }
        }
      }
    }
  }

  // ---------------------------------------------------------------- missing only on a fresh trail

  predicate Traced(e: Eval, tr: seq<Key>, seen: set<Key>)
    requires e.Value?
  {
    Fresh(tr, seen) && e.seen == seen + AsSet(tr)
  }

  predicate TracedAll(e: EvalAll, tr: seq<Key>, seen: set<Key>)
    requires e.Values?
  {
    Fresh(tr, seen) && e.seen == seen + AsSet(tr)
  }

  lemma NoTrail(e: Eval, seen: set<Key>)
    requires e.Value? && e.seen == seen
    ensures Traced(e, [], seen)
  {
  }

  lemma {:induction false} ClearTy(w: World, file: FileId, t: Ty, steps: seq<Step>, seen: set<Key>, fuel: nat)
    requires var e := LookupTy(w, file, t, steps, seen, fuel); e.Value? && e.r == Missing
    ensures Traced(LookupTy(w, file, t, steps, seen, fuel), TrailTy(w, file, t, steps, fuel), seen)
    decreases fuel, 1
  {
    hide Fresh, AsSet;
    match t
    case Literal(ms) =>
      NoTrail(Value(Missing, seen), seen);
      if Visible(ms, steps[0].name).Some? { ClearProp(w, file, Visible(ms, steps[0].name), steps, seen, fuel); }
    case Paren(u) => ClearTy(w, file, u, steps, seen, fuel - 1);
    case Intersection(ts) => ClearEach(w, file, ts, steps, seen, fuel - 1);
    case Union(ts) => ClearEach(w, file, ts, steps, seen, fuel - 1);
    case ArrayOf(u) => ClearTy(w, file, u, steps[1..], seen, fuel - 1);
    case Operator(_, u) => ClearTy(w, file, u, steps, seen, fuel - 1);
    case Indexed(u, index) => ClearTy(w, file, u, [Member(index.value)] + steps, seen, fuel - 1);
    case Reference(head, _, args) =>
      if head in PASSTHROUGH && args != [] {
        ClearTy(w, file, args[0], steps, seen, fuel - 1);
      } else if head in ARRAYS && args != [] {
        ClearTy(w, file, args[0], steps[1..], seen, fuel - 1);
      } else {
        ClearDecl(w, Resolve(w, file, head).id, steps, seen, fuel - 1);
      }
    case Opaque =>
  }

  lemma {:induction false} ClearProp(
    w: World, file: FileId, p: Option<Prop>, steps: seq<Step>, seen: set<Key>, fuel: nat)
    requires steps != [] && p.Some? && p.value.Property?
    requires var e := LookupProp(w, file, p.value.ty, steps, seen, fuel); e.Value? && e.r == Missing
    ensures Traced(LookupProp(w, file, p.value.ty, steps, seen, fuel), TrailProp(w, file, p, steps, fuel), seen)
    decreases fuel, 0
  {
    ClearTy(w, file, p.value.ty.value, steps[1..], seen, fuel - 1);
  }

  lemma {:induction false} ClearDecl(w: World, id: DeclId, steps: seq<Step>, seen: set<Key>, fuel: nat)
    requires id in w.decls
    requires var e := LookupDecl(w, id, steps, seen, fuel); e.Value? && e.r == Missing
    ensures Traced(LookupDecl(w, id, steps, seen, fuel), TrailDecl(w, id, steps, fuel), seen)
    decreases fuel, 1
  {
    hide Fresh, AsSet;
    var key := (id, |steps|);
    var seen' := seen + {key};
    FreshFirst(key, TrailBody(w, id, steps, fuel), seen);
    NoTrail(Value(Missing, seen'), seen');
    match w.decls[id]
    case Enum =>
    case Alias(_, body) => ClearTy(w, id.file, body, steps, seen', fuel - 1);
    case Interface(_, ms, bases) =>
      var own := Visible(ms, steps[0].name);
      if own.Some? {
        ClearTy(w, id.file, own.value.ty.value, steps[1..], seen', fuel - 1);
      } else {
        ClearBases(w, id.file, bases, steps, seen', fuel - 1);
      }
  }

  lemma {:induction false} ClearEach(w: World, file: FileId, ts: seq<Ty>, steps: seq<Step>, seen: set<Key>, fuel: nat)
    requires var e := LookupEach(w, file, ts, steps, seen, fuel); e.Values? && forall r | r in e.rs :: r == Missing
    ensures TracedAll(LookupEach(w, file, ts, steps, seen, fuel), TrailEach(w, file, ts, steps, fuel), seen)
    decreases fuel, 4, |ts|
  {
    if ts != [] {
      hide Fresh, AsSet;
      var e := LookupTy(w, file, ts[0], steps, seen, fuel);
      var rest := LookupEach(w, file, ts[1..], steps, e.seen, fuel);
      AllOf(e.r, rest.rs);
      ClearTy(w, file, ts[0], steps, seen, fuel);
      ClearEach(w, file, ts[1..], steps, e.seen, fuel);
      FreshJoin(TrailTy(w, file, ts[0], steps, fuel), TrailEach(w, file, ts[1..], steps, fuel), seen);
    }
  }

  lemma AllOf(r: PathLookup, rs: seq<PathLookup>)
    requires forall x | x in [r] + rs :: x == Missing
    ensures r == Missing && forall x | x in rs :: x == Missing
  {
    assert r in [r] + rs && forall x | x in rs :: x in [r] + rs;
  }

  lemma {:induction false} ClearBases(
    w: World, file: FileId, bases: seq<Base>, steps: seq<Step>, seen: set<Key>, fuel: nat)
    requires var e := LookupBases(w, file, bases, steps, seen, fuel); e.Values? && forall r | r in e.rs :: r == Missing
    ensures TracedAll(LookupBases(w, file, bases, steps, seen, fuel), TrailBases(w, file, bases, steps, fuel), seen)
    decreases fuel, 4, |bases|
  {
    if bases != [] {
      hide Fresh, AsSet;
      var e := LookupBase(w, file, bases[0], steps, seen, fuel);
      var rest := LookupBases(w, file, bases[1..], steps, e.seen, fuel);
      AllOf(e.r, rest.rs);
      ClearBase(w, file, bases[0], steps, seen, fuel);
      ClearBases(w, file, bases[1..], steps, e.seen, fuel);
      FreshJoin(TrailBase(w, file, bases[0], steps, fuel), TrailBases(w, file, bases[1..], steps, fuel), seen);
    }
  }

  lemma {:induction false} ClearBase(w: World, file: FileId, base: Base, steps: seq<Step>, seen: set<Key>, fuel: nat)
    requires var e := LookupBase(w, file, base, steps, seen, fuel); e.Value? && e.r == Missing
    ensures Traced(LookupBase(w, file, base, steps, seen, fuel), TrailBase(w, file, base, steps, fuel), seen)
    decreases fuel, 3
  {
    hide Fresh, AsSet;
    ClearDecl(w, Resolve(w, file, base.name).id, steps, seen, fuel);
  }

  // ---------------------------------------------------------------- on a fresh trail the answer is exact

  /** The three-valued truth about a path. */
  function Verdict(must: bool, may: bool): PathLookup {
    if must then Found else if may then Unknown else Missing
  }

  lemma {:induction false} ExactTy(w: World, file: FileId, t: Ty, steps: seq<Step>, seen: set<Key>, fuel: nat, n: nat)
    requires fuel <= n && LookupTy(w, file, t, steps, seen, fuel).Value?
             && Fresh(TrailTy(w, file, t, steps, fuel), seen)
    ensures var e := LookupTy(w, file, t, steps, seen, fuel);
            && e.r == Verdict(MustTy(w, file, t, steps, n), MayTy(w, file, t, steps, n))
            && Traced(e, TrailTy(w, file, t, steps, fuel), seen)
    decreases fuel, 1
  {
    hide Fresh, AsSet;
    NoTrail(Value(Found, seen), seen);
    NoTrail(Value(Missing, seen), seen);
    NoTrail(Value(Unknown, seen), seen);
    if steps != [] {
      match t
      case Literal(ms) =>
        if steps[0].Member? && Visible(ms, steps[0].name).Some? {
          ExactProp(w, file, Visible(ms, steps[0].name), steps, seen, fuel, n);
        }
      case Paren(u) => ExactTy(w, file, u, steps, seen, fuel - 1, n - 1);
      case Intersection(ts) => ExactParts(w, file, t, steps, seen, fuel, n);
      case Union(ts) => ExactParts(w, file, t, steps, seen, fuel, n);
      case ArrayOf(u) => if steps[0].Element? { ExactTy(w, file, u, steps[1..], seen, fuel - 1, n - 1); }
      case Operator(_, u) => ExactTy(w, file, u, steps, seen, fuel - 1, n - 1);
      case Indexed(u, index) =>
        if index.Some? { ExactTy(w, file, u, [Member(index.value)] + steps, seen, fuel - 1, n - 1); }
      case Reference(head, qualified, args) =>
        if head in PASSTHROUGH && args != [] {
          ExactTy(w, file, args[0], steps, seen, fuel - 1, n - 1);
        } else if head in ARRAYS && args != [] {
          if steps[0].Element? { ExactTy(w, file, args[0], steps[1..], seen, fuel - 1, n - 1); }
        } else if !qualified {
          ExactName(w, file, head, steps, seen, fuel - 1, n - 1);
        }
      case Opaque =>
    }
  }

  lemma {:induction false} ExactParts(
    w: World, file: FileId, t: Ty, steps: seq<Step>, seen: set<Key>, fuel: nat, n: nat)
    requires (t.Intersection? || t.Union?) && steps != []
    requires fuel <= n && LookupTy(w, file, t, steps, seen, fuel).Value?
             && Fresh(TrailTy(w, file, t, steps, fuel), seen)
    ensures var e := LookupTy(w, file, t, steps, seen, fuel);
            && e.r == Verdict(MustTy(w, file, t, steps, n), MayTy(w, file, t, steps, n))
            && Traced(e, TrailTy(w, file, t, steps, fuel), seen)
    decreases fuel, 0
  {
    hide Fresh, AsSet;
    var ts := t.parts;
    ExactEach(w, file, ts, steps, seen, fuel - 1, n - 1);
    PartsVerdict(w, file, t, LookupEach(w, file, ts, steps, seen, fuel - 1).rs, steps, n);
  }

  /** Exact answers for the parts combine to the exact answer for the whole. */
  lemma PartsVerdict(w: World, file: FileId, t: Ty, rs: seq<PathLookup>, steps: seq<Step>, n: nat)
    requires (t.Intersection? || t.Union?) && steps != [] && n > 0 && |rs| == |t.parts|
    requires forall i | 0 <= i < |rs| ::
               rs[i] == Verdict(MustTy(w, file, t.parts[i], steps, n - 1), MayTy(w, file, t.parts[i], steps, n - 1))
    ensures (if t.Intersection? then Combine(rs) else Agree(rs))
         == Verdict(MustTy(w, file, t, steps, n), MayTy(w, file, t, steps, n))
  {
    assert forall i | 0 <= i < |rs| :: rs[i] in rs;
    forall i | 0 <= i < |rs| && MustTy(w, file, t.parts[i], steps, n - 1)
      ensures MayTy(w, file, t.parts[i], steps, n - 1)
    {
      MustMayTy(w, file, t.parts[i], steps, n - 1);
    }
  }

  lemma {:induction false} ExactProp(
    w: World, file: FileId, p: Option<Prop>, steps: seq<Step>, seen: set<Key>, fuel: nat, n: nat)
    requires steps != [] && p.Some? && p.value.Property?
    requires fuel <= n && LookupProp(w, file, p.value.ty, steps, seen, fuel).Value?
             && Fresh(TrailProp(w, file, p, steps, fuel), seen)
    ensures var e := LookupProp(w, file, p.value.ty, steps, seen, fuel);
            && e.r == Verdict(MustProp(w, file, p, steps, n), MayProp(w, file, p, steps, n))
            && Traced(e, TrailProp(w, file, p, steps, fuel), seen)
    decreases fuel, 0
  {
    hide Fresh, AsSet;
    NoTrail(Value(Found, seen), seen);
    NoTrail(Value(Unknown, seen), seen);
    if |steps| > 1 && p.value.ty.Some? { ExactTy(w, file, p.value.ty.value, steps[1..], seen, fuel - 1, n - 1); }
  }

  lemma {:induction false} ExactName(
    w: World, file: FileId, name: string, steps: seq<Step>, seen: set<Key>, fuel: nat, n: nat)
    requires fuel <= n && LookupName(w, file, name, steps, seen, fuel).Value?
             && Fresh(TrailName(w, file, name, steps, fuel), seen)
    ensures var e := LookupName(w, file, name, steps, seen, fuel);
            && e.r == Verdict(MustName(w, file, name, steps, n), MayName(w, file, name, steps, n))
            && Traced(e, TrailName(w, file, name, steps, fuel), seen)
    decreases fuel, 2
  {
    hide Fresh, AsSet;
    NoTrail(Value(Unknown, seen), seen);
    var r := Resolve(w, file, name);
    if r.Known? { ExactDecl(w, r.id, steps, seen, fuel, n); }
  }

  /**
   * While no key repeats, `found` is said of what must be there, `missing` of what cannot be,
   * `unknown` of the rest.
   */
  lemma {:induction false} ExactDecl(w: World, id: DeclId, steps: seq<Step>, seen: set<Key>, fuel: nat, n: nat)
    requires id in w.decls
    requires fuel <= n && LookupDecl(w, id, steps, seen, fuel).Value? && Fresh(TrailDecl(w, id, steps, fuel), seen)
    ensures var e := LookupDecl(w, id, steps, seen, fuel);
            && e.r == Verdict(MustDecl(w, id, steps, n), MayDecl(w, id, steps, n))
            && Traced(e, TrailDecl(w, id, steps, fuel), seen)
    decreases fuel, 1
  {
    hide Fresh, AsSet;
    var key := (id, |steps|);
    var seen' := seen + {key};
    NoTrail(Value(Found, seen), seen);
    NoTrail(Value(Unknown, seen), seen);
    NoTrail(Value(Unknown, seen'), seen');
    if steps != [] && !w.decls[id].Enum? {
      FreshFirst(key, if fuel == 0 then [] else TrailBody(w, id, steps, fuel), seen);
      ExactBody(w, id, steps, seen', fuel, n);
    }
  }

  /** The walk of a declaration once its key is in `seen`. */
  function LookupBody(w: World, id: DeclId, steps: seq<Step>, seen': set<Key>, fuel: nat): Eval
    requires id in w.decls && steps != [] && fuel > 0
  {
    match w.decls[id]
    case Enum => Value(Unknown, seen')
    case Alias(_, body) => LookupTy(w, id.file, body, steps, seen', fuel - 1)
    case Interface(_, ms, bases) =>
      if steps[0].Element? then Value(Unknown, seen')
      else match Visible(ms, steps[0].name)
        case Some(p) => LookupProp(w, id.file, p.ty, steps, seen', fuel)
        case None =>
          match LookupBases(w, id.file, bases, steps, seen', fuel - 1)
          case AllOutOfFuel => OutOfFuel
          case AllThrew => Threw
          case Values(rs, s) => Value(Combine(rs), s)
  }

  lemma {:induction false} ExactBody(w: World, id: DeclId, steps: seq<Step>, seen': set<Key>, fuel: nat, n: nat)
    requires id in w.decls && steps != [] && fuel > 0 && !w.decls[id].Enum?
    requires fuel <= n && LookupBody(w, id, steps, seen', fuel).Value? && Fresh(TrailBody(w, id, steps, fuel), seen')
    ensures var e := LookupBody(w, id, steps, seen', fuel);
            && e.r == Verdict(MustDecl(w, id, steps, n), MayDecl(w, id, steps, n))
            && Traced(e, TrailBody(w, id, steps, fuel), seen')
    decreases fuel, 0
  {
    hide Fresh, AsSet;
    NoTrail(Value(Found, seen'), seen');
    NoTrail(Value(Unknown, seen'), seen');
    match w.decls[id]
    case Alias(_, body) => ExactTy(w, id.file, body, steps, seen', fuel - 1, n - 1);
    case Interface(_, ms, bases) =>
      if steps[0].Member? {
        var own := Visible(ms, steps[0].name);
        if own.Some? {
          if |steps| > 1 && own.value.ty.Some? {
            ExactTy(w, id.file, own.value.ty.value, steps[1..], seen', fuel - 1, n - 1);
          }
        } else {
          ExactBases(w, id.file, bases, steps, seen', fuel - 1, n - 1);
          var rs := LookupBases(w, id.file, bases, steps, seen', fuel - 1).rs;
          assert forall i | 0 <= i < |bases| :: rs[i] in rs;
        }
      }
  }

  lemma {:induction false} ExactEach(
    w: World, file: FileId, ts: seq<Ty>, steps: seq<Step>, seen: set<Key>, fuel: nat, n: nat)
    requires fuel <= n && LookupEach(w, file, ts, steps, seen, fuel).Values?
             && Fresh(TrailEach(w, file, ts, steps, fuel), seen)
    ensures var e := LookupEach(w, file, ts, steps, seen, fuel);
            && TracedAll(e, TrailEach(w, file, ts, steps, fuel), seen)
            && forall i | 0 <= i < |ts| ::
                 e.rs[i] == Verdict(MustTy(w, file, ts[i], steps, n), MayTy(w, file, ts[i], steps, n))
    decreases fuel, 4, |ts|
  {
    if ts != [] {
      hide Fresh, AsSet, MustTy, MayTy;
      FreshJoin(TrailTy(w, file, ts[0], steps, fuel), TrailEach(w, file, ts[1..], steps, fuel), seen);
      ExactTy(w, file, ts[0], steps, seen, fuel, n);
      ExactEach(w, file, ts[1..], steps, LookupTy(w, file, ts[0], steps, seen, fuel).seen, fuel, n);
      forall i | 0 < i < |ts| ensures ts[i] == ts[1..][i - 1] {}
    }
  }

  lemma {:induction false} ExactBases(
    w: World, file: FileId, bases: seq<Base>, steps: seq<Step>, seen: set<Key>, fuel: nat, n: nat)
    requires fuel <= n && LookupBases(w, file, bases, steps, seen, fuel).Values?
             && Fresh(TrailBases(w, file, bases, steps, fuel), seen)
    ensures var e := LookupBases(w, file, bases, steps, seen, fuel);
            && TracedAll(e, TrailBases(w, file, bases, steps, fuel), seen)
            && forall i | 0 <= i < |bases| ::
                 e.rs[i] == Verdict(MustBase(w, file, bases[i], steps, n), MayBase(w, file, bases[i], steps, n))
    decreases fuel, 4, |bases|
  {
    if bases != [] {
      hide Fresh, AsSet, MustBase, MayBase;
      FreshJoin(TrailBase(w, file, bases[0], steps, fuel), TrailBases(w, file, bases[1..], steps, fuel), seen);
      ExactBase(w, file, bases[0], steps, seen, fuel, n);
      ExactBases(w, file, bases[1..], steps, LookupBase(w, file, bases[0], steps, seen, fuel).seen, fuel, n);
      forall i | 0 < i < |bases| ensures bases[i] == bases[1..][i - 1] {}
    }
  }

  lemma {:induction false} ExactBase(
    w: World, file: FileId, base: Base, steps: seq<Step>, seen: set<Key>, fuel: nat, n: nat)
    requires fuel <= n && LookupBase(w, file, base, steps, seen, fuel).Value?
             && Fresh(TrailBase(w, file, base, steps, fuel), seen)
    ensures var e := LookupBase(w, file, base, steps, seen, fuel);
            && e.r == Verdict(MustBase(w, file, base, steps, n), MayBase(w, file, base, steps, n))
            && Traced(e, TrailBase(w, file, base, steps, fuel), seen)
    decreases fuel, 3
  {
    hide Fresh, AsSet;
    NoTrail(Value(Unknown, seen), seen);
    if base.Named? { ExactName(w, file, base.name, steps, seen, fuel, n); }
  }

  // ---------------------------------------------------------------- exactly when the answer is definite

  /** No key of the unguarded walk comes twice. */
  ghost predicate NoRepeat(w: World, id: DeclId, steps: seq<Step>, n: nat)
    requires id in w.decls
  {
    var tr := TrailDecl(w, id, steps, n);
    forall i, j | 0 <= i < j < |tr| :: tr[i] != tr[j]
  }

  /** The walk's reading has no derivation of any height. */
  ghost predicate Absent(w: World, id: DeclId, steps: seq<Step>)
    requires id in w.decls
  {
    forall n: nat :: !MayDecl(w, id, steps, n)
  }

  /**
   * With a fresh `seen` set and enough fuel, `missing` is the answer if and only if the path is
   * absent and the unguarded walk meets no key twice.
   */
  lemma MissingIff(w: World, id: DeclId, steps: seq<Step>, fuel: nat)
    requires id in w.decls && LookupDecl(w, id, steps, {}, fuel).Value?
    ensures LookupDecl(w, id, steps, {}, fuel).r == Missing <==> Absent(w, id, steps) && NoRepeat(w, id, steps, fuel)
  {
    hide LookupDecl, TrailDecl, MayDecl, MustDecl;
    var e := LookupDecl(w, id, steps, {}, fuel);
    FreshIff(TrailDecl(w, id, steps, fuel), {});
    if e.r == Missing {
      ClearDecl(w, id, steps, {}, fuel);
      forall n: nat ensures !MayDecl(w, id, steps, n) { MissingDecl(w, id, steps, {}, fuel, n); }
    }
    if Absent(w, id, steps) && NoRepeat(w, id, steps, fuel) {
      ExactDecl(w, id, steps, {}, fuel, fuel);
      assert !MayDecl(w, id, steps, fuel);
      FoundDecl(w, id, steps, {}, fuel);
      if MustDecl(w, id, steps, fuel) { MustMayDecl(w, id, steps, fuel); }
    }
  }

  /** An absent path is never found: it is `missing` or, exactly when some key repeats, `unknown`. */
  lemma AbsentIsUnknownIff(w: World, id: DeclId, steps: seq<Step>, fuel: nat)
    requires id in w.decls && LookupDecl(w, id, steps, {}, fuel).Value? && Absent(w, id, steps)
    ensures LookupDecl(w, id, steps, {}, fuel).r == Unknown <==> !NoRepeat(w, id, steps, fuel)
    ensures LookupDecl(w, id, steps, {}, fuel).r != Found
  {
    hide LookupDecl, TrailDecl, MayDecl, MustDecl, NoRepeat;
    MissingIff(w, id, steps, fuel);
    FoundDecl(w, id, steps, {}, fuel);
    assert !MayDecl(w, id, steps, fuel);
    if MustDecl(w, id, steps, fuel) { MustMayDecl(w, id, steps, fuel); }
  }

  /** As long as no key repeats, the answer is the truth of the walk's reading, at every height from the fuel on. */
  lemma FreshIsExact(w: World, id: DeclId, steps: seq<Step>, fuel: nat, n: nat)
    requires id in w.decls && fuel <= n
    requires LookupDecl(w, id, steps, {}, fuel).Value? && NoRepeat(w, id, steps, fuel)
    ensures LookupDecl(w, id, steps, {}, fuel).r
         == Verdict(MustDecl(w, id, steps, n), MayDecl(w, id, steps, n))
  {
    hide LookupDecl, TrailDecl, MayDecl, MustDecl;
    FreshIff(TrailDecl(w, id, steps, fuel), {});
    ExactDecl(w, id, steps, {}, fuel, n);
  }

  // ---------------------------------------------------------------- diamonds

  /** A key on the trails of two bases comes twice on the trail of all. */
  lemma {:induction false} SharedRepeats(
    w: World, file: FileId, bases: seq<Base>, steps: seq<Step>, n: nat, i: nat, j: nat, k: Key, seen: set<Key>)
    requires i < j < |bases| && k in TrailBase(w, file, bases[i], steps, n)
             && k in TrailBase(w, file, bases[j], steps, n)
    ensures !Fresh(TrailBases(w, file, bases, steps, n), seen)
    decreases |bases|
  {
    hide TrailBase;
    var first, rest := TrailBase(w, file, bases[0], steps, n), TrailBases(w, file, bases[1..], steps, n);
    FreshJoin(first, rest, seen);
    if i == 0 {
      OnTrail(w, file, bases[1..], steps, n, j - 1, k);
      FreshIff(rest, seen + AsSet(first));
    } else {
      SharedRepeats(w, file, bases[1..], steps, n, i - 1, j - 1, k, seen + AsSet(first));
    }
  }

  lemma {:induction false} OnTrail(w: World, file: FileId, bases: seq<Base>, steps: seq<Step>, n: nat, j: nat, k: Key)
    requires j < |bases| && k in TrailBase(w, file, bases[j], steps, n)
    ensures k in TrailBases(w, file, bases, steps, n)
    decreases |bases|
  {
    hide TrailBase;
    if j > 0 { OnTrail(w, file, bases[1..], steps, n, j - 1, k); }
  }

  /**
   * Any interface two of whose bases come to a common declaration: a key that nobody declares is
   * reported `unknown`, though nothing about it is unknown.
   */
  lemma DiamondIsUnknown(w: World, id: DeclId, steps: seq<Step>, fuel: nat, i: nat, j: nat, k: Key)
    requires id in w.decls && w.decls[id].Interface? && steps != [] && steps[0].Member?
    requires Visible(w.decls[id].members, steps[0].name).None?
    requires LookupDecl(w, id, steps, {}, fuel).Value? && Absent(w, id, steps) && fuel > 0
    requires i < j < |w.decls[id].bases|
    requires k in TrailBase(w, id.file, w.decls[id].bases[i], steps, fuel - 1)
    requires k in TrailBase(w, id.file, w.decls[id].bases[j], steps, fuel - 1)
    ensures LookupDecl(w, id, steps, {}, fuel).r == Unknown
  {
    hide LookupDecl, TrailDecl, TrailBases, TrailBase, Absent, Fresh;
    var bases := w.decls[id].bases;
    var tail := TrailBases(w, id.file, bases, steps, fuel - 1);
    OnlyBases(w, id, steps, fuel);
    FreshFirst((id, |steps|), tail, {});
    SharedRepeats(w, id.file, bases, steps, fuel - 1, i, j, k, {} + {(id, |steps|)});
    FreshIff(TrailDecl(w, id, steps, fuel), {});
    AbsentIsUnknownIff(w, id, steps, fuel);
  }

  lemma OnlyBases(w: World, id: DeclId, steps: seq<Step>, n: nat)
    requires id in w.decls && w.decls[id].Interface? && steps != [] && steps[0].Member? && n > 0
    requires Visible(w.decls[id].members, steps[0].name).None?
    ensures TrailDecl(w, id, steps, n) == [(id, |steps|)] + TrailBases(w, id.file, w.decls[id].bases, steps, n - 1)
  {
  }

  // ---------------------------------------------------------------- what throws

  /** Every file a name may lead to can be read. */
  predicate Readable(w: World) {
    forall k | k in w.names :: !w.names[k].Unreadable?
  }

  lemma {:induction false} ReadableTy(w: World, file: FileId, t: Ty, steps: seq<Step>, seen: set<Key>, fuel: nat)
    requires Readable(w)
    ensures !LookupTy(w, file, t, steps, seen, fuel).Threw?
    decreases fuel, 1
  {
    if steps != [] && fuel > 0 {
      match t
      case Literal(ms) =>
        if steps[0].Member? {
          var p := Visible(ms, steps[0].name);
          if p.Some? && |steps| > 1 && p.value.ty.Some? {
            ReadableTy(w, file, p.value.ty.value, steps[1..], seen, fuel - 1);
          }
        }
      case Paren(u) => ReadableTy(w, file, u, steps, seen, fuel - 1);
      case Intersection(ts) => ReadableEach(w, file, ts, steps, seen, fuel - 1);
      case Union(ts) => ReadableEach(w, file, ts, steps, seen, fuel - 1);
      case ArrayOf(u) => if steps[0].Element? { ReadableTy(w, file, u, steps[1..], seen, fuel - 1); }
      case Operator(_, u) => ReadableTy(w, file, u, steps, seen, fuel - 1);
      case Indexed(u, index) =>
        if index.Some? {
          ReadableTy(w, file, u, [Member(index.value)] + steps, seen, fuel - 1);
        }
      case Reference(head, qualified, args) =>
        if head in PASSTHROUGH && args != [] {
          ReadableTy(w, file, args[0], steps, seen, fuel - 1);
        } else if head in ARRAYS && args != [] {
          if steps[0].Element? { ReadableTy(w, file, args[0], steps[1..], seen, fuel - 1); }
        } else if !qualified {
          var r := Resolve(w, file, head);
          if r.Known? { ReadableDecl(w, r.id, steps, seen, fuel - 1); }
        }
      case Opaque =>
    }
  }

  /** A lookup throws only on a file that cannot be read. */
  lemma {:induction false} ReadableDecl(w: World, id: DeclId, steps: seq<Step>, seen: set<Key>, fuel: nat)
    requires Readable(w) && id in w.decls
    ensures !LookupDecl(w, id, steps, seen, fuel).Threw?
    decreases fuel, 1
  {
    if steps != [] && !w.decls[id].Enum? && (id, |steps|) !in seen && fuel > 0 {
      var seen' := seen + {(id, |steps|)};
      match w.decls[id]
      case Alias(_, body) => ReadableTy(w, id.file, body, steps, seen', fuel - 1);
      case Interface(_, ms, bases) =>
        if steps[0].Member? {
          var p := Visible(ms, steps[0].name);
          if p.Some? {
            if |steps| > 1 && p.value.ty.Some? {
              ReadableTy(w, id.file, p.value.ty.value, steps[1..], seen', fuel - 1);
            }
          } else {
            ReadableBases(w, id.file, bases, steps, seen', fuel - 1);
          }
        }
    }
  }

  lemma {:induction false} ReadableEach(
    w: World, file: FileId, ts: seq<Ty>, steps: seq<Step>, seen: set<Key>, fuel: nat)
    requires Readable(w)
    ensures !LookupEach(w, file, ts, steps, seen, fuel).AllThrew?
    decreases fuel, 4, |ts|
  {
    if ts != [] {
      ReadableTy(w, file, ts[0], steps, seen, fuel);
      var e := LookupTy(w, file, ts[0], steps, seen, fuel);
      if e.Value? { ReadableEach(w, file, ts[1..], steps, e.seen, fuel); }
    }
  }

  lemma {:induction false} ReadableBases(
    w: World, file: FileId, bases: seq<Base>, steps: seq<Step>, seen: set<Key>, fuel: nat)
    requires Readable(w)
    ensures !LookupBases(w, file, bases, steps, seen, fuel).AllThrew?
    decreases fuel, 4, |bases|
  {
    if bases != [] {
      if bases[0].Named? {
        var r := Resolve(w, file, bases[0].name);
        if r.Known? { ReadableDecl(w, r.id, steps, seen, fuel); }
        assert !LookupName(w, file, bases[0].name, steps, seen, fuel).Threw?;
      }
      var e := LookupBase(w, file, bases[0], steps, seen, fuel);
      if e.Value? { ReadableBases(w, file, bases[1..], steps, e.seen, fuel); }
    }
  }
}
