/** Where the promises of `lookupPath` stop, on concrete graphs and for single lists. */
module TypeBoundaries {
  import opened Prelude
  import opened TypeLookup
  import opened TypeMeaning
  import opened TypeTermination
  import opened TypeBudget
  import opened TypeSoundness
  import opened TypePrecision
  import opened TypeTruth
  import opened TypeBlindSpots

  const A := DeclId("c.ts", 0)

  /** `type A = A['x']`: every round lengthens the path, so no key repeats. */
  const SELF_INDEXED := World(
    map[A := Alias([], Indexed(Reference("A", false, []), Some("x")))],
    map[("c.ts", "A") := Known(A)],
    map[("c.ts", "A") := Meaning([A], false)])

  lemma {:induction false} SelfIndexedDiverges(steps: seq<Step>, seen: set<Key>, fuel: nat)
    requires steps != [] && forall k | k >= |steps| :: (A, k) !in seen
    ensures LookupDecl(SELF_INDEXED, A, steps, seen, fuel) == OutOfFuel
    decreases fuel
  {
    var longer := [Member("x")] + steps;
    var seen' := seen + {(A, |steps|)};
    if fuel > 2 {
      SelfIndexedDiverges(longer, seen', fuel - 3);
      assert LookupTy(SELF_INDEXED, "c.ts", Reference("A", false, []), longer, seen', fuel - 2) == OutOfFuel;
    }
    if fuel > 1 {
      assert LookupTy(SELF_INDEXED, "c.ts", Indexed(Reference("A", false, []), Some("x")), steps, seen', fuel - 1)
             == OutOfFuel;
    }
  }

  /** So, by the exact criterion, the path of that walk has no bound, and no budget fits. */
  lemma SelfIndexedIsUnbounded(steps: seq<Step>, top: nat, bud: Budget)
    requires steps != []
    ensures !Bounded(SELF_INDEXED, A, steps, top) && !Budgeted(SELF_INDEXED, bud)
  {
    hide LookupDecl, Bounded, Budgeted;
    assert A in SELF_INDEXED.decls;
    if Bounded(SELF_INDEXED, A, steps, top) {
      var fuel := BoundedEnds(SELF_INDEXED, A, steps, top);
      SelfIndexedDiverges(steps, {}, fuel);
    }
    if Budgeted(SELF_INDEXED, bud) {
      var fuel := Terminates(SELF_INDEXED, bud, A, steps);
      SelfIndexedDiverges(steps, {}, fuel);
    }
  }

  const INDEXED_TWICE := Indexed(Indexed(Reference("A", false, []), Some("y")), Some("z"))

  /** `type A = { x: A['y']['z'] }`: the key an index names is not declared, so the path soon ends. */
  const NESTED := World(
    map[A := Alias([], Literal([Property("x", "x", Some(INDEXED_TWICE))]))],
    map[("c.ts", "A") := Known(A)],
    map[("c.ts", "A") := Meaning([A], false)])

  /** Two indexes for one key spent: the budget does not add up. */
  lemma NestedHasNoBudget(bud: Budget)
    ensures !Budgeted(NESTED, bud)
  {
    if A in bud {
      assert Resolve(NESTED, "c.ts", "A") == Known(A);
      var b: int := bud[A];
      var body := Literal([Property("x", "x", Some(INDEXED_TWICE))]);
      var inner := Reference("A", false, []);
      assert !FitsName(NESTED, bud, "c.ts", "A", b - 1);
      assert !FitsTy(NESTED, bud, "c.ts", inner, b - 1);
      assert !FitsTy(NESTED, bud, "c.ts", Indexed(inner, Some("y")), b);
      assert !FitsTy(NESTED, bud, "c.ts", INDEXED_TWICE, b + 1);
      assert body.members[0] in body.members;
      assert !FitsTy(NESTED, bud, "c.ts", body, b);
      assert A in NESTED.decls && !FitsDecl(NESTED, bud, A);
    }
  }

  /** Looking up `y` in that type is the end of it. */
  lemma NestedStops(steps: seq<Step>, seen: set<Key>, fuel: nat)
    requires steps != [] && steps[0] == Member("y") && fuel >= 2
    ensures LookupDecl(NESTED, A, steps, seen, fuel).Value?
  {
    var ms := [Property("x", "x", Some(INDEXED_TWICE))];
    assert ms[1..] == [] && ms[0].text == "x" && "x" != "y";
    assert Visible(ms, "y") == Visible(ms[1..], "y");
    var seen' := seen + {(A, |steps|)};
    assert LookupTy(NESTED, "c.ts", Literal(ms), steps, seen', fuel - 1) == Value(Missing, seen');
  }

  lemma BudgetIsNotNecessary(bud: Budget, steps: seq<Step>)
    ensures !Budgeted(NESTED, bud) && !LookupDecl(NESTED, A, steps, {}, 9).OutOfFuel?
  {
    NestedHasNoBudget(bud);
    hide LookupDecl;
    assert Resolve(NESTED, "c.ts", "A") == Known(A);
    var ms := [Property("x", "x", Some(INDEXED_TWICE))];
    var seen := {} + {(A, |steps|)};
    if steps != [] && steps[0].Member? && |steps| > 1 {
      var path := [Member("y")] + ([Member("z")] + steps[1..]);
      NestedStops(path, seen, 4);
      assert !LookupName(NESTED, "c.ts", "A", path, seen, 4).OutOfFuel?;
      assert !LookupTy(NESTED, "c.ts", Reference("A", false, []), path, seen, 5).OutOfFuel?;
      var inner := Indexed(Reference("A", false, []), Some("y"));
      assert !LookupTy(NESTED, "c.ts", inner, [Member("z")] + steps[1..], seen, 6).OutOfFuel?;
      assert !LookupTy(NESTED, "c.ts", INDEXED_TWICE, steps[1..], seen, 7).OutOfFuel?;
    }
    NestedBody(steps, seen, ms);
  }

  lemma NestedBody(steps: seq<Step>, seen: set<Key>, ms: seq<Prop>)
    requires ms == [Property("x", "x", Some(INDEXED_TWICE))] && seen == {} + {(A, |steps|)}
    requires steps != [] && steps[0].Member? && |steps| > 1 ==>
               !LookupTy(NESTED, "c.ts", INDEXED_TWICE, steps[1..], seen, 7).OutOfFuel?
    ensures !LookupDecl(NESTED, A, steps, {}, 9).OutOfFuel?
  {
    if steps != [] {
      assert ms[1..] == [];
      assert !LookupTy(NESTED, "c.ts", Literal(ms), steps, seen, 8).OutOfFuel?;
    }
  }

  const B := DeclId("c.ts", 1)
  const C := DeclId("c.ts", 2)
  const D := DeclId("c.ts", 3)

  const TO_A := Reference("A", false, [])
  const STEEP := Indexed(Indexed(TO_A, Some("x")), Some("x"))
  const ELSEWHERE := Indexed(Indexed(TO_A, Some("z")), Some("q"))

  /** `type A = { x: A['x']['x'] }`, `type B = A['z']['q'] & A` and `type C = A & A['z']['q']`. */
  const ORDER := World(
    map[A := Alias([], Literal([Property("x", "x", Some(STEEP))])),
        B := Alias([], Intersection([ELSEWHERE, TO_A])), C := Alias([], Intersection([TO_A, ELSEWHERE]))],
    map[("c.ts", "A") := Known(A)],
    map[("c.ts", "A") := Meaning([A], false)])

  /** Coming to `A` with `x` in front means coming to it again with one more. */
  lemma OneRound(rest: seq<Step>, seen: set<Key>, fuel: nat)
    requires rest != [] && (A, |rest| + 1) !in seen && fuel >= 5
    ensures LookupDecl(ORDER, A, [Member("x")] + rest, seen, fuel)
         == LookupDecl(ORDER, A, [Member("x")] + ([Member("x")] + rest), seen + {(A, |rest| + 1)}, fuel - 5)
  {
    var path, longer := [Member("x")] + rest, [Member("x")] + ([Member("x")] + rest);
    var seen' := seen + {(A, |rest| + 1)};
    var ms := [Property("x", "x", Some(STEEP))];
    assert path[1..] == rest && Resolve(ORDER, "c.ts", "A") == Known(A);
    assert LookupTy(ORDER, "c.ts", TO_A, longer, seen', fuel - 4) == LookupDecl(ORDER, A, longer, seen', fuel - 5);
    assert LookupTy(ORDER, "c.ts", STEEP, rest, seen', fuel - 2)
        == LookupTy(ORDER, "c.ts", TO_A, longer, seen', fuel - 4);
    assert LookupTy(ORDER, "c.ts", Literal(ms), path, seen', fuel - 1)
        == LookupTy(ORDER, "c.ts", STEEP, rest, seen', fuel - 2);
  }

  lemma {:induction false} SteepDiverges(rest: seq<Step>, seen: set<Key>, fuel: nat)
    requires rest != [] && forall k | k > |rest| :: (A, k) !in seen
    ensures LookupDecl(ORDER, A, [Member("x")] + rest, seen, fuel) == OutOfFuel
    decreases fuel
  {
    if fuel >= 5 {
      OneRound(rest, seen, fuel);
      SteepDiverges([Member("x")] + rest, seen + {(A, |rest| + 1)}, fuel - 5);
    } else {
      NeedsARound(rest, seen, fuel);
    }
  }

  /** Fuel that does not last one round is not enough. */
  lemma NeedsARound(rest: seq<Step>, seen: set<Key>, fuel: nat)
    requires rest != [] && (forall k | k > |rest| :: (A, k) !in seen) && fuel < 5
    ensures LookupDecl(ORDER, A, [Member("x")] + rest, seen, fuel) == OutOfFuel
  {
    var path := [Member("x")] + rest;
    if !LookupDecl(ORDER, A, path, seen, fuel).OutOfFuel? {
      MoreFuel(ORDER, A, path, seen, fuel, 5 - fuel);
      OneRound(rest, seen, 5);
    }
  }

  const XQ := [Member("x"), Member("q")]

  lemma ElsewhereEnds(seen: set<Key>, fuel: nat)
    requires (A, 4) !in seen && fuel >= 6
    ensures LookupTy(ORDER, "c.ts", ELSEWHERE, XQ, seen, fuel) == Value(Missing, seen + {(A, 4)})
  {
    var path := [Member("z")] + ([Member("q")] + XQ);
    var ms := [Property("x", "x", Some(STEEP))];
    assert ms[1..] == [] && "x" != "z" && Visible(ms, "z") == Visible(ms[1..], "z");
    assert Resolve(ORDER, "c.ts", "A") == Known(A);
    assert LookupDecl(ORDER, A, path, seen, fuel - 3) == Value(Missing, seen + {(A, 4)});
    assert LookupTy(ORDER, "c.ts", TO_A, path, seen, fuel - 2) == Value(Missing, seen + {(A, 4)});
  }

  /**
   * Whether a growing path goes on for ever can hang on the order of the parts of an intersection:
   * the same re-entry of `A` with a longer path is cut short in `B`, where a sibling has put the key
   * that comes next into `seen`, and goes on in `C`.
   */
  lemma OrderDecides(fuel: nat)
    ensures LookupDecl(ORDER, B, XQ, {}, 20).Value?
    ensures LookupDecl(ORDER, C, XQ, {}, fuel) == OutOfFuel
  {
    CutShort();
    GoesOn(fuel);
  }

  lemma CutShort()
    ensures LookupDecl(ORDER, B, XQ, {}, 20).Value?
  {
    var seen := {} + {(B, 2)};
    ElsewhereEnds(seen, 18);
    var seen' := seen + {(A, 4)};
    var x, rest := Member("x"), [Member("q")];
    OneRound(rest, seen', 17);
    OneRound([x] + rest, seen' + {(A, 2)}, 12);
    assert [x] + rest == XQ;
    hide Visible;
    assert LookupDecl(ORDER, A, [x] + ([x] + ([x] + rest)), seen' + {(A, 2)} + {(A, 3)}, 7).Value?;
    var ts := [ELSEWHERE, TO_A];
    assert LookupTy(ORDER, "c.ts", TO_A, XQ, seen', 18) == LookupDecl(ORDER, A, XQ, seen', 17);
    assert ts[1..] == [TO_A] && ts[1..][1..] == [];
    assert LookupEach(ORDER, "c.ts", ts[1..], XQ, seen', 18).Values?;
    assert LookupEach(ORDER, "c.ts", ts, XQ, seen, 18).Values?;
    assert LookupTy(ORDER, "c.ts", Intersection(ts), XQ, seen, 19).Value?;
  }

  lemma GoesOn(fuel: nat)
    ensures LookupDecl(ORDER, C, XQ, {}, fuel) == OutOfFuel
  {
    var seen, ts := {} + {(C, 2)}, [TO_A, ELSEWHERE];
    assert [Member("x")] + [Member("q")] == XQ && Resolve(ORDER, "c.ts", "A") == Known(A);
    if fuel >= 3 {
      SteepDiverges([Member("q")], seen, fuel - 3);
      assert LookupTy(ORDER, "c.ts", TO_A, XQ, seen, fuel - 2) == OutOfFuel;
      assert LookupEach(ORDER, "c.ts", ts, XQ, seen, fuel - 2) == AllOutOfFuel;
      assert LookupTy(ORDER, "c.ts", Intersection(ts), XQ, seen, fuel - 1) == OutOfFuel;
    } else if fuel == 2 {
      assert LookupTy(ORDER, "c.ts", TO_A, XQ, seen, 0) == OutOfFuel;
      assert LookupEach(ORDER, "c.ts", ts, XQ, seen, 0) == AllOutOfFuel;
    }
  }

  /** `D extends B, C` with both extending the empty `A`: an acyclic diamond. */
  const DIAMOND := World(
    map[A := Interface([], [], []), B := Interface([], [], [Named("A", [])]), C := Interface([], [], [Named("A", [])]),
        D := Interface([], [], [Named("B", []), Named("C", [])])],
    map[("c.ts", "A") := Known(A), ("c.ts", "B") := Known(B), ("c.ts", "C") := Known(C)],
    map[("c.ts", "A") := Meaning([A], false), ("c.ts", "B") := Meaning([B], false),
        ("c.ts", "C") := Meaning([C], false)])

  const X := [Member("x")]

  lemma ArmMay(arm: DeclId, n: nat)
    requires arm == B || arm == C
    ensures !MayDecl(DIAMOND, arm, X, n)
  {
    assert Resolve(DIAMOND, "c.ts", "A") == Known(A);
    if n > 1 {
      assert !MayName(DIAMOND, "c.ts", "A", X, n - 1);
      assert !MayBase(DIAMOND, "c.ts", Named("A", []), X, n - 1);
    }
    if n == 1 { assert !MayBase(DIAMOND, "c.ts", Named("A", []), X, 0); }
  }

  lemma NobodyDeclares()
    ensures Absent(DIAMOND, D, X)
  {
    assert Resolve(DIAMOND, "c.ts", "B") == Known(B) && Resolve(DIAMOND, "c.ts", "C") == Known(C);
    forall n: nat ensures !MayDecl(DIAMOND, D, X, n) {
      if n > 0 {
        ArmMay(B, n - 1);
        ArmMay(C, n - 1);
        assert !MayBase(DIAMOND, "c.ts", Named("B", []), X, n - 1);
        assert !MayBase(DIAMOND, "c.ts", Named("C", []), X, n - 1);
      }
    }
  }

  lemma ArmTrail(arm: DeclId, name: string, n: nat)
    requires n >= 2 && ((arm == B && name == "B") || (arm == C && name == "C"))
    ensures (A, 1) in TrailBase(DIAMOND, "c.ts", Named(name, []), X, n)
  {
    assert Resolve(DIAMOND, "c.ts", "A") == Known(A) && Resolve(DIAMOND, "c.ts", name) == Known(arm);
    var bases := [Named("A", [])];
    assert TrailBase(DIAMOND, "c.ts", bases[0], X, n - 1) == TrailDecl(DIAMOND, A, X, n - 1);
    assert (A, 1) == TrailDecl(DIAMOND, A, X, n - 1)[0];
    OnTrail(DIAMOND, "c.ts", bases, X, n - 1, 0, (A, 1));
    assert TrailDecl(DIAMOND, arm, X, n) == [(arm, 1)] + TrailBases(DIAMOND, "c.ts", bases, X, n - 1);
    assert TrailBase(DIAMOND, "c.ts", Named(name, []), X, n) == TrailDecl(DIAMOND, arm, X, n);
  }

  /** The smallest diamond: `x` is declared nowhere, the graph has no cycle, and the answer is `unknown`. */
  lemma SmallestDiamond() returns (fuel: nat)
    ensures Absent(DIAMOND, D, X)
    ensures exists seen :: LookupDecl(DIAMOND, D, X, {}, fuel) == Value(Unknown, seen)
  {
    NobodyDeclares();
    var enough := IndexFreeTerminates(DIAMOND, D, X);
    fuel := enough + 3;
    MoreFuel(DIAMOND, D, X, {}, enough, 3);
    ReadableDecl(DIAMOND, D, X, {}, fuel);
    ArmTrail(B, "B", fuel - 1);
    ArmTrail(C, "C", fuel - 1);
    var bases := [Named("B", []), Named("C", [])];
    assert DIAMOND.decls[D] == Interface([], [], bases);
    hide LookupDecl, TrailBase, Absent;
    DiamondIsUnknown(DIAMOND, D, X, fuel, 0, 1, (A, 1));
    assert LookupDecl(DIAMOND, D, X, {}, fuel) == Value(Unknown, LookupDecl(DIAMOND, D, X, {}, fuel).seen);
  }

  /** A name that denotes interfaces without heritage that merge; the code takes one of them for all. */
  predicate NoHeritage(w: World, file: FileId, name: string, id: DeclId, ids: seq<DeclId>) {
    && id in ids && (forall i | i in ids :: i in w.decls && w.decls[i].Interface? && w.decls[i].bases == [])
    && Resolve(w, file, name) == Known(id)
    && (file, name) in w.means && w.means[(file, name)] == Meaning(ids, false)
  }

  /** Declared, by whatever element of whichever body. */
  predicate Declares(w: World, ids: seq<DeclId>, step: Step)
    requires forall i | i in ids :: i in w.decls && w.decls[i].Interface?
  {
    OwnNamed(w, ids, step) || exists i | i in ids :: AdmitsOne(w.decls[i].members, step)
  }

  predicate AdmitsOne(ms: seq<Prop>, step: Step) {
    exists m | m in ms :: Admits(m, step)
  }

  /**
   * For a top-level key of interfaces without heritage the condition under which `missing` is wrong
   * is just this: declared, but by no property signature of the first body spelled like the key.
   */
  lemma MisreportedKeyIff(w: World, file: FileId, name: string, id: DeclId, ids: seq<DeclId>, key: string)
    requires NoHeritage(w, file, name, id, ids)
    ensures var e := LookupName(w, file, name, [Member(key)], {}, 1);
            e.Value? && e.r == Missing && (exists n: nat :: CanRef(w, NameAt(file, name), [], [Member(key)], n))
            <==>
            Visible(w.decls[id].members, key).None? && Declares(w, ids, Member(key))
  {
    var steps := [Member(key)];
    var ms := w.decls[id].members;
    var seen := {(id, 1)};
    assert LookupBases(w, id.file, [], steps, seen, 0) == Values([], seen);
    var r := if Visible(ms, key).Some? then Found else Missing;
    assert LookupDecl(w, id, steps, {}, 1) == Value(r, {} + seen);
    assert LookupName(w, file, name, steps, {}, 1) == Value(r, {} + seen);
    hide LookupDecl, CanRef, LookupName;
    NoHeritageCan(w, file, name, id, ids, key, 1);
    if n: nat :| CanRef(w, NameAt(file, name), [], steps, n) { NoHeritageCan(w, file, name, id, ids, key, n); }
  }

  lemma NoHeritageCan(w: World, file: FileId, name: string, id: DeclId, ids: seq<DeclId>, key: string, n: nat)
    requires NoHeritage(w, file, name, id, ids)
    ensures CanRef(w, NameAt(file, name), [], [Member(key)], n) <==> n > 0 && Declares(w, ids, Member(key))
  {
    var at, steps, step := NameAt(file, name), [Member(key)], Member(key);
    var args := Args(at, []);
    assert CanRef(w, at, [], steps, n) == CanSym(w, ids, args, [], steps, n);
    assert n == 0 ==> !CanSym(w, ids, args, [], steps, n);
    if n > 0 {
      hide OwnNamed;
      if !OwnNamed(w, ids, step) {
        forall i | i in ids
          ensures CanDecl(w, ids, i, args, [], steps, n) <==> AdmitsOne(w.decls[i].members, step)
        {
          OnlyIndex(w, ids, i, args, key, n);
          assert NamedBy(w.decls[i].members, step).None? by { NotNamed(w, ids, i, step); }
        }
      } else {
        var i := NamedBody(w, ids, step);
        assert CanDecl(w, ids, i, args, [], steps, n);
      }
    }
  }

  lemma NamedBody(w: World, ids: seq<DeclId>, step: Step) returns (i: DeclId)
    requires OwnNamed(w, ids, step)
    ensures i in ids && i in w.decls && w.decls[i].Interface? && NamedBy(w.decls[i].members, step).Some?
  {
    i :| i in ids && i in w.decls && w.decls[i].Interface? && NamedBy(w.decls[i].members, step).Some?;
  }

  lemma NotNamed(w: World, ids: seq<DeclId>, i: DeclId, step: Step)
    requires !OwnNamed(w, ids, step) && i in ids && i in w.decls && w.decls[i].Interface?
    ensures NamedBy(w.decls[i].members, step).None?
  {
  }

  lemma OnlyIndex(w: World, ids: seq<DeclId>, id: DeclId, args: seq<Site>, key: string, n: nat)
    requires id in ids && forall i | i in ids :: i in w.decls && w.decls[i].Interface? && w.decls[i].bases == []
    requires !OwnNamed(w, ids, Member(key)) && n > 0
    ensures CanInherit(w, ids, id, args, [], [Member(key)], n) <==> AdmitsOne(w.decls[id].members, Member(key))
  {
    var at, ms, step := Inside(w, id, args), w.decls[id].members, Member(key);
    var rivals := [] + [Beside(WholeName(ids, args), [], 1)];
    NotSure(w, ids, args, key);
    assert CanIndex(w, at, rivals, ms, [step], n) <==> AdmitsOne(ms, step) by {
      forall m ensures CanProp(w, at, rivals, m, [step], n) {}
    }
    assert CanInherit(w, ids, id, args, [], [step], n) == CanIndex(w, at, rivals, ms, [step], n);
  }

  /** Only by name would they be sure of the key, and so silence their own index signatures. */
  lemma NotSure(w: World, ids: seq<DeclId>, args: seq<Site>, key: string)
    requires forall i | i in ids :: i in w.decls && w.decls[i].Interface? && w.decls[i].bases == []
    requires !OwnNamed(w, ids, Member(key))
    ensures forall numeric :: !Outranked(w, [] + [Beside(WholeName(ids, args), [], 1)], numeric, [Member(key)])
  {
    var path := [] + [Member(key)];
    forall m: nat ensures !HasWhole(w, WholeName(ids, args), path, m) {
      if m > 0 {
        forall i | i in ids ensures !HasDecl(w, ids, i, args, path, m) { NotNamed(w, ids, i, Member(key)); }
      }
    }
    var rival := Beside(WholeName(ids, args), [], 1);
    forall numeric ensures !Outranked(w, [] + [rival], numeric, [Member(key)]) {
      assert forall r | r in [] + [rival] :: r == rival;
      assert !Sure(w, rival.whole, rival.path + [Member(key)]);
    }
  }

  /** `interface B { x: { y: … } }` and `interface A extends B { [k: string]: unknown }`. */
  const HEIR := World(
    map[A := Interface([], [AnyKey(false, Some(Opaque))], [Named("B", [])]),
        B := Interface([], [Property("x", "x", Some(Literal([Property("y", "y", Some(Opaque))])))], [])],
    map[("c.ts", "A") := Known(A), ("c.ts", "B") := Known(B)],
    map[("c.ts", "A") := Meaning([A], false), ("c.ts", "B") := Meaning([B], false)])

  const REF_A := NameAt("c.ts", "A")

  lemma HeirHasX(n: nat)
    requires n >= 2
    ensures HasSym(HEIR, [A], Args(REF_A, []), X, n)
  {
    var args := Args(REF_A, []);
    var at := Inside(HEIR, A, args);
    var ref := BaseSite(at, Named("B", []));
    assert Denoted(HEIR, ref) == Declared([B], Args(ref, []), false);
    assert B in [B] && HasDecl(HEIR, [B], B, Args(ref, []), X, n - 1);
    assert HasBase(HEIR, at, HEIR.decls[A].bases[0], X, n - 1);
    assert A in [A] && HasDecl(HEIR, [A], A, args, X, n);
  }

  /** An index signature does not hide what is inherited: `x` is found, and it is there. */
  lemma InheritedBesideIndex(n: nat)
    requires n >= 2
    ensures HasRef(HEIR, REF_A, X, n)
    ensures var e := LookupName(HEIR, "c.ts", "A", X, {}, 2); e.Value? && e.r == Found
  {
    HeirHasX(n);
    assert Denoted(HEIR, REF_A) == Declared([A], Args(REF_A, []), false);
    assert LookupDecl(HEIR, B, X, {(A, 1)}, 1) == Value(Found, {(A, 1), (B, 1)});
    assert LookupBase(HEIR, "c.ts", Named("B", []), X, {(A, 1)}, 1) == Value(Found, {(A, 1), (B, 1)});
    assert LookupBases(HEIR, "c.ts", [], X, {(A, 1), (B, 1)}, 1) == Values([], {(A, 1), (B, 1)});
    assert LookupBases(HEIR, "c.ts", [Named("B", [])], X, {(A, 1)}, 1).rs == [Found];
    assert {} + {(A, 1)} == {(A, 1)};
  }

  const XZ := [Member("x"), Member("z")]

  /** Nor does it lend the named key members it does not have: `x.z` is ruled out. */
  lemma NamedSilencesIndex(n: nat)
    ensures !CanRef(HEIR, REF_A, [], XZ, n)
  {
    var args := Args(REF_A, []);
    assert Denoted(HEIR, REF_A) == Declared([A], args, false);
    assert CanRef(HEIR, REF_A, [], XZ, n) == CanSym(HEIR, [A], args, [], XZ, n);
    assert CanSym(HEIR, [A], args, [], XZ, n) == CanDecl(HEIR, [A], A, args, [], XZ, n);
    if n > 0 {
      HeirInherits(args, n);
      hide CanInherit;
      assert NamedBy(HEIR.decls[A].members, XZ[0]).None?;
    }
  }

  lemma HeirInherits(args: seq<Site>, n: nat)
    requires args == Args(REF_A, []) && n > 0
    ensures !CanInherit(HEIR, [A], A, args, [], XZ, n)
  {
    var at, whole := Inside(HEIR, A, args), WholeName([A], args);
    var all := [] + [Beside(whole, [], 2)];
    HeirHasX(2);
    assert [XZ[0]] == X && HasWhole(HEIR, whole, X, 2);
    SureSilencesIndex(HEIR, whole, at, [], HEIR.decls[A].members, XZ, 2, n);
    hide CanIndex, CanBase;
    HeirBaseCannot(at, all + OwnIndexes(HEIR, [A], XZ[0], 2), n - 1);
    assert HEIR.decls[A].bases == [Named("B", [])];
  }

  lemma HeirBaseCannot(at: Site, rivals: seq<Rival>, n: nat)
    requires at.file == "c.ts" && at.scope == map[]
    ensures !CanBase(HEIR, at, rivals, Named("B", []), XZ, n)
  {
    var ref := BaseSite(at, Named("B", []));
    var args := Args(ref, []);
    assert Denoted(HEIR, ref) == Declared([B], args, false);
    assert CanRef(HEIR, ref, rivals, XZ, n) == CanSym(HEIR, [B], args, rivals, XZ, n);
    assert CanSym(HEIR, [B], args, rivals, XZ, n) == CanDecl(HEIR, [B], B, args, rivals, XZ, n);
    var p := HEIR.decls[B].members[0];
    assert NamedBy(HEIR.decls[B].members, XZ[0]) == Some(p);
    var inner := Inside(HEIR, B, args).(ty := p.ty.value);
    if n > 0 {
      assert XZ[1..] == [Member("z")];
      var ms := p.ty.value.members;
      assert ms[1..] == [] && "y" != "z";
      assert NamedBy(ms, Member("z")) == NamedBy(ms[1..], Member("z"));
      assert forall m | m in ms :: !m.AnyKey?;
      assert !CanMember(HEIR, inner, Onward(rivals, XZ), ms, XZ[1..], n - 1);
      assert !CanTy(HEIR, inner, Onward(rivals, XZ), XZ[1..], n - 1);
      assert !CanProp(HEIR, Inside(HEIR, B, args), rivals, p, XZ, n);
    }
  }

  /** An operand with just these members: a type literal, or the name of an interface without heritage. */
  predicate HasJust(w: World, file: FileId, operand: Ty, ms: seq<Prop>, seen: set<Key>) {
    || operand == Literal(ms)
    || (&& operand.Reference? && !operand.qualified && operand.args == []
        && var r := Resolve(w, file, operand.head);
           r.Known? && w.decls[r.id].Interface? && w.decls[r.id].members == ms && w.decls[r.id].bases == []
           && (r.id, 1) !in seen)
  }

  /**
   * A `keyof` of such an operand is reported as having a key, which no `keyof` has, if and only if
   * the operand has a property signature spelled like it.
   */
  lemma KeyOfMisreportedIff(
    w: World, file: FileId, operand: Ty, ms: seq<Prop>, name: string, seen: set<Key>, fuel: nat)
    requires HasJust(w, file, operand, ms, seen) && fuel >= 3
    ensures var steps, t := [Member(name)], Operator(true, operand);
            (exists s :: LookupTy(w, file, t, steps, seen, fuel) == Value(Found, s)) &&
            (forall scope, n: nat :: !CanTy(w, Site(file, scope, t), [], steps, n))
            <==> Visible(ms, name).Some?
  {
    var steps, t := [Member(name)], Operator(true, operand);
    var r := if Visible(ms, name).Some? then Found else Missing;
    var after := seen;
    if operand.Reference? {
      var id := Resolve(w, file, operand.head).id;
      after := seen + {(id, 1)};
      assert LookupBases(w, id.file, [], steps, after, fuel - 3) == Values([], after);
      assert LookupDecl(w, id, steps, seen, fuel - 2) == Value(r, after);
      assert LookupName(w, file, operand.head, steps, seen, fuel - 2) == Value(r, after);
    }
    assert LookupTy(w, file, operand, steps, seen, fuel - 1) == Value(r, after);
    assert LookupTy(w, file, t, steps, seen, fuel) == Value(r, after);
    forall scope, n: nat ensures !CanTy(w, Site(file, scope, t), [], steps, n) {}
  }
}
