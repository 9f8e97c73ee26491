/** Termination of `lookupPath` on cyclic declaration graphs: it ends exactly if its path stays bounded. */
module TypeTermination {
  import opened Prelude
  import opened TypeLookup

  /** Nesting depth of a type; a declaration's body is walked one level at a time. */
  function Depth(t: Ty): nat
    decreases t, 1
  {
    match t
    case Literal(ms) => 1 + DepthOfProps(ms)
    case Paren(u) => 1 + Depth(u)
    case Intersection(ts) => 1 + DepthOfAll(ts)
    case Union(ts) => 1 + DepthOfAll(ts)
    case ArrayOf(u) => 1 + Depth(u)
    case Operator(_, u) => 1 + Depth(u)
    case Indexed(u, _) => 1 + Depth(u)
    case Reference(_, _, args) => 1 + DepthOfAll(args)
    case Opaque => 1
  }

  function DepthOfAll(ts: seq<Ty>): nat
    decreases ts, 0
  {
    if ts == [] then 0 else Max(Depth(ts[0]), DepthOfAll(ts[1..]))
  }

  function DepthOfProps(ms: seq<Prop>): (d: nat)
    ensures forall m | m in ms && m.Property? && m.ty.Some? :: Depth(m.ty.value) <= d
    decreases ms, 0
  {
    if ms == [] then 0
    else Max(if ms[0].Property? && ms[0].ty.Some? then Depth(ms[0].ty.value) else 0, DepthOfProps(ms[1..]))
  }

  function Max(a: nat, b: nat): nat {
    if a < b then b else a
  }

  // ---------------------------------------------------------------- how long the path gets

  /** The longest path with which the walk enters a declaration, as far as its fuel goes. */
  ghost function LongestTy(w: World, file: FileId, t: Ty, steps: seq<Step>, seen: set<Key>, fuel: nat): nat
    decreases fuel, 1
  {
    if steps == [] || fuel == 0 then 0
    else match t
      case Literal(ms) =>
        if steps[0].Element? then 0 else LongestProp(w, file, Visible(ms, steps[0].name), steps, seen, fuel)
      case Paren(u) => LongestTy(w, file, u, steps, seen, fuel - 1)
      case Intersection(ts) => LongestEach(w, file, ts, steps, seen, fuel - 1)
      case Union(ts) => LongestEach(w, file, ts, steps, seen, fuel - 1)
      case ArrayOf(u) => if steps[0].Element? then LongestTy(w, file, u, steps[1..], seen, fuel - 1) else 0
      case Operator(_, u) => LongestTy(w, file, u, steps, seen, fuel - 1)
      case Indexed(u, index) =>
        if index.Some? then LongestTy(w, file, u, [Member(index.value)] + steps, seen, fuel - 1) else 0
      case Reference(head, qualified, args) =>
        if head in PASSTHROUGH && args != [] then LongestTy(w, file, args[0], steps, seen, fuel - 1)
        else if head in ARRAYS && args != [] then
          if steps[0].Element? then LongestTy(w, file, args[0], steps[1..], seen, fuel - 1) else 0
        else if qualified then 0
        else LongestName(w, file, head, steps, seen, fuel - 1)
      case Opaque => 0
  }

  ghost function LongestProp(w: World, file: FileId, p: Option<Prop>, steps: seq<Step>, seen: set<Key>, fuel: nat): nat
    requires steps != []
    decreases fuel, 0
  {
    if p.Some? && |steps| > 1 && p.value.Property? && p.value.ty.Some? && fuel > 0
    then LongestTy(w, file, p.value.ty.value, steps[1..], seen, fuel - 1) else 0
  }

  ghost function LongestName(w: World, file: FileId, name: string, steps: seq<Step>, seen: set<Key>, fuel: nat): nat
    decreases fuel, 2
  {
    var r := Resolve(w, file, name);
    if r.Known? then LongestDecl(w, r.id, steps, seen, fuel) else 0
  }

  ghost function LongestDecl(w: World, id: DeclId, steps: seq<Step>, seen: set<Key>, fuel: nat): nat
    requires id in w.decls
    decreases fuel, 1
  {
    if steps == [] || w.decls[id].Enum? || (id, |steps|) in seen then 0
    else if fuel == 0 then |steps|
    else
      var seen' := seen + {(id, |steps|)};
      Max(|steps|,
        match w.decls[id]
        case Enum => 0
        case Alias(_, body) => LongestTy(w, id.file, body, steps, seen', fuel - 1)
        case Interface(_, ms, bases) =>
          if steps[0].Element? then 0
          else
            var own := Visible(ms, steps[0].name);
            if own.Some? then LongestProp(w, id.file, own, steps, seen', fuel)
            else LongestBases(w, id.file, bases, steps, seen', fuel - 1))
  }

  ghost function LongestEach(w: World, file: FileId, ts: seq<Ty>, steps: seq<Step>, seen: set<Key>, fuel: nat): nat
    decreases fuel, 4, |ts|
  {
    if ts == [] then 0
    else
      var e := LookupTy(w, file, ts[0], steps, seen, fuel);
      Max(LongestTy(w, file, ts[0], steps, seen, fuel),
          if e.Value? then LongestEach(w, file, ts[1..], steps, e.seen, fuel) else 0)
  }

  ghost function LongestBases(
    w: World, file: FileId, bases: seq<Base>, steps: seq<Step>, seen: set<Key>, fuel: nat): nat
    decreases fuel, 4, |bases|
  {
    if bases == [] then 0
    else
      var e := LookupBase(w, file, bases[0], steps, seen, fuel);
      Max(if bases[0].Named? then LongestName(w, file, bases[0].name, steps, seen, fuel) else 0,
          if e.Value? then LongestBases(w, file, bases[1..], steps, e.seen, fuel) else 0)
  }

  /** Every key a walk whose `|steps|` plus budget starts at `top` can ever put into `seen`. */
  ghost function Keys(w: World, top: nat): set<Key> {
    set id, k: nat | id in w.decls && 0 <= k <= top :: (id, k)
  }

  /** All the declarations' bodies are shallower than `k`. */
  ghost predicate Shallow(w: World, k: nat) {
    forall id | id in w.decls ::
      match w.decls[id]
      case Enum => true
      case Alias(_, body) => Depth(body) < k
      case Interface(_, ms, _) => Depth(Literal(ms)) < k
  }

  /** Fuel for the declarations not yet seen, each with a body shallower than `k`. */
  ghost function Unspent(w: World, top: nat, seen: set<Key>, k: nat): nat {
    |Keys(w, top) - seen| * k
  }

  lemma UnspentLess(w: World, top: nat, seen: set<Key>, seen': set<Key>, k: nat)
    requires seen <= seen'
    ensures Unspent(w, top, seen', k) <= Unspent(w, top, seen, k)
  {
    var a, b := Keys(w, top) - seen', Keys(w, top) - seen;
    SubsetSize(a, b);
    assert |a| * k <= |b| * k by { assert (|b| - |a|) * k >= 0; }
  }

  lemma UnspentStep(w: World, top: nat, seen: set<Key>, key: Key, k: nat)
    requires key in Keys(w, top) && key !in seen
    ensures Unspent(w, top, seen + {key}, k) + k == Unspent(w, top, seen, k)
  {
    var a, b := Keys(w, top) - seen, Keys(w, top) - (seen + {key});
    assert a == b + {key};
    assert |a| * k == |b| * k + k;
  }

  ghost predicate Grows(seen: set<Key>, e: Eval) {
    !e.OutOfFuel? && (e.Value? ==> seen <= e.seen)
  }

  // ---------------------------------------------------------------- while paths stay short, fuel suffices

  lemma {:induction false} HaltsTy(
    w: World, k: nat, top: nat, file: FileId, t: Ty, steps: seq<Step>, seen: set<Key>, room: nat, fuel: nat)
    requires Shallow(w, k) && LongestTy(w, file, t, steps, seen, fuel) <= top
    requires Unspent(w, top, seen, k) <= room && fuel >= room + Depth(t)
    ensures Grows(seen, LookupTy(w, file, t, steps, seen, fuel))
    decreases fuel, 1
  {
    hide Unspent, Keys, Shallow;
    if steps != [] {
      match t
      case Literal(ms) =>
        if steps[0].Member? {
          HaltsProp(w, k, top, file, ms, Visible(ms, steps[0].name), steps, seen, room, fuel);
        }
      case Paren(u) => HaltsTy(w, k, top, file, u, steps, seen, room, fuel - 1);
      case Intersection(ts) => HaltsEach(w, k, top, file, ts, steps, seen, room, fuel - 1);
      case Union(ts) => HaltsEach(w, k, top, file, ts, steps, seen, room, fuel - 1);
      case ArrayOf(u) =>
        if steps[0].Element? { HaltsTy(w, k, top, file, u, steps[1..], seen, room, fuel - 1); }
      case Operator(_, u) => HaltsTy(w, k, top, file, u, steps, seen, room, fuel - 1);
      case Indexed(u, index) =>
        if index.Some? { HaltsTy(w, k, top, file, u, [Member(index.value)] + steps, seen, room, fuel - 1); }
      case Reference(_, _, _) => HaltsReference(w, k, top, file, t, steps, seen, room, fuel);
      case Opaque =>
    }
  }

  lemma {:induction false} HaltsReference(
    w: World, k: nat, top: nat, file: FileId, t: Ty, steps: seq<Step>, seen: set<Key>, room: nat, fuel: nat)
    requires t.Reference? && steps != []
    requires Shallow(w, k) && LongestTy(w, file, t, steps, seen, fuel) <= top
    requires Unspent(w, top, seen, k) <= room && fuel >= room + Depth(t)
    ensures Grows(seen, LookupTy(w, file, t, steps, seen, fuel))
    decreases fuel, 0
  {
    hide Unspent, Keys, Shallow;
    var args := t.args;
    if t.head in PASSTHROUGH && args != [] {
      HaltsTy(w, k, top, file, args[0], steps, seen, room, fuel - 1);
    } else if t.head in ARRAYS && args != [] {
      if steps[0].Element? { HaltsTy(w, k, top, file, args[0], steps[1..], seen, room, fuel - 1); }
    } else if !t.qualified {
      HaltsName(w, k, top, file, t.head, steps, seen, room, fuel - 1);
    }
  }

  lemma {:induction false} HaltsProp(w: World, k: nat, top: nat, file: FileId, ms: seq<Prop>, p: Option<Prop>,
    steps: seq<Step>, seen: set<Key>, room: nat, fuel: nat)
    requires steps != [] && (p.Some? ==> p.value in ms && p.value.Property?)
    requires Shallow(w, k) && LongestProp(w, file, p, steps, seen, fuel) <= top
    requires Unspent(w, top, seen, k) <= room && fuel >= room + Depth(Literal(ms))
    ensures p.Some? ==> Grows(seen, LookupProp(w, file, p.value.ty, steps, seen, fuel))
    decreases fuel, 0
  {
    hide Unspent, Keys, Shallow;
    if p.Some? && |steps| > 1 && p.value.ty.Some? {
      HaltsTy(w, k, top, file, p.value.ty.value, steps[1..], seen, room, fuel - 1);
    }
  }

  lemma {:induction false} HaltsEach(
    w: World, k: nat, top: nat, file: FileId, ts: seq<Ty>, steps: seq<Step>, seen: set<Key>, room: nat, fuel: nat)
    requires Shallow(w, k) && LongestEach(w, file, ts, steps, seen, fuel) <= top
    requires Unspent(w, top, seen, k) <= room && fuel >= room + DepthOfAll(ts)
    ensures var e := LookupEach(w, file, ts, steps, seen, fuel);
            !e.AllOutOfFuel? && (e.Values? ==> seen <= e.seen)
    decreases fuel, 4, |ts|
  {
    hide Unspent, Keys, Shallow;
    if ts != [] {
      HaltsTy(w, k, top, file, ts[0], steps, seen, room, fuel);
      var e := LookupTy(w, file, ts[0], steps, seen, fuel);
      if e.Value? {
        UnspentLess(w, top, seen, e.seen, k);
        HaltsEach(w, k, top, file, ts[1..], steps, e.seen, room, fuel);
      }
    }
  }

  lemma {:induction false} HaltsName(
    w: World, k: nat, top: nat, file: FileId, name: string, steps: seq<Step>, seen: set<Key>, room: nat, fuel: nat)
    requires Shallow(w, k) && LongestName(w, file, name, steps, seen, fuel) <= top
    requires Unspent(w, top, seen, k) <= room && fuel >= room
    ensures Grows(seen, LookupName(w, file, name, steps, seen, fuel))
    decreases fuel, 2
  {
    hide Unspent, Keys, Shallow;
    var r := Resolve(w, file, name);
    if r.Known? { HaltsDecl(w, k, top, r.id, steps, seen, room, fuel); }
  }

  /**
   * While no path is longer than `top`, each (declaration, length) key is walked at most once, so
   * fuel linear in the number of keys is enough, whatever the cycles.
   */
  lemma {:induction false} HaltsDecl(
    w: World, k: nat, top: nat, id: DeclId, steps: seq<Step>, seen: set<Key>, room: nat, fuel: nat)
    requires id in w.decls && Shallow(w, k) && LongestDecl(w, id, steps, seen, fuel) <= top
    requires Unspent(w, top, seen, k) <= room && fuel >= room
    ensures Grows(seen, LookupDecl(w, id, steps, seen, fuel))
    decreases fuel, 1
  {
    hide Unspent;
    var key := (id, |steps|);
    if steps != [] && !w.decls[id].Enum? && key !in seen {
      assert key in Keys(w, top);
      UnspentStep(w, top, seen, key, k);
      var seen' := seen + {key};
      match w.decls[id]
      case Alias(_, body) => HaltsTy(w, k, top, id.file, body, steps, seen', room - k, fuel - 1);
      case Interface(_, ms, bases) =>
        if steps[0].Member? {
          var own := Visible(ms, steps[0].name);
          if own.Some? {
            HaltsProp(w, k, top, id.file, ms, own, steps, seen', room - k, fuel);
          } else {
            HaltsBases(w, k, top, id.file, bases, steps, seen', room - k, fuel - 1);
          }
        }
    }
  }

  lemma {:induction false} HaltsBases(w: World, k: nat, top: nat, file: FileId, bases: seq<Base>, steps: seq<Step>,
    seen: set<Key>, room: nat, fuel: nat)
    requires Shallow(w, k) && LongestBases(w, file, bases, steps, seen, fuel) <= top
    requires Unspent(w, top, seen, k) <= room && fuel >= room
    ensures var e := LookupBases(w, file, bases, steps, seen, fuel);
            !e.AllOutOfFuel? && (e.Values? ==> seen <= e.seen)
    decreases fuel, 4, |bases|
  {
    hide Unspent, Keys, Shallow;
    if bases != [] {
      if bases[0].Named? { HaltsName(w, k, top, file, bases[0].name, steps, seen, room, fuel); }
      var e := LookupBase(w, file, bases[0], steps, seen, fuel);
      if e.Value? {
        UnspentLess(w, top, seen, e.seen, k);
        HaltsBases(w, k, top, file, bases[1..], steps, e.seen, room, fuel);
      }
    }
  }

  lemma {:induction false} ShallowExists(w: World, ids: set<DeclId>) returns (k: nat)
    requires ids <= w.decls.Keys
    ensures k > 0 && forall id | id in ids ::
              match w.decls[id]
              case Enum => true
              case Alias(_, body) => Depth(body) < k
              case Interface(_, ms, _) => Depth(Literal(ms)) < k
    decreases ids
  {
    if ids == {} {
      k := 1;
    } else {
      var id :| id in ids;
      var k' := ShallowExists(w, ids - {id});
      match w.decls[id]
      case Enum => k := k';
      case Alias(_, body) => k := k' + Depth(body) + 1;
      case Interface(_, ms, _) => k := k' + Depth(Literal(ms)) + 1;
    }
  }

  // ---------------------------------------------------------------- more fuel changes nothing

  lemma {:induction false} MoreFuelTy(
    w: World, file: FileId, t: Ty, steps: seq<Step>, seen: set<Key>, fuel: nat, more: nat)
    requires !LookupTy(w, file, t, steps, seen, fuel).OutOfFuel?
    ensures LookupTy(w, file, t, steps, seen, fuel + more) == LookupTy(w, file, t, steps, seen, fuel)
    decreases fuel, 1
  {
    if steps != [] {
      match t
      case Literal(ms) =>
        if steps[0].Member? && Visible(ms, steps[0].name).Some? {
          MoreFuelProp(w, file, Visible(ms, steps[0].name).value, steps, seen, fuel, more);
        }
      case Paren(u) => MoreFuelTy(w, file, u, steps, seen, fuel - 1, more);
      case Intersection(ts) => MoreFuelEach(w, file, ts, steps, seen, fuel - 1, more);
      case Union(ts) => MoreFuelEach(w, file, ts, steps, seen, fuel - 1, more);
      case ArrayOf(u) => if steps[0].Element? { MoreFuelTy(w, file, u, steps[1..], seen, fuel - 1, more); }
      case Operator(_, u) => MoreFuelTy(w, file, u, steps, seen, fuel - 1, more);
      case Indexed(u, index) =>
        if index.Some? { MoreFuelTy(w, file, u, [Member(index.value)] + steps, seen, fuel - 1, more); }
      case Reference(head, qualified, args) =>
        if head in PASSTHROUGH && args != [] {
          MoreFuelTy(w, file, args[0], steps, seen, fuel - 1, more);
        } else if head in ARRAYS && args != [] {
          if steps[0].Element? { MoreFuelTy(w, file, args[0], steps[1..], seen, fuel - 1, more); }
        } else if !qualified {
          MoreFuelName(w, file, head, steps, seen, fuel - 1, more);
        }
      case Opaque =>
    }
  }

  lemma {:induction false} MoreFuelProp(
    w: World, file: FileId, p: Prop, steps: seq<Step>, seen: set<Key>, fuel: nat, more: nat)
    requires steps != [] && p.Property? && !LookupProp(w, file, p.ty, steps, seen, fuel).OutOfFuel?
    ensures LookupProp(w, file, p.ty, steps, seen, fuel + more) == LookupProp(w, file, p.ty, steps, seen, fuel)
    decreases fuel, 0
  {
    if |steps| > 1 && p.ty.Some? { MoreFuelTy(w, file, p.ty.value, steps[1..], seen, fuel - 1, more); }
  }

  lemma {:induction false} MoreFuelName(
    w: World, file: FileId, name: string, steps: seq<Step>, seen: set<Key>, fuel: nat, more: nat)
    requires !LookupName(w, file, name, steps, seen, fuel).OutOfFuel?
    ensures LookupName(w, file, name, steps, seen, fuel + more) == LookupName(w, file, name, steps, seen, fuel)
    decreases fuel, 2
  {
    var r := Resolve(w, file, name);
    if r.Known? { MoreFuel(w, r.id, steps, seen, fuel, more); }
  }

  /** Once fuel suffices, the answer does not depend on it. */
  lemma {:induction false} MoreFuel(w: World, id: DeclId, steps: seq<Step>, seen: set<Key>, fuel: nat, more: nat)
    requires id in w.decls && !LookupDecl(w, id, steps, seen, fuel).OutOfFuel?
    ensures LookupDecl(w, id, steps, seen, fuel + more) == LookupDecl(w, id, steps, seen, fuel)
    decreases fuel, 1
  {
    if steps != [] && !w.decls[id].Enum? && (id, |steps|) !in seen {
      var seen' := seen + {(id, |steps|)};
      match w.decls[id]
      case Alias(_, body) => MoreFuelTy(w, id.file, body, steps, seen', fuel - 1, more);
      case Interface(_, ms, bases) =>
        if steps[0].Member? {
          var own := Visible(ms, steps[0].name);
          if own.Some? {
            MoreFuelProp(w, id.file, own.value, steps, seen', fuel, more);
          } else {
            MoreFuelBases(w, id.file, bases, steps, seen', fuel - 1, more);
          }
        }
    }
  }

  lemma {:induction false} MoreFuelEach(
    w: World, file: FileId, ts: seq<Ty>, steps: seq<Step>, seen: set<Key>, fuel: nat, more: nat)
    requires !LookupEach(w, file, ts, steps, seen, fuel).AllOutOfFuel?
    ensures LookupEach(w, file, ts, steps, seen, fuel + more) == LookupEach(w, file, ts, steps, seen, fuel)
    decreases fuel, 4, |ts|
  {
    if ts != [] {
      MoreFuelTy(w, file, ts[0], steps, seen, fuel, more);
      var e := LookupTy(w, file, ts[0], steps, seen, fuel);
      if e.Value? { MoreFuelEach(w, file, ts[1..], steps, e.seen, fuel, more); }
    }
  }

  lemma {:induction false} MoreFuelBases(
    w: World, file: FileId, bases: seq<Base>, steps: seq<Step>, seen: set<Key>, fuel: nat, more: nat)
    requires !LookupBases(w, file, bases, steps, seen, fuel).AllOutOfFuel?
    ensures LookupBases(w, file, bases, steps, seen, fuel + more) == LookupBases(w, file, bases, steps, seen, fuel)
    decreases fuel, 4, |bases|
  {
    if bases != [] {
      if bases[0].Named? { MoreFuelName(w, file, bases[0].name, steps, seen, fuel, more); }
      var e := LookupBase(w, file, bases[0], steps, seen, fuel);
      if e.Value? { MoreFuelBases(w, file, bases[1..], steps, e.seen, fuel, more); }
    }
  }

  // ---------------------------------------------------------------- a walk that ends is bounded

  lemma {:induction false} StableTy(w: World, file: FileId, t: Ty, steps: seq<Step>, seen: set<Key>, fuel: nat, n: nat)
    requires !LookupTy(w, file, t, steps, seen, fuel).OutOfFuel?
    ensures LongestTy(w, file, t, steps, seen, n) <= LongestTy(w, file, t, steps, seen, fuel)
    decreases fuel, 1
  {
    if steps != [] && n > 0 {
      match t
      case Literal(ms) => if steps[0].Member? { StableProp(w, file, Visible(ms, steps[0].name), steps, seen, fuel, n); }
      case Paren(u) => StableTy(w, file, u, steps, seen, fuel - 1, n - 1);
      case Intersection(ts) => StableEach(w, file, ts, steps, seen, fuel - 1, n - 1);
      case Union(ts) => StableEach(w, file, ts, steps, seen, fuel - 1, n - 1);
      case ArrayOf(u) => if steps[0].Element? { StableTy(w, file, u, steps[1..], seen, fuel - 1, n - 1); }
      case Operator(_, u) => StableTy(w, file, u, steps, seen, fuel - 1, n - 1);
      case Indexed(u, index) =>
        if index.Some? { StableTy(w, file, u, [Member(index.value)] + steps, seen, fuel - 1, n - 1); }
      case Reference(head, qualified, args) =>
        if head in PASSTHROUGH && args != [] {
          StableTy(w, file, args[0], steps, seen, fuel - 1, n - 1);
        } else if head in ARRAYS && args != [] {
          if steps[0].Element? { StableTy(w, file, args[0], steps[1..], seen, fuel - 1, n - 1); }
        } else if !qualified {
          StableName(w, file, head, steps, seen, fuel - 1, n - 1);
        }
      case Opaque =>
    }
  }

  lemma {:induction false} StableProp(
    w: World, file: FileId, p: Option<Prop>, steps: seq<Step>, seen: set<Key>, fuel: nat, n: nat)
    requires steps != []
             && (p.Some? ==> p.value.Property? && !LookupProp(w, file, p.value.ty, steps, seen, fuel).OutOfFuel?)
    ensures LongestProp(w, file, p, steps, seen, n) <= LongestProp(w, file, p, steps, seen, fuel)
    decreases fuel, 0
  {
    if p.Some? && |steps| > 1 && p.value.ty.Some? && n > 0 {
      StableTy(w, file, p.value.ty.value, steps[1..], seen, fuel - 1, n - 1);
    }
  }

  lemma {:induction false} StableName(
    w: World, file: FileId, name: string, steps: seq<Step>, seen: set<Key>, fuel: nat, n: nat)
    requires !LookupName(w, file, name, steps, seen, fuel).OutOfFuel?
    ensures LongestName(w, file, name, steps, seen, n) <= LongestName(w, file, name, steps, seen, fuel)
    decreases fuel, 2
  {
    var r := Resolve(w, file, name);
    if r.Known? { StableDecl(w, r.id, steps, seen, fuel, n); }
  }

  lemma {:induction false} StableDecl(w: World, id: DeclId, steps: seq<Step>, seen: set<Key>, fuel: nat, n: nat)
    requires id in w.decls && !LookupDecl(w, id, steps, seen, fuel).OutOfFuel?
    ensures LongestDecl(w, id, steps, seen, n) <= LongestDecl(w, id, steps, seen, fuel)
    decreases fuel, 1
  {
    if steps != [] && !w.decls[id].Enum? && (id, |steps|) !in seen && n > 0 {
      var seen' := seen + {(id, |steps|)};
      match w.decls[id]
      case Alias(_, body) => StableTy(w, id.file, body, steps, seen', fuel - 1, n - 1);
      case Interface(_, ms, bases) =>
        if steps[0].Member? {
          var own := Visible(ms, steps[0].name);
          if own.Some? {
            StableProp(w, id.file, own, steps, seen', fuel, n);
          } else {
            StableBases(w, id.file, bases, steps, seen', fuel - 1, n - 1);
          }
        }
    }
  }

  lemma {:induction false} StableEach(
    w: World, file: FileId, ts: seq<Ty>, steps: seq<Step>, seen: set<Key>, fuel: nat, n: nat)
    requires !LookupEach(w, file, ts, steps, seen, fuel).AllOutOfFuel?
    ensures LongestEach(w, file, ts, steps, seen, n) <= LongestEach(w, file, ts, steps, seen, fuel)
    decreases fuel, 4, |ts|
  {
    if ts != [] {
      StableTy(w, file, ts[0], steps, seen, fuel, n);
      var e, e' := LookupTy(w, file, ts[0], steps, seen, fuel), LookupTy(w, file, ts[0], steps, seen, n);
      if e'.Value? {
        if fuel <= n {
          MoreFuelTy(w, file, ts[0], steps, seen, fuel, n - fuel);
        } else {
          MoreFuelTy(w, file, ts[0], steps, seen, n, fuel - n);
        }
        StableEach(w, file, ts[1..], steps, e.seen, fuel, n);
      }
    }
  }

  lemma SameBase(w: World, file: FileId, base: Base, steps: seq<Step>, seen: set<Key>, fuel: nat, n: nat)
    requires !LookupBase(w, file, base, steps, seen, fuel).OutOfFuel?
             && !LookupBase(w, file, base, steps, seen, n).OutOfFuel?
    ensures LookupBase(w, file, base, steps, seen, fuel) == LookupBase(w, file, base, steps, seen, n)
  {
    if base.Named? {
      if fuel <= n {
        MoreFuelName(w, file, base.name, steps, seen, fuel, n - fuel);
      } else {
        MoreFuelName(w, file, base.name, steps, seen, n, fuel - n);
      }
    }
  }

  lemma {:induction false} StableBases(
    w: World, file: FileId, bases: seq<Base>, steps: seq<Step>, seen: set<Key>, fuel: nat, n: nat)
    requires !LookupBases(w, file, bases, steps, seen, fuel).AllOutOfFuel?
    ensures LongestBases(w, file, bases, steps, seen, n) <= LongestBases(w, file, bases, steps, seen, fuel)
    decreases fuel, 4, |bases|
  {
    if bases != [] {
      if bases[0].Named? { StableName(w, file, bases[0].name, steps, seen, fuel, n); }
      var e, e' := LookupBase(w, file, bases[0], steps, seen, fuel), LookupBase(w, file, bases[0], steps, seen, n);
      if e'.Value? {
        SameBase(w, file, bases[0], steps, seen, fuel, n);
        StableBases(w, file, bases[1..], steps, e.seen, fuel, n);
      }
    }
  }

  // ---------------------------------------------------------------- exactly when it ends

  /** However much fuel, no declaration is entered with a longer path. */
  ghost predicate Bounded(w: World, id: DeclId, steps: seq<Step>, top: nat)
    requires id in w.decls
  {
    forall fuel: nat :: LongestDecl(w, id, steps, {}, fuel) <= top
  }

  /** Fuel that is enough for paths up to `top`. */
  lemma BoundedEnds(w: World, id: DeclId, steps: seq<Step>, top: nat) returns (fuel: nat)
    requires id in w.decls && Bounded(w, id, steps, top)
    ensures !LookupDecl(w, id, steps, {}, fuel).OutOfFuel?
  {
    var k := ShallowExists(w, w.decls.Keys);
    fuel := Unspent(w, top, {}, k);
    HaltsDecl(w, k, top, id, steps, {}, fuel, fuel);
  }

  /** `lookupPath` ends, on a graph of any shape, if and only if its path does not grow without bound. */
  lemma TerminatesIff(w: World, id: DeclId, steps: seq<Step>)
    requires id in w.decls
    ensures (exists fuel: nat :: !LookupDecl(w, id, steps, {}, fuel).OutOfFuel?)
            <==> exists top: nat :: Bounded(w, id, steps, top)
  {
    if fuel: nat :| !LookupDecl(w, id, steps, {}, fuel).OutOfFuel? {
      forall n: nat ensures LongestDecl(w, id, steps, {}, n) <= LongestDecl(w, id, steps, {}, fuel) {
        StableDecl(w, id, steps, {}, fuel, n);
      }
      assert Bounded(w, id, steps, LongestDecl(w, id, steps, {}, fuel));
    }
    if top: nat :| Bounded(w, id, steps, top) {
      var fuel := BoundedEnds(w, id, steps, top);
    }
  }
}
