/** `lookupPath` as it runs: recursive calls that all update one shared `seen` set. */
module TypeWalk {
  import opened Prelude
  import opened TypeLookup
  import opened TypeMeaning
  import opened TypeTruth
  import opened TypeBlindSpots
  import opened TypePrecision
  import opened TypeSoundness

  class Walker {
    const w: World
    var seen: set<Key>

    constructor (w: World)
      ensures this.w == w && seen == {}
    {
      this.w := w;
      seen := {};
    }

    ghost predicate Follows(r: Result<PathLookup, ()>, e: Eval)
      reads this
    {
      match e
      case OutOfFuel => false
      case Threw => r == Err(())
      case Value(v, s) => r == Ok(v) && seen == s
    }

    ghost predicate FollowsAll(r: Result<seq<PathLookup>, ()>, e: EvalAll)
      reads this
    {
      match e
      case AllOutOfFuel => false
      case AllThrew => r == Err(())
      case Values(vs, s) => r == Ok(vs) && seen == s
    }

    method WalkProp(file: FileId, p: Prop, steps: seq<Step>, ghost fuel: nat) returns (r: Result<PathLookup, ()>)
      requires steps != [] && p.Property?
      requires !LookupProp(w, file, p.ty, steps, seen, fuel).OutOfFuel?
      modifies this`seen
      ensures Follows(r, LookupProp(w, file, p.ty, steps, old(seen), fuel))
      decreases fuel, 0
    {
      if |steps| == 1 { return Ok(Found); }
      if p.ty.None? { return Ok(Unknown); }
      r := WalkTy(file, p.ty.value, steps[1..], fuel - 1);
    }

    method WalkTy(file: FileId, t: Ty, steps: seq<Step>, ghost fuel: nat) returns (r: Result<PathLookup, ()>)
      requires !LookupTy(w, file, t, steps, seen, fuel).OutOfFuel?
      modifies this`seen
      ensures Follows(r, LookupTy(w, file, t, steps, old(seen), fuel))
      decreases fuel, 1
    {
      if steps == [] { return Ok(Found); }
      match t
      case Literal(ms) =>
        if steps[0].Element? { return Ok(Unknown); }
        var p := Visible(ms, steps[0].name);
        if p.None? { return Ok(Missing); }
        r := WalkProp(file, p.value, steps, fuel);
      case Paren(u) => r := WalkTy(file, u, steps, fuel - 1);
      case Intersection(ts) =>
        var rs := WalkEach(file, ts, steps, fuel - 1);
        r := if rs.Ok? then Ok(Combine(rs.value)) else Err(());
      case Union(ts) =>
        var rs := WalkEach(file, ts, steps, fuel - 1);
        r := if rs.Ok? then Ok(Agree(rs.value)) else Err(());
      case ArrayOf(u) =>
        if steps[0].Member? { return Ok(Unknown); }
        r := WalkTy(file, u, steps[1..], fuel - 1);
      case Operator(_, u) => r := WalkTy(file, u, steps, fuel - 1);
      case Indexed(u, index) =>
        if index.None? { return Ok(Unknown); }
        r := WalkTy(file, u, [Member(index.value)] + steps, fuel - 1);
      case Reference(head, qualified, args) =>
        if head in PASSTHROUGH && args != [] {
          r := WalkTy(file, args[0], steps, fuel - 1);
        } else if head in ARRAYS && args != [] {
          if steps[0].Member? { return Ok(Unknown); }
          r := WalkTy(file, args[0], steps[1..], fuel - 1);
        } else if qualified {
          r := Ok(Unknown);
        } else {
          r := WalkName(file, head, steps, fuel - 1);
        }
      case Opaque => r := Ok(Unknown);
    }

    method WalkName(file: FileId, name: string, steps: seq<Step>, ghost fuel: nat) returns (r: Result<PathLookup, ()>)
      requires !LookupName(w, file, name, steps, seen, fuel).OutOfFuel?
      modifies this`seen
      ensures Follows(r, LookupName(w, file, name, steps, old(seen), fuel))
      decreases fuel, 2
    {
      match Resolve(w, file, name)
      case OutOfReach => r := Ok(Unknown);
      case Unreadable => r := Err(());
      case Known(id) => r := WalkDecl(id, steps, fuel);
    }

    method WalkDecl(id: DeclId, steps: seq<Step>, ghost fuel: nat) returns (r: Result<PathLookup, ()>)
      requires id in w.decls
      requires !LookupDecl(w, id, steps, seen, fuel).OutOfFuel?
      modifies this`seen
      ensures Follows(r, LookupDecl(w, id, steps, old(seen), fuel))
      decreases fuel, 1
    {
      if steps == [] { return Ok(Found); }
      if w.decls[id].Enum? { return Ok(Unknown); }
      if (id, |steps|) in seen { return Ok(Unknown); }
      seen := seen + {(id, |steps|)};
      match w.decls[id]
      case Enum =>
      case Alias(_, body) => r := WalkTy(id.file, body, steps, fuel - 1);
      case Interface(_, ms, bases) =>
        if steps[0].Element? { return Ok(Unknown); }
        var p := Visible(ms, steps[0].name);
        if p.Some? {
          r := WalkProp(id.file, p.value, steps, fuel);
        } else {
          var rs := WalkBases(id.file, bases, steps, fuel - 1);
          r := if rs.Ok? then Ok(Combine(rs.value)) else Err(());
        }
    }

    method WalkEach(
      file: FileId, ts: seq<Ty>, steps: seq<Step>, ghost fuel: nat) returns (r: Result<seq<PathLookup>, ()>)
      requires !LookupEach(w, file, ts, steps, seen, fuel).AllOutOfFuel?
      modifies this`seen
      ensures FollowsAll(r, LookupEach(w, file, ts, steps, old(seen), fuel))
      decreases fuel, 4, |ts|
    {
      var rs := [];
      var i := 0;
      hide LookupTy;
      ghost var whole := LookupEach(w, file, ts, steps, seen, fuel);
      while i < |ts|
        invariant 0 <= i <= |ts|
        invariant !LookupEach(w, file, ts[i..], steps, seen, fuel).AllOutOfFuel?
        invariant whole == PrependAll(rs, LookupEach(w, file, ts[i..], steps, seen, fuel))
      {
        var here := WalkTy(file, ts[i], steps, fuel);
        assert ts[i..][1..] == ts[i + 1..];
        if here.Err? { return Err(()); }
        rs := rs + [here.value];
        i := i + 1;
      }
      assert rs + [] == rs;
      r := Ok(rs);
    }

    method WalkBase(file: FileId, base: Base, steps: seq<Step>, ghost fuel: nat) returns (r: Result<PathLookup, ()>)
      requires !LookupBase(w, file, base, steps, seen, fuel).OutOfFuel?
      modifies this`seen
      ensures Follows(r, LookupBase(w, file, base, steps, old(seen), fuel))
      decreases fuel, 3
    {
      match base
      case Computed => r := Ok(Unknown);
      case Named(name, _) => r := WalkName(file, name, steps, fuel);
    }

    method WalkBases(
      file: FileId, bases: seq<Base>, steps: seq<Step>, ghost fuel: nat) returns (r: Result<seq<PathLookup>, ()>)
      requires !LookupBases(w, file, bases, steps, seen, fuel).AllOutOfFuel?
      modifies this`seen
      ensures FollowsAll(r, LookupBases(w, file, bases, steps, old(seen), fuel))
      decreases fuel, 4, |bases|
    {
      var rs := [];
      var i := 0;
      hide LookupBase, LookupName, LookupDecl;
      ghost var whole := LookupBases(w, file, bases, steps, seen, fuel);
      while i < |bases|
        invariant 0 <= i <= |bases|
        invariant !LookupBases(w, file, bases[i..], steps, seen, fuel).AllOutOfFuel?
        invariant whole == PrependAll(rs, LookupBases(w, file, bases[i..], steps, seen, fuel))
      {
        var here := WalkBase(file, bases[i], steps, fuel);
        assert bases[i..][0] == bases[i] && bases[i..][1..] == bases[i + 1..];
        if here.Err? { return Err(()); }
        rs := rs + [here.value];
        i := i + 1;
      }
      assert rs + [] == rs;
      r := Ok(rs);
    }
  }

  ghost function PrependAll(rs: seq<PathLookup>, e: EvalAll): EvalAll {
    if e.Values? then Values(rs + e.rs, e.seen) else e
  }

  /**
   * One check of a path against the declaration a name resolves to, with a fresh `seen` set, given
   * that it ends: the answer `missing` is given exactly to absent paths on which no key repeats, and
   * without a repeat every answer is the truth of the walk's reading; a path reported missing can be
   * there exactly if it is hidden, and a path found is there in the walk's reading, and truly exactly
   * if not all of that overstates.
   */
  method LookupPath(w: World, file: FileId, name: string, steps: seq<Step>, ghost fuel: nat)
    returns (r: Result<PathLookup, ()>)
    requires Resolve(w, file, name).Known? && steps != []
    requires !LookupName(w, file, name, steps, {}, fuel).OutOfFuel?
    ensures var id := Resolve(w, file, name).id;
            r.Ok? ==> (r.value == Missing <==> Absent(w, id, steps) && NoRepeat(w, id, steps, fuel))
    ensures var id := Resolve(w, file, name).id;
            r.Ok? && NoRepeat(w, id, steps, fuel) ==>
              r.value == Verdict(MustDecl(w, id, steps, fuel), MayDecl(w, id, steps, fuel))
    ensures var at := NameAt(file, name);
            r == Ok(Missing) ==> forall n :: CanRef(w, at, [], steps, n) <==> HidesRef(w, at, [], steps, n)
    ensures r == Ok(Found) ==> forall n | fuel <= n :: MustName(w, file, name, steps, n)
    ensures var at := NameAt(file, name);
            r == Ok(Found) ==> forall n | fuel <= n :: HasRef(w, at, steps, n) <==> !OverstatesRef(w, at, steps, n)
    ensures r.Err? ==> !Readable(w)
  {
    var id := Resolve(w, file, name).id;
    var at := NameAt(file, name);
    var walker := new Walker(w);
    assert LookupName(w, file, name, steps, {}, fuel) == LookupDecl(w, id, steps, {}, fuel);
    hide *;
    r := walker.WalkDecl(id, steps, fuel);
    Walked(w, id, steps, fuel, r, walker);
    if r == Ok(Missing) {
      forall n ensures CanRef(w, at, [], steps, n) <==> HidesRef(w, at, [], steps, n) {
        MissingExistsIff(w, file, name, steps, {}, fuel, n);
      }
    }
    if r == Ok(Found) {
      forall n | fuel <= n
        ensures MustName(w, file, name, steps, n)
        ensures HasRef(w, at, steps, n) <==> !OverstatesRef(w, at, steps, n)
      {
        FoundTrueIff(w, file, name, steps, {}, fuel, n);
      }
    }
  }

  lemma Walked(w: World, id: DeclId, steps: seq<Step>, fuel: nat, r: Result<PathLookup, ()>, walker: Walker)
    requires id in w.decls && walker.Follows(r, LookupDecl(w, id, steps, {}, fuel))
    ensures var e := LookupDecl(w, id, steps, {}, fuel);
            r.Ok? ==> e.Value? && e.r == r.value
    ensures r.Ok? ==> (r.value == Missing <==> Absent(w, id, steps) && NoRepeat(w, id, steps, fuel))
    ensures r.Ok? && NoRepeat(w, id, steps, fuel) ==>
              r.value == Verdict(MustDecl(w, id, steps, fuel), MayDecl(w, id, steps, fuel))
    ensures r.Err? ==> !Readable(w)
  {
    hide LookupDecl, Absent, NoRepeat, Readable, MustDecl, MayDecl;
    if r.Ok? {
      MissingIff(w, id, steps, fuel);
      if NoRepeat(w, id, steps, fuel) { FreshIsExact(w, id, steps, fuel, fuel); }
    }
    if r.Err? && Readable(w) { ReadableDecl(w, id, steps, {}, fuel); }
  }
}
