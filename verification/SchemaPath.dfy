/** Schema key paths (`agents[].id`): the writer in `walkSchemaExpr` and the reader `parsePath`. */
module SchemaPath {
  import opened TypeLookup

  /** A key followed by a number of array hops. */
  datatype Seg = Seg(name: string, hops: nat)

  const HOP := "[]"

  predicate EndsInHop(s: string) {
    |s| >= 2 && s[|s| - 2..] == HOP
  }

  function Hops(n: nat): (s: string)
    ensures |s| == 2 * n
  {
    if n == 0 then "" else Hops(n - 1) + HOP
  }

  /** The path the schema walk spells for a chain of keys and array compositions. */
  function Render(segs: seq<Seg>): string
    requires segs != []
  {
    var first := segs[0].name + Hops(segs[0].hops);
    if |segs| == 1 then first else first + "." + Render(segs[1..])
  }

  function StepsOf(segs: seq<Seg>): seq<Step> {
    if segs == [] then [] else [Member(segs[0].name)] + Elements(segs[0].hops) + StepsOf(segs[1..])
  }

  function Elements(n: nat): (s: seq<Step>)
    ensures |s| == n && forall i | 0 <= i < n :: s[i] == Element
  {
    if n == 0 then [] else Elements(n - 1) + [Element]
  }

  /** String.split('.') */
  function Split(path: string): (parts: seq<string>)
    ensures parts != []
    ensures forall p | p in parts :: '.' !in p
  {
    if path == "" then [""]
    else
      var rest := Split(path[1..]);
      if path[0] == '.' then [""] + rest else [[path[0]] + rest[0]] + rest[1..]
  }

  /** Strip trailing hops until none is left. */
  function Strip(part: string): Seg
    decreases |part|
  {
    if EndsInHop(part) then
      var seg := Strip(part[..|part| - 2]);
      Seg(seg.name, seg.hops + 1)
    else
      Seg(part, 0)
  }

  lemma {:induction false} StripIs(part: string)
    ensures !EndsInHop(Strip(part).name) && part == Strip(part).name + Hops(Strip(part).hops)
    decreases |part|
  {
    if EndsInHop(part) {
      assert part == part[..|part| - 2] + HOP;
      StripIs(part[..|part| - 2]);
    }
  }

  function StripAll(parts: seq<string>): (segs: seq<Seg>)
    ensures |segs| == |parts| && forall i | 0 <= i < |parts| :: segs[i] == Strip(parts[i])
  {
    if parts == [] then [] else [Strip(parts[0])] + StripAll(parts[1..])
  }

  /** A key name the path syntax can carry. */
  predicate PlainName(name: string) {
    '.' !in name && !EndsInHop(name)
  }

  lemma {:induction false} StripPlain(name: string, hops: nat)
    requires !EndsInHop(name)
    ensures Strip(name + Hops(hops)) == Seg(name, hops)
  {
    StripBase(name);
    hide Strip, EndsInHop;
    OneHopMore(name, hops);
    hide Hops;
    if hops > 0 {
      Unhop(name + Hops(hops - 1));
      StripPlain(name, hops - 1);
    }
  }

  lemma OneHopMore(name: string, hops: nat)
    ensures name + Hops(hops) == if hops == 0 then name else (name + Hops(hops - 1)) + HOP
  {
  }

  lemma StripBase(name: string)
    requires !EndsInHop(name)
    ensures Strip(name) == Seg(name, 0)
  {
  }

  lemma Unhop(s: string)
    ensures EndsInHop(s + HOP) && Strip(s + HOP) == Seg(Strip(s).name, Strip(s).hops + 1)
  {
    assert (s + HOP)[|s|..] == HOP && (s + HOP)[..|s|] == s;
  }

  lemma {:induction false} NoDotInHops(n: nat)
    ensures '.' !in Hops(n)
  {
    if n > 0 { NoDotInHops(n - 1); }
  }

  lemma {:induction false} SplitAtDot(a: string, b: string)
    requires '.' !in a
    ensures Split(a) == [a]
    ensures Split(a + "." + b) == [a] + Split(b)
  {
    var whole := a + "." + b;
    if a == "" {
      assert whole[1..] == b;
    } else {
      assert whole[1..] == a[1..] + "." + b;
      SplitAtDot(a[1..], b);
      assert [a[0]] + a[1..] == a;
    }
  }

  lemma {:induction false} ParseRender(segs: seq<Seg>)
    requires segs != [] && forall s | s in segs :: PlainName(s.name)
    ensures StripAll(Split(Render(segs))) == segs
  {
    var first := segs[0].name + Hops(segs[0].hops);
    NoDotInHops(segs[0].hops);
    StripPlain(segs[0].name, segs[0].hops);
    assert segs == [segs[0]] + segs[1..];
    if |segs| == 1 {
      SplitAtDot(first, "");
    } else {
      SplitAtDot(first, Render(segs[1..]));
      ParseRender(segs[1..]);
      assert StripAll([first] + Split(Render(segs[1..])))
          == [Strip(first)] + StripAll(Split(Render(segs[1..])));
    }
  }

  lemma {:induction false} StepsInjective(a: seq<Seg>, b: seq<Seg>)
    requires StepsOf(a) == StepsOf(b)
    ensures a == b
  {
    if a != [] && b != [] {
      var x, y := StepsOf(a), StepsOf(b);
      assert x[0] == y[0];
      StepsAfterHops(a);
      StepsAfterHops(b);
      var m, n := a[0].hops, b[0].hops;
      assert m == n;
      assert StepsOf(a[1..]) == x[1 + m..] == y[1 + n..] == StepsOf(b[1..]);
      StepsInjective(a[1..], b[1..]);
      assert a == [a[0]] + a[1..] && b == [b[0]] + b[1..];
    }
  }

  lemma StepsAfterHops(a: seq<Seg>)
    requires a != []
    ensures var x := StepsOf(a); var m := a[0].hops;
            && |x| >= 1 + m && x[1 + m..] == StepsOf(a[1..])
            && (forall i | 1 <= i < 1 + m :: x[i] == Element)
            && (|x| > 1 + m ==> x[1 + m].Member?)
  {
  }

  /**
   * `parsePath` reads back the path the schema walk wrote exactly when every key is free of dots
   * and does not itself end in `[]`; any other key is taken apart into different steps.
   */
  lemma ParseRoundTripIff(segs: seq<Seg>)
    requires segs != []
    ensures StepsOf(StripAll(Split(Render(segs)))) == StepsOf(segs)
            <==> forall s | s in segs :: PlainName(s.name)
  {
    var parts := Split(Render(segs));
    var read := StripAll(parts);
    if forall s | s in segs :: PlainName(s.name) { ParseRender(segs); }
    if StepsOf(read) == StepsOf(segs) {
      StepsInjective(read, segs);
      forall s | s in segs ensures PlainName(s.name) {
        var i :| 0 <= i < |read| && read[i] == s;
        assert parts[i] in parts;
        StripIs(parts[i]);
      }
    }
  }

  lemma StepsOfFirst(parts: seq<string>)
    requires parts != []
    ensures StepsOf(StripAll(parts)) ==
            [Member(Strip(parts[0]).name)] + Elements(Strip(parts[0]).hops) + StepsOf(StripAll(parts[1..]))
  {
  }

  method StripHops(part: string) returns (seg: Seg)
    ensures seg == Strip(part)
  {
    var name, arrays := part, 0;
    while EndsInHop(name)
      invariant Strip(part) == Seg(Strip(name).name, Strip(name).hops + arrays)
      decreases |name|
    {
      name := name[..|name| - 2];
      arrays := arrays + 1;
    }
    seg := Seg(name, arrays);
  }

  method ParsePath(path: string) returns (steps: seq<Step>)
    ensures steps == StepsOf(StripAll(Split(path)))
  {
    hide Strip, StripAll, StepsOf;
    steps := [];
    var parts := Split(path);
    var n := 0;
    assert parts[0..] == parts;
    while n < |parts|
      invariant 0 <= n <= |parts|
      invariant steps + StepsOf(StripAll(parts[n..])) == StepsOf(StripAll(parts))
    {
      assert parts[n..][0] == parts[n] && parts[n..][1..] == parts[n + 1..];
      StepsOfFirst(parts[n..]);
      var seg := StripHops(parts[n]);
      ghost var before := steps;
      steps := steps + [Member(seg.name)];
      var i := 0;
      while i < seg.hops
        invariant 0 <= i <= seg.hops
        invariant steps == before + [Member(seg.name)] + Elements(i)
      {
        steps := steps + [Element];
        i := i + 1;
      }
      n := n + 1;
    }
    StepsOfNone();
    assert parts[n..] == [] && steps + [] == steps;
  }

  lemma StepsOfNone()
    ensures StepsOf(StripAll([])) == []
  {
  }

  /** How a path is spelled, and what its steps are: a key, its hops, and so on behind a dot. */
  lemma PathIs(name: string, hops: nat, rest: seq<Seg>)
    ensures Render([Seg(name, 0)]) == name && Render([Seg(name, hops + 1)]) == Render([Seg(name, hops)]) + "[]"
    ensures rest != [] ==> Render([Seg(name, hops)] + rest) == Render([Seg(name, hops)]) + "." + Render(rest)
    ensures StepsOf([Seg(name, 0)]) == [Member(name)]
    ensures StepsOf([Seg(name, hops + 1)]) == StepsOf([Seg(name, hops)]) + [Element]
    ensures StepsOf([Seg(name, hops)] + rest) == StepsOf([Seg(name, hops)]) + StepsOf(rest)
  {
    var none: seq<Seg> := [];
    assert StepsOf(none) == [] && name + "" == name;
    assert [Seg(name, 0)][1..] == none && [Seg(name, hops)][1..] == none && [Seg(name, hops + 1)][1..] == none;
    assert ([Seg(name, hops)] + rest)[1..] == rest;
    assert name + (Hops(hops) + HOP) == (name + Hops(hops)) + "[]";
    assert [Member(name)] + (Elements(hops) + [Element]) == ([Member(name)] + Elements(hops)) + [Element];
  }
}
