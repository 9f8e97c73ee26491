/**
 * Dependency-safe package ordering (`scripts/package-graph.ts`, topoSort and comparePackages).
 * Names and groups are represented by their rank in the collation order.
 */
module TopoSort {
  import opened Prelude

  type Name = nat

  datatype Node = Node(short: Name, group: Name, deps: seq<Name>)

  const MAX_SAFE_INTEGER := 9007199254740991

  function IndexOf(order: seq<Name>, g: Name): int {
    if order == [] then -1 else if order[0] == g then 0
    else var r := IndexOf(order[1..], g); if r == -1 then -1 else r + 1
  }

  function Norm(order: seq<Name>, g: Name): int {
    var i := IndexOf(order, g);
    if i == -1 then MAX_SAFE_INTEGER else i
  }

  /** `comparePackages`: negative, zero or positive. */
  function Compare(order: seq<Name>, a: Node, b: Node): int {
    if Norm(order, a.group) != Norm(order, b.group) then Norm(order, a.group) - Norm(order, b.group)
    else if a.group != b.group then a.group - b.group
    else a.short - b.short
  }

  type Graph = map<Name, Node>

  /** `new Map(packages.map(...))`: a later package of the same short name replaces the earlier. */
  function ByShort(packages: seq<Node>): (g: Graph)
    ensures forall n | n in g :: g[n].short == n && g[n] in packages
    ensures forall p | p in packages :: p.short in g
  {
    if packages == [] then map[]
    else
      var last := packages[|packages| - 1];
      ByShort(packages[..|packages| - 1])[last.short := last]
  }

  /** Of packages with one short name the last one listed is in the graph, and nothing else is. */
  lemma {:induction false} LastOneCounts(packages: seq<Node>, i: nat)
    requires i < |packages| && forall j | i < j < |packages| :: packages[j].short != packages[i].short
    ensures packages[i].short in ByShort(packages) && ByShort(packages)[packages[i].short] == packages[i]
  {
    if i < |packages| - 1 {
      var front := packages[..|packages| - 1];
      assert forall j | i <= j < |front| :: front[j] == packages[j];
      LastOneCounts(front, i);
    }
  }

  ghost predicate Keyed(g: Graph) {
    forall n | n in g :: g[n].short == n
  }

  /** The length of the longest dependency chain below each package. */
  ghost predicate IsDepth(g: Graph, d: map<Name, nat>) {
    d.Keys == g.Keys && forall n {:trigger DepthAt(g, d, n)} | n in g :: DepthAt(g, d, n)
  }

  ghost predicate DepthAt(g: Graph, d: map<Name, nat>, n: Name)
    requires n in g && n in d
  {
    && (forall dep | dep in g[n].deps :: dep in d && d[dep] < d[n])
    && (d[n] > 0 ==> exists dep :: dep in g[n].deps && dep in d && d[dep] == d[n] - 1)
  }

  ghost predicate Before(order: seq<Name>, d: map<Name, nat>, a: Node, b: Node)
    requires a.short in d && b.short in d
  {
    d[a.short] < d[b.short] || (d[a.short] == d[b.short] && Compare(order, a, b) < 0)
  }

  /** A permutation of the packages, sorted by depth and then by `comparePackages`. */
  ghost predicate Ordered(g: Graph, order: seq<Name>, d: map<Name, nat>, out: seq<Node>)
    requires IsDepth(g, d)
  {
    && (forall p :: p in out <==> p.short in g && g[p.short] == p)
    && (forall i, j | 0 <= i < j < |out| :: Before(order, d, out[i], out[j]))
  }

  // ---------------------------------------------------------------- the comparison is a total order

  lemma CompareTotal(order: seq<Name>, a: Node, b: Node)
    ensures Compare(order, a, b) == 0 ==> a.short == b.short
    ensures Compare(order, a, b) < 0 <==> Compare(order, b, a) > 0
  {
  }

  lemma CompareTransitive(order: seq<Name>, a: Node, b: Node, c: Node)
    requires Compare(order, a, b) < 0 && Compare(order, b, c) < 0
    ensures Compare(order, a, c) < 0
  {
  }

  predicate FirstAt(order: seq<Name>, group: Name, i: nat) {
    i < |order| && order[i] == group && forall j | 0 <= j < i :: order[j] != group
  }

  lemma {:induction false} IndexOfIs(order: seq<Name>, group: Name)
    ensures IndexOf(order, group) == -1 <==> group !in order
    ensures group in order ==> IndexOf(order, group) >= 0 && FirstAt(order, group, IndexOf(order, group))
  {
    if order != [] && order[0] != group {
      IndexOfIs(order[1..], group);
      assert order == [order[0]] + order[1..];
    }
  }

  /**
   * The order of the groups as listed, by their first mention; groups that are not listed come after
   * those, by name; and within a group the packages by name.
   */
  ghost predicate Precedes(order: seq<Name>, a: Node, b: Node) {
    if a.group == b.group then a.short < b.short
    else if a.group in order && b.group in order then
      exists i: nat, j: nat :: FirstAt(order, a.group, i) && FirstAt(order, b.group, j) && i < j
    else if a.group !in order && b.group !in order then a.group < b.group
    else a.group in order
  }

  /** `comparePackages` is that order; no array is as long as the largest safe integer. */
  lemma CompareIff(order: seq<Name>, a: Node, b: Node)
    requires |order| <= MAX_SAFE_INTEGER
    ensures Compare(order, a, b) < 0 <==> Precedes(order, a, b)
  {
    IndexOfIs(order, a.group);
    IndexOfIs(order, b.group);
    if a.group in order && b.group in order && a.group != b.group {
      var i, j := IndexOf(order, a.group), IndexOf(order, b.group);
      assert forall k: nat :: FirstAt(order, a.group, k) ==> k == i;
      assert forall k: nat :: FirstAt(order, b.group, k) ==> k == j;
      assert order[i] != order[j];
    }
  }

  // ---------------------------------------------------------------- the result is unique

  lemma {:induction false} DepthUnique(g: Graph, d: map<Name, nat>, e: map<Name, nat>, n: Name)
    requires IsDepth(g, d) && IsDepth(g, e) && n in g
    ensures d[n] == e[n]
    decreases d[n]
  {
    assert DepthAt(g, d, n) && DepthAt(g, e, n);
    forall dep | dep in g[n].deps ensures dep in g && d[dep] == e[dep] { DepthUnique(g, d, e, dep); }
  }

  lemma {:induction false} SortedUnique(order: seq<Name>, d: map<Name, nat>, a: seq<Node>, b: seq<Node>)
    requires forall p :: p in a <==> p in b
    requires forall p | p in a :: p.short in d
    requires forall i, j | 0 <= i < j < |a| :: Before(order, d, a[i], a[j])
    requires forall i, j | 0 <= i < j < |b| :: Before(order, d, b[i], b[j])
    ensures a == b
  {
    assert b != [] ==> b[0] in b;
    if a != [] {
      assert a[0] in a && a[0] in b;
      assert b[0] in b && b[0] in a;
      var i :| 0 <= i < |a| && a[i] == b[0];
      var j :| 0 <= j < |b| && b[j] == a[0];
      assert a[0] == b[0];
      forall p ensures p in a[1..] <==> p in b[1..] {
        RestOf(order, d, a, p);
        RestOf(order, d, b, p);
      }
      SortedUnique(order, d, a[1..], b[1..]);
      assert a == [a[0]] + a[1..] && b == [b[0]] + b[1..];
    }
  }

  lemma RestOf(order: seq<Name>, d: map<Name, nat>, a: seq<Node>, p: Node)
    requires a != [] && forall q | q in a :: q.short in d
    requires forall i, j | 0 <= i < j < |a| :: Before(order, d, a[i], a[j])
    ensures p in a[1..] <==> p in a && p != a[0]
  {
    if p in a && p != a[0] {
      var i :| 0 <= i < |a| && a[i] == p;
      assert a[1..][i - 1] == p;
    }
    if p in a[1..] {
      var i :| 0 <= i < |a[1..]| && a[1..][i] == p;
      assert Before(order, d, a[0], a[i + 1]);
    }
  }

  /** The order of the input, and anything else, cannot change the output. */
  lemma OutputUnique(g: Graph, order: seq<Name>, d: map<Name, nat>, e: map<Name, nat>, a: seq<Node>, b: seq<Node>)
    requires IsDepth(g, d) && IsDepth(g, e) && Ordered(g, order, d, a) && Ordered(g, order, e, b)
    ensures a == b
  {
    forall n | n in g ensures d[n] == e[n] { DepthUnique(g, d, e, n); }
    assert d == e;
    SortedUnique(order, d, a, b);
  }

  /** Listing the same packages in another order gives the same graph. */
  lemma InputOrderFree(a: seq<Node>, b: seq<Node>)
    requires forall p :: p in a <==> p in b
    requires forall p, q | p in a && q in a && p.short == q.short :: p == q
    ensures ByShort(a) == ByShort(b)
  {
    var g, h := ByShort(a), ByShort(b);
    forall n | n in g ensures n in h && h[n] == g[n] { assert g[n] in b; }
    forall n | n in h ensures n in g { assert h[n] in a; }
  }

  /** Every dependency comes before its dependents. */
  lemma DependenciesFirst(g: Graph, order: seq<Name>, d: map<Name, nat>, out: seq<Node>, i: nat, dep: Name)
    requires Keyed(g) && IsDepth(g, d) && Ordered(g, order, d, out) && i < |out| && dep in out[i].deps
    ensures exists j :: 0 <= j < i && out[j].short == dep
  {
    assert out[i] in out && DepthAt(g, d, out[i].short);
    assert d[dep] < d[out[i].short];
    assert g[dep] in out;
    var j :| 0 <= j < |out| && out[j] == g[dep];
    DepthsRise(g, order, d, out, i, j);
  }

  /** And of two packages of one depth the one that precedes comes first. */
  lemma WithinLayer(g: Graph, order: seq<Name>, d: map<Name, nat>, out: seq<Node>, i: nat, j: nat)
    requires IsDepth(g, d) && Ordered(g, order, d, out) && i < j < |out| && |order| <= MAX_SAFE_INTEGER
    ensures out[i].short in d && out[j].short in d
    ensures d[out[i].short] == d[out[j].short] ==> Precedes(order, out[i], out[j])
  {
    assert out[i] in out && out[j] in out && Before(order, d, out[i], out[j]);
    CompareIff(order, out[i], out[j]);
  }

  lemma DepthsRise(g: Graph, order: seq<Name>, d: map<Name, nat>, out: seq<Node>, i: nat, j: nat)
    requires IsDepth(g, d) && Ordered(g, order, d, out) && i < |out| && j < |out|
    ensures out[i].short in d && out[j].short in d && (i <= j ==> d[out[i].short] <= d[out[j].short])
  {
    assert out[i] in out && out[j] in out;
    assert i < j ==> Before(order, d, out[i], out[j]);
  }

  // ---------------------------------------------------------------- cycles and missing packages

  /** A chain of dependencies, each package of it known, that runs into a gap or into itself. */
  ghost predicate DeadEnd(g: Graph, walk: seq<Name>) {
    && Walk(g, walk) && |walk| >= 2
    && (walk[|walk| - 1] !in g || walk[|walk| - 1] in walk[..|walk| - 1])
  }

  ghost predicate Walk(g: Graph, walk: seq<Name>)
    decreases |walk|
  {
    var n := |walk|;
    n > 0 && (n > 1 ==> walk[n - 2] in g && walk[n - 1] in g[walk[n - 2]].deps && Walk(g, walk[..n - 1]))
  }

  /** No package of `stuck` can be placed: each depends on one of them or on a missing one. */
  ghost predicate Stuck(g: Graph, stuck: set<Name>) {
    && stuck != {} && stuck <= g.Keys
    && forall n {:trigger Waits(g, stuck, n)} | n in stuck :: Waits(g, stuck, n)
  }

  /** `n` depends on a package of `stuck` or on one outside the graph. */
  ghost predicate Waits(g: Graph, stuck: set<Name>, n: Name)
    requires n in g
  {
    exists dep :: dep in g[n].deps && (dep in stuck || dep !in g)
  }

  lemma {:induction false} WalkFalls(g: Graph, d: map<Name, nat>, walk: seq<Name>, i: nat)
    requires IsDepth(g, d) && Walk(g, walk) && i < |walk| - 1
    ensures walk[|walk| - 1] in g && walk[i] in g && d[walk[|walk| - 1]] < d[walk[i]]
    decreases |walk|
  {
    hide IsDepth, Walk;
    var n, front := |walk|, walk[..|walk| - 1];
    LastEdge(g, walk);
    EdgeFalls(g, d, walk[n - 2], walk[n - 1]);
    assert front[|front| - 1] == walk[n - 2] && front[i] == walk[i];
    if i < n - 2 { WalkFalls(g, d, front, i); }
  }

  lemma LastEdge(g: Graph, walk: seq<Name>)
    requires Walk(g, walk) && |walk| >= 2
    ensures Walk(g, walk[..|walk| - 1])
    ensures walk[|walk| - 2] in g && walk[|walk| - 1] in g[walk[|walk| - 2]].deps
  {
  }

  lemma EdgeFalls(g: Graph, d: map<Name, nat>, n: Name, dep: Name)
    requires IsDepth(g, d) && n in g && dep in g[n].deps
    ensures n in d && dep in d && dep in g && d[dep] < d[n]
  {
    assert DepthAt(g, d, n);
  }

  lemma {:induction false} WalkPrefix(g: Graph, walk: seq<Name>, n: nat)
    requires Walk(g, walk) && 0 < n <= |walk|
    ensures Walk(g, walk[..n])
    decreases |walk|
  {
    if n < |walk| {
      WalkPrefix(g, walk[..|walk| - 1], n);
      assert walk[..|walk| - 1][..n] == walk[..n];
    } else {
      assert walk[..n] == walk;
    }
  }

  lemma NoDeadEnd(g: Graph, d: map<Name, nat>, walk: seq<Name>)
    requires IsDepth(g, d)
    ensures !DeadEnd(g, walk)
  {
    hide IsDepth, Walk;
    if Walk(g, walk) && |walk| >= 2 {
      var last := |walk| - 1;
      WalkFalls(g, d, walk, 0);
      if walk[last] in walk[..last] {
        var i :| 0 <= i < last && walk[i] == walk[last];
        WalkFalls(g, d, walk, i);
      }
    }
  }

  lemma WalkMore(g: Graph, walk: seq<Name>, dep: Name)
    requires Walk(g, walk) && walk[|walk| - 1] in g && dep in g[walk[|walk| - 1]].deps
    ensures Walk(g, walk + [dep])
    ensures dep !in g ==> DeadEnd(g, walk + [dep])
  {
    assert (walk + [dep])[..|walk|] == walk;
  }

  /** Walking inside `stuck` either leaves the graph or goes on for ever. */
  lemma {:induction false} StuckWalk(g: Graph, stuck: set<Name>, n: nat) returns (walk: seq<Name>)
    requires Stuck(g, stuck)
    ensures Walk(g, walk) && walk != []
    ensures DeadEnd(g, walk) || (|walk| == n + 1 && forall i | 0 <= i < |walk| :: walk[i] in stuck)
  {
    if n == 0 {
      var p :| p in stuck;
      walk := [p];
    } else {
      walk := StuckWalk(g, stuck, n - 1);
      hide Walk, DeadEnd;
      if !DeadEnd(g, walk) {
        var p := walk[|walk| - 1];
        assert Waits(g, stuck, p);
        var dep :| dep in g[p].deps && (dep in stuck || dep !in g);
        WalkMore(g, walk, dep);
        walk := walk + [dep];
      }
    }
  }

  lemma {:induction false} NoRepeatIsShort(walk: seq<Name>, s: set<Name>)
    requires forall i | 0 <= i < |walk| :: walk[i] in s
    requires forall i, j | 0 <= i < j < |walk| :: walk[i] != walk[j]
    ensures |walk| <= |s|
  {
    if walk != [] {
      var last := walk[|walk| - 1];
      NoRepeatIsShort(walk[..|walk| - 1], s - {last});
    }
  }

  lemma Repeats(walk: seq<Name>, s: set<Name>) returns (i: nat, j: nat)
    requires |walk| > |s| && forall k | 0 <= k < |walk| :: walk[k] in s
    ensures i < j < |walk| && walk[i] == walk[j]
  {
    if forall k, l | 0 <= k < l < |walk| :: walk[k] != walk[l] {
      NoRepeatIsShort(walk, s);
    }
    i, j :| 0 <= i < j < |walk| && walk[i] == walk[j];
  }

  lemma StuckHasDeadEnd(g: Graph, stuck: set<Name>)
    requires Stuck(g, stuck)
    ensures exists walk :: DeadEnd(g, walk)
  {
    var walk := StuckWalk(g, stuck, |stuck|);
    hide Walk, Stuck, DeadEnd;
    if !DeadEnd(g, walk) {
      var i, j := Repeats(walk, stuck);
      CutAtRepeat(g, walk, i, j);
    }
  }

  lemma CutAtRepeat(g: Graph, walk: seq<Name>, i: nat, j: nat)
    requires i < j < |walk| && walk[i] == walk[j] && Walk(g, walk)
    ensures DeadEnd(g, walk[..j + 1])
  {
    hide Walk;
    WalkPrefix(g, walk, j + 1);
    var loop := walk[..j + 1];
    assert loop[|loop| - 1] == walk[j] && loop[..|loop| - 1][i] == walk[i];
  }

  // ---------------------------------------------------------------- the layered sort

  function Shorts(nodes: seq<Node>): set<Name> {
    set p | p in nodes :: p.short
  }

  /** `ready.sort(comparePackages)`: any order the set comes in, sorted. */
  method SortReady(ready: set<Node>, order: seq<Name>) returns (out: seq<Node>)
    requires forall a, b | a in ready && b in ready && a.short == b.short :: a == b
    ensures forall p :: p in out <==> p in ready
    ensures forall i, j | 0 <= i < j < |out| :: Compare(order, out[i], out[j]) < 0
  {
    var rest := ready;
    out := [];
    while rest != {}
      invariant rest <= ready
      invariant forall p :: p in out <==> p in ready - rest
      invariant forall i, j | 0 <= i < j < |out| :: Compare(order, out[i], out[j]) < 0
    {
      var p :| p in rest;
      rest := rest - {p};
      var k := 0;
      while k < |out| && Compare(order, out[k], p) < 0
        invariant 0 <= k <= |out|
        invariant forall i | 0 <= i < k :: Compare(order, out[i], p) < 0
      {
        k := k + 1;
      }
      InsertSorted(order, out, p, k);
      out := out[..k] + [p] + out[k..];
    }
  }

  lemma InsertSorted(order: seq<Name>, out: seq<Node>, p: Node, k: nat)
    requires k <= |out| && forall i, j | 0 <= i < j < |out| :: Compare(order, out[i], out[j]) < 0
    requires forall i | 0 <= i < k :: Compare(order, out[i], p) < 0
    requires k < |out| ==> Compare(order, out[k], p) >= 0
    requires forall q | q in out :: q.short != p.short
    ensures var r := out[..k] + [p] + out[k..];
            && (forall i, j | 0 <= i < j < |r| :: Compare(order, r[i], r[j]) < 0)
            && forall q :: q in r <==> q in out || q == p
  {
    var r := out[..k] + [p] + out[k..];
    forall i | k <= i < |out| ensures Compare(order, p, out[i]) < 0 {
      assert out[k] in out;
      CompareTotal(order, out[k], p);
      if i > k { CompareTransitive(order, p, out[k], out[i]); }
    }
    hide Compare;
    forall i, j | 0 <= i < j < |r| ensures Compare(order, r[i], r[j]) < 0 {
      assert r[i] == if i < k then out[i] else if i == k then p else out[i - 1];
      assert r[j] == if j < k then out[j] else if j == k then p else out[j - 1];
    }
    InsertMembers(out, p, k);
  }

  /** What has a depth is not stuck. */
  lemma {:induction false} DepthAvoids(g: Graph, d: map<Name, nat>, stuck: set<Name>, n: Name)
    requires d.Keys <= g.Keys && forall m {:trigger DepthAt(g, d, m)} | m in d :: DepthAt(g, d, m)
    requires Stuck(g, stuck) && n in d
    ensures n !in stuck
    decreases d[n]
  {
    if n in stuck {
      assert Waits(g, stuck, n) && DepthAt(g, d, n);
      var dep :| dep in g[n].deps && (dep in stuck || dep !in g);
      DepthAvoids(g, d, stuck, dep);
    }
  }

  lemma RemainingIsAll(
    g: Graph, order: seq<Name>, remaining: Graph, out: seq<Node>, d: map<Name, nat>, k: nat)
    requires Layered(g, order, remaining, out, d, k)
    ensures forall s | Stuck(g, s) :: s <= remaining.Keys
  {
    forall s | Stuck(g, s) ensures s <= remaining.Keys {
      forall n | n in s ensures n in remaining {
        if n in d { DepthAvoids(g, d, s, n); }
      }
    }
  }

  /** How far the layers have come after `k` rounds. */
  ghost predicate Layered(g: Graph, order: seq<Name>, remaining: Graph, out: seq<Node>, d: map<Name, nat>, k: nat) {
    && d.Keys !! remaining.Keys && d.Keys + remaining.Keys == g.Keys
    && (forall n | n in remaining :: remaining[n] == g[n])
    && (forall p | p in out :: p.short in d && g[p.short] == p)
    && (forall n | n in d :: g[n] in out)
    && (forall n | n in d :: d[n] < k) && (forall n {:trigger DepthAt(g, d, n)} | n in d :: DepthAt(g, d, n))
    && (forall i, j | 0 <= i < j < |out| :: Before(order, d, out[i], out[j]))
    && (k > 0 ==> forall n | n in remaining :: WaitedFor(g, d, n, k))
  }

  /** A package left over after round `k` had a dependency that was not placed before that round. */
  ghost predicate WaitedFor(g: Graph, d: map<Name, nat>, n: Name, k: nat)
    requires n in g
  {
    exists dep :: dep in g[n].deps && (dep !in d || d[dep] == k - 1)
  }

  lemma LayerDepths(g: Graph, remaining: Graph, d: map<Name, nat>, d': map<Name, nat>, ready: set<Name>, k: nat)
    requires d.Keys !! remaining.Keys && d.Keys + remaining.Keys == g.Keys
    requires ready <= remaining.Keys
    requires forall n | n in remaining :: n in ready <==> forall dep | dep in g[n].deps :: dep in d
    requires forall n | n in d :: d[n] < k && DepthAt(g, d, n)
    requires k > 0 ==> forall n | n in remaining :: WaitedFor(g, d, n, k)
    requires d'.Keys == d.Keys + ready
    requires forall n | n in d' :: d'[n] == if n in ready then k else d[n]
    ensures forall n | n in d' :: d'[n] < k + 1 && DepthAt(g, d', n)
    ensures forall n | n in remaining && n !in ready :: WaitedFor(g, d', n, k + 1)
  {
    forall n | n in d' ensures d'[n] < k + 1 && DepthAt(g, d', n) {
      if n in ready {
        if k > 0 {
          assert WaitedFor(g, d, n, k);
          var dep :| dep in g[n].deps && (dep !in d || d[dep] == k - 1);
          assert dep in d && d'[dep] == k - 1;
        }
      } else {
        assert DepthAt(g, d, n);
        if d[n] > 0 {
          var dep :| dep in g[n].deps && dep in d && d[dep] == d[n] - 1;
          assert dep in d' && d'[dep] == d'[n] - 1;
        }
      }
    }
    forall n | n in remaining && n !in ready ensures WaitedFor(g, d', n, k + 1) {
      var dep :| dep in g[n].deps && dep !in d;
      assert dep !in d' || d'[dep] == k;
    }
  }

  lemma LayerSorted(
    g: Graph, order: seq<Name>, out: seq<Node>, ready: seq<Node>, d: map<Name, nat>, d': map<Name, nat>, k: nat)
    requires forall n | n in d :: d[n] < k
    requires forall p | p in out :: p.short in d && p.short in d' && d'[p.short] == d[p.short]
    requires forall p | p in ready :: p.short in d' && d'[p.short] == k
    requires forall i, j | 0 <= i < j < |out| :: Before(order, d, out[i], out[j])
    requires forall i, j | 0 <= i < j < |ready| :: Compare(order, ready[i], ready[j]) < 0
    ensures forall p | p in out + ready :: p.short in d'
    ensures forall i, j | 0 <= i < j < |out + ready| :: Before(order, d', (out + ready)[i], (out + ready)[j])
  {
    var all := out + ready;
    forall i, j | 0 <= i < j < |all| ensures Before(order, d', all[i], all[j]) {
      assert i < |out| ==> all[i] in out;
      assert j < |out| ==> all[j] in out;
      assert i >= |out| ==> all[i] in ready;
      assert j >= |out| ==> all[j] in ready;
      if j < |out| { assert Before(order, d, out[i], out[j]); }
      if i >= |out| { assert Compare(order, ready[i - |out|], ready[j - |out|]) < 0; }
    }
  }

  lemma Shrinks(m: Graph, n: Name, gone: set<Name>)
    requires n in m && n in gone
    ensures |m - gone| < |m|
  {
    assert (m - gone).Keys <= m.Keys - {n};
    SubsetSize((m - gone).Keys, m.Keys - {n});
    assert |m.Keys - {n}| == |m.Keys| - 1;
  }

  /** The packages whose dependencies have all been placed. */
  ghost function ReadyNames(g: Graph, remaining: Graph, d: map<Name, nat>): set<Name>
    requires forall n | n in remaining :: n in g
    ensures forall n | n in ReadyNames(g, remaining, d) :: n in remaining
  {
    set n | n in remaining && forall dep | dep in g[n].deps :: dep in d
  }

  lemma NothingReady(g: Graph, order: seq<Name>, remaining: Graph, out: seq<Node>, d: map<Name, nat>, k: nat)
    requires Layered(g, order, remaining, out, d, k) && remaining != map[]
    requires ReadyNames(g, remaining, d) == {}
    ensures Stuck(g, remaining.Keys)
  {
    forall n | n in remaining.Keys ensures exists dep :: dep in g[n].deps && (dep in remaining.Keys || dep !in g) {
      assert n !in ReadyNames(g, remaining, d);
      var dep :| dep in g[n].deps && dep !in d;
    }
  }

  lemma NextLayer(g: Graph, order: seq<Name>, remaining: Graph, out: seq<Node>, d: map<Name, nat>, k: nat,
                  ready: seq<Node>, names: set<Name>, d': map<Name, nat>)
    requires Keyed(g) && Layered(g, order, remaining, out, d, k)
    requires names == ReadyNames(g, remaining, d)
    requires forall p | p in ready :: p.short in names && g[p.short] == p
    requires forall n | n in names :: g[n] in ready
    requires forall i, j | 0 <= i < j < |ready| :: Compare(order, ready[i], ready[j]) < 0
    requires d'.Keys == d.Keys + names
    requires forall n | n in d' :: d'[n] == if n in names then k else d[n]
    ensures Layered(g, order, remaining - names, out + ready, d', k + 1)
  {
    hide DepthAt, WaitedFor, Before, Compare;
    LayerDepths(g, remaining, d, d', names, k);
    LayerSorted(g, order, out, ready, d, d', k);
  }

  lemma ReadyShorts(g: Graph, ready: seq<Node>, names: set<Name>)
    requires names <= g.Keys
    requires forall p | p in ready :: p.short in names && g[p.short] == p
    requires Keyed(g) && forall n | n in names :: g[n] in ready
    ensures Shorts(ready) == names
  {
  }

  /** The packages that can be placed now, sorted. */
  method ReadyLayer(ghost g: Graph, remaining: Graph, placed: set<Name>, order: seq<Name>, ghost d: map<Name, nat>)
    returns (ready: seq<Node>)
    requires Keyed(g) && placed == d.Keys && forall n | n in remaining :: n in g && remaining[n] == g[n]
    ensures var names := ReadyNames(g, remaining, d);
            && (forall p | p in ready :: p.short in names && g[p.short] == p)
            && (forall n | n in names :: g[n] in ready)
            && (ready == [] ==> names == {})
    ensures forall i, j | 0 <= i < j < |ready| :: Compare(order, ready[i], ready[j]) < 0
  {
    hide Compare;
    var nodes := set n | n in remaining && (forall dep | dep in remaining[n].deps :: dep in placed) :: remaining[n];
    ready := SortReady(nodes, order);
    forall n | n in ReadyNames(g, remaining, d) ensures g[n] in ready { assert remaining[n] in nodes; }
  }

  lemma NothingPlaced(g: Graph, order: seq<Name>)
    ensures Layered(g, order, g, [], map[], 0)
  {
  }

  lemma LeftOver(g: Graph, order: seq<Name>, remaining: Graph, out: seq<Node>, d: map<Name, nat>, k: nat)
    requires Layered(g, order, remaining, out, d, k)
    ensures forall n | n in remaining :: n in g && remaining[n] == g[n]
  {
  }

  lemma AllPlaced(g: Graph, order: seq<Name>, out: seq<Node>, d: map<Name, nat>, k: nat)
    requires Keyed(g) && Layered(g, order, map[], out, d, k)
    ensures IsDepth(g, d) && Ordered(g, order, d, out)
    ensures forall walk :: !DeadEnd(g, walk)
  {
    assert d.Keys == g.Keys;
    assert IsDepth(g, d);
    forall walk ensures !DeadEnd(g, walk) { NoDeadEnd(g, d, walk); }
  }

  /**
   * `topoSort`: it throws exactly when some package reaches a cycle or a missing package, and
   * otherwise returns the packages sorted by (dependency depth, `comparePackages`).
   */
  method TopoSort(packages: seq<Node>, order: seq<Name>) returns (r: Result<seq<Node>, set<Name>>)
    ensures r.Ok? ==> exists d :: IsDepth(ByShort(packages), d) && Ordered(ByShort(packages), order, d, r.value)
    ensures r.Err? ==> Stuck(ByShort(packages), r.error)
    ensures r.Err? ==> forall s | Stuck(ByShort(packages), s) :: s <= r.error
    ensures r.Err? <==> exists walk :: DeadEnd(ByShort(packages), walk)
  {
    hide DepthAt, WaitedFor, Before, Compare, Stuck, DeadEnd, IsDepth, Ordered, ReadyNames, Shorts;
    var g := ByShort(packages);
    NothingPlaced(g, order);
    hide ByShort, Layered;
    var remaining := g;
    var placed: set<Name> := {};
    var out: seq<Node> := [];
    ghost var d: map<Name, nat> := map[];
    ghost var k := 0;
    while |remaining| > 0
      invariant placed == d.Keys
      invariant Layered(g, order, remaining, out, d, k)
      decreases |remaining|
    {
      LeftOver(g, order, remaining, out, d, k);
      var ready := ReadyLayer(g, remaining, placed, order, d);
      ghost var names := ReadyNames(g, remaining, d);
      if |ready| == 0 {
        NothingReady(g, order, remaining, out, d, k);
        StuckHasDeadEnd(g, remaining.Keys);
        RemainingIsAll(g, order, remaining, out, d, k);
        return Err(remaining.Keys);
      }
      ghost var d' := map n | n in d.Keys + names :: if n in names then k else d[n];
      NextLayer(g, order, remaining, out, d, k, ready, names, d');
      ReadyShorts(g, ready, names);
      assert ready[0] in ready;
      Shrinks(remaining, ready[0].short, names);
      out := out + ready;
      placed := placed + Shorts(ready);
      remaining := remaining - Shorts(ready);
      d := d';
      k := k + 1;
    }
    assert remaining == map[];
    AllPlaced(g, order, out, d, k);
    r := Ok(out);
  }
}
