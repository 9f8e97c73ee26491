/**
 * The latch that waits for every watcher's first build (`scripts/dev-web.ts`, watchClientPlugins).
 * Hooks fire whenever a bundle finishes a build, first or not, before or after `build` has
 * returned the number of bundles.
 */
module WatchLatch {
  import opened Prelude

  /** A build of one bundle is done (a bundle is known by its options object), or `build` has returned. */
  datatype Event = Done(options: nat) | Returned(bundles: nat)

  /** The bundles that have finished a build. */
  function Built(h: seq<Event>): set<nat> {
    set e | e in h && e.Done? :: e.options
  }

  function Count(h: seq<Event>): Option<nat>
    decreases |h|
  {
    if h == [] then None
    else if h[|h| - 1].Returned? then Some(h[|h| - 1].bundles)
    else Count(h[..|h| - 1])
  }

  /** `build` returns once. */
  predicate Possible(h: seq<Event>) {
    forall i, j | 0 <= i < j < |h| :: !(h[i].Returned? && h[j].Returned?)
  }

  /** The number of bundles is known and at least as many have been built. */
  predicate Ready(h: seq<Event>) {
    Count(h).Some? && |Built(h)| >= Count(h).value
  }

  // ---------------------------------------------------------------- the latch

  datatype Latch = Latch(initialized: set<nat>, initializedBuilds: nat, expectedBuilds: Option<nat>, resolved: bool)

  const FRESH := Latch({}, 0, None, false)

  function Step(l: Latch, e: Event): Latch {
    match e
    case Done(options) =>
      if options in l.initialized then l
      else
        var n := l.initializedBuilds + 1;
        Latch(l.initialized + {options}, n, l.expectedBuilds,
              l.resolved || (l.expectedBuilds.Some? && n >= l.expectedBuilds.value))
    case Returned(bundles) =>
      l.(expectedBuilds := Some(bundles), resolved := l.resolved || l.initializedBuilds >= bundles)
  }

  function After(h: seq<Event>): Latch
    decreases |h|
  {
    if h == [] then FRESH else Step(After(h[..|h| - 1]), h[|h| - 1])
  }

  lemma BuiltStep(h: seq<Event>)
    requires h != []
    ensures var e, front := h[|h| - 1], h[..|h| - 1];
            Built(h) == Built(front) + (if e.Done? then {e.options} else {})
  {
    var e, front := h[|h| - 1], h[..|h| - 1];
    assert h == front + [e];
    assert forall x | x in h :: x in front || x == e;
    assert e in h && forall x | x in front :: x in h;
    forall o | o in Built(h) ensures o in Built(front) + (if e.Done? then {e.options} else {}) {
      var x :| x in h && x.Done? && x.options == o;
    }
    forall o | o in Built(front) + (if e.Done? then {e.options} else {}) ensures o in Built(h) {
      if o in Built(front) { var x :| x in front && x.Done? && x.options == o; }
    }
  }

  lemma {:induction false} NotYetReturned(h: seq<Event>)
    requires forall i | 0 <= i < |h| :: !h[i].Returned?
    ensures Count(h) == None
    decreases |h|
  {
    if h != [] { NotYetReturned(h[..|h| - 1]); }
  }

  /** At every moment of every order of events, the promise is resolved exactly when it should be. */
  lemma {:induction false} ResolvedIffReady(h: seq<Event>)
    requires Possible(h)
    ensures After(h).initialized == Built(h) && After(h).initializedBuilds == |Built(h)|
    ensures After(h).expectedBuilds == Count(h)
    ensures After(h).resolved <==> Ready(h)
    decreases |h|
  {
    if h != [] {
      var front, e := h[..|h| - 1], h[|h| - 1];
      ResolvedIffReady(front);
      BuiltStep(h);
      if e.Returned? {
        forall i | 0 <= i < |front| ensures !front[i].Returned? {
          assert front[i] == h[i];
        }
        NotYetReturned(front);
      }
    }
  }

  /** Rebuilds and order do not matter: only which bundles were built and how many there are. */
  lemma OrderDoesNotMatter(h: seq<Event>, g: seq<Event>)
    requires Possible(h) && Possible(g) && (forall e :: e in h <==> e in g)
    ensures After(h).resolved == After(g).resolved
  {
    ResolvedIffReady(h);
    ResolvedIffReady(g);
    CountIs(h);
    CountIs(g);
    assert Built(h) == Built(g);
  }

  lemma {:induction false} CountIs(h: seq<Event>)
    requires Possible(h)
    ensures forall n: nat :: Count(h) == Some(n) <==> Returned(n) in h
    decreases |h|
  {
    if h != [] {
      var front, e := h[..|h| - 1], h[|h| - 1];
      assert h == front + [e];
      CountIs(front);
      if e.Returned? {
        forall i | 0 <= i < |front| ensures !front[i].Returned? {
          assert front[i] == h[i];
        }
      }
    }
  }

  /** The first return extends a possible history by one step. */
  lemma ReturnsOnce(h: seq<Event>, bundles: nat)
    requires Possible(h) && Count(h) == None
    ensures Possible(h + [Returned(bundles)]) && After(h + [Returned(bundles)]) == Step(After(h), Returned(bundles))
  {
    var longer := h + [Returned(bundles)];
    assert longer[..|longer| - 1] == h;
    CountIs(h);
    assert forall i | 0 <= i < |h| && h[i].Returned? :: h[i] == Returned(h[i].bundles) && h[i] in h;
  }

  lemma DoneExtends(h: seq<Event>, options: nat)
    requires Possible(h)
    ensures Possible(h + [Done(options)]) && After(h + [Done(options)]) == Step(After(h), Done(options))
  {
    var longer := h + [Done(options)];
    assert longer[..|longer| - 1] == h;
  }

  // ---------------------------------------------------------------- the shared variables

  class Readiness {
    var initialized: set<nat>
    var initializedBuilds: nat
    var expectedBuilds: Option<nat>
    var resolved: bool
    ghost var history: seq<Event>

    /** The variables are what the events so far make of them. */
    ghost predicate Valid()
      reads this
    {
      Latch(initialized, initializedBuilds, expectedBuilds, resolved) == After(history) && Possible(history)
    }

    constructor ()
      ensures Valid() && history == [] && !resolved
    {
      initialized, initializedBuilds, expectedBuilds, resolved, history := {}, 0, None, false, [];
    }

    method BuildDone(options: nat)
      requires Valid()
      modifies this
      ensures Valid() && history == old(history) + [Done(options)]
      ensures resolved <==> Ready(history)
    {
      hide After, Possible, Built, Count, Ready;
      DoneExtends(history, options);
      history := history + [Done(options)];
      if options !in initialized {
        initialized := initialized + {options};
        initializedBuilds := initializedBuilds + 1;
        if expectedBuilds.Some? && initializedBuilds >= expectedBuilds.value { resolved := true; }
      }
      ResolvedIffReady(history);
    }

    method BuildReturned(bundles: nat)
      requires Valid() && expectedBuilds.None?
      modifies this
      ensures Valid() && history == old(history) + [Returned(bundles)]
      ensures resolved <==> Ready(history)
    {
      hide After, Possible, Built, Count, Ready;
      ResolvedIffReady(history);
      ReturnsOnce(history, bundles);
      history := history + [Returned(bundles)];
      expectedBuilds := Some(bundles);
      if initializedBuilds >= bundles { resolved := true; }
      ResolvedIffReady(history);
    }
  }
}
