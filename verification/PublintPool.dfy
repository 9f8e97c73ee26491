/**
 * The worker pool that runs publint over every package (`scripts/publint-all.ts`, runAll and
 * publintConcurrency). The workers share one counter; a step is the code one worker executes
 * between two awaits, and the steps of different workers interleave in any order.
 */
module PublintPool {
  import opened Prelude
  import opened JsText
  import opened DecimalText

  // ---------------------------------------------------------------- how many workers

  const MAX_SAFE: int := 0x1F_FFFF_FFFF_FFFF

  function DigitCount(s: string): (n: nat)
    ensures n <= |s| && forall c | c in s[..n] :: IsDigit(c)
  {
    if s == "" || !IsDigit(s[0]) then 0
    else
      var n := DigitCount(s[1..]);
      assert s[..1 + n] == [s[0]] + s[1..][..n];
      1 + n
  }

  function SkipBlanks(s: string): string {
    if s != "" && IsSpace(s[0]) then SkipBlanks(s[1..]) else s
  }

  /** Number.parseInt in base ten: a blank, a sign and the longest run of digits, whatever follows. */
  function ParseInt(raw: string): Option<int> {
    var s := SkipBlanks(raw);
    var signed := s != "" && (s[0] == '-' || s[0] == '+');
    var digits := if signed then s[1..] else s;
    var n := DigitCount(digits);
    assert forall c | c in digits[..n] :: IsDigit(c);
    if n == 0 then None
    else if signed && s[0] == '-' then Some(0 - Value(digits[..n]))
    else Some(Value(digits[..n]))
  }

  function Min(a: int, b: int): int { if a < b then a else b }

  /** The number of workers, or none when the setting is refused. */
  function Concurrency(total: nat, raw: Option<string>, available: nat): Option<int> {
    if total == 0 then Some(0)
    else if raw.Some? && raw.value != "" then
      var parsed := ParseInt(raw.value);
      if parsed.None? || parsed.value > MAX_SAFE || parsed.value < 1 || Decimal(parsed.value) != raw.value then None
      else Some(Min(total, parsed.value))
    else Some(Min(total, available))
  }

  lemma {:induction false} AllDigits(s: string)
    requires forall c | c in s :: IsDigit(c)
    ensures DigitCount(s) == |s|
  {
    if s != "" {
      assert s[0] in s && forall c | c in s[1..] :: c in s;
      AllDigits(s[1..]);
    }
  }

  lemma ParsesDecimal(n: nat)
    ensures ParseInt(Decimal(n)) == Some(n)
  {
    var s := Decimal(n);
    assert s[0] in s && IsDigit(s[0]);
    assert SkipBlanks(s) == s;
    AllDigits(s);
    assert s[..|s|] == s;
    ValueOfDecimal(n);
  }

  /** The setting is accepted exactly when it spells a positive safe integer, in the one way String spells it. */
  lemma ConcurrencyIff(total: nat, s: string, available: nat, k: int)
    requires total > 0 && s != ""
    ensures Concurrency(total, Some(s), available) == Some(k) <==>
            exists n: nat :: 1 <= n <= MAX_SAFE && s == Decimal(n) && k == Min(total, n)
  {
    forall n: nat | 1 <= n <= MAX_SAFE && s == Decimal(n)
      ensures Concurrency(total, Some(s), available) == Some(Min(total, n))
    {
      ParsesDecimal(n);
    }
  }

  /** Without a setting there are as many workers as processors, but no more than targets. */
  lemma NoSetting(total: nat, raw: Option<string>, available: nat)
    requires raw == None || raw == Some("")
    ensures Concurrency(total, raw, available) == Some(if total <= available then total else available)
  {
  }

  lemma ConcurrencyBounds(total: nat, raw: Option<string>, available: nat)
    requires available >= 1 && Concurrency(total, raw, available).Some?
    ensures 0 <= Concurrency(total, raw, available).value <= total
    ensures Concurrency(total, raw, available).value == 0 <==> total == 0
  {
  }

  // ---------------------------------------------------------------- the pool

  datatype Report = Report(path: string, passed: bool)

  datatype Worker = Waiting | Busy(index: nat) | Exited

  datatype Pool = Pool(next: nat, workers: seq<Worker>, results: map<nat, Report>, started: seq<nat>)

  /** A worker begins, or the check it awaits settles. */
  datatype Event = Begin(w: nat) | Settle(w: nat, report: Report)

  function Initial(concurrency: nat): Pool {
    Pool(0, seq(concurrency, _ => Waiting), map[], [])
  }

  /** The code from the top of the loop to the await or the return. */
  function Take(s: Pool, w: nat, total: nat): Pool
    requires w < |s.workers|
  {
    if s.next < total then
      s.(next := s.next + 1, workers := s.workers[w := Busy(s.next)], started := s.started + [s.next])
    else
      s.(next := s.next + 1, workers := s.workers[w := Exited])
  }

  predicate Enabled(s: Pool, targets: seq<string>, e: Event) {
    && e.w < |s.workers|
    && match e
       case Begin(w) => s.workers[w].Waiting?
       case Settle(w, report) =>
         s.workers[w].Busy? && s.workers[w].index < |targets| && report.path == targets[s.workers[w].index]
  }

  function Step(s: Pool, targets: seq<string>, e: Event): Pool
    requires Enabled(s, targets, e)
  {
    match e
    case Begin(w) => Take(s, w, |targets|)
    case Settle(w, report) => Take(s.(results := s.results[s.workers[w].index := report]), w, |targets|)
  }

  /** The pool after these steps, in this order, or none if one of them could not happen. */
  function After(targets: seq<string>, concurrency: nat, events: seq<Event>): Option<Pool>
    decreases |events|
  {
    if events == [] then Some(Initial(concurrency))
    else
      var before := After(targets, concurrency, events[..|events| - 1]);
      var e := events[|events| - 1];
      if before.None? || !Enabled(before.value, targets, e) then None
      else Some(Step(before.value, targets, e))
  }

  predicate Finished(s: Pool) {
    forall w | 0 <= w < |s.workers| :: s.workers[w].Exited?
  }

  // ---------------------------------------------------------------- what every step keeps

  /** Some worker is on this target. */
  ghost predicate Held(s: Pool, i: nat) {
    exists w :: 0 <= w < |s.workers| && s.workers[w] == Busy(i)
  }

  /** Targets are started in order; no two workers share one; results and work under way are apart. */
  ghost predicate Shape(s: Pool, targets: seq<string>) {
    && |s.started| == Min(s.next, |targets|)
    && (forall i | 0 <= i < |s.started| :: s.started[i] == i)
    && (forall i | i in s.results :: i < |s.started| && s.results[i].path == targets[i])
    && (forall w | 0 <= w < |s.workers| && s.workers[w].Busy? ::
          s.workers[w].index < |s.started| && s.workers[w].index !in s.results)
    && (forall v, w | 0 <= v < w < |s.workers| && s.workers[v].Busy? && s.workers[w].Busy? ::
          s.workers[v].index != s.workers[w].index)
    && (forall w | 0 <= w < |s.workers| && s.workers[w].Exited? :: s.next >= |targets|)
  }

  /** Whatever was started is done or under way. */
  ghost predicate Covered(s: Pool) {
    forall i: nat | i < |s.started| :: i in s.results || Held(s, i)
  }

  ghost predicate Inv(s: Pool, targets: seq<string>) {
    Shape(s, targets) && Covered(s) && |s.started| == |s.results| + Working(s.workers)
  }

  function Working(ws: seq<Worker>): nat
    decreases |ws|
  {
    if ws == [] then 0 else (if ws[0].Busy? then 1 else 0) + Working(ws[1..])
  }

  function Begun(ws: seq<Worker>): nat
    decreases |ws|
  {
    if ws == [] then 0 else (if ws[0].Waiting? then 0 else 1) + Begun(ws[1..])
  }

  lemma {:induction false} CountsUpdate(ws: seq<Worker>, w: nat, x: Worker)
    requires w < |ws|
    ensures Working(ws[w := x]) == Working(ws) - (if ws[w].Busy? then 1 else 0) + (if x.Busy? then 1 else 0)
    ensures Begun(ws[w := x]) == Begun(ws) - (if ws[w].Waiting? then 0 else 1) + (if x.Waiting? then 0 else 1)
    decreases |ws|
  {
    if w == 0 {
      assert ws[0 := x][1..] == ws[1..];
    } else {
      assert ws[w := x][1..] == ws[1..][w - 1 := x];
      CountsUpdate(ws[1..], w - 1, x);
    }
  }

  lemma {:induction false} CountsBounds(ws: seq<Worker>)
    ensures Working(ws) <= Begun(ws) <= |ws|
    ensures (forall w | 0 <= w < |ws| :: ws[w].Exited?) ==> Working(ws) == 0 && Begun(ws) == |ws|
    ensures (forall w | 0 <= w < |ws| :: ws[w].Waiting?) ==> Working(ws) == 0 == Begun(ws)
    decreases |ws|
  {
    if ws != [] {
      assert forall w | 0 <= w < |ws| - 1 :: ws[1..][w] == ws[w + 1];
      CountsBounds(ws[1..]);
    }
  }

  lemma HeldOn(s: Pool, t: Pool, w: nat, i: nat)
    requires w < |s.workers| == |t.workers| && t.workers == s.workers[w := t.workers[w]]
    requires Held(s, i) && s.workers[w] != Busy(i)
    ensures Held(t, i)
  {
    var v :| 0 <= v < |s.workers| && s.workers[v] == Busy(i);
    assert t.workers[v] == Busy(i);
  }

  lemma TakeKeepsHolders(s: Pool, targets: seq<string>, e: Event, i: nat)
    requires Enabled(s, targets, e) && Inv(s, targets) && i < |Step(s, targets, e).started|
    ensures i in Step(s, targets, e).results || Held(Step(s, targets, e), i)
  {
    var t := Step(s, targets, e);
    if i == s.next && i < |targets| {
      assert t.workers[e.w] == Busy(i);
    } else if i !in t.results {
      assert i < |s.started| && Held(s, i);
      HeldOn(s, t, e.w, i);
    }
  }

  lemma StepKeepsInv(s: Pool, targets: seq<string>, e: Event)
    requires Enabled(s, targets, e) && Inv(s, targets)
    ensures Inv(Step(s, targets, e), targets)
    ensures var t := Step(s, targets, e);
            Begun(t.workers) + |t.results| == Begun(s.workers) + |s.results| + 1
  {
    hide Held, Shape, Covered, Step, Enabled;
    ShapeKept(s, targets, e);
    CountsKept(s, targets, e);
    CoveredKept(s, targets, e);
  }

  lemma ShapeKept(s: Pool, targets: seq<string>, e: Event)
    requires Enabled(s, targets, e) && Shape(s, targets)
    ensures Shape(Step(s, targets, e), targets)
  {
  }

  lemma CountsKept(s: Pool, targets: seq<string>, e: Event)
    requires Enabled(s, targets, e) && Shape(s, targets) && |s.started| == |s.results| + Working(s.workers)
    ensures var t := Step(s, targets, e);
            && |t.started| == |t.results| + Working(t.workers)
            && Begun(t.workers) + |t.results| == Begun(s.workers) + |s.results| + 1
  {
    CountsUpdate(s.workers, e.w, Step(s, targets, e).workers[e.w]);
  }

  lemma CoveredKept(s: Pool, targets: seq<string>, e: Event)
    requires Enabled(s, targets, e) && Inv(s, targets)
    ensures Covered(Step(s, targets, e))
  {
    hide Held;
    var t := Step(s, targets, e);
    forall i: nat | i < |t.started| ensures i in t.results || Held(t, i) {
      TakeKeepsHolders(s, targets, e, i);
    }
  }

  /** What holds in every pool any interleaving reaches; each step is a worker begun or a result written. */
  lemma {:induction false} EveryInterleaving(targets: seq<string>, concurrency: nat, events: seq<Event>)
    requires After(targets, concurrency, events).Some?
    ensures var s := After(targets, concurrency, events).value;
            && Inv(s, targets) && |s.workers| == concurrency
            && |events| == Begun(s.workers) + |s.results|
    decreases |events|
  {
    if events == [] {
      CountsBounds(Initial(concurrency).workers);
    } else {
      hide Inv, Step, Enabled;
      var front, e := events[..|events| - 1], events[|events| - 1];
      EveryInterleaving(targets, concurrency, front);
      var before := After(targets, concurrency, front).value;
      SameWorkers(before, targets, e);
      StepKeepsInv(before, targets, e);
    }
  }

  lemma SameWorkers(s: Pool, targets: seq<string>, e: Event)
    requires Enabled(s, targets, e)
    ensures |Step(s, targets, e).workers| == |s.workers|
  {
  }

  // ---------------------------------------------------------------- the promises

  /** No target is started twice, and no more checks are under way than there are workers. */
  lemma StartedOnceWithinLimit(targets: seq<string>, concurrency: nat, events: seq<Event>)
    requires After(targets, concurrency, events).Some?
    ensures var s := After(targets, concurrency, events).value;
            && (forall i, j | 0 <= i < j < |s.started| :: s.started[i] != s.started[j])
            && |s.started| - |s.results| <= concurrency
  {
    EveryInterleaving(targets, concurrency, events);
    CountsBounds(After(targets, concurrency, events).value.workers);
  }

  /** The pool never stalls: until every worker has returned, some step can happen. */
  lemma NeverStalls(targets: seq<string>, concurrency: nat, events: seq<Event>) returns (e: Event)
    requires After(targets, concurrency, events).Some? && !Finished(After(targets, concurrency, events).value)
    ensures After(targets, concurrency, events + [e]).Some?
  {
    EveryInterleaving(targets, concurrency, events);
    var s := After(targets, concurrency, events).value;
    var w: nat :| w < |s.workers| && !s.workers[w].Exited?;
    e := if s.workers[w].Waiting? then Begin(w) else Settle(w, Report(targets[s.workers[w].index], true));
    assert (events + [e])[..|events|] == events;
  }

  /** Every run ends, having taken one step for each worker and one for each target. */
  lemma RunLength(targets: seq<string>, concurrency: nat, events: seq<Event>)
    requires After(targets, concurrency, events).Some?
    ensures |events| <= concurrency + |targets|
    ensures Finished(After(targets, concurrency, events).value) && (concurrency > 0 || targets == []) ==>
            |events| == concurrency + |targets|
  {
    EveryInterleaving(targets, concurrency, events);
    CountsBounds(After(targets, concurrency, events).value.workers);
  }

  /** A check has settled with this report. */
  ghost predicate Settled(events: seq<Event>, report: Report) {
    exists k, w :: 0 <= k < |events| && events[k] == Settle(w, report)
  }

  /** What is in a slot is the very report some check settled with. */
  lemma {:induction false} StoredAsSettled(targets: seq<string>, concurrency: nat, events: seq<Event>, i: nat)
    requires After(targets, concurrency, events).Some? && i in After(targets, concurrency, events).value.results
    ensures Settled(events, After(targets, concurrency, events).value.results[i])
    decreases |events|
  {
    if events != [] {
      var front, e := events[..|events| - 1], events[|events| - 1];
      var before := After(targets, concurrency, front).value;
      if i in before.results && After(targets, concurrency, events).value.results[i] == before.results[i] {
        StoredAsSettled(targets, concurrency, front, i);
        var k, w :| 0 <= k < |front| && front[k] == Settle(w, before.results[i]);
        assert events[k] == Settle(w, before.results[i]);
      } else {
        assert events[|events| - 1] == Settle(e.w, e.report);
      }
    }
  }

  // ---------------------------------------------------------------- reading the results

  /** The final pass: a missing slot is an error. */
  method CollectReports(targets: seq<string>, results: map<nat, Report>) returns (r: Option<seq<Report>>)
    ensures r.Some? <==> forall i: nat | i < |targets| :: i in results
    ensures r.Some? ==>
            |r.value| == |targets| && forall i: nat | i < |targets| :: i in results && r.value[i] == results[i]
  {
    var all := [];
    for i := 0 to |targets|
      invariant |all| == i
      invariant forall k: nat | k < i :: k in results && all[k] == results[k]
    {
      if i !in results { return None; }
      all := all + [results[i]];
    }
    r := Some(all);
  }

  lemma {:induction false} RangeSize(n: nat, keys: set<nat>)
    requires forall k | k in keys :: k < n
    ensures |keys| <= n && (|keys| == n ==> forall k: nat | k < n :: k in keys)
  {
    if n > 0 {
      var rest := keys - {n - 1};
      RangeSize(n - 1, rest);
      assert n - 1 in keys ==> keys == rest + {n - 1};
      assert n - 1 !in keys ==> keys == rest;
    } else {
      assert keys == {};
    }
  }

  /**
   * When every worker has returned, the missing-result error is out of reach exactly when there
   * was a worker, or nothing to do; each slot then holds the report of its own target.
   */
  lemma MissingResultIff(targets: seq<string>, concurrency: nat, events: seq<Event>)
    requires After(targets, concurrency, events).Some?
    requires Finished(After(targets, concurrency, events).value)
    ensures var results := After(targets, concurrency, events).value.results;
            && ((forall i: nat | i < |targets| :: i in results) <==> concurrency > 0 || targets == [])
            && (forall i | i in results :: i < |targets| && results[i].path == targets[i])
  {
    EveryInterleaving(targets, concurrency, events);
    var s := After(targets, concurrency, events).value;
    CountsBounds(s.workers);
    RangeSize(|targets|, s.results.Keys);
    assert |s.results.Keys| == |s.results|;
    assert concurrency > 0 ==> s.workers[0].Exited?;
    assert concurrency == 0 ==> |s.results| == 0;
    assert targets != [] && concurrency == 0 ==> 0 !in s.results;
  }

  // ---------------------------------------------------------------- the shared variables

  class SharedPool {
    const targets: seq<string>
    var next: nat
    var workers: seq<Worker>
    var results: map<nat, Report>
    ghost var started: seq<nat>

    ghost function State(): Pool
      reads this
    {
      Pool(next, workers, results, started)
    }

    constructor (targets: seq<string>, concurrency: nat)
      ensures this.targets == targets && State() == Initial(concurrency)
    {
      this.targets := targets;
      next, workers, results, started := 0, seq(concurrency, _ => Waiting), map[], [];
    }

    /** From the top of the loop to the await or the return. */
    method TakeNext(w: nat)
      requires w < |workers|
      modifies this
      ensures State() == Take(old(State()), w, |targets|)
    {
      var index := next;
      next := next + 1;
      if index >= |targets| {
        workers := workers[w := Exited];
      } else {
        workers := workers[w := Busy(index)];
        started := started + [index];
      }
    }

    /** The check a worker awaits has settled. */
    method Continue(w: nat, report: Report)
      requires Enabled(State(), targets, Settle(w, report))
      modifies this
      ensures State() == Step(old(State()), targets, Settle(w, report))
    {
      results := results[workers[w].index := report];
      TakeNext(w);
    }
  }
}
