/**
 * Classifying drift of the session contract under the additive-only policy
 * (`scripts/gen-session-contract-digest.ts`, diffSessionContractDigest).
 */
module ContractDigest {
  import opened Prelude

  datatype Entry = Entry(name: string, sha: string)

  datatype Digest = Digest(
    formatVersion: real,
    eventTypes: seq<string>,
    surfaceTypes: seq<string>,
    payloads: map<string, string>,
    envelope: seq<Entry>)

  datatype Drift =
    | VersionChanged
    | TypeRemoved(name: string)
    | PayloadChanged(name: string)
    | SurfaceRemoved(name: string)
    | EnvelopeResized
    | EnvelopeRemoved(name: string)
    | EnvelopeChanged(name: string)
    | TypeAdded(name: string)
    | SurfaceAdded(name: string)

  /** Array.find by name. */
  function Find(es: seq<Entry>, name: string): (r: Option<Entry>)
    ensures r.None? <==> forall e | e in es :: e.name != name
    ensures r.Some? ==> r.value in es && r.value.name == name
    decreases |es|
  {
    if es == [] then None
    else if es[0].name == name then Some(es[0])
    else Find(es[1..], name)
  }

  // ---------------------------------------------------------------- what each kind of drift means

  function PayloadDrift(b: Digest, c: Digest, name: string): Option<Drift> {
    if name in b.payloads && name in c.payloads && b.payloads[name] != c.payloads[name]
    then Some(PayloadChanged(name)) else None
  }

  function EntryDrift(c: Digest, e: Entry): Option<Drift> {
    var after := Find(c.envelope, e.name);
    if after.None? then Some(EnvelopeRemoved(e.name))
    else if after.value.sha != e.sha then Some(EnvelopeChanged(e.name))
    else None
  }

  function Listed(d: Option<Drift>): seq<Drift> {
    if d.None? then [] else [d.value]
  }

  function Missing(names: seq<string>, from: seq<string>, kind: string -> Drift): seq<Drift>
    decreases |names|
  {
    if names == [] then []
    else (if names[0] in from then [] else [kind(names[0])]) + Missing(names[1..], from, kind)
  }

  function Payloads(b: Digest, c: Digest, names: seq<string>): seq<Drift>
    decreases |names|
  {
    if names == [] then [] else Listed(PayloadDrift(b, c, names[0])) + Payloads(b, c, names[1..])
  }

  function Envelope(c: Digest, es: seq<Entry>): seq<Drift>
    decreases |es|
  {
    if es == [] then [] else Listed(EntryDrift(c, es[0])) + Envelope(c, es[1..])
  }

  function Structural(b: Digest, c: Digest): seq<Drift> {
    (if b.formatVersion != c.formatVersion then [VersionChanged] else [])
    + Missing(b.eventTypes, c.eventTypes, n => TypeRemoved(n))
    + Payloads(b, c, b.eventTypes)
    + Missing(b.surfaceTypes, c.surfaceTypes, n => SurfaceRemoved(n))
    + (if |b.envelope| != |c.envelope| then [EnvelopeResized] else [])
    + Envelope(c, b.envelope)
  }

  function Additive(b: Digest, c: Digest): seq<Drift> {
    Missing(c.eventTypes, b.eventTypes, n => TypeAdded(n)) +
      Missing(c.surfaceTypes, b.surfaceTypes, n => SurfaceAdded(n))
  }

  /** The first entry of a name, which is the one the comparison looks at. */
  predicate FirstOf(es: seq<Entry>, i: nat, name: string) {
    i < |es| && es[i].name == name && forall j | 0 <= j < i :: es[j].name != name
  }

  lemma {:induction false} FindsFirst(es: seq<Entry>, name: string)
    ensures forall i: nat | FirstOf(es, i, name) :: Find(es, name) == Some(es[i])
    ensures Find(es, name).Some? ==> exists i: nat :: FirstOf(es, i, name)
  {
    if es != [] {
      FindsFirst(es[1..], name);
      forall i: nat | FirstOf(es, i, name) && i > 0 ensures Find(es, name) == Some(es[i]) {
        assert forall j | 0 <= j < i - 1 :: es[1..][j] == es[j + 1];
        assert FirstOf(es[1..], i - 1, name);
      }
      if es[0].name == name {
        assert FirstOf(es, 0, name);
      } else if i: nat :| FirstOf(es[1..], i, name) {
        assert forall j | 0 < j <= i :: es[j] == es[1..][j - 1];
        assert FirstOf(es, i + 1, name);
      }
    }
  }

  /** What each kind of drift says, in terms of the two digests. */
  ghost predicate Says(d: Drift, b: Digest, c: Digest) {
    match d
    case VersionChanged => b.formatVersion != c.formatVersion
    case TypeRemoved(n) => n in b.eventTypes && n !in c.eventTypes
    case PayloadChanged(n) =>
      n in b.eventTypes && n in b.payloads && n in c.payloads && b.payloads[n] != c.payloads[n]
    case SurfaceRemoved(n) => n in b.surfaceTypes && n !in c.surfaceTypes
    case EnvelopeResized => |b.envelope| != |c.envelope|
    case EnvelopeRemoved(n) => (exists e :: e in b.envelope && e.name == n) && forall e | e in c.envelope :: e.name != n
    case EnvelopeChanged(n) =>
      exists e, i: nat :: e in b.envelope && e.name == n && FirstOf(c.envelope, i, n) && c.envelope[i].sha != e.sha
    case TypeAdded(n) => n in c.eventTypes && n !in b.eventTypes
    case SurfaceAdded(n) => n in c.surfaceTypes && n !in b.surfaceTypes
  }

  lemma {:induction false} MissingIs(names: seq<string>, from: seq<string>, kind: string -> Drift, d: Drift)
    ensures d in Missing(names, from, kind) <==> exists n :: n in names && n !in from && kind(n) == d
  {
    if names != [] {
      MissingIs(names[1..], from, kind, d);
      assert names == [names[0]] + names[1..];
    }
  }

  lemma {:induction false} PayloadsAre(b: Digest, c: Digest, names: seq<string>, d: Drift)
    ensures d in Payloads(b, c, names) <==>
              d.PayloadChanged? && d.name in names && d.name in b.payloads && d.name in c.payloads
              && b.payloads[d.name] != c.payloads[d.name]
  {
    if names != [] {
      PayloadsAre(b, c, names[1..], d);
      assert names == [names[0]] + names[1..];
    }
  }

  lemma {:induction false} EnvelopeIs(c: Digest, es: seq<Entry>, d: Drift)
    ensures d in Envelope(c, es) <==> exists e :: e in es && EntryDrift(c, e) == Some(d)
  {
    if es != [] {
      EnvelopeIs(c, es[1..], d);
      assert es == [es[0]] + es[1..];
    }
  }

  lemma EntryDriftIs(c: Digest, e: Entry, d: Drift)
    ensures EntryDrift(c, e) == Some(d) <==>
              || (d == EnvelopeRemoved(e.name) && forall x | x in c.envelope :: x.name != e.name)
              || (d == EnvelopeChanged(e.name) && exists i: nat ::
                FirstOf(c.envelope, i, e.name) && c.envelope[i].sha != e.sha)
  {
    FindsFirst(c.envelope, e.name);
  }

  lemma EnvelopeSays(b: Digest, c: Digest, d: Drift)
    ensures d in Envelope(c, b.envelope) <==> (d.EnvelopeRemoved? || d.EnvelopeChanged?) && Says(d, b, c)
  {
    EnvelopeIs(c, b.envelope, d);
    forall e { EntryDriftIs(c, e, d); }
    hide Envelope, EntryDrift;
  }

  /** The two lists hold exactly the drifts that are so, the additions apart from everything else. */
  lemma DriftsSay(b: Digest, c: Digest, d: Drift)
    ensures d in Structural(b, c) <==> Says(d, b, c) && !d.TypeAdded? && !d.SurfaceAdded?
    ensures d in Additive(b, c) <==> Says(d, b, c) && (d.TypeAdded? || d.SurfaceAdded?)
  {
    hide Missing, Payloads, Envelope;
    MissingIs(b.eventTypes, c.eventTypes, n => TypeRemoved(n), d);
    MissingIs(b.surfaceTypes, c.surfaceTypes, n => SurfaceRemoved(n), d);
    MissingIs(c.eventTypes, b.eventTypes, n => TypeAdded(n), d);
    MissingIs(c.surfaceTypes, b.surfaceTypes, n => SurfaceAdded(n), d);
    PayloadsAre(b, c, b.eventTypes, d);
    EnvelopeSays(b, c, d);
  }

  // ---------------------------------------------------------------- the loops

  method Gone(names: seq<string>, from: seq<string>, kind: string -> Drift) returns (r: seq<Drift>)
    ensures r == Missing(names, from, kind)
  {
    hide Missing;
    r := [];
    NothingListed(names, from, kind);
    for i := 0 to |names|
      invariant Missing(names, from, kind) == r + Missing(names[i..], from, kind)
    {
      MissingStep(names, from, kind, i, r);
      if names[i] !in from { r := r + [kind(names[i])]; }
    }
    assert r + [] == r;
  }

  lemma NothingListed(names: seq<string>, from: seq<string>, kind: string -> Drift)
    ensures names[0..] == names && Missing(names[|names|..], from, kind) == []
    ensures [] + Missing(names, from, kind) == Missing(names, from, kind)
  {
  }

  lemma MissingStep(names: seq<string>, from: seq<string>, kind: string -> Drift, i: nat, r: seq<Drift>)
    requires i < |names|
    ensures r + Missing(names[i..], from, kind)
         == (if names[i] in from then r else r + [kind(names[i])]) + Missing(names[i + 1..], from, kind)
  {
    assert names[i..][1..] == names[i + 1..];
    assert names[i] !in from ==>
           Missing(names[i..], from, kind) == [kind(names[i])] + Missing(names[i + 1..], from, kind);
  }

  method Diff(baseline: Digest, current: Digest) returns (structural: seq<Drift>, additive: seq<Drift>)
    ensures structural == Structural(baseline, current)
    ensures additive == Additive(baseline, current)
  {
    hide PayloadDrift, EntryDrift, Missing, Payloads, Envelope;
    structural := if baseline.formatVersion != current.formatVersion then [VersionChanged] else [];
    var removed := Gone(baseline.eventTypes, current.eventTypes, n => TypeRemoved(n));
    structural := structural + removed;
    var added := Gone(current.eventTypes, baseline.eventTypes, n => TypeAdded(n));
    structural := DiffPayloads(baseline, current, structural);
    var surfaceRemoved := Gone(baseline.surfaceTypes, current.surfaceTypes, n => SurfaceRemoved(n));
    structural := structural + surfaceRemoved;
    var surfaceAdded := Gone(current.surfaceTypes, baseline.surfaceTypes, n => SurfaceAdded(n));
    additive := added + surfaceAdded;
    structural := structural + if |baseline.envelope| != |current.envelope| then [EnvelopeResized] else [];
    structural := DiffEnvelope(baseline, current, structural);
  }

  method DiffPayloads(baseline: Digest, current: Digest, before: seq<Drift>) returns (structural: seq<Drift>)
    ensures structural == before + Payloads(baseline, current, baseline.eventTypes)
  {
    hide PayloadDrift, Payloads, Listed;
    structural := before;
    NoPayloads(baseline, current, baseline.eventTypes);
    for i := 0 to |baseline.eventTypes|
      invariant before + Payloads(baseline, current, baseline.eventTypes)
             == structural + Payloads(baseline, current, baseline.eventTypes[i..])
    {
      PayloadsStep(baseline, current, baseline.eventTypes, i, structural);
      structural := structural + Listed(PayloadDrift(baseline, current, baseline.eventTypes[i]));
    }
    assert structural + [] == structural;
  }

  lemma NoPayloads(b: Digest, c: Digest, names: seq<string>)
    ensures names[0..] == names && Payloads(b, c, names[|names|..]) == []
  {
  }

  lemma PayloadsStep(b: Digest, c: Digest, names: seq<string>, i: nat, r: seq<Drift>)
    requires i < |names|
    ensures r + Payloads(b, c, names[i..])
            == (r + Listed(PayloadDrift(b, c, names[i]))) + Payloads(b, c, names[i + 1..])
  {
    assert names[i..][1..] == names[i + 1..];
  }

  method DiffEnvelope(baseline: Digest, current: Digest, before: seq<Drift>) returns (structural: seq<Drift>)
    ensures structural == before + Envelope(current, baseline.envelope)
  {
    hide EntryDrift, Envelope, Listed;
    structural := before;
    NoEntries(current, baseline.envelope);
    for i := 0 to |baseline.envelope|
      invariant before + Envelope(current, baseline.envelope) == structural + Envelope(current, baseline.envelope[i..])
    {
      EnvelopeStep(current, baseline.envelope, i, structural);
      structural := structural + Listed(EntryDrift(current, baseline.envelope[i]));
    }
    assert structural + [] == structural;
  }

  lemma NoEntries(c: Digest, es: seq<Entry>)
    ensures es[0..] == es && Envelope(c, es[|es|..]) == []
  {
  }

  lemma EnvelopeStep(c: Digest, es: seq<Entry>, i: nat, r: seq<Drift>)
    requires i < |es|
    ensures r + Envelope(c, es[i..]) == (r + Listed(EntryDrift(c, es[i]))) + Envelope(c, es[i + 1..])
  {
    assert es[i..][1..] == es[i + 1..];
  }

  // ---------------------------------------------------------------- when nothing structural is found

  predicate KeepsEntry(c: Digest, e: Entry) {
    var after := Find(c.envelope, e.name);
    after.Some? && after.value.sha == e.sha
  }

  /** A current digest the baseline accepts. */
  predicate Accepts(b: Digest, c: Digest) {
    && b.formatVersion == c.formatVersion
    && (forall n | n in b.eventTypes :: n in c.eventTypes)
    && (forall n | n in b.eventTypes && n in b.payloads && n in c.payloads :: b.payloads[n] == c.payloads[n])
    && (forall n | n in b.surfaceTypes :: n in c.surfaceTypes)
    && |b.envelope| == |c.envelope|
    && (forall e | e in b.envelope :: KeepsEntry(c, e))
  }

  lemma {:induction false} MissingIff(names: seq<string>, from: seq<string>, kind: string -> Drift)
    ensures Missing(names, from, kind) == [] <==> forall n | n in names :: n in from
    decreases |names|
  {
    if names != [] {
      MissingIff(names[1..], from, kind);
      assert forall n | n in names :: n == names[0] || n in names[1..];
    }
  }

  lemma {:induction false} PayloadsIff(b: Digest, c: Digest, names: seq<string>)
    ensures Payloads(b, c, names) == []
            <==> forall n | n in names && n in b.payloads && n in c.payloads :: b.payloads[n] == c.payloads[n]
    decreases |names|
  {
    if names != [] {
      PayloadsIff(b, c, names[1..]);
      assert forall n | n in names :: n == names[0] || n in names[1..];
    }
  }

  lemma {:induction false} EnvelopeIff(c: Digest, es: seq<Entry>)
    ensures Envelope(c, es) == [] <==> forall e | e in es :: KeepsEntry(c, e)
    decreases |es|
  {
    hide KeepsEntry, EntryDrift;
    if es != [] {
      EntryIff(c, es[0]);
      EnvelopeIff(c, es[1..]);
      assert forall e | e in es :: e == es[0] || e in es[1..];
    }
  }

  lemma EntryIff(c: Digest, e: Entry)
    ensures EntryDrift(c, e).None? <==> KeepsEntry(c, e)
  {
  }

  /** Nothing structural is reported exactly when every recorded fact is kept. */
  lemma StructuralIff(b: Digest, c: Digest)
    ensures Structural(b, c) == [] <==> Accepts(b, c)
  {
    hide KeepsEntry, Missing, Payloads, Envelope;
    MissingIff(b.eventTypes, c.eventTypes, n => TypeRemoved(n));
    PayloadsIff(b, c, b.eventTypes);
    MissingIff(b.surfaceTypes, c.surfaceTypes, n => SurfaceRemoved(n));
    EnvelopeIff(c, b.envelope);
  }

  /** A digest does not drift from itself, exactly when envelope entries of one name agree. */
  lemma ReflexiveIff(d: Digest)
    ensures Structural(d, d) == [] <==>
            forall e, f | e in d.envelope && f in d.envelope && e.name == f.name :: e.sha == f.sha
  {
    StructuralIff(d, d);
    if Accepts(d, d) {
      forall e, f | e in d.envelope && f in d.envelope && e.name == f.name ensures e.sha == f.sha {
        assert KeepsEntry(d, e) && KeepsEntry(d, f);
      }
    }
  }

  /** Across one intermediate baseline, only a payload it does not record can go unnoticed. */
  lemma TransitiveIff(a: Digest, b: Digest, c: Digest)
    requires Structural(a, b) == [] && Structural(b, c) == []
    ensures Structural(a, c) == [] <==>
            forall n | n in a.eventTypes && n in a.payloads && n in c.payloads && n !in b.payloads ::
              a.payloads[n] == c.payloads[n]
  {
    hide Structural;
    StructuralIff(a, b);
    StructuralIff(b, c);
    StructuralIff(a, c);
    forall e | e in a.envelope ensures KeepsEntry(c, e) {
      assert KeepsEntry(b, e);
      assert KeepsEntry(c, Find(b.envelope, e.name).value);
    }
  }

  /** Such a payload does change unnoticed: type x loses its payload, then gets another. */
  lemma MissingPayloadForgets()
    ensures var a := Digest(0.0, ["x"], [], map["x" := "string"], []);
            var b := Digest(0.0, ["x"], [], map[], []);
            var c := Digest(0.0, ["x"], [], map["x" := "number"], []);
            Structural(a, b) == [] && Structural(b, c) == [] && Structural(a, c) != []
  {
    var a := Digest(0.0, ["x"], [], map["x" := "string"], []);
    var b := Digest(0.0, ["x"], [], map[], []);
    var c := Digest(0.0, ["x"], [], map["x" := "number"], []);
    hide Structural;
    StructuralIff(a, b);
    StructuralIff(b, c);
    StructuralIff(a, c);
    assert "x" in a.eventTypes && "string" != "number";
  }

  // ---------------------------------------------------------------- histories

  /** As the generator builds it: every event type has its payload. */
  predicate Complete(d: Digest) {
    forall n | n in d.eventTypes :: n in d.payloads
  }

  predicate Chain(ds: seq<Digest>) {
    && (forall i | 0 <= i < |ds| :: Complete(ds[i]))
    && forall i | 0 < i < |ds| :: Structural(ds[i - 1], ds[i]) == []
  }

  lemma {:induction false} HistoryAccepts(ds: seq<Digest>, i: nat, j: nat)
    requires Chain(ds) && i < j < |ds|
    ensures Structural(ds[i], ds[j]) == []
    decreases j
  {
    hide Structural;
    assert Structural(ds[j - 1], ds[j]) == [];
    if i + 1 < j {
      HistoryAccepts(ds, i, j - 1);
      assert Complete(ds[j - 1]);
      StructuralIff(ds[i], ds[j - 1]);
      TransitiveIff(ds[i], ds[j - 1], ds[j]);
    }
  }

  /** Any history of accepted baselines keeps what an earlier one recorded. */
  lemma HistoryKeepsContract(ds: seq<Digest>, i: nat, j: nat)
    requires Chain(ds) && i < j < |ds|
    ensures ds[i].formatVersion == ds[j].formatVersion
    ensures forall n | n in ds[i].eventTypes :: Kept(ds[i], ds[j], n)
    ensures forall n | n in ds[i].surfaceTypes :: n in ds[j].surfaceTypes
    ensures forall e | e in ds[i].envelope :: KeepsEntry(ds[j], e)
  {
    HistoryAccepts(ds, i, j);
    assert Complete(ds[i]) && Complete(ds[j]);
    KeptAll(ds[i], ds[j]);
  }

  /** The event type is still there, with the payload it had. */
  predicate Kept(b: Digest, c: Digest, n: string) {
    n in c.eventTypes && n in b.payloads && n in c.payloads && c.payloads[n] == b.payloads[n]
  }

  lemma KeptAll(b: Digest, c: Digest)
    requires Structural(b, c) == [] && Complete(b) && Complete(c)
    ensures b.formatVersion == c.formatVersion
    ensures forall n | n in b.eventTypes :: Kept(b, c, n)
    ensures forall n | n in b.surfaceTypes :: n in c.surfaceTypes
    ensures forall e | e in b.envelope :: KeepsEntry(c, e)
  {
    hide Structural, KeepsEntry;
    StructuralIff(b, c);
  }

  predicate DistinctNames(es: seq<Entry>) {
    forall i, j | 0 <= i < j < |es| :: es[i].name != es[j].name
  }

  function Entries(es: seq<Entry>): set<Entry> {
    set e | e in es
  }

  lemma {:induction false} EntriesCount(es: seq<Entry>)
    requires DistinctNames(es)
    ensures |Entries(es)| == |es|
    decreases |es|
  {
    if es != [] {
      EntriesCount(es[1..]);
      assert Entries(es) == Entries(es[1..]) + {es[0]};
      assert es[0] !in es[1..];
    }
  }

  lemma SubsetOfSameSize(x: set<Entry>, y: set<Entry>)
    requires x <= y && |x| == |y|
    ensures x == y
  {
    assert y == x + (y - x);
    assert |y| == |x| + |y - x|;
    assert |y - x| == 0;
  }

  /** With one entry a name, an accepted digest has the very same envelope: nothing is added either. */
  lemma EnvelopeFrozen(b: Digest, c: Digest)
    requires Structural(b, c) == [] && DistinctNames(b.envelope) && DistinctNames(c.envelope)
    ensures Entries(b.envelope) == Entries(c.envelope)
  {
    hide Structural;
    StructuralIff(b, c);
    forall e | e in b.envelope ensures e in c.envelope {
      assert KeepsEntry(c, e);
      assert Find(c.envelope, e.name).value == e;
    }
    EntriesCount(b.envelope);
    EntriesCount(c.envelope);
    SubsetOfSameSize(Entries(b.envelope), Entries(c.envelope));
  }

  /** No drift of either kind means the same contract, so there is none in the other direction. */
  lemma NoDriftIsSymmetric(b: Digest, c: Digest)
    requires Structural(b, c) == [] && Additive(b, c) == []
    requires DistinctNames(b.envelope) && DistinctNames(c.envelope)
    ensures Structural(c, b) == [] && Additive(c, b) == []
  {
    hide Structural, Missing;
    StructuralIff(b, c);
    StructuralIff(c, b);
    MissingIff(c.eventTypes, b.eventTypes, n => TypeAdded(n));
    MissingIff(c.surfaceTypes, b.surfaceTypes, n => SurfaceAdded(n));
    MissingIff(b.eventTypes, c.eventTypes, n => TypeAdded(n));
    MissingIff(b.surfaceTypes, c.surfaceTypes, n => SurfaceAdded(n));
    EnvelopeFrozen(b, c);
    forall e | e in c.envelope ensures KeepsEntry(b, e) {
      assert e in Entries(c.envelope);
      FindsOwn(b.envelope, e);
    }
  }

  lemma FindsOwn(es: seq<Entry>, e: Entry)
    requires DistinctNames(es) && e in es
    ensures Find(es, e.name) == Some(e)
  {
    var f := Find(es, e.name).value;
    var i :| 0 <= i < |es| && es[i] == e;
    var j :| 0 <= j < |es| && es[j] == f;
  }
}
