/**
 * The bytes hashed for a client build (`scripts/client-build-environment.ts`, clientArtifactDigest)
 * and the record check that relies on them. SHA-256 is a function without collisions.
 */
module ArtifactFraming {
  import opened Prelude
  import opened DecimalText

  type Byte = b: nat | b < 256

  type Bytes = seq<Byte>

  /** One file: its path as bytes and its content. */
  datatype Artifact = Artifact(path: Bytes, content: Bytes)

  const COLON: Byte := 58

  function Code(c: char): (b: Byte)
    requires IsDigit(c)
    ensures b as int == c as int && b != COLON
  {
    c as int
  }

  function Ascii(s: string): (b: Bytes)
    requires forall c | c in s :: IsDigit(c)
    ensures |b| == |s| && forall i | 0 <= i < |s| :: b[i] == s[i] as int
    ensures COLON !in b
  {
    if s == "" then [] else [Code(s[0])] + Ascii(s[1..])
  }

  function Text(b: Bytes): (s: string)
    ensures |s| == |b| && forall i | 0 <= i < |b| :: s[i] as int == b[i]
  {
    seq(|b|, i requires 0 <= i < |b| => b[i] as char)
  }

  /** Decimal byte length, a colon, the bytes. */
  function Field(f: Bytes): Bytes {
    Ascii(Decimal(|f|)) + [COLON] + f
  }

  function Frame(a: Artifact): Bytes {
    Field(a.path) + Field(a.content)
  }

  function Stream(arts: seq<Artifact>): Bytes {
    if arts == [] then [] else Stream(arts[..|arts| - 1]) + Frame(arts[|arts| - 1])
  }

  /** The loop over the sorted paths feeds the hash exactly this stream. */
  method FeedDigest(arts: seq<Artifact>) returns (fed: Result<Bytes, ()>)
    ensures fed == if arts == [] then Err(()) else Ok(Stream(arts))
  {
    if |arts| == 0 { return Err(()); }
    hide Ascii, Decimal, Stream, Frame, Field;
    var digest: Bytes := [];
    NothingFed();
    for i := 0 to |arts|
      invariant digest == Stream(arts[..i])
    {
      StreamStep(arts, i);
      FrameParts(digest, arts[i]);
      digest := digest + (Ascii(Decimal(|arts[i].path|)) + [COLON]);
      digest := digest + arts[i].path;
      digest := digest + (Ascii(Decimal(|arts[i].content|)) + [COLON]);
      digest := digest + arts[i].content;
    }
    assert arts[..|arts|] == arts;
    fed := Ok(digest);
  }

  lemma NothingFed()
    ensures Stream([]) == []
  {
  }

  lemma StreamStep(arts: seq<Artifact>, i: nat)
    requires i < |arts|
    ensures Stream(arts[..i + 1]) == Stream(arts[..i]) + Frame(arts[i])
  {
    assert arts[..i + 1][..i] == arts[..i];
  }

  lemma FrameParts(before: Bytes, a: Artifact)
    ensures before + (Ascii(Decimal(|a.path|)) + [COLON]) + a.path + (Ascii(Decimal(|a.content|)) + [COLON]) + a.content
         == before + Frame(a)
  {
    hide Ascii, Decimal;
  }

  /** A text as its bytes. */
  ghost predicate Spells(b: Bytes, s: string) {
    |b| == |s| && forall i | 0 <= i < |s| :: b[i] == s[i] as int
  }

  /** A file is fed as the length of its path, a colon and the path, and then its content likewise. */
  lemma FrameIs(a: Artifact)
    ensures exists p, c: Bytes ::
              Spells(p, Decimal(|a.path|) + ":") && Spells(c, Decimal(|a.content|) + ":")
              && Frame(a) == p + a.path + c + a.content
  {
    hide Decimal, Ascii;
    var p: Bytes, c: Bytes := Ascii(Decimal(|a.path|)) + [COLON], Ascii(Decimal(|a.content|)) + [COLON];
    assert Spells(p, Decimal(|a.path|) + ":") && Spells(c, Decimal(|a.content|) + ":");
  }

  // ---------------------------------------------------------------- reading it back

  function FirstColon(s: Bytes): (i: nat)
    ensures i <= |s|
  {
    if s == [] || s[0] == COLON then 0 else 1 + FirstColon(s[1..])
  }

  predicate Digits(s: string) {
    forall c | c in s :: IsDigit(c)
  }

  /** A field off the front of the stream, with what follows it. */
  function ReadField(s: Bytes): Option<(Bytes, Bytes)> {
    var i := FirstColon(s);
    var digits := Text(s[..i]);
    if i == |s| || !Digits(digits) then None
    else
      var end := i + 1 + Value(digits);
      if end > |s| then None else Some((s[i + 1..end], s[end..]))
  }

  function Decode(s: Bytes): Option<seq<Artifact>>
    decreases |s|
  {
    if s == [] then Some([])
    else match ReadField(s)
      case None => None
      case Some((path, s1)) =>
        match ReadField(s1)
        case None => None
        case Some((content, s2)) =>
          if |s2| >= |s| then None
          else match Decode(s2)
            case None => None
            case Some(rest) => Some([Artifact(path, content)] + rest)
  }

  lemma {:induction false} ColonAfter(digits: Bytes, rest: Bytes)
    requires COLON !in digits
    ensures FirstColon(digits + [COLON] + rest) == |digits|
  {
    var s := digits + [COLON] + rest;
    if digits != [] {
      assert s[0] == digits[0] && s[1..] == digits[1..] + [COLON] + rest;
      ColonAfter(digits[1..], rest);
    }
  }

  lemma ReadOneField(f: Bytes, rest: Bytes)
    ensures ReadField(Field(f) + rest) == Some((f, rest))
  {
    var n := Decimal(|f|);
    var s := Field(f) + rest;
    assert s == Ascii(n) + [COLON] + (f + rest);
    ColonAfter(Ascii(n), f + rest);
    assert s[..|n|] == Ascii(n);
    assert Text(Ascii(n)) == n;
    ValueOfDecimal(|f|);
    var end := |n| + 1 + |f|;
    assert s[|n| + 1..end] == f && s[end..] == rest;
  }

  lemma DecodeOne(a: Artifact, rest: Bytes, more: seq<Artifact>)
    requires Decode(rest) == Some(more)
    ensures Decode(Frame(a) + rest) == Some([a] + more)
  {
    hide ReadField, Ascii, Decimal;
    var s := Frame(a) + rest;
    assert s == Field(a.path) + (Field(a.content) + rest);
    ReadOneField(a.path, Field(a.content) + rest);
    ReadOneField(a.content, rest);
    assert |Field(a.path)| > 0;
  }

  lemma {:induction false} DecodeFrames(arts: seq<Artifact>, rest: Bytes, more: seq<Artifact>)
    requires Decode(rest) == Some(more)
    ensures Decode(Stream(arts) + rest) == Some(arts + more)
    decreases |arts|
  {
    hide Decode, Frame, Stream;
    if arts == [] {
      NothingFed();
      assert [] + rest == rest && arts + more == more;
    } else {
      var front, a := arts[..|arts| - 1], arts[|arts| - 1];
      DecodeOne(a, rest, more);
      DecodeFrames(front, Frame(a) + rest, [a] + more);
      LastFrame(arts, rest);
      assert arts + more == front + ([a] + more);
    }
  }

  lemma LastFrame(arts: seq<Artifact>, rest: Bytes)
    requires arts != []
    ensures Stream(arts) + rest == Stream(arts[..|arts| - 1]) + (Frame(arts[|arts| - 1]) + rest)
  {
    hide Frame;
  }

  /** The stream of any list, of any length, reads back as that list and no other. */
  lemma StreamRoundTrip(arts: seq<Artifact>)
    ensures Decode(Stream(arts)) == Some(arts)
  {
    DecodeFrames(arts, [], []);
    assert Stream(arts) + [] == Stream(arts) && arts + [] == arts;
  }

  lemma StreamInjective(a: seq<Artifact>, b: seq<Artifact>)
    requires Stream(a) == Stream(b)
    ensures a == b
  {
    StreamRoundTrip(a);
    StreamRoundTrip(b);
  }

  // ---------------------------------------------------------------- the build record

  /** A listing of a file tree: every path once, with its content. */
  ghost predicate Lists(arts: seq<Artifact>, tree: map<Bytes, Bytes>) {
    && (forall a | a in arts :: a.path in tree && tree[a.path] == a.content)
    && (forall p | p in tree :: Artifact(p, tree[p]) in arts)
  }

  const FORMAT := 1
  const PREFIX := "DSH_CLIENT_"

  type Environment = map<string, string>

  datatype Record<D> = Record(format: int, environment: Environment, fileCount: nat, sha256: D)

  predicate IsPublic(name: string) {
    |PREFIX| <= |name| && name[..|PREFIX|] == PREFIX
  }

  /** The public client variables of an environment. */
  function PublicOnly(environment: Environment): Environment {
    map n | n in environment && IsPublic(n) :: environment[n]
  }

  /** `writeClientBuildRecord` */
  function RecordOf<D>(sha: Bytes -> D, environment: Environment, arts: seq<Artifact>): Record<D> {
    Record(FORMAT, PublicOnly(environment), |arts|, sha(Stream(arts)))
  }

  /**
   * `readClientBuildRecord` on a record of the right shape: another format, a variable that is not
   * public, another environment than the expected one or other artifacts are refused, and so is an
   * empty build.
   */
  method ReadRecord<D(==)>(
    sha: Bytes -> D, record: Record<D>, expected: Option<Environment>, current: seq<Artifact>) returns (ok: bool)
    ensures ok == Accepts(sha, record, expected, current)
  {
    if record.format != FORMAT { return false; }
    if PublicOnly(record.environment) != record.environment { return false; }
    if record.fileCount < 1 { return false; }
    if expected.Some? && record.environment != expected.value { return false; }
    var fed := FeedDigest(current);
    if fed.Err? { return false; }
    ok := |current| == record.fileCount && sha(fed.value) == record.sha256;
  }

  predicate Accepts<D(==)>(sha: Bytes -> D, record: Record<D>, expected: Option<Environment>, current: seq<Artifact>) {
    && record.format == FORMAT && PublicOnly(record.environment) == record.environment
    && (expected.Some? ==> record.environment == expected.value)
    && current != [] && |current| == record.fileCount && sha(Stream(current)) == record.sha256
  }

  ghost predicate CollisionFree<D(!new)>(sha: Bytes -> D) {
    forall s, t | sha(s) == sha(t) :: s == t
  }

  /**
   * A written record is accepted for exactly the files it was written for, names and contents
   * alike, and exactly the public environment of that build.
   */
  lemma RecordAcceptsExactly<D(!new)>(sha: Bytes -> D, environment: Environment, expected: Option<Environment>,
                                          built: seq<Artifact>, current: seq<Artifact>,
                                          before: map<Bytes, Bytes>, now: map<Bytes, Bytes>)
    requires CollisionFree(sha) && Lists(built, before) && Lists(current, now) && built != []
    ensures Accepts(sha, RecordOf(sha, environment, built), expected, current)
            <==> built == current && (expected.Some? ==> expected.value == PublicOnly(environment))
    ensures Accepts(sha, RecordOf(sha, environment, built), expected, current) ==> before == now
  {
    assert PublicOnly(PublicOnly(environment)) == PublicOnly(environment);
    if Accepts(sha, RecordOf(sha, environment, built), expected, current) {
      assert sha(Stream(built)) == sha(Stream(current));
      StreamInjective(built, current);
      forall p | p in before ensures p in now && now[p] == before[p] { assert Artifact(p, before[p]) in built; }
      forall p | p in now ensures p in before { assert Artifact(p, now[p]) in current; }
    }
  }

  /** Which variables a record carries, and the format it is marked with. */
  lemma RecordHolds<D(!new)>(sha: Bytes -> D, environment: Environment, arts: seq<Artifact>, name: string)
    ensures var record := RecordOf(sha, environment, arts);
            && record.format == 1 && record.fileCount == |arts|
            && (name in record.environment
              <==> name in environment && exists rest: string :: name == "DSH_CLIENT_" + rest)
            && (name in record.environment ==> record.environment[name] == environment[name])
  {
    if IsPublic(name) { assert name == "DSH_CLIENT_" + name[11..]; }
    if rest: string :| name == "DSH_CLIENT_" + rest { assert name[..11] == "DSH_CLIENT_"; }
  }

  /** A record is accepted exactly if it is the one that would be written now from its own environment. */
  lemma AcceptedIff<D(!new)>(sha: Bytes -> D, record: Record<D>, expected: Option<Environment>, current: seq<Artifact>)
    ensures Accepts(sha, record, expected, current) <==>
              record == RecordOf(sha, record.environment, current) && current != []
              && (expected.Some? ==> expected.value == record.environment)
  {
  }
}
