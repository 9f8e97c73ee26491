/**
 * Finding the destination of an inline link, image or definition in its source text
 * (`scripts/project-doc-site.ts`, labelEnd and destinationRange). The scanners are functions of
 * the text still to be read; the grammar they are measured against is a tree of pieces.
 */
module LinkScanner {
  import opened Prelude
  import opened JsText

  // ---------------------------------------------------------------- balanced text

  /** One character, a backslash pair, or a bracketed group. */
  datatype Piece = One(c: char) | Pair(c: char) | Group(inner: seq<Piece>)

  /** Which brackets group, and which characters may stand alone. */
  datatype Kind = Label | Bare | Angle

  function Open(k: Kind): char { match k case Label => '[' case Bare => '(' case Angle => '<' }
  function Close(k: Kind): char { match k case Label => ']' case Bare => ')' case Angle => '>' }

  /** ASCII control characters and the space: what ends a bare destination in section 6.3 of CommonMark 0.31.2. */
  predicate Control(c: char) {
    c as int <= 32 || c as int == 127
  }

  predicate Proper(k: Kind, ps: seq<Piece>)
    decreases ps
  {
    forall p | p in ps ::
      match p
      case One(c) => c != '\\' && c != Close(k) && (k.Angle? || c != Open(k)) && (k.Bare? ==> !Control(c))
      case Pair(c) => k.Bare? ==> !Control(c)
      case Group(inner) => !k.Angle? && Proper(k, inner)
  }

  function Text(k: Kind, ps: seq<Piece>): string
    decreases ps
  {
    if ps == [] then "" else PieceText(k, ps[0]) + Text(k, ps[1..])
  }

  function PieceText(k: Kind, p: Piece): string
    decreases p
  {
    match p
    case One(c) => [c]
    case Pair(c) => ['\\', c]
    case Group(inner) => [Open(k)] + Text(k, inner) + [Close(k)]
  }

  /** The text can be read as proper pieces. */
  ghost predicate Balanced(k: Kind, s: string) {
    exists ps :: Proper(k, ps) && Text(k, ps) == s
  }

  // ---------------------------------------------------------------- the scanners

  function Plus(n: nat, r: Option<nat>): Option<nat> {
    if r.None? then None else Some(n + r.value)
  }

  /** Inside a label at some depth: how far to its closing bracket. */
  function ScanLabel(t: string, depth: nat): Option<nat>
    requires depth > 0
    decreases |t|
  {
    if t == "" then None
    else if t[0] == '\\' then if |t| < 2 then None else Plus(2, ScanLabel(t[2..], depth))
    else if t[0] == '[' then Plus(1, ScanLabel(t[1..], depth + 1))
    else if t[0] == ']' then if depth == 1 then Some(0) else Plus(1, ScanLabel(t[1..], depth - 1))
    else Plus(1, ScanLabel(t[1..], depth))
  }

  function FirstBracket(s: string): (i: nat)
    ensures i <= |s| && (i < |s| ==> s[i] == '[')
  {
    if s == "" || s[0] == '[' then 0 else 1 + FirstBracket(s[1..])
  }

  function LabelEnd(s: string): Option<nat> {
    var first := FirstBracket(s);
    if first == |s| then None else Plus(first + 1, ScanLabel(s[first + 1..], 1))
  }

  function SkipSpace(t: string): (n: nat)
    ensures n <= |t|
  {
    if t == "" || !IsSpace(t[0]) then 0 else 1 + SkipSpace(t[1..])
  }

  /** From inside `<`: how far to the closing `>`. */
  function ScanAngle(t: string): (r: Option<nat>)
    ensures r.Some? ==> r.value < |t|
    decreases |t|
  {
    if t == "" then None
    else if t[0] == '\\' then if |t| < 2 then None else Plus(2, ScanAngle(t[2..]))
    else if t[0] == '>' then Some(0)
    else Plus(1, ScanAngle(t[1..]))
  }

  /** A bare destination: how far to the white space or unmatched `)` that ends it. */
  function ScanBare(t: string, depth: nat): (n: nat)
    ensures n <= |t|
    decreases |t|
  {
    if t == "" then 0
    else if t[0] == '\\' then if |t| < 2 then |t| else 2 + ScanBare(t[2..], depth)
    else if t[0] == '(' then 1 + ScanBare(t[1..], depth + 1)
    else if t[0] == ')' then if depth == 0 then 0 else 1 + ScanBare(t[1..], depth - 1)
    else if IsSpace(t[0]) && depth == 0 then 0
    else 1 + ScanBare(t[1..], depth)
  }

  datatype NodeKind = Link | Image | Definition

  /** `destinationRange`: start and end of the destination within the node's text. */
  function DestinationRange(raw: string, kind: NodeKind): Option<(nat, nat)> {
    var closing := LabelEnd(raw);
    if closing.None? then None
    else
      var e := closing.value;
      if kind.Definition? then
        var colon := IndexOf(raw, ":", e + 1);
        if colon > |raw| then None else Destination(raw, colon + 1)
      else if e + 1 >= |raw| || raw[e + 1] != '(' then None
      else Destination(raw, e + 2)
  }

  function Destination(raw: string, from: nat): Option<(nat, nat)>
    requires from <= |raw|
  {
    var start := from + SkipSpace(raw[from..]);
    if start < |raw| && raw[start] == '<' then
      (match ScanAngle(raw[start + 1..])
       case None => None
       case Some(n) => Some((start + 1, start + 1 + n)))
    else Some((start, start + ScanBare(raw[start..], 0)))
  }

  // ---------------------------------------------------------------- scanners against pieces

  lemma LabelStep(c: char, tail: string, depth: nat)
    requires depth > 0
    ensures ScanLabel([c] + tail, depth) ==
            if c == '\\' then (if tail == "" then None else Plus(2, ScanLabel(tail[1..], depth)))
            else if c == '[' then Plus(1, ScanLabel(tail, depth + 1))
            else if c == ']' then (if depth == 1 then Some(0) else Plus(1, ScanLabel(tail, depth - 1)))
            else Plus(1, ScanLabel(tail, depth))
  {
    var t := [c] + tail;
    assert t[1..] == tail;
    assert tail != "" ==> t[2..] == tail[1..];
  }

  lemma BareStep(c: char, tail: string, depth: nat)
    ensures ScanBare([c] + tail, depth) ==
            if c == '\\' then (if tail == "" then 1 else 2 + ScanBare(tail[1..], depth))
            else if c == '(' then 1 + ScanBare(tail, depth + 1)
            else if c == ')' then (if depth == 0 then 0 else 1 + ScanBare(tail, depth - 1))
            else if IsSpace(c) && depth == 0 then 0
            else 1 + ScanBare(tail, depth)
  {
    var t := [c] + tail;
    assert t[1..] == tail;
    assert tail != "" ==> t[2..] == tail[1..];
  }

  lemma AngleStep(c: char, tail: string)
    ensures ScanAngle([c] + tail) ==
            if c == '\\' then (if tail == "" then None else Plus(2, ScanAngle(tail[1..])))
            else if c == '>' then Some(0)
            else Plus(1, ScanAngle(tail))
  {
    var t := [c] + tail;
    assert t[1..] == tail;
    assert tail != "" ==> t[2..] == tail[1..];
  }

  lemma ProperParts(k: Kind, ps: seq<Piece>)
    requires ps != [] && Proper(k, ps)
    ensures Proper(k, ps[1..]) && Proper(k, [ps[0]])
  {
    assert ps[0] in ps && forall q | q in ps[1..] :: q in ps;
  }

  lemma TextStep(k: Kind, ps: seq<Piece>)
    requires ps != []
    ensures Text(k, ps) == PieceText(k, ps[0]) + Text(k, ps[1..])
  {
  }

  lemma PieceStep(k: Kind, p: Piece)
    ensures p.One? ==> PieceText(k, p) == [p.c]
    ensures p.Pair? ==> PieceText(k, p) == ['\\', p.c] == ['\\'] + [p.c]
    ensures p.Group? ==> PieceText(k, p) == [Open(k)] + Text(k, p.inner) + [Close(k)]
  {
  }

  /** The first piece of a text, split off the rest. */
  lemma FirstPiece(k: Kind, ps: seq<Piece>, rest: string)
    requires ps != []
    ensures var tail := Text(k, ps[1..]) + rest; var t := Text(k, ps) + rest;
            && (ps[0].One? ==> t == [ps[0].c] + tail && |Text(k, ps)| == 1 + |Text(k, ps[1..])|)
            && (ps[0].Pair? ==> t == ['\\'] + ([ps[0].c] + tail) && |Text(k, ps)| == 2 + |Text(k, ps[1..])|)
            && (ps[0].Group? ==>
                  && t == [Open(k)] + (Text(k, ps[0].inner) + ([Close(k)] + tail))
                  && |Text(k, ps)| == 2 + |Text(k, ps[0].inner)| + |Text(k, ps[1..])|)
  {
    hide Text, PieceText, Open, Close;
    var p, y := ps[0], Text(k, ps[1..]);
    TextStep(k, ps);
    PieceStep(k, p);
    if p.Group? { Reassociate([Open(k)], Text(k, p.inner), [Close(k)], y, rest); }
    else if p.Pair? { Reassociate(['\\'], [p.c], [], y, rest); }
    else { Reassociate([], [p.c], [], y, rest); }
  }

  lemma Reassociate(o: string, x: string, c: string, y: string, rest: string)
    ensures (o + x + c) + y + rest == o + (x + (c + (y + rest)))
    ensures o == [] && c == [] ==> o + x + c == x && o + (x + (c + (y + rest))) == x + (y + rest)
    ensures c == [] ==> o + x + c == o + x && o + (x + (c + (y + rest))) == o + (x + (y + rest))
  {
  }

  lemma FirstProper(k: Kind, ps: seq<Piece>)
    requires ps != [] && Proper(k, ps)
    ensures Proper(k, ps[1..])
    ensures ps[0].One? ==> var c := ps[0].c;
              c != '\\' && c != Close(k) && (k.Angle? || c != Open(k)) && (k.Bare? ==> !Control(c))
    ensures ps[0].Group? ==> !k.Angle? && Proper(k, ps[0].inner)
  {
    assert ps[0] in ps && forall q | q in ps[1..] :: q in ps;
  }

  lemma ScanLabelPair(c: char, tail: string, depth: nat)
    requires depth > 0
    ensures ScanLabel(['\\'] + ([c] + tail), depth) == Plus(2, ScanLabel(tail, depth))
  {
    LabelStep('\\', [c] + tail, depth);
    assert ([c] + tail)[1..] == tail;
  }

  lemma ScanBarePair(c: char, tail: string, depth: nat)
    ensures ScanBare(['\\'] + ([c] + tail), depth) == 2 + ScanBare(tail, depth)
  {
    BareStep('\\', [c] + tail, depth);
    assert ([c] + tail)[1..] == tail;
  }

  lemma NoText(k: Kind, rest: string)
    ensures Text(k, []) == "" && "" + rest == rest
  {
  }

  lemma ScanLabelGroup(x: string, tail: string, depth: nat)
    requires depth > 0 && ScanLabel(x + ([']'] + tail), depth + 1) == Plus(|x|, ScanLabel([']'] + tail, depth + 1))
    ensures ScanLabel(['['] + (x + ([']'] + tail)), depth) == Plus(2 + |x|, ScanLabel(tail, depth))
  {
    hide ScanLabel;
    LabelStep('[', x + ([']'] + tail), depth);
    LabelStep(']', tail, depth + 1);
  }

  lemma ScanBareGroup(x: string, tail: string, depth: nat)
    requires ScanBare(x + ([')'] + tail), depth + 1) == |x| + ScanBare([')'] + tail, depth + 1)
    ensures ScanBare(['('] + (x + ([')'] + tail)), depth) == 2 + |x| + ScanBare(tail, depth)
  {
    hide ScanBare;
    BareStep('(', x + ([')'] + tail), depth);
    BareStep(')', tail, depth + 1);
  }

  lemma {:induction false} ScanLabelPieces(ps: seq<Piece>, rest: string, depth: nat)
    requires Proper(Label, ps) && depth > 0
    ensures ScanLabel(Text(Label, ps) + rest, depth) == Plus(|Text(Label, ps)|, ScanLabel(rest, depth))
    decreases ps
  {
    hide ScanLabel, Text, Proper, PieceText;
    if ps == [] {
      NoText(Label, rest);
    } else {
      var tail := Text(Label, ps[1..]) + rest;
      FirstProper(Label, ps);
      FirstPiece(Label, ps, rest);
      ScanLabelPieces(ps[1..], rest, depth);
      match ps[0]
      case One(c) => LabelStep(c, tail, depth);
      case Pair(c) => ScanLabelPair(c, tail, depth);
      case Group(inner) =>
        ScanLabelPieces(inner, [']'] + tail, depth + 1);
        ScanLabelGroup(Text(Label, inner), tail, depth);
    }
  }

  /** No white space outside parentheses: what CommonMark allows there, beyond ASCII, the scan does not. */
  predicate TopClear(ps: seq<Piece>) {
    forall p | p in ps :: p.One? ==> !IsSpace(p.c)
  }

  lemma {:induction false} ScanBarePieces(ps: seq<Piece>, rest: string, depth: nat)
    requires Proper(Bare, ps) && (depth == 0 ==> TopClear(ps))
    ensures ScanBare(Text(Bare, ps) + rest, depth) == |Text(Bare, ps)| + ScanBare(rest, depth)
    decreases ps
  {
    hide ScanBare, Text, Proper, PieceText;
    if ps == [] {
      NoText(Bare, rest);
    } else {
      var tail := Text(Bare, ps[1..]) + rest;
      FirstProper(Bare, ps);
      FirstPiece(Bare, ps, rest);
      assert depth == 0 ==> ps[0] in ps && TopClear(ps[1..]);
      ScanBarePieces(ps[1..], rest, depth);
      match ps[0]
      case One(c) => BareStep(c, tail, depth);
      case Pair(c) => ScanBarePair(c, tail, depth);
      case Group(inner) =>
        ScanBarePieces(inner, [')'] + tail, depth + 1);
        ScanBareGroup(Text(Bare, inner), tail, depth);
    }
  }

  /** White space outside parentheses ends the scan inside the destination. */
  lemma {:induction false} ScanStopsShort(ps: seq<Piece>, rest: string)
    requires Proper(Bare, ps) && !TopClear(ps)
    ensures ScanBare(Text(Bare, ps) + rest, 0) < |Text(Bare, ps)|
    decreases |ps|
  {
    hide ScanBare, Text;
    var first, tail := [ps[0]], Text(Bare, ps[1..]) + rest;
    ProperParts(Bare, ps);
    FirstPiece(Bare, ps, rest);
    if ps[0].One? && IsSpace(ps[0].c) {
      BareStep(ps[0].c, tail, 0);
      assert ps[0] in ps;
    } else {
      OnePieceText(Bare, ps, rest);
      ScanBarePieces(first, tail, 0);
      ScanStopsShort(ps[1..], rest);
    }
  }

  lemma OnePieceText(k: Kind, ps: seq<Piece>, rest: string)
    requires ps != []
    ensures Text(k, ps) + rest == Text(k, [ps[0]]) + (Text(k, ps[1..]) + rest)
    ensures |Text(k, ps)| == |Text(k, [ps[0]])| + |Text(k, ps[1..])|
  {
    TextStep(k, ps);
    TextStep(k, [ps[0]]);
    assert [ps[0]][1..] == [];
    assert Text(k, []) == "";
  }

  lemma {:induction false} ScanAnglePieces(ps: seq<Piece>, rest: string)
    requires Proper(Angle, ps)
    ensures ScanAngle(Text(Angle, ps) + rest) == Plus(|Text(Angle, ps)|, ScanAngle(rest))
    decreases ps
  {
    if ps == [] {
      assert Text(Angle, ps) + rest == rest;
    } else {
      hide ScanAngle, Text;
      var tail := Text(Angle, ps[1..]) + rest;
      ProperParts(Angle, ps);
      FirstPiece(Angle, ps, rest);
      ScanAnglePieces(ps[1..], rest);
      assert ps[0] in [ps[0]];
      match ps[0]
      case One(c) => AngleStep(c, tail);
      case Pair(c) =>
        AngleStep('\\', [c] + tail);
        assert ([c] + tail)[1..] == tail;
    }
  }

  lemma Prepended(p: Piece, ps: seq<Piece>)
    requires Proper(Label, ps) && Proper(Label, [p])
    ensures Proper(Label, [p] + ps) && Text(Label, [p] + ps) == PieceText(Label, p) + Text(Label, ps)
  {
    assert p in [p];
    assert forall q | q in [p] + ps :: q == p || q in ps;
    assert ([p] + ps)[1..] == ps;
  }

  /** The text opens with the pieces of a label, closed at j, and the scanner goes on from there. */
  ghost predicate Parsed(t: string, depth: nat, ps: seq<Piece>, j: nat)
    requires depth > 0
  {
    && Proper(Label, ps) && j < |t| && t[j] == ']' && Text(Label, ps) == t[..j]
    && ScanLabel(t, depth) == if depth == 1 then Some(j) else Plus(j + 1, ScanLabel(t[j + 1..], depth - 1))
  }

  /** The first n characters are one piece, which the scanner passes over. */
  ghost predicate Starts(t: string, depth: nat, p: Piece, n: nat)
    requires depth > 0
  {
    && 0 < n <= |t| && Proper(Label, [p]) && PieceText(Label, p) == t[..n]
    && ScanLabel(t, depth) == Plus(n, ScanLabel(t[n..], depth))
  }

  /** Cut the pieces of a label out of the text the scanner accepted. */
  lemma {:induction false} ParseLabel(t: string, depth: nat) returns (ps: seq<Piece>, j: nat)
    requires depth > 0 && ScanLabel(t, depth).Some?
    ensures Parsed(t, depth, ps, j)
    decreases |t|
  {
    NonEmpty(t, depth);
    hide ScanLabel, Text, Proper, PieceText, Parsed, Starts;
    if t[0] == ']' {
      ps, j := [], 0;
      NoPieces(t, depth);
    } else {
      var p, n;
      if t[0] == '[' {
        OpenBracket(t, depth);
        var inner, i := ParseLabel(t[1..], depth + 1);
        p, n := Group(inner), i + 2;
        GroupStarts(t, depth, inner, i);
      } else if t[0] == '\\' {
        p, n := Pair(t[1]), 2;
        PairStarts(t, depth);
      } else {
        p, n := One(t[0]), 1;
        OneStarts(t, depth);
      }
      StartsLeaves(t, depth, p, n);
      var more, k := ParseLabel(t[n..], depth);
      ParsedOn(t, depth, p, n, more, k);
      ps, j := [p] + more, n + k;
    }
  }

  lemma StartsLeaves(t: string, depth: nat, p: Piece, n: nat)
    requires depth > 0 && ScanLabel(t, depth).Some? && Starts(t, depth, p, n)
    ensures 0 < n <= |t| && ScanLabel(t[n..], depth).Some?
  {
    hide ScanLabel, Text, Proper, PieceText;
  }

  lemma ParsedOn(t: string, depth: nat, p: Piece, n: nat, ps: seq<Piece>, k: nat)
    requires depth > 0 && Starts(t, depth, p, n) && Parsed(t[n..], depth, ps, k)
    ensures Parsed(t, depth, [p] + ps, n + k)
  {
    hide ScanLabel, Text, Proper, PieceText;
    Prepended(p, ps);
    CutCut(t, n, k);
  }

  lemma OpenBracket(t: string, depth: nat)
    requires depth > 0 && t != "" && t[0] == '['
    ensures ScanLabel(t, depth) == Plus(1, ScanLabel(t[1..], depth + 1))
  {
  }

  lemma GroupStarts(t: string, depth: nat, inner: seq<Piece>, i: nat)
    requires depth > 0 && t != "" && t[0] == '[' && Parsed(t[1..], depth + 1, inner, i)
    ensures Starts(t, depth, Group(inner), i + 2)
  {
    hide ScanLabel, Text, Proper, PieceText;
    OpenBracket(t, depth);
    GroupCut(t, i);
    ProperOne(Group(inner));
    PieceStep(Label, Group(inner));
  }

  lemma PairStarts(t: string, depth: nat)
    requires depth > 0 && |t| > 1 && t[0] == '\\'
    ensures Starts(t, depth, Pair(t[1]), 2)
  {
    ProperOne(Pair(t[1]));
  }

  lemma OneStarts(t: string, depth: nat)
    requires depth > 0 && t != "" && t[0] != '\\' && t[0] != '[' && t[0] != ']'
    ensures Starts(t, depth, One(t[0]), 1)
  {
    ProperOne(One(t[0]));
  }

  lemma NonEmpty(t: string, depth: nat)
    requires depth > 0 && ScanLabel(t, depth).Some?
    ensures t != "" && (t[0] == '\\' ==> |t| > 1)
  {
  }

  lemma NoPieces(t: string, depth: nat)
    requires depth > 0 && t != "" && t[0] == ']'
    ensures Parsed(t, depth, [], 0)
  {
  }

  lemma GroupCut(t: string, i: nat)
    requires i + 1 < |t| && t[0] == '[' && t[1..][i] == ']'
    ensures t[1..][i + 1..] == t[i + 2..] && t[..i + 2] == ['['] + t[1..][..i] + [']']
  {
  }

  lemma CutCut(t: string, n: nat, k: nat)
    requires n + k < |t|
    ensures t[..n + k] == t[..n] + t[n..][..k] && t[n..][k + 1..] == t[n + k + 1..] && t[n..][k] == t[n + k]
  {
  }

  lemma ProperOne(p: Piece)
    requires p.One? ==> p.c != '\\' && p.c != '[' && p.c != ']'
    requires p.Group? ==> Proper(Label, p.inner)
    ensures Proper(Label, [p])
  {
    assert forall q | q in [p] :: q == p;
  }

  lemma {:induction false} FirstBracketAt(pre: string, rest: string)
    requires '[' !in pre
    ensures FirstBracket(pre + ['['] + rest) == |pre|
  {
    var s := pre + ['['] + rest;
    if pre != "" {
      assert s[1..] == pre[1..] + ['['] + rest;
      FirstBracketAt(pre[1..], rest);
    }
  }

  lemma LabelEndFinds(pre: string, ps: seq<Piece>, rest: string)
    requires '[' !in pre && Proper(Label, ps)
    ensures LabelEnd(pre + ['['] + Text(Label, ps) + [']'] + rest) == Some(|pre| + 1 + |Text(Label, ps)|)
  {
    var body := Text(Label, ps) + ([']'] + rest);
    var s := pre + ['['] + Text(Label, ps) + [']'] + rest;
    assert s == pre + ['['] + body;
    FirstBracketAt(pre, body);
    assert s[|pre| + 1..] == body;
    hide ScanLabel, Text, Proper, FirstBracket;
    ScanLabelPieces(ps, [']'] + rest, 1);
    LabelStep(']', rest, 1);
  }

  /**
   * `labelEnd` answers with a position exactly when the text from the first bracket up to it is a
   * bracketed label, nested to any depth, escapes and all.
   */
  lemma LabelEndIff(s: string, j: nat)
    ensures LabelEnd(s) == Some(j) <==>
            var first := FirstBracket(s);
            first < j < |s| && s[j] == ']' && Balanced(Label, s[first + 1..j])
  {
    var first := FirstBracket(s);
    if first < |s| {
      if LabelEnd(s) == Some(j) { LabelEndSound(s, first, j); }
      if first < j < |s| && s[j] == ']' && Balanced(Label, s[first + 1..j]) { LabelEndComplete(s, first, j); }
    }
  }

  lemma LabelEndSound(s: string, first: nat, j: nat)
    requires first < |s| && Plus(first + 1, ScanLabel(s[first + 1..], 1)) == Some(j)
    ensures first < j < |s| && s[j] == ']' && Balanced(Label, s[first + 1..j])
  {
    hide ScanLabel, Text, Proper;
    var t := s[first + 1..];
    var ps, i := ParseLabel(t, 1);
    assert Parsed(t, 1, ps, i);
    assert j == first + 1 + i && t[..i] == s[first + 1..j] && t[i] == s[j];
    assert Balanced(Label, s[first + 1..j]);
  }

  lemma LabelEndComplete(s: string, first: nat, j: nat)
    requires first < j < |s| && s[j] == ']' && Balanced(Label, s[first + 1..j])
    ensures Plus(first + 1, ScanLabel(s[first + 1..], 1)) == Some(j)
  {
    hide ScanLabel, Text, Proper;
    var t, body, rest := s[first + 1..], s[first + 1..j], s[j + 1..];
    var ps :| Proper(Label, ps) && Text(Label, ps) == body;
    assert t == body + ([']'] + rest);
    ScanLabelPieces(ps, [']'] + rest, 1);
    LabelStep(']', rest, 1);
  }

  // ---------------------------------------------------------------- the loops

  method FindLabelEnd(source: string) returns (r: Option<nat>)
    ensures r == LabelEnd(source)
  {
    hide ScanLabel, FirstBracket;
    var first := FirstBracket(source);
    if first == |source| { return None; }
    var depth: nat := 0;
    var index := first;
    ghost var whole := ScanLabel(source[first + 1..], 1);
    while index < |source|
      invariant first <= index
      invariant index == first ==> depth == 0
      invariant first < index < |source| ==>
                depth > 0 && Plus(first + 1, whole) == Plus(index, ScanLabel(source[index..], depth))
      invariant index >= |source| ==> whole.None?
    {
      var c := source[index];
      if index > first {
        CutOne(source, index);
        LabelStep(c, source[index + 1..], depth);
      }
      NothingLeft(source, 0);
      if c == '\\' {
        index := index + 1;
      } else if c == '[' {
        depth := depth + 1;
      } else if c == ']' {
        depth := depth - 1;
        if depth == 0 { return Some(index); }
      }
      index := index + 1;
    }
    r := None;
  }

  lemma CutOne(s: string, i: nat)
    requires i < |s|
    ensures s[i..] == [s[i]] + s[i + 1..]
    ensures i + 1 < |s| ==> s[i + 1..][1..] == s[i + 2..]
  {
  }

  lemma NothingLeft(s: string, depth: nat)
    ensures ScanBare(s[|s|..], depth) == 0 && ScanAngle(s[|s|..]).None?
    ensures forall d: nat | d > 0 :: ScanLabel(s[|s|..], d).None?
  {
  }

  method FindBareEnd(raw: string, start: nat) returns (end: nat)
    requires start <= |raw|
    ensures end == start + ScanBare(raw[start..], 0)
  {
    hide ScanBare;
    var depth: nat := 0;
    var index := start;
    ghost var whole := start + ScanBare(raw[start..], 0);
    while index < |raw|
      invariant start <= index
      invariant whole == if index <= |raw| then index + ScanBare(raw[index..], depth) else |raw|
    {
      var c := raw[index];
      CutOne(raw, index);
      BareStep(c, raw[index + 1..], depth);
      if c == '\\' {
        index := index + 1;
      } else if c == '(' {
        depth := depth + 1;
      } else if c == ')' {
        if depth == 0 { return index; }
        depth := depth - 1;
      } else if IsSpace(c) && depth == 0 {
        return index;
      }
      index := index + 1;
    }
    NothingLeft(raw, depth);
    end := |raw|;
  }

  method FindAngleEnd(raw: string, start: nat) returns (end: Option<nat>)
    requires start <= |raw|
    ensures end == Plus(start, ScanAngle(raw[start..]))
  {
    hide ScanAngle;
    var index := start;
    ghost var whole := Plus(start, ScanAngle(raw[start..]));
    while index < |raw|
      invariant start <= index
      invariant whole == if index <= |raw| then Plus(index, ScanAngle(raw[index..])) else None
    {
      CutOne(raw, index);
      AngleStep(raw[index], raw[index + 1..]);
      if raw[index] == '\\' {
        index := index + 1;
      } else if raw[index] == '>' {
        return Some(index);
      }
      index := index + 1;
    }
    NothingLeft(raw, 0);
    end := None;
  }

  method SkipWhitespace(source: string, start: nat) returns (index: nat)
    requires start <= |source|
    ensures index == start + SkipSpace(source[start..])
  {
    index := start;
    while index < |source| && IsSpace(source[index])
      invariant start <= index <= |source|
      invariant start + SkipSpace(source[start..]) == index + SkipSpace(source[index..])
    {
      index := index + 1;
    }
  }

  method FindFrom(raw: string, from: nat) returns (r: Option<(nat, nat)>)
    requires from <= |raw|
    ensures r == Destination(raw, from)
  {
    hide SkipSpace, ScanBare, ScanAngle;
    var start := SkipWhitespace(raw, from);
    if start < |raw| && raw[start] == '<' {
      var end := FindAngleEnd(raw, start + 1);
      r := if end.None? then None else Some((start + 1, end.value));
    } else {
      var end := FindBareEnd(raw, start);
      r := Some((start, end));
    }
  }

  lemma LabelEndInside(raw: string)
    ensures LabelEnd(raw).Some? ==> LabelEnd(raw).value < |raw|
  {
    hide LabelEnd;
    if LabelEnd(raw).Some? { LabelEndIff(raw, LabelEnd(raw).value); }
  }

  method FindDestination(raw: string, kind: NodeKind) returns (r: Option<(nat, nat)>)
    ensures r == DestinationRange(raw, kind)
  {
    hide LabelEnd, Destination;
    LabelEndInside(raw);
    var endOfLabel := FindLabelEnd(raw);
    if endOfLabel.None? { return None; }
    var e := endOfLabel.value;
    if kind.Definition? {
      var colon := IndexOf(raw, ":", e + 1);
      if colon > |raw| { return None; }
      r := FindFrom(raw, colon + 1);
    } else {
      if e + 1 >= |raw| || raw[e + 1] != '(' { return None; }
      r := FindFrom(raw, e + 2);
    }
  }
}
