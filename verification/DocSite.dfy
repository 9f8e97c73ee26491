/**
 * Rewriting the links of a Markdown page in place (`scripts/project-doc-site.ts`,
 * rewriteMarkdown). A page is a tree of plain text and references, so that "replace exactly the
 * destinations" has a meaning of its own; the program sees only the source text and the node
 * offsets of the parser.
 */
module DocSite {
  import opened Prelude
  import opened JsText
  import opened LinkScanner

  // ---------------------------------------------------------------- pages

  /**
   * A destination as section 6.3 of CommonMark 0.31.2 has it: bare, balanced in its parentheses
   * and perhaps with a backslash left over at the end, or between angle brackets.
   */
  datatype Dest = BareDest(pieces: seq<Piece>, lone: bool) | AngleDest(pieces: seq<Piece>)

  function DestText(d: Dest): string {
    match d
    case BareDest(ps, lone) => if lone then Text(Bare, ps) + "\\" else Text(Bare, ps)
    case AngleDest(ps) => Text(Angle, ps)
  }

  /**
   * A reference reads `[caption](gap dest close` (or `![`, or `]:` in a definition): `gap` is what
   * stands before the destination, `close` all that follows it, a closing `>` included. `next` is
   * the new destination, when the reference is one to rewrite.
   */
  datatype Part =
    | Plain(text: string)
    | Ref(kind: NodeKind, caption: seq<Part>, gap: string, dest: Dest, close: string, next: Option<string>)

  function Head(kind: NodeKind): string {
    if kind.Image? then "![" else "["
  }

  function Mid(kind: NodeKind): string {
    if kind.Definition? then "]:" else "]("
  }

  function Opening(p: Part): string
    requires p.Ref?
  {
    if p.dest.AngleDest? then p.gap + "<" else p.gap
  }

  function Source(ps: seq<Part>): string
    decreases ps
  {
    if ps == [] then "" else PartSource(ps[0]) + Source(ps[1..])
  }

  function PartSource(p: Part): string
    decreases p
  {
    if p.Plain? then p.text
    else Head(p.kind) + Source(p.caption) + Mid(p.kind) + Opening(p) + DestText(p.dest) + p.close
  }

  function NewDest(p: Part): string
    requires p.Ref?
  {
    if p.next.Some? then p.next.value else DestText(p.dest)
  }

  /** The page with every rewritten destination replaced and nothing else changed. */
  function Rewritten(ps: seq<Part>): string
    decreases ps
  {
    if ps == [] then "" else PartRewritten(ps[0]) + Rewritten(ps[1..])
  }

  function PartRewritten(p: Part): string
    decreases p
  {
    if p.Plain? then p.text
    else Head(p.kind) + Rewritten(p.caption) + Mid(p.kind) + Opening(p) + NewDest(p) + p.close
  }

  // ---------------------------------------------------------------- written, and scannable

  predicate Delimits(close: string) {
    close == "" || close[0] in {')', ' ', '\t', '\n', '\r'}
  }

  /** White space around a line ending and, inside a block quote, the marker that continues it. */
  predicate Gap(gap: string) {
    forall c | c in gap :: c in {' ', '\t', '\n', '\r', '>'}
  }

  /** The reference is well formed; a definition's label, which holds no bare bracket, balances. */
  ghost predicate Written(p: Part)
    requires p.Ref?
  {
    && Gap(p.gap)
    && (p.kind.Definition? ==> Balanced(Label, Source(p.caption)))
    && match p.dest
       case BareDest(ps, lone) =>
         Proper(Bare, ps) && DestText(p.dest) != "" && DestText(p.dest)[0] != '<' && Delimits(p.close)
       case AngleDest(ps) => Proper(Angle, ps) && p.close != "" && p.close[0] == '>'
  }

  /**
   * The destination is one the scan gets through: no marker before it, no wide white space at its
   * top level, no loose backslash.
   */
  predicate Reachable(gap: string, dest: Dest, close: string) {
    '>' !in gap && (dest.BareDest? ==> TopClear(dest.pieces) && (dest.lone ==> close == ""))
  }

  ghost predicate Scannable(p: Part)
    requires p.Ref?
  {
    Balanced(Label, Source(p.caption)) && Reachable(p.gap, p.dest, p.close)
  }

  ghost predicate Wellformed(ps: seq<Part>)
    decreases ps
  {
    forall p | p in ps && p.Ref? :: Wellformed(p.caption) && (p.next.Some? ==> Written(p) && Scannable(p))
  }

  function DestAt(p: Part): nat
    requires p.Ref?
  {
    |Head(p.kind)| + |Source(p.caption)| + |Mid(p.kind)| + |Opening(p)|
  }

  // ---------------------------------------------------------------- white space before the destination

  lemma {:induction false} SkipsBlank(ws: string, rest: string)
    requires Blank(ws)
    ensures SkipSpace(ws + rest) == |ws| + SkipSpace(rest)
  {
    if ws == "" {
      assert ws + rest == rest;
    } else {
      assert (ws + rest)[1..] == ws[1..] + rest;
      SkipsBlank(ws[1..], rest);
    }
  }

  lemma GapIsBlank(gap: string)
    requires Gap(gap) && '>' !in gap
    ensures Blank(gap)
  {
  }

  /** A block-quote marker stops the skip, and is not what opens an angle destination. */
  lemma {:induction false} SkipStopsAtMarker(gap: string, rest: string)
    requires Gap(gap) && '>' in gap
    ensures var n := SkipSpace(gap + rest); n < |gap| && (gap + rest)[n] == '>'
  {
    var t := gap + rest;
    assert gap == [gap[0]] + gap[1..] && t[0] == gap[0] && !IsSpace('>');
    if gap[0] != '>' {
      assert gap[0] in gap && IsSpace(gap[0]);
      assert forall c | c in gap[1..] :: c in gap;
      assert t[1..] == gap[1..] + rest;
      SkipStopsAtMarker(gap[1..], rest);
    }
  }

  lemma MarkerMisleads(before: string, gap: string, rest: string)
    requires Gap(gap) && '>' in gap
    ensures var r := Destination(before + gap + rest, |before|); r.Some? && r.value.0 < |before| + |gap|
  {
    hide ScanBare, SkipSpace;
    var raw := before + gap + rest;
    assert raw[|before|..] == gap + rest;
    SkipStopsAtMarker(gap, rest);
    assert raw[|before| + SkipSpace(gap + rest)] == (gap + rest)[SkipSpace(gap + rest)];
  }

  // ---------------------------------------------------------------- bare destinations

  lemma StopsAt(close: string)
    requires Delimits(close)
    ensures ScanBare(close, 0) == 0
  {
  }

  lemma FirstOfBare(ps: seq<Piece>, lone: bool)
    requires Proper(Bare, ps) && DestText(BareDest(ps, lone)) != ""
    ensures IsSpace(DestText(BareDest(ps, lone))[0]) ==> !TopClear(ps)
  {
    if ps != [] {
      assert ps[0] in ps;
      TextStep(Bare, ps);
      PieceStep(Bare, ps[0]);
      assert !IsSpace('\\') && !IsSpace('(');
      assert Text(Bare, ps)[0] == PieceText(Bare, ps[0])[0];
    } else {
      assert !IsSpace('\\');
    }
  }

  /** The scan ends where the destination does, unless white space or a loose backslash comes in between. */
  lemma BareEndsIff(ps: seq<Piece>, lone: bool, close: string)
    requires Proper(Bare, ps) && Delimits(close)
    ensures var dest := DestText(BareDest(ps, lone));
            ScanBare(dest + close, 0) == |dest| <==> TopClear(ps) && (lone ==> close == "")
  {
    hide ScanBare, Text, Proper, TopClear;
    var tail := if lone then "\\" + close else close;
    assert DestText(BareDest(ps, lone)) + close == Text(Bare, ps) + tail;
    if TopClear(ps) {
      ScanBarePieces(ps, tail, 0);
      StopsAt(close);
      BareStep('\\', close, 0);
      assert lone ==> tail == ['\\'] + close;
    } else {
      ScanStopsShort(ps, tail);
    }
  }

  lemma BareDestinationIff(before: string, gap: string, ps: seq<Piece>, lone: bool, close: string)
    requires Gap(gap) && Proper(Bare, ps) && Delimits(close)
    requires var dest := DestText(BareDest(ps, lone)); dest != "" && dest[0] != '<'
    ensures var d := BareDest(ps, lone); var at := |before| + |gap|;
            Destination(before + gap + (DestText(d) + close), |before|) == Some((at, at + |DestText(d)|))
            <==> Reachable(gap, d, close)
  {
    hide ScanBare, ScanAngle, Text, Proper, TopClear, SkipSpace;
    var dest := DestText(BareDest(ps, lone));
    var raw := before + gap + (dest + close);
    if '>' in gap {
      MarkerMisleads(before, gap, dest + close);
    } else {
      GapIsBlank(gap);
      assert raw[|before|..] == gap + (dest + close);
      SkipsBlank(gap, dest + close);
      assert raw[|before| + |gap|..] == dest + close;
      NoSkip(dest + close);
      FirstOfBare(ps, lone);
      BareEndsIff(ps, lone, close);
    }
  }

  lemma NoSkip(t: string)
    requires t != ""
    ensures SkipSpace(t) == 0 <==> !IsSpace(t[0])
  {
  }

  // ---------------------------------------------------------------- destinations in angle brackets

  lemma AngleDestinationIff(before: string, gap: string, ps: seq<Piece>, close: string)
    requires Gap(gap) && Proper(Angle, ps) && close != "" && close[0] == '>'
    ensures var d := AngleDest(ps); var at := |before| + |gap| + 1;
            Destination(before + gap + ("<" + DestText(d) + close), |before|) == Some((at, at + |DestText(d)|))
            <==> Reachable(gap, d, close)
  {
    hide ScanBare, ScanAngle, Text, Proper, SkipSpace;
    var dest := Text(Angle, ps);
    var rest := "<" + dest + close;
    var raw := before + gap + rest;
    if '>' in gap {
      MarkerMisleads(before, gap, rest);
    } else {
      GapIsBlank(gap);
      assert raw[|before|..] == gap + rest;
      SkipsBlank(gap, rest);
      NoSkip(rest);
      assert raw[|before| + |gap| + 1..] == dest + close;
      ScanAnglePieces(ps, close);
      AngleStep('>', close[1..]);
      assert close == ['>'] + close[1..];
    }
  }

  // ---------------------------------------------------------------- labels

  /** From a balanced label on, the scan is down to the destination. */
  lemma AfterLabel(kind: NodeKind, caption: string, tail: string)
    requires Balanced(Label, caption)
    ensures var raw := Head(kind) + caption + Mid(kind) + tail;
            DestinationRange(raw, kind) == Destination(raw, |Head(kind)| + |caption| + 2)
  {
    hide ScanLabel, Text, Proper, FirstBracket, Destination;
    var pieces :| Proper(Label, pieces) && Text(Label, pieces) == caption;
    var pre := if kind.Image? then "!" else "";
    var last := if kind.Definition? then ":" else "(";
    var raw := Head(kind) + caption + Mid(kind) + tail;
    assert raw == pre + ['['] + caption + [']'] + (last + tail);
    LabelEndFinds(pre, pieces, last + tail);
    var e := |pre| + 1 + |caption|;
    assert raw[e + 1] == last[0];
    if kind.Definition? { ColonHere(raw, e + 1); }
  }

  lemma ColonHere(raw: string, i: nat)
    requires i < |raw| && raw[i] == ':'
    ensures IndexOf(raw, ":", i) == i
  {
    assert StartsAt(raw, ":", i);
  }

  lemma {:induction false} SkipsOnlySpace(t: string)
    ensures forall i | 0 <= i < SkipSpace(t) :: IsSpace(t[i])
  {
    if t != "" && IsSpace(t[0]) {
      SkipsOnlySpace(t[1..]);
      assert forall i | 1 <= i < |t| :: t[i] == t[1..][i - 1];
    }
  }

  lemma InlineShape(kind: NodeKind, caption: string, open: string, rest: string)
    requires !kind.Definition? && ']' !in open
    ensures var raw := Head(kind) + caption + Mid(kind) + (open + rest);
            var t := |Head(kind)| + |caption|;
            && FirstBracket(raw) == |Head(kind)| - 1 && raw[|Head(kind)|..t] == caption
            && raw[t] == ']' && raw[t + 1] == '('
            && forall i | t + 2 <= i < t + 2 + |open| :: raw[i] != ']'
  {
    var raw := Head(kind) + caption + Mid(kind) + (open + rest);
    var t := |Head(kind)| + |caption|;
    assert raw[1..] != "" && (kind.Image? ==> raw[1..][0] == '[');
    forall i | t + 2 <= i < t + 2 + |open| ensures raw[i] != ']' {
      assert raw[i] == open[i - t - 2] && open[i - t - 2] in open;
    }
  }

  /** If the destination starts where it should, the label ended where it should. */
  lemma EndsAtLabel(raw: string, t: nat, width: nat, e: nat, end: nat)
    requires t + 2 + width <= |raw| && raw[t] == ']' && raw[t + 1] == '('
    requires forall i | t + 2 <= i < t + 2 + width :: raw[i] != ']'
    requires e + 1 < |raw| && raw[e] == ']' && raw[e + 1] == '('
    requires Destination(raw, e + 2) == Some((t + 2 + width, end))
    ensures e == t
  {
    hide SkipSpace, ScanBare, ScanAngle;
    SkipsOnlySpace(raw[e + 2..]);
    var skipped := e + 2 + SkipSpace(raw[e + 2..]);
    assert skipped == t + 2 + width || skipped == t + 1 + width;
    forall i | e + 2 <= i < skipped ensures IsSpace(raw[i]) {
      assert raw[i] == raw[e + 2..][i - (e + 2)];
    }
    assert !IsSpace(']');
  }

  lemma LabelWasBalanced(kind: NodeKind, caption: string, open: string, rest: string, end: nat)
    requires !kind.Definition? && ']' !in open
    requires var raw := Head(kind) + caption + Mid(kind) + (open + rest);
             DestinationRange(raw, kind) == Some((|Head(kind)| + |caption| + 2 + |open|, end))
    ensures Balanced(Label, caption)
  {
    hide LabelEnd, Balanced, FirstBracket, Destination, IsSpace;
    var raw := Head(kind) + caption + Mid(kind) + (open + rest);
    var e := LabelEnd(raw).value;
    InlineShape(kind, caption, open, rest);
    LabelEndIff(raw, e);
    EndsAtLabel(raw, |Head(kind)| + |caption|, |open|, e, end);
  }

  // ---------------------------------------------------------------- exactly when the destination is found

  /**
   * For every reference CommonMark allows, the scan returns exactly the authored destination if
   * and only if the label balances by bracket count, no block-quote marker stands before the
   * destination, and a bare destination has no white space outside parentheses and no loose
   * backslash running into what follows.
   */
  lemma DestinationExactIff(p: Part)
    requires p.Ref? && Written(p)
    ensures DestinationRange(PartSource(p), p.kind) == Some((DestAt(p), DestAt(p) + |DestText(p.dest)|))
            <==> Scannable(p)
  {
    hide Balanced, Source, DestinationRange, Destination, Proper, Text, Gap, Delimits, DestText, Reachable;
    var caption := Source(p.caption);
    var before := Head(p.kind) + caption + Mid(p.kind);
    var rest := DestText(p.dest) + p.close;
    var tail := Opening(p) + rest;
    assert PartSource(p) == before + tail;
    Brackets(p);
    if Balanced(Label, caption) {
      AfterLabel(p.kind, caption, tail);
      if p.dest.BareDest? {
        assert before + p.gap + rest == before + tail;
        BareDestinationIff(before, p.gap, p.dest.pieces, p.dest.lone, p.close);
      } else {
        assert before + p.gap + ("<" + DestText(p.dest) + p.close) == before + tail;
        AngleDestinationIff(before, p.gap, p.dest.pieces, p.close);
      }
    } else if DestinationRange(PartSource(p), p.kind) == Some((DestAt(p), DestAt(p) + |DestText(p.dest)|)) {
      LabelWasBalanced(p.kind, caption, Opening(p), rest, DestAt(p) + |DestText(p.dest)|);
    }
  }

  lemma Brackets(p: Part)
    requires p.Ref? && Gap(p.gap)
    ensures ']' !in Opening(p)
  {
  }

  // ---------------------------------------------------------------- replacements

  datatype Cut = Cut(start: nat, end: nat, value: string)

  /** The replacements a page calls for, last one first. */
  function Cuts(ps: seq<Part>, at: nat): seq<Cut>
    decreases ps
  {
    if ps == [] then []
    else Cuts(ps[1..], at + |PartSource(ps[0])|) + PartCuts(ps[0], at)
  }

  function PartCuts(p: Part, at: nat): seq<Cut>
    decreases p
  {
    if p.Plain? then [] else Own(p, at) + Cuts(p.caption, at + |Head(p.kind)|)
  }

  function Own(p: Part, at: nat): seq<Cut>
    requires p.Ref?
  {
    if p.next.None? then [] else [Cut(at + DestAt(p), at + DestAt(p) + |DestText(p.dest)|, p.next.value)]
  }

  function JsSlice(s: string, from: nat, to: nat): string {
    var b := if to < |s| then to else |s|;
    if from <= b then s[from..b] else ""
  }

  function Splice(s: string, c: Cut): string {
    JsSlice(s, 0, c.start) + c.value + JsSlice(s, c.end, |s|)
  }

  function SpliceAll(s: string, cuts: seq<Cut>): string
    decreases |cuts|
  {
    if cuts == [] then s else SpliceAll(Splice(s, cuts[0]), cuts[1..])
  }

  lemma {:induction false} SpliceTwice(s: string, xs: seq<Cut>, ys: seq<Cut>)
    ensures SpliceAll(s, xs + ys) == SpliceAll(SpliceAll(s, xs), ys)
    decreases |xs|
  {
    if xs == [] {
      assert xs + ys == ys;
    } else {
      assert (xs + ys)[1..] == xs[1..] + ys;
      SpliceTwice(Splice(s, xs[0]), xs[1..], ys);
    }
  }

  /** Last one first, the replacements turn a stretch of page into its rewritten form, around it nothing moves. */
  lemma {:induction false} SplicesPage(before: string, ps: seq<Part>, after: string)
    ensures SpliceAll(before + Source(ps) + after, Cuts(ps, |before|)) == before + Rewritten(ps) + after
    decreases ps
  {
    if ps == [] {
    } else {
      var p, rest := ps[0], ps[1..];
      hide Source, Rewritten, Cuts, SpliceAll, PartSource, PartRewritten, PartCuts;
      PageStep(ps, |before|);
      var before' := before + PartSource(p);
      SpliceTwice(before + Source(ps) + after, Cuts(rest, |before'|), PartCuts(p, |before|));
      Regroup(before, PartSource(p), Source(rest), after);
      SplicesPage(before', rest, after);
      Regroup(before, PartSource(p), Rewritten(rest), after);
      SplicesPart(before, p, Rewritten(rest) + after);
      Regroup(before, PartRewritten(p), Rewritten(rest), after);
    }
  }

  lemma Regroup(a: string, b: string, c: string, d: string)
    ensures a + (b + c) + d == (a + b) + c + d == a + b + (c + d)
  {
  }

  lemma PageStep(ps: seq<Part>, at: nat)
    requires ps != []
    ensures Source(ps) == PartSource(ps[0]) + Source(ps[1..])
    ensures Rewritten(ps) == PartRewritten(ps[0]) + Rewritten(ps[1..])
    ensures Cuts(ps, at) == Cuts(ps[1..], at + |PartSource(ps[0])|) + PartCuts(ps[0], at)
  {
  }

  lemma {:induction false} SplicesPart(before: string, p: Part, after: string)
    ensures SpliceAll(before + PartSource(p) + after, PartCuts(p, |before|)) == before + PartRewritten(p) + after
    decreases p
  {
    if p.Ref? {
      hide Source, Rewritten, Cuts, SpliceAll, Splice, DestText, Opening, Head, Mid;
      var before' := before + Head(p.kind);
      var gap := Mid(p.kind) + Opening(p);
      Layout(before, Head(p.kind), Source(p.caption), Mid(p.kind), Opening(p), DestText(p.dest), p.close, after);
      Layout(before, Head(p.kind), Source(p.caption), Mid(p.kind), Opening(p), NewDest(p), p.close, after);
      Layout(before, Head(p.kind), Rewritten(p.caption), Mid(p.kind), Opening(p), NewDest(p), p.close, after);
      SpliceTwice(before + PartSource(p) + after, Own(p, |before|), Cuts(p.caption, |before'|));
      SpliceOwn(before + PartSource(p) + after, Own(p, |before|));
      if p.next.Some? {
        SpliceAt(before' + Source(p.caption) + gap, DestText(p.dest), p.close + after, Own(p, |before|)[0]);
      }
      SplicesPage(before', p.caption, gap + NewDest(p) + p.close + after);
    } else {
      assert PartCuts(p, |before|) == [];
    }
  }

  lemma Layout(before: string, head: string, inside: string, mid: string, open: string, dest: string, close: string,
    after: string)
    ensures before + (head + inside + mid + open + dest + close) + after
         == (before + head + inside + (mid + open)) + dest + (close + after)
         == (before + head) + inside + ((mid + open) + dest + close + after)
  {
  }

  lemma SpliceOwn(s: string, own: seq<Cut>)
    requires |own| <= 1
    ensures SpliceAll(s, own) == if own == [] then s else Splice(s, own[0])
  {
    if own != [] { assert own[1..] == []; }
  }

  lemma SpliceAt(left: string, dest: string, right: string, c: Cut)
    requires c.start == |left| && c.end == |left| + |dest|
    ensures Splice(left + dest + right, c) == left + c.value + right
  {
  }

  // ---------------------------------------------------------------- disjoint, hence sortable

  predicate Within(c: Cut, lo: nat, hi: nat) {
    lo < c.start <= c.end < hi
  }

  /** Strictly between the two offsets, and in descending order with something between any two. */
  ghost predicate Apart(cuts: seq<Cut>, lo: nat, hi: nat) {
    && (forall i | 0 <= i < |cuts| :: Within(cuts[i], lo, hi))
    && forall i, j | 0 <= i < j < |cuts| :: cuts[j].end < cuts[i].start
  }

  lemma ApartJoin(high: seq<Cut>, low: seq<Cut>, lo: nat, mid: nat, hi: nat)
    requires lo <= mid <= hi && Apart(high, mid, hi + 1) && Apart(low, lo, mid + 1)
    ensures Apart(high + low, lo, hi + 1)
  {
    forall i, j | 0 <= i < j < |high + low| ensures (high + low)[j].end < (high + low)[i].start {
      if i < |high| <= j { assert Within(high[i], mid, hi + 1) && Within(low[j - |high|], lo, mid + 1); }
    }
  }

  /** The destinations of different references never overlap or touch. */
  lemma {:induction false} PageApart(ps: seq<Part>, at: nat)
    ensures Apart(Cuts(ps, at), at, at + |Source(ps)| + 1)
    decreases ps
  {
    hide Source, Cuts, PartSource, PartCuts, Apart, Rewritten, PartRewritten;
    if ps == [] {
      NoCuts(at);
    } else {
      PageStep(ps, at);
      PageLength(ps);
      var mid := at + |PartSource(ps[0])|;
      PageApart(ps[1..], mid);
      PartApart(ps[0], at);
      ApartJoin(Cuts(ps[1..], mid), PartCuts(ps[0], at), at, mid, at + |Source(ps)|);
    }
  }

  lemma NoCuts(at: nat)
    ensures Cuts([], at) == [] && Source([]) == "" && Apart([], at, at + 1)
  {
  }

  lemma PageLength(ps: seq<Part>)
    requires ps != []
    ensures |Source(ps)| == |PartSource(ps[0])| + |Source(ps[1..])|
  {
  }

  lemma PartLength(p: Part, at: nat)
    requires p.Ref?
    ensures |PartSource(p)| == DestAt(p) + |DestText(p.dest)| + |p.close|
    ensures DestAt(p) >= |Head(p.kind)| + |Source(p.caption)| + 2
    ensures PartCuts(p, at) == Own(p, at) + Cuts(p.caption, at + |Head(p.kind)|)
  {
  }

  lemma {:induction false} PartApart(p: Part, at: nat)
    ensures Apart(PartCuts(p, at), at, at + |PartSource(p)| + 1)
    decreases p
  {
    if p.Ref? {
      var lo := at + |Head(p.kind)|;
      PartLength(p, at);
      hide Source, Cuts, Apart, PartSource, PartCuts, DestAt;
      PageApart(p.caption, lo);
      OwnApart(Own(p, at), Cuts(p.caption, lo), at, lo, lo + |Source(p.caption)| + 1, at + |PartSource(p)| + 1);
    } else {
      assert PartCuts(p, at) == [];
    }
  }

  lemma OwnApart(own: seq<Cut>, low: seq<Cut>, lo: nat, from: nat, mid: nat, hi: nat)
    requires |own| <= 1 && lo <= from && mid <= hi && Apart(low, from, mid)
    requires own != [] ==> lo < own[0].start && mid <= own[0].start <= own[0].end < hi
    ensures Apart(own + low, lo, hi)
  {
    forall i, j | 0 <= i < j < |own + low| ensures (own + low)[j].end < (own + low)[i].start {
      if i < |own| <= j { assert Within(low[j - |own|], from, mid); }
    }
  }

  /** Stable sort by descending start. */
  function SortDesc(s: seq<Cut>): seq<Cut>
    decreases |s|
  {
    if s == [] then [] else Insert(s[0], SortDesc(s[1..]))
  }

  function Insert(c: Cut, s: seq<Cut>): seq<Cut>
    decreases |s|
  {
    if s == [] || s[0].start <= c.start then [c] + s else [s[0]] + Insert(c, s[1..])
  }

  function Without(d: seq<Cut>, i: nat): seq<Cut>
    requires i < |d|
  {
    d[..i] + d[i + 1..]
  }

  lemma WithoutStep(d: seq<Cut>, i: nat)
    requires 0 < i < |d|
    ensures Without(d, i) != [] && Without(d, i)[0] == d[0] && Without(d, i)[1..] == Without(d[1..], i - 1)
  {
  }

  lemma ApartLess(d: seq<Cut>, i: nat, lo: nat, hi: nat)
    requires i < |d| && Apart(d, lo, hi)
    ensures Apart(d[1..], lo, hi) && Apart(Without(d, i), lo, hi)
    ensures 0 < i ==> d[i].start < d[0].start
    ensures i + 1 < |d| ==> d[i + 1].start < d[i].start
  {
    assert Within(d[i], lo, hi);
    if i + 1 < |d| { assert Within(d[i + 1], lo, hi); }
  }

  lemma {:induction false} InsertBack(d: seq<Cut>, i: nat, lo: nat, hi: nat)
    requires i < |d| && Apart(d, lo, hi)
    ensures Insert(d[i], Without(d, i)) == d
    decreases |d|
  {
    hide Apart, Without, Insert;
    ApartLess(d, i, lo, hi);
    if i == 0 {
      InsertFirst(d);
    } else {
      WithoutStep(d, i);
      InsertLater(d[i], Without(d, i));
      InsertBack(d[1..], i - 1, lo, hi);
    }
  }

  lemma InsertFirst(d: seq<Cut>)
    requires d != [] && (|d| > 1 ==> d[1].start < d[0].start)
    ensures Insert(d[0], Without(d, 0)) == d
  {
    assert Without(d, 0) == d[1..];
  }

  lemma InsertLater(c: Cut, s: seq<Cut>)
    requires s != [] && c.start < s[0].start
    ensures Insert(c, s) == [s[0]] + Insert(c, s[1..])
  {
  }

  lemma WithoutOne(d: seq<Cut>, i: nat)
    requires i < |d|
    ensures multiset(d) == multiset(Without(d, i)) + multiset{d[i]}
  {
    assert d == d[..i] + [d[i]] + d[i + 1..];
  }

  /** In whatever order they were found, sorting leaves exactly one order. */
  lemma {:induction false} SortsTo(found: seq<Cut>, d: seq<Cut>, lo: nat, hi: nat)
    requires Apart(d, lo, hi) && multiset(found) == multiset(d)
    ensures SortDesc(found) == d
    decreases |found|
  {
    hide Apart, Without, Insert;
    if found == [] {
      assert |multiset(d)| == 0;
    } else {
      var i := Located(found[0], found, d);
      WithoutOne(d, i);
      WithoutOne(found, 0);
      FirstGone(found);
      Cancel(multiset(found[1..]), multiset(Without(d, i)), found[0]);
      ApartLess(d, i, lo, hi);
      SortsTo(found[1..], Without(d, i), lo, hi);
      InsertBack(d, i, lo, hi);
    }
  }

  lemma Cancel(a: multiset<Cut>, b: multiset<Cut>, c: Cut)
    requires a + multiset{c} == b + multiset{c}
    ensures a == b
  {
    assert a == (a + multiset{c}) - multiset{c};
    assert b == (b + multiset{c}) - multiset{c};
  }

  lemma FirstGone(found: seq<Cut>)
    requires found != []
    ensures Without(found, 0) == found[1..]
  {
  }

  lemma Located(c: Cut, found: seq<Cut>, d: seq<Cut>) returns (i: nat)
    requires c in found && multiset(found) == multiset(d)
    ensures i < |d| && d[i] == c
  {
    assert c in multiset(found);
    i :| 0 <= i < |d| && d[i] == c;
  }

  // ---------------------------------------------------------------- the parser's nodes

  datatype MdNode = MdNode(kind: NodeKind, start: nat, end: nat, next: Option<string>, children: seq<MdNode>)

  /** What the parser reports of a page: each reference with its offsets. */
  function Nodes(ps: seq<Part>, at: nat): seq<MdNode>
    decreases ps
  {
    if ps == [] then []
    else PartNodes(ps[0], at) + Nodes(ps[1..], at + |PartSource(ps[0])|)
  }

  function PartNodes(p: Part, at: nat): seq<MdNode>
    decreases p
  {
    if p.Plain? then []
    else [MdNode(p.kind, at, at + |PartSource(p)|, p.next, Nodes(p.caption, at + |Head(p.kind)|))]
  }

  function OwnCut(source: string, n: MdNode): Option<seq<Cut>> {
    if n.next.None? then Some([])
    else
      var range := DestinationRange(JsSlice(source, n.start, n.end), n.kind);
      if range.None? then None
      else Some([Cut(n.start + range.value.0, n.start + range.value.1, n.next.value)])
  }

  function Both(a: Option<seq<Cut>>, b: Option<seq<Cut>>): Option<seq<Cut>> {
    if a.None? || b.None? then None else Some(a.value + b.value)
  }

  /** The replacements in the order the visit finds them, or none when a destination is not located. */
  function Collect(source: string, nodes: seq<MdNode>): Option<seq<Cut>>
    decreases nodes
  {
    if nodes == [] then Some([]) else Both(CollectNode(source, nodes[0]), Collect(source, nodes[1..]))
  }

  function CollectNode(source: string, n: MdNode): Option<seq<Cut>>
    decreases n
  {
    Both(OwnCut(source, n), Collect(source, n.children))
  }

  function Rewrite(source: string, nodes: seq<MdNode>): Option<string> {
    var found := Collect(source, nodes);
    if found.None? then None else Some(SpliceAll(source, SortDesc(found.value)))
  }

  lemma {:induction false} CollectsPage(source: string, before: string, ps: seq<Part>, after: string)
    requires source == before + Source(ps) + after && Wellformed(ps)
    ensures var found := Collect(source, Nodes(ps, |before|));
            found.Some? && multiset(found.value) == multiset(Cuts(ps, |before|))
    decreases ps
  {
    hide Source, Cuts, PartSource, PartCuts, Nodes, PartNodes, Collect, CollectNode, Wellformed;
    if ps == [] {
      NoCuts(|before|);
      NoNodes(source, |before|);
    } else {
      var p, rest, before' := ps[0], ps[1..], before + PartSource(ps[0]);
      RestWellformed(ps);
      NodesStep(source, ps, |before|);
      PageStep(ps, |before|);
      Regroup(before, PartSource(p), Source(rest), after);
      CollectsPage(source, before', rest, after);
      if p.Ref? {
        CollectsRef(source, before, p, Source(rest) + after);
      } else {
        PlainCuts(p, |before|);
      }
    }
  }

  lemma NoNodes(source: string, at: nat)
    ensures Nodes([], at) == [] && Collect(source, []) == Some([])
  {
  }

  ghost predicate WellformedRef(p: Part)
    requires p.Ref?
  {
    Wellformed(p.caption) && (p.next.Some? ==> Written(p) && Scannable(p))
  }

  lemma RestWellformed(ps: seq<Part>)
    requires ps != [] && Wellformed(ps)
    ensures Wellformed(ps[1..]) && (ps[0].Ref? ==> WellformedRef(ps[0]))
  {
    assert forall q | q in ps[1..] :: q in ps;
    assert ps[0] in ps;
  }

  lemma PlainCuts(p: Part, at: nat)
    requires p.Plain?
    ensures PartCuts(p, at) == []
  {
  }

  lemma NodesStep(source: string, ps: seq<Part>, at: nat)
    requires ps != []
    ensures var p, rest := ps[0], Nodes(ps[1..], at + |PartSource(ps[0])|);
            Collect(source, Nodes(ps, at)) ==
            if p.Plain? then Collect(source, rest)
            else Both(CollectNode(source, PartNodes(p, at)[0]), Collect(source, rest))
  {
    var p, rest := ps[0], Nodes(ps[1..], at + |PartSource(ps[0])|);
    if p.Plain? {
      assert Nodes(ps, at) == rest;
    } else {
      var n := PartNodes(p, at)[0];
      assert Nodes(ps, at) == [n] + rest;
      assert ([n] + rest)[1..] == rest;
    }
  }

  lemma CollectsRef(source: string, before: string, p: Part, after: string)
    requires p.Ref? && WellformedRef(p) && source == before + PartSource(p) + after
    ensures var found := CollectNode(source, PartNodes(p, |before|)[0]);
            found.Some? && multiset(found.value) == multiset(PartCuts(p, |before|))
    decreases p, 0
  {
    hide Source, Cuts, Nodes, Collect, Wellformed, DestinationRange, DestAt;
    var before' := before + Head(p.kind);
    var tail := (Mid(p.kind) + Opening(p)) + DestText(p.dest) + p.close + after;
    var n := PartNodes(p, |before|)[0];
    Layout(before, Head(p.kind), Source(p.caption), Mid(p.kind), Opening(p), DestText(p.dest), p.close, after);
    CollectsPage(source, before', p.caption, tail);
    OwnFound(source, before, p, after, n);
  }

  lemma OwnFound(source: string, before: string, p: Part, after: string, n: MdNode)
    requires p.Ref? && (p.next.Some? ==> Written(p) && Scannable(p))
    requires source == before + PartSource(p) + after
    requires n.kind == p.kind && n.next == p.next && n.start == |before| && n.end == |before| + |PartSource(p)|
    ensures OwnCut(source, n) == Some(Own(p, |before|))
  {
    hide Source, DestinationRange, DestAt, PartSource;
    SliceOut(before, PartSource(p), after);
    if p.next.Some? { DestinationExactIff(p); }
  }

  lemma SliceOut(before: string, x: string, after: string)
    ensures JsSlice(before + x + after, |before|, |before| + |x|) == x
  {
  }

  /**
   * On a page whose references to rewrite are well written, the rewrite replaces exactly their
   * destinations and nothing else, however deep they nest.
   */
  lemma RewriteReplacesDestinations(ps: seq<Part>)
    requires Wellformed(ps)
    ensures Rewrite(Source(ps), Nodes(ps, 0)) == Some(Rewritten(ps))
  {
    hide Source, Rewritten, Cuts, Nodes, Collect, Wellformed, SpliceAll, SortDesc, Apart;
    assert "" + Source(ps) + "" == Source(ps) && "" + Rewritten(ps) + "" == Rewritten(ps);
    CollectsPage(Source(ps), "", ps, "");
    AnyOrder(ps, Collect(Source(ps), Nodes(ps, 0)).value);
  }

  /** The order in which the replacements were found does not matter. */
  lemma AnyOrder(ps: seq<Part>, found: seq<Cut>)
    requires multiset(found) == multiset(Cuts(ps, 0))
    ensures SpliceAll(Source(ps), SortDesc(found)) == Rewritten(ps)
  {
    hide Source, Rewritten, Cuts, SpliceAll, SortDesc, Apart;
    assert "" + Source(ps) + "" == Source(ps) && "" + Rewritten(ps) + "" == Rewritten(ps);
    PageApart(ps, 0);
    SortsTo(found, Cuts(ps, 0), 0, |Source(ps)| + 1);
    SplicesPage("", ps, "");
  }

  // ---------------------------------------------------------------- the visit and the loop

  method Visit(source: string, nodes: seq<MdNode>, before: seq<Cut>) returns (replacements: Option<seq<Cut>>)
    ensures replacements == Both(Some(before), Collect(source, nodes))
    decreases nodes
  {
    hide DestinationRange, Collect;
    var found := before;
    var i := 0;
    CollectEnd(source, nodes);
    while i < |nodes|
      invariant 0 <= i <= |nodes|
      invariant Both(Some(before), Collect(source, nodes)) == Both(Some(found), Collect(source, nodes[i..]))
    {
      var node := nodes[i];
      CollectStep(source, nodes, i);
      ghost var rest := Collect(source, nodes[i + 1..]);
      ghost var was := found;
      assert was + [] == was;
      if node.next.Some? {
        var range := FindDestination(JsSlice(source, node.start, node.end), node.kind);
        if range.None? { return None; }
        found := found + [Cut(node.start + range.value.0, node.start + range.value.1, node.next.value)];
      }
      BothTwice(was, OwnCut(source, node), Collect(source, node.children), rest);
      var more := Visit(source, node.children, found);
      if more.None? { return None; }
      found := more.value;
      i := i + 1;
    }
    assert found + [] == found;
    replacements := Some(found);
  }

  lemma CollectStep(source: string, nodes: seq<MdNode>, i: nat)
    requires i < |nodes|
    ensures Collect(source, nodes[i..])
         == Both(Both(OwnCut(source, nodes[i]), Collect(source, nodes[i].children)), Collect(source, nodes[i + 1..]))
  {
    assert nodes[i..][1..] == nodes[i + 1..];
  }

  lemma NoCutsFirst(all: Option<seq<Cut>>)
    ensures Both(Some([]), all) == all
  {
    if all.Some? {
      var none: seq<Cut> := [];
      assert none + all.value == all.value;
    }
  }

  lemma CollectEnd(source: string, nodes: seq<MdNode>)
    ensures nodes[0..] == nodes && nodes[|nodes|..] == [] && Collect(source, []) == Some([])
    ensures Both(Some([]), Collect(source, nodes)) == Collect(source, nodes)
  {
    hide Collect;
    NoCutsFirst(Collect(source, nodes));
    assert Collect(source, []) == Some([]) by { NoNodes(source, 0); }
  }

  lemma BothTwice(a: seq<Cut>, own: Option<seq<Cut>>, inner: Option<seq<Cut>>, rest: Option<seq<Cut>>)
    ensures Both(Some(a), Both(Both(own, inner), rest)) == Both(Both(Both(Some(a), own), inner), rest)
  {
    if own.Some? && inner.Some? && rest.Some? {
      assert a + ((own.value + inner.value) + rest.value) == ((a + own.value) + inner.value) + rest.value;
    }
  }

  method RewriteMarkdown(source: string, nodes: seq<MdNode>) returns (r: Option<string>)
    ensures r == Rewrite(source, nodes)
  {
    hide Collect, SortDesc, Splice;
    var found := Visit(source, nodes, []);
    CollectEnd(source, nodes);
    if found.None? { return None; }
    var replacements := SortDesc(found.value);
    var projected := source;
    for i := 0 to |replacements|
      invariant SpliceAll(source, replacements) == SpliceAll(projected, replacements[i..])
    {
      assert replacements[i..][1..] == replacements[i + 1..];
      projected := Splice(projected, replacements[i]);
    }
    r := Some(projected);
  }
}
