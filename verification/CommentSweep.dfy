/**
 * Prose lines of a Markdown source (`scripts/markdown.ts`): HTML comments are found in raw HTML
 * nodes, projected from source offsets onto lines, and swept out of each line in column order.
 * An HTML node is taken with its offset and its text as authored.
 */
module CommentSweep {
  import opened Prelude
  import opened JsText

  datatype Range = Range(start: nat, end: nat)

  predicate Covers(r: Range, k: nat) { r.start <= k < r.end }

  predicate Covered(rs: seq<Range>, k: nat) {
    exists r | r in rs :: Covers(r, k)
  }

  // ---------------------------------------------------------------- comments in one HTML node

  const OPEN := "<!--"
  const CLOSE := "-->"

  /** Where a comment whose body starts at `i` ends: after the first close, else with the text. */
  function CommentEnd(s: string, i: nat): (e: nat)
    requires i <= |s|
    ensures i <= e <= |s|
    decreases |s| - i
  {
    if i == |s| then i else if StartsAt(s, CLOSE, i) then i + 3 else CommentEnd(s, i + 1)
  }

  /** Reading character by character: the comments from `i` on, left to right. */
  function CommentsFrom(s: string, i: nat): seq<Range>
    requires i <= |s|
    decreases |s| - i
  {
    if i == |s| then []
    else if StartsAt(s, OPEN, i) then
      var e := CommentEnd(s, i + 4);
      [Range(i, e)] + CommentsFrom(s, e)
    else CommentsFrom(s, i + 1)
  }

  lemma {:induction false} SkipText(s: string, i: nat, j: nat)
    requires i <= j <= |s| && forall k | i <= k < j :: !StartsAt(s, OPEN, k)
    ensures CommentsFrom(s, i) == CommentsFrom(s, j)
    decreases j - i
  {
    if i < j { SkipText(s, i + 1, j); }
  }

  lemma {:induction false} SkipBody(s: string, i: nat, j: nat)
    requires i <= j <= |s| && forall k | i <= k < j :: !StartsAt(s, CLOSE, k)
    ensures CommentEnd(s, i) == CommentEnd(s, j)
    decreases j - i
  {
    if i < j { SkipBody(s, i + 1, j); }
  }

  /** The next comment, as the two index searches see it. */
  lemma NextComment(s: string, cursor: nat, start: nat, close: nat)
    requires cursor <= start <= |s| && StartsAt(s, OPEN, start)
    requires forall k | cursor <= k < start :: !StartsAt(s, OPEN, k)
    requires start + 4 <= close && forall k | start + 4 <= k < close :: !StartsAt(s, CLOSE, k)
    requires close <= |s| ==> StartsAt(s, CLOSE, close)
    ensures var end := if close > |s| then |s| else close + 3;
            start < end <= |s| && CommentsFrom(s, cursor) == [Range(start, end)] + CommentsFrom(s, end)
  {
    SkipText(s, cursor, start);
    SkipBody(s, start + 4, if close > |s| then |s| else close);
  }

  lemma NoMore(s: string, cursor: nat)
    requires cursor <= |s| && forall k | cursor <= k < |s| :: !StartsAt(s, OPEN, k)
    ensures CommentsFrom(s, cursor) == []
  {
    SkipText(s, cursor, |s|);
  }

  predicate Nowhere(what: string, s: string) {
    forall i | 0 <= i < |s| :: !StartsAt(s, what, i)
  }

  /**
   * A written comment is found from its opening to its close, and what follows is read on its own; one
   * that is not closed takes all the rest.
   */
  lemma WrittenComment(before: string, body: string, after: string)
    requires Nowhere("<!--", before + "<!-") && Nowhere("-->", body + "--")
    ensures var s := before + "<!--" + body + "-->" + after;
            var end := |before| + 4 + |body| + 3;
            CommentsFrom(s, 0) == [Range(|before|, end)] + CommentsFrom(s, end)
    ensures var s := before + "<!--" + body;
            CommentsFrom(s, 0) == [Range(|before|, |s|)]
  {
    ClosedComment(before, body, after);
    OpenComment(before, body);
  }

  lemma OpensAt(before: string, rest: string)
    requires Nowhere("<!--", before + "<!-")
    ensures var s := before + "<!--" + rest;
            StartsAt(s, OPEN, |before|) && forall k | 0 <= k < |before| :: !StartsAt(s, OPEN, k)
  {
    var opening: string := "<!--";
    assert opening[..3] == "<!-";
    FirstAt(before, "<!--", rest);
  }

  lemma ClosedComment(before: string, body: string, after: string)
    requires Nowhere("<!--", before + "<!-") && Nowhere("-->", body + "--")
    ensures var s := before + "<!--" + body + "-->" + after;
            var end := |before| + 4 + |body| + 3;
            CommentsFrom(s, 0) == [Range(|before|, end)] + CommentsFrom(s, end)
  {
    var s := before + "<!--" + body + "-->" + after;
    assert s == before + "<!--" + (body + "-->" + after);
    OpensAt(before, body + "-->" + after);
    assert s == (before + "<!--") + body + ("-->" + after);
    BodyAt(before + "<!--", body, "-->" + after);
    hide CommentsFrom, StartsAt, Nowhere;
    NextComment(s, 0, |before|, |before| + 4 + |body|);
  }

  lemma OpenComment(before: string, body: string)
    requires Nowhere("<!--", before + "<!-") && Nowhere("-->", body + "--")
    ensures var s := before + "<!--" + body;
            CommentsFrom(s, 0) == [Range(|before|, |s|)]
  {
    var s := before + "<!--" + body;
    OpensAt(before, body);
    forall k | |before| + 4 <= k <= |s| ensures !StartsAt(s, "-->", k) {
      NotInBody(before + "<!--", body, k);
    }
    assert CommentsFrom(s, |s|) == [];
    hide CommentsFrom, StartsAt, Nowhere;
    NextComment(s, 0, |before|, |s| + 1);
  }

  /** A delimiter that does not stand in a text, even half, stands first right after it. */
  lemma FirstAt(text: string, what: string, rest: string)
    requires |what| > 0 && Nowhere(what, text + what[..|what| - 1])
    ensures StartsAt(text + what + rest, what, |text|)
    ensures forall k | 0 <= k < |text| :: !StartsAt(text + what + rest, what, k)
  {
    var s, near := text + what + rest, text + what[..|what| - 1];
    assert s[|text|..|text| + |what|] == what;
    forall k | 0 <= k < |text| ensures !StartsAt(s, what, k) {
      if StartsAt(s, what, k) {
        assert s[k..k + |what|] == near[k..k + |what|];
        assert StartsAt(near, what, k);
      }
    }
  }

  lemma NotInBody(front: string, body: string, k: nat)
    requires Nowhere("-->", body + "--") && |front| <= k
    ensures !StartsAt(front + body, "-->", k)
  {
    var i := k - |front|;
    assert i + 3 <= |body| ==> (body + "--")[i..i + 3] == (front + body)[k..k + 3];
    assert i < |body| ==> !StartsAt(body + "--", "-->", i);
  }

  lemma BodyAt(front: string, body: string, back: string)
    requires |back| >= 3 && back[..3] == "-->" && Nowhere("-->", body + "--")
    ensures StartsAt(front + body + back, "-->", |front| + |body|)
    ensures forall k | |front| <= k < |front| + |body| :: !StartsAt(front + body + back, "-->", k)
  {
    var s := front + body + back;
    assert s[|front| + |body|..|front| + |body| + 3] == "-->";
    forall k | |front| <= k < |front| + |body| ensures !StartsAt(s, "-->", k) {
      if StartsAt(s, "-->", k) {
        var i := k - |front|;
        assert back[..2] == "--";
        assert s[k..k + 3] == (body + "--")[i..i + 3];
        assert StartsAt(body + "--", "-->", i);
      }
    }
  }

  /** The two index searches find exactly the comments a reader finds. */
  method NodeComments(value: string, offset: nat) returns (comments: seq<Range>)
    ensures comments == Shift(CommentsFrom(value, 0), offset)
  {
    hide CommentsFrom, CommentEnd, Shift, IndexOf;
    comments := [];
    var cursor: nat := 0;
    ghost var found: seq<Range> := [];
    assert [] + CommentsFrom(value, 0) == CommentsFrom(value, 0);
    while true
      invariant cursor <= |value|
      invariant comments == Shift(found, offset)
      invariant CommentsFrom(value, 0) == found + CommentsFrom(value, cursor)
      decreases |value| - cursor
    {
      var start := IndexOf(value, OPEN, cursor);
      if start > |value| {
        NoMore(value, cursor);
        assert found + [] == found;
        return;
      }
      var close := IndexOf(value, CLOSE, start + 4);
      var end := if close > |value| then |value| else close + 3;
      NextComment(value, cursor, start, close);
      ghost var rest := CommentsFrom(value, end);
      assert found + ([Range(start, end)] + rest) == (found + [Range(start, end)]) + rest;
      ShiftMore(found, Range(start, end), offset);
      comments := comments + [Range(offset + start, offset + end)];
      found := found + [Range(start, end)];
      cursor := end;
    }
  }

  lemma ShiftMore(rs: seq<Range>, r: Range, base: nat)
    ensures Shift(rs + [r], base) == Shift(rs, base) + [Range(base + r.start, base + r.end)]
  {
  }

  function Shift(rs: seq<Range>, base: nat): (out: seq<Range>)
    ensures |out| == |rs| && forall i | 0 <= i < |rs| :: out[i] == Range(rs[i].start + base, rs[i].end + base)
  {
    if rs == [] then [] else [Range(rs[0].start + base, rs[0].end + base)] + Shift(rs[1..], base)
  }

  // ---------------------------------------------------------------- inside containers

  /** One line of an HTML node: what the parser strips for the containers around it, and what it keeps. */
  datatype NodeLine = NodeLine(prefix: string, text: string)

  /** The node's value. */
  function Value(ls: seq<NodeLine>): string {
    if ls == [] then "" else if |ls| == 1 then ls[0].text else ls[0].text + "\n" + Value(ls[1..])
  }

  /** Its text in the source, from the first stripped prefix on. */
  function Authored(ls: seq<NodeLine>): string {
    if ls == [] then ""
    else if |ls| == 1 then ls[0].prefix + ls[0].text
    else ls[0].prefix + ls[0].text + "\n" + Authored(ls[1..])
  }

  /** How many characters were stripped before the `k`-th of the value. */
  function Lost(ls: seq<NodeLine>, k: nat): nat {
    if ls == [] then 0
    else |ls[0].prefix| + (if k <= |ls[0].text| then 0 else Lost(ls[1..], k - |ls[0].text| - 1))
  }

  function LineOf(ls: seq<NodeLine>, k: nat): (j: nat)
    requires k < |Value(ls)|
    ensures j < |ls|
    decreases |ls|
  {
    if k <= |ls[0].text| || |ls| == 1 then 0 else 1 + LineOf(ls[1..], k - |ls[0].text| - 1)
  }

  /** That is where the characters of the value stand in the source. */
  lemma {:induction false} LostIsRight(ls: seq<NodeLine>, k: nat)
    requires k < |Value(ls)|
    ensures k + Lost(ls, k) < |Authored(ls)| && Authored(ls)[k + Lost(ls, k)] == Value(ls)[k]
    decreases |ls|
  {
    if |ls| > 1 && k > |ls[0].text| {
      var i := k - |ls[0].text| - 1;
      LostIsRight(ls[1..], i);
      assert Value(ls)[k] == Value(ls[1..])[i];
      var before := ls[0].prefix + ls[0].text + "\n";
      assert Authored(ls) == before + Authored(ls[1..]);
      assert k + Lost(ls, k) == |before| + (i + Lost(ls[1..], i));
    }
  }

  lemma {:induction false} LostNothingIff(ls: seq<NodeLine>, k: nat)
    requires k < |Value(ls)|
    ensures Lost(ls, k) == 0 <==> forall j | 0 <= j <= LineOf(ls, k) :: ls[j].prefix == ""
    decreases |ls|
  {
    if |ls| > 1 && k > |ls[0].text| {
      LostNothingIff(ls[1..], k - |ls[0].text| - 1);
      var n := LineOf(ls, k);
      assert forall j | 0 < j <= n :: ls[j] == ls[1..][j - 1];
      assert (forall j | 0 <= j <= n :: ls[j].prefix == "") <==>
             ls[0].prefix == "" && forall j | 0 <= j <= n - 1 :: ls[1..][j].prefix == "";
    }
  }

  lemma {:induction false} LostGrows(ls: seq<NodeLine>, a: nat, b: nat)
    requires a <= b
    ensures Lost(ls, a) <= Lost(ls, b)
    decreases |ls|
  {
    if ls != [] && a > |ls[0].text| { LostGrows(ls[1..], a - |ls[0].text| - 1, b - |ls[0].text| - 1); }
  }

  /** Where a range of the value stands in the source. */
  function InSource(ls: seq<NodeLine>, offset: nat, r: Range): Range
    requires r.start < r.end
  {
    Range(offset + r.start + Lost(ls, r.start), offset + r.end + Lost(ls, r.end - 1))
  }

  /**
   * Adding the node's offset, as the code does, gives the place of a comment in the source if and only
   * if nothing was stripped from any line of the node up to the one in which the comment ends.
   */
  lemma OffsetIsRightIff(ls: seq<NodeLine>, offset: nat, r: Range)
    requires r.start < r.end <= |Value(ls)|
    ensures InSource(ls, offset, r) == Range(offset + r.start, offset + r.end) <==>
            forall j | 0 <= j <= LineOf(ls, r.end - 1) :: ls[j].prefix == ""
  {
    LostGrows(ls, r.start, r.end - 1);
    LostNothingIff(ls, r.end - 1);
  }

  // ---------------------------------------------------------------- onto lines

  function Max(a: nat, b: nat): nat { if a < b then b else a }
  function Min(a: nat, b: nat): nat { if a < b then a else b }

  /** A comment touches a line: it shares a character with it, or lies over its empty position. */
  predicate Touches(c: Range, offset: nat, len: nat) {
    if len == 0 then c.start <= offset < c.end
    else exists k | offset <= k < offset + len :: Covers(c, k)
  }

  /** The columns one comment occupies on the line. */
  function OneRange(c: Range, offset: nat, len: nat): seq<Range> {
    var from, to := Max(c.start, offset), Min(c.end, offset + len);
    if from < to || (len == 0 && c.start <= offset && c.end > offset)
    then [Range(from - offset, to - offset)] else []
  }

  function LineRanges(comments: seq<Range>, offset: nat, len: nat): seq<Range> {
    if comments == [] then [] else OneRange(comments[0], offset, len) + LineRanges(comments[1..], offset, len)
  }

  lemma OneRangeMeans(c: Range, offset: nat, len: nat)
    ensures var rs := OneRange(c, offset, len);
            && (forall r | r in rs :: r.start <= r.end <= len)
            && (rs != [] <==> Touches(c, offset, len))
            && (forall k | offset <= k < offset + len :: Covers(c, k) <==> Covered(rs, k - offset))
  {
    var from, to := Max(c.start, offset), Min(c.end, offset + len);
    if from < to && len > 0 { assert Covers(c, from); }
    forall k | offset <= k < offset + len ensures Covers(c, k) <==> Covered(OneRange(c, offset, len), k - offset) {
      assert Covers(c, k) ==> Covers(OneRange(c, offset, len)[0], k - offset);
    }
  }

  lemma {:induction false} LineRangesMean(comments: seq<Range>, offset: nat, len: nat)
    ensures var rs := LineRanges(comments, offset, len);
            && (forall r | r in rs :: r.start <= r.end <= len)
            && (rs != [] <==> exists c :: c in comments && Touches(c, offset, len))
            && (forall k | offset <= k < offset + len :: Covered(comments, k) <==> Covered(rs, k - offset))
  {
    if comments != [] {
      var c := comments[0];
      LineRangesMean(comments[1..], offset, len);
      OneRangeMeans(c, offset, len);
      var here, rest, rs :=
        OneRange(c, offset, len), LineRanges(comments[1..], offset, len), LineRanges(comments, offset, len);
      hide OneRange, LineRanges, Touches, Covers;
      assert comments == [c] + comments[1..] && rs == here + rest;
      forall k | offset <= k < offset + len ensures Covered(comments, k) <==> Covered(rs, k - offset) {
        CoveredSplit([c], comments[1..], k);
        CoveredSplit(here, rest, k - offset);
        assert Covered([c], k) <==> Covers(c, k);
      }
    }
  }

  lemma CoveredSplit(a: seq<Range>, b: seq<Range>, k: nat)
    ensures Covered(a + b, k) <==> Covered(a, k) || Covered(b, k)
  {
    if r :| r in a && Covers(r, k) { assert r in a + b; }
    if r :| r in b && Covers(r, k) { assert r in a + b; }
  }

  // ---------------------------------------------------------------- the sweep over one line

  /** The characters of the first `n` columns that no range covers, in order. */
  function Keep(raw: string, rs: seq<Range>, n: nat): string
    requires n <= |raw|
  {
    if n == 0 then "" else Keep(raw, rs, n - 1) + (if Covered(rs, n - 1) then "" else [raw[n - 1]])
  }

  /** String.slice: empty when the bounds cross. */
  function Slice(raw: string, a: nat, b: nat): string {
    if a <= b <= |raw| then raw[a..b] else if a <= |raw| < b then raw[a..] else ""
  }

  predicate SortedByStart(rs: seq<Range>) {
    forall i, j | 0 <= i < j < |rs| :: rs[i].start <= rs[j].start
  }

  method SortByStart(rs: seq<Range>) returns (sorted: seq<Range>)
    ensures SortedByStart(sorted) && forall r :: r in sorted <==> r in rs
  {
    sorted := [];
    for n := 0 to |rs|
      invariant SortedByStart(sorted) && forall r :: r in sorted <==> r in rs[..n]
    {
      var k := |sorted|;
      while k > 0 && sorted[k - 1].start > rs[n].start
        invariant 0 <= k <= |sorted|
        invariant forall i | k <= i < |sorted| :: sorted[i].start > rs[n].start
      {
        k := k - 1;
      }
      InsertMembers(sorted, rs[n], k);
      assert rs[..n + 1] == rs[..n] + [rs[n]];
      sorted := sorted[..k] + [rs[n]] + sorted[k..];
    }
    assert rs[..|rs|] == rs;
  }

  lemma {:induction false} KeepSame(raw: string, a: seq<Range>, b: seq<Range>, n: nat)
    requires n <= |raw| && forall k | 0 <= k < n :: Covered(a, k) == Covered(b, k)
    ensures Keep(raw, a, n) == Keep(raw, b, n)
  {
    if n > 0 { KeepSame(raw, a, b, n - 1); }
  }

  lemma {:induction false} KeepStretch(raw: string, rs: seq<Range>, m: nat, n: nat, covered: bool)
    requires m <= n <= |raw| && forall k | m <= k < n :: Covered(rs, k) == covered
    ensures Keep(raw, rs, n) == Keep(raw, rs, m) + (if covered then "" else raw[m..n])
    decreases n
  {
    if m < n {
      KeepStretch(raw, rs, m, n - 1, covered);
      if !covered { assert raw[m..n] == raw[m..n - 1] + [raw[n - 1]]; }
    }
  }

  /** One round of the sweep: `done` ranges have been taken, all ending by `cursor`. */
  lemma SweepStep(raw: string, done: seq<Range>, r: Range, cursor: nat)
    requires cursor <= |raw| && r.start <= r.end <= |raw|
    requires forall d | d in done :: d.end <= cursor
    requires forall k | r.start <= k < cursor :: Covered(done, k)
    ensures Keep(raw, done + [r], Max(cursor, r.end)) == Keep(raw, done, cursor) + Slice(raw, cursor, r.start)
    ensures forall k :: Covered(done + [r], k) <==> Covered(done, k) || Covers(r, k)
  {
    var all := done + [r];
    forall k ensures Covered(all, k) <==> Covered(done, k) || Covers(r, k) {
      if Covers(r, k) { assert r in all; }
      if d :| d in done && Covers(d, k) { assert d in all; }
    }
    KeepSame(raw, done, all, cursor);
    var mid := Max(cursor, r.start);
    KeepStretch(raw, all, cursor, mid, false);
    KeepStretch(raw, all, mid, Max(cursor, r.end), true);
  }

  /**
   * `hasRenderedTextOutsideComments`: a line without comments always counts; otherwise it needs a
   * non-blank character outside every comment, however the comments overlap.
   */
  method HasRenderedText(raw: string, ranges: Option<seq<Range>>) returns (visible: bool)
    requires ranges.Some? ==> forall r | r in ranges.value :: r.start <= r.end <= |raw|
    ensures visible <==> ranges.None? || exists k :: 0 <= k < |raw| && !Covered(ranges.value, k) && !IsSpace(raw[k])
  {
    if ranges.None? { return true; }
    var sorted := SortByStart(ranges.value);
    var text := Sweep(raw, sorted);
    KeepSame(raw, sorted, ranges.value, |raw|);
    KeepBlank(raw, ranges.value, |raw|);
    visible := !Blank(text);
  }

  /** The cursor sweep keeps exactly the characters no range covers, in order. */
  method Sweep(raw: string, sorted: seq<Range>) returns (text: string)
    requires SortedByStart(sorted) && forall r | r in sorted :: r.start <= r.end <= |raw|
    ensures text == Keep(raw, sorted, |raw|)
  {
    hide Keep, Slice, Swept, SortedByStart;
    var cursor: nat := 0;
    text := "";
    NothingSwept(raw, sorted);
    var i := 0;
    while i < |sorted|
      invariant 0 <= i <= |sorted| && cursor <= |raw|
      invariant Swept(sorted, i, cursor)
      invariant text == Keep(raw, sorted[..i], cursor)
    {
      var r := sorted[i];
      assert r in sorted;
      SweepRound(raw, sorted, i, cursor);
      text := text + Slice(raw, cursor, r.start);
      cursor := Max(cursor, r.end);
      i := i + 1;
    }
    assert sorted[..i] == sorted;
    SweepRest(raw, sorted, cursor);
    text := text + raw[cursor..];
  }

  lemma SweepRound(raw: string, sorted: seq<Range>, i: nat, cursor: nat)
    requires SortedByStart(sorted) && forall r | r in sorted :: r.start <= r.end <= |raw|
    requires i < |sorted| && cursor <= |raw| && Swept(sorted, i, cursor)
    ensures var next := Max(cursor, sorted[i].end);
            && next <= |raw| && Swept(sorted, i + 1, next)
            && Keep(raw, sorted[..i + 1], next)
               == Keep(raw, sorted[..i], cursor) + Slice(raw, cursor, sorted[i].start)
  {
    hide Keep, Slice;
    var r := sorted[i];
    assert r in sorted;
    SweptStep(sorted, i, cursor);
    SweepStep(raw, sorted[..i], r, cursor);
    assert sorted[..i + 1] == sorted[..i] + [r];
  }

  /** Past the last range nothing is covered. */
  lemma SweepRest(raw: string, sorted: seq<Range>, cursor: nat)
    requires cursor <= |raw| && Swept(sorted, |sorted|, cursor)
    ensures Keep(raw, sorted, |raw|) == Keep(raw, sorted, cursor) + raw[cursor..]
  {
    hide Keep;
    assert sorted[..|sorted|] == sorted;
    KeepStretch(raw, sorted, cursor, |raw|, false);
  }

  lemma NothingSwept(raw: string, sorted: seq<Range>)
    ensures Swept(sorted, 0, 0) && Keep(raw, sorted[..0], 0) == ""
  {
  }

  /** After `i` ranges the cursor is past them all, and all between the last start and it is covered. */
  ghost predicate Swept(sorted: seq<Range>, i: nat, cursor: nat)
    requires i <= |sorted|
  {
    && (forall d | d in sorted[..i] :: d.end <= cursor)
    && (i == 0 ==> cursor == 0)
    && (i > 0 ==> forall k | sorted[i - 1].start <= k < cursor :: Covered(sorted[..i], k))
  }

  lemma SweptStep(sorted: seq<Range>, i: nat, cursor: nat)
    requires SortedByStart(sorted) && i < |sorted| && Swept(sorted, i, cursor) && sorted[i].start <= sorted[i].end
    ensures forall d | d in sorted[..i] :: d.end <= cursor
    ensures forall k | sorted[i].start <= k < cursor :: Covered(sorted[..i], k)
    ensures Swept(sorted, i + 1, Max(cursor, sorted[i].end))
  {
    var r := sorted[i];
    var all, next := sorted[..i + 1], Max(cursor, r.end);
    assert all == sorted[..i] + [r];
    forall k | r.start <= k < next ensures Covered(all, k) {
      CoveredSplit(sorted[..i], [r], k);
      if k < cursor { assert Covered(sorted[..i], k); } else { assert r in [r] && Covers(r, k); }
    }
  }

  lemma {:induction false} KeepBlank(raw: string, rs: seq<Range>, n: nat)
    requires n <= |raw|
    ensures Blank(Keep(raw, rs, n)) <==> forall k | 0 <= k < n && !Covered(rs, k) :: IsSpace(raw[k])
  {
    if n > 0 {
      KeepBlank(raw, rs, n - 1);
      var c := if Covered(rs, n - 1) then "" else [raw[n - 1]];
      assert Keep(raw, rs, n) == Keep(raw, rs, n - 1) + c;
      assert c != "" ==> c[0] in Keep(raw, rs, n);
    }
  }

  // ---------------------------------------------------------------- all lines

  datatype ProseLine = ProseLine(index: nat, raw: string)

  function LineOffset(lines: seq<string>, i: nat): nat
    requires i <= |lines|
  {
    if i == 0 then 0 else LineOffset(lines, i - 1) + |lines[i - 1]| + 1
  }

  /** The source the lines were split from. */
  function Joined(lines: seq<string>): string {
    if lines == [] then ""
    else if |lines| == 1 then lines[0]
    else Joined(lines[..|lines| - 1]) + "\n" + lines[|lines| - 1]
  }

  /** A line's offset is where it stands in the source. */
  lemma {:induction false} LineOffsetIs(lines: seq<string>, i: nat)
    requires i < |lines|
    ensures var at := LineOffset(lines, i);
            && at + |lines[i]| <= |Joined(lines)| && Joined(lines)[at..at + |lines[i]|] == lines[i]
            && (i == |lines| - 1 ==> at + |lines[i]| == |Joined(lines)|)
            && (i < |lines| - 1 ==> at + |lines[i]| < |Joined(lines)| && Joined(lines)[at + |lines[i]|] == '\n')
    decreases |lines|
  {
    if |lines| > 1 {
      var front := lines[..|lines| - 1];
      OffsetOfFront(lines, i);
      if i < |front| {
        LineOffsetIs(front, i);
      } else {
        LineOffsetIs(front, i - 1);
        OffsetOfFront(lines, i - 1);
        assert LineOffset(lines, i) == |Joined(front)| + 1;
      }
    }
  }

  lemma {:induction false} OffsetOfFront(lines: seq<string>, i: nat)
    requires i < |lines|
    ensures LineOffset(lines, i) == LineOffset(lines[..|lines| - 1], i)
  {
    if i > 0 { OffsetOfFront(lines, i - 1); }
  }

  /** What a reader is promised: unfenced, and untouched by comments or with text outside them. */
  predicate IsProse(lines: seq<string>, comments: seq<Range>, fenced: set<nat>, i: nat)
    requires i < |lines|
  {
    var offset, raw := LineOffset(lines, i), lines[i];
    && i + 1 !in fenced
    && ((forall c | c in comments :: !Touches(c, offset, |raw|)) ||
        exists k :: offset <= k < offset + |raw| && !Covered(comments, k) && !IsSpace(raw[k - offset]))
  }

  function ProseLines(lines: seq<string>, comments: seq<Range>, fenced: set<nat>, n: nat): seq<ProseLine>
    requires n <= |lines|
  {
    if n == 0 then []
    else ProseLines(lines, comments, fenced, n - 1) +
         (if IsProse(lines, comments, fenced, n - 1) then [ProseLine(n, lines[n - 1])] else [])
  }

  /** They are the lines that are prose, under their numbers from one, and in their order. */
  lemma {:induction false} ProseLinesAre(
    lines: seq<string>, comments: seq<Range>, fenced: set<nat>, n: nat, number: nat, raw: string)
    requires n <= |lines|
    ensures ProseLine(number, raw) in ProseLines(lines, comments, fenced, n) <==>
              0 < number <= n && raw == lines[number - 1] && IsProse(lines, comments, fenced, number - 1)
  {
    if n > 0 { ProseLinesAre(lines, comments, fenced, n - 1, number, raw); }
  }

  lemma {:induction false} ProseLinesInOrder(
    lines: seq<string>, comments: seq<Range>, fenced: set<nat>, n: nat, i: nat, j: nat)
    requires n <= |lines| && i < j < |ProseLines(lines, comments, fenced, n)|
    ensures ProseLines(lines, comments, fenced, n)[i].index < ProseLines(lines, comments, fenced, n)[j].index <= n
  {
    var before := ProseLines(lines, comments, fenced, n - 1);
    if j < |before| {
      ProseLinesInOrder(lines, comments, fenced, n - 1, i, j);
    } else {
      assert before[i] in before;
      ProseLinesAre(lines, comments, fenced, n - 1, before[i].index, before[i].raw);
    }
  }

  /** `htmlCommentRanges`, one line: push every comment's columns under the line's key. */
  method ProjectLine(comments: seq<Range>, lineOffset: nat, len: nat, before: map<nat, seq<Range>>, key: nat)
    returns (ranges: map<nat, seq<Range>>)
    requires key !in before
    ensures var rs := LineRanges(comments, lineOffset, len);
            ranges == if rs == [] then before else before[key := rs]
  {
    hide LineRanges;
    ranges := before;
    var lineEnd := lineOffset + len;
    var c := 0;
    ghost var found: seq<Range> := [];
    ghost var whole := LineRanges(comments, lineOffset, len);
    assert comments[0..] == comments && [] + whole == whole;
    while c < |comments|
      invariant 0 <= c <= |comments|
      invariant whole == found + LineRanges(comments[c..], lineOffset, len)
      invariant ranges == if found == [] then before else before[key := found]
    {
      var from, to := Max(comments[c].start, lineOffset), Min(comments[c].end, lineEnd);
      var coversEmptyLine := len == 0 && comments[c].start <= lineOffset && comments[c].end > lineOffset;
      ghost var rest := LineRanges(comments[c + 1..], lineOffset, len);
      NextRanges(comments, lineOffset, len, c);
      if from < to || coversEmptyLine {
        var r := Range(from - lineOffset, to - lineOffset);
        assert found + ([r] + rest) == (found + [r]) + rest;
        ranges := ranges[key := (if key in ranges then ranges[key] else []) + [r]];
        found := found + [r];
      }
      c := c + 1;
    }
    NoRanges(comments, lineOffset, len);
    assert found + [] == found;
  }

  lemma NextRanges(comments: seq<Range>, offset: nat, len: nat, c: nat)
    requires c < |comments|
    ensures LineRanges(comments[c..], offset, len) ==
            OneRange(comments[c], offset, len) + LineRanges(comments[c + 1..], offset, len)
  {
    assert comments[c..][0] == comments[c] && comments[c..][1..] == comments[c + 1..];
  }

  lemma NoRanges(comments: seq<Range>, offset: nat, len: nat)
    ensures LineRanges(comments[|comments|..], offset, len) == []
  {
  }

  /** `htmlCommentRanges`, all lines. */
  method CommentRanges(lines: seq<string>, comments: seq<Range>) returns (ranges: map<nat, seq<Range>>)
    ensures forall i | 0 <= i < |lines| :: Projected(lines, comments, ranges, i)
  {
    hide LineRanges;
    ranges := map[];
    var lineOffset, index := 0, 0;
    while index < |lines|
      invariant 0 <= index <= |lines| && lineOffset == LineOffset(lines, index)
      invariant forall k | k in ranges :: 0 < k <= index
      invariant forall i | 0 <= i < index :: Projected(lines, comments, ranges, i)
    {
      ghost var before := ranges;
      ranges := ProjectLine(comments, lineOffset, |lines[index]|, ranges, index + 1);
      assert forall i | 0 <= i < index :: Projected(lines, comments, before, i) ==>
             Projected(lines, comments, ranges, i);
      assert Projected(lines, comments, ranges, index);
      lineOffset := lineOffset + |lines[index]| + 1;
      index := index + 1;
    }
  }

  predicate Projected(lines: seq<string>, comments: seq<Range>, ranges: map<nat, seq<Range>>, i: nat)
    requires i < |lines|
  {
    var rs := LineRanges(comments, LineOffset(lines, i), |lines[i]|);
    if rs == [] then i + 1 !in ranges else i + 1 in ranges && ranges[i + 1] == rs
  }

  /** `markdownProseLines`: exactly the prose lines, verbatim and in order. */
  method MarkdownProseLines(lines: seq<string>, comments: seq<Range>, fenced: set<nat>) returns (kept: seq<ProseLine>)
    ensures kept == ProseLines(lines, comments, fenced, |lines|)
  {
    var ranges := CommentRanges(lines, comments);
    kept := [];
    var i := 0;
    while i < |lines|
      invariant 0 <= i <= |lines|
      invariant kept == ProseLines(lines, comments, fenced, i)
    {
      if i + 1 !in fenced {
        assert Projected(lines, comments, ranges, i);
        ghost var offset, raw := LineOffset(lines, i), lines[i];
        LineRangesMean(comments, LineOffset(lines, i), |lines[i]|);
        var visible := HasRenderedText(lines[i], if i + 1 in ranges then Some(ranges[i + 1]) else None);
        assert visible <==> IsProse(lines, comments, fenced, i) by {
          if k :| 0 <= k < |raw| && !Covered(LineRanges(comments, offset, |raw|), k) && !IsSpace(raw[k]) {
            assert !Covered(comments, offset + k) && !IsSpace(raw[offset + k - offset]);
          }
        }
        if visible { kept := kept + [ProseLine(i + 1, lines[i])]; }
      }
      i := i + 1;
    }
  }
}
