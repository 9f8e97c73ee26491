/** When the rewriting of a page fails (`scripts/project-doc-site.ts`): exactly if a destination cannot be located. */
module LinkFailures {
  import opened Prelude
  import opened JsText
  import opened LinkScanner
  import opened DocSite

  /** `t[..n]` can be read as pieces between angle brackets, and the closing one follows. */
  ghost predicate ClosesAt(t: string, n: nat) {
    n < |t| && t[n] == '>' && Balanced(Angle, t[..n])
  }

  lemma {:induction false} AngleReads(t: string) returns (ps: seq<Piece>)
    requires ScanAngle(t).Some?
    ensures var n := ScanAngle(t).value; t[n] == '>' && Proper(Angle, ps) && Text(Angle, ps) == t[..n]
    decreases |t|
  {
    if t[0] == '>' {
      ps := [];
      assert t[..0] == "";
    } else {
      var skip := if t[0] == '\\' then 2 else 1;
      var first := if t[0] == '\\' then Pair(t[1]) else One(t[0]);
      var rest := AngleReads(t[skip..]);
      ps := [first] + rest;
      var n := ScanAngle(t).value;
      assert ps[1..] == rest && forall p | p in ps :: p == first || p in rest;
      assert PieceText(Angle, first) == t[..skip];
      assert t[..n] == t[..skip] + t[skip..][..n - skip];
    }
  }

  /** The angle scan ends at the first closing bracket that is not escaped, and fails without one. */
  lemma AngleEndIff(t: string, n: nat)
    ensures ScanAngle(t) == Some(n) <==> ClosesAt(t, n)
  {
    if ScanAngle(t) == Some(n) {
      var ps := AngleReads(t);
      assert Balanced(Angle, t[..n]);
    }
    if ClosesAt(t, n) {
      var ps :| Proper(Angle, ps) && Text(Angle, ps) == t[..n];
      assert t == t[..n] + t[n..];
      ScanAnglePieces(ps, t[n..]);
    }
  }

  ghost predicate Closes(t: string) {
    exists n: nat :: ClosesAt(t, n)
  }

  lemma AngleFailsIff(t: string)
    ensures ScanAngle(t).None? <==> !Closes(t)
  {
    forall n: nat { AngleEndIff(t, n); }
    if ScanAngle(t).Some? { assert ClosesAt(t, ScanAngle(t).value); }
  }

  /** The label is `s[first + 1..e]`, from the first bracket to the one that balances it. */
  ghost predicate LabelAt(s: string, e: nat) {
    var first := FirstBracket(s);
    first < e < |s| && s[e] == ']' && Balanced(Label, s[first + 1..e])
  }

  /** Where the destination's white space may begin: after the first colon, or the parenthesis, past the label. */
  predicate BeginsAt(s: string, kind: NodeKind, e: nat, from: nat) {
    e < from - 1 < |s| &&
    if kind.Definition? then s[from - 1] == ':' && forall k | e < k < from - 1 :: s[k] != ':'
    else from == e + 2 && s[from - 1] == '('
  }

  /** Past its white space stands an angle bracket that is never closed. */
  ghost predicate NeverCloses(s: string, from: nat)
    requires from <= |s|
  {
    exists start | from <= start < |s| ::
      && (forall k | from <= k < start :: IsSpace(s[k])) && s[start] == '<'
      && !Closes(s[start + 1..])
  }

  ghost predicate CanLocate(s: string, kind: NodeKind) {
    exists e: nat, from: nat :: LabelAt(s, e) && BeginsAt(s, kind, e, from) && !NeverCloses(s, from)
  }

  lemma ColonAt(s: string, e: nat, from: nat)
    requires e < |s|
    ensures BeginsAt(s, Definition, e, from) <==> from > 0 && IndexOf(s, ":", e + 1) == from - 1 < |s|
  {
    var colon := IndexOf(s, ":", e + 1);
    forall k | 0 <= k < |s| ensures StartsAt(s, ":", k) <==> s[k] == ':' {
      assert s[k..k + 1] == [s[k]];
    }
  }

  lemma {:induction false} SpaceRun(t: string)
    ensures var n := SkipSpace(t); (forall k | 0 <= k < n :: IsSpace(t[k])) && (n < |t| ==> !IsSpace(t[n]))
  {
    if t != "" && IsSpace(t[0]) {
      SpaceRun(t[1..]);
      assert forall k | 0 < k < SkipSpace(t) :: t[k] == t[1..][k - 1];
    }
  }

  /** The run of white space ends at one place. */
  lemma OneStart(s: string, from: nat, start: nat)
    requires from <= start < |s| && !IsSpace(s[start]) && forall k | from <= k < start :: IsSpace(s[k])
    ensures start == from + SkipSpace(s[from..])
  {
    var t := s[from..];
    SpaceRun(t);
    var n := SkipSpace(t);
    hide IsSpace, SkipSpace;
    assert forall k | 0 <= k < |t| :: t[k] == s[from + k];
  }

  lemma StartIs(s: string, from: nat)
    requires from <= |s|
    ensures var start := from + SkipSpace(s[from..]);
            start <= |s| && forall k | from <= k < start :: IsSpace(s[k])
  {
    SpaceRun(s[from..]);
    hide IsSpace, SkipSpace;
    assert forall k | from <= k < |s| :: s[k] == s[from..][k - from];
  }

  lemma DestinationFailsIff(s: string, from: nat)
    requires from <= |s|
    ensures Destination(s, from).None? <==> NeverCloses(s, from)
  {
    hide Destination, SkipSpace, IsSpace, Closes, ScanAngle;
    var start := from + SkipSpace(s[from..]);
    StartIs(s, from);
    Unclosed(s, from, start);
    if NeverCloses(s, from) {
      var other := Opening(s, from);
      OneStart(s, from, other);
    }
  }

  lemma Unclosed(s: string, from: nat, start: nat)
    requires from <= |s| && start == from + SkipSpace(s[from..])
    ensures Destination(s, from).None? <==> start < |s| && s[start] == '<' && !Closes(s[start + 1..])
  {
    hide SkipSpace, ScanAngle, ScanBare, Closes;
    if start < |s| { AngleFailsIff(s[start + 1..]); }
  }

  lemma Opening(s: string, from: nat) returns (start: nat)
    requires from <= |s| && NeverCloses(s, from)
    ensures from <= start < |s| && (forall k | from <= k < start :: IsSpace(s[k]))
    ensures s[start] == '<' && !IsSpace(s[start]) && !Closes(s[start + 1..])
  {
    assert !IsSpace('<');
    hide IsSpace, Closes;
    start :| from <= start < |s| && (forall k | from <= k < start :: IsSpace(s[k])) && s[start] == '<'
      && !Closes(s[start + 1..]);
  }

  /**
   * A destination is located exactly if there is a balanced label with a separator after it, and what
   * follows is not an angle bracket that is never closed.
   */
  lemma LocatesIff(s: string, kind: NodeKind)
    ensures DestinationRange(s, kind).Some? <==> CanLocate(s, kind)
  {
    hide Destination, NeverCloses, LabelEnd;
    forall e: nat ensures LabelEnd(s) == Some(e) <==> LabelAt(s, e) { LabelEndIff(s, e); }
    if LabelEnd(s).Some? {
      var e := LabelEnd(s).value;
      assert LabelAt(s, e);
      forall from: nat | from <= |s| { DestinationFailsIff(s, from); }
      if kind.Definition? {
        forall from: nat { ColonAt(s, e, from); }
        var colon := IndexOf(s, ":", e + 1);
        if colon < |s| { assert BeginsAt(s, kind, e, colon + 1); }
      } else if e + 1 < |s| && s[e + 1] == '(' {
        assert BeginsAt(s, kind, e, e + 2);
      }
    }
  }

  /** The node stands in the tree, at any depth. */
  predicate Inside(nodes: seq<MdNode>, n: MdNode)
    decreases nodes
  {
    exists m | m in nodes :: m == n || Inside(m.children, n)
  }

  /** A node to rewrite whose destination cannot be located. */
  ghost predicate Lost(source: string, n: MdNode) {
    n.next.Some? && !CanLocate(JsSlice(source, n.start, n.end), n.kind)
  }

  lemma {:induction false} CollectFailsIff(source: string, nodes: seq<MdNode>)
    ensures Collect(source, nodes).None? <==> exists n :: Inside(nodes, n) && Lost(source, n)
    decreases nodes
  {
    hide CanLocate, DestinationRange;
    if nodes != [] {
      var first, rest := nodes[0], nodes[1..];
      assert nodes == [first] + rest;
      CollectFailsIff(source, rest);
      CollectFailsIff(source, first.children);
      LocatesIff(JsSlice(source, first.start, first.end), first.kind);
      assert OwnCut(source, first).None? <==> Lost(source, first);
      InsideStep(first, rest);
    }
  }

  lemma InsideStep(first: MdNode, rest: seq<MdNode>)
    ensures forall n :: Inside([first] + rest, n) <==> n == first || Inside(first.children, n) || Inside(rest, n)
  {
    forall n ensures Inside([first] + rest, n) <==> n == first || Inside(first.children, n) || Inside(rest, n) {
      assert first in [first] + rest && forall m | m in rest :: m in [first] + rest;
      if m :| m in [first] + rest && (m == n || Inside(m.children, n)) {
        if m != first { assert m in rest; }
      }
    }
  }

  /** The rewrite fails exactly if some reference to rewrite, at any depth, has no destination to be found. */
  lemma RewriteFailsIff(source: string, nodes: seq<MdNode>)
    ensures Rewrite(source, nodes).None? <==> exists n :: Inside(nodes, n) && Lost(source, n)
  {
    hide Collect, Lost, Inside;
    CollectFailsIff(source, nodes);
  }
}
