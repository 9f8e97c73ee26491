/**
 * JSDoc text as it is written and as it is read (`scripts/jsdoc.ts`): what makes a line a bullet or a
 * tag, which tags name a mode or a link, and what the description of a comment made of sections is.
 */
module JsDocTexts {
  import opened Prelude
  import opened JsText
  import opened JsDoc

  // ---------------------------------------------------------------- lines

  /** A dash and white space. */
  lemma BulletIff(line: string)
    ensures IsBullet(line) <==> exists c, rest: string :: IsSpace(c) && line == "-" + [c] + rest
  {
    if IsBullet(line) { assert line == "-" + [line[1]] + line[2..]; }
  }

  lemma {:induction false} Lead(s: string) returns (ws: string)
    ensures Blank(ws) && s == ws + TrimStart(s) && (TrimStart(s) == "" || !IsSpace(TrimStart(s)[0]))
    ensures s != "" && IsSpace(s[0]) ==> ws != ""
    decreases |s|
  {
    ws := "";
    if s != "" && IsSpace(s[0]) {
      var more := Lead(s[1..]);
      ws := [s[0]] + more;
      assert forall c | c in ws :: c == s[0] || c in more;
    }
  }

  lemma {:induction false} LeadGone(ws: string, t: string)
    requires Blank(ws) && (t == "" || !IsSpace(t[0]))
    ensures TrimStart(ws + t) == t
  {
    if ws == "" {
      assert ws + t == t;
    } else {
      assert ws[0] in ws && (ws + t)[1..] == ws[1..] + t && forall c | c in ws[1..] :: c in ws;
      LeadGone(ws[1..], t);
    }
  }

  lemma {:induction false} Trail(s: string) returns (ws: string)
    ensures Blank(ws) && s == TrimEnd(s) + ws && (TrimEnd(s) == "" || !IsSpace(TrimEnd(s)[|TrimEnd(s)| - 1]))
    decreases |s|
  {
    ws := "";
    assert s == s + "";
    if s != "" && IsSpace(s[|s| - 1]) {
      var more := Trail(s[..|s| - 1]);
      ws := more + [s[|s| - 1]];
      assert s == s[..|s| - 1] + [s[|s| - 1]];
    }
  }

  lemma {:induction false} TrailGone(t: string, ws: string)
    requires Blank(ws) && (t == "" || !IsSpace(t[|t| - 1]))
    ensures TrimEnd(t + ws) == t
    decreases |ws|
  {
    if ws == "" {
      assert t + ws == t;
    } else {
      assert ws[|ws| - 1] in ws && (t + ws)[..|t + ws| - 1] == t + ws[..|ws| - 1];
      assert forall c | c in ws[..|ws| - 1] :: c in ws;
      TrailGone(t, ws[..|ws| - 1]);
    }
  }

  /** An at sign after white space, if any. */
  lemma TagIff(line: string)
    ensures IsTag(line) <==> exists ws, rest: string :: Blank(ws) && line == ws + ("@" + rest)
  {
    if IsTag(line) {
      var ws := Lead(line);
      var t := TrimStart(line);
      assert t == "@" + t[1..];
    }
    if ws, rest: string :| Blank(ws) && line == ws + ("@" + rest) { LeadGone(ws, "@" + rest); }
  }

  /** What continues a name, by code points: an ASCII letter, a digit or the underscore. */
  lemma WordCharIs(c: char)
    ensures WordChar(c) <==>
              var n := c as int;
              65 <= n <= 90 || 97 <= n <= 122 || 48 <= n <= 57 || n == 95
  {
  }

  /** The tag's name, not merely the beginning of a longer one. */
  lemma ModeTagIff(line: string)
    ensures IsModeTag(line) <==>
              exists ws, rest: string ::
                Blank(ws) && (rest == "" || !WordChar(rest[0])) && line == ws + ("@mode" + rest)
  {
    if IsModeTag(line) {
      var ws := Lead(line);
      var t := TrimStart(line);
      assert t == "@mode" + t[5..];
    }
    if ws, rest: string :|
      Blank(ws) && (rest == "" || !WordChar(rest[0])) && line == ws + ("@mode" + rest)
    {
      var t := "@mode" + rest;
      LeadGone(ws, t);
      assert t[0..5] == "@mode";
    }
  }

  predicate ModeName(name: string) {
    name == "emit" || name == "waterfall" || name == "parallel" || name == "serial" || name == "bail"
  }

  /** A mode tag as it is written: the tag, white space, a known name and nothing else but white space. */
  ghost predicate NamesMode(line: string, name: string) {
    ModeName(name) &&
    exists ws, between, after: string ::
      Blank(ws) && Blank(between) && between != "" && Blank(after) && line == ws + ("@mode" + between + name + after)
  }

  lemma ModeIff(line: string, name: string)
    ensures ModeOf(line) == Some(name) <==> NamesMode(line, name)
  {
    if ModeOf(line) == Some(name) { ModeIsNamed(line, name); }
    if NamesMode(line, name) { NamedIsMode(line, name); }
  }

  lemma ModeIsNamed(line: string, name: string)
    requires ModeOf(line) == Some(name)
    ensures NamesMode(line, name)
  {
    var ws := Lead(line);
    var t := TrimStart(line);
    var between := Lead(t[5..]);
    var after := Trail(TrimStart(t[5..]));
    assert t == "@mode" + t[5..] && t[5..] == between + (name + after);
    assert "@mode" + (between + (name + after)) == "@mode" + between + name + after;
  }

  lemma NamedIsMode(line: string, name: string)
    requires NamesMode(line, name)
    ensures ModeOf(line) == Some(name)
  {
    var ws, between, after: string :|
      Blank(ws) && Blank(between) && between != "" && Blank(after) && line == ws + ("@mode" + between + name + after);
    var t := "@mode" + between + name + after;
    LeadGone(ws, t);
    assert t[0..5] == "@mode" && t[5..] == between + (name + after) && t[5] == between[0];
    assert !IsSpace(name[0]) && !IsSpace(name[|name| - 1]);
    LeadGone(between, name + after);
    TrailGone(name, after);
  }

  // ---------------------------------------------------------------- link tags

  /** The white space before a target of white space alone gives up its last character. */
  predicate Target(target: string) {
    target != "" && '}' !in target && (!IsSpace(target[0]) || |target| == 1)
  }

  lemma {:induction false} BlankRun(ws: string, t: string)
    requires Blank(ws) && (t == "" || !IsSpace(t[0]))
    ensures SpaceRun(ws + t) == |ws|
  {
    if ws == "" {
      assert ws + t == t;
    } else {
      assert ws[0] in ws && (ws + t)[1..] == ws[1..] + t && forall c | c in ws[1..] :: c in ws;
      BlankRun(ws[1..], t);
    }
  }

  lemma BraceAt(a: string, after: string)
    requires '}' !in a
    ensures IndexOf(a + "}" + after, "}", 0) == |a|
  {
    var s := a + "}" + after;
    assert StartsAt(s, "}", |a|);
    forall j | 0 <= j < |a| ensures !StartsAt(s, "}", j) { assert s[j] == a[j] && s[j] in a; FirstChar(s, "}", j); }
  }

  predicate Spells(s: string, ws: string, target: string, after: string) {
    s == "{@link" + (ws + target + "}" + after)
  }

  /** A link tag as it is written at the front of a text. */
  ghost predicate Links(s: string, n: nat, target: string) {
    Target(target) &&
    exists ws, after :: Spells(s, ws, target, after) && Blank(ws) && ws != "" && n == 7 + |ws| + |target|
  }

  lemma LinkTagIff(s: string, n: nat, target: string)
    ensures LinkTag(s) == Some((n, target)) <==> Links(s, n, target)
  {
    if LinkTag(s) == Some((n, target)) { TagIsLink(s, n, target); }
    if Links(s, n, target) { LinkIsTag(s, n, target); }
  }

  lemma LinkIsTag(s: string, n: nat, target: string)
    requires Links(s, n, target)
    ensures LinkTag(s) == Some((n, target))
  {
    hide Spells, Blank, IsSpace, LinkTag, Target;
    var ws, after :| Spells(s, ws, target, after) && Blank(ws) && ws != "" && n == 7 + |ws| + |target|;
    SpelledIsTag(s, ws, target, after);
  }

  lemma SpelledIsTag(s: string, ws: string, target: string, after: string)
    requires Spells(s, ws, target, after) && Blank(ws) && ws != "" && Target(target)
    ensures LinkTag(s) == Some((7 + |ws| + |target|, target))
  {
    var rest, end := ws + target + "}" + after, |ws| + |target|;
    assert !IsSpace('}');
    assert '}' !in ws + target;
    BraceAt(ws + target, after);
    RunOf(ws, target, after);
    hide IndexOf, SpaceRun, LinkTag, StartsAt, IsSpace, Blank;
    LinkParts(s, rest, SpaceRun(rest), end);
    assert rest[|ws|..end] == target;
  }

  lemma RunOf(ws: string, target: string, after: string)
    requires Blank(ws) && Target(target)
    ensures SpaceRun(ws + target + "}" + after) == if IsSpace(target[0]) then |ws| + |target| else |ws|
  {
    var rest := ws + target + "}" + after;
    assert !IsSpace('}');
    if IsSpace(target[0]) {
      assert target == [target[0]] && rest == (ws + target) + ("}" + after);
      assert forall c | c in ws + target :: c in ws || c == target[0];
      BlankRun(ws + target, "}" + after);
    } else {
      assert rest == ws + (target + "}" + after);
      BlankRun(ws, target + "}" + after);
    }
  }

  lemma FirstBrace(s: string)
    requires IndexOf(s, "}", 0) <= |s|
    ensures IndexOf(s, "}", 0) < |s|
    ensures var end := IndexOf(s, "}", 0); s[end] == '}' && forall j | 0 <= j < end :: s[j] != '}'
  {
    var end := IndexOf(s, "}", 0);
    hide IndexOf;
    FirstChar(s, "}", end);
    BraceIs(s, end);
    forall j | 0 <= j < end ensures s[j] != '}' { BraceIs(s, j); }
  }

  lemma BraceIs(s: string, j: nat)
    requires j < |s|
    ensures StartsAt(s, "}", j) <==> s[j] == '}'
  {
    assert s[j..j + 1] == [s[j]];
  }

  lemma LinkParts(s: string, rest: string, blank: nat, end: nat)
    requires s == "{@link" + rest && SpaceRun(rest) == blank && IndexOf(rest, "}", 0) == end
    ensures LinkTag(s) ==
            if blank == 0 || end > |rest| then None
            else if blank < end then Some((7 + end, rest[blank..end]))
            else if end >= 2 && blank == end then Some((7 + end, rest[end - 1..end]))
            else None
  {
    TagName(rest);
    hide SpaceRun, IndexOf, StartsAt;
  }

  lemma TagName(rest: string)
    ensures StartsAt("{@link" + rest, "{@link", 0) && ("{@link" + rest)[6..] == rest
  {
    var name: string := "{@link";
    assert |name| == 6 && (name + rest)[0..6] == name;
  }

  lemma TagFront(s: string)
    requires LinkTag(s).Some?
    ensures |s| >= 6 && s == "{@link" + s[6..] && IndexOf(s[6..], "}", 0) <= |s[6..]|
  {
    hide SpaceRun, IndexOf;
    assert s[0..6] == "{@link";
  }

  /** Where a tag found at the front is cut into white space and target. */
  lemma TagCut(s: string) returns (rest: string, cut: nat, end: nat)
    requires LinkTag(s).Some?
    ensures s == "{@link" + rest && 0 < cut < end < |rest| && Blank(rest[..cut])
    ensures rest[end] == '}' && forall j | 0 <= j < end :: rest[j] != '}'
    ensures LinkTag(s) == Some((7 + end, rest[cut..end])) && (cut == end - 1 || !IsSpace(rest[cut]))
  {
    TagFront(s);
    rest := s[6..];
    var blank := SpaceRun(rest);
    end := IndexOf(rest, "}", 0);
    LinkParts(s, rest, blank, end);
    FirstBrace(rest);
    cut := if blank < end then blank else end - 1;
    LeadingBlank(rest, cut);
    hide *;
  }

  lemma TagIsLink(s: string, n: nat, target: string)
    requires LinkTag(s) == Some((n, target))
    ensures Links(s, n, target)
  {
    var rest, cut, end := TagCut(s);
    CutAtBrace(rest, cut, end);
    hide LinkTag, Blank, IsSpace;
    assert Spells(s, rest[..cut], target, rest[end + 1..]);
    hide Spells;
    assert Target(target);
  }

  lemma LeadingBlank(rest: string, cut: nat)
    requires cut <= SpaceRun(rest)
    ensures Blank(rest[..cut])
  {
    hide IsSpace;
  }

  lemma CutAtBrace(rest: string, cut: nat, end: nat)
    requires cut < end < |rest| && rest[end] == '}' && forall j | 0 <= j < end :: rest[j] != '}'
    ensures rest == rest[..cut] + rest[cut..end] + "}" + rest[end + 1..] && '}' !in rest[cut..end]
  {
  }

  // ---------------------------------------------------------------- a comment made of sections

  /** Lines of prose, then the items of a list, then blank lines. */
  datatype Section = Section(intro: seq<string>, items: seq<seq<string>>, blanks: seq<string>)

  predicate PlainLine(line: string) {
    !Blank(line) && !IsBullet(line)
  }

  predicate Item(lines: seq<string>) {
    lines != [] && IsBullet(lines[0]) && forall l | l in lines[1..] :: PlainLine(l)
  }

  predicate Whole(sec: Section) {
    && (sec.intro != [] || sec.items != [])
    && (forall l | l in sec.intro :: PlainLine(l)) && (forall i | i in sec.items :: Item(i))
    && (forall l | l in sec.blanks :: Blank(l))
  }

  /** Sections are set apart by a blank line at least. */
  predicate Page(secs: seq<Section>) {
    && (forall sec | sec in secs :: Whole(sec))
    && forall i | 0 <= i < |secs| - 1 :: secs[i].blanks != []
  }

  function ItemLines(items: seq<seq<string>>): seq<string> {
    if items == [] then [] else items[0] + ItemLines(items[1..])
  }

  function PageLines(secs: seq<Section>): seq<string> {
    if secs == [] then []
    else secs[0].intro + ItemLines(secs[0].items) + secs[0].blanks + PageLines(secs[1..])
  }

  /** The words of the lines, one space apart. */
  function Prosaic(lines: seq<string>): string {
    Spaced(AllWords(lines))
  }

  function Spaced(words: seq<string>): string {
    if words == [] then "" else if |words| == 1 then words[0] else words[0] + " " + Spaced(words[1..])
  }

  /** Each item on a line of its own. */
  function ItemText(items: seq<seq<string>>): string {
    if items == [] then ""
    else if |items| == 1 then Prosaic(items[0])
    else Prosaic(items[0]) + "\n" + ItemText(items[1..])
  }

  /** Prose and list, and the sections, with an empty line between. */
  function SectionText(sec: Section): string {
    if sec.items == [] then Prosaic(sec.intro)
    else if sec.intro == [] then ItemText(sec.items)
    else Prosaic(sec.intro) + "\n\n" + ItemText(sec.items)
  }

  function PageText(secs: seq<Section>): string {
    if secs == [] then ""
    else if |secs| == 1 then SectionText(secs[0])
    else SectionText(secs[0]) + "\n\n" + PageText(secs[1..])
  }

  lemma {:induction false} SpacedIsGlue(words: seq<string>)
    ensures Spaced(words) == Glue(words, " ")
  {
    if |words| > 1 { SpacedIsGlue(words[1..]); }
  }

  lemma JoinIsProsaic(lines: seq<string>)
    ensures Join(lines) == Prosaic(lines)
  {
    JoinSpacesWords(lines);
    SpacedIsGlue(AllWords(lines));
  }

  lemma {:induction false} GlueJoin(a: seq<string>, b: seq<string>, sep: string)
    requires a != [] && b != []
    ensures Glue(a + b, sep) == Glue(a, sep) + sep + Glue(b, sep)
    decreases |a|
  {
    assert (a + b)[1..] == a[1..] + b;
    if |a| == 1 {
      assert a[1..] + b == b;
    } else {
      GlueJoin(a[1..], b, sep);
      assert a[0] + sep + (Glue(a[1..], sep) + sep + Glue(b, sep))
             == (a[0] + sep + Glue(a[1..], sep)) + sep + Glue(b, sep);
    }
  }

  lemma {:induction false} IntroStops(a: seq<string>, b: seq<string>)
    requires forall l | l in a :: PlainLine(l)
    requires b == [] || IsBullet(b[0])
    ensures Intro(a + b) == |a|
  {
    if a == [] {
      assert a + b == b;
    } else {
      assert a[0] in a && (a + b)[1..] == a[1..] + b && forall l | l in a[1..] :: l in a;
      IntroStops(a[1..], b);
    }
  }

  lemma {:induction false} ChunkStops(a: seq<string>, b: seq<string>)
    requires forall l | l in a :: !Blank(l)
    requires b == [] || Blank(b[0])
    ensures Chunk(a + b) == |a|
  {
    if a == [] {
      assert a + b == b;
    } else {
      assert a[0] in a && (a + b)[1..] == a[1..] + b && forall l | l in a[1..] :: l in a;
      ChunkStops(a[1..], b);
    }
  }

  /** The items read back, each as its words. */
  lemma {:induction false} ItemsRead(items: seq<seq<string>>)
    requires forall i | i in items :: Item(i)
    ensures |Items(ItemLines(items))| == |items|
    ensures items != [] ==> ItemLines(items) != []
    ensures items != [] ==> ListBlock(Items(ItemLines(items))) == ItemText(items) && IsBullet(ItemLines(items)[0])
  {
    if items != [] {
      var first, rest := items[0], ItemLines(items[1..]);
      assert first in items && Item(first) && first != [] && forall i | i in items[1..] :: i in items;
      ItemsRead(items[1..]);
      ItemFirst(first, rest);
      JoinIsProsaic(first);
      hide Join, Prosaic, Items, IsBullet, Item;
      assert (first + rest)[0] == first[0];
      OneMoreItem(items);
      GlueItems(Join(first), Items(rest));
    }
  }

  lemma ItemFirst(first: seq<string>, rest: seq<string>)
    requires Item(first) && (rest == [] || IsBullet(rest[0]))
    ensures Items(first + rest) == [Join(first)] + Items(rest) && IsBullet(first[0])
  {
    hide Join, IsBullet;
    var lines := first + rest;
    assert lines[1..] == first[1..] + rest;
    IntroStops(first[1..], rest);
    assert lines[..|first|] == first && lines[|first|..] == rest;
  }

  lemma OneMoreItem(items: seq<seq<string>>)
    requires items != []
    ensures ItemLines(items) == items[0] + ItemLines(items[1..])
    ensures ItemText(items) ==
            if items[1..] == [] then Prosaic(items[0]) else Prosaic(items[0]) + "\n" + ItemText(items[1..])
  {
  }

  lemma GlueItems(first: string, rest: seq<string>)
    ensures ListBlock([first] + rest) == if rest == [] then first else first + "\n" + ListBlock(rest)
  {
    assert ([first] + rest)[1..] == rest;
  }

  lemma {:induction false} ItemsNotBlank(items: seq<seq<string>>)
    requires forall i | i in items :: Item(i)
    ensures forall l | l in ItemLines(items) :: !Blank(l)
  {
    if items != [] {
      var first := items[0];
      assert first in items && forall i | i in items[1..] :: i in items;
      ItemsNotBlank(items[1..]);
      assert first[0][0] == '-' && !IsSpace('-') && first[0][0] in first[0];
      assert first == [first[0]] + first[1..];
    }
  }

  lemma SectionReads(sec: Section)
    requires Whole(sec)
    ensures var blocks := ChunkBlocks(sec.intro + ItemLines(sec.items));
            blocks != [] && Glue(blocks, "\n\n") == SectionText(sec)
  {
    hide Join, Items, ListBlock, Prosaic, ItemText;
    var lines := ItemLines(sec.items);
    ItemsRead(sec.items);
    IntroStops(sec.intro, lines);
    var chunk := sec.intro + lines;
    assert chunk[..|sec.intro|] == sec.intro && chunk[|sec.intro|..] == lines;
    JoinIsProsaic(sec.intro);
    assert sec.items != [] ==> lines != [];
    assert sec.items == [] ==> lines == [];
    var list := ListBlock(Items(lines));
    if sec.intro != [] && sec.items != [] {
      assert ([Join(sec.intro)] + [list])[1..] == [list];
    }
  }

  lemma {:induction false} BlanksSkipped(blanks: seq<string>, rest: seq<string>)
    requires forall l | l in blanks :: Blank(l)
    ensures Blocks(blanks + rest) == Blocks(rest)
  {
    if blanks == [] {
      assert blanks + rest == rest;
    } else {
      assert blanks[0] in blanks && (blanks + rest)[1..] == blanks[1..] + rest;
      assert forall l | l in blanks[1..] :: l in blanks;
      BlanksSkipped(blanks[1..], rest);
    }
  }

  lemma OneChunk(chunk: seq<string>, tail: seq<string>)
    requires chunk != [] && (forall l | l in chunk :: !Blank(l)) && (tail == [] || Blank(tail[0]))
    ensures Blocks(chunk + tail) == ChunkBlocks(chunk) + Blocks(tail)
  {
    ChunkStops(chunk, tail);
    var lines := chunk + tail;
    assert lines[0] == chunk[0] && chunk[0] in chunk;
    assert lines[..|chunk|] == chunk && lines[|chunk|..] == tail;
  }

  /**
   * Up to the rendering of links, a comment made of sections reads as their text: words one space
   * apart, items on lines of their own, an empty line between prose, lists and sections, and nothing
   * of how the lines were broken or how many blank ones stood between.
   */
  lemma {:induction false} PageReads(secs: seq<Section>)
    requires Page(secs)
    ensures Glue(Blocks(PageLines(secs)), "\n\n") == PageText(secs)
    ensures secs != [] ==> Blocks(PageLines(secs)) != []
  {
    if secs != [] {
      hide ChunkBlocks, SectionText, Whole;
      var sec, rest := secs[0], PageLines(secs[1..]);
      SectionLines(sec, secs);
      var chunk := sec.intro + ItemLines(sec.items);
      RestOfPage(secs);
      PageReads(secs[1..]);
      SectionReads(sec);
      OneChunk(chunk, sec.blanks + rest);
      BlanksSkipped(sec.blanks, rest);
      assert PageLines(secs) == chunk + (sec.blanks + rest);
      if |secs| == 1 {
        assert Blocks(rest) == [] && ChunkBlocks(chunk) + [] == ChunkBlocks(chunk);
      } else {
        GlueJoin(ChunkBlocks(chunk), Blocks(rest), "\n\n");
      }
    }
  }

  lemma SectionLines(sec: Section, secs: seq<Section>)
    requires Page(secs) && secs != [] && sec == secs[0]
    ensures Whole(sec) && forall l | l in sec.blanks :: Blank(l)
    ensures var chunk := sec.intro + ItemLines(sec.items); chunk != [] && forall l | l in chunk :: !Blank(l)
    ensures var tail := sec.blanks + PageLines(secs[1..]); tail == [] || Blank(tail[0])
  {
    assert sec in secs;
    ItemsNotBlank(sec.items);
    if sec.items != [] { ItemsRead(sec.items); }
    if sec.blanks != [] { assert sec.blanks[0] in sec.blanks; }
  }

  lemma RestOfPage(secs: seq<Section>)
    requires Page(secs) && secs != []
    ensures Page(secs[1..])
  {
    assert forall sec | sec in secs[1..] :: sec in secs;
  }

  // ---------------------------------------------------------------- tags among the lines

  /** The prose is the lines before the first tag. */
  lemma {:induction false} ProseIs(lines: seq<string>)
    ensures var n := |Prose(lines)|;
            && n <= |lines| && Prose(lines) == lines[..n] && (forall l | l in lines[..n] :: !IsTag(l))
            && (n < |lines| ==> IsTag(lines[n]))
    decreases |lines|
  {
    if lines != [] && !IsTag(lines[0]) {
      ProseIs(lines[1..]);
      var n := |Prose(lines[1..])|;
      assert lines[..n + 1] == [lines[0]] + lines[1..][..n];
    }
  }

  /** The mode is the one named by the last line that names any. */
  lemma {:induction false} LastModeIff(lines: seq<string>, mode: string)
    ensures LastMode(lines) == Some(mode) <==>
              exists i :: 0 <= i < |lines| && ModeOf(lines[i]) == Some(mode)
                && forall j | i < j < |lines| :: ModeOf(lines[j]) == None
    decreases |lines|
  {
    if lines != [] {
      hide ModeOf;
      var front := lines[..|lines| - 1];
      LastModeIff(front, mode);
      assert forall i | 0 <= i < |front| :: front[i] == lines[i];
    }
  }

  // ---------------------------------------------------------------- the lines of a comment

  /** A line loses its indentation, a star with one white space after it, if any, and what trails. */
  lemma StripLineIs(ws: string, sp: char, text: string)
    requires Blank(ws) && IsSpace(sp)
    ensures StripLine(ws + ("*" + [sp] + text)) == TrimEnd(text)
    ensures text == "" || !IsSpace(text[0]) ==> StripLine(ws + ("*" + text)) == TrimEnd(text)
    ensures text == "" || (!IsSpace(text[0]) && text[0] != '*') ==> StripLine(ws + text) == TrimEnd(text)
  {
    Starred(ws, [sp] + text);
    Starred(ws, text);
    assert "*" + [sp] + text == "*" + ([sp] + text) && ([sp] + text)[1..] == text;
    hide IsSpace, TrimEnd, TrimStart;
    if text == "" || !IsSpace(text[0]) {
      LeadGone(ws, text);
      assert text != "" && text[0] != '*' ==> StripLine(ws + text) == TrimEnd(text);
    }
  }

  lemma Starred(ws: string, u: string)
    requires Blank(ws)
    ensures StripLine(ws + ("*" + u)) == TrimEnd(if u != "" && IsSpace(u[0]) then u[1..] else u)
  {
    assert !IsSpace('*');
    LeadGone(ws, "*" + u);
    hide IsSpace, TrimEnd, TrimStart, Blank;
    assert ("*" + u)[1..] == u;
  }

  lemma {:induction false} SplitGlue(lines: seq<string>, line: string, rest: string)
    requires '\n' !in rest && forall l | l in lines :: '\n' !in l
    ensures SplitFrom(if lines == [] then rest else rest + "\n" + Glue(lines, "\n"), line) == [line + rest] + lines
    decreases |lines|, |rest|
  {
    var s := if lines == [] then rest else rest + "\n" + Glue(lines, "\n");
    if rest != "" {
      assert s[0] == rest[0] && rest[0] in rest && forall c | c in rest[1..] :: c in rest;
      assert s[1..] == if lines == [] then rest[1..] else rest[1..] + "\n" + Glue(lines, "\n");
      SplitGlue(lines, line + [rest[0]], rest[1..]);
      assert line + [rest[0]] + rest[1..] == line + rest;
    } else if lines != [] {
      assert s[0] == '\n' && s[1..] == Glue(lines, "\n") && line + rest == line;
      assert lines[0] in lines && forall l | l in lines[1..] :: l in lines;
      SplitGlue(lines[1..], "", lines[0]);
      assert "" + lines[0] == lines[0] && [lines[0]] + lines[1..] == lines;
    } else {
      assert line + rest == line;
    }
  }

  /** Between its delimiters a comment is read line by line, be it one line or many. */
  lemma InnerIs(lines: seq<string>)
    requires lines != [] && forall l | l in lines :: '\n' !in l
    ensures Inner("/**" + Glue(lines, "\n") + "*/") == StripAll(lines)
  {
    hide StripLine, StripAll, SplitFrom, Glue;
    var body := Glue(lines, "\n");
    var raw := "/**" + body + "*/";
    assert raw[0..3] == "/**" && raw[3..] == body + "*/";
    var open := body + "*/";
    assert open[|open| - 2..] == "*/" && open[..|open| - 2] == body;
    assert lines[0] in lines && forall l | l in lines[1..] :: l in lines;
    OneGlued(lines);
    SplitGlue(lines[1..], "", lines[0]);
    assert "" + lines[0] == lines[0] && [lines[0]] + lines[1..] == lines;
  }

  lemma OneGlued(lines: seq<string>)
    requires lines != []
    ensures Glue(lines, "\n") == if lines[1..] == [] then lines[0] else lines[0] + "\n" + Glue(lines[1..], "\n")
  {
  }
}
