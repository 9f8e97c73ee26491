/**
 * The line machine that reads JSDoc prose (`scripts/jsdoc.ts`, parseJsDoc). Its four buffers are
 * measured against a plain description of the text: runs of lines between blank ones, each an
 * opening paragraph and a list.
 */
module JsDoc {
  import opened Prelude
  import opened JsText

  // ---------------------------------------------------------------- words and joining

  function Flush(word: string): seq<string> {
    if word == "" then [] else [word]
  }

  /** The words of a text, given the part of a word already read. */
  function WordsFrom(s: string, word: string): seq<string>
    decreases |s|
  {
    if s == "" then Flush(word)
    else if IsSpace(s[0]) then Flush(word) + WordsFrom(s[1..], "")
    else WordsFrom(s[1..], word + [s[0]])
  }

  function Words(s: string): seq<string> {
    WordsFrom(s, "")
  }

  function Glue(parts: seq<string>, sep: string): string
    decreases |parts|
  {
    if parts == [] then ""
    else if |parts| == 1 then parts[0]
    else parts[0] + sep + Glue(parts[1..], sep)
  }

  /** Replace each run of white space by one space; `after` tells that one was just written. */
  function Collapse(s: string, after: bool): string
    decreases |s|
  {
    if s == "" then ""
    else if IsSpace(s[0]) then (if after then "" else " ") + Collapse(s[1..], true)
    else [s[0]] + Collapse(s[1..], false)
  }

  function TrimStart(s: string): string
    decreases |s|
  {
    if s != "" && IsSpace(s[0]) then TrimStart(s[1..]) else s
  }

  function TrimEnd(s: string): string
    decreases |s|
  {
    if s != "" && IsSpace(s[|s| - 1]) then TrimEnd(s[..|s| - 1]) else s
  }

  function Trim(s: string): string {
    TrimEnd(TrimStart(s))
  }

  function Join(parts: seq<string>): string {
    Trim(Collapse(Glue(parts, " "), false))
  }

  predicate Word(w: string) {
    w != "" && forall c | c in w :: !IsSpace(c)
  }

  lemma {:induction false} WordsAreWords(s: string, word: string)
    requires word == "" || Word(word)
    ensures forall w | w in WordsFrom(s, word) :: Word(w)
    decreases |s|
  {
    if s != "" {
      if IsSpace(s[0]) { WordsAreWords(s[1..], ""); } else { WordsAreWords(s[1..], word + [s[0]]); }
    }
  }

  lemma {:induction false} WordsSplit(a: string, c: char, b: string, word: string)
    requires IsSpace(c)
    ensures WordsFrom(a + [c] + b, word) == WordsFrom(a, word) + Words(b)
    decreases |a|
  {
    var s := a + [c] + b;
    if a == "" {
      assert s[0] == c && s[1..] == b;
    } else {
      assert s[0] == a[0] && s[1..] == a[1..] + [c] + b;
      if IsSpace(a[0]) { WordsSplit(a[1..], c, b, ""); } else { WordsSplit(a[1..], c, b, word + [a[0]]); }
    }
  }

  lemma {:induction false} WordStays(w: string, word: string)
    requires forall c | c in w :: !IsSpace(c)
    ensures WordsFrom(w, word) == Flush(word + w)
    decreases |w|
  {
    if w == "" {
      assert word + w == word;
    } else {
      assert (word + [w[0]]) + w[1..] == word + w;
      WordStays(w[1..], word + [w[0]]);
    }
  }

  /** All the words of several texts, in order. */
  function AllWords(texts: seq<string>): seq<string>
    decreases |texts|
  {
    if texts == [] then [] else Words(texts[0]) + AllWords(texts[1..])
  }

  lemma {:induction false} AllWordsJoin(a: seq<string>, b: seq<string>)
    ensures AllWords(a + b) == AllWords(a) + AllWords(b)
    decreases |a|
  {
    if a == [] {
      assert a + b == b;
    } else {
      assert (a + b)[1..] == a[1..] + b;
      AllWordsJoin(a[1..], b);
    }
  }

  predicate Gap(g: string) {
    g == " " || g == "\n" || g == "\n\n"
  }

  lemma WordsAcross(a: string, g: string, rest: string)
    requires Gap(g)
    ensures Words(a + g + rest) == Words(a) + Words(rest)
  {
    hide WordsFrom;
    assert a + g + rest == a + [g[0]] + (g[1..] + rest);
    WordsSplit(a, g[0], g[1..] + rest, "");
    if |g| == 2 {
      assert g[1..] + rest == "" + [g[1]] + rest;
      WordsSplit("", g[1], rest, "");
      NoWords("");
    } else {
      assert g[1..] + rest == rest;
    }
  }

  lemma {:induction false} WordsOfGlue(parts: seq<string>, g: string)
    requires Gap(g)
    ensures Words(Glue(parts, g)) == AllWords(parts)
    decreases |parts|
  {
    if |parts| == 1 {
      assert AllWords(parts[1..]) == [];
    } else if |parts| > 1 {
      WordsOfGlue(parts[1..], g);
      WordsAcross(parts[0], g, Glue(parts[1..], g));
    }
  }

  // ---------------------------------------------------------------- joining keeps words and normalises space

  lemma {:induction false} NoLead(s: string)
    ensures Collapse(s, true) == "" || !IsSpace(Collapse(s, true)[0])
    ensures Collapse(s, true) == "" ==> Words(s) == []
    decreases |s|
  {
    if s != "" && IsSpace(s[0]) { NoLead(s[1..]); }
  }

  lemma StartTrimmed(s: string)
    ensures TrimStart(Collapse(s, false)) == Collapse(s, true)
  {
    NoLead(s);
    if s != "" && IsSpace(s[0]) {
      NoLead(s[1..]);
      assert (" " + Collapse(s[1..], true))[1..] == Collapse(s[1..], true);
    }
  }

  lemma {:induction false} EndTrimmed(a: string, x: string)
    requires TrimEnd(x) != ""
    ensures TrimEnd(a + x) == a + TrimEnd(x)
    decreases |x|
  {
    assert (a + x)[|a + x| - 1] == x[|x| - 1];
    if IsSpace(x[|x| - 1]) {
      assert (a + x)[..|a + x| - 1] == a + x[..|x| - 1];
      EndTrimmed(a, x[..|x| - 1]);
    }
  }

  lemma {:induction false} GlueNonEmpty(ws: seq<string>)
    requires ws != [] && ws[0] != ""
    ensures Glue(ws, " ") != ""
  {
  }

  lemma {:induction false} CollapseOpen(s: string, word: string)
    requires Word(word)
    ensures TrimEnd(word + Collapse(s, false)) == Glue(WordsFrom(s, word), " ")
    decreases |s|, 0
  {
    if s == "" {
      assert word + "" == word && word[|word| - 1] in word;
    } else if IsSpace(s[0]) {
      AfterWord(s[1..], word);
    } else {
      assert word + ([s[0]] + Collapse(s[1..], false)) == (word + [s[0]]) + Collapse(s[1..], false);
      CollapseOpen(s[1..], word + [s[0]]);
    }
  }

  lemma {:induction false} AfterWord(rest: string, word: string)
    requires Word(word)
    ensures TrimEnd(word + (" " + Collapse(rest, true))) == Glue([word] + Words(rest), " ")
    decreases |rest|, 2
  {
    var x, ws := Collapse(rest, true), Words(rest);
    CollapseClosed(rest);
    WordsAreWords(rest, "");
    NoLead(rest);
    if ws == [] {
      assert word[|word| - 1] in word;
      NothingLeft(rest);
      assert (word + " ")[..|word|] == word;
    } else {
      assert ws[0] in ws;
      GlueNonEmpty(ws);
      assert ([word] + ws)[1..] == ws;
      assert word + (" " + x) == (word + " ") + x;
      EndTrimmed(word + " ", x);
    }
  }

  lemma {:induction false} NothingLeft(s: string)
    requires Words(s) == []
    ensures Collapse(s, true) == ""
    decreases |s|
  {
    if s != "" {
      if IsSpace(s[0]) {
        NothingLeft(s[1..]);
      } else {
        OpenWord(s[1..], "" + [s[0]]);
      }
    }
  }

  lemma {:induction false} OpenWord(s: string, word: string)
    requires word != ""
    ensures WordsFrom(s, word) != []
    decreases |s|
  {
    if s != "" && !IsSpace(s[0]) { OpenWord(s[1..], word + [s[0]]); }
  }

  lemma {:induction false} CollapseClosed(s: string)
    ensures TrimEnd(Collapse(s, true)) == Glue(Words(s), " ")
    decreases |s|, 1
  {
    if s != "" {
      if IsSpace(s[0]) {
        CollapseClosed(s[1..]);
        assert Words(s) == Words(s[1..]) && Collapse(s, true) == Collapse(s[1..], true);
      } else {
        CollapseOpen(s[1..], "" + [s[0]]);
        assert "" + [s[0]] == [s[0]];
      }
    }
  }

  /** Joining lines gives their words, one space apart, and nothing else. */
  lemma JoinSpacesWords(parts: seq<string>)
    ensures Join(parts) == Glue(AllWords(parts), " ")
  {
    var s := Glue(parts, " ");
    StartTrimmed(s);
    CollapseClosed(s);
    WordsOfGlue(parts, " ");
  }

  lemma {:induction false} WordsOfWords(ws: seq<string>)
    requires forall w | w in ws :: Word(w)
    ensures AllWords(ws) == ws
    decreases |ws|
  {
    if ws != [] {
      assert ws[0] in ws && Word(ws[0]);
      WordStays(ws[0], "");
      assert "" + ws[0] == ws[0];
      assert forall w | w in ws[1..] :: w in ws;
      WordsOfWords(ws[1..]);
      assert ws == [ws[0]] + ws[1..];
    }
  }

  lemma {:induction false} AllAreWords(parts: seq<string>)
    ensures forall w | w in AllWords(parts) :: Word(w)
    decreases |parts|
  {
    if parts != [] {
      WordsAreWords(parts[0], "");
      AllAreWords(parts[1..]);
    }
  }

  lemma WordsOfJoin(parts: seq<string>)
    ensures Words(Join(parts)) == AllWords(parts)
  {
    hide Join;
    JoinSpacesWords(parts);
    AllAreWords(parts);
    WordsOfGlue(AllWords(parts), " ");
    WordsOfWords(AllWords(parts));
  }

  // ---------------------------------------------------------------- lines

  predicate IsTag(line: string) {
    var t := TrimStart(line);
    t != "" && t[0] == '@'
  }

  predicate WordChar(c: char) {
    'a' <= c <= 'z' || 'A' <= c <= 'Z' || '0' <= c <= '9' || c == '_'
  }

  /** An `@mode` tag, whatever follows it. */
  predicate IsModeTag(line: string) {
    var t := TrimStart(line);
    StartsAt(t, "@mode", 0) && (|t| == 5 || !WordChar(t[5]))
  }

  /** The mode an `@mode` tag names, if it names a known one and nothing else. */
  function ModeOf(line: string): Option<string> {
    var t := TrimStart(line);
    if StartsAt(t, "@mode", 0) && |t| > 5 && IsSpace(t[5])
       && Trim(t[5..]) in {"emit", "waterfall", "parallel", "serial", "bail"}
    then Some(Trim(t[5..])) else None
  }

  predicate IsBullet(line: string) {
    |line| > 1 && line[0] == '-' && IsSpace(line[1])
  }

  /** The lines before the first tag. */
  function Prose(lines: seq<string>): seq<string>
    decreases |lines|
  {
    if lines == [] || IsTag(lines[0]) then [] else [lines[0]] + Prose(lines[1..])
  }

  function LastMode(lines: seq<string>): Option<string>
    decreases |lines|
  {
    if lines == [] then None
    else
      var last := ModeOf(lines[|lines| - 1]);
      if last.Some? then last else LastMode(lines[..|lines| - 1])
  }

  // ---------------------------------------------------------------- blocks, described

  /** How many lines before the first blank one. */
  function Chunk(lines: seq<string>): (n: nat)
    ensures n <= |lines|
    decreases |lines|
  {
    if lines == [] || Blank(lines[0]) then 0 else 1 + Chunk(lines[1..])
  }

  /** How many lines before the first bullet. */
  function Intro(lines: seq<string>): (n: nat)
    ensures n <= |lines|
    decreases |lines|
  {
    if lines == [] || IsBullet(lines[0]) then 0 else 1 + Intro(lines[1..])
  }

  /** A bullet and the lines up to the next bullet make an item. */
  function Items(lines: seq<string>): seq<string>
    decreases |lines|
  {
    if lines == [] then []
    else
      var n := 1 + Intro(lines[1..]);
      [Join(lines[..n])] + Items(lines[n..])
  }

  function ListBlock(items: seq<string>): string {
    Glue(items, "\n")
  }

  /** A run of lines: an opening paragraph, if any, then a list, if any. */
  function ChunkBlocks(chunk: seq<string>): seq<string> {
    var n := Intro(chunk);
    (if n > 0 then [Join(chunk[..n])] else []) + (if n < |chunk| then [ListBlock(Items(chunk[n..]))] else [])
  }

  function Blocks(lines: seq<string>): seq<string>
    decreases |lines|
  {
    if lines == [] then []
    else if Blank(lines[0]) then Blocks(lines[1..])
    else
      var n := Chunk(lines);
      ChunkBlocks(lines[..n]) + Blocks(lines[n..])
  }

  // ---------------------------------------------------------------- no word is lost

  lemma {:induction false} NoWords(s: string)
    requires Blank(s)
    ensures Words(s) == []
    decreases |s|
  {
    if s != "" {
      assert s[0] in s && forall c | c in s[1..] :: c in s;
      NoWords(s[1..]);
    }
  }

  lemma AllWordsCut(lines: seq<string>, n: nat)
    requires n <= |lines|
    ensures AllWords(lines) == AllWords(lines[..n]) + AllWords(lines[n..])
  {
    hide AllWords;
    AllWordsJoin(lines[..n], lines[n..]);
    assert lines == lines[..n] + lines[n..];
  }

  lemma OneBlock(block: string)
    ensures AllWords([block]) == Words(block)
  {
    assert [block][1..] == [];
    assert AllWords([]) == [];
  }

  lemma {:induction false} WordsOfItems(lines: seq<string>)
    ensures AllWords(Items(lines)) == AllWords(lines)
    decreases |lines|
  {
    hide Join, Words, AllWords, Intro;
    if lines == [] {
    } else {
      var n := 1 + Intro(lines[1..]);
      WordsOfJoin(lines[..n]);
      WordsOfItems(lines[n..]);
      AllWordsCut(lines, n);
      OneBlock(Join(lines[..n]));
      AllWordsJoin([Join(lines[..n])], Items(lines[n..]));
    }
  }

  lemma WordsOfChunk(chunk: seq<string>)
    ensures AllWords(ChunkBlocks(chunk)) == AllWords(chunk)
  {
    hide Join, Words, AllWords, Items, Intro;
    var n := Intro(chunk);
    var intro := if n > 0 then [Join(chunk[..n])] else [];
    var items := if n < |chunk| then [ListBlock(Items(chunk[n..]))] else [];
    NoneLeft();
    AllWordsCut(chunk, n);
    AllWordsJoin(intro, items);
    if n > 0 {
      OneBlock(Join(chunk[..n]));
      WordsOfJoin(chunk[..n]);
    } else {
      assert chunk[..n] == [];
    }
    if n < |chunk| {
      OneBlock(ListBlock(Items(chunk[n..])));
      WordsOfGlue(Items(chunk[n..]), "\n");
      WordsOfItems(chunk[n..]);
    } else {
      assert chunk[n..] == [];
    }
  }

  lemma NoneLeft()
    ensures AllWords([]) == []
  {
  }

  lemma {:induction false} WordsOfBlocks(lines: seq<string>)
    ensures AllWords(Blocks(lines)) == AllWords(lines)
    decreases |lines|
  {
    if lines == [] {
    } else if Blank(lines[0]) {
      NoWords(lines[0]);
      WordsOfBlocks(lines[1..]);
    } else {
      hide AllWords, Words, ChunkBlocks;
      var n := Chunk(lines);
      WordsOfChunk(lines[..n]);
      WordsOfBlocks(lines[n..]);
      AllWordsJoin(ChunkBlocks(lines[..n]), Blocks(lines[n..]));
      AllWordsCut(lines, n);
    }
  }

  // ---------------------------------------------------------------- what open buffers still owe

  /**
   * A pending paragraph excludes a pending list and item, and a pending list implies a pending
   * item; a pending item is one bullet and plain lines, a pending paragraph is plain lines.
   */
  ghost predicate Tidy(para: seq<string>, list: seq<string>, item: seq<string>) {
    && (para != [] ==> list == [] && item == [])
    && (list != [] ==> item != [])
    && Plain(para)
    && (item != [] ==> IsBullet(item[0]) && Plain(item[1..]))
  }

  ghost predicate Plain(lines: seq<string>) {
    Chunk(lines) == |lines| && Intro(lines) == |lines|
  }

  /** The blocks still to come from the open buffers and the lines after them. */
  ghost function Pending(para: seq<string>, list: seq<string>, item: seq<string>, rest: seq<string>): seq<string> {
    if item == [] then Blocks(para + rest)
    else [ListBlock(list + Items(item + rest[..Chunk(rest)]))] + Blocks(rest[Chunk(rest)..])
  }

  ghost function Flushed(para: seq<string>, list: seq<string>, item: seq<string>): seq<string> {
    (if item != [] then [ListBlock(list + [Join(item)])] else []) + (if para != [] then [Join(para)] else [])
  }

  lemma {:induction false} ChunkOn(a: seq<string>, b: seq<string>)
    requires Chunk(a) == |a|
    ensures Chunk(a + b) == |a| + Chunk(b)
    decreases |a|
  {
    if a == [] {
      assert a + b == b;
    } else {
      assert (a + b)[1..] == a[1..] + b;
      ChunkOn(a[1..], b);
    }
  }

  lemma {:induction false} IntroOn(a: seq<string>, b: seq<string>)
    requires Intro(a) == |a|
    ensures Intro(a + b) == |a| + Intro(b)
    decreases |a|
  {
    if a == [] {
      assert a + b == b;
    } else {
      assert (a + b)[1..] == a[1..] + b;
      IntroOn(a[1..], b);
    }
  }

  lemma PlainOn(a: seq<string>, line: string)
    requires Plain(a) && !Blank(line) && !IsBullet(line)
    ensures Plain(a + [line])
  {
    ChunkOn(a, [line]);
    IntroOn(a, [line]);
    assert [line][1..] == [];
    assert Chunk([]) == 0 && Intro([]) == 0;
  }

  lemma FirstItem(item: seq<string>, more: seq<string>)
    requires item != [] && Plain(item[1..]) && (more == [] || IsBullet(more[0]))
    ensures Items(item + more) == [Join(item)] + Items(more)
  {
    hide Items, Join, Chunk, Intro, IsBullet;
    var all := item + more;
    assert all[1..] == item[1..] + more;
    PlainIs(item[1..]);
    IntroOn(item[1..], more);
    NoIntro(more);
    assert all[..|item|] == item && all[|item|..] == more;
    ItemsStep(all);
  }

  lemma ItemsStep(lines: seq<string>)
    requires lines != []
    ensures var n := 1 + Intro(lines[1..]); Items(lines) == [Join(lines[..n])] + Items(lines[n..])
  {
  }

  lemma NoIntro(more: seq<string>)
    requires more == [] || IsBullet(more[0])
    ensures Intro(more) == 0
  {
  }

  lemma PlainChunk(para: seq<string>, more: seq<string>)
    requires para != [] && Plain(para) && (more == [] || IsBullet(more[0]))
    ensures ChunkBlocks(para + more) == [Join(para)] + (if more == [] then [] else [ListBlock(Items(more))])
  {
    IntroOn(para, more);
    assert (para + more)[..|para|] == para && (para + more)[|para|..] == more;
  }

  lemma NotBlank(line: string)
    requires IsBullet(line)
    ensures !Blank(line)
  {
    assert line[0] in line && !IsSpace('-');
  }

  lemma BlocksStep(lines: seq<string>)
    requires lines != [] && !Blank(lines[0])
    ensures Blocks(lines) == ChunkBlocks(lines[..Chunk(lines)]) + Blocks(lines[Chunk(lines)..])
  {
  }

  /** Where a run of lines ends, the buffers owe exactly what a flush pushes. */
  lemma FlushSettles(para: seq<string>, list: seq<string>, item: seq<string>, rest: seq<string>)
    requires Tidy(para, list, item) && Chunk(rest) == 0
    ensures Pending(para, list, item, rest) == Flushed(para, list, item) + Blocks(rest)
  {
    hide Blocks, ChunkBlocks, Items, Join, Intro;
    assert rest[..0] == [] && rest[0..] == rest;
    if item != [] {
      FirstItem(item, []);
      assert item + [] == item && [Join(item)] + [] == [Join(item)];
      NoItems();
    } else if para != [] {
      ChunkOn(para, rest);
      PlainStart(para);
      assert (para + rest)[..|para|] == para + [] && (para + rest)[|para|..] == rest;
      assert !Blank((para + rest)[0]);
      BlocksStep(para + rest);
      PlainChunk(para, []);
    } else {
      assert para + rest == rest;
    }
  }

  lemma NoItems()
    ensures Items([]) == [] && Blocks([]) == []
  {
  }

  lemma PlainIs(para: seq<string>)
    requires Plain(para)
    ensures Chunk(para) == |para| && Intro(para) == |para|
  {
  }

  lemma PlainStart(para: seq<string>)
    requires para != [] && Plain(para)
    ensures !Blank(para[0]) && !IsBullet(para[0])
  {
  }

  lemma BlankPasses(line: string, rest: seq<string>)
    requires Blank(line)
    ensures Chunk([line] + rest) == 0 && Blocks([line] + rest) == Blocks(rest)
  {
    assert ([line] + rest)[1..] == rest;
  }

  /** A plain line joins the open paragraph or the open item. */
  lemma PlainJoins(para: seq<string>, list: seq<string>, item: seq<string>, line: string, rest: seq<string>)
    requires Tidy(para, list, item) && !Blank(line) && !IsBullet(line)
    ensures item == [] ==>
            Tidy(para + [line], list, item)
              && Pending(para, list, item, [line] + rest) == Pending(para + [line], list, item, rest)
    ensures item != [] ==>
            Tidy(para, list, item + [line])
              && Pending(para, list, item, [line] + rest) == Pending(para, list, item + [line], rest)
  {
    hide Blocks, Items, Intro, IsBullet, Blank;
    if item == [] {
      PlainOn(para, line);
      assert para + ([line] + rest) == (para + [line]) + rest;
    } else {
      PlainOn(item[1..], line);
      assert (item + [line])[1..] == item[1..] + [line];
      ChunkOne(line, rest);
      var n := Chunk(rest);
      assert item + ([line] + rest)[..1 + n] == (item + [line]) + rest[..n];
      assert ([line] + rest)[1 + n..] == rest[n..];
    }
  }

  lemma ChunkOne(line: string, rest: seq<string>)
    requires !Blank(line)
    ensures Chunk([line] + rest) == 1 + Chunk(rest)
  {
    assert ([line] + rest)[1..] == rest;
  }

  lemma OneBullet(line: string, rest: seq<string>)
    requires IsBullet(line)
    ensures Tidy([], [], [line]) && Plain([line][1..]) && Chunk([line] + rest) == 1 + Chunk(rest)
    ensures Intro([line] + rest) == 0
  {
    assert [line][1..] == [];
    NotBlank(line);
    ChunkOne(line, rest);
  }

  /** A bullet closes the open paragraph or item and opens the next item. */
  lemma BulletOpens(para: seq<string>, list: seq<string>, item: seq<string>, line: string, rest: seq<string>)
    requires Tidy(para, list, item) && IsBullet(line)
    ensures var list' := if item == [] then list else list + [Join(item)];
            && Tidy([], list', [line])
            && Pending(para, list, item, [line] + rest)
            == (if para != [] then [Join(para)] else []) + Pending([], list', [line], rest)
  {
    hide Blocks, ChunkBlocks, Items, Join, Intro, Chunk, IsBullet, Plain;
    var next, n := [line] + rest, Chunk(rest);
    OneBullet(line, rest);
    var body := [line] + rest[..n];
    assert next[..1 + n] == body && next[1 + n..] == rest[n..];
    if item != [] {
      assert item + next[..1 + n] == item + body;
      FirstItem(item, body);
      assert list + ([Join(item)] + Items(body)) == (list + [Join(item)]) + Items(body);
    } else {
      BulletAfter(para, line, rest);
    }
  }

  lemma BulletAfter(para: seq<string>, line: string, rest: seq<string>)
    requires Plain(para) && IsBullet(line)
    ensures Blocks(para + ([line] + rest))
         == (if para != [] then [Join(para)] else []) + Pending([], [], [line], rest)
  {
    hide Blocks, ChunkBlocks, Items, Join, IsBullet, Intro, Chunk, Blank, Plain, ListBlock;
    var next, n := [line] + rest, Chunk(rest);
    OneBullet(line, rest);
    NotBlank(line);
    PlainIs(para);
    var body := [line] + rest[..n];
    var all := para + next;
    ChunkOn(para, next);
    assert all[..|para| + 1 + n] == para + body && all[|para| + 1 + n..] == rest[n..];
    if para != [] { PlainStart(para); }
    assert !Blank(all[0]);
    BlocksStep(all);
    BulletChunk(para, body);
    assert [] + Items(body) == Items(body);
  }

  lemma BulletChunk(para: seq<string>, body: seq<string>)
    requires Plain(para) && body != [] && IsBullet(body[0])
    ensures ChunkBlocks(para + body) == (if para != [] then [Join(para)] else []) + [ListBlock(Items(body))]
  {
    hide Items, Join, Intro;
    if para == [] {
      assert para + body == body;
      assert Intro(body) == 0 by { OneBullet(body[0], body[1..]); assert body == [body[0]] + body[1..]; }
      assert body[0..] == body;
    } else {
      PlainChunk(para, body);
    }
  }

  lemma ProseStep(lines: seq<string>, i: nat)
    requires i < |lines|
    ensures Prose(lines[i..]) == if IsTag(lines[i]) then [] else [lines[i]] + Prose(lines[i + 1..])
  {
    assert lines[i..][1..] == lines[i + 1..];
  }

  lemma ModeStep(lines: seq<string>, i: nat)
    requires i < |lines|
    ensures LastMode(lines[..i + 1]) == if ModeOf(lines[i]).Some? then ModeOf(lines[i]) else LastMode(lines[..i])
    ensures ModeOf(lines[i]).Some? ==> IsModeTag(lines[i])
    ensures IsModeTag(lines[i]) ==> IsTag(lines[i])
  {
    assert lines[..i + 1][..i] == lines[..i];
  }

  // ---------------------------------------------------------------- the machine

  class LineMachine {
    var blocks: seq<string>
    var para: seq<string>
    var list: seq<string>
    var item: seq<string>

    constructor ()
      ensures blocks == para == list == item == []
    {
      blocks, para, list, item := [], [], [], [];
    }

    method FlushItem()
      modifies this`list, this`item
      ensures item == []
      ensures list == old(list) + (if old(item) == [] then [] else [Join(old(item))])
    {
      if item != [] { list := list + [Join(item)]; }
      item := [];
    }

    method FlushList()
      modifies this`blocks, this`list, this`item
      ensures item == list == []
      ensures var all := old(list) + (if old(item) == [] then [] else [Join(old(item))]);
              blocks == old(blocks) + (if all == [] then [] else [ListBlock(all)])
    {
      FlushItem();
      if list != [] { blocks := blocks + [ListBlock(list)]; }
      list := [];
    }

    method FlushPara()
      requires Tidy(para, list, item)
      modifies this
      ensures item == list == para == []
      ensures blocks == old(blocks) + Flushed(old(para), old(list), old(item))
    {
      FlushList();
      if para != [] { blocks := blocks + [Join(para)]; }
      para := [];
    }

    /** One line of prose. */
    method Take(line: string, ghost rest: seq<string>)
      requires Tidy(para, list, item)
      modifies this
      ensures Tidy(para, list, item)
      ensures blocks + Pending(para, list, item, rest)
           == old(blocks) + Pending(old(para), old(list), old(item), [line] + rest)
    {
      hide Pending, Blocks, Tidy;
      NothingOpen(rest);
      if Blank(line) {
        BlankPasses(line, rest);
        FlushSettles(para, list, item, [line] + rest);
        FlushPara();
      } else if IsBullet(line) {
        BulletOpens(para, list, item, line, rest);
        ParaAlone(para, list, item);
        FlushItem();
        if para != [] {
          blocks := blocks + [Join(para)];
          para := [];
        }
        item := item + [line];
        assert item == [line] && old(list) + [] == old(list);
      } else {
        PlainJoins(para, list, item, line, rest);
        if item != [] {
          item := item + [line];
        } else {
          para := para + [line];
        }
      }
    }
  }

  lemma NothingOpen(rest: seq<string>)
    ensures Tidy([], [], []) && Pending([], [], [], rest) == Blocks(rest)
  {
    assert [] + rest == rest;
  }

  lemma ParaAlone(para: seq<string>, list: seq<string>, item: seq<string>)
    requires Tidy(para, list, item)
    ensures para != [] ==> list == [] && item == []
  {
  }

  method ParseLines(lines: seq<string>) returns (blocks: seq<string>, mode: Option<string>, hasMode: bool)
    ensures blocks == Blocks(Prose(lines))
    ensures mode == LastMode(lines)
    ensures hasMode <==> exists k :: 0 <= k < |lines| && IsModeTag(lines[k])
  {
    hide Pending, Blocks, Tidy, IsTag, IsModeTag, ModeOf, LastMode, Prose;
    var machine := new LineMachine();
    mode, hasMode := None, false;
    var inTags := false;
    ghost var goal := Blocks(Prose(lines));
    NothingOpen(Prose(lines));
    EndOfLines(lines);
    for i := 0 to |lines|
      invariant Tidy(machine.para, machine.list, machine.item)
      invariant !inTags ==>
                goal == machine.blocks + Pending(machine.para, machine.list, machine.item, Prose(lines[i..]))
      invariant inTags ==> goal == machine.blocks && machine.para == machine.list == machine.item == []
      invariant mode == LastMode(lines[..i])
      invariant hasMode <==> exists k :: 0 <= k < i && IsModeTag(lines[k])
    {
      var line := lines[i];
      ProseStep(lines, i);
      ModeStep(lines, i);
      NothingOpen([]);
      NoItems();
      if IsTag(line) {
        if ModeOf(line).Some? { mode := ModeOf(line); }
        if IsModeTag(line) { hasMode := true; }
        if !inTags { FlushSettles(machine.para, machine.list, machine.item, []); }
        machine.FlushPara();
        inTags := true;
      } else if !inTags {
        machine.Take(line, Prose(lines[i + 1..]));
      }
    }
    assert lines[..|lines|] == lines;
    NoItems();
    FlushSettles(machine.para, machine.list, machine.item, []);
    machine.FlushPara();
    blocks := machine.blocks;
  }

  lemma EndOfLines(lines: seq<string>)
    ensures lines[0..] == lines && lines[..0] == [] && lines[|lines|..] == []
    ensures LastMode([]) == None && Prose([]) == []
  {
  }

  // ---------------------------------------------------------------- comments

  function SplitFrom(s: string, line: string): seq<string>
    decreases |s|
  {
    if s == "" then [line]
    else if s[0] == '\n' then [line] + SplitFrom(s[1..], "")
    else SplitFrom(s[1..], line + [s[0]])
  }

  /** Drop leading white space, one star and one more space, and trailing white space. */
  function StripLine(l: string): string {
    var t := TrimStart(l);
    var u := if t != "" && t[0] == '*' then t[1..] else t;
    TrimEnd(if u != "" && IsSpace(u[0]) then u[1..] else u)
  }

  function StripAll(ls: seq<string>): seq<string>
    decreases |ls|
  {
    if ls == [] then [] else [StripLine(ls[0])] + StripAll(ls[1..])
  }

  function DropPrefix(s: string, p: string): string {
    if StartsAt(s, p, 0) then s[|p|..] else s
  }

  function DropSuffix(s: string, p: string): string {
    if |p| <= |s| && s[|s| - |p|..] == p then s[..|s| - |p|] else s
  }

  /** The lines inside a comment. */
  function Inner(raw: string): seq<string> {
    StripAll(SplitFrom(DropSuffix(DropPrefix(raw, "/**"), "*/"), ""))
  }

  /** A comment as it is written: each line after a star, the delimiters on lines of their own. */
  function Comment(lines: seq<string>): string {
    "/**\n" + Rows(lines) + "*/"
  }

  function Rows(lines: seq<string>): string
    decreases |lines|
  {
    if lines == [] then " " else " * " + lines[0] + "\n" + Rows(lines[1..])
  }

  lemma {:induction false} SplitLine(l: string, rest: string, line: string)
    requires '\n' !in l
    ensures SplitFrom(l + ['\n'] + rest, line) == [line + l] + SplitFrom(rest, "")
    decreases |l|
  {
    var s := l + ['\n'] + rest;
    if l == "" {
      assert s[1..] == rest && line + l == line;
    } else {
      assert s[1..] == l[1..] + ['\n'] + rest;
      assert (line + [l[0]]) + l[1..] == line + l;
      SplitLine(l[1..], rest, line + [l[0]]);
    }
  }

  lemma StripRow(line: string)
    requires TrimEnd(line) == line
    ensures StripLine(" * " + line) == line
  {
    var l := " * " + line;
    assert l[1..][0] == '*' && !IsSpace('*') && IsSpace(' ');
    assert TrimStart(l[1..]) == l[1..];
    assert l[1..][1..] == " " + line;
    assert (" " + line)[1..] == line;
  }

  lemma {:induction false} RowsRead(lines: seq<string>)
    requires forall l | l in lines :: '\n' !in l && TrimEnd(l) == l
    ensures StripAll(SplitFrom(Rows(lines), "")) == lines + [""]
    decreases |lines|
  {
    hide TrimEnd, TrimStart, SplitFrom, StripLine, StripAll;
    if lines == [] {
      EmptyRow();
    } else {
      var first, rest := " * " + lines[0], Rows(lines[1..]);
      assert lines[0] in lines && forall l | l in lines[1..] :: l in lines;
      assert Rows(lines) == first + ['\n'] + rest;
      SplitLine(first, rest, "");
      StripRow(lines[0]);
      RowsRead(lines[1..]);
      assert "" + first == first;
      StripMore(first, SplitFrom(rest, ""));
      assert [lines[0]] + (lines[1..] + [""]) == lines + [""];
    }
  }

  lemma StripMore(first: string, ls: seq<string>)
    ensures StripAll([first] + ls) == [StripLine(first)] + StripAll(ls)
  {
    assert ([first] + ls)[1..] == ls;
  }

  lemma EmptyRow()
    ensures StripAll(SplitFrom(" ", "")) == [""]
  {
    var row: string := " ";
    assert row[1..] == "" && "" + [row[0]] == row && IsSpace(row[0]);
    assert SplitFrom(row, "") == SplitFrom("", row) == [row] by {
      assert SplitFrom(row, "") == SplitFrom(row[1..], "" + [row[0]]);
    }
    assert StripLine(row) == "" by { assert TrimStart(row) == TrimStart(row[1..]) == ""; }
    var none: seq<string> := [];
    assert [row][1..] == none;
    assert StripAll([row]) == [StripLine(row)] + StripAll(none);
  }

  /** Reading a comment gives back the lines it was written from, between two empty ones. */
  lemma InnerReadsLines(lines: seq<string>)
    requires forall l | l in lines :: '\n' !in l && TrimEnd(l) == l
    ensures Inner(Comment(lines)) == [""] + lines + [""]
  {
    hide TrimEnd, TrimStart, SplitFrom, StripAll, Rows;
    var raw := Comment(lines);
    var body := "\n" + Rows(lines) + "*/";
    assert raw == "/**" + body;
    assert raw[..3] == "/**" && raw[3..] == body;
    var s := "" + ['\n'] + Rows(lines);
    assert body == s + "*/";
    assert body[|body| - 2..] == "*/" && body[..|body| - 2] == s;
    assert DropPrefix(raw, "/**") == body && DropSuffix(body, "*/") == s;
    SplitLine("", Rows(lines), "");
    var empty: string := "";
    assert empty + empty == empty;
    RowsRead(lines);
    StripFirst(SplitFrom(Rows(lines), ""));
    assert [""] + (lines + [""]) == [""] + lines + [""];
  }

  lemma StripFirst(ls: seq<string>)
    ensures StripAll([""] + ls) == [""] + StripAll(ls)
  {
    var all := [""] + ls;
    assert all[1..] == ls && all[0] == "";
    assert StripLine("") == "" by { assert TrimStart("") == "" && TrimEnd("") == ""; }
    assert StripAll(all) == [StripLine(all[0])] + StripAll(all[1..]);
  }

  // ---------------------------------------------------------------- link tags

  function SpaceRun(s: string): (n: nat)
    ensures n <= |s| && forall i | 0 <= i < n :: IsSpace(s[i])
    ensures n < |s| ==> !IsSpace(s[n])
  {
    if s == "" || !IsSpace(s[0]) then 0 else 1 + SpaceRun(s[1..])
  }

  /**
   * A link tag at the front of the text: its length and its target. White space before the target
   * is dropped, but a target of white space alone keeps its last character.
   */
  function LinkTag(s: string): (r: Option<(nat, string)>)
    ensures r.Some? ==> 0 < r.value.0 <= |s|
  {
    if !StartsAt(s, "{@link", 0) then None
    else
      var rest := s[6..];
      var blank, end := SpaceRun(rest), IndexOf(rest, "}", 0);
      if blank == 0 || end > |rest| then None
      else if blank < end then Some((7 + end, rest[blank..end]))
      else if end >= 2 && blank == end then Some((7 + end, rest[end - 1..end]))
      else None
  }

  /** Every link tag replaced by its target, left to right. */
  function RenderLinks(s: string): string
    decreases |s|
  {
    if s == "" then ""
    else
      var tag := LinkTag(s);
      if tag.Some? then tag.value.1 + RenderLinks(s[tag.value.0..])
      else [s[0]] + RenderLinks(s[1..])
  }

  lemma FirstChar(s: string, what: string, i: nat)
    requires what != ""
    ensures StartsAt(s, what, i) ==> i < |s| && s[i] == what[0]
  {
  }

  /** Text before which no tag can begin passes unchanged. */
  lemma {:induction false} PlainTextStays(a: string, b: string)
    requires '{' !in a
    ensures RenderLinks(a + b) == a + RenderLinks(b)
    decreases |a|
  {
    hide RenderLinks;
    if a == "" {
      assert a + b == b;
    } else {
      assert a + b == [a[0]] + (a[1..] + b) && a[0] in a;
      PlainChar(a[0], a[1..] + b);
      PlainTextStays(a[1..], b);
      assert [a[0]] + (a[1..] + RenderLinks(b)) == a + RenderLinks(b);
    }
  }

  lemma PlainChar(c: char, rest: string)
    requires c != '{'
    ensures RenderLinks([c] + rest) == [c] + RenderLinks(rest)
  {
    var s := [c] + rest;
    assert s[0] == c && s[1..] == rest;
    FirstChar(s, "{@link", 0);
  }

  /** A tag begins here, as far as the white space that must follow its name. */
  predicate TagBegins(s: string, i: nat) {
    StartsAt(s, "{@link", i) && i + 6 < |s| && IsSpace(s[i + 6])
  }

  /** Every tag that begins in the text has a brace that closes it. */
  predicate NoneOpen(s: string) {
    forall i | 0 <= i < |s| && TagBegins(s, i) :: '}' in s[i + 6..]
  }

  lemma NoneOpenRest(s: string, n: nat)
    requires NoneOpen(s) && n <= |s|
    ensures NoneOpen(s[n..])
  {
    forall i | 0 <= i < |s[n..]| && TagBegins(s[n..], i) ensures '}' in s[n..][i + 6..] {
      assert s[n..][i..i + 6] == s[n + i..n + i + 6];
      assert TagBegins(s, n + i);
      assert s[n..][i + 6..] == s[n + i + 6..];
    }
  }

  /** No tag reaches from a text in which none is open into another that begins with a brace. */
  lemma {:induction false} TagStays(u: string, s: string)
    requires u != "" && NoneOpen(u) && s != "" && s[0] == '{'
    ensures LinkTag(u + s) == LinkTag(u)
  {
    var t := u + s;
    if StartsAt(t, "{@link", 0) {
      NameInside(u, s);
      assert t[0..6] == u[0..6];
      var rest, more := u[6..], t[6..];
      assert more == rest + s;
      assert more[0] == if rest == "" then '{' else rest[0];
      hide SpaceRun, IndexOf;
      if rest == "" || !IsSpace(rest[0]) {
        NoSpaceNoTag(t);
        NoSpaceNoTag(u);
      } else {
        assert TagBegins(u, 0) && '}' in u[0 + 6..];
        BraceInside(rest, s);
      }
    } else {
      assert |u| >= 6 ==> t[0..6] == u[0..6];
    }
  }

  lemma NoSpaceNoTag(s: string)
    requires |s| >= 6 && (s[6..] == "" || !IsSpace(s[6..][0]))
    ensures LinkTag(s) == None
  {
    assert SpaceRun(s[6..]) == 0;
  }

  lemma NameInside(u: string, s: string)
    requires s != "" && s[0] == '{' && StartsAt(u + s, "{@link", 0) && u != ""
    ensures |u| >= 6
  {
    var t, name: string := u + s, "{@link";
    assert forall k | 0 < k < 6 :: name[k] != '{';
    assert forall k | 0 <= k < 6 :: t[k] == t[0..6][k];
    assert t[|u|] == '{';
  }

  lemma BraceInside(rest: string, s: string)
    requires '}' in rest
    ensures SpaceRun(rest + s) == SpaceRun(rest) <= IndexOf(rest, "}", 0) < |rest|
    ensures IndexOf(rest + s, "}", 0) == IndexOf(rest, "}", 0)
    ensures forall i, j | 0 <= i <= j <= |rest| :: (rest + s)[i..j] == rest[i..j]
  {
    hide IndexOf, SpaceRun;
    var brace :| 0 <= brace < |rest| && rest[brace] == '}';
    var all, end := rest + s, IndexOf(rest, "}", 0);
    assert StartsAt(rest, "}", brace) && StartsAt(all, "}", brace);
    assert end <= brace && rest[end] == '}' && all[end] == '}' by { FirstChar(rest, "}", end); }
    assert StartsAt(all, "}", end);
    var end' := IndexOf(all, "}", 0);
    FirstChar(all, "}", end');
    assert end' <= end && all[end'] == rest[end'];
    assert StartsAt(rest, "}", end');
    assert !IsSpace('}');
    RunStopsBefore(rest, end);
    RunStopsBefore(all, end);
    SameRun(rest, s);
  }

  lemma RunStopsBefore(s: string, i: nat)
    requires i < |s| && !IsSpace(s[i])
    ensures SpaceRun(s) <= i
  {
  }

  lemma SameRun(rest: string, s: string)
    requires SpaceRun(rest) < |rest|
    ensures SpaceRun(rest + s) == SpaceRun(rest)
  {
    var n, m := SpaceRun(rest), SpaceRun(rest + s);
    assert (rest + s)[n] == rest[n];
    if m < n { assert (rest + s)[m] == rest[m]; }
  }

  /** So rendering splits there. */
  lemma {:induction false} RenderSplits(before: string, s: string)
    requires NoneOpen(before) && s != "" && s[0] == '{'
    ensures RenderLinks(before + s) == RenderLinks(before) + RenderLinks(s)
    decreases |before|
  {
    hide LinkTag, NoneOpen;
    if before == "" {
      assert before + s == s;
    } else {
      TagStays(before, s);
      var tag := LinkTag(before);
      var n := if tag.Some? then tag.value.0 else 1;
      assert (before + s)[n..] == before[n..] + s;
      NoneOpenRest(before, n);
      RenderSplits(before[n..], s);
    }
  }

  /** `{@link X}` renders as `X`, between any text after it and any before it that leaves no tag open. */
  lemma LinkRendersTarget(before: string, target: string, after: string)
    requires NoneOpen(before) && target != "" && '}' !in target && !IsSpace(target[0])
    ensures RenderLinks(before + ("{@link " + target + "}" + after))
         == RenderLinks(before) + target + RenderLinks(after)
  {
    hide RenderLinks, LinkTag, NoneOpen;
    var s := "{@link " + target + "}" + after;
    RenderSplits(before, s);
    TagAtFront(target, after);
    RenderTag(s, 8 + |target|, target);
    assert s[8 + |target|..] == after;
  }

  lemma RenderTag(s: string, n: nat, target: string)
    requires LinkTag(s) == Some((n, target))
    ensures n <= |s| && RenderLinks(s) == target + RenderLinks(s[n..])
  {
  }

  lemma TagAtFront(target: string, after: string)
    requires target != "" && '}' !in target && !IsSpace(target[0])
    ensures LinkTag("{@link " + target + "}" + after) == Some((8 + |target|, target))
  {
    hide IndexOf, SpaceRun;
    var s := "{@link " + target + "}" + after;
    var rest := " " + target + "}" + after;
    assert s[0..6] == "{@link" && s[6..] == rest;
    OneSpace(target + "}" + after);
    assert rest == " " + (target + "}" + after);
    ClosingBrace(target, after);
    assert rest[1..1 + |target|] == target;
  }

  lemma OneSpace(t: string)
    requires t != "" && !IsSpace(t[0])
    ensures SpaceRun(" " + t) == 1
  {
    assert (" " + t)[1..] == t && IsSpace(' ');
  }

  lemma ClosingBrace(target: string, after: string)
    requires '}' !in target
    ensures IndexOf(" " + target + "}" + after, "}", 0) == 1 + |target|
  {
    var rest, end := " " + target + "}" + after, 1 + |target|;
    assert StartsAt(rest, "}", end);
    forall j | 0 <= j < end ensures !StartsAt(rest, "}", j) {
      FirstChar(rest, "}", j);
      assert rest[j] == if j == 0 then ' ' else target[j - 1];
      assert j > 0 ==> target[j - 1] in target;
    }
  }

  // ---------------------------------------------------------------- the description

  method ParseJsDoc(raw: string) returns (doc: string, mode: Option<string>, hasMode: bool)
    ensures doc == Trim(RenderLinks(Glue(Blocks(Prose(Inner(raw))), "\n\n")))
    ensures mode == LastMode(Inner(raw))
    ensures hasMode <==> exists k :: 0 <= k < |Inner(raw)| && IsModeTag(Inner(raw)[k])
  {
    hide Inner, Blocks, Prose, LastMode, RenderLinks;
    var blocks;
    blocks, mode, hasMode := ParseLines(Inner(raw));
    doc := Trim(RenderLinks(Glue(blocks, "\n\n")));
  }

  /**
   * Up to the rendering of links, the words of the description are those of the lines before the
   * first tag, in order.
   */
  lemma ProseIsConserved(lines: seq<string>)
    ensures Words(Glue(Blocks(Prose(lines)), "\n\n")) == AllWords(Prose(lines))
  {
    hide Blocks, Prose, Words, AllWords, Glue;
    WordsOfGlue(Blocks(Prose(lines)), "\n\n");
    WordsOfBlocks(Prose(lines));
  }

  lemma {:induction false} WordsOfTrimEnd(s: string)
    ensures Words(TrimEnd(s)) == Words(s)
    decreases |s|
  {
    if s != "" && IsSpace(s[|s| - 1]) {
      var front := s[..|s| - 1];
      assert s == front + [s[|s| - 1]] + "";
      WordsSplit(front, s[|s| - 1], "", "");
      WordsOfTrimEnd(front);
    }
  }

  lemma {:induction false} WordsOfTrimStart(s: string)
    ensures Words(TrimStart(s)) == Words(s)
    decreases |s|
  {
    if s != "" && IsSpace(s[0]) { WordsOfTrimStart(s[1..]); }
  }

  /** Without a brace in the prose, the finished description has exactly its words. */
  lemma DescriptionKeepsWords(lines: seq<string>)
    requires '{' !in Glue(Blocks(Prose(lines)), "\n\n")
    ensures Words(Trim(RenderLinks(Glue(Blocks(Prose(lines)), "\n\n")))) == AllWords(Prose(lines))
  {
    hide Blocks, Prose, Words, AllWords, Glue;
    var t := Glue(Blocks(Prose(lines)), "\n\n");
    PlainTextStays(t, "");
    assert t + "" == t;
    WordsOfTrimStart(t);
    WordsOfTrimEnd(TrimStart(t));
    ProseIsConserved(lines);
  }
}
