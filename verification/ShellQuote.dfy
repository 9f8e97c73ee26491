/**
 * Copyable shell commands (`scripts/publish-npm-baseline.ts`, quoteShellArgument and
 * formatCopyableCommand), read back by a lexer for the quoting rules of section 2.2 of the
 * POSIX.1-2017 Shell Command Language.
 */
module ShellQuote {
  import opened Prelude

  const QUOTE := '\''

  /** `[\w./:@=+-]` */
  predicate Safe(c: char) {
    ('a' <= c <= 'z') || ('A' <= c <= 'Z') || ('0' <= c <= '9') || c in {'_', '.', '/', ':', '@', '=', '+', '-'}
  }

  predicate AllSafe(s: string) {
    forall c | c in s :: Safe(c)
  }

  const ESCAPED := ['\'', '"', '\'', '"', '\'']

  /** `value.replaceAll("'", escaped)` */
  function EscapeQuotes(s: string): string {
    if s == "" then "" else (if s[0] == QUOTE then ESCAPED else [s[0]]) + EscapeQuotes(s[1..])
  }

  function Quote(s: string): string {
    if s != "" && AllSafe(s) then s else [QUOTE] + EscapeQuotes(s) + [QUOTE]
  }

  function Join(words: seq<string>): string
    requires words != []
  {
    if |words| == 1 then Quote(words[0]) else Quote(words[0]) + " " + Join(words[1..])
  }

  function FormatCopyableCommand(command: string, args: seq<string>): string {
    Join([command] + args)
  }

  // ---------------------------------------------------------------- the shell's reading

  /** Outside quotes these characters quote, separate, expand or operate: none stands for itself. */
  predicate Special(c: char) {
    c in {'|', '&', ';', '<', '>', '(', ')', '$', '`', '\\', '"', '\'', ' ', '\t', '\n', '*', '?',
      '[', '#', '~', '%', '!', '{', '}'}
  }

  datatype Mode = Plain | Single | Double

  /**
   * Words of a command line. `word` is the word being built, if one has begun. Anything whose
   * meaning goes beyond quoting and blanks (an operator, an expansion, an open quote) is refused.
   */
  function Lex(s: string, mode: Mode, word: Option<string>): Option<seq<string>>
    decreases |s|
  {
    if s == "" then
      if mode != Plain then None else Some(if word.Some? then [word.value] else [])
    else
      var c, rest := s[0], s[1..];
      var text := if word.Some? then word.value else "";
      match mode
      case Single => if c == QUOTE then Lex(rest, Plain, Some(text)) else Lex(rest, Single, Some(text + [c]))
      case Double =>
        if c == '"' then Lex(rest, Plain, Some(text))
        else if c in {'$', '`', '\\'} then None
        else Lex(rest, Double, Some(text + [c]))
      case Plain =>
        if c == ' ' || c == '\t' then
          (match Lex(rest, Plain, None)
           case None => None
           case Some(words) => Some(if word.Some? then [word.value] + words else words))
        else if c == QUOTE then Lex(rest, Single, Some(text))
        else if c == '"' then Lex(rest, Double, Some(text))
        else if Special(c) then None
        else Lex(rest, Plain, Some(text + [c]))
  }

  lemma {:induction false} LexSafe(s: string, rest: string, text: string)
    requires s != "" && AllSafe(s)
    ensures Lex(s + rest, Plain, Some(text)) == Lex(rest, Plain, Some(text + s))
    ensures text == "" ==> Lex(s + rest, Plain, None) == Lex(rest, Plain, Some(s))
    decreases |s|
  {
    hide Lex, Safe;
    LexSafeStep(s, rest, text);
    assert "" + [s[0]] == [s[0]] && "" + s == s;
    if |s| == 1 {
      assert s == [s[0]] && s[1..] + rest == rest;
    } else {
      LexSafe(s[1..], rest, text + [s[0]]);
      assert text + [s[0]] + s[1..] == text + s;
    }
  }

  lemma LexSafeStep(s: string, rest: string, text: string)
    requires s != "" && AllSafe(s)
    ensures AllSafe(s[1..])
    ensures Lex(s + rest, Plain, Some(text)) == Lex(s[1..] + rest, Plain, Some(text + [s[0]]))
    ensures Lex(s + rest, Plain, None) == Lex(s[1..] + rest, Plain, Some("" + [s[0]]))
  {
    var whole := s + rest;
    assert s[0] in s && Safe(s[0]) && forall c | c in s[1..] :: c in s;
    assert whole[0] == s[0] && whole[1..] == s[1..] + rest;
    assert "" + [s[0]] == [s[0]];
  }

  lemma LexEscapedQuote(rest: string, text: string)
    ensures Lex(ESCAPED + rest, Single, Some(text)) == Lex(rest, Single, Some(text + [QUOTE]))
  {
    var r4 := [QUOTE] + rest;
    var r3 := ['"'] + r4;
    var r2 := [QUOTE] + r3;
    var r1 := ['"'] + r2;
    assert ESCAPED + rest == [QUOTE] + r1;
    assert Lex([QUOTE] + r1, Single, Some(text)) == Lex(r1, Plain, Some(text)) by { assert ([QUOTE] + r1)[1..] == r1; }
    assert Lex(r1, Plain, Some(text)) == Lex(r2, Double, Some(text)) by { assert r1[1..] == r2; }
    assert Lex(r2, Double, Some(text)) == Lex(r3, Double, Some(text + [QUOTE])) by { assert r2[1..] == r3; }
    assert Lex(r3, Double, Some(text + [QUOTE])) == Lex(r4, Plain, Some(text + [QUOTE])) by { assert r3[1..] == r4; }
    assert r4[1..] == rest;
    assert Lex(r4, Plain, Some(text + [QUOTE])) == Lex(rest, Single, Some(text + [QUOTE]));
  }

  lemma {:induction false} LexEscaped(s: string, rest: string, text: string)
    ensures Lex(EscapeQuotes(s) + rest, Single, Some(text)) == Lex(rest, Single, Some(text + s))
    decreases |s|
  {
    if s == "" {
      assert EscapeQuotes(s) + rest == rest && text + s == text;
    } else {
      var tail := EscapeQuotes(s[1..]) + rest;
      LexEscaped(s[1..], rest, text + [s[0]]);
      assert text + [s[0]] + s[1..] == text + s;
      if s[0] == QUOTE {
        assert EscapeQuotes(s) + rest == ESCAPED + tail;
        LexEscapedQuote(tail, text);
      } else {
        assert EscapeQuotes(s) + rest == [s[0]] + tail;
        assert ([s[0]] + tail)[1..] == tail;
      }
    }
  }

  /** One quoted argument reads back as one word, whatever follows. */
  lemma LexQuoted(s: string, rest: string)
    ensures Lex(Quote(s) + rest, Plain, None) == Lex(rest, Plain, Some(s))
  {
    if s != "" && AllSafe(s) {
      LexSafe(s, rest, "");
    } else {
      var body := EscapeQuotes(s) + ([QUOTE] + rest);
      assert Quote(s) + rest == [QUOTE] + body;
      assert ([QUOTE] + body)[1..] == body;
      LexEscaped(s, [QUOTE] + rest, "");
      assert "" + s == s;
      assert ([QUOTE] + rest)[1..] == rest;
    }
  }

  lemma {:induction false} LexJoin(words: seq<string>)
    requires words != []
    ensures Lex(Join(words), Plain, None) == Some(words)
    decreases |words|
  {
    if |words| == 1 {
      LexQuoted(words[0], "");
      assert Quote(words[0]) + "" == Quote(words[0]) && words == [words[0]];
    } else {
      var rest := " " + Join(words[1..]);
      assert Join(words) == Quote(words[0]) + rest;
      LexQuoted(words[0], rest);
      LexJoin(words[1..]);
      assert rest[1..] == Join(words[1..]);
      assert words == [words[0]] + words[1..];
    }
  }

  /** The printed command lexes to exactly the command and the arguments that were formatted. */
  lemma CopyableCommandReadsBack(command: string, args: seq<string>)
    ensures Lex(FormatCopyableCommand(command, args), Plain, None) == Some([command] + args)
  {
    LexJoin([command] + args);
  }

  /** The characters of words that need no quotes. */
  predicate Unquoted(word: string) {
    word != "" && forall c | c in word ::
      'a' <= c <= 'z' || 'A' <= c <= 'Z' || '0' <= c <= '9' || c in "_./:@=+-"
  }

  /** Such a word is copied as it is; any other stands between single quotes. */
  lemma QuotesOnlyWhereNeeded(word: string)
    ensures Unquoted(word) ==> Quote(word) == word
    ensures !Unquoted(word) ==> exists inside: string :: Quote(word) == "'" + inside + "'"
  {
    if !Unquoted(word) { assert Quote(word) == "'" + EscapeQuotes(word) + "'"; }
  }
}
