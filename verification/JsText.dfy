/** The few text primitives of the host language that several models share. */
module JsText {
  /** White space as the host's trim and \s see it. */
  predicate IsSpace(c: char) {
    var n := c as int;
    (9 <= n <= 13) || n == 32 || n == 0xA0 || n == 0x1680 || (0x2000 <= n <= 0x200A) ||
    n == 0x2028 || n == 0x2029 || n == 0x202F || n == 0x205F || n == 0x3000 || n == 0xFEFF
  }

  /** `s.trim().length === 0` */
  predicate Blank(s: string) {
    forall c | c in s :: IsSpace(c)
  }

  /** `what` stands in `s` at `i`. */
  predicate StartsAt(s: string, what: string, i: nat) {
    i + |what| <= |s| && s[i..i + |what|] == what
  }

  /** String.indexOf: the first occurrence at or after `from`, or a position past the end. */
  function IndexOf(s: string, what: string, from: nat): (i: nat)
    ensures i <= |s| ==> from <= i && StartsAt(s, what, i)
    ensures forall j | from <= j < i :: !StartsAt(s, what, j)
    ensures i > |s| ==> forall j | from <= j :: !StartsAt(s, what, j)
    decreases |s| - from
  {
    if from + |what| > |s| then Past(s, what, from); |s| + 1
    else if StartsAt(s, what, from) then from
    else IndexOf(s, what, from + 1)
  }

  lemma Past(s: string, what: string, from: nat)
    requires from + |what| > |s|
    ensures forall j | from <= j :: !StartsAt(s, what, j)
  {
  }

  /** White space, character by character: section 12.2 and 12.3 of ECMA-262. */
  lemma WhiteSpaceIs(c: char)
    ensures IsSpace(c) <==>
              c in "\t\n\U{0B}\U{0C}\r \U{A0}\U{1680}\U{2028}\U{2029}\U{202F}\U{205F}\U{3000}\U{FEFF}"
              || '\U{2000}' <= c <= '\U{200A}'
  {
  }
}
