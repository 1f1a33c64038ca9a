/**
 Character classes and small string helpers shared by the editor model:
 the word-character class behind the regex escapes `\w` and `\b`, Python's
 whitespace class used by `str.strip`, leading-space counting and a
 first-occurrence search.
 */
module Text {

  datatype Option<+T> = None | Some(value: T)

  /** Stand-in for the regex class `\w`: ASCII letters, digits and underscore. */
  predicate IsWordChar(c: char) {
    ('a' <= c <= 'z') || ('A' <= c <= 'Z') || ('0' <= c <= '9') || c == '_'
  }

  /** Position `i` of `s` exists and holds a word character. */
  predicate WordAt(s: string, i: int) {
    0 <= i < |s| && IsWordChar(s[i])
  }

  /** The regex assertion `\b` at position `i`: exactly one side is a word character. */
  predicate IsBoundary(s: string, i: int) {
    WordAt(s, i - 1) != WordAt(s, i)
  }

  /** The characters for which Python's `str.isspace` holds. */
  predicate IsPyWhitespace(c: char) {
    || c == ' '
    || ('\t' <= c <= '\r')
    || ('\U{1C}' <= c <= '\U{1F}')
    || c == '\U{85}' || c == '\U{A0}' || c == '\U{1680}'
    || ('\U{2000}' <= c <= '\U{200A}')
    || c == '\U{2028}' || c == '\U{2029}' || c == '\U{202F}'
    || c == '\U{205F}' || c == '\U{3000}'
  }

  /** `n` space characters. */
  function Spaces(n: nat): (r: string)
    ensures |r| == n
    ensures forall i :: 0 <= i < n ==> r[i] == ' '
  {
    seq(n, _ => ' ')
  }

  /** Python's slice `s[:n]`: at most the first `n` characters. */
  function Prefix(s: string, n: int): (r: string)
    ensures |r| == if n <= 0 then 0 else if n <= |s| then n else |s|
    ensures r == s[..|r|]
  {
    if n <= 0 then [] else if n <= |s| then s[..n] else s
  }

  /** Length of the run of ' ' characters that starts the string. */
  function LeadingSpaces(s: string): (n: nat)
    ensures n <= |s|
    ensures forall i :: 0 <= i < n ==> s[i] == ' '
    ensures n < |s| ==> s[n] != ' '
  {
    if s != [] && s[0] == ' ' then 1 + LeadingSpaces(s[1..]) else 0
  }

  /** Python's `s.rstrip()`: drop trailing whitespace. */
  function RStrip(s: string): (r: string)
    ensures |r| <= |s| && r == s[..|r|]
    ensures r == [] || !IsPyWhitespace(r[|r| - 1])
    ensures forall i :: |r| <= i < |s| ==> IsPyWhitespace(s[i])
  {
    if s != [] && IsPyWhitespace(s[|s| - 1]) then RStrip(s[..|s| - 1]) else s
  }

  /** Python's `s.lstrip()`: drop leading whitespace. */
  function LStrip(s: string): (r: string)
    ensures |r| <= |s| && r == s[|s| - |r|..]
    ensures r == [] || !IsPyWhitespace(r[0])
    ensures forall i :: 0 <= i < |s| - |r| ==> IsPyWhitespace(s[i])
  {
    if s != [] && IsPyWhitespace(s[0]) then LStrip(s[1..]) else s
  }

  /** Python's `s.strip()`. */
  function Strip(s: string): (r: string)
    ensures |r| <= |s|
    ensures r == [] || (!IsPyWhitespace(r[0]) && !IsPyWhitespace(r[|r| - 1]))
  {
    LStrip(RStrip(s))
  }

  /** `s.endswith(c)` for a one-character suffix. */
  predicate EndsWith(s: string, c: char) {
    |s| > 0 && s[|s| - 1] == c
  }

  /**
   Stripping the front never changes the last character unless it empties the
   string, so whether `s.strip()` ends with a non-blank character depends on the
   right strip alone.
   */
  lemma StripEndsWith(s: string, c: char)
    requires !IsPyWhitespace(c)
    ensures EndsWith(Strip(s), c) <==> EndsWith(RStrip(s), c)
  {
    var r := RStrip(s);
    var l := LStrip(r);
    if EndsWith(r, c) {
      assert !IsPyWhitespace(r[|r| - 1]);
      assert l[|l| - 1] == r[|r| - 1];
    }
    if EndsWith(l, c) {
      assert l[|l| - 1] == r[|r| - 1];
    }
  }

  /**
   The first index at or after `i` whose character is in `cs`, or `|s|` when
   there is none.
   */
  function IndexFrom(s: string, i: nat, cs: set<char>): (j: nat)
    requires i <= |s|
    ensures i <= j <= |s|
    ensures forall k :: i <= k < j ==> s[k] !in cs
    ensures j < |s| ==> s[j] in cs
    decreases |s| - i
  {
    if i == |s| || s[i] in cs then i else IndexFrom(s, i + 1, cs)
  }

  /** The end of the run of word characters that starts at `i`. */
  function WordRunEnd(s: string, i: nat): (e: nat)
    requires i <= |s|
    ensures i <= e <= |s|
    ensures forall k :: i <= k < e ==> IsWordChar(s[k])
    ensures !WordAt(s, e)
    decreases |s| - i
  {
    if i < |s| && IsWordChar(s[i]) then WordRunEnd(s, i + 1) else i
  }

  /** The run end is the first non-word position: any `e` with that shape is it. */
  lemma {:induction false} WordRunEndIs(s: string, i: nat, e: nat)
    requires i <= e <= |s|
    requires forall k :: i <= k < e ==> IsWordChar(s[k])
    requires !WordAt(s, e)
    ensures WordRunEnd(s, i) == e
    decreases e - i
  {
    if i < e {
      WordRunEndIs(s, i + 1, e);
    }
  }

  /** `[i, e)` is a maximal non-empty run of word characters. */
  predicate IsWordRun(s: string, i: int, e: int) {
    && 0 <= i < e <= |s|
    && !WordAt(s, i - 1)
    && (forall k :: i <= k < e ==> IsWordChar(s[k]))
    && !WordAt(s, e)
  }
}
