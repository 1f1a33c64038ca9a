/**
 The regular expressions of the highlighter and the icon converter's scanner
 shape, each as an explicit leftmost-first matcher: `MatchAt(p, s, i)` is the
 end of the match the regex engine finds when it tries position `i`, and `Scan`
 is `re.finditer`: try each position from left to right and, after a match,
 resume at its end, so the matches never overlap.
 */
module Patterns {
  import opened Text

  datatype Pattern =
    | WholeWord(word: string)  // \bword\b
    | CallName                 // \b\w+(?=\()
    | DotMember                // \.\w+
    | Literal(lit: string)     // an escaped one- or two-character operator
    | Quoted                   // f"[^"]*"|f'[^']*'|"[^"]*"|'[^']*'
    | Braced                   // \{[^{}]*\}
    | HashToEol                // #.*

  /** Every pattern of the source matches at least one character. */
  predicate ValidPattern(p: Pattern) {
    match p
    case WholeWord(w) => |w| > 0
    case Literal(l) => |l| > 0
    case _ => true
  }

  /** One match of `re.finditer`: the half-open range `[start, end)`. */
  datatype Found = Found(start: nat, end: nat)

  predicate IsQuote(c: char) {
    c == '"' || c == '\''
  }

  /**
   The end of the match found when the engine tries position `i`, if any.
   Greedy repetitions followed by a fixed continuation are resolved here: for
   `\w+(?=\()` backtracking into the word run can never help, because a shorter
   run is followed by a word character and not by `(`; for `\{[^{}]*\}` the
   run stops at the first brace, which must then be the closing one.
   */
  function MatchAt(p: Pattern, s: string, i: nat): (r: Option<nat>)
    requires ValidPattern(p)
    ensures r.Some? ==> i < r.value <= |s|
  {
    if i >= |s| then None
    else
      match p
      case WholeWord(w) =>
        if i + |w| <= |s| && s[i..i + |w|] == w && IsBoundary(s, i) && IsBoundary(s, i + |w|)
        then Some(i + |w|) else None
      case CallName =>
        if IsBoundary(s, i) && WordAt(s, i) then
          var e := WordRunEnd(s, i);
          if e < |s| && s[e] == '(' then Some(e) else None
        else None
      case DotMember =>
        if s[i] == '.' && WordAt(s, i + 1) then Some(WordRunEnd(s, i + 1)) else None
      case Literal(l) =>
        if i + |l| <= |s| && s[i..i + |l|] == l then Some(i + |l|) else None
      case Quoted =>
        if s[i] == 'f' && i + 1 < |s| && IsQuote(s[i + 1]) && IndexFrom(s, i + 2, {s[i + 1]}) < |s| then
          Some(IndexFrom(s, i + 2, {s[i + 1]}) + 1)
        else if IsQuote(s[i]) && IndexFrom(s, i + 1, {s[i]}) < |s| then
          Some(IndexFrom(s, i + 1, {s[i]}) + 1)
        else None
      case Braced =>
        if s[i] == '{' then
          var j := IndexFrom(s, i + 1, {'{', '}'});
          if j < |s| && s[j] == '}' then Some(j + 1) else None
        else None
      case HashToEol =>
        if s[i] == '#' then Some(IndexFrom(s, i + 1, {'\n'})) else None
  }

  /**
   `[i, e)` has the shape of a string literal: a quote, then no such quote, then
   the same quote again; or `f` followed by that shape.
   */
  predicate QuotedRun(s: string, i: nat, e: nat) {
    e <= |s| && i + 2 <= e
    && (|| (IsQuote(s[i]) && s[e - 1] == s[i] && forall k :: i < k < e - 1 ==> s[k] != s[i])
        || (s[i] == 'f' && i + 3 <= e && IsQuote(s[i + 1]) && s[e - 1] == s[i + 1]
            && forall k :: i + 1 < k < e - 1 ==> s[k] != s[i + 1]))
  }

  /**
   The string pattern matches exactly the string-literal shapes, ending at the
   first closing quote. Its `f` alternatives come first, but they cannot compete
   with the plain ones, which start with a quote rather than `f`.
   */
  lemma QuotedMatchShape(s: string, i: nat, e: nat)
    ensures MatchAt(Quoted, s, i) == Some(e) <==> QuotedRun(s, i, e)
  {
    if i < |s| {
      if s[i] == 'f' && i + 1 < |s| && IsQuote(s[i + 1]) {
        var j := IndexFrom(s, i + 2, {s[i + 1]});
        if QuotedRun(s, i, e) {
          assert !IsQuote(s[i]);
          assert j == e - 1;
        }
      } else if IsQuote(s[i]) {
        var j := IndexFrom(s, i + 1, {s[i]});
        if QuotedRun(s, i, e) {
          assert j == e - 1;
        }
      }
    }
  }

  /** `re.finditer(p, s)` restricted to matches that start at or after `from`. */
  function Scan(p: Pattern, s: string, from: nat): (r: seq<Found>)
    requires ValidPattern(p)
    ensures forall m :: m in r ==> from <= m.start < m.end <= |s|
    ensures forall a, b :: 0 <= a < b < |r| ==> r[a].end <= r[b].start
    decreases |s| - from
  {
    if from >= |s| then []
    else
      match MatchAt(p, s, from)
      case Some(e) =>
        var rest := Scan(p, s, e);
        assert forall b :: 0 <= b < |rest| ==> rest[b] in rest;
        [Found(from, e)] + rest
      case None => Scan(p, s, from + 1)
  }

  /** Every reported range is a match the engine finds at its start. */
  lemma {:induction false} ScanMatch(p: Pattern, s: string, from: nat, m: Found)
    requires ValidPattern(p)
    requires m in Scan(p, s, from)
    ensures MatchAt(p, s, m.start) == Some(m.end)
    decreases |s| - from
  {
    if from < |s| {
      match MatchAt(p, s, from)
      case Some(e) =>
        if m != Found(from, e) {
          ScanMatch(p, s, e, m);
        }
      case None =>
        ScanMatch(p, s, from + 1, m);
    }
  }

  /** No match that starts in `[from, i)` runs past `i`. */
  predicate NoStraddle(p: Pattern, s: string, from: nat, i: nat)
    requires ValidPattern(p)
  {
    forall j: nat :: from <= j < i && MatchAt(p, s, j).Some? ==> MatchAt(p, s, j).value <= i
  }

  /** A match at `i` is reported unless an earlier reported match swallows position `i`. */
  lemma {:induction false} ScanComplete(p: Pattern, s: string, from: nat, i: nat)
    requires ValidPattern(p)
    requires from <= i && MatchAt(p, s, i).Some?
    requires NoStraddle(p, s, from, i)
    ensures Found(i, MatchAt(p, s, i).value) in Scan(p, s, from)
    decreases i - from
  {
    if from < i {
      match MatchAt(p, s, from)
      case Some(e) =>
        ScanComplete(p, s, e, i);
      case None =>
        ScanComplete(p, s, from + 1, i);
    }
  }

  /** Positions where nothing matches are skipped. */
  lemma {:induction false} ScanSkip(p: Pattern, s: string, from: nat, i: nat)
    requires ValidPattern(p)
    requires from <= i
    requires forall j: nat :: from <= j < i ==> MatchAt(p, s, j).None?
    ensures Scan(p, s, from) == Scan(p, s, i)
    decreases i - from
  {
    if from < i && from < |s| {
      ScanSkip(p, s, from + 1, i);
    }
  }
}
