/**
 The per-block Python highlighter (`PythonHighlighter.highlightBlock`). Six
 passes run in a fixed order and each emits `setFormat` calls: keywords,
 function names, attributes, operators, string literals (with a sub-pass over
 the braces of f-strings) and comments. The block's final formats are the
 calls applied in that order, a later call overwriting an earlier one.
 */
module Highlighter {
  import opened Text
  import opened Paint
  import opened Patterns

  const Keywords: seq<string> := [
    "def", "class", "import", "from", "return", "if", "else", "elif",
    "for", "while", "try", "except", "finally", "with", "as", "yield", "lambda", "pass"
  ]

  /** The operator patterns, each the literal text its escaped regex matches. */
  const Operators: seq<string> := [
    "=", "==", "(", ")", ".", ":", "<", ">", "<=", ">=",
    "+", "-", "*", "/", "%", ",", "[", "]", "{", "}"
  ]

  /** The characters that occur in some operator. */
  const OperatorChars: set<char> := {
    '=', '(', ')', '.', ':', '<', '>', '+', '-', '*', '/', '%', ',', '[', ']', '{', '}'
  }

  /** One `\bkw\b` pattern per keyword, in list order. */
  function KeywordPatterns(): (r: seq<Pattern>)
    ensures |r| == |Keywords|
    ensures forall q :: 0 <= q < |r| ==> r[q] == WholeWord(Keywords[q])
  {
    seq(|Keywords|, q requires 0 <= q < |Keywords| => WholeWord(Keywords[q]))
  }

  /** One literal pattern per operator, in list order. */
  function OperatorPatterns(): (r: seq<Pattern>)
    ensures |r| == |Operators|
    ensures forall q :: 0 <= q < |r| ==> r[q] == Literal(Operators[q])
  {
    seq(|Operators|, q requires 0 <= q < |Operators| => Literal(Operators[q]))
  }

  /** A non-empty run of word characters. */
  predicate IsWord(w: string) {
    |w| > 0 && forall i :: 0 <= i < |w| ==> IsWordChar(w[i])
  }

  lemma KeywordsAreWords()
    ensures forall q :: 0 <= q < |Keywords| ==> IsWord(Keywords[q])
  {
  }

  lemma OperatorsAreOperatorChars()
    ensures forall q :: 0 <= q < |Operators| ==>
              |Operators[q]| > 0 && forall i :: 0 <= i < |Operators[q]| ==> Operators[q][i] in OperatorChars
  {
  }

  lemma OperatorCharsAreOperators(c: char)
    requires c in OperatorChars
    ensures exists q :: 0 <= q < |Operators| && Operators[q] == [c]
  {
    if c == '=' { assert Operators[0] == [c]; }
    else if c == '(' { assert Operators[2] == [c]; }
    else if c == ')' { assert Operators[3] == [c]; }
    else if c == '.' { assert Operators[4] == [c]; }
    else if c == ':' { assert Operators[5] == [c]; }
    else if c == '<' { assert Operators[6] == [c]; }
    else if c == '>' { assert Operators[7] == [c]; }
    else if c == '+' { assert Operators[10] == [c]; }
    else if c == '-' { assert Operators[11] == [c]; }
    else if c == '*' { assert Operators[12] == [c]; }
    else if c == '/' { assert Operators[13] == [c]; }
    else if c == '%' { assert Operators[14] == [c]; }
    else if c == ',' { assert Operators[15] == [c]; }
    else if c == '[' { assert Operators[16] == [c]; }
    else if c == ']' { assert Operators[17] == [c]; }
    else if c == '{' { assert Operators[18] == [c]; }
    else { assert Operators[19] == [c]; }
  }

  lemma PatternListsValid()
    ensures forall q :: 0 <= q < |KeywordPatterns()| ==> ValidPattern(KeywordPatterns()[q])
    ensures forall q :: 0 <= q < |OperatorPatterns()| ==> ValidPattern(OperatorPatterns()[q])
  {
    KeywordsAreWords();
    OperatorsAreOperatorChars();
  }

  /** The `setFormat` calls of one `finditer` loop that paints each match whole. */
  function Pass(p: Pattern, t: string, cat: Category): (r: seq<Span>)
    requires ValidPattern(p)
    ensures |r| == |Scan(p, t, 0)|
    ensures forall j :: 0 <= j < |r| ==>
              r[j].start == Scan(p, t, 0)[j].start && r[j].start + r[j].len == Scan(p, t, 0)[j].end
    ensures AllIn(r, |t|, {cat})
  {
    var ms := Scan(p, t, 0);
    seq(|ms|, j requires 0 <= j < |ms| => assert ms[j] in ms; Span(ms[j].start, ms[j].end - ms[j].start, cat))
  }

  /** One `finditer` loop per pattern of the list, in list order. */
  function Passes(ps: seq<Pattern>, t: string, cat: Category): (r: seq<Span>)
    requires forall q :: 0 <= q < |ps| ==> ValidPattern(ps[q])
    ensures AllIn(r, |t|, {cat})
    decreases |ps|
  {
    if ps == [] then []
    else
      var rest := Passes(ps[1..], t, cat);
      AllInAppend(Pass(ps[0], t, cat), rest, |t|, {cat});
      Pass(ps[0], t, cat) + rest
  }

  function KeywordSpans(t: string): (r: seq<Span>)
    ensures AllIn(r, |t|, {Keyword})
  {
    PatternListsValid();
    Passes(KeywordPatterns(), t, Keyword)
  }

  function CallSpans(t: string): (r: seq<Span>)
    ensures AllIn(r, |t|, {FunctionName})
  {
    Pass(CallName, t, FunctionName)
  }

  /** The attribute loop paints each `\.\w+` match from one past its start, leaving the dot out. */
  function MemberSpans(t: string): (r: seq<Span>)
    ensures |r| == |Scan(DotMember, t, 0)|
    ensures forall j :: 0 <= j < |r| ==>
              r[j].start == Scan(DotMember, t, 0)[j].start + 1 && r[j].start + r[j].len == Scan(DotMember, t, 0)[j].end
    ensures AllIn(r, |t|, {Attribute})
  {
    DotMatchesLong(t);
    var ms := Scan(DotMember, t, 0);
    seq(|ms|, j requires 0 <= j < |ms| =>
      assert ms[j] in ms;
      Span(ms[j].start + 1, ms[j].end - ms[j].start - 1, Attribute))
  }

  /** An attribute match is a dot and at least one word character. */
  lemma DotMatchesLong(t: string)
    ensures forall m :: m in Scan(DotMember, t, 0) ==> m.start + 1 < m.end
  {
    forall m | m in Scan(DotMember, t, 0)
      ensures m.start + 1 < m.end
    {
      ScanMatch(DotMember, t, 0, m);
    }
  }

  function OperatorSpans(t: string): (r: seq<Span>)
    ensures AllIn(r, |t|, {Operator})
  {
    PatternListsValid();
    Passes(OperatorPatterns(), t, Operator)
  }

  /**
   The brace sub-pass of an f-string match `m`. The offsets are those of the
   source: one is added to the sub-match start and one taken from its end, then
   the call starts one before the adjusted start and is two longer, so the
   painted cells are the whole `{...}` sub-match, braces included.
   */
  function FStringVarSpans(t: string, m: Found): (r: seq<Span>)
    requires m.start <= m.end <= |t|
    ensures |r| == |Scan(Braced, t[m.start..m.end], 0)|
    ensures AllIn(r, |t|, {FStringVariable})
    ensures Within(r, m.start, m.end)
  {
    var vs := Scan(Braced, t[m.start..m.end], 0);
    seq(|vs|, j requires 0 <= j < |vs| =>
      assert vs[j] in vs;
      var varStart := vs[j].start + 1;
      var varEnd := vs[j].end - 1;
      Span(varStart + m.start - 1, varEnd - varStart + 2, FStringVariable))
  }

  /** The calls for one string match: the whole literal, then the brace sub-pass when it starts with `f`. */
  function StringGroup(t: string, m: Found): (r: seq<Span>)
    requires m.start < m.end <= |t|
    ensures |r| > 0 && r[0] == Span(m.start, m.end - m.start, StringLiteral)
    ensures AllIn(r, |t|, {StringLiteral, FStringVariable})
    ensures Within(r, m.start, m.end)
  {
    var head := [Span(m.start, m.end - m.start, StringLiteral)];
    if t[m.start] == 'f' then
      var fv := FStringVarSpans(t, m);
      AllInWiden(head, |t|, {StringLiteral}, {StringLiteral, FStringVariable});
      AllInWiden(fv, |t|, {FStringVariable}, {StringLiteral, FStringVariable});
      AllInAppend(head, fv, |t|, {StringLiteral, FStringVariable});
      WithinAppend(head, fv, m.start, m.end);
      head + fv
    else head
  }

  /** Well-formed, increasing, non-overlapping matches inside a block of `n` characters. */
  predicate Ordered(ms: seq<Found>, n: nat) {
    && (forall j :: 0 <= j < |ms| ==> ms[j].start < ms[j].end <= n)
    && (forall a, b :: 0 <= a < b < |ms| ==> ms[a].end <= ms[b].start)
  }

  lemma ScanOrdered(p: Pattern, t: string)
    requires ValidPattern(p)
    ensures Ordered(Scan(p, t, 0), |t|)
  {
    var ms := Scan(p, t, 0);
    assert forall j :: 0 <= j < |ms| ==> ms[j] in ms;
  }

  function StringGroups(t: string, ms: seq<Found>): (r: seq<Span>)
    requires Ordered(ms, |t|)
    ensures AllIn(r, |t|, {StringLiteral, FStringVariable})
    decreases |ms|
  {
    if ms == [] then []
    else
      var init := StringGroups(t, ms[..|ms| - 1]);
      AllInAppend(init, StringGroup(t, ms[|ms| - 1]), |t|, {StringLiteral, FStringVariable});
      init + StringGroup(t, ms[|ms| - 1])
  }

  function StringSpans(t: string): (r: seq<Span>)
    ensures AllIn(r, |t|, {StringLiteral, FStringVariable})
  {
    ScanOrdered(Quoted, t);
    StringGroups(t, Scan(Quoted, t, 0))
  }

  function CommentSpans(t: string): (r: seq<Span>)
    ensures AllIn(r, |t|, {Comment})
  {
    Pass(HashToEol, t, Comment)
  }

  /** The passes before the comment pass, in source order. */
  function CodeSpans(t: string): (r: seq<Span>)
    ensures AllIn(r, |t|, {Keyword, FunctionName, Attribute, Operator, StringLiteral, FStringVariable})
  {
    var cats := {Keyword, FunctionName, Attribute, Operator, StringLiteral, FStringVariable};
    var a := KeywordSpans(t);
    var b := CallSpans(t);
    var c := MemberSpans(t);
    var d := OperatorSpans(t);
    var e := StringSpans(t);
    AllInAppend(a, b, |t|, cats);
    AllInAppend(a + b, c, |t|, cats);
    AllInAppend(a + b + c, d, |t|, cats);
    AllInAppend(a + b + c + d, e, |t|, cats);
    a + b + c + d + e
  }

  /** Every `setFormat` call `highlightBlock` makes for the block `t`, in order. */
  function Spans(t: string): (r: seq<Span>)
    ensures AllIn(r, |t|, {Keyword, FunctionName, Attribute, Operator, StringLiteral, FStringVariable, Comment})
  {
    var cats := {Keyword, FunctionName, Attribute, Operator, StringLiteral, FStringVariable, Comment};
    AllInAppend(CodeSpans(t), CommentSpans(t), |t|, cats);
    CodeSpans(t) + CommentSpans(t)
  }

  /** The block's final formats: one cell per character. */
  function Highlight(t: string): (r: Cells)
    ensures |r| == |t|
  {
    PaintAll(Blank(|t|), Spans(t))
  }
}

/**
 What each pass paints and what survives in the final formats.
 */
module HighlighterProperties {
  import opened Text
  import opened Paint
  import opened Patterns
  import opened Highlighter

  /** The cells of a blank block after only the keyword loops. */
  function KeywordCells(t: string): (r: Cells)
    ensures |r| == |t|
  {
    PaintAll(Blank(|t|), KeywordSpans(t))
  }

  /** The cells of a blank block after only the operator loops. */
  function OperatorCells(t: string): (r: Cells)
    ensures |r| == |t|
  {
    PaintAll(Blank(|t|), OperatorSpans(t))
  }

  /** Cell `k` lies in a maximal word run whose text is a keyword. */
  predicate InKeyword(t: string, k: int) {
    exists i, e :: 0 <= i <= k < e <= |t| && IsWordRun(t, i, e) && t[i..e] in Keywords
  }

  /** `[i, e)` is a maximal word run directly followed by `(`. */
  predicate IsCallName(t: string, i: int, e: int) {
    IsWordRun(t, i, e) && e < |t| && t[e] == '('
  }

  /** `[i, e)` is a maximal word run directly preceded by `.`. */
  predicate IsMemberName(t: string, i: int, e: int) {
    IsWordRun(t, i, e) && 1 <= i && t[i - 1] == '.'
  }

  /** Position of the first `#`, or the block length when there is none. */
  function FirstHash(t: string): (h: nat)
    ensures h <= |t|
    ensures forall i :: 0 <= i < h ==> t[i] != '#'
    ensures h < |t| ==> t[h] == '#'
  {
    IndexFrom(t, 0, {'#'})
  }

  lemma PassCovered(p: Pattern, t: string, cat: Category, k: int)
    requires ValidPattern(p)
    ensures Covered(Pass(p, t, cat), k) <==> exists m :: m in Scan(p, t, 0) && m.start <= k < m.end
  {
    if Covered(Pass(p, t, cat), k) {
      var m := PassCoveredFound(p, t, cat, k);
    }
    if exists m :: m in Scan(p, t, 0) && m.start <= k < m.end {
      var m :| m in Scan(p, t, 0) && m.start <= k < m.end;
      FoundPassCovered(p, t, cat, m, k);
    }
  }

  lemma PassCoveredFound(p: Pattern, t: string, cat: Category, k: int) returns (m: Found)
    requires ValidPattern(p)
    requires Covered(Pass(p, t, cat), k)
    ensures m in Scan(p, t, 0) && m.start <= k < m.end
  {
    var ms := Scan(p, t, 0);
    var r := Pass(p, t, cat);
    var j :| 0 <= j < |r| && Covers(r[j], k);
    m := ms[j];
  }

  lemma FoundPassCovered(p: Pattern, t: string, cat: Category, m: Found, k: int)
    requires ValidPattern(p)
    requires m in Scan(p, t, 0) && m.start <= k < m.end
    ensures Covered(Pass(p, t, cat), k)
  {
    var ms := Scan(p, t, 0);
    var r := Pass(p, t, cat);
    var j :| 0 <= j < |ms| && ms[j] == m;
    assert Covers(r[j], k);
  }

  /** Each reported match becomes one call that paints it whole. */
  lemma FoundInPass(p: Pattern, t: string, cat: Category, m: Found)
    requires ValidPattern(p)
    requires m in Scan(p, t, 0)
    ensures Span(m.start, m.end - m.start, cat) in Pass(p, t, cat)
  {
    var ms := Scan(p, t, 0);
    var r := Pass(p, t, cat);
    var x :| 0 <= x < |ms| && ms[x] == m;
    assert r[x] in r;
    assert r[x].cat in {cat};
    assert r[x] == Span(m.start, m.end - m.start, cat);
  }

  lemma {:induction false} PassesCovered(ps: seq<Pattern>, t: string, cat: Category, k: int)
    requires forall q :: 0 <= q < |ps| ==> ValidPattern(ps[q])
    ensures Covered(Passes(ps, t, cat), k) <==> exists q :: 0 <= q < |ps| && Covered(Pass(ps[q], t, cat), k)
    decreases |ps|
  {
    if ps != [] {
      CoveredAppend(Pass(ps[0], t, cat), Passes(ps[1..], t, cat), k);
      PassesCovered(ps[1..], t, cat, k);
      if exists q :: 0 <= q < |ps| && Covered(Pass(ps[q], t, cat), k) {
        var q :| 0 <= q < |ps| && Covered(Pass(ps[q], t, cat), k);
        if q > 0 {
          assert ps[1..][q - 1] == ps[q];
        }
      }
    }
  }

  /** A `\bw\b` match for a word `w` is a maximal word run spelling `w`. */
  lemma WholeWordMatchIsRun(t: string, w: string, m: Found)
    requires IsWord(w)
    requires m in Scan(WholeWord(w), t, 0)
    ensures IsWordRun(t, m.start, m.end) && t[m.start..m.end] == w
  {
    ScanMatch(WholeWord(w), t, 0, m);
    assert t[m.start..m.end] == w;
    forall k | m.start <= k < m.end
      ensures IsWordChar(t[k])
    {
      assert t[k] == w[k - m.start];
    }
  }

  /** No `\bw\b` match for a word `w` runs across the start of a word run. */
  lemma WholeWordNoStraddle(t: string, w: string, i: nat)
    requires IsWord(w) && !WordAt(t, i - 1)
    ensures NoStraddle(WholeWord(w), t, 0, i)
  {
    forall j: nat | j < i && MatchAt(WholeWord(w), t, j).Some?
      ensures MatchAt(WholeWord(w), t, j).value <= i
    {
      var e := MatchAt(WholeWord(w), t, j).value;
      assert t[j..e] == w;
    }
  }

  /** Every maximal word run spelling the word `w` is reported by the `\bw\b` loop. */
  lemma WholeWordRunIsFound(t: string, w: string, i: nat, e: nat)
    requires IsWord(w)
    requires IsWordRun(t, i, e) && t[i..e] == w
    ensures Found(i, e) in Scan(WholeWord(w), t, 0)
  {
    assert MatchAt(WholeWord(w), t, i) == Some(e);
    WholeWordNoStraddle(t, w, i);
    ScanComplete(WholeWord(w), t, 0, i);
  }

  /** A cell some keyword loop paints lies in a whole word that is a keyword. */
  lemma KeywordCoveredIsRun(t: string, k: nat)
    requires k < |t| && Covered(KeywordSpans(t), k)
    ensures InKeyword(t, k)
  {
    var q := KeywordCoveredBy(t, k);
    var i, e := WholeWordCoveredIsRun(t, Keywords[q], k);
    assert t[i..e] in Keywords;
  }

  /** The keyword whose loop paints a painted cell. */
  lemma KeywordCoveredBy(t: string, k: nat) returns (q: nat)
    requires Covered(KeywordSpans(t), k)
    ensures q < |Keywords| && IsWord(Keywords[q]) && Covered(Pass(WholeWord(Keywords[q]), t, Keyword), k)
  {
    PatternListsValid();
    KeywordsAreWords();
    var ps := KeywordPatterns();
    PassesCovered(ps, t, Keyword, k);
    q :| 0 <= q < |ps| && Covered(Pass(ps[q], t, Keyword), k);
  }

  /** A cell the `\bw\b` loop paints lies in a maximal word run spelling `w`. */
  lemma WholeWordCoveredIsRun(t: string, w: string, k: nat) returns (i: nat, e: nat)
    requires IsWord(w) && Covered(Pass(WholeWord(w), t, Keyword), k)
    ensures i <= k < e <= |t| && IsWordRun(t, i, e) && t[i..e] == w
  {
    var m := PassCoveredFound(WholeWord(w), t, Keyword, k);
    WholeWordMatchIsRun(t, w, m);
    i, e := m.start, m.end;
  }

  /** Every cell of a whole word that is a keyword is painted by that keyword's loop. */
  lemma KeywordRunIsCovered(t: string, k: nat)
    requires k < |t| && InKeyword(t, k)
    ensures Covered(KeywordSpans(t), k)
  {
    PatternListsValid();
    KeywordsAreWords();
    var ps := KeywordPatterns();
    var i, e :| 0 <= i <= k < e <= |t| && IsWordRun(t, i, e) && t[i..e] in Keywords;
    var q :| 0 <= q < |Keywords| && Keywords[q] == t[i..e];
    var w := Keywords[q];
    assert ps[q] == WholeWord(w) && IsWord(w);
    WholeWordRunIsFound(t, w, i, e);
    FoundPassCovered(WholeWord(w), t, Keyword, Found(i, e), k);
    PassesCovered(ps, t, Keyword, k);
  }

  /**
   After the keyword loops, a cell is marked Keyword exactly when it lies in a
   whole word that is a keyword; every other cell is still unformatted.
   */
  lemma KeywordPassExact(t: string, k: nat)
    requires k < |t|
    ensures KeywordCells(t)[k] == if InKeyword(t, k) then Some(Keyword) else None
  {
    PaintAllUniform(|t|, KeywordSpans(t), Keyword, k);
    if Covered(KeywordSpans(t), k) {
      KeywordCoveredIsRun(t, k);
    }
    if InKeyword(t, k) {
      KeywordRunIsCovered(t, k);
    }
  }

  /** The keyword `def` inside the identifier `define` gets no Keyword cell. */
  lemma DefineIsNotKeyword(k: nat)
    requires k < 6
    ensures KeywordCells("define")[k] == None
  {
    var t := "define";
    forall i, e | 0 <= i <= k < e <= |t| && IsWordRun(t, i, e)
      ensures t[i..e] !in Keywords
    {
      assert i == 0 && e == 6;
      assert t[i..e] == t;
    }
    KeywordPassExact(t, k);
  }

  lemma CallMatchIsRun(t: string, m: Found)
    requires m in Scan(CallName, t, 0)
    ensures IsCallName(t, m.start, m.end)
  {
    ScanMatch(CallName, t, 0, m);
  }

  lemma CallRunIsFound(t: string, i: nat, e: nat)
    requires IsCallName(t, i, e)
    ensures Found(i, e) in Scan(CallName, t, 0)
  {
    WordRunEndIs(t, i, e);
    assert MatchAt(CallName, t, i) == Some(e);
    forall j: nat | j < i && MatchAt(CallName, t, j).Some?
      ensures MatchAt(CallName, t, j).value <= i
    {
      var e' := MatchAt(CallName, t, j).value;
      assert e' == WordRunEnd(t, j);
    }
    ScanComplete(CallName, t, 0, i);
  }

  lemma CallSpanIsRun(t: string, j: nat)
    requires j < |CallSpans(t)|
    ensures CallSpans(t)[j].cat == FunctionName
    ensures IsCallName(t, CallSpans(t)[j].start, CallSpans(t)[j].start + CallSpans(t)[j].len)
  {
    var ms := Scan(CallName, t, 0);
    assert ms[j] in ms;
    CallMatchIsRun(t, ms[j]);
  }

  lemma CallRunIsSpan(t: string, i: nat, e: nat)
    requires IsCallName(t, i, e)
    ensures Span(i, e - i, FunctionName) in CallSpans(t)
  {
    CallRunIsFound(t, i, e);
    FoundInPass(CallName, t, FunctionName, Found(i, e));
  }

  /**
   The function-name loop paints exactly the maximal word runs that are
   directly followed by `(`, and never the `(` itself.
   */
  lemma CallSpansExact(t: string)
    ensures forall j :: 0 <= j < |CallSpans(t)| ==>
              CallSpans(t)[j].cat == FunctionName
              && IsCallName(t, CallSpans(t)[j].start, CallSpans(t)[j].start + CallSpans(t)[j].len)
    ensures forall i: nat, e: nat :: IsCallName(t, i, e) ==> Span(i, e - i, FunctionName) in CallSpans(t)
  {
    forall j | 0 <= j < |CallSpans(t)|
      ensures CallSpans(t)[j].cat == FunctionName
      ensures IsCallName(t, CallSpans(t)[j].start, CallSpans(t)[j].start + CallSpans(t)[j].len)
    {
      CallSpanIsRun(t, j);
    }
    forall i: nat, e: nat | IsCallName(t, i, e)
      ensures Span(i, e - i, FunctionName) in CallSpans(t)
    {
      CallRunIsSpan(t, i, e);
    }
  }

  lemma MemberMatchIsRun(t: string, m: Found)
    requires m in Scan(DotMember, t, 0)
    ensures IsMemberName(t, m.start + 1, m.end)
  {
    ScanMatch(DotMember, t, 0, m);
  }

  lemma MemberRunIsFound(t: string, i: nat, e: nat)
    requires IsMemberName(t, i, e)
    ensures Found(i - 1, e) in Scan(DotMember, t, 0)
  {
    WordRunEndIs(t, i, e);
    assert MatchAt(DotMember, t, i - 1) == Some(e);
    forall j: nat | j < i - 1 && MatchAt(DotMember, t, j).Some?
      ensures MatchAt(DotMember, t, j).value <= i - 1
    {
      var e' := MatchAt(DotMember, t, j).value;
      assert e' == WordRunEnd(t, j + 1);
    }
    ScanComplete(DotMember, t, 0, i - 1);
  }

  lemma MemberSpanIsRun(t: string, j: nat)
    requires j < |MemberSpans(t)|
    ensures MemberSpans(t)[j].cat == Attribute
    ensures IsMemberName(t, MemberSpans(t)[j].start, MemberSpans(t)[j].start + MemberSpans(t)[j].len)
  {
    var ms := Scan(DotMember, t, 0);
    assert ms[j] in ms;
    MemberMatchIsRun(t, ms[j]);
  }

  lemma MemberRunIsSpan(t: string, i: nat, e: nat)
    requires IsMemberName(t, i, e)
    ensures Span(i, e - i, Attribute) in MemberSpans(t)
  {
    var ms := Scan(DotMember, t, 0);
    MemberRunIsFound(t, i, e);
    var x :| 0 <= x < |ms| && ms[x] == Found(i - 1, e);
    assert MemberSpans(t)[x] == Span(i, e - i, Attribute);
  }

  /**
   The attribute loop paints exactly the maximal word runs that directly
   follow a `.`, and never the `.` itself.
   */
  lemma MemberSpansExact(t: string)
    ensures forall j :: 0 <= j < |MemberSpans(t)| ==>
              MemberSpans(t)[j].cat == Attribute
              && IsMemberName(t, MemberSpans(t)[j].start, MemberSpans(t)[j].start + MemberSpans(t)[j].len)
    ensures forall i: nat, e: nat :: IsMemberName(t, i, e) ==> Span(i, e - i, Attribute) in MemberSpans(t)
  {
    forall j | 0 <= j < |MemberSpans(t)|
      ensures MemberSpans(t)[j].cat == Attribute
      ensures IsMemberName(t, MemberSpans(t)[j].start, MemberSpans(t)[j].start + MemberSpans(t)[j].len)
    {
      MemberSpanIsRun(t, j);
    }
    forall i: nat, e: nat | IsMemberName(t, i, e)
      ensures Span(i, e - i, Attribute) in MemberSpans(t)
    {
      MemberRunIsSpan(t, i, e);
    }
  }

  /** Every cell a literal loop paints holds a character of the literal. */
  lemma LiteralMatchChar(t: string, l: string, m: Found, k: int)
    requires |l| > 0
    requires m in Scan(Literal(l), t, 0) && m.start <= k < m.end
    ensures m.end == m.start + |l| && t[k] == l[k - m.start]
  {
    ScanMatch(Literal(l), t, 0, m);
    assert t[m.start..m.start + |l|] == l;
  }

  /** The offset, inside the literal, of a cell that a literal loop paints. */
  lemma LiteralPassCoveredChar(t: string, l: string, cat: Category, k: nat) returns (i: nat)
    requires |l| > 0 && k < |t|
    requires Covered(Pass(Literal(l), t, cat), k)
    ensures i < |l| && t[k] == l[i]
  {
    var m := PassCoveredFound(Literal(l), t, cat, k);
    LiteralMatchChar(t, l, m, k);
    i := k - m.start;
  }

  /** A one-character literal loop reports every occurrence of its character. */
  lemma LiteralCharFound(t: string, l: string, k: nat)
    requires k < |t| && l == [t[k]]
    ensures Found(k, k + 1) in Scan(Literal(l), t, 0)
  {
    assert t[k..k + 1] == l;
    assert MatchAt(Literal(l), t, k) == Some(k + 1);
    forall j: nat | j < k && MatchAt(Literal(l), t, j).Some?
      ensures MatchAt(Literal(l), t, j).value <= k
    {
    }
    ScanComplete(Literal(l), t, 0, k);
  }

  /** A cell some operator loop paints holds an operator character. */
  lemma OperatorCoveredIsChar(t: string, k: nat)
    requires k < |t| && Covered(OperatorSpans(t), k)
    ensures t[k] in OperatorChars
  {
    PatternListsValid();
    var ps := OperatorPatterns();
    PassesCovered(ps, t, Operator, k);
    var q :| 0 <= q < |ps| && Covered(Pass(ps[q], t, Operator), k);
    var l := Operators[q];
    assert ps[q] == Literal(l);
    var i := LiteralPassCoveredChar(t, l, Operator, k);
    OperatorsAreOperatorChars();
    assert l[i] in OperatorChars;
  }

  /** Every operator character is painted by the loop of its one-character operator. */
  lemma OperatorCharIsCovered(t: string, k: nat)
    requires k < |t| && t[k] in OperatorChars
    ensures Covered(OperatorSpans(t), k)
  {
    PatternListsValid();
    var ps := OperatorPatterns();
    OperatorCharsAreOperators(t[k]);
    var q :| 0 <= q < |Operators| && Operators[q] == [t[k]];
    var l := Operators[q];
    assert ps[q] == Literal(l);
    LiteralCharFound(t, l, k);
    FoundPassCovered(Literal(l), t, Operator, Found(k, k + 1), k);
    PassesCovered(ps, t, Operator, k);
  }

  lemma OperatorCovered(t: string, k: nat)
    requires k < |t|
    ensures Covered(OperatorSpans(t), k) <==> t[k] in OperatorChars
  {
    if Covered(OperatorSpans(t), k) {
      OperatorCoveredIsChar(t, k);
    }
    if t[k] in OperatorChars {
      OperatorCharIsCovered(t, k);
    }
  }

  /**
   After the operator loops, the marked cells are exactly those holding an
   operator character: `==`, `<=` and `>=` add no cell of their own.
   */
  lemma OperatorPassExact(t: string, k: nat)
    requires k < |t|
    ensures OperatorCells(t)[k] == if t[k] in OperatorChars then Some(Operator) else None
  {
    OperatorCovered(t, k);
    PaintAllUniform(|t|, OperatorSpans(t), Operator, k);
  }
}
