/**
 The final formats of a block, cell by cell. `ExpectedCell` says what each
 character of a line ends up as, in terms of the text alone (where the first
 `#` is, which quoted match and brace group it sits in, which word run it
 belongs to); `HighlightMatchesExpected` proves that the sequence of
 `setFormat` calls `highlightBlock` makes produces exactly that.
 */
module HighlightCells {
  import opened Text
  import opened Paint
  import opened Patterns
  import opened Highlighter
  import opened HighlighterProperties

  /** Cell `k` lies inside a quoted-string match. */
  predicate InString(t: string, k: int) {
    exists m :: m in Scan(Quoted, t, 0) && m.start <= k < m.end
  }

  /** Cell `k` lies inside a `{...}` group, braces included, of the f-string match `m`. */
  predicate InBraces(t: string, m: Found, k: int)
    requires m.start <= m.end <= |t|
  {
    exists v :: v in Scan(Braced, t[m.start..m.end], 0) && m.start + v.start <= k < m.start + v.end
  }

  /** Cell `k` lies inside a brace group of an f-string match. */
  predicate InFStringVar(t: string, k: int) {
    exists m :: m in Scan(Quoted, t, 0) && m.start <= k < m.end && t[m.start] == 'f' && InBraces(t, m, k)
  }

  /** Cell `k` lies in a word that is directly followed by `(`. */
  predicate InCall(t: string, k: int) {
    exists i, e :: 0 <= i <= k < e <= |t| && IsCallName(t, i, e)
  }

  /** Cell `k` lies in a word that directly follows a `.`. */
  predicate InMember(t: string, k: int) {
    exists i, e :: 1 <= i <= k < e <= |t| && IsMemberName(t, i, e)
  }

  /**
   What cell `k` of the line `t` ends up as: from the first `#` on, comment;
   inside a quoted string, string (or f-string variable inside a brace group of
   an `f` string); elsewhere, operator characters first, then attribute names,
   then called names, then keywords.
   */
  function ExpectedCell(t: string, k: nat): (c: Option<Category>)
    requires k < |t|
  {
    if FirstHash(t) <= k then Some(Comment)
    else if InString(t, k) then
      if InFStringVar(t, k) then Some(FStringVariable) else Some(StringLiteral)
    else if t[k] in OperatorChars then Some(Operator)
    else if InMember(t, k) then Some(Attribute)
    else if InCall(t, k) then Some(FunctionName)
    else if InKeyword(t, k) then Some(Keyword)
    else None
  }

  /** Two matches of one scan that share a cell are the same match. */
  lemma ScanMatchUnique(p: Pattern, t: string, m: Found, m': Found, k: int)
    requires ValidPattern(p)
    requires m in Scan(p, t, 0) && m' in Scan(p, t, 0)
    requires m.start <= k < m.end && m'.start <= k < m'.end
    ensures m == m'
  {
    var ms := Scan(p, t, 0);
    var a :| 0 <= a < |ms| && ms[a] == m;
    var b :| 0 <= b < |ms| && ms[b] == m';
    assert !(a < b) && !(b < a);
  }

  // ---- The comment pass ----

  /** On one line, `#.*` matches once, from the first `#` to the end of the line. */
  lemma CommentScan(t: string)
    requires '\n' !in t
    ensures Scan(HashToEol, t, 0) == if FirstHash(t) < |t| then [Found(FirstHash(t), |t|)] else []
  {
    var h := FirstHash(t);
    forall j: nat | j < h
      ensures MatchAt(HashToEol, t, j).None?
    {
      assert t[j] != '#';
    }
    ScanSkip(HashToEol, t, 0, h);
    if h < |t| {
      var e := IndexFrom(t, h + 1, {'\n'});
      assert e == |t|;
      assert MatchAt(HashToEol, t, h) == Some(|t|);
    }
  }

  lemma CommentCovered(t: string, k: nat)
    requires '\n' !in t && k < |t|
    ensures Covered(CommentSpans(t), k) <==> FirstHash(t) <= k
  {
    CommentScan(t);
    var r := CommentSpans(t);
    if FirstHash(t) <= k {
      assert Covers(r[0], k);
    }
  }

  /** The comment pass overrides every earlier format from the first `#` to the end of the line. */
  lemma HighlightSplit(t: string, k: nat)
    requires '\n' !in t && k < |t|
    ensures Highlight(t)[k] == if FirstHash(t) <= k then Some(Comment) else PaintAll(Blank(|t|), CodeSpans(t))[k]
  {
    CommentCovered(t, k);
    PaintAllLayer(Blank(|t|), CodeSpans(t), CommentSpans(t), Comment, k);
  }

  /** A cell is a comment exactly when it is at or after the first `#` of the line, even inside a string. */
  lemma HighlightComment(t: string, k: nat)
    requires '\n' !in t && k < |t|
    ensures Highlight(t)[k] == Some(Comment) <==> FirstHash(t) <= k
  {
    HighlightSplit(t, k);
    CodeNotComment(t, k);
  }

  /** No pass before the comment pass uses the comment format. */
  lemma CodeNotComment(t: string, k: nat)
    requires k < |t|
    ensures PaintAll(Blank(|t|), CodeSpans(t))[k] != Some(Comment)
  {
    CodeCallsNotComment(t, CodeSpans(t), k);
  }

  lemma CodeCallsNotComment(t: string, code: seq<Span>, k: nat)
    requires k < |t| && AllIn(code, |t|, {Keyword, FunctionName, Attribute, Operator, StringLiteral, FStringVariable})
    ensures PaintAll(Blank(|t|), code)[k] != Some(Comment)
  {
    PaintAllAbsent(|t|, code, {Keyword, FunctionName, Attribute, Operator, StringLiteral, FStringVariable}, Comment, k);
  }

  // ---- The string pass ----

  /** The brace sub-pass call for sub-match `j` covers exactly that `{...}` group, shifted into the line. */
  lemma FStringVarSpanIs(t: string, m: Found, j: nat)
    requires m.start <= m.end <= |t|
    requires j < |Scan(Braced, t[m.start..m.end], 0)|
    ensures var v := Scan(Braced, t[m.start..m.end], 0)[j];
            FStringVarSpans(t, m)[j] == Span(m.start + v.start, v.end - v.start, FStringVariable)
  {
  }

  lemma FStringVarCovered(t: string, m: Found, k: int)
    requires m.start <= m.end <= |t|
    ensures Covered(FStringVarSpans(t, m), k) <==> InBraces(t, m, k)
  {
    if Covered(FStringVarSpans(t, m), k) {
      FStringVarCoveredIn(t, m, k);
    }
    if InBraces(t, m, k) {
      FStringVarCoversIn(t, m, k);
    }
  }

  lemma FStringVarCoveredIn(t: string, m: Found, k: int)
    requires m.start <= m.end <= |t| && Covered(FStringVarSpans(t, m), k)
    ensures InBraces(t, m, k)
  {
    var vs := Scan(Braced, t[m.start..m.end], 0);
    var r := FStringVarSpans(t, m);
    var j :| 0 <= j < |r| && Covers(r[j], k);
    FStringVarSpanIs(t, m, j);
    assert vs[j] in vs;
  }

  lemma FStringVarCoversIn(t: string, m: Found, k: int)
    requires m.start <= m.end <= |t| && InBraces(t, m, k)
    ensures Covered(FStringVarSpans(t, m), k)
  {
    var vs := Scan(Braced, t[m.start..m.end], 0);
    var r := FStringVarSpans(t, m);
    var v :| v in vs && m.start + v.start <= k < m.start + v.end;
    var j :| 0 <= j < |vs| && vs[j] == v;
    FStringVarSpanIs(t, m, j);
    assert Covers(r[j], k);
  }

  /** A brace group starts with `{`, ends with `}` and has no brace in between. */
  lemma BracedMatchShape(t: string, m: Found, v: Found)
    requires m.start <= m.end <= |t|
    requires v in Scan(Braced, t[m.start..m.end], 0)
    ensures m.start + v.end <= m.end
    ensures t[m.start + v.start] == '{' && t[m.start + v.end - 1] == '}'
    ensures forall i :: m.start + v.start < i < m.start + v.end - 1 ==> t[i] != '{' && t[i] != '}'
  {
    var u := t[m.start..m.end];
    ScanMatch(Braced, u, 0, v);
    var j := IndexFrom(u, v.start + 1, {'{', '}'});
    assert v.end == j + 1;
    forall i | m.start + v.start < i < m.start + v.end - 1
      ensures t[i] != '{' && t[i] != '}'
    {
      assert u[i - m.start] !in {'{', '}'};
    }
  }

  /** Within one string match, the brace groups of an `f` string win over the literal format. */
  lemma GroupCell(t: string, m: Found, c: Cells, k: nat)
    requires m.start <= k < m.end <= |t| && |c| == |t|
    ensures PaintAll(c, StringGroup(t, m))[k]
            == if t[m.start] == 'f' && InBraces(t, m, k) then Some(FStringVariable) else Some(StringLiteral)
  {
    var head := [Span(m.start, m.end - m.start, StringLiteral)];
    if t[m.start] == 'f' {
      FStringGroupCell(t, m, c, head, k);
    } else {
      PlainGroupCell(t, m, c, k);
    }
  }

  lemma PlainGroupCell(t: string, m: Found, c: Cells, k: nat)
    requires m.start <= k < m.end <= |t| && |c| == |t| && t[m.start] != 'f'
    ensures PaintAll(c, StringGroup(t, m))[k] == Some(StringLiteral)
  {
    PlainGroupIs(t, m);
    PaintAllLastWriter(c, [Span(m.start, m.end - m.start, StringLiteral)], 0, k);
  }

  /** A plain string's only call is the whole literal. */
  lemma PlainGroupIs(t: string, m: Found)
    requires m.start < m.end <= |t| && t[m.start] != 'f'
    ensures StringGroup(t, m) == [Span(m.start, m.end - m.start, StringLiteral)]
  {
  }

  lemma FStringGroupCell(t: string, m: Found, c: Cells, head: seq<Span>, k: nat)
    requires m.start <= k < m.end <= |t| && |c| == |t| && t[m.start] == 'f'
    requires head == [Span(m.start, m.end - m.start, StringLiteral)]
    ensures PaintAll(c, StringGroup(t, m))[k] == if InBraces(t, m, k) then Some(FStringVariable) else Some(StringLiteral)
  {
    FStringGroupIs(t, m);
    FStringPaint(t, m, c, k);
  }

  /** An `f` string's calls: the whole literal, then its brace groups. */
  lemma FStringGroupIs(t: string, m: Found)
    requires m.start < m.end <= |t| && t[m.start] == 'f'
    ensures StringGroup(t, m) == [Span(m.start, m.end - m.start, StringLiteral)] + FStringVarSpans(t, m)
  {
  }

  lemma FStringPaint(t: string, m: Found, c: Cells, k: nat)
    requires m.start <= k < m.end <= |t| && |c| == |t|
    ensures PaintAll(c, [Span(m.start, m.end - m.start, StringLiteral)] + FStringVarSpans(t, m))[k]
            == if InBraces(t, m, k) then Some(FStringVariable) else Some(StringLiteral)
  {
    var head := [Span(m.start, m.end - m.start, StringLiteral)];
    PaintAllLastWriter(c, head, 0, k);
    FStringVarCovered(t, m, k);
    PaintAllLayer(c, head, FStringVarSpans(t, m), FStringVariable, k);
  }

  /** The group of another match does not reach cell `k`; so only the group of the match holding `k` matters. */
  lemma {:induction false} StringGroupsCell(t: string, ms: seq<Found>, x: nat, c: Cells, k: nat)
    requires Ordered(ms, |t|) && x < |ms| && |c| == |t|
    requires ms[x].start <= k < ms[x].end
    ensures PaintAll(c, StringGroups(t, ms))[k] == PaintAll(c, StringGroup(t, ms[x]))[k]
    decreases |ms|
  {
    var init := ms[..|ms| - 1];
    var m := ms[|ms| - 1];
    var last := StringGroup(t, m);
    PaintAllAppend(c, StringGroups(t, init), last);
    if x == |ms| - 1 {
      assert Covers(last[0], k);
      PaintAllOverwrites(PaintAll(c, StringGroups(t, init)), c, last, k);
    } else {
      assert init[x] == ms[x] && ms[x].end <= m.start;
      WithinNotCovered(last, m.start, m.end, k);
      PaintAllUntouched(PaintAll(c, StringGroups(t, init)), last, k);
      StringGroupsCell(t, init, x, c, k);
    }
  }

  lemma {:induction false} StringGroupsCoveredIn(t: string, ms: seq<Found>, k: int)
    requires Ordered(ms, |t|)
    requires Covered(StringGroups(t, ms), k)
    ensures exists x :: 0 <= x < |ms| && ms[x].start <= k < ms[x].end
    decreases |ms|
  {
    var init := ms[..|ms| - 1];
    var m := ms[|ms| - 1];
    CoveredAppend(StringGroups(t, init), StringGroup(t, m), k);
    if !Covered(StringGroup(t, m), k) {
      StringGroupsCoveredIn(t, init, k);
      var x :| 0 <= x < |init| && init[x].start <= k < init[x].end;
      assert ms[x] == init[x];
    }
  }

  lemma {:induction false} StringGroupsCoverIn(t: string, ms: seq<Found>, x: nat, k: int)
    requires Ordered(ms, |t|) && x < |ms|
    requires ms[x].start <= k < ms[x].end
    ensures Covered(StringGroups(t, ms), k)
    decreases |ms|
  {
    var init := ms[..|ms| - 1];
    var m := ms[|ms| - 1];
    CoveredAppend(StringGroups(t, init), StringGroup(t, m), k);
    if x == |ms| - 1 {
      assert Covers(StringGroup(t, m)[0], k);
    } else {
      StringGroupsCoverIn(t, init, x, k);
    }
  }

  /** The string pass covers exactly the cells of the quoted-string matches. */
  lemma StringCovered(t: string, k: nat)
    ensures Covered(StringSpans(t), k) <==> InString(t, k)
  {
    if Covered(StringSpans(t), k) {
      StringCoveredIn(t, k);
    }
    if InString(t, k) {
      StringCoversIn(t, k);
    }
  }

  lemma StringCoveredIn(t: string, k: nat)
    requires Covered(StringSpans(t), k)
    ensures InString(t, k)
  {
    var ms := Scan(Quoted, t, 0);
    ScanOrdered(Quoted, t);
    StringGroupsCoveredIn(t, ms, k);
    var x :| 0 <= x < |ms| && ms[x].start <= k < ms[x].end;
    assert ms[x] in ms;
  }

  lemma StringCoversIn(t: string, k: nat)
    requires InString(t, k)
    ensures Covered(StringSpans(t), k)
  {
    var ms := Scan(Quoted, t, 0);
    ScanOrdered(Quoted, t);
    var m :| m in ms && m.start <= k < m.end;
    var x :| 0 <= x < |ms| && ms[x] == m;
    StringGroupsCoverIn(t, ms, x, k);
  }

  /** Whether a cell is an f-string variable is decided by the one string match that holds it. */
  lemma FStringVarOf(t: string, m: Found, k: int)
    requires m in Scan(Quoted, t, 0) && m.start <= k < m.end
    ensures InFStringVar(t, k) <==> t[m.start] == 'f' && InBraces(t, m, k)
  {
    if InFStringVar(t, k) {
      var m' :| m' in Scan(Quoted, t, 0) && m'.start <= k < m'.end && t[m'.start] == 'f' && InBraces(t, m', k);
      ScanMatchUnique(Quoted, t, m, m', k);
    }
  }

  /** Inside a string match, the string pass decides the cell whatever the earlier passes did. */
  lemma StringCell(t: string, c: Cells, k: nat)
    requires k < |t| && |c| == |t| && InString(t, k)
    ensures PaintAll(c, StringSpans(t))[k]
            == if InFStringVar(t, k) then Some(FStringVariable) else Some(StringLiteral)
  {
    var m :| m in Scan(Quoted, t, 0) && m.start <= k < m.end;
    StringSpansCell(t, m, c, k);
    GroupCell(t, m, c, k);
    FStringVarOf(t, m, k);
  }

  lemma StringSpansCell(t: string, m: Found, c: Cells, k: nat)
    requires |c| == |t| && m in Scan(Quoted, t, 0) && m.start <= k < m.end
    ensures PaintAll(c, StringSpans(t))[k] == PaintAll(c, StringGroup(t, m))[k]
  {
    var ms := Scan(Quoted, t, 0);
    ScanOrdered(Quoted, t);
    var x :| 0 <= x < |ms| && ms[x] == m;
    StringGroupsCell(t, ms, x, c, k);
  }

  // ---- Names and operators ----

  lemma CallCovered(t: string, k: nat)
    ensures Covered(CallSpans(t), k) <==> InCall(t, k)
  {
    var r := CallSpans(t);
    if Covered(r, k) {
      var j :| 0 <= j < |r| && Covers(r[j], k);
      CallSpanIsRun(t, j);
    }
    if InCall(t, k) {
      var i, e :| 0 <= i <= k < e <= |t| && IsCallName(t, i, e);
      CallRunIsSpan(t, i, e);
      var j :| 0 <= j < |r| && r[j] == Span(i, e - i, FunctionName);
      assert Covers(r[j], k);
    }
  }

  lemma MemberCovered(t: string, k: nat)
    ensures Covered(MemberSpans(t), k) <==> InMember(t, k)
  {
    var r := MemberSpans(t);
    if Covered(r, k) {
      var j :| 0 <= j < |r| && Covers(r[j], k);
      MemberSpanIsRun(t, j);
    }
    if InMember(t, k) {
      var i, e :| 1 <= i <= k < e <= |t| && IsMemberName(t, i, e);
      MemberRunIsSpan(t, i, e);
      var j :| 0 <= j < |r| && r[j] == Span(i, e - i, Attribute);
      assert Covers(r[j], k);
    }
  }

  /** The operator loops, painted over any earlier calls `x`. */
  lemma OperatorLayer(t: string, x: seq<Span>, k: nat)
    requires k < |t|
    ensures PaintAll(Blank(|t|), x + OperatorSpans(t))[k]
            == if t[k] in OperatorChars then Some(Operator) else PaintAll(Blank(|t|), x)[k]
  {
    OperatorCovered(t, k);
    PaintAllLayerIff(Blank(|t|), x, OperatorSpans(t), Operator, k, t[k] in OperatorChars);
  }

  /** The attribute loop, painted over any earlier calls `x`. */
  lemma MemberLayer(t: string, x: seq<Span>, k: nat)
    requires k < |t|
    ensures PaintAll(Blank(|t|), x + MemberSpans(t))[k]
            == if InMember(t, k) then Some(Attribute) else PaintAll(Blank(|t|), x)[k]
  {
    MemberCovered(t, k);
    PaintAllLayerIff(Blank(|t|), x, MemberSpans(t), Attribute, k, InMember(t, k));
  }

  /** The function-name loop, painted over the keyword loops. */
  lemma CallLayer(t: string, k: nat)
    requires k < |t|
    ensures PaintAll(Blank(|t|), KeywordSpans(t) + CallSpans(t))[k]
            == if InCall(t, k) then Some(FunctionName) else KeywordCells(t)[k]
  {
    CallCovered(t, k);
    PaintAllLayerIff(Blank(|t|), KeywordSpans(t), CallSpans(t), FunctionName, k, InCall(t, k));
  }

  /**
   Before the string pass: operators overwrite attributes, which overwrite
   called names, which overwrite keywords, because the loops run in that
   reverse order.
   */
  lemma NameAndOperatorCell(t: string, k: nat)
    requires k < |t|
    ensures PaintAll(Blank(|t|), KeywordSpans(t) + CallSpans(t) + MemberSpans(t) + OperatorSpans(t))[k]
            == if t[k] in OperatorChars then Some(Operator)
               else if InMember(t, k) then Some(Attribute)
               else if InCall(t, k) then Some(FunctionName)
               else if InKeyword(t, k) then Some(Keyword)
               else None
  {
    OperatorLayer(t, KeywordSpans(t) + CallSpans(t) + MemberSpans(t), k);
    MemberLayer(t, KeywordSpans(t) + CallSpans(t), k);
    CallLayer(t, k);
    KeywordPassExact(t, k);
  }

  /** The highlighter's final formats are exactly the expected ones, cell by cell. */
  lemma HighlightMatchesExpected(t: string, k: nat)
    requires '\n' !in t && k < |t|
    ensures Highlight(t)[k] == ExpectedCell(t, k)
  {
    HighlightSplit(t, k);
    if k < FirstHash(t) {
      var a := KeywordSpans(t);
      var b := CallSpans(t);
      var c := MemberSpans(t);
      var d := OperatorSpans(t);
      var e := StringSpans(t);
      var z := Blank(|t|);
      assert CodeSpans(t) == a + b + c + d + e;
      PaintAllAppend(z, a + b + c + d, e);
      StringCovered(t, k);
      if InString(t, k) {
        StringCell(t, PaintAll(z, a + b + c + d), k);
      } else {
        PaintAllUntouched(PaintAll(z, a + b + c + d), e, k);
        NameAndOperatorCell(t, k);
      }
    }
  }

  /** The result has one format per character, and unformatted cells are exactly those no rule claims. */
  lemma HighlightWhole(t: string)
    requires '\n' !in t
    ensures |Highlight(t)| == |t|
    ensures forall k :: 0 <= k < |t| ==> Highlight(t)[k] == ExpectedCell(t, k)
  {
    forall k | 0 <= k < |t|
      ensures Highlight(t)[k] == ExpectedCell(t, k)
    {
      HighlightMatchesExpected(t, k);
    }
  }

  /** An example: in `f'{x}'` the prefix and the quotes are string, and the brace group, braces included, is f-string variable. */
  lemma FStringExample(t: string)
    requires t == "f'{x}'"
    ensures Highlight(t)
            == [Some(StringLiteral), Some(StringLiteral), Some(FStringVariable),
                Some(FStringVariable), Some(FStringVariable), Some(StringLiteral)]
  {
    HighlightWhole(t);
    forall k | 0 <= k < |t|
      ensures ExpectedCell(t, k) == if 2 <= k < 5 then Some(FStringVariable) else Some(StringLiteral)
    {
      ExampleCell(t, k);
    }
  }

  lemma ExampleCell(t: string, k: nat)
    requires t == "f'{x}'" && k < |t|
    ensures ExpectedCell(t, k) == if 2 <= k < 5 then Some(FStringVariable) else Some(StringLiteral)
  {
    ExampleQuoted(t);
    ExampleBraced(t);
    assert FirstHash(t) == 6;
    var m := Found(0, 6);
    assert t[m.start..m.end] == t;
    assert m in Scan(Quoted, t, 0);
    if 2 <= k < 5 {
      assert Found(2, 5) in Scan(Braced, t[m.start..m.end], 0);
      assert InBraces(t, m, k);
    }
  }

  lemma ExampleQuoted(t: string)
    requires t == "f'{x}'"
    ensures Scan(Quoted, t, 0) == [Found(0, 6)]
  {
    QuotedMatchShape(t, 0, 6);
  }

  lemma ExampleBraced(t: string)
    requires t == "f'{x}'"
    ensures Scan(Braced, t, 0) == [Found(2, 5)]
  {
    var cs := {'{', '}'};
    assert IndexFrom(t, 4, cs) == 4;
    assert IndexFrom(t, 3, cs) == 4;
    assert MatchAt(Braced, t, 2) == Some(5);
    assert MatchAt(Braced, t, 5).None?;
    assert Scan(Braced, t, 6) == [];
    assert Scan(Braced, t, 2) == [Found(2, 5)];
    assert MatchAt(Braced, t, 0).None? && MatchAt(Braced, t, 1).None?;
  }
}
