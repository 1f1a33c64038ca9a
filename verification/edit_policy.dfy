/**
 What the editor does with Tab, Shift+Tab (Backtab) and Return, on the text of
 the block (line) that holds the cursor. Every other key goes to the default
 text-widget handling.
 */
module EditPolicy {
  import opened Text

  /** One level of indentation: four spaces. */
  const IndentUnit: string := "    "

  datatype Key = Backtab | Tab | Return | OtherKey

  /** What the key handler does to the document. */
  datatype KeyEffect =
    | Insert(at: nat, text: string)  // insert `text` at column `at` of the current line; the event is accepted
    | Accepted                       // the event is accepted and nothing changes
    | PassToWidget                   // the default handler of the text widget deals with the key

  /** The indentation of the part of `line` before column `col`: its leading spaces. */
  function Indentation(line: string, col: int): (r: string)
    ensures var p := Prefix(line, col);
            |r| <= |p| && r == p[..|r|]
            && (forall i :: 0 <= i < |r| ==> r[i] == ' ')
            && (|r| == |p| || p[|r|] != ' ')
  {
    Spaces(LeadingSpaces(Prefix(line, col)))
  }

  /** The text before the cursor, stripped of whitespace, ends with `:` or `{`. */
  predicate OpensBlock(before: string) {
    EndsWith(Strip(before), ':') || EndsWith(Strip(before), '{')
  }

  /** Position `i` holds the last non-whitespace character of `s`. */
  predicate LastNonBlankAt(s: string, i: int) {
    0 <= i < |s| && !IsPyWhitespace(s[i]) && forall j :: i < j < |s| ==> IsPyWhitespace(s[j])
  }

  /** What follows the cursor on the new line when Return is pressed. */
  function EnterText(line: string, col: nat): (r: string)
    requires col <= |line|
    ensures |r| > 0 && r[0] == '\n'
    ensures forall i :: 1 <= i < |r| ==> r[i] == ' '
    ensures |r| - 1 == |Indentation(line, col)| + (if OpensBlock(line[..col]) then 4 else 0)
  {
    var indent := Indentation(line, col);
    "\n" + (if OpensBlock(line[..col]) then indent + IndentUnit else indent)
  }

  /**
   The key handler for the current line `line` with the cursor at column `col`.
   Backtab moves to the start of the line and, when the line starts with four
   spaces, inserts the line minus those spaces there; it never deletes anything.
   Tab inserts four spaces at the cursor, whatever the column.
   */
  function KeyPress(key: Key, line: string, col: nat): (r: KeyEffect)
    requires col <= |line|
    ensures r.Insert? ==> r.at <= |line| && |r.text| > 0
    ensures r.PassToWidget? <==> key == OtherKey
  {
    match key
    case Backtab =>
      if |line| > 4 && line[..4] == IndentUnit then Insert(0, line[4..])
      else Accepted
    case Tab => Insert(col, IndentUnit)
    case Return => Insert(col, EnterText(line, col))
    case OtherKey => PassToWidget
  }

  /** The current line's new contents after the effect. */
  function Apply(line: string, e: KeyEffect): (r: string)
    requires e.Insert? ==> e.at <= |line|
    ensures e.Insert? ==> |r| == |line| + |e.text| && r[..e.at] == line[..e.at]
                          && r[e.at..e.at + |e.text|] == e.text && r[e.at + |e.text|..] == line[e.at..]
    ensures !e.Insert? ==> r == line
  {
    match e
    case Insert(at, text) => line[..at] + text + line[at..]
    case _ => line
  }

  /** Deletes `n` characters at `at`: the inverse of an insertion. */
  function Delete(s: string, at: nat, n: nat): (r: string)
    requires at + n <= |s|
    ensures |r| == |s| - n
    ensures forall i :: 0 <= i < at ==> r[i] == s[i]
    ensures forall i :: at <= i < |r| ==> r[i] == s[i + n]
  {
    s[..at] + s[at + n..]
  }

  // ---- Tab ----

  /** Tab adds four spaces at the cursor, at any column; deleting them gives the line back. */
  lemma TabInsertsFourSpaces(line: string, col: nat)
    requires col <= |line|
    ensures var r := Apply(line, KeyPress(Tab, line, col));
            |r| == |line| + 4
            && (forall i :: col <= i < col + 4 ==> r[i] == ' ')
            && Delete(r, col, 4) == line
  {
    var r := Apply(line, KeyPress(Tab, line, col));
    assert Delete(r, col, 4) == line[..col] + line[col..];
    assert line[..col] + line[col..] == line;
  }

  // ---- Backtab ----

  /**
   Backtab on a line that starts with four spaces and has more after them puts
   a copy of the rest of the line in front of it: the line is not dedented and
   grows by all but four of its characters.
   */
  lemma BacktabDuplicates(line: string)
    requires |line| > 4 && line[..4] == IndentUnit
    ensures Apply(line, KeyPress(Backtab, line, 0)) == line[4..] + line
    ensures |Apply(line, KeyPress(Backtab, line, 0))| == 2 * |line| - 4
  {
    assert line[..0] == [] && line[0..] == line;
  }

  /** Backtab never changes a line that does not start with four spaces. */
  lemma BacktabKeepsUnindented(line: string, col: nat)
    requires col <= |line|
    requires !(|line| >= 4 && line[..4] == IndentUnit)
    ensures KeyPress(Backtab, line, col) == Accepted
    ensures Apply(line, KeyPress(Backtab, line, col)) == line
  {
  }

  /** Whatever the column, Backtab only ever adds text: the original line stays, at the end. */
  lemma BacktabNeverRemoves(line: string, col: nat)
    requires col <= |line|
    ensures var r := Apply(line, KeyPress(Backtab, line, col));
            |r| >= |line| && r[|r| - |line|..] == line
  {
    if |line| > 4 && line[..4] == IndentUnit {
      BacktabDuplicates(line);
    }
  }

  /** An example: `"    x"` becomes `"x    x"`. */
  lemma BacktabExample()
    ensures Apply("    x", KeyPress(Backtab, "    x", 2)) == "x    x"
  {
    BacktabDuplicates("    x");
  }

  // ---- Return ----

  /**
   The leading-space count is the longest run of spaces that starts the line
   and stays left of the cursor: any such run is at most as long.
   */
  lemma IndentationIsLongest(line: string, col: nat, n: nat)
    requires col <= |line| && n <= col
    requires forall i :: 0 <= i < n ==> line[i] == ' '
    ensures n <= |Indentation(line, col)| <= col
  {
    var p := Prefix(line, col);
    var r := Indentation(line, col);
    assert p == line[..col];
  }

  /** Return splits the line at the cursor; the new line starts with the indentation, one level deeper after `:` or `{`. */
  lemma ReturnSplitsLine(line: string, col: nat)
    requires col <= |line|
    ensures var ind := |Indentation(line, col)| + (if OpensBlock(line[..col]) then 4 else 0);
            Apply(line, KeyPress(Return, line, col)) == line[..col] + "\n" + Spaces(ind) + line[col..]
  {
    var t := EnterText(line, col);
    EnterTextIsSpaces(line, col);
    InsertIs(line, col, t);
    ConcatAssoc(line[..col], "\n", Spaces(|t| - 1), line[col..]);
  }

  lemma ConcatAssoc(a: string, b: string, c: string, d: string)
    ensures a + (b + c) + d == a + b + c + d
  {
  }

  lemma EnterTextIsSpaces(line: string, col: nat)
    requires col <= |line|
    ensures EnterText(line, col) == "\n" + Spaces(|EnterText(line, col)| - 1)
  {
    var ind := Indentation(line, col);
    if OpensBlock(line[..col]) {
      assert IndentUnit == Spaces(4);
      SpacesAdd(|ind|, 4);
    }
  }

  lemma InsertIs(line: string, col: nat, t: string)
    requires col <= |line|
    ensures Apply(line, Insert(col, t)) == line[..col] + t + line[col..]
  {
  }

  /** The new line is one level deeper exactly when the last non-blank character before the cursor is `:` or `{`. */
  lemma OpensBlockIsLastNonBlank(before: string)
    ensures OpensBlock(before) <==> exists i :: LastNonBlankAt(before, i) && before[i] in {':', '{'}
  {
    if OpensBlock(before) {
      OpensBlockHasLast(before);
    }
    if exists i :: LastNonBlankAt(before, i) && before[i] in {':', '{'} {
      var i :| LastNonBlankAt(before, i) && before[i] in {':', '{'};
      LastOpensBlock(before, i);
    }
  }

  lemma OpensBlockHasLast(before: string)
    requires OpensBlock(before)
    ensures LastNonBlankAt(before, |RStrip(before)| - 1) && before[|RStrip(before)| - 1] in {':', '{'}
  {
    StripEndsWith(before, ':');
    StripEndsWith(before, '{');
    var r := RStrip(before);
    assert before[|r| - 1] == r[|r| - 1];
  }

  lemma LastOpensBlock(before: string, i: int)
    requires LastNonBlankAt(before, i) && before[i] in {':', '{'}
    ensures OpensBlock(before)
  {
    RStripLastNonBlank(before, i);
    var r := RStrip(before);
    assert r[|r| - 1] == before[i];
    StripEndsWith(before, before[i]);
  }

  /** Right-stripping keeps exactly the characters up to the last non-blank one. */
  lemma RStripLastNonBlank(s: string, i: int)
    requires LastNonBlankAt(s, i)
    ensures |RStrip(s)| == i + 1
  {
    var r := RStrip(s);
    assert i < |r|;
    assert r[|r| - 1] == s[|r| - 1];
  }

  lemma {:induction false} LeadingSpacesOf(n: nat, body: string)
    requires body == [] || body[0] != ' '
    ensures LeadingSpaces(Spaces(n) + body) == n
    decreases n
  {
    if n > 0 {
      assert (Spaces(n) + body)[1..] == Spaces(n - 1) + body;
      LeadingSpacesOf(n - 1, body);
    }
  }

  /**
   Return at the end of a line of `n` spaces and then some code: the new line
   gets `n` spaces, and four more when the code ends with `:` or `{`.
   */
  lemma ReturnAtEndOfLine(n: nat, body: string)
    requires body != [] && body[0] != ' ' && !IsPyWhitespace(body[|body| - 1])
    ensures var line := Spaces(n) + body;
            EnterText(line, |line|) == "\n" + Spaces(n + if body[|body| - 1] in {':', '{'} then 4 else 0)
  {
    var line := Spaces(n) + body;
    assert line[..|line|] == line;
    IndentationOf(n, body);
    OpensBlockAtEnd(line);
    assert line[|line| - 1] == body[|body| - 1];
    EnterTextIsSpaces(line, |line|);
  }

  lemma IndentationOf(n: nat, body: string)
    requires body == [] || body[0] != ' '
    ensures Indentation(Spaces(n) + body, |Spaces(n) + body|) == Spaces(n)
  {
    var line := Spaces(n) + body;
    assert Prefix(line, |line|) == line;
    LeadingSpacesOf(n, body);
  }

  /** When the last character is not blank, the line opens a block exactly when that character is `:` or `{`. */
  lemma OpensBlockAtEnd(line: string)
    requires line != [] && !IsPyWhitespace(line[|line| - 1])
    ensures OpensBlock(line) <==> line[|line| - 1] in {':', '{'}
  {
    assert RStrip(line) == line;
    StripEndsWith(line, ':');
    StripEndsWith(line, '{');
  }

  lemma SpacesAdd(n: nat, m: nat)
    ensures Spaces(n) + Spaces(m) == Spaces(n + m)
  {
  }

  /** After `"    if x:"` the new line has eight spaces. */
  lemma ReturnAfterColonExample()
    ensures EnterText("    if x:", 9) == "\n" + Spaces(8)
  {
    assert "    if x:" == Spaces(4) + "if x:";
    ReturnAtEndOfLine(4, "if x:");
  }

  /** After `"    x = 1"` the new line has four spaces. */
  lemma ReturnAfterStatementExample()
    ensures EnterText("    x = 1", 9) == "\n" + Spaces(4)
  {
    assert "    x = 1" == Spaces(4) + "x = 1";
    ReturnAtEndOfLine(4, "x = 1");
  }
}
