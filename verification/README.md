# NotepadGPT editor core in Dafny

This project models the editing core of NotepadGPT, a small PyQt code editor, and proves properties of that model.
The model covers:

- **The per-block Python syntax highlighter** (`PythonHighlighter.highlightBlock`). Six `re.finditer` loops emit `setFormat` calls for:
  1. keywords;
  2. called names;
  3. attributes;
  4. operators;
  5. string literals, including the brace groups of f-strings;
  6. comments.

  A later call overwrites an earlier one cell by cell. The top-level result, `HighlightCells.HighlightMatchesExpected`, says what every character of a line ends up as, counting positions in code points. It is stated in terms of the text alone: where the first `#` is, which quoted string and brace group a character sits in, and which word run it belongs to.
- **The key policy of the editor widget** for Tab, Shift+Tab (Backtab) and Return, with the indentation it computes (`getIndentationForLine`).
- **Editor state:**
  - the accepted font sizes;
  - Ctrl+wheel zoom in steps of two points;
  - the width of the line-number gutter;
  - dirty tracking against the content last loaded or saved.
- **The main window's tab bookkeeping:**
  - tab and window titles derived from paths;
  - new, open and re-attach;
  - routing a save to a direct write or to save-as, for one tab and for all tabs;
  - the "unsaved" tab icon.
- **The icon converter's colour inversion.** It covers `invert_color` and the regex substitution that applies it to every `#rgb`/`#rrggbb` colour of an SVG text.

Modules follow the program's structure:

- `Text`: character classes, Python's `strip` family, and leading spaces.
- `Paint`: `setFormat` calls and the last-writer-wins fold over the format array.
- `Patterns`: the regular expressions as leftmost-first matchers, plus `re.finditer` as `Scan`.
- `Highlighter` and `HighlighterProperties`: the passes, and what each pass paints.
- `HighlightCells`: the final formats, cell by cell.
- `EditPolicy`, `EditorState`, `MainWindow` and `IconConverter`.

## Where the code and its comments disagree

The model follows the code, as written.

- **Shift+Tab does not dedent.** The comment promises to remove four leading spaces. The code moves the cursor to the start of the block and inserts the line minus those four spaces, so `"    x"` becomes `"x    x"` (`BacktabDuplicates`, `BacktabExample`). The line never loses a character (`BacktabNeverRemoves`).
- **Tab inserts four spaces at the cursor, whatever the column.** There is no Ctrl+Tab handling.
- **The f-string sub-pass paints the whole `{...}` group.** Its offsets (+1, -1, then -1 and +2) cancel out, so the braces are included.
- **The comment pass starts at the first `#` of the line, even inside a string literal.** It runs last, so it overwrites everything after that `#`.
- **Save-as leaves the window title stale.** It retitles the tab but does not refresh the window title: that only happens when the current tab changes (`SaveAsLeavesTitleStale`).
- **The colour substitution is greedy.** `#abcd` and `#abcde` are matched but left unchanged. A run of seven or more hex digits has its first six inverted and the rest copied (`MiddleLengthsKept`, `GreedyLongRun`).

## Model

| member | source | states |
|---|---|---|
| Text.Prefix | classes/EditorTab.py:197 | `line[:n]`: the first `min(max(n, 0), len(line))` characters of the line |
| Text.IsPyWhitespace | classes/EditorTab.py:180 | the characters `str.isspace` accepts, which `strip()` removes: space, `\t` to `\r`, U+001C to U+001F, U+0085, U+00A0, U+1680, U+2000 to U+200A, U+2028, U+2029, U+202F, U+205F, U+3000 |
| Text.LeadingSpaces | classes/EditorTab.py:200 | the count `len(s) - len(s.lstrip(' '))`: the first `n` characters are spaces and the next one, if any, is not |
| Text.RStrip | classes/EditorTab.py:180 | `rstrip()` keeps a prefix that ends in a non-whitespace character and cuts only Python whitespace |
| Text.LStrip | classes/EditorTab.py:180 | `lstrip()` keeps a suffix that starts with a non-whitespace character and cuts only Python whitespace |
| Text.Strip | classes/EditorTab.py:180 | `strip()` is no longer than its input and neither starts nor ends with Python whitespace |
| Text.StripEndsWith | classes/EditorTab.py:180 | for a non-blank `c`, `s.strip().endswith(c)` holds exactly when the right-stripped text ends with `c` |
| Paint.PaintAll | classes/EditorTab.py:85-124 | the `setFormat` calls applied in order keep one cell per character; what each cell becomes is stated by `PaintAllLastWriter` |
| Paint.Paint | classes/EditorTab.py:90 | one `setFormat` call: the covered cells take its format and every other cell keeps its value |
| Paint.PaintAllOrigin | classes/EditorTab.py:85-124 | after a batch of calls every cell holds its old value or the format of some call covering it |
| Paint.PaintAllUntouched | classes/EditorTab.py:85-124 | a cell no call covers keeps its value |
| Paint.PaintAllLastWriter | classes/EditorTab.py:85-124 | a cell ends with the format of the last call that covers it |
| Paint.PaintAllAppend | classes/EditorTab.py:85-124 | running two batches of calls one after the other equals running their concatenation |
| Paint.PaintAllOverwrites | classes/EditorTab.py:85-124 | once a call covers a cell, the cell's earlier value is irrelevant |
| Paint.CoveredAppend | classes/EditorTab.py:85-124 | a cell is covered by two batches together exactly when one of them covers it |
| Paint.PaintAllCoveredCell | classes/EditorTab.py:85-124 | a covered cell holds the format of one of the calls covering it |
| Paint.PaintAllUniform | classes/EditorTab.py:87-90 | on a blank block, calls of one format mark exactly the covered cells |
| Paint.PaintAllLayer | classes/EditorTab.py:85-124 | a later batch of one format decides the cells it covers and leaves the rest to the earlier calls |
| Paint.PaintAllAbsent | classes/EditorTab.py:85-124 | a format no call uses never appears |
| Patterns.MatchAt | classes/EditorTab.py:88-122 | a match found at position `i` is non-empty and ends inside the text |
| Patterns.QuotedMatchShape | classes/EditorTab.py:109 | the string pattern matches from `i` to `e` exactly when `[i, e)` is a quote, no such quote, the same quote, optionally after `f`; the match ends at the first closing quote |
| Patterns.Scan | classes/EditorTab.py:88 | `re.finditer` reports matches inside the text, from the start position on, strictly increasing and never overlapping |
| Patterns.ScanMatch | classes/EditorTab.py:88 | every reported range is the match the engine finds at its start |
| Patterns.ScanComplete | classes/EditorTab.py:88 | a match at `i` is reported unless an earlier reported match runs past `i` |
| Patterns.ScanSkip | classes/EditorTab.py:88 | positions where nothing matches are skipped without effect |
| Highlighter.KeywordPatterns | classes/EditorTab.py:75-78 | one `\bkw\b` pattern per keyword of the `Keywords` list, in list order |
| Highlighter.OperatorPatterns | classes/EditorTab.py:81-83 | one literal pattern per operator of the `Operators` list, in list order |
| Highlighter.OperatorsAreOperatorChars | classes/EditorTab.py:81-83 | every operator consists of operator characters |
| Highlighter.OperatorCharsAreOperators | classes/EditorTab.py:81-83 | every operator character is itself a one-character operator |
| Highlighter.KeywordsAreWords | classes/EditorTab.py:75-78 | every keyword is a non-empty run of word characters |
| Highlighter.KeywordSpans | classes/EditorTab.py:87-90 | the keyword loops paint only inside the block and only in the keyword format |
| Highlighter.CallSpans | classes/EditorTab.py:93-95 | the function-name loop paints only inside the block and only in the function format |
| Highlighter.OperatorSpans | classes/EditorTab.py:103-106 | the operator loops paint only inside the block and only in the operator format |
| Highlighter.StringSpans | classes/EditorTab.py:109-119 | the string loop paints only inside the block, in the string and f-string variable formats |
| Highlighter.CommentSpans | classes/EditorTab.py:122-124 | the comment loop paints only inside the block and only in the comment format |
| Highlighter.CodeSpans | classes/EditorTab.py:87-119 | the loops before the comment loop never use the comment format |
| Highlighter.Pass | classes/EditorTab.py:88-90 | one loop emits one call per reported match, painting exactly that match's range |
| Highlighter.MemberSpans | classes/EditorTab.py:98-100 | the attribute loop paints each `\.\w+` match from one past its start (the dot is left out) to its end |
| Highlighter.DotMatchesLong | classes/EditorTab.py:98 | an attribute match is a dot followed by at least one word character |
| Highlighter.FStringVarSpans | classes/EditorTab.py:113-119 | one call per brace group of the f-string match, each inside that match |
| Highlighter.StringGroup | classes/EditorTab.py:109-119 | the calls for one string match start with the whole literal and stay inside it |
| Highlighter.Spans | classes/EditorTab.py:85-124 | every call of the block lies inside it, is non-empty and uses one of the seven formats |
| Highlighter.Highlight | classes/EditorTab.py:85-124 | the block gets exactly one format cell per character |
| HighlighterProperties.PassCovered | classes/EditorTab.py:88-90 | a loop paints a cell exactly when some reported match contains it |
| HighlighterProperties.FoundInPass | classes/EditorTab.py:88-90 | every reported match becomes a call that paints it whole |
| HighlighterProperties.PassesCovered | classes/EditorTab.py:87-90 | a cell is painted by a list of loops exactly when one loop of the list paints it |
| HighlighterProperties.WholeWordMatchIsRun | classes/EditorTab.py:88 | a `\bw\b` match is a maximal word run spelling `w` |
| HighlighterProperties.WholeWordRunIsFound | classes/EditorTab.py:88 | every maximal word run spelling `w` is reported by the `\bw\b` loop |
| HighlighterProperties.KeywordCoveredIsRun | classes/EditorTab.py:87-90 | a cell some keyword loop paints lies in a whole word that is a keyword |
| HighlighterProperties.KeywordRunIsCovered | classes/EditorTab.py:87-90 | every cell of a whole word that is a keyword is painted |
| HighlighterProperties.KeywordPassExact | classes/EditorTab.py:87-90 | after the keyword loops a cell is Keyword exactly when it lies in a whole keyword word, and unformatted otherwise |
| HighlighterProperties.DefineIsNotKeyword | classes/EditorTab.py:88 | `def` inside the identifier `define` is not highlighted |
| HighlighterProperties.CallMatchIsRun | classes/EditorTab.py:93 | a `\b\w+(?=\()` match is a maximal word run directly followed by `(` |
| HighlighterProperties.CallRunIsFound | classes/EditorTab.py:93 | every maximal word run directly followed by `(` is reported |
| HighlighterProperties.CallSpansExact | classes/EditorTab.py:93-95 | the function-name loop paints exactly the word runs followed by `(`, never the `(` |
| HighlighterProperties.CallSpanIsRun | classes/EditorTab.py:93-95 | every function-name call paints a word run followed by `(` |
| HighlighterProperties.CallRunIsSpan | classes/EditorTab.py:93-95 | every word run followed by `(` gets a function-name call of exactly its extent |
| HighlighterProperties.MemberMatchIsRun | classes/EditorTab.py:98 | a `\.\w+` match is a dot followed by a maximal word run |
| HighlighterProperties.MemberRunIsFound | classes/EditorTab.py:98 | every maximal word run directly after a `.` is reported together with its dot |
| HighlighterProperties.MemberSpansExact | classes/EditorTab.py:98-100 | the attribute loop paints exactly the word runs after a `.`, never the dot |
| HighlighterProperties.MemberSpanIsRun | classes/EditorTab.py:98-100 | every attribute call paints a word run that follows a `.` |
| HighlighterProperties.MemberRunIsSpan | classes/EditorTab.py:98-100 | every word run after a `.` gets an attribute call of exactly its extent |
| HighlighterProperties.LiteralMatchChar | classes/EditorTab.py:104 | a literal match spells the literal |
| HighlighterProperties.LiteralCharFound | classes/EditorTab.py:104 | a one-character literal loop reports every occurrence of its character |
| HighlighterProperties.LiteralPassCoveredChar | classes/EditorTab.py:104 | a cell a literal loop paints holds one of the literal's characters |
| HighlighterProperties.OperatorCoveredIsChar | classes/EditorTab.py:103-106 | a cell the operator loops paint holds an operator character |
| HighlighterProperties.OperatorCharIsCovered | classes/EditorTab.py:103-106 | every operator character is painted by the operator loops |
| HighlighterProperties.OperatorCovered | classes/EditorTab.py:103-106 | a cell is painted by some operator loop exactly when it holds an operator character |
| HighlighterProperties.OperatorPassExact | classes/EditorTab.py:103-106 | after the operator loops exactly the operator characters are marked; `==`, `<=`, `>=` add no cell of their own |
| HighlightCells.ScanMatchUnique | classes/EditorTab.py:109 | two reported matches that share a cell are the same match |
| HighlightCells.CommentScan | classes/EditorTab.py:122 | on a line, `#.*` matches once, from the first `#` to the end of the line, or not at all |
| HighlightCells.CommentCovered | classes/EditorTab.py:122-124 | the comment loop paints exactly the cells from the first `#` on |
| HighlightCells.HighlightSplit | classes/EditorTab.py:85-124 | a final cell is Comment from the first `#` on, and otherwise what the earlier loops left |
| HighlightCells.HighlightComment | classes/EditorTab.py:121-124 | a final cell is Comment exactly when it lies at or after the first `#` |
| HighlightCells.CodeNotComment | classes/EditorTab.py:87-119 | the loops before the comment loop never produce the comment format |
| HighlightCells.CodeCallsNotComment | classes/EditorTab.py:87-119 | calls in the code formats never leave a comment mark on a blank block |
| HighlightCells.BracedMatchShape | classes/EditorTab.py:115 | a brace group starts with `{`, ends with `}` and holds no brace in between |
| HighlightCells.FStringVarSpanIs | classes/EditorTab.py:115-119 | the sub-pass call for a brace group paints the whole group, braces included |
| HighlightCells.FStringVarCovered | classes/EditorTab.py:113-119 | the sub-pass paints a cell exactly when it lies in a brace group of the f-string |
| HighlightCells.GroupCell | classes/EditorTab.py:109-119 | inside a string match the cell ends as f-string variable in a brace group of an `f` string, and as string otherwise |
| HighlightCells.PlainGroupIs | classes/EditorTab.py:109-111 | a string without the `f` prefix gets one string call over the whole literal |
| HighlightCells.FStringGroupIs | classes/EditorTab.py:113-119 | an `f` string gets the whole-literal call followed by one call per brace group |
| HighlightCells.FStringPaint | classes/EditorTab.py:114-119 | painting an f-string match and its brace groups gives the variable format exactly in the groups |
| HighlightCells.StringGroupsCell | classes/EditorTab.py:109-119 | a cell inside one string match is decided by that match's calls alone |
| HighlightCells.StringSpansCell | classes/EditorTab.py:109-119 | inside a quoted-string match, the string loop paints what that match's own calls paint |
| HighlightCells.StringCovered | classes/EditorTab.py:109-111 | the string loop paints a cell exactly when it lies inside a quoted-string match |
| HighlightCells.StringCell | classes/EditorTab.py:108-119 | a cell inside a string ends as f-string variable or string, whatever the earlier loops did |
| HighlightCells.CallCovered | classes/EditorTab.py:93-95 | the function-name loop paints a cell exactly when it lies in a word followed by `(` |
| HighlightCells.MemberCovered | classes/EditorTab.py:98-100 | the attribute loop paints a cell exactly when it lies in a word after a `.` |
| HighlightCells.CallLayer | classes/EditorTab.py:92-95 | called names overwrite keywords |
| HighlightCells.MemberLayer | classes/EditorTab.py:97-100 | attribute names overwrite whatever the earlier loops left |
| HighlightCells.OperatorLayer | classes/EditorTab.py:102-106 | operator characters overwrite whatever the earlier loops left |
| HighlightCells.NameAndOperatorCell | classes/EditorTab.py:87-106 | before the string loop the precedence is operator, attribute, called name, keyword, nothing |
| HighlightCells.ExpectedCell | classes/EditorTab.py:85-124 | the reference format of a character: comment from the first `#`, else string or f-string variable inside a string, else operator, attribute, called name, keyword or nothing, in that precedence |
| HighlightCells.HighlightMatchesExpected | classes/EditorTab.py:85-124 | each final cell of a line is comment from the first `#`, else string or f-string variable inside a string, else operator, attribute, called name, keyword or nothing, in that precedence |
| HighlightCells.HighlightWhole | classes/EditorTab.py:85-124 | the whole line's formats equal the expected ones, one per character |
| HighlightCells.FStringExample | classes/EditorTab.py:109-119 | in `f'{x}'` the `f` and the quotes end as string and `{x}`, braces included, as f-string variable |
| EditPolicy.Indentation | classes/EditorTab.py:188-203 | the indentation is the run of spaces that starts the part of the line before the cursor, and stops at its first non-space |
| EditPolicy.IndentationIsLongest | classes/EditorTab.py:188-203 | any run of spaces that starts the line left of the cursor is at most as long as the indentation |
| EditPolicy.OpensBlock | classes/EditorTab.py:180 | `before.strip()` ends with `:` or `{` |
| EditPolicy.EnterText | classes/EditorTab.py:173-183 | Return inserts a newline and spaces only: the indentation, four more when the text before the cursor ends with `:` or `{` |
| EditPolicy.KeyPress | classes/EditorTab.py:156-186 | insertions stay inside the line and are non-empty; only keys other than Tab, Backtab and Return reach the default handler |
| EditPolicy.Apply | classes/EditorTab.py:164 | inserting text at a column keeps the line before it, puts the text there and shifts the rest after it |
| EditPolicy.Delete | classes/EditorTab.py:170 | deleting `n` characters at a column (the inverse of an insertion there) keeps the rest in order |
| EditPolicy.TabInsertsFourSpaces | classes/EditorTab.py:168-171 | Tab adds four spaces at the cursor at any column, and deleting them gives the line back |
| EditPolicy.BacktabDuplicates | classes/EditorTab.py:159-166 | Backtab on a line with four leading spaces and more makes it `line[4:] + line` |
| EditPolicy.BacktabKeepsUnindented | classes/EditorTab.py:159-166 | Backtab on a line without four leading spaces is accepted and changes nothing |
| EditPolicy.BacktabNeverRemoves | classes/EditorTab.py:159-166 | after Backtab the original line is still there, at the end, whatever the column |
| EditPolicy.BacktabExample | classes/EditorTab.py:159-166 | `"    x"` becomes `"x    x"` |
| EditPolicy.ReturnSplitsLine | classes/EditorTab.py:173-183 | Return splits the line at the cursor and starts the new part with the indentation, four spaces deeper after `:` or `{` |
| EditPolicy.OpensBlockIsLastNonBlank | classes/EditorTab.py:180 | the new line is one level deeper exactly when the last non-blank character before the cursor is `:` or `{` |
| EditPolicy.ReturnAtEndOfLine | classes/EditorTab.py:173-183 | at the end of `n` spaces and code, the new line gets `n` spaces, plus four when the code ends with `:` or `{` |
| EditPolicy.ReturnAfterColonExample | classes/EditorTab.py:180-182 | after `"    if x:"` the new line has eight spaces |
| EditPolicy.ReturnAfterStatementExample | classes/EditorTab.py:180-182 | after `"    x = 1"` the new line has four spaces |
| EditorState.NewEditor | classes/EditorTab.py:130-153 | a fresh editor has its path and empty text, is unmodified, and starts at the configured font size 16 |
| EditorState.SetFont | classes/EditorTab.py:205-208 | a size strictly between 0 and 100 is taken and any other size leaves the editor unchanged |
| EditorState.Wheel | classes/EditorTab.py:310-321 | with exactly Ctrl held, a positive delta makes the font two points larger and a negative one two points smaller when the result stays in 1..99; otherwise, and without Ctrl or with a zero delta, nothing changes |
| EditorState.WheelUpThenDown | classes/EditorTab.py:310-319 | a step up then a step down gives the editor back below the upper bound |
| EditorState.WheelDownThenUp | classes/EditorTab.py:310-319 | a step down then a step up gives the editor back above the lower bound |
| EditorState.WheelAtBounds | classes/EditorTab.py:310-319 | a step that would leave 1..99 changes nothing |
| EditorState.WheelAll | classes/EditorTab.py:310-321 | any sequence of wheel events changes only the font size |
| EditorState.WheelAllEven | classes/EditorTab.py:310-319 | from an even size in 2..98, zooming only reaches even sizes in 2..98 |
| EditorState.DefaultZoomLevels | classes/EditorTab.py:330-331 | from the configured start size, zoom only ever reaches even sizes from 2 to 98 |
| EditorState.DecimalString | classes/EditorTab.py:228 | `str(n)` is a non-empty string of decimal digits without a leading zero |
| EditorState.DecimalRoundTrip | classes/EditorTab.py:228 | reading the decimal string back gives the number |
| EditorState.DecimalLength | classes/EditorTab.py:228 | a number has `d` digits exactly when it lies in `[10^(d-1), 10^d)` |
| EditorState.LineDigits | classes/EditorTab.py:228 | `len(str(max(1, blockCount)))` is at least one |
| EditorState.GutterWidth | classes/EditorTab.py:226-231 | for an acceptable font, the gutter is 7 to 26 pixels plus one glyph per digit |
| EditorState.GutterFontTerm | classes/EditorTab.py:230 | the font term adds one pixel per point of font size up to 20 and nothing beyond; at size 0 the gutter is the margin of 6 plus the digits |
| EditorState.LineDigitsMonotone | classes/EditorTab.py:228 | more lines never need fewer digits |
| EditorState.GutterMonotone | classes/EditorTab.py:226-231 | the gutter never shrinks as lines are added |
| EditorState.LineDigitsAtPowerOfTen | classes/EditorTab.py:228 | `10^d - 1` lines need `d` digits and `10^d` lines need `d + 1` |
| EditorState.GutterStepAtPowerOfTen | classes/EditorTab.py:226-231 | reaching `10^d` lines widens the gutter by exactly one glyph |
| EditorState.IsModified | classes/EditorTab.py:338-340 | the text differs from the content last loaded or saved |
| EditorState.LoadContent | classes/EditorTab.py:333-336 | loaded content becomes the text and the saved state, so the editor is unmodified |
| EditorState.SetText | classes/EditorTab.py:153-154 | an edit changes the text and leaves the saved state alone |
| EditorState.MarkAsSaved | classes/EditorTab.py:346-348 | after marking as saved the editor is unmodified and keeps its text |
| EditorState.SetFilePath | classes/EditorTab.py:302-304 | setting the path changes nothing else |
| EditorState.EditModifiedIff | classes/EditorTab.py:338-340 | after an edit the editor is modified exactly when the new text differs from the saved one |
| EditorState.RevertIsClean | classes/EditorTab.py:338-340 | typing the saved text back makes a clean editor clean again |
| EditorState.MarkAsSavedIdempotent | classes/EditorTab.py:346-348 | saving twice is saving once |
| MainWindow.Initial | __main__.py:131-132 | the window starts with no tabs, no current tab and the title "Code Editor" |
| MainWindow.Basename | __main__.py:211 | `path.split('/')[-1]` is the slash-free suffix of the path that is the whole path or follows a `/` |
| MainWindow.BasenameUnique | __main__.py:211 | any slash-free suffix that is the whole path or follows a `/` is the basename |
| MainWindow.BasenameOfJoin | __main__.py:253 | a slash-free file name under any directory is its own basename |
| MainWindow.ReattachTitle | __main__.py:87-90 | a re-attached tab is titled with the basename, or "New File" when that is empty |
| MainWindow.WindowTitle | __main__.py:263-268 | the window title is the current tab's path when it has one, and "Untitled" when it has none |
| MainWindow.NewTabName | __main__.py:184-187 | a string argument names the new tab and anything else gives "New File" |
| MainWindow.IconFor | __main__.py:270-282 | a tab shows the unsaved icon exactly when its editor is modified |
| MainWindow.SetCurrent | __main__.py:263-268 | a change of current tab refreshes the window title, and selecting the current tab changes nothing |
| MainWindow.AddTab | __main__.py:189-190 | a tab is added at the end and becomes current, with the title for its path |
| MainWindow.NewTab | __main__.py:184-192 | new tab: one more tab at the end holding an empty, unmodified editor; the title becomes "Untitled" |
| MainWindow.OpenFile | __main__.py:202-216 | a cancelled dialog changes nothing; otherwise a current, unmodified tab titled with the basename holds the file |
| MainWindow.Reattach | __main__.py:85-98 | a detached editor comes back as the current last tab, with its icon refreshed |
| MainWindow.SelectTab | __main__.py:58 | selecting a tab makes it current and leaves the tabs alone |
| MainWindow.EditCurrent | __main__.py:270-282 | an edit changes only the current tab, whose icon follows the modified state |
| MainWindow.SaveTab | __main__.py:230-237 | a tab with a path is written there and becomes clean; one without goes through save-as |
| MainWindow.SaveTabAs | __main__.py:245-255 | a cancelled dialog changes nothing; otherwise the answer becomes the path and title source, the text is written there and the tab is clean |
| MainWindow.SaveAt | __main__.py:230-237 | saving a tab replaces only that tab and keeps the current index and the window title |
| MainWindow.SaveCurrentFile | __main__.py:224-228 | the save action saves the current tab, or does nothing without tabs |
| MainWindow.WritesOf | __main__.py:232-233 | saving one tab writes nothing exactly when no write happens, and at most once |
| MainWindow.SaveAllWrites | __main__.py:218-222 | saving the first `n` tabs writes at most `n` times |
| MainWindow.SaveAll | __main__.py:218-222 | every tab is saved in order with its own dialog answer, writes come in tab order, and every tab with a path ends clean without the unsaved icon |
| MainWindow.SaveTabIcon | __main__.py:284-296 | after a save the tab's icon matches its editor |
| MainWindow.IconsStayAccurate | __main__.py:270-296 | new, open, re-attach, edit, select and save all keep every tab's icon in step with its editor |
| MainWindow.TitleStaysFresh | __main__.py:263-268 | new, open, re-attach, edit and select keep the window title in step with the current tab |
| MainWindow.SaveAsLeavesTitleStale | __main__.py:245-255 | saving an untitled current tab under a name leaves the window title at "Untitled" |
| IconConverter.HexVal | extras/icon_converter.py:14 | a hex digit of either case has a value below 16 |
| IconConverter.Lower | extras/icon_converter.py:14 | lower-casing keeps the length and maps each character by itself |
| IconConverter.HexChar | extras/icon_converter.py:14 | the `02x` digit for a value below 16 is a lower-case hex digit that reads back as that value |
| IconConverter.Byte | extras/icon_converter.py:14 | `int(color[i:i+2], 16)` of two hex digits is below 256 |
| IconConverter.ByteDigits | extras/icon_converter.py:14 | formatting a byte with `02x` gives back its two digits in lower case |
| IconConverter.Expand | extras/icon_converter.py:10-12 | `#abc` becomes `#aabbcc`: each digit written twice |
| IconConverter.Full | extras/icon_converter.py:9-12 | a colour in either form becomes seven characters, and a long colour is kept as it is |
| IconConverter.Rgb | extras/icon_converter.py:14 | three bytes are written as `#` and six lower-case digits whose channels read back as those bytes |
| IconConverter.RgbOfChannels | extras/icon_converter.py:14 | writing a long colour's channels back gives the colour in lower case |
| IconConverter.InvertColor | extras/icon_converter.py:8-16 | a colour becomes `#` and six lower-case digits, each channel `255` minus the original's; any other text is returned unchanged |
| IconConverter.InvertLongIsRgb | extras/icon_converter.py:14 | inverting a long colour writes the complemented channels |
| IconConverter.InvertTwiceLong | extras/icon_converter.py:14 | inverting a long colour twice gives it back in lower case |
| IconConverter.InvertAsFull | extras/icon_converter.py:10-12 | inverting a short colour is inverting its expanded form |
| IconConverter.InvertTwice | extras/icon_converter.py:8-16 | inverting twice gives the colour expanded and in lower case |
| IconConverter.InvertChanges | extras/icon_converter.py:8-16 | inversion always changes a colour |
| IconConverter.InvertWhite | extras/icon_converter.py:8-16 | `#fff` becomes `#000000` |
| IconConverter.InvertMixedCase | extras/icon_converter.py:8-16 | `#1A2b3C` becomes `#e5d4c3` |
| IconConverter.InvertFourDigits | extras/icon_converter.py:8-16 | `#abcd` is returned unchanged |
| IconConverter.HexRun | extras/icon_converter.py:24 | the greedy `{3,6}` repetition takes at most its cap and stays in the text |
| IconConverter.HexRunSpec | extras/icon_converter.py:24 | the repetition takes only hex digits and stops at the cap, the end of the text or a non-hex character |
| IconConverter.HexRunAtLeast | extras/icon_converter.py:24 | the repetition takes at least every hex digit available up to the cap |
| IconConverter.MatchLen | extras/icon_converter.py:24 | a match of `#([a-fA-F0-9]{3,6})` is 4 to 7 characters long and inside the text |
| IconConverter.MatchLenSpec | extras/icon_converter.py:24 | there is a match exactly at a `#` followed by three hex digits; it is `#` and hex digits, as long as possible up to six |
| IconConverter.Step | extras/icon_converter.py:25-27 | the substitution moves forward by at least one character each time |
| IconConverter.FirstIsMatch | extras/icon_converter.py:24-27 | the first token is a colour exactly when a match starts there, and it is the text it covers |
| IconConverter.Tokens | extras/icon_converter.py:25-27 | the scan cuts the text into at most one token per character, and into none exactly for the empty text |
| IconConverter.TokensAreMatches | extras/icon_converter.py:24-27 | every colour token is `#` and three to six hex digits |
| IconConverter.TokensCover | extras/icon_converter.py:25-27 | the tokens spell the input exactly: matches and the text between them, in order |
| IconConverter.Render | extras/icon_converter.py:25-27 | a replacement is never shorter than its token's text, and differs from it exactly when the token is a 3- or 6-digit colour |
| IconConverter.InvertSvgColors | extras/icon_converter.py:24-27 | the substitution never shortens the text |
| IconConverter.RenderLonger | extras/icon_converter.py:25-27 | the replacements of the tokens, joined, are at least as long as the text the tokens spell |
| IconConverter.InvertSvgIdentity | extras/icon_converter.py:25-27 | the substitution leaves the text unchanged exactly when no match has three or six digits |
| IconConverter.GreedyLongRunTokens | extras/icon_converter.py:24-27 | `#` and eight hex digits is one six-digit match and two plain characters |
| IconConverter.GreedyLongRun | extras/icon_converter.py:24-27 | of `#` and eight hex digits, the first seven characters are inverted and the last two copied |
| IconConverter.MiddleLengthsKept | extras/icon_converter.py:24-27 | `#` and four or five hex digits is one match and is left unchanged |

## Left out

- The Qt widgets themselves are not modelled: painting, the current-line highlight, the line-number painting, resizing, scrolling and cursor movement after an insertion. `LineNumberArea` is also left out.
- Font metrics become a parameter: `GutterWidth` takes the glyph advance of `'9'` as a number.
- `set_font` also changes the font of the line-number area for sizes 7 to 19. That only affects drawing and is not modelled, and neither is its `print`.
- File reads and writes, and the open/save dialogs, become parameters and results. A read failure, a write failure, and reading the SVG file are not modelled.
- `run_code`, `load_stylesheet`, the tab context menu, detaching a tab (`tab_detached`, `DetachedTabWindow`) and `close_tab` are not modelled. Re-attaching is modelled from the editor handed back.
- `process_svg_folder` and the hard-coded folders of the icon converter are not modelled: they are directory listing and I/O.
- The `try`/`except` around the re-attach title is not modelled. It cannot fire on a string path.
- Text.IsWordChar: `\w` and `\b` are taken as ASCII letters, digits and `_`. Python's are Unicode-aware, so non-ASCII letters are treated as non-word characters here.
- HighlightCells.HighlightMatchesExpected: stated for blocks without `'\n'`, which is what Qt hands the highlighter. With a newline in the text, the comment would stop there. Offsets are code points, as Python's `re` counts them; `setFormat` counts UTF-16 units, so after a character outside the Basic Multilingual Plane (an emoji, say) the real formats land one unit earlier per such character. The model does not promise that shift.
- HighlightCells.HighlightWhole: the same restrictions as `HighlightMatchesExpected`: no `'\n'`, and code-point offsets.
- Patterns.MatchAt: its contract states bounds only. What each pattern matches is stated by separate lemmas: `WholeWordMatchIsRun`, `CallMatchIsRun`, `MemberMatchIsRun`, `LiteralMatchChar`, `QuotedMatchShape`, `BracedMatchShape` and `CommentScan`.
- IconConverter.InvertColor: requires hex digits after the `#` for the two shapes it inverts. On other text Python's `int(..., 16)` would raise or accept a sign or whitespace. The substitution only ever passes it `#` and hex digits (`TokensAreMatches`).
- IconConverter.Render: a colour token always holds a match; its guard only makes the function total.
- EditorState.LoadContent: the model's text is what `toPlainText()` returns, taken to be the loaded content itself. Qt turns U+00A0 into a space and `'\r'`, U+2028 and U+2029 into `'\n'`, so for content holding those characters the source reports the editor as modified right after loading. The model does not cover that normalisation.
- MainWindow.OpenFile: for the same reason, the opened tab's text equals the file's data only for data without U+00A0, `'\r'`, U+2028 or U+2029. A later save writes the normalised text, and the model does not cover that.
- EditPolicy.KeyPress: assumes no selection. With a selection, Tab and Return replace the selected text through `insertText`.
- EditPolicy.KeyPress: one column `col` stands for both `positionInBlock()` (Return's block test) and `columnNumber()` (the indentation). They differ only on a wrapped line, where `columnNumber()` counts from the start of the visual line.
- MainWindow.SelectTab: dragging tabs into a new order (`setMovable(True)`) is not modelled. Tabs keep the order they were added in.
- The substitution's locality on concatenated texts (substituting in two halves) is not stated. A match can straddle the seam, so it only holds at seams no match crosses.
