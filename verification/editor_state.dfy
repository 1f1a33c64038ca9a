/**
 The state an editor tab keeps besides its text widget: the font size with its
 Ctrl+wheel zoom, the width of the line-number gutter, and dirty tracking
 against the content last loaded or saved.
 */
module EditorState {

  /** The font size an editor starts with (the configuration default). */
  const DefaultFontSize: int := 16

  /** Sizes the editor accepts: strictly between 0 and 100. */
  predicate FontOk(n: int) {
    0 < n < 100
  }

  /** One editor tab: its file path (empty when it has none), current text, last loaded or saved text, and font size. */
  datatype Editor = Editor(path: string, text: string, original: string, fontSize: int)

  /** A fresh editor: empty text, nothing to save, the default font size. */
  function NewEditor(path: string): (e: Editor)
    ensures e.path == path && e.text == [] && !IsModified(e) && e.fontSize == DefaultFontSize && FontOk(e.fontSize)
  {
    Editor(path, [], [], DefaultFontSize)
  }

  // ---- Font size and zoom ----

  /** The font size request: taken when acceptable, ignored otherwise. */
  function SetFont(e: Editor, n: int): (r: Editor)
    ensures r.path == e.path && r.text == e.text && r.original == e.original
    ensures FontOk(n) ==> r.fontSize == n
    ensures !FontOk(n) ==> r == e
  {
    if 0 < n && n < 100 then e.(fontSize := n) else e
  }

  /**
   A wheel event. With exactly the Ctrl modifier, a positive vertical delta
   asks for a font two points larger, a negative one for two points smaller,
   and a zero delta for the same size; otherwise the event scrolls the view,
   which leaves this state alone.
   */
  function Wheel(e: Editor, ctrlOnly: bool, delta: int): (r: Editor)
    ensures r.path == e.path && r.text == e.text && r.original == e.original
    ensures FontOk(e.fontSize) ==> FontOk(r.fontSize)
    ensures r.fontSize == e.fontSize || (ctrlOnly && delta != 0 && (r.fontSize - e.fontSize == 2 || e.fontSize - r.fontSize == 2))
    ensures ctrlOnly && delta > 0 && FontOk(e.fontSize + 2) ==> r.fontSize == e.fontSize + 2
    ensures ctrlOnly && delta < 0 && FontOk(e.fontSize - 2) ==> r.fontSize == e.fontSize - 2
    ensures !ctrlOnly || delta == 0 ==> r == e
  {
    if ctrlOnly then
      var n := if delta > 0 then e.fontSize + 2 else if delta < 0 then e.fontSize - 2 else e.fontSize;
      SetFont(e, n)
    else e
  }

  /** Zooming in and then out gives the editor back, unless the first step hits the upper bound. */
  lemma WheelUpThenDown(e: Editor, up: int, down: int)
    requires 1 <= e.fontSize <= 97 && up > 0 && down < 0
    ensures Wheel(Wheel(e, true, up), true, down) == e
  {
  }

  /** Zooming out and then in gives the editor back, unless the first step hits the lower bound. */
  lemma WheelDownThenUp(e: Editor, up: int, down: int)
    requires 3 <= e.fontSize <= 99 && up > 0 && down < 0
    ensures Wheel(Wheel(e, true, down), true, up) == e
  {
  }

  /** A step that would leave 1..99 changes nothing. */
  lemma WheelAtBounds(e: Editor, delta: int)
    requires FontOk(e.fontSize)
    requires (delta > 0 && e.fontSize >= 98) || (delta < 0 && e.fontSize <= 2)
    ensures Wheel(e, true, delta) == e
  {
  }

  /** A sequence of wheel events, each as (exactly Ctrl held, vertical delta). */
  function WheelAll(e: Editor, events: seq<(bool, int)>): (r: Editor)
    ensures r.path == e.path && r.text == e.text && r.original == e.original
    decreases |events|
  {
    if events == [] then e
    else WheelAll(Wheel(e, events[0].0, events[0].1), events[1..])
  }

  /** Starting from the default size, zooming only ever reaches even sizes from 2 to 98. */
  lemma {:induction false} WheelAllEven(e: Editor, events: seq<(bool, int)>)
    requires e.fontSize % 2 == 0 && 2 <= e.fontSize <= 98
    ensures var r := WheelAll(e, events);
            r.fontSize % 2 == 0 && 2 <= r.fontSize <= 98
    decreases |events|
  {
    if events != [] {
      WheelAllEven(Wheel(e, events[0].0, events[0].1), events[1..]);
    }
  }

  lemma DefaultZoomLevels(path: string, events: seq<(bool, int)>)
    ensures var r := WheelAll(NewEditor(path), events);
            r.fontSize % 2 == 0 && 2 <= r.fontSize <= 98
  {
    WheelAllEven(NewEditor(path), events);
  }

  // ---- Line-number gutter ----

  function Pow10(d: nat): (r: nat)
    ensures r >= 1
  {
    if d == 0 then 1 else 10 * Pow10(d - 1)
  }

  function DigitChar(d: nat): (c: char)
    requires d < 10
  {
    "0123456789"[d]
  }

  function DigitValue(c: char): (v: nat)
    ensures v < 10
  {
    if '0' <= c <= '9' then (c as int - '0' as int) as nat else 0
  }

  /** Python's `str(n)` for a natural number: its decimal digits, most significant first. */
  function DecimalString(n: nat): (s: string)
    ensures |s| >= 1
    ensures forall i :: 0 <= i < |s| ==> '0' <= s[i] <= '9'
    ensures |s| > 1 ==> s[0] != '0'
  {
    if n < 10 then [DigitChar(n)] else DecimalString(n / 10) + [DigitChar(n % 10)]
  }

  /** Reads a string of decimal digits back as a number. */
  function ParseDecimal(s: string): (n: nat)
    decreases |s|
  {
    if s == [] then 0 else 10 * ParseDecimal(s[..|s| - 1]) + DigitValue(s[|s| - 1])
  }

  /** Reading the decimal string back gives the number. */
  lemma {:induction false} DecimalRoundTrip(n: nat)
    ensures ParseDecimal(DecimalString(n)) == n
    decreases n
  {
    var s := DecimalString(n);
    DigitRoundTrip(n % 10);
    if n >= 10 {
      DecimalRoundTrip(n / 10);
      assert s[..|s| - 1] == DecimalString(n / 10);
    }
  }

  lemma DigitRoundTrip(d: nat)
    requires d < 10
    ensures DigitValue(DigitChar(d)) == d
  {
  }

  /** A number has `d` decimal digits exactly when it lies in `[10^(d-1), 10^d)`. */
  lemma {:induction false} DecimalLength(n: nat, d: nat)
    requires 1 <= d && n >= 1
    ensures |DecimalString(n)| == d <==> Pow10(d - 1) <= n < Pow10(d)
    decreases n
  {
    if n >= 10 {
      if d >= 2 {
        DecimalLength(n / 10, d - 1);
      } else {
        DecimalLength(n / 10, 1);
      }
    }
  }

  /** Digits of the largest line number: `len(str(max(1, blockCount)))`. */
  function LineDigits(blockCount: int): (d: nat)
    ensures d >= 1
  {
    |DecimalString(if blockCount < 1 then 1 else blockCount)|
  }

  /**
   Gutter width in pixels for a digit glyph `advance` pixels wide: a margin of
   6, one glyph per digit of the largest line number, and the font size capped
   at 20.
   */
  function GutterWidth(advance: nat, blockCount: int, fontSize: int): (w: int)
    ensures FontOk(fontSize) ==>
              7 + advance * LineDigits(blockCount) <= w <= 26 + advance * LineDigits(blockCount)
  {
    6 + advance * LineDigits(blockCount) + (if fontSize <= 20 then fontSize else 20)
  }

  /**
   The font term of the gutter: one pixel more per point of font size up to
   20, and nothing more beyond; with no font term the gutter is the margin and
   the digits.
   */
  lemma GutterFontTerm(advance: nat, blockCount: int, fontSize: int)
    ensures GutterWidth(advance, blockCount, 0) == 6 + advance * LineDigits(blockCount)
    ensures fontSize < 20 ==> GutterWidth(advance, blockCount, fontSize + 1) == GutterWidth(advance, blockCount, fontSize) + 1
    ensures fontSize >= 20 ==> GutterWidth(advance, blockCount, fontSize) == GutterWidth(advance, blockCount, 20)
  {
  }

  /** More lines never need fewer digits. */
  lemma {:induction false} LineDigitsMonotone(a: int, b: int)
    requires a <= b
    ensures LineDigits(a) <= LineDigits(b)
    decreases if b < 1 then 0 else b
  {
    var a' := if a < 1 then 1 else a;
    var b' := if b < 1 then 1 else b;
    if a' >= 10 {
      LineDigitsMonotone(a' / 10, b' / 10);
    }
  }

  /** The gutter never shrinks as lines are added, whatever the glyph width and font size. */
  lemma GutterMonotone(advance: nat, a: int, b: int, fontSize: int)
    requires a <= b
    ensures GutterWidth(advance, a, fontSize) <= GutterWidth(advance, b, fontSize)
  {
    LineDigitsMonotone(a, b);
  }

  /** Going from `10^d - 1` to `10^d` lines widens the gutter by exactly one glyph. */
  lemma GutterStepAtPowerOfTen(advance: nat, d: nat, fontSize: int)
    requires d >= 1
    ensures LineDigits(Pow10(d) - 1) == d && LineDigits(Pow10(d)) == d + 1
    ensures GutterWidth(advance, Pow10(d), fontSize) == GutterWidth(advance, Pow10(d) - 1, fontSize) + advance
  {
    LineDigitsAtPowerOfTen(d);
    assert advance * (d + 1) == advance * d + advance;
  }

  lemma LineDigitsAtPowerOfTen(d: nat)
    requires d >= 1
    ensures LineDigits(Pow10(d) - 1) == d && LineDigits(Pow10(d)) == d + 1
  {
    DigitsBelowPower(d);
    DigitsAtPower(d);
  }

  lemma DigitsBelowPower(d: nat)
    requires d >= 1
    ensures LineDigits(Pow10(d) - 1) == d
  {
    var p := Pow10(d);
    PowerBounds(d);
    DecimalLength(p - 1, d);
    assert LineDigits(p - 1) == |DecimalString(p - 1)|;
  }

  lemma DigitsAtPower(d: nat)
    requires d >= 1
    ensures LineDigits(Pow10(d)) == d + 1
  {
    var p := Pow10(d);
    PowerBounds(d);
    DecimalLength(p, d + 1);
    assert LineDigits(p) == |DecimalString(p)|;
  }

  lemma PowerBounds(d: nat)
    requires d >= 1
    ensures 10 <= Pow10(d) && Pow10(d - 1) <= Pow10(d) - 1 && Pow10(d + 1) == 10 * Pow10(d)
  {
  }

  // ---- Dirty tracking ----

  /** Whether the text differs from what was last loaded or saved. */
  predicate IsModified(e: Editor) {
    e.text != e.original
  }

  /** Loads a file's content: it becomes both the text and the saved state. */
  function LoadContent(e: Editor, content: string): (r: Editor)
    ensures r.text == content && !IsModified(r)
    ensures r.path == e.path && r.fontSize == e.fontSize
  {
    e.(text := content, original := content)
  }

  /** The text changes (typing, pasting, or replacing the whole text); the saved state stays. */
  function SetText(e: Editor, t: string): (r: Editor)
    ensures r.text == t && r.original == e.original
    ensures r.path == e.path && r.fontSize == e.fontSize
  {
    e.(text := t)
  }

  /** The current text becomes the saved state. */
  function MarkAsSaved(e: Editor): (r: Editor)
    ensures r.text == e.text && !IsModified(r)
    ensures r.path == e.path && r.fontSize == e.fontSize
  {
    e.(original := e.text)
  }

  function SetFilePath(e: Editor, p: string): (r: Editor)
    ensures r.path == p && r.text == e.text && r.original == e.original && r.fontSize == e.fontSize
  {
    e.(path := p)
  }

  /** After an edit the editor is modified exactly when the new text differs from the saved one. */
  lemma EditModifiedIff(e: Editor, t: string)
    ensures IsModified(SetText(e, t)) <==> t != e.original
  {
  }

  /** Typing the saved text back makes the editor clean again, whatever happened in between. */
  lemma RevertIsClean(e: Editor, t: string)
    requires !IsModified(e)
    ensures !IsModified(SetText(SetText(e, t), e.text))
  {
  }

  /** Saving twice is saving once. */
  lemma MarkAsSavedIdempotent(e: Editor)
    ensures MarkAsSaved(MarkAsSaved(e)) == MarkAsSaved(e)
  {
  }
}
