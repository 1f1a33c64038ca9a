/**
 The colour inverter used to derive light icons from dark ones: every hex
 colour `#rgb` or `#rrggbb` in an SVG text becomes its complement, written as
 seven lower-case characters. Colours are found by a greedy, non-overlapping,
 left-to-right search for `#` followed by three to six hex digits.
 */
module IconConverter {

  predicate IsHexDigit(c: char) {
    ('0' <= c <= '9') || ('a' <= c <= 'f') || ('A' <= c <= 'F')
  }

  predicate IsLowerHexDigit(c: char) {
    ('0' <= c <= '9') || ('a' <= c <= 'f')
  }

  /** Every character after the first is a hex digit. */
  predicate HexAfterHash(c: string) {
    forall k :: 1 <= k < |c| ==> IsHexDigit(c[k])
  }

  /** The value of one hex digit, either case. */
  function HexVal(c: char): (v: nat)
    requires IsHexDigit(c)
    ensures v < 16
  {
    if '0' <= c <= '9' then (c as int - '0' as int) as nat
    else if 'a' <= c <= 'f' then (c as int - 'a' as int + 10) as nat
    else (c as int - 'A' as int + 10) as nat
  }

  /** The lower-case digit for a value below 16. */
  function HexChar(d: nat): (c: char)
    requires d < 16
    ensures IsLowerHexDigit(c) && IsHexDigit(c) && HexVal(c) == d
  {
    if d < 10 then ('0' as int + d) as char else ('a' as int + d - 10) as char
  }

  /** The lower-case form of a character: `A`..`F` become `a`..`f`, anything else stays. */
  function LowerChar(c: char): (r: char)
    ensures IsHexDigit(c) ==> IsLowerHexDigit(r) && HexVal(r) == HexVal(c)
    ensures !('A' <= c <= 'F') ==> r == c
  {
    if 'A' <= c <= 'F' then (c as int - 'A' as int + 'a' as int) as char else c
  }

  function Lower(s: string): (r: string)
    ensures |r| == |s|
    ensures forall i :: 0 <= i < |s| ==> r[i] == LowerChar(s[i])
  {
    seq(|s|, i requires 0 <= i < |s| => LowerChar(s[i]))
  }

  /** Two hex digits read as a byte, as `int(hi + lo, 16)` does. */
  function Byte(hi: char, lo: char): (v: nat)
    requires IsHexDigit(hi) && IsHexDigit(lo)
    ensures v < 256
  {
    16 * HexVal(hi) + HexVal(lo)
  }

  /** Formatting a byte as `%02x` gives its two digits back, in lower case. */
  lemma ByteDigits(hi: char, lo: char)
    requires IsHexDigit(hi) && IsHexDigit(lo)
    ensures HexChar(Byte(hi, lo) / 16) == LowerChar(hi) && HexChar(Byte(hi, lo) % 16) == LowerChar(lo)
  {
    assert Byte(hi, lo) / 16 == HexVal(hi) && Byte(hi, lo) % 16 == HexVal(lo);
    HexCharVal(hi);
    HexCharVal(lo);
  }

  lemma HexCharVal(c: char)
    requires IsHexDigit(c)
    ensures HexChar(HexVal(c)) == LowerChar(c)
  {
  }

  /** The shapes the inverter converts: `#` and then three or six more characters. */
  predicate ColorShaped(c: string) {
    (|c| == 4 || |c| == 7) && c[0] == '#'
  }

  /** The short form `#rgb` written out as `#rrggbb`. */
  function Expand(c: string): (r: string)
    requires |c| == 4
    ensures |r| == 7 && r[0] == '#'
    ensures forall j :: 0 <= j < 3 ==> r[1 + 2 * j] == c[1 + j] && r[2 + 2 * j] == c[1 + j]
  {
    ['#', c[1], c[1], c[2], c[2], c[3], c[3]]
  }

  /** A convertible colour in its six-digit form. */
  function Full(c: string): (r: string)
    requires ColorShaped(c) && HexAfterHash(c)
    ensures |r| == 7 && r[0] == '#' && HexAfterHash(r)
    ensures |c| == 7 ==> r == c
  {
    if |c| == 4 then Expand(c) else c
  }

  /** Channel `j` (0 red, 1 green, 2 blue) of a six-digit colour. */
  function Channel(c: string, j: nat): (v: nat)
    requires |c| == 7 && HexAfterHash(c) && j < 3
    ensures v < 256
  {
    Byte(c[1 + 2 * j], c[2 + 2 * j])
  }

  /** A six-digit colour from its three channels, each formatted as `%02x`. */
  function Rgb(red: nat, green: nat, blue: nat): (r: string)
    requires red < 256 && green < 256 && blue < 256
    ensures |r| == 7 && r[0] == '#' && HexAfterHash(r)
    ensures forall k :: 1 <= k < 7 ==> IsLowerHexDigit(r[k])
    ensures Channel(r, 0) == red && Channel(r, 1) == green && Channel(r, 2) == blue
  {
    ['#', HexChar(red / 16), HexChar(red % 16), HexChar(green / 16), HexChar(green % 16),
     HexChar(blue / 16), HexChar(blue % 16)]
  }

  /** Formatting the channels of a six-digit colour gives the colour back in lower case. */
  lemma RgbOfChannels(c: string)
    requires |c| == 7 && c[0] == '#' && HexAfterHash(c)
    ensures Rgb(Channel(c, 0), Channel(c, 1), Channel(c, 2)) == Lower(c)
  {
    ByteDigits(c[1], c[2]);
    ByteDigits(c[3], c[4]);
    ByteDigits(c[5], c[6]);
  }

  /**
   The complement of a colour. `#` with three or six hex digits becomes `#`
   and six lower-case digits, each channel `v` becoming `255 - v`, the short
   form being expanded first; any other string comes back unchanged.
   */
  function InvertColor(c: string): (r: string)
    requires ColorShaped(c) ==> HexAfterHash(c)
    ensures !ColorShaped(c) ==> r == c
    ensures ColorShaped(c) ==> |r| == 7 && r[0] == '#' && HexAfterHash(r)
    ensures ColorShaped(c) ==> forall k :: 1 <= k < 7 ==> IsLowerHexDigit(r[k])
    ensures ColorShaped(c) ==> Channel(r, 0) == 255 - Channel(Full(c), 0)
                                && Channel(r, 1) == 255 - Channel(Full(c), 1)
                                && Channel(r, 2) == 255 - Channel(Full(c), 2)
  {
    if ColorShaped(c) then
      var f := Full(c);
      Rgb(255 - Channel(f, 0), 255 - Channel(f, 1), 255 - Channel(f, 2))
    else c
  }

  /** On the six-digit form, inverting twice is the identity up to case. */
  lemma InvertTwiceLong(c: string)
    requires |c| == 7 && c[0] == '#' && HexAfterHash(c)
    ensures InvertColor(InvertColor(c)) == Lower(c)
  {
    InvertLongIsRgb(c);
    var r := InvertColor(c);
    InvertLongIsRgb(r);
    RgbOfChannels(c);
  }

  /** A six-digit colour is inverted channel by channel. */
  lemma InvertLongIsRgb(c: string)
    requires |c| == 7 && c[0] == '#' && HexAfterHash(c)
    ensures InvertColor(c) == Rgb(255 - Channel(c, 0), 255 - Channel(c, 1), 255 - Channel(c, 2))
  {
    assert ColorShaped(c) && Full(c) == c;
  }

  /** The short form is inverted as its expansion. */
  lemma InvertAsFull(c: string)
    requires ColorShaped(c) && HexAfterHash(c)
    ensures InvertColor(c) == InvertColor(Full(c))
  {
    var f := Full(c);
    assert Full(f) == f;
    assert InvertColor(f) == Rgb(255 - Channel(f, 0), 255 - Channel(f, 1), 255 - Channel(f, 2));
    assert InvertColor(c) == Rgb(255 - Channel(f, 0), 255 - Channel(f, 1), 255 - Channel(f, 2));
  }

  /** Inverting twice gives the six-digit form back, in lower case. */
  lemma InvertTwice(c: string)
    requires ColorShaped(c) && HexAfterHash(c)
    ensures InvertColor(InvertColor(c)) == Lower(Full(c))
  {
    InvertAsFull(c);
    InvertTwiceLong(Full(c));
  }

  /** White in the short form becomes black in the long form. */
  lemma InvertWhite()
    ensures InvertColor("#fff") == "#000000"
  {
    assert Full("#fff") == "#ffffff";
    assert Channel("#ffffff", 0) == 255 && Channel("#ffffff", 1) == 255 && Channel("#ffffff", 2) == 255;
  }

  /** Mixed case comes out in lower case, each byte complemented. */
  lemma InvertMixedCase()
    ensures InvertColor("#1A2b3C") == "#e5d4c3"
  {
    var c := "#1A2b3C";
    assert HexAfterHash(c);
    assert Channel(c, 0) == 26 && Channel(c, 1) == 43 && Channel(c, 2) == 60;
    InvertLongIsRgb(c);
    assert Rgb(229, 212, 195) == "#e5d4c3";
  }

  /** Four digits are not a colour shape: the string is returned as it is. */
  lemma InvertFourDigits()
    ensures InvertColor("#abcd") == "#abcd"
  {
  }

  // ---- The substitution ----

  /** How many hex digits, at most `cap`, follow from position `i` on (`HexRunSpec` states it). */
  function HexRun(s: string, i: nat, cap: nat): (n: nat)
    requires i <= |s|
    ensures n <= cap && i + n <= |s|
    decreases cap
  {
    if cap == 0 || i == |s| || !IsHexDigit(s[i]) then 0 else 1 + HexRun(s, i + 1, cap - 1)
  }

  /** The run is all hex digits and as long as it can be: it stops only at the cap, the end, or a non-digit. */
  lemma {:induction false} HexRunSpec(s: string, i: nat, cap: nat)
    requires i <= |s|
    ensures forall j :: i <= j < i + HexRun(s, i, cap) ==> IsHexDigit(s[j])
    ensures var n := HexRun(s, i, cap); n == cap || i + n == |s| || !IsHexDigit(s[i + n])
    decreases cap
  {
    if cap > 0 && i < |s| && IsHexDigit(s[i]) {
      HexRunSpec(s, i + 1, cap - 1);
    }
  }

  /**
   The length of the match of `#[a-fA-F0-9]{3,6}` at position `i`, or 0 when
   there is none: `#`, then as many hex digits as there are, up to six, and at
   least three.
   */
  function MatchLen(s: string, i: nat): (m: nat)
    requires i < |s|
    ensures m == 0 || (4 <= m <= 7 && i + m <= |s|)
  {
    if s[i] == '#' then
      var h := HexRun(s, i + 1, 6);
      if h >= 3 then 1 + h else 0
    else 0
  }

  /**
   A match is `#` and then hex digits, as many as there are up to six; there is
   one exactly when `#` is followed by at least three hex digits.
   */
  lemma MatchLenSpec(s: string, i: nat)
    requires i < |s|
    ensures var m := MatchLen(s, i);
            m == 0 || (s[i] == '#' && (forall j :: i < j < i + m ==> IsHexDigit(s[j]))
                       && (m == 7 || i + m == |s| || !IsHexDigit(s[i + m])))
    ensures MatchLen(s, i) == 0 <==>
              (s[i] != '#' || i + 3 >= |s| || !IsHexDigit(s[i + 1]) || !IsHexDigit(s[i + 2]) || !IsHexDigit(s[i + 3]))
  {
    if i + 1 <= |s| {
      HexRunSpec(s, i + 1, 6);
      if s[i] == '#' && i + 3 < |s| && IsHexDigit(s[i + 1]) && IsHexDigit(s[i + 2]) && IsHexDigit(s[i + 3]) {
        HexRunAtLeast(s, i + 1, 6, 3);
      }
    }
  }

  /** A run of `k` digits within the cap is found in full. */
  lemma {:induction false} HexRunAtLeast(s: string, i: nat, cap: nat, k: nat)
    requires i + k <= |s| && k <= cap
    requires forall j :: i <= j < i + k ==> IsHexDigit(s[j])
    ensures HexRun(s, i, cap) >= k
    decreases k
  {
    if k > 0 {
      HexRunAtLeast(s, i + 1, cap - 1, k - 1);
    }
  }

  /** A rewritten match never comes back as itself: a channel `v` cannot equal `255 - v`. */
  lemma InvertChanges(c: string)
    requires ColorShaped(c) && HexAfterHash(c)
    ensures InvertColor(c) != c
  {
    if |c| == 7 {
      assert Full(c) == c;
    }
  }

  /** A piece of the SVG text: a match of the colour pattern, or one character between matches. */
  datatype Token = Color(text: string) | Plain(ch: char)

  /** The text of a match: `#` and three to six hex digits. */
  predicate IsMatchText(c: string) {
    4 <= |c| <= 7 && c[0] == '#' && HexAfterHash(c)
  }

  /** How far the scan moves at the start of `s`: past the match there, or one character. */
  function Step(s: string): (n: nat)
    requires s != []
    ensures 0 < n <= |s|
  {
    var m := MatchLen(s, 0);
    if m > 0 then m else 1
  }

  /** The token the scan takes at the start of `s`: the whole match there, or the one character. */
  function First(s: string): (t: Token)
    requires s != []
  {
    if MatchLen(s, 0) > 0 then Color(s[..Step(s)]) else Plain(s[0])
  }

  /**
   The text cut the way the substitution scans it: at each position a match
   is taken whole when there is one, otherwise one character is passed over.
   */
  function Tokens(s: string): (ts: seq<Token>)
    ensures |ts| <= |s|
    ensures ts == [] <==> s == []
    decreases |s|
  {
    if s == [] then [] else [First(s)] + Tokens(s[Step(s)..])
  }

  /** The pieces produced by `f` for each token, joined. */
  function Join(f: Token -> string, ts: seq<Token>): (r: string) {
    if ts == [] then [] else f(ts[0]) + Join(f, ts[1..])
  }

  /** The original text of a token. */
  function Source(t: Token): (r: string) {
    match t
    case Color(c) => c
    case Plain(ch) => [ch]
  }

  /**
   The replacement for one token: a match is inverted, a plain character is
   copied. A `Color` token always holds a match text (`TokensAreMatches`); the
   guard only makes the function total.
   */
  function Render(t: Token): (r: string)
    ensures |r| >= |Source(t)|
    ensures r == Source(t) <==> !Recolors(t)
  {
    match t
    case Color(c) =>
      if IsMatchText(c) then
        if ColorShaped(c) then InvertChanges(c); InvertColor(c) else InvertColor(c)
      else c
    case Plain(ch) => [ch]
  }

  /** The regex substitution over the whole SVG text: it never shortens the text. */
  function InvertSvgColors(s: string): (r: string)
    ensures |r| >= |s|
  {
    RenderLonger(s);
    Join(Render, Tokens(s))
  }

  /** The first token is the match at the start when there is one, and otherwise the first character. */
  lemma FirstIsMatch(s: string)
    requires s != []
    ensures First(s).Color? <==> MatchLen(s, 0) > 0
    ensures First(s).Color? ==> IsMatchText(First(s).text)
    ensures Source(First(s)) == s[..Step(s)]
  {
    MatchLenSpec(s, 0);
    var m := MatchLen(s, 0);
    if m > 0 {
      var c := s[..m];
      assert forall k :: 1 <= k < |c| ==> c[k] == s[k];
    }
  }

  /** The tokens of a non-empty text: its first token, then those of the rest. */
  lemma TokensStep(s: string)
    requires s != []
    ensures Tokens(s) == [First(s)] + Tokens(s[Step(s)..])
  {
  }

  lemma JoinStep(f: Token -> string, ts: seq<Token>)
    requires ts != []
    ensures Join(f, ts) == f(ts[0]) + Join(f, ts[1..])
  {
  }

  /** The scan only ever produces match texts as colours. */
  lemma {:induction false} TokensAreMatches(s: string)
    ensures forall k :: 0 <= k < |Tokens(s)| && Tokens(s)[k].Color? ==> IsMatchText(Tokens(s)[k].text)
    decreases |s|
  {
    if s != [] {
      FirstIsMatch(s);
      var rest := s[Step(s)..];
      TokensAreMatches(rest);
      TokensStep(s);
      var ts := Tokens(s);
      assert forall k :: 1 <= k < |ts| ==> ts[k] == Tokens(rest)[k - 1];
    }
  }

  /** The cut loses nothing and adds nothing: the tokens spell the text. */
  lemma {:induction false} TokensCover(s: string)
    ensures Join(Source, Tokens(s)) == s
    decreases |s|
  {
    if s != [] {
      var n := Step(s);
      CoverStep(s);
      TokensCover(s[n..]);
      assert s == s[..n] + s[n..];
    }
  }

  lemma CoverStep(s: string)
    requires s != []
    ensures Join(Source, Tokens(s)) == s[..Step(s)] + Join(Source, Tokens(s[Step(s)..]))
  {
    FirstIsMatch(s);
    TokensStep(s);
    JoinStep(Source, Tokens(s));
  }

  /** A token that the inversion rewrites: a match of three or six digits. */
  predicate Recolors(t: Token) {
    t.Color? && IsMatchText(t.text) && ColorShaped(t.text)
  }

  /** Joining pieces that are each at least as long never gives a shorter text. */
  lemma {:induction false} JoinLonger(f: Token -> string, g: Token -> string, ts: seq<Token>)
    requires forall k :: 0 <= k < |ts| ==> |f(ts[k])| >= |g(ts[k])|
    ensures |Join(f, ts)| >= |Join(g, ts)|
  {
    if ts != [] {
      JoinLonger(f, g, ts[1..]);
    }
  }

  /** Two joined pieces, each at least as long as its counterpart, are equal exactly when the pieces are. */
  lemma ConcatEq(x: string, y: string, x': string, y': string)
    requires |x| >= |x'| && |y| >= |y'|
    ensures x + y == x' + y' <==> x == x' && y == y'
  {
    if x + y == x' + y' {
      assert x == (x + y)[..|x|] && x' == (x' + y')[..|x'|];
      assert y == (x + y)[|x|..] && y' == (x' + y')[|x'|..];
    }
  }

  /** When each piece of `f` is at least as long as that of `g`, the joins agree exactly when every piece does. */
  lemma {:induction false} JoinSame(f: Token -> string, g: Token -> string, ts: seq<Token>)
    requires forall k :: 0 <= k < |ts| ==> |f(ts[k])| >= |g(ts[k])|
    ensures Join(f, ts) == Join(g, ts) <==> forall k :: 0 <= k < |ts| ==> f(ts[k]) == g(ts[k])
  {
    if ts != [] {
      var rest := ts[1..];
      JoinSame(f, g, rest);
      JoinLonger(f, g, rest);
      ConcatEq(f(ts[0]), Join(f, rest), g(ts[0]), Join(g, rest));
      assert forall k :: 1 <= k < |ts| ==> ts[k] == rest[k - 1];
    }
  }

  /** The replacements of the tokens, joined, are never shorter than the text the tokens spell. */
  lemma RenderLonger(s: string)
    ensures |Join(Render, Tokens(s))| >= |s|
  {
    JoinLonger(Render, Source, Tokens(s));
    TokensCover(s);
  }

  /**
   The text comes back unchanged exactly when none of its matches has three or
   six digits: matches of four or five digits are found but kept as they are.
   */
  lemma InvertSvgIdentity(s: string)
    ensures InvertSvgColors(s) == s <==> forall k :: 0 <= k < |Tokens(s)| ==> !Recolors(Tokens(s)[k])
  {
    var ts := Tokens(s);
    JoinSame(Render, Source, ts);
    TokensCover(s);
  }

  /** Greedy matching: of `#` and eight hex digits, the first six form one match and the last two are passed over. */
  lemma GreedyLongRunTokens(s: string)
    requires |s| == 9 && s[0] == '#' && HexAfterHash(s)
    ensures Tokens(s) == [Color(s[..7]), Plain(s[7]), Plain(s[8])]
  {
    HexRunAtLeast(s, 1, 6, 6);
    assert MatchLen(s, 0) == 7;
    var r := s[7..];
    assert MatchLen(r, 0) == 0 && MatchLen(r[1..], 0) == 0;
    assert Tokens(r[1..][1..]) == [];
    assert Tokens(r[1..]) == [Plain(s[8])];
    assert Tokens(r) == [Plain(s[7]), Plain(s[8])];
  }

  /** So the first six digits are inverted and the last two stay. */
  lemma GreedyLongRun(s: string)
    requires |s| == 9 && s[0] == '#' && HexAfterHash(s)
    ensures InvertSvgColors(s) == InvertColor(s[..7]) + s[7..]
  {
    GreedyLongRunTokens(s);
    FirstIsMatch(s);
    var ts := Tokens(s);
    assert IsMatchText(s[..7]);
    assert Join(Render, ts[2..]) == [s[8]];
    assert Join(Render, ts[1..]) == [s[7]] + [s[8]];
    assert s[7..] == [s[7]] + [s[8]];
  }

  /** Four or five digits are matched but come back unchanged. */
  lemma MiddleLengthsKept(s: string)
    requires (|s| == 5 || |s| == 6) && s[0] == '#' && HexAfterHash(s)
    ensures Tokens(s) == [Color(s)]
    ensures InvertSvgColors(s) == s
  {
    HexRunAtLeast(s, 1, 6, |s| - 1);
    assert MatchLen(s, 0) == |s|;
    assert s[..|s|] == s && s[|s|..] == [];
    FirstIsMatch(s);
    var ts := Tokens(s);
    assert ts[1..] == [] && Join(Render, ts[1..]) == [];
    assert ts[0] == Color(s) && IsMatchText(s) && !ColorShaped(s);
    assert Render(ts[0]) == s;
    assert Join(Render, ts) == s + [];
  }
}
