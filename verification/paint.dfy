/**
 The format array a syntax highlighter fills for one block of text. Each
 `setFormat(start, count, format)` call is a `Span`; calls are applied in order
 and a later call overwrites an earlier one cell by cell (last writer wins).
 */
module Paint {
  import opened Text

  /** The seven formats the highlighter uses. */
  datatype Category =
    | Keyword
    | FunctionName
    | Attribute
    | Operator
    | StringLiteral
    | FStringVariable
    | Comment

  /** One `setFormat(start, count, format)` call. */
  datatype Span = Span(start: nat, len: nat, cat: Category)

  /** One optional format per character of the block. */
  type Cells = seq<Option<Category>>

  predicate Covers(s: Span, k: int) {
    s.start <= k < s.start + s.len
  }

  /** Some call of the batch covers cell `k`. */
  predicate Covered(spans: seq<Span>, k: int) {
    exists j :: 0 <= j < |spans| && Covers(spans[j], k)
  }

  /** Every call of the batch is non-empty, lies inside a block of `n` cells and uses one of `cats`. */
  predicate AllIn(spans: seq<Span>, n: nat, cats: set<Category>) {
    forall j :: 0 <= j < |spans| ==> spans[j].len > 0 && InLine(spans[j], n) && spans[j].cat in cats
  }

  /** Every call of the batch lies inside `[lo, hi)`. */
  predicate Within(spans: seq<Span>, lo: nat, hi: nat) {
    forall j :: 0 <= j < |spans| ==> lo <= spans[j].start && spans[j].start + spans[j].len <= hi
  }

  /** The span lies inside a block of `n` characters. */
  predicate InLine(s: Span, n: nat) {
    s.start + s.len <= n
  }

  /** The unformatted block of `n` cells. */
  function Blank(n: nat): (c: Cells)
    ensures |c| == n
    ensures forall k :: 0 <= k < n ==> c[k] == None
  {
    seq(n, _ => None)
  }

  /** One `setFormat` call: the covered cells take the span's category, the rest keep theirs. */
  function Paint(cells: Cells, s: Span): (r: Cells)
    ensures |r| == |cells|
    ensures forall k :: 0 <= k < |r| && Covers(s, k) ==> r[k] == Some(s.cat)
    ensures forall k :: 0 <= k < |r| && !Covers(s, k) ==> r[k] == cells[k]
  {
    seq(|cells|, k requires 0 <= k < |cells| => if Covers(s, k) then Some(s.cat) else cells[k])
  }

  /** The calls applied in order. */
  function PaintAll(cells: Cells, spans: seq<Span>): (r: Cells)
    ensures |r| == |cells|
    decreases |spans|
  {
    if spans == [] then cells
    else Paint(PaintAll(cells, spans[..|spans| - 1]), spans[|spans| - 1])
  }

  /** Every cell keeps its old value or takes the category of a call covering it. */
  lemma {:induction false} PaintAllOrigin(cells: Cells, spans: seq<Span>, k: nat)
    requires k < |cells|
    ensures var r := PaintAll(cells, spans);
            r[k] == cells[k] || exists j :: 0 <= j < |spans| && Covers(spans[j], k) && r[k] == Some(spans[j].cat)
    decreases |spans|
  {
    if spans != [] {
      var init := spans[..|spans| - 1];
      var last := spans[|spans| - 1];
      PaintAllOrigin(cells, init, k);
      if !Covers(last, k) && PaintAll(cells, init)[k] != cells[k] {
        var j :| 0 <= j < |init| && Covers(init[j], k) && PaintAll(cells, init)[k] == Some(init[j].cat);
        assert spans[j] == init[j];
      }
    }
  }

  /** A cell that no call covers keeps its value. */
  lemma {:induction false} PaintAllUntouched(cells: Cells, spans: seq<Span>, k: nat)
    requires k < |cells|
    requires !Covered(spans, k)
    ensures PaintAll(cells, spans)[k] == cells[k]
    decreases |spans|
  {
    if spans != [] {
      var init := spans[..|spans| - 1];
      assert forall j :: 0 <= j < |init| ==> init[j] == spans[j];
      assert !Covers(spans[|spans| - 1], k);
      PaintAllUntouched(cells, init, k);
    }
  }

  /** A cell ends with the category of the last call that covers it. */
  lemma {:induction false} PaintAllLastWriter(cells: Cells, spans: seq<Span>, j: nat, k: nat)
    requires k < |cells| && j < |spans|
    requires Covers(spans[j], k)
    requires forall j' :: j < j' < |spans| ==> !Covers(spans[j'], k)
    ensures PaintAll(cells, spans)[k] == Some(spans[j].cat)
    decreases |spans|
  {
    var init := spans[..|spans| - 1];
    assert forall i :: 0 <= i < |init| ==> init[i] == spans[i];
    if j < |spans| - 1 {
      PaintAllLastWriter(cells, init, j, k);
    }
  }

  /** Painting two batches of calls one after the other is painting their concatenation. */
  lemma {:induction false} PaintAllAppend(cells: Cells, a: seq<Span>, b: seq<Span>)
    ensures PaintAll(cells, a + b) == PaintAll(PaintAll(cells, a), b)
    decreases |b|
  {
    if b == [] {
      assert a + b == a;
    } else {
      var b' := b[..|b| - 1];
      assert (a + b)[..|a + b| - 1] == a + b';
      assert (a + b)[|a + b| - 1] == b[|b| - 1];
      PaintAllAppend(cells, a, b');
    }
  }

  /** Once some call covers a cell, what the cell held before the calls no longer matters. */
  lemma {:induction false} PaintAllOverwrites(c: Cells, d: Cells, spans: seq<Span>, k: nat)
    requires |c| == |d| && k < |c|
    requires Covered(spans, k)
    ensures PaintAll(c, spans)[k] == PaintAll(d, spans)[k]
    decreases |spans|
  {
    var last := spans[|spans| - 1];
    if !Covers(last, k) {
      var init := spans[..|spans| - 1];
      assert forall i :: 0 <= i < |init| ==> init[i] == spans[i];
      var j :| 0 <= j < |spans| && Covers(spans[j], k);
      assert j < |init| && Covers(init[j], k);
      PaintAllOverwrites(c, d, init, k);
    }
  }

  lemma CoveredAppend(a: seq<Span>, b: seq<Span>, k: int)
    ensures Covered(a + b, k) <==> Covered(a, k) || Covered(b, k)
  {
    if Covered(a + b, k) {
      var j :| 0 <= j < |a + b| && Covers((a + b)[j], k);
      if j >= |a| {
        assert Covers(b[j - |a|], k);
      }
    }
    if Covered(a, k) {
      var j :| 0 <= j < |a| && Covers(a[j], k);
      assert (a + b)[j] == a[j];
    }
    if Covered(b, k) {
      var j :| 0 <= j < |b| && Covers(b[j], k);
      assert (a + b)[|a| + j] == b[j];
    }
  }

  lemma AllInAppend(a: seq<Span>, b: seq<Span>, n: nat, cats: set<Category>)
    requires AllIn(a, n, cats) && AllIn(b, n, cats)
    ensures AllIn(a + b, n, cats)
  {
    forall j | 0 <= j < |a + b|
      ensures (a + b)[j].len > 0 && InLine((a + b)[j], n) && (a + b)[j].cat in cats
    {
      if j >= |a| {
        assert (a + b)[j] == b[j - |a|];
      }
    }
  }

  /** A covered cell ends with the category of one of the calls covering it. */
  lemma {:induction false} PaintAllCoveredCell(cells: Cells, spans: seq<Span>, k: nat)
    requires k < |cells| && Covered(spans, k)
    ensures exists j :: 0 <= j < |spans| && Covers(spans[j], k) && PaintAll(cells, spans)[k] == Some(spans[j].cat)
    decreases |spans|
  {
    var last := |spans| - 1;
    if !Covers(spans[last], k) {
      var init := spans[..last];
      assert forall i :: 0 <= i < |init| ==> init[i] == spans[i];
      var j :| 0 <= j < |spans| && Covers(spans[j], k);
      assert Covers(init[j], k);
      PaintAllCoveredCell(cells, init, k);
      var j' :| 0 <= j' < |init| && Covers(init[j'], k) && PaintAll(cells, init)[k] == Some(init[j'].cat);
      assert Covers(spans[j'], k) && PaintAll(cells, spans)[k] == Some(spans[j'].cat);
    } else {
      assert PaintAll(cells, spans)[k] == Some(spans[last].cat);
    }
  }

  /** On a blank block, a batch of calls that all use one category marks exactly the covered cells. */
  lemma PaintAllUniform(n: nat, spans: seq<Span>, cat: Category, k: nat)
    requires k < n
    requires AllIn(spans, n, {cat})
    ensures PaintAll(Blank(n), spans)[k] == if Covered(spans, k) then Some(cat) else None
  {
    if Covered(spans, k) {
      PaintAllCoveredCell(Blank(n), spans, k);
      var j :| 0 <= j < |spans| && Covers(spans[j], k) && PaintAll(Blank(n), spans)[k] == Some(spans[j].cat);
      assert spans[j].cat in {cat};
    } else {
      PaintAllUntouched(Blank(n), spans, k);
    }
  }

  /**
   Painting a batch `b` of one category on top of `a`: a cell `b` covers takes
   that category, any other cell keeps what `a` left.
   */
  lemma PaintAllLayer(cells: Cells, a: seq<Span>, b: seq<Span>, cat: Category, k: nat)
    requires k < |cells|
    requires AllIn(b, |cells|, {cat})
    ensures PaintAll(cells, a + b)[k] == if Covered(b, k) then Some(cat) else PaintAll(cells, a)[k]
  {
    PaintAllAppend(cells, a, b);
    if Covered(b, k) {
      PaintAllCoveredCell(PaintAll(cells, a), b, k);
      var j :| 0 <= j < |b| && Covers(b[j], k) && PaintAll(PaintAll(cells, a), b)[k] == Some(b[j].cat);
      assert b[j].cat in {cat};
    } else {
      PaintAllUntouched(PaintAll(cells, a), b, k);
    }
  }

  /** `PaintAllLayer` where the covered cells are those satisfying `cond`. */
  lemma PaintAllLayerIff(cells: Cells, a: seq<Span>, b: seq<Span>, cat: Category, k: nat, cond: bool)
    requires k < |cells|
    requires AllIn(b, |cells|, {cat})
    requires Covered(b, k) <==> cond
    ensures PaintAll(cells, a + b)[k] == if cond then Some(cat) else PaintAll(cells, a)[k]
  {
    PaintAllLayer(cells, a, b, cat, k);
  }

  /** On a blank block, a category no call uses never appears. */
  lemma PaintAllAbsent(n: nat, spans: seq<Span>, cats: set<Category>, cat: Category, k: nat)
    requires k < n && AllIn(spans, n, cats) && cat !in cats
    ensures PaintAll(Blank(n), spans)[k] != Some(cat)
  {
    var r := PaintAll(Blank(n), spans);
    PaintAllOrigin(Blank(n), spans, k);
    if r[k] != None {
      var j :| 0 <= j < |spans| && Covers(spans[j], k) && r[k] == Some(spans[j].cat);
      assert spans[j].cat in cats;
    }
  }

  lemma AllInWiden(spans: seq<Span>, n: nat, cats: set<Category>, wider: set<Category>)
    requires AllIn(spans, n, cats) && cats <= wider
    ensures AllIn(spans, n, wider)
  {
  }

  lemma WithinAppend(a: seq<Span>, b: seq<Span>, lo: nat, hi: nat)
    requires Within(a, lo, hi) && Within(b, lo, hi)
    ensures Within(a + b, lo, hi)
  {
    forall j | 0 <= j < |a + b|
      ensures lo <= (a + b)[j].start && (a + b)[j].start + (a + b)[j].len <= hi
    {
      if j >= |a| {
        assert (a + b)[j] == b[j - |a|];
      }
    }
  }

  /** Calls inside `[lo, hi)` leave every cell outside that range alone. */
  lemma WithinNotCovered(spans: seq<Span>, lo: nat, hi: nat, k: int)
    requires Within(spans, lo, hi)
    requires k < lo || hi <= k
    ensures !Covered(spans, k)
  {
  }
}
