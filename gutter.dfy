/** The line-number gutter of `CodeEditor`: the width it reserves and the
    walk over text blocks that decides which numbers are painted where. */
module Gutter {
  import opened PyStr

  /** The fixed left margin of the gutter, in pixels. */
  const Margin: int := 10

  /** `line_number_area_width`: a margin plus one glyph advance (the width of
      "9") per decimal digit of `max(1, blockCount)`. */
  function LineNumberAreaWidth(blockCount: int, advance: int): (w: int)
    ensures advance >= 0 ==> w >= Margin + advance
  {
    var digits := |DecimalString(if blockCount > 1 then blockCount else 1)|;
    Margin + advance * digits
  }

  /** The width grows with the number of blocks, never shrinks. */
  lemma {:induction false} WidthMonotone(n: int, m: int, advance: int)
    requires n <= m && advance >= 0
    ensures LineNumberAreaWidth(n, advance) <= LineNumberAreaWidth(m, advance)
  {
    var a := if n > 1 then n else 1;
    var b := if m > 1 then m else 1;
    DecimalLengthMonotone(a, b);
    ScaleMonotone(advance, |DecimalString(a)|, |DecimalString(b)|);
  }

  lemma ScaleMonotone(a: int, x: int, y: int)
    requires a >= 0 && x <= y
    ensures a * x <= a * y
  {
    assert a * y - a * x == a * (y - x);
  }

  /** For a document of `n >= 1` blocks the digit count is the number of
      decimal digits of `n`, `floor(log10(n)) + 1`. */
  lemma WidthDigits(n: int, advance: int)
    requires n >= 1
    ensures exists d: nat ::
      && d >= 1
      && Pow10(d - 1) <= n < Pow10(d)
      && LineNumberAreaWidth(n, advance) == Margin + advance * d
  {
    DecimalLength(n);
    var d := |DecimalString(n)|;
    assert Pow10(d - 1) <= n < Pow10(d) && LineNumberAreaWidth(n, advance) == Margin + advance * d;
  }

  /** Every line number that can be shown, `1..max(1, n)`, fits: its decimal
      text is no wider than the space the gutter reserves for digits. */
  lemma {:induction false} EveryNumberFits(n: int, k: nat, advance: int)
    requires 1 <= k && (k <= n || k == 1) && advance >= 0
    ensures advance * |DecimalString(k)| <= LineNumberAreaWidth(n, advance) - Margin
  {
    var top := if n > 1 then n else 1;
    DecimalLengthMonotone(k, top);
    ScaleMonotone(advance, |DecimalString(k)|, |DecimalString(top)|);
    assert LineNumberAreaWidth(n, advance) - Margin == advance * |DecimalString(top)|;
  }

  // ---------------------------------------------------------------------
  // The paint walk of `line_number_area_paint_event`.

  /** A text block as the paint routine sees it: its bounding height (already
      truncated to whole pixels) and whether it is visible. */
  datatype Block = Block(height: nat, visible: bool)

  /** One painted line number, `str(number)` drawn with its top at `top`. */
  datatype Label = Label(number: int, top: int)

  /** The height `blockBoundingRect(block)` gives for block index `i`; an
      invalid block (past the last one) has an empty rectangle. */
  function HeightAt(blocks: seq<Block>, i: nat): (h: nat)
    ensures i < |blocks| ==> h == blocks[i].height
    ensures i >= |blocks| ==> h == 0
  {
    if i < |blocks| then blocks[i].height else 0
  }

  /** The sum of the heights of blocks `i..j`. */
  function SumHeights(blocks: seq<Block>, i: nat, j: nat): nat
    requires i <= j <= |blocks|
    decreases j - i
  {
    if i == j then 0 else blocks[i].height + SumHeights(blocks, i + 1, j)
  }

  /** The walk from block `i`, whose top is at `top`, against the redraw
      rectangle's vertical extent `rectTop..rectBottom`. */
  function Walk(blocks: seq<Block>, i: nat, top: int, rectTop: int, rectBottom: int): seq<Label>
    decreases |blocks| - i
  {
    if i < |blocks| && top <= rectBottom then
      var bottom := top + blocks[i].height;
      (if blocks[i].visible && bottom >= rectTop then [Label(i + 1, top)] else [])
        + Walk(blocks, i + 1, bottom, rectTop, rectBottom)
    else []
  }

  /** Whether the walk started at block `first` (top at `firstTop`) paints
      label `l`: `l` numbers a block `j` at or after `first` (1-based), that
      block is visible, `l.top` is `firstTop` plus the heights of the blocks
      before it, that top is not below the rectangle (the walk is still
      running) and the block's bottom reaches the rectangle's top. */
  ghost predicate Painted(blocks: seq<Block>, first: nat, firstTop: int,
                          rectTop: int, rectBottom: int, l: Label) {
    var j := l.number - 1;
    && first <= j < |blocks|
    && blocks[j].visible
    && l.top == firstTop + SumHeights(blocks, first, j)
    && l.top <= rectBottom
    && l.top + blocks[j].height >= rectTop
  }

  /** Labels come out in strictly increasing block order, all numbering
      blocks from `i` on. */
  ghost predicate Ascending(labels: seq<Label>, i: nat, n: nat) {
    && (forall a :: 0 <= a < |labels| ==> i < labels[a].number <= n)
    && (forall a, b :: 0 <= a < b < |labels| ==> labels[a].number < labels[b].number)
  }

  lemma {:induction false} WalkAscending(blocks: seq<Block>, i: nat, top: int, rectTop: int, rectBottom: int)
    ensures Ascending(Walk(blocks, i, top, rectTop, rectBottom), i, |blocks|)
    decreases |blocks| - i
  {
    if i < |blocks| && top <= rectBottom {
      WalkAscending(blocks, i + 1, top + blocks[i].height, rectTop, rectBottom);
    }
  }

  lemma {:induction false} SumHeightsStep(blocks: seq<Block>, i: nat, j: nat)
    requires i < j <= |blocks|
    ensures SumHeights(blocks, i, j) == blocks[i].height + SumHeights(blocks, i + 1, j)
  {
  }

  /** Exactly the labels `Painted` describes are produced. */
  lemma {:induction false} WalkPainted(blocks: seq<Block>, i: nat, top: int, rectTop: int, rectBottom: int, l: Label)
    ensures l in Walk(blocks, i, top, rectTop, rectBottom) <==> Painted(blocks, i, top, rectTop, rectBottom, l)
    decreases |blocks| - i
  {
    var j := l.number - 1;
    if i < |blocks| && top <= rectBottom {
      var bottom := top + blocks[i].height;
      WalkPainted(blocks, i + 1, bottom, rectTop, rectBottom, l);
      if i < j < |blocks| {
        SumHeightsStep(blocks, i, j);
      }
    } else if i <= j < |blocks| {
      assert SumHeights(blocks, i, j) >= 0;
    }
  }

  /** `line_number_area_paint_event`'s loop: starting from the first visible
      block, walk blocks while they are valid and their top is not below the
      redraw rectangle, painting the 1-based number of every visible block
      whose bottom reaches the rectangle; each block's top is the previous
      block's bottom. */
  method PaintLineNumbers(blocks: seq<Block>, first: nat, firstTop: int, rectTop: int, rectBottom: int)
    returns (labels: seq<Label>)
    ensures labels == Walk(blocks, first, firstTop, rectTop, rectBottom)
    ensures Ascending(labels, first, |blocks|)
    ensures forall l :: l in labels <==> Painted(blocks, first, firstTop, rectTop, rectBottom, l)
  {
    var block := first;
    var blockNumber := first;
    var top := firstTop;
    var bottom := top + HeightAt(blocks, block);
    labels := [];
    while block < |blocks| && top <= rectBottom
      invariant first <= block && (block == first || block <= |blocks|)
      invariant blockNumber == block
      invariant bottom == top + HeightAt(blocks, block)
      invariant labels + Walk(blocks, block, top, rectTop, rectBottom)
             == Walk(blocks, first, firstTop, rectTop, rectBottom)
      decreases |blocks| - block
    {
      if blocks[block].visible && bottom >= rectTop {
        labels := labels + [Label(blockNumber + 1, top)];
      }
      block := block + 1;
      top := bottom;
      bottom := top + HeightAt(blocks, block);
      blockNumber := blockNumber + 1;
    }
    WalkAscending(blocks, first, firstTop, rectTop, rectBottom);
    forall l ensures l in labels <==> Painted(blocks, first, firstTop, rectTop, rectBottom, l) {
      WalkPainted(blocks, first, firstTop, rectTop, rectBottom, l);
    }
  }
}
