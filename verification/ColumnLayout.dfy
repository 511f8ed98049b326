/** The vertical flow of blocks into a column, over the reals, and the draw loop that
    stops at the first block below the raster. */
module ColumnLayout {
  import opened Results

  const BASE_SIZE: real := 16.0
  const LIST_INDENT: real := 24.0
  const QUOTE_INDENT: real := 20.0
  const PRE_PAD: real := 8.0
  const MARKER_GAP: real := 6.0

  const BLOCK_HEADING: nat := 1
  const BLOCK_PRE: nat := 2
  const BLOCK_RULE: nat := 3

  datatype Block = Block(kind: nat, level: nat, listDepth: nat, quoteDepth: nat, tight: bool, text: string, marker: string)

  /** Font size, boldness, space before and after, line height. */
  datatype Metrics = Metrics(size: real, bold: bool, before: real, after: real, lineHeight: real)

  function BlockMetrics(b: Block): (m: Metrics)
    ensures m.before > 0.0 && m.after > 0.0
  {
    if b.kind == BLOCK_HEADING then
      var s := if b.level == 1 then 2.0 else if b.level == 2 then 1.5 else if b.level == 3 then 1.25 else if b.level == 4 then 1.1 else 1.0;
      Metrics(BASE_SIZE * s, true, 20.0, 10.0, 1.25)
    else if b.kind == BLOCK_PRE then Metrics(BASE_SIZE * 0.875, false, 12.0, 12.0, 1.4)
    else if b.kind == BLOCK_RULE then Metrics(0.0, false, 12.0, 12.0, 1.0)
    else if b.listDepth > 0 || b.tight then Metrics(BASE_SIZE, false, 4.0, 4.0, 1.4)
    else Metrics(BASE_SIZE, false, 12.0, 12.0, 1.4)
  }

  function Max(x: real, y: real): real { if x < y then y else x }

  function Pad(b: Block): real { if b.kind == BLOCK_PRE then PRE_PAD else 0.0 }

  function Indent(b: Block): real { b.listDepth as real * LIST_INDENT + b.quoteDepth as real * QUOTE_INDENT }

  /** Shaping, not shown here: the height of a block's text when broken to a width, and
      the width of its marker, both in device pixels. */
  datatype Shaper = Shaper(height: (Block, real) -> real, markerWidth: Block -> real, scale: real)

  ghost predicate Sane(s: Shaper) {
    s.scale > 0.0 && forall b, w :: s.height(b, w) >= 0.0
  }

  datatype Placed = Placed(x: real, y: real, kind: nat, height: real, markerX: Option<real>, quoteBars: nat, quoteX: real)

  // ---------------------------------------------------------------------
  // Where blocks belong

  /** Layout px to device px, at least one. */
  function DeviceWidth(w: real, scale: real): real { Max(w * scale, 1.0) }

  function LayoutPx(x: real, scale: real): real
    requires scale > 0.0
  {
    x / scale
  }

  /** Where a marker starts, in device px: right-aligned into the gutter. */
  function MarkerX(left: real, markerWidth: real, scale: real): (x: real)
    ensures x + markerWidth + MARKER_GAP * scale == left * scale
  {
    left * scale - markerWidth - MARKER_GAP * scale
  }

  /** The width a block's text is broken to, before scaling. */
  function LineWidth(b: Block, width: real, margin: real): real {
    Max(width - 2.0 * margin, 1.0) - Indent(b) - 2.0 * Pad(b)
  }

  /** Text height in layout px. */
  function TextHeight(b: Block, width: real, margin: real, s: Shaper): real
    requires s.scale > 0.0
  {
    LayoutPx(s.height(b, DeviceWidth(LineWidth(b, width, margin), s.scale)), s.scale)
  }

  /** The height of a block's box, padding included; a rule is one px. */
  function Extent(b: Block, width: real, margin: real, s: Shaper): real
    requires s.scale > 0.0
  {
    if b.kind == BLOCK_RULE then 1.0 else TextHeight(b, width, margin, s) + 2.0 * Pad(b)
  }

  /** Adjacent margins collapse to the larger one. */
  function Gap(above: Block, below: Block): real {
    Max(BlockMetrics(above).after, BlockMetrics(below).before)
  }

  /** The top of box `k`. */
  function Top(blocks: seq<Block>, k: nat, width: real, margin: real, s: Shaper): real
    requires k < |blocks| && s.scale > 0.0
  {
    if k == 0 then margin
    else Top(blocks, k - 1, width, margin, s) + Extent(blocks[k - 1], width, margin, s) + Gap(blocks[k - 1], blocks[k])
  }

  function Bottom(blocks: seq<Block>, k: nat, width: real, margin: real, s: Shaper): real
    requires k < |blocks| && s.scale > 0.0
  {
    Top(blocks, k, width, margin, s) + Extent(blocks[k], width, margin, s)
  }

  /** Block `k` as the column has it; a rule has neither marker nor quote bars. */
  function Place(blocks: seq<Block>, k: nat, width: real, margin: real, s: Shaper): Placed
    requires k < |blocks| && s.scale > 0.0
  {
    var b := blocks[k];
    var quoteX := margin + b.listDepth as real * LIST_INDENT;
    var top := Top(blocks, k, width, margin, s);
    if b.kind == BLOCK_RULE then Placed(margin + Indent(b), top, BLOCK_RULE, 0.0, None, 0, quoteX)
    else
      Placed(margin + Indent(b) + Pad(b), top + Pad(b), b.kind, TextHeight(b, width, margin, s),
             if b.marker == "" then None else Some(MarkerX(margin + Indent(b), s.markerWidth(b), s.scale)),
             b.quoteDepth, quoteX)
  }

  // ---------------------------------------------------------------------

  lemma TopFollows(blocks: seq<Block>, k: nat, width: real, margin: real, s: Shaper)
    requires k < |blocks| && s.scale > 0.0
    ensures k == 0 ==> Top(blocks, k, width, margin, s) == margin
    ensures k > 0 ==> Top(blocks, k, width, margin, s) == Bottom(blocks, k - 1, width, margin, s) + Gap(blocks[k - 1], blocks[k])
    ensures Bottom(blocks, k, width, margin, s) == Top(blocks, k, width, margin, s) + Extent(blocks[k], width, margin, s)
  {}

  /** The flow: `y` runs down the column, `prevAfter` remembers the margin to collapse. */
  method Layout(blocks: seq<Block>, width: real, margin: real, s: Shaper) returns (placed: seq<Placed>, height: real)
    requires s.scale > 0.0
    ensures |placed| == |blocks|
    ensures forall k :: 0 <= k < |blocks| ==> placed[k] == Place(blocks, k, width, margin, s)
    ensures height == margin + if blocks == [] then margin else Bottom(blocks, |blocks| - 1, width, margin, s)
  {
    hide Top, Bottom, BlockMetrics, DeviceWidth, LayoutPx, MarkerX;
    var contentW := Max(width - 2.0 * margin, 1.0);
    var y := margin;
    placed := [];
    var prevAfter: Option<real> := None;
    for i := 0 to |blocks|
      invariant |placed| == i
      invariant forall k :: 0 <= k < i ==> placed[k] == Place(blocks, k, width, margin, s)
      invariant if i == 0 then y == margin && prevAfter == None
                else y == Bottom(blocks, i - 1, width, margin, s) && prevAfter == Some(BlockMetrics(blocks[i - 1]).after)
    {
      var block := blocks[i];
      var m := BlockMetrics(block);
      y := y + match prevAfter case None => 0.0 case Some(pa) => Max(pa, m.before);
      TopFollows(blocks, i, width, margin, s);
      assert y == Top(blocks, i, width, margin, s);
      prevAfter := Some(m.after);
      var indent := block.listDepth as real * LIST_INDENT + block.quoteDepth as real * QUOTE_INDENT;
      var quoteX := margin + block.listDepth as real * LIST_INDENT;
      if block.kind == BLOCK_RULE {
        placed := placed + [Placed(margin + indent, y, BLOCK_RULE, 0.0, None, 0, quoteX)];
        y := y + 1.0;
      } else {
        var pad := if block.kind == BLOCK_PRE then PRE_PAD else 0.0;
        var lineWidth := contentW - indent - 2.0 * pad;
        assert lineWidth == LineWidth(block, width, margin);
        var h := LayoutPx(s.height(block, DeviceWidth(lineWidth, s.scale)), s.scale);
        var markerX := None;
        if block.marker != "" {
          markerX := Some(MarkerX(margin + indent, s.markerWidth(block), s.scale));
        }
        placed := placed + [Placed(margin + indent + pad, y + pad, block.kind, h, markerX, block.quoteDepth, quoteX)];
        y := y + (h + 2.0 * pad);
      }
    }
    height := y + margin;
  }

  // ---------------------------------------------------------------------
  // The numbers

  /** Font size, weight, margins and line height by kind and level: headings (kind 1),
      preformatted blocks (2), rules (3), and everything else, tight or not. */
  lemma MetricsTable(b: Block)
    ensures var size := if b.level == 1 then 32.0 else if b.level == 2 then 24.0 else if b.level == 3 then 20.0 else if b.level == 4 then 17.6 else 16.0;
      b.kind == 1 ==> BlockMetrics(b) == Metrics(size, true, 20.0, 10.0, 1.25)
    ensures b.kind == 2 ==> BlockMetrics(b) == Metrics(14.0, false, 12.0, 12.0, 1.4)
    ensures b.kind == 3 ==> BlockMetrics(b) == Metrics(0.0, false, 12.0, 12.0, 1.0)
    ensures b.kind !in {1, 2, 3} && (b.listDepth > 0 || b.tight) ==> BlockMetrics(b) == Metrics(16.0, false, 4.0, 4.0, 1.4)
    ensures b.kind !in {1, 2, 3} && b.listDepth == 0 && !b.tight ==> BlockMetrics(b) == Metrics(16.0, false, 12.0, 12.0, 1.4)
  {}

  /** Where a block's text, marker and quote bars stand relative to the top of its box: 24 px
      in per list level and 20 per quote level, 8 more on every side of preformatted text, the
      marker ending 6 px before the text. */
  lemma PlacedAt(blocks: seq<Block>, k: nat, width: real, margin: real, s: Shaper)
    requires k < |blocks| && s.scale > 0.0
    ensures var b := blocks[k];
      var p := Place(blocks, k, width, margin, s);
      var pad := if b.kind == 2 then 8.0 else 0.0;
      var left := margin + 24.0 * b.listDepth as real + 20.0 * b.quoteDepth as real;
      && p.kind == b.kind && p.quoteX == margin + 24.0 * b.listDepth as real
      && p.x == left + pad && p.y == Top(blocks, k, width, margin, s) + pad
      && p.quoteBars == (if b.kind == 3 then 0 else b.quoteDepth)
      && (p.markerX.Some? <==> b.kind != 3 && b.marker != "")
      && (p.markerX.Some? ==> p.markerX.value + s.markerWidth(b) == (left - 6.0) * s.scale)
  {
    hide Top, TextHeight;
    var b := blocks[k];
    assert (margin + Indent(b) - MARKER_GAP) * s.scale == (margin + Indent(b)) * s.scale - MARKER_GAP * s.scale;
  }

  /** The layout px a block's text has: the column between its margins, at least one, less
      the indents and the padding. */
  ghost function FreeWidth(b: Block, width: real, margin: real): real {
    (if width - 2.0 * margin < 1.0 then 1.0 else width - 2.0 * margin)
    - 24.0 * b.listDepth as real - 20.0 * b.quoteDepth as real - if b.kind == 2 then 16.0 else 0.0
  }

  /** That width in device px, at least one of them. */
  ghost function BrokenTo(free: real, scale: real): real { if free * scale < 1.0 then 1.0 else free * scale }

  /** Text is broken to that width, and its height in layout px gives its box: 16 more when
      preformatted, and one for a rule. */
  lemma BoxSize(b: Block, width: real, margin: real, s: Shaper)
    requires s.scale > 0.0
    ensures b.kind == 3 ==> Extent(b, width, margin, s) == 1.0
    ensures var height := s.height(b, BrokenTo(FreeWidth(b, width, margin), s.scale)) / s.scale;
      b.kind != 3 ==> Extent(b, width, margin, s) == height + if b.kind == 2 then 16.0 else 0.0
  {
    var free := FreeWidth(b, width, margin);
    assert LineWidth(b, width, margin) == free;
    AtLeastOne(free, s.scale);
    hide LineWidth, DeviceWidth, BrokenTo;
  }

  lemma AtLeastOne(w: real, scale: real)
    ensures DeviceWidth(w, scale) == BrokenTo(w, scale)
  {}

  // ---------------------------------------------------------------------
  // What the column looks like

  lemma ExtentNonNegative(b: Block, width: real, margin: real, s: Shaper)
    requires Sane(s)
    ensures Extent(b, width, margin, s) >= 0.0 && TextHeight(b, width, margin, s) >= 0.0
  {
    Quotient(s.height(b, DeviceWidth(LineWidth(b, width, margin), s.scale)), s.scale);
  }

  lemma Quotient(x: real, y: real)
    requires x >= 0.0 && y > 0.0
    ensures x / y >= 0.0
  {}

  /** The gap between neighbours is the larger of the two margins, and positive. */
  lemma GapsCollapse(blocks: seq<Block>, k: nat, width: real, margin: real, s: Shaper)
    requires k + 1 < |blocks| && s.scale > 0.0
    ensures var gap := Top(blocks, k + 1, width, margin, s) - Bottom(blocks, k, width, margin, s);
      && gap >= BlockMetrics(blocks[k]).after > 0.0 && gap >= BlockMetrics(blocks[k + 1]).before > 0.0
      && (gap == BlockMetrics(blocks[k]).after || gap == BlockMetrics(blocks[k + 1]).before)
  {}

  /** Boxes never overlap: each ends above every later one, and neighbours lie apart by
      the larger of their margins. */
  lemma {:induction false} BoxesApart(blocks: seq<Block>, i: nat, j: nat, width: real, margin: real, s: Shaper)
    requires i < j < |blocks| && Sane(s)
    ensures Bottom(blocks, i, width, margin, s) < Top(blocks, j, width, margin, s)
    ensures j == i + 1 ==>
      Top(blocks, j, width, margin, s) - Bottom(blocks, i, width, margin, s) == Max(BlockMetrics(blocks[i]).after, BlockMetrics(blocks[j]).before)
    decreases j - i
  {
    hide Extent, BlockMetrics;
    GapsCollapse(blocks, j - 1, width, margin, s);
    if i < j - 1 {
      BoxesApart(blocks, i, j - 1, width, margin, s);
      ExtentNonNegative(blocks[j - 1], width, margin, s);
    }
  }

  function Extents(blocks: seq<Block>, k: nat, width: real, margin: real, s: Shaper): real
    requires k <= |blocks| && s.scale > 0.0
  {
    if k == 0 then 0.0 else Extents(blocks, k - 1, width, margin, s) + Extent(blocks[k - 1], width, margin, s)
  }

  /** The gaps above blocks 1 to `k - 1`. */
  function Gaps(blocks: seq<Block>, k: nat): real
    requires k <= |blocks|
  {
    if k <= 1 then 0.0 else Gaps(blocks, k - 1) + Gap(blocks[k - 2], blocks[k - 1])
  }

  /** The column ends after its top margin, all boxes and all gaps. */
  lemma {:induction false} HeightIsSum(blocks: seq<Block>, k: nat, width: real, margin: real, s: Shaper)
    requires k < |blocks| && s.scale > 0.0
    ensures Bottom(blocks, k, width, margin, s) == margin + Extents(blocks, k + 1, width, margin, s) + Gaps(blocks, k + 1)
  {
    hide Extent, Gap;
    if k > 0 {
      HeightIsSum(blocks, k - 1, width, margin, s);
    }
  }

  ghost predicate Descending(placed: seq<Placed>) {
    forall i, j :: 0 <= i < j < |placed| ==> placed[i].y <= placed[j].y
  }

  /** Text origins go down the page. */
  lemma OriginsDescend(blocks: seq<Block>, placed: seq<Placed>, width: real, margin: real, s: Shaper)
    requires Sane(s) && |placed| == |blocks|
    requires forall k :: 0 <= k < |blocks| ==> placed[k] == Place(blocks, k, width, margin, s)
    ensures Descending(placed)
  {
    forall i, j | 0 <= i < j < |placed|
      ensures placed[i].y <= placed[j].y
    {
      BoxesApart(blocks, i, j, width, margin, s);
      ExtentNonNegative(blocks[i], width, margin, s);
      hide Top, TextHeight;
    }
  }

  // ---------------------------------------------------------------------
  // The draw loop

  predicate Reaches(p: Placed, scale: real, rasterHeight: real) {
    p.y * scale <= rasterHeight
  }

  /** Draws blocks until the first origin below the raster; returns how many. */
  method DrawBlocks(placed: seq<Placed>, scale: real, rasterHeight: real) returns (drawn: nat)
    requires scale > 0.0 && Descending(placed)
    ensures drawn <= |placed|
    ensures forall k :: 0 <= k < |placed| ==> (k < drawn <==> Reaches(placed[k], scale, rasterHeight))
  {
    drawn := 0;
    while drawn < |placed|
      invariant drawn <= |placed|
      invariant forall k :: 0 <= k < drawn ==> Reaches(placed[k], scale, rasterHeight)
    {
      var oy := placed[drawn].y * scale;
      if oy > rasterHeight {
        forall k | drawn <= k < |placed|
          ensures !Reaches(placed[k], scale, rasterHeight)
        {
          Scaled(placed[drawn].y, placed[k].y, scale);
        }
        return;
      }
      drawn := drawn + 1;
    }
  }

  lemma Scaled(x: real, y: real, scale: real)
    requires x <= y && scale > 0.0
    ensures x * scale <= y * scale
  {}

  /** When skipping a block loses part of its box: the loop looks at the text's origin, so
      a preformatted block is skipped although its top padding, and nothing more, reaches
      onto the raster; and no other block is. */
  lemma SkippedShows(blocks: seq<Block>, k: nat, width: real, margin: real, s: Shaper, rasterHeight: real)
    requires s.scale > 0.0 && k < |blocks|
    ensures var top := Top(blocks, k, width, margin, s) * s.scale;
      (!Reaches(Place(blocks, k, width, margin, s), s.scale, rasterHeight) && top <= rasterHeight) <==>
      (blocks[k].kind == BLOCK_PRE && top <= rasterHeight < top + PRE_PAD * s.scale)
  {
    hide Top;
    var top := Top(blocks, k, width, margin, s);
    Spread(top, PRE_PAD, s.scale);
  }

  lemma Spread(x: real, y: real, scale: real)
    ensures (x + y) * scale == x * scale + y * scale
  {}

  const PRE_BLOCK := Block(BLOCK_PRE, 0, 0, 0, false, "x", "")

  /** It does happen: of a single preformatted block under a margin of 16 nothing is drawn
      on a raster of 20 rows, although four rows of its box are on it. */
  lemma LosesPadding(s: Shaper)
    requires Sane(s) && s.scale == 1.0
    ensures !Reaches(Place([PRE_BLOCK], 0, 100.0, 16.0, s), s.scale, 20.0)
    ensures Top([PRE_BLOCK], 0, 100.0, 16.0, s) == 16.0 && 32.0 <= Bottom([PRE_BLOCK], 0, 100.0, 16.0, s)
  {
    ExtentNonNegative(PRE_BLOCK, 100.0, 16.0, s);
    TopFollows([PRE_BLOCK], 0, 100.0, 16.0, s);
  }
}
