/** The flat export of a laid-out document: what the arrays mean, and what they must mean. */
module FlatLayout {
  import opened Results

  const U32_MAX: nat := 0xffff_ffff
  /** "No index" for a marker line and for a cluster's glyph. */
  const LAYOUT_NONE: nat := U32_MAX
  const BLOCK_RULE: nat := 3
  const LIGATURE_START: nat := 1
  const LIGATURE_CONT: nat := 2

  function U32(n: nat): nat { n % 0x1_0000_0000 }

  /** Wrapping subtraction of two u32 values. */
  function Sub32(a: nat, b: nat): nat { (a - b) % 0x1_0000_0000 }

  lemma Narrow(n: nat, start: nat)
    requires start <= n <= U32_MAX
    ensures U32(n) == n && U32(start) == start && Sub32(U32(n), U32(start)) == n - start
  {}

  type octet = x: int | 0 <= x < 256

  datatype Rgb = Rgb(r: octet, g: octet, b: octet) {
    function Packed(): nat { r * 0x1_0000 + g * 0x100 + b }
  }

  // ---------------------------------------------------------------------
  // What layout hands over. Reals stand for f32; `skew` is the tangent already.

  datatype Face = Face(data: nat, index: nat)
  datatype Decoration = Decoration(offset: Option<real>, size: Option<real>, brush: Rgb)
  datatype Glyph = Glyph(id: nat, x: real, y: real, advance: real)
  datatype GlyphRun = GlyphRun(
    face: Face, size: real, skew: Option<real>, brush: Rgb, offset: real, baseline: real, advance: real,
    glyphs: seq<Glyph>, underline: Option<Decoration>, strike: Option<Decoration>,
    underlineOffset: real, underlineSize: real, strikeOffset: real, strikeSize: real)
  datatype Item = Run(run: GlyphRun) | InlineBox
  datatype Cluster = Cluster(start: nat, len: nat, advance: real, glyphs: seq<nat>, ligatureStart: bool, ligatureCont: bool)
  datatype TextRun = TextRun(face: Face, clusters: seq<Cluster>)
  datatype Line = Line(offset: real, minCoord: real, maxCoord: real, items: seq<Item>, runs: seq<TextRun>)
  datatype Marker = Marker(lines: seq<Line>, x: real)
  datatype Placed = Placed(lines: seq<Line>, x: real, y: real, kind: nat, marker: Option<Marker>, quoteBars: nat, quoteX: real)

  // ---------------------------------------------------------------------
  // The flat arrays

  datatype LpDecoration = LpDecoration(enabled: nat, offset: real, size: real, color: nat)
  datatype LpRun = LpRun(
    font: nat, size: real, skew: real, color: nat, offset: real, baseline: real, advance: real,
    glyphs: nat, glyphsLen: nat, underline: LpDecoration, strike: LpDecoration)
  datatype LpCluster = LpCluster(font: nat, glyph: nat, textStart: nat, textLen: nat, x: real, advance: real, flags: nat)
  datatype LpLine = LpLine(x: real, top: real, bottom: real, runs: nat, runsLen: nat, clusters: nat, clustersLen: nat)
  datatype LpBlock = LpBlock(x: real, y: real, quoteX: real, lines: nat, linesLen: nat, markerLine: nat, kind: nat, quoteBars: nat)
  datatype LpFont = LpFont(data: nat, index: nat, name: string, mono: bool)

  datatype Flat = Flat(
    blocks: seq<LpBlock>, lines: seq<LpLine>, runs: seq<LpRun>, glyphs: seq<Glyph>, clusters: seq<LpCluster>, fonts: seq<LpFont>)

  /** Every count fits an index. */
  predicate Small(f: Flat) {
    |f.lines| <= U32_MAX && |f.runs| <= U32_MAX && |f.glyphs| <= U32_MAX && |f.clusters| <= U32_MAX && |f.fonts| <= U32_MAX
  }

  // ---------------------------------------------------------------------
  // The tree, read off the input ...

  datatype RunOut = RunOut(
    face: Face, size: real, skew: real, color: nat, offset: real, baseline: real, advance: real,
    glyphs: seq<Glyph>, underline: LpDecoration, strike: LpDecoration)
  datatype ClusterOut = ClusterOut(face: Face, glyph: nat, textStart: nat, textLen: nat, x: real, advance: real, flags: nat)
  datatype LineOut = LineOut(x: real, top: real, bottom: real, runs: seq<RunOut>, clusters: seq<ClusterOut>)
  datatype BlockOut = BlockOut(x: real, y: real, quoteX: real, kind: nat, quoteBars: nat, lines: seq<LineOut>, marker: Option<LineOut>)

  function Deco(d: Option<Decoration>, offset: real, size: real): LpDecoration {
    match d
    case None => LpDecoration(0, 0.0, 0.0, 0)
    case Some(d) =>
      var thick := if d.size.Some? then d.size.value else size;
      LpDecoration(1, if d.offset.Some? then d.offset.value else offset, if thick < 1.0 then 1.0 else thick, d.brush.Packed())
  }

  function ExpectedRun(r: GlyphRun, oy: real): RunOut {
    RunOut(r.face, r.size, if r.skew.Some? then r.skew.value else 0.0, r.brush.Packed(), r.offset, oy + r.baseline, r.advance,
           r.glyphs, Deco(r.underline, r.underlineOffset, r.underlineSize), Deco(r.strike, r.strikeOffset, r.strikeSize))
  }

  /** The glyph runs of a line's items, inline boxes skipped. */
  function RunsOf(items: seq<Item>): seq<GlyphRun> {
    if items == [] then []
    else (if items[0].Run? then [items[0].run] else []) + RunsOf(items[1..])
  }

  function ExpectedRuns(runs: seq<GlyphRun>, oy: real): (out: seq<RunOut>)
    ensures |out| == |runs|
  {
    seq(|runs|, i requires 0 <= i < |runs| => ExpectedRun(runs[i], oy))
  }

  /** A line's clusters in visual order, each with the face of its run. */
  function ClustersOf(runs: seq<TextRun>): seq<(Face, Cluster)> {
    if runs == [] then [] else Faced(runs[0]) + ClustersOf(runs[1..])
  }

  function Faced(r: TextRun): (out: seq<(Face, Cluster)>)
    ensures |out| == |r.clusters|
  {
    seq(|r.clusters|, i requires 0 <= i < |r.clusters| => (r.face, r.clusters[i]))
  }

  function Advances(cs: seq<(Face, Cluster)>): real {
    if cs == [] then 0.0 else Advances(cs[..|cs| - 1]) + cs[|cs| - 1].1.advance
  }

  function Flags(c: Cluster): nat {
    (if c.ligatureStart then LIGATURE_START else 0) + (if c.ligatureCont then LIGATURE_CONT else 0)
  }

  /** A cluster stands at the line offset plus the advances of those before it. */
  function ExpectedCluster(cs: seq<(Face, Cluster)>, i: nat, offset: real): ClusterOut
    requires i < |cs|
  {
    var (face, c) := cs[i];
    ClusterOut(face, if c.glyphs == [] then LAYOUT_NONE else c.glyphs[0], U32(c.start), U32(c.len),
               offset + Advances(cs[..i]), c.advance, Flags(c))
  }

  function ExpectedClusters(cs: seq<(Face, Cluster)>, offset: real): (out: seq<ClusterOut>)
    ensures |out| == |cs|
  {
    seq(|cs|, i requires 0 <= i < |cs| => ExpectedCluster(cs, i, offset))
  }

  function ExpectedLine(l: Line, ox: real, oy: real): LineOut {
    LineOut(ox, oy + l.minCoord, oy + l.maxCoord, ExpectedRuns(RunsOf(l.items), oy), ExpectedClusters(ClustersOf(l.runs), l.offset))
  }

  function ExpectedLines(lines: seq<Line>, ox: real, oy: real): (out: seq<LineOut>)
    ensures |out| == |lines|
  {
    seq(|lines|, i requires 0 <= i < |lines| => ExpectedLine(lines[i], ox, oy))
  }

  /** A rule has no lines of its own; a marker contributes its first line. */
  function ExpectedBlock(p: Placed): BlockOut {
    BlockOut(p.x, p.y, p.quoteX, p.kind, p.quoteBars,
             if p.kind == BLOCK_RULE then [] else ExpectedLines(p.lines, p.x, p.y),
             if p.marker.None? || p.marker.value.lines == [] then None
             else Some(ExpectedLine(p.marker.value.lines[0], p.marker.value.x, p.y)))
  }

  function OwnLines(p: Placed): nat { if p.kind == BLOCK_RULE then 0 else |p.lines| }

  function MarkerLines(p: Placed): nat { if p.marker.None? then 0 else |p.marker.value.lines| }

  /** Where the lines of block `k` begin: behind those of the blocks before it, markers included. */
  function LinesBefore(placed: seq<Placed>, k: nat): nat
    requires k <= |placed|
  {
    if k == 0 then 0 else LinesBefore(placed, k - 1) + OwnLines(placed[k - 1]) + MarkerLines(placed[k - 1])
  }

  // ---------------------------------------------------------------------
  // ... and read back from the arrays

  predicate RunIn(f: Flat, r: LpRun) {
    r.font < |f.fonts| && r.glyphs + r.glyphsLen <= |f.glyphs|
  }

  function FaceAt(f: Flat, i: nat): Face
    requires i < |f.fonts|
  {
    Face(f.fonts[i].data, f.fonts[i].index)
  }

  function RunAt(f: Flat, r: LpRun): RunOut
    requires RunIn(f, r)
  {
    RunOut(FaceAt(f, r.font), r.size, r.skew, r.color, r.offset, r.baseline, r.advance,
           f.glyphs[r.glyphs..r.glyphs + r.glyphsLen], r.underline, r.strike)
  }

  function ClusterAt(f: Flat, c: LpCluster): ClusterOut
    requires c.font < |f.fonts|
  {
    ClusterOut(FaceAt(f, c.font), c.glyph, c.textStart, c.textLen, c.x, c.advance, c.flags)
  }

  predicate LineIn(f: Flat, l: LpLine) {
    && l.runs + l.runsLen <= |f.runs| && l.clusters + l.clustersLen <= |f.clusters|
    && (forall i :: l.runs <= i < l.runs + l.runsLen ==> RunIn(f, f.runs[i]))
    && (forall i :: l.clusters <= i < l.clusters + l.clustersLen ==> f.clusters[i].font < |f.fonts|)
  }

  function LineAt(f: Flat, l: LpLine): LineOut
    requires LineIn(f, l)
  {
    LineOut(l.x, l.top, l.bottom,
            seq(l.runsLen, i requires 0 <= i < l.runsLen => RunAt(f, f.runs[l.runs + i])),
            seq(l.clustersLen, i requires 0 <= i < l.clustersLen => ClusterAt(f, f.clusters[l.clusters + i])))
  }

  predicate BlockIn(f: Flat, b: LpBlock) {
    && b.lines + b.linesLen <= |f.lines|
    && (forall i :: b.lines <= i < b.lines + b.linesLen ==> LineIn(f, f.lines[i]))
  }

  /** The marker a consumer finds: the line that `markerLine` points at. */
  function MarkerAt(f: Flat, b: LpBlock): Option<LineOut> {
    if b.markerLine < |f.lines| && LineIn(f, f.lines[b.markerLine]) then Some(LineAt(f, f.lines[b.markerLine])) else None
  }

  function BlockAt(f: Flat, b: LpBlock): BlockOut
    requires BlockIn(f, b)
  {
    BlockOut(b.x, b.y, b.quoteX, b.kind, b.quoteBars,
             seq(b.linesLen, i requires 0 <= i < b.linesLen => LineAt(f, f.lines[b.lines + i])), MarkerAt(f, b))
  }

  // ---------------------------------------------------------------------
  // Shape of the arrays

  /** Ranges that start where the last one ended, from 0 to `end`. */
  ghost predicate Tiles(starts: seq<(nat, nat)>, end: nat) {
    && (forall i :: 0 <= i < |starts| ==> starts[i].0 == EndBefore(starts, i))
    && end == EndBefore(starts, |starts|)
  }

  ghost function EndBefore(starts: seq<(nat, nat)>, i: nat): nat
    requires i <= |starts|
  {
    if i == 0 then 0 else starts[i - 1].0 + starts[i - 1].1
  }

  ghost function GlyphRanges(runs: seq<LpRun>): (r: seq<(nat, nat)>)
    ensures |r| == |runs|
  {
    seq(|runs|, i requires 0 <= i < |runs| => (runs[i].glyphs, runs[i].glyphsLen))
  }

  ghost function RunRanges(lines: seq<LpLine>): (r: seq<(nat, nat)>)
    ensures |r| == |lines|
  {
    seq(|lines|, i requires 0 <= i < |lines| => (lines[i].runs, lines[i].runsLen))
  }

  ghost function ClusterRanges(lines: seq<LpLine>): (r: seq<(nat, nat)>)
    ensures |r| == |lines|
  {
    seq(|lines|, i requires 0 <= i < |lines| => (lines[i].clusters, lines[i].clustersLen))
  }

  /** Tiled ranges partition the array: every element is in exactly one of them. */
  lemma TilesPartition(starts: seq<(nat, nat)>, end: nat, x: nat) returns (i: nat)
    requires Tiles(starts, end) && x < end
    ensures i < |starts| && starts[i].0 <= x < starts[i].0 + starts[i].1 <= end
    ensures forall j :: 0 <= j < |starts| && starts[j].0 <= x < starts[j].0 + starts[j].1 ==> j == i
  {
    hide Tiles, EndBefore;
    TileEnd(starts, end);
    i := FindTile(starts, end, |starts|, x);
    TileAt(starts, end, i);
    EndsIncrease(starts, end, i + 1, |starts|);
    forall j | 0 <= j < |starts| && starts[j].0 <= x < starts[j].0 + starts[j].1
      ensures j == i
    {
      TileAt(starts, end, j);
      if j < i {
        EndsIncrease(starts, end, j + 1, i);
      } else if i < j {
        EndsIncrease(starts, end, i + 1, j);
      }
    }
  }

  lemma {:induction false} FindTile(starts: seq<(nat, nat)>, end: nat, n: nat, x: nat) returns (i: nat)
    requires Tiles(starts, end) && n <= |starts| && x < EndBefore(starts, n)
    ensures i < n && starts[i].0 <= x < starts[i].0 + starts[i].1
  {
    hide Tiles, EndBefore;
    if n == 0 {
      TileZero(starts);
    } else {
      TileAt(starts, end, n - 1);
    }
    if starts[n - 1].0 <= x {
      i := n - 1;
    } else {
      i := FindTile(starts, end, n - 1, x);
    }
  }

  lemma {:induction false} EndsIncrease(starts: seq<(nat, nat)>, end: nat, i: nat, j: nat)
    requires Tiles(starts, end) && i <= j <= |starts|
    ensures EndBefore(starts, i) <= EndBefore(starts, j)
  {
    hide Tiles, EndBefore;
    if i < j {
      EndsIncrease(starts, end, i, j - 1);
      TileAt(starts, end, j - 1);
    }
  }

  lemma TileAt(starts: seq<(nat, nat)>, end: nat, i: nat)
    requires Tiles(starts, end) && i < |starts|
    ensures starts[i].0 == EndBefore(starts, i) && EndBefore(starts, i + 1) == starts[i].0 + starts[i].1
  {
    hide EndBefore;
    EndUnfolds(starts, i);
  }

  lemma EndUnfolds(starts: seq<(nat, nat)>, i: nat)
    requires i < |starts|
    ensures EndBefore(starts, i + 1) == starts[i].0 + starts[i].1
  {}

  lemma TileZero(starts: seq<(nat, nat)>)
    ensures EndBefore(starts, 0) == 0
  {}

  lemma TileEnd(starts: seq<(nat, nat)>, end: nat)
    requires Tiles(starts, end)
    ensures end == EndBefore(starts, |starts|)
  {
    hide EndBefore;
  }

  /** No face twice. */
  ghost predicate FontsDistinct(fonts: seq<LpFont>) {
    forall i, j :: 0 <= i < j < |fonts| ==> fonts[i].data != fonts[j].data || fonts[i].index != fonts[j].index
  }

  ghost predicate Grows(f: Flat, g: Flat) {
    f.lines <= g.lines && f.runs <= g.runs && f.glyphs <= g.glyphs && f.clusters <= g.clusters && f.fonts <= g.fonts
  }

  /** What was readable stays readable, and reads the same, when the arrays grow. */
  lemma LineStable(f: Flat, g: Flat, l: LpLine)
    requires Grows(f, g) && LineIn(f, l)
    ensures LineIn(g, l) && LineAt(g, l) == LineAt(f, l)
  {
    hide RunAt;
    forall i | l.runs <= i < l.runs + l.runsLen
      ensures RunIn(g, g.runs[i]) && RunAt(g, g.runs[i]) == RunAt(f, f.runs[i])
    {
      RunStable(f, g, f.runs[i]);
    }
    var x, y := LineAt(f, l), LineAt(g, l);
    forall i | 0 <= i < l.runsLen
      ensures x.runs[i] == y.runs[i]
    {
      assert f.runs[l.runs + i] == g.runs[l.runs + i];
    }
    forall i | 0 <= i < l.clustersLen
      ensures x.clusters[i] == y.clusters[i]
    {
      ClusterStable(f, g, f.clusters[l.clusters + i]);
      assert f.clusters[l.clusters + i] == g.clusters[l.clusters + i];
    }
  }

  lemma ClusterStable(f: Flat, g: Flat, c: LpCluster)
    requires Grows(f, g) && c.font < |f.fonts|
    ensures c.font < |g.fonts| && ClusterAt(g, c) == ClusterAt(f, c)
  {
    assert g.fonts[..|f.fonts|] == f.fonts;
    assert f.fonts[c.font] == g.fonts[c.font];
  }

  lemma RunStable(f: Flat, g: Flat, r: LpRun)
    requires Grows(f, g) && RunIn(f, r)
    ensures RunIn(g, r) && RunAt(g, r) == RunAt(f, r)
  {
    assert f.glyphs[r.glyphs..r.glyphs + r.glyphsLen] == g.glyphs[r.glyphs..r.glyphs + r.glyphsLen];
  }

  lemma TilesExtend(starts: seq<(nat, nat)>, end: nat, len: nat)
    requires Tiles(starts, end)
    ensures Tiles(starts + [(end, len)], end + len)
  {
    var longer := starts + [(end, len)];
    assert forall i :: 0 <= i <= |starts| ==> EndBefore(longer, i) == EndBefore(starts, i);
  }

  // ---------------------------------------------------------------------
  // Stretches of the arrays that read as expected

  ghost predicate RunReads(f: Flat, i: nat, r: GlyphRun, oy: real) {
    i < |f.runs| && RunIn(f, f.runs[i]) && RunAt(f, f.runs[i]) == ExpectedRun(r, oy)
  }

  ghost predicate RunsRead(f: Flat, at: nat, rs: seq<GlyphRun>, oy: real) {
    forall k :: 0 <= k < |rs| ==> RunReads(f, at + k, rs[k], oy)
  }

  ghost predicate ClusterReads(f: Flat, i: nat, c: ClusterOut) {
    i < |f.clusters| && f.clusters[i].font < |f.fonts| && ClusterAt(f, f.clusters[i]) == c
  }

  /** The first `n` clusters of a line stand from `at` on. */
  ghost predicate ClustersRead(f: Flat, at: nat, cs: seq<(Face, Cluster)>, n: nat, offset: real)
    requires n <= |cs|
  {
    forall k :: 0 <= k < n ==> ClusterReads(f, at + k, ExpectedCluster(cs, k, offset))
  }

  ghost predicate LineReads(f: Flat, i: nat, l: Line, ox: real, oy: real) {
    i < |f.lines| && LineIn(f, f.lines[i]) && LineAt(f, f.lines[i]) == ExpectedLine(l, ox, oy)
  }

  ghost predicate LinesRead(f: Flat, at: nat, ls: seq<Line>, ox: real, oy: real) {
    at + |ls| <= |f.lines| && forall k :: 0 <= k < |ls| ==> LineReads(f, at + k, ls[k], ox, oy)
  }

  lemma RunsReadStable(f: Flat, g: Flat, at: nat, rs: seq<GlyphRun>, oy: real)
    requires Grows(f, g) && RunsRead(f, at, rs, oy)
    ensures RunsRead(g, at, rs, oy)
  {
    hide RunAt, ExpectedRun;
    forall k | 0 <= k < |rs|
      ensures RunReads(g, at + k, rs[k], oy)
    {
      assert RunReads(f, at + k, rs[k], oy);
      assert f.runs[at + k] == g.runs[at + k];
      RunStable(f, g, f.runs[at + k]);
    }
  }

  lemma ClustersReadStable(f: Flat, g: Flat, at: nat, cs: seq<(Face, Cluster)>, n: nat, offset: real)
    requires Grows(f, g) && n <= |cs| && ClustersRead(f, at, cs, n, offset)
    ensures ClustersRead(g, at, cs, n, offset)
  {
    hide ClusterAt, ExpectedCluster;
    forall k | 0 <= k < n
      ensures ClusterReads(g, at + k, ExpectedCluster(cs, k, offset))
    {
      assert ClusterReads(f, at + k, ExpectedCluster(cs, k, offset));
      assert f.clusters[at + k] == g.clusters[at + k];
      ClusterStable(f, g, f.clusters[at + k]);
    }
  }

  lemma LinesReadStable(f: Flat, g: Flat, at: nat, ls: seq<Line>, ox: real, oy: real)
    requires Grows(f, g) && LinesRead(f, at, ls, ox, oy)
    ensures LinesRead(g, at, ls, ox, oy)
  {
    hide LineAt, ExpectedLine, LineIn;
    forall k | 0 <= k < |ls|
      ensures LineReads(g, at + k, ls[k], ox, oy)
    {
      assert LineReads(f, at + k, ls[k], ox, oy);
      assert f.lines[at + k] == g.lines[at + k];
      LineStable(f, g, f.lines[at + k]);
    }
  }

  lemma SmallBack(f: Flat, g: Flat)
    requires Grows(f, g) && Small(g)
    ensures Small(f)
  {}

  lemma GrowsTrans(f: Flat, g: Flat, h: Flat)
    requires Grows(f, g) && Grows(g, h)
    ensures Grows(f, h)
  {}

  /** A line whose ranges cover its runs and clusters reads as the line. */
  lemma LineRangesRead(f: Flat, l: Line, lp: LpLine, ox: real, oy: real)
    requires RunsRead(f, lp.runs, RunsOf(l.items), oy) && lp.runsLen == |RunsOf(l.items)|
    requires ClustersRead(f, lp.clusters, ClustersOf(l.runs), |ClustersOf(l.runs)|, l.offset) && lp.clustersLen == |ClustersOf(l.runs)|
    requires lp.runs + lp.runsLen <= |f.runs| && lp.clusters + lp.clustersLen <= |f.clusters|
    requires lp.x == ox && lp.top == oy + l.minCoord && lp.bottom == oy + l.maxCoord
    ensures LineIn(f, lp) && LineAt(f, lp) == ExpectedLine(l, ox, oy)
  {
    hide RunAt, ExpectedRun, ClusterAt, ExpectedCluster, RunsOf, ClustersOf;
    var rs, cs := RunsOf(l.items), ClustersOf(l.runs);
    forall i | lp.runs <= i < lp.runs + lp.runsLen
      ensures RunIn(f, f.runs[i])
    {
      assert RunReads(f, lp.runs + (i - lp.runs), rs[i - lp.runs], oy);
    }
    forall i | lp.clusters <= i < lp.clusters + lp.clustersLen
      ensures f.clusters[i].font < |f.fonts|
    {
      assert ClusterReads(f, lp.clusters + (i - lp.clusters), ExpectedCluster(cs, i - lp.clusters, l.offset));
    }
    forall k | 0 <= k < |rs|
      ensures LineAt(f, lp).runs[k] == ExpectedRuns(rs, oy)[k]
    {
      assert RunReads(f, lp.runs + k, rs[k], oy);
    }
    forall k | 0 <= k < |cs|
      ensures LineAt(f, lp).clusters[k] == ExpectedClusters(cs, l.offset)[k]
    {
      assert ClusterReads(f, lp.clusters + k, ExpectedCluster(cs, k, l.offset));
    }
  }

  lemma LinesBack(f: Flat, at: nat, ls: seq<Line>, ox: real, oy: real)
    requires LinesRead(f, at, ls, ox, oy)
    ensures forall i :: at <= i < at + |ls| ==> LineIn(f, f.lines[i])
    ensures seq(|ls|, i requires 0 <= i < |ls| => LineAt(f, f.lines[at + i])) == ExpectedLines(ls, ox, oy)
  {
    hide LineIn, LineAt, ExpectedLine;
    forall i | at <= i < at + |ls|
      ensures LineIn(f, f.lines[i]) && LineAt(f, f.lines[i]) == ExpectedLine(ls[i - at], ox, oy)
    {
      assert LineReads(f, at + (i - at), ls[i - at], ox, oy);
    }
  }

  /** A block whose range covers its lines, and whose marker index points at its
      marker's first line, reads as the block; a marker without lines reads as none exactly
      when its index points at no line. */
  lemma BlockRangesRead(f: Flat, p: Placed, b: LpBlock)
    requires b.x == p.x && b.y == p.y && b.quoteX == p.quoteX && b.kind == p.kind && b.quoteBars == p.quoteBars
    requires LinesRead(f, b.lines, if p.kind == BLOCK_RULE then [] else p.lines, p.x, p.y)
    requires b.linesLen == if p.kind == BLOCK_RULE then 0 else |p.lines|
    requires p.marker.Some? ==> LinesRead(f, b.markerLine, p.marker.value.lines, p.marker.value.x, p.y)
    requires p.marker.None? ==> b.markerLine == LAYOUT_NONE
    requires Small(f) && forall i :: 0 <= i < |f.lines| ==> LineIn(f, f.lines[i])
    ensures BlockIn(f, b)
    ensures BlockAt(f, b) == ExpectedBlock(p) <==> p.marker.None? || p.marker.value.lines != [] || b.markerLine >= |f.lines|
  {
    hide LineIn, LineAt, ExpectedLine;
    var ls := if p.kind == BLOCK_RULE then [] else p.lines;
    LinesBack(f, b.lines, ls, p.x, p.y);
    if p.marker.Some? && p.marker.value.lines != [] {
      var m := p.marker.value;
      assert LineReads(f, b.markerLine + 0, m.lines[0], m.x, p.y);
    }
  }
}
