/** The export loops: they push to shared vectors and record ranges. */
module LayoutExport {
  import opened FlatFields
  import opened FlatLayout
  import opened Results

  datatype Bundled = Bundled(data: nat, name: string, mono: bool)

  class LayoutHandle {
    // The bundled faces, identified by the address of their data.
    const bundled: seq<Bundled>
    var blocks: seq<LpBlock>
    var lines: seq<LpLine>
    var runs: seq<LpRun>
    var glyphs: seq<Glyph>
    var clusters: seq<LpCluster>
    var fonts: seq<LpFont>

    ghost function View(): Flat
      reads this
    {
      Flat(blocks, lines, runs, glyphs, clusters, fonts)
    }

    /** Ranges tile the arrays and no font appears twice. */
    ghost predicate Valid()
      reads `fonts, `runs, `glyphs, `lines, `clusters
    {
      && FontsDistinct(fonts)
      && Tiles(GlyphRanges(runs), |glyphs|)
      && Tiles(RunRanges(lines), |runs|) && Tiles(ClusterRanges(lines), |clusters|)
    }

    constructor (bundled: seq<Bundled>)
      ensures Valid() && View() == Flat([], [], [], [], [], []) && this.bundled == bundled
    {
      this.bundled := bundled;
      blocks, lines, runs, glyphs, clusters, fonts := [], [], [], [], [], [];
    }

    /** The index of the face's entry, which is added when there is none. */
    method FontIndex(face: Face) returns (at: nat)
      requires FontsDistinct(fonts)
      modifies this`fonts
      ensures FontsDistinct(fonts) && old(fonts) <= fonts
      ensures |fonts| <= U32_MAX ==> at < |fonts| && FaceAt(View(), at) == face
      ensures (exists i :: 0 <= i < |old(fonts)| && Face(old(fonts)[i].data, old(fonts)[i].index) == face) ==> fonts == old(fonts)
      ensures (forall i :: 0 <= i < |old(fonts)| ==> Face(old(fonts)[i].data, old(fonts)[i].index) != face) ==>
        |fonts| == |old(fonts)| + 1 && Describes(fonts[|old(fonts)|], face)
    {
      for i := 0 to |fonts|
        invariant fonts == old(fonts)
        invariant forall k :: 0 <= k < i ==> fonts[k].data != face.data || fonts[k].index != face.index
      {
        if fonts[i].data == face.data && fonts[i].index == face.index {
          return U32(i);
        }
      }
      var name, mono := "DejaVuSans", false;
      ghost var first := |bundled|;
      for i := 0 to |bundled|
        invariant fonts == old(fonts) && name == "DejaVuSans" && !mono && first == |bundled|
        invariant forall k :: 0 <= k < i ==> bundled[k].data != face.data
      {
        if bundled[i].data == face.data {
          name, mono, first := bundled[i].name, bundled[i].mono, i;
          break;
        }
      }
      assert first < |bundled| ==> bundled[first].data == face.data;
      fonts := fonts + [LpFont(face.data, face.index, name, mono)];
      at := U32(|fonts| - 1);
    }

    /** The entry of a face: called as the first bundled face with its data, or by default
        `DejaVuSans`, not monospaced. */
    ghost predicate Describes(f: LpFont, face: Face) {
      && f.data == face.data && f.index == face.index
      && ((forall i :: 0 <= i < |bundled| ==> bundled[i].data != face.data) ==> f.name == "DejaVuSans" && !f.mono)
      && (forall i :: 0 <= i < |bundled| && bundled[i].data == face.data && (forall j :: 0 <= j < i ==> bundled[j].data != face.data) ==>
            f.name == bundled[i].name && f.mono == bundled[i].mono)
    }

    /** Appends one glyph run. */
    method ExportRun(r: GlyphRun, oy: real)
      requires FontsDistinct(fonts) && (Small(View()) ==> Tiles(GlyphRanges(runs), |glyphs|))
      modifies this`fonts, this`glyphs, this`runs
      ensures FontsDistinct(fonts) && Grows(old(View()), View())
      ensures |runs| == |old(runs)| + 1
      ensures Small(View()) ==>
        && Tiles(GlyphRanges(runs), |glyphs|)
        && RunIn(View(), runs[|old(runs)|]) && RunAt(View(), runs[|old(runs)|]) == ExpectedRun(r, oy)
      ensures var run := runs[|old(runs)|];
        && Shows(run.color, r.brush)
        && Decorates(run.underline, r.underline, r.underlineOffset, r.underlineSize)
        && Decorates(run.strike, r.strike, r.strikeOffset, r.strikeSize)
    {
      hide Shows, Decorates, Deco, Rgb.Packed;
      PackedReadsBack(r.brush);
      DecorationFields(r.underline, r.underlineOffset, r.underlineSize);
      DecorationFields(r.strike, r.strikeOffset, r.strikeSize);
      var start := U32(|glyphs|);
      for i := 0 to |r.glyphs|
        invariant glyphs == old(glyphs) + r.glyphs[..i]
        invariant fonts == old(fonts) && runs == old(runs)
      {
        assert r.glyphs[..i + 1] == r.glyphs[..i] + [r.glyphs[i]];
        glyphs := glyphs + [Glyph(r.glyphs[i].id, r.glyphs[i].x, r.glyphs[i].y, r.glyphs[i].advance)];
      }
      assert glyphs == old(glyphs) + r.glyphs;
      var underline := Deco(r.underline, r.underlineOffset, r.underlineSize);
      var strike := Deco(r.strike, r.strikeOffset, r.strikeSize);
      var font := FontIndex(r.face);
      var run := LpRun(font, r.size, if r.skew.Some? then r.skew.value else 0.0, r.brush.Packed(), r.offset, oy + r.baseline,
                       r.advance, start, Sub32(U32(|glyphs|), start), underline, strike);
      ghost var before := runs;
      runs := runs + [run];
      RunPushed(old(View()), View(), run, r, oy);
    }

    /** The runs of one line. */
    method ExportRuns(items: seq<Item>, oy: real)
      requires FontsDistinct(fonts) && (Small(View()) ==> Tiles(GlyphRanges(runs), |glyphs|))
      modifies this`fonts, this`glyphs, this`runs
      ensures FontsDistinct(fonts) && Grows(old(View()), View())
      ensures |runs| == |old(runs)| + |RunsOf(items)|
      ensures Small(View()) ==> Tiles(GlyphRanges(runs), |glyphs|) && RunsRead(View(), |old(runs)|, RunsOf(items), oy)
    {
      hide Tiles, RunsRead, RunIn, RunAt, ExpectedRun, FontsDistinct, Grows, Small, RunsOf;
      GrowsSame(View());
      NoRuns(View(), |runs|, oy);
      ghost var done: seq<GlyphRun> := [];
      for i := 0 to |items|
        invariant FontsDistinct(fonts) && Grows(old(View()), View())
        invariant RunsOf(items) == done + RunsOf(items[i..]) && |runs| == |old(runs)| + |done|
        invariant Small(View()) ==> Tiles(GlyphRanges(runs), |glyphs|) && RunsRead(View(), |old(runs)|, done, oy)
      {
        RunsLeft(items, i);
        if items[i].Run? {
          ghost var before := View();
          ExportRun(items[i].run, oy);
          GrowsTrans(old(View()), before, View());
          if Small(View()) {
            SmallBack(before, View());
            RunsReadPush(before, View(), |old(runs)|, done, items[i].run, oy);
          }
          done := done + [items[i].run];
        }
      }
      assert items[|items|..] == [] && RunsOf(items) == done + RunsOf([]);
      NoRunsLeft();
      assert done + [] == done;
    }

    static lemma RunsLeft(items: seq<Item>, i: nat)
      requires i < |items|
      ensures RunsOf(items[i..]) == (if items[i].Run? then [items[i].run] else []) + RunsOf(items[i + 1..])
    {
      assert items[i..][1..] == items[i + 1..];
    }

    static lemma NoRunsLeft()
      ensures RunsOf([]) == []
    {}

    static lemma NoRuns(f: Flat, at: nat, oy: real)
      ensures RunsRead(f, at, [], oy)
    {}

    static lemma RunsReadPush(f: Flat, g: Flat, at: nat, rs: seq<GlyphRun>, r: GlyphRun, oy: real)
      requires Grows(f, g) && RunsRead(f, at, rs, oy) && RunReads(g, at + |rs|, r, oy)
      ensures RunsRead(g, at, rs + [r], oy)
    {
      hide RunReads;
      RunsReadStable(f, g, at, rs, oy);
    }

    /** The clusters of one run, from pen position `x` on. */
    method PushClusters(run: TextRun, font: nat, pen: real, ghost cs: seq<(Face, Cluster)>, ghost m: nat, ghost at: nat, ghost offset: real)
      returns (x: real)
      requires m + |run.clusters| <= |cs| && forall i :: 0 <= i < |run.clusters| ==> cs[m + i] == (run.face, run.clusters[i])
      requires |clusters| == at + m && pen == offset + Advances(cs[..m])
      requires |fonts| <= U32_MAX ==> font < |fonts| && FaceAt(View(), font) == run.face
      requires Small(View()) ==> ClustersRead(View(), at, cs, m, offset)
      modifies this`clusters
      ensures Grows(old(View()), View())
      ensures |clusters| == at + m + |run.clusters| && x == offset + Advances(cs[..m + |run.clusters|])
      ensures Small(View()) ==> ClustersRead(View(), at, cs, m + |run.clusters|, offset)
    {
      hide ClustersRead, Advances, Grows;
      x := pen;
      GrowsSame(View());
      for i := 0 to |run.clusters|
        invariant Grows(old(View()), View())
        invariant |clusters| == at + m + i && x == offset + Advances(cs[..m + i])
        invariant Small(View()) ==> ClustersRead(View(), at, cs, m + i, offset)
      {
        var c := run.clusters[i];
        assert cs[m + i] == (run.face, c);
        AdvancesNext(cs, m + i);
        ghost var prior := View();
        var flags := 0;
        if c.ligatureStart {
          flags := flags + LIGATURE_START;
        }
        if c.ligatureCont {
          flags := flags + LIGATURE_CONT;
        }
        clusters := clusters + [LpCluster(font, if c.glyphs == [] then LAYOUT_NONE else c.glyphs[0], U32(c.start), U32(c.len), x, c.advance, flags)];
        GrowsByClusters(prior, View());
        GrowsTrans(old(View()), prior, View());
        ClusterPushed(prior, View(), at, cs, m + i, offset);
        x := x + c.advance;
      }
    }

    static lemma GrowsSame(f: Flat)
      ensures Grows(f, f)
    {}

    static lemma GrowsByClusters(f: Flat, g: Flat)
      requires g == f.(clusters := g.clusters) && f.clusters <= g.clusters
      ensures Grows(f, g)
    {}

    static lemma AdvancesNext(cs: seq<(Face, Cluster)>, n: nat)
      requires n < |cs|
      ensures Advances(cs[..n + 1]) == Advances(cs[..n]) + cs[n].1.advance
    {
      assert cs[..n + 1][..n] == cs[..n];
    }

    /** The clusters of one line, placed by accumulating advances. */
    method ExportClusters(textRuns: seq<TextRun>, offset: real)
      requires FontsDistinct(fonts)
      modifies this`fonts, this`clusters
      ensures FontsDistinct(fonts) && Grows(old(View()), View())
      ensures |clusters| == |old(clusters)| + |ClustersOf(textRuns)|
      ensures Small(View()) ==> ClustersRead(View(), |old(clusters)|, ClustersOf(textRuns), |ClustersOf(textRuns)|, offset)
    {
      hide FontsDistinct, ClustersRead, Advances, Grows, Faced, ClustersOf, ExpectedCluster;
      var x := offset;
      ghost var cs := ClustersOf(textRuns);
      ghost var n: nat := 0;
      ghost var at := |clusters|;
      GrowsSame(View());
      NoClusters(View(), at, cs, offset);
      assert textRuns[0..] == textRuns && cs[0..] == cs;
      for j := 0 to |textRuns|
        invariant FontsDistinct(fonts) && Grows(old(View()), View()) && n <= |cs|
        invariant cs[n..] == ClustersOf(textRuns[j..]) && |clusters| == at + n
        invariant x == offset + Advances(cs[..n])
        invariant Small(View()) ==> ClustersRead(View(), at, cs, n, offset)
      {
        var run := textRuns[j];
        NextRun(textRuns, j, cs, n);
        ghost var before := View();
        var font := FontIndex(run.face);
        GrowsByFonts(before, View());
        if Small(View()) {
          SmallBack(before, View());
          ClustersReadStable(before, View(), at, cs, n, offset);
        }
        ghost var prior := View();
        x := PushClusters(run, font, x, cs, n, at, offset);
        GrowsTrans(old(View()), before, prior);
        GrowsTrans(old(View()), prior, View());
        n := n + |run.clusters|;
      }
      assert textRuns[|textRuns|..] == [];
      AllClusters(cs, n);
    }

    static lemma NoClusters(f: Flat, at: nat, cs: seq<(Face, Cluster)>, offset: real)
      ensures ClustersRead(f, at, cs, 0, offset) && Advances(cs[..0]) == 0.0
    {}

    static lemma AllClusters(cs: seq<(Face, Cluster)>, n: nat)
      requires n <= |cs| && cs[n..] == ClustersOf([])
      ensures n == |cs|
    {}

    static lemma GrowsByFonts(f: Flat, g: Flat)
      requires g == f.(fonts := g.fonts) && f.fonts <= g.fonts
      ensures Grows(f, g)
    {}

    /** The clusters still to come are those of run `j`, then those of the later runs. */
    static lemma NextRun(textRuns: seq<TextRun>, j: nat, cs: seq<(Face, Cluster)>, n: nat)
      requires j < |textRuns| && n <= |cs| && cs[n..] == ClustersOf(textRuns[j..])
      ensures var run := textRuns[j];
        && n + |run.clusters| <= |cs|
        && (forall i :: 0 <= i < |run.clusters| ==> cs[n + i] == (run.face, run.clusters[i]))
        && cs[n + |run.clusters|..] == ClustersOf(textRuns[j + 1..])
    {
      var run := textRuns[j];
      assert textRuns[j..][1..] == textRuns[j + 1..];
      assert cs[n..] == Faced(run) + ClustersOf(textRuns[j + 1..]);
      assert forall i :: 0 <= i < |run.clusters| ==> cs[n + i] == cs[n..][i] == Faced(run)[i];
      assert cs[n + |run.clusters|..] == cs[n..][|run.clusters|..];
    }

    /** One line: its runs, its clusters, then the line record. */
    method ExportLine(l: Line, ox: real, oy: real)
      requires FontsDistinct(fonts) && (Small(View()) ==> Valid())
      modifies this`fonts, this`glyphs, this`runs, this`clusters, this`lines
      ensures FontsDistinct(fonts) && (Small(View()) ==> Valid()) && Grows(old(View()), View())
      ensures |lines| == |old(lines)| + 1
      ensures Small(View()) ==> LinesRead(View(), |old(lines)|, [l], ox, oy)
    {
      hide Tiles, RunsRead, ClustersRead, FontsDistinct, LineIn, LineAt, ExpectedLine, RunsOf, ClustersOf;
      var runsAt := U32(|runs|);
      ExportRuns(l.items, oy);
      var runsLen := Sub32(U32(|runs|), runsAt);
      ghost var mid := View();
      var clustersAt := U32(|clusters|);
      ExportClusters(l.runs, l.offset);
      var clustersLen := Sub32(U32(|clusters|), clustersAt);
      ghost var last := View();
      var lp := LpLine(ox, oy + l.minCoord, oy + l.maxCoord, runsAt, runsLen, clustersAt, clustersLen);
      lines := lines + [lp];
      LinePushed(old(View()), mid, last, View(), l, lp, ox, oy);
    }

    method ExportLayout(ls: seq<Line>, ox: real, oy: real)
      requires FontsDistinct(fonts) && (Small(View()) ==> Valid())
      modifies this`fonts, this`glyphs, this`runs, this`clusters, this`lines
      ensures FontsDistinct(fonts) && (Small(View()) ==> Valid()) && Grows(old(View()), View())
      ensures |lines| == |old(lines)| + |ls|
      ensures Small(View()) ==> LinesRead(View(), |old(lines)|, ls, ox, oy)
    {
      hide LineIn, LineAt, ExpectedLine, FontsDistinct, Valid;
      for k := 0 to |ls|
        invariant FontsDistinct(fonts) && (Small(View()) ==> Valid()) && Grows(old(View()), View())
        invariant |lines| == |old(lines)| + k && blocks == old(blocks)
        invariant Small(View()) ==> LinesRead(View(), |old(lines)|, ls[..k], ox, oy)
      {
        ghost var before := View();
        ExportLine(ls[k], ox, oy);
        if Small(View()) {
          SmallBack(before, View());
          LinesReadStable(before, View(), |old(lines)|, ls[..k], ox, oy);
          LinesJoin(View(), |old(lines)|, ls[..k], [ls[k]], ox, oy);
        }
        assert ls[..k + 1] == ls[..k] + [ls[k]];
      }
      assert ls[..|ls|] == ls;
    }

    /** Exports the placed blocks into an empty handle. When no count outgrows an index, a
        block reads back as exactly the block placed if and only if it has no marker, or one
        with lines, or no line follows its own: a marker without lines takes the next one. */
    method Export(placed: seq<Placed>)
      requires View() == Flat([], [], [], [], [], [])
      modifies this
      ensures FontsDistinct(fonts) && |blocks| == |placed|
      ensures Small(View()) ==> Valid()
      ensures Small(View()) ==> forall k :: 0 <= k < |placed| ==>
        && BlockIn(View(), blocks[k])
        && (BlockAt(View(), blocks[k]) == ExpectedBlock(placed[k]) <==> MarkerKept(placed, k))
      ensures |lines| == LinesBefore(placed, |placed|)
      ensures Small(View()) ==> forall k :: 0 <= k < |placed| ==> BlockSits(placed, k, blocks[k])
    {
      hide LinesRead, FontsDistinct, Valid, BlockIn, BlockAt, ExpectedBlock, Grows, BlockRead, BlockSits, BlocksRead, MarkerKept;
      EmptyValid();
      NoBlocks(View(), placed);
      for k := 0 to |placed|
        invariant FontsDistinct(fonts) && (Small(View()) ==> Valid()) && |blocks| == k
        invariant Small(View()) ==> BlocksRead(View(), placed, blocks)
        invariant |lines| == LinesBefore(placed, k)
      {
        ghost var before := View();
        var b := ExportBlock(placed[k]);
        ghost var mid := View();
        blocks := blocks + [b];
        GrowsByBlocks(mid, View());
        if Small(View()) {
          SmallBack(before, mid);
          assert BlockSits(placed, k, b) by { Sits(placed, k, b); }
          BlocksPush(before, mid, View(), placed, b);
        }
      }
      if Small(View()) {
        BlocksReadBack(View(), placed);
      }
    }

    lemma EmptyValid()
      requires View() == Flat([], [], [], [], [], [])
      ensures Valid() && FontsDistinct(fonts)
    {}

    static lemma NoLines(f: Flat, at: nat, x: real, y: real)
      requires at <= |f.lines|
      ensures LinesRead(f, at, [], x, y)
    {}

    static lemma SmallIndex(f: Flat, n: nat)
      requires Small(f) && n <= |f.lines|
      ensures n <= U32_MAX
    {}

    method ExportBlock(p: Placed) returns (b: LpBlock)
      requires FontsDistinct(fonts) && (Small(View()) ==> Valid())
      modifies this`fonts, this`glyphs, this`runs, this`clusters, this`lines
      ensures FontsDistinct(fonts) && (Small(View()) ==> Valid()) && Grows(old(View()), View())
      ensures Small(View()) ==> BlockRead(View(), p, b)
      ensures |lines| == |old(lines)| + OwnLines(p) + MarkerLines(p)
      ensures Small(View()) ==> b.lines == |old(lines)| && b.linesLen == OwnLines(p) && (p.marker.Some? ==> b.markerLine == |old(lines)| + OwnLines(p))
    {
      hide FontsDistinct, Valid, LinesRead, Grows;
      GrowsSame(View());
      NoLines(View(), |lines|, p.x, p.y);
      var at := U32(|lines|);
      ghost var first := |lines|;
      if p.kind != BLOCK_RULE {
        ExportLayout(p.lines, p.x, p.y);
      }
      var len := Sub32(U32(|lines|), at);
      ghost var mid := View();
      ghost var markerAt := |lines|;
      var markerLine := LAYOUT_NONE;
      if p.marker.Some? {
        markerLine := U32(|lines|);
        ExportLayout(p.marker.value.lines, p.marker.value.x, p.y);
      }
      b := LpBlock(p.x, p.y, p.quoteX, at, len, markerLine, p.kind, p.quoteBars);
      GrowsSame(mid);
      GrowsTrans(old(View()), mid, View());
      if Small(View()) {
        SmallBack(mid, View());
        SmallIndex(View(), markerAt);
        Narrow(markerAt, first);
        LinesReadStable(mid, View(), first, if p.kind == BLOCK_RULE then [] else p.lines, p.x, p.y);
      }
    }
  }

  /** The block record and the lines it points at. */
  ghost predicate BlockRead(f: Flat, p: Placed, b: LpBlock) {
    && b.x == p.x && b.y == p.y && b.quoteX == p.quoteX && b.kind == p.kind && b.quoteBars == p.quoteBars
    && LinesRead(f, b.lines, if p.kind == BLOCK_RULE then [] else p.lines, p.x, p.y)
    && b.linesLen == (if p.kind == BLOCK_RULE then 0 else |p.lines|)
    && (p.marker.Some? ==> LinesRead(f, b.markerLine, p.marker.value.lines, p.marker.value.x, p.y))
    && (p.marker.None? ==> b.markerLine == LAYOUT_NONE)
  }

  /** A block record that points where the lines of the blocks before it end. */
  ghost predicate BlockSits(placed: seq<Placed>, k: nat, b: LpBlock)
    requires k < |placed|
  {
    && b.lines == LinesBefore(placed, k) && b.linesLen == OwnLines(placed[k])
    && (placed[k].marker.Some? ==> b.markerLine == LinesBefore(placed, k) + OwnLines(placed[k]))
  }

  ghost predicate BlocksRead(f: Flat, placed: seq<Placed>, blocks: seq<LpBlock>) {
    |blocks| <= |placed| && forall j :: 0 <= j < |blocks| ==> BlockRead(f, placed[j], blocks[j]) && BlockSits(placed, j, blocks[j])
  }

  lemma Sits(placed: seq<Placed>, k: nat, b: LpBlock)
    requires k < |placed| && b.lines == LinesBefore(placed, k) && b.linesLen == OwnLines(placed[k])
    requires placed[k].marker.Some? ==> b.markerLine == LinesBefore(placed, k) + OwnLines(placed[k])
    ensures BlockSits(placed, k, b)
  {}

  lemma NoBlocks(f: Flat, placed: seq<Placed>)
    ensures BlocksRead(f, placed, []) && LinesBefore(placed, 0) == 0
  {}

  lemma BlocksPush(f: Flat, mid: Flat, g: Flat, placed: seq<Placed>, b: LpBlock)
    requires Grows(f, mid) && mid.blocks == f.blocks && g == mid.(blocks := mid.blocks + [b])
    requires BlocksRead(f, placed, f.blocks) && |f.blocks| < |placed|
    requires BlockRead(mid, placed[|f.blocks|], b) && BlockSits(placed, |f.blocks|, b)
    ensures BlocksRead(g, placed, g.blocks)
  {
    hide BlockSits, BlockRead, Grows;
    GrowsByBlocks(mid, g);
    GrowsTrans(f, mid, g);
    forall j | 0 <= j < |g.blocks|
      ensures BlockRead(g, placed[j], g.blocks[j]) && BlockSits(placed, j, g.blocks[j])
    {
      if j < |f.blocks| {
        BlockReadStable(f, g, placed[j], f.blocks[j]);
      } else {
        BlockReadStable(mid, g, placed[j], b);
      }
    }
  }

  /** Nothing else can be taken for the marker of block `k`. */
  ghost predicate MarkerKept(placed: seq<Placed>, k: nat)
    requires k < |placed|
  {
    || placed[k].marker.None? || placed[k].marker.value.lines != []
    || LinesBefore(placed, k) + OwnLines(placed[k]) == LinesBefore(placed, |placed|)
  }

  lemma BlocksReadBack(f: Flat, placed: seq<Placed>)
    requires Small(f) && BlocksRead(f, placed, f.blocks) && |f.blocks| == |placed| && |f.lines| == LinesBefore(placed, |placed|)
    ensures forall k :: 0 <= k < |placed| ==> BlockSits(placed, k, f.blocks[k])
    ensures forall k :: 0 <= k < |placed| ==>
      BlockIn(f, f.blocks[k]) && (BlockAt(f, f.blocks[k]) == ExpectedBlock(placed[k]) <==> MarkerKept(placed, k))
  {
    hide BlockRead, BlockIn, BlockAt, ExpectedBlock, LineIn, BlockSits, MarkerKept, LinesBefore, BlocksRead;
    forall i | 0 <= i < |f.lines|
      ensures LineIn(f, f.lines[i])
    {
      LineOfBlock(f, placed, |placed|, i);
    }
    forall k | 0 <= k < |placed|
      ensures BlockSits(placed, k, f.blocks[k])
      ensures BlockIn(f, f.blocks[k]) && (BlockAt(f, f.blocks[k]) == ExpectedBlock(placed[k]) <==> MarkerKept(placed, k))
    {
      BlockOf(f, placed, k);
      BlockReadBack(f, placed[k], f.blocks[k]);
    }
  }

  lemma BlockOf(f: Flat, placed: seq<Placed>, k: nat)
    requires BlocksRead(f, placed, f.blocks) && k < |f.blocks| == |placed| && |f.lines| == LinesBefore(placed, |placed|)
    ensures BlockRead(f, placed[k], f.blocks[k]) && BlockSits(placed, k, f.blocks[k])
    ensures var p := placed[k];
      (p.marker.None? || p.marker.value.lines != [] || f.blocks[k].markerLine >= |f.lines|) <==> MarkerKept(placed, k)
  {
    hide BlockRead;
    LinesGrow(placed, k + 1, |placed|);
  }

  /** Every line is one of some block's own lines or of its marker's. */
  lemma {:induction false} LineOfBlock(f: Flat, placed: seq<Placed>, n: nat, i: nat)
    requires BlocksRead(f, placed, f.blocks) && n <= |f.blocks| && i < LinesBefore(placed, n) <= |f.lines|
    ensures LineIn(f, f.lines[i])
  {
    hide *;
    LastBlock(f, placed, n);
    if i < LinesBefore(placed, n - 1) {
      LineOfBlock(f, placed, n - 1, i);
    } else {
      BlockLinesIn(f, placed[n - 1], f.blocks[n - 1], i);
    }
  }

  lemma LastBlock(f: Flat, placed: seq<Placed>, n: nat)
    requires BlocksRead(f, placed, f.blocks) && n <= |f.blocks|
    ensures |f.blocks| <= |placed| && LinesBefore(placed, 0) == 0
    ensures n > 0 ==>
      && LinesBefore(placed, n) == LinesBefore(placed, n - 1) + OwnLines(placed[n - 1]) + MarkerLines(placed[n - 1])
      && (placed[n - 1].marker.None? ==> MarkerLines(placed[n - 1]) == 0)
      && BlockRead(f, placed[n - 1], f.blocks[n - 1]) && f.blocks[n - 1].lines == LinesBefore(placed, n - 1)
      && (placed[n - 1].marker.Some? ==> f.blocks[n - 1].markerLine == LinesBefore(placed, n - 1) + OwnLines(placed[n - 1]))
  {
    hide BlockRead;
    if n > 0 {
      assert BlockSits(placed, n - 1, f.blocks[n - 1]);
    }
  }

  lemma BlockLinesIn(f: Flat, p: Placed, b: LpBlock, i: nat)
    requires BlockRead(f, p, b) && i < |f.lines|
    requires b.lines <= i < b.lines + OwnLines(p) || (p.marker.Some? && b.markerLine <= i < b.markerLine + MarkerLines(p))
    ensures LineIn(f, f.lines[i])
  {
    hide LineIn, LinesRead;
    LinesBack(f, b.lines, if p.kind == BLOCK_RULE then [] else p.lines, p.x, p.y);
    if p.marker.Some? {
      LinesBack(f, b.markerLine, p.marker.value.lines, p.marker.value.x, p.y);
    }
  }

  lemma {:induction false} LinesGrow(placed: seq<Placed>, i: nat, j: nat)
    requires i <= j <= |placed|
    ensures LinesBefore(placed, i) <= LinesBefore(placed, j)
  {
    if i < j {
      LinesGrow(placed, i, j - 1);
    }
  }

  lemma GrowsByBlocks(f: Flat, g: Flat)
    requires g == f.(blocks := g.blocks)
    ensures Grows(f, g) && Small(f) == Small(g)
  {}

  lemma BlockReadBack(f: Flat, p: Placed, b: LpBlock)
    requires BlockRead(f, p, b) && Small(f) && forall i :: 0 <= i < |f.lines| ==> LineIn(f, f.lines[i])
    ensures BlockIn(f, b)
    ensures BlockAt(f, b) == ExpectedBlock(p) <==> p.marker.None? || p.marker.value.lines != [] || b.markerLine >= |f.lines|
  {
    hide LineIn, LineAt, ExpectedLine;
    BlockRangesRead(f, p, b);
  }

  lemma BlockReadStable(f: Flat, g: Flat, p: Placed, b: LpBlock)
    requires Grows(f, g) && BlockRead(f, p, b)
    ensures BlockRead(g, p, b)
  {
    hide LinesRead, Grows;
    LinesReadStable(f, g, b.lines, if p.kind == BLOCK_RULE then [] else p.lines, p.x, p.y);
    if p.marker.Some? {
      LinesReadStable(f, g, b.markerLine, p.marker.value.lines, p.marker.value.x, p.y);
    }
  }

  lemma LinesJoin(f: Flat, at: nat, xs: seq<Line>, ys: seq<Line>, ox: real, oy: real)
    requires LinesRead(f, at, xs, ox, oy) && LinesRead(f, at + |xs|, ys, ox, oy)
    ensures LinesRead(f, at, xs + ys, ox, oy)
  {
    hide LineIn, LineAt, ExpectedLine;
    forall k | 0 <= k < |xs + ys|
      ensures LineReads(f, at + k, (xs + ys)[k], ox, oy)
    {
      if k < |xs| {
        assert LineReads(f, at + k, xs[k], ox, oy);
      } else {
        assert LineReads(f, at + |xs| + (k - |xs|), ys[k - |xs|], ox, oy);
      }
    }
  }

  lemma ClusterPushed(f: Flat, g: Flat, at: nat, cs: seq<(Face, Cluster)>, n: nat, offset: real)
    requires Grows(f, g) && n < |cs| && |f.clusters| == at + n && |g.clusters| == at + n + 1
    requires Small(f) ==> ClustersRead(f, at, cs, n, offset)
    requires |g.fonts| <= U32_MAX ==> g.clusters[at + n].font < |g.fonts| && FaceAt(g, g.clusters[at + n].font) == cs[n].0
    requires var c := g.clusters[at + n];
      && c.glyph == (if cs[n].1.glyphs == [] then LAYOUT_NONE else cs[n].1.glyphs[0])
      && c.textStart == U32(cs[n].1.start) && c.textLen == U32(cs[n].1.len)
      && c.x == offset + Advances(cs[..n]) && c.advance == cs[n].1.advance && c.flags == Flags(cs[n].1)
    ensures Small(g) ==> ClustersRead(g, at, cs, n + 1, offset)
  {
    if Small(g) {
      SmallBack(f, g);
      ClustersReadStable(f, g, at, cs, n, offset);
    }
  }

  /** The line record behind its runs and clusters: the ranges tile and the line reads. */
  lemma LinePushed(f: Flat, mid: Flat, last: Flat, g: Flat, l: Line, lp: LpLine, ox: real, oy: real)
    requires Grows(f, mid) && Grows(mid, last) && g == last.(lines := last.lines + [lp]) && f.lines == mid.lines == last.lines
    requires f.clusters == mid.clusters && mid.runs == last.runs && mid.glyphs == last.glyphs
    requires Small(f) ==> Tiles(RunRanges(f.lines), |f.runs|) && Tiles(ClusterRanges(f.lines), |f.clusters|)
    requires |mid.runs| == |f.runs| + |RunsOf(l.items)| && |last.clusters| == |f.clusters| + |ClustersOf(l.runs)|
    requires Small(mid) ==> RunsRead(mid, |f.runs|, RunsOf(l.items), oy)
    requires Small(last) ==> ClustersRead(last, |f.clusters|, ClustersOf(l.runs), |ClustersOf(l.runs)|, l.offset)
    requires lp == LpLine(ox, oy + l.minCoord, oy + l.maxCoord,
                          U32(|f.runs|), Sub32(U32(|mid.runs|), U32(|f.runs|)),
                          U32(|f.clusters|), Sub32(U32(|last.clusters|), U32(|f.clusters|)))
    ensures Small(g) ==> LinesRead(g, |f.lines|, [l], ox, oy) && Tiles(RunRanges(g.lines), |g.runs|) && Tiles(ClusterRanges(g.lines), |g.clusters|)
  {
    hide Tiles, RunsRead, ClustersRead, LineIn, LineAt, ExpectedLine, RunsOf, ClustersOf;
    if Small(g) {
      SmallBack(mid, last);
      SmallBack(f, mid);
      Narrow(|mid.runs|, |f.runs|);
      Narrow(|last.clusters|, |f.clusters|);
      GrowsTrans(mid, last, g);
      RunsReadStable(mid, g, |f.runs|, RunsOf(l.items), oy);
      ClustersReadStable(last, g, |f.clusters|, ClustersOf(l.runs), |ClustersOf(l.runs)|, l.offset);
      LineRangesRead(g, l, lp, ox, oy);
      assert LineReads(g, |f.lines|, l, ox, oy);
      TilesExtend(RunRanges(f.lines), |f.runs|, lp.runsLen);
      TilesExtend(ClusterRanges(f.lines), |f.clusters|, lp.clustersLen);
      assert RunRanges(g.lines) == RunRanges(f.lines) + [(|f.runs|, lp.runsLen)];
      assert ClusterRanges(g.lines) == ClusterRanges(f.lines) + [(|f.clusters|, lp.clustersLen)];
    }
  }

  /** A run pushed behind its glyphs and its font reads as expected. */
  lemma RunPushed(f: Flat, g: Flat, run: LpRun, r: GlyphRun, oy: real)
    requires Small(f) ==> Tiles(GlyphRanges(f.runs), |f.glyphs|)
    requires Grows(f, g)
    requires g.runs == f.runs + [run] && g.glyphs == f.glyphs + r.glyphs
    requires run.glyphs == U32(|f.glyphs|) && run.glyphsLen == Sub32(U32(|g.glyphs|), U32(|f.glyphs|))
    requires |g.fonts| <= U32_MAX ==> run.font < |g.fonts| && FaceAt(g, run.font) == r.face
    requires var e := ExpectedRun(r, oy);
      && run.size == e.size && run.skew == e.skew && run.color == e.color && run.offset == e.offset && run.baseline == e.baseline
      && run.advance == e.advance && run.underline == e.underline && run.strike == e.strike
    ensures Small(g) ==> Tiles(GlyphRanges(g.runs), |g.glyphs|) && RunIn(g, run) && RunAt(g, run) == ExpectedRun(r, oy)
  {
    hide Tiles;
    if Small(g) {
      SmallBack(f, g);
      Narrow(|g.glyphs|, |f.glyphs|);
      assert g.glyphs[run.glyphs..run.glyphs + run.glyphsLen] == r.glyphs;
      TilesExtend(GlyphRanges(f.runs), |f.glyphs|, |r.glyphs|);
      assert GlyphRanges(g.runs) == GlyphRanges(f.runs) + [(|f.glyphs|, |r.glyphs|)];
    }
  }
}
