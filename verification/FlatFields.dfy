/** What the exported records hold, field by field, and what a consumer reads from them. */
module FlatFields {
  import opened FlatLayout
  import opened Results

  // ---------------------------------------------------------------------
  // Colours and decorations

  /** Red, green and blue from the top byte down. */
  ghost predicate Shows(color: nat, c: Rgb) {
    color / 0x1_0000 == c.r && color / 0x100 % 0x100 == c.g && color % 0x100 == c.b
  }

  lemma PackedReadsBack(c: Rgb)
    ensures Shows(c.Packed(), c)
  {
    LastByte(c.r * 0x100 + c.g, c.b);
    LastByte(c.r, c.g);
    assert c.Packed() == (c.r * 0x100 + c.g) * 0x100 + c.b;
    Quotients(c.Packed());
  }

  lemma LastByte(front: nat, last: octet)
    ensures (front * 0x100 + last) / 0x100 == front && (front * 0x100 + last) % 0x100 == last
  {}

  lemma Quotients(n: nat)
    ensures n / 0x100 / 0x100 == n / 0x1_0000
  {}

  /** The record of a decoration. One that is present has its own offset and thickness where
      it gives them, the run's metrics elsewhere, and is at least one px thick; one that is
      absent is all zero. */
  ghost predicate Decorates(e: LpDecoration, d: Option<Decoration>, offset: real, size: real) {
    match d
    case None => e.enabled == 0 && e.offset == 0.0 && e.size == 0.0 && e.color == 0
    case Some(d) =>
      var wanted := match d.size case Some(own) => own case None => size;
      && e.enabled == 1 && Shows(e.color, d.brush)
      && e.offset == (match d.offset case Some(own) => own case None => offset)
      && e.size >= 1.0 && e.size >= wanted && (e.size == 1.0 || e.size == wanted)
  }

  lemma DecorationFields(d: Option<Decoration>, offset: real, size: real)
    ensures Decorates(Deco(d, offset, size), d, offset, size)
  {
    hide Shows, Rgb.Packed;
    if d.Some? {
      PackedReadsBack(d.value.brush);
    }
  }

  // ---------------------------------------------------------------------
  // What must be read

  /** A glyph run: its own face, size, colour, position and glyphs. */
  lemma RunFields(r: GlyphRun, oy: real)
    ensures var e := ExpectedRun(r, oy);
      && e.face == r.face && e.size == r.size && e.offset == r.offset && e.baseline == oy + r.baseline
      && e.advance == r.advance && e.glyphs == r.glyphs && Shows(e.color, r.brush)
      && e.skew == (match r.skew case Some(tangent) => tangent case None => 0.0)
      && Decorates(e.underline, r.underline, r.underlineOffset, r.underlineSize)
      && Decorates(e.strike, r.strike, r.strikeOffset, r.strikeSize)
  {
    hide Shows, Decorates, Deco, Rgb.Packed;
    PackedReadsBack(r.brush);
    DecorationFields(r.underline, r.underlineOffset, r.underlineSize);
    DecorationFields(r.strike, r.strikeOffset, r.strikeSize);
  }

  /** A cluster: its face, first glyph or none, text range and ligature marks; the first
      stands at the line's offset and each further one where the one before it ends. */
  lemma ClusterFields(cs: seq<(Face, Cluster)>, i: nat, offset: real)
    requires i < |cs|
    ensures var e := ExpectedCluster(cs, i, offset);
      var c := cs[i].1;
      && e.face == cs[i].0 && e.advance == c.advance
      && e.glyph == (if c.glyphs == [] then 0xffff_ffff else c.glyphs[0])
      && (c.start <= 0xffff_ffff ==> e.textStart == c.start) && (c.len <= 0xffff_ffff ==> e.textLen == c.len)
      && e.flags < 4 && (e.flags % 2 == 1 <==> c.ligatureStart) && (e.flags / 2 == 1 <==> c.ligatureCont)
      && (i == 0 ==> e.x == offset)
      && (i > 0 ==> e.x == ExpectedCluster(cs, i - 1, offset).x + cs[i - 1].1.advance)
  {
    if i > 0 {
      assert cs[..i][..i - 1] == cs[..i - 1];
    }
  }

  /** A line: its place, and its runs and clusters one by one. */
  lemma LineFields(l: Line, ox: real, oy: real)
    ensures var e := ExpectedLine(l, ox, oy);
      && e.x == ox && e.top == oy + l.minCoord && e.bottom == oy + l.maxCoord
      && |e.runs| == |RunsOf(l.items)| && |e.clusters| == |ClustersOf(l.runs)|
      && (forall i :: 0 <= i < |e.runs| ==> e.runs[i] == ExpectedRun(RunsOf(l.items)[i], oy))
      && (forall i :: 0 <= i < |e.clusters| ==> e.clusters[i] == ExpectedCluster(ClustersOf(l.runs), i, l.offset))
  {
    hide ExpectedRun, ExpectedCluster, RunsOf, ClustersOf;
  }

  /** The runs of a line are its items but for the boxes, in order. */
  lemma {:induction false} RunsInOrder(items: seq<Item>, more: seq<Item>)
    ensures RunsOf(items + more) == RunsOf(items) + RunsOf(more)
    ensures RunsOf([]) == [] && RunsOf([InlineBox]) == [] && forall r: GlyphRun :: RunsOf([Run(r)]) == [r]
  {
    if items == [] {
      assert items + more == more;
    } else {
      assert (items + more)[1..] == items[1..] + more && (items + more)[0] == items[0];
      RunsInOrder(items[1..], more);
    }
  }

  /** The clusters of a line are those of its text runs, one run behind the other, each with
      the face of its run. */
  lemma {:induction false} ClustersInOrder(runs: seq<TextRun>, more: seq<TextRun>)
    ensures ClustersOf(runs + more) == ClustersOf(runs) + ClustersOf(more)
  {
    if runs == [] {
      assert runs + more == more;
    } else {
      assert (runs + more)[1..] == runs[1..] + more && (runs + more)[0] == runs[0];
      ClustersInOrder(runs[1..], more);
    }
  }

  lemma ClustersOfOne(run: TextRun)
    ensures ClustersOf([]) == []
    ensures |ClustersOf([run])| == |run.clusters|
    ensures forall i :: 0 <= i < |run.clusters| ==> ClustersOf([run])[i] == (run.face, run.clusters[i])
  {
    assert [run][1..] == [];
    assert ClustersOf([run]) == Faced(run) + [];
  }

  /** A block: its place and kind; a rule (kind 3) shows no lines, and a marker its first. */
  lemma BlockFields(p: Placed)
    ensures var e := ExpectedBlock(p);
      && e.x == p.x && e.y == p.y && e.quoteX == p.quoteX && e.kind == p.kind && e.quoteBars == p.quoteBars
      && |e.lines| == (if p.kind == 3 then 0 else |p.lines|)
      && (forall i :: 0 <= i < |e.lines| ==> e.lines[i] == ExpectedLine(p.lines[i], p.x, p.y))
      && (p.marker.Some? && p.marker.value.lines != [] ==> e.marker == Some(ExpectedLine(p.marker.value.lines[0], p.marker.value.x, p.y)))
      && (p.marker.None? || p.marker.value.lines == [] ==> e.marker == None)
  {
    hide ExpectedLine;
  }

  // ---------------------------------------------------------------------
  // What is read: each field from the record's field of that name

  lemma RecordFields(f: Flat, r: LpRun, c: LpCluster, l: LpLine, b: LpBlock)
    ensures RunIn(f, r) ==>
      var read := RunAt(f, r);
      && read.face == Face(f.fonts[r.font].data, f.fonts[r.font].index) && read.size == r.size && read.skew == r.skew
      && read.color == r.color && read.offset == r.offset && read.baseline == r.baseline && read.advance == r.advance
      && read.glyphs == f.glyphs[r.glyphs..r.glyphs + r.glyphsLen] && read.underline == r.underline && read.strike == r.strike
    ensures c.font < |f.fonts| ==>
      var read := ClusterAt(f, c);
      && read.face == Face(f.fonts[c.font].data, f.fonts[c.font].index) && read.glyph == c.glyph
      && read.textStart == c.textStart && read.textLen == c.textLen && read.x == c.x && read.advance == c.advance && read.flags == c.flags
    ensures LineIn(f, l) ==>
      var read := LineAt(f, l);
      && read.x == l.x && read.top == l.top && read.bottom == l.bottom && |read.runs| == l.runsLen && |read.clusters| == l.clustersLen
      && (forall i :: 0 <= i < l.runsLen ==> read.runs[i] == RunAt(f, f.runs[l.runs + i]))
      && (forall i :: 0 <= i < l.clustersLen ==> read.clusters[i] == ClusterAt(f, f.clusters[l.clusters + i]))
    ensures BlockIn(f, b) ==>
      var read := BlockAt(f, b);
      && read.x == b.x && read.y == b.y && read.quoteX == b.quoteX && read.kind == b.kind && read.quoteBars == b.quoteBars
      && |read.lines| == b.linesLen && (forall i :: 0 <= i < b.linesLen ==> read.lines[i] == LineAt(f, f.lines[b.lines + i]))
  {}
}
