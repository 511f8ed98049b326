/** The rewritten archive parses back, its symbol index follows the members to their new
    positions, and rewriting it again changes nothing. */
module ArchiveTheorems {
  import opened Archive
  import opened Bytes
  import opened Decimals
  import opened Elf
  import opened ElfTheorems
  import opened Results

  // ---------------------------------------------------------------------
  // Parsed members stand where the parser says

  /** Member `i` of a parse is a header and a body cut out of the archive, and the
      positions increase by exactly one extent. */
  lemma {:induction false} ParsedMember(a: bytes, pos: nat, i: nat)
    requires ParseFrom(a, pos).Ok? && i < |ParseFrom(a, pos).value|
    ensures var ms := ParseFrom(a, pos).value;
      && ms[i].offset >= pos + 60 * i
      && ms[i].offset + 60 + |ms[i].body| <= |a|
      && a[ms[i].offset..ms[i].offset + 60] == ms[i].head
      && a[ms[i].offset + 60..ms[i].offset + 60 + |ms[i].body|] == ms[i].body
      && (i == 0 ==> ms[i].offset == pos)
      && (i + 1 < |ms| ==> ms[i + 1].offset == ms[i].offset + Extent(|ms[i].body|))
      && (i + 1 == |ms| ==> ms[i].offset + Extent(|ms[i].body|) + 60 > |a|)
      && ParseUsize(TrimEnd(SizeField(ms[i].head))) == Some(|ms[i].body|)
    decreases |a| + 1 - pos
  {
    hide *;
    ParseUnfolds(a, pos);
    var ms := ParseFrom(a, pos).value;
    var next := pos + Extent(|ms[0].body|);
    if i > 0 {
      ParsedMember(a, next, i - 1);
    } else if |ms| > 1 {
      ParsedMember(a, next, 0);
    } else {
      ParseUnfolds(a, next);
    }
  }

  /** One turn of the parser's loop. */
  lemma ParseUnfolds(a: bytes, pos: nat)
    requires ParseFrom(a, pos).Ok?
    ensures var ms := ParseFrom(a, pos).value;
      && (ms == [] <==> pos + 60 > |a|)
      && (ms != [] ==>
            && ms[0].offset == pos && pos + 60 + |ms[0].body| <= |a|
            && a[pos..pos + 60] == ms[0].head && a[pos + 60..pos + 60 + |ms[0].body|] == ms[0].body
            && ParseUsize(TrimEnd(SizeField(ms[0].head))) == Some(|ms[0].body|)
            && ParseFrom(a, pos + Extent(|ms[0].body|)) == Ok(ms[1..]))
  {
    hide ParseUsize, TrimEnd, Extent;
  }

  ghost predicate Increasing(ms: seq<Member>) {
    forall i, j :: 0 <= i < j < |ms| ==> ms[i].offset < ms[j].offset
  }

  lemma ParsedIncreasing(a: bytes, pos: nat)
    requires ParseFrom(a, pos).Ok?
    ensures Increasing(ParseFrom(a, pos).value)
  {
    hide ParseFrom;
    var ms := ParseFrom(a, pos).value;
    forall i, j | 0 <= i < j < |ms|
      ensures ms[i].offset < ms[j].offset
    {
      ParsedBefore(a, pos, i, j);
    }
  }

  lemma ParsedBefore(a: bytes, pos: nat, i: nat, j: nat)
    requires ParseFrom(a, pos).Ok? && i < j < |ParseFrom(a, pos).value|
    ensures ParseFrom(a, pos).value[i].offset < ParseFrom(a, pos).value[j].offset
    decreases j - i
  {
    hide ParseFrom;
    ParsedMember(a, pos, j - 1);
    if i < j - 1 {
      ParsedBefore(a, pos, i, j - 1);
    }
  }

  lemma {:induction false} MarkedMember(ms: seq<Member>, k: nat, hot: set<bytes>, i: nat)
    requires k <= i < |ms| && MarkFrom(ms, k, hot).Ok?
    ensures MarkOne(ms[i], hot).Ok?
    ensures MarkFrom(ms, k, hot).value.members[i - k] == MarkOne(ms[i], hot).value.0
    decreases |ms| - k
  {
    hide MarkOne;
    if k < i {
      MarkedMember(ms, k + 1, hot, i);
    }
  }

  /** Marking changes bodies only. */
  lemma MarkKeepsHeads(ms: seq<Member>, hot: set<bytes>)
    requires MarkFrom(ms, 0, hot).Ok?
    ensures var marked := MarkFrom(ms, 0, hot).value.members;
      forall i :: 0 <= i < |ms| ==> marked[i].head == ms[i].head && marked[i].offset == ms[i].offset
    ensures Increasing(ms) ==> Increasing(MarkFrom(ms, 0, hot).value.members)
  {
    hide MarkFrom, Mark;
    var marked := MarkFrom(ms, 0, hot).value.members;
    forall i | 0 <= i < |ms|
      ensures marked[i].head == ms[i].head && marked[i].offset == ms[i].offset
    {
      MarkedMember(ms, 0, hot, i);
    }
  }

  // ---------------------------------------------------------------------
  // The offset map

  lemma {:induction false} NewOffsetsIncrease(ms: seq<Member>, i: nat, j: nat)
    requires i < j <= |ms|
    ensures NewOffset(ms, i) + Extent(|ms[i].body|) <= NewOffset(ms, j)
  {
    hide Extent;
    if i < j - 1 {
      NewOffsetsIncrease(ms, i, j - 1);
    }
  }

  /** The map sends each member's old position, and nothing else, to its new one. */
  lemma {:induction false} OffsetMapExact(ms: seq<Member>, k: nat, was: nat)
    requires k <= |ms| && Increasing(ms)
    ensures was in OffsetMap(ms, k) <==> exists j :: 0 <= j < k && ms[j].offset == was
    ensures forall j :: 0 <= j < k && ms[j].offset == was ==> OffsetMap(ms, k)[was] == NewOffset(ms, j)
  {
    hide NewOffset;
    if k > 0 {
      var last := ms[k - 1].offset;
      var before := OffsetMap(ms, k - 1);
      OffsetMapExact(ms, k - 1, was);
      assert OffsetMap(ms, k) == before[last := NewOffset(ms, k - 1)];
      if was == last {
        assert forall j :: 0 <= j < k - 1 ==> ms[j].offset < last;
      } else {
        assert was in OffsetMap(ms, k) <==> was in before;
      }
    }
  }

  // ---------------------------------------------------------------------
  // Remapping an index

  lemma EntriesApart(width: nat, i: nat, j: nat)
    requires i < j
    ensures width + i * width + width <= width + j * width
  {
    assert i * width + width == (i + 1) * width <= j * width;
  }

  lemma {:induction false} RemapElsewhere(width: nat, index: bytes, i: nat, count: nat, offsets: map<nat, nat>, lo: nat, hi: nat)
    requires i <= count && HoldsEntries(index, width, count) && RemapEntries(width, index, i, count, offsets).Ok?
    requires lo <= hi <= |index| && (hi <= width + i * width || width + count * width <= lo)
    ensures RemapEntries(width, index, i, count, offsets).value[lo..hi] == index[lo..hi]
    decreases count - i
  {
    hide ReadBE, WriteBE, Patch;
    if i < count {
      EntryFits(index, width, count, i);
      EntriesApart(width, i, i + 1);
      var entry := WriteBE(offsets[ReadBE(EntryAt(index, width, i))], width);
      var next := Patch(index, width + i * width, entry);
      PatchElsewhere(index, width + i * width, entry, lo, hi);
      RemapElsewhere(width, next, i + 1, count, offsets, lo, hi);
    }
  }

  lemma {:induction false} RemappedEntry(width: nat, index: bytes, i: nat, count: nat, offsets: map<nat, nat>, j: nat)
    requires i <= j < count && HoldsEntries(index, width, count) && RemapEntries(width, index, i, count, offsets).Ok?
    ensures width + j * width + width <= |index|
    ensures ReadBE(EntryAt(index, width, j)) in offsets
    ensures ReadBE(EntryAt(RemapEntries(width, index, i, count, offsets).value, width, j)) == offsets[ReadBE(EntryAt(index, width, j))]
    decreases count - i
  {
    hide ReadBE, WriteBE, Patch;
    EntryFits(index, width, count, i);
    EntryFits(index, width, count, j);
    var at := width + i * width;
    var entry := WriteBE(offsets[ReadBE(EntryAt(index, width, i))], width);
    var next := Patch(index, at, entry);
    if i < j {
      EntriesApart(width, i, j);
      PatchElsewhere(index, at, entry, width + j * width, width + j * width + width);
      RemappedEntry(width, next, i + 1, count, offsets, j);
    } else {
      EntriesApart(width, i, i + 1);
      PatchHere(index, at, entry);
      RemapElsewhere(width, next, i + 1, count, offsets, at, at + width);
    }
  }

  /** Remapping succeeds exactly when every entry points at a member and its new
      position fits the entry. */
  lemma {:induction false} RemapSucceeds(width: nat, index: bytes, i: nat, count: nat, offsets: map<nat, nat>)
    requires i <= count && HoldsEntries(index, width, count)
    ensures (forall j :: i <= j < count ==> width + j * width + width <= |index|)
    ensures RemapEntries(width, index, i, count, offsets).Ok? <==>
      forall j :: i <= j < count ==>
        ReadBE(EntryAt(index, width, j)) in offsets && offsets[ReadBE(EntryAt(index, width, j))] < Pow256(width)
    decreases count - i
  {
    hide ReadBE, WriteBE, Patch, Pow256;
    forall j | i <= j < count
      ensures width + j * width + width <= |index|
    {
      EntryFits(index, width, count, j);
    }
    if i < count {
      var was := ReadBE(EntryAt(index, width, i));
      if was in offsets && offsets[was] < Pow256(width) {
        var at := width + i * width;
        var entry := WriteBE(offsets[was], width);
        var next := Patch(index, at, entry);
        RemapSucceeds(width, next, i + 1, count, offsets);
        forall j | i + 1 <= j < count
          ensures EntryAt(next, width, j) == EntryAt(index, width, j)
        {
          EntriesApart(width, i, j);
          PatchElsewhere(index, at, entry, width + j * width, width + j * width + width);
        }
      }
    }
  }

  /** Remapping along a map that fixes every entry is the identity. */
  lemma {:induction false} RemapIdentity(width: nat, index: bytes, i: nat, count: nat, offsets: map<nat, nat>)
    requires i <= count && HoldsEntries(index, width, count)
    requires forall x :: x in offsets ==> offsets[x] == x
    requires forall j :: i <= j < count ==> width + j * width + width <= |index| && ReadBE(EntryAt(index, width, j)) in offsets
    ensures RemapEntries(width, index, i, count, offsets) == Ok(index)
    decreases count - i
  {
    hide ReadBE, WriteBE, Patch, Pow256;
    if i < count {
      var entry := EntryAt(index, width, i);
      WriteReadBE(entry);
      var at := width + i * width;
      PatchSame(index, at, width);
      RemapIdentity(width, index, i + 1, count, offsets);
    }
  }

  lemma PatchSame(b: bytes, at: nat, n: nat)
    requires at + n <= |b|
    ensures Patch(b, at, b[at..at + n]) == b
  {}

  // ---------------------------------------------------------------------
  // The output parses back

  ghost function Emitted(m: Member, pos: nat, offsets: map<nat, nat>): Member
    requires Emit(m, offsets).Ok?
  {
    Member(Resized(m.head, |m.body|), FinalBody(m, offsets).value, pos)
  }

  ghost function Reparsed(ms: seq<Member>, k: nat, offsets: map<nat, nat>): (r: seq<Member>)
    requires k <= |ms| && EmitFrom(ms, k, offsets).Ok?
    ensures |r| == |ms| - k
    decreases |ms| - k
  {
    if k == |ms| then [] else [Emitted(ms[k], NewOffset(ms, k), offsets)] + Reparsed(ms, k + 1, offsets)
  }

  lemma {:induction false} ReparsedMember(ms: seq<Member>, k: nat, offsets: map<nat, nat>, i: nat)
    requires k <= i < |ms| && EmitFrom(ms, k, offsets).Ok?
    ensures Emit(ms[i], offsets).Ok?
    ensures Reparsed(ms, k, offsets)[i - k] == Emitted(ms[i], NewOffset(ms, i), offsets)
    decreases |ms| - k
  {
    hide Emit, Emitted;
    if k < i {
      ReparsedMember(ms, k + 1, offsets, i);
    }
  }

  lemma ResizedFields(head: header, size: nat)
    requires |Decimal(size)| <= 10
    ensures var r := Resized(head, size);
      r[..48] == head[..48] && SizeField(r) == LeftAligned(size, 10) && r[58..] == head[58..]
  {
    hide LeftAligned, Decimal;
    PatchHere(head, 48, LeftAligned(size, 10));
  }

  lemma ResizedSize(head: header, size: nat)
    requires |Decimal(size)| <= 10 && size < USIZE_LIMIT
    ensures ParseUsize(TrimEnd(SizeField(Resized(head, size)))) == Some(size)
  {
    hide LeftAligned, Decimal, ParseUsize, TrimEnd, Resized, SizeField;
    ResizedFields(head, size);
    TrimLeftAligned(size, 10);
    ParseDecimal(size);
  }

  lemma ReparsedUnfolds(ms: seq<Member>, k: nat, offsets: map<nat, nat>)
    requires k <= |ms| && EmitFrom(ms, k, offsets).Ok?
    ensures k == |ms| ==> Reparsed(ms, k, offsets) == []
    ensures k < |ms| ==>
      && Emit(ms[k], offsets).Ok? && EmitFrom(ms, k + 1, offsets).Ok?
      && NewOffset(ms, k + 1) == NewOffset(ms, k) + Extent(|ms[k].body|)
      && Reparsed(ms, k, offsets) == [Emitted(ms[k], NewOffset(ms, k), offsets)] + Reparsed(ms, k + 1, offsets)
  {
    hide Emit, Emitted;
  }

  lemma CutMember(done: bytes, head: bytes, body: bytes, pad: bytes, rest: bytes)
    ensures var a := done + ((head + body + pad) + rest);
      var at := |done| + |head|;
      && a == (done + (head + body + pad)) + rest
      && a[|done|..at] == head && a[at..at + |body|] == body
  {}

  lemma {:induction false} EmittedParses(ms: seq<Member>, k: nat, offsets: map<nat, nat>, done: bytes)
    requires k <= |ms| && EmitFrom(ms, k, offsets).Ok?
    requires |done| == NewOffset(ms, k) && NewOffset(ms, |ms|) < USIZE_LIMIT
    ensures ParseFrom(done + EmitFrom(ms, k, offsets).value, |done|) == Ok(Reparsed(ms, k, offsets))
    ensures |done + EmitFrom(ms, k, offsets).value| == NewOffset(ms, |ms|)
    decreases |ms| - k
  {
    hide ParseUsize, TrimEnd, SizeField, Resized, Decimal, FinalBody, PadByte, Extent, NewOffset, Reparsed;
    ReparsedUnfolds(ms, k, offsets);
    if k < |ms| {
      var m := ms[k];
      var size := |m.body|;
      var one := Emit(m, offsets).value;
      var rest := EmitFrom(ms, k + 1, offsets).value;
      NewOffsetsIncrease(ms, k, |ms|);
      ResizedSize(m.head, size);
      CutMember(done, Resized(m.head, size), FinalBody(m, offsets).value, PadByte(size), rest);
      EmittedParses(ms, k + 1, offsets, done + one);
    }
  }

  // ---------------------------------------------------------------------
  // Main results about whole archives

  ghost function MembersOf(a: bytes): seq<Member>
    requires ParseFrom(a, 8).Ok?
  {
    ParseFrom(a, 8).value
  }

  /** The members with their objects marked, before emission. */
  ghost function MarkedMembers(a: bytes, hot: set<bytes>): seq<Member>
    requires Rewrite(a, hot).Ok?
  {
    MarkFrom(MembersOf(a), 0, hot).value.members
  }

  ghost function Offsets(a: bytes, hot: set<bytes>): map<nat, nat>
    requires Rewrite(a, hot).Ok?
  {
    var ms := MarkedMembers(a, hot);
    OffsetMap(ms, |ms|)
  }

  lemma RewriteUnfolds(a: bytes, hot: set<bytes>)
    requires Rewrite(a, hot).Ok?
    ensures StartsWith(a, MAGIC) && ParseFrom(a, 8).Ok? && MarkFrom(MembersOf(a), 0, hot).Ok?
    ensures |MarkedMembers(a, hot)| == |MembersOf(a)|
    ensures var ms := MarkedMembers(a, hot);
      && EmitFrom(ms, 0, Offsets(a, hot)).Ok?
      && NewOffset(ms, |ms|) < USIZE_LIMIT
      && Rewrite(a, hot).value == Rewritten(MAGIC + EmitFrom(ms, 0, Offsets(a, hot)).value, MarkFrom(MembersOf(a), 0, hot).value.renamed)
  {
    hide ParseFrom, MarkFrom, EmitFrom, OffsetMap, Ascii, NewOffset;
  }

  /** Parsing the output gives the same members in the same order, at the positions the
      emitter reached, with only the size field of the header changed and with the
      emitted bodies; nothing follows the last of them. */
  lemma OutputParses(a: bytes, hot: set<bytes>)
    requires Rewrite(a, hot).Ok?
    ensures var out := Rewrite(a, hot).value.out;
      var ms := MarkedMembers(a, hot);
      && StartsWith(out, MAGIC) && |out| == NewOffset(ms, |ms|)
      && EmitFrom(ms, 0, Offsets(a, hot)).Ok?
      && ParseFrom(out, 8) == Ok(Reparsed(ms, 0, Offsets(a, hot)))
      && |MembersOf(out)| == |MembersOf(a)| == |ms|
  {
    hide ParseFrom, EmitFrom, OffsetMap, Ascii, NewOffset, Reparsed, Rewrite;
    RewriteUnfolds(a, hot);
    var ms := MarkedMembers(a, hot);
    NewOffsetOfFirst(ms);
    EmittedParses(ms, 0, Offsets(a, hot), MAGIC);
  }

  lemma NewOffsetOfFirst(ms: seq<Member>)
    ensures NewOffset(ms, 0) == 8 == |MAGIC|
  {}

  lemma OutputMember(a: bytes, hot: set<bytes>, k: nat)
    requires Rewrite(a, hot).Ok? && k < |MembersOf(a)|
    ensures ParseFrom(Rewrite(a, hot).value.out, 8).Ok?
    ensures var ms := MembersOf(a);
      var marked := MarkedMembers(a, hot);
      var ms' := MembersOf(Rewrite(a, hot).value.out);
      && |ms'| == |marked| == |ms|
      && ms'[k].offset == NewOffset(marked, k)
      && ms'[k].head[..48] == ms[k].head[..48] && ms'[k].head[58..] == ms[k].head[58..]
      && MarkOne(ms[k], hot).Ok? && marked[k] == MarkOne(ms[k], hot).value.0 && marked[k].head == ms[k].head
      && Emit(marked[k], Offsets(a, hot)).Ok?
      && ms'[k] == Emitted(marked[k], NewOffset(marked, k), Offsets(a, hot))
      && FinalBody(marked[k], Offsets(a, hot)) == Ok(ms'[k].body)
  {
    hide ParseFrom, EmitFrom, MarkFrom, MarkOne, OffsetMap, NewOffset, Reparsed, Rewrite, FinalBody, Resized, Decimal, Mark;
    RewriteUnfolds(a, hot);
    OutputParses(a, hot);
    var marked := MarkedMembers(a, hot);
    MarkedMember(MembersOf(a), 0, hot, k);
    ReparsedMember(marked, 0, Offsets(a, hot), k);
    MarkKeepsHeads(MembersOf(a), hot);
    ResizedFields(marked[k].head, |marked[k].body|);
  }

  // ---------------------------------------------------------------------
  // The symbol index

  ghost function Target(index: bytes, width: nat, i: nat): nat
    requires width + i * width + width <= |index|
  {
    ReadBE(EntryAt(index, width, i))
  }

  /** An index member of the input, which is not itself an object. */
  ghost predicate IsIndex(m: Member) {
    IndexWidth(m.head) > 0 && !StartsWith(m.body, ELF_MAGIC)
  }

  ghost function EntryCount(m: Member): nat
    requires |m.body| >= IndexWidth(m.head)
  {
    ReadBE(m.body[..IndexWidth(m.head)])
  }

  lemma RemapUnfolds(width: nat, index: bytes, offsets: map<nat, nat>)
    requires Remap(width, index, offsets).Ok?
    ensures |index| >= width && HoldsEntries(index, width, ReadBE(index[..width]))
    ensures Remap(width, index, offsets) == RemapEntries(width, index, 0, ReadBE(index[..width]), offsets)
  {}

  ghost function EntriesEnd(width: nat, count: nat): nat { width + count * width }

  /** `m'` has the entry count of `m`, its entries remapped and the bytes around the
      entry table as they were. */
  ghost predicate Remapped(m: Member, m': Member, offsets: map<nat, nat>) {
    var width := IndexWidth(m.head);
    && |m'.body| == |m.body| >= width == IndexWidth(m'.head)
    && HoldsEntries(m.body, width, EntryCount(m))
    && RemapEntries(width, m.body, 0, EntryCount(m), offsets) == Ok(m'.body)
    && m'.body[..width] == m.body[..width]
    && var end := EntriesEnd(width, EntryCount(m)); end <= |m.body| && m'.body[end..] == m.body[end..]
  }

  lemma RemapIsFramed(m: Member, m': Member, offsets: map<nat, nat>)
    requires IndexWidth(m.head) == IndexWidth(m'.head)
    requires Remap(IndexWidth(m.head), m.body, offsets) == Ok(m'.body)
    ensures Remapped(m, m', offsets)
  {
    hide ReadBE, IndexWidth, RemapEntries, Remap;
    var width := IndexWidth(m.head);
    RemapUnfolds(width, m.body, offsets);
    var count := EntryCount(m);
    var end := width + count * width;
    assert end <= |m.body| by { assert HoldsEntries(m.body, width, count); }
    RemapElsewhere(width, m.body, 0, count, offsets, 0, width);
    RemapElsewhere(width, m.body, 0, count, offsets, end, |m.body|);
    assert EntriesEnd(width, count) == end;
    hide HoldsEntries, EntriesEnd;
    Suffix(m.body, m'.body, end);
    assert m'.body[..width] == m'.body[0..width] && m.body[..width] == m.body[0..width];
  }

  lemma Suffix(x: bytes, y: bytes, end: nat)
    requires end <= |x| == |y| && y[end..|x|] == x[end..|x|]
    ensures y[end..] == x[end..]
  {}

  lemma SameWidth(head: header, head': header)
    requires head'[..48] == head[..48]
    ensures IndexWidth(head') == IndexWidth(head)
  {
    hide TrimEnd, Ascii;
    assert head'[..16] == head'[..48][..16] == head[..48][..16] == head[..16];
  }

  lemma IndexFrame(a: bytes, hot: set<bytes>, k: nat)
    requires Rewrite(a, hot).Ok? && k < |MembersOf(a)| && IsIndex(MembersOf(a)[k])
    ensures ParseFrom(Rewrite(a, hot).value.out, 8).Ok?
    ensures |MembersOf(Rewrite(a, hot).value.out)| == |MembersOf(a)|
    ensures Remapped(MembersOf(a)[k], MembersOf(Rewrite(a, hot).value.out)[k], Offsets(a, hot))
  {
    hide ParseFrom, Rewrite, Remap, Offsets, IndexWidth, MarkedMembers, Remapped, Resized, Extent, Decimal;
    RewriteUnfolds(a, hot);
    OutputMember(a, hot, k);
    var m := MembersOf(a)[k];
    var m' := MembersOf(Rewrite(a, hot).value.out)[k];
    SameWidth(m.head, m'.head);
    RemapIsFramed(m, m', Offsets(a, hot));
  }

  /** Every entry of the input index points at some member's header, and an entry points
      at member `j` in the input exactly when it points at member `j` in the output. */
  lemma EntriesFollowMembers(a: bytes, hot: set<bytes>, k: nat, i: nat)
    requires Rewrite(a, hot).Ok? && k < |MembersOf(a)| && IsIndex(MembersOf(a)[k])
    requires |MembersOf(a)[k].body| >= IndexWidth(MembersOf(a)[k].head) && i < EntryCount(MembersOf(a)[k])
    ensures ParseFrom(Rewrite(a, hot).value.out, 8).Ok?
    ensures var ms, ms' := MembersOf(a), MembersOf(Rewrite(a, hot).value.out);
      var width := IndexWidth(ms[k].head);
      && |ms'| == |ms| && |ms'[k].body| == |ms[k].body| && width + i * width + width <= |ms[k].body|
      && (exists j :: 0 <= j < |ms| && Target(ms[k].body, width, i) == ms[j].offset)
      && (forall j :: 0 <= j < |ms| ==>
            (Target(ms[k].body, width, i) == ms[j].offset <==> Target(ms'[k].body, width, i) == ms'[j].offset))
  {
    hide ParseFrom, Rewrite, Remap, RemapEntries, ReadBE, MarkFrom, EmitFrom, MarkOne, Emit, FinalBody, Resized, OffsetMap, IndexWidth, NewOffset, Emitted;
    RewriteUnfolds(a, hot);
    IndexFrame(a, hot, k);
    var ms, ms' := MembersOf(a), MembersOf(Rewrite(a, hot).value.out);
    var marked := MarkedMembers(a, hot);
    var width := IndexWidth(ms[k].head);
    EntryFits(ms[k].body, width, EntryCount(ms[k]), i);
    RemappedEntry(width, ms[k].body, 0, EntryCount(ms[k]), Offsets(a, hot), i);
    ParsedIncreasing(a, 8);
    MarkKeepsHeads(ms, hot);
    var was := Target(ms[k].body, width, i);
    OffsetMapExact(marked, |marked|, was);
    var owner :| 0 <= owner < |marked| && marked[owner].offset == was;
    forall j | 0 <= j < |ms|
      ensures was == ms[j].offset <==> Target(ms'[k].body, width, i) == ms'[j].offset
    {
      OutputMember(a, hot, j);
      if j < owner {
        NewOffsetsIncrease(marked, j, owner);
      } else if owner < j {
        NewOffsetsIncrease(marked, owner, j);
      }
    }
  }

  // ---------------------------------------------------------------------
  // Rewriting again

  /** What the gABI and the ar format promise of the input. */
  ghost predicate WellFormedArchive(a: bytes, hot: set<bytes>) {
    && ParseFrom(a, 8).Ok?
    && forall k :: 0 <= k < |MembersOf(a)| ==>
      var m := MembersOf(a)[k];
      && (StartsWith(m.body, ELF_MAGIC) && Mark(m.body, hot).Ok? && Mark(m.body, hot).value.Some? ==> WellFormed(m.body))
      && (IndexWidth(m.head) > 0 ==> !StartsWith(m.body, ELF_MAGIC))
  }

  lemma StaysMarked(a: bytes, hot: set<bytes>, k: nat)
    requires Rewrite(a, hot).Ok? && WellFormedArchive(a, hot) && k < |MembersOf(a)|
    ensures ParseFrom(Rewrite(a, hot).value.out, 8).Ok?
    ensures var ms' := MembersOf(Rewrite(a, hot).value.out);
      |ms'| == |MembersOf(a)| && MarkOne(ms'[k], hot) == Ok((ms'[k], 0))
  {
    hide ParseFrom, Rewrite, Remap, RemapEntries, ReadBE, Mark, Resized, Offsets, WellFormed, MarkedMembers, TrimEnd;
    RewriteUnfolds(a, hot);
    OutputMember(a, hot, k);
    var m := MembersOf(a)[k];
    var m' := MembersOf(Rewrite(a, hot).value.out)[k];
    if IndexWidth(m.head) > 0 {
      IndexFrame(a, hot, k);
      var width := IndexWidth(m.head);
      assert m'.body[..4] == m'.body[..width][..4] == m.body[..width][..4] == m.body[..4];
    } else if StartsWith(m.body, ELF_MAGIC) && Mark(m.body, hot).value.Some? {
      MarkIsIdempotent(m.body, hot);
    }
  }

  lemma {:induction false} MarkNothing(ms: seq<Member>, k: nat, hot: set<bytes>)
    requires k <= |ms| && forall i :: k <= i < |ms| ==> MarkOne(ms[i], hot) == Ok((ms[i], 0))
    ensures MarkFrom(ms, k, hot) == Ok(Pass(ms[k..], 0))
    decreases |ms| - k
  {
    hide MarkOne;
    if k < |ms| {
      MarkNothing(ms, k + 1, hot);
      assert ms[k..] == [ms[k]] + ms[k + 1..];
    }
  }

  lemma {:induction false} SameOffsets(x: seq<Member>, y: seq<Member>, k: nat)
    requires k <= |x| == |y| && forall i :: 0 <= i < |x| ==> |x[i].body| == |y[i].body|
    ensures NewOffset(x, k) == NewOffset(y, k)
  {
    hide Extent;
    if k > 0 {
      SameOffsets(x, y, k - 1);
    }
  }

  lemma {:induction false} EmitSame(x: seq<Member>, xo: map<nat, nat>, y: seq<Member>, yo: map<nat, nat>, k: nat)
    requires k <= |x| == |y| && forall i :: k <= i < |x| ==> Emit(x[i], xo) == Emit(y[i], yo)
    ensures EmitFrom(x, k, xo) == EmitFrom(y, k, yo)
    decreases |x| - k
  {
    hide Emit;
    if k < |x| {
      EmitSame(x, xo, y, yo, k + 1);
    }
  }

  lemma ResizedAgain(head: header, size: nat)
    requires |Decimal(size)| <= 10
    ensures Resized(Resized(head, size), size) == Resized(head, size)
  {
    hide LeftAligned, Decimal;
    var r := Resized(head, size);
    PatchHere(head, 48, LeftAligned(size, 10));
    PatchSame(r, 48, 10);
  }

  /** In the output the offset map is the identity. */
  lemma OutputOffsets(a: bytes, hot: set<bytes>)
    requires Rewrite(a, hot).Ok?
    ensures ParseFrom(Rewrite(a, hot).value.out, 8).Ok?
    ensures var ms' := MembersOf(Rewrite(a, hot).value.out);
      var marked := MarkedMembers(a, hot);
      var again := OffsetMap(ms', |ms'|);
      && |ms'| == |marked| && Increasing(ms')
      && (forall x :: x in again ==> again[x] == x)
      && (forall j :: 0 <= j < |ms'| ==> ms'[j].offset in again && |ms'[j].body| == |marked[j].body|)
      && NewOffset(ms', |ms'|) == NewOffset(marked, |marked|)
  {
    hide ParseFrom, Rewrite, MarkFrom, EmitFrom, MarkOne, Resized, OffsetMap, NewOffset, Decimal, Remap, Name;
    RewriteUnfolds(a, hot);
    var out := Rewrite(a, hot).value.out;
    OutputParses(a, hot);
    var ms' := MembersOf(out);
    var marked := MarkedMembers(a, hot);
    ParsedIncreasing(out, 8);
    forall j | 0 <= j < |ms'|
      ensures ms'[j].offset == NewOffset(marked, j) && |ms'[j].body| == |marked[j].body|
    {
      OutputMember(a, hot, j);
    }
    SameOffsets(ms', marked, |ms'|);
    var again := OffsetMap(ms', |ms'|);
    forall x
      ensures x in again ==> again[x] == x
      ensures (exists j :: 0 <= j < |ms'| && ms'[j].offset == x) ==> x in again
    {
      OffsetMapExact(ms', |ms'|, x);
      if x in again {
        var j :| 0 <= j < |ms'| && ms'[j].offset == x;
        SameOffsets(ms', marked, j);
      }
    }
  }

  lemma EmitStable(m: Member, pos: nat, offsets: map<nat, nat>, again: map<nat, nat>)
    requires Emit(m, offsets).Ok?
    requires FinalBody(Emitted(m, pos, offsets), again) == FinalBody(m, offsets)
    ensures Emit(Emitted(m, pos, offsets), again) == Emit(m, offsets)
  {
    hide Resized, FinalBody, Decimal, Extent;
    ResizedAgain(m.head, |m.body|);
  }

  /** A second remap passes the same size checks as the first and moves nothing. */
  lemma RemapsToItself(m: Member, m': Member, offsets: map<nat, nat>, again: map<nat, nat>)
    requires Remap(IndexWidth(m.head), m.body, offsets) == Ok(m'.body) && Remapped(m, m', offsets)
    requires forall x :: x in again ==> again[x] == x
    requires forall j :: 0 <= j < EntryCount(m) ==>
      IndexWidth(m.head) + j * IndexWidth(m.head) + IndexWidth(m.head) <= |m'.body| && Target(m'.body, IndexWidth(m.head), j) in again
    ensures Remap(IndexWidth(m.head), m'.body, again) == Ok(m'.body)
  {
    hide ReadBE, IndexWidth, RemapEntries, EntryAt;
    var width := IndexWidth(m.head);
    forall j | 0 <= j < EntryCount(m)
      ensures width + j * width + width <= |m'.body| && ReadBE(EntryAt(m'.body, width, j)) in again
    {
      assert Target(m'.body, width, j) in again;
    }
    RemapIdentity(width, m'.body, 0, EntryCount(m), again);
  }

  lemma RemapsAgain(a: bytes, hot: set<bytes>, k: nat)
    requires Rewrite(a, hot).Ok? && k < |MembersOf(a)| && IsIndex(MembersOf(a)[k])
    ensures ParseFrom(Rewrite(a, hot).value.out, 8).Ok?
    ensures var ms' := MembersOf(Rewrite(a, hot).value.out);
      && |ms'| == |MembersOf(a)|
      && FinalBody(ms'[k], OffsetMap(ms', |ms'|)) == Ok(ms'[k].body)
  {
    hide ParseFrom, Rewrite, MarkFrom, EmitFrom, Resized, OffsetMap, NewOffset, Decimal, RemapEntries, ReadBE, Mark, Offsets, MarkedMembers, IndexWidth, Remap, Target, Extent;
    RewriteUnfolds(a, hot);
    OutputMember(a, hot, k);
    IndexFrame(a, hot, k);
    OutputOffsets(a, hot);
    var ms, ms' := MembersOf(a), MembersOf(Rewrite(a, hot).value.out);
    var width := IndexWidth(ms[k].head);
    var again := OffsetMap(ms', |ms'|);
    forall j | 0 <= j < EntryCount(ms[k])
      ensures width + j * width + width <= |ms'[k].body| && Target(ms'[k].body, width, j) in again
    {
      EntryFits(ms[k].body, width, EntryCount(ms[k]), j);
      EntriesFollowMembers(a, hot, k, j);
      var owner :| 0 <= owner < |ms| && Target(ms[k].body, width, j) == ms[owner].offset;
      assert Target(ms'[k].body, width, j) == ms'[owner].offset;
    }
    RemapsToItself(ms[k], ms'[k], Offsets(a, hot), again);
  }

  lemma EmitsAgain(a: bytes, hot: set<bytes>, k: nat)
    requires Rewrite(a, hot).Ok? && WellFormedArchive(a, hot) && k < |MembersOf(a)|
    ensures ParseFrom(Rewrite(a, hot).value.out, 8).Ok?
    ensures var ms' := MembersOf(Rewrite(a, hot).value.out);
      |ms'| == |MembersOf(a)| == |MarkedMembers(a, hot)|
      && Emit(ms'[k], OffsetMap(ms', |ms'|)) == Emit(MarkedMembers(a, hot)[k], Offsets(a, hot))
  {
    hide ParseFrom, Rewrite, MarkFrom, EmitFrom, MarkOne, Resized, OffsetMap, NewOffset, Decimal, Remap, IndexWidth, WellFormed, Mark, Offsets, MarkedMembers, Emit, Extent;
    RewriteUnfolds(a, hot);
    OutputMember(a, hot, k);
    OutputOffsets(a, hot);
    var ms' := MembersOf(Rewrite(a, hot).value.out);
    var m := MembersOf(a)[k];
    SameWidth(m.head, ms'[k].head);
    if IndexWidth(m.head) > 0 {
      RemapsAgain(a, hot, k);
    }
    var marked := MarkedMembers(a, hot);
    EmitStable(marked[k], NewOffset(marked, k), Offsets(a, hot), OffsetMap(ms', |ms'|));
  }

  /** Rewriting its own output with the same hot set renames nothing and reproduces the
      same bytes. */
  lemma RewriteIsIdempotent(a: bytes, hot: set<bytes>)
    requires Rewrite(a, hot).Ok? && WellFormedArchive(a, hot)
    ensures var out := Rewrite(a, hot).value.out; Rewrite(out, hot) == Ok(Rewritten(out, 0))
  {
    hide ParseFrom, MarkFrom, EmitFrom, OffsetMap, Ascii, NewOffset, MarkOne, Emit, WellFormedArchive, Offsets, MarkedMembers;
    var out := Rewrite(a, hot).value.out;
    RewriteUnfolds(a, hot);
    OutputParses(a, hot);
    OutputOffsets(a, hot);
    var ms' := MembersOf(out);
    var marked := MarkedMembers(a, hot);
    var again := OffsetMap(ms', |ms'|);
    forall k | 0 <= k < |ms'|
      ensures MarkOne(ms'[k], hot) == Ok((ms'[k], 0)) && Emit(ms'[k], again) == Emit(marked[k], Offsets(a, hot))
    {
      StaysMarked(a, hot, k);
      EmitsAgain(a, hot, k);
    }
    MarkNothing(ms', 0, hot);
    assert ms'[0..] == ms';
    EmitSame(ms', again, marked, Offsets(a, hot), 0);
  }
}
