/** The archive results in terms of raw bytes: member names as they stand in the header,
    index entries as the bytes of a number, most significant first. */
module ArchiveBytes {
  import opened Archive
  import opened ArchiveTheorems
  import opened Bytes
  import opened Decimals
  import opened Elf
  import opened Results

  /** The name field holds `/` and spaces. */
  ghost predicate NamedIndex(head: header) {
    head[..16] == [47, 32, 32, 32, 32, 32, 32, 32, 32, 32, 32, 32, 32, 32, 32, 32]
  }

  /** The name field holds `/SYM64/` and spaces. */
  ghost predicate NamedIndex64(head: header) {
    head[..16] == [47, 83, 89, 77, 54, 52, 47, 32, 32, 32, 32, 32, 32, 32, 32, 32]
  }

  ghost predicate IsObject(body: bytes) {
    |body| >= 4 && body[0] == 0x7f && body[1] == 0x45 && body[2] == 0x4c && body[3] == 0x46
  }

  /** The four or eight bytes from `at` on as a number. */
  ghost function Number32(b: bytes, at: nat): nat
    requires at + 4 <= |b|
  {
    0x100_0000 * (b[at] as int) + 0x1_0000 * (b[at + 1] as int) + 0x100 * (b[at + 2] as int) + (b[at + 3] as int)
  }

  ghost function Number64(b: bytes, at: nat): nat
    requires at + 8 <= |b|
  {
    0x1_0000_0000 * Number32(b, at) + Number32(b, at + 4)
  }

  lemma IndexNames()
    ensures INDEX32 == [47] && INDEX64 == [47, 83, 89, 77, 54, 52, 47]
    ensures MAGIC == [33, 60, 97, 114, 99, 104, 62, 10]
  {}

  /** Which members are an index, and how wide its entries are. */
  lemma IndexWidthIs(head: header)
    ensures NamedIndex(head) <==> IndexWidth(head) == 4
    ensures NamedIndex64(head) <==> IndexWidth(head) == 8
    ensures !NamedIndex(head) && !NamedIndex64(head) <==> IndexWidth(head) == 0
  {
    hide Name, Ascii, NamedIndex, NamedIndex64;
    IndexNames();
    NamesIndex(head);
    NamesIndex64(head);
  }

  lemma NamesIndex(head: header)
    ensures NamedIndex(head) <==> Name(head) == [47]
  {
    hide TrimEnd;
    Trimmed(head[..16], [47]);
  }

  lemma NamesIndex64(head: header)
    ensures NamedIndex64(head) <==> Name(head) == [47, 83, 89, 77, 54, 52, 47]
  {
    hide TrimEnd;
    Trimmed(head[..16], [47, 83, 89, 77, 54, 52, 47]);
  }

  lemma Trimmed(field: bytes, name: bytes)
    requires name != [] && name[|name| - 1] != 32 && |name| <= |field|
    ensures TrimEnd(field) == name <==> name <= field && forall i :: |name| <= i < |field| ==> field[i] == 32
  {
    hide TrimEnd;
    if name <= field && forall i :: |name| <= i < |field| ==> field[i] == 32 {
      TrimEndUnique(field, name);
    }
  }

  lemma ObjectMagic(body: bytes)
    ensures StartsWith(body, ELF_MAGIC) <==> IsObject(body)
  {}

  lemma Reads32(b: bytes, i: nat)
    requires 4 + i * 4 + 4 <= |b|
    ensures Target(b, 4, i) == Number32(b, 4 + 4 * i)
  {
    hide ReadBE;
    BigEndian4(EntryAt(b, 4, i));
  }

  lemma Reads64(b: bytes, i: nat)
    requires 8 + i * 8 + 8 <= |b|
    ensures Target(b, 8, i) == Number64(b, 8 + 8 * i)
  {
    hide ReadBE;
    BigEndian8(EntryAt(b, 8, i));
  }

  // ---------------------------------------------------------------------

  /** `was` is where the header of some member stands, and `now` is where the header of
      that member stands afterwards, and of no other. */
  ghost predicate NamesSame(ms: seq<Member>, ms': seq<Member>, was: nat, now: nat)
    requires |ms| == |ms'|
  {
    && (exists j :: 0 <= j < |ms| && was == ms[j].offset)
    && (forall j :: 0 <= j < |ms| ==> (was == ms[j].offset <==> now == ms'[j].offset))
  }

  lemma TargetsSame(ms: seq<Member>, ms': seq<Member>, was: nat, now: nat)
    requires |ms| == |ms'| && exists j :: 0 <= j < |ms| && was == ms[j].offset
    requires forall j :: 0 <= j < |ms| ==> (was == ms[j].offset <==> now == ms'[j].offset)
    ensures NamesSame(ms, ms', was, now)
  {}

  /** The bytes `b'` are the index `b` following its members: same count, each entry naming
      the member it named, and the bytes behind the entries as they were. */
  ghost predicate IndexFollows32(ms: seq<Member>, ms': seq<Member>, b: bytes, b': bytes)
    requires |ms| == |ms'|
  {
    && |b'| == |b| >= 4
    && var count := Number32(b, 0);
    && 4 + 4 * count <= |b|
    && b'[..4] == b[..4] && b'[4 + 4 * count..] == b[4 + 4 * count..]
    && forall i: nat :: i < count ==> NamesSame(ms, ms', Number32(b, 4 + 4 * i), Number32(b', 4 + 4 * i))
  }

  /** The bytes `b'` are the index `b` following its members: same count, each entry naming
      the member it named, and the bytes behind the entries as they were. */
  ghost predicate IndexFollows64(ms: seq<Member>, ms': seq<Member>, b: bytes, b': bytes)
    requires |ms| == |ms'|
  {
    && |b'| == |b| >= 8
    && var count := Number64(b, 0);
    && 8 + 8 * count <= |b|
    && b'[..8] == b[..8] && b'[8 + 8 * count..] == b[8 + 8 * count..]
    && forall i: nat :: i < count ==> NamesSame(ms, ms', Number64(b, 8 + 8 * i), Number64(b', 8 + 8 * i))
  }

  /** Of the member called `/` every entry names the header of some member, and afterwards
      the header of the same member. */
  lemma SymbolIndexFollowsMembers(a: bytes, hot: set<bytes>, k: nat)
    requires Rewrite(a, hot).Ok? && ParseFrom(a, 8).Ok? && k < |MembersOf(a)|
    requires NamedIndex(MembersOf(a)[k].head) && !IsObject(MembersOf(a)[k].body)
    ensures ParseFrom(Rewrite(a, hot).value.out, 8).Ok?
    ensures var ms, ms' := MembersOf(a), MembersOf(Rewrite(a, hot).value.out);
      |ms'| == |ms| && IndexFollows32(ms, ms', ms[k].body, ms'[k].body)
  {
    hide ParseFrom, Rewrite, RemapEntries, ReadBE, Offsets, Number32, Target, EntryAt, IndexWidth, Ascii, NamesSame;
    IndexWidthIs(MembersOf(a)[k].head);
    ObjectMagic(MembersOf(a)[k].body);
    IndexFrame(a, hot, k);
    var ms, ms' := MembersOf(a), MembersOf(Rewrite(a, hot).value.out);
    var b, b' := ms[k].body, ms'[k].body;
    CountReads(b, 4);
    forall i: nat | i < Number32(b, 0)
      ensures 4 + 4 * i + 4 <= |b| && NamesSame(ms, ms', Number32(b, 4 + 4 * i), Number32(b', 4 + 4 * i))
    {
      EntriesFollowMembers(a, hot, k, i);
      Reads32(b, i);
      Reads32(b', i);
      TargetsSame(ms, ms', Target(b, 4, i), Target(b', 4, i));
    }
  }

  lemma CountReads(b: bytes, width: nat)
    requires width == 4 || width == 8
    requires |b| >= width
    ensures ReadBE(b[..width]) == if width == 4 then Number32(b, 0) else Number64(b, 0)
  {
    hide ReadBE;
    if width == 4 {
      BigEndian4(b[..4]);
    } else {
      BigEndian8(b[..8]);
    }
  }

  /** The same for the member called `/SYM64/`, whose numbers take eight bytes. */
  lemma SymbolIndex64FollowsMembers(a: bytes, hot: set<bytes>, k: nat)
    requires Rewrite(a, hot).Ok? && ParseFrom(a, 8).Ok? && k < |MembersOf(a)|
    requires NamedIndex64(MembersOf(a)[k].head) && !IsObject(MembersOf(a)[k].body)
    ensures ParseFrom(Rewrite(a, hot).value.out, 8).Ok?
    ensures var ms, ms' := MembersOf(a), MembersOf(Rewrite(a, hot).value.out);
      |ms'| == |ms| && IndexFollows64(ms, ms', ms[k].body, ms'[k].body)
  {
    hide ParseFrom, Rewrite, RemapEntries, ReadBE, Offsets, Number64, Target, EntryAt, IndexWidth, Ascii, NamesSame;
    IndexWidthIs(MembersOf(a)[k].head);
    ObjectMagic(MembersOf(a)[k].body);
    IndexFrame(a, hot, k);
    var ms, ms' := MembersOf(a), MembersOf(Rewrite(a, hot).value.out);
    var b, b' := ms[k].body, ms'[k].body;
    CountReads(b, 8);
    forall i: nat | i < Number64(b, 0)
      ensures 8 + 8 * i + 8 <= |b| && NamesSame(ms, ms', Number64(b, 8 + 8 * i), Number64(b', 8 + 8 * i))
    {
      EntriesFollowMembers(a, hot, k, i);
      Reads64(b, i);
      Reads64(b', i);
      TargetsSame(ms, ms', Target(b, 8, i), Target(b', 8, i));
    }
  }

  /** Every other member keeps its body, unless that is an object with something to rename. */
  lemma OtherMembersKept(a: bytes, hot: set<bytes>, k: nat)
    requires Rewrite(a, hot).Ok? && ParseFrom(a, 8).Ok? && k < |MembersOf(a)|
    requires !NamedIndex(MembersOf(a)[k].head) && !NamedIndex64(MembersOf(a)[k].head)
    ensures ParseFrom(Rewrite(a, hot).value.out, 8).Ok?
    ensures var ms, ms' := MembersOf(a), MembersOf(Rewrite(a, hot).value.out);
      && |ms'| == |ms|
      && (!IsObject(ms[k].body) ==> ms'[k].body == ms[k].body)
      && (IsObject(ms[k].body) ==>
            && Mark(ms[k].body, hot).Ok?
            && ms'[k].body == match Mark(ms[k].body, hot).value case None => ms[k].body case Some(m) => m.body)
  {
    hide ParseFrom, Rewrite, Offsets, IndexWidth, Mark, Remap, Emit, Emitted, NewOffset, MarkedMembers;
    IndexWidthIs(MembersOf(a)[k].head);
    ObjectMagic(MembersOf(a)[k].body);
    RewriteUnfolds(a, hot);
    OutputMember(a, hot, k);
  }

  /** Where the members stand: the first behind the magic, each behind the one before it
      and, after an odd body, a pad byte; their sizes are spelled in columns 48 to 57. */
  lemma MembersStand(a: bytes, k: nat)
    requires ParseFrom(a, 8).Ok? && k < |MembersOf(a)|
    ensures var ms := MembersOf(a);
      && (k == 0 ==> ms[k].offset == 8)
      && (k > 0 ==> ms[k].offset == ms[k - 1].offset + 60 + |ms[k - 1].body| + |ms[k - 1].body| % 2)
      && ms[k].offset + 60 + |ms[k].body| <= |a|
      && ms[k].head == a[ms[k].offset..ms[k].offset + 60]
      && ms[k].body == a[ms[k].offset + 60..ms[k].offset + 60 + |ms[k].body|]
      && ParseUsize(TrimEnd(a[ms[k].offset + 48..ms[k].offset + 58])) == Some(|ms[k].body|)
      && (k + 1 == |ms| ==> ms[k].offset + 120 + |ms[k].body| + |ms[k].body| % 2 > |a|)
  {
    hide ParseFrom, ParseUsize, TrimEnd;
    ParsedMember(a, 8, k);
    if k > 0 {
      ParsedMember(a, 8, k - 1);
    }
    var m := MembersOf(a)[k];
    SizeColumns(a, m.offset);
  }

  lemma {:induction false} EmittedAt(ms: seq<Member>, k: nat, offsets: map<nat, nat>, done: bytes, i: nat)
    requires k <= i < |ms| && EmitFrom(ms, k, offsets).Ok? && |done| == NewOffset(ms, k)
    ensures Emit(ms[i], offsets).Ok?
    ensures var out := done + EmitFrom(ms, k, offsets).value;
      && NewOffset(ms, i) + Extent(|ms[i].body|) <= |out|
      && out[NewOffset(ms, i)..NewOffset(ms, i) + Extent(|ms[i].body|)] == Emit(ms[i], offsets).value
    decreases |ms| - k
  {
    hide Emit, Extent;
    var first, rest := Emit(ms[k], offsets).value, EmitFrom(ms, k + 1, offsets).value;
    assert done + (first + rest) == (done + first) + rest;
    if k < i {
      EmittedAt(ms, k + 1, offsets, done + first, i);
    }
  }

  /** The output begins with the magic, and an odd body is followed by a newline. */
  lemma OutputFraming(a: bytes, hot: set<bytes>, k: nat)
    requires Rewrite(a, hot).Ok? && ParseFrom(a, 8).Ok? && k < |MembersOf(a)|
    ensures var out := Rewrite(a, hot).value.out;
      && out[..8] == [33, 60, 97, 114, 99, 104, 62, 10] == a[..8]
      && ParseFrom(out, 8).Ok? && |MembersOf(out)| == |MembersOf(a)|
      && var m := MembersOf(out)[k];
      && (|m.body| % 2 == 1 ==> m.offset + 60 + |m.body| < |out| && out[m.offset + 60 + |m.body|] == 10)
  {
    hide ParseFrom, Rewrite, EmitFrom, Offsets, MarkedMembers, Emit, Extent, NewOffset, Ascii, Mark, Remap, Decimal;
    IndexNames();
    RewriteUnfolds(a, hot);
    OutputMember(a, hot, k);
    var marked := MarkedMembers(a, hot);
    NewOffsetOfFirst(marked);
    EmittedAt(marked, 0, Offsets(a, hot), MAGIC, k);
    EmitPads(marked[k], Offsets(a, hot));
    var out, m := Rewrite(a, hot).value.out, MembersOf(Rewrite(a, hot).value.out)[k];
    if |m.body| % 2 == 1 {
      assert out[m.offset..m.offset + Extent(|m.body|)][60 + |m.body|] == 10;
    }
  }

  lemma EmitPads(m: Member, offsets: map<nat, nat>)
    requires Emit(m, offsets).Ok?
    ensures |m.body| % 2 == 1 ==> 60 + |m.body| < Extent(|m.body|) && Emit(m, offsets).value[60 + |m.body|] == 10
  {
    hide FinalBody, Decimal, LeftAligned;
  }

  // ---------------------------------------------------------------------
  // Which error is reported

  lemma NotAnArchiveFault(a: bytes, hot: set<bytes>)
    ensures Rewrite(a, hot) == Err(NotAnArchive) <== |a| < 8 || a[..8] != [33, 60, 97, 114, 99, 104, 62, 10]
  {
    hide ParseFrom, MarkFrom, EmitFrom, Ascii;
    IndexNames();
  }

  /** A header whose size field is not a number, or whose body is cut off, ends the parse;
      so does whatever is wrong behind a member that is all right. */
  lemma CutFault(a: bytes, pos: nat)
    requires pos + 60 <= |a|
    ensures var size := ParseUsize(TrimEnd(a[pos + 48..pos + 58]));
      && (size == None ==> ParseFrom(a, pos) == Err(BadSize))
      && (size.Some? && pos + 60 + size.value > |a| ==> ParseFrom(a, pos) == Err(TruncatedArchive))
      && (size.Some? && pos + 60 + size.value <= |a| && ParseFrom(a, pos + 60 + size.value + size.value % 2).Err? ==>
            ParseFrom(a, pos) == ParseFrom(a, pos + 60 + size.value + size.value % 2))
  {
    hide ParseUsize, TrimEnd;
    SizeColumns(a, pos);
  }

  lemma SizeColumns(a: bytes, pos: nat)
    requires pos + 60 <= |a|
    ensures a[pos..pos + 60][48..58] == a[pos + 48..pos + 58]
  {
    var head := a[pos..pos + 60];
    assert forall i :: 48 <= i < 58 ==> head[i] == a[pos + i];
  }

  /** An index too short for its count or its entries, or with an entry that names no member,
      is a bad symbol index, as long as new positions fit. */
  lemma IndexFault(width: nat, index: bytes, offsets: map<nat, nat>)
    requires Remap(width, index, offsets).Err?
    requires forall x :: x in offsets ==> offsets[x] < Pow256(width)
    requires |index| >= width ==> width + ReadBE(index[..width]) * width < USIZE_LIMIT
    ensures Remap(width, index, offsets) == Err(BadSymbolIndex)
  {
    hide RemapEntries, ReadBE, Pow256;
    if |index| >= width && HoldsEntries(index, width, ReadBE(index[..width])) {
      EntryFault(width, index, 0, ReadBE(index[..width]), offsets);
    }
  }

  lemma {:induction false} EntryFault(width: nat, index: bytes, i: nat, count: nat, offsets: map<nat, nat>)
    requires i <= count && HoldsEntries(index, width, count) && RemapEntries(width, index, i, count, offsets).Err?
    requires forall x :: x in offsets ==> offsets[x] < Pow256(width)
    ensures RemapEntries(width, index, i, count, offsets) == Err(BadSymbolIndex)
    decreases count - i
  {
    hide ReadBE, WriteBE, Pow256, Patch;
    EntryFits(index, width, count, i);
    var was := ReadBE(EntryAt(index, width, i));
    if was in offsets {
      EntryFault(width, Patch(index, width + i * width, WriteBE(offsets[was], width)), i + 1, count, offsets);
    }
  }
}
