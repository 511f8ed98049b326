/** The loops of `rewriteArchive` and `remapIndex`, proved to compute `Archive.Rewrite`. */
module RewriteArchive {
  import opened Archive
  import opened Bytes
  import opened ByteLists
  import opened Decimals
  import opened Elf
  import opened MarkMember
  import opened Results

  ghost function AfterMembers(done: seq<Member>, rest: Result<seq<Member>, Error>): Result<seq<Member>, Error> {
    match rest
    case Ok(ms) => Ok(done + ms)
    case Err(e) => Err(e)
  }

  lemma PrependMember(done: seq<Member>, m: Member, rest: Result<seq<Member>, Error>)
    ensures AfterMembers(done, match rest case Ok(ms) => Ok([m] + ms) case Err(e) => Err(e)) == AfterMembers(done + [m], rest)
  {
    if rest.Ok? {
      assert done + ([m] + rest.value) == (done + [m]) + rest.value;
    }
  }

  method ParseMembers(a: bytes) returns (r: Result<seq<Member>, Error>)
    ensures r == ParseFrom(a, 8)
  {
    hide ParseUsize, TrimEnd, SizeField;
    var members: seq<Member> := [];
    var pos := 8;
    ghost var all := ParseFrom(a, 8);
    assert all.Ok? ==> members + all.value == all.value;
    while pos + 60 <= |a|
      invariant all == AfterMembers(members, ParseFrom(a, pos))
      decreases |a| - pos
    {
      var head: header := a[pos..pos + 60];
      var size := ParseUsize(TrimEnd(SizeField(head)));
      if size.None? {
        return Err(BadSize);
      }
      if pos + 60 + size.value > |a| {
        return Err(TruncatedArchive);
      }
      var m := Member(head, a[pos + 60..pos + 60 + size.value], pos);
      PrependMember(members, m, ParseFrom(a, pos + Extent(size.value)));
      members := members + [m];
      pos := pos + 60 + size.value + size.value % 2;
    }
    assert members + [] == members;
    return Ok(members);
  }

  ghost function AfterPass(done: seq<Member>, renamed: nat, rest: Result<Pass, Error>): Result<Pass, Error> {
    match rest
    case Ok(p) => Ok(Pass(done + p.members, renamed + p.renamed))
    case Err(e) => Err(e)
  }

  method MarkMembers(members: array<Member>, hot: set<bytes>) returns (r: Result<nat, Error>)
    modifies members
    ensures MarkFrom(old(members[..]), 0, hot)
         == match r case Ok(renamed) => Ok(Pass(members[..], renamed)) case Err(e) => Err(e)
  {
    hide MarkOne;
    var renamed := 0;
    ghost var ms := members[..];
    ghost var all := MarkFrom(ms, 0, hot);
    assert all.Ok? ==> members[..0] + all.value.members == all.value.members;
    for k := 0 to members.Length
      invariant members[k..] == ms[k..]
      invariant all == AfterPass(members[..k], renamed, MarkFrom(ms, k, hot))
    {
      ghost var done := members[..k];
      assert members[k] == members[k..][0] == ms[k];
      var one := MarkMemberBody(members[k], hot);
      if one.Err? {
        return Err(one.error);
      }
      ghost var rest := MarkFrom(ms, k + 1, hot);
      if rest.Ok? {
        assert done + ([one.value.0] + rest.value.members) == (done + [one.value.0]) + rest.value.members;
      }
      assert ms[k + 1..] == ms[k..][1..];
      members[k] := one.value.0;
      renamed := renamed + one.value.1;
      assert members[..k + 1] == done + [one.value.0];
    }
    assert members[..] == members[..members.Length] + [];
    return Ok(renamed);
  }

  method MarkMemberBody(m: Member, hot: set<bytes>) returns (r: Result<(Member, nat), Error>)
    ensures r == MarkOne(m, hot)
  {
    if !StartsWith(m.body, ELF_MAGIC) {
      return Ok((m, 0));
    }
    var marked := MarkMember.MarkMember(m.body, hot);
    if marked.Err? {
      return Err(marked.error);
    }
    if marked.value.None? {
      return Ok((m, 0));
    }
    return Ok((m.(body := marked.value.value.body), marked.value.value.count));
  }

  method PlaceMembers(members: seq<Member>) returns (offsets: map<nat, nat>, end: nat)
    ensures offsets == OffsetMap(members, |members|)
    ensures end == NewOffset(members, |members|)
  {
    offsets := map[];
    end := 8;
    for k := 0 to |members|
      invariant offsets == OffsetMap(members, k) && end == NewOffset(members, k)
    {
      offsets := offsets[members[k].offset := end];
      end := end + 60 + |members[k].body| + |members[k].body| % 2;
    }
  }

  lemma PatchInTail(b: bytes, start: nat, at: nat, s: bytes)
    requires start + at + |s| <= |b|
    ensures Patch(b, start + at, s)[start..] == Patch(b[start..], at, s)
    ensures Patch(b, start + at, s)[..start] == b[..start]
  {}

  lemma SliceInTail(b: bytes, start: nat, at: nat, n: nat)
    requires start + at + n <= |b|
    ensures b[start + at..start + at + n] == b[start..][at..at + n]
  {}

  lemma RemapStep(width: nat, index: bytes, i: nat, count: nat, offsets: map<nat, nat>)
    requires i < count && HoldsEntries(index, width, count)
    ensures width + i * width + width <= |index|
    ensures var was := ReadBE(EntryAt(index, width, i));
      RemapEntries(width, index, i, count, offsets) ==
        if was !in offsets then Err(BadSymbolIndex)
        else if offsets[was] >= Pow256(width) then Err(Overflow)
        else RemapEntries(width, Patch(index, width + i * width, WriteBE(offsets[was], width)), i + 1, count, offsets)
  {
    EntryFits(index, width, count, i);
  }

  lemma RemapDone(width: nat, index: bytes, count: nat, offsets: map<nat, nat>)
    requires HoldsEntries(index, width, count)
    ensures RemapEntries(width, index, count, count, offsets) == Ok(index)
  {}

  /** Overwrites the index that starts at `start` and runs to the end of `out`. */
  method RemapIndex(width: nat, out: ByteList, start: nat, offsets: map<nat, nat>) returns (ok: Result<(), Error>)
    requires out.Valid() && start <= |out.items| && width > 0
    modifies out`items
    ensures out.Valid() && |out.items| == |old(out.items)|
    ensures out.items[..start] == old(out.items[..start])
    ensures Remap(width, old(out.items[start..]), offsets)
         == match ok case Ok(_) => Ok(out.items[start..]) case Err(e) => Err(e)
  {
    hide WriteBE, ReadBE, Patch, RemapEntries, Pow256;
    ghost var before := out.items;
    var size := |out.items| - start;
    if size < width {
      return Err(BadSymbolIndex);
    }
    assert out.items[start..start + width] == out.items[start..][..width];
    var count := ReadBE(out.items[start..start + width]);
    if width + count * width >= USIZE_LIMIT {
      return Err(Overflow);
    }
    if size < width + count * width {
      return Err(BadSymbolIndex);
    }
    ghost var all := RemapEntries(width, before[start..], 0, count, offsets);
    for i := 0 to count
      invariant |out.items| == |before| && out.items[..start] == before[..start]
      invariant all == RemapEntries(width, out.items[start..], i, count, offsets)
    {
      ghost var index := out.items[start..];
      RemapStep(width, index, i, count, offsets);
      var at := start + (width + i * width);
      SliceInTail(out.items, start, width + i * width, width);
      var was := ReadBE(out.items[at..at + width]);
      if was !in offsets {
        return Err(BadSymbolIndex);
      }
      if offsets[was] >= Pow256(width) {
        return Err(Overflow);
      }
      PatchInTail(out.items, start, width + i * width, WriteBE(offsets[was], width));
      out.WriteIntBig(at, offsets[was], width);
    }
    RemapDone(width, out.items[start..], count, offsets);
    return Ok(());
  }

  method EmitMember(m: Member, out: ByteList, offsets: map<nat, nat>) returns (ok: Result<(), Error>)
    requires out.Valid() && |out.items| + Extent(|m.body|) <= out.capacity
    modifies out`items
    ensures out.Valid()
    ensures Emit(m, offsets).Err? ==> ok == Err(Emit(m, offsets).error)
    ensures Emit(m, offsets).Ok? ==> ok == Ok(()) && out.items == old(out.items) + Emit(m, offsets).value
  {
    hide Patch, Remap, LeftAligned, Decimal, Name;
    ghost var before := out.items;
    if |Decimal(|m.body|)| > 10 {
      return Err(NoSpaceLeft);
    }
    var head := Resized(m.head, |m.body|);
    out.AppendSliceAssumeCapacity(head);
    var start := |out.items|;
    out.AppendSliceAssumeCapacity(m.body);
    assert out.items[..start] == before + head && out.items[start..] == m.body;
    var width := IndexWidth(m.head);
    if width != 0 {
      ok := RemapIndex(width, out, start, offsets);
      if ok.Err? {
        return;
      }
    }
    ghost var body := FinalBody(m, offsets).value;
    assert out.items == out.items[..start] + out.items[start..];
    assert out.items == before + head + body;
    if |m.body| % 2 == 1 {
      out.AppendSliceAssumeCapacity(['\n' as int]);
    }
    assert out.items == before + (head + body + PadByte(|m.body|));
    return Ok(());
  }

  lemma OffsetsGrow(ms: seq<Member>, i: nat, k: nat)
    requires i <= k <= |ms|
    ensures NewOffset(ms, i) + 60 * (k - i) <= NewOffset(ms, k)
    decreases k - i
  {
    if i < k {
      OffsetsGrow(ms, i, k - 1);
    }
  }

  /** The bytes emitted after the magic, in front of those still to be emitted. */
  ghost function AfterTail(items: bytes, rest: Result<bytes, Error>): Result<bytes, Error>
    requires |items| >= 8
  {
    match rest
    case Ok(tail) => Ok(items[8..] + tail)
    case Err(e) => Err(e)
  }

  lemma AppendTail(items: bytes, one: bytes, rest: Result<bytes, Error>)
    requires |items| >= 8
    ensures AfterTail(items, match rest case Ok(tail) => Ok(one + tail) case Err(e) => Err(e)) == AfterTail(items + one, rest)
    ensures (items + one)[..8] == items[..8]
  {
    assert (items + one)[8..] == items[8..] + one;
    if rest.Ok? {
      assert items[8..] + (one + rest.value) == (items[8..] + one) + rest.value;
    }
  }

  method EmitMembers(ms: seq<Member>, out: ByteList, offsets: map<nat, nat>, end: nat) returns (ok: Result<(), Error>)
    requires out.Valid() && out.items == [] && end == NewOffset(ms, |ms|)
    modifies out
    ensures out.Valid()
    ensures EmitFrom(ms, 0, offsets).Err? ==> ok == Err(EmitFrom(ms, 0, offsets).error)
    ensures EmitFrom(ms, 0, offsets).Ok? ==> ok == Ok(()) && out.items == MAGIC + EmitFrom(ms, 0, offsets).value
  {
    hide Emit, Ascii, Extent;
    out.EnsureTotalCapacity(end);
    out.AppendSliceAssumeCapacity(MAGIC);
    ghost var tail := EmitFrom(ms, 0, offsets);
    assert out.items[8..] == [] && (tail.Ok? ==> [] + tail.value == tail.value);
    for k := 0 to |ms|
      invariant out.Valid() && out.capacity >= end
      invariant |out.items| == NewOffset(ms, k)
      invariant tail == AfterTail(out.items, EmitFrom(ms, k, offsets))
      invariant out.items[..8] == MAGIC
    {
      ghost var done := out.items;
      OffsetsGrow(ms, k + 1, |ms|);
      var ok := EmitMember(ms[k], out, offsets);
      if ok.Err? {
        return Err(ok.error);
      }
      AppendTail(done, Emit(ms[k], offsets).value, EmitFrom(ms, k + 1, offsets));
    }
    assert out.items == MAGIC + (out.items[8..] + []);
    return Ok(());
  }

  /** `out` starts empty; on success it holds the rewritten archive, which fills
      exactly the capacity computed beforehand. */
  method RewriteArchive(a: bytes, hot: set<bytes>, out: ByteList) returns (r: Result<nat, Error>)
    requires out.Valid() && out.items == []
    modifies out
    ensures out.Valid()
    ensures Rewrite(a, hot) == match r case Ok(renamed) => Ok(Rewritten(out.items, renamed)) case Err(e) => Err(e)
  {
    hide ParseFrom, Emit, EmitFrom, Ascii, Extent;
    if !StartsWith(a, MAGIC) {
      return Err(NotAnArchive);
    }
    var parsed := ParseMembers(a);
    if parsed.Err? {
      return Err(parsed.error);
    }
    var members := new Member[|parsed.value|](i requires 0 <= i < |parsed.value| => parsed.value[i]);
    assert members[..] == parsed.value;
    var renamed := MarkMembers(members, hot);
    if renamed.Err? {
      return Err(renamed.error);
    }
    var ms := members[..];
    var offsets, end := PlaceMembers(ms);
    if end >= USIZE_LIMIT {
      return Err(OutOfMemory);
    }
    var emitted := EmitMembers(ms, out, offsets, end);
    if emitted.Err? {
      return Err(emitted.error);
    }
    return Ok(renamed.value);
  }
}
