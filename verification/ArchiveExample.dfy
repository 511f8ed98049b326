/** A small archive that meets every assumption: a symbol index and the object of
    `ElfExample`, which its one entry names. */
module ArchiveExample {
  import opened Archive
  import opened ArchiveAcceptance
  import opened ArchiveBytes
  import opened ArchiveTheorems
  import opened Bytes
  import opened Decimals
  import opened Elf
  import ElfExample
  import opened ElfTheorems
  import opened Results

  function Head(name: byte): header { seq(60, i => if i == 0 then name else 32) }

  // One entry, which names the header at byte 76.
  const INDEX: bytes := [0, 0, 0, 1, 0, 0, 0, 76]

  function Parts(): (ms: seq<Member>)
    ensures |ms| == 2
  {
    [Member(Head(47), INDEX, 8), Member(Head(97), ElfExample.Object(8), 76)]
  }

  lemma Positions(ms: seq<Member>)
    requires |ms| == 2 && |ms[0].body| == 8
    ensures NewOffset(ms, 0) == 8 && NewOffset(ms, 1) == 76 && NewOffset(ms, 2) == 76 + Extent(|ms[1].body|)
  {
    hide Extent;
    assert Extent(8) == 68 by { ExtentIs(8); }
  }

  lemma ExtentIs(n: nat)
    ensures Extent(n) == 60 + n + n % 2
  {}

  lemma IndexRead()
    ensures ReadBE(INDEX[..4]) == 1 && Target(INDEX, 4, 0) == 76
  {
    hide ReadBE;
    BigEndian4(INDEX[..4]);
    BigEndian4(EntryAt(INDEX, 4, 0));
  }

  /** The index is in order for any members at bytes 8 and 76. */
  lemma IndexFits(ms: seq<Member>)
    requires |ms| == 2 && |ms[0].body| == 8 && ms[0].offset == 8 && ms[1].offset == 76
    ensures Increasing(ms) && IndexOk(INDEX, 4, ms)
  {
    hide ReadBE, EntryAt, NewOffset;
    Positions(ms);
    IndexRead();
    Limits();
    assert Names(ms, 76, 4) by {
      assert ms[1].offset == 76 && NewOffset(ms, 1) < Pow256(4);
    }
  }

  lemma HeadNames(name: byte, size: nat)
    requires |Decimal(size)| <= 10 && (name == 47 || name == 97)
    ensures IndexWidth(Resized(Head(name), size)) == IndexWidth(Head(name)) == if name == 47 then 4 else 0
    ensures Resized(Head(name), size)[..16] == Head(name)[..16]
  {
    hide IndexWidth, Decimal, LeftAligned;
    ResizedFields(Head(name), size);
    SameWidth(Head(name), Resized(Head(name), size));
    IndexWidthIs(Head(name));
    assert Resized(Head(name), size)[..48][..16] == Resized(Head(name), size)[..16];
    assert Head(name)[..48][..16] == Head(name)[..16];
    assert Head(name)[..16] == [name, 32, 32, 32, 32, 32, 32, 32, 32, 32, 32, 32, 32, 32, 32, 32];
    assert Head(name)[..16][1] == 32;
  }

  ghost function Positioned(): map<nat, nat> { OffsetMap(Parts(), 2) }

  lemma PartsEmit()
    ensures EmitFrom(Parts(), 0, Positioned()).Ok?
    ensures Emit(Parts()[0], Positioned()).Ok? && Emit(Parts()[1], Positioned()).Ok?
    ensures FinalBody(Parts()[0], Positioned()) == Ok(INDEX)
    ensures FinalBody(Parts()[1], Positioned()) == Ok(ElfExample.Object(8))
    ensures NewOffset(Parts(), 1) == 76 && NewOffset(Parts(), 2) < USIZE_LIMIT
  {
    hide Remap, Emit, EmitFrom, OffsetMap, IndexWidth, NewOffset, Decimal, ElfExample.Object, IndexOk;
    var ms := Parts();
    IndexFits(ms);
    Positions(ms);
    ExtentIs(288);
    TenDigits(8);
    TenDigits(288);
    HeadNames(47, 8);
    HeadNames(97, 288);
    assert Emittable(ms, 0) && Emittable(ms, 1);
    EmitOk(ms, 0);
    EmitOk(ms, 1);
    EmitFromOk(ms, 0, Positioned());
    IndexStays(ms);
  }

  /** Remapping the index along positions that stay changes nothing. */
  lemma IndexStays(ms: seq<Member>)
    requires |ms| == 2 && |ms[0].body| == 8 && ms[0].offset == 8 && ms[1].offset == 76
    ensures Remap(4, INDEX, OffsetMap(ms, 2)) == Ok(INDEX)
  {
    hide ReadBE, NewOffset, RemapEntries, EntryAt;
    Positions(ms);
    IndexFits(ms);
    IndexRead();
    OffsetMapExact(ms, 2, 8);
    OffsetMapExact(ms, 2, 76);
    var offsets := OffsetMap(ms, 2);
    forall x | x in offsets
      ensures offsets[x] == x
    {
      OffsetMapExact(ms, 2, x);
      var j :| 0 <= j < 2 && ms[j].offset == x;
    }
    RemapIdentity(4, INDEX, 0, 1, offsets);
  }

  ghost function Sample(): bytes
  {
    PartsEmit();
    MAGIC + EmitFrom(Parts(), 0, Positioned()).value
  }

  ghost function First(): Member
  {
    PartsEmit();
    Emitted(Parts()[0], 8, Positioned())
  }

  ghost function Second(): Member
  {
    PartsEmit();
    Emitted(Parts()[1], 76, Positioned())
  }

  lemma SampleParses()
    ensures StartsWith(Sample(), MAGIC) && ParseFrom(Sample(), 8) == Ok([First(), Second()])
  {
    hide ParseFrom, EmitFrom, OffsetMap, NewOffset, Ascii, Reparsed, Emit, Emitted, FinalBody, ElfExample.Object;
    PartsEmit();
    var ms := Parts();
    NewOffsetOfFirst(ms);
    EmittedParses(ms, 0, Positioned(), MAGIC);
    ReparsedMember(ms, 0, Positioned(), 0);
    ReparsedMember(ms, 0, Positioned(), 1);
    assert Reparsed(ms, 0, Positioned()) == [First(), Second()];
  }

  lemma SampleMembers()
    ensures First().body == INDEX && First().offset == 8 && NamedIndex(First().head) && IndexWidth(First().head) == 4
    ensures Second().body == ElfExample.Object(8) && Second().offset == 76 && IndexWidth(Second().head) == 0
    ensures !StartsWith(INDEX, ELF_MAGIC) && StartsWith(ElfExample.Object(8), ELF_MAGIC)
  {
    hide Remap, EmitFrom, OffsetMap, IndexWidth, NewOffset, Decimal, FinalBody, Resized;
    PartsEmit();
    TenDigits(8);
    TenDigits(288);
    HeadNames(47, 8);
    HeadNames(97, 288);
    IndexWidthIs(First().head);
    ObjectMagic(INDEX);
    ObjectMagic(ElfExample.Object(8));
  }

  /** The marked object: with its new name table at most 400 bytes. */
  lemma MarkedObject()
    ensures WellFormed(ElfExample.Object(8)) && Mark(ElfExample.Object(8), ElfExample.HOT).Ok?
    ensures var r := Mark(ElfExample.Object(8), ElfExample.HOT).value; r.Some? && r.value.count == 1 && |r.value.body| < 400
  {
    hide WellFormed, PlanNames, Mark, ElfExample.Object;
    ElfExample.ObjectIsMarked();
    ElfExample.Planned(8);
    MarkedIsRebuilt(ElfExample.Object(8), ElfExample.HOT);
  }

  /** The sample is accepted, one section of it is renamed, and it is well formed: the
      theorems about whole archives speak of it. */
  lemma SampleIsRewritten()
    ensures Rewrite(Sample(), ElfExample.HOT).Ok? && Rewrite(Sample(), ElfExample.HOT).value.renamed == 1
    ensures WellFormedArchive(Sample(), ElfExample.HOT)
    ensures MembersOf(Sample()) == [First(), Second()] && NamedIndex(First().head) && !IsObject(First().body)
  {
    hide *;
    SampleParses();
    SampleMembers();
    Marks();
    SampleAcceptable();
    AcceptsParsed(Sample(), ElfExample.HOT);
    SampleUnfolds(Sample(), First(), Second());
    RenamedCountsAll(Sample(), ElfExample.HOT);
    OneCounts(First(), ElfExample.HOT);
    OneCounts(Second(), ElfExample.HOT);
    ObjectMagic(First().body);
  }

  lemma SampleUnfolds(a: bytes, x: Member, y: Member)
    requires ParseFrom(a, 8) == Ok([x, y]) && IndexWidth(y.head) == 0 && !StartsWith(x.body, ELF_MAGIC)
    requires y.body == ElfExample.Object(8)
    ensures MembersOf(a) == [x, y] && WellFormedArchive(a, ElfExample.HOT)
    ensures AllRenames([x, y], 0, ElfExample.HOT) == Renames(x, ElfExample.HOT) + Renames(y, ElfExample.HOT)
  {
    hide ParseFrom, Mark, WellFormed, Renames, ElfExample.Object;
    MarkedObject();
    assert AllRenames([x, y], 2, ElfExample.HOT) == 0;
    assert AllRenames([x, y], 1, ElfExample.HOT) == Renames(y, ElfExample.HOT);
  }

  ghost function SecondMarked(): Member
  {
    MarkedObject();
    Second().(body := Mark(ElfExample.Object(8), ElfExample.HOT).value.value.body)
  }

  lemma Marks()
    ensures MarkOne(First(), ElfExample.HOT) == Ok((First(), 0)) && MarkOne(Second(), ElfExample.HOT) == Ok((SecondMarked(), 1))
  {
    hide Mark, First, Second, ElfExample.Object;
    SampleMembers();
    MarkedObject();
  }

  lemma SampleAcceptable()
    ensures Acceptable([First(), Second()], ElfExample.HOT)
  {
    hide First, Second, SecondMarked, MarkOne, ObjectOk, IndexOk, NewOffset, Extent, IndexWidth, ElfExample.Object, Acceptable;
    SampleMembers();
    Marks();
    MarkedObject();
    MarkOneOk(First(), ElfExample.HOT);
    MarkOneOk(Second(), ElfExample.HOT);
    SecondFits();
    TwoAcceptable(First(), Second(), SecondMarked(), ElfExample.HOT);
  }

  lemma SecondFits()
    ensures SecondMarked().head == Second().head && SecondMarked().offset == Second().offset && |SecondMarked().body| < 400
  {
    hide Second, Mark, ElfExample.Object;
    MarkedObject();
  }

  lemma TwoAcceptable(x: Member, y: Member, y': Member, hot: set<bytes>)
    requires ObjectOk(x, hot) && ObjectOk(y, hot) && MarkOne(x, hot) == Ok((x, 0)) && MarkOne(y, hot).Ok? && MarkOne(y, hot).value.0 == y'
    requires x.body == INDEX && IndexWidth(x.head) == 4 && x.offset == 8
    requires IndexWidth(y'.head) == 0 && y'.offset == 76 && |y'.body| < 400
    ensures Acceptable([x, y], hot)
  {
    hide MarkOne, ObjectOk, IndexOk, NewOffset, Extent, IndexWidth;
    var marked := [x, y'];
    assert AllMarked([x, y], hot) == marked;
    Positions(marked);
    ExtentIs(|y'.body|);
    IndexFits(marked);
    assert Emittable(marked, 0) && Emittable(marked, 1);
  }
}
