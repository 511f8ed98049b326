/** A small object of the kind LLVM emits: one string table for section and symbol names,
    a generic `.text` section and a function in it. Its section is renamed. With a table of
    8 bytes the theorems' assumptions hold of it; with one of 7, which lacks the last NUL,
    another section and the symbol lose their names. */
module ElfExample {
  import opened Bytes
  import opened Elf
  import opened ElfNaming
  import opened ElfTheorems
  import opened Results

  // Headers of the symbol table (0), the string table (1) and `.text` (2), then the strings
  // at 256 and one symbol record at 264.
  function ByteAt(size: byte, i: nat): byte {
    if i < 64 then
      if i == 0 then 0x7f else if i == 1 then 0x45 else if i == 2 then 0x4c else if i == 3 then 0x46
      else if i == 4 then 2 else if i == 5 then 1
      else if i == 0x28 then 64 else if i == 0x3A then 64 else if i == 0x3C then 3 else if i == 0x3E then 1 else 0
    else if i < 128 then
      if i == 68 then 2 else if i == 88 then 8 else if i == 89 then 1 else if i == 96 then 24 else if i == 104 then 1 else 0
    else if i < 192 then
      if i == 128 then 6 else if i == 132 then 3 else if i == 153 then 1 else if i == 160 then size else 0
    else if i < 256 then
      if i == 196 then 1 else 0
    else if i < 264 then STRINGS[i - 256]
    else if i == 264 then 6 else if i == 268 then 18 else if i == 270 then 2 else 0
  }

  // ".text", NUL, "f", NUL
  const STRINGS: bytes := [46, 116, 101, 120, 116, 0, 102, 0]

  type tablesize = x: byte | x == 7 || x == 8 witness 8

  function Strings(size: tablesize): (s: bytes)
    ensures |s| == size
  {
    STRINGS[..size]
  }

  function Object(size: tablesize): (e: bytes)
    ensures |e| == 288 && forall i :: 0 <= i < 288 ==> e[i] == ByteAt(size, i)
  {
    seq(288, i requires 0 <= i < 288 => ByteAt(size, i))
  }

  const HOT: set<bytes> := {[102]}

  function Value(w: int, x: int, y: int, z: int): int { w + 0x100 * x + 0x1_0000 * y + 0x100_0000 * z }

  lemma Read16(size: tablesize, at: nat)
    requires at + 2 <= 288
    ensures U16(Object(size), at) == Value(ByteAt(size, at), ByteAt(size, at + 1), 0, 0)
  {
    hide ByteAt, ReadLE;
    LittleEndian2(Object(size)[at..at + 2]);
  }

  lemma Read32(size: tablesize, at: nat)
    requires at + 4 <= 288
    ensures U32(Object(size), at) == Value(ByteAt(size, at), ByteAt(size, at + 1), ByteAt(size, at + 2), ByteAt(size, at + 3))
  {
    hide ByteAt, ReadLE;
    LittleEndian4(Object(size)[at..at + 4]);
  }

  lemma Read64(size: tablesize, at: nat)
    requires at + 8 <= 288
    requires ByteAt(size, at + 4) == ByteAt(size, at + 5) == ByteAt(size, at + 6) == ByteAt(size, at + 7) == 0
    ensures U64(Object(size), at) == Value(ByteAt(size, at), ByteAt(size, at + 1), ByteAt(size, at + 2), ByteAt(size, at + 3))
  {
    hide ByteAt, ReadLE;
    LittleEndian8(Object(size)[at..at + 8]);
  }

  lemma Header(size: tablesize)
    ensures TableFits(Object(size)) && Shoff(Object(size)) == 64 && Shnum(Object(size)) == 3 && Shstrndx(Object(size)) == 1
  {
    hide Object, ReadLE, U16, U64;
    assert U16(Object(size), 0x3A) == 64 by { Read16(size, 0x3A); }
    assert U16(Object(size), 0x3C) == 3 by { Read16(size, 0x3C); }
    assert U16(Object(size), 0x3E) == 1 by { Read16(size, 0x3E); }
    assert U64(Object(size), 0x28) == 64 by { Read64(size, 0x28); }
    assert Object(size)[4] == 2 && Object(size)[5] == 1;
    hide ByteAt;
  }

  lemma SymbolHeader(size: tablesize)
    ensures ReadShdr(Object(size), 64) == Shdr(0, SHT_SYMTAB, 264, 24, 1)
  {
    hide Object, ReadLE, U32, U64;
    assert U32(Object(size), 64) == 0 by { Read32(size, 64); }
    assert U32(Object(size), 68) == 2 by { Read32(size, 68); }
    assert U64(Object(size), 88) == 264 by { Read64(size, 88); }
    assert U64(Object(size), 96) == 24 by { Read64(size, 96); }
    assert U32(Object(size), 104) == 1 by { Read32(size, 104); }
  }

  lemma StringHeader(size: tablesize)
    ensures ReadShdr(Object(size), 128) == Shdr(6, SHT_STRTAB, 256, size, 0)
  {
    hide Object, ReadLE, U32, U64;
    assert U32(Object(size), 128) == 6 by { Read32(size, 128); }
    assert U32(Object(size), 132) == 3 by { Read32(size, 132); }
    assert U64(Object(size), 152) == 256 by { Read64(size, 152); }
    assert U64(Object(size), 160) == size by { Read64(size, 160); }
    assert U32(Object(size), 168) == 0 by { Read32(size, 168); }
  }

  lemma TextHeader(size: tablesize)
    ensures ReadShdr(Object(size), 192) == Shdr(0, SHT_PROGBITS, 0, 0, 0)
  {
    hide Object, ReadLE, U32, U64;
    assert U32(Object(size), 192) == 0 by { Read32(size, 192); }
    assert U32(Object(size), 196) == 1 by { Read32(size, 196); }
    assert U64(Object(size), 216) == 0 by { Read64(size, 216); }
    assert U64(Object(size), 224) == 0 by { Read64(size, 224); }
    assert U32(Object(size), 232) == 0 by { Read32(size, 232); }
  }

  lemma Sections(size: tablesize)
    ensures TableFits(Object(size))
    ensures Shdrs(Object(size)) ==
      [Shdr(0, SHT_SYMTAB, 264, 24, 1), Shdr(6, SHT_STRTAB, 256, size, 0), Shdr(0, SHT_PROGBITS, 0, 0, 0)]
    ensures SectionBytes(Object(size), Shdrs(Object(size))[1]) == Ok(Strings(size))
  {
    hide Object, ReadShdr;
    Header(size);
    SymbolHeader(size);
    StringHeader(size);
    TextHeader(size);
    assert Object(size)[256..256 + size] == Strings(size);
  }

  lemma Names(size: tablesize)
    ensures Cstr(Strings(size), 0) == Ok(TEXT) && Cstr(Strings(size), 6) == Ok([102])
  {
    assert TEXT == [46, 116, 101, 120, 116];
    UntilNulUnique(Strings(size)[0..], [46, 116, 101, 120, 116]);
    UntilNulUnique(Strings(size)[6..], [102]);
  }

  lemma OneSymbol(size: tablesize)
    ensures var symtab := Object(size)[264..288]; |symtab| == 24 && ReadSym(symtab, 0) == Sym(6, STT_FUNC, 2)
  {
    hide Object, ReadLE, U16, U32, ReadSym;
    assert U32(Object(size), 264) == 6 by { Read32(size, 264); }
    assert U16(Object(size), 270) == 2 by { Read16(size, 270); }
    assert Object(size)[268] == 18;
    hide *;
    SymbolCut(Object(size), 264);
  }

  lemma SymbolCut(e: bytes, at: nat)
    requires at + 24 <= |e|
    ensures ReadSym(e[at..at + 24], 0) == Sym(U32(e, at), e[at + 4] % 16, U16(e, at + 6))
  {
    hide ReadLE;
    var symtab := e[at..at + 24];
    assert symtab[0..4] == e[at..at + 4];
    assert symtab[6..8] == [symtab[6], symtab[7]] == [e[at + 6], e[at + 7]] == e[at + 6..at + 8];
  }

  lemma Scanned(size: tablesize)
    ensures TableFits(Object(size))
    ensures ScanSections(Object(size), Shdrs(Object(size)), 0, HOT, NoSyms(3)) == Ok([None, None, Some([102])])
  {
    hide Object, ReadSym, Cstr, UntilNul, TableFits;
    Sections(size);
    Names(size);
    OneSymbol(size);
    var symtab := Object(size)[264..288];
    var shdrs := Shdrs(Object(size));
    var found := NoSyms(3)[2 := Some([102])];
    assert found == [None, None, Some([102])];
    assert ScanSymbols(symtab, 0, Strings(size), HOT, NoSyms(3)) == ScanSymbols(symtab, 24, Strings(size), HOT, found) == Ok(found);
    assert SectionBytes(Object(size), shdrs[0]) == Ok(symtab);
    assert ScanSections(Object(size), shdrs, 1, HOT, found) == ScanSections(Object(size), shdrs, 3, HOT, found);
  }

  lemma IsWellFormed()
    ensures WellFormed(Object(8))
  {
    hide Object, TableFits, ByteAt;
    Header(8);
    Sections(8);
  }

  /** Three sections of which only the last gets a name. */
  lemma AssignSteps(shdrs: seq<Shdr>, found: HotSyms, shstrtab: bytes, name: bytes, table: bytes)
    requires |shdrs| == 3 && |found| == 3 && |table| < U32_LIMIT
    requires HotName(shdrs[0], found[0], shstrtab) == Ok(None) && HotName(shdrs[1], found[1], shstrtab) == Ok(None)
    requires HotName(shdrs[2], found[2], shstrtab) == Ok(Some(name))
    ensures Assign(shdrs, found, shstrtab, 0, table) == Ok(Naming([None, None, Some(|table|)], table + name + [0], 1))
  {
    hide HotName, Assign;
    AssignLast(shdrs, found, shstrtab, name, table);
    AssignSkip(shdrs, found, shstrtab, 1, table);
    AssignSkip(shdrs, found, shstrtab, 0, table);
    assert [None] + [Some(|table|)] == [None, Some(|table|)];
    assert [None] + [None, Some(|table|)] == [None, None, Some(|table|)];
  }

  lemma AssignSkip(shdrs: seq<Shdr>, found: HotSyms, shstrtab: bytes, k: nat, table: bytes)
    requires |shdrs| == |found| && k < |shdrs| && HotName(shdrs[k], found[k], shstrtab) == Ok(None)
    ensures var rest := Assign(shdrs, found, shstrtab, k + 1, table);
      rest.Ok? ==>
        Assign(shdrs, found, shstrtab, k, table) == Ok(Naming([None] + rest.value.names, rest.value.table, rest.value.count))
  {
    hide HotName;
  }

  lemma AssignLast(shdrs: seq<Shdr>, found: HotSyms, shstrtab: bytes, name: bytes, table: bytes)
    requires |shdrs| == |found| == 3 && |table| < U32_LIMIT
    requires HotName(shdrs[2], found[2], shstrtab) == Ok(Some(name))
    ensures Assign(shdrs, found, shstrtab, 2, table) == Ok(Naming([Some(|table|)], table + name + [0], 1))
  {
    hide HotName;
    assert Assign(shdrs, found, shstrtab, 3, table + name + [0]) == Ok(Naming([], table + name + [0], 0));
    assert [Some(|table|)] + [] == [Some(|table|)];
  }

  const FOUND: HotSyms := [None, None, Some([102])]

  lemma HotNames(size: tablesize)
    ensures TableFits(Object(size))
    ensures var shdrs := Shdrs(Object(size));
      && HotName(shdrs[0], FOUND[0], Strings(size)) == Ok(None) && HotName(shdrs[1], FOUND[1], Strings(size)) == Ok(None)
      && HotName(shdrs[2], FOUND[2], Strings(size)) == Ok(Some(TEXT_HOT + [102]))
  {
    hide Object, Cstr, ByteAt, TableFits, Strings;
    Sections(size);
    Names(size);
    assert !StartsWith([102], BUILTINS);
  }

  lemma Planned(size: tablesize)
    ensures TableFits(Object(size)) && PlanNames(Object(size), HOT).Ok?
    ensures PlanNames(Object(size), HOT).value.count == 1 && |PlanNames(Object(size), HOT).value.table| < 100
    ensures PlanNames(Object(size), HOT).value.names == [None, None, Some(size)]
  {
    hide Object, Cstr, ScanSections, TableFits, ByteAt, HotName, Assign, Shdrs, Strings;
    Header(size);
    Sections(size);
    Scanned(size);
    HotNames(size);
    var shdrs := Shdrs(Object(size));
    assert |TEXT_HOT| < 20;
    AssignSteps(shdrs, FOUND, Strings(size), TEXT_HOT + [102], Strings(size));
    assert PlanNames(Object(size), HOT) == Assign(shdrs, FOUND, Strings(size), 0, Strings(size));
  }

  ghost predicate MarksOne(e: bytes, hot: set<bytes>) {
    && Mark(e, hot).Ok? && Mark(e, hot).value.Some? && Mark(e, hot).value.value.count == 1
    && TableFits(e) && Shnum(e) == 3 && ShouldRename(e, hot, 2)
  }

  lemma IsMarked(size: tablesize)
    ensures MarksOne(Object(size), HOT)
  {
    hide Object, PlanNames, Rebuild, ShouldRename, ByteAt, Shdrs;
    Header(size);
    Planned(size);
    PlanIsExact(Object(size), HOT, 2);
  }

  ghost predicate SharesTable(e: bytes) {
    TableFits(e) && Shnum(e) == 3 && Shdrs(e)[0].kind == SHT_SYMTAB && Shdrs(e)[0].link == Shstrndx(e)
  }

  /** The object meets every assumption of the theorems about one object, its symbol names
      share the section-name table, and its `.text` section is the one renamed. */
  lemma ObjectIsMarked()
    ensures WellFormed(Object(8)) && SharesTable(Object(8)) && MarksOne(Object(8), HOT)
  {
    hide Object, MarksOne, WellFormed, ByteAt, ReadShdr;
    Header(8);
    Sections(8);
    IsWellFormed();
    IsMarked(8);
  }

  lemma TextPrefix()
    ensures HotPrefix(TEXT) == TEXT_HOT && !StartsWith([102], BUILTINS)
  {}

  lemma HotNameIs(size: tablesize)
    ensures MarksOne(Object(size), HOT) && HotNameOf(Object(size), HOT, 2) == TEXT_HOT + [102]
    ensures forall i :: 0 <= i < 2 ==> !ShouldRename(Object(size), HOT, i)
  {
    hide Object, ByteAt, ScanSections, First, EntriesFrom, Cstr, Mark, Strings, StartsWith, HotPrefix;
    Header(size);
    Sections(size);
    Names(size);
    Scanned(size);
    IsMarked(size);
    ScanSectionsFindsFirst(Object(size), Shdrs(Object(size)), 0, HOT, NoSyms(3), 2);
    TextPrefix();
  }

  /** Section `i` and, read at offset `at` of the shared table, a symbol have the name `was`
      in the object and `now` in the rewritten one. */
  ghost predicate Reads(e: bytes, hot: set<bytes>, i: nat, at: nat, was: bytes, now: bytes) {
    && SharesTable(e) && i < 3 && SectionName(e, i) == Ok(was)
    && SectionBytes(e, Shdrs(e)[1]).Ok? && Cstr(SectionBytes(e, Shdrs(e)[1]).value, at) == Ok(was)
    && Mark(e, hot).Ok? && Mark(e, hot).value.Some?
    && var e' := Mark(e, hot).value.value.body;
    && TableFits(e') && Shnum(e') == 3 && SectionName(e', i) == Ok(now)
    && SectionBytes(e', Shdrs(e')[1]).Ok? && Cstr(SectionBytes(e', Shdrs(e')[1]).value, at) == Ok(now)
  }

  /** Without the last NUL the string section and the symbol, both called `f`, come out
      as `f.text.hot.f`. */
  lemma UnterminatedRunsOn()
    ensures MarksOne(Object(7), HOT) && Reads(Object(7), HOT, 1, 6, [102], [102] + TEXT_HOT + [102])
  {
    hide Object, ByteAt, Mark, Strings, ShouldRename, HotNameOf, Cstr, STRINGS;
    Header(7);
    Sections(7);
    Names(7);
    HotNameIs(7);
    NoNul();
    assert SectionName(Object(7), 1) == Ok([102]);
    var j := NameSurvivesIff(Object(7), HOT, 1);
    var j' := SymbolNameSurvivesIff(Object(7), HOT, 0, 6);
    assert j == 2 && j' == 2;
    assert [102] + TEXT_HOT + [102] == [102] + (TEXT_HOT + [102]);
  }

  lemma NoNul()
    ensures 0 !in Strings(7)[6..]
  {}
}
