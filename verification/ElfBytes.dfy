/** The results about one object in terms of raw bytes: where the fields stand, which
    symbol records count, and how names are spelled. */
module ElfBytes {
  import opened Bytes
  import opened Elf
  import opened ElfAcceptance
  import opened ElfLayout
  import opened ElfNaming
  import opened ElfTheorems
  import opened Results

  // ---------------------------------------------------------------------
  // Fields, least significant byte first

  ghost function Number16(b: bytes, at: nat): nat
    requires at + 2 <= |b|
  {
    (b[at] as int) + 0x100 * (b[at + 1] as int)
  }

  ghost function Number32(b: bytes, at: nat): nat
    requires at + 4 <= |b|
  {
    (b[at] as int) + 0x100 * (b[at + 1] as int) + 0x1_0000 * (b[at + 2] as int) + 0x100_0000 * (b[at + 3] as int)
  }

  ghost function Number64(b: bytes, at: nat): nat
    requires at + 8 <= |b|
  {
    Number32(b, at) + 0x1_0000_0000 * Number32(b, at + 4)
  }

  lemma Reads16(b: bytes, at: nat)
    requires at + 2 <= |b|
    ensures U16(b, at) == Number16(b, at)
  {
    hide ReadLE;
    LittleEndian2(b[at..at + 2]);
  }

  lemma Reads32(b: bytes, at: nat)
    requires at + 4 <= |b|
    ensures U32(b, at) == Number32(b, at)
  {
    hide ReadLE;
    LittleEndian4(b[at..at + 4]);
  }

  lemma Reads64(b: bytes, at: nat)
    requires at + 8 <= |b|
    ensures U64(b, at) == Number64(b, at)
  {
    hide ReadLE;
    LittleEndian8(b[at..at + 8]);
  }

  /** The tool looks into an object exactly when its header says 64 bits, little-endian,
      with section headers of 64 bytes, some of them, among which the name table's. */
  lemma LooksInto(e: bytes, hot: set<bytes>)
    ensures Handled(e) <==>
      && |e| >= 64 && e[4] == 2 && e[5] == 1 && Number16(e, 0x3A) == 64
      && Number16(e, 0x3C) > 0 && Number16(e, 0x3E) < Number16(e, 0x3C)
    ensures !Handled(e) ==> Mark(e, hot) == Ok(None)
    ensures |e| >= 64 ==> Shoff(e) == Number64(e, 0x28) && Shnum(e) == Number16(e, 0x3C) && Shstrndx(e) == Number16(e, 0x3E)
  {
    hide U16, U64, Number16, Number64;
    if |e| >= 64 {
      Reads16(e, 0x3A);
      Reads16(e, 0x3C);
      Reads16(e, 0x3E);
      Reads64(e, 0x28);
    }
  }

  /** The fields of a section header, and the bytes of a section. */
  lemma SectionFields(e: bytes, i: nat)
    requires TableFits(e) && i < Shnum(e)
    ensures var at := Shoff(e) + 64 * i;
      at + 64 <= |e| &&
      Shdrs(e)[i] == Shdr(Number32(e, at), Number32(e, at + 4), Number64(e, at + 24), Number64(e, at + 32), Number32(e, at + 40))
    ensures SectionBytes(e, Shdrs(e)[i]).Ok? ==>
      var sh := Shdrs(e)[i];
      sh.offset + sh.size <= |e| && SectionBytes(e, sh).value == e[sh.offset..sh.offset + sh.size]
  {
    hide U32, U64, Number32, Number64, Shoff, Shnum;
    var at := Shoff(e) + i * 64;
    Reads32(e, at);
    Reads32(e, at + 4);
    Reads64(e, at + 24);
    Reads64(e, at + 32);
    Reads32(e, at + 40);
  }

  // ---------------------------------------------------------------------
  // The symbol records

  /** Records in the symbol tables among sections `k` to `s - 1`. */
  ghost function RecordsBetween(shdrs: seq<Shdr>, k: nat, s: nat): nat
    requires k <= s <= |shdrs|
    decreases s - k
  {
    if k == s then 0 else (if shdrs[k].kind == 2 then shdrs[k].size / 24 else 0) + RecordsBetween(shdrs, k + 1, s)
  }

  lemma {:induction false} RecordAt(symtab: bytes, i: nat, strtab: bytes, r: nat)
    ensures |EntriesOf(symtab, i, strtab)| == if i <= |symtab| then (|symtab| - i) / 24 else 0
    ensures i + 24 * r + 24 <= |symtab| ==> EntriesOf(symtab, i, strtab)[r] == Entry(ReadSym(symtab, i + 24 * r), strtab)
    decreases |symtab| - i
  {
    hide ReadSym;
    if i + 24 <= |symtab| {
      RecordAt(symtab, i + 24, strtab, if r == 0 then 0 else r - 1);
    }
  }

  /** What stands at `at` in the file, as an entry with the strings of `table`. */
  ghost predicate IsRecord(e: bytes, x: Entry, at: nat, table: Shdr) {
    && at + 24 <= |e| && table.offset + table.size <= |e|
    && x == Entry(Sym(Number32(e, at), e[at + 4] % 16, Number16(e, at + 6)), e[table.offset..table.offset + table.size])
  }

  /** The scan goes over every record of every symbol table, in order: record `r` of the
      table in section `s` stands behind those of the tables before it. */
  lemma {:induction false} RecordsInOrder(e: bytes, shdrs: seq<Shdr>, k: nat, s: nat, r: nat)
    requires |e| < USIZE_LIMIT && k <= s <= |shdrs| && forall i :: k <= i < |shdrs| ==> SymtabOk(e, shdrs, i)
    ensures |EntriesFrom(e, shdrs, k)| == RecordsBetween(shdrs, k, |shdrs|)
    ensures s < |shdrs| && shdrs[s].kind == 2 && r < shdrs[s].size / 24 ==>
      && RecordsBetween(shdrs, k, s) + r < |EntriesFrom(e, shdrs, k)| && shdrs[s].link < |shdrs|
      && IsRecord(e, EntriesFrom(e, shdrs, k)[RecordsBetween(shdrs, k, s) + r], shdrs[s].offset + 24 * r, shdrs[shdrs[s].link])
    decreases |shdrs| - k
  {
    hide EntriesFrom, SymtabOk, IsRecord;
    if k < |shdrs| {
      RecordsInOrder(e, shdrs, k + 1, if s == k then k + 1 else s, r);
      OwnRecords(e, shdrs, k, r);
    } else {
      assert EntriesFrom(e, shdrs, k) == [] by { NoEntries(e, shdrs); }
    }
  }

  lemma NoEntries(e: bytes, shdrs: seq<Shdr>)
    ensures EntriesFrom(e, shdrs, |shdrs|) == []
  {}

  /** The records of section `k` come first, then those of the sections behind it. */
  lemma OwnRecords(e: bytes, shdrs: seq<Shdr>, k: nat, r: nat)
    requires |e| < USIZE_LIMIT && k < |shdrs| && SymtabOk(e, shdrs, k)
    ensures var own := if shdrs[k].kind == 2 then shdrs[k].size / 24 else 0;
      && |EntriesFrom(e, shdrs, k)| == own + |EntriesFrom(e, shdrs, k + 1)|
      && EntriesFrom(e, shdrs, k)[own..] == EntriesFrom(e, shdrs, k + 1)
      && (r < own ==>
            && shdrs[k].link < |shdrs|
            && IsRecord(e, EntriesFrom(e, shdrs, k)[r], shdrs[k].offset + 24 * r, shdrs[shdrs[k].link]))
  {
    hide EntriesOf, ReadSym, Number16, Number32;
    if shdrs[k].kind == SHT_SYMTAB {
      var strtab := SectionBytes(e, shdrs[shdrs[k].link]).value;
      var symtab := SectionBytes(e, shdrs[k]).value;
      RecordAt(symtab, 0, strtab, r);
      if r < shdrs[k].size / 24 {
        RecordFields(e, shdrs[k].offset, shdrs[k].size, r);
      }
    }
  }

  lemma RecordFields(e: bytes, offset: nat, size: nat, r: nat)
    requires offset + size <= |e| && 24 * r + 24 <= size
    ensures var at := offset + 24 * r;
      ReadSym(e[offset..offset + size], 24 * r) == Sym(Number32(e, at), e[at + 4] % 16, Number16(e, at + 6))
  {
    hide Number16, Number32, ReadLE;
    var at := offset + 24 * r;
    var symtab := e[offset..offset + size];
    Reads32(e, at);
    Reads16(e, at + 6);
    hide *;
    SliceOfSection(e, offset, size, 24 * r, 4);
    SliceOfSection(e, offset, size, 24 * r + 6, 2);
    SymbolFields(symtab, 24 * r);
    SymbolFields(e, at);
    assert symtab[24 * r + 4] == e[at + 4];
  }

  lemma SymbolFields(b: bytes, i: nat)
    requires i + 24 <= |b|
    ensures ReadSym(b, i) == Sym(ReadLE(b[i..i + 4]), b[i + 4] % 16, ReadLE(b[i + 6..i + 8]))
    ensures U32(b, i) == ReadLE(b[i..i + 4]) && U16(b, i + 6) == ReadLE(b[i + 6..i + 8])
  {
    hide ReadLE;
  }

  lemma SliceOfSection(e: bytes, offset: nat, size: nat, lo: nat, n: nat)
    requires offset + size <= |e| && lo + n <= size
    ensures e[offset..offset + size][lo..lo + n] == e[offset + lo..offset + lo + n]
  {
    var x, y := e[offset..offset + size][lo..lo + n], e[offset + lo..offset + lo + n];
    assert forall k :: 0 <= k < n ==> x[k] == y[k];
  }

  // ---------------------------------------------------------------------
  // Names

  /** `.text`, `.text.unlikely.`, `.text.startup.` or `.text.exit.` */
  ghost predicate IsText(name: bytes) {
    || name == [46, 116, 101, 120, 116]
    || name == [46, 116, 101, 120, 116, 46, 117, 110, 108, 105, 107, 101, 108, 121, 46]
    || name == [46, 116, 101, 120, 116, 46, 115, 116, 97, 114, 116, 117, 112, 46]
    || name == [46, 116, 101, 120, 116, 46, 101, 120, 105, 116, 46]
  }

  /** `.rodata` */
  ghost predicate IsRodata(name: bytes) { name == [46, 114, 111, 100, 97, 116, 97] }

  /** The symbol begins with `Builtins_`. */
  ghost predicate IsBuiltin(sym: bytes) {
    |sym| >= 9 && sym[..9] == [66, 117, 105, 108, 116, 105, 110, 115, 95]
  }

  lemma NamesSpelled()
    ensures forall name: bytes :: name in GENERIC_NAMES <==> IsText(name) || IsRodata(name)
    ensures BUILTINS == [66, 117, 105, 108, 116, 105, 110, 115, 95]
    ensures TEXT == [46, 116, 101, 120, 116]
    ensures TEXT_HOT == [46, 116, 101, 120, 116, 46, 104, 111, 116, 46]
    ensures RODATA_HOT == [46, 114, 111, 100, 97, 116, 97, 46, 104, 111, 116, 46]
  {
    assert Ascii(".text") == [46, 116, 101, 120, 116];
    assert Ascii(".text.unlikely.") == [46, 116, 101, 120, 116, 46, 117, 110, 108, 105, 107, 101, 108, 121, 46];
    assert Ascii(".text.startup.") == [46, 116, 101, 120, 116, 46, 115, 116, 97, 114, 116, 117, 112, 46];
    assert Ascii(".text.exit.") == [46, 116, 101, 120, 116, 46, 101, 120, 105, 116, 46];
    assert Ascii(".rodata") == [46, 114, 111, 100, 97, 116, 97];
    forall name: bytes
      ensures name in GENERIC_NAMES <==> IsText(name) || IsRodata(name)
    {
      assert name in GENERIC_NAMES <==>
        name == GENERIC_NAMES[0] || name == GENERIC_NAMES[1] || name == GENERIC_NAMES[2] || name == GENERIC_NAMES[3] || name == GENERIC_NAMES[4];
    }
  }

  lemma PrefixSpelled(name: bytes)
    ensures IsText(name) ==> HotPrefix(name) == [46, 116, 101, 120, 116, 46, 104, 111, 116, 46]
    ensures IsRodata(name) ==> HotPrefix(name) == [46, 114, 111, 100, 97, 116, 97, 46, 104, 111, 116, 46]
  {
    NamesSpelled();
    if IsText(name) {
      assert name[..5] == [46, 116, 101, 120, 116];
    }
    if IsRodata(name) {
      assert name[..5][1] == 114;
    }
  }

  /** A record that can name section `idx`: an object or a function defined there, under a
      hot name. */
  ghost predicate IsHot(x: Entry, idx: nat, shnum: nat, hot: set<bytes>) {
    && x.sym.shndx == idx && 0 < idx < shnum && (x.sym.kind == 1 || x.sym.kind == 2)
    && x.sym.name < |x.strtab| && UntilNul(x.strtab[x.sym.name..]) in hot
  }

  lemma HotIs(x: Entry, idx: nat, shnum: nat, hot: set<bytes>)
    ensures Candidate(x, idx, shnum, hot) <==> IsHot(x, idx, shnum, hot)
  {
    hide UntilNul;
  }

  /** The name a section should have, given the name it has and its first hot symbol. */
  ghost function NewNameOf(kind: nat, was: bytes, sym: bytes): bytes {
    if kind != 1 || IsBuiltin(sym) then was
    else if IsText(was) then [46, 116, 101, 120, 116, 46, 104, 111, 116, 46] + sym
    else if IsRodata(was) then [46, 114, 111, 100, 97, 116, 97, 46, 104, 111, 116, 46] + sym
    else was
  }

  /** What every section is called in the rewritten object: what it was called, unless it is
      program data under one of the five generic names whose first hot record, over all
      symbol tables in order, is not one of the builtins. */
  lemma NamedAfterFirstHot(e: bytes, hot: set<bytes>, i: nat) returns (p: Option<nat>)
    requires WellFormed(e) && i < Shnum(e) && SectionName(e, i).Ok?
    requires Mark(e, hot).Ok? && Mark(e, hot).value.Some?
    ensures var e' := Mark(e, hot).value.value.body;
      var symbols := EntriesFrom(e, Shdrs(e), 0);
      && TableFits(e') && Shnum(e') == Shnum(e)
      && match p
         case None =>
           && (forall q :: 0 <= q < |symbols| ==> !IsHot(symbols[q], i, Shnum(e), hot))
           && SectionName(e', i) == SectionName(e, i)
         case Some(first) =>
           && first < |symbols| && IsHot(symbols[first], i, Shnum(e), hot)
           && (forall q :: 0 <= q < first ==> !IsHot(symbols[q], i, Shnum(e), hot))
           && var sym := UntilNul(symbols[first].strtab[symbols[first].sym.name..]);
           SectionName(e', i) == Ok(NewNameOf(Shdrs(e)[i].kind, SectionName(e, i).value, sym))
  {
    hide Mark, SectionName, Shdrs, EntriesFrom, First, Candidate, IsHot, UntilNul, GENERIC_NAMES, HotPrefix, IsText, IsRodata, BUILTINS;
    RenamesExactly(e, hot, i);
    var symbols := EntriesFrom(e, Shdrs(e), 0);
    p := FirstIsFirst(symbols, i, Shnum(e), hot);
    forall q | 0 <= q < |symbols|
      ensures Candidate(symbols[q], i, Shnum(e), hot) <==> IsHot(symbols[q], i, Shnum(e), hot)
    {
      HotIs(symbols[q], i, Shnum(e), hot);
    }
    NamesSpelled();
    PrefixSpelled(SectionName(e, i).value);
  }

  /** The name table moves behind the object, to the next multiple of 8, with zeros up to
      there, and ends the rewritten object. */
  lemma TableAtEnd(e: bytes, hot: set<bytes>)
    requires TableFits(e) && Shoff(e) >= 64 && Mark(e, hot).Ok? && Mark(e, hot).value.Some?
    ensures var e' := Mark(e, hot).value.value.body;
      && TableFits(e') && Shstrndx(e') == Shstrndx(e)
      && var table := Shdrs(e')[Shstrndx(e)];
      && table.offset % 8 == 0 && |e| <= table.offset < |e| + 8 && table.offset + table.size == |e'|
      && forall x :: |e| <= x < table.offset ==> e'[x] == 0
  {
    hide PlanNames, Rebuild, Shdrs, Mark, Moved;
    MarkedIsRebuilt(e, hot);
    var n := PlanNames(e, hot).value;
    NewShdrs(e, n);
    KeepsElfHeader(e, n);
    var end := |e| + |Padding(|e|)|;
    RebuildOutside(e, n, |e|, end);
    assert Unpatched(e, n)[|e|..end] == Padding(|e|);
    forall x | |e| <= x < end
      ensures Rebuild(e, n)[x] == 0
    {
      assert Rebuild(e, n)[|e|..end][x - |e|] == Padding(|e|)[x - |e|];
    }
  }

  /** A section that leaves the file is a bad object, a name that starts behind its table a
      bad string offset. */
  lemma Faults(e: bytes, sh: Shdr, table: bytes, at: nat)
    ensures |e| < sh.offset + sh.size < 0x1_0000_0000_0000_0000 ==> SectionBytes(e, sh) == Err(BadElf)
    ensures at >= |table| ==> Cstr(table, at) == Err(BadStringOffset)
  {}
}
