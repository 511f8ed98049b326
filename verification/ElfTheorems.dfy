/** Marking an object preserves its meaning, renames exactly the hot sections, and
    has nothing left to do the second time. */
module ElfTheorems {
  import opened Bytes
  import opened Elf
  import opened ElfLayout
  import opened ElfNaming
  import opened Results

  const SHT_NULL: nat := 0
  const SHT_NOBITS: nat := 8

  ghost predicate Terminated(table: bytes) {
    table != [] && table[|table| - 1] == 0
  }

  /** The section's bytes do not meet the section header table. */
  ghost predicate OffTable(e: bytes, sh: Shdr)
    requires TableFits(e)
  {
    sh.size == 0 || sh.offset + sh.size <= Shoff(e) || Shoff(e) + Shnum(e) * 64 <= sh.offset
  }

  /** Chapter 4 of the System V gABI: file header, header table and sections do not
      overlap; string tables are SHT_STRTAB sections, end in NUL and are what symbol
      tables link to. */
  ghost predicate WellFormed(e: bytes) {
    && TableFits(e) && Shoff(e) >= 64
    && var shdrs := Shdrs(e);
    && var strings := SectionBytes(e, shdrs[Shstrndx(e)]);
    && shdrs[Shstrndx(e)].kind == SHT_STRTAB
    && (strings.Ok? ==> Terminated(strings.value))
    && (forall i :: 0 <= i < |shdrs| && shdrs[i].kind != SHT_NULL && shdrs[i].kind != SHT_NOBITS ==> OffTable(e, shdrs[i]))
    && (forall i :: 0 <= i < |shdrs| && shdrs[i].kind == SHT_SYMTAB ==>
          shdrs[i].link < |shdrs| && shdrs[shdrs[i].link].kind == SHT_STRTAB)
  }

  ghost function SectionName(e: bytes, i: nat): Result<bytes, Error>
    requires TableFits(e) && i < Shnum(e)
  {
    var strings :- SectionBytes(e, Shdrs(e)[Shstrndx(e)]);
    Cstr(strings, Shdrs(e)[i].name)
  }

  ghost function HotSymbolOf(e: bytes, hot: set<bytes>, i: nat): Option<bytes>
    requires TableFits(e) && i < Shnum(e)
  {
    First(EntriesFrom(e, Shdrs(e), 0), i, Shnum(e), hot)
  }

  /** The sections the tool is for: program data under a generic name whose first hot
      symbol is not part of the builtins blob. */
  ghost predicate ShouldRename(e: bytes, hot: set<bytes>, i: nat)
    requires TableFits(e) && i < Shnum(e)
  {
    var sym := HotSymbolOf(e, hot, i);
    && Shdrs(e)[i].kind == SHT_PROGBITS
    && sym.Some? && !StartsWith(sym.value, BUILTINS)
    && SectionName(e, i).Ok? && SectionName(e, i).value in GENERIC_NAMES
  }

  ghost function HotNameOf(e: bytes, hot: set<bytes>, i: nat): bytes
    requires TableFits(e) && i < Shnum(e) && ShouldRename(e, hot, i)
  {
    HotPrefix(SectionName(e, i).value) + HotSymbolOf(e, hot, i).value
  }

  ghost function ToRename(e: bytes, hot: set<bytes>): set<nat>
    requires TableFits(e)
  {
    set i | 0 <= i < Shnum(e) && ShouldRename(e, hot, i)
  }

  // ---------------------------------------------------------------------
  // The plan names exactly the sections to rename

  lemma PlanIsExact(e: bytes, hot: set<bytes>, i: nat)
    requires TableFits(e) && i < Shnum(e) && PlanNames(e, hot).Ok?
    ensures var n := PlanNames(e, hot).value;
      && (n.names[i].Some? <==> ShouldRename(e, hot, i))
      && (n.names[i].Some? ==> Cstr(n.table, n.names[i].value) == Ok(HotNameOf(e, hot, i)))
  {
    hide ScanSections, Assign, Shdrs, SectionBytes, Cstr, First, EntriesFrom, HotPrefix, NulFree;
    var shdrs := Shdrs(e);
    var shstrtab := SectionBytes(e, shdrs[Shstrndx(e)]).value;
    var none := NoSyms(|shdrs|);
    var found := ScanSections(e, shdrs, 0, hot, none).value;
    ScanSectionsFindsFirst(e, shdrs, 0, hot, none, i);
    assert found[i] == HotSymbolOf(e, hot, i);
    AssignExact(shdrs, found, shstrtab, 0, shstrtab, i);
  }

  /** The same without the scanning function: the symbol that decides is the first hot
      object or function of the section, over all symbol tables in order. */
  lemma PlanBySymbols(e: bytes, hot: set<bytes>, i: nat) returns (p: Option<nat>)
    requires TableFits(e) && i < Shnum(e) && PlanNames(e, hot).Ok?
    ensures var n := PlanNames(e, hot).value;
      var symbols := EntriesFrom(e, Shdrs(e), 0);
      match p
      case None => n.names[i].None? && forall q :: 0 <= q < |symbols| ==> !Candidate(symbols[q], i, Shnum(e), hot)
      case Some(first) =>
        && FirstAt(symbols, first, i, Shnum(e), hot) && Cstr(symbols[first].strtab, symbols[first].sym.name).Ok?
        && var sym := Cstr(symbols[first].strtab, symbols[first].sym.name).value;
        && (n.names[i].Some? <==>
              && Shdrs(e)[i].kind == SHT_PROGBITS && !StartsWith(sym, BUILTINS)
              && SectionName(e, i).Ok? && SectionName(e, i).value in GENERIC_NAMES)
        && (n.names[i].Some? ==> Cstr(n.table, n.names[i].value) == Ok(HotPrefix(SectionName(e, i).value) + sym))
  {
    hide PlanNames, Shdrs, SectionName, Cstr, First, EntriesFrom, Candidate, StartsWith, GENERIC_NAMES, HotPrefix;
    PlanIsExact(e, hot, i);
    p := FirstIsFirst(EntriesFrom(e, Shdrs(e), 0), i, Shnum(e), hot);
  }

  lemma PlanCounts(e: bytes, hot: set<bytes>)
    requires TableFits(e) && PlanNames(e, hot).Ok?
    ensures PlanNames(e, hot).value.count == |ToRename(e, hot)|
    ensures PlanNames(e, hot).value.count == 0 <==> ToRename(e, hot) == {}
  {
    hide ScanSections, Assign, Shdrs, SectionBytes, ShouldRename;
    var shdrs := Shdrs(e);
    var shstrtab := SectionBytes(e, shdrs[Shstrndx(e)]).value;
    var found := ScanSections(e, shdrs, 0, hot, NoSyms(|shdrs|)).value;
    AssignCounts(shdrs, found, shstrtab, 0, shstrtab);
    var names := PlanNames(e, hot).value.names;
    forall i | 0 <= i < Shnum(e)
      ensures names[i].Some? <==> ShouldRename(e, hot, i)
    {
      PlanIsExact(e, hot, i);
    }
    assert Named(names) == ToRename(e, hot);
  }

  /** `Mark` leaves an object alone exactly when it has no section to rename. */
  lemma UntouchedIffNothingHot(e: bytes, hot: set<bytes>)
    requires TableFits(e) && Mark(e, hot).Ok?
    ensures Mark(e, hot).value.None? <==> forall i :: 0 <= i < Shnum(e) ==> !ShouldRename(e, hot, i)
    ensures Mark(e, hot).value.Some? ==> Mark(e, hot).value.value.count == |ToRename(e, hot)| > 0
  {
    hide PlanNames, ShouldRename, Rebuild;
    PlanCounts(e, hot);
    assert forall i :: i in ToRename(e, hot) <==> 0 <= i < Shnum(e) && ShouldRename(e, hot, i);
  }

  // ---------------------------------------------------------------------
  // What the rewritten object reads as

  lemma MarkedIsRebuilt(e: bytes, hot: set<bytes>)
    requires Mark(e, hot).Ok? && Mark(e, hot).value.Some?
    ensures TableFits(e) && PlanNames(e, hot).Ok? && FitsObject(e, PlanNames(e, hot).value)
    ensures Mark(e, hot).value.value.body == Rebuild(e, PlanNames(e, hot).value)
  {
    hide PlanNames, Rebuild;
  }

  /** The new table is the old one with names appended. */
  lemma TableGrows(e: bytes, hot: set<bytes>)
    requires TableFits(e) && PlanNames(e, hot).Ok?
    ensures SectionBytes(e, Shdrs(e)[Shstrndx(e)]).Ok?
    ensures SectionBytes(e, Shdrs(e)[Shstrndx(e)]).value <= PlanNames(e, hot).value.table
  {
    hide ScanSections, SectionBytes, Shdrs;
  }

  lemma NewTableBytes(e: bytes, n: Naming)
    requires FitsObject(e, n) && Shoff(e) >= 64
    ensures TableFits(Rebuild(e, n)) && Shstrndx(Rebuild(e, n)) == Shstrndx(e) && Shnum(Rebuild(e, n)) == Shnum(e)
    ensures SectionBytes(Rebuild(e, n), Shdrs(Rebuild(e, n))[Shstrndx(e)]) == Ok(n.table)
  {
    hide Rebuild, Shdrs;
    var e' := Rebuild(e, n);
    KeepsElfHeader(e, n);
    NewShdrs(e, n);
    var base := |e| + |Padding(|e|)|;
    RebuildOutside(e, n, base, |Unpatched(e, n)|);
    assert Unpatched(e, n)[base..] == n.table;
    assert e'[base..base + |n.table|] == n.table;
  }

  /** Any other section keeps its bytes. */
  lemma KeepsSection(e: bytes, n: Naming, i: nat)
    requires FitsObject(e, n) && Shoff(e) >= 64 && i < Shnum(e) && i != Shstrndx(e)
    requires OffTable(e, Shdrs(e)[i]) && SectionBytes(e, Shdrs(e)[i]).Ok?
    ensures TableFits(Rebuild(e, n)) && Shnum(Rebuild(e, n)) == Shnum(e)
    ensures SectionBytes(Rebuild(e, n), Shdrs(Rebuild(e, n))[i]) == SectionBytes(e, Shdrs(e)[i])
  {
    hide Rebuild, Shdrs;
    NewShdrs(e, n);
    KeepsElfHeader(e, n);
    var sh := Shdrs(e)[i];
    assert Shdrs(Rebuild(e, n))[i].offset == sh.offset && Shdrs(Rebuild(e, n))[i].size == sh.size;
    if sh.size > 0 {
      RebuildOutside(e, n, sh.offset, sh.offset + sh.size);
      assert Unpatched(e, n)[sh.offset..sh.offset + sh.size] == e[sh.offset..sh.offset + sh.size];
    } else {
      assert Rebuild(e, n)[sh.offset..sh.offset] == [] == e[sh.offset..sh.offset];
    }
  }

  /** Strings of a terminated table read the same from any extension of it. */
  lemma CstrExtends(table: bytes, longer: bytes, offset: nat)
    requires Terminated(table) && table <= longer && Cstr(table, offset).Ok?
    ensures Cstr(longer, offset) == Cstr(table, offset)
  {
    hide UntilNul;
    var tail := table[offset..];
    assert tail[|tail| - 1] == 0;
    assert longer[offset..] == tail + longer[|table|..];
    UntilNulExtends(tail, longer[|table|..]);
  }

  // ---------------------------------------------------------------------
  // Main results about one object

  /** A hot section reads back under its new name, and every other section under its old one. */
  lemma RenamesExactly(e: bytes, hot: set<bytes>, i: nat)
    requires WellFormed(e) && i < Shnum(e)
    requires Mark(e, hot).Ok? && Mark(e, hot).value.Some?
    ensures var e' := Mark(e, hot).value.value.body;
      && TableFits(e') && Shnum(e') == Shnum(e)
      && (ShouldRename(e, hot, i) ==> SectionName(e', i) == Ok(HotNameOf(e, hot, i)))
      && (!ShouldRename(e, hot, i) && SectionName(e, i).Ok? ==> SectionName(e', i) == SectionName(e, i))
  {
    hide PlanNames, Rebuild, ShouldRename, HotNameOf, SectionBytes, Shdrs, Cstr, Mark;
    MarkedIsRebuilt(e, hot);
    var n := PlanNames(e, hot).value;
    PlanIsExact(e, hot, i);
    TableGrows(e, hot);
    NewTableBytes(e, n);
    NewShdrs(e, n);
    var strings := SectionBytes(e, Shdrs(e)[Shstrndx(e)]).value;
    if !ShouldRename(e, hot, i) && SectionName(e, i).Ok? {
      CstrExtends(strings, n.table, Shdrs(e)[i].name);
    }
  }

  /** The first section that gets a name gets the first appended one. */
  lemma {:induction false} FirstNamed(shdrs: seq<Shdr>, found: HotSyms, shstrtab: bytes, k: nat, table: bytes) returns (j: nat)
    requires |found| == |shdrs| && k <= |shdrs| && Assign(shdrs, found, shstrtab, k, table).Ok?
    requires Assign(shdrs, found, shstrtab, k, table).value.count > 0
    ensures var n := Assign(shdrs, found, shstrtab, k, table).value;
      && k <= j < |shdrs| && n.names[j - k] == Some(|table|) && |table| < |n.table|
      && forall i :: 0 <= i < j - k ==> n.names[i].None?
    decreases |shdrs| - k
  {
    hide HotName;
    var name := HotName(shdrs[k], found[k], shstrtab).value;
    if name.None? {
      j := FirstNamed(shdrs, found, shstrtab, k + 1, table);
    } else {
      j := k;
      assert Assign(shdrs, found, shstrtab, k + 1, table + name.value + [0]).Ok?;
    }
  }

  /** What stands right behind the old strings is the hot name of the first section renamed. */
  lemma FirstAppended(e: bytes, hot: set<bytes>) returns (j: nat)
    requires TableFits(e) && PlanNames(e, hot).Ok? && PlanNames(e, hot).value.count > 0
    ensures j < Shnum(e) && ShouldRename(e, hot, j) && forall i :: 0 <= i < j ==> !ShouldRename(e, hot, i)
    ensures SectionBytes(e, Shdrs(e)[Shstrndx(e)]).Ok?
    ensures var strings := SectionBytes(e, Shdrs(e)[Shstrndx(e)]).value;
      var table := PlanNames(e, hot).value.table;
      strings <= table && |strings| < |table| && UntilNul(table[|strings|..]) == HotNameOf(e, hot, j) != []
  {
    hide ShouldRename, SectionBytes, Shdrs, PlanNames, UntilNul, HotNameOf, Cstr, SectionName;
    j := FirstOfPlan(e, hot);
    var names := PlanNames(e, hot).value.names;
    forall i | 0 <= i < Shnum(e)
      ensures names[i].Some? <==> ShouldRename(e, hot, i)
    {
      PlanIsExact(e, hot, i);
    }
    PlanIsExact(e, hot, j);
    NotEmpty(e, hot, j);
    TableGrows(e, hot);
    CstrBehind(SectionBytes(e, Shdrs(e)[Shstrndx(e)]).value, PlanNames(e, hot).value.table);
  }

  lemma FirstOfPlan(e: bytes, hot: set<bytes>) returns (j: nat)
    requires TableFits(e) && PlanNames(e, hot).Ok? && PlanNames(e, hot).value.count > 0
    ensures SectionBytes(e, Shdrs(e)[Shstrndx(e)]).Ok? && |PlanNames(e, hot).value.names| == Shnum(e)
    ensures var n := PlanNames(e, hot).value;
      var strings := SectionBytes(e, Shdrs(e)[Shstrndx(e)]).value;
      j < Shnum(e) && n.names[j] == Some(|strings|) && |strings| < |n.table| && forall i :: 0 <= i < j ==> n.names[i].None?
  {
    hide SectionBytes, Shdrs, Assign, ScanSections;
    var strings := SectionBytes(e, Shdrs(e)[Shstrndx(e)]).value;
    j := FirstNamed(Shdrs(e), ScanSections(e, Shdrs(e), 0, hot, NoSyms(Shnum(e))).value, strings, 0, strings);
  }

  lemma NotEmpty(e: bytes, hot: set<bytes>, j: nat)
    requires TableFits(e) && j < Shnum(e) && ShouldRename(e, hot, j)
    ensures HotNameOf(e, hot, j) != []
  {
    hide ShouldRename, SectionName, HotSymbolOf;
  }

  lemma CstrBehind(strings: bytes, table: bytes)
    requires |strings| < |table|
    ensures Cstr(table, |strings|) == Ok(UntilNul(table[|strings|..]))
  {}

  /** How a string of the old table reads from the new one, terminated or not. */
  ghost function ReadAfter(strings: bytes, at: nat, first: bytes): bytes
    requires at < |strings|
  {
    UntilNul(strings[at..]) + if 0 in strings[at..] then [] else first
  }

  lemma CstrGrown(strings: bytes, table: bytes, at: nat)
    requires strings <= table && at < |strings|
    ensures Cstr(table, at) == Ok(ReadAfter(strings, at, UntilNul(table[|strings|..])))
  {
    hide UntilNul;
    var more := table[|strings|..];
    assert table[at..] == strings[at..] + more;
    UntilNulConcat(strings[at..], more);
    assert UntilNul(strings[at..]) + [] == UntilNul(strings[at..]);
  }

  /** Without the promise that the name table is terminated: a section that is not renamed
      reads as before, followed by the first new name when its own does not end in the old
      table. So it keeps its name exactly when that name ends there. */
  lemma NameSurvivesIff(e: bytes, hot: set<bytes>, i: nat) returns (j: nat)
    requires TableFits(e) && Shoff(e) >= 64 && i < Shnum(e)
    requires Mark(e, hot).Ok? && Mark(e, hot).value.Some?
    requires !ShouldRename(e, hot, i) && SectionName(e, i).Ok?
    ensures j < Shnum(e) && ShouldRename(e, hot, j) && forall k :: 0 <= k < j ==> !ShouldRename(e, hot, k)
    ensures var e' := Mark(e, hot).value.value.body;
      var strings := SectionBytes(e, Shdrs(e)[Shstrndx(e)]).value;
      && TableFits(e') && Shnum(e') == Shnum(e)
      && SectionName(e', i) == Ok(SectionName(e, i).value + if 0 in strings[Shdrs(e)[i].name..] then [] else HotNameOf(e, hot, j))
      && (SectionName(e', i) == SectionName(e, i) <==> 0 in strings[Shdrs(e)[i].name..])
  {
    hide PlanNames, Rebuild, ShouldRename, HotNameOf, SectionBytes, Shdrs, UntilNul, Mark;
    MarkedIsRebuilt(e, hot);
    SomeCounted(e, hot);
    var n := PlanNames(e, hot).value;
    j := FirstAppended(e, hot);
    PlanIsExact(e, hot, i);
    NewTableBytes(e, n);
    NewShdrs(e, n);
    var strings := SectionBytes(e, Shdrs(e)[Shstrndx(e)]).value;
    var at := Shdrs(e)[i].name;
    CstrGrown(strings, n.table, at);
    Longer(UntilNul(strings[at..]), HotNameOf(e, hot, j));
    assert SectionName(e, i) == Ok(UntilNul(strings[at..]));
    assert SectionName(Rebuild(e, n), i) == Cstr(n.table, at);
  }

  lemma Longer(x: bytes, y: bytes)
    requires y != []
    ensures x + y != x && x + [] == x
  {
    assert |x + y| > |x|;
  }

  lemma SomeCounted(e: bytes, hot: set<bytes>)
    requires Mark(e, hot).Ok? && Mark(e, hot).value.Some?
    ensures TableFits(e) && PlanNames(e, hot).Ok? && PlanNames(e, hot).value.count > 0
  {
    hide PlanNames, Rebuild;
  }

  /** The same for the name of a symbol: it can only run on when its strings share the
      section-name table, and then exactly when it does not end in the old table. */
  lemma SymbolNameSurvivesIff(e: bytes, hot: set<bytes>, k: nat, at: nat) returns (j: nat)
    requires TableFits(e) && Shoff(e) >= 64 && Mark(e, hot).Ok? && Mark(e, hot).value.Some?
    requires k < Shnum(e) && Shdrs(e)[k].kind == SHT_SYMTAB && Shdrs(e)[k].link < Shnum(e)
    requires OffTable(e, Shdrs(e)[Shdrs(e)[k].link]) || Shdrs(e)[k].link == Shstrndx(e)
    requires SectionBytes(e, Shdrs(e)[Shdrs(e)[k].link]).Ok?
    requires at < |SectionBytes(e, Shdrs(e)[Shdrs(e)[k].link]).value|
    ensures j < Shnum(e) && ShouldRename(e, hot, j) && forall i :: 0 <= i < j ==> !ShouldRename(e, hot, i)
    ensures var e' := Mark(e, hot).value.value.body;
      var link := Shdrs(e)[k].link;
      var strtab := SectionBytes(e, Shdrs(e)[link]).value;
      var ends := link != Shstrndx(e) || 0 in strtab[at..];
      && TableFits(e') && Shnum(e') == Shnum(e) && Shdrs(e')[k].link == link && SectionBytes(e', Shdrs(e')[link]).Ok?
      && var strtab' := SectionBytes(e', Shdrs(e')[link]).value;
      && Cstr(strtab', at) == Ok(Cstr(strtab, at).value + if ends then [] else HotNameOf(e, hot, j))
      && (Cstr(strtab', at) == Cstr(strtab, at) <==> ends)
  {
    hide PlanNames, Rebuild, ShouldRename, HotNameOf, SectionBytes, Shdrs, UntilNul, Mark, OffTable;
    MarkedIsRebuilt(e, hot);
    SomeCounted(e, hot);
    var n := PlanNames(e, hot).value;
    j := FirstAppended(e, hot);
    NewShdrs(e, n);
    var link := Shdrs(e)[k].link;
    if link == Shstrndx(e) {
      var strings := SectionBytes(e, Shdrs(e)[link]).value;
      NewTableBytes(e, n);
      CstrGrown(strings, n.table, at);
      Longer(UntilNul(strings[at..]), HotNameOf(e, hot, j));
    } else {
      var strings := SectionBytes(e, Shdrs(e)[link]).value;
      KeepsSection(e, n, link);
      Longer(UntilNul(strings[at..]), HotNameOf(e, hot, j));
    }
  }

  /** Every section keeps its type, link and remaining header bytes; all but the name
      table keep offset, size and contents, and the name table only grows. */
  lemma PreservesSections(e: bytes, hot: set<bytes>, i: nat)
    requires WellFormed(e) && i < Shnum(e)
    requires Mark(e, hot).Ok? && Mark(e, hot).value.Some?
    ensures var e' := Mark(e, hot).value.value.body;
      var at := Shoff(e) + i * 64;
      && TableFits(e') && Shoff(e') == Shoff(e) && Shnum(e') == Shnum(e) && Shstrndx(e') == Shstrndx(e)
      && e'[..64] == e[..64]
      && e'[at + 4..at + 24] == e[at + 4..at + 24] && e'[at + 40..at + 64] == e[at + 40..at + 64]
      && (i != Shstrndx(e) ==> e'[at + 24..at + 40] == e[at + 24..at + 40])
      && (i != Shstrndx(e) && OffTable(e, Shdrs(e)[i]) && SectionBytes(e, Shdrs(e)[i]).Ok? ==>
            SectionBytes(e', Shdrs(e')[i]) == SectionBytes(e, Shdrs(e)[i]))
      && (i == Shstrndx(e) ==>
            && SectionBytes(e, Shdrs(e)[i]).Ok? && SectionBytes(e', Shdrs(e')[i]).Ok?
            && SectionBytes(e, Shdrs(e)[i]).value <= SectionBytes(e', Shdrs(e')[i]).value)
  {
    hide PlanNames, Rebuild, SectionBytes, Shdrs, Mark, OffTable, FitsObject;
    MarkedIsRebuilt(e, hot);
    var n := PlanNames(e, hot).value;
    KeepsHeaderBytes(e, n, i);
    if i == Shstrndx(e) {
      TableGrows(e, hot);
      NewTableBytes(e, n);
    } else if OffTable(e, Shdrs(e)[i]) && SectionBytes(e, Shdrs(e)[i]).Ok? {
      KeepsSection(e, n, i);
    }
  }

  /** The file header stays, and each section header but for the name field and, in the
      name table's header, offset and size. */
  lemma KeepsHeaderBytes(e: bytes, n: Naming, i: nat)
    requires FitsObject(e, n) && Shoff(e) >= 64 && i < Shnum(e)
    ensures var e' := Rebuild(e, n);
      var at := Shoff(e) + i * 64;
      && TableFits(e') && Shoff(e') == Shoff(e) && Shnum(e') == Shnum(e) && Shstrndx(e') == Shstrndx(e)
      && at + 64 <= |e| && at + 64 <= |e'|
      && e'[..64] == e[..64]
      && e'[at + 4..at + 24] == e[at + 4..at + 24] && e'[at + 40..at + 64] == e[at + 40..at + 64]
      && (i != Shstrndx(e) ==> e'[at + 24..at + 40] == e[at + 24..at + 40])
  {
    hide Rebuild;
    var at := Shoff(e) + i * 64;
    KeepsElfHeader(e, n);
    RebuildOutside(e, n, 0, 64);
    assert Unpatched(e, n)[0..64] == e[..64];
    NewHeaderField(e, n, i, at + 4, at + 24);
    NewHeaderField(e, n, i, at + 40, at + 64);
    if i != Shstrndx(e) {
      NewHeaderField(e, n, i, at + 24, at + 40);
    }
  }

  /** The string table a symbol table links to reads, at every old offset, as before:
      also when it is the section-name table itself. */
  lemma LinkedStringsStable(e: bytes, hot: set<bytes>, k: nat)
    requires WellFormed(e) && PlanNames(e, hot).Ok? && FitsObject(e, PlanNames(e, hot).value)
    requires k < Shnum(e) && Shdrs(e)[k].kind == SHT_SYMTAB
    requires SectionBytes(e, Shdrs(e)[Shdrs(e)[k].link]).Ok?
    ensures var n := PlanNames(e, hot).value;
      var e' := Rebuild(e, n);
      && TableFits(e') && Shnum(e') == Shnum(e)
      && Shdrs(e')[k].link == Shdrs(e)[k].link && Shdrs(e')[k].kind == SHT_SYMTAB
      && SectionBytes(e', Shdrs(e')[Shdrs(e)[k].link]).Ok?
      && var before := SectionBytes(e, Shdrs(e)[Shdrs(e)[k].link]).value;
      && var after := SectionBytes(e', Shdrs(e')[Shdrs(e)[k].link]).value;
      && (before == after || (Terminated(before) && before <= after))
  {
    hide PlanNames, Rebuild, SectionBytes, Shdrs;
    var n := PlanNames(e, hot).value;
    NewShdrs(e, n);
    KeepsElfHeader(e, n);
    if Shdrs(e)[k].link == Shstrndx(e) {
      TableGrows(e, hot);
      NewTableBytes(e, n);
    } else {
      KeepsSection(e, n, Shdrs(e)[k].link);
    }
  }

  /** Every symbol keeps its record and its name string. */
  lemma PreservesSymbols(e: bytes, hot: set<bytes>, k: nat, i: nat)
    requires WellFormed(e) && Mark(e, hot).Ok? && Mark(e, hot).value.Some?
    requires k < Shnum(e) && Shdrs(e)[k].kind == SHT_SYMTAB
    requires SectionBytes(e, Shdrs(e)[k]).Ok? && SectionBytes(e, Shdrs(e)[Shdrs(e)[k].link]).Ok?
    requires i + 24 <= |SectionBytes(e, Shdrs(e)[k]).value|
    ensures var e' := Mark(e, hot).value.value.body;
      var sym := ReadSym(SectionBytes(e, Shdrs(e)[k]).value, i);
      var strtab := SectionBytes(e, Shdrs(e)[Shdrs(e)[k].link]).value;
      && TableFits(e') && Shnum(e') == Shnum(e)
      && SectionBytes(e', Shdrs(e')[k]) == SectionBytes(e, Shdrs(e)[k])
      && Shdrs(e')[k].link == Shdrs(e)[k].link
      && SectionBytes(e', Shdrs(e')[Shdrs(e')[k].link]).Ok?
      && (Cstr(strtab, sym.name).Ok? ==>
            Cstr(SectionBytes(e', Shdrs(e')[Shdrs(e')[k].link]).value, sym.name) == Cstr(strtab, sym.name))
  {
    hide PlanNames, Rebuild, SectionBytes, Shdrs, Mark, ReadSym, Cstr;
    MarkedIsRebuilt(e, hot);
    var n := PlanNames(e, hot).value;
    var e' := Rebuild(e, n);
    KeepsSection(e, n, k);
    LinkedStringsStable(e, hot, k);
    var sym := ReadSym(SectionBytes(e, Shdrs(e)[k]).value, i);
    var strtab := SectionBytes(e, Shdrs(e)[Shdrs(e)[k].link]).value;
    var strtab' := SectionBytes(e', Shdrs(e')[Shdrs(e)[k].link]).value;
    if strtab != strtab' && Cstr(strtab, sym.name).Ok? {
      CstrExtends(strtab, strtab', sym.name);
    }
  }

  // ---------------------------------------------------------------------
  // Marking again

  lemma {:induction false} ScanSymbolsStable(symtab: bytes, i: nat, strtab: bytes, longer: bytes, hot: set<bytes>, found: HotSyms)
    requires strtab == longer || (Terminated(strtab) && strtab <= longer)
    requires ScanSymbols(symtab, i, strtab, hot, found).Ok?
    ensures ScanSymbols(symtab, i, longer, hot, found) == ScanSymbols(symtab, i, strtab, hot, found)
    decreases |symtab| - i
  {
    hide ReadSym, Cstr;
    if i + 24 <= |symtab| && strtab != longer {
      var s := ReadSym(symtab, i);
      if !Defines(s, |found|) || found[s.shndx].Some? {
        ScanSymbolsStable(symtab, i + 24, strtab, longer, hot, found);
      } else {
        CstrExtends(strtab, longer, s.name);
        var name := Cstr(strtab, s.name).value;
        ScanSymbolsStable(symtab, i + 24, strtab, longer, hot, if name in hot then found[s.shndx := Some(name)] else found);
      }
    }
  }

  lemma {:induction false} ScanSectionsStable(e: bytes, hot: set<bytes>, k: nat, found: HotSyms)
    requires WellFormed(e) && PlanNames(e, hot).Ok? && FitsObject(e, PlanNames(e, hot).value)
    requires k <= Shnum(e) && ScanSections(e, Shdrs(e), k, hot, found).Ok?
    ensures var e' := Rebuild(e, PlanNames(e, hot).value);
      && TableFits(e') && Shnum(e') == Shnum(e)
      && ScanSections(e', Shdrs(e'), k, hot, found) == ScanSections(e, Shdrs(e), k, hot, found)
    decreases Shnum(e) - k
  {
    hide PlanNames, Rebuild, SectionBytes, Shdrs, ScanSymbols;
    var n := PlanNames(e, hot).value;
    var e' := Rebuild(e, n);
    NewShdrs(e, n);
    KeepsElfHeader(e, n);
    var shdrs, shdrs' := Shdrs(e), Shdrs(e');
    if k < Shnum(e) {
      assert shdrs'[k].kind == shdrs[k].kind && shdrs'[k].link == shdrs[k].link;
      if shdrs[k].kind != SHT_SYMTAB {
        ScanSectionsStable(e, hot, k + 1, found);
      } else {
        LinkedStringsStable(e, hot, k);
        KeepsSection(e, n, k);
        var strtab := SectionBytes(e, shdrs[shdrs[k].link]).value;
        var longer := SectionBytes(e', shdrs'[shdrs[k].link]).value;
        var symtab := SectionBytes(e, shdrs[k]).value;
        ScanSymbolsStable(symtab, 0, strtab, longer, hot, found);
        ScanSectionsStable(e, hot, k + 1, ScanSymbols(symtab, 0, strtab, hot, found).value);
      }
    }
  }

  lemma {:induction false} AssignNothing(shdrs: seq<Shdr>, found: HotSyms, shstrtab: bytes, k: nat, table: bytes)
    requires |found| == |shdrs| && k <= |shdrs|
    requires forall i :: k <= i < |shdrs| ==> HotName(shdrs[i], found[i], shstrtab) == Ok(None)
    ensures Assign(shdrs, found, shstrtab, k, table).Ok? && Assign(shdrs, found, shstrtab, k, table).value.count == 0
    decreases |shdrs| - k
  {
    hide HotName;
    if k < |shdrs| {
      AssignNothing(shdrs, found, shstrtab, k + 1, table);
    }
  }

  /** A section that got a name, or that never qualified, does not qualify any more. */
  lemma NoLongerHot(e: bytes, hot: set<bytes>, found: HotSyms, i: nat)
    requires WellFormed(e) && PlanNames(e, hot).Ok? && FitsObject(e, PlanNames(e, hot).value)
    requires ScanSections(e, Shdrs(e), 0, hot, NoSyms(Shnum(e))) == Ok(found)
    requires i < Shnum(e)
    ensures var n := PlanNames(e, hot).value; HotName(NewShdr(e, n, i), found[i], n.table) == Ok(None)
  {
    hide PlanNames, SectionBytes, ScanSections, Shdrs, Cstr, StartsWith, GENERIC_NAMES;
    var n := PlanNames(e, hot).value;
    var sh := Shdrs(e)[i];
    PlanOf(e, hot, found, i);
    NulFreeAt(found, i);
    TableGrows(e, hot);
    var shstrtab := SectionBytes(e, Shdrs(e)[Shstrndx(e)]).value;
    if n.names[i].Some? {
      HotNameShape(sh, found[i], shstrtab);
    } else if sh.kind == SHT_PROGBITS && found[i].Some? && !StartsWith(found[i].value, BUILTINS) {
      CstrExtends(shstrtab, n.table, sh.name);
    }
  }

  lemma PlanOf(e: bytes, hot: set<bytes>, found: HotSyms, i: nat)
    requires TableFits(e) && PlanNames(e, hot).Ok? && i < Shnum(e)
    requires ScanSections(e, Shdrs(e), 0, hot, NoSyms(Shnum(e))) == Ok(found)
    ensures |found| == Shnum(e) && NulFree(found)
    ensures var n := PlanNames(e, hot).value;
      var strings := SectionBytes(e, Shdrs(e)[Shstrndx(e)]);
      && strings.Ok?
      && var name := HotName(Shdrs(e)[i], found[i], strings.value);
      && name.Ok? && (n.names[i].Some? <==> name.value.Some?)
      && (name.value.Some? ==> Cstr(n.table, n.names[i].value) == Ok(name.value.value))
  {
    hide Assign, ScanSections, SectionBytes, Shdrs, HotName, Cstr;
    var shstrtab := SectionBytes(e, Shdrs(e)[Shstrndx(e)]).value;
    AssignExact(Shdrs(e), found, shstrtab, 0, shstrtab, i);
  }

  /** Marking a marked object renames nothing. */
  lemma MarkIsIdempotent(e: bytes, hot: set<bytes>)
    requires WellFormed(e) && Mark(e, hot).Ok? && Mark(e, hot).value.Some?
    ensures Mark(Mark(e, hot).value.value.body, hot) == Ok(None)
  {
    hide Rebuild, SectionBytes, Shdrs, ScanSections, Assign, HotName, NewShdr, Cstr, NulFree;
    MarkedIsRebuilt(e, hot);
    var n := PlanNames(e, hot).value;
    var e' := Rebuild(e, n);
    var found := ScanSections(e, Shdrs(e), 0, hot, NoSyms(Shnum(e))).value;
    NewTableBytes(e, n);
    NewShdrs(e, n);
    ScanSectionsStable(e, hot, 0, NoSyms(Shnum(e)));
    forall i | 0 <= i < Shnum(e)
      ensures HotName(Shdrs(e')[i], found[i], n.table) == Ok(None)
    {
      NoLongerHot(e, hot, found, i);
    }
    AssignNothing(Shdrs(e'), found, n.table, 0, n.table);
    assert PlanNames(e', hot) == Assign(Shdrs(e'), found, n.table, 0, n.table);
  }
}
