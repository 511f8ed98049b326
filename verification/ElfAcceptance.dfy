/** Which objects `Mark` can read, said about their bytes. */
module ElfAcceptance {
  import opened Bytes
  import opened Elf
  import opened ElfNaming
  import opened ElfTheorems
  import opened Results

  ghost predicate InBounds(e: bytes, sh: Shdr) { sh.offset + sh.size <= |e| }

  lemma BoundsKnown(e: bytes, sh: Shdr)
    requires |e| < USIZE_LIMIT
    ensures SectionBytes(e, sh).Ok? <==> InBounds(e, sh)
    ensures SectionBytes(e, sh).Ok? ==> |SectionBytes(e, sh).value| == sh.size
  {}

  // ---------------------------------------------------------------------
  // Reading the symbols

  /** A symbol table lies in the file and is linked to a section that does. */
  ghost predicate SymtabOk(e: bytes, shdrs: seq<Shdr>, k: nat)
    requires k < |shdrs|
  {
    shdrs[k].kind == SHT_SYMTAB ==> shdrs[k].link < |shdrs| && InBounds(e, shdrs[shdrs[k].link]) && InBounds(e, shdrs[k])
  }

  /** The scan reads the name of entry `p`: it defines a section for which nothing was
      found before, neither in `found` nor among the earlier entries. */
  ghost predicate NameRead(entries: seq<Entry>, p: nat, found: HotSyms, hot: set<bytes>)
    requires p < |entries|
  {
    var sym := entries[p].sym;
    && Defines(sym, |found|) && found[sym.shndx].None?
    && forall q :: 0 <= q < p ==> !Candidate(entries[q], sym.shndx, |found|, hot)
  }

  /** The names that are read start inside their string tables. */
  ghost predicate NamesInside(entries: seq<Entry>, found: HotSyms, hot: set<bytes>) {
    forall p :: 0 <= p < |entries| && NameRead(entries, p, found, hot) ==> entries[p].sym.name < |entries[p].strtab|
  }

  /** `later` is `found` completed with the first candidates among `entries`. */
  ghost predicate Completed(found: HotSyms, entries: seq<Entry>, hot: set<bytes>, later: HotSyms) {
    |later| == |found| && forall i :: 0 <= i < |found| ==> later[i] == OrElse(found[i], First(entries, i, |found|, hot))
  }

  lemma FirstNone(entries: seq<Entry>, idx: nat, shnum: nat, hot: set<bytes>)
    ensures First(entries, idx, shnum, hot).None? <==> forall q :: 0 <= q < |entries| ==> !Candidate(entries[q], idx, shnum, hot)
  {
    hide First, Candidate, Cstr;
    var p := FirstIsFirst(entries, idx, shnum, hot);
  }

  /** What is read of the second part is what is read of it alone, once the first has been scanned. */
  lemma ReadsOn(x: seq<Entry>, y: seq<Entry>, p: nat, found: HotSyms, later: HotSyms, hot: set<bytes>)
    requires Completed(found, x, hot, later) && p < |y|
    ensures NameRead(x + y, |x| + p, found, hot) <==> NameRead(y, p, later, hot)
  {
    hide Candidate, First;
    var sym := y[p].sym;
    assert (x + y)[|x| + p] == y[p];
    if Defines(sym, |found|) {
      FirstNone(x, sym.shndx, |found|, hot);
      assert forall q :: 0 <= q < |x| ==> (x + y)[q] == x[q];
      assert forall q :: 0 <= q < p ==> (x + y)[|x| + q] == y[q];
      assert later[sym.shndx] == OrElse(found[sym.shndx], First(x, sym.shndx, |found|, hot));
    }
  }

  lemma InsideConcat(x: seq<Entry>, y: seq<Entry>, found: HotSyms, later: HotSyms, hot: set<bytes>)
    requires Completed(found, x, hot, later)
    ensures NamesInside(x + y, found, hot) <==> NamesInside(x, found, hot) && NamesInside(y, later, hot)
  {
    hide NameRead, Completed;
    forall p | 0 <= p < |x|
      ensures (x + y)[p] == x[p] && (NameRead(x + y, p, found, hot) <==> NameRead(x, p, found, hot))
    {
      ReadsFirst(x, y, p, found, hot);
    }
    forall p | 0 <= p < |y|
      ensures (x + y)[|x| + p] == y[p] && (NameRead(x + y, |x| + p, found, hot) <==> NameRead(y, p, later, hot))
    {
      ReadsOn(x, y, p, found, later, hot);
    }
    if NamesInside(x, found, hot) && NamesInside(y, later, hot) {
      forall p | 0 <= p < |x + y| && NameRead(x + y, p, found, hot)
        ensures (x + y)[p].sym.name < |(x + y)[p].strtab|
      {
        if p >= |x| {
          assert (x + y)[|x| + (p - |x|)] == y[p - |x|];
          assert NameRead(y, p - |x|, later, hot);
        }
      }
    }
    if NamesInside(x + y, found, hot) {
      forall p | 0 <= p < |y| && NameRead(y, p, later, hot)
        ensures y[p].sym.name < |y[p].strtab|
      {
        assert NameRead(x + y, |x| + p, found, hot);
      }
      forall p | 0 <= p < |x| && NameRead(x, p, found, hot)
        ensures x[p].sym.name < |x[p].strtab|
      {
        assert NameRead(x + y, p, found, hot);
      }
    }
  }

  lemma ReadsFirst(x: seq<Entry>, y: seq<Entry>, p: nat, found: HotSyms, hot: set<bytes>)
    requires p < |x|
    ensures (x + y)[p] == x[p] && (NameRead(x + y, p, found, hot) <==> NameRead(x, p, found, hot))
  {
    hide Candidate;
    assert forall q :: 0 <= q <= p ==> (x + y)[q] == x[q];
  }

  lemma {:induction false} ScanSymbolsOk(symtab: bytes, i: nat, strtab: bytes, hot: set<bytes>, found: HotSyms)
    ensures ScanSymbols(symtab, i, strtab, hot, found).Ok? <==> NamesInside(EntriesOf(symtab, i, strtab), found, hot)
    decreases |symtab| - i
  {
    hide ReadSym, UntilNul, NamesInside;
    if i + 24 > |symtab| {
      NoneInside(found, hot);
    } else {
      var x := Entry(ReadSym(symtab, i), strtab);
      var rest := EntriesOf(symtab, i + 24, strtab);
      OneInside(x, found, hot);
      var later := if NameRead([x], 0, found, hot) && Candidate(x, x.sym.shndx, |found|, hot)
        then found[x.sym.shndx := Some(Cstr(strtab, x.sym.name).value)] else found;
      OneCompleted(x, found, hot);
      InsideConcat([x], rest, found, later, hot);
      ScanSymbolsOk(symtab, i + 24, strtab, hot, later);
    }
  }

  lemma NoneInside(found: HotSyms, hot: set<bytes>)
    ensures NamesInside([], found, hot)
  {}

  lemma OneInside(x: Entry, found: HotSyms, hot: set<bytes>)
    ensures NameRead([x], 0, found, hot) <==> Defines(x.sym, |found|) && found[x.sym.shndx].None?
    ensures NamesInside([x], found, hot) <==> (NameRead([x], 0, found, hot) ==> x.sym.name < |x.strtab|)
  {
    hide Defines;
    assert [x][0] == x;
  }

  lemma OneCompleted(x: Entry, found: HotSyms, hot: set<bytes>)
    ensures Completed(found, [x], hot,
      if NameRead([x], 0, found, hot) && Candidate(x, x.sym.shndx, |found|, hot)
      then found[x.sym.shndx := Some(Cstr(x.strtab, x.sym.name).value)] else found)
  {
    hide Cstr;
    forall i | 0 <= i < |found|
      ensures First([x], i, |found|, hot) == if Candidate(x, i, |found|, hot) then Some(Cstr(x.strtab, x.sym.name).value) else None
    {
      assert [x][1..] == [];
      assert First([], i, |found|, hot) == None;
    }
  }

  lemma {:induction false} ScanSectionsOk(e: bytes, shdrs: seq<Shdr>, k: nat, hot: set<bytes>, found: HotSyms)
    requires |e| < USIZE_LIMIT && k <= |shdrs| == |found|
    ensures ScanSections(e, shdrs, k, hot, found).Ok? <==>
      && (forall i :: k <= i < |shdrs| ==> SymtabOk(e, shdrs, i))
      && NamesInside(EntriesFrom(e, shdrs, k), found, hot)
    decreases |shdrs| - k
  {
    hide SectionBytes, EntriesOf, ScanSymbols, NamesInside, Completed;
    if k == |shdrs| {
      NoneInside(found, hot);
    } else if shdrs[k].kind != SHT_SYMTAB {
      ScanSectionsOk(e, shdrs, k + 1, hot, found);
    } else if SymtabOk(e, shdrs, k) {
      BoundsKnown(e, shdrs[shdrs[k].link]);
      BoundsKnown(e, shdrs[k]);
      var strtab := SectionBytes(e, shdrs[shdrs[k].link]).value;
      var symtab := SectionBytes(e, shdrs[k]).value;
      var mine, rest := EntriesOf(symtab, 0, strtab), EntriesFrom(e, shdrs, k + 1);
      var later := Completion(found, mine, hot);
      ScanSymbolsOk(symtab, 0, strtab, hot, found);
      InsideConcat(mine, rest, found, later, hot);
      if ScanSymbols(symtab, 0, strtab, hot, found).Ok? {
        ScanCompletes(symtab, strtab, hot, found);
        ScanSectionsOk(e, shdrs, k + 1, hot, later);
      }
    } else if shdrs[k].link < |shdrs| {
      BoundsKnown(e, shdrs[shdrs[k].link]);
      BoundsKnown(e, shdrs[k]);
    }
  }

  ghost function Completion(found: HotSyms, entries: seq<Entry>, hot: set<bytes>): (later: HotSyms)
    ensures Completed(found, entries, hot, later)
  {
    seq(|found|, i requires 0 <= i < |found| => OrElse(found[i], First(entries, i, |found|, hot)))
  }

  lemma ScanCompletes(symtab: bytes, strtab: bytes, hot: set<bytes>, found: HotSyms)
    requires ScanSymbols(symtab, 0, strtab, hot, found).Ok?
    ensures ScanSymbols(symtab, 0, strtab, hot, found).value == Completion(found, EntriesOf(symtab, 0, strtab), hot)
  {
    hide ScanSymbols, EntriesOf, First;
    var r := ScanSymbols(symtab, 0, strtab, hot, found).value;
    forall i | 0 <= i < |found|
      ensures r[i] == OrElse(found[i], First(EntriesOf(symtab, 0, strtab), i, |found|, hot))
    {
      ScanSymbolsFindsFirst(symtab, 0, strtab, hot, found, i);
    }
  }

  // ---------------------------------------------------------------------
  // Choosing the names

  /** What section `i` adds to the name table. */
  ghost function NameSize(shdrs: seq<Shdr>, found: HotSyms, shstrtab: bytes, i: nat): nat
    requires i < |shdrs| == |found|
  {
    var name := HotName(shdrs[i], found[i], shstrtab);
    if name.Ok? && name.value.Some? then |name.value.value| + 1 else 0
  }

  /** The size of the name table before each section is named. */
  ghost predicate Sizes(shdrs: seq<Shdr>, found: HotSyms, shstrtab: bytes, sizes: seq<nat>) {
    && |sizes| == |shdrs| + 1 && |found| == |shdrs|
    && forall i :: 0 <= i < |shdrs| ==> sizes[i + 1] == sizes[i] + NameSize(shdrs, found, shstrtab, i)
  }

  lemma {:induction false} AssignOk(shdrs: seq<Shdr>, found: HotSyms, shstrtab: bytes, k: nat, table: bytes, sizes: seq<nat>)
    requires Sizes(shdrs, found, shstrtab, sizes) && k <= |shdrs| && |table| == sizes[k]
    ensures Assign(shdrs, found, shstrtab, k, table).Ok? <==> forall i :: k <= i < |shdrs| ==>
      HotName(shdrs[i], found[i], shstrtab).Ok? && (NameSize(shdrs, found, shstrtab, i) > 0 ==> sizes[i] < U32_LIMIT)
    ensures Assign(shdrs, found, shstrtab, k, table).Ok? ==> |Assign(shdrs, found, shstrtab, k, table).value.table| == sizes[|shdrs|]
    decreases |shdrs| - k
  {
    hide *;
    SizesStep(shdrs, found, shstrtab, sizes, k);
    AssignUnfolds(shdrs, found, shstrtab, k, table);
    if k < |shdrs| {
      var name := HotName(shdrs[k], found[k], shstrtab);
      if name.Ok? && (name.value.None? || |table| < U32_LIMIT) {
        AssignOk(shdrs, found, shstrtab, k + 1, if name.value.Some? then table + name.value.value + [0] else table, sizes);
      }
    }
  }

  lemma SizesStep(shdrs: seq<Shdr>, found: HotSyms, shstrtab: bytes, sizes: seq<nat>, k: nat)
    requires Sizes(shdrs, found, shstrtab, sizes) && k <= |shdrs|
    ensures |found| == |shdrs| && |sizes| == |shdrs| + 1
    ensures k < |shdrs| ==>
      var name := HotName(shdrs[k], found[k], shstrtab);
      && (NameSize(shdrs, found, shstrtab, k) > 0 <==> name.Ok? && name.value.Some?)
      && sizes[k + 1] == sizes[k] + if name.Ok? && name.value.Some? then |name.value.value| + 1 else 0
  {
    hide HotName;
  }

  /** One turn of the naming loop. */
  lemma AssignUnfolds(shdrs: seq<Shdr>, found: HotSyms, shstrtab: bytes, k: nat, table: bytes)
    requires |found| == |shdrs| && k <= |shdrs|
    ensures var all := Assign(shdrs, found, shstrtab, k, table);
      if k == |shdrs| then all.Ok? && all.value.table == table
      else
        var name := HotName(shdrs[k], found[k], shstrtab);
        if name.Err? || (name.value.Some? && |table| >= U32_LIMIT) then all.Err?
        else
          var rest := Assign(shdrs, found, shstrtab, k + 1, if name.value.Some? then table + name.value.value + [0] else table);
          (all.Ok? <==> rest.Ok?) && (all.Ok? ==> all.value.table == rest.value.table)
  {
    hide HotName;
  }

  // ---------------------------------------------------------------------
  // The whole object

  ghost function NameTable(e: bytes): Shdr
    requires TableFits(e)
  {
    Shdrs(e)[Shstrndx(e)]
  }

  /** Tables lie in the file, and every name the tool looks at starts inside its table. */
  ghost predicate Readable(e: bytes, hot: set<bytes>)
    requires TableFits(e)
  {
    && InBounds(e, NameTable(e))
    && (forall k :: 0 <= k < Shnum(e) ==> SymtabOk(e, Shdrs(e), k))
    && NamesInside(EntriesFrom(e, Shdrs(e), 0), NoSyms(Shnum(e)), hot)
    && (forall k :: 0 <= k < Shnum(e) && NameLooked(e, hot, k) ==> Shdrs(e)[k].name < NameTable(e).size)
  }

  /** Only the names of program sections with a hot symbol outside the builtins are looked at. */
  ghost predicate NameLooked(e: bytes, hot: set<bytes>, k: nat)
    requires TableFits(e) && k < Shnum(e)
  {
    Shdrs(e)[k].kind == SHT_PROGBITS && HotSymbolOf(e, hot, k).Some? && !StartsWith(HotSymbolOf(e, hot, k).value, BUILTINS)
  }

  /** The size of the name table once the first `k` sections have been named. */
  ghost function Room(e: bytes, hot: set<bytes>, k: nat): nat
    requires TableFits(e) && k <= Shnum(e)
  {
    if k == 0 then NameTable(e).size
    else Room(e, hot, k - 1) + if ShouldRename(e, hot, k - 1) then |HotNameOf(e, hot, k - 1)| + 1 else 0
  }

  /** New names start below 2^32, and the object with its new table is addressable. */
  ghost predicate NamesFit(e: bytes, hot: set<bytes>)
    requires TableFits(e)
  {
    && (forall k :: 0 <= k < Shnum(e) && ShouldRename(e, hot, k) ==> Room(e, hot, k) < U32_LIMIT)
    && (ToRename(e, hot) != {} ==> |e| + 8 + Room(e, hot, Shnum(e)) < USIZE_LIMIT)
  }

  lemma PlanOk(e: bytes, hot: set<bytes>)
    requires TableFits(e)
    ensures PlanNames(e, hot).Ok? <==>
      Readable(e, hot) && forall k :: 0 <= k < Shnum(e) && ShouldRename(e, hot, k) ==> Room(e, hot, k) < U32_LIMIT
    ensures PlanNames(e, hot).Ok? ==> |PlanNames(e, hot).value.table| == Room(e, hot, Shnum(e))
  {
    hide ScanSections, Assign, Shdrs, SectionBytes, NamesInside, EntriesFrom, SymtabOk, ShouldRename, Room, HotNameOf, NameLooked, HotName;
    var shdrs := Shdrs(e);
    BoundsKnown(e, NameTable(e));
    ScanSectionsOk(e, shdrs, 0, hot, NoSyms(Shnum(e)));
    if InBounds(e, NameTable(e)) && ScanSections(e, shdrs, 0, hot, NoSyms(Shnum(e))).Ok? {
      var found := ScanSections(e, shdrs, 0, hot, NoSyms(Shnum(e))).value;
      var shstrtab := SectionBytes(e, NameTable(e)).value;
      var sizes := seq(Shnum(e) + 1, k requires 0 <= k <= Shnum(e) => Room(e, hot, k));
      RoomStarts(e, hot);
      forall k | 0 <= k < Shnum(e)
        ensures HotName(shdrs[k], found[k], shstrtab).Ok? <==> (NameLooked(e, hot, k) ==> shdrs[k].name < NameTable(e).size)
        ensures NameSize(shdrs, found, shstrtab, k) > 0 <==> ShouldRename(e, hot, k)
        ensures sizes[k + 1] == sizes[k] + NameSize(shdrs, found, shstrtab, k)
      {
        NameOf(e, hot, found, shstrtab, k);
      }
      hide NameSize;
      AssignOk(shdrs, found, shstrtab, 0, shstrtab, sizes);
    }
  }

  lemma RoomStarts(e: bytes, hot: set<bytes>)
    requires TableFits(e)
    ensures Room(e, hot, 0) == NameTable(e).size
  {}

  lemma NameOf(e: bytes, hot: set<bytes>, found: HotSyms, shstrtab: bytes, k: nat)
    requires TableFits(e) && k < Shnum(e) && ScanSections(e, Shdrs(e), 0, hot, NoSyms(Shnum(e))) == Ok(found)
    requires SectionBytes(e, NameTable(e)) == Ok(shstrtab)
    ensures |found| == Shnum(e)
    ensures HotName(Shdrs(e)[k], found[k], shstrtab).Ok? <==> (NameLooked(e, hot, k) ==> Shdrs(e)[k].name < NameTable(e).size)
    ensures NameSize(Shdrs(e), found, shstrtab, k) > 0 <==> ShouldRename(e, hot, k)
    ensures Room(e, hot, k + 1) == Room(e, hot, k) + NameSize(Shdrs(e), found, shstrtab, k)
  {
    hide ScanSections, Shdrs, First, EntriesFrom, UntilNul, GENERIC_NAMES, StartsWith, HotPrefix;
    ScanSectionsFindsFirst(e, Shdrs(e), 0, hot, NoSyms(Shnum(e)), k);
    assert found[k] == HotSymbolOf(e, hot, k);
  }

  /** `Mark` succeeds exactly on what it passes through unread and on objects whose tables,
      names and new names fit. */
  lemma MarkSucceeds(e: bytes, hot: set<bytes>)
    ensures Mark(e, hot).Ok? <==> !Handled(e) || (TableFits(e) && Readable(e, hot) && NamesFit(e, hot))
  {
    hide PlanNames, Handled, Readable, Room, ShouldRename, Rebuild, Shoff, Shnum, ToRename;
    if TableFits(e) {
      PlanOk(e, hot);
      if PlanNames(e, hot).Ok? {
        PlanCounts(e, hot);
      }
    }
  }
}
