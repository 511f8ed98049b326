/** Which sections are renamed, and to what, said without the scanning loops. */
module ElfNaming {
  import opened Bytes
  import opened Elf
  import opened Results

  // ---------------------------------------------------------------------
  // The first hot symbol of a section, in table order

  /** A symbol together with the string table its name lives in. */
  datatype Entry = Entry(sym: Sym, strtab: bytes)

  /** `x` is an object or function of section `idx` with a hot name. */
  ghost predicate Candidate(x: Entry, idx: nat, shnum: nat, hot: set<bytes>) {
    && Defines(x.sym, shnum) && x.sym.shndx == idx
    && Cstr(x.strtab, x.sym.name).Ok? && Cstr(x.strtab, x.sym.name).value in hot
  }

  ghost function EntriesOf(symtab: bytes, i: nat, strtab: bytes): seq<Entry>
    decreases |symtab| - i
  {
    if i + 24 > |symtab| then [] else [Entry(ReadSym(symtab, i), strtab)] + EntriesOf(symtab, i + 24, strtab)
  }

  /** The symbols of every symbol table from section `k` on. */
  ghost function EntriesFrom(e: bytes, shdrs: seq<Shdr>, k: nat): seq<Entry>
    requires k <= |shdrs|
    decreases |shdrs| - k
  {
    if k == |shdrs| then []
    else
      var rest := EntriesFrom(e, shdrs, k + 1);
      if shdrs[k].kind != SHT_SYMTAB || shdrs[k].link >= |shdrs| then rest
      else
        var strtab := SectionBytes(e, shdrs[shdrs[k].link]);
        var symtab := SectionBytes(e, shdrs[k]);
        if strtab.Err? || symtab.Err? then rest else EntriesOf(symtab.value, 0, strtab.value) + rest
  }

  /** The name of the first candidate. */
  ghost function First(entries: seq<Entry>, idx: nat, shnum: nat, hot: set<bytes>): (r: Option<bytes>) {
    if entries == [] then None
    else if Candidate(entries[0], idx, shnum, hot) then Some(Cstr(entries[0].strtab, entries[0].sym.name).value)
    else First(entries[1..], idx, shnum, hot)
  }

  /** Entry `p` is a candidate with no candidate before it. */
  ghost predicate FirstAt(entries: seq<Entry>, p: nat, idx: nat, shnum: nat, hot: set<bytes>) {
    && p < |entries| && Candidate(entries[p], idx, shnum, hot)
    && forall q :: 0 <= q < p ==> !Candidate(entries[q], idx, shnum, hot)
  }

  /** `First` is the name of the candidate with no candidate before it, and there is none
      only when no entry is a candidate. */
  lemma {:induction false} FirstIsFirst(entries: seq<Entry>, idx: nat, shnum: nat, hot: set<bytes>) returns (p: Option<nat>)
    ensures p.None? ==> First(entries, idx, shnum, hot) == None && forall q :: 0 <= q < |entries| ==> !Candidate(entries[q], idx, shnum, hot)
    ensures p.Some? ==> FirstAt(entries, p.value, idx, shnum, hot) && Cstr(entries[p.value].strtab, entries[p.value].sym.name).Ok?
    ensures p.Some? ==> First(entries, idx, shnum, hot) == Some(Cstr(entries[p.value].strtab, entries[p.value].sym.name).value)
  {
    hide Candidate, Cstr;
    if entries == [] {
      p := None;
    } else if Candidate(entries[0], idx, shnum, hot) {
      p := Some(0);
      CandidateReads(entries[0], idx, shnum, hot);
    } else {
      var tail := entries[1..];
      assert forall q :: 0 < q < |entries| ==> entries[q] == tail[q - 1];
      p := FirstIsFirst(tail, idx, shnum, hot);
      if p.Some? {
        p := Some(p.value + 1);
      }
    }
  }

  lemma CandidateReads(x: Entry, idx: nat, shnum: nat, hot: set<bytes>)
    requires Candidate(x, idx, shnum, hot)
    ensures Cstr(x.strtab, x.sym.name).Ok?
  {}

  ghost function OrElse(a: Option<bytes>, b: Option<bytes>): Option<bytes> {
    if a.Some? then a else b
  }

  lemma {:induction false} FirstOfConcat(a: seq<Entry>, b: seq<Entry>, idx: nat, shnum: nat, hot: set<bytes>)
    ensures First(a + b, idx, shnum, hot) == OrElse(First(a, idx, shnum, hot), First(b, idx, shnum, hot))
  {
    if a == [] {
      assert a + b == b;
    } else {
      assert (a + b)[1..] == a[1..] + b;
      FirstOfConcat(a[1..], b, idx, shnum, hot);
    }
  }

  lemma {:induction false} ScanSymbolsFindsFirst(symtab: bytes, i: nat, strtab: bytes, hot: set<bytes>, found: HotSyms, idx: nat)
    requires idx < |found|
    requires ScanSymbols(symtab, i, strtab, hot, found).Ok?
    ensures ScanSymbols(symtab, i, strtab, hot, found).value[idx]
         == OrElse(found[idx], First(EntriesOf(symtab, i, strtab), idx, |found|, hot))
    decreases |symtab| - i
  {
    hide ReadSym, UntilNul;
    if i + 24 <= |symtab| {
      var s := ReadSym(symtab, i);
      var entries := EntriesOf(symtab, i, strtab);
      assert entries[1..] == EntriesOf(symtab, i + 24, strtab);
      if !Defines(s, |found|) || found[s.shndx].Some? {
        ScanSymbolsFindsFirst(symtab, i + 24, strtab, hot, found, idx);
      } else {
        var name := Cstr(strtab, s.name).value;
        ScanSymbolsFindsFirst(symtab, i + 24, strtab, hot, if name in hot then found[s.shndx := Some(name)] else found, idx);
      }
    }
  }

  /** The scan of all symbol tables leaves with each section its first hot symbol. */
  lemma {:induction false} ScanSectionsFindsFirst(e: bytes, shdrs: seq<Shdr>, k: nat, hot: set<bytes>, found: HotSyms, idx: nat)
    requires k <= |shdrs| && idx < |found| == |shdrs|
    requires ScanSections(e, shdrs, k, hot, found).Ok?
    ensures ScanSections(e, shdrs, k, hot, found).value[idx]
         == OrElse(found[idx], First(EntriesFrom(e, shdrs, k), idx, |shdrs|, hot))
    decreases |shdrs| - k
  {
    hide ScanSymbols, EntriesOf, SectionBytes, Candidate;
    if k < |shdrs| {
      if shdrs[k].kind != SHT_SYMTAB {
        ScanSectionsFindsFirst(e, shdrs, k + 1, hot, found, idx);
      } else {
        var strtab := SectionBytes(e, shdrs[shdrs[k].link]).value;
        var symtab := SectionBytes(e, shdrs[k]).value;
        var more := ScanSymbols(symtab, 0, strtab, hot, found).value;
        ScanSymbolsFindsFirst(symtab, 0, strtab, hot, found, idx);
        ScanSectionsFindsFirst(e, shdrs, k + 1, hot, more, idx);
        FirstOfConcat(EntriesOf(symtab, 0, strtab), EntriesFrom(e, shdrs, k + 1), idx, |shdrs|, hot);
      }
    }
  }

  // ---------------------------------------------------------------------
  // The new names

  /** A new name holds no NUL and is not generic any more. */
  lemma HotNameShape(sh: Shdr, sym: Option<bytes>, shstrtab: bytes)
    requires HotName(sh, sym, shstrtab).Ok? && HotName(sh, sym, shstrtab).value.Some?
    requires sym.Some? ==> 0 !in sym.value
    ensures var name := HotName(sh, sym, shstrtab).value.value;
      0 !in name && name !in GENERIC_NAMES && name != [] && name[0] == '.' as int
  {
    hide UntilNul, Cstr;
    var was := Cstr(shstrtab, sh.name).value;
    var name := HotPrefix(was) + sym.value;
    assert 0 !in HotPrefix(was);
    NotGeneric(HotPrefix(was), sym.value);
  }

  lemma NotGeneric(prefix: bytes, sym: bytes)
    requires prefix == TEXT_HOT || prefix == RODATA_HOT
    ensures prefix + sym !in GENERIC_NAMES
  {
    var name := prefix + sym;
    if prefix == TEXT_HOT {
      assert name[6] == 'h' as int && |name| >= 10;
      assert Ascii(".text.unlikely.")[6] == 'u' as int;
      assert Ascii(".text.startup.")[6] == 's' as int;
      assert Ascii(".text.exit.")[6] == 'e' as int;
    } else {
      assert name[1] == 'r' as int && |name| >= 12;
      assert Ascii(".text")[1] == 't' as int;
      assert Ascii(".text.unlikely.")[1] == 't' as int;
      assert Ascii(".text.startup.")[1] == 't' as int;
      assert Ascii(".text.exit.")[1] == 't' as int;
    }
  }

  /** How many of the sections have a new name. */
  ghost function Named(names: seq<Option<nat>>): set<nat> {
    set i | 0 <= i < |names| && names[i].Some?
  }

  lemma NamedCons(head: Option<nat>, tail: seq<Option<nat>>)
    ensures |Named([head] + tail)| == |Named(tail)| + if head.Some? then 1 else 0
  {
    var names := [head] + tail;
    var shifted := set i | i in Named(tail) :: i + 1;
    ShiftSize(Named(tail), shifted);
    assert forall i :: i in Named(names) && i > 0 ==> (i - 1) in Named(tail) && i == (i - 1) + 1;
    assert forall i :: i in Named(tail) ==> names[i + 1] == tail[i];
    assert Named(names) == shifted + if head.Some? then {0} else {};
  }

  lemma {:induction false} ShiftSize(s: set<nat>, t: set<nat>)
    requires t == set i | i in s :: i + 1
    ensures |t| == |s|
  {
    if s != {} {
      var x :| x in s;
      var t' := set i | i in s - {x} :: i + 1;
      ShiftSize(s - {x}, t');
      assert t == t' + {x + 1} by {
        assert forall i :: i in s ==> i == x || i in s - {x};
      }
      assert x + 1 !in t';
    }
  }

  /** A terminated name inside a table reads back from its offset. */
  lemma ReadsBack(table: bytes, name: bytes, longer: bytes)
    requires 0 !in name && table + name + [0] <= longer
    ensures Cstr(longer, |table|) == Ok(name)
  {
    hide UntilNul;
    var next := table + name + [0];
    var rest := longer[|next|..];
    assert longer == next + rest;
    assert longer[|table|..] == name + [0] + rest;
    UntilNulOfTerminated(name, rest);
  }

  /** Naming is exact: the sections with a hot name, and no others, get an offset, at
      which the grown table spells that name; the count is the number of them. */
  lemma {:induction false} AssignExact(shdrs: seq<Shdr>, found: HotSyms, shstrtab: bytes, k: nat, table: bytes, i: nat)
    requires |found| == |shdrs| && k <= i < |shdrs| && NulFree(found)
    requires Assign(shdrs, found, shstrtab, k, table).Ok?
    ensures var n := Assign(shdrs, found, shstrtab, k, table).value;
      var name := HotName(shdrs[i], found[i], shstrtab);
      && name.Ok?
      && (n.names[i - k].Some? <==> name.value.Some?)
      && (name.value.Some? ==> n.names[i - k].value >= |table| && Cstr(n.table, n.names[i - k].value) == Ok(name.value.value))
    decreases |shdrs| - k
  {
    hide HotName, NulFree, Cstr;
    var name := HotName(shdrs[k], found[k], shstrtab).value;
    var next := if name.Some? then table + name.value + [0] else table;
    var rest := Assign(shdrs, found, shstrtab, k + 1, next).value;
    AssignStep(shdrs, found, shstrtab, k, table);
    if k < i {
      AssignExact(shdrs, found, shstrtab, k + 1, next, i);
    } else if name.Some? {
      NulFreeAt(found, k);
      HotNameShape(shdrs[k], found[k], shstrtab);
      ReadsBack(table, name.value, rest.table);
    }
  }

  lemma AssignStep(shdrs: seq<Shdr>, found: HotSyms, shstrtab: bytes, k: nat, table: bytes)
    requires |found| == |shdrs| && k < |shdrs|
    requires Assign(shdrs, found, shstrtab, k, table).Ok?
    ensures HotName(shdrs[k], found[k], shstrtab).Ok?
    ensures var n := Assign(shdrs, found, shstrtab, k, table).value;
      var name := HotName(shdrs[k], found[k], shstrtab).value;
      var rest := Assign(shdrs, found, shstrtab, k + 1, if name.Some? then table + name.value + [0] else table);
      && rest.Ok? && n.table == rest.value.table
      && n.names == [if name.Some? then Some(|table|) else None] + rest.value.names
  {
    hide HotName;
  }

  lemma NulFreeAt(found: HotSyms, i: nat)
    requires NulFree(found) && i < |found|
    ensures found[i].Some? ==> 0 !in found[i].value
  {}

  lemma {:induction false} AssignCounts(shdrs: seq<Shdr>, found: HotSyms, shstrtab: bytes, k: nat, table: bytes)
    requires |found| == |shdrs| && k <= |shdrs|
    requires Assign(shdrs, found, shstrtab, k, table).Ok?
    ensures var n := Assign(shdrs, found, shstrtab, k, table).value; n.count == |Named(n.names)|
    decreases |shdrs| - k
  {
    hide HotName, Named;
    if k < |shdrs| {
      var name := HotName(shdrs[k], found[k], shstrtab).value;
      var next := if name.Some? then table + name.value + [0] else table;
      AssignCounts(shdrs, found, shstrtab, k + 1, next);
      var rest := Assign(shdrs, found, shstrtab, k + 1, next).value;
      NamedCons(if name.Some? then Some(|table|) else None, rest.names);
    } else {
      NamedNone();
    }
  }

  lemma NamedNone()
    ensures Named([]) == {}
  {}
}
