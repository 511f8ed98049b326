/** The loops of `markMember`, proved to compute `Elf.Mark`. */
module MarkMember {
  import opened Bytes
  import opened ByteLists
  import opened Elf
  import opened Results

  method ScanSymtab(symtab: bytes, strtab: bytes, hot: set<bytes>, hotSym: array<Option<bytes>>)
    returns (ok: Result<(), Error>)
    modifies hotSym
    ensures ScanSymbols(symtab, 0, strtab, hot, old(hotSym[..]))
         == match ok case Ok(_) => Ok(hotSym[..]) case Err(e) => Err(e)
  {
    var i := 0;
    while i + 24 <= |symtab|
      invariant ScanSymbols(symtab, 0, strtab, hot, old(hotSym[..])) == ScanSymbols(symtab, i, strtab, hot, hotSym[..])
    {
      var s := ReadSym(symtab, i);
      if Defines(s, hotSym.Length) && hotSym[s.shndx].None? {
        var name := Cstr(strtab, s.name);
        if name.Err? {
          return Err(name.error);
        }
        if name.value in hot {
          ghost var before := hotSym[..];
          hotSym[s.shndx] := Some(name.value);
          assert hotSym[..] == before[s.shndx := Some(name.value)];
        }
      }
      i := i + 24;
    }
    return Ok(());
  }

  method FindHotSymbols(e: bytes, shdrs: seq<Shdr>, hot: set<bytes>, hotSym: array<Option<bytes>>)
    returns (ok: Result<(), Error>)
    requires hotSym.Length == |shdrs|
    modifies hotSym
    ensures ScanSections(e, shdrs, 0, hot, old(hotSym[..]))
         == match ok case Ok(_) => Ok(hotSym[..]) case Err(e) => Err(e)
  {
    for k := 0 to |shdrs|
      invariant ScanSections(e, shdrs, 0, hot, old(hotSym[..])) == ScanSections(e, shdrs, k, hot, hotSym[..])
    {
      var sh := shdrs[k];
      if sh.kind == SHT_SYMTAB {
        if sh.link >= |shdrs| {
          return Err(BadElf);
        }
        var strtab := SectionBytes(e, shdrs[sh.link]);
        if strtab.Err? {
          return Err(strtab.error);
        }
        var symtab := SectionBytes(e, sh);
        if symtab.Err? {
          return Err(symtab.error);
        }
        ok := ScanSymtab(symtab.value, strtab.value, hot, hotSym);
        if ok.Err? {
          return;
        }
      }
    }
    return Ok(());
  }

  /** The names chosen so far, in front of those still to be chosen. */
  ghost function After(names: seq<Option<nat>>, count: nat, rest: Result<Naming, Error>): Result<Naming, Error> {
    match rest
    case Ok(n) => Ok(Naming(names + n.names, n.table, count + n.count))
    case Err(e) => Err(e)
  }

  lemma AfterStep(names: seq<Option<nat>>, count: nat, shdrs: seq<Shdr>, found: HotSyms, shstrtab: bytes, k: nat, table: bytes)
    requires |found| == |shdrs| && k < |shdrs|
    ensures var name := HotName(shdrs[k], found[k], shstrtab);
      After(names, count, Assign(shdrs, found, shstrtab, k, table)) ==
        if name.Err? then Err(name.error)
        else if name.value.None? then After(names + [None], count, Assign(shdrs, found, shstrtab, k + 1, table))
        else if |table| >= U32_LIMIT then Err(Overflow)
        else After(names + [Some(|table|)], count + 1,
                   Assign(shdrs, found, shstrtab, k + 1, table + name.value.value + [0]))
  {
    hide HotName;
    var name := HotName(shdrs[k], found[k], shstrtab);
    if name.Ok? && (name.value.None? || |table| < U32_LIMIT) {
      var entry := if name.value.None? then None else Some(|table|);
      var next := if name.value.None? then table else table + name.value.value + [0];
      var rest := Assign(shdrs, found, shstrtab, k + 1, next);
      if rest.Ok? {
        assert names + ([entry] + rest.value.names) == (names + [entry]) + rest.value.names;
      }
    }
  }

  method NameSections(shdrs: seq<Shdr>, hotSym: array<Option<bytes>>, shstrtab: bytes, newName: array<Option<nat>>)
    returns (r: Result<(bytes, nat), Error>)
    requires hotSym.Length == newName.Length == |shdrs|
    requires hotSym != newName as object
    requires forall i :: 0 <= i < newName.Length ==> newName[i] == None
    modifies newName
    ensures Assign(shdrs, hotSym[..], shstrtab, 0, shstrtab)
         == match r case Ok(v) => Ok(Naming(newName[..], v.0, v.1)) case Err(e) => Err(e)
  {
    hide HotName;
    var table := shstrtab;
    var count := 0;
    ghost var found := hotSym[..];
    ghost var plan := Assign(shdrs, found, shstrtab, 0, shstrtab);
    assert plan.Ok? ==> newName[..0] + plan.value.names == plan.value.names;
    for k := 0 to |shdrs|
      invariant hotSym[..] == found
      invariant forall i :: k <= i < newName.Length ==> newName[i] == None
      invariant plan == After(newName[..k], count, Assign(shdrs, found, shstrtab, k, table))
    {
      ghost var before := newName[..k];
      AfterStep(before, count, shdrs, found, shstrtab, k, table);
      assert hotSym[k] == found[k];
      var name := HotName(shdrs[k], hotSym[k], shstrtab);
      if name.Err? {
        return Err(name.error);
      }
      if name.value.Some? {
        if |table| >= U32_LIMIT {
          return Err(Overflow);
        }
        newName[k] := Some(|table|);
        table := table + name.value.value + [0];
        count := count + 1;
      }
      assert newName[..k + 1] == before + [newName[k]];
    }
    assert newName[..] == newName[..|shdrs|] + [];
    return Ok((table, count));
  }

  lemma PatchStep(buf: bytes, shoff: nat, names: seq<Option<nat>>, k: nat)
    requires k < |names| && shoff + |names| * 64 <= |buf|
    requires forall i :: 0 <= i < |names| && names[i].Some? ==> names[i].value < U32_LIMIT
    ensures Pow256(4) == U32_LIMIT
    ensures PatchNames(buf, shoff, names, k) ==
      PatchNames(if names[k].Some? then Patch(buf, shoff + k * 64, WriteLE(names[k].value, 4)) else buf, shoff, names, k + 1)
  {
    Limits();
  }

  lemma PatchDone(buf: bytes, shoff: nat, names: seq<Option<nat>>)
    requires shoff + |names| * 64 <= |buf|
    requires forall i :: 0 <= i < |names| && names[i].Some? ==> names[i].value < U32_LIMIT
    ensures PatchNames(buf, shoff, names, |names|) == buf
  {}

  /** Copies the object, pads it, appends the name table and patches the headers. */
  method BuildObject(e: bytes, newName: array<Option<nat>>, table: bytes, ghost n: Naming) returns (body: bytes)
    requires FitsObject(e, n) && n.names == newName[..] && n.table == table
    ensures body == Rebuild(e, n)
  {
    hide Patch, WriteLE, ReadLE, PatchNames, Padding;
    var buf := new ByteList();
    buf.EnsureTotalCapacity(|e| + 8 + |table|);
    buf.AppendSliceAssumeCapacity(e);
    assert buf.items == e;
    buf.AppendZerosToMultipleOf8();
    var strtabOffset := |buf.items|;
    buf.AppendSliceAssumeCapacity(table);

    Limits();
    var shstrHdr := Shoff(e) + Shstrndx(e) * 64;
    buf.WriteIntLittle(shstrHdr + 24, strtabOffset, 8);
    buf.WriteIntLittle(shstrHdr + 32, |table|, 8);
    assert buf.items == Moved(e, n);
    for k := 0 to newName.Length
      invariant buf.Valid() && |buf.items| == |Moved(e, n)|
      invariant newName[..] == n.names
      invariant Rebuild(e, n) == PatchNames(buf.items, Shoff(e), n.names, k)
    {
      assert newName[k] == n.names[k];
      PatchStep(buf.items, Shoff(e), n.names, k);
      if newName[k].Some? {
        buf.WriteIntLittle(Shoff(e) + k * 64, newName[k].value, 4);
      }
    }
    PatchDone(buf.items, Shoff(e), n.names);
    return buf.items;
  }

  method MarkMember(e: bytes, hot: set<bytes>) returns (r: Result<Option<Marked>, Error>)
    ensures r == Mark(e, hot)
  {
    if !Handled(e) {
      return Ok(None);
    }
    if Shoff(e) + Shnum(e) * 64 >= USIZE_LIMIT {
      return Err(Overflow);
    }
    if Shoff(e) + Shnum(e) * 64 > |e| {
      return Err(BadElf);
    }
    if |e| >= USIZE_LIMIT {
      return Err(OutOfMemory);
    }
    var shdrs := Shdrs(e);
    var shstrtab := SectionBytes(e, shdrs[Shstrndx(e)]);
    if shstrtab.Err? {
      return Err(shstrtab.error);
    }

    var hotSym := new Option<bytes>[|shdrs|](_ => None);
    assert hotSym[..] == NoSyms(|shdrs|);
    var scanned := FindHotSymbols(e, shdrs, hot, hotSym);
    if scanned.Err? {
      return Err(scanned.error);
    }

    var newName := new Option<nat>[|shdrs|](_ => None);
    var named := NameSections(shdrs, hotSym, shstrtab.value, newName);
    if named.Err? {
      return Err(named.error);
    }
    var (table, count) := named.value;
    if count == 0 {
      return Ok(None);
    }
    ghost var n := Naming(newName[..], table, count);
    assert PlanNames(e, hot) == Ok(n);

    if |e| + 8 + |table| >= USIZE_LIMIT {
      return Err(OutOfMemory);
    }
    var body := BuildObject(e, newName, table, n);
    return Ok(Some(Marked(body, count)));
  }
}
