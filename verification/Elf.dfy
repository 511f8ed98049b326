/** The ELF64 side of the archive rewriter: sections defined by a hot symbol get a
    name of their own in a section-name table that moves to the end of the object. */
module Elf {
  import opened Bytes
  import opened Results

  /** `Overflow` is a safety-checked addition or narrowing cast that traps. */
  datatype Error =
    | NotAnArchive | BadSize | TruncatedArchive | BadSymbolIndex | NoSpaceLeft
    | BadElf | BadStringOffset | OutOfMemory | Overflow

  const SHT_PROGBITS: nat := 1
  const SHT_SYMTAB: nat := 2
  const SHT_STRTAB: nat := 3
  const STT_OBJECT: nat := 1
  const STT_FUNC: nat := 2

  // ---------------------------------------------------------------------
  // Reading

  function U16(e: bytes, at: nat): nat
    requires at + 2 <= |e|
  {
    ReadLE(e[at..at + 2])
  }

  function U32(e: bytes, at: nat): nat
    requires at + 4 <= |e|
  {
    ReadLE(e[at..at + 4])
  }

  function U64(e: bytes, at: nat): nat
    requires at + 8 <= |e|
  {
    ReadLE(e[at..at + 8])
  }

  datatype Shdr = Shdr(name: nat, kind: nat, offset: nat, size: nat, link: nat)

  function ReadShdr(e: bytes, at: nat): Shdr
    requires at + 64 <= |e|
  {
    Shdr(U32(e, at), U32(e, at + 4), U64(e, at + 24), U64(e, at + 32), U32(e, at + 40))
  }

  function Shoff(e: bytes): nat requires |e| >= 64 { U64(e, 0x28) }
  function Shnum(e: bytes): nat requires |e| >= 64 { U16(e, 0x3C) }
  function Shstrndx(e: bytes): nat requires |e| >= 64 { U16(e, 0x3E) }

  /** ELF64 little-endian with a section header table and a section-name table. */
  predicate Handled(e: bytes) {
    && |e| >= 64 && e[4] == 2 && e[5] == 1
    && U16(e, 0x3A) == 64 && Shnum(e) != 0 && Shstrndx(e) < Shnum(e)
  }

  predicate TableFits(e: bytes) {
    Handled(e) && Shoff(e) + Shnum(e) * 64 <= |e| < USIZE_LIMIT
  }

  function Shdrs(e: bytes): (shdrs: seq<Shdr>)
    requires TableFits(e)
    ensures |shdrs| == Shnum(e)
  {
    seq(Shnum(e), i requires 0 <= i < Shnum(e) => ReadShdr(e, Shoff(e) + i * 64))
  }

  function SectionBytes(e: bytes, sh: Shdr): Result<bytes, Error> {
    if sh.offset + sh.size >= USIZE_LIMIT then Err(Overflow)
    else if sh.offset + sh.size > |e| then Err(BadElf)
    else Ok(e[sh.offset..sh.offset + sh.size])
  }

  function Cstr(table: bytes, offset: nat): Result<bytes, Error> {
    if offset >= |table| then Err(BadStringOffset) else Ok(UntilNul(table[offset..]))
  }

  // ---------------------------------------------------------------------
  // The hot symbol that defines each section

  datatype Sym = Sym(name: nat, kind: nat, shndx: nat)

  function ReadSym(symtab: bytes, i: nat): Sym
    requires i + 24 <= |symtab|
  {
    Sym(U32(symtab, i), symtab[i + 4] % 16, U16(symtab, i + 6))
  }

  /** A symbol that can name a section: an object or a function defined in one of them. */
  predicate Defines(s: Sym, shnum: nat) {
    0 < s.shndx < shnum && (s.kind == STT_OBJECT || s.kind == STT_FUNC)
  }

  type HotSyms = seq<Option<bytes>>

  ghost predicate NulFree(found: HotSyms) {
    forall i :: 0 <= i < |found| && found[i].Some? ==> 0 !in found[i].value
  }

  function ScanSymbols(symtab: bytes, i: nat, strtab: bytes, hot: set<bytes>, found: HotSyms): (r: Result<HotSyms, Error>)
    ensures r.Ok? ==> |r.value| == |found|
    ensures r.Ok? && NulFree(found) ==> NulFree(r.value)
    decreases |symtab| - i
  {
    if i + 24 > |symtab| then Ok(found)
    else
      var s := ReadSym(symtab, i);
      if !Defines(s, |found|) || found[s.shndx].Some? then
        ScanSymbols(symtab, i + 24, strtab, hot, found)
      else
        var name :- Cstr(strtab, s.name);
        ScanSymbols(symtab, i + 24, strtab, hot, if name in hot then found[s.shndx := Some(name)] else found)
  }

  function ScanSections(e: bytes, shdrs: seq<Shdr>, k: nat, hot: set<bytes>, found: HotSyms): (r: Result<HotSyms, Error>)
    requires k <= |shdrs|
    ensures r.Ok? ==> |r.value| == |found|
    ensures r.Ok? && NulFree(found) ==> NulFree(r.value)
    decreases |shdrs| - k
  {
    if k == |shdrs| then Ok(found)
    else if shdrs[k].kind != SHT_SYMTAB then ScanSections(e, shdrs, k + 1, hot, found)
    else if shdrs[k].link >= |shdrs| then Err(BadElf)
    else
      var strtab :- SectionBytes(e, shdrs[shdrs[k].link]);
      var symtab :- SectionBytes(e, shdrs[k]);
      var more :- ScanSymbols(symtab, 0, strtab, hot, found);
      ScanSections(e, shdrs, k + 1, hot, more)
  }

  function NoSyms(n: nat): (found: HotSyms)
    ensures |found| == n && NulFree(found)
  {
    seq(n, _ => None)
  }

  // ---------------------------------------------------------------------
  // New names

  const TEXT := Ascii(".text")
  const GENERIC_NAMES: seq<bytes> :=
    [Ascii(".text"), Ascii(".text.unlikely."), Ascii(".text.startup."), Ascii(".text.exit."), Ascii(".rodata")]
  const BUILTINS := Ascii("Builtins_")
  const TEXT_HOT := Ascii(".text.hot.")
  const RODATA_HOT := Ascii(".rodata.hot.")

  function HotPrefix(name: bytes): bytes {
    if StartsWith(name, TEXT) then TEXT_HOT else RODATA_HOT
  }

  /** The name a section gets, if it gets one. */
  function HotName(sh: Shdr, sym: Option<bytes>, shstrtab: bytes): Result<Option<bytes>, Error> {
    if sh.kind != SHT_PROGBITS || sym.None? || StartsWith(sym.value, BUILTINS) then Ok(None)
    else
      var name :- Cstr(shstrtab, sh.name);
      if name in GENERIC_NAMES then Ok(Some(HotPrefix(name) + sym.value)) else Ok(None)
  }

  /** Per section the offset of its new name, the grown name table and the number of new names. */
  datatype Naming = Naming(names: seq<Option<nat>>, table: bytes, count: nat)

  /** Names the sections from `k` on, appending to `table`. */
  function Assign(shdrs: seq<Shdr>, found: HotSyms, shstrtab: bytes, k: nat, table: bytes): (r: Result<Naming, Error>)
    requires |found| == |shdrs| && k <= |shdrs|
    ensures r.Ok? ==> |r.value.names| == |shdrs| - k && table <= r.value.table
    ensures r.Ok? ==> forall i :: 0 <= i < |r.value.names| && r.value.names[i].Some? ==> r.value.names[i].value < U32_LIMIT
    decreases |shdrs| - k
  {
    if k == |shdrs| then Ok(Naming([], table, 0))
    else
      var name :- HotName(shdrs[k], found[k], shstrtab);
      match name
      case None =>
        var rest :- Assign(shdrs, found, shstrtab, k + 1, table);
        Ok(Naming([None] + rest.names, rest.table, rest.count))
      case Some(n) =>
        if |table| >= U32_LIMIT then Err(Overflow)
        else
          var rest :- Assign(shdrs, found, shstrtab, k + 1, table + n + [0]);
          Ok(Naming([Some(|table|)] + rest.names, rest.table, rest.count + 1))
  }

  // ---------------------------------------------------------------------
  // The rewritten object

  /** Points the headers of sections `k`.. at their new names. */
  function PatchNames(buf: bytes, shoff: nat, names: seq<Option<nat>>, k: nat): (r: bytes)
    requires k <= |names| && shoff + |names| * 64 <= |buf|
    requires forall i :: 0 <= i < |names| && names[i].Some? ==> names[i].value < U32_LIMIT
    ensures |r| == |buf|
    decreases |names| - k
  {
    Limits();
    if k == |names| then buf
    else
      var next := if names[k].Some? then Patch(buf, shoff + k * 64, WriteLE(names[k].value, 4)) else buf;
      PatchNames(next, shoff, names, k + 1)
  }

  predicate FitsObject(e: bytes, n: Naming) {
    && TableFits(e)
    && |n.names| == Shnum(e)
    && (forall i :: 0 <= i < |n.names| && n.names[i].Some? ==> n.names[i].value < U32_LIMIT)
    && |e| + 8 + |n.table| < USIZE_LIMIT
  }

  /** The old object, padding, the new name table; the name table's header moved. */
  function Moved(e: bytes, n: Naming): (r: bytes)
    requires FitsObject(e, n)
    ensures |r| == |e| + |Padding(|e|)| + |n.table|
  {
    Limits();
    var base := e + Padding(|e|);
    var hdr := Shoff(e) + Shstrndx(e) * 64;
    Patch(Patch(base + n.table, hdr + 24, WriteLE(|base|, 8)), hdr + 32, WriteLE(|n.table|, 8))
  }

  function Rebuild(e: bytes, n: Naming): (r: bytes)
    requires FitsObject(e, n)
    ensures |r| == |e| + |Padding(|e|)| + |n.table|
  {
    PatchNames(Moved(e, n), Shoff(e), n.names, 0)
  }

  function PlanNames(e: bytes, hot: set<bytes>): (r: Result<Naming, Error>)
    requires TableFits(e)
    ensures r.Ok? ==> |r.value.names| == Shnum(e)
    ensures r.Ok? ==> forall i :: 0 <= i < |r.value.names| && r.value.names[i].Some? ==> r.value.names[i].value < U32_LIMIT
  {
    var shdrs := Shdrs(e);
    var shstrtab :- SectionBytes(e, shdrs[Shstrndx(e)]);
    var found :- ScanSections(e, shdrs, 0, hot, NoSyms(|shdrs|));
    Assign(shdrs, found, shstrtab, 0, shstrtab)
  }

  datatype Marked = Marked(body: bytes, count: nat)

  /** What `MarkMember` computes: nothing when no section is hot. */
  function Mark(e: bytes, hot: set<bytes>): Result<Option<Marked>, Error> {
    if !Handled(e) then Ok(None)
    else if Shoff(e) + Shnum(e) * 64 >= USIZE_LIMIT then Err(Overflow)
    else if Shoff(e) + Shnum(e) * 64 > |e| then Err(BadElf)
    else if |e| >= USIZE_LIMIT then Err(OutOfMemory)
    else
      var n :- PlanNames(e, hot);
      if n.count == 0 then Ok(None)
      else if |e| + 8 + |n.table| >= USIZE_LIMIT then Err(OutOfMemory)
      else Ok(Some(Marked(Rebuild(e, n), n.count)))
  }
}
