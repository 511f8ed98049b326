/** What the patches of `Elf.Rebuild` leave in place and what they change. */
module ElfLayout {
  import opened Bytes
  import opened Elf
  import opened Results

  /** The object before its headers are patched. */
  ghost function Unpatched(e: bytes, n: Naming): (b: bytes) {
    e + Padding(|e|) + n.table
  }

  lemma PatchNamesElsewhere(buf: bytes, shoff: nat, names: seq<Option<nat>>, k: nat, lo: nat, hi: nat)
    requires k <= |names| && shoff + |names| * 64 <= |buf| && lo <= hi <= |buf|
    requires forall i :: 0 <= i < |names| && names[i].Some? ==> names[i].value < U32_LIMIT
    requires forall i :: k <= i < |names| && names[i].Some? ==> hi <= shoff + i * 64 || shoff + i * 64 + 4 <= lo
    ensures PatchNames(buf, shoff, names, k)[lo..hi] == buf[lo..hi]
    decreases |names| - k
  {
    Limits();
    if k < |names| {
      if names[k].Some? {
        var name := WriteLE(names[k].value, 4);
        PatchElsewhere(buf, shoff + k * 64, name, lo, hi);
        PatchNamesElsewhere(Patch(buf, shoff + k * 64, name), shoff, names, k + 1, lo, hi);
      } else {
        PatchNamesElsewhere(buf, shoff, names, k + 1, lo, hi);
      }
    }
  }

  lemma {:induction false} PatchNamesHere(buf: bytes, shoff: nat, names: seq<Option<nat>>, k: nat, i: nat)
    requires k <= i < |names| && shoff + |names| * 64 <= |buf|
    requires forall i :: 0 <= i < |names| && names[i].Some? ==> names[i].value < U32_LIMIT
    requires names[i].Some?
    ensures U32(PatchNames(buf, shoff, names, k), shoff + i * 64) == names[i].value
    decreases |names| - k
  {
    hide Patch, WriteLE, ReadLE;
    Limits();
    if k < i {
      var next := if names[k].Some? then Patch(buf, shoff + k * 64, WriteLE(names[k].value, 4)) else buf;
      PatchNamesHere(next, shoff, names, k + 1, i);
    } else {
      var at := shoff + i * 64;
      var name := WriteLE(names[i].value, 4);
      var next := Patch(buf, at, name);
      PatchHere(buf, at, name);
      assert next[at..at + 4] == name;
      assert U32(next, at) == names[i].value;
      PatchNamesElsewhere(next, shoff, names, k + 1, at, at + 4);
    }
  }

  lemma MovedElsewhere(e: bytes, n: Naming, lo: nat, hi: nat)
    requires FitsObject(e, n) && lo <= hi <= |Unpatched(e, n)|
    requires var hdr := Shoff(e) + Shstrndx(e) * 64; hi <= hdr + 24 || hdr + 40 <= lo
    ensures Moved(e, n)[lo..hi] == Unpatched(e, n)[lo..hi]
  {
    hide Patch, WriteLE;
    Limits();
    var base := e + Padding(|e|);
    var hdr := Shoff(e) + Shstrndx(e) * 64;
    var first := Patch(base + n.table, hdr + 24, WriteLE(|base|, 8));
    PatchElsewhere(base + n.table, hdr + 24, WriteLE(|base|, 8), lo, hi);
    PatchElsewhere(first, hdr + 32, WriteLE(|n.table|, 8), lo, hi);
  }

  lemma MovedHere(e: bytes, n: Naming)
    requires FitsObject(e, n)
    ensures var hdr := Shoff(e) + Shstrndx(e) * 64;
      U64(Moved(e, n), hdr + 24) == |e| + |Padding(|e|)| && U64(Moved(e, n), hdr + 32) == |n.table|
  {
    hide Patch;
    Limits();
    var base := e + Padding(|e|);
    var hdr := Shoff(e) + Shstrndx(e) * 64;
    var first := Patch(base + n.table, hdr + 24, WriteLE(|base|, 8));
    PatchHere(base + n.table, hdr + 24, WriteLE(|base|, 8));
    PatchElsewhere(first, hdr + 32, WriteLE(|n.table|, 8), hdr + 24, hdr + 32);
    PatchHere(first, hdr + 32, WriteLE(|n.table|, 8));
  }

  /** Outside the section header table nothing changes but the appended tail. */
  lemma RebuildOutside(e: bytes, n: Naming, lo: nat, hi: nat)
    requires FitsObject(e, n) && lo <= hi <= |Unpatched(e, n)|
    requires hi <= Shoff(e) || Shoff(e) + Shnum(e) * 64 <= lo
    ensures Rebuild(e, n)[lo..hi] == Unpatched(e, n)[lo..hi]
  {
    hide Moved, PatchNames;
    MovedElsewhere(e, n, lo, hi);
    PatchNamesElsewhere(Moved(e, n), Shoff(e), n.names, 0, lo, hi);
  }

  /** Inside header `i`, bytes 4 to 63 keep what `Moved` left there. */
  lemma RebuildHeader(e: bytes, n: Naming, i: nat, lo: nat, hi: nat)
    requires FitsObject(e, n) && i < Shnum(e) && lo <= hi
    requires Shoff(e) + i * 64 + 4 <= lo && hi <= Shoff(e) + i * 64 + 64
    ensures Rebuild(e, n)[lo..hi] == Moved(e, n)[lo..hi]
  {
    hide Moved, PatchNames;
    PatchNamesElsewhere(Moved(e, n), Shoff(e), n.names, 0, lo, hi);
  }

  /** The header of section `i` after the rewrite. */
  ghost function NewShdr(e: bytes, n: Naming, i: nat): Shdr
    requires FitsObject(e, n) && i < Shnum(e)
  {
    var was := Shdrs(e)[i];
    var named := if n.names[i].Some? then was.(name := n.names[i].value) else was;
    if i == Shstrndx(e) then named.(offset := |e| + |Padding(|e|)|, size := |n.table|) else named
  }

  lemma NewName(e: bytes, n: Naming, i: nat)
    requires FitsObject(e, n) && i < Shnum(e)
    ensures U32(Rebuild(e, n), Shoff(e) + i * 64) == NewShdr(e, n, i).name
  {
    hide Moved, PatchNames;
    var at := Shoff(e) + i * 64;
    if n.names[i].Some? {
      PatchNamesHere(Moved(e, n), Shoff(e), n.names, 0, i);
    } else {
      PatchNamesElsewhere(Moved(e, n), Shoff(e), n.names, 0, at, at + 4);
      MovedElsewhere(e, n, at, at + 4);
      assert Unpatched(e, n)[at..at + 4] == e[at..at + 4];
    }
  }

  lemma NewHeaderField(e: bytes, n: Naming, i: nat, lo: nat, hi: nat)
    requires FitsObject(e, n) && i < Shnum(e) && lo <= hi
    requires Shoff(e) + i * 64 + 4 <= lo && hi <= Shoff(e) + i * 64 + 64
    requires i != Shstrndx(e) || hi <= Shoff(e) + i * 64 + 24 || Shoff(e) + i * 64 + 40 <= lo
    ensures Rebuild(e, n)[lo..hi] == e[lo..hi]
  {
    hide Moved, PatchNames, Rebuild;
    RebuildHeader(e, n, i, lo, hi);
    MovedElsewhere(e, n, lo, hi);
    assert Unpatched(e, n)[lo..hi] == e[lo..hi];
  }

  lemma ReadsNewShdr(e: bytes, n: Naming, i: nat)
    requires FitsObject(e, n) && i < Shnum(e)
    ensures ReadShdr(Rebuild(e, n), Shoff(e) + i * 64) == NewShdr(e, n, i)
  {
    hide Moved, PatchNames, Rebuild, ReadLE, Padding;
    var at := Shoff(e) + i * 64;
    NewName(e, n, i);
    NewHeaderField(e, n, i, at + 4, at + 8);
    NewHeaderField(e, n, i, at + 40, at + 44);
    if i == Shstrndx(e) {
      MovedHere(e, n);
      RebuildHeader(e, n, i, at + 24, at + 32);
      RebuildHeader(e, n, i, at + 32, at + 40);
    } else {
      NewHeaderField(e, n, i, at + 24, at + 32);
      NewHeaderField(e, n, i, at + 32, at + 40);
    }
  }

  lemma SliceOfSlice(a: bytes, b: bytes, n: nat, lo: nat, hi: nat)
    requires lo <= hi <= n <= |a| && n <= |b| && a[..n] == b[..n]
    ensures a[lo..hi] == b[lo..hi]
  {
    assert a[..n][lo..hi] == a[lo..hi];
    assert b[..n][lo..hi] == b[lo..hi];
  }

  /** The file header is read as before, so the rewritten object has the same table. */
  lemma KeepsElfHeader(e: bytes, n: Naming)
    requires FitsObject(e, n) && Shoff(e) >= 64
    ensures var e' := Rebuild(e, n);
      TableFits(e') && Shoff(e') == Shoff(e) && Shnum(e') == Shnum(e) && Shstrndx(e') == Shstrndx(e)
  {
    hide Moved, PatchNames, Rebuild, ReadLE;
    var e' := Rebuild(e, n);
    RebuildOutside(e, n, 0, 64);
    var head := e[..64];
    assert e'[..64] == head;
    SliceOfSlice(e, e', 64, 0x28, 0x30);
    SliceOfSlice(e, e', 64, 0x3A, 0x3C);
    SliceOfSlice(e, e', 64, 0x3C, 0x3E);
    SliceOfSlice(e, e', 64, 0x3E, 0x40);
    assert e'[4] == e'[..64][4] == e[4] && e'[5] == e'[..64][5] == e[5];
  }

  lemma NewShdrs(e: bytes, n: Naming)
    requires FitsObject(e, n) && Shoff(e) >= 64
    ensures TableFits(Rebuild(e, n)) && |Shdrs(Rebuild(e, n))| == Shnum(e)
    ensures forall i :: 0 <= i < Shnum(e) ==> Shdrs(Rebuild(e, n))[i] == NewShdr(e, n, i)
  {
    hide Moved, PatchNames, Rebuild, ReadLE, ReadShdr, NewShdr;
    KeepsElfHeader(e, n);
    forall i | 0 <= i < Shnum(e)
      ensures Shdrs(Rebuild(e, n))[i] == NewShdr(e, n, i)
    {
      ReadsNewShdr(e, n, i);
    }
  }
}
