/** GNU ar archives: members, the symbol index and the rewrite that moves them. */
module Archive {
  import opened Bytes
  import opened Decimals
  import opened Elf
  import opened Results

  const MAGIC := Ascii("!<arch>\n")
  const ELF_MAGIC: bytes := [0x7f, 0x45, 0x4c, 0x46]
  const INDEX32 := Ascii("/")
  const INDEX64 := Ascii("/SYM64/")

  type header = h: bytes | |h| == 60 witness seq(60, _ => 0)

  /** `offset` is where the member's header stands in the archive it was read from. */
  datatype Member = Member(head: header, body: bytes, offset: nat)

  function Name(head: header): bytes { TrimEnd(head[..16]) }

  function SizeField(head: header): bytes { head[48..58] }

  /** Header, body and padding to an even length. */
  function Extent(size: nat): (n: nat)
    ensures 60 + size <= n && n % 2 == 0
  {
    60 + size + size % 2
  }

  // ---------------------------------------------------------------------
  // Parsing

  function ParseFrom(a: bytes, pos: nat): Result<seq<Member>, Error>
    decreases |a| + 1 - pos
  {
    if pos + 60 > |a| then Ok([])
    else
      var head: header := a[pos..pos + 60];
      var size := ParseUsize(TrimEnd(SizeField(head)));
      if size.None? then Err(BadSize)
      else if pos + 60 + size.value > |a| then Err(TruncatedArchive)
      else
        var rest :- ParseFrom(a, pos + Extent(size.value));
        Ok([Member(head, a[pos + 60..pos + 60 + size.value], pos)] + rest)
  }

  // ---------------------------------------------------------------------
  // Marking the objects

  datatype Pass = Pass(members: seq<Member>, renamed: nat)

  function MarkOne(m: Member, hot: set<bytes>): Result<(Member, nat), Error> {
    if !StartsWith(m.body, ELF_MAGIC) then Ok((m, 0))
    else
      var r :- Mark(m.body, hot);
      match r
      case None => Ok((m, 0))
      case Some(marked) => Ok((m.(body := marked.body), marked.count))
  }

  function MarkFrom(ms: seq<Member>, k: nat, hot: set<bytes>): (r: Result<Pass, Error>)
    requires k <= |ms|
    ensures r.Ok? ==> |r.value.members| == |ms| - k
    decreases |ms| - k
  {
    if k == |ms| then Ok(Pass([], 0))
    else
      var first :- MarkOne(ms[k], hot);
      var rest :- MarkFrom(ms, k + 1, hot);
      Ok(Pass([first.0] + rest.members, first.1 + rest.renamed))
  }

  // ---------------------------------------------------------------------
  // New positions

  /** Where member `k` (or, for `k == |ms|`, the end) lands in the output. */
  function NewOffset(ms: seq<Member>, k: nat): (pos: nat)
    requires k <= |ms|
    ensures pos >= 8 + 60 * k
  {
    if k == 0 then 8 else NewOffset(ms, k - 1) + Extent(|ms[k - 1].body|)
  }

  /** Old header positions to new ones, for the first `k` members. */
  function OffsetMap(ms: seq<Member>, k: nat): map<nat, nat>
    requires k <= |ms|
  {
    if k == 0 then map[] else OffsetMap(ms, k - 1)[ms[k - 1].offset := NewOffset(ms, k - 1)]
  }

  // ---------------------------------------------------------------------
  // The symbol index: a big-endian count, then one header position per symbol

  predicate HoldsEntries(index: bytes, width: nat, count: nat) {
    width + count * width <= |index|
  }

  function EntryAt(index: bytes, width: nat, i: nat): bytes
    requires width + i * width + width <= |index|
  {
    index[width + i * width..width + i * width + width]
  }

  lemma EntryFits(index: bytes, width: nat, count: nat, i: nat)
    requires HoldsEntries(index, width, count) && i < count
    ensures width + i * width + width <= width + count * width <= |index|
  {
    assert i * width + width == (i + 1) * width <= count * width;
  }

  function RemapEntries(width: nat, index: bytes, i: nat, count: nat, offsets: map<nat, nat>): (r: Result<bytes, Error>)
    requires i <= count && HoldsEntries(index, width, count)
    ensures r.Ok? ==> |r.value| == |index|
    decreases count - i
  {
    if i == count then Ok(index)
    else
      EntryFits(index, width, count, i);
      var was := ReadBE(EntryAt(index, width, i));
      if was !in offsets then Err(BadSymbolIndex)
      else if offsets[was] >= Pow256(width) then Err(Overflow)
      else
        var next := Patch(index, width + i * width, WriteBE(offsets[was], width));
        RemapEntries(width, next, i + 1, count, offsets)
  }

  function Remap(width: nat, index: bytes, offsets: map<nat, nat>): (r: Result<bytes, Error>)
    ensures r.Ok? ==> |r.value| == |index|
  {
    if |index| < width then Err(BadSymbolIndex)
    else
      var count := ReadBE(index[..width]);
      if width + count * width >= USIZE_LIMIT then Err(Overflow)
      else if |index| < width + count * width then Err(BadSymbolIndex)
      else RemapEntries(width, index, 0, count, offsets)
  }

  /** Bytes per entry of the symbol index; 0 for a member that is not one. */
  function IndexWidth(head: header): nat {
    if Name(head) == INDEX32 then 4 else if Name(head) == INDEX64 then 8 else 0
  }

  // ---------------------------------------------------------------------
  // Emitting

  function FinalBody(m: Member, offsets: map<nat, nat>): (r: Result<bytes, Error>)
    ensures r.Ok? ==> |r.value| == |m.body|
  {
    if IndexWidth(m.head) == 0 then Ok(m.body) else Remap(IndexWidth(m.head), m.body, offsets)
  }

  function Resized(head: header, size: nat): header
    requires |Decimal(size)| <= 10
  {
    Patch(head, 48, LeftAligned(size, 10))
  }

  function PadByte(size: nat): bytes {
    if size % 2 == 1 then ['\n' as int] else []
  }

  function Emit(m: Member, offsets: map<nat, nat>): (r: Result<bytes, Error>)
    ensures r.Ok? ==> |r.value| == Extent(|m.body|)
  {
    if |Decimal(|m.body|)| > 10 then Err(NoSpaceLeft)
    else
      var body :- FinalBody(m, offsets);
      Ok(Resized(m.head, |m.body|) + body + PadByte(|m.body|))
  }

  function EmitFrom(ms: seq<Member>, k: nat, offsets: map<nat, nat>): Result<bytes, Error>
    requires k <= |ms|
    decreases |ms| - k
  {
    if k == |ms| then Ok([])
    else
      var first :- Emit(ms[k], offsets);
      var rest :- EmitFrom(ms, k + 1, offsets);
      Ok(first + rest)
  }

  // ---------------------------------------------------------------------
  // The whole rewrite

  datatype Rewritten = Rewritten(out: bytes, renamed: nat)

  function Rewrite(a: bytes, hot: set<bytes>): Result<Rewritten, Error> {
    if !StartsWith(a, MAGIC) then Err(NotAnArchive)
    else
      var ms :- ParseFrom(a, 8);
      var pass :- MarkFrom(ms, 0, hot);
      if NewOffset(pass.members, |pass.members|) >= USIZE_LIMIT then Err(OutOfMemory)
      else
        var tail :- EmitFrom(pass.members, 0, OffsetMap(pass.members, |pass.members|));
        Ok(Rewritten(MAGIC + tail, pass.renamed))
  }
}
