/** Which archives the rewriter accepts: the error paths, exactly. */
module ArchiveAcceptance {
  import opened Archive
  import opened ArchiveTheorems
  import opened Bytes
  import opened Decimals
  import opened Elf
  import opened ElfAcceptance
  import opened ElfTheorems
  import opened Results

  const SIZE_LIMIT: nat := 10_000_000_000

  /** Ten digits hold exactly the numbers below ten to the ten. */
  lemma TenDigits(n: nat)
    ensures |Decimal(n)| <= 10 <==> n < SIZE_LIMIT
  {
    DigitsBound(n, 10);
    assert Pow10(5) == 100_000;
    assert Pow10(10) == SIZE_LIMIT;
  }

  lemma {:induction false} DigitsBound(n: nat, d: nat)
    requires d > 0
    ensures |Decimal(n)| <= d <==> n < Pow10(d)
  {
    if d == 1 {
      assert Pow10(1) == 10;
    } else if n >= 10 {
      DigitsBound(n / 10, d - 1);
    } else {
      PowGrows(d);
    }
  }

  lemma {:induction false} PowGrows(d: nat)
    requires d > 0
    ensures Pow10(d) >= 10
  {
    if d > 1 {
      PowGrows(d - 1);
    }
  }

  lemma {:induction false} MarkFromOk(ms: seq<Member>, k: nat, hot: set<bytes>)
    requires k <= |ms|
    ensures MarkFrom(ms, k, hot).Ok? <==> forall i :: k <= i < |ms| ==> MarkOne(ms[i], hot).Ok?
    decreases |ms| - k
  {
    hide MarkOne;
    if k < |ms| {
      MarkFromOk(ms, k + 1, hot);
    }
  }

  lemma {:induction false} EmitFromOk(ms: seq<Member>, k: nat, offsets: map<nat, nat>)
    requires k <= |ms|
    ensures EmitFrom(ms, k, offsets).Ok? <==> forall i :: k <= i < |ms| ==> Emit(ms[i], offsets).Ok?
    decreases |ms| - k
  {
    hide Emit;
    if k < |ms| {
      EmitFromOk(ms, k + 1, offsets);
    }
  }

  /** A member whose header a symbol-index entry may name: its new position fits the entry. */
  ghost predicate Names(ms: seq<Member>, was: nat, width: nat) {
    exists j :: 0 <= j < |ms| && ms[j].offset == was && NewOffset(ms, j) < Pow256(width)
  }

  /** An index holds its count, as many entries, and only entries that name members. */
  ghost predicate IndexOk(index: bytes, width: nat, ms: seq<Member>) {
    && |index| >= width
    && var count := ReadBE(index[..width]);
    && width + count * width < USIZE_LIMIT && HoldsEntries(index, width, count)
    && forall i :: 0 <= i < count ==> width + i * width + width <= |index| && Names(ms, Target(index, width, i), width)
  }

  lemma KnownOffset(ms: seq<Member>, was: nat, width: nat)
    requires Increasing(ms)
    ensures Names(ms, was, width) <==> was in OffsetMap(ms, |ms|) && OffsetMap(ms, |ms|)[was] < Pow256(width)
  {
    hide NewOffset, OffsetMap, Pow256;
    OffsetMapExact(ms, |ms|, was);
    if was in OffsetMap(ms, |ms|) {
      var j :| 0 <= j < |ms| && ms[j].offset == was;
      assert OffsetMap(ms, |ms|)[was] == NewOffset(ms, j);
    }
  }

  lemma RemapOk(width: nat, index: bytes, ms: seq<Member>)
    requires Increasing(ms)
    ensures Remap(width, index, OffsetMap(ms, |ms|)).Ok? <==> IndexOk(index, width, ms)
  {
    hide ReadBE, Names, OffsetMap, Pow256, RemapEntries, NewOffset;
    if |index| >= width {
      var count := ReadBE(index[..width]);
      if width + count * width < USIZE_LIMIT && HoldsEntries(index, width, count) {
        RemapSucceeds(width, index, 0, count, OffsetMap(ms, |ms|));
        forall i | 0 <= i < count
          ensures width + i * width + width <= |index|
          ensures Names(ms, Target(index, width, i), width) <==>
            Target(index, width, i) in OffsetMap(ms, |ms|) && OffsetMap(ms, |ms|)[Target(index, width, i)] < Pow256(width)
        {
          KnownOffset(ms, Target(index, width, i), width);
        }
      }
    }
  }

  /** What is emitted: sizes fit their ten columns and index members name members. */
  ghost predicate Emittable(ms: seq<Member>, k: nat)
    requires k < |ms|
  {
    && |ms[k].body| < SIZE_LIMIT
    && (IndexWidth(ms[k].head) > 0 ==> IndexOk(ms[k].body, IndexWidth(ms[k].head), ms))
  }

  lemma EmitOk(ms: seq<Member>, k: nat)
    requires Increasing(ms) && k < |ms|
    ensures Emit(ms[k], OffsetMap(ms, |ms|)).Ok? <==> Emittable(ms, k)
  {
    hide Remap, IndexOk, OffsetMap, Decimal, IndexWidth, Resized;
    TenDigits(|ms[k].body|);
    RemapOk(IndexWidth(ms[k].head), ms[k].body, ms);
  }

  // ---------------------------------------------------------------------
  // Cutting out the members

  /** A header and the body it announces stand at `p`. */
  ghost predicate CutsAt(a: bytes, p: nat) {
    && p + 60 <= |a| && ParseUsize(TrimEnd(SizeField(a[p..p + 60]))).Some?
    && p + 60 + ParseUsize(TrimEnd(SizeField(a[p..p + 60]))).value <= |a|
  }

  ghost function MemberAt(a: bytes, p: nat): Member
    requires CutsAt(a, p)
  {
    var head: header := a[p..p + 60];
    Member(head, a[p + 60..p + 60 + ParseUsize(TrimEnd(SizeField(head))).value], p)
  }

  /** Members stand one behind the other from `pos` on, until no header fits: `ps` are
      their positions and the end. */
  ghost predicate Cuts(a: bytes, pos: nat, ps: seq<nat>) {
    && |ps| > 0 && ps[0] == pos && ps[|ps| - 1] + 60 > |a|
    && forall i :: 0 <= i < |ps| - 1 ==> CutsAt(a, ps[i]) && ps[i + 1] == ps[i] + Extent(|MemberAt(a, ps[i]).body|)
  }

  ghost function Members(a: bytes, pos: nat, ps: seq<nat>): (ms: seq<Member>)
    requires Cuts(a, pos, ps)
    ensures |ms| == |ps| - 1
  {
    seq(|ps| - 1, i requires 0 <= i < |ps| - 1 => MemberAt(a, ps[i]))
  }

  /** The parser succeeds exactly when the archive can be cut up, and finds those members. */
  lemma {:induction false} CutsParse(a: bytes, pos: nat, ps: seq<nat>)
    requires Cuts(a, pos, ps)
    ensures ParseFrom(a, pos) == Ok(Members(a, pos, ps))
    decreases |ps|
  {
    hide ParseUsize, TrimEnd, Extent;
    if |ps| > 1 {
      assert CutsAt(a, ps[0]);
      var tail := ps[1..];
      assert forall i :: 0 <= i < |tail| ==> tail[i] == ps[i + 1];
      CutsParse(a, tail[0], tail);
      assert Members(a, pos, ps) == [MemberAt(a, pos)] + Members(a, tail[0], tail);
    }
  }

  lemma {:induction false} ParsesCut(a: bytes, pos: nat) returns (ps: seq<nat>)
    requires ParseFrom(a, pos).Ok?
    ensures Cuts(a, pos, ps)
    decreases |a| + 1 - pos
  {
    hide ParseUsize, TrimEnd;
    if pos + 60 > |a| {
      ps := [pos];
    } else {
      var next := pos + Extent(|MemberAt(a, pos).body|);
      var tail := ParsesCut(a, next);
      ps := [pos] + tail;
    }
  }

  // ---------------------------------------------------------------------
  // Acceptance

  /** An object can be read and its new names fit. */
  ghost predicate ObjectOk(m: Member, hot: set<bytes>) {
    StartsWith(m.body, ELF_MAGIC) && Handled(m.body) ==>
      TableFits(m.body) && Readable(m.body, hot) && NamesFit(m.body, hot)
  }

  /** The member as it goes into the output. */
  ghost function AsMarked(m: Member, hot: set<bytes>): Member {
    match MarkOne(m, hot)
    case Ok(r) => r.0
    case Err(_) => m
  }

  ghost function AllMarked(ms: seq<Member>, hot: set<bytes>): (r: seq<Member>)
    ensures |r| == |ms|
  {
    seq(|ms|, k requires 0 <= k < |ms| => AsMarked(ms[k], hot))
  }

  /** What is asked of the members: readable objects and, once those are marked, sizes
      of ten digits, indexes that name members and an addressable total. */
  ghost predicate Acceptable(ms: seq<Member>, hot: set<bytes>) {
    && (forall k :: 0 <= k < |ms| ==> ObjectOk(ms[k], hot))
    && var marked := AllMarked(ms, hot);
    && (forall k :: 0 <= k < |ms| ==> Emittable(marked, k))
    && NewOffset(marked, |marked|) < USIZE_LIMIT
  }

  lemma MarkOneOk(m: Member, hot: set<bytes>)
    ensures MarkOne(m, hot).Ok? <==> ObjectOk(m, hot)
  {
    hide Mark, Handled, Readable, NamesFit;
    MarkSucceeds(m.body, hot);
  }

  lemma MarkedMembersAre(ms: seq<Member>, hot: set<bytes>)
    requires MarkFrom(ms, 0, hot).Ok?
    ensures MarkFrom(ms, 0, hot).value.members == AllMarked(ms, hot)
  {
    hide MarkFrom, MarkOne;
    forall k | 0 <= k < |ms|
      ensures MarkFrom(ms, 0, hot).value.members[k] == AsMarked(ms[k], hot)
    {
      MarkedMember(ms, 0, hot, k);
    }
  }

  /** The rewriter accepts exactly the archives that can be cut up into acceptable members. */
  lemma AcceptsExactly(a: bytes, hot: set<bytes>)
    ensures Rewrite(a, hot).Ok? <==>
      StartsWith(a, MAGIC) && exists ps :: Cuts(a, 8, ps) && Acceptable(Members(a, 8, ps), hot)
  {
    hide ParseFrom, Rewrite, Cuts, Members, Acceptable;
    AcceptsParsed(a, hot);
    if ParseFrom(a, 8).Ok? {
      var ps := ParsesCut(a, 8);
      CutsParse(a, 8, ps);
    }
    if ps :| Cuts(a, 8, ps) && Acceptable(Members(a, 8, ps), hot) {
      CutsParse(a, 8, ps);
    }
  }

  lemma AcceptsParsed(a: bytes, hot: set<bytes>)
    ensures Rewrite(a, hot).Ok? <==> StartsWith(a, MAGIC) && ParseFrom(a, 8).Ok? && Acceptable(ParseFrom(a, 8).value, hot)
  {
    hide ParseFrom, MarkFrom, MarkOne, EmitFrom, Emit, OffsetMap, NewOffset, Emittable, Ascii, ObjectOk, AllMarked;
    if StartsWith(a, MAGIC) && ParseFrom(a, 8).Ok? {
      var parsed := ParseFrom(a, 8).value;
      MarkFromOk(parsed, 0, hot);
      forall k | 0 <= k < |parsed|
        ensures MarkOne(parsed[k], hot).Ok? <==> ObjectOk(parsed[k], hot)
      {
        MarkOneOk(parsed[k], hot);
      }
      if MarkFrom(parsed, 0, hot).Ok? {
        var ms := AllMarked(parsed, hot);
        MarkedMembersAre(parsed, hot);
        ParsedIncreasing(a, 8);
        MarkKeepsHeads(parsed, hot);
        EmitFromOk(ms, 0, OffsetMap(ms, |ms|));
        forall k | 0 <= k < |ms|
          ensures Emit(ms[k], OffsetMap(ms, |ms|)).Ok? <==> Emittable(ms, k)
        {
          EmitOk(ms, k);
        }
      }
    }
  }

  // ---------------------------------------------------------------------
  // The count

  /** The sections to rename in one member. */
  ghost function Renames(m: Member, hot: set<bytes>): nat {
    if StartsWith(m.body, ELF_MAGIC) && TableFits(m.body) then |ToRename(m.body, hot)| else 0
  }

  ghost function AllRenames(ms: seq<Member>, k: nat, hot: set<bytes>): nat
    requires k <= |ms|
    decreases |ms| - k
  {
    if k == |ms| then 0 else Renames(ms[k], hot) + AllRenames(ms, k + 1, hot)
  }

  /** The number reported is the number of sections to rename in all objects. */
  lemma RenamedCountsAll(a: bytes, hot: set<bytes>)
    requires Rewrite(a, hot).Ok?
    ensures ParseFrom(a, 8).Ok? && Rewrite(a, hot).value.renamed == AllRenames(MembersOf(a), 0, hot)
  {
    hide ParseFrom, MarkFrom, Rewrite;
    RewriteUnfolds(a, hot);
    PassCounts(MembersOf(a), 0, hot);
  }

  lemma {:induction false} PassCounts(ms: seq<Member>, k: nat, hot: set<bytes>)
    requires k <= |ms| && MarkFrom(ms, k, hot).Ok?
    ensures MarkFrom(ms, k, hot).value.renamed == AllRenames(ms, k, hot)
    decreases |ms| - k
  {
    hide MarkOne, Renames;
    if k < |ms| {
      OneCounts(ms[k], hot);
      PassCounts(ms, k + 1, hot);
    }
  }

  lemma OneCounts(m: Member, hot: set<bytes>)
    requires MarkOne(m, hot).Ok?
    ensures MarkOne(m, hot).value.1 == Renames(m, hot)
  {
    hide PlanNames, Rebuild, ToRename;
    if StartsWith(m.body, ELF_MAGIC) && TableFits(m.body) {
      PlanCounts(m.body, hot);
    }
  }
}
