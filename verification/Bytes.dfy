/** Byte strings: fixed-width integers in both byte orders, C strings, decimal text. */
module Bytes {
  type byte = x: int | 0 <= x < 256
  type bytes = seq<byte>

  /** The bytes of an ASCII literal. */
  function Ascii(s: string): (b: bytes)
    requires forall i :: 0 <= i < |s| ==> s[i] < 256 as char
    ensures |b| == |s|
    ensures forall i :: 0 <= i < |s| ==> b[i] == s[i] as int
  {
    seq(|s|, i requires 0 <= i < |s| => s[i] as int)
  }

  predicate StartsWith(b: bytes, prefix: bytes) {
    |prefix| <= |b| && b[..|prefix|] == prefix
  }

  // ---------------------------------------------------------------------
  // Fixed-width integers

  /** One more than the largest integer that fits in `n` bytes. */
  function Pow256(n: nat): (p: nat)
    ensures p > 0
  {
    if n == 0 then 1 else 256 * Pow256(n - 1)
  }

  const U32_LIMIT: nat := 0x1_0000_0000
  const USIZE_LIMIT: nat := 0x1_0000_0000_0000_0000

  lemma Limits()
    ensures Pow256(4) == U32_LIMIT && Pow256(8) == USIZE_LIMIT
  {
    assert Pow256(2) == 0x1_0000;
    assert Pow256(4) == 0x1_0000 * Pow256(2);
    assert Pow256(6) == 0x1_0000 * Pow256(4);
    assert Pow256(8) == 0x1_0000 * Pow256(6);
  }

  function ReadLE(b: bytes): (v: nat)
    ensures v < Pow256(|b|)
  {
    if |b| == 0 then 0 else b[0] + 256 * ReadLE(b[1..])
  }

  function WriteLE(v: nat, width: nat): (b: bytes)
    requires v < Pow256(width)
    ensures |b| == width
    ensures ReadLE(b) == v
  {
    if width == 0 then [] else [v % 256] + WriteLE(v / 256, width - 1)
  }

  function ReadBE(b: bytes): (v: nat)
    ensures v < Pow256(|b|)
  {
    if |b| == 0 then 0 else ReadBE(b[..|b| - 1]) * 256 + b[|b| - 1]
  }

  function WriteBE(v: nat, width: nat): (b: bytes)
    requires v < Pow256(width)
    ensures |b| == width
    ensures ReadBE(b) == v
  {
    if width == 0 then [] else WriteBE(v / 256, width - 1) + [v % 256]
  }

  // What the bytes of the usual widths weigh, in either order.

  lemma FirstByte(b: bytes)
    requires b != []
    ensures ReadLE(b) == b[0] + 256 * ReadLE(b[1..])
  {}

  lemma LittleEndian2(b: bytes)
    requires |b| == 2
    ensures ReadLE(b) == (b[0] as int) + 0x100 * (b[1] as int)
  {
    assert ReadLE(b[1..]) == b[1] + 256 * ReadLE(b[1..][1..]);
  }

  lemma LittleEndian4(b: bytes)
    requires |b| == 4
    ensures ReadLE(b) == (b[0] as int) + 0x100 * (b[1] as int) + 0x1_0000 * (b[2] as int) + 0x100_0000 * (b[3] as int)
  {
    hide ReadLE;
    FirstByte(b);
    FirstByte(b[1..]);
    assert b[1..][1..] == b[2..];
    LittleEndian2(b[2..]);
  }

  lemma LittleEndian8(b: bytes)
    requires |b| == 8
    ensures ReadLE(b) ==
      (b[0] as int) + 0x100 * (b[1] as int) + 0x1_0000 * (b[2] as int) + 0x100_0000 * (b[3] as int)
      + 0x1_0000_0000 * (b[4] as int) + 0x100_0000_0000 * (b[5] as int) + 0x1_0000_0000_0000 * (b[6] as int) + 0x100_0000_0000_0000 * (b[7] as int)
  {
    hide ReadLE;
    FirstByte(b);
    FirstByte(b[1..]);
    FirstByte(b[2..]);
    FirstByte(b[3..]);
    assert b[1..][1..] == b[2..] && b[2..][1..] == b[3..] && b[3..][1..] == b[4..];
    LittleEndian4(b[4..]);
  }

  lemma LastByte(b: bytes)
    requires b != []
    ensures ReadBE(b) == ReadBE(b[..|b| - 1]) * 256 + b[|b| - 1]
  {}

  lemma LastByteOf(b: bytes, n: nat)
    requires 0 < n <= |b|
    ensures ReadBE(b[..n]) == ReadBE(b[..n - 1]) * 256 + b[n - 1]
  {
    hide ReadBE;
    LastByte(b[..n]);
    assert b[..n][..n - 1] == b[..n - 1];
  }

  lemma BigEndian4(b: bytes)
    requires |b| == 4
    ensures ReadBE(b) == 0x100_0000 * (b[0] as int) + 0x1_0000 * (b[1] as int) + 0x100 * (b[2] as int) + (b[3] as int)
  {
    hide ReadBE;
    LastByte(b);
    LastByte(b[..3]);
    LastByte(b[..2]);
    LastByte(b[..1]);
    assert b[..3][..2] == b[..2] && b[..2][..1] == b[..1] && b[..1][..0] == [];
    NoBytes();
  }

  lemma NoBytes()
    ensures ReadBE([]) == 0 && ReadLE([]) == 0
  {}

  lemma BigEndian8(b: bytes)
    requires |b| == 8
    ensures ReadBE(b) ==
      0x100_0000_0000_0000 * (b[0] as int) + 0x1_0000_0000_0000 * (b[1] as int) + 0x100_0000_0000 * (b[2] as int) + 0x1_0000_0000 * (b[3] as int)
      + 0x100_0000 * (b[4] as int) + 0x1_0000 * (b[5] as int) + 0x100 * (b[6] as int) + (b[7] as int)
  {
    hide ReadBE;
    LastByteOf(b, 8);
    LastByteOf(b, 7);
    LastByteOf(b, 6);
    LastByteOf(b, 5);
    assert b[..8] == b;
    BigEndian4(b[..4]);
  }

  lemma LastDigit(front: nat, last: byte)
    ensures (front * 256 + last) / 256 == front && (front * 256 + last) % 256 == last
  {}

  lemma WriteUnfolds(v: nat, width: nat)
    requires v < Pow256(width) && width > 0
    ensures v / 256 < Pow256(width - 1) && WriteBE(v, width) == WriteBE(v / 256, width - 1) + [v % 256]
  {}

  /** Big-endian reading is injective, so rewriting the value already there changes nothing. */
  lemma {:induction false} WriteReadBE(b: bytes)
    ensures WriteBE(ReadBE(b), |b|) == b
  {
    if |b| != 0 {
      hide ReadBE, WriteBE, Pow256;
      var front, last := b[..|b| - 1], b[|b| - 1];
      WriteReadBE(front);
      assert b == front + [last];
      LastDigit(ReadBE(front), last);
      LastByte(b);
      WriteUnfolds(ReadBE(b), |b|);
    } else {
      NoBytes();
    }
  }

  // ---------------------------------------------------------------------
  // Patching in place

  /** `b` with the bytes from `at` on overwritten by `s`. */
  function Patch(b: bytes, at: nat, s: bytes): (r: bytes)
    requires at + |s| <= |b|
    ensures |r| == |b|
  {
    b[..at] + s + b[at + |s|..]
  }

  /** A range that a patch does not meet reads as before. */
  lemma PatchElsewhere(b: bytes, at: nat, s: bytes, lo: nat, hi: nat)
    requires at + |s| <= |b| && lo <= hi <= |b|
    requires hi <= at || at + |s| <= lo
    ensures Patch(b, at, s)[lo..hi] == b[lo..hi]
  {}

  lemma PatchHere(b: bytes, at: nat, s: bytes)
    requires at + |s| <= |b|
    ensures Patch(b, at, s)[at..at + |s|] == s
  {}

  /** The zeros that bring length `n` to a multiple of 8. */
  function Padding(n: nat): (p: bytes)
    ensures (n + |p|) % 8 == 0 && |p| < 8
  {
    seq((8 - n % 8) % 8, _ => 0)
  }

  /** Adding zeros one by one reaches a multiple of 8 exactly at the end of the padding. */
  lemma PaddingGoesOn(n: nat, k: nat)
    requires k <= |Padding(n)|
    ensures (n + k) % 8 == 0 <==> k == |Padding(n)|
    ensures k < |Padding(n)| ==> Padding(n)[..k + 1] == Padding(n)[..k] + [0]
  {}

  // ---------------------------------------------------------------------
  // NUL-terminated strings

  /** The bytes before the first NUL, or all of them when there is none. */
  function UntilNul(b: bytes): (r: bytes)
    ensures r <= b && 0 !in r
    ensures |r| < |b| ==> b[|r|] == 0
  {
    if |b| == 0 || b[0] == 0 then [] else [b[0]] + UntilNul(b[1..])
  }

  /** The three facts in the contract of `UntilNul` pin it down. */
  lemma UntilNulUnique(b: bytes, r: bytes)
    requires r <= b && 0 !in r
    requires |r| < |b| ==> b[|r|] == 0
    ensures UntilNul(b) == r
  {
    var u := UntilNul(b);
    assert |u| >= |r|;
    assert |r| >= |u|;
  }

  /** What follows the terminator does not matter. */
  lemma UntilNulOfTerminated(name: bytes, rest: bytes)
    requires 0 !in name
    ensures UntilNul(name + [0] + rest) == name
  {
    UntilNulUnique(name + [0] + rest, name);
  }

  /** A string that does not end in its table goes on in what is appended. */
  lemma UntilNulConcat(table: bytes, more: bytes)
    ensures UntilNul(table + more) == if 0 in table then UntilNul(table) else UntilNul(table) + UntilNul(more)
    ensures 0 !in table ==> UntilNul(table) == table
  {
    var u := UntilNul(table);
    if 0 in table {
      assert |u| < |table|;
      UntilNulUnique(table + more, u);
    } else {
      UntilNulUnique(table, table);
      UntilNulUnique(table + more, table + UntilNul(more));
    }
  }

  /** Reading a C string survives appending to the table exactly when the
      string is terminated inside the old table (or nothing visible follows). */
  lemma UntilNulExtends(table: bytes, more: bytes)
    ensures UntilNul(table + more) == UntilNul(table) <==> (0 in table || more == [] || more[0] == 0)
  {
    var u := UntilNul(table);
    if 0 in table {
      assert |u| < |table|;
      UntilNulUnique(table + more, u);
    } else {
      UntilNulUnique(table, table);
      if more == [] {
        assert table + more == table;
      } else if more[0] == 0 {
        UntilNulUnique(table + more, table);
      } else {
        assert (table + more)[|table|] != 0;
      }
    }
  }

  // ---------------------------------------------------------------------
  // Decimal text

  const SPACE: byte := 32

  function TrimEnd(b: bytes): (r: bytes)
    ensures r <= b
    ensures r == [] || r[|r| - 1] != SPACE
    ensures forall i :: |r| <= i < |b| ==> b[i] == SPACE
  {
    if |b| > 0 && b[|b| - 1] == SPACE then TrimEnd(b[..|b| - 1]) else b
  }

  lemma TrimEndUnique(b: bytes, r: bytes)
    requires r <= b
    requires r == [] || r[|r| - 1] != SPACE
    requires forall i :: |r| <= i < |b| ==> b[i] == SPACE
    ensures TrimEnd(b) == r
  {
    var t := TrimEnd(b);
    assert |t| >= |r|;
    assert |r| >= |t|;
  }

  predicate IsDigit(c: byte) { 48 <= c <= 57 }

  /** `n` in decimal without leading zeros. */
  function Decimal(n: nat): (d: bytes)
    ensures |d| > 0
    ensures forall i :: 0 <= i < |d| ==> IsDigit(d[i])
  {
    if n < 10 then [48 + n] else Decimal(n / 10) + [48 + n % 10]
  }
}
