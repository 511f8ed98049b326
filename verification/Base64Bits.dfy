/** The encoding bit by bit: which symbol stands where, in which alphabet, and what padding
    follows (sections 3.2, 4 and 5 of RFC 4648). */
module Base64Bits {
  import opened Base64
  import opened Bytes

  const UPPER := "ABCDEFGHIJKLMNOPQRSTUVWXYZ"
  const LOWER := "abcdefghijklmnopqrstuvwxyz"
  const DIGITS := "0123456789"

  /** The alphabets, in the order of their values. */
  ghost function Alphabet(c: Codec): (a: string)
    ensures |a| == 64
  {
    match c
    case Standard => UPPER + LOWER + DIGITS + "+/"
    case StandardNoPad => UPPER + LOWER + DIGITS + "+/"
    case UrlSafe => UPPER + LOWER + DIGITS + "-_"
    case UrlSafeNoPad => UPPER + LOWER + DIGITS + "-_"
  }

  lemma Uppers(i: nat)
    requires i < 26
    ensures UPPER[i] as int == 65 + i
  {}

  lemma Lowers(i: nat)
    requires i < 26
    ensures LOWER[i] as int == 97 + i
  {}

  lemma Numerals(i: nat)
    requires i < 10
    ensures DIGITS[i] as int == 48 + i
  {}

  lemma SymbolsSpelled(c: Codec, x: sextet)
    ensures Symbol(c, x) == Alphabet(c)[x] as int
  {
    hide UPPER, LOWER, DIGITS;
    Sizes();
    if x < 26 {
      Uppers(x);
    } else if x < 52 {
      Lowers(x - 26);
    } else if x < 62 {
      Numerals(x - 52);
    }
  }

  lemma Sizes()
    ensures |UPPER| == 26 && |LOWER| == 26 && |DIGITS| == 10
  {}

  /** Bit `p` of the input, the most significant bit of the first octet being bit 0; zero
      behind the end. */
  ghost function Bit(s: bytes, p: nat): (b: nat)
    ensures b <= 1
  {
    if p / 8 >= |s| then 0
    else
      var x := s[p / 8];
      match p % 8
      case 0 => x / 128 % 2
      case 1 => x / 64 % 2
      case 2 => x / 32 % 2
      case 3 => x / 16 % 2
      case 4 => x / 8 % 2
      case 5 => x / 4 % 2
      case 6 => x / 2 % 2
      case _ => x % 2
  }

  /** Six bits from bit `6 * k` on. */
  ghost function Slice(s: bytes, k: nat): (x: nat)
    ensures x < 64
  {
    32 * Bit(s, 6 * k) + 16 * Bit(s, 6 * k + 1) + 8 * Bit(s, 6 * k + 2) + 4 * Bit(s, 6 * k + 3) + 2 * Bit(s, 6 * k + 4) + Bit(s, 6 * k + 5)
  }

  /** The number of symbols that carry data. */
  ghost function DataLength(s: bytes): nat { (8 * |s| + 5) / 6 }

  /** The bits of an octet, one halving at a time. */
  lemma OctetBits(x: byte)
    ensures x == 2 * (x / 2) + x % 2
    ensures x / 2 == 2 * (x / 4) + x / 2 % 2
    ensures x / 4 == 2 * (x / 8) + x / 4 % 2
    ensures x / 8 == 2 * (x / 16) + x / 8 % 2
    ensures x / 16 == 2 * (x / 32) + x / 16 % 2
    ensures x / 32 == 2 * (x / 64) + x / 32 % 2
    ensures x / 64 == 2 * (x / 128) + x / 64 % 2
    ensures x / 128 == x / 128 % 2
  {
    assert x / 2 / 2 == x / 4;
    assert x / 4 / 2 == x / 8;
    assert x / 8 / 2 == x / 16;
    assert x / 16 / 2 == x / 32;
    assert x / 32 / 2 == x / 64;
    assert x / 64 / 2 == x / 128;
  }

  /** The first octet gives six bits and two. */
  lemma SixAndTwo(x: byte)
    ensures 32 * (x / 128 % 2) + 16 * (x / 64 % 2) + 8 * (x / 32 % 2) + 4 * (x / 16 % 2) + 2 * (x / 8 % 2) + x / 4 % 2 == x / 4
    ensures 2 * (x / 2 % 2) + x % 2 == x % 4
  {
    OctetBits(x);
  }

  lemma FourAndFour(x: byte)
    ensures 8 * (x / 128 % 2) + 4 * (x / 64 % 2) + 2 * (x / 32 % 2) + x / 16 % 2 == x / 16
    ensures 8 * (x / 8 % 2) + 4 * (x / 4 % 2) + 2 * (x / 2 % 2) + x % 2 == x % 16
  {
    OctetBits(x);
  }

  lemma TwoAndSix(x: byte)
    ensures 2 * (x / 128 % 2) + x / 64 % 2 == x / 64
    ensures 32 * (x / 32 % 2) + 16 * (x / 16 % 2) + 8 * (x / 8 % 2) + 4 * (x / 4 % 2) + 2 * (x / 2 % 2) + x % 2 == x % 64
  {
    OctetBits(x);
  }

  lemma BitsAt(s: bytes, i: nat)
    ensures var x := if i < |s| then s[i] else 0;
      && Bit(s, 8 * i) == x / 128 % 2 && Bit(s, 8 * i + 1) == x / 64 % 2 && Bit(s, 8 * i + 2) == x / 32 % 2
      && Bit(s, 8 * i + 3) == x / 16 % 2 && Bit(s, 8 * i + 4) == x / 8 % 2 && Bit(s, 8 * i + 5) == x / 4 % 2
      && Bit(s, 8 * i + 6) == x / 2 % 2 && Bit(s, 8 * i + 7) == x % 2
  {}

  /** The four slices of one group of three octets. */
  lemma GroupSlices(s: bytes)
    requires |s| > 0
    ensures var x := s[0];
      var y := if |s| > 1 then s[1] else 0;
      var z := if |s| > 2 then s[2] else 0;
      && Slice(s, 0) == x / 4 && Slice(s, 1) == x % 4 * 16 + y / 16
      && Slice(s, 2) == y % 16 * 4 + z / 64 && Slice(s, 3) == z % 64
  {
    hide Bit;
    BitsAt(s, 0);
    BitsAt(s, 1);
    BitsAt(s, 2);
    SixAndTwo(s[0]);
    FourAndFour(if |s| > 1 then s[1] else 0);
    TwoAndSix(if |s| > 2 then s[2] else 0);
  }

  /** Behind the first three octets the slices are those of the rest. */
  lemma SliceShift(s: bytes, k: nat)
    requires |s| >= 3
    ensures Slice(s, k + 4) == Slice(s[3..], k)
  {
    BitShift(s, 6 * k);
    BitShift(s, 6 * k + 1);
    BitShift(s, 6 * k + 2);
    BitShift(s, 6 * k + 3);
    BitShift(s, 6 * k + 4);
    BitShift(s, 6 * k + 5);
  }

  lemma BitShift(s: bytes, p: nat)
    requires |s| >= 3
    ensures Bit(s, p + 24) == Bit(s[3..], p)
  {
    assert (p + 24) / 8 == p / 8 + 3 && (p + 24) % 8 == p % 8;
  }

  /** Symbol `k` of an encoding is the one for the input's `k`-th slice of six bits. */
  lemma {:induction false} SymbolIsSlice(c: Codec, s: bytes, k: nat)
    requires k < DataLength(s)
    ensures k < |Encode(c, s)| && Encode(c, s)[k] == Alphabet(c)[Slice(s, k)] as int
  {
    hide *;
    ShortData(s);
    EncodeUnfolds(c, s);
    GroupSlices(s);
    FirstGroup(c, s[0], if |s| > 1 then s[1] else 0, if |s| > 2 then s[2] else 0);
    if k >= 4 {
      DataShift(s);
      SymbolIsSlice(c, s[3..], k - 4);
      SliceShift(s, k - 4);
    }
  }

  lemma DataShift(s: bytes)
    ensures |s| >= 3 ==> DataLength(s) == DataLength(s[3..]) + 4
    ensures |s| < 3 ==> DataLength(s) < 4
  {}

  lemma ShortData(s: bytes)
    ensures |s| == 0 ==> DataLength(s) == 0
    ensures |s| == 1 ==> DataLength(s) == 2
    ensures |s| == 2 ==> DataLength(s) == 3
  {}

  lemma FirstGroup(c: Codec, x: byte, y: byte, z: byte)
    ensures |Group(c, x, y, z)| == 4
    ensures Group(c, x, y, z)[0] == Alphabet(c)[x / 4] as int
    ensures Group(c, x, y, z)[1] == Alphabet(c)[x % 4 * 16 + y / 16] as int
    ensures Group(c, x, y, z)[2] == Alphabet(c)[y % 16 * 4 + z / 64] as int
    ensures Group(c, x, y, z)[3] == Alphabet(c)[z % 64] as int
  {
    hide Symbol, Alphabet;
    SymbolsSpelled(c, x / 4);
    SymbolsSpelled(c, x % 4 * 16 + y / 16);
    SymbolsSpelled(c, y % 16 * 4 + z / 64);
    SymbolsSpelled(c, z % 64);
  }

  lemma EncodeUnfolds(c: Codec, s: bytes)
    requires |s| > 0
    ensures var g := Group(c, s[0], if |s| > 1 then s[1] else 0, if |s| > 2 then s[2] else 0);
      && (|s| == 1 ==> |Encode(c, s)| >= 2 && Encode(c, s)[0] == g[0] && Encode(c, s)[1] == g[1])
      && (|s| == 2 ==> |Encode(c, s)| >= 3 && Encode(c, s)[0] == g[0] && Encode(c, s)[1] == g[1] && Encode(c, s)[2] == g[2])
      && (|s| >= 3 ==> Encode(c, s) == g + Encode(c, s[3..]))
  {
    hide Group;
  }

  /** Behind the data symbols stands nothing but padding: as many `=` as bring the length to
      a multiple of four for the padded codecs, none for the others. */
  lemma PaddingFollows(c: Codec, s: bytes)
    ensures c == Standard || c == UrlSafe ==> |Encode(c, s)| == (|s| + 2) / 3 * 4
    ensures c == Standard || c == UrlSafe ==> |Encode(c, s)| - DataLength(s) == (3 - |s| % 3) % 3
    ensures c == StandardNoPad || c == UrlSafeNoPad ==> |Encode(c, s)| == DataLength(s) == (4 * |s| + 2) / 3
    ensures forall i :: DataLength(s) <= i < |Encode(c, s)| ==> Encode(c, s)[i] == 61
  {
    hide Encode, Symbols;
    EncodeIsPaddedSymbols(c, s);
    SymbolsLength(c, s);
  }

  lemma {:induction false} SymbolsLength(c: Codec, s: bytes)
    ensures |Symbols(c, s)| == DataLength(s)
  {
    hide Group;
    if |s| >= 3 {
      SymbolsLength(c, s[3..]);
    }
  }

  /** Data symbols are never `=`. */
  lemma DataIsNotPadding(c: Codec, s: bytes, k: nat)
    requires k < DataLength(s)
    ensures k < |Encode(c, s)| && Encode(c, s)[k] != 61
  {
    hide Encode, Slice;
    SymbolIsSlice(c, s, k);
    forall x: nat | x < 64
      ensures Alphabet(c)[x] as int != 61
    {
      SymbolsSpelled(c, x);
    }
  }
}
