/** RFC 4648 base64: the encoding of sections 3.2, 4 and 5, and its inverse. */
module Base64 {
  import opened Bytes
  import opened Results

  datatype Codec = Standard | StandardNoPad | UrlSafe | UrlSafeNoPad {
    predicate Pads() { Standard? || UrlSafe? }
    predicate Url() { UrlSafe? || UrlSafeNoPad? }
  }

  type sextet = x: int | 0 <= x < 64

  const PAD: byte := 61

  /** Tables 1 and 2 of RFC 4648. */
  function Symbol(c: Codec, x: sextet): (b: byte)
    ensures b != PAD
  {
    if x < 26 then 'A' as int + x
    else if x < 52 then 'a' as int + (x - 26)
    else if x < 62 then '0' as int + (x - 52)
    else if x == 62 then if c.Url() then '-' as int else '+' as int
    else if c.Url() then '_' as int else '/' as int
  }

  function Value(c: Codec, b: byte): Option<sextet> {
    if 'A' as int <= b <= 'Z' as int then Some(b - 'A' as int)
    else if 'a' as int <= b <= 'z' as int then Some(b - 'a' as int + 26)
    else if '0' as int <= b <= '9' as int then Some(b - '0' as int + 52)
    else if b == (if c.Url() then '-' as int else '+' as int) then Some(62)
    else if b == (if c.Url() then '_' as int else '/' as int) then Some(63)
    else None
  }

  /** The alphabet is read back symbol by symbol. */
  lemma ValueOfSymbol(c: Codec, x: sextet)
    ensures Value(c, Symbol(c, x)) == Some(x)
  {}

  function Padding(c: Codec, n: nat): (p: bytes)
    ensures |p| <= n && forall i :: 0 <= i < |p| ==> p[i] == PAD
  {
    if c.Pads() then seq(n, _ => PAD) else []
  }

  /** Three octets become four symbols. */
  function Group(c: Codec, x: byte, y: byte, z: byte): (g: bytes)
    ensures |g| == 4
  {
    [Symbol(c, x / 4), Symbol(c, x % 4 * 16 + y / 16), Symbol(c, y % 16 * 4 + z / 64), Symbol(c, z % 64)]
  }

  function Encode(c: Codec, s: bytes): bytes {
    if |s| == 0 then []
    else if |s| == 1 then Group(c, s[0], 0, 0)[..2] + Padding(c, 2)
    else if |s| == 2 then Group(c, s[0], s[1], 0)[..3] + Padding(c, 1)
    else Group(c, s[0], s[1], s[2]) + Encode(c, s[3..])
  }

  /** The octets of up to four symbols, `n` of which are data. */
  function Ungroup(w: sextet, x: sextet, y: sextet, z: sextet, n: nat): bytes
    requires 2 <= n <= 4
  {
    [w * 4 + x / 16, x % 16 * 16 + y / 4, y % 4 * 64 + z][..n - 1]
  }

  /** Decodes symbols without padding; None for a foreign symbol or a single leftover one. */
  function DecodeSymbols(c: Codec, e: bytes): Option<bytes> {
    if |e| == 0 then Some([])
    else if |e| == 1 then None
    else
      var w := Value(c, e[0]);
      var x := Value(c, e[1]);
      var y := if |e| > 2 then Value(c, e[2]) else Some(0);
      var z := if |e| > 3 then Value(c, e[3]) else Some(0);
      if w.None? || x.None? || y.None? || z.None? then None
      else if |e| < 4 then Some(Ungroup(w.value, x.value, y.value, z.value, |e|))
      else
        match DecodeSymbols(c, e[4..])
        case None => None
        case Some(rest) => Some(Ungroup(w.value, x.value, y.value, z.value, 4) + rest)
  }

  function StripPad(e: bytes): (r: bytes)
    ensures r <= e && (r == [] || r[|r| - 1] != PAD)
    ensures forall i :: |r| <= i < |e| ==> e[i] == PAD
  {
    if e != [] && e[|e| - 1] == PAD then StripPad(e[..|e| - 1]) else e
  }

  function Decode(c: Codec, e: bytes): Option<bytes> {
    DecodeSymbols(c, StripPad(e))
  }

  // ---------------------------------------------------------------------

  /** The room an encoding needs. */
  lemma {:induction false} EncodedLength(c: Codec, s: bytes)
    ensures |Encode(c, s)| <= (|s| + 2) / 3 * 4
    ensures c.Pads() || |s| % 3 == 0 ==> |Encode(c, s)| == (|s| + 2) / 3 * 4
  {
    hide Group;
    if |s| >= 3 {
      EncodedLength(c, s[3..]);
    }
  }

  /** Whole groups encode on their own. */
  lemma {:induction false} EncodeConcat(c: Codec, a: bytes, b: bytes)
    requires |a| % 3 == 0
    ensures Encode(c, a + b) == Encode(c, a) + Encode(c, b)
  {
    if a == [] {
      assert a + b == b;
    } else {
      assert (a + b)[3..] == a[3..] + b;
      EncodeConcat(c, a[3..], b);
    }
  }

  /** The symbols of an encoding, without the padding. */
  function Symbols(c: Codec, s: bytes): (e: bytes)
    ensures e == [] || e[|e| - 1] != PAD
  {
    if |s| == 0 then []
    else if |s| == 1 then Group(c, s[0], 0, 0)[..2]
    else if |s| == 2 then Group(c, s[0], s[1], 0)[..3]
    else Group(c, s[0], s[1], s[2]) + Symbols(c, s[3..])
  }

  function PadCount(s: bytes): nat { if |s| % 3 == 0 then 0 else 3 - |s| % 3 }

  lemma {:induction false} EncodeIsPaddedSymbols(c: Codec, s: bytes)
    ensures Encode(c, s) == Symbols(c, s) + Padding(c, PadCount(s))
  {
    hide Group, Padding;
    if |s| >= 3 {
      var g, rest := Group(c, s[0], s[1], s[2]), s[3..];
      EncodeIsPaddedSymbols(c, rest);
      assert g + (Symbols(c, rest) + Padding(c, PadCount(rest))) == (g + Symbols(c, rest)) + Padding(c, PadCount(rest));
    } else if |s| == 0 {
      assert Padding(c, 0) == [];
    }
  }

  lemma StripPadExact(e: bytes, p: bytes)
    requires e == [] || e[|e| - 1] != PAD
    requires forall i :: 0 <= i < |p| ==> p[i] == PAD
    ensures StripPad(e + p) == e
  {
    hide StripPad;
    var r := StripPad(e + p);
    assert forall i :: 0 <= i < |e| ==> (e + p)[i] == e[i];
    assert forall i :: |e| <= i < |e + p| ==> (e + p)[i] == PAD;
    assert |r| >= |e|;
  }

  lemma GroupsBack(x: byte, y: byte, z: byte)
    ensures Ungroup(x / 4, x % 4 * 16 + y / 16, y % 16 * 4 + z / 64, z % 64, 4) == [x, y, z]
    ensures z == 0 ==> Ungroup(x / 4, x % 4 * 16 + y / 16, y % 16 * 4 + z / 64, 0, 3) == [x, y]
    ensures y == 0 && z == 0 ==> Ungroup(x / 4, x % 4 * 16 + y / 16, 0, 0, 2) == [x]
  {}

  /** Decoding the symbols of one group in front of others. */
  lemma DecodesGroup(c: Codec, x: byte, y: byte, z: byte, n: nat, rest: bytes)
    requires 2 <= n <= 4 && (n < 4 ==> rest == [] && z == 0) && (n == 2 ==> y == 0)
    requires DecodeSymbols(c, rest).Some?
    ensures DecodeSymbols(c, Group(c, x, y, z)[..n] + rest) == Some([x, y, z][..n - 1] + DecodeSymbols(c, rest).value)
  {
    hide Ungroup, Symbol, Value;
    GroupsBack(x, y, z);
    ValueOfSymbol(c, x / 4);
    ValueOfSymbol(c, x % 4 * 16 + y / 16);
    ValueOfSymbol(c, y % 16 * 4 + z / 64);
    ValueOfSymbol(c, z % 64);
    var e := Group(c, x, y, z)[..n] + rest;
    if n == 4 {
      assert e[4..] == rest;
      assert [x, y, z][..3] == [x, y, z];
    } else {
      assert DecodeSymbols(c, rest) == Some([]);
      assert [x, y, z][..n - 1] + [] == if n == 3 then [x, y] else [x];
    }
  }

  lemma {:induction false} DecodesSymbols(c: Codec, s: bytes)
    ensures DecodeSymbols(c, Symbols(c, s)) == Some(s)
  {
    hide Group;
    if |s| >= 3 {
      DecodesSymbols(c, s[3..]);
      DecodesGroup(c, s[0], s[1], s[2], 4, Symbols(c, s[3..]));
      assert s == [s[0], s[1], s[2]][..3] + s[3..];
      assert Group(c, s[0], s[1], s[2])[..4] == Group(c, s[0], s[1], s[2]);
    } else if |s| == 2 {
      DecodesGroup(c, s[0], s[1], 0, 3, []);
      assert s == [s[0], s[1], 0][..2] + [];
      assert Group(c, s[0], s[1], 0)[..3] + [] == Group(c, s[0], s[1], 0)[..3];
    } else if |s| == 1 {
      DecodesGroup(c, s[0], 0, 0, 2, []);
      assert s == [s[0], 0, 0][..1] + [];
      assert Group(c, s[0], 0, 0)[..2] + [] == Group(c, s[0], 0, 0)[..2];
    }
  }

  /** Decoding gives the input back, for every codec. */
  lemma DecodesEncoding(c: Codec, s: bytes)
    ensures Decode(c, Encode(c, s)) == Some(s)
  {
    hide Symbols, StripPad;
    EncodeIsPaddedSymbols(c, s);
    StripPadExact(Symbols(c, s), Padding(c, PadCount(s)));
    DecodesSymbols(c, s);
  }
}
