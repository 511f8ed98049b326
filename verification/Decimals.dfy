/** The decimal size field: `std.fmt.parseInt` and the printer that fills the field. */
module Decimals {
  import opened Bytes
  import opened Results

  const UNDERSCORE: byte := 95

  /** Digits with `_` skipped; None for a foreign character or a value past 64 bits
      (for a negative number: any digit but zero). */
  function Accumulate(b: bytes, acc: nat, negative: bool): Option<nat> {
    if b == [] then Some(acc)
    else if b[0] == UNDERSCORE then Accumulate(b[1..], acc, negative)
    else if !IsDigit(b[0]) then None
    else
      var d := b[0] - 48;
      if negative then if d == 0 then Accumulate(b[1..], acc, negative) else None
      else if acc * 10 + d >= USIZE_LIMIT then None
      else Accumulate(b[1..], acc * 10 + d, negative)
  }

  function ParseUnsigned(b: bytes, negative: bool): Option<nat> {
    if b == [] || b[0] == UNDERSCORE || b[|b| - 1] == UNDERSCORE then None else Accumulate(b, 0, negative)
  }

  /** `std.fmt.parseInt(usize, b, 10)`, its two errors merged. */
  function ParseUsize(b: bytes): Option<nat> {
    if b == [] then None
    else if b[0] == '+' as int then ParseUnsigned(b[1..], false)
    else if b[0] == '-' as int then ParseUnsigned(b[1..], true)
    else ParseUnsigned(b, false)
  }

  lemma {:induction false} AccumulateDecimal(n: nat, rest: bytes)
    requires n < USIZE_LIMIT
    ensures Accumulate(Decimal(n) + rest, 0, false) == Accumulate(rest, n, false)
  {
    if n < 10 {
      assert (Decimal(n) + rest)[1..] == rest;
    } else {
      var last: bytes := [48 + n % 10];
      AccumulateDecimal(n / 10, last + rest);
      assert Decimal(n) + rest == Decimal(n / 10) + (last + rest);
      assert (last + rest)[1..] == rest;
    }
  }

  /** Parsing undoes printing. */
  lemma ParseDecimal(n: nat)
    requires n < USIZE_LIMIT
    ensures ParseUsize(Decimal(n)) == Some(n)
  {
    var d := Decimal(n);
    AccumulateDecimal(n, []);
    assert d + [] == d;
    assert IsDigit(d[0]) && IsDigit(d[|d| - 1]);
  }

  /** `{d:<width}`: the digits, then spaces up to `width`. */
  function LeftAligned(n: nat, width: nat): (field: bytes)
    requires |Decimal(n)| <= width
    ensures |field| == width
  {
    Decimal(n) + seq(width - |Decimal(n)|, _ => SPACE)
  }

  lemma TrimLeftAligned(n: nat, width: nat)
    requires |Decimal(n)| <= width
    ensures TrimEnd(LeftAligned(n, width)) == Decimal(n)
  {
    var d := Decimal(n);
    assert IsDigit(d[|d| - 1]);
    TrimEndUnique(LeftAligned(n, width), d);
  }

  // ---------------------------------------------------------------------
  // What the parser accepts

  function Pow10(d: nat): nat { if d == 0 then 1 else 10 * Pow10(d - 1) }

  /** The number decimal digits spell, each with the weight of its place. */
  ghost function Weighed(b: bytes): int {
    if b == [] then 0 else (b[0] as int - 48) * Pow10(|b| - 1) + Weighed(b[1..])
  }

  ghost predicate AllDigits(b: bytes) { forall i :: 0 <= i < |b| ==> 48 <= b[i] <= 57 }

  lemma {:induction false} AccumulateWeighs(b: bytes, acc: nat)
    requires AllDigits(b)
    ensures Weighed(b) >= 0
    ensures acc * Pow10(|b|) + Weighed(b) < USIZE_LIMIT ==> Accumulate(b, acc, false) == Some(acc * Pow10(|b|) + Weighed(b))
    ensures acc * Pow10(|b|) + Weighed(b) >= USIZE_LIMIT && acc < USIZE_LIMIT ==> Accumulate(b, acc, false) == None
  {
    hide Pow10;
    if b == [] {
      PowSteps(0);
    } else {
      var d := b[0] as int - 48;
      var p := Pow10(|b| - 1);
      PowSteps(|b| - 1);
      AccumulateWeighs(b[1..], acc * 10 + d);
      Distributes(acc, d, p);
      AtLeast(acc * 10 + d, p);
    }
  }

  lemma PowSteps(d: nat)
    ensures Pow10(0) == 1 && Pow10(d) >= 1 && Pow10(d + 1) == 10 * Pow10(d)
  {
    PowPositive(d);
  }

  lemma Distributes(acc: nat, d: nat, p: nat)
    ensures acc * (10 * p) + d * p == (acc * 10 + d) * p && d * p >= 0
  {}

  lemma PowPositive(d: nat)
    ensures Pow10(d) >= 1
  {}

  lemma AtLeast(x: nat, p: nat)
    requires p >= 1
    ensures x * p >= x
  {}

  /** Digits are read with their places' weights, also behind a `+`, unless the number needs
      more than 64 bits; an empty field or a foreign character is refused. */
  lemma ParsesDigits(b: bytes)
    requires AllDigits(b)
    ensures b == [] ==> ParseUsize(b) == None && ParseUsize([43] + b) == None
    ensures b != [] && Weighed(b) < USIZE_LIMIT ==> ParseUsize(b) == ParseUsize([43] + b) == Some(Weighed(b))
    ensures b != [] && Weighed(b) >= USIZE_LIMIT ==> ParseUsize(b) == ParseUsize([43] + b) == None
  {
    hide Accumulate;
    AccumulateWeighs(b, 0);
    assert ([43] + b)[1..] == b;
  }

  lemma {:induction false} ForeignRefused(b: bytes, acc: nat, i: nat)
    requires i < |b| && !(48 <= b[i] <= 57) && b[i] != 95
    ensures Accumulate(b, acc, false) == None
    decreases |b|
  {
    if i > 0 {
      if b[0] == UNDERSCORE {
        ForeignRefused(b[1..], acc, i - 1);
      } else if IsDigit(b[0]) {
        ForeignRefused(b[1..], acc * 10 + (b[0] - 48), i - 1);
      }
    }
  }
}
