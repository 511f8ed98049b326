/** Percent-encoding a query after encoding it, with numeric character references for
    what the encoding cannot represent (section 1.3 of the URL Standard). */
module QueryEncoding {
  import opened Bytes
  import opened Decimals
  import opened Results

  /** What an encoder does with one character: the bytes it puts out, its next state, and
      whether the character could be mapped. An unmappable character can still put out
      bytes, as an encoder that must return to its initial state does. */
  datatype Step<S> = Step(out: bytes, next: S, mapped: bool)

  /** A character-wise encoder; `finish` is what it appends at the end of the input. */
  datatype Encoder<!S> = Encoder(start: S, step: (S, char) -> Step<S>, finish: S -> bytes)

  // ---------------------------------------------------------------------
  // The encoder calls the code makes

  /** Stops behind the first unmappable character, or at the end of the input. */
  datatype Stop = InputEmpty | Unmappable(c: char)
  datatype Chunk<S> = Chunk(stop: Stop, read: nat, written: bytes, state: S)

  function EncodeWithoutReplacement<S>(e: Encoder<S>, st: S, s: string): (r: Chunk<S>)
    ensures r.read <= |s|
    ensures r.stop.InputEmpty? ==> r.read == |s|
    ensures r.stop.Unmappable? ==> r.read > 0 && s[r.read - 1] == r.stop.c
  {
    if s == "" then Chunk(InputEmpty, 0, e.finish(st), st)
    else
      var x := e.step(st, s[0]);
      if !x.mapped then Chunk(Unmappable(s[0]), 1, x.out, x.next)
      else
        var rest := EncodeWithoutReplacement(e, x.next, s[1..]);
        rest.(read := rest.read + 1, written := x.out + rest.written)
  }

  predicate Mappable<S>(e: Encoder<S>, st: S, s: string) {
    s == "" || (e.step(st, s[0]).mapped && Mappable(e, e.step(st, s[0]).next, s[1..]))
  }

  /** `Encoding::encode`: the bytes of a fully mappable input, and whether it was one. */
  function EncodeAll<S>(e: Encoder<S>, st: S, s: string): bytes {
    if s == "" then e.finish(st) else e.step(st, s[0]).out + EncodeAll(e, e.step(st, s[0]).next, s[1..])
  }

  // ---------------------------------------------------------------------

  const NCR_OPEN := Ascii("%26%23")
  const NCR_CLOSE := Ascii("%3B")

  /** `&#<code point>;`, percent-encoded. */
  function Reference(c: char): bytes {
    NCR_OPEN + Decimal(c as int) + NCR_CLOSE
  }

  /** What each character contributes. */
  function Expected<S>(e: Encoder<S>, st: S, s: string): bytes {
    if s == "" then e.finish(st)
    else
      var x := e.step(st, s[0]);
      x.out + (if x.mapped then [] else Reference(s[0])) + Expected(e, x.next, s[1..])
  }

  /** One call of the loop takes the input up to the first unmappable character. */
  lemma {:induction false} ChunkIsPrefix<S>(e: Encoder<S>, st: S, s: string)
    ensures var r := EncodeWithoutReplacement(e, st, s);
      Expected(e, st, s) == r.written + match r.stop
        case InputEmpty => []
        case Unmappable(c) => Reference(c) + Expected(e, r.state, s[r.read..])
    decreases |s|
  {
    hide Reference;
    var r := EncodeWithoutReplacement(e, st, s);
    if s == "" {
      assert e.finish(st) + [] == e.finish(st);
    } else {
      var x := e.step(st, s[0]);
      if x.mapped {
        var rest := EncodeWithoutReplacement(e, x.next, s[1..]);
        ChunkIsPrefix(e, x.next, s[1..]);
        assert s[r.read..] == s[1..][rest.read..];
        assert x.out + [] == x.out;
        if rest.stop.Unmappable? {
          var more := Reference(rest.stop.c) + Expected(e, rest.state, s[r.read..]);
          assert x.out + (rest.written + more) == (x.out + rest.written) + more;
        } else {
          assert rest.written + [] == rest.written;
          assert r.written + [] == r.written;
        }
      } else {
        assert s[1..] == s[r.read..];
        assert x.out + Reference(s[0]) + Expected(e, x.next, s[1..]) == x.out + (Reference(s[0]) + Expected(e, x.next, s[1..]));
      }
    }
  }

  /** The fast path and the loop agree on input that maps completely. */
  lemma {:induction false} FastPathAgrees<S>(e: Encoder<S>, st: S, s: string)
    requires Mappable(e, st, s)
    ensures EncodeAll(e, st, s) == Expected(e, st, s)
    decreases |s|
  {
    if s != "" {
      FastPathAgrees(e, e.step(st, s[0]).next, s[1..]);
      assert e.step(st, s[0]).out + [] == e.step(st, s[0]).out;
    }
  }

  /** The retry loop: terminates, and yields each character's bytes or its reference. */
  method EncodeQueryNcr<S>(e: Encoder<S>, s: string) returns (result: bytes)
    ensures result == Expected(e, e.start, s)
  {
    if Mappable(e, e.start, s) {
      FastPathAgrees(e, e.start, s);
      return EncodeAll(e, e.start, s);
    }
    hide Expected, EncodeWithoutReplacement, Reference;
    var state := e.start;
    var input := s;
    result := [];
    while true
      invariant Expected(e, e.start, s) == result + Expected(e, state, input)
      decreases |input|
    {
      ChunkIsPrefix(e, state, input);
      var r := EncodeWithoutReplacement(e, state, input);
      Appended(result, r.written, match r.stop case InputEmpty => [] case Unmappable(c) => Reference(c),
               if r.stop.InputEmpty? then [] else Expected(e, r.state, input[r.read..]));
      result := result + r.written;
      input := input[r.read..];
      state := r.state;
      match r.stop {
        case InputEmpty => return;
        case Unmappable(c) => result := result + Reference(c);
      }
    }
  }

  lemma Appended(result: bytes, written: bytes, reference: bytes, rest: bytes)
    ensures result + (written + (reference + rest)) == (result + written + reference) + rest
    ensures reference == [] && rest == [] ==> result + (written + []) == result + written
  {}

  // ---------------------------------------------------------------------
  // What the result says

  /** An encoder without state that maps characters one by one. */
  function CharWise(table: char -> Option<bytes>): Encoder<()> {
    Encoder((), (_, c) => match table(c) case Some(b) => Step(b, (), true) case None => Step([], (), false), _ => [])
  }

  function Unit(table: char -> Option<bytes>, c: char): bytes {
    match table(c)
    case Some(b) => b
    case None => Reference(c)
  }

  /** Without state every stretch of the query is encoded on its own. */
  lemma {:induction false} CharWiseConcat(table: char -> Option<bytes>, x: string, y: string)
    ensures Expected(CharWise(table), (), x + y) == Expected(CharWise(table), (), x) + Expected(CharWise(table), (), y)
    decreases |x|
  {
    hide Reference;
    if x == "" {
      assert x + y == y;
    } else {
      assert (x + y)[1..] == x[1..] + y && (x + y)[0] == x[0];
      CharWiseConcat(table, x[1..], y);
      var e := CharWise(table);
      var unit := e.step((), x[0]).out + if e.step((), x[0]).mapped then [] else Reference(x[0]);
      assert unit + (Expected(e, (), x[1..]) + Expected(e, (), y)) == (unit + Expected(e, (), x[1..])) + Expected(e, (), y);
    }
  }

  /** A single character becomes its bytes or its reference. */
  lemma CharWiseUnit(table: char -> Option<bytes>, c: char)
    ensures Expected(CharWise(table), (), [c]) == Unit(table, c)
  {
    hide Reference;
    var e := CharWise(table);
    assert [c][1..] == [];
    assert Expected(e, (), []) == [];
    var x := e.step((), c);
    assert x.out + (if x.mapped then [] else Reference(c)) + [] == Unit(table, c);
  }

  /** Every character's own bytes or reference, one behind the other. */
  function Units(table: char -> Option<bytes>, s: string): bytes {
    if s == "" then [] else Unit(table, s[0]) + Units(table, s[1..])
  }

  /** The closed form for an encoder without state. */
  lemma {:induction false} CharWiseForm(table: char -> Option<bytes>, s: string)
    ensures Expected(CharWise(table), (), s) == Units(table, s)
    decreases |s|
  {
    hide Expected, Unit;
    if s == "" {
      NothingLeft(table);
    } else {
      assert s == [s[0]] + s[1..];
      CharWiseConcat(table, [s[0]], s[1..]);
      CharWiseUnit(table, s[0]);
      CharWiseForm(table, s[1..]);
    }
  }

  lemma NothingLeft(table: char -> Option<bytes>)
    ensures Expected(CharWise(table), (), "") == []
  {}

  /** A reference is `%26%23`, decimal digits without a leading zero, and `%3B`. */
  lemma ReferenceSpelled(c: char)
    ensures var r := Reference(c);
      && |r| >= 10 && r[..6] == [37, 50, 54, 37, 50, 51] && r[|r| - 3..] == [37, 51, 66]
      && (forall i :: 6 <= i < |r| - 3 ==> 48 <= r[i] <= 57)
      && (|r| > 10 ==> r[6] != 48)
  {
    hide Decimal;
    NoLeadingZero(c as int);
    var r := Reference(c);
    assert NCR_OPEN == [37, 50, 54, 37, 50, 51] && NCR_CLOSE == [37, 51, 66];
    assert r[..6] == NCR_OPEN && r[|r| - 3..] == NCR_CLOSE && r[6..|r| - 3] == Decimal(c as int);
    forall i | 6 <= i < |r| - 3
      ensures r[i] == Decimal(c as int)[i - 6]
    {}
  }

  lemma {:induction false} NoLeadingZero(n: nat)
    ensures |Decimal(n)| > 1 ==> Decimal(n)[0] != 48
    ensures n > 0 ==> Decimal(n)[0] != 48
  {
    if n >= 10 {
      NoLeadingZero(n / 10);
    }
  }

  /** One character with an encoder that has state: its bytes, the reference if it could not
      be mapped, then the rest from the state it leaves; at the end the closing bytes. */
  lemma ExpectedStep<S>(e: Encoder<S>, st: S, c: char, s: string)
    ensures Expected(e, st, []) == e.finish(st)
    ensures e.step(st, c).mapped ==> Expected(e, st, [c] + s) == e.step(st, c).out + Expected(e, e.step(st, c).next, s)
    ensures !e.step(st, c).mapped ==> Expected(e, st, [c] + s) == e.step(st, c).out + Reference(c) + Expected(e, e.step(st, c).next, s)
  {
    hide Reference;
    assert ([c] + s)[1..] == s;
    assert e.step(st, c).out + [] == e.step(st, c).out;
  }

  /** A reference names exactly one character: the digits between its ends spell it. */
  lemma ReferenceNames(c: char)
    ensures var r := Reference(c);
      && NCR_OPEN <= r && r[|r| - 3..] == NCR_CLOSE
      && ParseUsize(r[6..|r| - 3]) == Some(c as int)
  {
    var r := Reference(c);
    assert r[6..|r| - 3] == Decimal(c as int);
    ParseDecimal(c as int);
  }
}
