/** Tag nesting over a token stream, and the cut that removes a DOCTYPE internal subset. */
module XmlTokens {
  import opened Bytes
  import opened Results

  datatype Token = StartTag | EndTag | ShortTag | EmptyTag | Other | EndOfFile

  /** +1 for a start tag, -1 for an end or short tag. */
  function Delta(t: Token): int {
    match t
    case StartTag => 1
    case EndTag => -1
    case ShortTag => -1
    case _ => 0
  }

  /** The depth after one token, which an unmatched end tag cannot take below zero. */
  function Next(depth: nat, t: Token): nat {
    if depth + Delta(t) < 0 then 0 else depth + Delta(t)
  }

  function Depth(ts: seq<Token>): nat {
    if ts == [] then 0 else Next(Depth(ts[..|ts| - 1]), ts[|ts| - 1])
  }

  /** Start tags minus end tags. */
  function Net(ts: seq<Token>): int {
    if ts == [] then 0 else Net(ts[..|ts| - 1]) + Delta(ts[|ts| - 1])
  }

  class UnclosedTagSink {
    var depth: nat
    var errors: nat
    // What was passed on to the tree builder.
    var forwarded: seq<Token>

    ghost predicate Valid()
      reads this
    {
      depth == Depth(forwarded)
    }

    constructor ()
      ensures Valid() && depth == 0 && errors == 0 && forwarded == []
    {
      depth, errors, forwarded := 0, 0, [];
    }

    method ProcessToken(t: Token)
      requires Valid()
      modifies this
      ensures Valid() && forwarded == old(forwarded) + [t]
      ensures errors == old(errors) + if t == EndOfFile && old(depth) > 0 then 1 else 0
      ensures depth == match t
        case StartTag => old(depth) + 1
        case EndTag => if old(depth) > 0 then old(depth) - 1 else 0
        case ShortTag => if old(depth) > 0 then old(depth) - 1 else 0
        case _ => old(depth)
    {
      hide Depth, Net;
      NetPush(forwarded, t);
      match t {
        case StartTag => depth := depth + 1;
        case EndTag | ShortTag => depth := if depth == 0 then 0 else depth - 1;
        case EmptyTag =>
        case EndOfFile =>
          if depth > 0 {
            errors := errors + 1;
          }
        case Other =>
      }
      forwarded := forwarded + [t];
    }
  }

  lemma NetPush(ts: seq<Token>, t: Token)
    ensures Net(ts + [t]) == Net(ts) + Delta(t) && Depth(ts + [t]) == Next(Depth(ts), t)
  {
    assert (ts + [t])[..|ts|] == ts;
  }

  /** The net counts start tags against end and short tags; nothing else weighs. */
  lemma {:induction false} NetCounts(ts: seq<Token>)
    ensures Net(ts) + multiset(ts)[EndTag] + multiset(ts)[ShortTag] == multiset(ts)[StartTag]
  {
    if ts != [] {
      var front := ts[..|ts| - 1];
      NetCounts(front);
      assert ts == front + [ts[|ts| - 1]];
    }
  }

  /** The depth is the largest surplus of start tags over all suffixes of the stream. */
  lemma {:induction false} DepthIsMaxSuffix(ts: seq<Token>)
    ensures forall i :: 0 <= i <= |ts| ==> Net(ts[i..]) <= Depth(ts)
    ensures exists i :: 0 <= i <= |ts| && Net(ts[i..]) == Depth(ts)
  {
    if ts == [] {
      assert Net(ts[0..]) == Depth(ts);
    } else {
      var front, t := ts[..|ts| - 1], ts[|ts| - 1];
      DepthIsMaxSuffix(front);
      forall i | 0 <= i <= |ts|
        ensures Net(ts[i..]) <= Depth(ts)
        ensures i < |ts| ==> Net(ts[i..]) == Net(front[i..]) + Delta(t)
      {
        if i < |ts| {
          assert ts[i..] == front[i..] + [t];
          NetPush(front[i..], t);
        } else {
          assert ts[i..] == [];
        }
      }
      if Depth(front) + Delta(t) < 0 {
        assert ts[|ts|..] == [] && Net(ts[|ts|..]) == Depth(ts);
      } else {
        var i :| 0 <= i <= |front| && Net(front[i..]) == Depth(front);
        assert Net(ts[i..]) == Depth(ts);
      }
    }
  }

  /** At end of file the error is reported exactly when some suffix of the stream opens
      more tags than it closes. */
  lemma ReportedIffSuffixOpen(ts: seq<Token>)
    ensures Depth(ts) > 0 <==> exists i :: 0 <= i <= |ts| && Net(ts[i..]) > 0
  {
    DepthIsMaxSuffix(ts);
    if Depth(ts) > 0 {
      var i :| 0 <= i <= |ts| && Net(ts[i..]) == Depth(ts);
    }
  }

  // ---------------------------------------------------------------------
  // Well-nested streams

  /** An element closes with its end tag or, when `short`, with `</>`. */
  datatype Tree = Element(children: seq<Tree>, short: bool) | Leaf(empty: bool)

  function Tokens(t: Tree): seq<Token> {
    match t
    case Leaf(empty) => [if empty then EmptyTag else Other]
    case Element(children, short) => [StartTag] + Forest(children) + [if short then ShortTag else EndTag]
  }

  function Forest(ts: seq<Tree>): seq<Token> {
    if ts == [] then [] else Tokens(ts[0]) + Forest(ts[1..])
  }

  /** Every prefix of a well-nested stream has closed no more than it opened, and the
      whole stream has closed all it opened. */
  ghost predicate Nested(ts: seq<Token>) {
    Net(ts) == 0 && forall i :: 0 <= i <= |ts| ==> Net(ts[..i]) >= 0
  }

  lemma {:induction false} NetConcat(x: seq<Token>, y: seq<Token>)
    ensures Net(x + y) == Net(x) + Net(y)
  {
    if y == [] {
      assert x + y == x;
    } else {
      var front := y[..|y| - 1];
      assert x + y == (x + front) + [y[|y| - 1]];
      NetPush(x + front, y[|y| - 1]);
      NetConcat(x, front);
    }
  }

  lemma NestedConcat(x: seq<Token>, y: seq<Token>)
    requires Nested(x) && Nested(y)
    ensures Nested(x + y)
  {
    hide Net;
    NetConcat(x, y);
    forall i | 0 <= i <= |x + y|
      ensures Net((x + y)[..i]) >= 0
    {
      if i <= |x| {
        assert (x + y)[..i] == x[..i];
      } else {
        assert (x + y)[..i] == x + y[..i - |x|];
        NetConcat(x, y[..i - |x|]);
      }
    }
  }

  lemma NestedWrapped(x: seq<Token>, close: Token)
    requires Nested(x) && (close == EndTag || close == ShortTag)
    ensures Nested([StartTag] + x + [close])
  {
    var ts := [StartTag] + x + [close];
    NetPush([], StartTag);
    assert [] + [StartTag] == [StartTag];
    hide Net;
    NetConcat([StartTag], x);
    NetPush([StartTag] + x, close);
    NetOfNothing();
    forall i | 0 <= i <= |ts|
      ensures Net(ts[..i]) >= 0
    {
      if i == 0 {
        assert ts[..i] == [];
      } else if i <= |x| + 1 {
        assert ts[..i] == [StartTag] + x[..i - 1];
        NetConcat([StartTag], x[..i - 1]);
      } else {
        assert ts[..i] == ts;
      }
    }
  }

  lemma NetOfNothing()
    ensures Net([]) == 0
  {}

  lemma {:induction false} TreeNested(t: Tree)
    ensures Nested(Tokens(t))
  {
    match t
    case Leaf(empty) =>
      var ts := Tokens(t);
      assert Net(ts[..0]) == 0 && ts[..1] == ts && Net([]) + Delta(ts[0]) == 0;
      assert ts == [] + [ts[0]];
      NetPush([], ts[0]);
    case Element(children, short) =>
      ForestNested(children);
      NestedWrapped(Forest(children), if short then ShortTag else EndTag);
  }

  lemma {:induction false} ForestNested(ts: seq<Tree>)
    ensures Nested(Forest(ts))
  {
    if ts == [] {
      NetOfNothing();
    } else {
      TreeNested(ts[0]);
      ForestNested(ts[1..]);
      NestedConcat(Tokens(ts[0]), Forest(ts[1..]));
    }
  }

  /** While nothing closes more than was opened the counter never saturates. */
  lemma {:induction false} NoSaturation(ts: seq<Token>)
    requires forall i :: 0 <= i <= |ts| ==> Net(ts[..i]) >= 0
    ensures Depth(ts) == Net(ts)
  {
    if ts != [] {
      var front := ts[..|ts| - 1];
      assert forall i :: 0 <= i <= |front| ==> front[..i] == ts[..i];
      NoSaturation(front);
      assert ts[..|ts|] == ts;
    }
  }

  /** A well-nested stream is never reported. */
  lemma NestedNotReported(ts: seq<Token>)
    requires Nested(ts)
    ensures Depth(ts) == 0
  {
    NoSaturation(ts);
  }

  /** Cutting a well-nested stream anywhere leaves the depth at the number of elements
      the cut leaves open, so the cut is reported exactly when there are any. */
  lemma CutReported(ts: seq<Token>, cut: nat)
    requires Nested(ts) && cut <= |ts|
    ensures Depth(ts[..cut]) == Net(ts[..cut])
  {
    hide Net, Depth;
    var part := ts[..cut];
    forall i | 0 <= i <= |part|
      ensures Net(part[..i]) >= 0
    {
      assert part[..i] == ts[..i];
    }
    NoSaturation(part);
  }

  /** Every document is well nested: complete it is not reported, truncated it is
      exactly when the cut leaves an element open. */
  lemma DocumentReported(ts: seq<Tree>, cut: nat)
    requires cut <= |Forest(ts)|
    ensures Depth(Forest(ts)) == 0
    ensures Depth(Forest(ts)[..cut]) > 0 <==> Net(Forest(ts)[..cut]) > 0
  {
    hide Net, Depth;
    ForestNested(ts);
    NestedNotReported(Forest(ts));
    CutReported(Forest(ts), cut);
  }

  // ---------------------------------------------------------------------
  // The internal subset

  const DOCTYPE := Ascii("<!DOCTYPE")
  const DOUBLE: byte := 34
  const SINGLE: byte := 39
  const OPEN: byte := 91
  const CLOSE: byte := 93
  const GREATER: byte := 62

  predicate DoctypeAt(b: bytes, d: nat) {
    d + 9 <= |b| && b[d..d + 9] == DOCTYPE
  }

  /** The quote that is open before position `i`, reading from `start`. */
  function QuoteAt(b: bytes, start: nat, i: nat): Option<byte>
    requires start <= i <= |b|
  {
    if i == start then None
    else
      var q := QuoteAt(b, start, i - 1);
      var c := b[i - 1];
      if q.Some? then if c == q.value then None else q
      else if c == DOUBLE || c == SINGLE then Some(c) else None
  }

  ghost predicate Bare(b: bytes, start: nat, i: nat, c: byte) {
    start <= i < |b| && b[i] == c && QuoteAt(b, start, i).None?
  }

  /** No bare `c` from `lo` up to `hi`. */
  ghost predicate NoneBare(b: bytes, start: nat, lo: nat, hi: nat, c: byte) {
    forall k: nat :: lo <= k < hi ==> !Bare(b, start, k, c)
  }

  /** The first doctype of the input stands at `d`. */
  ghost predicate FirstDoctype(b: bytes, d: nat) {
    DoctypeAt(b, d) && forall e: nat :: e < d ==> !DoctypeAt(b, e)
  }

  /** The bytes looked for: `<!DOCTYPE`, `[`, `]` and `>`. */
  lemma MarksSpelled()
    ensures DOCTYPE == [60, 33, 68, 79, 67, 84, 89, 80, 69]
    ensures OPEN == 91 && CLOSE == 93 && GREATER == 62
  {}

  /** A quote, double or single, stays open until the same byte comes again. */
  lemma QuoteRules(b: bytes, start: nat, i: nat)
    requires start <= i < |b|
    ensures QuoteAt(b, start, start) == None
    ensures var before, after := QuoteAt(b, start, i), QuoteAt(b, start, i + 1);
      && (before == None && (b[i] == 34 || b[i] == 39) ==> after == Some(b[i]))
      && (before == None && b[i] != 34 && b[i] != 39 ==> after == None)
      && (before.Some? && b[i] == before.value ==> after == None)
      && (before.Some? && b[i] != before.value ==> after == before)
  {}

  /** The doctype's internal subset runs from the bracket at `o` to the one at `c`: the
      first bare `[` before any bare `>`, and the first bare `]` behind it. */
  ghost predicate SubsetAt(b: bytes, d: nat, o: nat, c: nat) {
    && FirstDoctype(b, d)
    && OpensAt(b, d + 9, o)
    && o < c && Bare(b, d + 9, c, CLOSE) && NoneBare(b, d + 9, o + 1, c, CLOSE)
  }

  ghost predicate OpensAt(b: bytes, start: nat, o: nat) {
    Bare(b, start, o, OPEN) && NoneBare(b, start, start, o, OPEN) && NoneBare(b, start, start, o, GREATER)
  }

  /** At most one stretch of the input is the internal subset. */
  lemma SubsetUnique(b: bytes, d: nat, o: nat, c: nat, d': nat, o': nat, c': nat)
    requires SubsetAt(b, d, o, c) && SubsetAt(b, d', o', c')
    ensures d == d' && o == o' && c == c'
  {
    assert d <= d' && d' <= d;
    assert o <= o' && o' <= o;
  }

  /** Byte `c` stands at `i`, outside quotes. */
  ghost predicate Outside(b: bytes, start: nat, i: nat, c: byte) {
    start <= i < |b| && b[i] == c && QuoteAt(b, start, i) == None
  }

  ghost predicate NoneOutside(b: bytes, start: nat, lo: nat, hi: nat, c: byte) {
    forall k: nat :: lo <= k < hi ==> !Outside(b, start, k, c)
  }

  /** `<!DOCTYPE` stands at `d`. */
  ghost predicate MarkAt(b: bytes, d: nat) {
    d + 9 <= |b| && b[d..d + 9] == [60, 33, 68, 79, 67, 84, 89, 80, 69]
  }

  /** The subset behind the first `<!DOCTYPE` starts at the first `[` outside quotes, unless a
      `>` outside quotes comes first, and ends at the first `]` outside quotes behind it. */
  lemma SubsetRules(b: bytes, d: nat, o: nat, c: nat)
    ensures SubsetAt(b, d, o, c) <==>
      && MarkAt(b, d) && (forall e: nat :: e < d ==> !MarkAt(b, e))
      && Outside(b, d + 9, o, 91) && NoneOutside(b, d + 9, 0, o, 91) && NoneOutside(b, d + 9, 0, o, 62)
      && o < c && Outside(b, d + 9, c, 93) && NoneOutside(b, d + 9, o + 1, c, 93)
  {
    hide QuoteAt, DoctypeAt, MarkAt, Bare, Outside, NoneBare, NoneOutside;
    MarksSpelled();
    SameMark(b, d);
    forall e: nat | e < d
      ensures DoctypeAt(b, e) <==> MarkAt(b, e)
    {
      SameMark(b, e);
    }
    SameByte(b, d + 9, o, 91);
    SameByte(b, d + 9, c, 93);
    NoneAlike(b, d + 9, o, 91);
    NoneAlike(b, d + 9, o, 62);
    NoneBehind(b, d + 9, o + 1, c, 93);
  }

  lemma SameByte(b: bytes, start: nat, i: nat, c: byte)
    ensures Bare(b, start, i, c) <==> Outside(b, start, i, c)
  {}

  lemma NoneBehind(b: bytes, start: nat, lo: nat, hi: nat, c: byte)
    ensures NoneBare(b, start, lo, hi, c) <==> NoneOutside(b, start, lo, hi, c)
  {
    hide QuoteAt;
    if NoneBare(b, start, lo, hi, c) {
      forall k: nat | lo <= k < hi
        ensures !Outside(b, start, k, c)
      {
        assert !Bare(b, start, k, c);
      }
    }
    if NoneOutside(b, start, lo, hi, c) {
      forall k: nat | lo <= k < hi
        ensures !Bare(b, start, k, c)
      {
        assert !Outside(b, start, k, c);
      }
    }
  }

  lemma SameMark(b: bytes, e: nat)
    ensures DoctypeAt(b, e) <==> MarkAt(b, e)
  {
    MarksSpelled();
  }

  /** Before `start` nothing is outside quotes either way. */
  lemma NoneAlike(b: bytes, start: nat, hi: nat, c: byte)
    ensures NoneOutside(b, start, 0, hi, c) <==> NoneBare(b, start, start, hi, c)
  {
    hide QuoteAt;
    if NoneBare(b, start, start, hi, c) {
      forall k: nat | k < hi
        ensures !Outside(b, start, k, c)
      {
        assert start <= k ==> !Bare(b, start, k, c);
      }
    }
    if NoneOutside(b, start, 0, hi, c) {
      forall k: nat | start <= k < hi
        ensures !Bare(b, start, k, c)
      {
        assert !Outside(b, start, k, c);
      }
    }
  }

  /** Cuts out exactly the internal subset, and nothing when there is none. */
  method StripInternalSubset(b: bytes) returns (r: bytes)
    ensures forall d: nat, o: nat, c: nat :: SubsetAt(b, d, o, c) ==> r == b[..o] + b[c + 1..]
    ensures (forall d: nat, o: nat, c: nat :: !SubsetAt(b, d, o, c)) ==> r == b
  {
    hide QuoteAt, SubsetAt, OpensAt, Bare, NoneBare;
    var doctype := 0;
    while doctype + 9 <= |b| && b[doctype..doctype + 9] != DOCTYPE
      invariant forall e: nat :: e < doctype ==> !DoctypeAt(b, e)
    {
      doctype := doctype + 1;
    }
    if doctype + 9 > |b| {
      NoDoctype(b, doctype);
      return b;
    }
    var start := doctype + 9;
    var i := start;
    var quote: Option<byte> := None;
    var open: Option<nat> := None;
    assert FirstDoctype(b, doctype);
    hide DoctypeAt, FirstDoctype;
    NothingRead(b, start);
    while i < |b|
      invariant start <= i <= |b| && quote == QuoteAt(b, start, i)
      invariant open.Some? ==> open.value < i && OpensAt(b, start, open.value) && NoneBare(b, start, open.value + 1, i, CLOSE)
      invariant open.None? ==> NoneBare(b, start, start, i, OPEN) && NoneBare(b, start, start, i, GREATER)
    {
      var c := b[i];
      OneRead(b, start, i, open);
      if quote.Some? {
        if c == quote.value {
          quote := None;
        }
      } else if c == DOUBLE || c == SINGLE {
        quote := Some(c);
      } else if c == GREATER && open.None? {
        EndsFirst(b, doctype, i);
        return b;
      } else if c == OPEN && open.None? {
        open := Some(i);
      } else if c == CLOSE && open.Some? {
        IsSubset(b, doctype, open.value, i);
        return b[..open.value] + b[i + 1..];
      }
      i := i + 1;
    }
    NeverEnds(b, doctype, open);
    return b;
  }

  lemma NoDoctype(b: bytes, end: nat)
    requires end + 9 > |b| && forall e: nat :: e < end ==> !DoctypeAt(b, e)
    ensures forall d: nat, o: nat, c: nat :: !SubsetAt(b, d, o, c)
  {}

  lemma NothingRead(b: bytes, start: nat)
    requires start <= |b|
    ensures QuoteAt(b, start, start) == None
    ensures NoneBare(b, start, start, start, OPEN) && NoneBare(b, start, start, start, GREATER)
  {}

  /** What one more byte does to the loop's facts. */
  lemma OneRead(b: bytes, start: nat, i: nat, open: Option<nat>)
    requires start <= i < |b|
    ensures var q, c := QuoteAt(b, start, i), b[i];
      && QuoteAt(b, start, i + 1) ==
           (if q.Some? then (if c == q.value then None else q) else if c == DOUBLE || c == SINGLE then Some(c) else None)
      && (NoneBare(b, start, start, i, OPEN) && !(q.None? && c == OPEN) ==> NoneBare(b, start, start, i + 1, OPEN))
      && (NoneBare(b, start, start, i, GREATER) && !(q.None? && c == GREATER) ==> NoneBare(b, start, start, i + 1, GREATER))
      && (open.Some? && open.value < i && NoneBare(b, start, open.value + 1, i, CLOSE) && !(q.None? && c == CLOSE) ==>
            NoneBare(b, start, open.value + 1, i + 1, CLOSE))
      && (q.None? && c == OPEN && NoneBare(b, start, start, i, OPEN) && NoneBare(b, start, start, i, GREATER) ==>
            OpensAt(b, start, i) && NoneBare(b, start, i + 1, i + 1, CLOSE))
      && (q.None? && (c == GREATER || c == CLOSE) ==> Bare(b, start, i, c))
  {}

  lemma EndsFirst(b: bytes, d: nat, i: nat)
    requires FirstDoctype(b, d) && Bare(b, d + 9, i, GREATER) && NoneBare(b, d + 9, d + 9, i, OPEN)
    ensures forall x: nat, o: nat, c: nat :: !SubsetAt(b, x, o, c)
  {
    hide QuoteAt;
  }

  lemma IsSubset(b: bytes, d: nat, o: nat, c: nat)
    requires FirstDoctype(b, d) && OpensAt(b, d + 9, o) && o < c
    requires Bare(b, d + 9, c, CLOSE) && NoneBare(b, d + 9, o + 1, c, CLOSE)
    ensures SubsetAt(b, d, o, c)
    ensures forall x: nat, y: nat, z: nat :: SubsetAt(b, x, y, z) ==> y == o && z == c
  {
    hide QuoteAt, Bare, NoneBare, OpensAt, FirstDoctype;
    assert SubsetAt(b, d, o, c);
    hide SubsetAt;
    forall x: nat, y: nat, z: nat | SubsetAt(b, x, y, z)
      ensures y == o && z == c
    {
      SubsetUnique(b, x, y, z, d, o, c);
    }
  }

  lemma NeverEnds(b: bytes, d: nat, open: Option<nat>)
    requires FirstDoctype(b, d)
    requires open.Some? ==> OpensAt(b, d + 9, open.value) && NoneBare(b, d + 9, open.value + 1, |b|, CLOSE)
    requires open.None? ==> NoneBare(b, d + 9, d + 9, |b|, OPEN)
    ensures forall x: nat, o: nat, c: nat :: !SubsetAt(b, x, o, c)
  {
    hide QuoteAt;
  }
}
