/** The streaming encoder: any slicing of the input gives the one-shot encoding. */
module Base64Writer {
  import opened Base64
  import opened Bytes
  import opened Results

  /** The writer behind the encoder; a write can fail after taking any part of its data. */
  class Sink {
    var written: bytes

    constructor ()
      ensures written == []
    {
      written := [];
    }

    method WriteAll(s: bytes) returns (ok: bool)
      modifies this
      ensures ok ==> written == old(written) + s
      ensures !ok ==> old(written) <= written <= old(written) + s
    {
      if * {
        written := written + s;
        return true;
      }
      var taken: nat :| taken <= |s|;
      written := written + s[..taken];
      return false;
    }
  }

  class Base64Writer {
    const inner: Sink
    const codec: Codec
    const pending: array<byte>
    var pendingLen: nat
    ghost var start: bytes
    ghost var fed: bytes

    /** Whole groups of what was fed are encoded behind `start`, the rest is pending. */
    ghost predicate Valid()
      reads this, inner, pending
    {
      && pending.Length == 3 && pendingLen < 3 && pendingLen <= |fed|
      && (|fed| - pendingLen) % 3 == 0
      && pending[..pendingLen] == fed[|fed| - pendingLen..]
      && inner.written == start + Encode(codec, fed[..|fed| - pendingLen])
    }

    constructor (inner: Sink, codec: Codec)
      ensures Valid() && fed == [] && start == inner.written && fresh(pending)
      ensures this.inner == inner && this.codec == codec
    {
      this.inner, this.codec := inner, codec;
      pending := new byte[3];
      pendingLen, start, fed := 0, inner.written, [];
    }

    /** `codec.encode(&buffer, s)` for a stack buffer of `capacity` bytes. */
    method EncodeInto(capacity: nat, s: bytes) returns (e: bytes)
      requires (|s| + 2) / 3 * 4 <= capacity
      ensures e == Encode(codec, s) && |e| <= capacity
    {
      EncodedLength(codec, s);
      e := Encode(codec, s);
    }

    /** Takes all of `s`; on failure what reached the sink is a prefix of the encoding. */
    method Feed(s: bytes) returns (ok: bool)
      requires Valid()
      modifies this`pendingLen, this`fed, pending, inner
      ensures start == old(start)
      ensures ok ==> Valid() && fed == old(fed) + s
      ensures !ok ==> inner.written <= start + Encode(codec, Whole(old(fed) + s))
    {
      hide Encode, Whole;
      var src := s;
      if pendingLen > 0 {
        ghost var kept := fed[..|fed| - pendingLen];
        assert fed == kept + pending[..pendingLen];
        src := TopUp(s);
        if pendingLen < 3 {
          return true;
        }
        assert old(fed) + s == kept + (pending[..] + src);
        ok := FlushGroup(kept, src);
        if !ok {
          return;
        }
        assert fed + src == old(fed) + s;
      }
      ok := FeedGroups(src);
    }

    /** Writes the completed group; `kept` is what was written before it, `rest` what follows. */
    method FlushGroup(ghost kept: bytes, ghost rest: bytes) returns (ok: bool)
      requires pending.Length == pendingLen == 3 && |kept| % 3 == 0 && inner.written == start + Encode(codec, kept)
      modifies this`pendingLen, this`fed, inner
      ensures start == old(start)
      ensures ok ==> Valid() && pendingLen == 0 && fed == kept + pending[..]
      ensures !ok ==> inner.written <= start + Encode(codec, Whole(kept + (pending[..] + rest)))
    {
      hide Encode, Whole;
      ghost var before := inner.written;
      var group := EncodeInto(4, pending[..]);
      ok := inner.WriteAll(group);
      GroupCompleted(codec, start, kept, pending[..], rest, before, kept + (pending[..] + rest));
      if ok {
        pendingLen := 0;
        fed := kept + pending[..];
        assert fed[..|fed|] == fed;
      }
    }

    /** The byte-by-byte loop that completes a pending group; returns what is left of `s`. */
    method TopUp(s: bytes) returns (src: bytes)
      requires Valid() && pendingLen > 0
      modifies this`pendingLen, this`fed, pending
      ensures start == old(start) && inner.written == old(inner.written)
      ensures old(pendingLen) <= pendingLen <= 3 && |src| <= |s| && src == s[|s| - |src|..]
      ensures pending[..pendingLen] == old(pending[..pendingLen]) + s[..|s| - |src|]
      ensures pendingLen < 3 ==> src == [] && Valid() && fed == old(fed) + s
      ensures pendingLen == 3 ==> fed == old(fed)
    {
      hide Encode;
      src := s;
      while pendingLen < 3 && |src| > 0
        invariant old(pendingLen) <= pendingLen <= 3 && |src| <= |s| && src == s[|s| - |src|..]
        invariant pending[..pendingLen] == old(pending[..pendingLen]) + s[..|s| - |src|]
        invariant fed == old(fed)
        decreases |src|
      {
        ghost var before := pending[..pendingLen];
        ghost var done := |s| - |src|;
        assert src[0] == s[done] && s[..done + 1] == s[..done] + [s[done]];
        pending[pendingLen] := src[0];
        pendingLen := pendingLen + 1;
        assert pending[..pendingLen] == before + [src[0]];
        src := src[1..];
      }
      if pendingLen < 3 {
        assert s[..|s| - |src|] == s;
        StillPending(fed, old(pendingLen), s);
        fed := fed + s;
      }
    }

    /** The bulk loop through a 4096-byte buffer, then the remainder. */
    method FeedGroups(src: bytes) returns (ok: bool)
      requires Valid() && pendingLen == 0
      modifies this`pendingLen, this`fed, pending, inner
      ensures start == old(start)
      ensures ok ==> Valid() && fed == old(fed) + src
      ensures !ok ==> inner.written <= start + Encode(codec, Whole(old(fed) + src))
    {
      hide Encode, Whole;
      ghost var was := fed;
      assert was[..|was|] == was;
      var full := |src| - |src| % 3;
      var inStep := 4096 / 4 * 3;
      var i := 0;
      assert was + src[..0] == was;
      while i < full
        invariant 0 <= i <= full && i % 3 == 0
        invariant inner.written == start + Encode(codec, was + src[..i])
        invariant pendingLen == 0 && fed == was
      {
        var n := if inStep < full - i then inStep else full - i;
        var e := EncodeInto(4096, src[i..i + n]);
        ghost var before := inner.written;
        ok := inner.WriteAll(e);
        NextGroups(codec, start, was, src, i, i + n, before);
        if !ok {
          return;
        }
        i := i + n;
      }
      Carry(src, full);
      return true;
    }

    /** The remainder waits for the next write. */
    method Carry(src: bytes, full: nat)
      requires pending.Length == 3 && full <= |src| < full + 3 && (|fed| + full) % 3 == 0
      requires inner.written == start + Encode(codec, fed + src[..full])
      modifies this`pendingLen, this`fed, pending
      ensures start == old(start) && Valid() && fed == old(fed) + src
    {
      hide Encode;
      var rem := src[full..];
      forall k | 0 <= k < |rem| {
        pending[k] := rem[k];
      }
      pendingLen := |rem|;
      ghost var was := fed;
      fed := was + src;
      assert pending[..pendingLen] == rem == fed[|fed| - pendingLen..];
      assert fed[..|fed| - pendingLen] == was + src[..full];
    }

    /** Encodes what is left, padded per codec. Call once, after the last write. */
    method Finish() returns (ok: bool)
      requires Valid()
      modifies this`pendingLen, inner
      ensures ok ==> inner.written == start + Encode(codec, fed) && pendingLen == 0
      ensures !ok ==> inner.written <= start + Encode(codec, fed)
    {
      hide Encode;
      ghost var whole := fed[..|fed| - pendingLen];
      assert fed == whole + pending[..pendingLen];
      EncodeConcat(codec, whole, pending[..pendingLen]);
      if pendingLen == 0 {
        assert whole == fed;
        return true;
      }
      ghost var before := inner.written;
      var group := EncodeInto(4, pending[..pendingLen]);
      ok := inner.WriteAll(group);
      assert start + Encode(codec, fed) == before + group;
      if ok {
        pendingLen := 0;
      }
    }

    /** The vectored write: each slice once, the last one `splat` times. */
    method Drain(data: seq<bytes>, splat: nat) returns (ok: bool, total: nat)
      requires Valid() && |data| > 0
      modifies this`pendingLen, this`fed, pending, inner
      ensures start == old(start)
      ensures ok ==> Valid() && fed == old(fed) + Flat(data, splat) && total == |Flat(data, splat)|
      ensures !ok ==> inner.written <= start + Encode(codec, Whole(old(fed) + Flat(data, splat)))
    {
      hide Encode, Whole, Concat, Repeat;
      total := 0;
      ghost var all := old(fed) + Flat(data, splat);
      var last := |data| - 1;
      SlicesLeft(data, 0, splat);
      for k := 0 to last
        invariant Valid() && start == old(start) && all == fed + Rest(data, k, splat)
        invariant |fed| == |old(fed)| + total
      {
        SlicesLeft(data, k, splat);
        MoreToCome(codec, fed, data[k], Rest(data, k + 1, splat));
        ok := Feed(data[k]);
        if !ok {
          return;
        }
        total := total + |data[k]|;
      }
      var pattern := data[last];
      SlicesLeft(data, last, splat);
      for j := 0 to splat
        invariant Valid() && start == old(start) && all == fed + Repeat(pattern, splat - j)
        invariant |fed| == |old(fed)| + total
      {
        RepeatUnfolds(pattern, splat - j);
        MoreToCome(codec, fed, pattern, Repeat(pattern, splat - j - 1));
        ok := Feed(pattern);
        if !ok {
          return;
        }
        total := total + |pattern|;
      }
      RepeatUnfolds(pattern, 0);
      ok := true;
    }
  }

  /** Adding to the carry only adds to what was fed. */
  lemma StillPending(was: bytes, carried: nat, s: bytes)
    requires carried <= |was|
    ensures (was + s)[..|was| - carried] == was[..|was| - carried]
    ensures (was + s)[|was| - carried..] == was[|was| - carried..] + s
  {}

  /** What a drain has still to take when it reaches slice `k`. */
  ghost function Rest(data: seq<bytes>, k: nat, splat: nat): bytes
    requires k < |data|
  {
    Concat(data[k..|data| - 1]) + Repeat(data[|data| - 1], splat)
  }

  lemma SlicesLeft(data: seq<bytes>, k: nat, splat: nat)
    requires k < |data|
    ensures k == 0 ==> Rest(data, k, splat) == Flat(data, splat)
    ensures k == |data| - 1 ==> Rest(data, k, splat) == Repeat(data[|data| - 1], splat)
    ensures k < |data| - 1 ==> Rest(data, k, splat) == data[k] + Rest(data, k + 1, splat)
  {
    hide Repeat;
    var slices := data[k..|data| - 1];
    if k == 0 {
      assert slices == data[..|data| - 1];
    }
    if k < |data| - 1 {
      assert slices[1..] == data[k + 1..|data| - 1];
      assert data[k] + Concat(slices[1..]) + Repeat(data[|data| - 1], splat)
          == data[k] + (Concat(slices[1..]) + Repeat(data[|data| - 1], splat));
    }
  }

  lemma RepeatUnfolds(s: bytes, n: nat)
    ensures n == 0 ==> Repeat(s, n) == []
    ensures n > 0 ==> Repeat(s, n) == s + Repeat(s, n - 1)
  {}

  lemma MoreToCome(c: Codec, fed: bytes, slice: bytes, rest: bytes)
    ensures fed + (slice + rest) == (fed + slice) + rest
    ensures Encode(c, Whole(fed + slice)) <= Encode(c, Whole(fed + (slice + rest)))
  {
    assert fed + (slice + rest) == (fed + slice) + rest;
    WholeGrows(c, fed + slice, rest);
  }

  /** Encoding one more run of whole groups extends both what was written and what the
      whole input will encode to. */
  lemma GroupsAppended(c: Codec, start: bytes, done: bytes, groups: bytes, src: bytes, written: bytes)
    requires |done| % 3 == 0 && |groups| % 3 == 0 && written == start + Encode(c, done)
    ensures written + Encode(c, groups) == start + Encode(c, done + groups)
    ensures written + Encode(c, groups) <= start + Encode(c, Whole((done + groups) + src))
  {
    hide Encode, Whole;
    EncodeConcat(c, done, groups);
    WholeGrows(c, done + groups, src);
    Extends(written, start, Encode(c, done), Encode(c, groups), Encode(c, Whole((done + groups) + src)));
  }

  lemma Extends(written: bytes, start: bytes, x: bytes, y: bytes, all: bytes)
    requires written == start + x && x + y <= all
    ensures written + y == start + (x + y) <= start + all
  {}

  /** A completed group extends what was written for the whole groups before it. */
  lemma GroupCompleted(c: Codec, start: bytes, kept: bytes, group: bytes, src: bytes, written: bytes, all: bytes)
    requires |kept| % 3 == 0 && |group| == 3 && written == start + Encode(c, kept)
    requires all == kept + (group + src)
    ensures written + Encode(c, group) == start + Encode(c, kept + group)
    ensures written + Encode(c, group) <= start + Encode(c, Whole(all))
  {
    hide Encode, Whole;
    GroupsAppended(c, start, kept, group, src, written);
    assert all == (kept + group) + src;
  }

  /** The encoding of `src[lo..hi]` extends what was written for `was + src[..lo]`. */
  lemma NextGroups(c: Codec, start: bytes, was: bytes, src: bytes, lo: nat, hi: nat, written: bytes)
    requires |was| % 3 == 0 && lo % 3 == 0 && hi % 3 == 0 && lo <= hi <= |src|
    requires written == start + Encode(c, was + src[..lo])
    ensures written + Encode(c, src[lo..hi]) == start + Encode(c, was + src[..hi])
    ensures written + Encode(c, src[lo..hi]) <= start + Encode(c, Whole(was + src))
  {
    hide *;
    var done, groups, rest := was + src[..lo], src[lo..hi], src[hi..];
    WholeGroups(|was|, lo, hi);
    GroupsAppended(c, start, done, groups, rest, written);
    SplitAt(was, src, lo, hi);
  }

  lemma WholeGroups(fed: nat, lo: nat, hi: nat)
    requires fed % 3 == 0 && lo % 3 == 0 && hi % 3 == 0 && lo <= hi
    ensures (fed + lo) % 3 == 0 && (hi - lo) % 3 == 0
  {}

  lemma SplitAt(was: bytes, src: bytes, lo: nat, hi: nat)
    requires lo <= hi <= |src|
    ensures (was + src[..lo]) + src[lo..hi] == was + src[..hi]
    ensures (was + src[..lo]) + src[lo..hi] + src[hi..] == was + src
  {}

  function Concat(data: seq<bytes>): bytes {
    if data == [] then [] else data[0] + Concat(data[1..])
  }

  function Repeat(s: bytes, n: nat): bytes {
    if n == 0 then [] else s + Repeat(s, n - 1)
  }

  /** The bytes one drain consumes. */
  function Flat(data: seq<bytes>, splat: nat): bytes
    requires |data| > 0
  {
    Concat(data[..|data| - 1]) + Repeat(data[|data| - 1], splat)
  }

  /** The part of the input whose groups are complete. */
  function Whole(s: bytes): bytes { s[..|s| - |s| % 3] }

  /** Feeding more only extends what complete groups encode to. */
  lemma WholeGrows(c: Codec, a: bytes, b: bytes)
    ensures Encode(c, Whole(a)) <= Encode(c, Whole(a + b))
    ensures |a| % 3 == 0 ==> Whole(a) == a
  {
    var x, y := Whole(a), Whole(a + b);
    assert y[..|x|] == x;
    assert y == x + y[|x|..];
    EncodeConcat(c, x, y[|x|..]);
  }

  /** One drain call: its slices and how often the last is repeated. */
  datatype Call = Call(data: seq<bytes>, splat: nat)

  /** All the bytes a run of calls hands over. */
  function Input(calls: seq<Call>): bytes
    requires forall i :: 0 <= i < |calls| ==> |calls[i].data| > 0
  {
    if calls == [] then [] else Flat(calls[0].data, calls[0].splat) + Input(calls[1..])
  }

  /** Any run of drains followed by `Finish` puts the one-shot encoding of everything
      handed over behind what the sink held, and that encoding decodes to the input. */
  method EncodeThrough(sink: Sink, c: Codec, calls: seq<Call>) returns (ok: bool)
    requires forall i :: 0 <= i < |calls| ==> |calls[i].data| > 0
    modifies sink
    ensures ok ==> sink.written == old(sink.written) + Encode(c, Input(calls))
    ensures ok ==> Decode(c, sink.written[|old(sink.written)|..]) == Some(Input(calls))
    ensures !ok ==> sink.written <= old(sink.written) + Encode(c, Input(calls))
  {
    hide *;
    var b64 := new Base64Writer(sink, c);
    NothingFed(calls);
    for k := 0 to |calls|
      invariant b64.Valid() && b64.start == old(sink.written) && fresh(b64.pending)
      invariant Input(calls) == b64.fed + Input(calls[k..])
    {
      CallsLeft(calls, k);
      MoreToCome(c, b64.fed, Flat(calls[k].data, calls[k].splat), Input(calls[k + 1..]));
      WholeIsPrefix(c, Input(calls));
      var n;
      ok, n := b64.Drain(calls[k].data, calls[k].splat);
      if !ok {
        Prefixes(sink.written, old(sink.written), Encode(c, Whole(Input(calls))), Encode(c, Input(calls)));
        return;
      }
    }
    NothingLeft(b64.fed, calls);
    DecodesBehind(c, old(sink.written), Input(calls));
    ok := b64.Finish();
  }

  lemma DecodesBehind(c: Codec, start: bytes, input: bytes)
    ensures Decode(c, (start + Encode(c, input))[|start|..]) == Some(input)
  {
    hide Decode, Encode;
    DecodesEncoding(c, input);
    assert (start + Encode(c, input))[|start|..] == Encode(c, input);
  }

  lemma NothingFed(calls: seq<Call>)
    requires forall i :: 0 <= i < |calls| ==> |calls[i].data| > 0
    ensures [] + Input(calls[0..]) == Input(calls)
  {
    assert calls[0..] == calls;
  }

  lemma CallsLeft(calls: seq<Call>, k: nat)
    requires k < |calls| && forall i :: 0 <= i < |calls| ==> |calls[i].data| > 0
    ensures Input(calls[k..]) == Flat(calls[k].data, calls[k].splat) + Input(calls[k + 1..])
  {
    assert calls[k..][1..] == calls[k + 1..];
  }

  lemma NothingLeft(fed: bytes, calls: seq<Call>)
    requires forall i :: 0 <= i < |calls| ==> |calls[i].data| > 0
    ensures fed + Input(calls[|calls|..]) == fed
  {
    assert calls[|calls|..] == [];
  }

  lemma Prefixes(written: bytes, start: bytes, x: bytes, y: bytes)
    requires written <= start + x && x <= y
    ensures written <= start + y
  {}

  /** What a drain consumes: its slices one behind the other, the last as often as asked. */
  lemma {:induction false} ConcatPush(data: seq<bytes>, last: bytes)
    ensures Concat([]) == [] && Concat(data + [last]) == Concat(data) + last
  {
    if data == [] {
      assert data + [last] == [last] && [last][1..] == [];
      assert Concat([last]) == last + Concat([]);
    } else {
      assert (data + [last])[1..] == data[1..] + [last] && (data + [last])[0] == data[0];
      ConcatPush(data[1..], last);
    }
  }

  lemma FlatParts(data: seq<bytes>, last: bytes, splat: nat)
    ensures Flat(data + [last], 0) == Concat(data)
    ensures Flat(data + [last], splat + 1) == Flat(data + [last], splat) + last
  {
    assert (data + [last])[..|data|] == data;
    RepeatPush(last, splat);
    assert Repeat(last, 0) == [];
  }

  lemma {:induction false} RepeatPush(s: bytes, n: nat)
    ensures Repeat(s, n + 1) == Repeat(s, n) + s
  {
    if n > 0 {
      RepeatPush(s, n - 1);
    } else {
      assert Repeat(s, 1) == s + Repeat(s, 0);
    }
  }

  /** A run hands over what its calls consume, in order. */
  lemma {:induction false} InputPush(calls: seq<Call>, call: Call)
    requires |call.data| > 0 && forall i :: 0 <= i < |calls| ==> |calls[i].data| > 0
    ensures Input([]) == [] && Input(calls + [call]) == Input(calls) + Flat(call.data, call.splat)
  {
    hide Flat;
    if calls == [] {
      assert calls + [call] == [call] && [call][1..] == [];
      assert Input([call]) == Flat(call.data, call.splat) + Input([]);
    } else {
      assert (calls + [call])[1..] == calls[1..] + [call] && (calls + [call])[0] == calls[0];
      InputPush(calls[1..], call);
    }
  }

  /** Complete groups are groups of three from the front. */
  lemma WholeIs(s: bytes)
    ensures Whole(s) <= s && |Whole(s)| % 3 == 0 && |s| - |Whole(s)| < 3
  {}

  lemma WholeIsPrefix(c: Codec, s: bytes)
    ensures Encode(c, Whole(s)) <= Encode(c, s)
  {
    assert s == Whole(s) + s[|Whole(s)|..];
    EncodeConcat(c, Whole(s), s[|Whole(s)|..]);
  }
}
