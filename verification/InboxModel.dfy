/** The inbox as a sequence: what runs of push, pop and popIf deliver. */
module InboxModel {
  import opened Results

  datatype Payload =
    | Cdp(raw: seq<char>) | Bidi(text: seq<char>) | Ping(body: seq<char>)
    | Close | Quit | Disconnect(reason: Option<nat>) | Link(link: nat)

  function Size(p: Payload): nat {
    match p
    case Cdp(raw) => |raw|
    case Bidi(text) => |text|
    case Ping(body) => |body|
    case _ => 0
  }

  /** A message with its payload; `id` tells equal payloads apart. */
  datatype Msg = Msg(id: nat, payload: Payload)

  function Bytes(q: seq<Msg>): nat {
    if q == [] then 0 else Size(q[0].payload) + Bytes(q[1..])
  }

  /** The position of the first match, or the length. */
  function FirstMatch(q: seq<Msg>, p: Msg -> bool): (i: nat)
    ensures i <= |q|
    ensures forall k :: 0 <= k < i ==> !p(q[k])
    ensures i < |q| ==> p(q[i])
  {
    if q == [] then 0 else if p(q[0]) then 0 else 1 + FirstMatch(q[1..], p)
  }

  /** What counts towards the limit: the text of a CDP or BiDi frame and the body of a ping. */
  lemma SizeByPayload(s: seq<char>, reason: Option<nat>, link: nat)
    ensures Size(Cdp(s)) == |s| && Size(Bidi(s)) == |s| && Size(Ping(s)) == |s|
    ensures Size(Close) == 0 && Size(Quit) == 0 && Size(Disconnect(reason)) == 0 && Size(Link(link)) == 0
  {}

  /** The byte count position by position. */
  lemma {:induction false} BytesAddUp(q: seq<Msg>, m: Msg)
    ensures Bytes([]) == 0
    ensures Bytes(q + [m]) == Bytes(q) + match m.payload
      case Cdp(raw) => |raw|
      case Bidi(text) => |text|
      case Ping(body) => |body|
      case _ => 0
  {
    BytesConcat(q, [m]);
    BytesOne(m);
  }

  function Without(q: seq<Msg>, i: nat): seq<Msg>
    requires i < |q|
  {
    q[..i] + q[i + 1..]
  }

  lemma {:induction false} BytesConcat(x: seq<Msg>, y: seq<Msg>)
    ensures Bytes(x + y) == Bytes(x) + Bytes(y)
  {
    if x == [] {
      assert x + y == y;
    } else {
      assert (x + y)[1..] == x[1..] + y;
      BytesConcat(x[1..], y);
    }
  }

  lemma BytesOne(m: Msg)
    ensures Bytes([m]) == Size(m.payload)
  {}

  lemma BytesWithout(q: seq<Msg>, i: nat)
    requires i < |q|
    ensures Bytes(Without(q, i)) + Size(q[i].payload) == Bytes(q)
  {
    hide Bytes, Size;
    BytesOne(q[i]);
    assert q == q[..i] + ([q[i]] + q[i + 1..]);
    BytesConcat(q[..i], [q[i]] + q[i + 1..]);
    BytesConcat([q[i]], q[i + 1..]);
    BytesConcat(q[..i], q[i + 1..]);
  }

  // ---------------------------------------------------------------------
  // Runs

  datatype Op = Push(m: Msg) | Pop | PopIf(p: Msg -> bool)

  datatype State = State(queue: seq<Msg>, delivered: seq<Msg>, pushed: seq<Msg>)

  /** Delivers the message at `i`; nothing when there is none. */
  function Deliver(s: State, i: nat): State {
    if i < |s.queue| then s.(queue := Without(s.queue, i), delivered := s.delivered + [s.queue[i]]) else s
  }

  function Apply(s: State, op: Op): State {
    match op
    case Push(m) => s.(queue := s.queue + [m], pushed := s.pushed + [m])
    case Pop => Deliver(s, 0)
    case PopIf(p) => Deliver(s, FirstMatch(s.queue, p))
  }

  function Run(s: State, ops: seq<Op>): State
    decreases |ops|
  {
    if ops == [] then s else Run(Apply(s, ops[0]), ops[1..])
  }

  const EMPTY := State([], [], [])

  function Filter(q: seq<Msg>, c: Msg -> bool): seq<Msg> {
    if q == [] then [] else (if c(q[0]) then [q[0]] else []) + Filter(q[1..], c)
  }

  /** No predicate of the run tells two messages of the class apart. */
  ghost predicate Alike(ops: seq<Op>, c: Msg -> bool) {
    forall k :: 0 <= k < |ops| && ops[k].PopIf? ==>
      forall x, y :: c(x) && c(y) ==> ops[k].p(x) == ops[k].p(y)
  }

  lemma {:induction false} FilterConcat(x: seq<Msg>, y: seq<Msg>, c: Msg -> bool)
    ensures Filter(x + y, c) == Filter(x, c) + Filter(y, c)
  {
    if x == [] {
      assert x + y == y;
    } else {
      assert (x + y)[1..] == x[1..] + y && (x + y)[0] == x[0];
      FilterConcat(x[1..], y, c);
      var head := if c(x[0]) then [x[0]] else [];
      assert head + (Filter(x[1..], c) + Filter(y, c)) == (head + Filter(x[1..], c)) + Filter(y, c);
    }
  }

  lemma {:induction false} FilterNone(q: seq<Msg>, c: Msg -> bool)
    requires forall k :: 0 <= k < |q| ==> !c(q[k])
    ensures Filter(q, c) == []
  {
    if q != [] {
      FilterNone(q[1..], c);
    }
  }

  /** Delivering `i` keeps the class in push order, provided no earlier queued message
      is of the class whenever the delivered one is. */
  lemma DeliverKeepsOrder(s: State, i: nat, c: Msg -> bool)
    requires Filter(s.pushed, c) == Filter(s.delivered, c) + Filter(s.queue, c)
    requires i < |s.queue| && c(s.queue[i]) ==> forall k :: 0 <= k < i ==> !c(s.queue[k])
    ensures var s' := Deliver(s, i); Filter(s'.pushed, c) == Filter(s'.delivered, c) + Filter(s'.queue, c)
  {
    hide Filter;
    if i < |s.queue| {
      var before, m, after := s.queue[..i], s.queue[i], s.queue[i + 1..];
      assert s.queue == before + ([m] + after);
      FilterConcat(before, [m] + after, c);
      FilterConcat([m], after, c);
      FilterConcat(before, after, c);
      FilterConcat(s.delivered, [m], c);
      FilterOne(m, c);
      if c(m) {
        FilterNone(before, c);
        assert [] + (Filter([m], c) + Filter(after, c)) == Filter([m], c) + Filter(after, c);
        assert [] + Filter(after, c) == Filter(after, c);
        assert Filter(s.delivered, c) + (Filter([m], c) + Filter(after, c)) == Filter(s.delivered, c) + Filter([m], c) + Filter(after, c);
      } else {
        assert [] + Filter(after, c) == Filter(after, c);
        assert Filter(s.delivered, c) + [] == Filter(s.delivered, c);
      }
    }
  }

  lemma FilterOne(m: Msg, c: Msg -> bool)
    ensures Filter([m], c) == if c(m) then [m] else []
  {}

  lemma ApplyKeepsOrder(s: State, op: Op, c: Msg -> bool)
    requires Filter(s.pushed, c) == Filter(s.delivered, c) + Filter(s.queue, c)
    requires op.PopIf? ==> forall x, y :: c(x) && c(y) ==> op.p(x) == op.p(y)
    ensures var s' := Apply(s, op); Filter(s'.pushed, c) == Filter(s'.delivered, c) + Filter(s'.queue, c)
  {
    match op
    case Push(m) =>
      FilterConcat(s.pushed, [m], c);
      FilterConcat(s.queue, [m], c);
      assert Filter(s.delivered, c) + (Filter(s.queue, c) + Filter([m], c)) == Filter(s.delivered, c) + Filter(s.queue, c) + Filter([m], c);
    case Pop => DeliverKeepsOrder(s, 0, c);
    case PopIf(p) =>
      var i := FirstMatch(s.queue, p);
      if i < |s.queue| && c(s.queue[i]) {
        forall k | 0 <= k < i
          ensures !c(s.queue[k])
        {
          assert p(s.queue[i]) && !p(s.queue[k]);
        }
      }
      DeliverKeepsOrder(s, i, c);
  }

  lemma {:induction false} RunKeepsOrderFrom(s: State, ops: seq<Op>, c: Msg -> bool)
    requires Filter(s.pushed, c) == Filter(s.delivered, c) + Filter(s.queue, c) && Alike(ops, c)
    ensures var s' := Run(s, ops); Filter(s'.pushed, c) == Filter(s'.delivered, c) + Filter(s'.queue, c)
    decreases |ops|
  {
    hide Filter, Apply;
    if ops != [] {
      ApplyKeepsOrder(s, ops[0], c);
      assert forall k :: 0 <= k < |ops[1..]| ==> ops[1..][k] == ops[k + 1];
      RunKeepsOrderFrom(Apply(s, ops[0]), ops[1..], c);
    }
  }

  /** Over any run, messages of a class no used predicate tells apart come out in the
      order they went in: those delivered, then those still queued, are those pushed. */
  lemma RunKeepsOrder(ops: seq<Op>, c: Msg -> bool)
    requires Alike(ops, c)
    ensures var s := Run(EMPTY, ops); Filter(s.pushed, c) == Filter(s.delivered, c) + Filter(s.queue, c)
  {
    RunKeepsOrderFrom(EMPTY, ops, c);
  }

  lemma {:induction false} RunConservesFrom(s: State, ops: seq<Op>)
    requires multiset(s.pushed) == multiset(s.delivered) + multiset(s.queue)
    ensures var s' := Run(s, ops); multiset(s'.pushed) == multiset(s'.delivered) + multiset(s'.queue)
    decreases |ops|
  {
    if ops != [] {
      var s' := Apply(s, ops[0]);
      var i := if ops[0].PopIf? then FirstMatch(s.queue, ops[0].p) else 0;
      if !ops[0].Push? && i < |s.queue| {
        assert s.queue == s.queue[..i] + [s.queue[i]] + s.queue[i + 1..];
      }
      RunConservesFrom(s', ops[1..]);
    }
  }

  /** Delivered plus queued is exactly what was pushed. */
  lemma RunConserves(ops: seq<Op>)
    ensures var s := Run(EMPTY, ops); multiset(s.pushed) == multiset(s.delivered) + multiset(s.queue)
  {
    RunConservesFrom(EMPTY, ops);
  }

  /** A run without cherry-picking is a plain FIFO. */
  lemma PlainRunIsFifo(ops: seq<Op>)
    requires forall k :: 0 <= k < |ops| ==> !ops[k].PopIf?
    ensures var s := Run(EMPTY, ops); s.pushed == s.delivered + s.queue
  {
    var all := (m: Msg) => true;
    var s := Run(EMPTY, ops);
    RunKeepsOrder(ops, all);
    FilterAll(s.pushed, all);
    FilterAll(s.delivered, all);
    FilterAll(s.queue, all);
  }

  lemma {:induction false} FilterAll(q: seq<Msg>, c: Msg -> bool)
    requires forall m :: c(m)
    ensures Filter(q, c) == q
  {
    if q != [] {
      FilterAll(q[1..], c);
      assert q == [q[0]] + q[1..];
    }
  }
}
