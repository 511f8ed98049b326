/** The inbox on the heap: a doubly linked queue with removal from the middle. */
module Inbox {
  import opened InboxModel

  class Message {
    const msg: Msg
    var prev: Message?
    var next: Message?

    constructor (msg: Msg)
      ensures this.msg == msg
    {
      this.msg, prev, next := msg, null, null;
    }
  }

  ghost function NextOf(q: seq<Message>, i: nat): Message? {
    if i + 1 < |q| then q[i + 1] else null
  }

  ghost function PrevOf(q: seq<Message>, i: nat): Message? {
    if 0 < i <= |q| then q[i - 1] else null
  }

  ghost predicate Linked(q: seq<Message>)
    reads q
  {
    forall i: nat {:trigger NextOf(q, i)} {:trigger PrevOf(q, i)} ::
      i < |q| ==> q[i].next == NextOf(q, i) && q[i].prev == PrevOf(q, i)
  }

  ghost function Msgs(q: seq<Message>): (r: seq<Msg>)
    ensures |r| == |q| && forall i :: 0 <= i < |q| ==> r[i] == q[i].msg
  {
    seq(|q|, i requires 0 <= i < |q| => q[i].msg)
  }

  /** The model's state for this queue. */
  ghost function Queued(q: seq<Message>): State {
    State(Msgs(q), [], [])
  }

  class Inbox {
    var first: Message?
    var last: Message?
    var queuedBytes: nat
    ghost var queue: seq<Message>

    /** Both chains of links spell `queue`, and the byte count is its payload. */
    ghost predicate Valid()
      reads this, queue
    {
      Chain() && queuedBytes == Bytes(Msgs(queue))
    }

    ghost predicate Chain()
      reads this`first, this`last, this`queue, queue
    {
      && first == PrevOrFirst()
      && last == PrevOf(queue, |queue|)
      && (forall i, j :: 0 <= i < j < |queue| ==> queue[i] != queue[j])
      && Linked(queue)
    }

    ghost function PrevOrFirst(): Message?
      reads this`queue
    {
      if queue == [] then null else queue[0]
    }

    constructor ()
      ensures Valid() && queue == []
    {
      first, last, queuedBytes, queue := null, null, 0, [];
    }

    method Push(m: Message)
      requires Valid() && m !in queue
      modifies this, m, last
      ensures Valid() && queue == old(queue) + [m]
      ensures Msgs(queue) == Apply(Queued(old(queue)), InboxModel.Push(m.msg)).queue
    {
      hide Bytes, Size;
      ghost var q := queue;
      queuedBytes := queuedBytes + Size(m.msg.payload);
      m.next := null;
      m.prev := last;
      if last == null {
        first := m;
      } else {
        last.next := m;
      }
      last := m;
      queue := q + [m];
      forall i: nat | i < |queue|
        ensures queue[i].next == NextOf(queue, i) && queue[i].prev == PrevOf(queue, i)
      {
        if i < |q| {
          assert old(q[i].next) == NextOf(q, i) && old(q[i].prev) == PrevOf(q, i);
        }
      }
      BytesPushed(q, m);
      assert Msgs(queue) == Msgs(q) + [m.msg];
    }

    static lemma BytesPushed(q: seq<Message>, m: Message)
      ensures Bytes(Msgs(q + [m])) == Bytes(Msgs(q)) + Size(m.msg.payload)
    {
      BytesConcat(Msgs(q), [m.msg]);
      assert Msgs(q + [m]) == Msgs(q) + [m.msg];
    }

    /** Takes `queue[k]` out of both chains, wherever it stands. */
    method Remove(m: Message, ghost k: nat)
      requires Valid() && k < |queue| && m == queue[k]
      modifies this`first, this`last, this`queue, this`queuedBytes, queue
      ensures Valid() && queue == old(queue[..k] + queue[k + 1..])
    {
      hide Bytes, Size, Inbox.Chain;
      ghost var q := queue;
      Unlink(m, k);
      BytesRemoved(q, k);
      queuedBytes := queuedBytes - Size(m.msg.payload);
    }

    method Unlink(m: Message, ghost k: nat)
      requires Chain() && k < |queue| && m == queue[k]
      modifies this`first, this`last, this`queue, queue
      ensures Chain() && queue == old(queue[..k] + queue[k + 1..])
    {
      ghost var q := queue;
      assert m.next == NextOf(q, k) && m.prev == PrevOf(q, k);
      if m.prev == null {
        first := m.next;
      } else {
        m.prev.next := m.next;
      }
      if m.next == null {
        last := m.prev;
      } else {
        m.next.prev := m.prev;
      }
      queue := q[..k] + q[k + 1..];
      hide NextOf, PrevOf;
      Neighbours(q, k);
      forall o: nat | o < |q| && o != k
        ensures PointsPast(q, k, o)
      {
        assert old(q[o].next) == NextOf(q, o);
        assert old(q[o].prev) == PrevOf(q, o);
      }
      Relinked(q, k);
    }

    /** `q[o]` is linked as in `q`, except that a neighbour of `q[k]` points past it. */
    static ghost predicate PointsPast(q: seq<Message>, k: nat, o: nat)
      requires k < |q| && o < |q|
      reads q
    {
      && q[o].next == (if o + 1 == k then NextOf(q, k) else NextOf(q, o))
      && q[o].prev == (if o == k + 1 then PrevOf(q, k) else PrevOf(q, o))
    }

    static lemma Neighbours(q: seq<Message>, k: nat)
      requires k < |q|
      ensures NextOf(q, k) == null <==> k + 1 == |q|
      ensures k + 1 < |q| ==> NextOf(q, k) == q[k + 1]
      ensures PrevOf(q, k) == null <==> k == 0
      ensures k > 0 ==> PrevOf(q, k) == q[k - 1]
    {}

    static lemma Shifted(q: seq<Message>, k: nat, i: nat)
      requires k < |q| && i < |q| - 1
      ensures var r := q[..k] + q[k + 1..];
        && r[i] == q[if i < k then i else i + 1]
        && NextOf(r, i) == (if i + 1 < k then NextOf(q, i) else if i + 1 == k then NextOf(q, k) else NextOf(q, i + 1))
        && PrevOf(r, i) == (if i < k then PrevOf(q, i) else if i == k then PrevOf(q, k) else PrevOf(q, i + 1))
    {}

    /** The remaining messages link up once the neighbours of `q[k]` point past it. */
    static lemma Relinked(q: seq<Message>, k: nat)
      requires k < |q|
      requires forall o: nat :: o < |q| && o != k ==> PointsPast(q, k, o)
      ensures Linked(q[..k] + q[k + 1..])
    {
      hide NextOf, PrevOf;
      var r := q[..k] + q[k + 1..];
      forall i: nat | i < |r|
        ensures r[i].next == NextOf(r, i) && r[i].prev == PrevOf(r, i)
      {
        Shifted(q, k, i);
        var o := if i < k then i else i + 1;
        assert PointsPast(q, k, o);
      }
    }

    static lemma BytesRemoved(q: seq<Message>, k: nat)
      requires k < |q|
      ensures Bytes(Msgs(q[..k] + q[k + 1..])) + Size(q[k].msg.payload) == Bytes(Msgs(q))
    {
      BytesWithout(Msgs(q), k);
      assert Msgs(q[..k] + q[k + 1..]) == Without(Msgs(q), k);
    }

    /** The oldest message. */
    method Pop() returns (m: Message?)
      requires Valid()
      modifies this`first, this`last, this`queue, this`queuedBytes, queue
      ensures Valid()
      ensures old(queue) == [] ==> m == null && queue == []
      ensures old(queue) != [] ==> m == old(queue[0]) && queue == old(queue[1..])
      ensures Msgs(queue) == Apply(Queued(old(queue)), InboxModel.Pop).queue
    {
      hide Inbox.Chain, Msgs, Apply, Bytes;
      FirstKnown();
      ghost var q := queue;
      PopTakes(q);
      m := first;
      if m != null {
        Remove(m, 0);
        assert q[..0] + q[1..] == q[1..];
      }
    }

    static lemma PopTakes(q: seq<Message>)
      ensures Apply(Queued(q), InboxModel.Pop).queue == if q != [] then Msgs(q[1..]) else Msgs(q)
    {
      if q != [] {
        TakenOut(q, 0);
        assert q[..0] + q[1..] == q[1..];
      }
    }

    static lemma TakenOut(q: seq<Message>, i: nat)
      requires i < |q|
      ensures Msgs(q[..i] + q[i + 1..]) == Deliver(Queued(q), i).queue
    {
      assert Msgs(q[..i] + q[i + 1..]) == Without(Msgs(q), i);
    }

    /** Whether some queued message matches; the queue stays as it is. */
    method Contains(p: Msg -> bool) returns (found: bool)
      requires Valid()
      ensures found <==> exists i :: 0 <= i < |queue| && p(queue[i].msg)
    {
      var it := first;
      ghost var i := 0;
      while it != null
        invariant 0 <= i <= |queue| && it == (if i < |queue| then queue[i] else null)
        invariant forall k :: 0 <= k < i ==> !p(queue[k].msg)
        decreases |queue| - i
      {
        if p(it.msg) {
          return true;
        }
        assert it.next == NextOf(queue, i);
        it := it.next;
        i := i + 1;
      }
      return false;
    }

    /** The first match, taken out from wherever it stands; the others keep their places. */
    method PopIf(p: Msg -> bool) returns (m: Message?)
      requires Valid()
      modifies this`first, this`last, this`queue, this`queuedBytes, queue
      ensures Valid()
      ensures var i := FirstMatch(Msgs(old(queue)), p);
        if i < |old(queue)| then m == old(queue)[i] && queue == old(queue)[..i] + old(queue)[i + 1..]
        else m == null && queue == old(queue)
      ensures Msgs(queue) == Apply(Queued(old(queue)), InboxModel.PopIf(p)).queue
    {
      hide Inbox.Valid, FirstMatch, Msgs, Apply;
      Ends();
      var it := first;
      ghost var i := 0;
      while it != null
        invariant Valid() && queue == old(queue)
        invariant 0 <= i <= |queue| && it == (if i < |queue| then queue[i] else null)
        invariant forall k :: 0 <= k < i ==> !p(queue[k].msg)
        decreases |queue| - i
      {
        if p(it.msg) {
          MatchIs(Msgs(queue), p, i);
          PopIfTakes(queue, p);
          Remove(it, i);
          return it;
        }
        LinkedTo(i);
        it := it.next;
        i := i + 1;
      }
      MatchIs(Msgs(queue), p, i);
      PopIfTakes(queue, p);
      return null;
    }

    lemma Ends()
      requires Valid()
      ensures first == if |queue| > 0 then queue[0] else null
    {}

    lemma LinkedTo(i: nat)
      requires Valid() && i < |queue|
      ensures queue[i].next == if i + 1 < |queue| then queue[i + 1] else null
    {
      assert queue[i].next == NextOf(queue, i);
    }

    static lemma MatchIs(q: seq<Msg>, p: Msg -> bool, i: nat)
      requires i <= |q| && (i < |q| ==> p(q[i]))
      requires forall k :: 0 <= k < i ==> !p(q[k])
      ensures FirstMatch(q, p) == i
    {
      var j := FirstMatch(q, p);
      assert j >= i && i >= j;
    }

    static lemma PopIfTakes(q: seq<Message>, p: Msg -> bool)
      ensures var i := FirstMatch(Msgs(q), p);
        Apply(Queued(q), InboxModel.PopIf(p)).queue == if i < |q| then Msgs(q[..i] + q[i + 1..]) else Msgs(q)
    {
      var i := FirstMatch(Msgs(q), p);
      if i < |q| {
        TakenOut(q, i);
      }
    }

    /** Discards what never reached the consumer: every message, oldest first; the links
        among them are the ones to destroy. */
    method Deinit() returns (discarded: seq<Message>, links: seq<nat>)
      requires Valid()
      modifies this, queue
      ensures Valid() && queue == [] && queuedBytes == 0
      ensures discarded == old(queue) && links == Links(Msgs(old(queue)))
    {
      hide *;
      discarded, links := [], [];
      NoLinks();
      Opened();
      ghost var q := queue;
      while first != null
        invariant Chain() && q == discarded + queue && (first == null <==> queue == [])
        invariant links == Links(Msgs(discarded))
        decreases |queue|
      {
        MovedOn(discarded, queue);
        assert discarded + queue == old(queue);
        assert forall i :: 0 <= i < |queue| ==> queue[i] in queue;
        ghost var rest := queue[1..];
        var m := PopFirst();
        assert q == (discarded + [m]) + rest;
        LinksPushed(discarded, m);
        discarded := discarded + [m];
        if m.msg.payload.Link? {
          links := links + [m.msg.payload.link];
        }
      }
      queuedBytes := 0;
      Closed();
    }

    /** The oldest message, without its bytes being taken off the count. */
    method PopFirst() returns (m: Message)
      requires Chain() && queue != []
      modifies this`first, this`last, this`queue, queue
      ensures Chain() && m == old(queue[0]) && queue == old(queue[1..]) && (first == null <==> queue == [])
    {
      hide *;
      FirstKnown();
      m := first;
      Unlink(m, 0);
      FirstKnown();
    }

    static lemma MovedOn(done: seq<Message>, q: seq<Message>)
      requires q != []
      ensures done + q == (done + [q[0]]) + q[1..]
      ensures forall x :: x in q ==> x in done + q
      ensures forall x :: x in q[1..] ==> x in done + q
    {}

    lemma Opened()
      requires Valid()
      ensures Chain() && (first == null <==> queue == [])
    {}

    lemma Closed()
      requires Chain() && queue == [] && queuedBytes == 0
      ensures Valid()
    {}

    lemma FirstKnown()
      requires Chain()
      ensures first == if queue == [] then null else queue[0]
    {}
  }

  lemma NoLinks()
    ensures Links([]) == [] && Links(Msgs([])) == []
  {}

  lemma LinksFirst(q: seq<Msg>)
    requires q != []
    ensures Links(q) == Links([q[0]]) + Links(q[1..])
  {
    LinksOne(q[0]);
  }

  lemma LinksOne(m: Msg)
    ensures Links([m]) == if m.payload.Link? then [m.payload.link] else []
  {
    assert [m][1..] == [];
  }

  lemma LinksPushed(q: seq<Message>, m: Message)
    ensures Links(Msgs(q + [m])) == Links(Msgs(q)) + if m.msg.payload.Link? then [m.msg.payload.link] else []
  {
    hide Links;
    LinksConcat(Msgs(q), [m.msg]);
    LinksOne(m.msg);
    assert Msgs(q + [m]) == Msgs(q) + [m.msg];
  }

  function Links(q: seq<Msg>): seq<nat> {
    if q == [] then [] else (if q[0].payload.Link? then [q[0].payload.link] else []) + Links(q[1..])
  }

  lemma {:induction false} LinksConcat(x: seq<Msg>, y: seq<Msg>)
    ensures Links(x + y) == Links(x) + Links(y)
  {
    hide *;
    NoLinks();
    if x == [] {
      assert x + y == y;
    } else {
      LinksConcat(x[1..], y);
      LinksFirst(x);
      LinksFirst(x + y);
      assert (x + y)[1..] == x[1..] + y;
    }
  }
}
