/** What every interleaving of acquires and releases keeps. */
module PoolProofs {
  import opened PoolModel
  import opened Results
  import opened Sums

  // ---------------------------------------------------------------------
  // Where arenas are

  ghost predicate NoDuplicates<T>(q: seq<T>) {
    forall i, j :: 0 <= i < j < |q| ==> q[i] != q[j]
  }

  /** The free list of bucket `z` holds distinct, released, unpinned arenas of that bucket
      and stays within its cap. */
  ghost predicate ListOk<Id, Acct>(p: Pool<Id, Acct>, z: Size) {
    && HasList(p, z)
    && |p.lists[z]| <= p.max[z] && (p.safety ==> p.lists[z] == [])
    && NoDuplicates(p.lists[z])
    && forall i :: 0 <= i < |p.lists[z]| ==>
         p.lists[z][i] in p.live && p.live[p.lists[z][i]].released && p.live[p.lists[z][i]].bucket == z && p.live[p.lists[z][i]].account.None?
  }

  ghost predicate ListsOk<Id, Acct>(p: Pool<Id, Acct>) {
    forall z: Size {:trigger HasList(p, z)} {:trigger ListOk(p, z)} {:trigger p.lists[z]} :: ListOk(p, z)
  }

  ghost predicate StageOk<Id, Acct>(p: Pool<Id, Acct>, stage: Stage<Id, Acct>) {
    stage.Releasing? ==>
      && stage.id in p.live && p.live[stage.id].released && p.live[stage.id].bucket == stage.bucket
      && (stage.unpinned ==> stage.counted && p.live[stage.id].account.None?)
      && OffLists(p, stage.id)
  }

  ghost predicate OffLists<Id, Acct>(p: Pool<Id, Acct>, id: Id) {
    forall z: Size :: z in p.lists ==> id !in p.lists[z]
  }

  ghost predicate HeldOk<Id, Acct>(p: Pool<Id, Acct>, held: set<Id>) {
    forall id :: id in held ==> id in p.live && !p.live[id].released
  }

  ghost predicate Apart<Id, Acct>(x: Thread<Id, Acct>, y: Thread<Id, Acct>) {
    x.held !! y.held && (x.stage.Releasing? && y.stage.Releasing? ==> x.stage.id != y.stage.id)
  }

  ghost predicate ThreadsOk<Id, Tid, Acct>(p: Pool<Id, Acct>, threads: map<Tid, Thread<Id, Acct>>) {
    && (forall t :: t in threads ==> StageOk(p, threads[t].stage) && HeldOk(p, threads[t].held))
    && (forall t, u :: t in threads && u in threads && t != u ==> Apart(threads[t], threads[u]))
  }

  ghost predicate Owned<Id, Tid, Acct>(threads: map<Tid, Thread<Id, Acct>>, id: Id) {
    exists t :: t in threads && id in threads[t].held
  }

  ghost predicate BeingReleased<Id, Tid, Acct>(threads: map<Tid, Thread<Id, Acct>>, id: Id) {
    exists t :: t in threads && threads[t].stage.Releasing? && threads[t].stage.id == id
  }

  ghost predicate Listed<Id, Acct>(p: Pool<Id, Acct>, id: Id) {
    id in p.live && p.live[id].bucket in p.lists && id in p.lists[p.live[id].bucket]
  }

  ghost predicate Covered<Id, Tid, Acct>(p: Pool<Id, Acct>, threads: map<Tid, Thread<Id, Acct>>) {
    forall id :: id in p.live ==>
      if p.live[id].released then BeingReleased(threads, id) || Listed(p, id) else Owned(threads, id)
  }

  ghost predicate Placed<Id, Tid, Acct>(s: Sys<Id, Tid, Acct>) {
    ListsOk(s.pool) && ThreadsOk(s.pool, s.threads) && Covered(s.pool, s.threads)
  }

  // ---------------------------------------------------------------------
  // What the counters say

  ghost function Bytes<Acct>(a: Arena<Acct>): int { a.bytes }

  ghost function PinnedTo<Acct>(account: Acct): Arena<Acct> -> int {
    (a: Arena<Acct>) => if a.account == Some(account) then a.reported else 0
  }

  ghost function OutOf<Acct>(z: Size): Arena<Acct> -> int {
    (a: Arena<Acct>) => if a.bucket == z && !a.released then 1 else 0
  }

  /** A thread that has counted an acquire it has not finished, or begun a release it
      has not counted yet. */
  ghost function InCall<Id, Acct>(z: Size): Thread<Id, Acct> -> int {
    (th: Thread<Id, Acct>) => match th.stage
      case Idle => 0
      case Locking(size, _) => if size == z then 1 else 0
      case Releasing(_, bucket, counted, _) => if bucket == z && !counted then 1 else 0
  }

  ghost predicate ArenaOk<Acct>(a: Arena<Acct>, accounts: set<Acct>) {
    && a.bytes == BlockBytes(a.blocks)
    && (a.account.None? ==> a.reported == 0)
    && (a.account.Some? ==> a.account.value in accounts)
  }

  ghost predicate ArenasOk<Id, Acct>(live: map<Id, Arena<Acct>>, accounts: set<Acct>) {
    forall id :: id in live ==> ArenaOk(live[id], accounts)
  }

  ghost predicate LockingOk<Id, Tid, Acct>(threads: map<Tid, Thread<Id, Acct>>, accounts: set<Acct>) {
    forall t :: t in threads && threads[t].stage.Locking? && threads[t].stage.account.Some? ==>
      threads[t].stage.account.value in accounts
  }

  /** What an account has passed on plus what it still owes is what is reported to it. */
  ghost predicate Balanced<Id, Acct>(live: map<Id, Arena<Acct>>, pending: map<Acct, int>, drained: map<Acct, int>) {
    && pending.Keys == drained.Keys
    && forall x :: x in pending ==> pending[x] + drained[x] == Sum(live, PinnedTo(x))
  }

  /** The in-flight gauge counts arenas that are out, calls under way and failed acquires. */
  ghost predicate CountOk<Id, Tid, Acct>(live: map<Id, Arena<Acct>>, threads: map<Tid, Thread<Id, Acct>>, inflight: map<Size, int>, failed: map<Size, int>) {
    forall z: Size ::
      && z in inflight && z in failed
      && inflight[z] == Sum(live, OutOf(z)) + Sum(threads, InCall(z)) + failed[z]
  }

  ghost predicate Accounted<Id, Tid, Acct>(s: Sys<Id, Tid, Acct>) {
    && ArenasOk(s.pool.live, s.pending.Keys)
    && LockingOk(s.threads, s.pending.Keys)
    && s.gauge == Sum(s.pool.live, Bytes)
    && Balanced(s.pool.live, s.pending, s.drained)
  }

  ghost predicate Counted<Id, Tid, Acct>(s: Sys<Id, Tid, Acct>) {
    CountOk(s.pool.live, s.threads, s.inflight, s.failed)
  }

  ghost predicate Inv<Id, Tid, Acct>(s: Sys<Id, Tid, Acct>) {
    Placed(s) && Accounted(s) && Counted(s)
  }

  lemma InitialInv<Id, Tid, Acct>(s: Sys<Id, Tid, Acct>)
    requires Initial(s)
    ensures Inv(s)
  {
    forall z: Size
      ensures Sum(s.threads, InCall(z)) == 0 && Sum(s.pool.live, OutOf(z)) == 0
    {
      SumZero(s.threads, InCall(z));
    }
  }

  // ---------------------------------------------------------------------
  // Placement, step by step

  /** Steps that leave flags, buckets, pins, lists and threads alone keep the placement. */
  lemma PlacementKept<Id, Tid, Acct>(s: Sys<Id, Tid, Acct>, s': Sys<Id, Tid, Acct>)
    requires Placed(s) && s'.threads == s.threads && s'.pool.lists == s.pool.lists && s'.pool.max == s.pool.max
    requires s'.pool.safety == s.pool.safety && s'.pool.live.Keys == s.pool.live.Keys
    requires forall id :: id in s.pool.live ==>
      && s'.pool.live[id].released == s.pool.live[id].released && s'.pool.live[id].bucket == s.pool.live[id].bucket
      && s'.pool.live[id].account == s.pool.live[id].account
    ensures Placed(s')
  {
    forall z: Size
      ensures ListOk(s'.pool, z)
    {
      assert ListOk(s.pool, z);
    }
  }

  /** A thread that only moves between stages without an arena. */
  lemma StagePlaced<Id, Tid, Acct>(s: Sys<Id, Tid, Acct>, t: Tid, stage: Stage<Id, Acct>, s': Sys<Id, Tid, Acct>)
    requires Placed(s) && t in s.threads && !s.threads[t].stage.Releasing? && !stage.Releasing?
    requires s'.pool == s.pool && s'.threads == s.threads[t := s.threads[t].(stage := stage)]
    ensures Placed(s')
  {
    forall id | id in s.pool.live
      ensures Owned(s.threads, id) ==> Owned(s'.threads, id)
      ensures BeingReleased(s.threads, id) ==> BeingReleased(s'.threads, id)
    {
      if Owned(s.threads, id) {
        var u :| u in s.threads && id in s.threads[u].held;
        assert u in s'.threads && id in s'.threads[u].held;
      }
      if BeingReleased(s.threads, id) {
        var u :| u in s.threads && s.threads[u].stage.Releasing? && s.threads[u].stage.id == id;
        assert u in s'.threads && s'.threads[u].stage.Releasing? && s'.threads[u].stage.id == id;
      }
    }
  }

  /** Owners and releasers other than `t` stay what they were. */
  lemma OthersKept<Id, Tid, Acct>(threads: map<Tid, Thread<Id, Acct>>, t: Tid, th: Thread<Id, Acct>, id: Id)
    requires t in threads
    requires id in threads[t].held ==> id in th.held
    requires threads[t].stage.Releasing? && threads[t].stage.id == id ==> th.stage.Releasing? && th.stage.id == id
    ensures Owned(threads, id) ==> Owned(threads[t := th], id)
    ensures BeingReleased(threads, id) ==> BeingReleased(threads[t := th], id)
  {
    var threads' := threads[t := th];
    if Owned(threads, id) {
      var u :| u in threads && id in threads[u].held;
      assert u in threads' && id in threads'[u].held;
    }
    if BeingReleased(threads, id) {
      var u :| u in threads && threads[u].stage.Releasing? && threads[u].stage.id == id;
      assert u in threads' && threads'[u].stage.Releasing? && threads'[u].stage.id == id;
    }
  }

  // Acquire from the free list.

  lemma HitLists<Id, Acct>(p: Pool<Id, Acct>, size: Size, account: Option<Acct>)
    requires ListsOk(p) && HasList(p, size) && p.lists[size] != [] && p.lists[size][0] in p.live
    ensures ListsOk(TakeFree(p, size, account))
    ensures forall z: Size :: p.lists[size][0] !in TakeFree(p, size, account).lists[z]
  {
    hide TakeFree, NoDuplicates;
    forall z: Size
      ensures ListOk(TakeFree(p, size, account), z) && p.lists[size][0] !in TakeFree(p, size, account).lists[z]
    {
      HitList(p, size, account, z);
    }
  }

  lemma HitList<Id, Acct>(p: Pool<Id, Acct>, size: Size, account: Option<Acct>, z: Size)
    requires ListsOk(p) && HasList(p, size) && p.lists[size] != [] && p.lists[size][0] in p.live
    ensures ListOk(TakeFree(p, size, account), z)
    ensures p.lists[size][0] !in TakeFree(p, size, account).lists[z]
  {
    assert ListOk(p, z) && ListOk(p, size);
    hide ListsOk;
    ListedOnce(p, size, z);
  }

  /** The head of a list is nowhere else on the lists. */
  lemma ListedOnce<Id, Acct>(p: Pool<Id, Acct>, size: Size, z: Size)
    requires ListsOk(p) && HasList(p, size) && p.lists[size] != []
    ensures HasList(p, z)
    ensures p.lists[size][0] !in if z == size then p.lists[z][1..] else p.lists[z]
  {
    if z != size {
      assert HasList(p, z);
      assert forall i :: 0 <= i < |p.lists[z]| ==> p.lists[z][i] in p.live && p.live[p.lists[z][i]].bucket == z;
    }
  }

  lemma HitThreads<Id, Tid, Acct>(p: Pool<Id, Acct>, threads: map<Tid, Thread<Id, Acct>>, t: Tid, size: Size, account: Option<Acct>)
    requires ListsOk(p) && ThreadsOk(p, threads) && HasList(p, size) && p.lists[size] != [] && p.lists[size][0] in p.live
    requires t in threads && threads[t].stage.Locking?
    ensures ThreadsOk(TakeFree(p, size, account), threads[t := Thread(Idle, threads[t].held + {p.lists[size][0]})])
  {
    var id := p.lists[size][0];
    var p' := TakeFree(p, size, account);
    var threads' := threads[t := Thread(Idle, threads[t].held + {id})];
    ListedIsFree(p, threads, size);
    assert forall z: Size, x :: z in p'.lists && x in p'.lists[z] ==> x in p.lists[z];
    JoinThreads(p, threads, t, id, p');
  }

  /** The head of a free list belongs to no thread. */
  lemma ListedIsFree<Id, Tid, Acct>(p: Pool<Id, Acct>, threads: map<Tid, Thread<Id, Acct>>, size: Size)
    requires ListsOk(p) && ThreadsOk(p, threads) && HasList(p, size) && p.lists[size] != []
    ensures forall u :: u in threads ==>
      p.lists[size][0] !in threads[u].held && (threads[u].stage.Releasing? ==> threads[u].stage.id != p.lists[size][0])
  {
    var id := p.lists[size][0];
    assert p.live[id].released;
    forall u | u in threads
      ensures id !in threads[u].held && (threads[u].stage.Releasing? ==> threads[u].stage.id != id)
    {
      assert StageOk(p, threads[u].stage) && HeldOk(p, threads[u].held);
    }
  }

  /** A thread that finishes acquiring an arena nobody has. */
  lemma JoinThreads<Id, Tid, Acct>(p: Pool<Id, Acct>, threads: map<Tid, Thread<Id, Acct>>, t: Tid, id: Id, p': Pool<Id, Acct>)
    requires ThreadsOk(p, threads) && t in threads && threads[t].stage.Locking?
    requires forall u :: u in threads ==> id !in threads[u].held && (threads[u].stage.Releasing? ==> threads[u].stage.id != id)
    requires id in p'.live && !p'.live[id].released && p'.live.Keys == p.live.Keys + {id}
    requires forall x :: x in p.live && x != id ==> p'.live[x] == p.live[x]
    requires forall z: Size, x :: z in p'.lists && x in p'.lists[z] ==> z in p.lists && x in p.lists[z]
    ensures ThreadsOk(p', threads[t := Thread(Idle, threads[t].held + {id})])
  {
    var threads' := threads[t := Thread(Idle, threads[t].held + {id})];
    forall u | u in threads'
      ensures StageOk(p', threads'[u].stage) && HeldOk(p', threads'[u].held)
    {
      assert StageOk(p, threads[u].stage) && HeldOk(p, threads[u].held);
    }
    forall u, v | u in threads' && v in threads' && u != v
      ensures Apart(threads'[u], threads'[v])
    {
      assert Apart(threads[u], threads[v]);
    }
  }

  lemma HitCovered<Id, Tid, Acct>(p: Pool<Id, Acct>, threads: map<Tid, Thread<Id, Acct>>, t: Tid, size: Size, account: Option<Acct>)
    requires HasList(p, size) && p.lists[size] != [] && p.lists[size][0] in p.live
    requires Covered(p, threads) && t in threads && threads[t].stage.Locking?
    ensures Covered(TakeFree(p, size, account), threads[t := Thread(Idle, threads[t].held + {p.lists[size][0]})])
  {
    var id := p.lists[size][0];
    var p' := TakeFree(p, size, account);
    var th := Thread(Idle, threads[t].held + {id});
    var threads' := threads[t := th];
    forall other | other in p'.live
      ensures if p'.live[other].released then BeingReleased(threads', other) || Listed(p', other) else Owned(threads', other)
    {
      OthersKept(threads, t, th, other);
      if other == id {
        assert t in threads' && id in threads'[t].held;
      }
    }
  }

  lemma HitPlaced<Id, Tid, Acct>(s: Sys<Id, Tid, Acct>, t: Tid)
    requires Placed(s) && Apply(s, AcquireHit(t)).Next?
    ensures Placed(Apply(s, AcquireHit(t)).sys)
  {
    hide ListsOk, ThreadsOk, Covered, TakeFree;
    var size := s.threads[t].stage.size;
    HitLists(s.pool, size, s.threads[t].stage.account);
    HitThreads(s.pool, s.threads, t, size, s.threads[t].stage.account);
    HitCovered(s.pool, s.threads, t, size, s.threads[t].stage.account);
  }

  // Acquire by creating an entry.

  lemma MissPlaced<Id, Tid, Acct>(s: Sys<Id, Tid, Acct>, t: Tid, id: Id)
    requires Placed(s) && Apply(s, AcquireMiss(t, id)).Next?
    ensures Placed(Apply(s, AcquireMiss(t, id)).sys)
  {
    hide ListsOk, Covered, ThreadsOk;
    var p' := Create(s.pool, s.threads[t].stage.size, id, s.threads[t].stage.account);
    MissLists(s.pool, s.threads[t].stage.size, id, s.threads[t].stage.account);
    NotLive(s.pool, s.threads, id);
    JoinThreads(s.pool, s.threads, t, id, p');
    MissCovered(s.pool, s.threads, t, s.threads[t].stage.size, id, s.threads[t].stage.account);
  }

  lemma MissLists<Id, Acct>(p: Pool<Id, Acct>, size: Size, id: Id, account: Option<Acct>)
    requires ListsOk(p) && id !in p.live
    ensures ListsOk(Create(p, size, id, account))
  {
    forall z: Size
      ensures ListOk(Create(p, size, id, account), z)
    {
      assert ListOk(p, z);
    }
  }

  lemma NotLive<Id, Tid, Acct>(p: Pool<Id, Acct>, threads: map<Tid, Thread<Id, Acct>>, id: Id)
    requires ThreadsOk(p, threads) && id !in p.live
    ensures forall u :: u in threads ==> id !in threads[u].held && (threads[u].stage.Releasing? ==> threads[u].stage.id != id)
  {
    forall u | u in threads
      ensures id !in threads[u].held && (threads[u].stage.Releasing? ==> threads[u].stage.id != id)
    {
      assert StageOk(p, threads[u].stage) && HeldOk(p, threads[u].held);
    }
  }

  lemma MissCovered<Id, Tid, Acct>(p: Pool<Id, Acct>, threads: map<Tid, Thread<Id, Acct>>, t: Tid, size: Size, id: Id, account: Option<Acct>)
    requires Covered(p, threads) && t in threads && threads[t].stage.Locking? && id !in p.live
    ensures Covered(Create(p, size, id, account), threads[t := Thread(Idle, threads[t].held + {id})])
  {
    var p' := Create(p, size, id, account);
    var th := Thread(Idle, threads[t].held + {id});
    var threads' := threads[t := th];
    forall other | other in p'.live
      ensures if p'.live[other].released then BeingReleased(threads', other) || Listed(p', other) else Owned(threads', other)
    {
      OthersKept(threads, t, th, other);
      if other == id {
        assert t in threads' && id in threads'[t].held;
      }
    }
  }

  // Release: first critical section.

  lemma ReleaseLists<Id, Acct>(p: Pool<Id, Acct>, id: Id)
    requires ListsOk(p) && id in p.live
    ensures ListsOk(SetReleased(p, id))
    ensures !p.live[id].released ==> OffLists(p, id)
  {
    var p' := SetReleased(p, id);
    forall z: Size
      ensures ListOk(p', z)
    {
      assert ListOk(p, z);
    }
    if !p.live[id].released {
      forall z: Size | z in p.lists
        ensures id !in p.lists[z]
      {
        assert ListOk(p, z);
      }
    }
  }

  lemma ReleaseThreads<Id, Tid, Acct>(p: Pool<Id, Acct>, threads: map<Tid, Thread<Id, Acct>>, t: Tid, id: Id)
    requires ThreadsOk(p, threads) && t in threads && id in threads[t].held && threads[t].stage.Idle?
    requires id in p.live && OffLists(p, id)
    ensures ThreadsOk(SetReleased(p, id), threads[t := Thread(Releasing(id, p.live[id].bucket, false, false), threads[t].held - {id})])
  {
    var p' := SetReleased(p, id);
    var threads' := threads[t := Thread(Releasing(id, p.live[id].bucket, false, false), threads[t].held - {id})];
    forall u | u in threads'
      ensures StageOk(p', threads'[u].stage) && HeldOk(p', threads'[u].held)
    {
      assert StageOk(p, threads[u].stage) && HeldOk(p, threads[u].held);
      if u != t {
        assert Apart(threads[t], threads[u]);
      }
    }
    forall u, v | u in threads' && v in threads' && u != v
      ensures Apart(threads'[u], threads'[v])
    {
      assert Apart(threads[u], threads[v]);
      assert HeldOk(p, threads[t].held) && StageOk(p, threads[u].stage) && StageOk(p, threads[v].stage);
    }
  }

  lemma ReleaseCovered<Id, Tid, Acct>(p: Pool<Id, Acct>, threads: map<Tid, Thread<Id, Acct>>, t: Tid, id: Id)
    requires Covered(p, threads) && t in threads && threads[t].stage.Idle? && id in p.live
    ensures Covered(SetReleased(p, id), threads[t := Thread(Releasing(id, p.live[id].bucket, false, false), threads[t].held - {id})])
  {
    var p' := SetReleased(p, id);
    var th := Thread(Releasing(id, p.live[id].bucket, false, false), threads[t].held - {id});
    var threads' := threads[t := th];
    forall other | other in p'.live
      ensures if p'.live[other].released then BeingReleased(threads', other) || Listed(p', other) else Owned(threads', other)
    {
      if other == id {
        assert t in threads' && threads'[t].stage.Releasing? && threads'[t].stage.id == id;
      } else {
        OthersKept(threads, t, th, other);
      }
    }
  }

  lemma BeginReleasePlaced<Id, Tid, Acct>(s: Sys<Id, Tid, Acct>, t: Tid, id: Id)
    requires Placed(s) && Apply(s, BeginRelease(t, id)).Next?
    ensures Placed(Apply(s, BeginRelease(t, id)).sys)
  {
    hide ListsOk, ThreadsOk, Covered, SetReleased;
    ReleaseLists(s.pool, id);
    ReleaseThreads(s.pool, s.threads, t, id);
    ReleaseCovered(s.pool, s.threads, t, id);
  }

  // Release: between the critical sections.

  /** Thread `t` keeps its arena but moves to a later stage; at most the arena's pin goes. */
  lemma LaterStagePlaced<Id, Tid, Acct>(s: Sys<Id, Tid, Acct>, t: Tid, later: Stage<Id, Acct>, a: Arena<Acct>, p': Pool<Id, Acct>)
    requires Placed(s) && t in s.threads && s.threads[t].stage.Releasing? && later.Releasing?
    requires later.id == s.threads[t].stage.id && later.bucket == s.threads[t].stage.bucket
    requires later.id in s.pool.live && p' == s.pool.(live := s.pool.live[later.id := a])
    requires a.released == s.pool.live[later.id].released && a.bucket == s.pool.live[later.id].bucket
    requires later.unpinned ==> later.counted && a.account.None?
    ensures ListsOk(p') && ThreadsOk(p', s.threads[t := s.threads[t].(stage := later)])
    ensures Covered(p', s.threads[t := s.threads[t].(stage := later)])
  {
    hide ListsOk, ThreadsOk, Covered, StageOk;
    StageOff(s.pool, s.threads, t);
    LaterLists(s.pool, later.id, a);
    LaterThreads(s.pool, s.threads, t, later, a);
    LaterCovered(s.pool, s.threads, t, later, a);
  }

  /** The lists do not look at an arena that is not on them. */
  lemma LaterLists<Id, Acct>(p: Pool<Id, Acct>, id: Id, a: Arena<Acct>)
    requires ListsOk(p) && id in p.live && a.released == p.live[id].released && a.bucket == p.live[id].bucket
    requires OffLists(p, id)
    ensures ListsOk(p.(live := p.live[id := a]))
  {
    var p' := p.(live := p.live[id := a]);
    forall z: Size
      ensures ListOk(p', z)
    {
      assert ListOk(p, z);
    }
  }

  lemma StageOff<Id, Tid, Acct>(p: Pool<Id, Acct>, threads: map<Tid, Thread<Id, Acct>>, t: Tid)
    requires ThreadsOk(p, threads) && t in threads && threads[t].stage.Releasing?
    ensures OffLists(p, threads[t].stage.id)
  {
    assert StageOk(p, threads[t].stage);
  }

  lemma LaterThreads<Id, Tid, Acct>(p: Pool<Id, Acct>, threads: map<Tid, Thread<Id, Acct>>, t: Tid, later: Stage<Id, Acct>, a: Arena<Acct>)
    requires ThreadsOk(p, threads) && t in threads && threads[t].stage.Releasing? && later.Releasing?
    requires later.id == threads[t].stage.id && later.bucket == threads[t].stage.bucket && later.id in p.live
    requires a.released == p.live[later.id].released && a.bucket == p.live[later.id].bucket
    requires later.unpinned ==> later.counted && a.account.None?
    ensures ThreadsOk(p.(live := p.live[later.id := a]), threads[t := threads[t].(stage := later)])
  {
    var p' := p.(live := p.live[later.id := a]);
    var threads' := threads[t := threads[t].(stage := later)];
    forall u | u in threads'
      ensures StageOk(p', threads'[u].stage) && HeldOk(p', threads'[u].held)
    {
      assert StageOk(p, threads[u].stage) && HeldOk(p, threads[u].held);
    }
    forall u, v | u in threads' && v in threads' && u != v
      ensures Apart(threads'[u], threads'[v])
    {
      assert Apart(threads[u], threads[v]);
    }
  }

  lemma LaterCovered<Id, Tid, Acct>(p: Pool<Id, Acct>, threads: map<Tid, Thread<Id, Acct>>, t: Tid, later: Stage<Id, Acct>, a: Arena<Acct>)
    requires Covered(p, threads) && t in threads && threads[t].stage.Releasing? && later.Releasing?
    requires later.id == threads[t].stage.id && later.id in p.live
    requires a.released == p.live[later.id].released && a.bucket == p.live[later.id].bucket
    ensures Covered(p.(live := p.live[later.id := a]), threads[t := threads[t].(stage := later)])
  {
    var p' := p.(live := p.live[later.id := a]);
    var th := threads[t].(stage := later);
    forall other | other in p'.live
      ensures if p'.live[other].released then BeingReleased(threads[t := th], other) || Listed(p', other) else Owned(threads[t := th], other)
    {
      OthersKept(threads, t, th, other);
    }
  }

  lemma CountDownPlaced<Id, Tid, Acct>(s: Sys<Id, Tid, Acct>, t: Tid)
    requires Placed(s) && Apply(s, CountDown(t)).Next?
    ensures Placed(Apply(s, CountDown(t)).sys)
  {
    hide ListsOk, Covered;
    assert StageOk(s.pool, s.threads[t].stage);
    var id := s.threads[t].stage.id;
    assert s.pool.live[id := s.pool.live[id]] == s.pool.live;
    LaterStagePlaced(s, t, s.threads[t].stage.(counted := true), s.pool.live[id], s.pool);
  }

  lemma UnpinPlaced<Id, Tid, Acct>(s: Sys<Id, Tid, Acct>, t: Tid)
    requires Placed(s) && Apply(s, Unpin(t)).Next? && Accounted(s)
    ensures Placed(Apply(s, Unpin(t)).sys)
  {
    hide ListsOk, Covered;
    var id := s.threads[t].stage.id;
    assert ArenaOk(s.pool.live[id], s.pending.Keys) && StageOk(s.pool, s.threads[t].stage);
    var p' := DoUnpin(s, id).pool;
    assert s.pool.live[id := s.pool.live[id]] == s.pool.live;
    LaterStagePlaced(s, t, s.threads[t].stage.(unpinned := true), p'.live[id], p');
  }

  // Release: second critical section.

  lemma FinishLists<Id, Acct>(p: Pool<Id, Acct>, id: Id)
    requires ListsOk(p) && id in p.live && p.live[id].released && p.live[id].account.None?
    requires OffLists(p, id)
    ensures ListsOk(GiveBack(p, id))
  {
    var p' := GiveBack(p, id);
    forall z: Size
      ensures ListOk(p', z)
    {
      assert ListOk(p, z) && ListOk(p, p.live[id].bucket);
    }
  }

  lemma FinishThreads<Id, Tid, Acct>(p: Pool<Id, Acct>, threads: map<Tid, Thread<Id, Acct>>, t: Tid)
    requires ListsOk(p) && ThreadsOk(p, threads) && t in threads && threads[t].stage.Releasing?
    ensures threads[t].stage.id in p.live
    ensures ThreadsOk(GiveBack(p, threads[t].stage.id), threads[t := threads[t].(stage := Idle)])
  {
    assert StageOk(p, threads[t].stage);
    var id := threads[t].stage.id;
    var p' := GiveBack(p, id);
    var threads' := threads[t := threads[t].(stage := Idle)];
    forall u | u in threads'
      ensures StageOk(p', threads'[u].stage) && HeldOk(p', threads'[u].held)
    {
      assert StageOk(p, threads[u].stage) && HeldOk(p, threads[u].held);
      if u != t {
        assert Apart(threads[t], threads[u]);
      }
    }
    forall u, v | u in threads' && v in threads' && u != v
      ensures Apart(threads'[u], threads'[v])
    {
      assert Apart(threads[u], threads[v]);
    }
  }

  lemma FinishCovered<Id, Tid, Acct>(p: Pool<Id, Acct>, threads: map<Tid, Thread<Id, Acct>>, t: Tid)
    requires ListsOk(p) && Covered(p, threads) && t in threads && threads[t].stage.Releasing? && threads[t].stage.id in p.live
    requires p.live[threads[t].stage.id].released
    ensures Covered(GiveBack(p, threads[t].stage.id), threads[t := threads[t].(stage := Idle)])
  {
    var id := threads[t].stage.id;
    var z := p.live[id].bucket;
    var p' := GiveBack(p, id);
    var th := threads[t].(stage := Idle);
    var threads' := threads[t := th];
    forall other | other in p'.live
      ensures if p'.live[other].released then BeingReleased(threads', other) || Listed(p', other) else Owned(threads', other)
    {
      if other == id {
        assert p'.lists[z][0] == id;
      } else {
        OthersKept(threads, t, th, other);
        if Listed(p, other) && !Discards(p, z) && p.live[other].bucket == z {
          var i :| 0 <= i < |p.lists[z]| && p.lists[z][i] == other;
          assert p'.lists[z][i + 1] == other;
        }
      }
    }
  }

  lemma FinishPlaced<Id, Tid, Acct>(s: Sys<Id, Tid, Acct>, t: Tid)
    requires Placed(s) && Apply(s, FinishRelease(t)).Next?
    ensures Placed(Apply(s, FinishRelease(t)).sys)
  {
    hide ListsOk, Covered, GiveBack;
    assert StageOk(s.pool, s.threads[t].stage);
    ListsTotal(s.pool);
    FinishLists(s.pool, s.threads[t].stage.id);
    FinishThreads(s.pool, s.threads, t);
    FinishCovered(s.pool, s.threads, t);
  }

  lemma ListsTotal<Id, Acct>(p: Pool<Id, Acct>)
    requires ListsOk(p)
    ensures forall z: Size :: HasList(p, z)
  {}

  // ---------------------------------------------------------------------
  // The counters, step by step

  lemma BalancedUpdate<Id, Acct>(live: map<Id, Arena<Acct>>, pending: map<Acct, int>, drained: map<Acct, int>, id: Id, a: Arena<Acct>, pending': map<Acct, int>)
    requires Balanced(live, pending, drained) && id in live && pending'.Keys == pending.Keys
    requires forall x :: x in pending ==> pending'[x] - pending[x] == PinnedTo(x)(a) - PinnedTo(x)(live[id])
    ensures Balanced(live[id := a], pending', drained)
  {
    forall x | x in pending'
      ensures pending'[x] + drained[x] == Sum(live[id := a], PinnedTo(x))
    {
      SumUpdate(live, PinnedTo(x), id, a);
    }
  }

  lemma BalancedAdd<Id, Acct>(live: map<Id, Arena<Acct>>, pending: map<Acct, int>, drained: map<Acct, int>, id: Id, a: Arena<Acct>)
    requires Balanced(live, pending, drained) && id !in live && a.reported == 0
    ensures Balanced(live[id := a], pending, drained)
  {
    forall x | x in pending
      ensures pending[x] + drained[x] == Sum(live[id := a], PinnedTo(x))
    {
      SumAdd(live, PinnedTo(x), id, a);
    }
  }

  lemma BalancedRemove<Id, Acct>(live: map<Id, Arena<Acct>>, pending: map<Acct, int>, drained: map<Acct, int>, id: Id)
    requires Balanced(live, pending, drained) && id in live && live[id].reported == 0
    ensures Balanced(live - {id}, pending, drained)
  {
    forall x | x in pending
      ensures pending[x] + drained[x] == Sum(live - {id}, PinnedTo(x))
    {
      SumRemove(live, PinnedTo(x), id);
    }
  }

  /** A change of one arena's flag and one thread's stage keeps the count when the
      gauge and the failures move by the difference. */
  lemma CountUpdate<Id, Tid, Acct>(
      live: map<Id, Arena<Acct>>, threads: map<Tid, Thread<Id, Acct>>, inflight: map<Size, int>, failed: map<Size, int>,
      live': map<Id, Arena<Acct>>, id: Id, t: Tid, th: Thread<Id, Acct>, inflight': map<Size, int>, failed': map<Size, int>)
    requires CountOk(live, threads, inflight, failed) && t in threads
    requires live' == live || (id in live && id in live' && live' == live[id := live'[id]])
          || (id !in live && id in live' && live' == live[id := live'[id]]) || (id in live && live' == live - {id})
    requires forall z: Size :: z in inflight' && z in failed'
    requires forall z: Size ::
      inflight'[z] - inflight[z] == Weight(live', id, z) - Weight(live, id, z) + InCall(z)(th) - InCall(z)(threads[t]) + failed'[z] - failed[z]
    ensures CountOk(live', threads[t := th], inflight', failed')
  {
    forall z: Size
      ensures inflight'[z] == Sum(live', OutOf(z)) + Sum(threads[t := th], InCall(z)) + failed'[z]
    {
      SumUpdate(threads, InCall(z), t, th);
      SumChange(live, live', id, z);
    }
  }

  ghost function Weight<Id, Acct>(live: map<Id, Arena<Acct>>, id: Id, z: Size): int {
    if id in live then OutOf(z)(live[id]) else 0
  }

  lemma SumChange<Id, Acct>(live: map<Id, Arena<Acct>>, live': map<Id, Arena<Acct>>, id: Id, z: Size)
    requires live' == live || (id in live && id in live' && live' == live[id := live'[id]])
          || (id !in live && id in live' && live' == live[id := live'[id]]) || (id in live && live' == live - {id})
    ensures Sum(live', OutOf(z)) == Sum(live, OutOf(z)) + Weight(live', id, z) - Weight(live, id, z)
  {
    if live' == live {
    } else if id in live && id in live' {
      SumUpdate(live, OutOf(z), id, live'[id]);
    } else if id in live' {
      SumAdd(live, OutOf(z), id, live'[id]);
    } else {
      SumRemove(live, OutOf(z), id);
    }
  }

  /** `bytes` follows the blocks through every backing call, and never underflows. */
  lemma BlocksKept<Acct>(a: Arena<Acct>, at: nat, to: nat, len: nat)
    requires a.bytes == BlockBytes(a.blocks)
    ensures a.bytes >= 0
    ensures at !in a.blocks ==> Grow(a, at, len).bytes == BlockBytes(Grow(a, at, len).blocks)
    ensures at in a.blocks ==> a.blocks[at] <= a.bytes && Shrink(a, at).bytes == BlockBytes(Shrink(a, at).blocks)
    ensures at in a.blocks && (to == at || to !in a.blocks) ==> Move(a, at, to, len).bytes == BlockBytes(Move(a, at, to, len).blocks)
  {
    SumNonNegative(a.blocks, Length);
    if at in a.blocks {
      SumRemove(a.blocks, Length, at);
      assert Length(a.blocks[at]) <= Sum(a.blocks, Length);
      if to == at || to !in a.blocks {
        SumAdd(a.blocks - {at}, Length, to, len);
      }
    } else {
      SumAdd(a.blocks, Length, at, len);
    }
  }

  lemma ArenasUpdate<Id, Acct>(live: map<Id, Arena<Acct>>, accounts: set<Acct>, id: Id, a: Arena<Acct>)
    requires ArenasOk(live, accounts) && ArenaOk(a, accounts)
    ensures ArenasOk(live[id := a], accounts)
  {}

  lemma ArenasRemove<Id, Acct>(live: map<Id, Arena<Acct>>, accounts: set<Acct>, id: Id)
    requires ArenasOk(live, accounts)
    ensures ArenasOk(live - {id}, accounts)
  {}

  lemma LockingUpdate<Id, Tid, Acct>(threads: map<Tid, Thread<Id, Acct>>, accounts: set<Acct>, t: Tid, th: Thread<Id, Acct>)
    requires LockingOk(threads, accounts)
    requires th.stage.Locking? && th.stage.account.Some? ==> th.stage.account.value in accounts
    ensures LockingOk(threads[t := th], accounts)
  {}

  /** An update of one arena that its ledgers, the accounts and the gauge agree on. */
  lemma ArenaStep<Id, Tid, Acct>(s: Sys<Id, Tid, Acct>, id: Id, a: Arena<Acct>, pending': map<Acct, int>)
    requires Accounted(s) && Counted(s) && id in s.pool.live && ArenaOk(a, s.pending.Keys)
    requires a.released == s.pool.live[id].released && a.bucket == s.pool.live[id].bucket
    requires pending'.Keys == s.pending.Keys
    requires forall x :: x in s.pending ==> pending'[x] - s.pending[x] == PinnedTo(x)(a) - PinnedTo(x)(s.pool.live[id])
    ensures Accounted(SetArena(s, id, a).(pending := pending')) && Counted(SetArena(s, id, a).(pending := pending'))
  {
    hide ArenaOk, ArenasOk, LockingOk, Balanced, Sum;
    ArenasUpdate(s.pool.live, s.pending.Keys, id, a);
    BalancedUpdate(s.pool.live, s.pending, s.drained, id, a, pending');
    SumUpdate(s.pool.live, Bytes, id, a);
    forall z: Size
      ensures Sum(s.pool.live[id := a], OutOf(z)) == Sum(s.pool.live, OutOf(z))
    {
      SumUpdate(s.pool.live, OutOf(z), id, a);
    }
  }

  lemma OkAt<Id, Acct>(live: map<Id, Arena<Acct>>, accounts: set<Acct>, id: Id)
    requires ArenasOk(live, accounts) && id in live
    ensures ArenaOk(live[id], accounts)
  {}

  /** A backing call on one arena moves its ledger and the gauge together. */
  lemma LedgerStep<Id, Tid, Acct>(s: Sys<Id, Tid, Acct>, id: Id, a: Arena<Acct>)
    requires Inv(s) && id in s.pool.live && a.bytes == BlockBytes(a.blocks)
    requires var b := s.pool.live[id];
      a.released == b.released && a.bucket == b.bucket && a.account == b.account && a.reported == b.reported
    ensures Inv(SetArena(s, id, a))
  {
    hide Placed, Counted, BlockBytes, Sum, ArenasOk, Balanced, LockingOk;
    PlacementKept(s, SetArena(s, id, a));
    OkAt(s.pool.live, s.pending.Keys, id);
    ArenaStep(s, id, a, s.pending);
    assert SetArena(s, id, a).(pending := s.pending) == SetArena(s, id, a);
  }

  lemma ReportStep<Id, Tid, Acct>(s: Sys<Id, Tid, Acct>, id: Id)
    requires Inv(s) && id in s.pool.live
    ensures Inv(DoReport(s, id))
  {
    hide Placed, Counted, Accounted, ArenaOk, BlockBytes, Sum;
    ArenaKnown(s, id);
    var b := s.pool.live[id];
    if b.account.Some? {
      var s' := DoReport(s, id);
      var a := b.(reported := b.bytes);
      PlacementKept(s, s');
      LaterReported(b, a, s.pending.Keys);
      ArenaStep(s, id, a, s'.pending);
      assert SetArena(s, id, a).(pending := s'.pending) == s';
    }
  }

  lemma ArenaKnown<Id, Tid, Acct>(s: Sys<Id, Tid, Acct>, id: Id)
    requires Accounted(s) && id in s.pool.live
    ensures var b := s.pool.live[id];
      ArenaOk(b, s.pending.Keys) && (b.account.Some? ==> b.account.value in s.pending)
  {
    hide Sum, Balanced, LockingOk;
  }

  lemma LaterReported<Acct>(b: Arena<Acct>, a: Arena<Acct>, accounts: set<Acct>)
    requires ArenaOk(b, accounts) && b.account.Some? && a == b.(reported := a.reported)
    ensures ArenaOk(a, accounts)
  {}

  lemma UnpinStep<Id, Tid, Acct>(s: Sys<Id, Tid, Acct>, t: Tid)
    requires Inv(s) && Apply(s, Unpin(t)).Next?
    ensures Inv(Apply(s, Unpin(t)).sys)
  {
    hide Placed, Counted, BlockBytes, Sum, ArenasOk, Balanced, LockingOk;
    UnpinPlaced(s, t);
    var id := s.threads[t].stage.id;
    var b := s.pool.live[id];
    OkAt(s.pool.live, s.pending.Keys, id);
    var mid := DoUnpin(s, id);
    if b.account.Some? {
      var a := b.(reported := 0, account := None);
      ArenaStep(s, id, a, mid.pending);
      assert SetArena(s, id, a).(pending := mid.pending) == mid;
    }
    CountsTotal(s);
    ThreadStep(mid, t, s.threads[t].(stage := s.threads[t].stage.(unpinned := true)), mid.inflight, mid.failed);
    assert SetThread(mid, t, s.threads[t].(stage := s.threads[t].stage.(unpinned := true))).(inflight := mid.inflight, failed := mid.failed)
        == Apply(s, Unpin(t)).sys;
  }

  /** A thread changes stage and the in-flight gauge follows. */
  lemma ThreadStep<Id, Tid, Acct>(s: Sys<Id, Tid, Acct>, t: Tid, th: Thread<Id, Acct>, inflight': map<Size, int>, failed': map<Size, int>)
    requires Accounted(s) && Counted(s) && t in s.threads
    requires th.stage.Locking? && th.stage.account.Some? ==> th.stage.account.value in s.pending
    requires forall z: Size :: z in inflight' && z in failed' && z in s.inflight && z in s.failed
    requires forall z: Size :: inflight'[z] - s.inflight[z] == InCall(z)(th) - InCall(z)(s.threads[t]) + failed'[z] - s.failed[z]
    ensures Accounted(SetThread(s, t, th).(inflight := inflight', failed := failed'))
    ensures Counted(SetThread(s, t, th).(inflight := inflight', failed := failed'))
  {
    hide ArenasOk, LockingOk, Balanced, Sum;
    LockingUpdate(s.threads, s.pending.Keys, t, th);
    forall z: Size
      ensures inflight'[z] == Sum(s.pool.live, OutOf(z)) + Sum(s.threads[t := th], InCall(z)) + failed'[z]
    {
      SumUpdate(s.threads, InCall(z), t, th);
    }
  }

  lemma CountsTotal<Id, Tid, Acct>(s: Sys<Id, Tid, Acct>)
    requires Counted(s)
    ensures forall z: Size :: z in s.inflight && z in s.failed
  {}

  lemma CountDownStep<Id, Tid, Acct>(s: Sys<Id, Tid, Acct>, t: Tid)
    requires Inv(s) && Apply(s, CountDown(t)).Next?
    ensures Inv(Apply(s, CountDown(t)).sys)
  {
    hide Placed, Counted, Accounted;
    CountDownPlaced(s, t);
    CountsTotal(s);
    var s' := Apply(s, CountDown(t)).sys;
    ThreadStep(s, t, s'.threads[t], s'.inflight, s'.failed);
    assert SetThread(s, t, s'.threads[t]).(inflight := s'.inflight, failed := s'.failed) == s';
  }

  lemma BeginAcquireStep<Id, Tid, Acct>(s: Sys<Id, Tid, Acct>, t: Tid, size: Size, account: Option<Acct>)
    requires Inv(s) && Apply(s, BeginAcquire(t, size, account)).Next?
    ensures Inv(Apply(s, BeginAcquire(t, size, account)).sys)
  {
    hide Placed, Counted, Accounted;
    var s' := Apply(s, BeginAcquire(t, size, account)).sys;
    StagePlaced(s, t, Locking(size, account), s');
    CountsTotal(s);
    ThreadStep(s, t, s'.threads[t], s'.inflight, s'.failed);
    assert SetThread(s, t, s'.threads[t]).(inflight := s'.inflight, failed := s'.failed) == s';
  }

  lemma AcquireFailStep<Id, Tid, Acct>(s: Sys<Id, Tid, Acct>, t: Tid)
    requires Inv(s) && Apply(s, AcquireFail(t)).Next?
    ensures Inv(Apply(s, AcquireFail(t)).sys)
  {
    hide Placed, Counted, Accounted;
    var s' := Apply(s, AcquireFail(t)).sys;
    StagePlaced(s, t, Idle, s');
    CountsTotal(s);
    ThreadStep(s, t, s'.threads[t], s'.inflight, s'.failed);
    assert SetThread(s, t, s'.threads[t]).(inflight := s'.inflight, failed := s'.failed) == s';
  }

  /** A step that hands one arena over: it changes flags, not ledgers. */
  lemma OwnerStep<Id, Tid, Acct>(s: Sys<Id, Tid, Acct>, t: Tid, id: Id, a: Arena<Acct>, s': Sys<Id, Tid, Acct>)
    requires Accounted(s) && Counted(s) && t in s.threads && t in s'.threads && !s'.threads[t].stage.Locking?
    requires s'.threads == s.threads[t := s'.threads[t]] && s'.pool.live == s.pool.live[id := a]
    requires s'.pending == s.pending && s'.drained == s.drained && s'.inflight == s.inflight && s'.failed == s.failed && s'.gauge == s.gauge
    requires ArenaOk(a, s.pending.Keys)
    requires if id in s.pool.live then
        var b := s.pool.live[id];
        a.bytes == b.bytes && a.reported == b.reported && (a.account == b.account || a.reported == 0)
      else a.bytes == 0 && a.reported == 0
    requires forall z: Size :: Weight(s'.pool.live, id, z) - Weight(s.pool.live, id, z) == InCall(z)(s.threads[t]) - InCall(z)(s'.threads[t])
    ensures Accounted(s') && Counted(s')
  {
    hide ArenaOk, ArenasOk, LockingOk, Balanced, Sum, CountOk;
    ArenasUpdate(s.pool.live, s.pending.Keys, id, a);
    LockingUpdate(s.threads, s.pending.Keys, t, s'.threads[t]);
    if id in s.pool.live {
      BalancedUpdate(s.pool.live, s.pending, s.drained, id, a, s.pending);
      SumUpdate(s.pool.live, Bytes, id, a);
    } else {
      BalancedAdd(s.pool.live, s.pending, s.drained, id, a);
      SumAdd(s.pool.live, Bytes, id, a);
    }
    CountsTotal(s);
    CountUpdate(s.pool.live, s.threads, s.inflight, s.failed, s'.pool.live, id, t, s'.threads[t], s'.inflight, s'.failed);
  }

  lemma HeadUnpinned<Id, Acct>(p: Pool<Id, Acct>, size: Size)
    requires ListsOk(p) && HasList(p, size) && p.lists[size] != []
    ensures var id := p.lists[size][0];
      id in p.live && p.live[id].account.None? && p.live[id].released && p.live[id].bucket == size
  {}

  lemma AcquireHitStep<Id, Tid, Acct>(s: Sys<Id, Tid, Acct>, t: Tid)
    requires Inv(s) && Apply(s, AcquireHit(t)).Next?
    ensures Inv(Apply(s, AcquireHit(t)).sys)
  {
    hide ListsOk, ThreadsOk, Covered, Counted, BlockBytes, Sum, ArenasOk, Balanced;
    HitPlaced(s, t);
    var s' := Apply(s, AcquireHit(t)).sys;
    var size := s.threads[t].stage.size;
    var id := s.pool.lists[size][0];
    HeadUnpinned(s.pool, size);
    OkAt(s.pool.live, s.pending.Keys, id);
    OwnerStep(s, t, id, s'.pool.live[id], s');
  }

  lemma AcquireMissStep<Id, Tid, Acct>(s: Sys<Id, Tid, Acct>, t: Tid, id: Id)
    requires Inv(s) && Apply(s, AcquireMiss(t, id)).Next?
    ensures Inv(Apply(s, AcquireMiss(t, id)).sys)
  {
    hide Placed, Counted, ArenasOk, Balanced;
    MissPlaced(s, t, id);
    var s' := Apply(s, AcquireMiss(t, id)).sys;
    OwnerStep(s, t, id, s'.pool.live[id], s');
  }

  lemma BeginReleaseStep<Id, Tid, Acct>(s: Sys<Id, Tid, Acct>, t: Tid, id: Id)
    requires Inv(s) && Apply(s, BeginRelease(t, id)).Next?
    ensures Inv(Apply(s, BeginRelease(t, id)).sys)
  {
    hide Placed, Counted, BlockBytes, Sum, ArenasOk, Balanced;
    BeginReleasePlaced(s, t, id);
    var s' := Apply(s, BeginRelease(t, id)).sys;
    OkAt(s.pool.live, s.pending.Keys, id);
    OwnerStep(s, t, id, s'.pool.live[id], s');
  }

  /** What a finishing release knows of its arena. */
  lemma ReleasedArena<Id, Tid, Acct>(s: Sys<Id, Tid, Acct>, t: Tid)
    requires Placed(s) && t in s.threads && s.threads[t].stage.Releasing? && s.threads[t].stage.unpinned
    ensures var id := s.threads[t].stage.id;
      id in s.pool.live && s.pool.live[id].released && s.pool.live[id].account.None? && s.threads[t].stage.counted
  {
    assert StageOk(s.pool, s.threads[t].stage);
  }

  lemma FinishReleaseStep<Id, Tid, Acct>(s: Sys<Id, Tid, Acct>, t: Tid)
    requires Inv(s) && Apply(s, FinishRelease(t)).Next?
    ensures Inv(Apply(s, FinishRelease(t)).sys)
  {
    hide Placed, CountOk, BlockBytes, Sum, ArenasOk, Balanced, LockingOk;
    FinishPlaced(s, t);
    var s' := Apply(s, FinishRelease(t)).sys;
    var id := s.threads[t].stage.id;
    ReleasedArena(s, t);
    OkAt(s.pool.live, s.pending.Keys, id);
    LockingUpdate(s.threads, s.pending.Keys, t, s'.threads[t]);
    CountsTotal(s);
    CountUpdate(s.pool.live, s.threads, s.inflight, s.failed, s'.pool.live, id, t, s'.threads[t], s'.inflight, s'.failed);
    if Discards(s.pool, s.pool.live[id].bucket) {
      ArenasRemove(s.pool.live, s.pending.Keys, id);
      BalancedRemove(s.pool.live, s.pending, s.drained, id);
      SumRemove(s.pool.live, Bytes, id);
    }
  }

  lemma DrainStep<Id, Tid, Acct>(s: Sys<Id, Tid, Acct>, reader: Acct)
    requires Inv(s) && Apply(s, Drain(reader)).Next?
    ensures Inv(Apply(s, Drain(reader)).sys)
  {
    hide Placed, ArenasOk, LockingOk, CountOk;
    var s' := Apply(s, Drain(reader)).sys;
    PlacementKept(s, s');
    assert s'.pending.Keys == s.pending.Keys && s'.drained.Keys == s.drained.Keys;
  }

  // ---------------------------------------------------------------------
  // Whole runs

  lemma PassOnThreads<Id, Tid, Acct>(p: Pool<Id, Acct>, threads: map<Tid, Thread<Id, Acct>>, t: Tid, to: Tid, id: Id)
    requires ThreadsOk(p, threads) && Covered(p, threads) && t in threads && to in threads && id in threads[t].held
    ensures ThreadsOk(p, Passed(threads, t, to, id)) && Covered(p, Passed(threads, t, to, id))
  {
    var threads' := Passed(threads, t, to, id);
    forall u | u in threads'
      ensures StageOk(p, threads'[u].stage) && HeldOk(p, threads'[u].held)
    {
      assert StageOk(p, threads[u].stage) && HeldOk(p, threads[u].held) && HeldOk(p, threads[t].held);
    }
    forall u, v | u in threads' && v in threads' && u != v
      ensures Apart(threads'[u], threads'[v])
    {
      assert Apart(threads[u], threads[v]) && (u != t ==> Apart(threads[t], threads[u])) && (v != t ==> Apart(threads[t], threads[v]));
    }
    forall other
      ensures Owned(threads, other) ==> Owned(threads', other)
      ensures BeingReleased(threads, other) ==> BeingReleased(threads', other)
    {
      if Owned(threads, other) {
        var u :| u in threads && other in threads[u].held;
        assert other in threads'[if other == id then to else u].held;
      }
      if BeingReleased(threads, other) {
        var u :| u in threads && threads[u].stage.Releasing? && threads[u].stage.id == other;
        assert threads'[u].stage == threads[u].stage;
      }
    }
  }

  lemma PassOnStep<Id, Tid, Acct>(s: Sys<Id, Tid, Acct>, t: Tid, to: Tid, id: Id)
    requires Inv(s) && Apply(s, PassOn(t, to, id)).Next?
    ensures Inv(Apply(s, PassOn(t, to, id)).sys)
  {
    PassOnThreads(s.pool, s.threads, t, to, id);
    hide ThreadsOk, ListsOk, Covered, Counted, Accounted;
    var mid := SetThread(s, t, s.threads[t].(held := s.threads[t].held - {id}));
    var s' := SetThread(mid, to, mid.threads[to].(held := mid.threads[to].held + {id}));
    HeldStep(s, t, mid.threads[t]);
    HeldStep(mid, to, s'.threads[to]);
    assert s' == Apply(s, PassOn(t, to, id)).sys;
  }

  /** The ledgers and counters do not look at what a thread holds. */
  lemma HeldStep<Id, Tid, Acct>(s: Sys<Id, Tid, Acct>, t: Tid, th: Thread<Id, Acct>)
    requires Accounted(s) && Counted(s) && t in s.threads && th.stage == s.threads[t].stage
    ensures Accounted(SetThread(s, t, th)) && Counted(SetThread(s, t, th))
  {
    CountsTotal(s);
    ThreadStep(s, t, th, s.inflight, s.failed);
    assert SetThread(s, t, th).(inflight := s.inflight, failed := s.failed) == SetThread(s, t, th);
  }

  lemma StepKeepsInv<Id, Tid, Acct>(s: Sys<Id, Tid, Acct>, step: Step<Id, Tid, Acct>)
    requires Inv(s) && Apply(s, step).Next?
    ensures Inv(Apply(s, step).sys)
  {
    hide Placed, Counted, ArenasOk, Balanced, LockingOk, BlockBytes;
    match step
    case BeginAcquire(t, size, account) => BeginAcquireStep(s, t, size, account);
    case AcquireHit(t) => AcquireHitStep(s, t);
    case AcquireMiss(t, id) => AcquireMissStep(s, t, id);
    case AcquireFail(t) => AcquireFailStep(s, t);
    case RawAlloc(t, id, at, len) =>
      OkAt(s.pool.live, s.pending.Keys, id);
      BlocksKept(s.pool.live[id], at, at, len);
      LedgerStep(s, id, Grow(s.pool.live[id], at, len));
    case RawMove(t, id, at, to, len) =>
      OkAt(s.pool.live, s.pending.Keys, id);
      BlocksKept(s.pool.live[id], at, to, len);
      LedgerStep(s, id, Move(s.pool.live[id], at, to, len));
    case RawFree(t, id, at) =>
      OkAt(s.pool.live, s.pending.Keys, id);
      BlocksKept(s.pool.live[id], at, at, 0);
      LedgerStep(s, id, Shrink(s.pool.live[id], at));
    case Report(t, id) => ReportStep(s, id);
    case PassOn(t, to, id) => PassOnStep(s, t, to, id);
    case BeginRelease(t, id) => BeginReleaseStep(s, t, id);
    case CountDown(t) => CountDownStep(s, t);
    case Unpin(t) => UnpinStep(s, t);
    case FinishRelease(t) => FinishReleaseStep(s, t);
    case Drain(reader) => DrainStep(s, reader);
  }

  /** The invariant holds after every run from the initial state, however the threads
      interleave. */
  lemma {:induction false} RunKeepsInv<Id, Tid, Acct>(s: Sys<Id, Tid, Acct>, steps: seq<Step<Id, Tid, Acct>>)
    requires Inv(s) && Run(s, steps).Some?
    ensures Inv(Run(s, steps).value)
    decreases |steps|
  {
    hide Inv, Apply;
    if steps != [] {
      StepKeepsInv(s, steps[0]);
      RunKeepsInv(Apply(s, steps[0]).sys, steps[1..]);
    }
  }

  ghost predicate Reachable<Id, Tid, Acct>(s0: Sys<Id, Tid, Acct>, steps: seq<Step<Id, Tid, Acct>>, s: Sys<Id, Tid, Acct>) {
    Initial(s0) && Run(s0, steps) == Some(s)
  }

  /** Any configuration of caps and any set of threads and accounts is where runs start. */
  lemma CanStart<Id, Tid, Acct>(threads: set<Tid>, accounts: set<Acct>, cap: map<Size, nat>, safety: bool)
    returns (s: Sys<Id, Tid, Acct>)
    requires forall z: Size :: z in cap
    ensures Initial(s) && s.threads.Keys == threads && s.pending.Keys == accounts && s.pool.max == cap && s.pool.safety == safety
  {
    var none := map[Tiny := 0, Small := 0, Medium := 0, Large := 0];
    s := Sys(Pool(map[], map[Tiny := [], Small := [], Medium := [], Large := []], cap, safety),
             map t | t in threads :: Thread(Idle, {}), map x | x in accounts :: 0, map x | x in accounts :: 0, 0, none, none);
    forall z: Size
      ensures z in s.pool.lists && s.pool.lists[z] == [] && z in s.inflight && s.inflight[z] == 0
    {
      match z case Tiny => case Small => case Medium => case Large =>
    }
  }

  /** Who has an arena. */
  datatype Place<Tid> = HeldBy(t: Tid) | ReleasedBy(t: Tid) | OnList

  ghost predicate At<Id, Tid, Acct>(s: Sys<Id, Tid, Acct>, id: Id, place: Place<Tid>)
    requires id in s.pool.live
  {
    match place
    case HeldBy(t) => t in s.threads && id in s.threads[t].held
    case ReleasedBy(t) => t in s.threads && s.threads[t].stage.Releasing? && s.threads[t].stage.id == id
    case OnList => Listed(s.pool, id)
  }

  /** In every reachable state each live arena is in exactly one place: checked out by one
      thread, being released by one thread, or on its own bucket's free list. */
  lemma ExactlyOnePlace<Id, Tid, Acct>(s0: Sys<Id, Tid, Acct>, steps: seq<Step<Id, Tid, Acct>>, s: Sys<Id, Tid, Acct>, id: Id)
    returns (place: Place<Tid>)
    requires Reachable(s0, steps, s) && id in s.pool.live
    ensures At(s, id, place)
    ensures forall t :: t in s.threads ==> (At(s, id, HeldBy(t)) ==> place == HeldBy(t)) && (At(s, id, ReleasedBy(t)) ==> place == ReleasedBy(t))
    ensures At(s, id, OnList) ==> place == OnList
  {
    ReachableInv(s0, steps, s);
    if !s.pool.live[id].released {
      var t :| t in s.threads && id in s.threads[t].held;
      place := HeldBy(t);
    } else if BeingReleased(s.threads, id) {
      var t :| t in s.threads && s.threads[t].stage.Releasing? && s.threads[t].stage.id == id;
      place := ReleasedBy(t);
    } else {
      place := OnList;
    }
    hide Covered;
    forall u | u in s.threads
      ensures At(s, id, HeldBy(u)) ==> place == HeldBy(u)
      ensures At(s, id, ReleasedBy(u)) ==> place == ReleasedBy(u)
    {
      assert StageOk(s.pool, s.threads[u].stage) && HeldOk(s.pool, s.threads[u].held);
      if place.HeldBy? || place.ReleasedBy? {
        if u != place.t {
          assert Apart(s.threads[u], s.threads[place.t]);
        }
      }
    }
  }

  lemma ReachableInv<Id, Tid, Acct>(s0: Sys<Id, Tid, Acct>, steps: seq<Step<Id, Tid, Acct>>, s: Sys<Id, Tid, Acct>)
    requires Reachable(s0, steps, s)
    ensures Inv(s)
  {
    hide Inv, Initial, Apply;
    InitialInv(s0);
    RunKeepsInv(s0, steps);
  }

  /** A release by any idle thread of a live arena is caught exactly when nobody has the
      arena checked out, that is when it is free-listed or another release of it is
      under way. */
  lemma DoubleReleaseCaught<Id, Tid, Acct>(s0: Sys<Id, Tid, Acct>, steps: seq<Step<Id, Tid, Acct>>, s: Sys<Id, Tid, Acct>, t: Tid, id: Id)
    requires Reachable(s0, steps, s) && id in s.pool.live && t in s.threads && s.threads[t].stage.Idle?
    ensures Apply(s, BeginRelease(t, id)) == Caught <==> !Owned(s.threads, id)
    ensures Apply(s, BeginRelease(t, id)) == Caught <==> BeingReleased(s.threads, id) || Listed(s.pool, id)
  {
    ReachableInv(s0, steps, s);
    forall u | u in s.threads
      ensures id in s.threads[u].held ==> !s.pool.live[id].released
      ensures s.threads[u].stage.Releasing? && s.threads[u].stage.id == id ==> s.pool.live[id].released
    {
      assert StageOk(s.pool, s.threads[u].stage) && HeldOk(s.pool, s.threads[u].held);
    }
    if Listed(s.pool, id) {
      var i :| 0 <= i < |s.pool.lists[s.pool.live[id].bucket]| && s.pool.lists[s.pool.live[id].bucket][i] == id;
    }
  }

  /** What the flag cannot catch: a release of an arena that is checked out goes through,
      and leaves every arena in one place if and only if the releasing thread holds it. */
  lemma ReleaseSafeIff<Id, Tid, Acct>(s0: Sys<Id, Tid, Acct>, steps: seq<Step<Id, Tid, Acct>>, s: Sys<Id, Tid, Acct>, t: Tid, id: Id)
    requires Reachable(s0, steps, s) && id in s.pool.live && t in s.threads && s.threads[t].stage.Idle?
    requires Owned(s.threads, id)
    ensures Placed(Released(s, t, id)) <==> id in s.threads[t].held
  {
    hide Reachable, Accounted, Counted, Covered, ListsOk, OffLists;
    ReachableInv(s0, steps, s);
    var u :| u in s.threads && id in s.threads[u].held;
    assert HeldOk(s.pool, s.threads[u].held);
    if id in s.threads[t].held {
      BeginReleasePlaced(s, t, id);
    } else {
      var s' := Released(s, t, id);
      assert u in s'.threads && !HeldOk(s'.pool, s'.threads[u].held) by {
        assert id in s'.threads[u].held && s'.pool.live[id].released;
      }
      assert !ThreadsOk(s'.pool, s'.threads);
    }
  }

  /** Within its cap, without repetition, and empty under safety. */
  lemma ListsBounded<Id, Tid, Acct>(s0: Sys<Id, Tid, Acct>, steps: seq<Step<Id, Tid, Acct>>, s: Sys<Id, Tid, Acct>, z: Size)
    requires Reachable(s0, steps, s)
    ensures HasList(s.pool, z) && |s.pool.lists[z]| <= s.pool.max[z] && NoDuplicates(s.pool.lists[z])
    ensures s.pool.safety ==> s.pool.lists[z] == []
    ensures forall id :: id in s.pool.lists[z] ==> id in s.pool.live && s.pool.live[id].bucket == z && s.pool.live[id].released
  {
    ReachableInv(s0, steps, s);
  }

  /** Every arena's byte counter is the sum of its live blocks, retained arenas included,
      and the gauge is the sum of the counters. */
  lemma BytesConserved<Id, Tid, Acct>(s0: Sys<Id, Tid, Acct>, steps: seq<Step<Id, Tid, Acct>>, s: Sys<Id, Tid, Acct>)
    requires Reachable(s0, steps, s)
    ensures s.gauge == Sum(s.pool.live, Bytes)
    ensures forall id :: id in s.pool.live ==>
      s.pool.live[id].bytes == BlockBytes(s.pool.live[id].blocks) && 0 <= s.pool.live[id].bytes <= s.gauge
  {
    hide Placed, Counted, Balanced;
    ReachableInv(s0, steps, s);
    forall id | id in s.pool.live
      ensures s.pool.live[id].bytes == BlockBytes(s.pool.live[id].blocks) && 0 <= s.pool.live[id].bytes
    {
      assert ArenaOk(s.pool.live[id], s.pending.Keys);
      BlocksKept(s.pool.live[id], 0, 0, 0);
    }
    SumNonNegative(s.pool.live, Bytes);
    assert forall id :: id in s.pool.live ==> Bytes(s.pool.live[id]) == s.pool.live[id].bytes;
  }

  /** What an account owes plus what was drained from it is what its pinned arenas report;
      an unpinned arena reports nothing, so reuse under a new account starts at zero. */
  lemma AccountsConserved<Id, Tid, Acct>(s0: Sys<Id, Tid, Acct>, steps: seq<Step<Id, Tid, Acct>>, s: Sys<Id, Tid, Acct>)
    requires Reachable(s0, steps, s)
    ensures forall x :: x in s.pending ==> x in s.drained && s.pending[x] + s.drained[x] == Sum(s.pool.live, PinnedTo(x))
    ensures forall id :: id in s.pool.live && s.pool.live[id].account.None? ==> s.pool.live[id].reported == 0
    ensures forall z: Size :: HasList(s.pool, z) && forall id :: id in s.pool.lists[z] ==> id in s.pool.live && s.pool.live[id].reported == 0
  {
    ReachableInv(s0, steps, s);
    hide ThreadsOk, Covered, Counted;
    forall id | id in s.pool.live && s.pool.live[id].account.None?
      ensures s.pool.live[id].reported == 0
    {
      assert ArenaOk(s.pool.live[id], s.pending.Keys);
    }
  }

  ghost predicate Quiet<Id, Tid, Acct>(s: Sys<Id, Tid, Acct>) {
    forall t :: t in s.threads ==> s.threads[t] == Thread(Idle, {})
  }

  /** With no thread in a call, the in-flight gauge of a bucket exceeds the number of its
      arenas that are out by exactly the failed acquisitions. */
  lemma InflightCountsFailures<Id, Tid, Acct>(s0: Sys<Id, Tid, Acct>, steps: seq<Step<Id, Tid, Acct>>, s: Sys<Id, Tid, Acct>, z: Size)
    requires Reachable(s0, steps, s) && forall t :: t in s.threads ==> s.threads[t].stage.Idle?
    ensures z in s.inflight && z in s.failed && s.inflight[z] == Sum(s.pool.live, OutOf(z)) + s.failed[z]
  {
    hide Placed, Accounted;
    ReachableInv(s0, steps, s);
    SumZero(s.threads, InCall(z));
  }

  /** The shortest run that leaves the gauge too high: one acquisition without memory. */
  lemma FailedAcquireCounted<Id, Tid, Acct>(s0: Sys<Id, Tid, Acct>, t: Tid, z: Size)
    requires Initial(s0) && t in s0.threads
    ensures var run := Run(s0, [BeginAcquire(t, z, None), AcquireFail(t)]);
      run.Some? && run.value.pool == s0.pool && run.value.threads == s0.threads
      && z in run.value.inflight && run.value.inflight[z] == 1
  {
    var begin, fail: Step<Id, Tid, Acct> := BeginAcquire(t, z, None), AcquireFail(t);
    var mid := Apply(s0, begin).sys;
    assert HasList(mid.pool, z) && mid.pool.lists[z] == [];
    var end := Apply(mid, fail).sys;
    assert end.threads == s0.threads;
    assert [begin, fail][1..] == [fail] && [fail][1..] == [];
    assert Run(mid, [fail]) == Run(end, []);
  }

  /** The bytes of the arenas on one list, which `deinit` walks and frees. */
  ghost function ListBytes<Id, Acct>(live: map<Id, Arena<Acct>>, list: seq<Id>): int
    requires forall i :: 0 <= i < |list| ==> list[i] in live
  {
    if list == [] then 0 else live[list[0]].bytes + ListBytes(live, list[1..])
  }

  lemma {:induction false} ListLeaves<Id, Acct>(live: map<Id, Arena<Acct>>, list: seq<Id>, rest: map<Id, Arena<Acct>>)
    requires NoDuplicates(list) && forall i :: 0 <= i < |list| ==> list[i] in live
    requires rest == live - (set i | 0 <= i < |list| :: list[i])
    ensures Sum(live, Bytes) == ListBytes(live, list) + Sum(rest, Bytes)
  {
    if list == [] {
      assert rest == live;
    } else {
      var id := list[0];
      var tail := list[1..];
      assert forall i :: 0 <= i < |tail| ==> tail[i] == list[i + 1];
      var less := live - {id};
      SumRemove(live, Bytes, id);
      assert (set i | 0 <= i < |list| :: list[i]) == {id} + (set i | 0 <= i < |tail| :: tail[i]) by {
        assert forall i :: 0 < i < |list| ==> list[i] == tail[i - 1];
      }
      assert rest == less - (set i | 0 <= i < |tail| :: tail[i]);
      ListLeaves(less, tail, rest);
      SameListBytes(live, less, tail);
    }
  }

  lemma {:induction false} SameListBytes<Id, Acct>(live: map<Id, Arena<Acct>>, less: map<Id, Arena<Acct>>, list: seq<Id>)
    requires forall i :: 0 <= i < |list| ==> list[i] in live && list[i] in less && live[list[i]] == less[list[i]]
    ensures ListBytes(live, list) == ListBytes(less, list)
  {
    if list != [] {
      SameListBytes(live, less, list[1..]);
    }
  }

  ghost function ListOf<Id, Acct>(p: Pool<Id, Acct>, z: Size): seq<Id> {
    if z in p.lists then p.lists[z] else []
  }

  ghost function AllLists<Id, Acct>(p: Pool<Id, Acct>): seq<Id> {
    ListOf(p, Tiny) + ListOf(p, Small) + ListOf(p, Medium) + ListOf(p, Large)
  }

  /** With nothing checked out, freeing the arenas of the four lists brings the gauge
      back to its start value. */
  lemma DeinitClearsGauge<Id, Tid, Acct>(s0: Sys<Id, Tid, Acct>, steps: seq<Step<Id, Tid, Acct>>, s: Sys<Id, Tid, Acct>)
    requires Reachable(s0, steps, s) && Quiet(s)
    ensures forall z: Size, i :: 0 <= i < |ListOf(s.pool, z)| ==> ListOf(s.pool, z)[i] in s.pool.live
    ensures s.gauge - ListBytes(s.pool.live, ListOf(s.pool, Tiny)) - ListBytes(s.pool.live, ListOf(s.pool, Small))
          - ListBytes(s.pool.live, ListOf(s.pool, Medium)) - ListBytes(s.pool.live, ListOf(s.pool, Large)) == 0 == s0.gauge
  {
    ReachableInv(s0, steps, s);
    AllListed(s);
    hide Placed, Accounted, Counted;
    assert s.gauge == Sum(s.pool.live, Bytes) by { BytesConserved(s0, steps, s); }
    ListLeaves(s.pool.live, AllLists(s.pool), map[]);
    var l01 := ListOf(s.pool, Tiny) + ListOf(s.pool, Small);
    var l012 := l01 + ListOf(s.pool, Medium);
    ListBytesConcat(s.pool.live, ListOf(s.pool, Tiny), ListOf(s.pool, Small));
    ListBytesConcat(s.pool.live, l01, ListOf(s.pool, Medium));
    ListBytesConcat(s.pool.live, l012, ListOf(s.pool, Large));
  }

  /** With nothing checked out every live arena is on its list. */
  lemma QuietListed<Id, Tid, Acct>(s0: Sys<Id, Tid, Acct>, steps: seq<Step<Id, Tid, Acct>>, s: Sys<Id, Tid, Acct>)
    requires Reachable(s0, steps, s) && Quiet(s)
    ensures forall id :: id in s.pool.live ==> Listed(s.pool, id)
  {
    ReachableInv(s0, steps, s);
    forall id | id in s.pool.live
      ensures Listed(s.pool, id)
    {
      assert !Owned(s.threads, id) && !BeingReleased(s.threads, id);
    }
  }

  lemma {:induction false} ListBytesConcat<Id, Acct>(live: map<Id, Arena<Acct>>, x: seq<Id>, y: seq<Id>)
    requires forall i :: 0 <= i < |x| ==> x[i] in live
    requires forall i :: 0 <= i < |y| ==> y[i] in live
    ensures ListBytes(live, x + y) == ListBytes(live, x) + ListBytes(live, y)
  {
    if x == [] {
      assert x + y == y;
    } else {
      assert (x + y)[1..] == x[1..] + y;
      ListBytesConcat(live, x[1..], y);
    }
  }

  /** Arenas of different buckets are different, so the lists together repeat nothing. */
  lemma AllDistinct<Id, Acct>(p: Pool<Id, Acct>)
    requires ListsOk(p)
    ensures NoDuplicates(AllLists(p))
    ensures forall i :: 0 <= i < |AllLists(p)| ==> AllLists(p)[i] in p.live
  {
    forall z: Size
      ensures NoDuplicates(ListOf(p, z))
      ensures forall i :: 0 <= i < |ListOf(p, z)| ==> ListOf(p, z)[i] in p.live && p.live[ListOf(p, z)[i]].bucket == z
    {
      assert HasList(p, z);
    }
    hide ListsOk, ListOf;
    JoinDistinct(p.live, ListOf(p, Tiny), {Tiny}, ListOf(p, Small), Small);
    JoinDistinct(p.live, ListOf(p, Tiny) + ListOf(p, Small), {Tiny, Small}, ListOf(p, Medium), Medium);
    JoinDistinct(p.live, ListOf(p, Tiny) + ListOf(p, Small) + ListOf(p, Medium), {Tiny, Small, Medium}, ListOf(p, Large), Large);
  }

  lemma JoinDistinct<Id, Acct>(live: map<Id, Arena<Acct>>, x: seq<Id>, zs: set<Size>, y: seq<Id>, z: Size)
    requires NoDuplicates(x) && NoDuplicates(y) && z !in zs
    requires forall i :: 0 <= i < |x| ==> x[i] in live && live[x[i]].bucket in zs
    requires forall i :: 0 <= i < |y| ==> y[i] in live && live[y[i]].bucket == z
    ensures NoDuplicates(x + y)
    ensures forall i :: 0 <= i < |x + y| ==> (x + y)[i] in live && live[(x + y)[i]].bucket in zs + {z}
  {}

  lemma AllListed<Id, Tid, Acct>(s: Sys<Id, Tid, Acct>)
    requires Placed(s) && Quiet(s)
    ensures NoDuplicates(AllLists(s.pool))
    ensures forall z: Size, i :: 0 <= i < |ListOf(s.pool, z)| ==> ListOf(s.pool, z)[i] in s.pool.live
    ensures forall i :: 0 <= i < |AllLists(s.pool)| ==> AllLists(s.pool)[i] in s.pool.live
    ensures map[] == s.pool.live - (set i | 0 <= i < |AllLists(s.pool)| :: AllLists(s.pool)[i])
  {
    var all := AllLists(s.pool);
    AllDistinct(s.pool);
    forall z: Size, i | 0 <= i < |ListOf(s.pool, z)|
      ensures ListOf(s.pool, z)[i] in s.pool.live
    {
      assert HasList(s.pool, z);
    }
    forall id | id in s.pool.live
      ensures id in all
    {
      assert !Owned(s.threads, id) && !BeingReleased(s.threads, id);
      assert Listed(s.pool, id);
      assert id in ListOf(s.pool, s.pool.live[id].bucket);
      match s.pool.live[id].bucket
      case Tiny => case Small => case Medium => case Large =>
    }
  }
}
