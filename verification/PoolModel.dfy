/** The arena pool as a machine: the critical sections of acquire and release as atomic
    steps of many threads, with the unlocked work of release in between. */
module PoolModel {
  import opened Results
  import opened Sums

  datatype Size = Tiny | Small | Medium | Large

  /** The fields of an arena. `blocks` are the live allocations its backing allocator
      has made, address to length; the code keeps only their total in `bytes`. */
  datatype Arena<Acct> = Arena(
    bucket: Size, released: bool, bytes: int, account: Option<Acct>, reported: int, blocks: map<nat, nat>)

  /** Free lists are given front first. `max` is `free_list_max`; with `safety` the pool
      never keeps a released arena. */
  datatype Pool<Id, Acct> = Pool(
    live: map<Id, Arena<Acct>>, lists: map<Size, seq<Id>>, max: map<Size, nat>, safety: bool)

  // ---------------------------------------------------------------------
  // Critical sections

  ghost predicate HasList<Id, Acct>(p: Pool<Id, Acct>, s: Size) { s in p.lists && s in p.max }

  /** The locked part of acquire when the free list is not empty. */
  ghost function TakeFree<Id, Acct>(p: Pool<Id, Acct>, s: Size, account: Option<Acct>): Pool<Id, Acct>
    requires HasList(p, s) && p.lists[s] != [] && p.lists[s][0] in p.live
  {
    var id := p.lists[s][0];
    p.(lists := p.lists[s := p.lists[s][1..]], live := p.live[id := p.live[id].(released := false, account := account)])
  }

  /** The locked part of acquire when a new entry is created. */
  ghost function Create<Id, Acct>(p: Pool<Id, Acct>, s: Size, id: Id, account: Option<Acct>): Pool<Id, Acct> {
    p.(live := p.live[id := Arena(s, false, 0, account, 0, map[])])
  }

  /** The first critical section of release. */
  ghost function SetReleased<Id, Acct>(p: Pool<Id, Acct>, id: Id): Pool<Id, Acct>
    requires id in p.live
  {
    p.(live := p.live[id := p.live[id].(released := true)])
  }

  ghost predicate Discards<Id, Acct>(p: Pool<Id, Acct>, s: Size)
    requires HasList(p, s)
  {
    p.safety || |p.lists[s]| >= p.max[s]
  }

  /** The second critical section of release: destroy the entry or push it. */
  ghost function GiveBack<Id, Acct>(p: Pool<Id, Acct>, id: Id): Pool<Id, Acct>
    requires id in p.live && HasList(p, p.live[id].bucket)
  {
    var s := p.live[id].bucket;
    if Discards(p, s) then p.(live := p.live - {id}) else p.(lists := p.lists[s := [id] + p.lists[s]])
  }

  // ---------------------------------------------------------------------
  // The ledgers of one arena

  ghost function Length(n: nat): int { n }

  ghost function BlockBytes(blocks: map<nat, nat>): int { Sum(blocks, Length) }

  ghost function Grow<Acct>(a: Arena<Acct>, at: nat, len: nat): Arena<Acct> {
    a.(bytes := a.bytes + len, blocks := a.blocks[at := len])
  }

  /** A resize in place (`at == to`) or a remap that moves the block. */
  ghost function Move<Acct>(a: Arena<Acct>, at: nat, to: nat, len: nat): Arena<Acct>
    requires at in a.blocks
  {
    a.(bytes := a.bytes - a.blocks[at] + len, blocks := (a.blocks - {at})[to := len])
  }

  ghost function Shrink<Acct>(a: Arena<Acct>, at: nat): Arena<Acct>
    requires at in a.blocks
  {
    a.(bytes := a.bytes - a.blocks[at], blocks := a.blocks - {at})
  }

  // ---------------------------------------------------------------------
  // Threads

  /** Where a thread is inside the pool; between the stages of a release the arena
      belongs to the releasing thread. */
  datatype Stage<Id, Acct> =
    | Idle
    | Locking(size: Size, account: Option<Acct>)
    | Releasing(id: Id, bucket: Size, counted: bool, unpinned: bool)

  datatype Thread<Id, Acct> = Thread(stage: Stage<Id, Acct>, held: set<Id>)

  datatype Sys<Id, Tid, Acct> = Sys(
    pool: Pool<Id, Acct>,
    threads: map<Tid, Thread<Id, Acct>>,
    pending: map<Acct, int>,   // what each account has not passed on yet
    drained: map<Acct, int>,   // what an outside reader has taken from it
    gauge: int,                // arena_memory_bytes
    inflight: map<Size, int>,  // arena_inflight
    failed: map<Size, int>)    // acquisitions that found no memory

  datatype Step<Id, Tid, Acct> =
    | BeginAcquire(t: Tid, size: Size, account: Option<Acct>)
    | AcquireHit(t: Tid)
    | AcquireMiss(t: Tid, entry: Id)
    | AcquireFail(t: Tid)
    | RawAlloc(t: Tid, id: Id, at: nat, len: nat)
    | RawMove(t: Tid, id: Id, at: nat, to: nat, len: nat)
    | RawFree(t: Tid, id: Id, at: nat)
    | Report(t: Tid, id: Id)
    | PassOn(t: Tid, receiver: Tid, id: Id)
    | BeginRelease(t: Tid, id: Id)
    | CountDown(t: Tid)
    | Unpin(t: Tid)
    | FinishRelease(t: Tid)
    | Drain(reader: Acct)

  /** Running on, crashed on the double-release assertion, or not a step of this state. */
  datatype Outcome<Id, Tid, Acct> = Next(sys: Sys<Id, Tid, Acct>) | Caught | Disabled

  ghost predicate Uses<Id, Tid, Acct>(s: Sys<Id, Tid, Acct>, t: Tid, id: Id) {
    t in s.threads && id in s.pool.live &&
    (id in s.threads[t].held || (s.threads[t].stage.Releasing? && s.threads[t].stage.id == id && s.threads[t].stage.unpinned))
  }

  ghost function SetArena<Id, Tid, Acct>(s: Sys<Id, Tid, Acct>, id: Id, a: Arena<Acct>): Sys<Id, Tid, Acct>
    requires id in s.pool.live
  {
    s.(pool := s.pool.(live := s.pool.live[id := a]), gauge := s.gauge + a.bytes - s.pool.live[id].bytes)
  }

  ghost function SetThread<Id, Tid, Acct>(s: Sys<Id, Tid, Acct>, t: Tid, th: Thread<Id, Acct>): Sys<Id, Tid, Acct> {
    s.(threads := s.threads[t := th])
  }

  /** `Arena.report`: tell the account what changed since the last report. */
  ghost function DoReport<Id, Tid, Acct>(s: Sys<Id, Tid, Acct>, id: Id): Sys<Id, Tid, Acct>
    requires id in s.pool.live
  {
    var a := s.pool.live[id];
    if a.account.None? || a.account.value !in s.pending then s
    else
      s.(pool := s.pool.(live := s.pool.live[id := a.(reported := a.bytes)]),
         pending := s.pending[a.account.value := s.pending[a.account.value] + a.bytes - a.reported])
  }

  /** `Arena.unpin`: take everything reported back. */
  ghost function DoUnpin<Id, Tid, Acct>(s: Sys<Id, Tid, Acct>, id: Id): Sys<Id, Tid, Acct>
    requires id in s.pool.live
  {
    var a := s.pool.live[id];
    if a.account.None? || a.account.value !in s.pending then s
    else
      s.(pool := s.pool.(live := s.pool.live[id := a.(reported := 0, account := None)]),
         pending := s.pending[a.account.value := s.pending[a.account.value] - a.reported])
  }

  /** The first critical section of a release that finds the flag clear. */
  ghost function Released<Id, Tid, Acct>(s: Sys<Id, Tid, Acct>, t: Tid, id: Id): Sys<Id, Tid, Acct>
    requires t in s.threads && id in s.pool.live
  {
    SetThread(s, t, Thread(Releasing(id, s.pool.live[id].bucket, false, false), s.threads[t].held - {id})).(
      pool := SetReleased(s.pool, id))
  }

  /** One thread gives an arena it has checked out to another, as with a queued message. */
  ghost function Passed<Id, Tid, Acct>(threads: map<Tid, Thread<Id, Acct>>, t: Tid, to: Tid, id: Id): map<Tid, Thread<Id, Acct>>
    requires t in threads && to in threads
  {
    var without := threads[t := threads[t].(held := threads[t].held - {id})];
    without[to := without[to].(held := without[to].held + {id})]
  }

  ghost function Apply<Id, Tid, Acct>(s: Sys<Id, Tid, Acct>, step: Step<Id, Tid, Acct>): Outcome<Id, Tid, Acct> {
    match step
    case BeginAcquire(t, size, account) =>
      if t !in s.threads || !s.threads[t].stage.Idle? || size !in s.inflight || (account.Some? && account.value !in s.pending) then Disabled
      else Next(SetThread(s, t, s.threads[t].(stage := Locking(size, account))).(inflight := s.inflight[size := s.inflight[size] + 1]))
    case AcquireHit(t) =>
      if t !in s.threads || !s.threads[t].stage.Locking? then Disabled
      else
        var size := s.threads[t].stage.size;
        if !HasList(s.pool, size) || s.pool.lists[size] == [] || s.pool.lists[size][0] !in s.pool.live then Disabled
        else
          Next(SetThread(s, t, Thread(Idle, s.threads[t].held + {s.pool.lists[size][0]})).(
                 pool := TakeFree(s.pool, size, s.threads[t].stage.account)))
    case AcquireMiss(t, id) =>
      if t !in s.threads || !s.threads[t].stage.Locking? || id in s.pool.live then Disabled
      else
        var size := s.threads[t].stage.size;
        if !HasList(s.pool, size) || s.pool.lists[size] != [] then Disabled
        else
          Next(SetThread(s, t, Thread(Idle, s.threads[t].held + {id})).(
                 pool := Create(s.pool, size, id, s.threads[t].stage.account)))
    case AcquireFail(t) =>
      if t !in s.threads || !s.threads[t].stage.Locking? then Disabled
      else
        var size := s.threads[t].stage.size;
        if !HasList(s.pool, size) || s.pool.lists[size] != [] || size !in s.failed then Disabled
        else Next(SetThread(s, t, s.threads[t].(stage := Idle)).(failed := s.failed[size := s.failed[size] + 1]))
    case RawAlloc(t, id, at, len) =>
      if !Uses(s, t, id) || at in s.pool.live[id].blocks then Disabled
      else Next(SetArena(s, id, Grow(s.pool.live[id], at, len)))
    case RawMove(t, id, at, to, len) =>
      if !Uses(s, t, id) || at !in s.pool.live[id].blocks || (to != at && to in s.pool.live[id].blocks) then Disabled
      else Next(SetArena(s, id, Move(s.pool.live[id], at, to, len)))
    case RawFree(t, id, at) =>
      if !Uses(s, t, id) || at !in s.pool.live[id].blocks then Disabled
      else Next(SetArena(s, id, Shrink(s.pool.live[id], at)))
    case Report(t, id) =>
      if t !in s.threads || id !in s.threads[t].held || id !in s.pool.live then Disabled else Next(DoReport(s, id))
    case PassOn(t, to, id) =>
      if t !in s.threads || to !in s.threads || id !in s.threads[t].held then Disabled
      else Next(s.(threads := Passed(s.threads, t, to, id)))
    case BeginRelease(t, id) =>
      // The flag is all the code looks at. An arena that another thread has checked out
      // is not this thread's to give back; `ReleaseSafeIff` says what happens if it does.
      if t !in s.threads || !s.threads[t].stage.Idle? || id !in s.pool.live then Disabled
      else if s.pool.live[id].released then Caught
      else if id !in s.threads[t].held then Disabled
      else Next(Released(s, t, id))
    case CountDown(t) =>
      if t !in s.threads || !s.threads[t].stage.Releasing? || s.threads[t].stage.counted || s.threads[t].stage.bucket !in s.inflight then Disabled
      else
        var size := s.threads[t].stage.bucket;
        Next(SetThread(s, t, s.threads[t].(stage := s.threads[t].stage.(counted := true))).(inflight := s.inflight[size := s.inflight[size] - 1]))
    case Unpin(t) =>
      if t !in s.threads || !s.threads[t].stage.Releasing? || !s.threads[t].stage.counted || s.threads[t].stage.unpinned then Disabled
      else if s.threads[t].stage.id !in s.pool.live then Disabled
      else SetUnpinned(s, t)
    case FinishRelease(t) =>
      if t !in s.threads || !s.threads[t].stage.Releasing? || !s.threads[t].stage.unpinned then Disabled
      else
        var id := s.threads[t].stage.id;
        if id !in s.pool.live || !HasList(s.pool, s.pool.live[id].bucket) then Disabled
        else
          // A discarded arena frees its blocks before its entry is destroyed.
          Next(SetThread(s, t, s.threads[t].(stage := Idle)).(
                 pool := GiveBack(s.pool, id),
                 gauge := s.gauge - if Discards(s.pool, s.pool.live[id].bucket) then BlockBytes(s.pool.live[id].blocks) else 0))
    case Drain(reader) =>
      if reader !in s.pending || reader !in s.drained then Disabled
      else Next(s.(pending := s.pending[reader := 0], drained := s.drained[reader := s.drained[reader] + s.pending[reader]]))
  }

  ghost function SetUnpinned<Id, Tid, Acct>(s: Sys<Id, Tid, Acct>, t: Tid): Outcome<Id, Tid, Acct>
    requires t in s.threads && s.threads[t].stage.Releasing? && s.threads[t].stage.id in s.pool.live
  {
    var id := s.threads[t].stage.id;
    Next(SetThread(DoUnpin(s, id), t, s.threads[t].(stage := s.threads[t].stage.(unpinned := true))))
  }

  ghost predicate Initial<Id, Tid, Acct>(s: Sys<Id, Tid, Acct>) {
    && s.pool.live == map[]
    && (forall z: Size :: z in s.pool.lists && s.pool.lists[z] == [] && z in s.pool.max)
    && (forall t :: t in s.threads ==> s.threads[t] == Thread(Idle, {}))
    && s.pending.Keys == s.drained.Keys
    && (forall a :: a in s.pending ==> s.pending[a] == 0 && s.drained[a] == 0)
    && (forall z: Size :: z in s.inflight && z in s.failed && s.inflight[z] == 0 == s.failed[z])
    && s.gauge == 0
  }

  /** The state after a run, for a run that is neither disabled nor caught. */
  ghost function Run<Id, Tid, Acct>(s: Sys<Id, Tid, Acct>, steps: seq<Step<Id, Tid, Acct>>): Option<Sys<Id, Tid, Acct>>
    decreases |steps|
  {
    if steps == [] then Some(s)
    else
      var out := Apply(s, steps[0]);
      if out.Next? then Run(out.sys, steps[1..]) else None
  }
}
