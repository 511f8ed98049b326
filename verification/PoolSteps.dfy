/** What whole calls do to the pool, field by field: acquire, the ledger calls, release. */
module PoolSteps {
  import opened PoolModel
  import opened PoolProofs
  import opened Results
  import opened Sums

  /** A two-step run: the counted call, then its locked part. */
  ghost function Acquired<Id, Tid, Acct>(s: Sys<Id, Tid, Acct>, t: Tid, z: Size, account: Option<Acct>, locked: Step<Id, Tid, Acct>): Option<Sys<Id, Tid, Acct>> {
    Run(s, [BeginAcquire(t, z, account), locked])
  }

  lemma RunTwo<Id, Tid, Acct>(s: Sys<Id, Tid, Acct>, x: Step<Id, Tid, Acct>, y: Step<Id, Tid, Acct>)
    requires Apply(s, x).Next? && Apply(Apply(s, x).sys, y).Next?
    ensures Run(s, [x, y]) == Some(Apply(Apply(s, x).sys, y).sys)
  {
    hide Apply;
    var mid := Apply(s, x).sys;
    var end := Apply(mid, y).sys;
    assert [x, y][1..] == [y] && [y][1..] == [];
    assert Run(end, []) == Some(end);
    assert Run(mid, [y]) == Some(end);
  }

  /** Thread `t` has arena `id` of bucket `z`, pinned as asked and with nothing reported;
      nothing else about threads, accounts or the memory gauge has changed. */
  ghost predicate HandedOut<Id, Tid, Acct>(s: Sys<Id, Tid, Acct>, s': Sys<Id, Tid, Acct>, t: Tid, z: Size, account: Option<Acct>, id: Id) {
    && t in s.threads && s'.threads == s.threads[t := Thread(Idle, s.threads[t].held + {id})]
    && id in s'.pool.live
    && var a := s'.pool.live[id];
    && a.bucket == z && a.account == account && !a.released && a.reported == 0
    && s'.pending == s.pending && s'.drained == s.drained && s'.gauge == s.gauge && s'.failed == s.failed
    && s'.pool.max == s.pool.max && s'.pool.safety == s.pool.safety
    && z in s.inflight && s'.inflight == s.inflight[z := s.inflight[z] + 1]
  }

  /** Acquiring from a list that is not empty hands out its head, with the memory it kept
      but owing nothing, and leaves the rest of the list and every other arena alone. */
  lemma AcquireReuses<Id, Tid, Acct>(s: Sys<Id, Tid, Acct>, t: Tid, z: Size, account: Option<Acct>)
    requires Inv(s) && t in s.threads && s.threads[t].stage.Idle? && (account.Some? ==> account.value in s.pending)
    requires z in s.pool.lists && s.pool.lists[z] != []
    ensures var run := Acquired(s, t, z, account, AcquireHit(t));
      var id := s.pool.lists[z][0];
      && run.Some? && id in s.pool.live
      && HandedOut(s, run.value, t, z, account, id)
      && run.value.pool.lists == s.pool.lists[z := s.pool.lists[z][1..]]
      && run.value.pool.live.Keys == s.pool.live.Keys
      && (forall other :: other in s.pool.live && other != id ==> run.value.pool.live[other] == s.pool.live[other])
      && run.value.pool.live[id].bytes == s.pool.live[id].bytes && run.value.pool.live[id].blocks == s.pool.live[id].blocks
  {
    hide Inv, Apply, Run;
    HeadKnown(s, z);
    Counts(s);
    BeginIs(s, t, z, account);
    HitIs(Begun(s, t, z, account), t);
    RunTwo(s, BeginAcquire(t, z, account), AcquireHit(t));
    var id := s.pool.lists[z][0];
    assert Begun(s, t, z, account).threads[t := Thread(Idle, s.threads[t].held + {id})] == s.threads[t := Thread(Idle, s.threads[t].held + {id})];
  }

  lemma Counts<Id, Tid, Acct>(s: Sys<Id, Tid, Acct>)
    requires Inv(s)
    ensures forall z: Size :: z in s.inflight && z in s.failed && HasList(s.pool, z)
  {
    hide Accounted, ThreadsOk, Covered, Sum;
    forall z: Size
      ensures HasList(s.pool, z)
    {
      assert ListOk(s.pool, z);
    }
  }

  /** The call has been counted and waits for the lock. */
  ghost function Begun<Id, Tid, Acct>(s: Sys<Id, Tid, Acct>, t: Tid, z: Size, account: Option<Acct>): Sys<Id, Tid, Acct>
    requires t in s.threads && z in s.inflight
  {
    s.(threads := s.threads[t := Thread(Locking(z, account), s.threads[t].held)], inflight := s.inflight[z := s.inflight[z] + 1])
  }

  lemma BeginIs<Id, Tid, Acct>(s: Sys<Id, Tid, Acct>, t: Tid, z: Size, account: Option<Acct>)
    requires t in s.threads && z in s.inflight && s.threads[t].stage.Idle? && (account.Some? ==> account.value in s.pending)
    ensures Apply(s, BeginAcquire(t, z, account)) == Next(Begun(s, t, z, account))
  {}

  lemma HitIs<Id, Tid, Acct>(s: Sys<Id, Tid, Acct>, t: Tid)
    requires t in s.threads && s.threads[t].stage.Locking? && HasList(s.pool, s.threads[t].stage.size)
    requires s.pool.lists[s.threads[t].stage.size] != [] && s.pool.lists[s.threads[t].stage.size][0] in s.pool.live
    ensures var z := s.threads[t].stage.size;
      var id := s.pool.lists[z][0];
      Apply(s, AcquireHit(t)) == Next(s.(
        threads := s.threads[t := Thread(Idle, s.threads[t].held + {id})],
        pool := s.pool.(lists := s.pool.lists[z := s.pool.lists[z][1..]],
                        live := s.pool.live[id := s.pool.live[id].(released := false, account := s.threads[t].stage.account)])))
  {}

  lemma MissIs<Id, Tid, Acct>(s: Sys<Id, Tid, Acct>, t: Tid, id: Id)
    requires t in s.threads && s.threads[t].stage.Locking? && HasList(s.pool, s.threads[t].stage.size)
    requires s.pool.lists[s.threads[t].stage.size] == [] && id !in s.pool.live
    ensures Apply(s, AcquireMiss(t, id)) == Next(s.(
      threads := s.threads[t := Thread(Idle, s.threads[t].held + {id})],
      pool := s.pool.(live := s.pool.live[id := Arena(s.threads[t].stage.size, false, 0, s.threads[t].stage.account, 0, map[])])))
  {}

  lemma HeadKnown<Id, Tid, Acct>(s: Sys<Id, Tid, Acct>, z: Size)
    requires Inv(s) && z in s.pool.lists && s.pool.lists[z] != []
    ensures HasList(s.pool, z) && s.pool.lists[z][0] in s.pool.live
    ensures var a := s.pool.live[s.pool.lists[z][0]]; a.bucket == z && a.account.None? && a.reported == 0 && a.released
  {
    hide Balanced, LockingOk, ThreadsOk, Covered, Counted;
    assert ListOk(s.pool, z);
    assert ArenaOk(s.pool.live[s.pool.lists[z][0]], s.pending.Keys);
  }

  /** Acquiring from an empty list hands out a new arena without memory. */
  lemma AcquireCreates<Id, Tid, Acct>(s: Sys<Id, Tid, Acct>, t: Tid, z: Size, account: Option<Acct>, id: Id)
    requires Inv(s) && t in s.threads && s.threads[t].stage.Idle? && (account.Some? ==> account.value in s.pending)
    requires z in s.pool.lists && s.pool.lists[z] == [] && id !in s.pool.live
    ensures var run := Acquired(s, t, z, account, AcquireMiss(t, id));
      && run.Some? && HandedOut(s, run.value, t, z, account, id)
      && run.value.pool.lists == s.pool.lists && run.value.pool.live.Keys == s.pool.live.Keys + {id}
      && (forall other :: other in s.pool.live ==> run.value.pool.live[other] == s.pool.live[other])
      && run.value.pool.live[id].bytes == 0 && run.value.pool.live[id].blocks == map[]
  {
    hide Inv, Apply, Run;
    Counts(s);
    BeginIs(s, t, z, account);
    MissIs(Begun(s, t, z, account), t, id);
    RunTwo(s, BeginAcquire(t, z, account), AcquireMiss(t, id));
    assert Begun(s, t, z, account).threads[t := Thread(Idle, s.threads[t].held + {id})] == s.threads[t := Thread(Idle, s.threads[t].held + {id})];
  }

  /** Under the lock a call reuses exactly when the list is not empty, and otherwise creates
      or fails. */
  lemma LockedCases<Id, Tid, Acct>(s: Sys<Id, Tid, Acct>, t: Tid, id: Id)
    requires Inv(s) && t in s.threads && s.threads[t].stage.Locking?
    ensures var z := s.threads[t].stage.size;
      && z in s.pool.lists
      && (Apply(s, AcquireHit(t)).Next? <==> s.pool.lists[z] != [])
      && (Apply(s, AcquireMiss(t, id)).Next? <==> s.pool.lists[z] == [] && id !in s.pool.live)
      && (Apply(s, AcquireFail(t)).Next? <==> s.pool.lists[z] == [])
  {
    hide Inv;
    Counts(s);
    assert HasList(s.pool, s.threads[t].stage.size);
    if s.pool.lists[s.threads[t].stage.size] != [] {
      HeadKnown(s, s.threads[t].stage.size);
    }
  }

  /** Handing an arena over moves it from one thread to the other and changes nothing else. */
  lemma PassOnMoves<Id, Tid, Acct>(s: Sys<Id, Tid, Acct>, t: Tid, receiver: Tid, id: Id)
    requires t in s.threads && receiver in s.threads && t != receiver && id in s.threads[t].held
    ensures Apply(s, PassOn(t, receiver, id)) == Next(s.(threads :=
      s.threads[t := s.threads[t].(held := s.threads[t].held - {id})]
               [receiver := s.threads[receiver].(held := s.threads[receiver].held + {id})]))
  {}

  // ---------------------------------------------------------------------
  // Ledgers

  /** Reporting a pinned arena moves what is new since the last report to its account, and
      nothing else; reporting an unpinned one changes nothing. */
  lemma ReportMoves<Id, Tid, Acct>(s: Sys<Id, Tid, Acct>, t: Tid, id: Id)
    requires Inv(s) && t in s.threads && id in s.threads[t].held
    ensures id in s.pool.live && Apply(s, Report(t, id)).Next?
    ensures var a := s.pool.live[id];
      var s' := Apply(s, Report(t, id)).sys;
      match a.account
      case None => s' == s
      case Some(x) =>
        && x in s.pending
        && s' == s.(pending := s.pending[x := s.pending[x] + a.bytes - a.reported],
                    pool := s.pool.(live := s.pool.live[id := a.(reported := a.bytes)]))
  {
    hide Balanced, ListsOk, Covered, Counted;
    assert HeldOk(s.pool, s.threads[t].held);
    assert ArenaOk(s.pool.live[id], s.pending.Keys);
  }

  /** An arena taken from the free list for an account and then reported puts all the
      memory it kept on that account. */
  lemma ReuseIsReported<Id, Tid, Acct>(s: Sys<Id, Tid, Acct>, t: Tid, z: Size, x: Acct)
    requires Inv(s) && t in s.threads && s.threads[t].stage.Idle? && x in s.pending
    requires z in s.pool.lists && s.pool.lists[z] != []
    ensures var id := s.pool.lists[z][0];
      var run := Acquired(s, t, z, Some(x), AcquireHit(t));
      && run.Some? && id in s.pool.live && Apply(run.value, Report(t, id)).Next?
      && var s' := Apply(run.value, Report(t, id)).sys;
      && s'.pending == s.pending[x := s.pending[x] + s.pool.live[id].bytes]
      && id in s'.pool.live && s'.pool.live[id].account == Some(x) && s'.pool.live[id].reported == s.pool.live[id].bytes
  {
    hide Inv, Apply, Run;
    AcquireReuses(s, t, z, Some(x));
    RunKeepsInv(s, [BeginAcquire(t, z, Some(x)), AcquireHit(t)]);
    ReportMoves(Acquired(s, t, z, Some(x), AcquireHit(t)).value, t, s.pool.lists[z][0]);
  }

  /** A reader takes everything an account has pending. */
  lemma DrainTakesAll<Id, Tid, Acct>(s: Sys<Id, Tid, Acct>, x: Acct)
    requires Inv(s) && x in s.pending
    ensures x in s.drained && Apply(s, Drain(x)) ==
      Next(s.(pending := s.pending[x := 0], drained := s.drained[x := s.drained[x] + s.pending[x]]))
  {
    hide Placed, Counted, ArenasOk, LockingOk, Sum;
  }

  // A block that is granted, resized or moved, or freed is in the arena's counter, in its
  // blocks and in the gauge with its exact length.

  lemma AllocCounts<Id, Tid, Acct>(s: Sys<Id, Tid, Acct>, t: Tid, id: Id, at: nat, len: nat)
    requires Inv(s) && t in s.threads && id in s.threads[t].held
    ensures id in s.pool.live
    ensures var a := s.pool.live[id];
      at !in a.blocks ==>
        Apply(s, RawAlloc(t, id, at, len)) == Next(Ledger(s, id, a.(bytes := a.bytes + len, blocks := a.blocks[at := len]), len))
  {
    hide Inv;
    HeldKnown(s, t, id);
  }

  lemma MoveCounts<Id, Tid, Acct>(s: Sys<Id, Tid, Acct>, t: Tid, id: Id, at: nat, to: nat, len: nat)
    requires Inv(s) && t in s.threads && id in s.threads[t].held
    ensures id in s.pool.live
    ensures var a := s.pool.live[id];
      at in a.blocks && (to == at || to !in a.blocks) ==>
        var moved := a.(bytes := a.bytes - a.blocks[at] + len, blocks := (a.blocks - {at})[to := len]);
        Apply(s, RawMove(t, id, at, to, len)) == Next(Ledger(s, id, moved, len - a.blocks[at]))
  {
    hide Inv;
    HeldKnown(s, t, id);
  }

  lemma FreeCounts<Id, Tid, Acct>(s: Sys<Id, Tid, Acct>, t: Tid, id: Id, at: nat)
    requires Inv(s) && t in s.threads && id in s.threads[t].held
    ensures id in s.pool.live
    ensures var a := s.pool.live[id];
      at in a.blocks ==>
        var shrunk := a.(bytes := a.bytes - a.blocks[at], blocks := a.blocks - {at});
        Apply(s, RawFree(t, id, at)) == Next(Ledger(s, id, shrunk, -(a.blocks[at] as int)))
  {
    hide Inv;
    HeldKnown(s, t, id);
  }

  /** A thread that has unpinned the arena it releases can still give back its blocks. */
  lemma TrimCounts<Id, Tid, Acct>(s: Sys<Id, Tid, Acct>, t: Tid, id: Id, at: nat)
    requires t in s.threads && s.threads[t].stage.Releasing? && s.threads[t].stage.unpinned && s.threads[t].stage.id == id
    requires id in s.pool.live && at in s.pool.live[id].blocks
    ensures var a := s.pool.live[id];
      var shrunk := a.(bytes := a.bytes - a.blocks[at], blocks := a.blocks - {at});
      Apply(s, RawFree(t, id, at)) == Next(Ledger(s, id, shrunk, -(a.blocks[at] as int)))
  {}

  /** Arena `id` is now `a` and the gauge has moved by `change`. */
  ghost function Ledger<Id, Tid, Acct>(s: Sys<Id, Tid, Acct>, id: Id, a: Arena<Acct>, change: int): Sys<Id, Tid, Acct> {
    s.(gauge := s.gauge + change, pool := s.pool.(live := s.pool.live[id := a]))
  }

  // ---------------------------------------------------------------------
  // Release

  ghost function ReleaseRun<Id, Tid, Acct>(t: Tid, id: Id): seq<Step<Id, Tid, Acct>> {
    [BeginRelease(t, id), CountDown(t), Unpin(t), FinishRelease(t)]
  }

  /** Between the critical sections: the flag is set and the thread at stage `stage`. */
  ghost function Flagged<Id, Tid, Acct>(s: Sys<Id, Tid, Acct>, t: Tid, stage: Stage<Id, Acct>, id: Id, a: Arena<Acct>): Sys<Id, Tid, Acct>
    requires t in s.threads
  {
    s.(threads := s.threads[t := Thread(stage, s.threads[t].held - {id})], pool := s.pool.(live := s.pool.live[id := a]))
  }

  ghost function CountedDown<Id, Tid, Acct>(s: Sys<Id, Tid, Acct>, z: Size): Sys<Id, Tid, Acct>
    requires z in s.inflight
  {
    s.(inflight := s.inflight[z := s.inflight[z] - 1])
  }

  /** The account of `a` has got back what was reported to it. */
  ghost function Repaid<Id, Tid, Acct>(s: Sys<Id, Tid, Acct>, a: Arena<Acct>): Sys<Id, Tid, Acct>
    requires a.account.Some? ==> a.account.value in s.pending
  {
    match a.account
    case None => s
    case Some(x) => s.(pending := s.pending[x := s.pending[x] - a.reported])
  }

  /** The released arena owes nothing and is pinned to nobody. */
  ghost function Resting<Acct>(a: Arena<Acct>): Arena<Acct> {
    a.(released := true, account := None, reported := 0)
  }

  /** Where the arena ends up: at the head of its list or, when that is full or under
      safety, nowhere, its memory off the gauge. */
  ghost function Returned<Id, Tid, Acct>(s: Sys<Id, Tid, Acct>, id: Id, a: Arena<Acct>): Sys<Id, Tid, Acct>
    requires HasList(s.pool, a.bucket)
  {
    s.(pool := PoolAfter(s.pool, id, a), gauge := s.gauge - if Full(s.pool, a.bucket) then a.bytes else 0)
  }

  ghost predicate Full<Id, Acct>(p: Pool<Id, Acct>, z: Size)
    requires HasList(p, z)
  {
    p.safety || |p.lists[z]| >= p.max[z]
  }

  ghost function PoolAfter<Id, Acct>(p: Pool<Id, Acct>, id: Id, a: Arena<Acct>): Pool<Id, Acct>
    requires HasList(p, a.bucket)
  {
    if Full(p, a.bucket) then p.(live := p.live - {id})
    else p.(live := p.live[id := Resting(a)], lists := p.lists[a.bucket := [id] + p.lists[a.bucket]])
  }

  lemma BeginReleaseIs<Id, Tid, Acct>(s: Sys<Id, Tid, Acct>, t: Tid, id: Id)
    requires t in s.threads && s.threads[t].stage.Idle? && id in s.threads[t].held && id in s.pool.live && !s.pool.live[id].released
    ensures var a := s.pool.live[id];
      Apply(s, BeginRelease(t, id)) == Next(Flagged(s, t, Releasing(id, a.bucket, false, false), id, a.(released := true)))
  {}

  lemma CountDownIs<Id, Tid, Acct>(s: Sys<Id, Tid, Acct>, t: Tid, id: Id, z: Size, a: Arena<Acct>)
    requires t in s.threads && z in s.inflight
    ensures Apply(Flagged(s, t, Releasing(id, z, false, false), id, a), CountDown(t)) ==
      Next(CountedDown(Flagged(s, t, Releasing(id, z, true, false), id, a), z))
  {
    var held := s.threads[t].held - {id};
    var before := s.threads[t := Thread(Releasing(id, z, false, false), held)];
    assert before[t := Thread(Releasing(id, z, true, false), held)] == s.threads[t := Thread(Releasing(id, z, true, false), held)];
  }

  lemma UnpinIs<Id, Tid, Acct>(s: Sys<Id, Tid, Acct>, t: Tid, id: Id, z: Size, a: Arena<Acct>)
    requires t in s.threads && a.released && a.bucket == z
    requires if a.account.Some? then a.account.value in s.pending else a.reported == 0
    ensures Apply(Flagged(s, t, Releasing(id, z, true, false), id, a), Unpin(t)) ==
      Next(Repaid(Flagged(s, t, Releasing(id, z, true, true), id, Resting(a)), a))
  {
    var held := s.threads[t].held - {id};
    var before := s.threads[t := Thread(Releasing(id, z, true, false), held)];
    assert before[t := Thread(Releasing(id, z, true, true), held)] == s.threads[t := Thread(Releasing(id, z, true, true), held)];
    assert s.pool.live[id := a][id := Resting(a)] == s.pool.live[id := Resting(a)];
    if a.account.None? {
      assert Resting(a) == a;
    }
  }

  lemma FinishIs<Id, Tid, Acct>(s: Sys<Id, Tid, Acct>, t: Tid, id: Id, z: Size, a: Arena<Acct>)
    requires t in s.threads && HasList(s.pool, z) && a.bucket == z && a.bytes == BlockBytes(a.blocks)
    ensures Apply(Flagged(s, t, Releasing(id, z, true, true), id, Resting(a)), FinishRelease(t)) ==
      Next(Returned(s, id, a).(threads := s.threads[t := Thread(Idle, s.threads[t].held - {id})]))
  {
    hide BlockBytes;
    var held := s.threads[t].held - {id};
    var before := s.threads[t := Thread(Releasing(id, z, true, true), held)];
    assert before[t := Thread(Idle, held)] == s.threads[t := Thread(Idle, held)];
    assert s.pool.live[id := Resting(a)] - {id} == s.pool.live - {id};
  }

  lemma RunFour<Id, Tid, Acct>(s: Sys<Id, Tid, Acct>, w: Step<Id, Tid, Acct>, x: Step<Id, Tid, Acct>, y: Step<Id, Tid, Acct>, z: Step<Id, Tid, Acct>,
                               s1: Sys<Id, Tid, Acct>, s2: Sys<Id, Tid, Acct>, s3: Sys<Id, Tid, Acct>, s4: Sys<Id, Tid, Acct>)
    requires Apply(s, w) == Next(s1) && Apply(s1, x) == Next(s2) && Apply(s2, y) == Next(s3) && Apply(s3, z) == Next(s4)
    ensures Run(s, [w, x, y, z]) == Some(s4)
  {
    hide Apply;
    RunTwo(s2, y, z);
    assert [w, x, y, z][1..] == [x, y, z] && [x, y, z][1..] == [y, z];
    assert Run(s1, [x, y, z]) == Some(s4);
  }

  /** A whole release by the thread that holds the arena: its account gets back what was
      reported, the bucket's in-flight count falls, and the arena heads its free list with
      the memory it has, or, at the cap or under safety, is gone and its memory off the gauge. */
  lemma ReleaseReturns<Id, Tid, Acct>(s: Sys<Id, Tid, Acct>, t: Tid, id: Id)
    requires Inv(s) && t in s.threads && s.threads[t].stage.Idle? && id in s.threads[t].held
    ensures id in s.pool.live
    ensures var a := s.pool.live[id];
      && HasList(s.pool, a.bucket) && a.bucket in s.inflight && (a.account.Some? ==> a.account.value in s.pending)
      && Run(s, ReleaseRun(t, id)) ==
           Some(CountedDown(Repaid(Returned(s, id, a), a), a.bucket).(threads := s.threads[t := Thread(Idle, s.threads[t].held - {id})]))
  {
    hide Inv, Apply, Run, Flagged, Returned, CountedDown, Repaid;
    HeldKnown(s, t, id);
    Counts(s);
    var a := s.pool.live[id];
    var z := a.bucket;
    var flagged := a.(released := true);
    BaseKept(s, t, id, a, flagged);
    CountKept(s, t, id, a, flagged);
    PinKept(s, t, id, a, flagged);
    ReturnKept(s, t, id, a, flagged);
    var base := Repaid(CountedDown(s, z), a);
    BeginReleaseIs(s, t, id);
    CountDownIs(s, t, id, z, flagged);
    UnpinIs(CountedDown(s, z), t, id, z, flagged);
    FinishIs(base, t, id, z, a);
    RunFour(s, BeginRelease(t, id), CountDown(t), Unpin(t), FinishRelease(t),
            Flagged(s, t, Releasing(id, z, false, false), id, flagged),
            Flagged(CountedDown(s, z), t, Releasing(id, z, true, false), id, flagged),
            Flagged(base, t, Releasing(id, z, true, true), id, Resting(a)),
            Returned(base, id, a).(threads := s.threads[t := Thread(Idle, s.threads[t].held - {id})]));
  }

  // The parts of the state the steps of a release change do not meet.

  lemma BaseKept<Id, Tid, Acct>(s: Sys<Id, Tid, Acct>, t: Tid, id: Id, a: Arena<Acct>, flagged: Arena<Acct>)
    requires t in s.threads && HasList(s.pool, a.bucket) && a.bucket in s.inflight && (a.account.Some? ==> a.account.value in s.pending)
    requires flagged == a.(released := true)
    ensures Resting(flagged) == Resting(a)
    ensures CountedDown(s, a.bucket).pool == s.pool && CountedDown(s, a.bucket).threads == s.threads && CountedDown(s, a.bucket).pending == s.pending
    ensures var base := Repaid(CountedDown(s, a.bucket), a); base.pool == s.pool && base.threads == s.threads
  {}

  lemma CountKept<Id, Tid, Acct>(s: Sys<Id, Tid, Acct>, t: Tid, id: Id, a: Arena<Acct>, flagged: Arena<Acct>)
    requires t in s.threads && HasList(s.pool, a.bucket) && a.bucket in s.inflight && (a.account.Some? ==> a.account.value in s.pending)
    requires flagged == a.(released := true)
    ensures var stage := Releasing(id, a.bucket, true, false);
      var f := Flagged(s, t, stage, id, flagged);
      f.inflight == s.inflight && CountedDown(f, a.bucket) == Flagged(CountedDown(s, a.bucket), t, stage, id, flagged)
  {}

  lemma PinKept<Id, Tid, Acct>(s: Sys<Id, Tid, Acct>, t: Tid, id: Id, a: Arena<Acct>, flagged: Arena<Acct>)
    requires t in s.threads && HasList(s.pool, a.bucket) && a.bucket in s.inflight && (a.account.Some? ==> a.account.value in s.pending)
    requires flagged == a.(released := true)
    ensures var stage := Releasing(id, a.bucket, true, true);
      var f := Flagged(CountedDown(s, a.bucket), t, stage, id, Resting(a));
      f.pending == s.pending && Repaid(f, flagged) == Flagged(Repaid(CountedDown(s, a.bucket), a), t, stage, id, Resting(a))
  {}

  lemma ReturnKept<Id, Tid, Acct>(s: Sys<Id, Tid, Acct>, t: Tid, id: Id, a: Arena<Acct>, flagged: Arena<Acct>)
    requires t in s.threads && HasList(s.pool, a.bucket) && a.bucket in s.inflight && (a.account.Some? ==> a.account.value in s.pending)
    requires flagged == a.(released := true)
    ensures var r := Returned(s, id, a);
      && r.pending == s.pending && r.inflight == s.inflight && Repaid(r, a).inflight == s.inflight
      && Returned(Repaid(CountedDown(s, a.bucket), a), id, a) == CountedDown(Repaid(r, a), a.bucket)
  {
    hide PoolAfter, Full;
  }

  lemma HeldKnown<Id, Tid, Acct>(s: Sys<Id, Tid, Acct>, t: Tid, id: Id)
    requires Inv(s) && t in s.threads && id in s.threads[t].held
    ensures id in s.pool.live
    ensures var a := s.pool.live[id];
      && !a.released && a.bytes == BlockBytes(a.blocks)
      && (if a.account.Some? then a.account.value in s.pending else a.reported == 0)
  {
    hide Balanced, ListsOk, Covered, Counted, LockingOk;
    assert HeldOk(s.pool, s.threads[t].held);
    assert ArenaOk(s.pool.live[id], s.pending.Keys);
  }
}
