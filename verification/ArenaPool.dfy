/** The arena pool on the heap: intrusive free lists and the arenas' ledgers, each
    critical section proved to be the atomic step of `PoolModel`. */
module ArenaPool {
  import Model = PoolModel
  import PoolProofs
  import opened Results
  import opened Sums

  /** Bytes not yet reported to V8. */
  class Account {
    var pending: int

    constructor ()
      ensures pending == 0
    {
      pending := 0;
    }
  }

  /** A process-wide gauge. */
  class Gauge {
    var value: int

    constructor ()
      ensures value == 0
    {
      value := 0;
    }
  }

  ghost function Pin(account: Account?): Option<Account> {
    if account == null then None else Some(account as Account)
  }

  class Arena {
    const bucket: Bucket
    const gauge: Gauge
    var next: Arena?
    var released: bool
    var bytes: int
    var account: Account?
    var reported: int
    // The blocks the arena allocator holds, address to length.
    var blocks: map<nat, nat>

    ghost function View(): Model.Arena<Account>
      reads this
    {
      Model.Arena(bucket.size, released, bytes, Pin(account), reported, blocks)
    }

    constructor (bucket: Bucket, account: Account?, gauge: Gauge)
      ensures this.bucket == bucket && this.gauge == gauge && next == null
      ensures View() == Model.Arena(bucket.size, false, 0, Pin(account), 0, map[])
    {
      this.bucket, this.gauge, this.account := bucket, gauge, account;
      next, released, bytes, reported, blocks := null, false, 0, 0, map[];
    }

    method Report()
      modifies this`reported, account
      ensures account == null ==> reported == old(reported)
      ensures account != null ==> reported == bytes
      ensures account == null ==> View() == old(View())
      ensures account != null ==>
        View() == old(View()).(reported := bytes) && account.pending == old(account.pending) + bytes - old(reported)
    {
      if account == null {
        return;
      }
      account.pending := account.pending + (bytes - reported);
      reported := bytes;
    }

    /** The arena is being released: everything it reported is taken back. */
    method Unpin()
      modifies this`reported, this`account, account
      ensures account == null && reported == if old(account) == null then old(reported) else 0
      ensures old(account) == null ==> View() == old(View())
      ensures old(account) != null ==>
        View() == old(View()).(reported := 0, account := None) && old(account).pending == old(account.pending) - old(reported)
    {
      if account == null {
        return;
      }
      account.pending := account.pending - reported;
      reported := 0;
      account := null;
    }

    /** The backing allocator answers with an unused address, or not at all. */
    method RawAlloc(len: nat, answer: Option<nat>) returns (ok: bool)
      requires answer.Some? ==> answer.value !in blocks
      modifies this`bytes, this`blocks, gauge
      ensures ok == answer.Some?
      ensures ok ==> blocks == old(blocks)[answer.value := len] && bytes == old(bytes) + len && gauge.value == old(gauge.value) + len
      ensures View() == (if ok then Model.Grow(old(View()), answer.value, len) else old(View()))
      ensures gauge.value == old(gauge.value) + bytes - old(bytes)
    {
      if answer.None? {
        return false;
      }
      blocks := blocks[answer.value := len];
      bytes := bytes + len;
      gauge.value := gauge.value + len;
      return true;
    }

    /** Resize in place (`to` is `at`) or remap, granted by the backing allocator or not. */
    method RawRemap(at: nat, to: nat, newLen: nat, granted: bool) returns (ok: bool)
      requires at in blocks && (to == at || to !in blocks)
      modifies this`bytes, this`blocks, gauge
      ensures ok == granted
      ensures ok ==>
        && blocks == (old(blocks) - {at})[to := newLen]
        && bytes == old(bytes) - old(blocks[at]) + newLen && gauge.value == old(gauge.value) - old(blocks[at]) + newLen
      ensures View() == (if ok then Model.Move(old(View()), at, to, newLen) else old(View()))
      ensures gauge.value == old(gauge.value) + bytes - old(bytes)
    {
      if !granted {
        return false;
      }
      var oldLen := blocks[at];
      blocks := (blocks - {at})[to := newLen];
      bytes := bytes - oldLen + newLen;
      gauge.value := gauge.value + (newLen - oldLen);
      return true;
    }

    method RawFree(at: nat)
      requires at in blocks
      modifies this`bytes, this`blocks, gauge
      ensures blocks == old(blocks) - {at} && bytes == old(bytes) - old(blocks[at]) && gauge.value == old(gauge.value) - old(blocks[at])
      ensures View() == Model.Shrink(old(View()), at)
      ensures gauge.value == old(gauge.value) + bytes - old(bytes)
    {
      var len := blocks[at];
      blocks := blocks - {at};
      bytes := bytes - len;
      gauge.value := gauge.value - len;
    }

    /** `reset`: gives some blocks back, one call each. */
    method Trim(gone: seq<nat>)
      requires PoolProofs.NoDuplicates(gone) && forall i :: 0 <= i < |gone| ==> gone[i] in blocks
      modifies this`bytes, this`blocks, gauge
      ensures blocks == old(blocks) - (set i | 0 <= i < |gone| :: gone[i])
      ensures gauge.value == old(gauge.value) - Model.BlockBytes(old(blocks)) + Model.BlockBytes(blocks)
    {
      hide Model.BlockBytes;
      for k := 0 to |gone|
        invariant blocks == old(blocks) - (set i | 0 <= i < k :: gone[i])
        invariant gauge.value == old(gauge.value) - Model.BlockBytes(old(blocks)) + Model.BlockBytes(blocks)
      {
        BlockGone(blocks, gone[k]);
        RawFree(gone[k]);
      }
    }

    static lemma BlockGone(blocks: map<nat, nat>, at: nat)
      requires at in blocks
      ensures Model.BlockBytes(blocks - {at}) == Model.BlockBytes(blocks) - blocks[at]
    {
      SumRemove(blocks, Model.Length, at);
    }

    /** `_arena.deinit()`: every block goes back, one call each. */
    method FreeAll()
      modifies this`bytes, this`blocks, gauge
      ensures blocks == map[]
      ensures bytes == old(bytes) - Model.BlockBytes(old(blocks))
      ensures gauge.value == old(gauge.value) - Model.BlockBytes(old(blocks))
    {
      while blocks != map[]
        invariant bytes - Model.BlockBytes(blocks) == old(bytes - Model.BlockBytes(blocks))
        invariant gauge.value - bytes == old(gauge.value - bytes)
        decreases blocks.Keys
      {
        var at :| at in blocks;
        SumRemove(blocks, Model.Length, at);
        RawFree(at);
      }
    }
  }

  /** What the `next` link of entry `i` of a free list must be. */
  ghost function Following(list: seq<Arena>, i: nat): Arena? {
    if i + 1 < |list| then list[i + 1] else null
  }

  class Bucket {
    const size: Model.Size
    const freeListMax: nat
    const retainBytes: nat
    var freeList: Arena?
    var freeListLen: nat
    ghost var contents: seq<Arena>

    /** The list that starts at `freeList` is exactly `contents`: acyclic, counted, no
        longer than the cap. */
    ghost predicate Chained()
      reads this, contents`next
    {
      && freeListLen == |contents| <= freeListMax
      && PoolProofs.NoDuplicates(contents)
      && freeList == (if contents == [] then null else contents[0])
      && (forall i :: 0 <= i < |contents| ==>
            contents[i].bucket == this && contents[i].next == Following(contents, i))
    }

    constructor (size: Model.Size, max: nat, retain: nat)
      ensures Chained() && contents == []
      ensures this.size == size && freeListMax == max && retainBytes == retain
    {
      this.size, freeListMax, retainBytes := size, max, retain;
      freeList, freeListLen, contents := null, 0, [];
    }

    /** Takes the most recently pushed arena. */
    method Pop() returns (entry: Arena)
      requires Chained() && freeList != null
      modifies this`freeList, this`freeListLen, this`contents
      ensures Chained() && old(contents) != []
      ensures entry == old(contents)[0] && contents == old(contents)[1..]
    {
      entry := freeList;
      assert entry == contents[0] && entry.next == Following(contents, 0);
      freeList := entry.next;
      freeListLen := freeListLen - 1;
      ghost var before := contents;
      contents := contents[1..];
      forall i | 0 <= i < |contents|
        ensures contents[i].bucket == this && contents[i].next == Following(contents, i)
      {
        assert contents[i] == before[i + 1] && (i + 1 < |contents| ==> contents[i + 1] == before[i + 2]);
      }
    }

    method Push(entry: Arena)
      requires Chained() && entry !in contents && entry.bucket == this && freeListLen < freeListMax
      modifies this`freeList, this`freeListLen, this`contents, entry`next
      ensures Chained() && contents == [entry] + old(contents)
    {
      entry.next := freeList;
      freeList := entry;
      freeListLen := freeListLen + 1;
      ghost var before := contents;
      contents := [entry] + contents;
      forall i | 0 <= i < |contents|
        ensures contents[i].bucket == this && contents[i].next == Following(contents, i)
      {
        if i > 0 {
          assert contents[i] == before[i - 1] && (i + 1 < |contents| ==> contents[i + 1] == before[i]);
        }
      }
    }
  }

  class ArenaPool {
    const tiny: Bucket
    const small: Bucket
    const medium: Bucket
    const large: Bucket
    const safety: bool
    const gauge: Gauge
    ghost var live: set<Arena>

    function BucketOf(size: Model.Size): Bucket {
      match size
      case Tiny => tiny
      case Small => small
      case Medium => medium
      case Large => large
    }

    /** The pool's entries know their bucket and gauge. */
    ghost predicate Shape()
      reads this
    {
      && tiny.size == Model.Tiny && small.size == Model.Small && medium.size == Model.Medium && large.size == Model.Large
      && (forall a :: a in live ==> a.bucket == BucketOf(a.bucket.size) && a.gauge == gauge)
    }

    /** The list is a chain of the pool's arenas, released, unpinned and with nothing reported. */
    ghost predicate ListOk(bucket: Bucket)
      reads this, bucket, bucket.contents`next, bucket.contents`released, bucket.contents`account, bucket.contents`reported
    {
      bucket.Chained() && forall a :: a in bucket.contents ==> a in live && a.released && a.account == null && a.reported == 0
    }

    ghost predicate Valid()
      reads this, tiny, tiny.contents`next, tiny.contents`released, tiny.contents`account, tiny.contents`reported
      reads small, small.contents`next, small.contents`released, small.contents`account, small.contents`reported
      reads medium, medium.contents`next, medium.contents`released, medium.contents`account, medium.contents`reported
      reads large, large.contents`next, large.contents`released, large.contents`account, large.contents`reported
    {
      Shape() && ListOk(tiny) && ListOk(small) && ListOk(medium) && ListOk(large)
    }

    ghost function Lists(): map<Model.Size, seq<Arena>>
      reads tiny, small, medium, large
    {
      map[Model.Tiny := tiny.contents, Model.Small := small.contents, Model.Medium := medium.contents, Model.Large := large.contents]
    }

    ghost function Arenas(): map<Arena, Model.Arena<Account>>
      reads this, live
    {
      map a | a in live :: a.View()
    }

    ghost function View(): Model.Pool<Arena, Account>
      reads this, tiny, small, medium, large, live
    {
      Model.Pool(Arenas(), Lists(),
        map[Model.Tiny := tiny.freeListMax, Model.Small := small.freeListMax,
            Model.Medium := medium.freeListMax, Model.Large := large.freeListMax],
        safety)
    }

    constructor (tinyMax: nat, smallMax: nat, mediumMax: nat, largeMax: nat,
                 tinyRetain: nat, smallRetain: nat, mediumRetain: nat, largeRetain: nat, safety: bool, gauge: Gauge)
      ensures Valid() && live == {} && this.safety == safety && this.gauge == gauge
      ensures Arenas() == map[] && forall z: Model.Size :: BucketOf(z).contents == []
    {
      hide Bucket.Chained, ListOk;
      tiny := new Bucket(Model.Tiny, tinyMax, tinyRetain);
      small := new Bucket(Model.Small, smallMax, smallRetain);
      medium := new Bucket(Model.Medium, mediumMax, mediumRetain);
      large := new Bucket(Model.Large, largeMax, largeRetain);
      this.safety, this.gauge := safety, gauge;
      live := {};
      new;
      ListKept(tiny);
      ListKept(small);
      ListKept(medium);
      ListKept(large);
    }

    /** The smallest bucket, in the order tiny to large, whose retained size covers the
        request; the large one when none does. */
    function BucketFor(size: nat): (z: Model.Size)
      ensures z != Model.Large ==> size <= BucketOf(z).retainBytes
      ensures z != Model.Tiny ==> tiny.retainBytes < size
      ensures z == Model.Medium || z == Model.Large ==> small.retainBytes < size
      ensures z == Model.Large ==> medium.retainBytes < size
    {
      if size <= tiny.retainBytes then Model.Tiny
      else if size <= small.retainBytes then Model.Small
      else if size <= medium.retainBytes then Model.Medium
      else Model.Large
    }

    /** The locked part of acquire; `memory` says whether a new entry can be allocated. */
    method Acquire(account: Account?, size: Model.Size, memory: bool) returns (entry: Arena?)
      requires Valid()
      modifies this`live, BucketOf(size), BucketOf(size).contents
      ensures Valid()
      ensures var list := old(BucketOf(size).contents);
        if list != [] then
          && entry == list[0] && View() == Model.TakeFree(old(View()), size, Pin(account))
          && BucketOf(size).contents == list[1..]
          && entry.bytes == old(BucketOf(size).contents[0].bytes) && entry.blocks == old(BucketOf(size).contents[0].blocks)
        else if memory then
          && entry != null && fresh(entry) && View() == Model.Create(old(View()), size, entry, Pin(account))
          && entry.bytes == 0 && entry.blocks == map[]
        else entry == null && View() == old(View())
      ensures entry != null ==>
        && entry in live && entry.bucket == BucketOf(size)
        && entry.account == account && !entry.released && entry.reported == 0
    {
      hide Bucket.Chained, Arenas, ListOk;
      EmptyKnown(BucketOf(size));
      if BucketOf(size).freeList != null {
        entry := TakeFree(account, size);
      } else if memory {
        entry := CreateEntry(account, size);
      } else {
        entry := null;
      }
    }

    lemma EmptyKnown(bucket: Bucket)
      requires ListOk(bucket)
      ensures bucket.freeList == null <==> bucket.contents == []
    {}

    method CreateEntry(account: Account?, size: Model.Size) returns (entry: Arena)
      requires Valid()
      modifies this`live
      ensures Valid() && fresh(entry)
      ensures View() == Model.Create(old(View()), size, entry, Pin(account))
      ensures entry in live && entry.bucket == BucketOf(size) && entry.account == account
      ensures !entry.released && entry.reported == 0 && entry.bytes == 0 && entry.blocks == map[]
    {
      hide ListOk, Bucket.Chained;
      ListKnown(tiny);
      ListKnown(small);
      ListKnown(medium);
      ListKnown(large);
      entry := new Arena(BucketOf(size), account, gauge);
      ghost var before := Arenas();
      live := live + {entry};
      ListKept(tiny);
      ListKept(small);
      ListKept(medium);
      ListKept(large);
      assert Arenas() == before[entry := entry.View()];
    }

    method TakeFree(account: Account?, size: Model.Size) returns (entry: Arena)
      requires Valid() && BucketOf(size).freeList != null
      modifies BucketOf(size), BucketOf(size).contents
      ensures Valid() && old(BucketOf(size).contents) != []
      ensures entry == old(BucketOf(size).contents[0]) && View() == Model.TakeFree(old(View()), size, Pin(account))
      ensures entry in live && entry.bucket == BucketOf(size) && entry.account == account && !entry.released && entry.reported == 0
      ensures BucketOf(size).contents == old(BucketOf(size).contents)[1..]
      ensures entry.bytes == old(BucketOf(size).contents[0].bytes) && entry.blocks == old(BucketOf(size).contents[0].blocks)
    {
      hide ListOk, Bucket.Chained;
      HasEntry(BucketOf(size));
      var bucket := BucketOf(size);
      entry := PopFrom(bucket);
      entry.released := false;
      entry.account := account;
      ListsChanged(size);
      ArenasChanged(entry);
    }

    lemma HasEntry(bucket: Bucket)
      requires ListOk(bucket) && bucket.freeList != null
      ensures bucket.contents != [] && bucket.contents[0] in live && bucket.freeList == bucket.contents[0]
      ensures bucket.contents[0].bucket == bucket && bucket.contents[0].reported == 0
    {}

    method PopFrom(bucket: Bucket) returns (entry: Arena)
      requires Valid() && bucket == BucketOf(bucket.size) && bucket.freeList != null
      modifies bucket`freeList, bucket`freeListLen, bucket`contents
      ensures Valid() && old(bucket.contents) != []
      ensures entry == old(bucket.contents[0]) && bucket.contents == old(bucket.contents)[1..]
      ensures OffLists(entry)
    {
      hide ListOk, Bucket.Chained;
      HasEntry(bucket);
      HeadOnly(bucket);
      ListKnown(bucket);
      entry := bucket.Pop();
      ListKept(bucket);
    }

    lemma ListKnown(bucket: Bucket)
      requires ListOk(bucket)
      ensures bucket.Chained() && forall a :: a in bucket.contents ==> a in live && a.released && a.account == null && a.reported == 0
    {
      hide Bucket.Chained;
    }

    lemma ListKept(bucket: Bucket)
      requires bucket.Chained() && forall a :: a in bucket.contents ==> a in live && a.released && a.account == null && a.reported == 0
      ensures ListOk(bucket)
    {
      hide Bucket.Chained;
    }

    /** The head of a list is nowhere else on the lists. */
    lemma HeadOnly(bucket: Bucket)
      requires Valid() && bucket == BucketOf(bucket.size) && bucket.contents != []
      ensures bucket.contents[0] !in bucket.contents[1..]
      ensures tiny != bucket ==> bucket.contents[0] !in tiny.contents
      ensures small != bucket ==> bucket.contents[0] !in small.contents
      ensures medium != bucket ==> bucket.contents[0] !in medium.contents
      ensures large != bucket ==> bucket.contents[0] !in large.contents
    {
      hide Following;
      assert bucket.contents[0].bucket == bucket;
    }

    /** An arena that is checked out is on no list. */
    lemma CheckedOutOff(entry: Arena)
      requires Valid() && !entry.released
      ensures OffLists(entry)
    {
      hide Bucket.Chained;
    }

    ghost predicate OffLists(entry: Arena)
      reads this, tiny, small, medium, large
    {
      entry !in tiny.contents && entry !in small.contents && entry !in medium.contents && entry !in large.contents
    }

    twostate lemma ListsChanged(size: Model.Size)
      requires forall z: Model.Size :: z != size ==> BucketOf(z).contents == old(BucketOf(z).contents)
      ensures Lists() == old(Lists())[size := BucketOf(size).contents]
    {
      assert BucketOf(Model.Tiny) == tiny && BucketOf(Model.Small) == small && BucketOf(Model.Medium) == medium && BucketOf(Model.Large) == large;
    }

    twostate lemma ArenasChanged(entry: Arena)
      requires live == old(live) && entry in live
      requires forall a :: a in live && a != entry ==> a.View() == old(a.View())
      ensures Arenas() == old(Arenas())[entry := entry.View()]
    {}

    /** The first critical section of release; true when the double-release assertion fires. */
    method BeginRelease(entry: Arena) returns (caught: bool)
      requires Valid() && entry in live
      modifies entry`released
      ensures Valid() && caught == old(entry.released) && entry.released && (!caught ==> OffLists(entry))
      ensures View() == if caught then old(View()) else Model.SetReleased(old(View()), entry)
    {
      hide ListOk;
      if entry.released {
        return true;
      }
      CheckedOutOff(entry);
      entry.released := true;
      ArenasChanged(entry);
      return false;
    }

    /** The second critical section of release, of an arena that has been unpinned. */
    method FinishRelease(entry: Arena)
      requires Valid() && entry in live && entry !in entry.bucket.contents
      requires entry.released && entry.account == null && entry.reported == 0
      modifies this`live, entry`next, entry`bytes, entry`blocks, entry.bucket, gauge
      ensures Valid() && View() == Model.GiveBack(old(View()), entry)
      ensures !safety && |old(entry.bucket.contents)| < entry.bucket.freeListMax ==>
        && live == old(live) && entry.bucket.contents == [entry] + old(entry.bucket.contents)
        && entry.blocks == old(entry.blocks) && entry.bytes == old(entry.bytes) && gauge.value == old(gauge.value)
      ensures safety || |old(entry.bucket.contents)| >= entry.bucket.freeListMax ==>
        && live == old(live) - {entry} && entry.bucket.contents == old(entry.bucket.contents)
        && entry.blocks == map[] && gauge.value == old(gauge.value) - Model.BlockBytes(old(entry.blocks))
    {
      hide ListOk, Bucket.Chained, Model.BlockBytes;
      var bucket := entry.bucket;
      LengthKnown(bucket);
      if safety || bucket.freeListLen >= bucket.freeListMax {
        Discard(entry);
      } else {
        PushTo(bucket, entry);
        ListsChanged(bucket.size);
        ArenasChanged(entry);
        assert old(Arenas())[entry := old(entry.View())] == old(Arenas());
      }
    }

    /** A whole release: caught when the flag is set already; otherwise the account gets back
        what was reported to it, the blocks `gone` are trimmed, and the arena heads its free
        list or, at the cap or under safety, gives back everything and is gone. */
    method Release(entry: Arena, gone: seq<nat>) returns (caught: bool)
      requires Valid() && entry in live
      requires entry.account == null ==> entry.reported == 0
      requires PoolProofs.NoDuplicates(gone) && forall i :: 0 <= i < |gone| ==> gone[i] in entry.blocks
      modifies this`live, entry, entry.bucket, entry.account, gauge
      ensures Valid() && caught == old(entry.released)
      ensures caught ==> View() == old(View()) && gauge.value == old(gauge.value)
      ensures !caught ==> entry.released && entry.account == null
      ensures !caught && old(entry.account) != null ==> old(entry.account).pending == old(entry.account.pending) - old(entry.reported)
      ensures !caught && !safety && |old(entry.bucket.contents)| < entry.bucket.freeListMax ==>
        && live == old(live) && entry.bucket.contents == [entry] + old(entry.bucket.contents)
        && entry.blocks == old(entry.blocks) - (set i | 0 <= i < |gone| :: gone[i])
        && gauge.value == old(gauge.value) - Model.BlockBytes(old(entry.blocks)) + Model.BlockBytes(entry.blocks)
      ensures !caught && (safety || |old(entry.bucket.contents)| >= entry.bucket.freeListMax) ==>
        && live == old(live) - {entry} && entry.bucket.contents == old(entry.bucket.contents)
        && entry.blocks == map[] && gauge.value == old(gauge.value) - Model.BlockBytes(old(entry.blocks))
    {
      hide ListOk, Bucket.Chained, Model.BlockBytes, PoolProofs.NoDuplicates, Arenas, Lists, Model.SetReleased, Model.GiveBack;
      caught := BeginRelease(entry);
      if caught {
        return;
      }
      OwnList(entry);
      entry.Unpin();
      entry.Trim(gone);
      FinishRelease(entry);
    }

    lemma OwnList(entry: Arena)
      requires Shape() && entry in live && OffLists(entry)
      ensures entry !in entry.bucket.contents
    {}

    lemma LengthKnown(bucket: Bucket)
      requires ListOk(bucket)
      ensures bucket.freeListLen == |bucket.contents|
    {}

    method Discard(entry: Arena)
      requires Valid() && entry in live && entry !in entry.bucket.contents
      modifies this`live, entry`bytes, entry`blocks, gauge
      ensures Valid() && Arenas() == old(Arenas()) - {entry} && Lists() == old(Lists())
      ensures live == old(live) - {entry} && entry.blocks == map[]
      ensures gauge.value == old(gauge.value) - Model.BlockBytes(old(entry.blocks))
    {
      hide PoolProofs.NoDuplicates, Following, Model.BlockBytes;
      hide ListOk, Bucket.Chained;
      NowhereElse(entry);
      entry.FreeAll();
      ListKnown(tiny);
      ListKnown(small);
      ListKnown(medium);
      ListKnown(large);
      live := live - {entry};
      ListKept(tiny);
      ListKept(small);
      ListKept(medium);
      ListKept(large);
    }

    lemma NowhereElse(entry: Arena)
      requires Valid() && entry !in entry.bucket.contents
      ensures OffLists(entry)
    {
      hide ListOk;
      ElsewhereNot(entry, tiny);
      ElsewhereNot(entry, small);
      ElsewhereNot(entry, medium);
      ElsewhereNot(entry, large);
    }

    /** An arena can only be on its own bucket's list. */
    lemma ElsewhereNot(entry: Arena, bucket: Bucket)
      requires ListOk(bucket) && entry !in entry.bucket.contents
      ensures entry !in bucket.contents
    {}

    method PushTo(bucket: Bucket, entry: Arena)
      requires Valid() && bucket == BucketOf(bucket.size) && entry in live && entry.bucket == bucket
      requires entry !in bucket.contents && bucket.freeListLen < bucket.freeListMax
      requires entry.released && entry.account == null && entry.reported == 0
      modifies bucket`freeList, bucket`freeListLen, bucket`contents, entry`next
      ensures Valid() && bucket.contents == [entry] + old(bucket.contents)
    {
      hide ListOk, Bucket.Chained;
      NowhereElse(entry);
      ListKnown(bucket);
      bucket.Push(entry);
      ListKept(bucket);
    }

    /** `deinit`: walks the four free lists and frees the blocks of every arena on them. */
    method Deinit()
      requires Valid()
      modifies tiny.contents`bytes, tiny.contents`blocks, small.contents`bytes, small.contents`blocks,
        medium.contents`bytes, medium.contents`blocks, large.contents`bytes, large.contents`blocks, gauge
      ensures Valid() && Freed(tiny) && Freed(small) && Freed(medium) && Freed(large)
      ensures gauge.value == old(gauge.value)
        - Total(old(BlocksOf(tiny.contents))) - Total(old(BlocksOf(small.contents)))
        - Total(old(BlocksOf(medium.contents))) - Total(old(BlocksOf(large.contents)))
    {
      hide ListOk, Total, Totals, Shape, BlocksOf, Freed, Apart;
      var buckets := [tiny, small, medium, large];
      ghost var was := [BlocksOf(tiny.contents), BlocksOf(small.contents), BlocksOf(medium.contents), BlocksOf(large.contents)];
      ListsApart(buckets);
      AllTotals(was);
      for k := 0 to 4
        invariant forall j :: 0 <= j < k ==> Freed(buckets[j])
        invariant forall j :: k <= j < 4 ==> BlocksOf(buckets[j].contents) == was[j]
        invariant gauge.value == old(gauge.value) - Totals(was, k)
      {
        FreeOne(buckets, k);
        TotalsStep(was, k);
      }
    }

    method FreeOne(buckets: seq<Bucket>, k: nat)
      requires Shape() && k < |buckets| && ListOk(buckets[k]) && Apart(buckets)
      modifies buckets[k].contents`bytes, buckets[k].contents`blocks, gauge
      ensures Freed(buckets[k])
      ensures gauge.value == old(gauge.value) - Total(old(BlocksOf(buckets[k].contents)))
      ensures forall j :: 0 <= j < |buckets| && j != k ==>
        (old(Freed(buckets[j])) ==> Freed(buckets[j])) && BlocksOf(buckets[j].contents) == old(BlocksOf(buckets[j].contents))
    {
      hide Shape, ListOk, Total;
      FreeList(buckets[k]);
      forall j | 0 <= j < |buckets| && j != k
        ensures (old(Freed(buckets[j])) ==> Freed(buckets[j])) && BlocksOf(buckets[j].contents) == old(BlocksOf(buckets[j].contents))
      {
        forall i | 0 <= i < |buckets[j].contents|
          ensures buckets[j].contents[i].blocks == old(buckets[j].contents[i].blocks)
        {
          assert buckets[j].contents[i] in buckets[j].contents;
        }
      }
    }

    /** Nothing on the list holds memory. */
    ghost predicate Freed(bucket: Bucket)
      reads bucket, bucket.contents
    {
      forall i :: 0 <= i < |bucket.contents| ==> bucket.contents[i].blocks == map[]
    }

    /** An arena is on one list only. */
    lemma ListsApart(buckets: seq<Bucket>)
      requires Valid() && buckets == [tiny, small, medium, large]
      ensures Apart(buckets)
    {
      hide PoolProofs.NoDuplicates, Following;
    }

    ghost predicate Apart(buckets: seq<Bucket>)
      reads buckets
    {
      forall i, j, a :: 0 <= i < |buckets| && 0 <= j < |buckets| && i != j && a in buckets[i].contents ==> a !in buckets[j].contents
    }

    method FreeList(bucket: Bucket)
      requires Shape() && ListOk(bucket)
      modifies bucket.contents`bytes, bucket.contents`blocks, gauge
      ensures Freed(bucket)
      ensures gauge.value == old(gauge.value) - Total(old(BlocksOf(bucket.contents)))
    {
      hide Shape, ListOk, Bucket.Chained, Total, Model.BlockBytes;
      ghost var list := bucket.contents;
      ghost var was := BlocksOf(list);
      ghost var i := 0;
      var entry := bucket.freeList;
      ListStarts(bucket);
      assert was[..0] == [];
      while entry != null
        invariant 0 <= i <= |list| && entry == NodeAt(list, i)
        invariant forall j :: i <= j < |list| ==> list[j].blocks == was[j]
        invariant forall j :: 0 <= j < i ==> list[j].blocks == map[]
        invariant gauge.value == old(gauge.value) - Total(was[..i])
        decreases |list| - i
      {
        var e := entry;
        ListGoesOn(bucket, i);
        entry := e.next;
        e.FreeAll();
        TotalStep(was, i);
        i := i + 1;
      }
      assert was[..i] == was;
    }

    lemma ListStarts(bucket: Bucket)
      requires ListOk(bucket)
      ensures bucket.freeList == NodeAt(bucket.contents, 0)
      ensures Total([]) == 0
    {}

    lemma ListGoesOn(bucket: Bucket, i: nat)
      requires Shape() && ListOk(bucket) && i < |bucket.contents|
      ensures bucket.contents[i].next == NodeAt(bucket.contents, i + 1) && bucket.contents[i].gauge == gauge
      ensures forall j :: 0 <= j < |bucket.contents| && j != i ==> bucket.contents[j] != bucket.contents[i]
    {
      assert bucket.contents[i].next == Following(bucket.contents, i);
      assert bucket.contents[i] in live;
    }
  }

  ghost function NodeAt(list: seq<Arena>, i: nat): Arena? {
    if i < |list| then list[i] else null
  }

  /** The bytes of the first `k` lists. */
  ghost function Totals(lists: seq<seq<map<nat, nat>>>, k: nat): int
    requires k <= |lists|
  {
    if k == 0 then 0 else Totals(lists, k - 1) + Total(lists[k - 1])
  }

  lemma TotalsStep(lists: seq<seq<map<nat, nat>>>, k: nat)
    requires k < |lists|
    ensures Totals(lists, k + 1) == Totals(lists, k) + Total(lists[k])
  {}

  lemma AllTotals(lists: seq<seq<map<nat, nat>>>)
    requires |lists| == 4
    ensures Totals(lists, 0) == 0
    ensures Totals(lists, 4) == Total(lists[0]) + Total(lists[1]) + Total(lists[2]) + Total(lists[3])
  {
    TotalsStep(lists, 1);
    TotalsStep(lists, 2);
    TotalsStep(lists, 3);
  }

  lemma TotalStep(blocks: seq<map<nat, nat>>, i: nat)
    requires i < |blocks|
    ensures Total(blocks[..i + 1]) == Total(blocks[..i]) + Model.BlockBytes(blocks[i])
  {
    assert blocks[..i + 1][..i] == blocks[..i];
  }

  ghost function BlocksOf(list: seq<Arena>): (r: seq<map<nat, nat>>)
    reads list
    ensures |r| == |list| && forall i :: 0 <= i < |list| ==> r[i] == list[i].blocks
  {
    seq(|list|, i requires 0 <= i < |list| reads list => list[i].blocks)
  }

  ghost function Total(blocks: seq<map<nat, nat>>): int {
    if blocks == [] then 0 else Total(blocks[..|blocks| - 1]) + Model.BlockBytes(blocks[|blocks| - 1])
  }

  /** With exact byte counters, what `Deinit` frees of a list is the list's share of the
      gauge, so with nothing checked out the gauge returns to its start value. */
  lemma {:induction false} TotalIsListBytes(pool: ArenaPool, list: seq<Arena>)
    requires forall i :: 0 <= i < |list| ==> list[i] in pool.live && list[i].bytes == Model.BlockBytes(list[i].blocks)
    ensures Total(BlocksOf(list)) == PoolProofs.ListBytes(pool.Arenas(), list)
  {
    if list != [] {
      var front, last := list[..|list| - 1], list[|list| - 1];
      TotalIsListBytes(pool, front);
      assert BlocksOf(list)[..|list| - 1] == BlocksOf(front);
      assert list == front + [last];
      PoolProofs.ListBytesConcat(pool.Arenas(), front, [last]);
      assert PoolProofs.ListBytes(pool.Arenas(), [last]) == last.bytes;
    }
  }

  /** `deinit` at the end of any run that leaves nothing checked out: the gauge is back at
      its value at the start of the run. */
  method TearDown<Tid>(pool: ArenaPool, ghost s0: Model.Sys<Arena, Tid, Account>,
                       ghost steps: seq<Model.Step<Arena, Tid, Account>>, ghost s: Model.Sys<Arena, Tid, Account>)
    requires pool.Valid() && PoolProofs.Reachable(s0, steps, s) && PoolProofs.Quiet(s)
    requires s.pool == pool.View() && s.gauge == pool.gauge.value
    modifies pool.tiny.contents`bytes, pool.tiny.contents`blocks, pool.small.contents`bytes, pool.small.contents`blocks,
      pool.medium.contents`bytes, pool.medium.contents`blocks, pool.large.contents`bytes, pool.large.contents`blocks, pool.gauge
    ensures pool.gauge.value == s0.gauge
    ensures forall a :: a in pool.live ==> a.blocks == map[]
  {
    hide *;
    ListShares(pool, s0, steps, s);
    pool.Deinit();
    AllFreed(pool);
  }

  /** With nothing checked out the lists hold every live arena and all the gauge counts. */
  lemma ListShares<Tid>(pool: ArenaPool, s0: Model.Sys<Arena, Tid, Account>,
                        steps: seq<Model.Step<Arena, Tid, Account>>, s: Model.Sys<Arena, Tid, Account>)
    requires pool.Valid() && PoolProofs.Reachable(s0, steps, s) && PoolProofs.Quiet(s)
    requires s.pool == pool.View() && s.gauge == pool.gauge.value
    ensures AllListed(pool)
    ensures s0.gauge == pool.gauge.value
      - Total(BlocksOf(pool.tiny.contents)) - Total(BlocksOf(pool.small.contents))
      - Total(BlocksOf(pool.medium.contents)) - Total(BlocksOf(pool.large.contents))
  {
    hide PoolProofs.Reachable, PoolProofs.Quiet, Total, BlocksOf, Model.BlockBytes, PoolProofs.ListBytes, PoolProofs.ListOf, Bucket.Chained;
    PoolProofs.DeinitClearsGauge(s0, steps, s);
    PoolProofs.BytesConserved(s0, steps, s);
    PoolProofs.QuietListed(s0, steps, s);
    ListedOnHeap(pool, s.pool);
    ListShare(pool, s.pool, Model.Tiny);
    ListShare(pool, s.pool, Model.Small);
    ListShare(pool, s.pool, Model.Medium);
    ListShare(pool, s.pool, Model.Large);
  }

  lemma ListedOnHeap(pool: ArenaPool, p: Model.Pool<Arena, Account>)
    requires p == pool.View() && forall a :: a in p.live ==> PoolProofs.Listed(p, a)
    ensures AllListed(pool)
  {
    forall a | a in pool.live
      ensures a in pool.tiny.contents || a in pool.small.contents || a in pool.medium.contents || a in pool.large.contents
    {
      assert PoolProofs.Listed(p, a);
      match p.live[a].bucket
      case Tiny => case Small => case Medium => case Large =>
    }
  }

  ghost predicate AllListed(pool: ArenaPool)
    reads pool, pool.tiny, pool.small, pool.medium, pool.large
  {
    forall a :: a in pool.live ==>
      a in pool.tiny.contents || a in pool.small.contents || a in pool.medium.contents || a in pool.large.contents
  }

  lemma AllFreed(pool: ArenaPool)
    requires AllListed(pool) && pool.Freed(pool.tiny) && pool.Freed(pool.small) && pool.Freed(pool.medium) && pool.Freed(pool.large)
    ensures forall a :: a in pool.live ==> a.blocks == map[]
  {}

  /** The bytes of one list, on the heap and in the model. */
  lemma ListShare(pool: ArenaPool, p: Model.Pool<Arena, Account>, z: Model.Size)
    requires p == pool.View() && forall a :: a in p.live ==> p.live[a].bytes == Model.BlockBytes(p.live[a].blocks)
    requires forall i :: 0 <= i < |pool.BucketOf(z).contents| ==> pool.BucketOf(z).contents[i] in pool.live
    ensures PoolProofs.ListOf(p, z) == pool.BucketOf(z).contents
    ensures Total(BlocksOf(pool.BucketOf(z).contents)) == PoolProofs.ListBytes(p.live, PoolProofs.ListOf(p, z))
  {
    hide Total, BlocksOf, Model.BlockBytes, PoolProofs.ListBytes;
    forall a | a in pool.live
      ensures a.bytes == Model.BlockBytes(a.blocks)
    {
      assert a in p.live && p.live[a] == a.View();
    }
    TotalIsListBytes(pool, pool.BucketOf(z).contents);
  }
}
