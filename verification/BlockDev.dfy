/** block_dev.c: the calls of the block layer, over the pointer-linked cache, do to disk and buffers exactly
    what `DevModel` says. */
module BlockDev {
  import opened Blocks
  import opened Buffers
  import opened DevModel
  import opened DevRefine
  import opened DiskFile
  import opened Options

  lemma FrontAgain(vals: seq<Buf>, k: nat, x: Buf, y: Buf)
    requires k < |vals|
    ensures MoveFront(vals, k, x)[0] == x && MoveFront(vals, k, x)[0 := y] == MoveFront(vals, k, y)
  {}

  lemma ReadHit(d: Dev, b: nat)
    requires b < |d.disk| && IndexOf(d.lru, b) < |d.lru|
    ensures var k := IndexOf(d.lru, b);
            var buf := Reloaded(d.lru[k], d.disk[b]);
            ReadStep(d, b) == (d.(lru := MoveFront(d.lru, k, buf)), Some(buf.data))
  {}

  lemma ReadMiss(d: Dev, b: nat)
    requires b < |d.disk| && IndexOf(d.lru, b) == |d.lru|
    ensures ReadStep(d, b) == (d.(lru := Inserted(d.lru, d.maxBuffers, b, d.disk[b])), Some(d.disk[b]))
  {}

  class BlockDevice {
    const disk: Disk
    const cache: BufferCache

    ghost predicate Valid()
      reads this, disk`blocks, cache, cache.lru, cache.lru.nodes, cache.table, cache.table.buckets
    {
      cache.Valid() && Wf(Model())
    }

    ghost function Model(): Dev
      reads this, disk`blocks, cache, cache.lru, cache.lru.nodes
    {
      Dev(disk.blocks, cache.Model(), cache.maxBuffers)
    }

    ghost function Repr(): set<object>
      reads this, cache, cache.lru, cache.table
    {
      {cache, cache.lru, cache.table, cache.table.buckets} + NodeSet(cache.lru.nodes)
    }

    /** `blkdev_open` on a device image. */
    constructor (disk: Disk, maxBuffers: nat)
      requires maxBuffers > 0
      ensures this.disk == disk && Valid() && Model() == Dev(disk.blocks, [], maxBuffers)
      ensures fresh(cache) && fresh(cache.lru) && fresh(cache.table) && fresh(cache.table.buckets)
    {
      this.disk := disk;
      cache := new BufferCache(maxBuffers);
    }

    /** `blkdev_read`. */
    method Read(b: Word) returns (out: Option<Block>)
      requires Valid()
      modifies Repr()
      ensures Valid() && fresh(Repr() - old(Repr()))
      ensures (Model(), out) == ReadStep(old(Model()), b)
      ensures b < |disk.blocks| ==> out == Some(Views(old(Model()))[b]) && !Stale(Model(), b)
      ensures Views(Model()) == Views(old(Model()))
      ensures NoNewStale(old(Model()), Model()) && StaysCached(old(Model()), Model(), 1)
    {
      hide BufferCache.Valid, Wf, MoveFront, IndexOf, Values, Stale, Views, StaysCached;
      ReadStaysCached(Model(), b);
      if b >= |disk.blocks| {
        return None;
      }
      ghost var was, k := cache.Model(), IndexOf(cache.Model(), b);
      ReadFlat(Model(), b);
      if k < |was| { ReadHit(Model(), b); } else { ReadMiss(Model(), b); }
      hide ReadStep, Inserted;
      var bh := cache.Lookup(b);
      if bh != null {
        assert bh in NodeSet(cache.lru.nodes);
        assert k < |was| && cache.Model() == MoveFront(was, k, was[k].(refs := was[k].refs + 1));
        out := Take(bh, was, k);
        return;
      }
      var block := disk.blocks[b];
      var _ := cache.Insert(b, block);
      out := Some(block);
    }

    /** A hit: reload the buffer if it was invalidated, hand out its data and give the reference back. */
    method Take(bh: BufferHead, ghost was: seq<Buf>, ghost k: nat) returns (out: Option<Block>)
      requires cache.Valid() && k < |was| && bh == First(cache.lru.nodes) && bh.blockNum < |disk.blocks|
      requires cache.Model() == MoveFront(was, k, was[k].(refs := was[k].refs + 1))
      modifies bh`data, bh`valid, bh`refCount
      ensures cache.Valid() && out == Some(Reloaded(was[k], disk.blocks[bh.blockNum]).data)
      ensures cache.Model() == MoveFront(was, k, Reloaded(was[k], disk.blocks[bh.blockNum]))
    {
      hide BufferCache.Valid, Values;
      assert bh.Value() == cache.Model()[0];
      hide MoveFront;
      ghost var x := was[k].(refs := was[k].refs + 1);
      FrontAgain(was, k, x, x);
      if !bh.valid {
        bh.data := disk.blocks[bh.blockNum];
        bh.valid := true;
      }
      out := Some(bh.data);
      bh.refCount := bh.refCount - 1;
      cache.Refilled(bh);
      FrontAgain(was, k, x, bh.Value());
    }

    /** `blkdev_write`. */
    method Write(b: Word, data: Block) returns (ok: bool)
      requires Valid()
      modifies disk, Repr()
      ensures Valid() && fresh(Repr() - old(Repr()))
      ensures (Model(), ok) == WriteStep(old(Model()), b, data) && (ok <==> b < |old(disk.blocks)|)
      ensures ok && !Stale(old(Model()), b) ==> Views(Model()) == Views(old(Model()))[b := data]
      ensures NoNewStale(old(Model()), Model()) && StaysCached(old(Model()), Model(), 1)
    {
      hide BufferCache.Valid, Wf, MoveFront, IndexOf, Values, Stale, Views, StaysCached;
      WriteStaysCached(Model(), b, data);
      if b >= |disk.blocks| {
        return false;
      }
      ghost var was, k := cache.Model(), IndexOf(cache.Model(), b);
      WriteFlat(Model(), b, data);
      ok := true;
      var bh := cache.Lookup(b);
      if bh != null {
        assert bh in NodeSet(cache.lru.nodes);
        assert k < |was| && cache.Model() == MoveFront(was, k, was[k].(refs := was[k].refs + 1));
        Overwrite(bh, data, was, k);
        return;
      }
      bh := cache.Insert(b, data);
      if bh != null {
        assert bh in cache.lru.nodes;
        MarkNew(bh, was);
        return;
      }
      disk.WriteBlock(b, data);
    }

    /** A hit: overwrite the buffer, mark it dirty and give the reference back, whatever `valid` says. */
    method Overwrite(bh: BufferHead, data: Block, ghost was: seq<Buf>, ghost k: nat)
      requires cache.Valid() && k < |was| && bh == First(cache.lru.nodes)
      requires cache.Model() == MoveFront(was, k, was[k].(refs := was[k].refs + 1))
      modifies bh`data, bh`dirty, bh`refCount
      ensures cache.Valid() && cache.Model() == MoveFront(was, k, was[k].(data := data, dirty := true))
    {
      hide BufferCache.Valid, Values;
      assert bh.Value() == cache.Model()[0];
      hide MoveFront;
      ghost var x := was[k].(refs := was[k].refs + 1);
      FrontAgain(was, k, x, x);
      bh.data := data;
      bh.dirty := true;
      bh.refCount := bh.refCount - 1;
      cache.Refilled(bh);
      FrontAgain(was, k, x, bh.Value());
    }

    /** A miss that was cached: mark the new buffer dirty and give the reference back. */
    method MarkNew(bh: BufferHead, ghost was: seq<Buf>)
      requires cache.Valid() && bh == First(cache.lru.nodes)
      requires |cache.Model()| == |was| + 1 && cache.Model() == [cache.Model()[0]] + was
      modifies bh`dirty, bh`refCount
      ensures cache.Valid()
      ensures var x := old(cache.Model()[0]); cache.Model() == [x.(dirty := true, refs := x.refs - 1)] + was
    {
      hide BufferCache.Valid, Values;
      assert bh.Value() == cache.Model()[0];
      bh.dirty := true;
      bh.refCount := bh.refCount - 1;
      cache.Refilled(bh);
    }

    /** `blkdev_sync`: write back what is dirty, then the barrier. */
    method Sync()
      requires Valid()
      modifies disk, cache.lru.nodes`dirty
      ensures Valid() && Model() == SyncStep(old(Model()))
      ensures disk.events != [] && disk.events[|disk.events| - 1] == JournalRun.Fsync
      ensures Coherent(old(Model())) ==>
        SameViews(old(Model()), Model()) && forall x :: 0 <= x < |disk.blocks| ==> disk.blocks[x] == View(Model(), x)
    {
      hide BufferCache.Valid, Values, View, Coherent;
      ghost var was := Model();
      SyncRefinesIff(was);
      if Coherent(was) { SyncMakesDiskView(was); }
      cache.Sync(disk);
      disk.Sync();
    }

    /** The callback through which the journal announces a home write it made on the disk itself. */
    method Invalidate(b: Word)
      requires Valid()
      modifies cache.lru.nodes`valid, cache.lru.nodes`dirty
      ensures Valid() && Model() == InvalidateStep(old(Model()), b)
    {
      hide BufferCache.Valid, Values;
      cache.Invalidate(b);
    }
  }
}
