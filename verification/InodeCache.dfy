/** inode.c: the fixed pool of in-memory inodes with its LRU list, hash chains and reference counts, written
    back through the cached device. To its clients it is the inode table. */
module InodeCache {
  import opened BlockDev
  import opened Blocks
  import opened BlockTree
  import opened DevModel
  import opened DevRefine
  import opened InodeIo
  import opened InodeTable

  /** Position of the least recently obtained entry nobody holds, or the number of entries. */
  ghost function Unheld(lru: seq<Inode>): (k: nat)
    reads lru`refCount
    ensures k <= |lru| && (k < |lru| ==> lru[k].refCount <= 0)
    ensures forall i :: (if k == |lru| then -1 else k) < i < |lru| ==> lru[i].refCount > 0
  {
    if lru == [] then 0
    else
      var n := |lru| - 1;
      if lru[n].refCount <= 0 then n else var k := Unheld(lru[..n]); if k == n then |lru| else k
  }

  ghost predicate NoDup(s: seq<Inode>) { forall i, j :: 0 <= i < j < |s| ==> s[i] != s[j] }

  lemma NoDupCons(x: Inode, s: seq<Inode>)
    requires NoDup(s) && x !in s
    ensures NoDup([x] + s)
  {}

  /** A list with one entry taken out. */
  function Minus(s: seq<Inode>, x: Inode): seq<Inode> {
    if s == [] then [] else if s[0] == x then s[1..] else [s[0]] + Minus(s[1..], x)
  }

  lemma {:induction false} MinusFacts(s: seq<Inode>, x: Inode)
    requires NoDup(s) && x in s
    ensures NoDup(Minus(s, x)) && x !in Minus(s, x) && |Minus(s, x)| == |s| - 1
    ensures forall y :: y in Minus(s, x) ==> y in s
    ensures forall y :: y in s && y != x ==> y in Minus(s, x)
  {
    assert forall i :: 0 <= i < |s[1..]| ==> s[1..][i] == s[i + 1];
    if s[0] == x {
      assert forall y :: y in s && y != x ==> y in s[1..];
    } else {
      assert x in s[1..];
      MinusFacts(s[1..], x);
      var t := Minus(s[1..], x);
      NoDupCons(s[0], t);
      assert s[0] in [s[0]] + t;
      assert forall y :: y in t ==> y in [s[0]] + t;
    }
  }

  /** The entries, and the list they were pushed on. */
  method NewPool(n: nat) returns (made: seq<Inode>, list: seq<Inode>)
    ensures |made| == |list| == n && NoDup(list) && (forall x :: x in made <==> x in list)
    ensures forall x :: x in made ==> fresh(x) && !x.valid && !x.dirty && x.refCount == 0
  {
    made, list := [], [];
    assert NoDup(list);
    hide NoDup;
    for i := 0 to n
      invariant |made| == |list| == i && NoDup(list) && (forall x :: x in made <==> x in list)
      invariant forall x :: x in made ==> fresh(x) && !x.valid && !x.dirty && x.refCount == 0
    {
      var ino := new Inode();
      NoDupCons(ino, list);
      made := made + [ino];
      list := [ino] + list;
    }
  }

  // ---------- records through the block layer ----------

  method LoadRecord(dev: BlockDevice, tableStart: nat, inum: nat) returns (d: DiskInode)
    requires dev.Valid() && tableStart + TableBlock(inum) < |dev.disk.blocks|
    requires tableStart + TableBlock(inum) < 0x1_0000_0000
    modifies dev.Repr()
    ensures dev.Valid() && fresh(dev.Repr() - old(dev.Repr()))
    ensures Views(dev.Model()) == old(Views(dev.Model()))
    ensures d == OnDisk(Views(dev.Model()), tableStart, inum)
  {
    hide BlockDevice.Valid, Views, TableBlock, TableOffset, ReadStep, NoNewStale, Stale, Decode;
    var buf := dev.Read(tableStart + TableBlock(inum));
    OffsetFits(inum);
    d := Decode(buf.value[TableOffset(inum)..TableOffset(inum) + INODE_SIZE]);
  }

  method MergeRecord(dev: BlockDevice, b: Word, inum: nat, d: DiskInode)
    requires dev.Valid() && b < |dev.disk.blocks| && WellFormed(d)
    modifies dev.disk, dev.Repr()
    ensures dev.Valid() && fresh(dev.Repr() - old(dev.Repr())) && |dev.disk.blocks| == |old(dev.disk.blocks)|
    ensures Views(dev.Model()) == old(Views(dev.Model()))[b := Merge(old(Views(dev.Model()))[b], inum, d)]
    ensures NoNewStale(old(dev.Model()), dev.Model())
  {
    hide BlockDevice.Valid, Views, ReadStep, WriteStep, Stale, Merge, WellFormed;
    var buf := dev.Read(b);
    var _ := dev.Write(b, Merge(buf.value, inum, d));
  }

  class InodeCache {
    const dev: BlockDevice
    const tableStart: nat
    const tableBlocks: nat
    const pool: seq<Inode>
    ghost const entries: set<Inode>
    /** Most recently obtained first. */
    var lru: seq<Inode>
    /** The hash chains: which entry holds an inode number. */
    var chains: map<nat, Inode>

    /** `inode_cache_init`: every entry unused, the last one made at the front of the list. */
    constructor (dev: BlockDevice, tableStart: nat, tableBlocks: nat, maxInodes: nat)
      requires dev.Valid() && tableStart + tableBlocks <= |dev.disk.blocks| && tableStart + tableBlocks < 0x1_0000_0000
      ensures Valid() && |pool| == maxInodes && chains == map[]
      ensures this.dev == dev && this.tableStart == tableStart && this.tableBlocks == tableBlocks
      ensures forall x :: x in entries ==> fresh(x) && !x.valid && !x.dirty && x.refCount == 0
    {
      hide NoDup, BlockDevice.Valid;
      var made, list := NewPool(maxInodes);
      this.dev, this.tableStart, this.tableBlocks := dev, tableStart, tableBlocks;
      pool, lru, chains := made, list, map[];
      entries := set x | x in made;
    }

    /** Numbers whose record lies in the table; from 2^25 on the byte offset would wrap. */
    predicate InTable(k: nat) { k < 0x200_0000 && TableBlock(k) < tableBlocks }

    ghost predicate Valid()
      reads this, entries, dev, dev.disk`blocks, dev.cache, dev.cache.lru, dev.cache.lru.nodes, dev.cache.table
      reads dev.cache.table.buckets
    {
      && dev.Valid() && tableStart + tableBlocks <= |dev.disk.blocks| && tableStart + tableBlocks < 0x1_0000_0000
      && entries !! dev.Repr()
      && Listed() && Indexed() && Coherent()
    }

    /** Every entry of the pool is on the list, once. */
    ghost predicate Listed()
      reads this
    {
      && NoDup(lru) && (forall x :: x in lru ==> x in entries) && (forall x :: x in entries ==> x in lru)
      && (forall x :: x in pool ==> x in entries) && (forall x :: x in entries ==> x in pool)
    }

    /** The chains hold exactly the loaded entries, one for a number. */
    ghost predicate Indexed()
      reads this, entries
    {
      && (forall k :: k in chains ==> InTable(k) && chains[k] in entries && chains[k].inum == k && chains[k].valid)
      && (forall x :: x in entries && x.valid ==> x.inum in chains && chains[x.inum] == x)
      && (forall x :: x in entries ==>
          x.refCount >= 0 && (x.valid ==> WellFormed(x.disk)) && (!x.valid ==> x.refCount == 0))
    }

    /** A clean entry is what the table says. */
    ghost predicate Coherent()
      requires Indexed() && tableStart + tableBlocks <= |dev.disk.blocks|
      reads this, entries, dev, dev.disk`blocks, dev.cache, dev.cache.lru, dev.cache.lru.nodes
    {
      forall x :: x in entries && x.valid && !x.dirty ==> x.disk == OnDisk(Views(dev.Model()), tableStart, x.inum)
    }

    /** The inode a client of the cache sees. */
    ghost function Content(k: nat): DiskInode
      requires InTable(k) && tableStart + tableBlocks <= |dev.disk.blocks|
      reads this, entries, dev, dev.disk`blocks, dev.cache, dev.cache.lru, dev.cache.lru.nodes
    {
      if k in chains && chains[k] in entries then chains[k].disk else OnDisk(Views(dev.Model()), tableStart, k)
    }

    /** All of them: the inode table as clients see it. */
    ghost function Contents(): map<nat, DiskInode>
      requires Valid()
      reads this, entries, dev, dev.disk`blocks, dev.cache, dev.cache.lru, dev.cache.lru.nodes, dev.cache.table
      reads dev.cache.table.buckets
    {
      map k: nat | k < 0x200_0000 && InTable(k) :: Content(k)
    }

    /** `inode_sync`. */
    method Sync(ino: Inode)
      requires Valid() && ino in entries
      modifies ino`dirty, dev.disk, dev.Repr()
      ensures Valid() && fresh(dev.Repr() - old(dev.Repr()))
      ensures Contents() == old(Contents())
      ensures ino.valid ==> !ino.dirty
      ensures unchanged(this) && unchanged(ino`inum, ino`disk, ino`refCount, ino`valid)
      ensures forall x :: x in entries && x != ino ==> unchanged(x)
      ensures Views(dev.Model())
        == if ino.valid && old(ino.dirty) then Stored(old(Views(dev.Model())), ino.inum, ino.disk)
                                    else old(Views(dev.Model()))
    {
      if ino.valid && ino.dirty {
        WriteBack(ino);
      }
    }

    /** The table with one record merged into its block. */
    ghost function Stored(was: seq<Block>, inum: nat, d: DiskInode): seq<Block> {
      var b := tableStart + TableBlock(inum);
      if WellFormed(d) && b < |was| then was[b := Merge(was[b], inum, d)] else was
    }

    lemma StoredIs(was: seq<Block>, inum: nat, d: DiskInode)
      requires WellFormed(d) && InTable(inum) && tableStart + tableBlocks <= |was|
      ensures var b := tableStart + TableBlock(inum);
              b < |was| && Stored(was, inum, d) == was[b := Merge(was[b], inum, d)]
    {
      hide TableBlock, Merge;
    }

    /** Read the block, merge the record, write the block. */
    method WriteBack(ino: Inode)
      requires Valid() && ino in entries && ino.valid
      modifies ino`dirty, dev.disk, dev.Repr()
      ensures Valid() && fresh(dev.Repr() - old(dev.Repr())) && !ino.dirty
      ensures Contents() == old(Contents())
      ensures unchanged(this) && unchanged(ino`inum, ino`disk, ino`refCount, ino`valid)
      ensures forall x :: x in entries && x != ino ==> unchanged(x)
      ensures Views(dev.Model()) == Stored(old(Views(dev.Model())), ino.inum, ino.disk)
    {
      hide *;
      EntryFacts(ino);
      ghost var was := Views(dev.Model());
      StoreRecord(ino);
      Merged(was, ino.inum, ino.disk);
      ino.dirty := false;
      Kept(ino);
    }

    lemma EntryFacts(ino: Inode)
      requires Valid() && ino in entries
      ensures dev.Valid() && |Views(dev.Model())| == |dev.disk.blocks| && tableStart + tableBlocks <= |dev.disk.blocks|
      ensures ino.valid ==>
        InTable(ino.inum) && WellFormed(ino.disk) && tableStart + TableBlock(ino.inum) < 0x1_0000_0000
      ensures ino.valid && !ino.dirty ==> ino.disk == OnDisk(Views(dev.Model()), tableStart, ino.inum)
      ensures entries !! dev.Repr()
    {}

    method StoreRecord(ino: Inode)
      requires Valid() && ino in entries && ino.valid
      modifies dev.disk, dev.Repr()
      ensures dev.Valid() && fresh(dev.Repr() - old(dev.Repr())) && |dev.disk.blocks| == |old(dev.disk.blocks)|
      ensures unchanged(this) && (forall x :: x in entries ==> unchanged(x)) && entries !! dev.Repr()
      ensures Views(dev.Model()) == Stored(old(Views(dev.Model())), ino.inum, ino.disk)
    {
      hide TableBlock, Merge, Views, OnDisk, WellFormed, Stored, Valid, BlockDevice.Valid;
      EntryFacts(ino);
      StoredIs(Views(dev.Model()), ino.inum, ino.disk);
      MergeRecord(dev, tableStart + TableBlock(ino.inum), ino.inum, ino.disk);
    }

    /** A record has been written back: nobody sees a difference. */
    twostate lemma Kept(ino: Inode)
      requires old(Valid()) && ino in entries && unchanged(this)
      requires dev.Valid() && |dev.disk.blocks| == |old(dev.disk.blocks)| && entries !! dev.Repr()
      requires forall x :: x in entries && x != ino ==> unchanged(x)
      requires unchanged(ino`inum, ino`disk, ino`refCount, ino`valid) && ino.valid && !ino.dirty
      requires Replaced(old(Views(dev.Model())), Views(dev.Model()), ino.inum, ino.disk)
      ensures Valid() && Contents() == old(Contents())
    {
      hide BlockDevice.Valid, Views, OnDisk, TableBlock, Listed;
      assert forall k :: InTable(k) ==> Content(k) == old(Content(k));
    }

    /** `now` is `was` with the record of one inode replaced. */
    ghost predicate Replaced(was: seq<Block>, now: seq<Block>, inum: nat, d: DiskInode) {
      |now| == |was| && tableStart + tableBlocks <= |was| &&
      forall k :: InTable(k) ==> OnDisk(now, tableStart, k) == (if k == inum then d else OnDisk(was, tableStart, k))
    }

    lemma Merged(was: seq<Block>, inum: nat, d: DiskInode)
      requires InTable(inum) && WellFormed(d) && tableStart + tableBlocks <= |was|
      ensures Replaced(was, Stored(was, inum, d), inum, d)
    {
      hide OnDisk, Merge, TableBlock;
      var b := tableStart + TableBlock(inum);
      var now := was[b := Merge(was[b], inum, d)];
      forall k | InTable(k)
        ensures OnDisk(now, tableStart, k) == (if k == inum then d else OnDisk(was, tableStart, k))
      {
        MergeReads(was, tableStart, inum, d, k);
        InLap(k);
        InLap(inum);
      }
    }

    lemma InLap(k: nat)
      requires k < 0x200_0000
      ensures k % 0x200_0000 == k
    {}

    /** `inode_put`. */
    method Put(ino: Inode)
      requires Valid() && ino in entries && ino.valid && ino.refCount > 0
      modifies ino`refCount
      ensures Valid() && Contents() == old(Contents()) && ino.refCount == old(ino.refCount) - 1
    {
      ino.refCount := ino.refCount - 1;
      Touched(ino);
    }

    /** A change of a reference count, or of the list order, shows to nobody. */
    twostate lemma Touched(ino: Inode)
      requires old(Valid()) && ino in entries && unchanged(this`chains)
      requires Listed() && ino.refCount >= 0 && (!ino.valid ==> ino.refCount == 0)
      requires forall x :: x in entries && x != ino ==> unchanged(x)
      requires unchanged(ino`inum, ino`disk, ino`valid, ino`dirty)
      requires dev.Valid() && |dev.disk.blocks| == |old(dev.disk.blocks)|
      requires Views(dev.Model()) == old(Views(dev.Model()))
      requires entries !! dev.Repr()
      ensures Valid() && Contents() == old(Contents())
    {
      hide BlockDevice.Valid, Views, OnDisk, TableBlock, Listed;
      assert forall k :: InTable(k) ==> Content(k) == old(Content(k));
    }

    /** `inode_get`: a loaded inode gains a reference; otherwise the least recently obtained entry nobody
        holds is written back if dirty and loaded anew. */
    method Get(inum: nat) returns (ino: Inode?)
      requires Valid() && InTable(inum)
      modifies this`lru, this`chains, entries, dev.disk, dev.Repr()
      ensures Valid() && fresh(dev.Repr() - old(dev.Repr())) && Contents() == old(Contents())
      ensures inum in old(chains) ==> ino == old(chains)[inum] && ino.refCount == old(ino.refCount) + 1
      ensures inum !in old(chains) ==>
        if old(Unheld(lru)) == |old(lru)| then ino == null else ino == old(lru)[old(Unheld(lru))] && ino.refCount == 1
      ensures ino != null ==>
        ino in entries && ino.valid && ino.inum == inum && inum in Contents() && ino.disk == Contents()[inum]
      ensures lru == if ino == null then old(lru) else [ino] + Minus(old(lru), ino)
      ensures forall x :: x in entries && x != ino ==> unchanged(x)
    {
      hide BlockDevice.Valid, Views, OnDisk, TableBlock, Contents, Minus, Unheld, Coherent, NoDup;
      if inum in chains {
        ino := chains[inum];
        Hold(ino);
        Loaded(ino);
      } else {
        ino := Replace(inum);
      }
    }

    /** A miss. */
    method Replace(inum: nat) returns (ino: Inode?)
      requires Valid() && InTable(inum) && inum !in chains
      modifies this`lru, this`chains, entries, dev.disk, dev.Repr()
      ensures Valid() && fresh(dev.Repr() - old(dev.Repr())) && Contents() == old(Contents())
      ensures if old(Unheld(lru)) == |old(lru)| then ino == null
        else ino == old(lru)[old(Unheld(lru))] && ino.refCount == 1
      ensures ino != null ==>
        ino in entries && ino.valid && ino.inum == inum && inum in Contents() && ino.disk == Contents()[inum]
      ensures lru == if ino == null then old(lru) else [ino] + Minus(old(lru), ino)
      ensures forall x :: x in entries && x != ino ==> unchanged(x)
    {
      hide Valid, Views, OnDisk, TableBlock, Contents, Stored, Minus, Unheld;
      var k := FindVictim();
      if k == |lru| {
        return null;
      }
      ino := lru[k];
      Refill(ino, inum);
    }

    method Refill(ino: Inode, inum: nat)
      requires Valid() && ino in entries && ino.refCount == 0 && InTable(inum) && inum !in chains
      modifies this`lru, this`chains, ino, dev.disk, dev.Repr()
      ensures Valid() && fresh(dev.Repr() - old(dev.Repr())) && Contents() == old(Contents())
      ensures ino.inum == inum && ino.refCount == 1 && ino.valid && inum in Contents() && ino.disk == Contents()[inum]
      ensures lru == [ino] + Minus(old(lru), ino)
      ensures forall x :: x in entries && x != ino ==> unchanged(x)
    {
      hide Valid, Views, OnDisk, TableBlock, Contents, Stored, Minus;
      if ino.dirty && ino.valid {
        Sync(ino);
      }
      Recycle(ino, inum);
      Loaded(ino);
    }

    /** A loaded entry holds what clients see. */
    lemma Loaded(ino: Inode)
      requires Valid() && ino in entries && ino.valid
      ensures ino.inum in Contents() && Contents()[ino.inum] == ino.disk
    {
      hide TableBlock;
      assert chains[ino.inum] == ino;
    }

    method Hold(ino: Inode)
      requires Valid() && ino in entries && ino.valid
      modifies this`lru, ino`refCount
      ensures Valid() && Contents() == old(Contents()) && ino.refCount == old(ino.refCount) + 1
      ensures lru == [ino] + Minus(old(lru), ino)
    {
      hide BlockDevice.Valid, Views, OnDisk, TableBlock, Contents, Coherent, Content, NoDup, Minus;
      ino.refCount := ino.refCount + 1;
      MinusFacts(lru, ino);
      NoDupCons(ino, Minus(lru, ino));
      lru := [ino] + Minus(lru, ino);
      Touched(ino);
    }

    /** The search from the tail of the list for an entry nobody holds. */
    method FindVictim() returns (k: nat)
      requires Valid()
      ensures k == Unheld(lru) <= |lru| && (k < |lru| ==> lru[k].refCount == 0 && lru[k] in entries)
    {
      hide BlockDevice.Valid, Views, OnDisk, TableBlock, Coherent, Unheld, NoDup;
      k := |lru|;
      while k > 0 && lru[k - 1].refCount > 0
        invariant k <= |lru| && forall i :: k <= i < |lru| ==> lru[i].refCount > 0
      {
        k := k - 1;
      }
      if k == 0 {
        return |lru|;
      }
      k := k - 1;
    }

    /** Take over an unheld, clean entry for another inode and load that inode. */
    method Recycle(ino: Inode, inum: nat)
      requires Valid() && ino in entries && ino.refCount == 0 && (ino.valid ==> !ino.dirty)
      requires InTable(inum) && inum !in chains
      modifies this`lru, this`chains, ino, dev.Repr()
      ensures Valid() && fresh(dev.Repr() - old(dev.Repr())) && Contents() == old(Contents())
      ensures ino.inum == inum && ino.refCount == 1 && ino.valid && !ino.dirty
      ensures lru == [ino] + Minus(old(lru), ino)
      ensures forall x :: x in entries && x != ino ==> unchanged(x)
    {
      hide BlockDevice.Valid, BlockDevice.Model, Views, OnDisk, TableBlock, Contents, Minus, Coherent, Listed, Indexed;
      Rename(ino, inum);
      Fill(ino);
      assert ChangedHands(ino);
      hide *;
      Recycled(ino);
    }

    /** Load the record of an entry. */
    method Fill(ino: Inode)
      requires dev.Valid() && entries !! dev.Repr() && ino in entries && InTable(ino.inum)
      requires tableStart + tableBlocks <= |dev.disk.blocks| && tableStart + tableBlocks < 0x1_0000_0000
      modifies ino`disk, ino`valid, dev.Repr()
      ensures dev.Valid() && fresh(dev.Repr() - old(dev.Repr())) && entries !! dev.Repr()
      ensures Views(dev.Model()) == old(Views(dev.Model())) && |dev.disk.blocks| == |old(dev.disk.blocks)|
      ensures ino.disk == OnDisk(Views(dev.Model()), tableStart, ino.inum) && ino.valid
      ensures unchanged(this) && unchanged(ino`inum, ino`refCount, ino`dirty)
      ensures forall x :: x in entries && x != ino ==> unchanged(x)
    {
      hide BlockDevice.Valid, BlockDevice.Model, Views, OnDisk, TableBlock;
      var d := LoadRecord(dev, tableStart, ino.inum);
      ino.disk, ino.valid := d, true;
    }

    /** The entry leaves its old chain and place on the list for new ones. */
    method Rename(ino: Inode, inum: nat)
      requires Listed() && ino in entries
      modifies this`lru, this`chains, ino
      ensures Listed() && lru == [ino] + Minus(old(lru), ino)
      ensures chains == old(if ino.valid then chains - {ino.inum} else chains)[inum := ino]
      ensures ino.inum == inum && ino.refCount == 1 && !ino.valid && !ino.dirty
    {
      hide NoDup, Minus;
      MinusFacts(lru, ino);
      NoDupCons(ino, Minus(lru, ino));
      if ino.valid {
        chains := chains - {ino.inum};
      }
      lru := Minus(lru, ino);
      ino.inum, ino.refCount, ino.valid, ino.dirty := inum, 1, false, false;
      chains := chains[inum := ino];
      lru := [ino] + lru;
    }

    /** The entry changed hands. */
    twostate predicate ChangedHands(ino: Inode)
      reads this, entries, dev, dev.disk`blocks, dev.cache, dev.cache.lru, dev.cache.lru.nodes
    {
      && ino in entries && old(ino.valid ==> !ino.dirty) && InTable(ino.inum) && ino.inum !in old(chains)
      && ino.refCount == 1 && ino.valid && !ino.dirty
      && chains == old(if ino.valid then chains - {ino.inum} else chains)[ino.inum := ino]
      && (forall x :: x in entries && x != ino ==> unchanged(x))
      && |dev.disk.blocks| == |old(dev.disk.blocks)| && Views(dev.Model()) == old(Views(dev.Model()))
      && tableStart + tableBlocks <= |dev.disk.blocks|
      && ino.disk == OnDisk(Views(dev.Model()), tableStart, ino.inum)
    }

    twostate lemma RecycledIndexed(ino: Inode)
      requires old(Valid()) && ChangedHands(ino)
      ensures Indexed() && Coherent()
    {
      hide BlockDevice.Valid, Views, OnDisk, TableBlock, Listed, NoDup;
      RecordFormed(Views(dev.Model()), ino.inum);
      forall k | k in chains ensures InTable(k) && chains[k] in entries && chains[k].inum == k && chains[k].valid {
        if k != ino.inum {
          assert k in old(chains) && chains[k] == old(chains[k]) && old(chains[k].inum) == k;
        }
      }
      forall x | x in entries && x.valid ensures x.inum in chains && chains[x.inum] == x {
        if x != ino {
          assert old(x.valid) && x.inum in old(chains) && old(chains)[x.inum] == x;
        }
      }
    }

    lemma RecordFormed(disk: seq<Block>, inum: nat)
      requires InTable(inum) && tableStart + tableBlocks <= |disk|
      ensures WellFormed(OnDisk(disk, tableStart, inum))
    {}

    /** The old inode is found on disk as it was, the new one in the entry. */
    twostate lemma Recycled(ino: Inode)
      requires old(Valid()) && ChangedHands(ino) && Listed()
      requires dev.Valid() && entries !! dev.Repr()
      ensures Valid() && Contents() == old(Contents())
    {
      hide BlockDevice.Valid, Views, TableBlock, Listed, Decode;
      RecycledIndexed(ino);
      forall k | InTable(k) ensures Content(k) == old(Content(k)) {
        if k == ino.inum {
          assert chains[k] == ino;
        } else if old(ino.valid) && k == old(ino.inum) {
          assert k !in chains && old(chains[k]) == ino;
        } else {
          assert k in chains <==> k in old(chains);
        }
      }
    }

    /** `inode_sync_all`: afterwards the table on disk is what clients see. */
    method SyncAll()
      requires Valid()
      modifies entries`dirty, dev.disk, dev.Repr()
      ensures Valid() && fresh(dev.Repr() - old(dev.Repr())) && Contents() == old(Contents())
      ensures tableStart + tableBlocks <= |Views(dev.Model())|
      ensures forall k :: k in Contents() ==> InTable(k) && OnDisk(Views(dev.Model()), tableStart, k) == Contents()[k]
    {
      hide Valid, Views, OnDisk, TableBlock, Contents, Stored;
      PoolIsEntries();
      for i := 0 to |pool|
        invariant Valid() && fresh(dev.Repr() - old(dev.Repr())) && Contents() == old(Contents())
        invariant forall j :: 0 <= j < i ==> pool[j].valid ==> !pool[j].dirty
      {
        if pool[i].valid && pool[i].dirty {
          Sync(pool[i]);
        }
      }
      AllClean();
    }

    lemma PoolIsEntries()
      requires Valid()
      ensures (forall i :: 0 <= i < |pool| ==> pool[i] in entries) && forall x :: x in entries ==> x in pool
    {}

    lemma AllClean()
      requires Valid() && forall j :: 0 <= j < |pool| ==> pool[j].valid ==> !pool[j].dirty
      ensures tableStart + tableBlocks <= |Views(dev.Model())|
      ensures forall k :: k in Contents() ==> InTable(k) && OnDisk(Views(dev.Model()), tableStart, k) == Contents()[k]
    {
      hide BlockDevice.Valid, Views, OnDisk, TableBlock, NoDup;
      forall k | k in Contents() ensures OnDisk(Views(dev.Model()), tableStart, k) == Contents()[k] {
        if k in chains { assert chains[k] in pool; }
      }
    }
  }
}
