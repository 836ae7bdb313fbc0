/** Writing through a journal transaction means the same as writing directly: applying the transaction's
    block writes to the device the loop left behind gives the device of the direct write. */
module FileJournal {
  import opened Bits
  import opened Blocks
  import opened BlockTree
  import opened FileMap
  import opened FileBytes

  // ---------- data writes commute with the block map ----------

  /** `l` is a data location in use; `block` may be stored there at any time. */
  ghost predicate DataAt(s: Fs, l: Loc) {
    Inv(s) && IsLoc(s, l) && IsData(l) && Ptr(s, l) != 0
  }

  /** The graft may happen on either side of the data write; they touch different blocks. */
  lemma BothCanGraft(s: Fs, d: Loc, block: Block, l: Loc, b: Word)
    requires DataAt(s, d) && CanGraft(s, l, b)
    ensures Ptr(s, d) < |s.disk| && b < |s.disk| && Ptr(s, d) != b
    ensures (!InInode(l) ==> IsLoc(s, Parent(l)) && Ptr(s, d) != Ptr(s, Parent(l)))
    ensures var t := WithBlock(s, Ptr(s, d), block);
            CanGraft(t, l, b) && (!InInode(l) ==> Ptr(t, Parent(l)) == Ptr(s, Parent(l)))
  {
    hide Ptr, Counted;
    InvShaped(s);
    DataWriteKeeps(s, d, block);
    CanGraftFresh(WithBlock(s, Ptr(s, d), block), l, b);
    if !InInode(l) { Separate(s, Parent(l), d); }
  }

  lemma GraftDisksCommute(s: Fs, t: Fs, p: nat, block: Block, l: Loc, b: Word)
    requires CanGraft(s, l, b) && CanGraft(t, l, b) && p < |s.disk| && b < |s.disk| && t.disk == s.disk[p := block]
    requires p != b
    requires !InInode(l) ==> IsLoc(s, Parent(l)) && IsLoc(t, Parent(l)) && Ptr(t, Parent(l)) == Ptr(s, Parent(l)) != p
    ensures |Graft(s, l, b).disk| == |s.disk| && Graft(t, l, b).disk == Graft(s, l, b).disk[p := block]
  {
    hide Graft, Ptr, WithEntry;
    var r, u := Graft(s, l, b), Graft(t, l, b);
    hide CanGraft, Inv, IsLoc;
    GraftDisk(s, l, b, b);
    GraftDisk(t, l, b, b);
    forall x | 0 <= x < |s.disk| ensures u.disk[x] == r.disk[p := block][x] {
      GraftDisk(s, l, b, x);
      GraftDisk(t, l, b, x);
    }
  }

  lemma GraftCommutes(s: Fs, d: Loc, block: Block, l: Loc, b: Word)
    requires DataAt(s, d) && CanGraft(s, l, b)
    ensures Ptr(s, d) < |s.disk| && Ptr(Graft(s, l, b), d) == Ptr(s, d)
    ensures var t := WithBlock(s, Ptr(s, d), block);
            CanGraft(t, l, b) && Graft(t, l, b) == WithBlock(Graft(s, l, b), Ptr(s, d), block)
  {
    hide Graft, Ptr, WithEntry, Counted;
    InvShaped(s);
    var p := Ptr(s, d);
    BothCanGraft(s, d, block, l, b);
    GraftPtr(s, l, b, d);
    var t := WithBlock(s, p, block);
    GraftElsewhere(s, t, l, b);
    GraftDisksCommute(s, t, p, block, l, b);
  }

  /** Apart from the disk a graft depends on the inodes and the bitmap only. */
  lemma GraftElsewhere(s: Fs, t: Fs, l: Loc, b: Word)
    requires CanGraft(s, l, b) && CanGraft(t, l, b) && t == s.(disk := t.disk)
    ensures Graft(t, l, b) == Graft(s, l, b).(disk := Graft(t, l, b).disk)
  {}

  lemma EnsureCommutes(s: Fs, d: Loc, block: Block, l: Loc)
    requires DataAt(s, d) && IsLoc(s, l) && (!InInode(l) ==> Ptr(s, Parent(l)) != 0)
    ensures Ptr(s, d) < |s.disk| && Ptr(Ensure(s, l).0, d) == Ptr(s, d)
    ensures var t := WithBlock(s, Ptr(s, d), block);
            && Inv(t) && IsLoc(t, l) && (!InInode(l) ==> Ptr(t, Parent(l)) != 0)
            && |Ensure(s, l).0.disk| == |s.disk|
            && Ensure(t, l) == (WithBlock(Ensure(s, l).0, Ptr(s, d), block), Ensure(s, l).1)
  {
    hide Graft, Ptr, CanGraft, Counted, Inv, IsFree, FirstFree;
    InvShaped(s);
    DataWriteKeeps(s, d, block);
    if Ptr(s, l) == 0 && FirstFree(s.used) < |s.used| {
      FirstFreeGrafts(s, l);
      GraftCommutes(s, d, block, l, s.dataStart + FirstFree(s.used));
      GraftFields(s, l, s.dataStart + FirstFree(s.used));
    }
  }

  lemma FirstFreeGrafts(s: Fs, l: Loc)
    requires Inv(s) && IsLoc(s, l) && (!InInode(l) ==> Ptr(s, Parent(l)) != 0) && Ptr(s, l) == 0
    requires FirstFree(s.used) < |s.used|
    ensures CanGraft(s, l, s.dataStart + FirstFree(s.used))
  {
    hide Ptr;
    CanGraftFresh(s, l, s.dataStart + FirstFree(s.used));
  }

  lemma {:induction false} EnsureAllCommutes(s: Fs, d: Loc, block: Block, c: seq<Loc>)
    requires DataAt(s, d) && IsChain(s, c)
    ensures Ptr(s, d) < |s.disk| && Ptr(EnsureAll(s, c).0, d) == Ptr(s, d) && |EnsureAll(s, c).0.disk| == |s.disk|
    ensures var t := WithBlock(s, Ptr(s, d), block);
            && Inv(t) && IsChain(t, c)
            && EnsureAll(t, c) == (WithBlock(EnsureAll(s, c).0, Ptr(s, d), block), EnsureAll(s, c).1)
    decreases |c|
  {
    hide Ptr, Ensure;
    InvShaped(s);
    var t := WithBlock(s, Ptr(s, d), block);
    DataWriteKeeps(s, d, block);
    ChainMoves(s, t, c);
    if c != [] {
      EnsureCommutes(s, d, block, c[0]);
      EnsureFacts(s, c[0]);
      EnsureFacts(t, c[0]);
      var (s1, ok) := Ensure(s, c[0]);
      if ok {
        NextIsChain(s, s1, c);
        NextIsChain(t, Ensure(t, c[0]).0, c);
        EnsureAllCommutes(s1, d, block, c[1..]);
      }
    }
  }

  lemma ChainMoves(s: Fs, t: Fs, c: seq<Loc>)
    requires Inv(s) && Inv(t) && |t.disk| == |s.disk| && IsChain(s, c)
    requires forall x :: IsLoc(t, x) <==> IsLoc(s, x)
    requires forall x :: IsLoc(s, x) ==> Ptr(t, x) == Ptr(s, x)
    ensures IsChain(t, c)
  {
    if c != [] && !InInode(c[0]) { assert IsLoc(s, Parent(c[0])); }
  }

  lemma BmapCommutes(s: Fs, d: Loc, block: Block, f: nat, off: nat)
    requires DataAt(s, d) && f < |s.inodes|
    ensures Ptr(s, d) < |s.disk| && Ptr(Bmap(s, f, off, true).0, d) == Ptr(s, d)
    ensures |Bmap(s, f, off, true).0.disk| == |s.disk|
    ensures var t := WithBlock(s, Ptr(s, d), block);
            && Inv(t) && |t.inodes| == |s.inodes|
            && Bmap(t, f, off, true) == (WithBlock(Bmap(s, f, off, true).0, Ptr(s, d), block), Bmap(s, f, off, true).1)
  {
    hide Ptr, EnsureAll;
    InvShaped(s);
    DataWriteKeeps(s, d, block);
    var idx := BlockIdx(off);
    if idx < MAX_BLOCKS {
      var c := Chain(f, idx);
      ChainIsChain(s, f, idx);
      EnsureAllCommutes(s, d, block, c);
      var r := EnsureAll(s, c).0;
      assert DataAt(r, d) by { EnsureAllFacts(s, c); }
      DataWriteKeeps(r, d, block);
    }
  }

  // ---------- the journaled loop ----------

  /** The logical block `d` leads to is none of those the range touches. */
  ghost predicate Avoids(f: nat, off: nat, n: nat, d: Loc) {
    forall idx :: 0 <= idx < MAX_BLOCKS && Touched(f, off, n, f, idx) ==> DataLoc(f, idx) != d
  }

  lemma JournaledStep(s: Fs, f: nat, off: nat, data: seq<Byte>)
    requires Inv(s) && f < |s.inodes| && data != [] && Bmap(s, f, off, true).1.At?
    ensures var (s1, m) := Bmap(s, f, off, true);
            var k := ChunkLen(off, |data|);
            m.block < |s1.disk| && Inv(s1) && f < |s1.inodes| &&
            var w := WriteLoop(s1, f, off + k, data[k..], true);
            WriteLoop(s, f, off, data, true) ==
              Written(w.fs, [Write(m.block, Patch(s1.disk[m.block], off % BLOCK_SIZE, data[..k]))] + w.pending,
                k + w.count, w.status)
  {
    hide Ptr, Bmap, Extends, Patch, Counted;
    BmapKeeps(s, f, off);
    var s1 := Bmap(s, f, off, true).0;
    ExtendsGeometry(s, s1);
    InvShaped(s1);
  }

  /** A journaled loop neither reads nor writes a data block outside its range. */
  lemma {:induction false} JournaledCommutes(s: Fs, d: Loc, block: Block, f: nat, off: nat, data: seq<Byte>)
    requires DataAt(s, d) && f < |s.inodes| && off + |data| <= MAX_OFFSET && Avoids(f, off, |data|, d)
    ensures Ptr(s, d) < |s.disk| && |WriteLoop(s, f, off, data, true).fs.disk| == |s.disk|
    ensures var t := WithBlock(s, Ptr(s, d), block);
            var w := WriteLoop(s, f, off, data, true);
            && Inv(t) && |t.inodes| == |s.inodes|
            && WriteLoop(t, f, off, data, true) == w.(fs := WithBlock(w.fs, Ptr(s, d), block))
    decreases |data|
  {
    hide Ptr, Bmap, Patch, WriteLoop, Extends, Counted, Inv;
    InvShaped(s);
    DataWriteKeeps(s, d, block);
    if data == [] {
      NothingJournaled(s, f, off);
      NothingJournaled(WithBlock(s, Ptr(s, d), block), f, off);
    } else {
      var t := WithBlock(s, Ptr(s, d), block);
      BmapCommutes(s, d, block, f, off);
      BmapKeeps(s, f, off);
      BlockIdxExactIff(off);
      var (s1, m) := Bmap(s, f, off, true);
      ExtendsGeometry(s, s1);
      if m.At? {
        var k := ChunkLen(off, |data|);
        var l := DataLoc(f, off / BLOCK_SIZE);
        InvShaped(s1);
        assert Touched(f, off, |data|, f, off / BLOCK_SIZE) by { FirstTouched(f, off, |data|); }
        assert m.block != Ptr(s, d) by { Separate(s1, d, l); }
        JournaledStep(s, f, off, data);
        JournaledStep(t, f, off, data);
        AvoidsRest(f, off, |data|, k, d);
        JournaledCommutes(s1, d, block, f, off + k, data[k..]);
      } else {
        JournaledStops(s, f, off, data);
        JournaledStops(t, f, off, data);
      }
    }
  }

  lemma FirstTouched(f: nat, off: nat, n: nat)
    requires n > 0
    ensures Touched(f, off, n, f, off / BLOCK_SIZE)
  {}

  lemma AvoidsRest(f: nat, off: nat, n: nat, k: nat, d: Loc)
    requires Avoids(f, off, n, d) && k <= n && (k < n ==> k > 0 && (off + k) % BLOCK_SIZE == 0)
    ensures Avoids(f, off + k, n - k, d)
  {
    forall idx | 0 <= idx < MAX_BLOCKS && Touched(f, off + k, n - k, f, idx) ensures DataLoc(f, idx) != d {
      TouchedSplit(f, off, k, n - k, f, idx);
    }
  }

  lemma NothingJournaled(s: Fs, f: nat, off: nat)
    requires Inv(s) && f < |s.inodes|
    ensures WriteLoop(s, f, off, [], true) == Written(s, [], 0, Ok(()))
  {}

  lemma JournaledStops(s: Fs, f: nat, off: nat, data: seq<Byte>)
    requires Inv(s) && f < |s.inodes| && data != [] && !Bmap(s, f, off, true).1.At?
    ensures var (s1, m) := Bmap(s, f, off, true);
            WriteLoop(s, f, off, data, true) == Written(s1, [], 0, if m == BadOffset then InvalidErr else NoSpaceErr)
  {}

  /** The transformation preserves meaning: same status, same bytes counted, and the direct write's file
      system is the journaled one with the transaction applied. */
  lemma {:induction false} JournaledLoopIsDirect(s: Fs, f: nat, off: nat, data: seq<Byte>)
    requires Inv(s) && f < |s.inodes| && off + |data| <= MAX_OFFSET
    ensures var d, j := WriteLoop(s, f, off, data, false), WriteLoop(s, f, off, data, true);
            && j.status == d.status && j.count == d.count
            && d.fs == j.fs.(disk := Apply(j.fs.disk, j.pending))
    decreases |data|
  {
    hide Ptr, Bmap, Patch, WriteLoop, Extends, Counted, Inv, Apply;
    if data == [] {
      NothingJournaled(s, f, off);
      NothingToWrite(s, f, off);
      ApplyNothing(s.disk);
    } else {
      BmapKeeps(s, f, off);
      BlockIdxExactIff(off);
      var (s1, m) := Bmap(s, f, off, true);
      ExtendsGeometry(s, s1);
      if m.At? {
        InvShaped(s1);
        var k := ChunkLen(off, |data|);
        var l := DataLoc(f, off / BLOCK_SIZE);
        var block := Patch(s1.disk[m.block], off % BLOCK_SIZE, data[..k]);
        WriteLoopStep(s, f, off, data);
        JournaledStep(s, f, off, data);
        JournaledLoopIsDirect(WithBlock(s1, m.block, block), f, off + k, data[k..]);
        RestAvoidsFirst(f, off, |data|, k);
        JournaledCommutes(s1, l, block, f, off + k, data[k..]);
        var w := WriteLoop(s1, f, off + k, data[k..], true);
        ApplyCons(w.fs.disk, Write(m.block, block), w.pending);
      } else {
        WriteLoopStops(s, f, off, data);
        JournaledStops(s, f, off, data);
        ApplyNothing(s1.disk);
      }
    }
  }

  lemma ApplyNothing(d: seq<Block>)
    ensures Apply(d, []) == d
  {}

  lemma ApplyCons(d: seq<Block>, w: Write, ws: seq<Write>)
    ensures Apply(d, [w] + ws) == Apply(Put(d, w), ws)
  {
    ApplyConcat(d, [w], ws);
    ApplySnoc(d, [], w);
    assert [] + [w] == [w];
    ApplyNothing(d);
  }

  lemma RestAvoidsFirst(f: nat, off: nat, n: nat, k: nat)
    requires 0 < k <= n && (k < n ==> (off + k) % BLOCK_SIZE == 0) && off / BLOCK_SIZE < MAX_BLOCKS
    ensures Avoids(f, off + k, n - k, DataLoc(f, off / BLOCK_SIZE))
  {
    forall idx | 0 <= idx < MAX_BLOCKS && Touched(f, off + k, n - k, f, idx)
      ensures DataLoc(f, idx) != DataLoc(f, off / BLOCK_SIZE)
    {
      TouchedSplit(f, off, k, n - k, f, idx);
      if DataLoc(f, idx) == DataLoc(f, off / BLOCK_SIZE) { DataLocInjective(f, idx, f, off / BLOCK_SIZE); }
    }
  }

  /** The whole of `inode_write` agrees in the same sense. */
  lemma JournaledIsDirect(s: Fs, f: nat, off: nat, data: seq<Byte>)
    requires Inv(s) && f < |s.inodes| && off + |data| <= MAX_OFFSET
    ensures var d, j := InodeWrite(s, f, off, data, false), InodeWrite(s, f, off, data, true);
            && j.status == d.status && j.count == d.count
            && d.fs == j.fs.(disk := Apply(j.fs.disk, j.pending))
  {
    hide WriteLoop, Apply, Inv;
    JournaledLoopIsDirect(s, f, off, data);
  }

  /** Every block a transaction names is a block of the data area, in use. */
  lemma {:induction false} PendingInDataArea(s: Fs, f: nat, off: nat, data: seq<Byte>)
    requires Inv(s) && f < |s.inodes| && off + |data| <= MAX_OFFSET
    ensures var j := WriteLoop(s, f, off, data, true);
            Extends(s, j.fs) && forall i :: 0 <= i < |j.pending| ==> Allocated(j.fs, j.pending[i].target)
    decreases |data|
  {
    hide Ptr, Bmap, Patch, WriteLoop, Extends, Counted, Inv;
    if data == [] {
      NothingJournaled(s, f, off);
      ExtendsRefl(s);
    } else {
      BmapKeeps(s, f, off);
      BlockIdxExactIff(off);
      var (s1, m) := Bmap(s, f, off, true);
      ExtendsGeometry(s, s1);
      if m.At? {
        InvShaped(s1);
        var k := ChunkLen(off, |data|);
        JournaledStep(s, f, off, data);
        PendingInDataArea(s1, f, off + k, data[k..]);
        var w := WriteLoop(s1, f, off + k, data[k..], true);
        ExtendsTrans(s, s1, w.fs);
        ExtendsGeometry(s1, w.fs);
        InUse(s1, DataLoc(f, off / BLOCK_SIZE));
      } else {
        JournaledStops(s, f, off, data);
      }
    }
  }

  lemma InUse(s: Fs, l: Loc)
    requires Inv(s) && IsLoc(s, l) && Ptr(s, l) != 0
    ensures Allocated(s, Ptr(s, l))
  {}
}
