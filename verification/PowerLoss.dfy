/** A journaled file write that was acknowledged, and a power failure right after it: the transaction carries data
    blocks only, so what the write changed in inode, index blocks and bitmap may be in the cache alone. */
module PowerLoss {
  import opened Bits
  import opened Blocks
  import opened BlockTree
  import opened FileAlloc
  import opened FileArray
  import opened FileBytes
  import opened FileJournal
  import opened FileMap
  import opened FileRoom

  /** What a device that held all of `s` holds once the transaction is home and nothing else has been written. */
  function Left(s: Fs, pending: seq<Write>): Fs { s.(disk := Apply(s.disk, pending)) }

  // ---------- a transaction names data blocks ----------

  /** Block `b` is a data block of file `f`. */
  ghost predicate IsFileData(s: Fs, f: nat, b: nat)
    requires Shaped(s) && f < |s.inodes|
  {
    b != 0 && exists idx: nat :: idx < MAX_BLOCKS && Ptr(s, DataLoc(f, idx)) == b
  }

  lemma StaysFileData(s: Fs, r: Fs, f: nat, b: nat)
    requires Shaped(s) && Shaped(r) && f < |s.inodes| == |r.inodes| && Extends(s, r) && IsFileData(s, f, b)
    ensures IsFileData(r, f, b)
  {
    hide Ptr, Inv;
    var idx: nat :| idx < MAX_BLOCKS && Ptr(s, DataLoc(f, idx)) == b;
    assert IsLoc(s, DataLoc(f, idx));
  }

  ghost predicate AllFileData(s: Fs, f: nat, ws: seq<Write>)
    requires Shaped(s) && f < |s.inodes|
  {
    forall i :: 0 <= i < |ws| ==> IsFileData(s, f, ws[i].target)
  }

  lemma {:induction false} PendingIsFileData(s: Fs, f: nat, off: nat, data: seq<Byte>)
    requires Inv(s) && f < |s.inodes| && off + |data| <= MAX_OFFSET
    ensures var j := WriteLoop(s, f, off, data, true);
            Shaped(j.fs) && Extends(s, j.fs) && AllFileData(j.fs, f, j.pending)
    decreases |data|
  {
    hide Ptr, Bmap, Patch, WriteLoop, Extends, Counted, Inv, IsFileData;
    var j := WriteLoop(s, f, off, data, true);
    InvShaped(j.fs);
    PendingInDataArea(s, f, off, data);
    if data == [] {
      NothingJournaled(s, f, off);
    } else {
      BmapKeeps(s, f, off);
      BlockIdxExactIff(off);
      var (s1, m) := Bmap(s, f, off, true);
      ExtendsGeometry(s, s1);
      if m.At? {
        InvShaped(s1);
        var k := ChunkLen(off, |data|);
        JournaledStep(s, f, off, data);
        PendingIsFileData(s1, f, off + k, data[k..]);
        FirstIsFileData(s1, f, off / BLOCK_SIZE, m.block);
        StaysFileData(s1, j.fs, f, m.block);
      } else {
        JournaledStops(s, f, off, data);
      }
    }
  }

  lemma FirstIsFileData(s: Fs, f: nat, idx: nat, b: nat)
    requires Shaped(s) && f < |s.inodes| && idx < MAX_BLOCKS && Ptr(s, DataLoc(f, idx)) == b != 0
    ensures IsFileData(s, f, b)
  {
    hide Ptr;
  }

  /** No index block of `s` is among them. */
  lemma IndexBlocksStay(s: Fs, r: Fs, f: nat, ws: seq<Write>, x: Loc)
    requires Extends(s, r) && Shaped(r) && Shaped(s) && f < |r.inodes| && AllFileData(r, f, ws)
    requires IsLoc(s, x) && !IsData(x) && Ptr(s, x) != 0
    ensures Ptr(s, x) < |s.disk| && Apply(s.disk, ws)[Ptr(s, x)] == s.disk[Ptr(s, x)]
  {
    hide Ptr, Apply;
    ExtendsPtr(s, r, x);
    InUse(s, x);
    assert IsLoc(r, x);
    forall i | 0 <= i < |ws| ensures ws[i].target != Ptr(s, x) { NoDataThere(r, f, ws[i].target, x); }
    ApplyFrame(s.disk, ws, Ptr(s, x));
  }

  lemma NoDataThere(r: Fs, f: nat, b: nat, x: Loc)
    requires Inv(r) && Shaped(r) && f < |r.inodes| && IsFileData(r, f, b) && IsLoc(r, x) && !IsData(x)
    ensures b != Ptr(r, x)
  {
    hide Ptr;
    var idx: nat :| idx < MAX_BLOCKS && Ptr(r, DataLoc(f, idx)) == b;
    Separate(r, DataLoc(f, idx), x);
  }

  // ---------- what is left is a file system ----------

  /** `c` differs from `s` in blocks that no pointer leads through. */
  ghost predicate SameIndex(s: Fs, c: Fs) {
    && Inv(s) && Shaped(s) && Shaped(c) && c == s.(disk := c.disk) && |c.disk| == |s.disk|
    && forall x :: IsLoc(s, x) && !IsData(x) && Ptr(s, x) != 0 ==>
        Ptr(s, x) < |s.disk| && c.disk[Ptr(s, x)] == s.disk[Ptr(s, x)]
  }

  lemma {:induction false} SameIndexPtr(s: Fs, c: Fs, x: Loc)
    requires SameIndex(s, c) && IsLoc(s, x)
    ensures Ptr(c, x) == Ptr(s, x)
    decreases Depth(x)
  {
    hide Inv;
    if !InInode(x) { SameIndexPtr(s, c, Parent(x)); }
  }

  lemma SameIndexInv(s: Fs, c: Fs)
    requires SameIndex(s, c)
    ensures Inv(c)
  {
    hide Ptr;
    forall x | IsLoc(c, x) ensures Ptr(c, x) == Ptr(s, x) { SameIndexPtr(s, c, x); }
  }

  lemma LeftSameIndex(s: Fs, f: nat, off: nat, data: seq<Byte>)
    requires Inv(s) && f < |s.inodes| && off + |data| <= MAX_OFFSET
    ensures SameIndex(s, Left(s, InodeWrite(s, f, off, data, true).pending))
  {
    hide Ptr, Inv, WriteLoop, Extends, Apply, AllFileData;
    InvShaped(s);
    var j := WriteLoop(s, f, off, data, true);
    PendingIsFileData(s, f, off, data);
    forall x | IsLoc(s, x) && !IsData(x) && Ptr(s, x) != 0
      ensures Ptr(s, x) < |s.disk| && Apply(s.disk, j.pending)[Ptr(s, x)] == s.disk[Ptr(s, x)]
    {
      IndexBlocksStay(s, j.fs, f, j.pending, x);
    }
  }

  // ---------- reading it ----------

  /** A mapped block of the range holds what the write put there. */
  lemma LeftBlock(s: Fs, f: nat, off: nat, data: seq<Byte>, idx: nat)
    requires Inv(s) && f < |s.inodes| && off + |data| <= MAX_OFFSET && idx < MAX_BLOCKS && Shaped(s)
    requires Ptr(s, DataLoc(f, idx)) != 0
    ensures var c, d := Left(s, InodeWrite(s, f, off, data, true).pending), InodeWrite(s, f, off, data, false).fs;
            Inv(c) && f < |d.inodes| && FileBlock(c, f, idx) == FileBlock(d, f, idx)
  {
    hide Ptr, Inv, WriteLoop, Extends, Apply, AllFileData, SameIndex, DataLoc;
    var l, p := DataLoc(f, idx), Ptr(s, DataLoc(f, idx));
    var jw := InodeWrite(s, f, off, data, true);
    var j := WriteLoop(s, f, off, data, true).fs;
    LeftSameIndex(s, f, off, data);
    SameIndexInv(s, Left(s, jw.pending));
    SameIndexPtr(s, Left(s, jw.pending), l);
    PendingIsFileData(s, f, off, data);
    ExtendsGeometry(s, j);
    ExtendsPtr(s, j, l);
    DataBlockKept(s, j, l);
    ApplyAt(s.disk, j.disk, jw.pending, p);
    JournaledIsDirect(s, f, off, data);
    DirectKeepsPtr(s, f, off, data, idx);
  }

  lemma DirectKeepsPtr(s: Fs, f: nat, off: nat, data: seq<Byte>, idx: nat)
    requires Inv(s) && f < |s.inodes| && off + |data| <= MAX_OFFSET && idx < MAX_BLOCKS && Shaped(s)
    requires Ptr(s, DataLoc(f, idx)) != 0
    ensures var d := InodeWrite(s, f, off, data, false).fs;
            Shaped(d) && IsLoc(d, DataLoc(f, idx)) && Ptr(d, DataLoc(f, idx)) == Ptr(s, DataLoc(f, idx))
  {
    hide Ptr, Inv, WriteLoop, DataLoc;
    var w := WriteLoop(s, f, off, data, false);
    WriteLoopWrote(s, f, off, data);
    assert BlockWrote(s, w.fs, f, off, data[..w.count], f, idx);
    SizeOfWrite(s, f, off, data, f, idx * BLOCK_SIZE);
    assert idx * BLOCK_SIZE / BLOCK_SIZE == idx;
  }

  /** Where the range was mapped the data is there, elsewhere zeros are. */
  lemma LeftByte(s: Fs, f: nat, off: nat, data: seq<Byte>, i: nat)
    requires Inv(s) && Shaped(s) && f < |s.inodes| && off + |data| <= MAX_OFFSET && i < |data|
    requires InodeWrite(s, f, off, data, true).status.Ok?
    ensures var c := Left(s, InodeWrite(s, f, off, data, true).pending);
            && Inv(c) && off + i < MAX_BYTES
            && FileByte(c, f, off + i) == if Ptr(s, DataLoc(f, (off + i) / BLOCK_SIZE)) != 0 then data[i] else 0
  {
    hide Ptr, Inv, InodeWrite, DataLoc, FileBlock, ByteAfter, InodeRead, SameIndex;
    var c := Left(s, InodeWrite(s, f, off, data, true).pending);
    DirectByte(s, f, off, data, i);
    LeftSameIndex(s, f, off, data);
    SameIndexInv(s, c);
    var idx := (off + i) / BLOCK_SIZE;
    if Ptr(s, DataLoc(f, idx)) != 0 {
      LeftBlock(s, f, off, data, idx);
    } else {
      SameIndexPtr(s, c, DataLoc(f, idx));
      LeftLoc(s, c, f, idx);
      HoleByte(c, f, off + i);
    }
  }

  lemma LeftLoc(s: Fs, c: Fs, f: nat, idx: nat)
    requires SameIndex(s, c) && f < |s.inodes| && idx < MAX_BLOCKS
    ensures Shaped(c) && |c.inodes| == |s.inodes| && IsLoc(c, DataLoc(f, idx))
  {
    hide Inv, Ptr;
  }

  lemma DirectByte(s: Fs, f: nat, off: nat, data: seq<Byte>, i: nat)
    requires Inv(s) && Shaped(s) && f < |s.inodes| && off + |data| <= MAX_OFFSET && i < |data|
    requires InodeWrite(s, f, off, data, true).status.Ok?
    ensures var d := InodeWrite(s, f, off, data, false).fs;
            off + |data| <= MAX_BYTES && f < |d.inodes| && FileByte(d, f, off + i) == data[i]
  {
    hide Ptr, Inv, InodeWrite, DataLoc, FileBlock, FileByte, ByteAfter, InodeRead, Needed, CountFree, Placed;
    var d := InodeWrite(s, f, off, data, false).fs;
    JournaledIsDirect(s, f, off, data);
    WriteSucceedsIff(s, f, off, data);
    WriteThenRead(s, f, off, data);
    assert ByteAfter(s, d, f, off, data, f, off + i);
    InsideRange(s, d, f, off, data, off + i);
  }

  lemma HoleByte(s: Fs, f: nat, pos: nat)
    requires Inv(s) && f < |s.inodes| && pos < MAX_BYTES && Ptr(s, DataLoc(f, pos / BLOCK_SIZE)) == 0
    ensures FileByte(s, f, pos) == 0
  {
    hide Ptr;
  }

  /** No growth, and nothing but zeros for blocks that are not mapped: what a caller can tell beforehand. */
  ghost predicate SurvivesPowerLoss(s: Fs, f: nat, off: nat, data: seq<Byte>)
    requires Inv(s) && Shaped(s) && f < |s.inodes| && off + |data| <= MAX_BYTES
  {
    && off + |data| <= s.inodes[f].size
    && forall i :: 0 <= i < |data| && Ptr(s, DataLoc(f, (off + i) / BLOCK_SIZE)) == 0 ==> data[i] == 0
  }

  /** A write that was acknowledged on a device that held everything before it, then a power failure: the range reads
      back exactly when the write did not grow the file and gave no new block anything but zeros. */
  lemma PowerLossIff(s: Fs, f: nat, off: nat, data: seq<Byte>)
    requires Inv(s) && Shaped(s) && f < |s.inodes| && off + |data| <= MAX_OFFSET && data != []
    requires InodeWrite(s, f, off, data, true).status.Ok?
    ensures var c := Left(s, InodeWrite(s, f, off, data, true).pending);
            && Inv(c) && off + |data| <= MAX_BYTES
            && (InodeRead(c, f, off, |data|) == Ok(data) <==> SurvivesPowerLoss(s, f, off, data))
  {
    hide Ptr, Inv, InodeWrite, DataLoc, FileByte, ReadLoop;
    var c, n := Left(s, InodeWrite(s, f, off, data, true).pending), |data|;
    LeftByte(s, f, off, data, n - 1);
    if off + n <= s.inodes[f].size {
      ReadLoopReads(c, f, off, n);
      var got := ReadLoop(c, f, off, n).value;
      forall i | 0 <= i < n
        ensures got[i] == if Ptr(s, DataLoc(f, (off + i) / BLOCK_SIZE)) != 0 then data[i] else 0
      {
        LeftByte(s, f, off, data, i);
        assert got[i] == FileByte(c, f, off + i);
      }
      assert SurvivesPowerLoss(s, f, off, data) ==> got == data;
    } else if off < s.inodes[f].size {
      ReadLoopReads(c, f, off, s.inodes[f].size - off);
    }
  }

  /** What lies before the data area the transaction leaves alone. */
  lemma TableStays(s: Fs, f: nat, off: nat, data: seq<Byte>, b: nat)
    requires Inv(s) && Shaped(s) && f < |s.inodes| && off + |data| <= MAX_OFFSET && b < s.dataStart
    ensures Left(s, InodeWrite(s, f, off, data, true).pending).disk[b] == s.disk[b]
  {
    hide Ptr, Inv, WriteLoop, Extends, Apply;
    var j := WriteLoop(s, f, off, data, true);
    PendingInDataArea(s, f, off, data);
    ExtendsGeometry(s, j.fs);
    forall i | 0 <= i < |j.pending| ensures j.pending[i].target != b { assert Allocated(j.fs, j.pending[i].target); }
    ApplyFrame(s.disk, j.pending, b);
  }

  /** A successful write of something has a transaction to commit. */
  lemma SomethingPending(s: Fs, f: nat, off: nat, data: seq<Byte>)
    requires Inv(s) && f < |s.inodes| && off + |data| <= MAX_OFFSET && data != []
    requires InodeWrite(s, f, off, data, true).status.Ok?
    ensures InodeWrite(s, f, off, data, true).pending != []
  {
    hide Ptr, Inv, WriteLoop, Bmap, Patch;
    if Bmap(s, f, off, true).1.At? { JournaledStep(s, f, off, data); } else { JournaledStops(s, f, off, data); }
  }

  /** Any write that grows a file is such a loss: of one byte into an empty file nothing is left. */
  lemma AckedByteIsLost(left: Block, b: Byte)
    ensures var s := OldData(left);
            && Inv(s) && InodeWrite(s, 0, 5, [b], true).status.Ok?
            && var c := Left(s, InodeWrite(s, 0, 5, [b], true).pending);
               Inv(c) && InodeRead(c, 0, 5, 1) == Ok([])
  {
    hide Ptr, Inv, WriteLoop, ReadLoop;
    var s := OldData(left);
    OldDataInv(left);
    OldDataWritten(left, b);
    JournaledIsDirect(s, 0, 5, [b]);
    LeftSameIndex(s, 0, 5, [b]);
    SameIndexInv(s, Left(s, InodeWrite(s, 0, 5, [b], true).pending));
  }
}
