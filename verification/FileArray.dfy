/** The promises of `inode_write` and `inode_read` to their callers, and where they end. */
module FileArray {
  import opened Blocks
  import opened BlockTree
  import opened FileAlloc
  import opened FileMap
  import opened FileRoom
  import opened FileBytes

  /** A successful write: separation and the block count survive, the size is the larger of old size and
      end of range, every byte of every file is as `ByteAfter` says, and reading the range gives `data`. */
  lemma WriteThenRead(s: Fs, f: nat, off: nat, data: seq<Byte>)
    requires Inv(s) && f < |s.inodes| && off + |data| <= MAX_OFFSET
    requires InodeWrite(s, f, off, data, false).status.Ok?
    ensures var r := InodeWrite(s, f, off, data, false).fs;
            && |r.disk| == |s.disk| && (Counted(s) ==> Counted(r))
            && r.inodes[f].size == (if off + |data| > s.inodes[f].size then off + |data| else s.inodes[f].size)
            && (forall g :: 0 <= g < |s.inodes| && g != f ==> r.inodes[g].size == s.inodes[g].size)
            && (forall g, pos :: 0 <= g < |s.inodes| && 0 <= pos < MAX_BYTES ==> ByteAfter(s, r, f, off, data, g, pos))
            && InodeRead(r, f, off, |data|) == Ok(data)
  {
    hide Ptr, WriteLoop, ReadLoop, Wrote, ByteAfter, Counted, FileByte, Inv;
    var w := WriteLoop(s, f, off, data, false);
    var r := InodeWrite(s, f, off, data, false).fs;
    WriteLoopWrote(s, f, off, data);
    assert data[..w.count] == data;
    WroteGeometry(s, w.fs, f, off, data);
    if off + |data| > s.inodes[f].size { SizeKeeps(w.fs, f, off + |data|); }
    forall g, pos | 0 <= g < |s.inodes| && 0 <= pos < MAX_BYTES ensures ByteAfter(s, r, f, off, data, g, pos) {
      WroteBytes(s, w.fs, f, off, data, g, pos);
      if off + |data| > s.inodes[f].size { ByteAfterSize(s, w.fs, f, off, data, g, pos, off + |data|); }
    }
    if data != [] {
      ReadLoopReads(r, f, off, |data|);
      var got := ReadLoop(r, f, off, |data|).value;
      forall i | 0 <= i < |data| ensures got[i] == data[i] {
        assert ByteAfter(s, r, f, off, data, f, off + i);
        InsideRange(s, r, f, off, data, off + i);
        assert got[i] == FileByte(r, f, off + i);
      }
      assert got == data;
      assert ReadLoop(r, f, off, |data|) == Ok(data);
    } else {
      ReadNothing(r, f, off);
    }
  }

  lemma ReadNothing(s: Fs, f: nat, off: nat)
    requires Inv(s) && f < |s.inodes|
    ensures InodeRead(s, f, off, 0) == Ok([])
  {}

  lemma WroteGeometry(s: Fs, r: Fs, f: nat, off: nat, data: seq<Byte>)
    requires Wrote(s, r, f, off, data)
    ensures |r.disk| == |s.disk| && |r.inodes| == |s.inodes|
    ensures forall g :: 0 <= g < |s.inodes| ==> r.inodes[g].size == s.inodes[g].size
  {}

  lemma InsideRange(s: Fs, r: Fs, f: nat, off: nat, data: seq<Byte>, pos: nat)
    requires Inv(s) && Inv(r) && f < |s.inodes| && |r.inodes| == |s.inodes| && |r.disk| == |s.disk| && pos < MAX_BYTES
    requires off <= pos < off + |data| && ByteAfter(s, r, f, off, data, f, pos)
    ensures FileByte(r, f, pos) == data[pos - off]
  {}

  lemma ByteAfterSize(s: Fs, t: Fs, f: nat, off: nat, data: seq<Byte>, g: nat, pos: nat, size: nat)
    requires Inv(s) && Inv(t) && f < |s.inodes| && |t.inodes| == |s.inodes| && |t.disk| == |s.disk|
    requires g < |s.inodes| && pos < MAX_BYTES && ByteAfter(s, t, f, off, data, g, pos)
    ensures var r := WithSize(t, f, size); Inv(r) && ByteAfter(s, r, f, off, data, g, pos)
  {
    hide Ptr;
    SizeKeeps(t, f, size);
    var idx := pos / BLOCK_SIZE;
    assert FileBlock(WithSize(t, f, size), g, idx) == FileBlock(t, g, idx);
    SizePtr(t, f, size, DataLoc(g, idx));
  }

  /** A write that fails leaves the size alone; the bytes it had placed stay, nothing else changes. */
  lemma FailedWrite(s: Fs, f: nat, off: nat, data: seq<Byte>)
    requires Inv(s) && f < |s.inodes| && off + |data| <= MAX_OFFSET
    requires !InodeWrite(s, f, off, data, false).status.Ok?
    ensures var w := InodeWrite(s, f, off, data, false);
            && w.count < |data| && Wrote(s, w.fs, f, off, data[..w.count])
            && w.fs.inodes[f].size == s.inodes[f].size
            && (w.status == InvalidErr ==> off + |data| > MAX_BYTES)
            && (w.status == NoSpaceErr ==> forall b :: s.dataStart <= b < s.dataStart + |s.used| ==> Allocated(w.fs, b))
  {
    hide Ptr, WriteLoop, Wrote;
    WriteLoopWrote(s, f, off, data);
    WroteGeometry(s, WriteLoop(s, f, off, data, false).fs, f, off, data[..WriteLoop(s, f, off, data, false).count]);
  }

  // ---------- holes ----------

  /** Bytes outside the written range survive exactly when their block was not mapped by this write, or
      the block it was given happens to hold a zero there: fresh data blocks are not cleared. */
  lemma OutsideByMapping(s: Fs, r: Fs, f: nat, off: nat, data: seq<Byte>, g: nat, pos: nat)
    requires f < |s.inodes| && Wrote(s, r, f, off, data) && g < |s.inodes| && pos < MAX_BYTES
    requires g != f || !(off <= pos < off + |data|)
    ensures var l := DataLoc(g, pos / BLOCK_SIZE);
            FileByte(r, g, pos) == FileByte(s, g, pos) <==>
              Ptr(s, l) != 0 || Ptr(r, l) == 0 || s.disk[Ptr(r, l)][pos % BLOCK_SIZE] == 0
  {
    WroteBytes(s, r, f, off, data, g, pos);
  }

  /** What the block destined for the logical block of `pos` holds at that byte before the write. */
  ghost function OldByte(s: Fs, f: nat, off: nat, pos: nat): Byte
    requires Shaped(s) && f < |s.inodes| && off / BLOCK_SIZE <= pos / BLOCK_SIZE < MAX_BLOCKS
    requires Ptr(s, DataLoc(f, pos / BLOCK_SIZE)) == 0
  {
    var b := Destined(s, f, off / BLOCK_SIZE, pos / BLOCK_SIZE);
    if b < |s.disk| then s.disk[b][pos % BLOCK_SIZE] else 0
  }

  /** The same, in terms of the state before the call alone: a byte outside of what the write places survives
      exactly when its block is mapped already, or what it places leaves the block alone, or the free block that
      first fit will give to the block holds a zero there. */
  lemma OutsideSurvivesIff(s: Fs, f: nat, off: nat, data: seq<Byte>, g: nat, pos: nat)
    requires Inv(s) && Shaped(s) && f < |s.inodes| && g < |s.inodes| && off + |data| <= MAX_OFFSET && pos < MAX_BYTES
    requires g != f || !(off <= pos < off + Placed(s, f, off / BLOCK_SIZE, off, |data|))
    ensures var w, n := InodeWrite(s, f, off, data, false), Placed(s, f, off / BLOCK_SIZE, off, |data|);
            && w.count == n
            && (FileByte(w.fs, g, pos) == FileByte(s, g, pos) <==>
                  || Ptr(s, DataLoc(g, pos / BLOCK_SIZE)) != 0
                  || !Touched(f, off, n, g, pos / BLOCK_SIZE)
                  || OldByte(s, f, off, pos) == 0)
  {
    hide Ptr, InodeWrite, WriteLoop, Wrote, FileByte, Destined, DataLoc, Inv, Shaped, Counted, Placed;
    var w, l := InodeWrite(s, f, off, data, false), WriteLoop(s, f, off, data, false).fs;
    WriteSucceedsIff(s, f, off, data);
    SizeOfWrite(s, f, off, data, g, pos);
    var idx, placed := pos / BLOCK_SIZE, data[..w.count];
    WriteLoopWrote(s, f, off, data);
    WroteGeometry(s, l, f, off, placed);
    OutsideByMapping(s, l, f, off, placed, g, pos);
    MappedIffTouched(s, l, f, off, placed, g, idx);
    if Ptr(s, DataLoc(g, idx)) == 0 && Touched(f, off, w.count, g, idx) {
      GivenDestined(s, f, off, data, idx);
    }
  }

  lemma GivenDestined(s: Fs, f: nat, off: nat, data: seq<Byte>, idx: nat)
    requires Inv(s) && Shaped(s) && f < |s.inodes| && off + |data| <= MAX_OFFSET && idx < MAX_BLOCKS
    requires Ptr(s, DataLoc(f, idx)) == 0
    requires Touched(f, off, InodeWrite(s, f, off, data, false).count, f, idx)
    ensures off / BLOCK_SIZE <= idx
    ensures var l := WriteLoop(s, f, off, data, false).fs;
            Shaped(l) && Ptr(l, DataLoc(f, idx)) == Destined(s, f, off / BLOCK_SIZE, idx) < |l.disk|
  {
    hide Ptr, WriteLoop, Destined, DataLoc, Inv;
    WriteTakesDestined(s, f, off, data);
    var l := WriteLoop(s, f, off, data, false).fs;
    InvShaped(l);
    SizeKeeps(l, f, off + |data|);
    assert Ptr(InodeWrite(s, f, off, data, false).fs, DataLoc(f, idx)) == Ptr(l, DataLoc(f, idx));
  }

  /** The size that a write sets at the end changes no mapping and no byte. */
  lemma SizeOfWrite(s: Fs, f: nat, off: nat, data: seq<Byte>, g: nat, pos: nat)
    requires Inv(s) && Shaped(s) && f < |s.inodes| && g < |s.inodes| && off + |data| <= MAX_OFFSET && pos < MAX_BYTES
    ensures var w, l := InodeWrite(s, f, off, data, false), WriteLoop(s, f, off, data, false);
            && w.count == l.count && w.status == l.status && |w.fs.inodes| == |s.inodes| == |l.fs.inodes|
            && Shaped(w.fs) && Shaped(l.fs)
            && Ptr(w.fs, DataLoc(g, pos / BLOCK_SIZE)) == Ptr(l.fs, DataLoc(g, pos / BLOCK_SIZE))
            && FileByte(w.fs, g, pos) == FileByte(l.fs, g, pos)
  {
    hide Ptr, WriteLoop, DataLoc, Inv;
    var l := WriteLoop(s, f, off, data, false).fs;
    InvShaped(l);
    SizeKeeps(l, f, off + |data|);
  }

  lemma MappedIffTouched(s: Fs, r: Fs, f: nat, off: nat, data: seq<Byte>, g: nat, idx: nat)
    requires Wrote(s, r, f, off, data) && f < |s.inodes| && g < |s.inodes| && idx < MAX_BLOCKS && Shaped(s) && Shaped(r)
    ensures Ptr(s, DataLoc(g, idx)) == 0 ==> (Ptr(r, DataLoc(g, idx)) != 0 <==> Touched(f, off, |data|, g, idx))
  {
    hide Ptr;
    assert BlockWrote(s, r, f, off, data, g, idx);
  }

  /** Every free block of the data area holds zeros. */
  ghost predicate FreeBlocksZero(s: Fs)
    requires Shaped(s)
  {
    forall b: nat :: IsFree(s, b) ==> s.disk[b] == ZeroBlock()
  }

  /** On such a disk a write changes no byte outside its range, and the disk stays such. */
  lemma ZeroedDiskKeepsHoles(s: Fs, r: Fs, f: nat, off: nat, data: seq<Byte>, g: nat, pos: nat)
    requires f < |s.inodes| && Wrote(s, r, f, off, data) && g < |s.inodes| && pos < MAX_BYTES
    requires FreeBlocksZero(s) && (g != f || !(off <= pos < off + |data|))
    ensures FileByte(r, g, pos) == FileByte(s, g, pos) && FreeBlocksZero(r)
  {
    hide Ptr;
    OutsideByMapping(s, r, f, off, data, g, pos);
    var l := DataLoc(g, pos / BLOCK_SIZE);
    assert BlockWrote(s, r, f, off, data, g, pos / BLOCK_SIZE);
    InvShaped(s);
    InvShaped(r);
    assert IsLoc(r, l);
    if Ptr(s, l) == 0 && Ptr(r, l) != 0 {
      assert Allocated(r, Ptr(r, l)) && IsFree(s, Ptr(r, l));
    }
    forall b: nat | IsFree(r, b) ensures r.disk[b] == ZeroBlock() {
      assert !Allocated(r, b) && IsFree(s, b);
    }
  }

  /** An empty file on a disk whose one free block holds old data. */
  function OldData(left: Block): Fs {
    Fs([ZeroBlock(), left], 1, [false], [DiskInode(0, 0, [0, 0, 0, 0, 0, 0, 0, 0, 0, 0, 0, 0], 0, 0, [])])
  }

  lemma {:induction false} OldDataPtr(left: Block, l: Loc)
    requires IsLoc(OldData(left), l)
    ensures Ptr(OldData(left), l) == 0
    decreases Depth(l)
  {
    if !InInode(l) { OldDataPtr(left, Parent(l)); }
  }

  lemma OldDataMaps(left: Block)
    requires Inv(OldData(left))
    ensures Bmap(OldData(left), 0, 5, true).1.At?
  {
    hide Graft, Inv, Ptr, Ensure;
    var s := OldData(left);
    assert Chain(0, 0) == [Direct(0, 0)];
    ChainIsChain(s, 0, 0);
    EnsureFacts(s, Direct(0, 0));
    OldDataPtr(left, Direct(0, 0));
    assert !s.used[0];
    assert [Direct(0, 0)][1..] == [];
  }

  lemma OldDataWritten(left: Block, b: Byte)
    requires Inv(OldData(left))
    ensures WriteLoop(OldData(left), 0, 5, [b], false).status.Ok?
  {
    hide Ptr, Bmap, Inv, Patch;
    OldDataMaps(left);
    assert [b][1..] == [];
  }

  /** Writing one byte at offset 5 brings back what the block held before it: byte 0, a hole until then. */
  lemma StaleHoleExample(left: Block, b: Byte)
    requires left[0] != 0
    ensures var s := OldData(left);
            && Inv(s) && FileByte(s, 0, 0) == 0
            && var w := InodeWrite(s, 0, 5, [b], false);
               w.status.Ok? && w.fs.inodes[0].size == 6 && FileByte(w.fs, 0, 0) == left[0]
  {
    hide Ptr, WriteLoop, Inv;
    var s, l := OldData(left), Direct(0, 0);
    forall l | IsLoc(s, l) ensures Ptr(s, l) == 0 { OldDataPtr(left, l); }
    OldDataInv(left);
    assert DataLoc(0, 0) == l;
    OldDataWritten(left, b);
    WriteThenRead(s, 0, 5, [b]);
    var r := InodeWrite(s, 0, 5, [b], false).fs;
    assert ByteAfter(s, r, 0, 5, [b], 0, 0) && ByteAfter(s, r, 0, 5, [b], 0, 5);
    var t := WriteLoop(s, 0, 5, [b], false);
    WriteLoopWrote(s, 0, 5, [b]);
    assert [b][..t.count] == [b];
    MappedToOne(left, t.fs, [b]);
    SizePtr(t.fs, 0, 6, l);
  }

  lemma OldDataInv(left: Block)
    ensures Inv(OldData(left))
  {
    hide Ptr;
    var s := OldData(left);
    forall l | IsLoc(s, l) ensures Ptr(s, l) == 0 { OldDataPtr(left, l); }
  }

  lemma MappedToOne(left: Block, r: Fs, data: seq<Byte>)
    requires Wrote(OldData(left), r, 0, 5, data) && |data| == 1
    ensures Ptr(r, Direct(0, 0)) == 1
  {
    hide Ptr;
    assert DataLoc(0, 0) == Direct(0, 0);
    assert BlockWrote(OldData(left), r, 0, 5, data, 0, 0);
    assert IsLoc(r, Direct(0, 0));
  }
}
