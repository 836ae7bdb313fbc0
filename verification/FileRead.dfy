/** What `inode_read` hands out, for every file, offset and length, clipped at the end of the file. */
module FileRead {
  import opened Blocks
  import opened BlockTree
  import opened FileMap
  import opened FileBytes
  import opened FileJournal

  /** How many bytes a file of this size has to offer at an offset. */
  function Available(size: nat, off: nat, n: nat): (len: nat)
    ensures off >= size ==> len == 0
    ensures off < size ==> off + len == if off + n < size then off + n else size
  {
    if off >= size then 0 else if n < size - off then n else size - off
  }

  /** `r` is the answer to reading `n` bytes at `off`: the bytes that are there, and an error exactly when they reach
      past the block map. From 16 TiB on offsets name the blocks they name 16 TiB lower. */
  ghost predicate Answers(s: Fs, f: nat, off: nat, n: nat, r: Result<seq<Byte>>)
    requires Inv(s) && f < |s.inodes|
  {
    var len, at := Available(s.inodes[f].size, off, n), off % 0x1000_0000_0000;
    if len == 0 then r == Ok([])
    else if at + len > MAX_BYTES then r == InvalidErr
    else r.Ok? && |r.value| == len && forall i :: 0 <= i < len ==> r.value[i] == FileByte(s, f, at + i)
  }

  /** The read loop, which clips nothing. */
  ghost predicate Delivers(s: Fs, f: nat, at: nat, n: nat, r: Result<seq<Byte>>)
    requires Inv(s) && f < |s.inodes|
  {
    if n == 0 then r == Ok([])
    else if at + n > MAX_BYTES then r == InvalidErr
    else r.Ok? && |r.value| == n && AreFileBytes(s, f, at, r.value)
  }

  lemma SameBlock(off: nat)
    ensures var at := off % 0x1000_0000_0000;
            BlockIdx(off) == at / BLOCK_SIZE == BlockIdx(at) && off % BLOCK_SIZE == at % BLOCK_SIZE
  {
    var q, at := off / 0x1000_0000_0000, off % 0x1000_0000_0000;
    assert off == q * 0x1_0000_0000 * BLOCK_SIZE + at;
    assert off / BLOCK_SIZE == q * 0x1_0000_0000 + at / BLOCK_SIZE;
    WholeLaps(at / BLOCK_SIZE, q);
  }

  lemma WholeLaps(a: nat, q: nat)
    requires a < 0x1_0000_0000
    ensures (q * 0x1_0000_0000 + a) % 0x1_0000_0000 == a
  {
    assert (q * 0x1_0000_0000 + a) / 0x1_0000_0000 == q;
  }

  lemma Lap(off: nat, k: nat)
    requires off % 0x1000_0000_0000 + k < 0x1000_0000_0000
    ensures (off + k) % 0x1000_0000_0000 == off % 0x1000_0000_0000 + k
  {
    assert (off + k) / 0x1000_0000_0000 == off / 0x1000_0000_0000;
  }

  lemma {:induction false} LoopDelivers(s: Fs, f: nat, off: nat, n: nat)
    requires Inv(s) && f < |s.inodes|
    ensures Delivers(s, f, off % 0x1000_0000_0000, n, ReadLoop(s, f, off, n))
    decreases n
  {
    hide FileBlock, Ptr, Inv, Bmap, ReadLoop, Delivers;
    var at := off % 0x1000_0000_0000;
    if n > 0 {
      var k := ChunkLen(off, n);
      SameBlock(off);
      LoopDelivers(s, f, off + k, n - k);
      if at / BLOCK_SIZE < MAX_BLOCKS { Lap(off, k); }
      LoopStep(s, f, off, n);
    } else {
      NothingDelivered(s, f, at, off);
    }
  }

  lemma NothingDelivered(s: Fs, f: nat, at: nat, off: nat)
    requires Inv(s) && f < |s.inodes|
    ensures Delivers(s, f, at, 0, ReadLoop(s, f, off, 0))
  {}

  lemma LoopStep(s: Fs, f: nat, off: nat, n: nat)
    requires Inv(s) && f < |s.inodes| && n > 0
    requires var at, k := off % 0x1000_0000_0000, ChunkLen(off, n);
             && BlockIdx(off) == at / BLOCK_SIZE && off % BLOCK_SIZE == at % BLOCK_SIZE
             && (at / BLOCK_SIZE < MAX_BLOCKS ==> Delivers(s, f, at + k, n - k, ReadLoop(s, f, off + k, n - k)))
    ensures Delivers(s, f, off % 0x1000_0000_0000, n, ReadLoop(s, f, off, n))
  {
    hide FileBlock, Ptr, Inv, AreFileBytes;
    var at, k, from, idx := off % 0x1000_0000_0000, ChunkLen(off, n), off % BLOCK_SIZE, BlockIdx(off);
    LookedUp(s, f, off);
    if idx < MAX_BLOCKS && (n == k || at + n <= MAX_BYTES) {
      var rest := ReadLoop(s, f, off + k, n - k).value;
      FirstChunkReads(s, f, at, k, rest);
      assert ReadLoop(s, f, off, n) == Ok(FileBlock(s, f, idx)[from..from + k] + rest);
    }
  }

  lemma LookedUp(s: Fs, f: nat, off: nat)
    requires Inv(s) && f < |s.inodes|
    ensures var idx, m := BlockIdx(off), Bmap(s, f, off, false).1;
            if idx >= MAX_BLOCKS then m == BadOffset
            else m.At? && m.block < |s.disk|
                 && (if m.block == 0 then ZeroBlock() else s.disk[m.block]) == FileBlock(s, f, idx)
  {}

  /** Every read: nothing at or past the end of the file, up to the end a part of what was asked for, and byte for
      byte what the file holds. */
  lemma ReadAnswers(s: Fs, f: nat, off: nat, n: nat)
    requires Inv(s) && f < |s.inodes|
    ensures Answers(s, f, off, n, InodeRead(s, f, off, n))
  {
    hide FileByte, Ptr, Inv, ReadLoop;
    LoopDelivers(s, f, off, Available(s.inodes[f].size, off, n));
    NothingDelivered(s, f, off, off);
  }

  // ---------- writing past 16 TiB ----------

  /** There the write loop does to blocks and bitmap what it does 16 TiB lower. */
  lemma {:induction false} WriteAliases(s: Fs, f: nat, off: nat, data: seq<Byte>, journaled: bool)
    requires Inv(s) && f < |s.inodes|
    ensures WriteLoop(s, f, off + 0x1000_0000_0000, data, journaled) == WriteLoop(s, f, off, data, journaled)
    decreases |data|
  {
    hide Ptr, Inv, Bmap, Patch, WriteLoop;
    var up := off + 0x1000_0000_0000;
    if data == [] {
      NothingToWrite(s, f, off);
      NothingToWrite(s, f, up);
      NothingJournaled(s, f, off);
      NothingJournaled(s, f, up);
    } else {
      BmapAliases(s, f, off);
      var (s1, m) := Bmap(s, f, off, true);
      var k := ChunkLen(off, |data|);
      assert up % BLOCK_SIZE == off % BLOCK_SIZE && up + k == off + k + 0x1000_0000_0000;
      if !m.At? {
        WriteLoopStops(s, f, off, data);
        WriteLoopStops(s, f, up, data);
        JournaledStops(s, f, off, data);
        JournaledStops(s, f, up, data);
      } else if journaled {
        JournaledStep(s, f, off, data);
        JournaledStep(s, f, up, data);
        WriteAliases(s1, f, off + k, data[k..], journaled);
      } else {
        WriteLoopStep(s, f, off, data);
        WriteLoopStep(s, f, up, data);
        WriteAliases(WithBlock(s1, m.block, Patch(s1.disk[m.block], off % BLOCK_SIZE, data[..k])), f, off + k,
                     data[k..], journaled);
      }
    }
  }

  lemma BmapAliases(s: Fs, f: nat, off: nat)
    requires Inv(s) && f < |s.inodes|
    ensures Bmap(s, f, off + 0x1000_0000_0000, true) == Bmap(s, f, off, true)
  {
    BlockIdxExactIff(off);
  }
}
