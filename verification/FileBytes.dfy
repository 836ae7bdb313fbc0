/** Files as byte arrays: `inode_read` and `inode_write` over the block map, directly to the device or
    through a journal transaction. */
module FileBytes {
  import opened Blocks
  import opened BlockTree
  import opened FileMap

  datatype Result<T> = Ok(value: T) | NoSpaceErr | InvalidErr

  /** What a transfer of `n` bytes returns. */
  function ReplyOf(status: Result<()>, n: nat): Result<nat> {
    match status
    case Ok(_) => Ok(n)
    case NoSpaceErr => NoSpaceErr
    case InvalidErr => InvalidErr
  }

  const MAX_BYTES: nat := MAX_BLOCKS * BLOCK_SIZE
  const MAX_OFFSET: nat := 0x1000_0000_0000

  // ---------- the abstract file ----------

  /** Logical block `idx` of file `f`: its data block, or zeros where nothing is mapped. */
  function FileBlock(s: Fs, f: nat, idx: nat): Block
    requires Inv(s) && f < |s.inodes| && idx < MAX_BLOCKS
  {
    var p := Ptr(s, DataLoc(f, idx));
    if p == 0 then ZeroBlock() else s.disk[p]
  }

  function FileByte(s: Fs, f: nat, pos: nat): Byte
    requires Inv(s) && f < |s.inodes| && pos < MAX_BYTES
  {
    FileBlock(s, f, pos / BLOCK_SIZE)[pos % BLOCK_SIZE]
  }

  // ---------- reading ----------

  /** How far a transfer of `n` bytes at `off` reaches within its first block. */
  function ChunkLen(off: nat, n: nat): (k: nat)
    ensures k <= n && k <= BLOCK_SIZE - off % BLOCK_SIZE && (n > 0 ==> k > 0)
    ensures k < n ==> (off + k) % BLOCK_SIZE == 0
  {
    var room := BLOCK_SIZE - off % BLOCK_SIZE;
    if room > n then n else room
  }

  function ReadLoop(s: Fs, f: nat, off: nat, n: nat): Result<seq<Byte>>
    requires Inv(s) && f < |s.inodes|
    decreases n
  {
    if n == 0 then Ok([])
    else match Bmap(s, f, off, false).1
      case BadOffset => InvalidErr
      case NoSpace => NoSpaceErr
      case At(b) =>
        var k, from := ChunkLen(off, n), off % BLOCK_SIZE;
        var block := if b == 0 then ZeroBlock() else s.disk[b];
        match ReadLoop(s, f, off + k, n - k)
        case Ok(rest) => Ok(block[from..from + k] + rest)
        case e => e
  }

  /** `inode_read`: clipped at the end of the file. */
  function InodeRead(s: Fs, f: nat, off: nat, n: nat): Result<seq<Byte>>
    requires Inv(s) && f < |s.inodes|
  {
    var size := s.inodes[f].size;
    if off >= size then Ok([])
    else ReadLoop(s, f, off, if off + n > size then size - off else n)
  }

  ghost predicate AreFileBytes(s: Fs, f: nat, off: nat, bytes: seq<Byte>)
    requires Inv(s) && f < |s.inodes|
  {
    off + |bytes| <= MAX_BYTES && forall i :: 0 <= i < |bytes| ==> bytes[i] == FileByte(s, f, off + i)
  }

  /** Reading returns the bytes of the file, holes as zeros; it fails exactly when the range leaves what
      the block map can address. */
  lemma {:induction false} ReadLoopReads(s: Fs, f: nat, off: nat, n: nat)
    requires Inv(s) && f < |s.inodes| && off + n <= MAX_OFFSET
    ensures ReadLoop(s, f, off, n).Ok? <==> n == 0 || off + n <= MAX_BYTES
    ensures var r := ReadLoop(s, f, off, n);
            r.Ok? ==> |r.value| == n && (n > 0 ==> AreFileBytes(s, f, off, r.value))
    decreases n
  {
    hide FileBlock, Ptr, Inv, Bmap;
    if n > 0 {
      var k, from, idx := ChunkLen(off, n), off % BLOCK_SIZE, off / BLOCK_SIZE;
      BmapLooksUp(s, f, off);
      ReadLoopReads(s, f, off + k, n - k);
      if idx < MAX_BLOCKS && ReadLoop(s, f, off + k, n - k).Ok? {
        var rest := ReadLoop(s, f, off + k, n - k).value;
        var block := FileBlock(s, f, idx);
        var all := block[from..from + k] + rest;
        assert ReadLoop(s, f, off, n) == Ok(all);
        FirstChunkReads(s, f, off, k, rest);
      }
    }
  }

  /** A chunk out of one block, and behind it the bytes that follow it in the file. */
  lemma FirstChunkReads(s: Fs, f: nat, off: nat, k: nat, rest: seq<Byte>)
    requires Inv(s) && f < |s.inodes| && off / BLOCK_SIZE < MAX_BLOCKS && k <= BLOCK_SIZE - off % BLOCK_SIZE
    requires rest != [] ==> AreFileBytes(s, f, off + k, rest)
    ensures k + |rest| > 0 ==>
      AreFileBytes(s, f, off, FileBlock(s, f, off / BLOCK_SIZE)[off % BLOCK_SIZE..off % BLOCK_SIZE + k] + rest)
  {
    hide FileBlock, Ptr, Inv;
    var from := off % BLOCK_SIZE;
    var all := FileBlock(s, f, off / BLOCK_SIZE)[from..from + k] + rest;
    forall i | 0 <= i < |all| ensures off + i < MAX_BYTES && all[i] == FileByte(s, f, off + i) {
      if i < k { DivModIn(off, i); } else { assert rest[i - k] == FileByte(s, f, (off + k) + (i - k)); }
    }
  }

  lemma BmapLooksUp(s: Fs, f: nat, off: nat)
    requires Inv(s) && f < |s.inodes| && off < MAX_OFFSET
    ensures var idx := off / BLOCK_SIZE;
            var m := Bmap(s, f, off, false).1;
            && (m == BadOffset <==> idx >= MAX_BLOCKS) && m != NoSpace
            && (m.At? ==>
                  && m.block < |s.disk|
                  && (if m.block == 0 then ZeroBlock() else s.disk[m.block]) == FileBlock(s, f, idx))
  {
    BlockIdxExactIff(off);
  }

  lemma DivModIn(off: nat, i: nat)
    requires off % BLOCK_SIZE + i < BLOCK_SIZE
    ensures (off + i) / BLOCK_SIZE == off / BLOCK_SIZE && (off + i) % BLOCK_SIZE == off % BLOCK_SIZE + i
  {}

  // ---------- writing ----------

  /** `was` with the bytes of `data`, which start at file offset `off`, laid over it; `was` is the block
      at file offset `base`. */
  function Overlay(was: Block, base: nat, off: nat, data: seq<Byte>): Block {
    seq(BLOCK_SIZE, k requires 0 <= k < BLOCK_SIZE =>
      if off <= base + k < off + |data| then data[base + k - off] else was[k])
  }

  /** The buffer the code builds: the old block around the bytes it copies in. */
  function Patch(was: Block, from: nat, bytes: seq<Byte>): Block
    requires from + |bytes| <= BLOCK_SIZE
  {
    was[..from] + bytes + was[from + |bytes|..]
  }

  function WithBlock(s: Fs, b: nat, block: Block): Fs
    requires b < |s.disk|
  {
    s.(disk := s.disk[b := block])
  }

  /** Outcome of a write loop: the state, the writes handed to the transaction, how many bytes were
      placed, and the status. */
  datatype Written = Written(fs: Fs, pending: seq<Write>, count: nat, status: Result<()>)

  /** The loop of `inode_write`; with `journaled` the patched blocks go to the transaction instead of
      the device. Index blocks are written to the device either way. */
  function WriteLoop(s: Fs, f: nat, off: nat, data: seq<Byte>, journaled: bool): (w: Written)
    requires Inv(s) && f < |s.inodes|
    ensures w.count <= |data| && (w.status.Ok? <==> w.count == |data|)
    ensures Inv(w.fs) && |w.fs.inodes| == |s.inodes|
    decreases |data|
  {
    if data == [] then Written(s, [], 0, Ok(()))
    else
      var (s1, m) := Bmap(s, f, off, true);
      BmapKeeps(s, f, off);
      match m
      case BadOffset => Written(s1, [], 0, InvalidErr)
      case NoSpace => Written(s1, [], 0, NoSpaceErr)
      case At(b) =>
        var k := ChunkLen(off, |data|);
        InvShaped(s1);
        var block := Patch(s1.disk[b], off % BLOCK_SIZE, data[..k]);
        if journaled then
          var w := WriteLoop(s1, f, off + k, data[k..], journaled);
          Written(w.fs, [Write(b, block)] + w.pending, k + w.count, w.status)
        else
          DataWriteKeeps(s1, DataLoc(f, BlockIdx(off)), block);
          var w := WriteLoop(WithBlock(s1, b, block), f, off + k, data[k..], journaled);
          Written(w.fs, [], k + w.count, w.status)
  }

  /** `inode_write`: the loop, then the size; the code returns early with the size untouched when the
      loop fails. */
  function InodeWrite(s: Fs, f: nat, off: nat, data: seq<Byte>, journaled: bool): (w: Written)
    requires Inv(s) && f < |s.inodes|
    ensures Inv(w.fs) && |w.fs.inodes| == |s.inodes|
  {
    var w := WriteLoop(s, f, off, data, journaled);
    if !w.status.Ok? || off + |data| <= s.inodes[f].size then w
    else
      SizeKeeps(w.fs, f, off + |data|);
      w.(fs := WithSize(w.fs, f, off + |data|))
  }

  function WithSize(s: Fs, f: nat, size: nat): Fs
    requires f < |s.inodes|
  {
    s.(inodes := s.inodes[f := s.inodes[f].(size := size)])
  }

  /** Writing a data block moves no pointer. */
  lemma {:induction false} DataWritePtr(s: Fs, l: Loc, block: Block, x: Loc)
    requires Inv(s) && IsLoc(s, l) && IsData(l) && Ptr(s, l) != 0 && IsLoc(s, x)
    ensures Ptr(s, l) < |s.disk| && Ptr(WithBlock(s, Ptr(s, l), block), x) == Ptr(s, x)
    decreases Depth(x)
  {
    InvShaped(s);
    if !InInode(x) { DataWritePtr(s, l, block, Parent(x)); }
  }

  lemma DataWriteKeeps(s: Fs, l: Loc, block: Block)
    requires Inv(s) && IsLoc(s, l) && IsData(l) && Ptr(s, l) != 0
    ensures Ptr(s, l) < |s.disk|
    ensures var r := WithBlock(s, Ptr(s, l), block);
            && Inv(r) && (Counted(s) ==> Counted(r))
            && (forall x :: IsLoc(r, x) <==> IsLoc(s, x))
            && (forall x :: IsLoc(s, x) ==> Ptr(r, x) == Ptr(s, x))
  {
    hide Ptr;
    InvShaped(s);
    var r := WithBlock(s, Ptr(s, l), block);
    forall x | IsLoc(s, x) ensures Ptr(r, x) == Ptr(s, x) { DataWritePtr(s, l, block, x); }
    assert forall f :: 0 <= f < |s.inodes| ==> Reach(r, f) == Reach(s, f);
  }

  // ---------- what a write does to every file ----------

  /** Logical block `idx` of file `g` overlaps the `n` bytes of file `f` at `off`. */
  predicate Touched(f: nat, off: nat, n: nat, g: nat, idx: nat) {
    g == f && n > 0 && off / BLOCK_SIZE <= idx <= (off + n - 1) / BLOCK_SIZE
  }

  /** `r` is `s` after `data` was written to file `f` at `off`, and nothing else: blocks the range does
      not overlap keep their mapping and content; the others are mapped, where they were or to a block
      that was free, and hold their previous content with the data laid over it. */
  ghost predicate Wrote(s: Fs, r: Fs, f: nat, off: nat, data: seq<Byte>) {
    && Inv(s) && Inv(r)
    && |r.disk| == |s.disk| && r.dataStart == s.dataStart && |r.used| == |s.used| && |r.inodes| == |s.inodes|
    && (forall g :: 0 <= g < |s.inodes| ==> r.inodes[g].size == s.inodes[g].size)
    && (forall b :: Allocated(s, b) ==> Allocated(r, b))
    && (forall p :: 0 <= p < |s.disk| && r.disk[p] != s.disk[p] ==> Allocated(r, p))
    && (forall g, idx :: 0 <= g < |s.inodes| && 0 <= idx < MAX_BLOCKS ==> BlockWrote(s, r, f, off, data, g, idx))
  }

  ghost predicate BlockWrote(s: Fs, r: Fs, f: nat, off: nat, data: seq<Byte>, g: nat, idx: nat)
    requires Inv(s) && Inv(r) && |r.disk| == |s.disk| && |r.inodes| == |s.inodes|
    requires g < |s.inodes| && idx < MAX_BLOCKS
  {
    var p, p' := Ptr(s, DataLoc(g, idx)), Ptr(r, DataLoc(g, idx));
    && (p != 0 ==> p' == p)
    && (p == 0 && p' != 0 ==> !Allocated(s, p'))
    && (if Touched(f, off, |data|, g, idx) then
          p' != 0 && r.disk[p'] == Overlay(s.disk[p'], idx * BLOCK_SIZE, off, data)
        else
          p' == p && (p != 0 ==> r.disk[p] == s.disk[p]))
  }

  /** An extension that maps no data block writes nothing. */
  lemma ExtendsWrote(s: Fs, r: Fs, f: nat, off: nat)
    requires Extends(s, r)
    requires forall g, idx :: 0 <= g < |s.inodes| && 0 <= idx < MAX_BLOCKS ==>
      Ptr(r, DataLoc(g, idx)) == Ptr(s, DataLoc(g, idx))
    ensures Wrote(s, r, f, off, [])
  {
    forall p | 0 <= p < |s.disk| && r.disk[p] != s.disk[p] ensures Allocated(r, p) {
      var x :| IsLoc(r, x) && !IsData(x) && Ptr(r, x) == p;
    }
    forall g, idx | 0 <= g < |s.inodes| && 0 <= idx < MAX_BLOCKS ensures BlockWrote(s, r, f, off, [], g, idx) {
      if Ptr(r, DataLoc(g, idx)) != 0 { DataBlockKept(s, r, DataLoc(g, idx)); }
    }
  }

  /** An extension leaves the content of every data block in use, and of the blocks it maps as data. */
  lemma DataBlockKept(s: Fs, r: Fs, l: Loc)
    requires Extends(s, r) && IsLoc(s, l) && IsData(l) && Ptr(r, l) != 0
    ensures Ptr(r, l) < |s.disk| && r.disk[Ptr(r, l)] == s.disk[Ptr(r, l)]
  {
    InvShaped(r);
    assert IsLoc(r, l);
    forall x | IsLoc(r, x) && !IsData(x) ensures Ptr(r, x) != Ptr(r, l) {
      assert x != l;
    }
    assert !IndexBlock(r, Ptr(r, l));
  }

  lemma PatchIsOverlay(was: Block, off: nat, bytes: seq<Byte>)
    requires off % BLOCK_SIZE + |bytes| <= BLOCK_SIZE
    ensures Patch(was, off % BLOCK_SIZE, bytes) == Overlay(was, off / BLOCK_SIZE * BLOCK_SIZE, off, bytes)
  {}

  /** A range inside one block touches that block only. */
  lemma OneBlockTouched(f: nat, off: nat, n: nat, g: nat, idx: nat)
    requires 0 < n <= BLOCK_SIZE - off % BLOCK_SIZE
    ensures Touched(f, off, n, g, idx) <==> g == f && idx == off / BLOCK_SIZE
  {
    DivModIn(off, n - 1);
  }

  /** One round of the write loop, direct to the device. */
  lemma ChunkWrote(s: Fs, f: nat, off: nat, bytes: seq<Byte>)
    requires Inv(s) && f < |s.inodes| && off < MAX_OFFSET
    requires 0 < |bytes| <= BLOCK_SIZE - off % BLOCK_SIZE && Bmap(s, f, off, true).1.At?
    ensures var (s1, m) := Bmap(s, f, off, true);
            m.block < |s1.disk| && Wrote(s, WithBlock(s1, m.block, Patch(s1.disk[m.block], off % BLOCK_SIZE, bytes)),
              f, off, bytes)
  {
    hide Ptr, Bmap, Extends, Patch, Overlay, BlockWrote, Counted;
    var (s1, m) := Bmap(s, f, off, true);
    var idx := off / BLOCK_SIZE;
    BlockIdxExactIff(off);
    BmapKeeps(s, f, off);
    ExtendsGeometry(s, s1);
    var l := DataLoc(f, idx);
    InvShaped(s1);
    var b := m.block;
    var block := Patch(s1.disk[b], off % BLOCK_SIZE, bytes);
    PatchIsOverlay(s1.disk[b], off, bytes);
    DataWriteKeeps(s1, l, block);
    var r := WithBlock(s1, b, block);
    DataBlockKept(s, s1, l);
    forall g, i | 0 <= g < |s.inodes| && 0 <= i < MAX_BLOCKS ensures BlockWrote(s, r, f, off, bytes, g, i) {
      ChunkWroteBlock(s, s1, r, f, off, bytes, g, i);
    }
  }

  lemma ChunkWroteBlock(s: Fs, s1: Fs, r: Fs, f: nat, off: nat, bytes: seq<Byte>, g: nat, i: nat)
    requires f < |s.inodes| && g < |s.inodes| && i < MAX_BLOCKS && off / BLOCK_SIZE < MAX_BLOCKS
    requires Extends(s, s1) && Inv(r) && |r.inodes| == |s.inodes| && |r.disk| == |s.disk|
    requires 0 < |bytes| <= BLOCK_SIZE - off % BLOCK_SIZE
    requires var l := DataLoc(f, off / BLOCK_SIZE);
             && 0 < Ptr(s1, l) < |s.disk|
             && r.disk == s1.disk[Ptr(s1, l) := Overlay(s1.disk[Ptr(s1, l)], off / BLOCK_SIZE * BLOCK_SIZE, off, bytes)]
    requires Ptr(r, DataLoc(g, i)) == Ptr(s1, DataLoc(g, i))
    requires g != f || i != off / BLOCK_SIZE ==> Ptr(s1, DataLoc(g, i)) == Ptr(s, DataLoc(g, i))
    ensures BlockWrote(s, r, f, off, bytes, g, i)
  {
    hide Ptr, Overlay, Extends;
    var x, l := DataLoc(g, i), DataLoc(f, off / BLOCK_SIZE);
    ExtendsGeometry(s, s1);
    OneBlockTouched(f, off, |bytes|, g, i);
    assert IsLoc(s, x) && IsLoc(s, l);
    ExtendsPtr(s, s1, x);
    if Ptr(s1, x) != 0 { DataBlockKept(s, s1, x); }
    if x == l {
      DataLocInjective(g, i, f, off / BLOCK_SIZE);
    } else if Ptr(s1, x) != 0 {
      Separate(s1, x, l);
    }
  }

  lemma Separate(s: Fs, x: Loc, y: Loc)
    requires Inv(s) && IsLoc(s, x) && IsLoc(s, y) && x != y && Ptr(s, x) != 0
    ensures Ptr(s, x) != Ptr(s, y)
  {}

  lemma ExtendsPtr(s: Fs, r: Fs, x: Loc)
    requires Extends(s, r) && IsLoc(s, x)
    ensures Ptr(s, x) != 0 ==> Ptr(r, x) == Ptr(s, x)
    ensures Ptr(s, x) == 0 && Ptr(r, x) != 0 ==> !Allocated(s, Ptr(r, x))
  {}

  lemma ExtendsGeometry(s: Fs, r: Fs)
    requires Extends(s, r)
    ensures Inv(r) && |r.disk| == |s.disk| && r.dataStart == s.dataStart && |r.used| == |s.used|
    ensures |r.inodes| == |s.inodes|
    ensures forall f :: 0 <= f < |s.inodes| ==> r.inodes[f].size == s.inodes[f].size
    ensures forall b :: Allocated(s, b) ==> Allocated(r, b)
    ensures forall p :: 0 <= p < |s.disk| && r.disk[p] != s.disk[p] ==> Allocated(r, p)
  {
    forall p | 0 <= p < |s.disk| && r.disk[p] != s.disk[p] ensures Allocated(r, p) {
      var x :| IsLoc(r, x) && !IsData(x) && Ptr(r, x) == p;
    }
  }

  lemma TouchedSplit(f: nat, off: nat, m: nat, n: nat, g: nat, i: nat)
    requires n == 0 || (m > 0 && (off + m) % BLOCK_SIZE == 0)
    ensures Touched(f, off, m + n, g, i) <==> Touched(f, off, m, g, i) || Touched(f, off + m, n, g, i)
    ensures Touched(f, off, m, g, i) && n > 0 ==> i * BLOCK_SIZE + BLOCK_SIZE <= off + m
    ensures Touched(f, off + m, n, g, i) ==> off + m <= i * BLOCK_SIZE && !Touched(f, off, m, g, i)
  {
    if n > 0 {
      var q := (off + m) / BLOCK_SIZE;
      assert off + m == BLOCK_SIZE * q;
      assert (off + m - 1) / BLOCK_SIZE == q - 1;
    }
  }

  lemma OverlayPrefix(was: Block, base: nat, off: nat, a: seq<Byte>, b: seq<Byte>)
    requires b == [] || base + BLOCK_SIZE <= off + |a|
    ensures Overlay(was, base, off, a + b) == Overlay(was, base, off, a)
  {
    if b == [] { assert a + b == a; }
  }

  lemma OverlaySuffix(was: Block, base: nat, off: nat, a: seq<Byte>, b: seq<Byte>)
    requires off + |a| <= base
    ensures Overlay(was, base, off, a + b) == Overlay(was, base, off + |a|, b)
  {}

  /** Two writes back to back, the first one ending on a block boundary, are one write. */
  lemma WroteThenWrote(s: Fs, t: Fs, r: Fs, f: nat, off: nat, a: seq<Byte>, b: seq<Byte>)
    requires f < |s.inodes| && Wrote(s, t, f, off, a) && Wrote(t, r, f, off + |a|, b)
    requires b == [] || (a != [] && (off + |a|) % BLOCK_SIZE == 0)
    ensures Wrote(s, r, f, off, a + b)
  {
    hide Ptr, Overlay, Inv;
    InvShaped(s);
    InvShaped(t);
    InvShaped(r);
    forall p | 0 <= p < |s.disk| && r.disk[p] != s.disk[p] ensures Allocated(r, p) {
      if t.disk[p] != s.disk[p] { assert Allocated(t, p); }
    }
    forall g, i | 0 <= g < |s.inodes| && 0 <= i < MAX_BLOCKS ensures BlockWrote(s, r, f, off, a + b, g, i) {
      assert BlockWrote(s, t, f, off, a, g, i) && BlockWrote(t, r, f, off + |a|, b, g, i);
      BlockWroteThenWrote(s, t, r, f, off, a, b, g, i);
    }
  }

  lemma BlockWroteThenWrote(s: Fs, t: Fs, r: Fs, f: nat, off: nat, a: seq<Byte>, b: seq<Byte>, g: nat, i: nat)
    requires f < |s.inodes| && Wrote(s, t, f, off, a) && Wrote(t, r, f, off + |a|, b)
    requires b == [] || (a != [] && (off + |a|) % BLOCK_SIZE == 0)
    requires g < |s.inodes| && i < MAX_BLOCKS
    ensures BlockWrote(s, r, f, off, a + b, g, i)
  {
    hide Ptr, Overlay, Inv;
    InvShaped(s);
    InvShaped(t);
    InvShaped(r);
    var l := DataLoc(g, i);
    assert BlockWrote(s, t, f, off, a, g, i) && BlockWrote(t, r, f, off + |a|, b, g, i);
    TouchedSplit(f, off, |a|, |b|, g, i);
    if Touched(f, off, |a|, g, i) {
      OverlayPrefix(s.disk[Ptr(t, l)], i * BLOCK_SIZE, off, a, b);
    } else if Touched(f, off + |a|, |b|, g, i) {
      var p := Ptr(r, l);
      assert t.disk[p] == s.disk[p];
      OverlaySuffix(s.disk[p], i * BLOCK_SIZE, off, a, b);
    }
  }

  lemma WriteLoopStep(s: Fs, f: nat, off: nat, data: seq<Byte>)
    requires Inv(s) && f < |s.inodes| && data != [] && Bmap(s, f, off, true).1.At?
    ensures var (s1, m) := Bmap(s, f, off, true);
            var k := ChunkLen(off, |data|);
            m.block < |s1.disk| &&
            var s2 := WithBlock(s1, m.block, Patch(s1.disk[m.block], off % BLOCK_SIZE, data[..k]));
            Inv(s2) && f < |s2.inodes| &&
            var w := WriteLoop(s2, f, off + k, data[k..], false);
            WriteLoop(s, f, off, data, false) == Written(w.fs, [], k + w.count, w.status)
  {
    hide Ptr, Bmap, Extends, Patch, Counted;
    BmapKeeps(s, f, off);
    var (s1, m) := Bmap(s, f, off, true);
    ExtendsGeometry(s, s1);
    InvShaped(s1);
    DataWriteKeeps(s1, DataLoc(f, BlockIdx(off)),
      Patch(s1.disk[m.block], off % BLOCK_SIZE, data[..ChunkLen(off, |data|)]));
  }

  lemma WriteLoopStops(s: Fs, f: nat, off: nat, data: seq<Byte>)
    requires Inv(s) && f < |s.inodes| && data != [] && !Bmap(s, f, off, true).1.At?
    ensures var (s1, m) := Bmap(s, f, off, true);
            WriteLoop(s, f, off, data, false) == Written(s1, [], 0, if m == BadOffset then InvalidErr else NoSpaceErr)
  {}

  /** The whole loop, direct to the device: exactly the bytes it counts are written, also when it stops
      early, and it stops early only for a full data area or an offset beyond the block map. */
  lemma {:induction false} WriteLoopWrote(s: Fs, f: nat, off: nat, data: seq<Byte>)
    requires Inv(s) && f < |s.inodes| && off + |data| <= MAX_OFFSET
    ensures var w := WriteLoop(s, f, off, data, false);
            && Wrote(s, w.fs, f, off, data[..w.count]) && (Counted(s) ==> Counted(w.fs))
            && (w.status == InvalidErr ==> off + |data| > MAX_BYTES)
            && (w.status == NoSpaceErr ==> forall b :: s.dataStart <= b < s.dataStart + |s.used| ==> Allocated(w.fs, b))
            && (w.status.Ok? ==> |data| == 0 || off + |data| <= MAX_BYTES)
    decreases |data|
  {
    hide Ptr, Bmap, Extends, Wrote, Counted, Allocated, Patch, WriteLoop;
    if data == [] {
      ExtendsRefl(s);
      ExtendsWrote(s, s, f, off);
      NothingToWrite(s, f, off);
    } else {
      var (s1, m) := Bmap(s, f, off, true);
      BmapKeeps(s, f, off);
      BlockIdxExactIff(off);
      ExtendsGeometry(s, s1);
      if m.At? {
        InvShaped(s1);
        var k := ChunkLen(off, |data|);
        var block := Patch(s1.disk[m.block], off % BLOCK_SIZE, data[..k]);
        WriteLoopStep(s, f, off, data);
        ChunkWrote(s, f, off, data[..k]);
        DataWriteKeeps(s1, DataLoc(f, BlockIdx(off)), block);
        var s2 := WithBlock(s1, m.block, block);
        WriteLoopWrote(s2, f, off + k, data[k..]);
        var w := WriteLoop(s2, f, off + k, data[k..], false);
        WroteThenWrote(s, s2, w.fs, f, off, data[..k], data[k..][..w.count]);
        assert data[..k] + data[k..][..w.count] == data[..k + w.count];
      } else {
        WriteLoopStops(s, f, off, data);
        ExtendsWrote(s, s1, f, off);
        assert data[..0] == [];
      }
    }
  }

  lemma NothingToWrite(s: Fs, f: nat, off: nat)
    requires Inv(s) && f < |s.inodes|
    ensures WriteLoop(s, f, off, [], false) == Written(s, [], 0, Ok(()))
  {}

  /** The size field carries no pointer. */
  lemma {:induction false} SizePtr(s: Fs, f: nat, size: nat, x: Loc)
    requires Shaped(s) && f < |s.inodes| && IsLoc(s, x)
    ensures Ptr(WithSize(s, f, size), x) == Ptr(s, x)
    decreases Depth(x)
  {
    if !InInode(x) { SizePtr(s, f, size, Parent(x)); }
  }

  lemma SizeKeeps(s: Fs, f: nat, size: nat)
    requires Inv(s) && f < |s.inodes|
    ensures var r := WithSize(s, f, size);
            && Inv(r) && (Counted(s) ==> Counted(r)) && |r.inodes| == |s.inodes|
            && (forall g, idx :: 0 <= g < |s.inodes| && 0 <= idx < MAX_BLOCKS ==>
                FileBlock(r, g, idx) == FileBlock(s, g, idx))
            && (forall x :: IsLoc(s, x) ==> Ptr(r, x) == Ptr(s, x))
  {
    hide Ptr;
    var r := WithSize(s, f, size);
    forall x | IsLoc(s, x) ensures Ptr(r, x) == Ptr(s, x) { SizePtr(s, f, size, x); }
    assert forall x :: IsLoc(r, x) <==> IsLoc(s, x);
    assert forall g :: 0 <= g < |s.inodes| ==> Reach(r, g) == Reach(s, g);
  }

  /** What a byte of file `g` becomes when `data` is written to file `f`: the new byte inside the range;
      outside it the old one, except in a block the write has just mapped, where it is whatever the freshly
      allocated block held. */
  ghost predicate ByteAfter(s: Fs, r: Fs, f: nat, off: nat, data: seq<Byte>, g: nat, pos: nat)
    requires Inv(s) && Inv(r) && f < |s.inodes| && |r.inodes| == |s.inodes| && |r.disk| == |s.disk|
    requires g < |s.inodes| && pos < MAX_BYTES
  {
    var idx := pos / BLOCK_SIZE;
    var newlyMapped := Ptr(s, DataLoc(g, idx)) == 0 && Ptr(r, DataLoc(g, idx)) != 0;
    FileByte(r, g, pos) ==
      if g == f && off <= pos < off + |data| then data[pos - off]
      else if newlyMapped then s.disk[Ptr(r, DataLoc(g, idx))][pos % BLOCK_SIZE]
      else FileByte(s, g, pos)
  }

  lemma WroteBytes(s: Fs, r: Fs, f: nat, off: nat, data: seq<Byte>, g: nat, pos: nat)
    requires f < |s.inodes| && Wrote(s, r, f, off, data) && g < |s.inodes| && pos < MAX_BYTES
    ensures ByteAfter(s, r, f, off, data, g, pos)
    ensures g == f && off <= pos < off + |data| ==> Touched(f, off, |data|, g, pos / BLOCK_SIZE)
  {
    hide Ptr;
    var idx := pos / BLOCK_SIZE;
    assert BlockWrote(s, r, f, off, data, g, idx);
    InvShaped(s);
    InvShaped(r);
    assert pos == idx * BLOCK_SIZE + pos % BLOCK_SIZE;
  }
}
