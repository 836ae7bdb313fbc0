/** inode.c over the cached device and the bitmap allocator: block mapping, byte-range reads and writes and
    truncation, updating inode, bitmap and blocks in place, do what the value functions of `FileMap`,
    `FileBytes` and `FileTruncate` say. */
module InodeIo {
  import opened Bits
  import opened BlockAlloc
  import opened BlockDev
  import opened Blocks
  import opened BlockTree
  import opened DevModel
  import opened DevRefine
  import opened FileBytes
  import opened FileMap
  import FileRead
  import opened FileTruncate
  import Journal
  import JournalRun

  /** An inode in memory; `inum` doubles as its index in the table. */
  class Inode {
    var inum: nat
    var disk: DiskInode
    var refCount: int
    var valid: bool
    var dirty: bool

    /** An unused entry of the pool. */
    constructor ()
      ensures refCount == 0 && !valid && !dirty
    {
      inum, refCount, valid, dirty := 0, 0, false, false;
      disk := DiskInode(0, 0, [], 0, 0, []);
    }
  }

  /** A pointer kept in the inode itself. */
  function RootPtr(d: DiskInode, l: Loc): Word
    requires InInode(l) && (l.Direct? ==> l.i < |d.direct|)
  {
    match l
    case Direct(_, i) => d.direct[i]
    case Ind(_) => d.indirect
    case Dbl(_) => d.doubleIndirect
  }

  function WithRoot(d: DiskInode, l: Loc, b: Word): DiskInode
    requires InInode(l) && (l.Direct? ==> l.i < |d.direct|)
  {
    match l
    case Direct(_, i) => d.(direct := d.direct[i := b])
    case Ind(_) => d.(indirect := b)
    case Dbl(_) => d.(doubleIndirect := b)
  }

  /** The inode with one more block, hanging at `l`. */
  function OneMore(d: DiskInode, l: Loc, b: Word): DiskInode
    requires l.Direct? ==> l.i < |d.direct|
  {
    var e := if InInode(l) then WithRoot(d, l, b) else d; e.(blocks := e.blocks + 1)
  }

  /** A pointer stored and counted, its block cleared if it is to hold pointers. */
  function Hung(s: Fs, l: Loc, holder: Word, buf: Block, b: Word): Fs
    requires l.f < |s.inodes| && IsLoc(s, l) && |s.inodes[l.f].direct| == DIRECT_BLOCKS
  {
    var disk := if InInode(l) then s.disk else Put(s.disk, Blocks.Write.Write(holder, WithEntry(buf, Index(l), b)));
    s.(disk := if IsData(l) then disk else Put(disk, Blocks.Write.Write(b, ZeroBlock())),
       inodes := s.inodes[l.f := OneMore(s.inodes[l.f], l, b)])
  }

  /** `holder` is the index block that keeps pointer `l`. */
  predicate Holds(s: Fs, l: Loc, holder: Word) {
    Shaped(s) && IsLoc(s, l) && (!InInode(l) ==> holder == Ptr(s, Parent(l)) && 0 < holder < |s.disk|)
  }

  lemma GraftIs(s: Fs, l: Loc, holder: Word, buf: Block, b: Word)
    requires Holds(s, l, holder) && s.dataStart <= b < s.dataStart + |s.used| && (!InInode(l) ==> buf == s.disk[holder])
    ensures Graft(s, l, b) == Hung(s.(used := s.used[b - s.dataStart := true]), l, holder, buf, b)
  {
    hide Ptr, WithEntry;
  }

  /** No free block sits in an invalidated buffer, where a write would be lost. */
  ghost predicate FreeWritable(s: Fs, d: Dev) {
    forall b: nat :: IsFree(s, b) ==> !Stale(d, b)
  }

  lemma StaysWritable(s: Fs, d: Dev, t: Fs, e: Dev)
    requires FreeWritable(s, d) && NoNewStale(d, e)
    requires t.dataStart == s.dataStart && |t.used| == |s.used|
    requires forall i :: 0 <= i < |s.used| && s.used[i] ==> t.used[i]
    ensures FreeWritable(t, e)
  {
    hide Stale;
    forall b: nat | IsFree(t, b) ensures !Stale(e, b) { assert IsFree(s, b); }
  }

  /** `r` and `m` are what ensuring a block at `l` gives. */
  ghost predicate Resolved(s: Fs, l: Loc, r: Fs, m: Mapped)
    requires Shaped(s) && IsLoc(s, l) && (!InInode(l) ==> 0 < Ptr(s, Parent(l)) < |s.disk|)
  {
    (r, m.At?) == Ensure(s, l) && (if m.At? then m.block == Ptr(r, l) else m == NoSpace)
  }

  lemma ResolvedThere(s: Fs, l: Loc)
    requires Shaped(s) && IsLoc(s, l) && (!InInode(l) ==> 0 < Ptr(s, Parent(l)) < |s.disk|)
    requires Ptr(s, l) != 0 || FirstFree(s.used) == |s.used|
    ensures Resolved(s, l, s, if Ptr(s, l) != 0 then At(Ptr(s, l)) else NoSpace)
  {}

  lemma FreeIsWritable(s: Fs, d: Dev, b: nat)
    requires FreeWritable(s, d) && IsFree(s, b)
    ensures !Stale(d, b)
  {}

  lemma HungUsed(s: Fs, l: Loc, holder: Word, buf: Block, b: Word)
    requires l.f < |s.inodes| && IsLoc(s, l) && |s.inodes[l.f].direct| == DIRECT_BLOCKS
    ensures Hung(s, l, holder, buf, b).used == s.used && Hung(s, l, holder, buf, b).dataStart == s.dataStart
  {}

  /** Allocation on the value level: the lowest free block, hung at a location that had none. */
  lemma EnsureIs(s: Fs, l: Loc, holder: Word, buf: Block)
    requires Inv(s) && Holds(s, l, holder) && Ptr(s, l) == 0 && FirstFree(s.used) < |s.used|
    requires !InInode(l) ==> buf == s.disk[holder]
    ensures |s.inodes[l.f].direct| == DIRECT_BLOCKS && (!InInode(l) ==> holder < |s.disk|)
    ensures var k := FirstFree(s.used);
            var b := s.dataStart + k;
            && 0 < b < |s.disk| && IsFree(s, b)
            && Resolved(s, l, Hung(s.(used := s.used[k := true]), l, holder, buf, b), At(b))
  {
    hide Inv, Ptr, Graft, Hung;
    InvShaped(s);
    var b := s.dataStart + FirstFree(s.used);
    CanGraftFresh(s, l, b);
    GraftIs(s, l, holder, buf, b);
    GraftPtr(s, l, b, l);
  }

  // ---------- inode_bmap, step by step ----------

  /** Every pointer names a block of the device; weaker than separation, and kept by truncation. */
  ghost predicate InReach(s: Fs) {
    Shaped(s) && forall l :: IsLoc(s, l) ==> Ptr(s, l) < |s.disk|
  }

  /** The lookup without allocation. */
  function Lookup(s: Fs, f: nat, off: nat): Mapped
    requires Shaped(s) && f < |s.inodes|
  {
    if BlockIdx(off) >= MAX_BLOCKS then BadOffset else At(Ptr(s, DataLoc(f, BlockIdx(off))))
  }

  lemma InvInReach(s: Fs, f: nat, off: nat)
    requires Inv(s) && f < |s.inodes|
    ensures InReach(s) && FileMap.Bmap(s, f, off, false) == (s, Lookup(s, f, off))
  {
    InvShaped(s);
  }

  /** Where a walk down a chain of pointers stands: `r` with the pointers before `c` ensured. */
  ghost predicate Walked(s: Fs, f: nat, idx: nat, r: Fs, c: seq<Loc>)
    requires f < |s.inodes| && idx < MAX_BLOCKS
  {
    && Inv(s) && Inv(r) && |r.inodes| == |s.inodes| && IsChain(s, Chain(f, idx)) && IsChain(r, c)
    && EnsureAll(s, Chain(f, idx)) == EnsureAll(r, c)
  }

  lemma WalkStarts(s: Fs, f: nat, idx: nat)
    requires Inv(s) && f < |s.inodes| && idx < MAX_BLOCKS
    ensures Walked(s, f, idx, s, Chain(f, idx))
  {
    ChainIsChain(s, f, idx);
  }

  /** What one step down the chain `c` leaves: the walk ends in `t`, or goes on behind `c[0]`. */
  ghost predicate Stepped(s: Fs, f: nat, idx: nat, c: seq<Loc>, t: Fs, m: Mapped)
    requires f < |s.inodes| && idx < MAX_BLOCKS && c != []
  {
    && Inv(s) && Inv(t) && |t.inodes| == |s.inodes| && IsChain(s, Chain(f, idx))
    && (!m.At? ==> m == NoSpace && EnsureAll(s, Chain(f, idx)) == (t, false))
    && (m.At? ==> Walked(s, f, idx, t, c[1..]) && IsLoc(t, c[0]) && m.block == Ptr(t, c[0]) && m.block != 0)
    && (m.At? && |c| == 1 ==> EnsureAll(s, Chain(f, idx)) == (t, true))
    && (m.At? && |c| > 1 ==> Holds(t, c[1], m.block))
  }

  /** One pointer ensured. */
  lemma WalkStep(s: Fs, f: nat, idx: nat, r: Fs, c: seq<Loc>, t: Fs, m: Mapped)
    requires f < |s.inodes| && idx < MAX_BLOCKS && Walked(s, f, idx, r, c) && c != []
    requires Resolved(r, c[0], t, m)
    ensures Stepped(s, f, idx, c, t, m)
  {
    hide Ptr, Inv;
    EnsureFacts(r, c[0]);
    assert Inv(t) && |t.inodes| == |s.inodes|;
    if m.At? {
      NextIsChain(r, t, c);
      InvShaped(t);
      assert EnsureAll(r, c) == EnsureAll(t, c[1..]);
      if |c| == 1 {
        assert c[1..] == [];
      } else {
        assert Parent(c[1]) == c[0];
      }
    }
  }

  lemma ReachShaped(s: Fs)
    requires InReach(s)
    ensures Shaped(s)
  {}

  lemma OutOfRange(s: Fs, f: nat, off: nat)
    requires Shaped(s) && f < |s.inodes| && BlockIdx(off) >= MAX_BLOCKS
    ensures Lookup(s, f, off) == BadOffset && (Inv(s) ==> FileMap.Bmap(s, f, off, true) == (s, BadOffset))
  {}

  /** The chain as the code spells it out. */
  lemma ChainParts(s: Fs, f: nat, idx: nat)
    requires Shaped(s) && f < |s.inodes| && idx < MAX_BLOCKS
    ensures var c := Chain(f, idx);
            && Holds(s, c[0], 0) && DataLoc(f, idx) == c[|c| - 1]
            && (forall j :: 0 <= j < |c| ==> IsLoc(s, c[j]) && c[j].f == f)
            && (idx < DIRECT_BLOCKS ==> c == [Direct(f, idx)])
            && (DIRECT_BLOCKS <= idx < DIRECT_BLOCKS + PER_BLOCK ==> c == [Ind(f), IndEntry(f, idx - DIRECT_BLOCKS)])
            && (idx >= DIRECT_BLOCKS + PER_BLOCK ==>
                  var k := idx - DIRECT_BLOCKS - PER_BLOCK;
                  c == [Dbl(f), DblEntry(f, k / PER_BLOCK), DblLeaf(f, k / PER_BLOCK, k % PER_BLOCK)])
  {}

  /** After the last pointer of the chain. */
  lemma BmapEnds(s: Fs, f: nat, off: nat, c: seq<Loc>, t: Fs, m: Mapped, alloc: bool)
    requires Shaped(s) && f < |s.inodes| && BlockIdx(off) < MAX_BLOCKS && |c| == 1 && c[0] == DataLoc(f, BlockIdx(off))
    requires alloc ==> Stepped(s, f, BlockIdx(off), c, t, m)
    requires !alloc ==> IsLoc(s, c[0]) && m == At(Ptr(s, c[0]))
    ensures !alloc ==> m == Lookup(s, f, off)
    ensures alloc ==> Inv(s) && (t, m) == FileMap.Bmap(s, f, off, true)
  {
    hide Ptr, Inv;
  }

  /** After an inner pointer of the chain: the walk is over, or the next pointer has its index block. */
  lemma BmapGoesOn(s: Fs, f: nat, off: nat, c: seq<Loc>, j: nat, t: Fs, m: Mapped, alloc: bool)
    requires InReach(s) && f < |s.inodes| && BlockIdx(off) < MAX_BLOCKS && c == Chain(f, BlockIdx(off)) && j + 1 < |c|
    requires alloc ==> Stepped(s, f, BlockIdx(off), c[j..], t, m)
    requires !alloc ==> t == s && IsLoc(s, c[j]) && m == At(Ptr(s, c[j]))
    ensures !alloc && m.block == 0 ==> m == Lookup(s, f, off)
    ensures alloc && !m.At? ==> Inv(s) && (t, m) == FileMap.Bmap(s, f, off, true)
    ensures m.At? && m.block != 0 ==> Holds(t, c[j + 1], m.block)
    ensures alloc && m.At? ==> m.block != 0 && Walked(s, f, BlockIdx(off), t, c[j + 1..])
  {
    hide Inv;
    assert c[j..][1] == c[j + 1] && c[j..][1..] == c[j + 1..];
    if !alloc {
      ChainIsChain(s, f, BlockIdx(off));
      assert Parent(c[j + 1]) == c[j];
    }
  }

  // ---------- inode_truncate, round by round ----------

  lemma ReachKept(s: Fs, t: Fs)
    requires InReach(s) && SameMap(s, t)
    ensures InReach(t)
  {
    hide Ptr;
    assert forall x :: IsLoc(t, x) <==> IsLoc(s, x);
  }

  /** State after the loop body for step `i`. */
  function TruncateRound(s: Fs, f: nat, i: nat): (t: Fs)
    requires Shaped(s) && f < |s.inodes|
    ensures Shaped(t) && |t.inodes| == |s.inodes|
  {
    var m := Lookup(s, f, i * BLOCK_SIZE % 0x1_0000_0000);
    if m.At? && m.block != 0 then CountDown(FreeBlock(s, m.block), f) else s
  }

  lemma TruncateGoesOn(s: Fs, f: nat, i: nat, to: nat)
    requires InReach(s) && f < |s.inodes|
    ensures i < to ==> TruncateLoop(s, f, i, to) == TruncateLoop(TruncateRound(s, f, i), f, i + 1, to)
    ensures InReach(TruncateRound(s, f, i))
  {
    hide Ptr, InReach;
    ReachShaped(s);
    var m := Lookup(s, f, i * BLOCK_SIZE % 0x1_0000_0000);
    if m.At? && m.block != 0 {
      BodySameMap(s, f, m.block);
      ReachKept(s, TruncateRound(s, f, i));
    }
  }

  lemma TruncateIs(s: Fs, f: nat, newSize: nat)
    requires Shaped(s) && f < |s.inodes|
    ensures var size := s.inodes[f].size;
            FileTruncate.Truncate(s, f, newSize) ==
              if newSize >= size then WithSize(s, f, newSize)
              else WithSize(TruncateLoop(s, f, (newSize + BLOCK_SIZE - 1) / BLOCK_SIZE % 0x1_0000_0000,
                                         (size + BLOCK_SIZE - 1) / BLOCK_SIZE % 0x1_0000_0000), f, newSize)
  {
    hide TruncateLoop;
  }

  lemma TruncateDone(s: Fs, f: nat, i: nat, to: nat)
    requires Shaped(s) && f < |s.inodes| && i >= to
    ensures TruncateLoop(s, f, i, to) == s
  {}

  // ---------- the transfer loops, round by round ----------

  /** The rest of a read behind the bytes already copied. */
  function Prefixed(bytes: seq<Byte>, rest: Result<seq<Byte>>): Result<seq<Byte>> {
    if rest.Ok? then Ok(bytes + rest.value) else rest
  }

  lemma PrefixedTwice(a: seq<Byte>, b: seq<Byte>, rest: Result<seq<Byte>>)
    ensures Prefixed(a, Prefixed(b, rest)) == Prefixed(a + b, rest)
  {
    if rest.Ok? { assert a + (b + rest.value) == a + b + rest.value; }
  }

  lemma PrefixedNone(rest: Result<seq<Byte>>)
    ensures Prefixed([], rest) == rest
  {
    if rest.Ok? { assert [] + rest.value == rest.value; }
  }

  lemma PrefixedError(bytes: seq<Byte>)
    ensures Prefixed(bytes, InvalidErr) == InvalidErr
  {}

  lemma ReadRound(s: Fs, f: nat, off: nat, n: nat)
    requires Inv(s) && f < |s.inodes| && n > 0
    ensures var m, k, from := Lookup(s, f, off), ChunkLen(off, n), off % BLOCK_SIZE;
            && m != NoSpace && (m == BadOffset ==> ReadLoop(s, f, off, n) == InvalidErr)
            && (m.At? ==>
                  && m.block < |s.disk|
                  && var block := if m.block == 0 then ZeroBlock() else s.disk[m.block];
                     ReadLoop(s, f, off, n) == Prefixed(block[from..from + k], ReadLoop(s, f, off + k, n - k)))
  {
    hide Ptr, Inv;
    InvInReach(s, f, off);
  }

  lemma ReadDone(s: Fs, f: nat, off: nat, bytes: seq<Byte>)
    requires Inv(s) && f < |s.inodes|
    ensures Prefixed(bytes, ReadLoop(s, f, off, 0)) == Ok(bytes)
  {
    assert bytes + [] == bytes;
  }

  /** The rest of a write behind what has been placed and handed over already. */
  function Behind(pending: seq<Write>, count: nat, w: Written): Written {
    Written(w.fs, pending + w.pending, count + w.count, w.status)
  }

  ghost predicate NothingStale(d: Dev) { forall b: nat :: !Stale(d, b) }

  lemma BehindTwice(p: seq<Write>, c: nat, q: seq<Write>, e: nat, w: Written)
    ensures Behind(p, c, Behind(q, e, w)) == Behind(p + q, c + e, w)
  {
    assert p + (q + w.pending) == p + q + w.pending;
  }

  lemma BehindError(p: seq<Write>, c: nat, w: Written)
    requires w.pending == []
    ensures Behind(p, c, w).pending == p && Behind(p, c, w).fs == w.fs && Behind(p, c, w).status == w.status
  {
    assert p + [] == p;
  }

  lemma WriteStarts(s: Fs, f: nat, off: nat, data: seq<Byte>, j: bool)
    requires Inv(s) && f < |s.inodes|
    ensures WriteLoop(s, f, off, data, j) == Behind([], 0, WriteLoop(s, f, off + 0, data[0..], j))
  {
    assert data[0..] == data;
    var w := WriteLoop(s, f, off, data, j);
    assert [] + w.pending == w.pending;
  }

  lemma WriteEnds(s: Fs, f: nat, off: nat, data: seq<Byte>, j: bool, p: seq<Write>, c: nat)
    requires Inv(s) && f < |s.inodes| && data == []
    ensures Behind(p, c, WriteLoop(s, f, off, data, j)) == Written(s, p, c, Ok(()))
  {
    assert p + [] == p;
  }

  /** Nothing of the old block shows through a whole new one. */
  lemma WholeBlock(a: Block, b: Block, bytes: seq<Byte>)
    requires |bytes| == BLOCK_SIZE
    ensures Patch(a, 0, bytes) == Patch(b, 0, bytes)
  {}

  /** The patched block a round delivers. */
  function Patched(s: Fs, f: nat, off: nat, data: seq<Byte>): Block
    requires Inv(s) && f < |s.inodes| && data != []
  {
    var (t, m) := FileMap.Bmap(s, f, off, true);
    if m.At? && m.block < |t.disk| then Patch(t.disk[m.block], off % BLOCK_SIZE, data[..ChunkLen(off, |data|)])
      else ZeroBlock()
  }

  /** State after a round. */
  function Afterwards(s: Fs, f: nat, off: nat, data: seq<Byte>, j: bool): Fs
    requires Inv(s) && f < |s.inodes| && data != []
  {
    var (t, m) := FileMap.Bmap(s, f, off, true);
    if m.At? && m.block < |t.disk| && !j then WithBlock(t, m.block, Patched(s, f, off, data)) else t
  }

  /** What a round hands to the transaction. */
  function Handed(s: Fs, f: nat, off: nat, data: seq<Byte>, j: bool): seq<Write>
    requires Inv(s) && f < |s.inodes| && data != []
  {
    var m := FileMap.Bmap(s, f, off, true).1;
    if m.At? && j then [Blocks.Write.Write(m.block, Patched(s, f, off, data))] else []
  }

  ghost predicate RoundOf(s: Fs, f: nat, off: nat, data: seq<Byte>, j: bool)
    requires Inv(s) && f < |s.inodes| && data != []
  {
    var (t, m) := FileMap.Bmap(s, f, off, true);
    var w, k := WriteLoop(s, f, off, data, j), ChunkLen(off, |data|);
    var u := Afterwards(s, f, off, data, j);
    && Inv(u) && |u.inodes| == |s.inodes|
    && (m == NoSpace ==> w == Written(u, [], 0, NoSpaceErr))
    && (m == BadOffset ==> w == Written(u, [], 0, InvalidErr))
    && (m.At? ==>
          && m.block < |t.disk|
          && w == Behind(Handed(s, f, off, data, j), k, WriteLoop(u, f, off + k, data[k..], j)))
  }

  /** Blocks that a transfer of `n` bytes at `off` touches, as the loops count them. */
  function Chunks(off: nat, n: nat): (c: nat)
    decreases n
  {
    if n == 0 then 0 else 1 + Chunks(off + ChunkLen(off, n), n - ChunkLen(off, n))
  }

  /** What the first `total` of `n` bytes at `off` have cost the cache. */
  ghost predicate Spent(d: Dev, e: Dev, off: nat, n: nat, total: nat) {
    && NoNewStale(d, e) && total <= n
    && exists rounds: nat :: SpentRounds(d, e, rounds) && rounds + Chunks(off + total, n - total) == Chunks(off, n)
  }

  ghost predicate SpentRounds(d: Dev, e: Dev, rounds: nat) { StaysCached(d, e, 11 * rounds) }

  lemma NothingSpent(d: Dev, off: nat, n: nat)
    ensures Spent(d, d, off, n, 0)
  {
    assert SpentRounds(d, d, 0);
    assert off + 0 == off && n - 0 == n;
  }

  lemma AllSpent(d: Dev, e: Dev, off: nat, n: nat, total: nat)
    requires Spent(d, e, off, n, total)
    ensures NoNewStale(d, e) && StaysCached(d, e, 11 * Chunks(off, n))
  {
    hide NoNewStale, Chunks, StaysCached;
    var rounds: nat :| SpentRounds(d, e, rounds) && rounds + Chunks(off + total, n - total) == Chunks(off, n);
    StaysCachedMore(d, e, 11 * rounds, 11 * Chunks(off, n));
  }

  /** The cache after another round of the write loop, be it the last. */
  lemma OneMoreRound(d: Dev, e: Dev, f: Dev, off: nat, n: nat, total: nat)
    requires Spent(d, e, off, n, total) && NoNewStale(e, f) && StaysCached(e, f, 11) && total < n
    ensures Spent(d, f, off, n, total + ChunkLen(off + total, n - total))
    ensures NoNewStale(d, f) && StaysCached(d, f, 11 * Chunks(off, n))
  {
    hide Stale, StaysCached;
    var k := ChunkLen(off + total, n - total);
    var rounds: nat :| SpentRounds(d, e, rounds) && rounds + Chunks(off + total, n - total) == Chunks(off, n);
    StaysCachedThen(d, e, f, 11 * rounds, 11);
    assert SpentRounds(d, f, rounds + 1);
    assert off + total + k == off + (total + k) && n - total - k == n - (total + k);
    AllSpent(d, f, off, n, total + k);
  }

  lemma {:induction false} ChunksAre(off: nat, n: nat)
    ensures Chunks(off, n) == if n == 0 then 0 else (off + n - 1) / BLOCK_SIZE - off / BLOCK_SIZE + 1
    decreases n
  {
    if n > 0 {
      var k := ChunkLen(off, n);
      ChunksAre(off + k, n - k);
      if k < n { assert (off + k) / BLOCK_SIZE == off / BLOCK_SIZE + 1; }
      DivModIn(off, k - 1);
    }
  }

  /** One round of the write loop, as the value function has it. */
  lemma WriteRound(s: Fs, f: nat, off: nat, data: seq<Byte>, j: bool)
    requires Inv(s) && f < |s.inodes| && data != []
    ensures RoundOf(s, f, off, data, j)
    ensures var (t, m) := FileMap.Bmap(s, f, off, true);
            Inv(t) && |t.inodes| == |s.inodes| && (m.At? ==> m.block < |t.disk|)
  {
    hide Ptr, Inv, FileMap.Bmap, Patch, Extends, BlockTree.Counted;
    var (t, m) := FileMap.Bmap(s, f, off, true);
    BmapKeeps(s, f, off);
    BmapInv(s, f, off);
    if m.At? {
      InvShaped(t);
      DataWriteKeeps(t, DataLoc(f, BlockIdx(off)), Patched(s, f, off, data));
    }
  }

  /** The loop goes on behind a round, or ends with it. */
  lemma RoundLeaves(s: Fs, f: nat, off: nat, data: seq<Byte>, j: bool, pending: seq<Write>, total: nat)
    requires Inv(s) && f < |s.inodes| && data != [] && RoundOf(s, f, off, data, j)
    ensures var m, w, u :=
      FileMap.Bmap(s, f, off, true).1, WriteLoop(s, f, off, data, j), Afterwards(s, f, off, data, j);
            var k := ChunkLen(off, |data|);
            && Inv(u) && |u.inodes| == |s.inodes|
            && (m.At? ==>
                  Behind(pending, total, w)
                  == Behind(pending + Handed(s, f, off, data, j), total + k, WriteLoop(u, f, off + k, data[k..], j)))
            && (!m.At? ==>
                  var end := Behind(pending, total, w);
                  && end.fs == u && end.pending == pending
                  && end.status == (if m == NoSpace then NoSpaceErr else InvalidErr)
                  && Handed(s, f, off, data, j) == [])
  {
    hide FileMap.Bmap, WriteLoop, Afterwards, Inv;
    var m, w, u := FileMap.Bmap(s, f, off, true).1, WriteLoop(s, f, off, data, j), Afterwards(s, f, off, data, j);
    if m.At? {
      var k := ChunkLen(off, |data|);
      BehindTwice(pending, total, Handed(s, f, off, data, j), k, WriteLoop(u, f, off + k, data[k..], j));
    } else {
      BehindError(pending, total, w);
    }
  }

  /** The loop does not touch the size. */
  lemma {:induction false} WriteKeepsSize(s: Fs, f: nat, off: nat, data: seq<Byte>, j: bool)
    requires Inv(s) && f < |s.inodes|
    ensures WriteLoop(s, f, off, data, j).fs.inodes[f].size == s.inodes[f].size
    decreases |data|
  {
    hide Ptr, Inv, FileMap.Bmap, Patch, BlockTree.Counted;
    if data != [] {
      var (t, m) := FileMap.Bmap(s, f, off, true);
      BmapKeeps(s, f, off);
      WriteRound(s, f, off, data, j);
      if m.At? {
        var k := ChunkLen(off, |data|);
        WriteKeepsSize(Afterwards(s, f, off, data, j), f, off + k, data[k..], j);
      }
    }
  }

  lemma StillWritable(t: Fs, d: Dev, e: Dev)
    requires NoNewStale(d, e)
    ensures FreeWritable(t, d) ==> FreeWritable(t, e)
    ensures NothingStale(d) ==> NothingStale(e)
  {
    hide Stale;
  }

  lemma SizedUsed(s: Fs, f: nat, size: nat)
    requires f < |s.inodes|
    ensures WithSize(s, f, size).used == s.used && WithSize(s, f, size).dataStart == s.dataStart
  {}

  lemma SameUsedWritable(s: Fs, t: Fs, d: Dev)
    requires FreeWritable(s, d) && t.used == s.used && t.dataStart == s.dataStart
    ensures FreeWritable(t, d)
  {
    hide Stale;
    forall b: nat | IsFree(t, b) ensures !Stale(d, b) { assert IsFree(s, b); }
  }

  lemma InodeWriteIs(s: Fs, f: nat, off: nat, data: seq<Byte>, j: bool)
    requires Inv(s) && f < |s.inodes|
    ensures var l, w := WriteLoop(s, f, off, data, j), InodeWrite(s, f, off, data, j);
            && w.pending == l.pending && w.status == l.status && |l.fs.inodes| == |s.inodes|
            && l.fs.inodes[f].size == s.inodes[f].size
            && w.fs == if l.status.Ok? && off + |data| > s.inodes[f].size then WithSize(l.fs, f, off + |data|) else l.fs
  {
    hide Inv, WriteLoop;
    WriteKeepsSize(s, f, off, data, j);
  }

  lemma BmapInv(s: Fs, f: nat, off: nat)
    requires Inv(s) && f < |s.inodes| && Extends(s, FileMap.Bmap(s, f, off, true).0)
    ensures Inv(FileMap.Bmap(s, f, off, true).0) && |FileMap.Bmap(s, f, off, true).0.inodes| == |s.inodes|
  {}

  class InodeLayer {
    const dev: BlockDevice
    const balloc: BlockAllocator

    constructor (dev: BlockDevice, balloc: BlockAllocator)
      ensures this.dev == dev && this.balloc == balloc
    {
      this.dev, this.balloc := dev, balloc;
    }

    ghost predicate Valid()
      reads this, dev, dev.disk`blocks, dev.cache, dev.cache.lru, dev.cache.lru.nodes, dev.cache.table
      reads dev.cache.table.buckets
      reads balloc, balloc.bitmap
    {
      dev.Valid() && balloc.Valid() && {balloc, balloc.bitmap} !! dev.Repr()
    }

    /** The file system as values: the flat disk clients see, the bitmap, the inode table with this inode. */
    ghost function Abs(ino: Inode, table: seq<DiskInode>): Fs
      requires Valid() && ino.inum < |table|
      reads this, dev, dev.disk`blocks, dev.cache, dev.cache.lru, dev.cache.lru.nodes, dev.cache.table
      reads dev.cache.table.buckets
      reads balloc, balloc.bitmap, ino`disk, ino`inum
    {
      Fs(Views(dev.Model()), balloc.dataStart, balloc.Used(), table[ino.inum := ino.disk])
    }

    lemma AbsFacts(ino: Inode, table: seq<DiskInode>)
      requires Valid() && ino.inum < |table|
      ensures var s := Abs(ino, table);
              && s.inodes == table[ino.inum := ino.disk] && s.inodes[ino.inum] == ino.disk
              && s.disk == Views(dev.Model()) && |s.disk| == |dev.disk.blocks|
              && s.dataStart == balloc.dataStart && s.used == balloc.Used()
    {}

    /** `blkdev_read`, as the file system sees it. */
    method ReadBlock(b: Word, ghost ino: Inode, ghost table: seq<DiskInode>) returns (block: Block)
      requires Valid() && ino.inum < |table| && b < |Abs(ino, table).disk|
      modifies dev.Repr()
      ensures unchanged(ino) && Valid() && fresh(dev.Repr() - old(dev.Repr()))
      ensures NoNewStale(old(dev.Model()), dev.Model())
      ensures StaysCached(old(dev.Model()), dev.Model(), 1)
      ensures Abs(ino, table) == old(Abs(ino, table)) && block == Abs(ino, table).disk[b] && !Stale(dev.Model(), b)
    {
      hide BlockDevice.Valid, BlockDevice.Model, BlockAllocator.Valid, BlockAllocator.Used, Views, View, Stale;
      hide ReadStep, NoNewStale;
      AbsFacts(ino, table);
      var out := dev.Read(b);
      block := out.value;
    }

    /** `blkdev_write` of a block that is not in an invalidated buffer. */
    method WriteBlock(b: Word, data: Block, ghost ino: Inode, ghost table: seq<DiskInode>)
      requires Valid() && ino.inum < |table| && b < |Abs(ino, table).disk| && !Stale(dev.Model(), b)
      modifies dev.disk, dev.Repr()
      ensures unchanged(ino) && Valid() && fresh(dev.Repr() - old(dev.Repr()))
      ensures NoNewStale(old(dev.Model()), dev.Model())
      ensures StaysCached(old(dev.Model()), dev.Model(), 1)
      ensures Abs(ino, table) == old(Abs(ino, table)).(disk := old(Abs(ino, table)).disk[b := data])
    {
      hide BlockDevice.Valid, BlockDevice.Model, BlockAllocator.Valid, BlockAllocator.Used, Views, View, Stale;
      hide WriteStep, NoNewStale;
      AbsFacts(ino, table);
      var _ := dev.Write(b, data);
    }

    /** What pointer `l` holds now; for one kept in an index block, `buf` is that block as just read. */
    method Peek(ino: Inode, l: Loc, holder: Word, ghost table: seq<DiskInode>) returns (b: Word, buf: Block)
      requires Valid() && l.f == ino.inum < |table| && Holds(Abs(ino, table), l, holder)
      modifies dev.Repr()
      ensures unchanged(ino) && Valid() && fresh(dev.Repr() - old(dev.Repr()))
      ensures NoNewStale(old(dev.Model()), dev.Model())
      ensures StaysCached(old(dev.Model()), dev.Model(), 1)
      ensures Abs(ino, table) == old(Abs(ino, table)) && b == Ptr(Abs(ino, table), l)
      ensures !InInode(l) ==> buf == Abs(ino, table).disk[holder] && !Stale(dev.Model(), holder)
    {
      hide Valid, BlockDevice.Valid, BlockDevice.Model, Views, Stale, EntryOf, Abs;
      AbsFacts(ino, table);
      if InInode(l) {
        return RootPtr(ino.disk, l), ZeroBlock();
      }
      buf := ReadBlock(holder, ino, table);
      b := EntryOf(buf, Index(l));
    }

    /** Store `b` at `l`, count it, and clear it if it is to hold pointers. */
    method Hang(ino: Inode, l: Loc, holder: Word, buf: Block, b: Word, ghost table: seq<DiskInode>)
      requires Valid() && l.f == ino.inum < |table| && IsLoc(Abs(ino, table), l) && |ino.disk.direct| == DIRECT_BLOCKS
      requires !InInode(l) ==> holder < |Abs(ino, table).disk| && !Stale(dev.Model(), holder)
      requires b < |Abs(ino, table).disk| && !Stale(dev.Model(), b)
      modifies ino`disk, ino`dirty, dev.disk, dev.Repr()
      ensures ino.dirty
      ensures ino.inum == old(ino.inum) && Valid() && fresh(dev.Repr() - old(dev.Repr()))
      ensures NoNewStale(old(dev.Model()), dev.Model())
      ensures StaysCached(old(dev.Model()), dev.Model(), 2)
      ensures Abs(ino, table) == Hung(old(Abs(ino, table)), l, holder, buf, b)
    {
      hide Valid, BlockDevice.Valid, BlockDevice.Model, Views, Stale, WithEntry, OneMore, Abs;
      AbsFacts(ino, table);
      if !InInode(l) {
        WriteBlock(holder, WithEntry(buf, Index(l), b), ino, table);
      }
      Count(ino, l, b, table);
      if !IsData(l) {
        WriteBlock(b, ZeroBlock(), ino, table);
      }
    }

    method Count(ino: Inode, l: Loc, b: Word, ghost table: seq<DiskInode>)
      requires Valid() && l.f == ino.inum < |table| && |ino.disk.direct| == DIRECT_BLOCKS
      requires l.Direct? ==> l.i < DIRECT_BLOCKS
      modifies ino`disk, ino`dirty
      ensures Valid() && ino.dirty
      ensures Abs(ino, table) == old(Abs(ino, table)).(inodes := table[l.f := OneMore(old(ino.disk), l, b)])
    {
      hide BlockDevice.Valid, BlockAllocator.Valid, BlockAllocator.Used, Views;
      if InInode(l) {
        ino.disk := WithRoot(ino.disk, l, b);
      }
      ino.disk := ino.disk.(blocks := ino.disk.blocks + 1);
      ino.dirty := true;
    }

    /** `block_alloc`, as the file system sees it. */
    method AllocBlock(ghost ino: Inode, ghost table: seq<DiskInode>) returns (b: Word)
      requires Valid() && ino.inum < |table|
      modifies balloc, balloc.bitmap
      ensures Valid() && dev.Model() == old(dev.Model()) && dev.Repr() == old(dev.Repr())
      ensures var s := old(Abs(ino, table));
              var k := FirstFree(s.used);
              && (k == |s.used| ==> b == 0 && Abs(ino, table) == s)
              && (k < |s.used| ==> b == s.dataStart + k && Abs(ino, table) == s.(used := s.used[k := true]))
    {
      hide BlockDevice.Valid, BlockDevice.Model, BlockAllocator.Used, Views, FirstFree;
      b := balloc.Alloc();
    }

    /** One step of `inode_bmap`: the block at `l`, allocated on demand. */
    method Resolve(ino: Inode, l: Loc, holder: Word, alloc: bool, ghost s: Fs, ghost table: seq<DiskInode>)
      returns (m: Mapped)
      requires Holds(s, l, holder) && (alloc ==> Inv(s))
      requires Valid() && l.f == ino.inum < |table| && Abs(ino, table) == s && (alloc ==> FreeWritable(s, dev.Model()))
      modifies ino`disk, ino`dirty, dev.disk, dev.Repr(), balloc, balloc.bitmap
      ensures unchanged(ino) || (alloc && ino.dirty)
      ensures ino.inum == old(ino.inum) && Valid() && fresh(dev.Repr() - old(dev.Repr()))
      ensures NoNewStale(old(dev.Model()), dev.Model())
      ensures StaysCached(old(dev.Model()), dev.Model(), 3)
      ensures !alloc ==> Abs(ino, table) == s && m == At(Ptr(s, l))
      ensures alloc ==> Resolved(s, l, Abs(ino, table), m) && FreeWritable(Abs(ino, table), dev.Model())
    {
      hide Valid, BlockDevice.Valid, BlockDevice.Model, Views, Stale, Abs, Ptr, Hung, Inv, FirstFree, Graft;
      hide FreeWritable, Resolved;
      ghost var d := dev.Model();
      AbsFacts(ino, table);
      var b, buf := Peek(ino, l, holder, table);
      if alloc { StaysWritable(s, d, s, dev.Model()); }
      if b != 0 || !alloc {
        if alloc { ResolvedThere(s, l); }
        return At(b);
      }
      m := Grow(ino, l, holder, buf, s, table);
    }

    /** Allocate a block for an empty pointer. */
    method Grow(ino: Inode, l: Loc, holder: Word, buf: Block, ghost s: Fs, ghost table: seq<DiskInode>)
      returns (m: Mapped)
      requires Holds(s, l, holder) && Inv(s) && Ptr(s, l) == 0 && FreeWritable(s, dev.Model())
      requires Valid() && l.f == ino.inum < |table| && Abs(ino, table) == s
      requires !InInode(l) ==> buf == s.disk[holder] && !Stale(dev.Model(), holder)
      modifies ino`disk, ino`dirty, dev.disk, dev.Repr(), balloc, balloc.bitmap
      ensures ino.dirty || unchanged(ino)
      ensures ino.inum == old(ino.inum) && Valid() && fresh(dev.Repr() - old(dev.Repr()))
      ensures NoNewStale(old(dev.Model()), dev.Model())
      ensures StaysCached(old(dev.Model()), dev.Model(), 2)
      ensures Resolved(s, l, Abs(ino, table), m) && FreeWritable(Abs(ino, table), dev.Model())
    {
      hide Valid, BlockDevice.Valid, BlockDevice.Model, Views, Stale, Abs, Ptr, Inv, FirstFree, FreeWritable, Resolved;
      AbsFacts(ino, table);
      InvShaped(s);
      var b := AllocBlock(ino, table);
      if b == 0 {
        ResolvedThere(s, l);
        return NoSpace;
      }
      Occupy(ino, l, holder, buf, b, s, table);
      m := At(b);
    }

    /** The block just allocated takes its place in the tree. */
    method Occupy(ino: Inode, l: Loc, holder: Word, buf: Block, b: Word, ghost s: Fs, ghost table: seq<DiskInode>)
      requires Holds(s, l, holder) && Inv(s) && Ptr(s, l) == 0 && FreeWritable(s, dev.Model())
      requires Valid() && l.f == ino.inum < |table| && FirstFree(s.used) < |s.used|
      requires b == s.dataStart + FirstFree(s.used)
      requires Abs(ino, table) == s.(used := s.used[FirstFree(s.used) := true])
      requires !InInode(l) ==> buf == s.disk[holder] && !Stale(dev.Model(), holder)
      modifies ino`disk, ino`dirty, dev.disk, dev.Repr()
      ensures ino.dirty
      ensures ino.inum == old(ino.inum) && Valid() && fresh(dev.Repr() - old(dev.Repr()))
      ensures NoNewStale(old(dev.Model()), dev.Model())
      ensures StaysCached(old(dev.Model()), dev.Model(), 2)
      ensures Resolved(s, l, Abs(ino, table), At(b)) && FreeWritable(Abs(ino, table), dev.Model())
    {
      hide Valid, BlockDevice.Valid, BlockDevice.Model, Views, Stale, Abs, Ptr, Hung, Inv, FirstFree, Graft;
      hide FreeWritable, Resolved;
      ghost var d := dev.Model();
      AbsFacts(ino, table);
      EnsureIs(s, l, holder, buf);
      assert !Stale(dev.Model(), b) by { FreeIsWritable(s, dev.Model(), b); }
      Hang(ino, l, holder, buf, b, table);
      HungUsed(s.(used := s.used[FirstFree(s.used) := true]), l, holder, buf, b);
      StaysWritable(s, d, Abs(ino, table), dev.Model());
    }

    /** One pointer of the chain that leads to logical block `idx`; `c` is what remains of the chain. */
    method Step(ino: Inode, l: Loc, holder: Word, alloc: bool, ghost s: Fs, ghost idx: nat, ghost c: seq<Loc>,
                ghost table: seq<DiskInode>)
      returns (m: Mapped)
      requires Valid() && l.f == ino.inum < |table| && ino.inum < |s.inodes| && idx < MAX_BLOCKS
      requires Holds(Abs(ino, table), l, holder) && (!alloc ==> Abs(ino, table) == s)
      requires alloc ==> Walked(s, ino.inum, idx, Abs(ino, table), c) && c != [] && c[0] == l
      requires alloc ==> FreeWritable(Abs(ino, table), dev.Model())
      modifies ino`disk, ino`dirty, dev.disk, dev.Repr(), balloc, balloc.bitmap
      ensures unchanged(ino) || (alloc && ino.dirty)
      ensures ino.inum == old(ino.inum) && Valid() && fresh(dev.Repr() - old(dev.Repr()))
      ensures NoNewStale(old(dev.Model()), dev.Model())
      ensures StaysCached(old(dev.Model()), dev.Model(), 3)
      ensures !alloc ==> Abs(ino, table) == s && m == At(Ptr(s, l))
      ensures alloc ==> FreeWritable(Abs(ino, table), dev.Model())
      ensures alloc ==> Stepped(s, ino.inum, idx, c, Abs(ino, table), m)
    {
      hide Valid, BlockDevice.Valid, BlockDevice.Model, Views, Stale, Abs, Ptr, Inv, FreeWritable, Resolved, EnsureAll;
      hide IsChain, Holds, Chain;
      ghost var r := Abs(ino, table);
      m := Resolve(ino, l, holder, alloc, r, table);
      if alloc { WalkStep(s, ino.inum, idx, r, c, Abs(ino, table), m); }
    }

    /** `inode_bmap`. */
    method Bmap(ino: Inode, offset: nat, alloc: bool, ghost s: Fs, ghost table: seq<DiskInode>) returns (m: Mapped)
      requires InReach(s) && (alloc ==> Inv(s)) && ino.inum < |s.inodes|
      requires Valid() && ino.inum < |table| && Abs(ino, table) == s && (alloc ==> FreeWritable(s, dev.Model()))
      modifies ino`disk, ino`dirty, dev.disk, dev.Repr(), balloc, balloc.bitmap
      ensures unchanged(ino) || (alloc && ino.dirty)
      ensures ino.inum == old(ino.inum) && Valid() && fresh(dev.Repr() - old(dev.Repr()))
      ensures NoNewStale(old(dev.Model()), dev.Model())
      ensures StaysCached(old(dev.Model()), dev.Model(), 9)
      ensures !alloc ==> Abs(ino, table) == s && m == Lookup(s, ino.inum, offset)
      ensures alloc ==> FreeWritable(Abs(ino, table), dev.Model())
      ensures alloc ==> (Abs(ino, table), m) == FileMap.Bmap(s, ino.inum, offset, true)
    {
      hide Valid, BlockDevice.Valid, BlockDevice.Model, Views, Stale, Abs, Ptr, Inv, FreeWritable, InReach, Walked;
      hide EnsureAll, IsChain, Holds;
      hide Stepped, FileMap.Bmap, Lookup, Chain, DataLoc;
      var f := ino.inum;
      ReachShaped(s);
      var idx := offset / BLOCK_SIZE % 0x1_0000_0000;
      if idx >= MAX_BLOCKS {
        OutOfRange(s, f, offset);
        return BadOffset;
      }
      ghost var i: nat := idx;
      ghost var c := Chain(f, i);
      if alloc { WalkStarts(s, f, i); }
      ChainParts(s, f, i);
      if idx < DIRECT_BLOCKS {
        m := Step(ino, Direct(f, idx), 0, alloc, s, i, c, table);
        BmapEnds(s, f, offset, c, Abs(ino, table), m, alloc);
        return;
      }
      idx := idx - DIRECT_BLOCKS;
      if idx < PER_BLOCK {
        m := Step(ino, Ind(f), 0, alloc, s, i, c, table);
        BmapGoesOn(s, f, offset, c, 0, Abs(ino, table), m, alloc);
        if !m.At? || m.block == 0 {
          return;
        }
        m := Step(ino, IndEntry(f, idx), m.block, alloc, s, i, c[1..], table);
        BmapEnds(s, f, offset, c[1..], Abs(ino, table), m, alloc);
        return;
      }
      m := BmapDouble(ino, idx - PER_BLOCK, offset, alloc, s, c, table);
    }

    /** Behind the single indirect block: three pointers to follow. */
    method BmapDouble(ino: Inode, idx: nat, offset: nat, alloc: bool, ghost s: Fs, ghost c: seq<Loc>,
                      ghost table: seq<DiskInode>)
      returns (m: Mapped)
      requires InReach(s) && (alloc ==> Inv(s)) && ino.inum < |s.inodes|
      requires Valid() && ino.inum < |table| && Abs(ino, table) == s && (alloc ==> FreeWritable(s, dev.Model()))
      requires BlockIdx(offset) == idx + DIRECT_BLOCKS + PER_BLOCK < MAX_BLOCKS
      requires c == Chain(ino.inum, BlockIdx(offset))
      modifies ino`disk, ino`dirty, dev.disk, dev.Repr(), balloc, balloc.bitmap
      ensures unchanged(ino) || (alloc && ino.dirty)
      ensures ino.inum == old(ino.inum) && Valid() && fresh(dev.Repr() - old(dev.Repr()))
      ensures NoNewStale(old(dev.Model()), dev.Model())
      ensures StaysCached(old(dev.Model()), dev.Model(), 9)
      ensures !alloc ==> Abs(ino, table) == s && m == Lookup(s, ino.inum, offset)
      ensures alloc ==> FreeWritable(Abs(ino, table), dev.Model())
      ensures alloc ==> (Abs(ino, table), m) == FileMap.Bmap(s, ino.inum, offset, true)
    {
      hide Valid, BlockDevice.Valid, BlockDevice.Model, Views, Stale, Abs, Ptr, Inv, FreeWritable, InReach, Walked;
      hide EnsureAll, IsChain, Holds;
      hide Stepped, FileMap.Bmap, Lookup, Chain, DataLoc;
      var f := ino.inum;
      ghost var i := BlockIdx(offset);
      ReachShaped(s);
      if alloc { WalkStarts(s, f, i); }
      ChainParts(s, f, i);
      m := Step(ino, Dbl(f), 0, alloc, s, i, c, table);
      BmapGoesOn(s, f, offset, c, 0, Abs(ino, table), m, alloc);
      if !m.At? || m.block == 0 {
        return;
      }
      m := Step(ino, DblEntry(f, idx / PER_BLOCK), m.block, alloc, s, i, c[1..], table);
      BmapGoesOn(s, f, offset, c, 1, Abs(ino, table), m, alloc);
      if !m.At? || m.block == 0 {
        return;
      }
      m := Step(ino, DblLeaf(f, idx / PER_BLOCK, idx % PER_BLOCK), m.block, alloc, s, i, c[2..], table);
      BmapEnds(s, f, offset, c[2..], Abs(ino, table), m, alloc);
    }

    /** `inode_read`. */
    method Read(ino: Inode, offset: nat, size: nat, ghost s: Fs, ghost table: seq<DiskInode>)
      returns (r: Result<seq<Byte>>)
      requires Inv(s) && ino.inum < |s.inodes|
      requires Valid() && ino.inum < |table| && Abs(ino, table) == s
      modifies ino`disk, ino`dirty, dev.disk, dev.Repr(), balloc, balloc.bitmap
      ensures unchanged(ino) && Valid() && fresh(dev.Repr() - old(dev.Repr()))
      ensures NoNewStale(old(dev.Model()), dev.Model())
      ensures Abs(ino, table) == s && r == InodeRead(s, ino.inum, offset, size)
      ensures FileRead.Answers(s, ino.inum, offset, size, r)
    {
      hide Valid, BlockDevice.Valid, BlockDevice.Model, Views, Stale, Abs, Ptr, Inv, FreeWritable, InReach, ReadLoop;
      hide Lookup, FileRead.Answers;
      var f := ino.inum;
      FileRead.ReadAnswers(s, f, offset, size);
      AbsFacts(ino, table);
      InvInReach(s, f, offset);
      if offset >= ino.disk.size {
        return Ok([]);
      }
      var n := if offset + size > ino.disk.size then ino.disk.size - offset else size;
      r := ReadRange(ino, offset, n, s, table);
    }

    /** The loop of `inode_read`. */
    method ReadRange(ino: Inode, offset: nat, n: nat, ghost s: Fs, ghost table: seq<DiskInode>)
      returns (r: Result<seq<Byte>>)
      requires Inv(s) && ino.inum < |s.inodes| && InReach(s)
      requires Valid() && ino.inum < |table| && Abs(ino, table) == s
      modifies ino`disk, ino`dirty, dev.disk, dev.Repr(), balloc, balloc.bitmap
      ensures unchanged(ino) && Valid() && fresh(dev.Repr() - old(dev.Repr()))
      ensures NoNewStale(old(dev.Model()), dev.Model())
      ensures Abs(ino, table) == s && r == ReadLoop(s, ino.inum, offset, n)
    {
      hide Valid, BlockDevice.Valid, BlockDevice.Model, Views, Stale, Abs, Ptr, Inv, FreeWritable, InReach, ReadLoop;
      hide Lookup, Prefixed;
      var f := ino.inum;
      var buf: seq<Byte>, total := [], 0;
      PrefixedNone(ReadLoop(s, f, offset, n));
      while total < n
        invariant total <= n && Valid() && Abs(ino, table) == s
        invariant unchanged(ino) && fresh(dev.Repr() - old(dev.Repr()))
        invariant NoNewStale(old(dev.Model()), dev.Model())
        invariant ReadLoop(s, f, offset, n) == Prefixed(buf, ReadLoop(s, f, offset + total, n - total))
      {
        var cur := offset + total;
        var from := cur % BLOCK_SIZE;
        var k := BLOCK_SIZE - from;
        if k > n - total {
          k := n - total;
        }
        ReadRound(s, f, cur, n - total);
        var m := Bmap(ino, cur, false, s, table);
        if !m.At? {
          PrefixedError(buf);
          return InvalidErr;
        }
        var block := ZeroBlock();
        if m.block != 0 {
          block := ReadBlock(m.block, ino, table);
        }
        PrefixedTwice(buf, block[from..from + k], ReadLoop(s, f, cur + k, n - total - k));
        buf := buf + block[from..from + k];
        total := total + k;
      }
      ReadDone(s, f, offset + n, buf);
      r := Ok(buf);
    }

    /** `inode_write`: through a transaction, or without one straight to the device. */
    method Write(ino: Inode, data: seq<Byte>, offset: nat, txn: Journal.Transaction?, ghost s: Fs,
                 ghost table: seq<DiskInode>)
      returns (r: Result<nat>)
      requires Inv(s) && ino.inum < |s.inodes| && FreeWritable(s, dev.Model())
      requires Valid() && ino.inum < |table| && Abs(ino, table) == s
      requires if txn != null then txn.state == JournalRun.Active else NothingStale(dev.Model())
      modifies ino`disk, ino`dirty, dev.disk, dev.Repr(), balloc, balloc.bitmap, txn
      ensures (ino.dirty || (ino.disk == old(ino.disk) && !old(ino.dirty))) && (r.Ok? ==> ino.dirty)
      ensures ino.inum == old(ino.inum) && Valid() && fresh(dev.Repr() - old(dev.Repr()))
      ensures NoNewStale(old(dev.Model()), dev.Model())
      ensures StaysCached(old(dev.Model()), dev.Model(), 11 * Chunks(offset, |data|))
      ensures var w := InodeWrite(s, ino.inum, offset, data, txn != null);
              && Abs(ino, table) == w.fs && FreeWritable(w.fs, dev.Model())
              && (txn != null ==> txn.writes == old(txn.writes) + w.pending && txn.state == old(txn.state))
              && r == ReplyOf(w.status, |data|)
    {
      hide Valid, BlockDevice.Valid, BlockDevice.Model, Views, Stale, Abs, Ptr, Inv, FreeWritable, WriteLoop;
      hide InodeWrite, WithSize, NothingStale;
      hide BlockDevice.Repr;
      InodeWriteIs(s, ino.inum, offset, data, txn != null);
      AbsFacts(ino, table);
      assert Standing(ino, txn, s, table);
      r := WriteRange(ino, data, offset, txn, s, table);
      ghost var w := WriteLoop(s, ino.inum, offset, data, txn != null);
      StandingFacts(ino, txn, w.fs, table);
      AbsFacts(ino, table);
      if r.Ok? {
        if offset + |data| > ino.disk.size {
          SizedUsed(w.fs, ino.inum, offset + |data|);
          SameUsedWritable(w.fs, WithSize(w.fs, ino.inum, offset + |data|), dev.Model());
          Resize(ino, offset + |data|, table);
        }
        ino.dirty := true;
      }
    }

    method Resize(ino: Inode, size: nat, ghost table: seq<DiskInode>)
      requires Valid() && ino.inum < |table|
      modifies ino`disk
      ensures Valid() && Abs(ino, table) == WithSize(old(Abs(ino, table)), ino.inum, size)
    {
      hide BlockDevice.Valid, BlockAllocator.Valid, BlockAllocator.Used, Views;
      ino.disk := ino.disk.(size := size);
    }

    /** Between two rounds of the write loop: the file system is `t`, and the next block can be delivered. */
    ghost predicate Standing(ino: Inode, txn: Journal.Transaction?, t: Fs, table: seq<DiskInode>)
      reads this, dev, dev.disk`blocks, dev.cache, dev.cache.lru, dev.cache.lru.nodes, dev.cache.table
      reads dev.cache.table.buckets
      reads balloc, balloc.bitmap, ino`disk, ino`inum, txn
    {
      && Valid() && ino.inum < |table| && Abs(ino, table) == t
      && Inv(t) && ino.inum < |t.inodes| && FreeWritable(t, dev.Model())
      && if txn != null then txn.state == JournalRun.Active else NothingStale(dev.Model())
    }

    /** The loop of `inode_write`. */
    method WriteRange(ino: Inode, data: seq<Byte>, offset: nat, txn: Journal.Transaction?, ghost s: Fs,
                      ghost table: seq<DiskInode>)
      returns (r: Result<nat>)
      requires Standing(ino, txn, s, table)
      modifies ino`disk, ino`dirty, dev.disk, dev.Repr(), balloc, balloc.bitmap, txn
      ensures ino.dirty || (ino.disk == old(ino.disk) && !old(ino.dirty))
      ensures ino.inum == old(ino.inum) && fresh(dev.Repr() - old(dev.Repr()))
      ensures NoNewStale(old(dev.Model()), dev.Model())
      ensures StaysCached(old(dev.Model()), dev.Model(), 11 * Chunks(offset, |data|))
      ensures Inv(s) && ino.inum < |s.inodes|
      ensures var w := WriteLoop(s, ino.inum, offset, data, txn != null);
              && Standing(ino, txn, w.fs, table)
              && (txn != null ==> txn.writes == old(txn.writes) + w.pending)
              && r == ReplyOf(w.status, |data|)
    {
      hide Valid, BlockDevice.Valid, BlockDevice.Model, Abs, Inv, FreeWritable, WriteLoop, NothingStale, Behind;
      hide Standing;
      hide StaysCached, Chunks, NoNewStale, Spent, ChunkLen;
      StandingFacts(ino, txn, s, table);
      var f, total := ino.inum, 0;
      ghost var w, pending, t := WriteLoop(s, f, offset, data, txn != null), [], s;
      WriteStarts(s, f, offset, data, txn != null);
      NothingSpent(dev.Model(), offset, |data|);
      while total < |data|
        invariant total <= |data| && ino.inum == f && Standing(ino, txn, t, table) && Inv(t) && f < |t.inodes|
        invariant fresh(dev.Repr() - old(dev.Repr())) && Spent(old(dev.Model()), dev.Model(), offset, |data|, total)
        invariant ino.dirty || (ino.disk == old(ino.disk) && !old(ino.dirty))
        invariant txn != null ==> txn.writes == old(txn.writes) + pending
        invariant w == Behind(pending, total, WriteLoop(t, f, offset + total, data[total..], txn != null))
      {
        var k, m;
        ghost var more;
        k, m, t, more := NextChunk(ino, data, offset, total, txn, w, t, pending, old(dev.Model()), table);
        if !m.At? {
          return if m == NoSpace then NoSpaceErr else InvalidErr;
        }
        pending, total := pending + more, total + k;
      }
      WriteEnds(t, f, offset + total, data[total..], txn != null, pending, total);
      AllSpent(old(dev.Model()), dev.Model(), offset, |data|, total);
      r := Ok(|data|);
    }

    lemma StandingFacts(ino: Inode, txn: Journal.Transaction?, t: Fs, table: seq<DiskInode>)
      requires Standing(ino, txn, t, table)
      ensures Valid() && ino.inum < |table| && Abs(ino, table) == t
      ensures Inv(t) && ino.inum < |t.inodes| && FreeWritable(t, dev.Model())
      ensures if txn != null then txn.state == JournalRun.Active else NothingStale(dev.Model())
    {
      hide Valid, BlockDevice.Valid, BlockDevice.Model, Abs, Inv, FreeWritable, NothingStale;
    }

    /** One round, when `total` bytes are placed; `w` is what the loop comes to. */
    method NextChunk(ino: Inode, data: seq<Byte>, offset: nat, total: nat, txn: Journal.Transaction?,
                     ghost w: Written, ghost t: Fs, ghost pending: seq<Write>, ghost d: Dev,
                     ghost table: seq<DiskInode>)
      returns (k: nat, m: Mapped, ghost t': Fs, ghost more: seq<Write>)
      requires total < |data| && Standing(ino, txn, t, table) && Inv(t) && ino.inum < |t.inodes|
      requires w == Behind(pending, total, WriteLoop(t, ino.inum, offset + total, data[total..], txn != null))
      requires Spent(d, dev.Model(), offset, |data|, total)
      modifies ino`disk, ino`dirty, dev.disk, dev.Repr(), balloc, balloc.bitmap, txn
      ensures ino.dirty || unchanged(ino)
      ensures ino.inum == old(ino.inum) && fresh(dev.Repr() - old(dev.Repr()))
      ensures NoNewStale(d, dev.Model()) && StaysCached(d, dev.Model(), 11 * Chunks(offset, |data|))
      ensures Spent(d, dev.Model(), offset, |data|, total + k)
      ensures k == ChunkLen(offset + total, |data| - total) && Standing(ino, txn, t', table) && Inv(t')
      ensures |t'.inodes| == |t.inodes|
      ensures txn != null ==> txn.writes == old(txn.writes) + more
      ensures m.At? ==> w == Behind(pending + more, total + k,
        WriteLoop(t', ino.inum, offset + total + k, data[total + k..], txn != null))
      ensures !m.At? ==> w.fs == t' && w.pending == pending + more && w.status == if m == NoSpace then NoSpaceErr
        else InvalidErr
    {
      hide Valid, BlockDevice.Valid, BlockDevice.Model, Views, Stale, Abs, Ptr, Inv, FreeWritable, InReach, WriteLoop;
      hide NothingStale;
      hide FileMap.Bmap, Patch, Behind, RoundOf, Handed, Afterwards, View, StaysCached, NoNewStale, Spent, Chunks;
      var f := ino.inum;
      ghost var j, before := txn != null, dev.Model();
      k, m := WriteChunk(ino, data[total..], offset + total, txn, t, table);
      OneMoreRound(d, before, dev.Model(), offset, |data|, total);
      RoundLeaves(t, f, offset + total, data[total..], j, pending, total);
      assert data[total..][k..] == data[total + k..];
      t', more := Afterwards(t, f, offset + total, data[total..], j), Handed(t, f, offset + total, data[total..], j);
      assert pending + [] == pending && (txn != null ==> txn.writes + [] == txn.writes);
    }

    /** One round: map the block, read it unless it is replaced whole, patch it, deliver it. */
    method WriteChunk(ino: Inode, data: seq<Byte>, cur: nat, txn: Journal.Transaction?, ghost s: Fs,
                      ghost table: seq<DiskInode>)
      returns (k: nat, m: Mapped)
      requires data != [] && Inv(s) && ino.inum < |s.inodes| && FreeWritable(s, dev.Model())
      requires Valid() && ino.inum < |table| && Abs(ino, table) == s
      requires if txn != null then txn.state == JournalRun.Active else NothingStale(dev.Model())
      modifies ino`disk, ino`dirty, dev.disk, dev.Repr(), balloc, balloc.bitmap, txn
      ensures ino.dirty || unchanged(ino)
      ensures ino.inum == old(ino.inum) && Valid() && fresh(dev.Repr() - old(dev.Repr()))
      ensures NoNewStale(old(dev.Model()), dev.Model())
      ensures StaysCached(old(dev.Model()), dev.Model(), 11)
      ensures k == ChunkLen(cur, |data|) && m == FileMap.Bmap(s, ino.inum, cur, true).1
      ensures Abs(ino, table) == Afterwards(s, ino.inum, cur, data, txn != null)
      ensures FreeWritable(Abs(ino, table), dev.Model())
      ensures if txn != null then txn.state == JournalRun.Active else NothingStale(dev.Model())
      ensures txn != null ==> txn.writes == old(txn.writes) + Handed(s, ino.inum, cur, data, true)
      ensures RoundOf(s, ino.inum, cur, data, txn != null)
    {
      hide Valid, BlockDevice.Valid, BlockDevice.Model, Views, Stale, Abs, Ptr, Inv, FreeWritable, InReach, WriteLoop;
      hide NothingStale, FileMap.Bmap, Patch, Behind;
      hide RoundOf;
      var f := ino.inum;
      var from := cur % BLOCK_SIZE;
      k := BLOCK_SIZE - from;
      if k > |data| {
        k := |data|;
      }
      WriteRound(s, f, cur, data, txn != null);
      InvInReach(s, f, cur);
      ghost var t, d := FileMap.Bmap(s, f, cur, true).0, dev.Model();
      m := Bmap(ino, cur, true, s, table);
      StillWritable(t, d, dev.Model());
      if !m.At? {
        return;
      }
      var block := ZeroBlock();
      if from != 0 || k != BLOCK_SIZE {
        d := dev.Model();
        block := ReadBlock(m.block, ino, table);
        StillWritable(t, d, dev.Model());
      } else {
        WholeBlock(block, t.disk[m.block], data[..k]);
      }
      block := Patch(block, from, data[..k]);
      Deliver(m.block, block, ino, txn, t, table);
      SameUsedWritable(t, Afterwards(s, f, cur, data, txn != null), dev.Model());
    }

    /** A patched block goes to the transaction, or to the device when there is none. */
    method Deliver(b: Word, block: Block, ghost ino: Inode, txn: Journal.Transaction?, ghost t: Fs,
                   ghost table: seq<DiskInode>)
      requires Valid() && ino.inum < |table| && Abs(ino, table) == t && b < |t.disk| && FreeWritable(t, dev.Model())
      requires if txn != null then txn.state == JournalRun.Active else NothingStale(dev.Model())
      modifies dev.disk, dev.Repr(), txn
      ensures unchanged(ino) && Valid() && fresh(dev.Repr() - old(dev.Repr()))
      ensures NoNewStale(old(dev.Model()), dev.Model())
      ensures StaysCached(old(dev.Model()), dev.Model(), 1)
      ensures FreeWritable(t, dev.Model())
      ensures if txn != null then txn.state == JournalRun.Active else NothingStale(dev.Model())
      ensures txn != null ==> Abs(ino, table) == t && txn.writes == old(txn.writes) + [Blocks.Write.Write(b, block)]
      ensures txn == null ==> Abs(ino, table) == WithBlock(t, b, block)
    {
      hide BlockDevice.Valid, BlockDevice.Model, BlockAllocator.Valid, BlockAllocator.Used, Views, Stale;
      if txn != null {
        var _ := txn.WriteBlock(b, block);
      } else {
        WriteBlock(b, block, ino, table);
      }
    }

    /** `inode_truncate`. */
    method Truncate(ino: Inode, newSize: nat, ghost s: Fs, ghost table: seq<DiskInode>)
      requires InReach(s) && Shaped(s) && ino.inum < |s.inodes|
      requires Valid() && ino.inum < |table| && Abs(ino, table) == s
      modifies ino`disk, ino`dirty, dev.disk, dev.Repr(), balloc, balloc.bitmap
      ensures ino.dirty
      ensures ino.inum == old(ino.inum) && Valid() && fresh(dev.Repr() - old(dev.Repr()))
      ensures NoNewStale(old(dev.Model()), dev.Model())
      ensures Abs(ino, table) == FileTruncate.Truncate(s, ino.inum, newSize)
    {
      hide Valid, BlockDevice.Valid, BlockDevice.Model, Views, Stale, Abs, Ptr, Inv, InReach, TruncateLoop;
      hide TruncateRound, Shaped, Lookup;
      hide FileTruncate.Truncate, WithSize, BlockDevice.Repr;
      var f := ino.inum;
      AbsFacts(ino, table);
      TruncateIs(s, f, newSize);
      if newSize >= ino.disk.size {
        Resize(ino, newSize, table);
        ino.dirty := true;
        return;
      }
      var newBlocks := (newSize + BLOCK_SIZE - 1) / BLOCK_SIZE % 0x1_0000_0000;
      var oldBlocks := (ino.disk.size + BLOCK_SIZE - 1) / BLOCK_SIZE % 0x1_0000_0000;
      ReleaseRange(ino, newBlocks, oldBlocks, s, table);
      Resize(ino, newSize, table);
      ino.dirty := true;
    }

    /** The loop of `inode_truncate`. */
    method ReleaseRange(ino: Inode, from: nat, to: nat, ghost s: Fs, ghost table: seq<DiskInode>)
      requires InReach(s) && Shaped(s) && ino.inum < |s.inodes|
      requires Valid() && ino.inum < |table| && Abs(ino, table) == s
      modifies ino`disk, ino`dirty, dev.disk, dev.Repr(), balloc, balloc.bitmap
      ensures ino.inum == old(ino.inum) && Valid() && fresh(dev.Repr() - old(dev.Repr()))
      ensures NoNewStale(old(dev.Model()), dev.Model())
      ensures Abs(ino, table) == TruncateLoop(s, ino.inum, from, to)
    {
      hide Valid, BlockDevice.Valid, BlockDevice.Model, Views, Stale, Abs, Ptr, Inv, InReach, TruncateLoop;
      hide TruncateRound, Shaped, Lookup;
      var f, i := ino.inum, from;
      ghost var t := s;
      while i < to
        invariant Valid() && Abs(ino, table) == t
        invariant ino.inum == old(ino.inum) && fresh(dev.Repr() - old(dev.Repr()))
        invariant NoNewStale(old(dev.Model()), dev.Model())
        invariant InReach(t) && Shaped(t) && f < |t.inodes|
        invariant TruncateLoop(s, f, from, to) == TruncateLoop(t, f, i, to)
        decreases if i < to then to - i else 0
      {
        TruncateGoesOn(t, f, i, to);
        t := ReleaseOne(ino, i, t, table);
        i := i + 1;
      }
      TruncateDone(t, f, i, to);
    }

    /** One round: look the block up by its 32-bit offset, free it, count it off. */
    method ReleaseOne(ino: Inode, i: nat, ghost s: Fs, ghost table: seq<DiskInode>) returns (ghost t: Fs)
      requires InReach(s) && Shaped(s) && ino.inum < |s.inodes|
      requires Valid() && ino.inum < |table| && Abs(ino, table) == s
      modifies ino`disk, ino`dirty, dev.disk, dev.Repr(), balloc, balloc.bitmap
      ensures ino.inum == old(ino.inum) && Valid() && fresh(dev.Repr() - old(dev.Repr()))
      ensures NoNewStale(old(dev.Model()), dev.Model())
      ensures t == TruncateRound(s, ino.inum, i) && Abs(ino, table) == t
    {
      hide Valid, BlockDevice.Valid, BlockDevice.Model, Views, Stale, Abs, Ptr, InReach, Shaped, Lookup, FreeBlock;
      hide CountDown;
      t := TruncateRound(s, ino.inum, i);
      var m := Bmap(ino, i * BLOCK_SIZE % 0x1_0000_0000, false, s, table);
      if m.At? && m.block != 0 {
        Release(ino, m.block, table);
      }
    }

    /** `block_free`, whatever it says, and the block counter of the inode. */
    method Release(ino: Inode, b: Word, ghost table: seq<DiskInode>)
      requires Valid() && ino.inum < |table|
      modifies ino`disk, balloc, balloc.bitmap
      ensures Valid() && dev.Model() == old(dev.Model()) && dev.Repr() == old(dev.Repr())
      ensures Abs(ino, table) == CountDown(FreeBlock(old(Abs(ino, table)), b), ino.inum)
    {
      hide BlockDevice.Valid, BlockDevice.Model, BlockAllocator.Used, Views;
      var _ := balloc.Free(b);
      ino.disk := ino.disk.(blocks := if ino.disk.blocks == 0 then 0xFFFF_FFFF_FFFF_FFFF else ino.disk.blocks - 1);
    }
  }
}
