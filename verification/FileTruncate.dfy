/** `inode_truncate`: which blocks a shrinking truncate gives back, including what its 32-bit offset
    arithmetic does to files beyond 4 GiB, and what it leaves dangling. */
module FileTruncate {
  import opened Bits
  import opened Blocks
  import opened BlockTree
  import opened FileBytes

  const WRAP_BLOCKS: nat := 0x10_0000 // blocks in 4 GiB

  /** `block_free`, whose error return the caller ignores. */
  function FreeBlock(s: Fs, b: nat): Fs {
    if s.dataStart <= b < s.dataStart + |s.used| && s.used[b - s.dataStart] then
      s.(used := s.used[b - s.dataStart := false])
    else s
  }

  /** The counter is unsigned 64 bit. */
  function LessOne(n: nat): nat { if n == 0 then 0xFFFF_FFFF_FFFF_FFFF else n - 1 }

  function CountDown(s: Fs, f: nat): Fs
    requires f < |s.inodes|
  {
    s.(inodes := s.inodes[f := s.inodes[f].(blocks := LessOne(s.inodes[f].blocks))])
  }

  /** The logical block the loop asks `inode_bmap` for at step `i`: the byte offset is cut to 32 bits. */
  function AskedBlock(i: nat): nat { BlockIdx(i * BLOCK_SIZE % 0x1_0000_0000) }

  /** The loop body for `i`, `i + 1`, ..., `to - 1`. No round changes a pointer. */
  function TruncateLoop(s: Fs, f: nat, i: nat, to: nat): (r: Fs)
    requires Shaped(s) && f < |s.inodes|
    ensures Shaped(r) && |r.inodes| == |s.inodes|
    decreases if i < to then to - i else 0
  {
    if i >= to then s
    else
      var b := if AskedBlock(i) < MAX_BLOCKS then Ptr(s, DataLoc(f, AskedBlock(i))) else 0;
      TruncateLoop(if b != 0 then CountDown(FreeBlock(s, b), f) else s, f, i + 1, to)
  }

  function BlocksFor(size: nat): nat { (size + BLOCK_SIZE - 1) / BLOCK_SIZE % 0x1_0000_0000 }

  function Truncate(s: Fs, f: nat, newSize: nat): Fs
    requires Shaped(s) && f < |s.inodes|
  {
    var size := s.inodes[f].size;
    if newSize >= size then WithSize(s, f, newSize)
    else WithSize(TruncateLoop(s, f, BlocksFor(newSize), BlocksFor(size)), f, newSize)
  }

  // ---------- what the loop does ----------

  lemma AskedIs(i: nat)
    ensures AskedBlock(i) == i % WRAP_BLOCKS
  {
    var q, m := i / WRAP_BLOCKS, i % WRAP_BLOCKS;
    assert i * BLOCK_SIZE == m * BLOCK_SIZE + q * 0x1_0000_0000;
    ModShift(m * BLOCK_SIZE, q);
  }

  lemma ModShift(a: nat, q: nat)
    requires a < 0x1_0000_0000
    ensures (a + q * 0x1_0000_0000) % 0x1_0000_0000 == a
  {
    assert (a + q * 0x1_0000_0000) / 0x1_0000_0000 == q;
  }

  /** Some step of the loop frees block `b`. */
  ghost predicate Freed(s: Fs, f: nat, from: nat, to: nat, b: nat)
    requires Shaped(s) && f < |s.inodes|
  {
    b != 0 && exists i :: from <= i < to && Ptr(s, DataLoc(f, i % WRAP_BLOCKS)) == b
  }

  ghost predicate SameMap(s: Fs, r: Fs) {
    && Shaped(s) && Shaped(r) && r.disk == s.disk && r.dataStart == s.dataStart
    && |r.used| == |s.used| && |r.inodes| == |s.inodes|
    && forall x :: IsLoc(s, x) ==> Ptr(r, x) == Ptr(s, x)
  }

  lemma {:induction false} CountersPtr(s: Fs, r: Fs, x: Loc)
    requires Shaped(s) && Shaped(r) && r.disk == s.disk && |r.inodes| == |s.inodes| && IsLoc(s, x)
    requires forall g :: 0 <= g < |s.inodes| ==>
      r.inodes[g] == s.inodes[g].(blocks := r.inodes[g].blocks, size := r.inodes[g].size)
    ensures Ptr(r, x) == Ptr(s, x)
    decreases Depth(x)
  {
    if !InInode(x) { CountersPtr(s, r, Parent(x)); }
  }

  lemma BodySameMap(s: Fs, f: nat, b: nat)
    requires Shaped(s) && f < |s.inodes|
    ensures SameMap(s, CountDown(FreeBlock(s, b), f))
  {
    var r := CountDown(FreeBlock(s, b), f);
    forall x | IsLoc(s, x) ensures Ptr(r, x) == Ptr(s, x) { CountersPtr(s, r, x); }
  }

  /** Exactly the blocks named by the asked-for pointers are released; pointers, data and every other
      block stay as they were. */
  lemma {:induction false} TruncateLoopFrees(s: Fs, f: nat, i: nat, to: nat)
    requires Shaped(s) && f < |s.inodes|
    ensures SameMap(s, TruncateLoop(s, f, i, to))
    ensures forall b: nat :: Allocated(TruncateLoop(s, f, i, to), b) <==> Allocated(s, b) && !Freed(s, f, i, to, b)
    ensures forall g :: 0 <= g < |s.inodes| ==> TruncateLoop(s, f, i, to).inodes[g].size == s.inodes[g].size
    decreases if i < to then to - i else 0
  {
    hide Ptr;
    if i < to {
      AskedIs(i);
      var l := DataLoc(f, i % WRAP_BLOCKS);
      var b := Ptr(s, l);
      var t := if b != 0 then CountDown(FreeBlock(s, b), f) else s;
      BodySameMap(s, f, b);
      TruncateLoopFrees(t, f, i + 1, to);
      var r := TruncateLoop(t, f, i + 1, to);
      forall c: nat ensures Freed(s, f, i, to, c) <==> (c == b && b != 0) || Freed(t, f, i + 1, to, c) {
        FreedStep(s, t, f, i, to, c);
      }
    }
  }

  lemma FreedStep(s: Fs, t: Fs, f: nat, i: nat, to: nat, c: nat)
    requires i < to && f < |s.inodes| && SameMap(s, t)
    ensures Freed(s, f, i, to, c) <==> (c == Ptr(s, DataLoc(f, i % WRAP_BLOCKS)) && c != 0) || Freed(t, f, i + 1, to, c)
  {
    hide Ptr;
    forall j: nat ensures Ptr(t, DataLoc(f, j % WRAP_BLOCKS)) == Ptr(s, DataLoc(f, j % WRAP_BLOCKS)) {
      assert IsLoc(s, DataLoc(f, j % WRAP_BLOCKS));
    }
  }

  lemma SizeOnly(s: Fs, f: nat, size: nat)
    requires Shaped(s) && f < |s.inodes|
    ensures SameMap(s, WithSize(s, f, size))
  {
    forall x | IsLoc(s, x)
      ensures Ptr(WithSize(s, f, size), x) == Ptr(s, x)
    {
      CountersPtr(s, WithSize(s, f, size), x);
    }
  }

  lemma SameMapTrans(s: Fs, t: Fs, r: Fs)
    requires SameMap(s, t) && SameMap(t, r)
    ensures SameMap(s, r)
  {}

  /** A shrinking truncate of any file: what is released, what stays. */
  lemma ShrinkFrees(s: Fs, f: nat, newSize: nat)
    requires Shaped(s) && f < |s.inodes| && newSize < s.inodes[f].size
    ensures var r := Truncate(s, f, newSize);
            && SameMap(s, r) && r.inodes[f].size == newSize
            && forall b: nat :: Allocated(r, b) <==>
                 Allocated(s, b) && !Freed(s, f, BlocksFor(newSize), BlocksFor(s.inodes[f].size), b)
  {
    hide Ptr, Freed;
    var t := TruncateLoop(s, f, BlocksFor(newSize), BlocksFor(s.inodes[f].size));
    TruncateLoopFrees(s, f, BlocksFor(newSize), BlocksFor(s.inodes[f].size));
    SizeOnly(t, f, newSize);
    SameMapTrans(s, t, Truncate(s, f, newSize));
  }

  /** Truncating to the same or a larger size changes the size alone: no block is taken or released, no pointer moves,
      and the bytes that come to lie inside the file are what its blocks held already, not zeros. */
  lemma GrowChangesSize(s: Fs, f: nat, newSize: nat)
    requires Inv(s) && Shaped(s) && f < |s.inodes| && newSize >= s.inodes[f].size
    ensures var r := Truncate(s, f, newSize);
            && Inv(r) && SameMap(s, r) && r.used == s.used && |r.inodes| == |s.inodes|
            && (forall g :: 0 <= g < |s.inodes| ==>
                  r.inodes[g] == s.inodes[g].(size := if g == f then newSize else s.inodes[g].size))
            && (forall g, pos :: 0 <= g < |s.inodes| && 0 <= pos < MAX_BYTES ==>
                  FileByte(r, g, pos) == FileByte(s, g, pos))
  {
    hide Ptr, DataLoc, Inv;
    SizeOnly(s, f, newSize);
    SizeKeeps(s, f, newSize);
  }

  // ---------- up to 4 GiB ----------

  lemma BlocksForSmall(size: nat)
    requires size <= 0x1_0000_0000
    ensures BlocksFor(size) == (size + BLOCK_SIZE - 1) / BLOCK_SIZE <= WRAP_BLOCKS
  {}

  /** Up to 4 GiB the released blocks are exactly the mapped data blocks past the new end. */
  lemma SmallShrinkFrees(s: Fs, f: nat, newSize: nat, b: nat)
    requires Shaped(s) && f < |s.inodes| && newSize < s.inodes[f].size <= 0x1_0000_0000
    ensures BlocksFor(s.inodes[f].size) <= MAX_BLOCKS
    ensures Freed(s, f, BlocksFor(newSize), BlocksFor(s.inodes[f].size), b) <==>
      b != 0 && exists idx :: BlocksFor(newSize) <= idx < BlocksFor(s.inodes[f].size) && Ptr(s, DataLoc(f, idx)) == b
  {
    hide Ptr;
    BlocksForSmall(newSize);
    BlocksForSmall(s.inodes[f].size);
    var from, to := BlocksFor(newSize), BlocksFor(s.inodes[f].size);
    forall i: nat | from <= i < to ensures i % WRAP_BLOCKS == i {}
    if idx :| from <= idx < to && Ptr(s, DataLoc(f, idx)) == b {
      assert Ptr(s, DataLoc(f, idx % WRAP_BLOCKS)) == b;
    }
  }

  /** The same in bytes: a mapped block is released exactly when it begins at or past the new end and before the old. */
  lemma SmallShrinkByOffset(s: Fs, f: nat, newSize: nat, idx: nat)
    requires Inv(s) && Shaped(s) && f < |s.inodes| && newSize < s.inodes[f].size <= 0x1_0000_0000 && idx < MAX_BLOCKS
    requires Ptr(s, DataLoc(f, idx)) != 0
    ensures Allocated(Truncate(s, f, newSize), Ptr(s, DataLoc(f, idx))) <==>
      !(newSize <= idx * 4096 < s.inodes[f].size)
  {
    hide Ptr, Truncate, Inv;
    ShrinkFrees(s, f, newSize);
    FreedIffAsked(s, f, BlocksFor(newSize), BlocksFor(s.inodes[f].size), idx);
    BlocksForSmall(newSize);
    BlocksForSmall(s.inodes[f].size);
    forall i: nat | i < WRAP_BLOCKS ensures i % WRAP_BLOCKS == i {}
    if newSize <= idx * 4096 < s.inodes[f].size { assert idx % WRAP_BLOCKS == idx; }
  }

  /** Lower data blocks, index blocks and other files' blocks all stay allocated. */
  lemma SmallShrinkKeeps(s: Fs, f: nat, newSize: nat, l: Loc)
    requires Inv(s) && f < |s.inodes| && newSize < s.inodes[f].size <= 0x1_0000_0000
    requires IsLoc(s, l) && Ptr(s, l) != 0
    requires forall idx :: BlocksFor(newSize) <= idx < BlocksFor(s.inodes[f].size) && idx < MAX_BLOCKS ==>
      l != DataLoc(f, idx)
    ensures var r := Truncate(s, f, newSize); Ptr(r, l) == Ptr(s, l) && Allocated(r, Ptr(r, l))
  {
    hide Ptr, Truncate;
    ShrinkFrees(s, f, newSize);
    var b := Ptr(s, l);
    SmallShrinkFrees(s, f, newSize, b);
    forall idx | BlocksFor(newSize) <= idx < BlocksFor(s.inodes[f].size) ensures Ptr(s, DataLoc(f, idx)) != b {
      assert IsLoc(s, DataLoc(f, idx)) by { DataLocIsLoc(s, f, idx); }
      Separate(s, l, DataLoc(f, idx));
    }
  }

  lemma DataLocIsLoc(s: Fs, f: nat, idx: nat)
    requires f < |s.inodes| && idx < MAX_BLOCKS
    ensures IsLoc(s, DataLoc(f, idx))
  {}

  /** Mapped logical blocks in a range. */
  ghost function MappedIn(s: Fs, f: nat, from: nat, to: nat): (m: set<Loc>)
    requires Shaped(s) && f < |s.inodes| && to <= MAX_BLOCKS
    decreases if from < to then to - from else 0
  {
    if from >= to then {}
    else (if Ptr(s, DataLoc(f, from)) != 0 then {DataLoc(f, from)} else {}) + MappedIn(s, f, from + 1, to)
  }

  lemma {:induction false} MappedInIs(s: Fs, f: nat, from: nat, to: nat, l: Loc)
    requires Shaped(s) && f < |s.inodes| && to <= MAX_BLOCKS
    ensures l in MappedIn(s, f, from, to) <==> exists idx :: from <= idx < to && l == DataLoc(f, idx) && Ptr(s, l) != 0
    decreases if from < to then to - from else 0
  {
    hide Ptr;
    if from < to { MappedInIs(s, f, from + 1, to, l); }
  }

  lemma MappedInReach(s: Fs, f: nat, from: nat, to: nat)
    requires Shaped(s) && f < |s.inodes| && to <= MAX_BLOCKS
    ensures MappedIn(s, f, from, to) <= Reach(s, f)
  {
    forall l | l in MappedIn(s, f, from, to) ensures l in Reach(s, f) {
      MappedInIs(s, f, from, to, l);
      FileLocsAre(s, f, l);
    }
  }

  lemma CardLe(a: set<Loc>, b: set<Loc>)
    requires a <= b
    ensures |a| <= |b|
  {
    assert a + (b - a) == b;
    assert a * (b - a) == {};
  }

  /** State after the loop body for block `b`. */
  function AfterRound(s: Fs, f: nat, b: nat): (t: Fs)
    requires Shaped(s) && f < |s.inodes|
    ensures Shaped(t) && |t.inodes| == |s.inodes|
  {
    if b != 0 then CountDown(FreeBlock(s, b), f) else s
  }

  lemma TruncateStep(s: Fs, f: nat, i: nat, to: nat)
    requires Shaped(s) && f < |s.inodes| && i < to <= WRAP_BLOCKS
    ensures var b := Ptr(s, DataLoc(f, i));
            var t := AfterRound(s, f, b);
            && TruncateLoop(s, f, i, to) == TruncateLoop(t, f, i + 1, to)
            && SameMap(s, t)
            && t.inodes[f].blocks == if b != 0 then LessOne(s.inodes[f].blocks) else s.inodes[f].blocks
  {
    hide Ptr, DataLoc, Allocated, AskedBlock;
    AskedIs(i);
    BodySameMap(s, f, Ptr(s, DataLoc(f, i)));
  }

  lemma MappedStep(s: Fs, f: nat, i: nat, to: nat)
    requires Shaped(s) && f < |s.inodes| && i < to <= MAX_BLOCKS
    ensures |MappedIn(s, f, i, to)| == |MappedIn(s, f, i + 1, to)| + (if Ptr(s, DataLoc(f, i)) != 0 then 1 else 0)
  {
    hide Ptr;
    FirstNotLater(s, f, i, to);
  }

  lemma CountStep(s: Fs, f: nat, i: nat, to: nat)
    requires Shaped(s) && f < |s.inodes| && i < to <= WRAP_BLOCKS
    requires |MappedIn(s, f, i, to)| <= s.inodes[f].blocks
    ensures var t := AfterRound(s, f, Ptr(s, DataLoc(f, i)));
            && TruncateLoop(s, f, i, to) == TruncateLoop(t, f, i + 1, to)
            && t.inodes[f].blocks - |MappedIn(t, f, i + 1, to)| == s.inodes[f].blocks - |MappedIn(s, f, i, to)|
  {
    hide Ptr, DataLoc, TruncateLoop, MappedIn, AfterRound;
    TruncateStep(s, f, i, to);
    MappedStep(s, f, i, to);
    SameMapMapped(s, AfterRound(s, f, Ptr(s, DataLoc(f, i))), f, i + 1, to);
  }

  lemma CountBase(s: Fs, f: nat, to: nat)
    requires Shaped(s) && f < |s.inodes| && to <= WRAP_BLOCKS
    ensures TruncateLoop(s, f, to, to) == s && MappedIn(s, f, to, to) == {}
  {}

  /** Up to 4 GiB the counter falls by the number of mapped blocks in the range: each is counted once. */
  lemma {:induction false} TruncateLoopCounts(s: Fs, f: nat, i: nat, to: nat)
    requires Shaped(s) && f < |s.inodes| && i <= to <= WRAP_BLOCKS
    requires |MappedIn(s, f, i, to)| <= s.inodes[f].blocks
    ensures TruncateLoop(s, f, i, to).inodes[f].blocks == s.inodes[f].blocks - |MappedIn(s, f, i, to)|
    decreases if i < to then to - i else 0
  {
    hide Ptr, DataLoc, TruncateLoop, MappedIn, AfterRound, Shaped;
    if i == to {
      CountBase(s, f, to);
    } else {
      CountStep(s, f, i, to);
      TruncateLoopCounts(AfterRound(s, f, Ptr(s, DataLoc(f, i))), f, i + 1, to);
    }
  }

  /** A counter that was too low wraps round 64 bits. */
  lemma {:induction false} LoopCountsRound(s: Fs, f: nat, i: nat, to: nat)
    requires Shaped(s) && f < |s.inodes| && i <= to <= WRAP_BLOCKS
    requires s.inodes[f].blocks < 0x1_0000_0000_0000_0000
    ensures var n := TruncateLoop(s, f, i, to).inodes[f].blocks;
            && n < 0x1_0000_0000_0000_0000
            && (n + |MappedIn(s, f, i, to)|) % 0x1_0000_0000_0000_0000 == s.inodes[f].blocks
    decreases if i < to then to - i else 0
  {
    hide Ptr, DataLoc, TruncateLoop, MappedIn, AfterRound, Shaped;
    if i == to {
      CountBase(s, f, to);
    } else {
      var t := AfterRound(s, f, Ptr(s, DataLoc(f, i)));
      TruncateStep(s, f, i, to);
      LoopCountsRound(t, f, i + 1, to);
      MappedStep(s, f, i, to);
      SameMapMapped(s, t, f, i + 1, to);
    }
  }

  lemma {:induction false} SameMapMapped(s: Fs, t: Fs, f: nat, from: nat, to: nat)
    requires SameMap(s, t) && f < |s.inodes| && to <= MAX_BLOCKS
    ensures MappedIn(t, f, from, to) == MappedIn(s, f, from, to)
    decreases if from < to then to - from else 0
  {
    hide Ptr;
    if from < to {
      DataLocIsLoc(s, f, from);
      SameMapMapped(s, t, f, from + 1, to);
    }
  }

  lemma FirstNotLater(s: Fs, f: nat, i: nat, to: nat)
    requires Shaped(s) && f < |s.inodes| && i < to <= MAX_BLOCKS
    ensures DataLoc(f, i) !in MappedIn(s, f, i + 1, to)
  {
    hide Ptr;
    MappedInIs(s, f, i + 1, to, DataLoc(f, i));
    forall idx | i + 1 <= idx < to ensures DataLoc(f, idx) != DataLoc(f, i) { LocsDiffer(f, idx, i); }
  }

  /** The block counter after a shrinking truncate of a file of at most 4 GiB whose counter was right. */
  lemma SmallShrinkCounts(s: Fs, f: nat, newSize: nat)
    requires Counted(s) && f < |s.inodes| && newSize < s.inodes[f].size <= 0x1_0000_0000
    ensures BlocksFor(s.inodes[f].size) <= MAX_BLOCKS
    ensures Truncate(s, f, newSize).inodes[f].blocks
         == s.inodes[f].blocks - |MappedIn(s, f, BlocksFor(newSize), BlocksFor(s.inodes[f].size))|
  {
    hide Ptr, Reach;
    BlocksForSmall(s.inodes[f].size);
    var from, to := BlocksFor(newSize), BlocksFor(s.inodes[f].size);
    MappedInReach(s, f, from, to);
    CardLe(MappedIn(s, f, from, to), Reach(s, f));
    TruncateLoopCounts(s, f, from, to);
  }

  // ---------- where it ends ----------

  /** Pointers are never cleared: a shrinking truncate of a file of any size keeps the separation invariant
      exactly when every pointer its loop asks for is empty. */
  lemma ShrinkKeepsInvIff(s: Fs, f: nat, newSize: nat)
    requires Inv(s) && f < |s.inodes| && newSize < s.inodes[f].size
    ensures Inv(Truncate(s, f, newSize)) <==>
      forall i :: BlocksFor(newSize) <= i < BlocksFor(s.inodes[f].size) ==> Ptr(s, DataLoc(f, i % WRAP_BLOCKS)) == 0
  {
    hide Ptr, Truncate;
    var r := Truncate(s, f, newSize);
    var from, to := BlocksFor(newSize), BlocksFor(s.inodes[f].size);
    ShrinkFrees(s, f, newSize);
    assert forall x :: IsLoc(r, x) <==> IsLoc(s, x);
    if i :| from <= i < to && Ptr(s, DataLoc(f, i % WRAP_BLOCKS)) != 0 {
      DataLocIsLoc(s, f, i % WRAP_BLOCKS);
      assert !Allocated(r, Ptr(r, DataLoc(f, i % WRAP_BLOCKS)));
    }
  }

  /** The blocks below the new end stay allocated, whatever the size, exactly when no step of the loop
      lands on one of them after its byte offset has lost everything above 32 bits. */
  lemma KeptBlocksSafeIff(s: Fs, f: nat, newSize: nat)
    requires Inv(s) && f < |s.inodes| && newSize < s.inodes[f].size
    ensures var r := Truncate(s, f, newSize);
            var from, to := BlocksFor(newSize), BlocksFor(s.inodes[f].size);
            (forall k :: 0 <= k < from && k < MAX_BLOCKS && Ptr(s, DataLoc(f, k)) != 0 ==>
              Allocated(r, Ptr(s, DataLoc(f, k))))
            <==>
            (forall i :: from <= i < to && i % WRAP_BLOCKS < from ==> Ptr(s, DataLoc(f, i % WRAP_BLOCKS)) == 0)
  {
    hide Ptr, Truncate;
    var r := Truncate(s, f, newSize);
    var from, to := BlocksFor(newSize), BlocksFor(s.inodes[f].size);
    ShrinkFrees(s, f, newSize);
    forall k | 0 <= k < from && k < MAX_BLOCKS && Ptr(s, DataLoc(f, k)) != 0
      ensures Allocated(r, Ptr(s, DataLoc(f, k))) <==> forall i :: from <= i < to ==> i % WRAP_BLOCKS != k
    {
      FreedIffAsked(s, f, from, to, k);
    }
  }

  lemma FreedIffAsked(s: Fs, f: nat, from: nat, to: nat, k: nat)
    requires Inv(s) && f < |s.inodes| && k < MAX_BLOCKS && Ptr(s, DataLoc(f, k)) != 0
    ensures Allocated(s, Ptr(s, DataLoc(f, k)))
    ensures Freed(s, f, from, to, Ptr(s, DataLoc(f, k))) <==> exists i :: from <= i < to && i % WRAP_BLOCKS == k
  {
    hide Ptr;
    var l := DataLoc(f, k);
    DataLocIsLoc(s, f, k);
    forall i: nat ensures Ptr(s, DataLoc(f, i % WRAP_BLOCKS)) == Ptr(s, l) <==> i % WRAP_BLOCKS == k {
      DataLocIsLoc(s, f, i % WRAP_BLOCKS);
      if i % WRAP_BLOCKS != k {
        LocsDiffer(f, i % WRAP_BLOCKS, k);
        Separate(s, l, DataLoc(f, i % WRAP_BLOCKS));
      }
    }
  }

  lemma LocsDiffer(f: nat, a: nat, b: nat)
    requires a < MAX_BLOCKS && b < MAX_BLOCKS && a != b
    ensures DataLoc(f, a) != DataLoc(f, b)
  {
    if DataLoc(f, a) == DataLoc(f, b) { DataLocInjective(f, a, f, b); }
  }

  /** One data block, mapped as logical block 0 of a file whose size is just over 4 GiB. */
  function BigSparse(): Fs {
    Fs([ZeroBlock(), ZeroBlock()], 1, [true],
       [DiskInode(0x1_0000_0001, 1, [1, 0, 0, 0, 0, 0, 0, 0, 0, 0, 0, 0], 0, 0, [])])
  }

  lemma {:induction false} BigSparsePtr(l: Loc)
    requires IsLoc(BigSparse(), l)
    ensures Ptr(BigSparse(), l) == if l == Direct(0, 0) then 1 else 0
    decreases Depth(l)
  {
    if !InInode(l) { BigSparsePtr(Parent(l)); }
  }

  /** Shrinking it to 4096 bytes frees the very block that holds them. */
  lemma BigShrinkFreesKept()
    ensures Inv(BigSparse()) && Ptr(BigSparse(), DataLoc(0, 0)) == 1 && BlocksFor(4096) == 1
    ensures !Allocated(Truncate(BigSparse(), 0, 4096), 1)
  {
    hide Ptr, Truncate;
    var s := BigSparse();
    forall l | IsLoc(s, l) ensures Ptr(s, l) == if l == Direct(0, 0) then 1 else 0 { BigSparsePtr(l); }
    assert Inv(s);
    assert DataLoc(0, 0) == Direct(0, 0);
    KeptBlocksSafeIff(s, 0, 4096);
    assert BlocksFor(s.inodes[0].size) == WRAP_BLOCKS + 1;
    assert WRAP_BLOCKS % WRAP_BLOCKS == 0;
  }

  // ---------- what a truncate keeps for good ----------

  /** A pointer that counts: of an index block, or of a data block below the end of its file. */
  ghost predicate Live(s: Fs, l: Loc) {
    && IsLoc(s, l)
    && forall idx: nat :: idx < MAX_BLOCKS && l == DataLoc(l.f, idx) ==> idx * BLOCK_SIZE < s.inodes[l.f].size
  }

  /** Separation of the pointers that count. */
  ghost predicate LiveInv(s: Fs) {
    && Shaped(s)
    && (forall l :: Live(s, l) && Ptr(s, l) != 0 ==> Allocated(s, Ptr(s, l)))
    && (forall l, k :: Live(s, l) && Live(s, k) && l != k && Ptr(s, l) != 0 ==> Ptr(s, l) != Ptr(s, k))
  }

  lemma InvIsLive(s: Fs)
    requires Inv(s)
    ensures LiveInv(s)
  {}

  lemma DataIsLive(s: Fs, f: nat, idx: nat)
    requires f < |s.inodes| && idx < MAX_BLOCKS
    ensures Live(s, DataLoc(f, idx)) <==> idx * BLOCK_SIZE < s.inodes[f].size
  {
    forall k: nat | k < MAX_BLOCKS && DataLoc(f, idx) == DataLoc(f, k) ensures k == idx {
      DataLocInjective(f, idx, f, k);
    }
  }

  /** The loop stops at the end of the file, so whatever it asks for was live. */
  lemma AskedIsLive(s: Fs, f: nat, i: nat)
    requires f < |s.inodes| && i < BlocksFor(s.inodes[f].size)
    ensures Live(s, DataLoc(f, i % WRAP_BLOCKS))
  {
    var blocks := (s.inodes[f].size + BLOCK_SIZE - 1) / BLOCK_SIZE;
    assert BlocksFor(s.inodes[f].size) <= blocks;
    DataIsLive(s, f, i % WRAP_BLOCKS);
  }

  lemma ShrinkSizes(s: Fs, f: nat, newSize: nat)
    requires Shaped(s) && f < |s.inodes| && newSize < s.inodes[f].size
    ensures var r := Truncate(s, f, newSize);
            |r.inodes| == |s.inodes|
            && forall g :: 0 <= g < |s.inodes| ==> r.inodes[g].size == if g == f then newSize else s.inodes[g].size
  {
    hide Ptr;
    TruncateLoopFrees(s, f, BlocksFor(newSize), BlocksFor(s.inodes[f].size));
  }

  lemma ShrinkLive(s: Fs, f: nat, newSize: nat, l: Loc)
    requires Shaped(s) && f < |s.inodes| && newSize < s.inodes[f].size
    ensures Live(Truncate(s, f, newSize), l) ==> Live(s, l)
  {
    hide Truncate;
    ShrinkSizes(s, f, newSize);
  }

  /** Unlike `Inv`, this one outlives the pointers a truncate leaves behind: any shrinking truncate, first or later,
      keeps it exactly when no step of the loop asks for a mapped block below the new end. */
  lemma ShrinkKeepsLiveIff(s: Fs, f: nat, newSize: nat)
    requires LiveInv(s) && f < |s.inodes| && newSize < s.inodes[f].size
    ensures LiveInv(Truncate(s, f, newSize)) <==>
      forall i :: BlocksFor(newSize) <= i < BlocksFor(s.inodes[f].size) && i % WRAP_BLOCKS * BLOCK_SIZE < newSize ==>
        Ptr(s, DataLoc(f, i % WRAP_BLOCKS)) == 0
  {
    hide Ptr, Truncate, Live, BlocksFor, DataLoc;
    var r, from, to := Truncate(s, f, newSize), BlocksFor(newSize), BlocksFor(s.inodes[f].size);
    ShrinkFrees(s, f, newSize);
    ShrinkSizes(s, f, newSize);
    forall l ensures Live(r, l) ==> Live(s, l) { ShrinkLive(s, f, newSize, l); }
    forall l | Live(s, l) || Live(r, l) ensures IsLoc(s, l) && IsLoc(r, l) && Ptr(r, l) == Ptr(s, l) {
      LiveIsLoc(s, r, l);
    }
    if i :| from <= i < to && i % WRAP_BLOCKS * BLOCK_SIZE < newSize && Ptr(s, DataLoc(f, i % WRAP_BLOCKS)) != 0 {
      DataIsLive(r, f, i % WRAP_BLOCKS);
      assert Freed(s, f, from, to, Ptr(s, DataLoc(f, i % WRAP_BLOCKS)));
      assert !Allocated(r, Ptr(r, DataLoc(f, i % WRAP_BLOCKS)));
    } else {
      forall l | Live(r, l) && Ptr(r, l) != 0 ensures Allocated(r, Ptr(r, l)) {
        if i :| from <= i < to && Ptr(s, DataLoc(f, i % WRAP_BLOCKS)) == Ptr(s, l) {
          AskedIsLive(s, f, i);
          DataIsLive(r, f, i % WRAP_BLOCKS);
        }
      }
    }
  }

  lemma LiveIsLoc(s: Fs, r: Fs, l: Loc)
    requires SameMap(s, r) && (Live(s, l) || Live(r, l))
    ensures IsLoc(s, l) && IsLoc(r, l) && Ptr(r, l) == Ptr(s, l)
  {
    hide Ptr;
  }

  /** Up to 4 GiB no step does: any number of shrinking truncates keeps the live pointers of all files apart. */
  lemma SmallShrinkKeepsLive(s: Fs, f: nat, newSize: nat)
    requires LiveInv(s) && f < |s.inodes| && newSize < s.inodes[f].size <= 0x1_0000_0000
    ensures LiveInv(Truncate(s, f, newSize))
  {
    hide Ptr, Truncate, LiveInv;
    BlocksForSmall(newSize);
    BlocksForSmall(s.inodes[f].size);
    ShrinkKeepsLiveIff(s, f, newSize);
  }

  // ---------- what a stale pointer leads to ----------

  /** Storing a direct pointer changes no other pointer, separated or not. */
  lemma {:induction false} DirectGraftPtr(s: Fs, g: nat, j: nat, b: Word, x: Loc)
    requires Shaped(s) && g < |s.inodes| && j < DIRECT_BLOCKS && s.dataStart <= b < s.dataStart + |s.used|
    requires IsLoc(s, x)
    ensures var t := Graft(s, Direct(g, j), b);
            IsLoc(t, x) && Ptr(t, x) == if x == Direct(g, j) then b else Ptr(s, x)
    decreases Depth(x)
  {
    if !InInode(x) { DirectGraftPtr(s, g, j, b, Parent(x)); }
  }

  /** After a shrinking truncate the next block is given to a direct pointer of any file: it then shares that block
      with a pointer the truncate left behind exactly when that pointer's block is now the lowest free one. */
  lemma StalePointerSharedIff(s: Fs, f: nat, newSize: nat, i: nat, g: nat, j: nat)
    requires Inv(s) && Shaped(s) && f < |s.inodes| && newSize < s.inodes[f].size && i < MAX_BLOCKS
    requires Ptr(s, DataLoc(f, i)) != 0
    requires g < |s.inodes| && j < DIRECT_BLOCKS && Ptr(s, Direct(g, j)) == 0
    requires var r := Truncate(s, f, newSize); FirstFree(r.used) < |r.used|
    ensures var r := Truncate(s, f, newSize);
            && Shaped(r) && IsLoc(r, Direct(g, j))
            && var t := Ensure(r, Direct(g, j)).0;
               && IsLoc(t, Direct(g, j)) && IsLoc(t, DataLoc(f, i))
               && (Ptr(t, DataLoc(f, i)) == Ptr(t, Direct(g, j)) <==>
                   Ptr(s, DataLoc(f, i)) == s.dataStart + FirstFree(r.used))
  {
    hide Ptr, Truncate, Graft, FirstFree, Inv;
    var r, b := Truncate(s, f, newSize), s.dataStart + FirstFree(Truncate(s, f, newSize).used);
    ShrinkFrees(s, f, newSize);
    var l, x := Direct(g, j), DataLoc(f, i);
    DirectGraftPtr(r, g, j, b, l);
    DirectGraftPtr(r, g, j, b, x);
  }

  /** One block, in use as the only one of file 0; file 1 is empty. */
  function OneBlockTaken(): Fs {
    var none := [0, 0, 0, 0, 0, 0, 0, 0, 0, 0, 0];
    Fs([ZeroBlock(), ZeroBlock()], 1, [true],
      [DiskInode(1, 1, [1] + none, 0, 0, []), DiskInode(0, 0, [0] + none, 0, 0, [])])
  }

  lemma {:induction false} OneBlockTakenPtr(l: Loc)
    requires IsLoc(OneBlockTaken(), l)
    ensures Ptr(OneBlockTaken(), l) == if l == Direct(0, 0) then 1 else 0
    decreases Depth(l)
  {
    if !InInode(l) { OneBlockTakenPtr(Parent(l)); }
  }

  /** Truncate file 0 to nothing, and give file 1 a block: both now name it. */
  lemma TruncateThenClobber()
    ensures Inv(OneBlockTaken())
    ensures var r := Truncate(OneBlockTaken(), 0, 0);
            && Shaped(r) && IsLoc(r, Direct(1, 0))
            && var t := Ensure(r, Direct(1, 0)).0;
               IsLoc(t, Direct(1, 0)) && IsLoc(t, DataLoc(0, 0)) && Ptr(t, DataLoc(0, 0)) == Ptr(t, Direct(1, 0))
  {
    hide Ptr, Truncate, Graft, Ensure, Inv, OneBlockTaken, FirstFree;
    OneBlockTakenFacts();
    OneBlockFreed();
    StalePointerSharedIff(OneBlockTaken(), 0, 0, 0, 1, 0);
  }

  lemma OneBlockTakenFacts()
    ensures var s := OneBlockTaken();
            && Inv(s) && Shaped(s) && |s.inodes| == 2 && s.inodes[0].size == 1 && s.dataStart == 1 && |s.used| == 1
            && DataLoc(0, 0) == Direct(0, 0) && Ptr(s, Direct(0, 0)) == 1 && Ptr(s, Direct(1, 0)) == 0
  {
    hide Ptr;
    var s := OneBlockTaken();
    forall l | IsLoc(s, l) ensures Ptr(s, l) == if l == Direct(0, 0) then 1 else 0 { OneBlockTakenPtr(l); }
  }

  lemma OneBlockFreed()
    ensures var r := Truncate(OneBlockTaken(), 0, 0); |r.used| == 1 && FirstFree(r.used) == 0
  {
    hide Ptr, Truncate, Inv, OneBlockTaken;
    var s := OneBlockTaken();
    OneBlockTakenFacts();
    ShrinkFrees(s, 0, 0);
    assert 0 % WRAP_BLOCKS == 0 && BlocksFor(0) == 0 && BlocksFor(1) == 1;
    assert Freed(s, 0, 0, 1, 1);
    assert !Allocated(Truncate(s, 0, 0), 1);
  }
}
