/** When a write succeeds, and how far it gets otherwise: how many free blocks it takes is known beforehand. */
module FileRoom {
  import opened Bits
  import opened Blocks
  import opened BlockTree
  import opened FileAlloc
  import opened FileBytes
  import opened FileMap

  // ---------- the free flags ----------

  lemma {:induction false} CountFreeGrows(used: seq<bool>, k: nat)
    requires k <= |used|
    ensures CountFree(used[..k]) <= CountFree(used)
    decreases |used|
  {
    if k == |used| {
      assert used[..k] == used;
    } else {
      CountFreeGrows(used[..|used| - 1], k);
      assert used[..|used| - 1][..k] == used[..k];
    }
  }

  /** After `n` clear flags have been taken there is another exactly when there were more than `n`. */
  lemma MoreFree(used: seq<bool>, n: nat)
    requires n <= CountFree(used)
    ensures FirstFree(TakeFree(used, n)) < |used| <==> n < CountFree(used)
  {
    hide TakeFree, FirstFree;
    TakenIs(used, n);
    var k := NthFree(used, n);
    if k < |used| {
      NextTaken(used, n, k);
      CountFreeGrows(used, k + 1);
    } else {
      assert used[..k] == used;
    }
  }

  lemma NextTaken(used: seq<bool>, n: nat, k: nat)
    requires n <= CountFree(used) && k == NthFree(used, n) < |used|
    ensures CountFree(used[..k + 1]) == n + 1
  {
    hide TakeFree;
    TakenIs(used, n);
    assert TakeFree(used, n)[k..][0] == used[k..][0];
    CountSnoc(used, k);
  }

  // ---------- one chain ----------

  /** A pointer can be ensured when it is there or a block is left for it. */
  lemma EnsureFitsIff(s: Fs, t: Fs, got: set<Loc>, l: Loc)
    requires Advanced(s, t, got) && |got| <= CountFree(s.used) && IsLoc(s, l) && IsLoc(t, l) && Shaped(s) && Shaped(t)
    requires !InInode(l) ==> 0 < Ptr(t, Parent(l)) < |t.disk|
    ensures Ensure(t, l).1 <==> |got + Vacant(s, [l])| <= CountFree(s.used)
  {
    hide Ptr, Inv, Graft, CountFree, FirstFree, TakeFree;
    MoreFree(s.used, |got|);
    if Ptr(t, l) == 0 { TookOne(s, t, got, l); } else { AlreadyThere(s, t, got, l); }
  }

  lemma Subset(a: set<Loc>, b: set<Loc>)
    requires a <= b
    ensures |a| <= |b|
  {
    var c := b - a;
    assert b == a + c;
  }

  /** Allocation along a chain succeeds exactly when the free blocks suffice for its empty locations. */
  lemma {:induction false} ChainFitsIff(s: Fs, t: Fs, got: set<Loc>, c: seq<Loc>)
    requires Advanced(s, t, got) && Shaped(s) && IsChain(t, c) && Route(s, c) && |got| <= CountFree(s.used)
    ensures EnsureAll(t, c).1 <==> |got + Vacant(s, c)| <= CountFree(s.used)
    decreases |c|
  {
    hide Ptr, Ensure, EnsureAll, IsChain, Advanced, Inv, Vacant, Counted, Route, IsLoc, CountFree;
    AdvancedFacts(s, t, got);
    if c == [] {
      EnsuredAll(t);
      assert got + Vacant(s, c) == got by { VacantNone(s, got, c); }
    } else {
      HeadFits(s, t, got, c);
      RouteRest(s, c);
      VacantCons(s, got, c);
      EnsureFitsIff(s, t, got, c[0]);
      if Ensure(t, c[0]).1 {
        var t1, got1 := Ensure(t, c[0]).0, got + Vacant(s, [c[0]]);
        HeadEnsured(s, t, got, c);
        ChainFitsIff(s, t1, got1, c[1..]);
      } else {
        Subset(got + Vacant(s, [c[0]]), got + Vacant(s, c));
      }
    }
  }

  lemma VacantNone(s: Fs, got: set<Loc>, c: seq<Loc>)
    requires Shaped(s) && c == []
    ensures Route(s, c) && got + Vacant(s, c) == got
  {}

  /** Without the first location there is no chain. */
  lemma HeadFits(s: Fs, t: Fs, got: set<Loc>, c: seq<Loc>)
    requires Advanced(s, t, got) && Shaped(s) && Shaped(t) && IsChain(t, c) && c != [] && Route(s, c)
    ensures IsLoc(s, c[0]) && IsLoc(t, c[0]) && (!InInode(c[0]) ==> 0 < Ptr(t, Parent(c[0])) < |t.disk|)
    ensures !Ensure(t, c[0]).1 ==> !EnsureAll(t, c).1
  {
    hide Ptr, Ensure, Advanced, Inv, Counted;
    AdvancedFacts(s, t, got);
  }

  lemma HeadEnsured(s: Fs, t: Fs, got: set<Loc>, c: seq<Loc>)
    requires Advanced(s, t, got) && Shaped(s) && Shaped(t) && IsChain(t, c) && c != [] && Route(s, c)
    requires IsLoc(t, c[0]) && (!InInode(c[0]) ==> 0 < Ptr(t, Parent(c[0])) < |t.disk|) && Ensure(t, c[0]).1
    ensures IsLoc(s, c[0])
    ensures var t1 := Ensure(t, c[0]).0;
            && Inv(t1) && Shaped(t1) && Advanced(s, t1, got + Vacant(s, [c[0]])) && IsChain(t1, c[1..])
            && EnsureAll(t, c) == EnsureAll(t1, c[1..])
  {
    hide Ptr, Ensure, Advanced, Inv, Vacant, Counted;
    AdvancedFacts(s, t, got);
    EnsureAdvances(s, t, got, c[0]);
    EnsureFacts(t, c[0]);
    InvShaped(Ensure(t, c[0]).0);
    NextIsChain(t, Ensure(t, c[0]).0, c);
  }

  // ---------- the write ----------

  /** A write that begins at logical block `from` has the room to map all blocks up to `idx`. */
  ghost predicate Fits(s: Fs, f: nat, from: nat, idx: nat)
    requires Shaped(s) && f < |s.inodes|
  {
    idx < MAX_BLOCKS && |Needed(s, f, from, idx + 1)| <= CountFree(s.used)
  }

  lemma BmapFitsIff(s: Fs, t: Fs, f: nat, from: nat, off: nat)
    requires f < |s.inodes| && off < MAX_OFFSET && from <= off / BLOCK_SIZE && Shaped(s) && Inv(t)
    requires |t.inodes| == |s.inodes|
    requires off / BLOCK_SIZE < MAX_BLOCKS ==>
      && Advanced(s, t, Needed(s, f, from, off / BLOCK_SIZE))
      && |Needed(s, f, from, off / BLOCK_SIZE)| <= CountFree(s.used)
    ensures Bmap(t, f, off, true).1.At? <==> Fits(s, f, from, off / BLOCK_SIZE)
    ensures Bmap(t, f, off, true).1 == BadOffset <==> off / BLOCK_SIZE >= MAX_BLOCKS
  {
    hide Ptr, Advanced, Inv, Vacant, EnsureAll, CountFree;
    var idx := off / BLOCK_SIZE;
    BlockIdxExactIff(off);
    if idx < MAX_BLOCKS {
      var got, c := Needed(s, f, from, idx), Way(s, f, idx);
      AdvancedFacts(s, t, got);
      ChainIsChain(t, f, idx);
      ChainFitsIff(s, t, got, c);
    }
  }

  /** How many bytes a write of `n` bytes at `off` places that began at logical block `from`: whole blocks while
      they fit. */
  ghost function Placed(s: Fs, f: nat, from: nat, off: nat, n: nat): (p: nat)
    requires Shaped(s) && f < |s.inodes|
    ensures p <= n
    decreases n
  {
    if n == 0 || !Fits(s, f, from, off / BLOCK_SIZE) then 0
    else var k := ChunkLen(off, n); k + Placed(s, f, from, off + k, n - k)
  }

  lemma {:induction false} LoopPlaces(s: Fs, t: Fs, f: nat, from: nat, off: nat, data: seq<Byte>)
    requires f < |s.inodes| && off + |data| <= MAX_OFFSET && from <= off / BLOCK_SIZE && Shaped(s)
    requires Inv(t) && |t.inodes| == |s.inodes|
    requires data != [] && off / BLOCK_SIZE < MAX_BLOCKS ==>
      && Advanced(s, t, Needed(s, f, from, off / BLOCK_SIZE))
      && |Needed(s, f, from, off / BLOCK_SIZE)| <= CountFree(s.used)
    ensures var w := WriteLoop(t, f, off, data, false);
            && w.count == Placed(s, f, from, off, |data|)
            && (!w.status.Ok? ==>
                w.status == if (off + w.count) / BLOCK_SIZE >= MAX_BLOCKS then InvalidErr else NoSpaceErr)
    decreases |data|
  {
    hide Ptr, Bmap, Advanced, Inv, WriteLoop, Needed, Patch, Counted, Extends, CountFree;
    if data == [] {
      NothingToWrite(t, f, off);
    } else {
      BmapFitsIff(s, t, f, from, off);
      BmapKeeps(t, f, off);
      BlockIdxExactIff(off);
      var (t1, m) := Bmap(t, f, off, true);
      ExtendsGeometry(t, t1);
      if m.At? {
        var k, idx := ChunkLen(off, |data|), off / BLOCK_SIZE;
        InvShaped(t1);
        WriteLoopStep(t, f, off, data);
        var l, block := DataLoc(f, idx), Patch(t1.disk[m.block], off % BLOCK_SIZE, data[..k]);
        BmapAdvances(s, t, f, from, off);
        DataWriteKeeps(t1, l, block);
        DataWriteAdvances(s, t1, Needed(s, f, from, idx + 1), l, block);
        NextBlock(off, k, |data|);
        LoopPlaces(s, WithBlock(t1, m.block, block), f, from, off + k, data[k..]);
      } else {
        WriteLoopStops(t, f, off, data);
      }
    }
  }

  lemma {:induction false} NeededGrows(s: Fs, f: nat, from: nat, a: nat, b: nat)
    requires Shaped(s) && f < |s.inodes| && a <= b <= MAX_BLOCKS
    ensures Needed(s, f, from, a) <= Needed(s, f, from, b)
    decreases b
  {
    hide Vacant, Way, Route, Shaped;
    if a < b { NeededGrows(s, f, from, a, b - 1); }
  }

  lemma FitsBelow(s: Fs, f: nat, from: nat, a: nat, b: nat)
    requires Shaped(s) && f < |s.inodes| && a <= b && Fits(s, f, from, b)
    ensures Fits(s, f, from, a)
  {
    hide Needed;
    NeededGrows(s, f, from, a + 1, b + 1);
    Subset(Needed(s, f, from, a + 1), Needed(s, f, from, b + 1));
  }

  /** All bytes are placed exactly when the last block fits; otherwise they end where the first block starts that
      does not. */
  lemma {:induction false} PlacedIs(s: Fs, f: nat, from: nat, off: nat, n: nat)
    requires Shaped(s) && f < |s.inodes|
    ensures Placed(s, f, from, off, n) == n <==> n == 0 || Fits(s, f, from, (off + n - 1) / BLOCK_SIZE)
    ensures var at := off + Placed(s, f, from, off, n);
            at < off + n ==> !Fits(s, f, from, at / BLOCK_SIZE) && (at == off || at % BLOCK_SIZE == 0)
    ensures forall pos :: off <= pos < off + Placed(s, f, from, off, n) ==> Fits(s, f, from, pos / BLOCK_SIZE)
    decreases n
  {
    hide Fits;
    if n > 0 {
      var k := ChunkLen(off, n);
      if Fits(s, f, from, off / BLOCK_SIZE) {
        PlacedIs(s, f, from, off + k, n - k);
        forall pos | off <= pos < off + k ensures pos / BLOCK_SIZE == off / BLOCK_SIZE { DivModIn(off, pos - off); }
      } else if Fits(s, f, from, (off + n - 1) / BLOCK_SIZE) {
        FitsBelow(s, f, from, off / BLOCK_SIZE, (off + n - 1) / BLOCK_SIZE);
      }
    }
  }

  /** A write succeeds exactly when its range ends within what the block map addresses and as many blocks are free
      as pointers on the way to its blocks are empty. Otherwise it places everything before the first block it has
      no room for, and says what it ran out of. */
  lemma WriteSucceedsIff(s: Fs, f: nat, off: nat, data: seq<Byte>)
    requires Inv(s) && Shaped(s) && f < |s.inodes| && off + |data| <= MAX_OFFSET
    ensures var w, from := InodeWrite(s, f, off, data, false), off / BLOCK_SIZE;
            && w.count == Placed(s, f, from, off, |data|)
            && (w.status.Ok? <==>
                  || data == []
                  || (off + |data| <= MAX_BYTES
                    && |Needed(s, f, from, (off + |data| - 1) / BLOCK_SIZE + 1)| <= CountFree(s.used)))
            && (!w.status.Ok? ==>
                  var at := off + w.count;
                  && (w.count == 0 || at % BLOCK_SIZE == 0)
                  && w.status == (if at >= MAX_BYTES then InvalidErr else NoSpaceErr)
                  && (at < MAX_BYTES ==> |Needed(s, f, from, at / BLOCK_SIZE + 1)| > CountFree(s.used)))
  {
    hide Ptr, Inv, WriteLoop, Needed, CountFree, Advanced;
    var from := off / BLOCK_SIZE;
    if from < MAX_BLOCKS { NothingNeeded(s, f, from); NoneNeeded(s, f, from); }
    LoopPlaces(s, s, f, from, off, data);
    PlacedIs(s, f, from, off, |data|);
  }

  lemma NoneNeeded(s: Fs, f: nat, from: nat)
    requires Shaped(s) && f < |s.inodes| && from <= MAX_BLOCKS
    ensures |Needed(s, f, from, from)| == 0
  {}
}
