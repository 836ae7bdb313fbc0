/** Which block a write gives to which logical block: allocation is first fit, so it is known beforehand. */
module FileAlloc {
  import opened Bits
  import opened Blocks
  import opened BlockTree
  import opened FileMap
  import opened FileBytes

  // ---------- the free flags in order ----------

  /** `used` with its first `n` clear flags set. */
  function TakeFree(used: seq<bool>, n: nat): (r: seq<bool>)
    ensures |r| == |used|
  {
    if n == 0 then used
    else
      var front := TakeFree(used, n - 1);
      var k := FirstFree(front);
      if k == |used| then front else front[k := true]
  }

  /** Position of the clear flag that `n` others come before. */
  function NthFree(used: seq<bool>, n: nat): (k: nat)
    ensures k <= |used|
  {
    FirstFree(TakeFree(used, n))
  }

  lemma {:induction false} TakenIs(used: seq<bool>, n: nat)
    requires n <= CountFree(used)
    ensures var front, k := TakeFree(used, n), NthFree(used, n);
            (forall i :: 0 <= i < k ==> front[i]) && front[k..] == used[k..] && CountFree(used[..k]) == n
  {
    if n == 0 {
      CountZeroIff(used[..FirstFree(used)]);
    } else {
      TakenIs(used, n - 1);
      var was, k := TakeFree(used, n - 1), NthFree(used, n - 1);
      assert used[..|used|] == used && k < |used|;
      var now, l := TakeFree(used, n), NthFree(used, n);
      assert was[k] == was[k..][0] == used[k..][0] == used[k];
      NextFree(used, was, k);
    }
  }

  lemma NextFree(used: seq<bool>, was: seq<bool>, k: nat)
    requires |was| == |used| && k < |used| && !was[k] && !used[k] && was[k..] == used[k..]
    requires forall i :: 0 <= i < k ==> was[i]
    ensures var now := was[k := true];
            var l := FirstFree(now);
            now[l..] == used[l..] && CountFree(used[..l]) == CountFree(used[..k]) + 1
  {
    hide FirstFree, CountFree;
    var now := was[k := true];
    var l := FirstFree(now);
    assert l > k;
    forall i | k < i < |used| ensures now[i] == used[i] { assert was[i] == was[k..][i - k] == used[k..][i - k]; }
    CountSnoc(used, k);
    CountStretch(used, k + 1, l);
  }

  lemma {:induction false} CountStretch(used: seq<bool>, from: nat, end: nat)
    requires from <= end <= |used| && forall i :: from <= i < end ==> used[i]
    ensures CountFree(used[..end]) == CountFree(used[..from])
    decreases end
  {
    if from < end {
      CountStretch(used, from, end - 1);
      CountSnoc(used, end - 1);
    }
  }

  /** What the name says: the flag is clear, and `n` clear flags come before it. */
  lemma NthFreeIs(used: seq<bool>, n: nat)
    requires n < CountFree(used)
    ensures var k := NthFree(used, n); k < |used| && !used[k] && CountFree(used[..k]) == n
  {
    TakenIs(used, n);
    var k := NthFree(used, n);
    assert used[..|used|] == used && k < |used|;
    assert TakeFree(used, n)[k..][0] == used[k..][0];
  }

  // ---------- what allocation has taken so far ----------

  /** `t` is `s` after allocating a block for each location in `got`, one by one. */
  ghost predicate Advanced(s: Fs, t: Fs, got: set<Loc>) {
    && Inv(s) && Inv(t) && t.dataStart == s.dataStart && |t.disk| == |s.disk| && |t.inodes| == |s.inodes|
    && t.used == TakeFree(s.used, |got|)
    && (forall x :: x in got ==> IsLoc(s, x) && Ptr(s, x) == 0 && Ptr(t, x) != 0)
    && (forall x :: IsLoc(s, x) && x !in got ==> Ptr(t, x) == Ptr(s, x))
  }

  lemma NothingTaken(s: Fs)
    requires Inv(s)
    ensures Advanced(s, s, {})
  {}

  /** The locations of a chain that hold no block. */
  ghost function Vacant(s: Fs, c: seq<Loc>): (v: set<Loc>)
    requires Shaped(s) && forall i :: 0 <= i < |c| ==> IsLoc(s, c[i])
    ensures forall x :: x in v <==> x in c && Ptr(s, x) == 0
  {
    if c == [] then {} else (if Ptr(s, c[0]) == 0 then {c[0]} else {}) + Vacant(s, c[1..])
  }

  lemma AdvancedFacts(s: Fs, t: Fs, got: set<Loc>)
    requires Advanced(s, t, got)
    ensures Inv(s) && Inv(t) && Shaped(s) && Shaped(t) && t.dataStart == s.dataStart && |t.inodes| == |s.inodes|
    ensures forall x :: IsLoc(t, x) <==> IsLoc(s, x)
  {
    InvShaped(s);
    InvShaped(t);
  }

  lemma AdvanceOne(s: Fs, t: Fs, r: Fs, got: set<Loc>, l: Loc)
    requires Advanced(s, t, got) && Inv(r) && IsLoc(s, l) && IsLoc(t, l) && Shaped(t) && Shaped(r)
    requires |r.inodes| == |t.inodes|
    requires r.dataStart == t.dataStart && |r.disk| == |t.disk|
    requires FirstFree(t.used) < |t.used| && r.used == t.used[FirstFree(t.used) := true] && Ptr(t, l) == 0
    requires Ptr(r, l) != 0
    requires forall x :: IsLoc(t, x) && x != l ==> Ptr(r, x) == Ptr(t, x)
    ensures Advanced(s, r, got + {l})
  {
    hide Ptr, Inv, FirstFree;
    InvShaped(s);
    assert forall x :: IsLoc(t, x) <==> IsLoc(s, x);
    assert l !in got && |got + {l}| == |got| + 1;
  }

  lemma GrowthFacts(t: Fs, l: Loc)
    requires Inv(t) && IsLoc(t, l) && (!InInode(l) ==> Ptr(t, Parent(l)) != 0) && Ptr(t, l) == 0 && Ensure(t, l).1
    ensures var r, k := Ensure(t, l).0, FirstFree(t.used);
            && Inv(r) && k < |t.used| && |r.inodes| == |t.inodes| && r.dataStart == t.dataStart && |r.disk| == |t.disk|
            && r.used == t.used[k := true] && IsLoc(r, l) && Ptr(r, l) == t.dataStart + k != 0
            && (forall x :: IsLoc(t, x) && x != l ==> IsLoc(r, x) && Ptr(r, x) == Ptr(t, x))
  {
    hide Graft, Ptr, Inv, Counted, FirstFree;
    InvShaped(t);
    var k := FirstFree(t.used);
    EnsureFacts(t, l);
    CanGraftFresh(t, l, t.dataStart + k);
    GraftPtr(t, l, t.dataStart + k, l);
    GraftFields(t, l, t.dataStart + k);
  }

  /** One location ensured. */
  lemma EnsureAdvances(s: Fs, t: Fs, got: set<Loc>, l: Loc)
    requires Advanced(s, t, got) && IsLoc(s, l) && IsLoc(t, l) && (!InInode(l) ==> Ptr(t, Parent(l)) != 0)
    requires Ensure(t, l).1
    requires Shaped(s) && Shaped(t)
    ensures var r := Ensure(t, l).0;
            && Advanced(s, r, got + Vacant(s, [l]))
            && (Ptr(t, l) == 0 ==>
                IsLoc(r, l) && Ptr(r, l) == s.dataStart + NthFree(s.used, |got + Vacant(s, [l])| - 1))
  {
    hide Graft, Ptr, Inv, FirstFree, Ensure, Advanced;
    AdvancedFacts(s, t, got);
    InvShaped(t);
    if Ptr(t, l) == 0 {
      GrowthFacts(t, l);
      AdvanceOne(s, t, Ensure(t, l).0, got, l);
      TookOne(s, t, got, l);
    } else {
      AlreadyThere(s, t, got, l);
    }
  }

  lemma AlreadyThere(s: Fs, t: Fs, got: set<Loc>, l: Loc)
    requires Advanced(s, t, got) && IsLoc(s, l) && IsLoc(t, l) && Shaped(s) && Shaped(t) && Ptr(t, l) != 0
    requires !InInode(l) ==> 0 < Ptr(t, Parent(l)) < |t.disk|
    ensures Ensure(t, l).0 == t && got + Vacant(s, [l]) == got
  {
    hide Ptr;
  }

  lemma TookOne(s: Fs, t: Fs, got: set<Loc>, l: Loc)
    requires Advanced(s, t, got) && IsLoc(s, l) && IsLoc(t, l) && Shaped(s) && Shaped(t) && Ptr(t, l) == 0
    ensures got + Vacant(s, [l]) == got + {l} && |got + {l}| - 1 == |got| && FirstFree(t.used) == NthFree(s.used, |got|)
  {
    hide Ptr;
  }

  lemma VacantCons(s: Fs, got: set<Loc>, c: seq<Loc>)
    requires Shaped(s) && c != [] && Route(s, c)
    ensures got + Vacant(s, [c[0]]) + Vacant(s, c[1..]) == got + Vacant(s, c)
  {
    hide Ptr;
    assert c == [c[0]] + c[1..];
  }

  /** From `t` to `r` allocation took blocks for `got` in all; if `l` got its block on the way it was the last. */
  ghost predicate Reached(s: Fs, t: Fs, r: Fs, got: set<Loc>, l: Loc) {
    && Advanced(s, r, got) && Shaped(t) && IsLoc(t, l) && Shaped(r) && IsLoc(r, l)
    && (Ptr(t, l) == 0 ==> |got| > 0 && Ptr(r, l) == s.dataStart + NthFree(s.used, |got| - 1))
  }

  lemma ReachedFrom(s: Fs, t: Fs, t1: Fs, r: Fs, got: set<Loc>, l: Loc)
    requires Reached(s, t1, r, got, l) && Shaped(t) && IsLoc(t, l) && Ptr(t, l) == Ptr(t1, l)
    ensures Reached(s, t, r, got, l)
  {
    hide Ptr, Advanced;
  }

  lemma ReachedOne(s: Fs, t: Fs, got: set<Loc>, l: Loc)
    requires Advanced(s, t, got) && IsLoc(s, l) && IsLoc(t, l) && Shaped(s) && Shaped(t)
    requires (!InInode(l) ==> 0 < Ptr(t, Parent(l)) < |t.disk|) && Ensure(t, l).1
    ensures Reached(s, t, Ensure(t, l).0, got + Vacant(s, [l]), l)
  {
    hide Ptr, Ensure, FirstFree, NthFree, Vacant, Inv, Advanced, IsLoc;
    var r := Ensure(t, l).0;
    AdvancedFacts(s, t, got);
    EnsureAdvances(s, t, got, l);
    AdvancedFacts(s, r, got + Vacant(s, [l]));
    assert IsLoc(r, l);
    if Ptr(t, l) == 0 { TookOne(s, t, got, l); }
  }

  /** The chain as locations of `s`: its root first, all different. */
  ghost predicate Route(s: Fs, c: seq<Loc>)
    requires Shaped(s)
  {
    && (forall i :: 0 <= i < |c| ==> IsLoc(s, c[i]))
    && (forall i, j :: 0 <= i < j < |c| ==> c[i] != c[j])
  }

  lemma RouteRest(s: Fs, c: seq<Loc>)
    requires Shaped(s) && Route(s, c) && c != []
    ensures IsLoc(s, c[0]) && Route(s, c[1..])
    ensures |c| > 1 ==> IsLoc(s, c[|c| - 1]) && c[|c| - 1] != c[0] && c[1..][|c| - 2] == c[|c| - 1]
    ensures |c| == 1 ==> c == [c[0]] && c[1..] == []
  {
    var rest := c[1..];
    forall i, j | 0 <= i < j < |rest| ensures rest[i] != rest[j] { assert c[i + 1] != c[j + 1]; }
  }

  /** The first location of a chain ensured. */
  lemma FirstEnsured(s: Fs, t: Fs, got: set<Loc>, c: seq<Loc>)
    requires Advanced(s, t, got) && Shaped(s) && IsChain(t, c) && c != [] && EnsureAll(t, c).1 && Route(s, c)
    ensures IsLoc(t, c[0]) && (!InInode(c[0]) ==> 0 < Ptr(t, Parent(c[0])) < |t.disk|) && Ensure(t, c[0]).1
    ensures var t1 := Ensure(t, c[0]).0;
            && Advanced(s, t1, got + Vacant(s, [c[0]])) && IsChain(t1, c[1..])
            && EnsureAll(t, c) == EnsureAll(t1, c[1..])
            && (forall x :: IsLoc(t, x) <==> IsLoc(t1, x))
            && (forall x :: IsLoc(t, x) && x != c[0] ==> Ptr(t1, x) == Ptr(t, x))
  {
    hide Ptr, Ensure, Advanced, Inv, Vacant, Counted;
    AdvancedFacts(s, t, got);
    EnsureAdvances(s, t, got, c[0]);
    EnsureFacts(t, c[0]);
    NextIsChain(t, Ensure(t, c[0]).0, c);
  }

  /** Allocating along a chain takes the next free blocks, root first; the last of them is for the data. */
  lemma {:induction false} ChainAdvances(s: Fs, t: Fs, got: set<Loc>, c: seq<Loc>)
    requires Advanced(s, t, got) && Shaped(s) && IsChain(t, c) && c != [] && EnsureAll(t, c).1 && Route(s, c)
    ensures Reached(s, t, EnsureAll(t, c).0, got + Vacant(s, c), c[|c| - 1])
    decreases |c|
  {
    hide Ptr, Ensure, EnsureAll, IsChain, Advanced, Inv, Vacant, Counted, Reached, Route, IsLoc;
    AdvancedFacts(s, t, got);
    FirstEnsured(s, t, got, c);
    RouteRest(s, c);
    var t1, rest := Ensure(t, c[0]).0, c[1..];
    AdvancedFacts(s, t1, got + Vacant(s, [c[0]]));
    if |c| == 1 {
      EnsuredAll(t1);
      ReachedOne(s, t, got, c[0]);
    } else {
      VacantCons(s, got, c);
      ChainAdvances(s, t1, got + Vacant(s, [c[0]]), rest);
      ReachedFrom(s, t, t1, EnsureAll(t, c).0, got + Vacant(s, c), c[|c| - 1]);
    }
  }

  lemma EnsuredAll(t: Fs)
    requires Inv(t) && Shaped(t)
    ensures IsChain(t, []) && EnsureAll(t, []) == (t, true)
  {}

  // ---------- the blocks of a write ----------

  /** The locations without a block on the way to logical blocks `[from, end)`. */
  ghost function Needed(s: Fs, f: nat, from: nat, end: nat): set<Loc>
    requires Shaped(s) && f < |s.inodes| && end <= MAX_BLOCKS
    decreases end
  {
    if from >= end then {} else Needed(s, f, from, end - 1) + Vacant(s, Way(s, f, end - 1))
  }

  /** The chain of a logical block, as locations of `s`. */
  function Way(s: Fs, f: nat, idx: nat): (c: seq<Loc>)
    requires Shaped(s) && f < |s.inodes| && idx < MAX_BLOCKS
    ensures c == Chain(f, idx) && Route(s, c)
  {
    ChainIsChain(s, f, idx);
    Chain(f, idx)
  }

  /** The block that first fit gives to logical block `idx` when a write begins at logical block `from`: as many
      free blocks come before it as locations without a block come before its own. */
  ghost function Destined(s: Fs, f: nat, from: nat, idx: nat): nat
    requires Shaped(s) && f < |s.inodes| && from <= idx < MAX_BLOCKS && Ptr(s, DataLoc(f, idx)) == 0
  {
    DataNeeded(s, f, from, idx);
    s.dataStart + NthFree(s.used, |Needed(s, f, from, idx + 1)| - 1)
  }

  lemma DataNeeded(s: Fs, f: nat, from: nat, idx: nat)
    requires Shaped(s) && f < |s.inodes| && from <= idx < MAX_BLOCKS && Ptr(s, DataLoc(f, idx)) == 0
    ensures DataLoc(f, idx) in Needed(s, f, from, idx + 1) && |Needed(s, f, from, idx + 1)| > 0
  {
    hide Ptr;
    var c := Way(s, f, idx);
    assert DataLoc(f, idx) == c[|c| - 1] && DataLoc(f, idx) in c;
  }

  /** One block of the write mapped. */
  lemma BmapAdvances(s: Fs, t: Fs, f: nat, from: nat, off: nat)
    requires f < |s.inodes| && off < MAX_OFFSET && off / BLOCK_SIZE < MAX_BLOCKS && from <= off / BLOCK_SIZE
    requires Shaped(s)
    requires Advanced(s, t, Needed(s, f, from, off / BLOCK_SIZE)) && |t.inodes| == |s.inodes| && Inv(t)
    requires Bmap(t, f, off, true).1.At?
    ensures var r, idx := Bmap(t, f, off, true).0, off / BLOCK_SIZE;
            && Advanced(s, r, Needed(s, f, from, idx + 1)) && IsLoc(r, DataLoc(f, idx)) && Shaped(r)
            && (Ptr(s, DataLoc(f, idx)) == 0 ==> Ptr(r, DataLoc(f, idx)) == Destined(s, f, from, idx))
  {
    hide Ptr, Advanced, Inv, NthFree, Vacant, EnsureAll;
    var idx := off / BLOCK_SIZE;
    var got, c := Needed(s, f, from, idx), Way(s, f, idx);
    BlockIdxExactIff(off);
    AdvancedFacts(s, t, got);
    ChainIsChain(t, f, idx);
    ChainAdvances(s, t, got, c);
    NotNeededBefore(s, f, from, idx, idx);
    NotTaken(s, t, got, DataLoc(f, idx));
  }

  lemma NotTaken(s: Fs, t: Fs, got: set<Loc>, l: Loc)
    requires Advanced(s, t, got) && IsLoc(s, l) && l !in got && Shaped(s) && Shaped(t) && IsLoc(t, l)
    ensures Ptr(t, l) == Ptr(s, l)
  {
    hide Ptr;
  }

  /** The way to a later logical block ends at a location no earlier block needs. */
  lemma {:induction false} NotNeededBefore(s: Fs, f: nat, from: nat, end: nat, idx: nat)
    requires Shaped(s) && f < |s.inodes| && end <= idx < MAX_BLOCKS
    ensures DataLoc(f, idx) !in Needed(s, f, from, end)
    decreases end
  {
    hide Ptr, Chain, DataLoc;
    if from < end {
      NotNeededBefore(s, f, from, end - 1, idx);
      OtherDataOffChain(s, f, end - 1, f, idx);
    }
  }

  /** Writing a data block moves nothing. */
  lemma DataWriteAdvances(s: Fs, t: Fs, got: set<Loc>, l: Loc, block: Block)
    requires Advanced(s, t, got) && IsLoc(t, l) && IsData(l) && Shaped(t) && Ptr(t, l) != 0
    ensures Ptr(t, l) < |t.disk| && Advanced(s, WithBlock(t, Ptr(t, l), block), got)
  {
    hide Ptr;
    AdvancedFacts(s, t, got);
    DataWriteKeeps(t, l, block);
  }

  // ---------- the whole write ----------

  /** Every logical block the `n` bytes at `off` touch that had no block got the one it was destined for; the
      write began at logical block `from`. */
  ghost predicate TookDestined(s: Fs, r: Fs, f: nat, from: nat, off: nat, n: nat)
    requires Shaped(s) && Shaped(r) && f < |s.inodes| == |r.inodes|
  {
    forall idx :: from <= idx < MAX_BLOCKS && Touched(f, off, n, f, idx) && Ptr(s, DataLoc(f, idx)) == 0 ==>
      Ptr(r, DataLoc(f, idx)) == Destined(s, f, from, idx)
  }

  /** The write loop, resumed at `off` when the blocks before have been mapped, hands out the destined blocks. */
  lemma {:induction false} LoopTakesDestined(s: Fs, t: Fs, f: nat, from: nat, off: nat, data: seq<Byte>)
    requires f < |s.inodes| && off + |data| <= MAX_OFFSET && from <= off / BLOCK_SIZE && Shaped(s)
    requires Inv(t) && |t.inodes| == |s.inodes|
    requires data != [] && off / BLOCK_SIZE < MAX_BLOCKS ==> Advanced(s, t, Needed(s, f, from, off / BLOCK_SIZE))
    ensures var w := WriteLoop(t, f, off, data, false);
            Shaped(w.fs) && TookDestined(s, w.fs, f, from, off, w.count)
    decreases |data|
  {
    hide Ptr, Bmap, Advanced, Inv, WriteLoop, Destined, Needed, Patch, Counted, Extends, Wrote;
    if data == [] {
      NothingToWrite(t, f, off);
      InvShaped(t);
      TookNothing(s, t, f, from, off);
    } else {
      var (t1, m) := Bmap(t, f, off, true);
      BmapKeeps(t, f, off);
      BlockIdxExactIff(off);
      ExtendsGeometry(t, t1);
      if m.At? {
        var k, idx := ChunkLen(off, |data|), off / BLOCK_SIZE;
        InvShaped(t1);
        WriteLoopStep(t, f, off, data);
        var l, block := DataLoc(f, idx), Patch(t1.disk[m.block], off % BLOCK_SIZE, data[..k]);
        BmapAdvances(s, t, f, from, off);
        DataWriteKeeps(t1, l, block);
        DataWriteAdvances(s, t1, Needed(s, f, from, idx + 1), l, block);
        var t2 := WithBlock(t1, m.block, block);
        var w := WriteLoop(t2, f, off + k, data[k..], false);
        NextBlock(off, k, |data|);
        LoopTakesDestined(s, t2, f, from, off + k, data[k..]);
        WriteLoopWrote(t2, f, off + k, data[k..]);
        StaysMapped(t2, w.fs, f, off + k, data[k..][..w.count], idx);
        InvShaped(w.fs);
        TookFirst(s, w.fs, f, from, off, k, w.count);
      } else {
        WriteLoopStops(t, f, off, data);
        InvShaped(t1);
        TookNothing(s, t1, f, from, off);
      }
    }
  }

  lemma StaysMapped(t: Fs, r: Fs, f: nat, off: nat, data: seq<Byte>, idx: nat)
    requires Wrote(t, r, f, off, data) && f < |t.inodes| && idx < MAX_BLOCKS && Ptr(t, DataLoc(f, idx)) != 0
    ensures Ptr(r, DataLoc(f, idx)) == Ptr(t, DataLoc(f, idx))
  {
    hide Ptr;
    assert BlockWrote(t, r, f, off, data, f, idx);
  }

  lemma TookFirst(s: Fs, r: Fs, f: nat, from: nat, off: nat, k: nat, n: nat)
    requires Shaped(s) && Shaped(r) && f < |s.inodes| == |r.inodes| && from <= off / BLOCK_SIZE < MAX_BLOCKS
    requires 0 < k <= BLOCK_SIZE - off % BLOCK_SIZE && (n > 0 ==> (off + k) % BLOCK_SIZE == 0)
    requires var l := DataLoc(f, off / BLOCK_SIZE);
             IsLoc(s, l) && IsLoc(r, l) && (Ptr(s, l) == 0 ==> Ptr(r, l) == Destined(s, f, from, off / BLOCK_SIZE))
    requires TookDestined(s, r, f, from, off + k, n)
    ensures TookDestined(s, r, f, from, off, k + n)
  {
    hide Ptr, Destined, DataLoc;
    forall idx | from <= idx < MAX_BLOCKS && Touched(f, off, k + n, f, idx) && Ptr(s, DataLoc(f, idx)) == 0
      ensures Ptr(r, DataLoc(f, idx)) == Destined(s, f, from, idx)
    {
      TouchedSplit(f, off, k, n, f, idx);
      OneBlockTouched(f, off, k, f, idx);
    }
  }

  lemma TookNothing(s: Fs, r: Fs, f: nat, from: nat, off: nat)
    requires Shaped(s) && Shaped(r) && f < |s.inodes| == |r.inodes|
    ensures TookDestined(s, r, f, from, off, 0)
  {
    hide Ptr, Destined;
  }

  /** A chunk that does not end the data ends its block. */
  lemma NextBlock(off: nat, k: nat, n: nat)
    requires k == ChunkLen(off, n) && n > 0
    ensures k < n ==> (off + k) / BLOCK_SIZE == off / BLOCK_SIZE + 1
    ensures off / BLOCK_SIZE <= (off + k) / BLOCK_SIZE <= off / BLOCK_SIZE + 1
    ensures (off + k) / BLOCK_SIZE == off / BLOCK_SIZE ==> k == n
  {}

  /** The blocks a call of `inode_write` maps, whatever its outcome. */
  lemma WriteTakesDestined(s: Fs, f: nat, off: nat, data: seq<Byte>)
    requires Inv(s) && Shaped(s) && f < |s.inodes| && off + |data| <= MAX_OFFSET
    ensures var w := InodeWrite(s, f, off, data, false);
            Shaped(w.fs) && TookDestined(s, w.fs, f, off / BLOCK_SIZE, off, w.count)
  {
    hide Ptr, Advanced, Inv, WriteLoop, Destined, DataLoc;
    if off / BLOCK_SIZE < MAX_BLOCKS { NothingNeeded(s, f, off / BLOCK_SIZE); }
    LoopTakesDestined(s, s, f, off / BLOCK_SIZE, off, data);
    var l := WriteLoop(s, f, off, data, false).fs;
    if off + |data| > s.inodes[f].size {
      forall x | IsLoc(l, x)
        ensures Ptr(WithSize(l, f, off + |data|), x) == Ptr(l, x)
      {
        SizePtr(l, f, off + |data|, x);
      }
      SizeTookDestined(s, l, f, off, InodeWrite(s, f, off, data, false).count, off + |data|);
    }
  }

  lemma NothingNeeded(s: Fs, f: nat, from: nat)
    requires Inv(s) && Shaped(s) && f < |s.inodes| && from <= MAX_BLOCKS
    ensures Advanced(s, s, Needed(s, f, from, from))
  {
    hide Ptr;
    NothingTaken(s);
  }

  lemma SizeTookDestined(s: Fs, l: Fs, f: nat, off: nat, n: nat, size: nat)
    requires Shaped(s) && Shaped(l) && f < |s.inodes| == |l.inodes|
    requires TookDestined(s, l, f, off / BLOCK_SIZE, off, n)
    ensures Shaped(WithSize(l, f, size)) && TookDestined(s, WithSize(l, f, size), f, off / BLOCK_SIZE, off, n)
  {
    hide Ptr, Destined, DataLoc;
    var r := WithSize(l, f, size);
    forall idx | off / BLOCK_SIZE <= idx < MAX_BLOCKS && Touched(f, off, n, f, idx) && Ptr(s, DataLoc(f, idx)) == 0
      ensures Ptr(r, DataLoc(f, idx)) == Destined(s, f, off / BLOCK_SIZE, idx)
    {
      SizePtr(l, f, size, DataLoc(f, idx));
    }
  }
}
