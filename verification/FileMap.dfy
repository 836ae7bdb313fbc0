/** `inode_bmap` as a value function, and what it keeps: separation, the block count, every other
    mapping, and every block of file data. */
module FileMap {
  import opened Bits
  import opened Blocks
  import opened BlockTree

  /** Ensure every pointer of a chain, root first; stop when the disk is full. */
  function EnsureAll(s: Fs, c: seq<Loc>): (r: (Fs, bool))
    requires Inv(s) && IsChain(s, c)
    ensures Inv(r.0) && |r.0.inodes| == |s.inodes|
    decreases |c|
  {
    if c == [] then (s, true)
    else
      var (s1, ok) := Ensure(s, c[0]);
      EnsureFacts(s, c[0]);
      if !ok then (s1, false)
      else
        NextIsChain(s, s1, c);
        EnsureAll(s1, c[1..])
  }

  lemma NextIsChain(s: Fs, s1: Fs, c: seq<Loc>)
    requires Inv(s) && IsChain(s, c) && c != [] && Inv(s1)
    requires forall x :: IsLoc(s1, x) <==> IsLoc(s, x)
    requires Ptr(s1, c[0]) != 0
    ensures IsChain(s1, c[1..])
  {
    InvShaped(s1);
    if |c| > 1 { assert Parent(c[1]) == c[0]; }
    forall i | 0 < i < |c[1..]| ensures !InInode(c[1..][i]) && Parent(c[1..][i]) == c[1..][i - 1] {
      assert Parent(c[i + 1]) == c[i];
    }
  }

  datatype Mapped = At(block: Word) | NoSpace | BadOffset

  function Bmap(s: Fs, f: nat, off: nat, alloc: bool): (Fs, Mapped)
    requires Inv(s) && f < |s.inodes|
  {
    var idx := BlockIdx(off);
    if idx >= MAX_BLOCKS then (s, BadOffset)
    else if !alloc then (s, At(Ptr(s, DataLoc(f, idx))))
    else
      ChainIsChain(s, f, idx);
      var (r, ok) := EnsureAll(s, Chain(f, idx));
      (r, if ok then At(Ptr(r, DataLoc(f, idx))) else NoSpace)
  }

  // ---------- what allocation keeps ----------

  ghost predicate IndexBlock(s: Fs, p: nat)
    requires Shaped(s)
  {
    p != 0 && exists x :: IsLoc(s, x) && !IsData(x) && Ptr(s, x) == p
  }

  /** `r` extends `s`: same geometry, allocation only grows, pointers in use stay, new pointers name
      blocks that were free, and only index blocks were written. */
  ghost predicate Extends(s: Fs, r: Fs) {
    && Inv(s) && Inv(r)
    && |r.disk| == |s.disk| && r.dataStart == s.dataStart && |r.used| == |s.used| && |r.inodes| == |s.inodes|
    && (forall f :: 0 <= f < |s.inodes| ==> r.inodes[f].size == s.inodes[f].size)
    && (forall b :: Allocated(s, b) ==> Allocated(r, b))
    && (forall x :: IsLoc(s, x) && Ptr(s, x) != 0 ==> Ptr(r, x) == Ptr(s, x))
    && (forall x :: IsLoc(s, x) && Ptr(s, x) == 0 && Ptr(r, x) != 0 ==> !Allocated(s, Ptr(r, x)))
    && (forall p :: 0 <= p < |s.disk| && r.disk[p] != s.disk[p] ==> IndexBlock(r, p))
  }

  lemma ExtendsRefl(s: Fs)
    requires Inv(s)
    ensures Extends(s, s)
  {}

  lemma ExtendsTrans(s: Fs, t: Fs, r: Fs)
    requires Extends(s, t) && Extends(t, r)
    ensures Extends(s, r)
  {
    hide Ptr, Inv;
    InvShaped(s);
    InvShaped(t);
    InvShaped(r);
    forall x | IsLoc(s, x) && Ptr(s, x) == 0 && Ptr(r, x) != 0 ensures !Allocated(s, Ptr(r, x)) {
      if Ptr(t, x) == 0 { assert !Allocated(t, Ptr(r, x)); }
    }
    forall p | 0 <= p < |s.disk| && r.disk[p] != s.disk[p] ensures IndexBlock(r, p) {
      if t.disk[p] != s.disk[p] {
        var x :| IsLoc(t, x) && !IsData(x) && Ptr(t, x) == p;
        assert Ptr(r, x) == p;
      }
    }
  }

  lemma GraftExtends(s: Fs, l: Loc, b: Word)
    requires CanGraft(s, l, b)
    ensures Extends(s, Graft(s, l, b))
  {
    hide Graft, Ptr;
    var r := Graft(s, l, b);
    GraftFields(s, l, b);
    GraftInv(s, l, b);
    GraftSizes(s, l, b);
    forall x | IsLoc(s, x) ensures Ptr(r, x) == if x == l then b else Ptr(s, x) { GraftPtr(s, l, b, x); }
    forall p | 0 <= p < |s.disk| && r.disk[p] != s.disk[p] ensures IndexBlock(r, p) {
      GraftDisk(s, l, b, p);
      if p == b { assert IsLoc(r, l) && Ptr(r, l) == p; } else { assert Ptr(r, Parent(l)) == p && !IsData(Parent(l)); }
    }
  }

  lemma GraftSizes(s: Fs, l: Loc, b: Word)
    requires CanGraft(s, l, b)
    ensures forall f :: 0 <= f < |s.inodes| ==> Graft(s, l, b).inodes[f].size == s.inodes[f].size
  {}

  lemma EnsureExtends(s: Fs, l: Loc)
    requires Inv(s) && IsLoc(s, l) && (!InInode(l) ==> Ptr(s, Parent(l)) != 0)
    ensures Extends(s, Ensure(s, l).0)
  {
    hide Graft, Ptr, Extends;
    var k := FirstFree(s.used);
    if Ptr(s, l) == 0 && k < |s.used| {
      CanGraftFresh(s, l, s.dataStart + k);
      GraftExtends(s, l, s.dataStart + k);
    } else {
      ExtendsRefl(s);
    }
  }

  /** Allocating along a chain: only locations of the chain gain a block, all of them when it succeeds
      and not the last one when it fails. */
  lemma {:induction false} EnsureAllFacts(s: Fs, c: seq<Loc>)
    requires Inv(s) && IsChain(s, c)
    ensures var (r, ok) := EnsureAll(s, c);
            && Extends(s, r) && (Counted(s) ==> Counted(r))
            && (forall x :: IsLoc(s, x) && x !in c ==> Ptr(r, x) == Ptr(s, x))
            && (ok ==> forall i :: 0 <= i < |c| ==> Ptr(r, c[i]) != 0)
            && (!ok ==> c != [] && Ptr(s, c[|c| - 1]) == 0 && Ptr(r, c[|c| - 1]) == 0)
            && (!ok ==> forall b :: r.dataStart <= b < r.dataStart + |r.used| ==> Allocated(r, b))
    decreases |c|
  {
    hide Ptr, Extends, Ensure, Counted;
    if c == [] {
      ExtendsRefl(s);
    } else {
      var (s1, ok) := Ensure(s, c[0]);
      EnsureFacts(s, c[0]);
      EnsureExtends(s, c[0]);
      if ok {
        NextIsChain(s, s1, c);
        EnsureAllFacts(s1, c[1..]);
        var r := EnsureAll(s1, c[1..]).0;
        ExtendsTrans(s, s1, r);
        KeepsPtr(s1, r, c[0]);
        forall x | IsLoc(s, x) && x !in c ensures Ptr(r, x) == Ptr(s, x) { assert x !in c[1..]; }
      } else {
        ChainDead(s, c);
      }
    }
  }

  lemma KeepsPtr(s: Fs, r: Fs, l: Loc)
    requires Extends(s, r) && IsLoc(s, l) && Ptr(s, l) != 0
    ensures Ptr(r, l) == Ptr(s, l)
  {}

  /** Below a missing pointer nothing is mapped. */
  lemma {:induction false} ChainDead(s: Fs, c: seq<Loc>)
    requires Inv(s) && IsChain(s, c) && c != [] && Ptr(s, c[0]) == 0
    ensures Ptr(s, c[|c| - 1]) == 0
    decreases |c|
  {
    if |c| > 1 {
      assert Parent(c[|c| - 1]) == c[|c| - 2];
      var front := c[..|c| - 1];
      assert front[|front| - 1] == c[|c| - 2];
      ChainDead(s, front);
    }
  }

  // ---------- inode_bmap ----------

  /** Allocating mapping of one offset: separation and the block count survive, no other logical block of
      any file is remapped, and running out of space leaves every mapping as it was. */
  lemma BmapKeeps(s: Fs, f: nat, off: nat)
    requires Inv(s) && f < |s.inodes|
    ensures var (r, m) := Bmap(s, f, off, true);
            && Extends(s, r) && (Counted(s) ==> Counted(r))
            && (forall g, idx :: 0 <= g < |s.inodes| && 0 <= idx < MAX_BLOCKS && (g != f || idx != BlockIdx(off))
                  ==> Ptr(r, DataLoc(g, idx)) == Ptr(s, DataLoc(g, idx)))
            && (m == BadOffset <==> BlockIdx(off) >= MAX_BLOCKS) && (m == BadOffset ==> r == s)
            && (m.At? ==> m.block == Ptr(r, DataLoc(f, BlockIdx(off))) && m.block != 0)
            && (m == NoSpace ==>
                  && Ptr(s, DataLoc(f, BlockIdx(off))) == 0 && Ptr(r, DataLoc(f, BlockIdx(off))) == 0
                  && forall b :: r.dataStart <= b < r.dataStart + |r.used| ==> Allocated(r, b))
  {
    hide Ptr, Extends, EnsureAll, Counted;
    var idx := BlockIdx(off);
    if idx >= MAX_BLOCKS {
      ExtendsRefl(s);
    } else {
      ChainIsChain(s, f, idx);
      var c := Chain(f, idx);
      EnsureAllFacts(s, c);
      var r := EnsureAll(s, c).0;
      forall g, i | 0 <= g < |s.inodes| && 0 <= i < MAX_BLOCKS && (g != f || i != idx)
        ensures Ptr(r, DataLoc(g, i)) == Ptr(s, DataLoc(g, i))
      {
        OtherDataOffChain(s, f, idx, g, i);
      }
    }
  }

  lemma OtherDataOffChain(s: Fs, f: nat, idx: nat, g: nat, i: nat)
    requires f < |s.inodes| && g < |s.inodes| && idx < MAX_BLOCKS && i < MAX_BLOCKS && (g != f || i != idx)
    ensures IsLoc(s, DataLoc(g, i)) && DataLoc(g, i) !in Chain(f, idx)
  {
    if DataLoc(g, i) == DataLoc(f, idx) { DataLocInjective(g, i, f, idx); }
  }

  /** The 32-bit block index is the true one exactly below 16 TiB; from there offsets alias. */
  lemma BlockIdxExactIff(off: nat)
    ensures BlockIdx(off) == off / BLOCK_SIZE <==> off < 0x1000_0000_0000
    ensures BlockIdx(off + 0x1000_0000_0000) == BlockIdx(off)
  {
    var q := off / BLOCK_SIZE;
    assert (off + 0x1000_0000_0000) / BLOCK_SIZE == q + 0x1_0000_0000;
    assert (q + 0x1_0000_0000) % 0x1_0000_0000 == q % 0x1_0000_0000;
  }
}
