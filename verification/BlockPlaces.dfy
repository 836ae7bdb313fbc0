/** Where block numbers are kept, in terms of an inode's fields and the bytes of index blocks alone. */
module BlockPlaces {
  import opened Bits
  import opened Blocks
  import opened BlockTree
  import opened FileBytes
  import opened FileMap

  /** The `i`-th 32-bit word of a block, least significant byte first. */
  function WordOf(b: Block, i: nat): int
    requires i < 1024
  {
    var a: int, b1: int, b2: int, b3: int := b[4 * i], b[4 * i + 1], b[4 * i + 2], b[4 * i + 3];
    a + 0x100 * b1 + 0x1_0000 * b2 + 0x100_0000 * b3
  }

  /** The `i`-th block number kept in block `p`; 0 means there is none. */
  function Named(disk: seq<Block>, p: int, i: nat): int
    requires i < 1024
  {
    if 0 < p < |disk| then WordOf(disk[p], i) else 0
  }

  /** The block that holds logical block `idx` of the file: twelve numbers are in the inode, the next 1024 in the
      block its `indirect` field names, the rest two blocks away from `doubleIndirect`. */
  function Follow(d: DiskInode, disk: seq<Block>, idx: nat): int
    requires |d.direct| == 12 && idx < 1049612
  {
    if idx < 12 then d.direct[idx]
    else if idx < 1036 then Named(disk, d.indirect, idx - 12)
    else Named(disk, Named(disk, d.doubleIndirect, (idx - 1036) / 1024), (idx - 1036) % 1024)
  }

  // ---------- looking up ----------

  lemma EntryIs(b: Block, i: nat)
    requires i < 1024
    ensures EntryOf(b, i) == WordOf(b, i)
  {}

  lemma RootIs(s: Fs, f: nat, i: nat)
    requires Shaped(s) && f < |s.inodes|
    ensures i < 12 ==> Ptr(s, Direct(f, i)) == s.inodes[f].direct[i]
    ensures Ptr(s, Ind(f)) == s.inodes[f].indirect && Ptr(s, Dbl(f)) == s.inodes[f].doubleIndirect
  {}

  lemma LeafIs(s: Fs, l: Loc)
    requires Shaped(s) && IsLoc(s, l) && !InInode(l)
    ensures Ptr(s, l) == Named(s.disk, Ptr(s, Parent(l)), Index(l))
  {
    var p := Ptr(s, Parent(l));
    if 0 < p < |s.disk| { EntryIs(s.disk[p], Index(l)); }
  }

  lemma FollowIs(s: Fs, f: nat, idx: nat)
    requires Shaped(s) && f < |s.inodes| && idx < 1049612
    ensures Ptr(s, DataLoc(f, idx)) == Follow(s.inodes[f], s.disk, idx)
  {
    hide Ptr, EntryOf;
    if idx < 12 {
      RootIs(s, f, idx);
    } else if idx < 1036 {
      RootIs(s, f, 0);
      LeafIs(s, IndEntry(f, idx - 12));
    } else {
      var k := idx - 1036;
      RootIs(s, f, 0);
      LeafIs(s, DblEntry(f, k / 1024));
      LeafIs(s, DblLeaf(f, k / 1024, k % 1024));
    }
  }

  /** `inode_bmap` without allocation follows these places, and refuses what lies behind them. */
  lemma LooksUp(s: Fs, f: nat, off: nat)
    requires Inv(s) && f < |s.inodes|
    ensures var idx := off / 4096 % 0x1_0000_0000;
            Bmap(s, f, off, false) ==
              (s, if idx >= 1049612 then BadOffset else At(Follow(s.inodes[f], s.disk, idx)))
  {
    hide Ptr, Follow, DataLoc;
    var idx := off / 4096 % 0x1_0000_0000;
    if idx < 1049612 { FollowIs(s, f, idx); }
  }

  // ---------- allocating ----------

  /** Block `c` is block `b`, or a cleared block if it is new, except for its `i`-th word. */
  ghost predicate OneWord(b: Block, c: Block, i: nat, isNew: bool) {
    forall q :: 0 <= q < 4096 && q / 4 != i ==> c[q] == if isNew then 0 else b[q]
  }

  ghost predicate SameDisk(d: seq<Block>, e: seq<Block>, but: set<int>) {
    |d| == |e| && forall b :: 0 <= b < |d| && b !in but ==> e[b] == d[b]
  }

  ghost predicate OthersSame(s: Fs, r: Fs, f: nat) {
    && |r.inodes| == |s.inodes| && |r.disk| == |s.disk|
    && forall g :: 0 <= g < |s.inodes| && g != f ==> r.inodes[g] == s.inodes[g]
  }

  function One(missing: bool): nat { if missing then 1 else 0 }

  /** The inode and the disk after an allocation: the block count, the one field that leads to the block, and one
      word of each index block on the way. */
  ghost predicate Leads(d: DiskInode, disk: seq<Block>, e: DiskInode, disk': seq<Block>, idx: nat)
    requires |d.direct| == |e.direct| == 12 && idx < 1049612 && |disk| == |disk'|
  {
    if idx < 12 then
      && disk' == disk
      && e == d.(direct := d.direct[idx := e.direct[idx]], blocks := d.blocks + One(d.direct[idx] == 0))
    else if idx < 1036 then LeadsTwo(d, disk, e, disk', idx - 12)
    else LeadsThree(d, disk, e, disk', (idx - 1036) / 1024, (idx - 1036) % 1024)
  }

  /** By way of the block that `indirect` names. */
  ghost predicate LeadsTwo(d: DiskInode, disk: seq<Block>, e: DiskInode, disk': seq<Block>, i: nat)
    requires i < 1024 && |disk| == |disk'|
  {
    var p := e.indirect;
    && e == d.(indirect := p, blocks := d.blocks + One(d.indirect == 0) + One(Named(disk, d.indirect, i) == 0))
    && (d.indirect != 0 ==> p == d.indirect)
    && p < |disk| && SameDisk(disk, disk', {p}) && OneWord(disk[p], disk'[p], i, d.indirect == 0)
  }

  /** By way of the block that `doubleIndirect` names and the block its `i`-th word names. */
  ghost predicate LeadsThree(d: DiskInode, disk: seq<Block>, e: DiskInode, disk': seq<Block>, i: nat, j: nat)
    requires i < 1024 && j < 1024 && |disk| == |disk'|
  {
    var p := e.doubleIndirect;
    var was, now := Named(disk, d.doubleIndirect, i), Named(disk', p, i);
    && e == d.(doubleIndirect := p,
               blocks := d.blocks + One(d.doubleIndirect == 0) + One(was == 0) + One(Named(disk, was, j) == 0))
    && (d.doubleIndirect != 0 ==> p == d.doubleIndirect) && (was != 0 ==> now == was)
    && p < |disk| && 0 <= now < |disk| && p != now && SameDisk(disk, disk', {p, now})
    && OneWord(disk[p], disk'[p], i, d.doubleIndirect == 0) && OneWord(disk[now], disk'[now], j, was == 0)
  }

  lemma WithEntryIs(b: Block, i: nat, v: Word)
    requires i < 1024
    ensures OneWord(b, WithEntry(b, i, v), i, false)
  {}

  lemma RootEnsured(s: Fs, l: Loc)
    requires Inv(s) && IsLoc(s, l) && InInode(l) && Ensure(s, l).1
    ensures var t := Ensure(s, l).0;
            var d, e := s.inodes[l.f], t.inodes[l.f];
            var b := Ptr(t, l);
            && Shaped(t) && 0 < b < |s.disk| && |t.disk| == |s.disk|
            && (forall g :: 0 <= g < |s.inodes| && g != l.f ==> t.inodes[g] == s.inodes[g])
            && e == (match l
                     case Direct(_, i) => d.(direct := d.direct[i := b])
                     case Ind(_) => d.(indirect := b)
                     case Dbl(_) => d.(doubleIndirect := b)).(blocks := d.blocks + One(Ptr(s, l) == 0))
            && (Ptr(s, l) != 0 ==> b == Ptr(s, l))
            && t.disk == if IsData(l) || Ptr(s, l) != 0 then s.disk else s.disk[b := ZeroBlock()]
  {}

  /** What ensuring an entry of index block `p` leaves, `b` being the block it then names. */
  ghost predicate EntryThere(s: Fs, l: Loc, t: Fs, p: nat, b: nat)
    requires Shaped(s) && IsLoc(s, l) && !InInode(l)
  {
    && Shaped(t) && OthersSame(s, t, l.f) && 0 < b < |s.disk| && p < |s.disk| && b != p
    && t.inodes[l.f] == s.inodes[l.f].(blocks := s.inodes[l.f].blocks + One(Ptr(s, l) == 0))
    && (Ptr(s, l) != 0 ==> t == s && b == Ptr(s, l))
    && OneWord(s.disk[p], t.disk[p], Index(l), false)
    && SameDisk(s.disk, t.disk, {p, b})
    && (IsData(l) ==> t.disk[b] == s.disk[b])
    && (!IsData(l) && Ptr(s, l) == 0 ==> t.disk[b] == ZeroBlock())
  }

  lemma EntryEnsured(s: Fs, l: Loc)
    requires Inv(s) && IsLoc(s, l) && !InInode(l) && Ptr(s, Parent(l)) != 0 && Ensure(s, l).1
    ensures var t := Ensure(s, l).0;
            Inv(t) && Shaped(s) && Shaped(t) && IsLoc(t, l) && EntryThere(s, l, t, Ptr(s, Parent(l)), Ptr(t, l))
  {
    hide Ptr, WithEntry, Graft, Inv, OneWord, EntryThere, Counted;
    InvShaped(s);
    EnsureFacts(s, l);
    if Ptr(s, l) == 0 { EntryGrafted(s, l, s.dataStart + FirstFree(s.used)); } else { EntryStays(s, l); }
  }

  lemma EntryStays(s: Fs, l: Loc)
    requires Inv(s) && Shaped(s) && IsLoc(s, l) && !InInode(l) && Ptr(s, l) != 0
    ensures EntryThere(s, l, s, Ptr(s, Parent(l)), Ptr(s, l))
  {
    hide Ptr, Inv, OneWord;
    InvShaped(s);
    ParentApart(s, l);
    Unchanged(s.disk[Ptr(s, Parent(l))], Index(l));
  }

  lemma EntryGrafted(s: Fs, l: Loc, b: Word)
    requires Inv(s) && Shaped(s) && IsLoc(s, l) && !InInode(l) && Ptr(s, Parent(l)) != 0 && Ptr(s, l) == 0
    requires IsFree(s, b)
    ensures 0 < Ptr(s, Parent(l)) < |s.disk|
    ensures var t := Graft(s, l, b); IsLoc(t, l) && EntryThere(s, l, t, Ptr(s, Parent(l)), b) && Ptr(t, l) == b
  {
    hide Ptr, WithEntry, Graft, Inv, OneWord;
    InvShaped(s);
    var p := Ptr(s, Parent(l));
    ParentUsed(s, l);
    CanGraftFresh(s, l, b);
    GraftFields(s, l, b);
    GraftPtr(s, l, b, l);
    GraftInode(s, l, b);
    GraftDisk(s, l, b, p);
    WithEntryIs(s.disk[p], Index(l), b);
    forall x | 0 <= x < |s.disk| && x != p && x != b ensures Graft(s, l, b).disk[x] == s.disk[x] {
      GraftDisk(s, l, b, x);
    }
  }

  lemma GraftInode(s: Fs, l: Loc, b: Word)
    requires Shaped(s) && IsLoc(s, l) && !InInode(l) && s.dataStart <= b < s.dataStart + |s.used|
    requires 0 < Ptr(s, Parent(l)) < |s.disk|
    ensures var t := Graft(s, l, b);
            && Shaped(t) && OthersSame(s, t, l.f)
            && t.inodes[l.f] == s.inodes[l.f].(blocks := s.inodes[l.f].blocks + 1)
  {
    hide Ptr, WithEntry;
  }

  lemma Unchanged(b: Block, i: nat)
    ensures OneWord(b, b, i, false)
  {}

  lemma ParentUsed(s: Fs, l: Loc)
    requires Inv(s) && IsLoc(s, l) && !InInode(l) && Ptr(s, Parent(l)) != 0
    ensures Allocated(s, Ptr(s, Parent(l)))
  {}

  lemma ParentApart(s: Fs, l: Loc)
    requires Inv(s) && IsLoc(s, l) && !InInode(l)
    ensures Ptr(s, l) != 0 ==> Ptr(s, Parent(l)) != Ptr(s, l)
  {
    assert IsLoc(s, Parent(l)) && Parent(l) != l;
  }

  /** A chain of pointers is ensured one after the other. */
  lemma FirstEnsured(s: Fs, c: seq<Loc>)
    requires Inv(s) && IsChain(s, c) && c != [] && EnsureAll(s, c).1
    ensures var (t, ok) := Ensure(s, c[0]);
            ok && Inv(t) && IsChain(t, c[1..]) && EnsureAll(s, c) == EnsureAll(t, c[1..])
  {
    hide Ensure, Ptr, Inv, Counted;
    InvShaped(s);
    assert !InInode(c[0]) ==> Ptr(s, Parent(c[0])) != 0;
    EnsureFacts(s, c[0]);
    if Ensure(s, c[0]).1 { NextIsChain(s, Ensure(s, c[0]).0, c); }
  }

  lemma NoneEnsured(s: Fs)
    requires Inv(s) && IsChain(s, [])
    ensures EnsureAll(s, []) == (s, true)
  {}

  lemma OneStep(s: Fs, f: nat, i: nat)
    requires Inv(s) && f < |s.inodes| && i < 12 && IsChain(s, [Direct(f, i)]) && EnsureAll(s, [Direct(f, i)]).1
    ensures var r := EnsureAll(s, [Direct(f, i)]).0;
            && Shaped(s) && Shaped(r) && OthersSame(s, r, f)
            && Leads(s.inodes[f], s.disk, r.inodes[f], r.disk, i)
  {
    hide Ptr, EnsureAll, Ensure, Inv;
    InvShaped(s);
    FirstEnsured(s, [Direct(f, i)]);
    var t := Ensure(s, Direct(f, i)).0;
    assert [Direct(f, i)][1..] == [];
    NoneEnsured(t);
    RootEnsured(s, Direct(f, i));
    RootIs(s, f, i);
  }

  lemma TwoSteps(s: Fs, f: nat, i: nat)
    requires Inv(s) && f < |s.inodes| && i < 1024 && IsChain(s, [Ind(f), IndEntry(f, i)])
    requires EnsureAll(s, [Ind(f), IndEntry(f, i)]).1
    ensures var r := EnsureAll(s, [Ind(f), IndEntry(f, i)]).0;
            Shaped(s) && Shaped(r) && OthersSame(s, r, f) && LeadsTwo(s.inodes[f], s.disk, r.inodes[f], r.disk, i)
  {
    hide Ptr, EnsureAll, Ensure, Inv, LeadsTwo;
    var root, entry := Ind(f), IndEntry(f, i);
    InvShaped(s);
    FirstEnsured(s, [root, entry]);
    var t := Ensure(s, root).0;
    assert [root, entry][1..] == [entry];
    FirstEnsured(t, [entry]);
    var r := Ensure(t, entry).0;
    assert [entry][1..] == [];
    NoneEnsured(r);
    TwoEnsured(s, t, r, f, i);
  }

  lemma TwoEnsured(s: Fs, t: Fs, r: Fs, f: nat, i: nat)
    requires Inv(s) && Inv(t) && f < |s.inodes| && i < 1024
    requires Ensure(s, Ind(f)) == (t, true) && IsLoc(t, IndEntry(f, i)) && Ptr(t, Ind(f)) != 0
    requires Ensure(t, IndEntry(f, i)) == (r, true)
    ensures Shaped(s) && Shaped(r) && OthersSame(s, r, f) && LeadsTwo(s.inodes[f], s.disk, r.inodes[f], r.disk, i)
  {
    hide Ptr, Ensure, Inv, OneWord, WordOf;
    var root, entry := Ind(f), IndEntry(f, i);
    InvShaped(s);
    InvShaped(t);
    RootEnsured(s, root);
    RootIs(s, f, 0);
    RootIs(t, f, 0);
    EntryEnsured(t, entry);
    LeafIs(s, entry);
    LeafIs(t, entry);
    ZeroNames(i);
    var p := Ptr(t, root);
    if s.inodes[f].indirect == 0 { Cleared(s.disk[p], r.disk[p], i); }
  }

  lemma ZeroNames(i: nat)
    requires i < 1024
    ensures WordOf(ZeroBlock(), i) == 0
  {}

  lemma Cleared(was: Block, c: Block, i: nat)
    requires OneWord(ZeroBlock(), c, i, false)
    ensures OneWord(was, c, i, true)
  {}

  lemma ThreeSteps(s: Fs, f: nat, i: nat, j: nat)
    requires Inv(s) && f < |s.inodes| && i < 1024 && j < 1024
    requires IsChain(s, [Dbl(f), DblEntry(f, i), DblLeaf(f, i, j)])
    requires EnsureAll(s, [Dbl(f), DblEntry(f, i), DblLeaf(f, i, j)]).1
    ensures var r := EnsureAll(s, [Dbl(f), DblEntry(f, i), DblLeaf(f, i, j)]).0;
            && Shaped(s) && Shaped(r) && OthersSame(s, r, f)
            && LeadsThree(s.inodes[f], s.disk, r.inodes[f], r.disk, i, j)
  {
    hide Ptr, EnsureAll, Ensure, Inv, LeadsThree;
    var root, entry, leaf := Dbl(f), DblEntry(f, i), DblLeaf(f, i, j);
    InvShaped(s);
    FirstEnsured(s, [root, entry, leaf]);
    var t := Ensure(s, root).0;
    assert [root, entry, leaf][1..] == [entry, leaf];
    FirstEnsured(t, [entry, leaf]);
    var u := Ensure(t, entry).0;
    assert [entry, leaf][1..] == [leaf];
    FirstEnsured(u, [leaf]);
    var r := Ensure(u, leaf).0;
    assert [leaf][1..] == [];
    NoneEnsured(r);
    ThreeEnsured(s, t, u, r, f, i, j);
  }

  lemma ThreeEnsured(s: Fs, t: Fs, u: Fs, r: Fs, f: nat, i: nat, j: nat)
    requires Inv(s) && Inv(t) && Inv(u) && f < |s.inodes| && i < 1024 && j < 1024
    requires Ensure(s, Dbl(f)) == (t, true) && IsLoc(t, DblEntry(f, i)) && Ptr(t, Dbl(f)) != 0
    requires Ensure(t, DblEntry(f, i)) == (u, true) && IsLoc(u, DblLeaf(f, i, j)) && Ptr(u, DblEntry(f, i)) != 0
    requires Ensure(u, DblLeaf(f, i, j)) == (r, true)
    ensures Shaped(s) && Shaped(r) && OthersSame(s, r, f)
    ensures LeadsThree(s.inodes[f], s.disk, r.inodes[f], r.disk, i, j)
  {
    hide Ptr, Ensure, Inv, OneWord, WordOf;
    var root, entry, leaf := Dbl(f), DblEntry(f, i), DblLeaf(f, i, j);
    InvShaped(s);
    InvShaped(t);
    InvShaped(u);
    RootEnsured(s, root);
    RootIs(s, f, 0);
    RootIs(t, f, 0);
    EntryEnsured(t, entry);
    EntryEnsured(u, leaf);
    var p, q := Ptr(t, root), Ptr(u, entry);
    RootIs(u, f, 0);
    ThreeDisks(s.disk, t.disk, u.disk, r.disk, p, q, Ptr(r, leaf), i, j, Ptr(s, root) == 0, Ptr(t, entry) == 0);
    LeafIs(s, entry);
    LeafIs(t, entry);
    LeafIs(u, entry);
    LeafIs(s, leaf);
    LeafIs(u, leaf);
    ParentApart(s, entry);
    ZeroNames(i);
    ZeroNames(j);
    var was := Named(s.disk, s.inodes[f].doubleIndirect, i);
    assert Named(r.disk, p, i) == q;
    assert Ptr(t, entry) == was;
    assert Ptr(u, leaf) == Named(s.disk, was, j);
  }

  /** The three disks behind the first: index block `p` cleared if new and given a word, `q` likewise, and nothing
      else written. */
  lemma ThreeDisks(d: seq<Block>, e: seq<Block>, g: seq<Block>, h: seq<Block>, p: nat, q: nat, x: nat, i: nat, j: nat,
                   rootNew: bool, entryNew: bool)
    requires |d| == |e| == |g| == |h| && p < |d| && q < |d| && x < |d| && p != q && q != x
    requires e == if rootNew then d[p := ZeroBlock()] else d
    requires OneWord(e[p], g[p], i, false) && SameDisk(e, g, {p, q})
    requires if entryNew then g[q] == ZeroBlock() else g == e
    requires OneWord(g[q], h[q], j, false) && SameDisk(g, h, {q, x}) && h[x] == g[x]
    ensures SameDisk(d, h, {p, q}) && h[p] == g[p]
    ensures OneWord(d[p], h[p], i, rootNew) && OneWord(d[q], h[q], j, entryNew)
  {}

  /** Allocation stores the block where a lookup finds it, and writes nothing else: one field of the inode and its
      block count, one word of each index block on the way, and zeros around it in an index block that is new. */
  lemma Allocates(s: Fs, f: nat, off: nat)
    requires Inv(s) && f < |s.inodes| && Bmap(s, f, off, true).1.At?
    ensures var (r, m) := Bmap(s, f, off, true);
            var idx := off / 4096 % 0x1_0000_0000;
            && idx < 1049612 && |r.inodes| == |s.inodes| && |r.disk| == |s.disk|
            && |s.inodes[f].direct| == |r.inodes[f].direct| == 12
            && (forall g :: 0 <= g < |s.inodes| && g != f ==> r.inodes[g] == s.inodes[g])
            && m.block == Follow(r.inodes[f], r.disk, idx) != 0
            && Leads(s.inodes[f], s.disk, r.inodes[f], r.disk, idx)
  {
    hide Ptr, Follow, LeadsTwo, LeadsThree, EnsureAll, Extends, Counted, Inv, IsChain, Allocated;
    BmapKeeps(s, f, off);
    var r := Bmap(s, f, off, true).0;
    InvShaped(s);
    var idx := BlockIdx(off);
    ChainIsChain(s, f, idx);
    ExtendsGeometry(s, r);
    InvShaped(r);
    FollowIs(r, f, idx);
    if idx < 12 {
      OneStep(s, f, idx);
    } else if idx < 1036 {
      TwoSteps(s, f, idx - 12);
    } else {
      ThreeSteps(s, f, (idx - 1036) / 1024, (idx - 1036) % 1024);
    }
  }
}
