/** The block map of inode.c as values: direct, indirect and double-indirect pointers live partly in the
    inode and partly in blocks of the same disk they map. */
module BlockTree {
  import opened Bits
  import opened Blocks

  const DIRECT_BLOCKS: nat := 12
  const PER_BLOCK: nat := 1024 // block numbers in one index block
  const MAX_BLOCKS: nat := 12 + 1024 + 1024 * 1024

  /** `attrs` carries mode, owner, link count, type, times and padding along unread. */
  datatype DiskInode = DiskInode(size: nat, blocks: nat, direct: seq<Word>, indirect: Word, doubleIndirect: Word,
                                 attrs: seq<Byte>)

  /** A flat disk, the allocator's bitmap over its data area, and the inodes of all files. */
  datatype Fs = Fs(disk: seq<Block>, dataStart: nat, used: seq<bool>, inodes: seq<DiskInode>)

  // ---------- index blocks ----------

  /** Entry `i` of an index block. */
  function EntryOf(b: Block, i: nat): Word
    requires i < PER_BLOCK
  {
    WordAt(b, 4 * i)
  }

  function WithEntry(b: Block, i: nat, v: Word): Block
    requires i < PER_BLOCK
  {
    b[..4 * i] + Le32(v) + b[4 * i + 4..]
  }

  lemma WithEntryReads(b: Block, i: nat, v: Word, j: nat)
    requires i < PER_BLOCK && j < PER_BLOCK
    ensures EntryOf(WithEntry(b, i, v), j) == if j == i then v else EntryOf(b, j)
  {
    var c := WithEntry(b, i, v);
    if j == i {
      WordRoundTrip(v);
      assert forall k :: 0 <= k < 4 ==> c[4 * i + k] == Le32(v)[k];
    } else {
      assert c[4 * j..4 * j + 4] == b[4 * j..4 * j + 4];
      assert WordAt(c, 4 * j) == WordAt(c[4 * j..4 * j + 4], 0) && WordAt(b, 4 * j) == WordAt(b[4 * j..4 * j + 4], 0);
    }
  }

  // ---------- pointer locations ----------

  /** A place that can hold a block number. */
  datatype Loc =
    | Direct(f: nat, i: nat)
    | Ind(f: nat)
    | IndEntry(f: nat, i: nat)
    | Dbl(f: nat)
    | DblEntry(f: nat, i: nat)
    | DblLeaf(f: nat, i: nat, j: nat)

  predicate IsLoc(s: Fs, l: Loc) {
    l.f < |s.inodes| &&
    match l
    case Direct(_, i) => i < DIRECT_BLOCKS
    case IndEntry(_, i) => i < PER_BLOCK
    case DblEntry(_, i) => i < PER_BLOCK
    case DblLeaf(_, i, j) => i < PER_BLOCK && j < PER_BLOCK
    case _ => true
  }

  /** Data blocks hang off these; the others lead to index blocks. */
  predicate IsData(l: Loc) { l.Direct? || l.IndEntry? || l.DblLeaf? }

  predicate InInode(l: Loc) { l.Direct? || l.Ind? || l.Dbl? }

  function Parent(l: Loc): Loc
    requires !InInode(l)
  {
    match l
    case IndEntry(f, _) => Ind(f)
    case DblEntry(f, _) => Dbl(f)
    case DblLeaf(f, i, _) => DblEntry(f, i)
  }

  /** Which entry of its index block a location is. */
  function Index(l: Loc): nat
    requires !InInode(l)
  {
    match l
    case IndEntry(_, i) => i
    case DblEntry(_, i) => i
    case DblLeaf(_, _, j) => j
  }

  function Depth(l: Loc): nat { if InInode(l) then 0 else if l.DblLeaf? then 2 else 1 }

  predicate Shaped(s: Fs) {
    && (forall f :: 0 <= f < |s.inodes| ==> |s.inodes[f].direct| == DIRECT_BLOCKS)
    && 0 < s.dataStart && s.dataStart + |s.used| <= |s.disk| < 0x1_0000_0000
  }

  /** The block number stored at a location, 0 when absent. */
  function Ptr(s: Fs, l: Loc): Word
    requires Shaped(s) && IsLoc(s, l)
    decreases Depth(l)
  {
    match l
    case Direct(f, i) => s.inodes[f].direct[i]
    case Ind(f) => s.inodes[f].indirect
    case Dbl(f) => s.inodes[f].doubleIndirect
    case _ =>
      var p := Ptr(s, Parent(l));
      if p == 0 || p >= |s.disk| then 0 else EntryOf(s.disk[p], Index(l))
  }

  predicate Allocated(s: Fs, b: nat) {
    s.dataStart <= b < s.dataStart + |s.used| && s.used[b - s.dataStart]
  }

  /** Separation: every pointer in use names an allocated block of the data area, and no two
      locations, of any level and any file, name the same block. */
  ghost predicate Inv(s: Fs) {
    && Shaped(s)
    && (forall l :: IsLoc(s, l) && Ptr(s, l) != 0 ==> Allocated(s, Ptr(s, l)))
    && (forall l, k :: IsLoc(s, l) && IsLoc(s, k) && l != k && Ptr(s, l) != 0 ==> Ptr(s, l) != Ptr(s, k))
  }

  // ---------- allocation ----------

  /** Hang block `b` at location `l` of a file: mark it used, zero it if it is to be an index block,
      store its number, count it. */
  function Graft(s: Fs, l: Loc, b: Word): (r: Fs)
    requires Shaped(s) && IsLoc(s, l) && s.dataStart <= b < s.dataStart + |s.used|
    requires !InInode(l) ==> 0 < Ptr(s, Parent(l)) < |s.disk|
    ensures Shaped(r) && |r.inodes| == |s.inodes|
  {
    var ino := s.inodes[l.f].(blocks := s.inodes[l.f].blocks + 1);
    var ino' := match l
      case Direct(_, i) => ino.(direct := ino.direct[i := b])
      case Ind(_) => ino.(indirect := b)
      case Dbl(_) => ino.(doubleIndirect := b)
      case _ => ino;
    var disk := if InInode(l) then s.disk
                else var p := Ptr(s, Parent(l)); s.disk[p := WithEntry(s.disk[p], Index(l), b)];
    var disk' := if IsData(l) then disk else disk[b := ZeroBlock()];
    Fs(disk', s.dataStart, s.used[b - s.dataStart := true], s.inodes[l.f := ino'])
  }

  /** Make sure a location holds a block; false when the disk is full. */
  function Ensure(s: Fs, l: Loc): (r: (Fs, bool))
    requires Shaped(s) && IsLoc(s, l)
    requires !InInode(l) ==> 0 < Ptr(s, Parent(l)) < |s.disk|
    ensures Shaped(r.0) && |r.0.inodes| == |s.inodes|
  {
    if Ptr(s, l) != 0 then (s, true)
    else
      var k := FirstFree(s.used);
      if k == |s.used| then (s, false) else (Graft(s, l, s.dataStart + k), true)
  }

  // ---------- one graft ----------

  /** A fresh block: in the data area and free. */
  predicate IsFree(s: Fs, b: nat) {
    s.dataStart <= b < s.dataStart + |s.used| && !s.used[b - s.dataStart]
  }

  lemma ZeroEntries(i: nat)
    requires i < PER_BLOCK
    ensures EntryOf(ZeroBlock(), i) == 0
  {}

  ghost predicate CanGraft(s: Fs, l: Loc, b: Word) {
    && Inv(s) && IsLoc(s, l) && Ptr(s, l) == 0 && IsFree(s, b)
    && (!InInode(l) ==> Ptr(s, Parent(l)) != 0)
  }

  lemma GraftRoot(s: Fs, l: Loc, b: Word, x: Loc)
    requires CanGraft(s, l, b) && IsLoc(s, x) && InInode(x)
    ensures Ptr(Graft(s, l, b), x) == if x == l then b else Ptr(s, x)
  {}

  lemma GraftDisk(s: Fs, l: Loc, b: Word, p: nat)
    requires CanGraft(s, l, b) && p < |s.disk|
    ensures var d := Graft(s, l, b).disk;
            && |d| == |s.disk|
            && (p != b ==>
                  var leads := !InInode(l) && p == Ptr(s, Parent(l));
                  d[p] == if leads then WithEntry(s.disk[p], Index(l), b) else s.disk[p])
            && (!IsData(l) ==> d[b] == ZeroBlock())
            && (IsData(l) ==> d[b] == s.disk[b])
  {}

  /** Grafting changes what one location holds and no other. */
  lemma {:induction false} GraftPtr(s: Fs, l: Loc, b: Word, x: Loc)
    requires CanGraft(s, l, b) && IsLoc(s, x)
    ensures Ptr(Graft(s, l, b), x) == if x == l then b else Ptr(s, x)
    decreases Depth(x)
  {
    hide Graft, EntryOf, WithEntry;
    if InInode(x) {
      GraftRoot(s, l, b, x);
    } else {
      var q := Parent(x);
      GraftPtr(s, l, b, q);
      if q == l {
        GraftDisk(s, l, b, b);
        ZeroEntries(Index(x));
      } else if Ptr(s, q) != 0 {
        GraftDisk(s, l, b, Ptr(s, q));
        if !InInode(l) { WithEntryReads(s.disk[Ptr(s, Parent(l))], Index(l), b, Index(x)); }
      }
    }
  }

  lemma GraftFields(s: Fs, l: Loc, b: Word)
    requires CanGraft(s, l, b)
    ensures var r := Graft(s, l, b);
            && Shaped(r) && |r.disk| == |s.disk| && r.dataStart == s.dataStart
            && r.used == s.used[b - s.dataStart := true] && |r.inodes| == |s.inodes|
            && (forall x :: IsLoc(r, x) <==> IsLoc(s, x))
  {}

  /** Separation survives a graft. */
  lemma GraftInv(s: Fs, l: Loc, b: Word)
    requires CanGraft(s, l, b)
    ensures Inv(Graft(s, l, b))
  {
    hide Graft, Ptr;
    var r := Graft(s, l, b);
    GraftFields(s, l, b);
    forall x | IsLoc(r, x) ensures Ptr(r, x) == if x == l then b else Ptr(s, x) { GraftPtr(s, l, b, x); }
  }

  // ---------- counting the blocks of a file ----------

  /** Every location a file has. */
  ghost function FileLocs(f: nat): (r: set<Loc>) {
    (set i: nat | 0 <= i < DIRECT_BLOCKS :: Direct(f, i)) + {Ind(f), Dbl(f)}
    + (set i: nat | 0 <= i < PER_BLOCK :: IndEntry(f, i)) + (set i: nat | 0 <= i < PER_BLOCK :: DblEntry(f, i))
    + (set i: nat, j: nat | 0 <= i < PER_BLOCK && 0 <= j < PER_BLOCK :: DblLeaf(f, i, j))
  }

  lemma FileLocsAre(s: Fs, f: nat, l: Loc)
    requires f < |s.inodes|
    ensures l in FileLocs(f) <==> l.f == f && IsLoc(s, l)
  {}

  /** The locations of a file that hold a block. */
  ghost function Reach(s: Fs, f: nat): set<Loc>
    requires Shaped(s) && f < |s.inodes|
  {
    set l | l in FileLocs(f) && IsLoc(s, l) && Ptr(s, l) != 0
  }

  /** The inode's block counter counts its data and index blocks. */
  ghost predicate Counted(s: Fs) {
    Shaped(s) && forall f :: 0 <= f < |s.inodes| ==> s.inodes[f].blocks == |Reach(s, f)|
  }

  lemma GraftReach(s: Fs, l: Loc, b: Word, f: nat)
    requires CanGraft(s, l, b) && f < |s.inodes|
    ensures Reach(Graft(s, l, b), f) == if f == l.f then Reach(s, f) + {l} else Reach(s, f)
  {
    var r := Graft(s, l, b);
    forall x | IsLoc(s, x) ensures Ptr(r, x) == if x == l then b else Ptr(s, x) { GraftPtr(s, l, b, x); }
    forall x ensures x in FileLocs(f) <==> x.f == f && IsLoc(s, x) { FileLocsAre(s, f, x); }
  }

  lemma UnusedUnreached(s: Fs, l: Loc, f: nat)
    requires Shaped(s) && IsLoc(s, l) && Ptr(s, l) == 0 && f < |s.inodes|
    ensures l !in Reach(s, f)
  {}

  lemma GraftCounted(s: Fs, l: Loc, b: Word)
    requires CanGraft(s, l, b) && Counted(s)
    ensures Counted(Graft(s, l, b))
  {
    hide Reach, Ptr;
    var r := Graft(s, l, b);
    forall f | 0 <= f < |s.inodes| ensures r.inodes[f].blocks == |Reach(r, f)| {
      GraftReach(s, l, b, f);
      UnusedUnreached(s, l, f);
    }
  }

  // ---------- mapping a file offset ----------

  /** The pointers between an inode and logical block `idx` of its file, root first. */
  function Chain(f: nat, idx: nat): (c: seq<Loc>)
    requires idx < MAX_BLOCKS
    ensures 1 <= |c| && IsData(c[|c| - 1])
  {
    if idx < DIRECT_BLOCKS then [Direct(f, idx)]
    else if idx < DIRECT_BLOCKS + PER_BLOCK then [Ind(f), IndEntry(f, idx - DIRECT_BLOCKS)]
    else
      var k := idx - DIRECT_BLOCKS - PER_BLOCK;
      [Dbl(f), DblEntry(f, k / PER_BLOCK), DblLeaf(f, k / PER_BLOCK, k % PER_BLOCK)]
  }

  /** Where the block number of logical block `idx` is kept. */
  function DataLoc(f: nat, idx: nat): (l: Loc)
    requires idx < MAX_BLOCKS
    ensures IsData(l) && l.f == f
    ensures forall s: Fs :: f < |s.inodes| ==> IsLoc(s, l)
  {
    var c := Chain(f, idx); c[|c| - 1]
  }

  /** The logical block index of an offset, cut to 32 bits as the code's variable is. */
  function BlockIdx(off: nat): nat { off / BLOCK_SIZE % 0x1_0000_0000 }

  /** Logical blocks have their own places. */
  lemma DataLocInjective(f: nat, a: nat, g: nat, b: nat)
    requires a < MAX_BLOCKS && b < MAX_BLOCKS && DataLoc(f, a) == DataLoc(g, b)
    ensures f == g && a == b
  {}

  ghost predicate IsChain(s: Fs, c: seq<Loc>)
    requires Shaped(s)
  {
    && (forall i :: 0 <= i < |c| ==> IsLoc(s, c[i]))
    && (forall i :: 0 < i < |c| ==> !InInode(c[i]) && Parent(c[i]) == c[i - 1])
    && (c != [] && !InInode(c[0]) ==> 0 < Ptr(s, Parent(c[0])) < |s.disk|)
  }

  lemma ChainIsChain(s: Fs, f: nat, idx: nat)
    requires Shaped(s) && f < |s.inodes| && idx < MAX_BLOCKS
    ensures IsChain(s, Chain(f, idx))
  {}

  /** What one `Ensure` does to the pointers, the disk and the invariant. */
  lemma EnsureFacts(s: Fs, l: Loc)
    requires Inv(s) && IsLoc(s, l) && (!InInode(l) ==> Ptr(s, Parent(l)) != 0)
    ensures var (r, ok) := Ensure(s, l);
            && Inv(r) && (Counted(s) ==> Counted(r))
            && r.dataStart == s.dataStart && |r.used| == |s.used| && |r.disk| == |s.disk| && |r.inodes| == |s.inodes|
            && (forall x :: IsLoc(r, x) <==> IsLoc(s, x))
            && (ok ==> Ptr(r, l) != 0)
            && (forall x :: IsLoc(s, x) && x != l ==> Ptr(r, x) == Ptr(s, x))
            && (ok <==> Ptr(s, l) != 0 || exists k :: 0 <= k < |s.used| && !s.used[k])
            && (!ok ==> r == s)
  {
    hide Graft, Ptr, Counted, Inv;
    InvShaped(s);
    var k := FirstFree(s.used);
    if Ptr(s, l) == 0 && k < |s.used| {
      var b := s.dataStart + k;
      CanGraftFresh(s, l, b);
      GraftFields(s, l, b);
      GraftInv(s, l, b);
      if Counted(s) { GraftCounted(s, l, b); }
      forall x | IsLoc(s, x) ensures Ptr(Graft(s, l, b), x) == if x == l then b else Ptr(s, x) { GraftPtr(s, l, b, x); }
    }
  }

  lemma InvShaped(s: Fs)
    requires Inv(s)
    ensures Shaped(s)
    ensures forall l :: IsLoc(s, l) ==> Ptr(s, l) < |s.disk|
  {}

  lemma CanGraftFresh(s: Fs, l: Loc, b: Word)
    requires Inv(s) && IsLoc(s, l) && Ptr(s, l) == 0 && IsFree(s, b) && (!InInode(l) ==> Ptr(s, Parent(l)) != 0)
    ensures CanGraft(s, l, b)
  {}
}
