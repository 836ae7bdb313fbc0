/** The inode table: 128-byte records, 32 to a block, and what rewriting one of them leaves alone. */
module InodeTable {
  import opened Blocks
  import opened BlockTree

  const INODE_SIZE: nat := 128
  const INODES_PER_BLOCK: nat := 32

  type Record = r: seq<Byte> | |r| == INODE_SIZE witness seq(INODE_SIZE, i => 0)

  // ---------- one record ----------

  predicate WellFormed(d: DiskInode) {
    && |d.direct| == DIRECT_BLOCKS && |d.attrs| == 56
    && d.size < 0x1_0000_0000_0000_0000 && d.blocks < 0x1_0000_0000_0000_0000
  }

  function LongWords(v: nat): (ws: seq<Word>)
    requires v < 0x1_0000_0000_0000_0000
    ensures |ws| == 2
  {
    [v % 0x1_0000_0000, v / 0x1_0000_0000]
  }

  function LongAt(s: seq<Byte>, at: nat): nat
    requires at + 8 <= |s|
  {
    WordAt(s, at) + 0x1_0000_0000 * WordAt(s, at + 4)
  }

  /** Mode to type, size and block count, times, pointers, padding. */
  function Encode(d: DiskInode): (r: Record)
    requires WellFormed(d)
  {
    d.attrs[..12] + Words(LongWords(d.size) + LongWords(d.blocks)) + d.attrs[12..36]
    + Words(d.direct + [d.indirect, d.doubleIndirect]) + d.attrs[36..]
  }

  function Decode(r: Record): (d: DiskInode)
    ensures WellFormed(d)
  {
    DiskInode(LongAt(r, 12), LongAt(r, 20),
      seq(DIRECT_BLOCKS, i requires 0 <= i < DIRECT_BLOCKS => WordAt(r, 52 + 4 * i)),
              WordAt(r, 100), WordAt(r, 104), r[..12] + r[28..52] + r[108..])
  }

  lemma SameWord(front: seq<Byte>, tail: seq<Byte>, at: nat)
    requires at + 4 <= |tail|
    ensures WordAt(front + tail, |front| + at) == WordAt(tail, at)
  {}

  lemma WordBehind(front: seq<Byte>, ws: seq<Word>, rest: seq<Byte>, i: nat)
    requires i < |ws|
    ensures WordAt(front + Words(ws) + rest, |front| + 4 * i) == ws[i]
  {
    hide Words;
    var s, tail := front + Words(ws) + rest, Words(ws) + rest;
    assert WordAt(tail, 4 * i) == ws[i] by { WordsDecode(ws, i, rest); }
    assert s == front + tail;
    SameWord(front, tail, 4 * i);
  }

  lemma EncodedCounts(d: DiskInode)
    requires WellFormed(d)
    ensures LongAt(Encode(d), 12) == d.size && LongAt(Encode(d), 20) == d.blocks
  {
    hide Words, WordAt;
    var front, ws := d.attrs[..12], LongWords(d.size) + LongWords(d.blocks);
    var rest := d.attrs[12..36] + Words(d.direct + [d.indirect, d.doubleIndirect]) + d.attrs[36..];
    assert Encode(d) == front + Words(ws) + rest;
    WordBehind(front, ws, rest, 0);
    WordBehind(front, ws, rest, 1);
    WordBehind(front, ws, rest, 2);
    WordBehind(front, ws, rest, 3);
  }

  lemma EncodedPointer(d: DiskInode, i: nat)
    requires WellFormed(d) && i < 14
    ensures WordAt(Encode(d), 52 + 4 * i) == (d.direct + [d.indirect, d.doubleIndirect])[i]
  {
    hide Words, WordAt;
    var front := d.attrs[..12] + Words(LongWords(d.size) + LongWords(d.blocks)) + d.attrs[12..36];
    WordBehind(front, d.direct + [d.indirect, d.doubleIndirect], d.attrs[36..], i);
    assert |front| == 52;
  }

  lemma EncodedAttrs(d: DiskInode)
    requires WellFormed(d)
    ensures Encode(d)[..12] + Encode(d)[28..52] + Encode(d)[108..] == d.attrs
  {
    hide Words;
    var r := Encode(d);
    assert r[..12] == d.attrs[..12];
    assert r[28..52] == d.attrs[12..36];
    assert r[108..] == d.attrs[36..];
  }

  /** Writing an inode record and reading it back loses nothing. */
  lemma InodeRoundTrip(d: DiskInode)
    requires WellFormed(d)
    ensures Decode(Encode(d)) == d
  {
    hide Words, WordAt, Encode, LongAt;
    var r := Encode(d);
    EncodedCounts(d);
    EncodedAttrs(d);
    EncodedPointer(d, 12);
    EncodedPointer(d, 13);
    forall i | 0 <= i < DIRECT_BLOCKS ensures Decode(r).direct[i] == d.direct[i] {
      EncodedPointer(d, i);
    }
  }

  // ---------- the table ----------

  /** Block of the table and byte offset in it. */
  function TableBlock(inum: nat): nat { inum % 0x200_0000 / INODES_PER_BLOCK }
  function TableOffset(inum: nat): nat { inum % 0x200_0000 % INODES_PER_BLOCK * INODE_SIZE }

  /** The record of an inode on disk. */
  function OnDisk(disk: seq<Block>, tableStart: nat, inum: nat): DiskInode
    requires tableStart + TableBlock(inum) < |disk|
  {
    OffsetFits(inum);
    Decode(disk[tableStart + TableBlock(inum)][TableOffset(inum)..TableOffset(inum) + INODE_SIZE])
  }

  /** `memcpy` of a record into its block. */
  function Merge(block: Block, inum: nat, d: DiskInode): Block
    requires WellFormed(d)
  {
    OffsetFits(inum);
    block[..TableOffset(inum)] + Encode(d) + block[TableOffset(inum) + INODE_SIZE..]
  }

  /** The same from the byte offset the code computes, a product cut to 32 bits. */
  lemma PlaceIs(inum: nat)
    ensures inum * INODE_SIZE % 0x1_0000_0000 / BLOCK_SIZE == TableBlock(inum)
    ensures inum * INODE_SIZE % 0x1_0000_0000 % BLOCK_SIZE == TableOffset(inum)
  {
    var k, q := inum % 0x200_0000, inum / 0x200_0000;
    assert inum * INODE_SIZE == k * INODE_SIZE + q * 0x1_0000_0000;
    Wraps(k * INODE_SIZE, q);
    var b, o := k / INODES_PER_BLOCK, k % INODES_PER_BLOCK;
    assert k * INODE_SIZE == b * BLOCK_SIZE + o * INODE_SIZE;
  }

  lemma Wraps(a: nat, q: nat)
    requires a < 0x1_0000_0000
    ensures (a + q * 0x1_0000_0000) % 0x1_0000_0000 == a
  {
    assert (a + q * 0x1_0000_0000) / 0x1_0000_0000 == q;
  }

  lemma OffsetFits(inum: nat)
    ensures TableOffset(inum) + INODE_SIZE <= BLOCK_SIZE
  {}

  /** Two inodes share a place exactly when their numbers agree in the low 25 bits; otherwise their records
      do not overlap. */
  lemma PlacesDisjointIff(a: nat, b: nat)
    ensures TableBlock(a) == TableBlock(b) && TableOffset(a) == TableOffset(b) <==> a % 0x200_0000 == b % 0x200_0000
    ensures TableBlock(a) == TableBlock(b) && a % 0x200_0000 != b % 0x200_0000 ==>
      TableOffset(a) + INODE_SIZE <= TableOffset(b) || TableOffset(b) + INODE_SIZE <= TableOffset(a)
  {
    var k, l := a % 0x200_0000, b % 0x200_0000;
    assert k == k / INODES_PER_BLOCK * INODES_PER_BLOCK + k % INODES_PER_BLOCK;
    assert l == l / INODES_PER_BLOCK * INODES_PER_BLOCK + l % INODES_PER_BLOCK;
  }

  /** Merging one record: it reads back, and every inode with another place is unchanged. */
  lemma MergeReads(disk: seq<Block>, tableStart: nat, inum: nat, d: DiskInode, other: nat)
    requires WellFormed(d) && tableStart + TableBlock(inum) < |disk| && tableStart + TableBlock(other) < |disk|
    ensures var b := tableStart + TableBlock(inum);
            OnDisk(disk[b := Merge(disk[b], inum, d)], tableStart, other) ==
              if other % 0x200_0000 == inum % 0x200_0000 then d else OnDisk(disk, tableStart, other)
  {
    hide Encode, Decode, TableBlock, TableOffset;
    var b := tableStart + TableBlock(inum);
    var was, now := disk[b], Merge(disk[b], inum, d);
    OffsetFits(inum);
    OffsetFits(other);
    PlacesDisjointIff(inum, other);
    var o, p := TableOffset(inum), TableOffset(other);
    assert now[o..o + INODE_SIZE] == Encode(d);
    InodeRoundTrip(d);
    if TableBlock(other) == TableBlock(inum) && p != o {
      assert now[p..p + INODE_SIZE] == was[p..p + INODE_SIZE];
    }
  }
}
