/** superblock.c: the layout of a new file system, computed in 32-bit arithmetic in two passes. */
module Layout {
  import opened Blocks

  const LIMIT: int := 0x1_0000_0000
  const BITS_PER_BLOCK: nat := 32768

  function Add32(a: Word, b: Word): Word { (a + b) % LIMIT }
  function Sub32(a: Word, b: Word): Word { (a - b) % LIMIT }

  /** Blocks for `n` bits, rounded up; the sum can wrap. */
  function BitmapBlocks(n: Word): Word { Add32(n, 32767) / BITS_PER_BLOCK }

  function Clamp(n: Word, low: Word, high: Word): Word { if n < low then low else if n > high then high else n }

  function Inodes(total: Word): Word { Clamp(Sub32(total, 100) / 256, 256, 16384) }
  function JournalSize(total: Word): Word { Clamp(total / 8, 256, 2048) }
  function InodeBitmap(total: Word): Word { BitmapBlocks(Inodes(total)) }
  function InodeTable(total: Word): Word { Add32(Inodes(total), 31) / 32 }

  /** Blocks left for data beside a data bitmap of `b` blocks. */
  function Rest(total: Word, b: Word): Word {
    Sub32(total, (1 + JournalSize(total) + InodeBitmap(total) + b + InodeTable(total)) % LIMIT)
  }

  /** The data bitmap of the first pass, sized for almost the whole device, and that of the second. */
  function FirstBitmap(total: Word): Word { BitmapBlocks(Sub32(Sub32(total, 1), InodeBitmap(total))) }
  function FinalBitmap(total: Word): Word { BitmapBlocks(Rest(total, FirstBitmap(total))) }

  datatype Plan = Plan(totalInodes: Word, journalStart: Word, journalBlocks: Word,
                       inodeBitmapStart: Word, inodeBitmapBlocks: Word, dataBitmapStart: Word, dataBitmapBlocks: Word,
                       inodeTableStart: Word, inodeTableBlocks: Word, dataStart: Word, dataBlocks: Word)

  function Planned(total: Word): Plan {
    var j, i, d, t := JournalSize(total), InodeBitmap(total), FinalBitmap(total), InodeTable(total);
    Plan(Inodes(total), 1, j, Add32(1, j), i, Add32(Add32(1, j), i), d, Add32(Add32(Add32(1, j), i), d), t,
         Add32(Add32(Add32(Add32(1, j), i), d), t), Rest(total, d))
  }

  class Superblock {
    var totalBlocks: Word
    var totalInodes: Word
    var journalStart: Word
    var journalBlocks: Word
    var inodeBitmapStart: Word
    var inodeBitmapBlocks: Word
    var dataBitmapStart: Word
    var dataBitmapBlocks: Word
    var inodeTableStart: Word
    var inodeTableBlocks: Word
    var dataStart: Word
    var dataBlocks: Word

    function Value(): Plan
      reads this
    {
      Plan(totalInodes, journalStart, journalBlocks, inodeBitmapStart, inodeBitmapBlocks, dataBitmapStart,
        dataBitmapBlocks,
           inodeTableStart, inodeTableBlocks, dataStart, dataBlocks)
    }

    /** `superblock_init`. */
    method Init(total: Word)
      modifies this
      ensures totalBlocks == total && Value() == Planned(total)
      ensures total >= 266 ==> Tiles(Value(), total)
      ensures Sized(Value(), total)
    {
      hide Tiles, Sized, Inodes, InodeBitmap, InodeTable, JournalSize, FirstBitmap, FinalBitmap, Rest;
      TilesIff(total);
      SizesAre(total);
      FirstPass(total);
      SecondPass(total);
      PlaceRegions();
    }

    /** Sizes of the regions, the data bitmap for almost the whole device. */
    method FirstPass(total: Word)
      modifies `totalBlocks, `totalInodes, `inodeBitmapBlocks, `dataBlocks, `dataBitmapBlocks, `inodeTableBlocks
      modifies `journalBlocks
      ensures totalBlocks == total && totalInodes == Inodes(total) && journalBlocks == JournalSize(total)
      ensures inodeBitmapBlocks == InodeBitmap(total) && inodeTableBlocks == InodeTable(total)
      ensures dataBitmapBlocks == FirstBitmap(total)
    {
      totalBlocks := total;
      totalInodes := Sub32(total, 100) / 256;
      if totalInodes < 256 {
        totalInodes := 256;
      }
      if totalInodes > 16384 {
        totalInodes := 16384;
      }
      assert totalInodes == Inodes(total);
      hide Inodes;
      inodeBitmapBlocks := Add32(totalInodes, 32767) / 32768;
      dataBlocks := Sub32(Sub32(total, 1), inodeBitmapBlocks);
      dataBitmapBlocks := Add32(dataBlocks, 32767) / 32768;
      inodeTableBlocks := Add32(totalInodes, 31) / 32;
      var size: Word := total / 8;
      if size > 2048 {
        size := 2048;
      }
      if size < 256 {
        size := 256;
      }
      journalBlocks := size;
    }

    /** The data area gets what the others leave, the data bitmap is sized for it, and the area takes the rest. */
    method SecondPass(total: Word)
      requires journalBlocks == JournalSize(total) && inodeBitmapBlocks == InodeBitmap(total)
      requires inodeTableBlocks == InodeTable(total) && dataBitmapBlocks == FirstBitmap(total)
      modifies `dataBlocks, `dataBitmapBlocks
      ensures dataBitmapBlocks == FinalBitmap(total) && dataBlocks == Rest(total, FinalBitmap(total))
    {
      hide Inodes, InodeBitmap, InodeTable, JournalSize, FirstBitmap;
      var metadata: Word := (1 + journalBlocks + inodeBitmapBlocks + dataBitmapBlocks + inodeTableBlocks) % LIMIT;
      dataBlocks := Sub32(total, metadata);
      assert dataBlocks == Rest(total, FirstBitmap(total));
      dataBitmapBlocks := Add32(dataBlocks, 32767) / 32768;
      metadata := (1 + journalBlocks + inodeBitmapBlocks + dataBitmapBlocks + inodeTableBlocks) % LIMIT;
      dataBlocks := Sub32(total, metadata);
    }

    /** The running block number that hands out the region starts. */
    method PlaceRegions()
      modifies `journalStart, `inodeBitmapStart, `dataBitmapStart, `inodeTableStart, `dataStart
      ensures journalStart == 1 && inodeBitmapStart == Add32(1, journalBlocks)
      ensures dataBitmapStart == Add32(inodeBitmapStart, inodeBitmapBlocks)
      ensures inodeTableStart == Add32(dataBitmapStart, dataBitmapBlocks)
      ensures dataStart == Add32(inodeTableStart, inodeTableBlocks)
    {
      var current: Word := 1;
      journalStart := current;
      current := Add32(current, journalBlocks);
      inodeBitmapStart := current;
      current := Add32(current, inodeBitmapBlocks);
      dataBitmapStart := current;
      current := Add32(current, dataBitmapBlocks);
      inodeTableStart := current;
      current := Add32(current, inodeTableBlocks);
      dataStart := current;
    }
  }

  /** Block 0, journal, inode bitmap, data bitmap, inode table and data area follow each other without gap or
      overlap and end with the device. */
  predicate Tiles(p: Plan, total: Word) {
    && p.journalStart == 1
    && p.inodeBitmapStart == p.journalStart + p.journalBlocks
    && p.dataBitmapStart == p.inodeBitmapStart + p.inodeBitmapBlocks
    && p.inodeTableStart == p.dataBitmapStart + p.dataBitmapBlocks
    && p.dataStart == p.inodeTableStart + p.inodeTableBlocks
    && p.dataStart + p.dataBlocks == total
  }

  lemma SmallParts(total: Word)
    ensures 256 <= Inodes(total) <= 16384 && 256 <= JournalSize(total) <= 2048
    ensures InodeBitmap(total) == 1 && 8 <= InodeTable(total) <= 512 && 32 * InodeTable(total) >= Inodes(total)
    ensures FirstBitmap(total) <= 131071 && FinalBitmap(total) <= 131071
  {}

  /** The rounding sum wraps for the last 32767 numbers; before, the division rounds up. */
  lemma BitmapIs(n: Word)
    ensures n > 4294934528 ==> BitmapBlocks(n) == 0
    ensures n <= 4294934528 ==> BITS_PER_BLOCK * (BitmapBlocks(n) - 1) < n <= BITS_PER_BLOCK * BitmapBlocks(n)
  {}

  /** How large the regions are: an inode for 256 blocks but 256 at least and 16384 at most (and 16384 below 100
      blocks, where the subtraction wraps), 32 inodes to a block of the table, an eighth of the device for the journal
      but 256 blocks at least and 2048 at most, and a bit for each block of the data area of the first pass. */
  predicate Sized(p: Plan, total: Word) {
    && (if total < 100 || total >= 4194404 then p.totalInodes == 16384
        else if total < 65892 then p.totalInodes == 256
        else 256 * p.totalInodes <= total - 100 < 256 * (p.totalInodes + 1))
    && p.inodeBitmapBlocks == 1
    && 32 * (p.inodeTableBlocks - 1) < p.totalInodes <= 32 * p.inodeTableBlocks
    && (if total < 2048 then p.journalBlocks == 256
        else if total >= 16384 then p.journalBlocks == 2048
        else 8 * p.journalBlocks <= total < 8 * (p.journalBlocks + 1))
    && (267 <= total <= 4294934530 ==>
          var first := (total - 2 + 32767) / 32768;
          var area := total - 2 - p.journalBlocks - p.inodeTableBlocks - first;
          32768 * (p.dataBitmapBlocks - 1) < area <= 32768 * p.dataBitmapBlocks)
  }

  lemma CountsAre(total: Word)
    ensures if total < 100 || total >= 4194404 then Inodes(total) == 16384
            else if total < 65892 then Inodes(total) == 256
            else 256 * Inodes(total) <= total - 100 < 256 * (Inodes(total) + 1)
    ensures 32 * (InodeTable(total) - 1) < Inodes(total) <= 32 * InodeTable(total)
    ensures if total < 2048 then JournalSize(total) == 256
            else if total >= 16384 then JournalSize(total) == 2048
            else 8 * JournalSize(total) <= total < 8 * (JournalSize(total) + 1)
  {}

  lemma SizesAre(total: Word)
    ensures Sized(Planned(total), total)
  {
    hide Inodes, InodeBitmap, InodeTable, JournalSize, FirstBitmap, Rest, BitmapBlocks;
    CountsAre(total);
    SmallParts(total);
    if 267 <= total <= 4294934530 {
      FirstIs(total);
      FirstFits(total);
      RestIs(total, FirstBitmap(total));
      BitmapIs(Rest(total, FirstBitmap(total)));
      assert FirstBitmap(total) == (total - 2 + 32767) / 32768;
    }
  }

  function Metadata(total: Word, b: nat): nat { 2 + JournalSize(total) + InodeTable(total) + b }

  lemma RestIs(total: Word, b: Word)
    requires b <= 131071
    ensures Rest(total, b) == if total >= Metadata(total, b) then total - Metadata(total, b)
      else total - Metadata(total, b) + LIMIT
  {
    hide Inodes, JournalSize, InodeTable, InodeBitmap, FirstBitmap, FinalBitmap;
    SmallParts(total);
  }

  /** The fixed parts grow with the device, but slower than it. */
  lemma FixedParts(total: Word)
    ensures total < 65636 && total >= 100 ==> InodeTable(total) == 8
    ensures total < 2056 ==> JournalSize(total) == 256
    ensures total >= 2056 ==> JournalSize(total) <= total / 8
    ensures total >= 0x1000_0000 ==> JournalSize(total) == 2048 && InodeTable(total) == 512
  {}

  lemma FirstIs(total: Word)
    requires total >= 266
    ensures total > 4294934530 ==> FirstBitmap(total) == 0
    ensures total <= 4294934530 ==>
      BITS_PER_BLOCK * (FirstBitmap(total) - 1) < total - 2 <= BITS_PER_BLOCK * FirstBitmap(total)
  {
    SmallParts(total);
    hide Inodes, InodeBitmap, BitmapBlocks;
    BitmapIs(total - 2);
  }

  lemma FirstFits(total: Word)
    requires total >= 267
    ensures Metadata(total, FirstBitmap(total)) <= total
  {
    hide Inodes, JournalSize, InodeTable, FirstBitmap, FinalBitmap;
    SmallParts(total);
    FixedParts(total);
    FirstIs(total);
  }

  lemma FinalFits(total: Word)
    requires total >= 266
    ensures Metadata(total, FinalBitmap(total)) <= total
  {
    hide Inodes, JournalSize, InodeTable, FirstBitmap, Rest, BitmapBlocks;
    SmallParts(total);
    FixedParts(total);
    FirstIs(total);
    RestIs(total, FirstBitmap(total));
    BitmapIs(Rest(total, FirstBitmap(total)));
    if total > 266 { FirstFits(total); }
  }

  /** The regions tile the device exactly when it has at least 266 blocks. */
  lemma TilesIff(total: Word)
    ensures Tiles(Planned(total), total) <==> total >= 266
  {
    hide Inodes, JournalSize, InodeTable, FirstBitmap, FinalBitmap, Rest, InodeBitmap;
    SmallParts(total);
    RestIs(total, FinalBitmap(total));
    if total >= 266 { FinalFits(total); }
  }

  /** Data blocks without a bit. */
  function Uncovered(p: Plan): nat {
    var bits := BITS_PER_BLOCK * p.dataBitmapBlocks; if p.dataBlocks > bits then p.dataBlocks - bits else 0
  }

  /** How many blocks the data bitmap lost between the passes. */
  function Shrinkage(total: Word): nat {
    if FirstBitmap(total) > FinalBitmap(total) then FirstBitmap(total) - FinalBitmap(total) else 0
  }

  /** The data bitmap leaves at most as many data blocks uncovered as it shrank by, and never more than 5,
      exactly up to 4294937090 blocks; beyond, the rounding sum wraps and there is no data bitmap at all. */
  lemma CoverageIff(total: Word)
    requires total >= 266
    ensures Uncovered(Planned(total)) <= Shrinkage(total) <==> total <= 4294937090
    ensures total <= 4294937090 ==> Shrinkage(total) <= 5
    ensures total > 4294937090 ==> Planned(total).dataBitmapBlocks == 0
  {
    hide Inodes, JournalSize, InodeTable, FirstBitmap, Rest, BitmapBlocks, InodeBitmap;
    SmallParts(total);
    FirstIs(total);
    FinalFits(total);
    RestIs(total, FirstBitmap(total));
    RestIs(total, FinalBitmap(total));
    BitmapIs(Rest(total, FirstBitmap(total)));
    FixedParts(total);
  }

  /** The shrinkage can cost exactly one block. */
  lemma OneBlockUncovered(total: Word)
    requires total == 34828
    ensures Tiles(Planned(total), total) && Shrinkage(total) == 1 && Uncovered(Planned(total)) == 1
  {
    hide Inodes, JournalSize, InodeTable, InodeBitmap, FirstBitmap, FinalBitmap, Rest, BitmapBlocks, Tiles;
    TilesIff(total);
    BitmapsOf(total);
    RestIs(total, 1);
  }

  lemma BitmapsOf(total: Word)
    requires total == 34828
    ensures JournalSize(total) == 2048 && InodeTable(total) == 8 && FirstBitmap(total) == 2 && FinalBitmap(total) == 1
  {
    hide Inodes, InodeTable, InodeBitmap, FirstBitmap, Rest, BitmapBlocks;
    FixedParts(total);
    FirstIs(total);
    RestIs(total, 2);
    BitmapIs(Rest(total, 2));
  }
}
