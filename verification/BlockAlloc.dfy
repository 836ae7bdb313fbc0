/** block_alloc.c: first-fit allocation over a packed in-memory bitmap, updated in place. */
module BlockAlloc {
  import opened Bits

  datatype Status = Success | EInval | ENoSpace

  class BlockAllocator {
    const bitmap: array<bv8>
    const totalBlocks: nat
    const dataStart: nat
    var freeBlocks: nat
    var allocCount: nat
    var freeCount: nat

    /** Bit `i` stands for block `dataStart + i`; the counter is the number of clear bits. */
    ghost predicate Valid()
      reads this, bitmap
    {
      && totalBlocks <= 8 * bitmap.Length && 0 < dataStart && dataStart + totalBlocks < 0x1_0000_0000
      && freeBlocks == CountFree(Used())
    }

    ghost function Used(): (used: seq<bool>)
      requires totalBlocks <= 8 * bitmap.Length
      reads this, bitmap
      ensures |used| == totalBlocks
    {
      Unpack(bitmap[..], totalBlocks)
    }

    /** Start from the bitmap bytes read from disk; the free count is taken by a scan. */
    constructor (loaded: array<bv8>, dataStart: nat, totalBlocks: nat)
      requires totalBlocks <= 8 * loaded.Length && 0 < dataStart && dataStart + totalBlocks < 0x1_0000_0000
      ensures Valid() && bitmap == loaded && this.dataStart == dataStart && this.totalBlocks == totalBlocks
      ensures Used() == Unpack(loaded[..], totalBlocks)
    {
      bitmap, this.dataStart, this.totalBlocks := loaded, dataStart, totalBlocks;
      freeBlocks, allocCount, freeCount := 0, 0, 0;
      new;
      hide Unpack, BitAt, Mask, CountFree, TestBit;
      assert Used()[..0] == [];
      CountZeroIff([]);
      for i := 0 to totalBlocks
        invariant freeBlocks == CountFree(Used()[..i])
        invariant bitmap == loaded && bitmap[..] == loaded[..]
      {
        CountSnoc(Used(), i);
        if !TestBit(i) {
          freeBlocks := freeBlocks + 1;
        }
      }
      assert Used()[..totalBlocks] == Used();
    }

    predicate TestBit(i: nat)
      requires i < totalBlocks <= 8 * bitmap.Length
      reads this, bitmap
      ensures TestBit(i) == Used()[i]
    {
      bitmap[i / 8] & Mask(i % 8) != 0
    }

    method WriteBit(i: nat, v: bool)
      requires i < totalBlocks <= 8 * bitmap.Length
      modifies bitmap
      ensures Used() == old(Used())[i := v]
    {
      hide Unpack, BitAt, Mask;
      ghost var bytes := bitmap[..];
      SetBit(bytes, totalBlocks, i);
      if v {
        bitmap[i / 8] := bitmap[i / 8] | Mask(i % 8);
        assert bitmap[..] == bytes[i / 8 := bytes[i / 8] | Mask(i % 8)];
      } else {
        bitmap[i / 8] := bitmap[i / 8] & !Mask(i % 8);
        assert bitmap[..] == bytes[i / 8 := bytes[i / 8] & !Mask(i % 8)];
      }
    }

    /** The marking loops of `block_alloc_multiple` and `block_free_multiple`. */
    method WriteRun(first: nat, count: nat, v: bool)
      requires first + count <= totalBlocks <= 8 * bitmap.Length
      modifies bitmap
      ensures Used() == Fill(old(Used()), first, count, v)
    {
      hide Unpack, BitAt, Mask, Fill;
      ghost var used := Used();
      FillNone(used, first, v);
      for i := 0 to count
        invariant Used() == Fill(used, first, i, v)
      {
        FillStep(used, first, i, v);
        WriteBit(first + i, v);
      }
    }

    /** `block_alloc`: takes the lowest free block; 0 exactly when there is none. */
    method Alloc() returns (block: nat)
      requires Valid()
      modifies this`freeBlocks, this`allocCount, bitmap
      ensures Valid()
      ensures var used := old(Used());
              var k := FirstFree(used);
              if k == |used| then block == 0 && Used() == used
              else block == dataStart + k && Used() == used[k := true]
    {
      hide Unpack, BitAt, Mask, CountFree, FirstFree, TestBit;
      CountZeroIff(Used());
      if freeBlocks == 0 {
        AllUsed(Used());
        return 0;
      }
      var i := 0;
      while i < totalBlocks
        invariant i <= totalBlocks && Used() == old(Used()) && Valid() && freeBlocks == old(freeBlocks)
        invariant forall j :: 0 <= j < i ==> Used()[j]
      {
        if !TestBit(i) {
          CountUpdate(Used(), i, true);
          FirstFreeIs(Used(), i);
          WriteBit(i, true);
          freeBlocks := freeBlocks - 1;
          allocCount := allocCount + 1;
          return dataStart + i;
        }
        i := i + 1;
      }
      assert false; // the "inconsistent state" exit
    }

    /** `block_free`: fails, changing nothing, on a block out of range or already free. */
    method Free(block: nat) returns (status: Status)
      requires Valid()
      modifies this`freeBlocks, this`freeCount, bitmap
      ensures Valid()
      ensures var used := old(Used());
              if dataStart <= block < dataStart + totalBlocks && used[block - dataStart] then
                status == Success && Used() == used[block - dataStart := false]
              else status == EInval && Used() == used
    {
      hide Unpack, BitAt, Mask, CountFree, TestBit;
      if block < dataStart || block >= dataStart + totalBlocks {
        return EInval;
      }
      var bit := block - dataStart;
      if !TestBit(bit) {
        return EInval;
      }
      CountUpdate(Used(), bit, false);
      WriteBit(bit, false);
      freeBlocks := freeBlocks + 1;
      freeCount := freeCount + 1;
      return Success;
    }

    /** `block_alloc_multiple`: the leftmost free run of `count` blocks; fails exactly when there is none. */
    method AllocMultiple(count: nat) returns (status: Status, start: nat)
      requires Valid()
      modifies this`freeBlocks, this`allocCount, bitmap
      ensures Valid()
      ensures status == EInval <==> count == 0
      ensures status == Success ==>
        && dataStart <= start && FreeRun(old(Used()), start - dataStart, count)
        && Used() == Fill(old(Used()), start - dataStart, count, true)
        && forall k :: 0 <= k < start - dataStart ==> !FreeRun(old(Used()), k, count)
      ensures status != Success ==> Used() == old(Used())
      ensures status == ENoSpace ==> forall k: nat :: !FreeRun(Used(), k, count)
    {
      hide Unpack, BitAt, Mask, CountFree, Fill, TestBit;
      ghost var used := Used();
      if count == 0 {
        return EInval, 0;
      }
      if freeBlocks < count {
        forall k: nat ensures !FreeRun(used, k, count) {
          if FreeRun(used, k, count) { RunFits(used, k, count); }
        }
        return ENoSpace, 0;
      }
      var consecutive, first, i := 0, 0, 0;
      while i < totalBlocks
        invariant i <= totalBlocks && consecutive <= i && consecutive < count
        invariant Used() == used && Valid()
        invariant consecutive > 0 ==> first == i - consecutive
        invariant FreeRun(used, i - consecutive, consecutive)
        invariant consecutive < i ==> used[i - consecutive - 1]
        invariant forall k :: 0 <= k && k + count <= i ==> !FreeRun(used, k, count)
      {
        if !TestBit(i) {
          if consecutive == 0 {
            first := i;
          }
          consecutive := consecutive + 1;
          if consecutive >= count {
            assert FreeRun(used, first, count);
            forall k | 0 <= k < first ensures !FreeRun(used, k, count) {
              assert used[first - 1];
            }
            CountFill(used, first, count, true);
            WriteRun(first, count, true);
            freeBlocks := freeBlocks - count;
            allocCount := allocCount + count;
            return Success, dataStart + first;
          }
        } else {
          consecutive := 0;
        }
        i := i + 1;
      }
      return ENoSpace, 0;
    }

    /** `block_free_multiple`: all or nothing. The sum of start and count must fit in 32 bits. */
    method FreeMultiple(start: nat, count: nat) returns (status: Status)
      requires Valid() && start + count < 0x1_0000_0000
      modifies this`freeBlocks, this`freeCount, bitmap
      ensures Valid()
      ensures var used := old(Used());
              if count > 0 && dataStart <= start && UsedRun(used, start - dataStart, count) then
                status == Success && Used() == Fill(used, start - dataStart, count, false)
              else status == EInval && Used() == used
    {
      hide Unpack, BitAt, Mask, CountFree, Fill, TestBit;
      if count == 0 || start < dataStart || start + count > dataStart + totalBlocks {
        return EInval;
      }
      ghost var used := Used();
      var bit := start - dataStart;
      for i := 0 to count
        invariant Used() == used && Valid()
        invariant forall j :: bit <= j < bit + i ==> used[j]
      {
        if !TestBit(bit + i) {
          return EInval;
        }
      }
      CountFill(used, bit, count, false);
      WriteRun(bit, count, false);
      freeBlocks := freeBlocks + count;
      freeCount := freeCount + count;
      return Success;
    }

    /** `block_is_allocated`. */
    method IsAllocated(block: nat) returns (b: bool)
      requires Valid()
      ensures b <==> dataStart <= block < dataStart + totalBlocks && Used()[block - dataStart]
    {
      if block < dataStart || block >= dataStart + totalBlocks {
        return false;
      }
      b := TestBit(block - dataStart);
    }
  }

  lemma FirstFreeIs(used: seq<bool>, k: nat)
    requires k < |used| && !used[k] && forall j :: 0 <= j < k ==> used[j]
    ensures FirstFree(used) == k
  {}

  lemma AllUsed(used: seq<bool>)
    requires forall i :: 0 <= i < |used| ==> used[i]
    ensures FirstFree(used) == |used|
  {}
}
