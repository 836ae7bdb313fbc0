/** rust_core/src/extent: contiguous extents from a circular first-fit search over a bit vector. */
module ExtentAlloc {
  import opened Bits
  import opened Modular

  /** A run of blocks. */
  datatype Extent = Extent(start: nat, length: nat)

  predicate Overlaps(a: Extent, b: Extent) {
    a.start < b.start + b.length && b.start < a.start + a.length
  }

  datatype AllocResult = Granted(extent: Extent) | Refused | Panicked

  /** Position `o` steps after `from`, going round once. */
  function RingPos(total: nat, from: nat, o: nat): (p: nat)
    requires from < total
    ensures o < total ==> p < total
  {
    if from + o < total then from + o else from + o - total
  }

  /** How many steps after `from` the search looks at position `p`. */
  function StepsTo(total: nat, from: nat, p: nat): (o: nat)
    requires from < total && p < total
    ensures o < total && RingPos(total, from, o) == p
  {
    if p >= from then p - from else p + total - from
  }

  lemma StepsToUnique(total: nat, from: nat, o: nat)
    requires from < total && o < total
    ensures StepsTo(total, from, RingPos(total, from, o)) == o
  {}

  /** The `n` positions from the one `o` steps after `from` are free, the steps staying within one round. */
  ghost predicate RingRun(used: seq<bool>, from: nat, o: nat, n: nat)
    requires from < |used|
  {
    o + n <= |used| && forall i :: o <= i < o + n ==> !used[RingPos(|used|, from, i)]
  }

  lemma RunGrows(used: seq<bool>, from: nat, o: nat, n: nat)
    requires from < |used| && o + n < |used| && RingRun(used, from, o, n) && !used[RingPos(|used|, from, o + n)]
    ensures RingRun(used, from, o, n + 1)
  {}

  lemma EmptyRun(used: seq<bool>, from: nat, o: nat)
    requires from < |used| && o <= |used|
    ensures RingRun(used, from, o, 0)
  {}

  lemma BlockedRun(used: seq<bool>, from: nat, o: nat, n: nat, q: nat)
    requires from < |used| && q < |used| && o <= q < o + n && used[RingPos(|used|, from, q)]
    ensures !RingRun(used, from, o, n)
  {}

  /** No ring run of length `n` ends within the first `limit` steps. */
  ghost predicate NoRunBy(used: seq<bool>, from: nat, n: nat, limit: nat)
    requires from < |used|
  {
    forall p :: 0 <= p && p + n <= limit ==> !RingRun(used, from, p, n)
  }

  lemma NoRunStep(used: seq<bool>, from: nat, n: nat, limit: nat, q: nat)
    requires from < |used| && limit < |used| && n > 0 && NoRunBy(used, from, n, limit)
    requires q <= limit && limit < q + n && used[RingPos(|used|, from, q)]
    ensures NoRunBy(used, from, n, limit + 1)
  {
    forall p | 0 <= p && p + n <= limit + 1 ensures !RingRun(used, from, p, n) {
      if p + n == limit + 1 { BlockedRun(used, from, p, n, q); }
    }
  }

  lemma NoRunShort(used: seq<bool>, from: nat, n: nat, limit: nat)
    requires from < |used| && limit < n
    ensures NoRunBy(used, from, n, limit)
  {}

  lemma FirstRun(used: seq<bool>, from: nat, n: nat, limit: nat, o: nat)
    requires from < |used| && n > 0 && NoRunBy(used, from, n, limit) && o + n == limit + 1
    ensures forall p :: 0 <= p < o ==> !RingRun(used, from, p, n)
  {}

  lemma NoRunAtAll(used: seq<bool>, from: nat, n: nat)
    requires from < |used| && NoRunBy(used, from, n, |used|)
    ensures forall p: nat :: !RingRun(used, from, p, n)
  {}

  /** The code's index arithmetic. */
  function RingMod(total: nat, from: nat, o: nat): (p: nat)
    requires from < total && o < total
    ensures p == RingPos(total, from, o)
  {
    ModOnce(from + o, total);
    (from + o) % total
  }

  /** A run at or behind the starting point that ends before the bitmap does is also a ring run. */
  lemma StraightRunIsRingRun(used: seq<bool>, from: nat, k: nat, n: nat)
    requires from < |used| && from <= k && k + n <= |used|
    ensures RingRun(used, from, k - from, n) <==> FreeRun(used, k, n)
  {
    forall i | k <= i < k + n ensures used[RingPos(|used|, from, i - from)] == used[i] {}
    if RingRun(used, from, k - from, n) {
      forall i | k <= i < k + n ensures !used[i] {
        assert !used[RingPos(|used|, from, i - from)];
      }
    }
  }

  /** From here the search goes wrong: no straight run starts at or behind `from`, and the ring run it
      settles on crosses the end of the bitmap. */
  ghost predicate SearchCrosses(used: seq<bool>, from: nat, n: nat)
    requires from < |used|
  {
    && (forall k :: from <= k && k + n <= |used| ==> !FreeRun(used, k, n))
    && (exists p :: 0 <= p && from + p < |used| < from + p + n && RingRun(used, from, p, n))
  }

  /** The first ring run crosses the end of the bitmap exactly in that case. */
  lemma CrossesEndIff(used: seq<bool>, from: nat, o: nat, n: nat)
    requires from < |used| && n > 0 && RingRun(used, from, o, n)
    requires forall p :: 0 <= p < o ==> !RingRun(used, from, p, n)
    ensures from + o < |used| < from + o + n <==> SearchCrosses(used, from, n)
  {
    if from + o < |used| < from + o + n {
      forall k | from <= k && k + n <= |used| ensures !FreeRun(used, k, n) {
        StraightRunIsRingRun(used, from, k, n);
      }
    } else if from + o + n <= |used| {
      StraightRunIsRingRun(used, from, from + o, n);
    }
  }

  lemma RingRunAtZero(used: seq<bool>, n: nat)
    requires 0 < |used| && n > 0
    ensures !SearchCrosses(used, 0, n)
    ensures forall k :: 0 <= k && k + n <= |used| ==> (RingRun(used, 0, k, n) <==> FreeRun(used, k, n))
  {
    forall k | 0 <= k && k + n <= |used| ensures RingRun(used, 0, k, n) <==> FreeRun(used, k, n) {
      StraightRunIsRingRun(used, 0, k, n);
    }
  }

  /** Such a state: two free blocks at opposite ends of the bitmap, asked for together from the last one. */
  lemma CrossingExample()
    ensures SearchCrosses([false, true, true, false], 3, 2)
  {
    var used := [false, true, true, false];
    assert RingPos(4, 3, 0) == 3 && RingPos(4, 3, 1) == 0;
    assert RingRun(used, 3, 0, 2);
    assert 3 + 0 < |used| < 3 + 0 + 2;
  }

  /** Live extents are in use and pairwise disjoint. */
  ghost predicate LiveOk(used: seq<bool>, live: set<Extent>) {
    && (forall e :: e in live ==> e.length > 0 && UsedRun(used, e.start, e.length))
    && (forall a, b :: a in live && b in live && a != b ==> !Overlaps(a, b))
  }

  lemma LiveGrows(used: seq<bool>, live: set<Extent>, e: Extent)
    requires LiveOk(used, live) && e.length > 0 && FreeRun(used, e.start, e.length)
    ensures LiveOk(Fill(used, e.start, e.length, true), live + {e})
  {
    forall a | a in live ensures !Overlaps(a, e) {
      var m := if a.start < e.start then e.start else a.start;
      assert m < a.start + a.length ==> used[m];
      assert m < e.start + e.length ==> !used[m];
    }
  }

  lemma LiveShrinks(used: seq<bool>, live: set<Extent>, e: Extent)
    requires LiveOk(used, live) && UsedRun(used, e.start, e.length)
    ensures LiveOk(Fill(used, e.start, e.length, false), set a | a in live && !Overlaps(a, e))
  {
    forall a | a in live && !Overlaps(a, e) && e.length > 0
      ensures a.start + a.length <= e.start || e.start + e.length <= a.start
    {
    }
  }

  lemma OnlyItself(used: seq<bool>, live: set<Extent>, e: Extent)
    requires LiveOk(used, live) && e in live
    ensures (set a | a in live && !Overlaps(a, e)) == live - {e}
  {
    assert Overlaps(e, e);
  }

  /** A run in range whose leading used blocks have been released, up to the first free one. */
  function Cleared(used: seq<bool>, e: Extent): seq<bool> {
    if e.start + e.length > |used| then used
    else
      seq(|used|, i requires 0 <= i < |used| =>
        used[i] && !(e.start <= i < e.start + e.length && forall j :: e.start <= j <= i ==> used[j]))
  }

  /** `used` with everything from `k` on set. */
  function ToEnd(used: seq<bool>, k: nat): seq<bool>
    requires k <= |used|
  {
    Fill(used, k, |used| - k, true)
  }

  lemma ClearedIs(used: seq<bool>, e: Extent, n: nat)
    requires e.start + e.length <= |used| && n < e.length && UsedRun(used, e.start, n) && !used[e.start + n]
    ensures Fill(used, e.start, n, false) == Cleared(used, e)
  {
    hide Fill;
    assert Fill(used, e.start, 0, false) == used by { FillNone(used, e.start, false); }
  }

  class ExtentAllocator {
    const totalBlocks: nat
    const bitmap: array<bool>
    var freeBlocks: int
    var statsFree: int
    var statsAllocated: int
    var allocCount: nat
    var freeCount: nat
    ghost var live: set<Extent>

    /** Both free counters equal the number of clear bits; live extents are in use and disjoint. */
    ghost predicate Valid()
      reads this, bitmap
    {
      && Shaped()
      && freeBlocks == CountFree(bitmap[..]) && statsFree == freeBlocks && statsAllocated == totalBlocks - freeBlocks
      && LiveOk(bitmap[..], live)
    }

    ghost predicate Shaped() {
      0 < totalBlocks == bitmap.Length
    }

    constructor (total: nat)
      requires 0 < total
      ensures Valid() && fresh(bitmap) && live == {} && totalBlocks == total
      ensures forall i :: 0 <= i < total ==> !bitmap[i]
    {
      totalBlocks := total;
      bitmap := new bool[total](i => false);
      freeBlocks, statsFree, statsAllocated, allocCount, freeCount := total, total, 0, 0, 0;
      live := {};
      new;
      CountAllFree(bitmap[..]);
    }

    /** `find_consecutive_free`: the first ring run of `minLen` in search order, or none when there is none.
        The length granted is always exactly `minLen`. */
    method FindConsecutiveFree(hint: nat, minLen: nat, maxLen: nat) returns (found: bool, start: nat, length: nat)
      requires Shaped() && 0 < minLen <= maxLen
      ensures var from := hint % totalBlocks;
              && (found ==>
                    && start < totalBlocks && length == minLen
                    && RingRun(bitmap[..], from, StepsTo(totalBlocks, from, start), minLen)
                    && forall p :: 0 <= p < StepsTo(totalBlocks, from, start) ==> !RingRun(bitmap[..], from, p, minLen))
              && (!found ==> forall p: nat :: !RingRun(bitmap[..], from, p, minLen))
    {
      hide RingRun, NoRunBy, RingMod, RingPos, StepsTo;
      ghost var used := bitmap[..];
      var total := totalBlocks;
      var startPos := hint % total;
      var consecutive, regionStart, offset := 0, 0, 0;
      EmptyRun(used, startPos, 0);
      NoRunShort(used, startPos, minLen, 0);
      while offset < total
        invariant offset <= total && consecutive <= offset && consecutive < minLen
        invariant consecutive > 0 ==> regionStart == RingPos(total, startPos, offset - consecutive)
        invariant RingRun(used, startPos, offset - consecutive, consecutive)
        invariant consecutive < offset ==>
          offset - consecutive - 1 < total && used[RingMod(total, startPos, offset - consecutive - 1)]
        invariant NoRunBy(used, startPos, minLen, offset)
      {
        var pos := RingMod(total, startPos, offset);
        if !bitmap[pos] {
          if consecutive == 0 {
            regionStart := pos;
          }
          RunGrows(used, startPos, offset - consecutive, consecutive);
          consecutive := consecutive + 1;
          if consecutive >= minLen {
            FirstRun(used, startPos, minLen, offset, offset + 1 - consecutive);
            StepsToUnique(total, startPos, offset + 1 - consecutive);
            return true, regionStart, if consecutive < maxLen then consecutive else maxLen;
          }
          if consecutive <= offset {
            NoRunStep(used, startPos, minLen, offset, offset - consecutive);
          } else {
            NoRunShort(used, startPos, minLen, offset + 1);
          }
        } else {
          NoRunStep(used, startPos, minLen, offset, offset);
          EmptyRun(used, startPos, offset + 1);
          consecutive := 0;
        }
        offset := offset + 1;
      }
      NoRunAtAll(used, startPos, minLen);
      return false, 0, 0;
    }

    /** The marking loop of `allocate_extent`: it stops where the bit vector ends. */
    method MarkUsed(start: nat, length: nat) returns (inRange: bool)
      requires Shaped() && start < totalBlocks
      modifies bitmap
      ensures inRange <==> start + length <= totalBlocks
      ensures bitmap[..] == Fill(old(bitmap[..]), start, if inRange then length else totalBlocks - start, true)
    {
      ghost var used := bitmap[..];
      var i := start;
      while i < start + length
        invariant start <= i <= start + length && i <= totalBlocks
        invariant bitmap[..] == Fill(used, start, i - start, true)
      {
        if i >= totalBlocks {
          return false;
        }
        bitmap[i] := true;
        i := i + 1;
      }
      return true;
    }

    /** `allocate_extent`. The search may settle on a run that crosses the end of the bitmap: marking it
        then runs off the bit vector and panics, with the bits up to the end set and no counter adjusted. */
    method AllocateExtent(hint: nat, minLen: nat, maxLen: nat) returns (r: AllocResult)
      requires Valid()
      modifies this`freeBlocks, this`statsFree, this`statsAllocated, this`allocCount, this`live, bitmap
      ensures minLen == 0 || maxLen == 0 || minLen > maxLen ==> r == Refused
      ensures r == Refused ==> Valid() && bitmap[..] == old(bitmap[..]) && live == old(live)
      ensures 0 < minLen <= maxLen ==>
        var used, from := old(bitmap[..]), hint % totalBlocks;
        && (r == Panicked <==> SearchCrosses(used, from, minLen))
        && (r == Refused <==> forall p: nat :: !RingRun(used, from, p, minLen))
      ensures r.Granted? ==>
        var used, from, e := old(bitmap[..]), hint % totalBlocks, r.extent;
        && Valid() && live == old(live) + {e}
        && e.length == minLen && FreeRun(used, e.start, e.length) && bitmap[..] == Fill(used, e.start, e.length, true)
        && (forall k :: from <= k < e.start ==> !FreeRun(used, k, minLen))
        && (e.start < from ==> forall k :: from <= k ==> !FreeRun(used, k, minLen))
      ensures r == Panicked ==>
        && freeBlocks == old(freeBlocks) && live == old(live) && CountFree(bitmap[..]) < freeBlocks
        && exists k :: 0 <= k < totalBlocks && bitmap[..] == ToEnd(old(bitmap[..]), k)
    {
      if minLen == 0 || maxLen == 0 || minLen > maxLen {
        return Refused;
      }
      hide CountFree, Fill, RingRun, RingPos, StepsTo, SearchCrosses, LiveOk, FreeRun, UsedRun, Overlaps;
      ghost var used := bitmap[..];
      var found, start, length := FindConsecutiveFree(hint, minLen, maxLen);
      if !found {
        return Refused;
      }
      ghost var from := hint % totalBlocks;
      ghost var o := StepsTo(totalBlocks, from, start);
      CrossesEndIff(used, from, o, minLen);
      FirstInRange(used, from, o, minLen, start);
      var inRange := MarkUsed(start, length);
      if !inRange {
        CrossedRunFree(used, from, o, minLen, start);
        assert bitmap[..] == ToEnd(used, start);
        assert CountFree(bitmap[..]) < CountFree(used) by { CountFill(used, start, totalBlocks - start, true); }
        return Panicked;
      }
      StraightAgain(used, from, o, minLen, start);
      assert CountFree(bitmap[..]) == CountFree(used) - length by { CountFill(used, start, length, true); }
      LiveGrows(used, live, Extent(start, length));
      freeBlocks := freeBlocks - length;
      allocCount := allocCount + 1;
      statsFree := statsFree - length;
      statsAllocated := statsAllocated + length;
      live := live + {Extent(start, length)};
      return Granted(Extent(start, length));
    }

    /** The clearing loop of `free_extent`: it stops at the first block that is not in use. */
    method ClearUsed(start: nat, length: nat) returns (ok: bool, ghost n: nat)
      requires Shaped() && start + length <= totalBlocks
      modifies bitmap
      ensures n <= length && UsedRun(old(bitmap[..]), start, n) && bitmap[..] == Fill(old(bitmap[..]), start, n, false)
      ensures if ok then n == length else n < length && !old(bitmap[..])[start + n]
    {
      ghost var used := bitmap[..];
      var i := start;
      n := 0;
      while i < start + length
        invariant start <= i <= start + length && n == i - start
        invariant UsedRun(used, start, n) && bitmap[..] == Fill(used, start, n, false)
      {
        if !bitmap[i] {
          return false, n;
        }
        bitmap[i] := false;
        i, n := i + 1, n + 1;
      }
      return true, n;
    }

    /** `free_extent`. A run entirely in use, as every live extent is, is released; one that is not fails at
        its first free block, after the blocks before it have been released without being counted. */
    method FreeExtent(e: Extent) returns (ok: bool)
      requires Valid() && e.start + e.length < 0x1_0000_0000
      modifies this`freeBlocks, this`statsFree, this`statsAllocated, this`freeCount, this`live, bitmap
      ensures ok <==> UsedRun(old(bitmap[..]), e.start, e.length)
      ensures ok ==> && Valid() && bitmap[..] == Fill(old(bitmap[..]), e.start, e.length, false)
                     && live == set a | a in old(live) && !Overlaps(a, e)
      ensures e in old(live) ==> ok && live == old(live) - {e}
      ensures !ok ==> && freeBlocks == old(freeBlocks) && live == old(live)
                      && bitmap[..] == Cleared(old(bitmap[..]), e)
                      && (CountFree(bitmap[..]) == freeBlocks <==>
                            e.start + e.length > totalBlocks || !old(bitmap[..])[e.start])
    {
      if e.start + e.length > totalBlocks {
        return false;
      }
      hide CountFree, Fill, LiveOk;
      ghost var used := bitmap[..];
      var released, n := ClearUsed(e.start, e.length);
      CountFill(used, e.start, n, false);
      if !released {
        ClearedIs(used, e, n);
        return false;
      }
      LiveShrinks(used, live, e);
      if e in live { OnlyItself(used, live, e); }
      freeBlocks := freeBlocks + e.length;
      statsFree := statsFree + e.length;
      statsAllocated := statsAllocated - e.length;
      freeCount := freeCount + 1;
      live := set a | a in live && !Overlaps(a, e);
      return true;
    }

    /** `sync_bitmap_to_disk`: the packed bytes stand for exactly these flags, in the C allocator's layout. */
    method PackBitmap() returns (bytes: seq<bv8>)
      requires Shaped()
      ensures totalBlocks <= 8 * |bytes| && Unpack(bytes, totalBlocks) == bitmap[..]
    {
      var blocks := (totalBlocks + 7) / 8;
      bytes := seq(blocks, i => 0);
      AllClear(bytes, totalBlocks);
      hide Unpack, BitAt, Mask;
      for i := 0 to totalBlocks
        invariant |bytes| == blocks
        invariant forall j :: 0 <= j < i ==> Unpack(bytes, totalBlocks)[j] == bitmap[j]
        invariant forall j :: i <= j < totalBlocks ==> !Unpack(bytes, totalBlocks)[j]
      {
        if bitmap[i] {
          SetBit(bytes, totalBlocks, i);
          bytes := bytes[i / 8 := bytes[i / 8] | Mask(i % 8)];
        }
      }
    }

    /** `load_bitmap_from_disk`: takes over the packed flags and recounts. */
    method LoadBitmap(bytes: seq<bv8>)
      requires Shaped() && totalBlocks <= 8 * |bytes|
      modifies this`freeBlocks, this`statsFree, this`statsAllocated, this`live, bitmap
      ensures Valid() && bitmap[..] == Unpack(bytes, totalBlocks) && live == {}
    {
      hide Unpack, BitAt, CountFree;
      for i := 0 to totalBlocks
        invariant forall j :: 0 <= j < i ==> bitmap[j] == Unpack(bytes, totalBlocks)[j]
      {
        bitmap[i] := BitAt(bytes, i);
      }
      assert bitmap[..] == Unpack(bytes, totalBlocks);
      var free := 0;
      assert bitmap[..][..0] == [];
      CountZeroIff([]);
      for i := 0 to totalBlocks
        invariant free == CountFree(bitmap[..][..i]) && bitmap[..] == Unpack(bytes, totalBlocks)
      {
        CountSnoc(bitmap[..], i);
        if !bitmap[i] {
          free := free + 1;
        }
      }
      assert bitmap[..][..totalBlocks] == bitmap[..];
      freeBlocks, statsFree, statsAllocated, live := free, free, totalBlocks - free, {};
    }
  }

  lemma AllClear(bytes: seq<bv8>, n: nat)
    requires n <= 8 * |bytes| && forall i :: 0 <= i < |bytes| ==> bytes[i] == 0
    ensures forall j :: 0 <= j < n ==> !Unpack(bytes, n)[j]
  {
    hide Mask;
    forall j | 0 <= j < n ensures !BitAt(bytes, j) { NoBits(Mask(j % 8)); }
  }

  lemma NoBits(m: bv8)
    ensures 0 & m == 0
  {}

  lemma FirstInRange(used: seq<bool>, from: nat, o: nat, n: nat, start: nat)
    requires from < |used| && n > 0 && RingRun(used, from, o, n) && start == RingPos(|used|, from, o)
    ensures start < |used|
  {}

  /** A granted run is straight, and it is the first straight one at or behind the starting point unless
      there is none. */
  lemma StraightAgain(used: seq<bool>, from: nat, o: nat, n: nat, start: nat)
    requires from < |used| && n > 0 && RingRun(used, from, o, n) && start == RingPos(|used|, from, o)
    requires forall p :: 0 <= p < o ==> !RingRun(used, from, p, n)
    requires start + n <= |used|
    ensures FreeRun(used, start, n) && !(from + o < |used| < from + o + n)
    ensures forall k :: from <= k < start ==> !FreeRun(used, k, n)
    ensures start < from ==> forall k :: from <= k ==> !FreeRun(used, k, n)
  {
    forall i | start <= i < start + n ensures !used[i] {
      assert !used[RingPos(|used|, from, o + (i - start))];
    }
    forall k | from <= k && k + n <= |used| && k - from < o ensures !FreeRun(used, k, n) {
      StraightRunIsRingRun(used, from, k, n);
    }
  }

  lemma CrossedRunFree(used: seq<bool>, from: nat, o: nat, n: nat, start: nat)
    requires from < |used| && n > 0 && RingRun(used, from, o, n) && start == RingPos(|used|, from, o)
    requires |used| < start + n
    ensures FreeRun(used, start, |used| - start) && start < |used| && from + o < |used| < from + o + n
  {
    forall i | start <= i < |used| ensures !used[i] {
      assert !used[RingPos(|used|, from, o + (i - start))];
    }
  }

  lemma {:induction false} CountAllFree(used: seq<bool>)
    requires forall i :: 0 <= i < |used| ==> !used[i]
    ensures CountFree(used) == |used|
  {
    if used != [] { CountAllFree(used[..|used| - 1]); }
  }
}
