/** Bitmaps: the packed bytes the C allocator keeps, and the sequence of flags they stand for. */
module Bits {

  // ---------- packed bits ----------

  function Mask(o: nat): bv8
    requires o < 8
  {
    (1 as bv8) << o
  }

  function BitAt(bytes: seq<bv8>, i: nat): bool
    requires i < 8 * |bytes|
  {
    bytes[i / 8] & Mask(i % 8) != 0
  }

  /** The first `n` bits, unpacked. */
  function Unpack(bytes: seq<bv8>, n: nat): (bits: seq<bool>)
    requires n <= 8 * |bytes|
    ensures |bits| == n && forall i :: 0 <= i < n ==> bits[i] == BitAt(bytes, i)
  {
    if n == 0 then [] else Unpack(bytes, n - 1) + [BitAt(bytes, n - 1)]
  }

  lemma MaskBits(b: bv8, o: nat, p: nat)
    requires o < 8 && p < 8
    ensures (b | Mask(o)) & Mask(p) != 0 <==> p == o || b & Mask(p) != 0
    ensures (b & !Mask(o)) & Mask(p) != 0 <==> p != o && b & Mask(p) != 0
  {
    assert Mask(0) == 1 && Mask(1) == 2 && Mask(2) == 4 && Mask(3) == 8;
    assert Mask(4) == 16 && Mask(5) == 32 && Mask(6) == 64 && Mask(7) == 128;
  }

  lemma SetBitAt(bytes: seq<bv8>, i: nat, j: nat)
    requires i < 8 * |bytes| && j < 8 * |bytes|
    ensures BitAt(bytes[i / 8 := bytes[i / 8] | Mask(i % 8)], j) == (j == i || BitAt(bytes, j))
    ensures BitAt(bytes[i / 8 := bytes[i / 8] & !Mask(i % 8)], j) == (j != i && BitAt(bytes, j))
  {
    hide Mask;
    assert i == 8 * (i / 8) + i % 8 && j == 8 * (j / 8) + j % 8;
    if j / 8 == i / 8 { MaskBits(bytes[i / 8], i % 8, j % 8); }
  }

  /** Setting or clearing one packed bit updates one flag. */
  lemma SetBit(bytes: seq<bv8>, n: nat, i: nat)
    requires n <= 8 * |bytes| && i < n
    ensures Unpack(bytes[i / 8 := bytes[i / 8] | Mask(i % 8)], n) == Unpack(bytes, n)[i := true]
    ensures Unpack(bytes[i / 8 := bytes[i / 8] & !Mask(i % 8)], n) == Unpack(bytes, n)[i := false]
  {
    hide Mask, BitAt;
    var was := Unpack(bytes, n);
    var on := Unpack(bytes[i / 8 := bytes[i / 8] | Mask(i % 8)], n);
    var off := Unpack(bytes[i / 8 := bytes[i / 8] & !Mask(i % 8)], n);
    forall j | 0 <= j < n ensures on[j] == was[i := true][j] && off[j] == was[i := false][j] {
      SetBitAt(bytes, i, j);
    }
  }

  /** The number whose binary digits are these flags, the lowest first. */
  function Number(flags: seq<bool>): nat {
    if flags == [] then 0 else (if flags[0] then 1 else 0) + 2 * Number(flags[1..])
  }

  lemma NumberOfEight(f: seq<bool>)
    requires |f| == 8
    ensures Number(f) == (if f[0] then 1 else 0) + (if f[1] then 2 else 0) + (if f[2] then 4 else 0)
      + (if f[3] then 8 else 0) + (if f[4] then 16 else 0) + (if f[5] then 32 else 0) + (if f[6] then 64 else 0)
      + (if f[7] then 128 else 0)
  {
    var g, h := f[4..], f[6..];
    assert Number(f) == (if f[0] then 1 else 0) + 2 * Number(f[1..]) && f[1..][1..] == f[2..];
    assert Number(f[2..]) == (if f[2] then 1 else 0) + 2 * Number(f[3..]) && f[2..][1..] == f[3..];
    assert f[3..][1..] == g && g[1..] == f[5..] && f[5..][1..] == h && h[1..] == f[7..] && f[7..][1..] == [];
    assert Number(g) == (if f[4] then 1 else 0) + 2 * Number(f[5..]);
    assert Number(h) == (if f[6] then 1 else 0) + 2 * Number(f[7..]);
  }

  /** Flag `8 * k + j` is the digit of weight two to the `j` of byte `k`, for the C allocator and the Rust one. */
  lemma ByteIsNumber(bytes: seq<bv8>, n: nat, k: nat)
    requires 8 * k + 8 <= n <= 8 * |bytes|
    ensures bytes[k] as int == Number(Unpack(bytes, n)[8 * k..8 * k + 8])
  {
    hide Unpack, Number, Mask;
    var f := Unpack(bytes, n)[8 * k..8 * k + 8];
    NumberOfEight(f);
    forall j | 0 <= j < 8 ensures f[j] == (bytes[k] & Mask(j) != 0) { FlagIs(bytes, n, k, j); }
    ByteIs(bytes[k]);
  }

  lemma FlagIs(bytes: seq<bv8>, n: nat, k: nat, j: nat)
    requires 8 * k + 8 <= n <= 8 * |bytes| && j < 8
    ensures Unpack(bytes, n)[8 * k + j] == (bytes[k] & Mask(j) != 0)
  {
    hide Unpack, Mask;
    assert (8 * k + j) / 8 == k && (8 * k + j) % 8 == j;
  }

  lemma ByteIs(b: bv8)
    ensures b as int ==
      (if b & Mask(0) != 0 then 1 else 0) + (if b & Mask(1) != 0 then 2 else 0)
      + (if b & Mask(2) != 0 then 4 else 0) + (if b & Mask(3) != 0 then 8 else 0)
      + (if b & Mask(4) != 0 then 16 else 0) + (if b & Mask(5) != 0 then 32 else 0)
      + (if b & Mask(6) != 0 then 64 else 0) + (if b & Mask(7) != 0 then 128 else 0)
  {
    assert Mask(0) == 1 && Mask(1) == 2 && Mask(2) == 4 && Mask(3) == 8;
    assert Mask(4) == 16 && Mask(5) == 32 && Mask(6) == 64 && Mask(7) == 128;
  }

  // ---------- flags ----------

  /** First fit. */
  function FirstFree(used: seq<bool>): (k: nat)
    ensures k <= |used|
    ensures k < |used| ==> !used[k]
    ensures forall i :: 0 <= i < k ==> used[i]
  {
    if used == [] || !used[0] then 0 else 1 + FirstFree(used[1..])
  }

  /** How many flags are clear. */
  function CountFree(used: seq<bool>): (c: nat)
    ensures c <= |used|
  {
    if used == [] then 0 else CountFree(used[..|used| - 1]) + if used[|used| - 1] then 0 else 1
  }

  lemma {:induction false} CountUpdate(used: seq<bool>, k: nat, v: bool)
    requires k < |used|
    ensures CountFree(used[k := v]) == CountFree(used) + (if used[k] then 1 else 0) - (if v then 1 else 0)
  {
    var n := |used| - 1;
    if k == n {
      assert used[k := v][..n] == used[..n];
    } else {
      CountUpdate(used[..n], k, v);
      assert used[k := v][..n] == used[..n][k := v];
    }
  }

  lemma CountSnoc(used: seq<bool>, i: nat)
    requires i < |used|
    ensures CountFree(used[..i + 1]) == CountFree(used[..i]) + if used[i] then 0 else 1
  {
    assert used[..i + 1][..i] == used[..i];
  }

  lemma {:induction false} CountZeroIff(used: seq<bool>)
    ensures CountFree(used) == 0 <==> forall i :: 0 <= i < |used| ==> used[i]
  {
    if used != [] {
      var n := |used| - 1;
      CountZeroIff(used[..n]);
      assert forall i :: 0 <= i < n ==> used[..n][i] == used[i];
    }
  }

  /** `n` flags from `k` on are clear. */
  ghost predicate FreeRun(used: seq<bool>, k: nat, n: nat) {
    k + n <= |used| && forall i :: k <= i < k + n ==> !used[i]
  }

  ghost predicate UsedRun(used: seq<bool>, k: nat, n: nat) {
    k + n <= |used| && forall i :: k <= i < k + n ==> used[i]
  }

  /** `used` with the flags `[k, k + n)` set to `v`. */
  function Fill(used: seq<bool>, k: nat, n: nat, v: bool): (r: seq<bool>)
    requires k + n <= |used|
    ensures |r| == |used|
    ensures forall i :: 0 <= i < |used| ==> r[i] == if k <= i < k + n then v else used[i]
  {
    if n == 0 then used else Fill(used, k, n - 1, v)[k + n - 1 := v]
  }

  lemma FillNone(used: seq<bool>, k: nat, v: bool)
    requires k <= |used|
    ensures Fill(used, k, 0, v) == used
  {}

  lemma FillStep(used: seq<bool>, k: nat, n: nat, v: bool)
    requires k + n < |used|
    ensures Fill(used, k, n + 1, v) == Fill(used, k, n, v)[k + n := v]
  {}

  lemma {:induction false} CountFill(used: seq<bool>, k: nat, n: nat, v: bool)
    requires k + n <= |used| && (if v then FreeRun(used, k, n) else UsedRun(used, k, n))
    ensures CountFree(Fill(used, k, n, v)) + (if v then n else 0) == CountFree(used) + (if v then 0 else n)
  {
    if n > 0 {
      CountFill(used, k, n - 1, v);
      CountUpdate(Fill(used, k, n - 1, v), k + n - 1, v);
    }
  }

  lemma RunFits(used: seq<bool>, k: nat, n: nat)
    requires FreeRun(used, k, n)
    ensures n <= CountFree(used)
  {
    CountFill(used, k, n, true);
  }
}
