/** The block device with its buffer cache, as values: what each call of block_dev.c does to the disk and
    to the cached buffers, and that the pair behaves like one flat array of blocks. */
module DevModel {
  import opened Blocks
  import opened Options

  /** A cached buffer; `lru` below lists them most recently used first. */
  datatype Buf = Buf(num: nat, data: Block, valid: bool, dirty: bool, refs: int)

  datatype Dev = Dev(disk: seq<Block>, lru: seq<Buf>, maxBuffers: nat)

  /** Position of block `b` among the buffers, or their number if it is not cached. */
  function IndexOf(lru: seq<Buf>, b: nat): (k: nat)
    ensures k <= |lru|
    ensures k < |lru| ==> lru[k].num == b
    ensures forall i :: 0 <= i < k ==> lru[i].num != b
  {
    if lru == [] then 0 else if lru[0].num == b then 0 else 1 + IndexOf(lru[1..], b)
  }

  predicate Cached(d: Dev, b: nat) { IndexOf(d.lru, b) < |d.lru| }

  function Entry(d: Dev, b: nat): Buf
    requires Cached(d, b)
  {
    d.lru[IndexOf(d.lru, b)]
  }

  ghost predicate Wf(d: Dev) {
    && |d.lru| <= d.maxBuffers
    && (forall i :: 0 <= i < |d.lru| ==> d.lru[i].num < |d.disk|)
    && (forall i, j :: 0 <= i < j < |d.lru| ==> d.lru[i].num != d.lru[j].num)
  }

  /** What a client sees at block `b`. */
  function View(d: Dev, b: nat): Block
    requires b < |d.disk|
  {
    if Cached(d, b) && Entry(d, b).valid then Entry(d, b).data else d.disk[b]
  }

  /** Take the buffer at `k` out and put `buf` at the front: the most recently used position. */
  function MoveFront(lru: seq<Buf>, k: nat, buf: Buf): seq<Buf>
    requires k < |lru|
  {
    [buf] + lru[..k] + lru[k + 1..]
  }

  // ---------- the calls of buffer_cache.c ----------

  /** A hit takes a reference and makes the buffer the most recently used. */
  function LookedUp(lru: seq<Buf>, b: nat): seq<Buf> {
    var k := IndexOf(lru, b);
    if k < |lru| then MoveFront(lru, k, lru[k].(refs := lru[k].refs + 1)) else lru
  }

  /** A block that has a buffer gets it refreshed, dirty or not; another gets one while there is room. */
  function Inserted(lru: seq<Buf>, maxBuffers: nat, b: nat, data: Block): seq<Buf> {
    var k := IndexOf(lru, b);
    if k < |lru| then MoveFront(lru, k, lru[k].(data := data, valid := true, refs := lru[k].refs + 1))
    else if |lru| < maxBuffers then [Buf(b, data, true, false, 1)] + lru
    else lru
  }

  function Invalidated(lru: seq<Buf>, b: nat): seq<Buf> {
    var k := IndexOf(lru, b);
    if k < |lru| then lru[k := lru[k].(valid := false, dirty := false)] else lru
  }

  // ---------- the calls of block_dev.c ----------

  function Reloaded(buf: Buf, onDisk: Block): Buf {
    if buf.valid then buf else buf.(data := onDisk, valid := true)
  }

  /** A hit on an invalid buffer reloads it from disk; a miss is cached only while there is room, and
      the reference taken then is never given back. */
  function ReadStep(d: Dev, b: nat): (Dev, Option<Block>) {
    if b >= |d.disk| then (d, None)
    else
      var k := IndexOf(d.lru, b);
      if k < |d.lru| then
        var buf := d.lru[k];
        var buf' := Reloaded(buf, d.disk[b]);
        (d.(lru := MoveFront(d.lru, k, buf')), Some(buf'.data))
      else if |d.lru| < d.maxBuffers then
        (d.(lru := [Buf(b, d.disk[b], true, false, 1)] + d.lru), Some(d.disk[b]))
      else (d, Some(d.disk[b]))
  }

  /** A hit overwrites the buffer and marks it dirty, without looking at `valid`; a miss is cached while
      there is room and otherwise written through. */
  function WriteStep(d: Dev, b: nat, data: Block): (Dev, bool) {
    if b >= |d.disk| then (d, false)
    else
      var k := IndexOf(d.lru, b);
      if k < |d.lru| then
        (d.(lru := MoveFront(d.lru, k, d.lru[k].(data := data, dirty := true))), true)
      else if |d.lru| < d.maxBuffers then
        (d.(lru := [Buf(b, data, true, true, 0)] + d.lru), true)
      else (d.(disk := d.disk[b := data]), true)
  }

  function InvalidateStep(d: Dev, b: nat): Dev {
    d.(lru := Invalidated(d.lru, b))
  }

  function AllClean(lru: seq<Buf>): (r: seq<Buf>)
    ensures |r| == |lru|
    ensures forall i :: 0 <= i < |lru| ==> r[i] == lru[i].(dirty := false)
  {
    if lru == [] then [] else [lru[0].(dirty := false)] + AllClean(lru[1..])
  }

  /** Disk after writing back the dirty buffers. */
  function WriteBack(disk: seq<Block>, lru: seq<Buf>): (r: seq<Block>)
    ensures |r| == |disk|
    decreases |lru|
  {
    if lru == [] then disk
    else WriteBack(if lru[0].dirty && lru[0].num < |disk| then disk[lru[0].num := lru[0].data] else disk, lru[1..])
  }

  function SyncStep(d: Dev): Dev {
    Dev(WriteBack(d.disk, d.lru), AllClean(d.lru), d.maxBuffers)
  }

  /** The journal's home write: straight to the disk through its own descriptor, then the callback. */
  function HomeStep(d: Dev, b: nat, data: Block): Dev {
    if b < |d.disk| then InvalidateStep(d.(disk := d.disk[b := data]), b) else d
  }

  /** Position of the least recently used buffer nobody holds, or the number of buffers. */
  function Victim(lru: seq<Buf>): (k: nat)
    ensures k <= |lru|
    ensures k < |lru| ==> lru[k].refs == 0 && forall i :: k < i < |lru| ==> lru[i].refs != 0
    ensures k == |lru| ==> forall i :: 0 <= i < |lru| ==> lru[i].refs != 0
  {
    if lru == [] then 0
    else
      var n := |lru| - 1;
      if lru[n].refs == 0 then n
      else
        var k := Victim(lru[..n]);
        if k == n then |lru| else k
  }

  /** Eviction writes a dirty victim back, valid or not, and drops it. */
  function EvictStep(d: Dev): (Dev, bool) {
    var k := Victim(d.lru);
    if k == |d.lru| then (d, false)
    else
      var buf := d.lru[k];
      (Dev(if buf.dirty && buf.num < |d.disk| then d.disk[buf.num := buf.data] else d.disk,
           d.lru[..k] + d.lru[k + 1..], d.maxBuffers), true)
  }

  function HomeAll(d: Dev, ws: seq<Write>): Dev
    decreases |ws|
  {
    if ws == [] then d
    else var n := |ws| - 1; HomeStep(HomeAll(d, ws[..n]), ws[n].target, ws[n].data)
  }

  // ---------- lookups after an update ----------

  ghost predicate Unique(lru: seq<Buf>) {
    forall i, j :: 0 <= i < j < |lru| ==> lru[i].num != lru[j].num
  }

  lemma FoundAt(lru: seq<Buf>, x: nat, i: nat)
    requires Unique(lru) && i < |lru| && lru[i].num == x
    ensures IndexOf(lru, x) == i
  {}

  lemma MoveFrontUnique(lru: seq<Buf>, k: nat, buf: Buf)
    requires Unique(lru) && k < |lru| && buf.num == lru[k].num
    ensures Unique(MoveFront(lru, k, buf)) && |MoveFront(lru, k, buf)| == |lru| && MoveFront(lru, k, buf)[0] == buf
    ensures forall m :: 0 <= m < k ==> MoveFront(lru, k, buf)[m + 1] == lru[m]
    ensures forall m :: k < m < |lru| ==> MoveFront(lru, k, buf)[m] == lru[m]
  {
    var lru' := MoveFront(lru, k, buf);
    assert forall i :: 0 < i < |lru| ==> lru'[i] == lru[if i <= k then i - 1 else i];
  }

  lemma MoveFrontLooksUp(lru: seq<Buf>, k: nat, buf: Buf, x: nat)
    requires Unique(lru) && k < |lru| && buf.num == lru[k].num
    ensures var lru' := MoveFront(lru, k, buf);
            var i, j := IndexOf(lru, x), IndexOf(lru', x);
            && Unique(lru') && |lru'| == |lru|
            && (i < |lru| <==> j < |lru'|)
            && (j < |lru'| ==> lru'[j] == if x == buf.num then buf else lru[i])
  {
    MoveFrontUnique(lru, k, buf);
    hide MoveFront;
    var lru' := MoveFront(lru, k, buf);
    var i := IndexOf(lru, x);
    if i == k {
      FoundAt(lru', x, 0);
    } else if i < |lru| {
      FoundAt(lru', x, if i < k then i + 1 else i);
    } else {
      forall j | 0 <= j < |lru| ensures lru'[j].num != x {
        assert j == 0 || lru'[j] == lru[if j <= k then j - 1 else j];
      }
    }
  }

  lemma UpdateLooksUp(lru: seq<Buf>, k: nat, buf: Buf, x: nat)
    requires Unique(lru) && k < |lru| && buf.num == lru[k].num
    ensures var lru' := lru[k := buf];
            && Unique(lru') && IndexOf(lru', x) == IndexOf(lru, x)
  {
    var lru', i := lru[k := buf], IndexOf(lru, x);
    assert forall m :: 0 <= m < |lru| ==> lru'[m].num == lru[m].num;
    if i < |lru| { FoundAt(lru', x, i); }
  }
}
