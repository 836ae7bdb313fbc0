/** The cached device refines a flat disk, exactly as long as no write meets an invalidated buffer. */
module DevRefine {
  import opened Blocks
  import opened DevModel
  import opened Options

  /** Only valid buffers are dirty, and a clean valid buffer holds what the disk holds. */
  ghost predicate Coherent(d: Dev) {
    && Wf(d)
    && (forall i :: 0 <= i < |d.lru| ==> d.lru[i].dirty ==> d.lru[i].valid)
    && (forall i :: 0 <= i < |d.lru| ==> d.lru[i].valid && !d.lru[i].dirty ==> d.lru[i].data == d.disk[d.lru[i].num])
  }

  /** Block `b` is cached but was invalidated: its data no longer counts. */
  predicate Stale(d: Dev, b: nat) { Cached(d, b) && !Entry(d, b).valid }

  ghost predicate SameViews(d: Dev, e: Dev) {
    |d.disk| == |e.disk| && forall x :: 0 <= x < |d.disk| ==> View(e, x) == View(d, x)
  }

  /** Only the view of `b` differs, and it is `data`. */
  ghost predicate ViewsUpdated(d: Dev, e: Dev, b: nat, data: Block) {
    |d.disk| == |e.disk| && forall x :: 0 <= x < |d.disk| ==> View(e, x) == if x == b then data else View(d, x)
  }

  /** Everything a client sees: one flat disk. */
  ghost function Views(d: Dev): (v: seq<Block>)
    ensures |v| == |d.disk| && forall x :: 0 <= x < |v| ==> v[x] == View(d, x)
  {
    seq(|d.disk|, x requires 0 <= x < |d.disk| => View(d, x))
  }

  /** No block became stale. */
  ghost predicate NoNewStale(d: Dev, e: Dev) { forall x: nat :: Stale(e, x) ==> Stale(d, x) }

  /** At most `k` more blocks are cached, and unless that filled the cache nothing reached the disk. */
  ghost predicate StaysCached(d: Dev, e: Dev, k: nat) {
    && e.maxBuffers == d.maxBuffers && |d.lru| <= |e.lru| <= |d.lru| + k && |e.disk| == |d.disk|
    && (|e.lru| < e.maxBuffers ==> e.disk == d.disk)
  }

  lemma ReadStaysCached(d: Dev, b: nat)
    ensures StaysCached(d, ReadStep(d, b).0, 1)
  {
    hide IndexOf;
  }

  lemma WriteStaysCached(d: Dev, b: nat, data: Block)
    ensures StaysCached(d, WriteStep(d, b, data).0, 1)
  {
    hide IndexOf;
  }

  lemma StaysCachedThen(d: Dev, e: Dev, f: Dev, k: nat, l: nat)
    requires StaysCached(d, e, k) && StaysCached(e, f, l)
    ensures StaysCached(d, f, k + l)
  {}

  lemma NoNewStaleThen(d: Dev, e: Dev, f: Dev)
    requires NoNewStale(d, e) && NoNewStale(e, f)
    ensures NoNewStale(d, f)
  {}

  lemma StaysCachedMore(d: Dev, e: Dev, k: nat, l: nat)
    requires StaysCached(d, e, k) && k <= l
    ensures StaysCached(d, e, l)
  {}

  // ---------- read ----------

  lemma ReadViewAt(d: Dev, b: nat, x: nat)
    requires Wf(d) && b < |d.disk| && x < |d.disk|
    ensures View(ReadStep(d, b).0, x) == View(d, x)
    ensures x == b ==> !Stale(ReadStep(d, b).0, x)
  {
    var k := IndexOf(d.lru, b);
    if k < |d.lru| {
      MoveFrontLooksUp(d.lru, k, Reloaded(d.lru[k], d.disk[b]), x);
      hide MoveFront, IndexOf;
    } else if |d.lru| < d.maxBuffers {
      assert ReadStep(d, b).0.lru[1..] == d.lru;
    }
  }

  /** A read returns the view of its block and changes no view. */
  lemma ReadRefines(d: Dev, b: nat)
    requires Wf(d) && b < |d.disk|
    ensures var (d', out) := ReadStep(d, b);
            out == Some(View(d, b)) && Wf(d') && SameViews(d, d') && !Stale(d', b)
  {
    var k := IndexOf(d.lru, b);
    var d' := ReadStep(d, b).0;
    if k < |d.lru| { MoveFrontLooksUp(d.lru, k, d'.lru[0], b); }
    assert Wf(d');
    ReadViewAt(d, b, b);
    forall x | 0 <= x < |d.disk| ensures View(d', x) == View(d, x) { ReadViewAt(d, b, x); }
  }

  lemma ReadStale(d: Dev, b: nat, x: nat)
    requires Wf(d) && Stale(ReadStep(d, b).0, x)
    ensures Stale(d, x)
  {
    if b < |d.disk| {
      var k := IndexOf(d.lru, b);
      if k < |d.lru| {
        MoveFrontLooksUp(d.lru, k, ReadStep(d, b).0.lru[0], x);
      } else if |d.lru| < d.maxBuffers {
        assert ReadStep(d, b).0.lru[1..] == d.lru;
      }
    }
  }

  lemma ReadCoherent(d: Dev, b: nat)
    requires Coherent(d)
    ensures Coherent(ReadStep(d, b).0)
  {
    if b < |d.disk| {
      ReadRefines(d, b);
      var k := IndexOf(d.lru, b);
      var lru' := ReadStep(d, b).0.lru;
      forall i | 0 <= i < |lru'| ensures lru'[i].num < |d.disk| && (lru'[i].dirty ==> lru'[i].valid)
        && (lru'[i].valid && !lru'[i].dirty ==> lru'[i].data == d.disk[lru'[i].num])
      {
        assert i == 0 || lru'[i] in d.lru;
      }
    }
  }

  // ---------- write ----------

  lemma WriteViewAt(d: Dev, b: nat, data: Block, x: nat)
    requires Wf(d) && b < |d.disk| && x < |d.disk|
    ensures View(WriteStep(d, b, data).0, x) ==
      if x != b then View(d, x) else if Stale(d, b) then d.disk[b] else data
  {
    var k := IndexOf(d.lru, b);
    if k < |d.lru| {
      MoveFrontLooksUp(d.lru, k, d.lru[k].(data := data, dirty := true), x);
    } else if |d.lru| < d.maxBuffers {
      assert WriteStep(d, b, data).0.lru[1..] == d.lru;
    }
  }

  /** A write changes the view of no other block, and gives its own block the new data exactly when it
      did not meet an invalidated buffer, or the disk happened to hold that data already. */
  lemma WriteRefinesIff(d: Dev, b: nat, data: Block)
    requires Wf(d) && b < |d.disk|
    ensures var d' := WriteStep(d, b, data).0;
            && Wf(d') && |d'.disk| == |d.disk|
            && (forall x :: 0 <= x < |d.disk| && x != b ==> View(d', x) == View(d, x))
            && (View(d', b) == data <==> !Stale(d, b) || d.disk[b] == data)
  {
    var k := IndexOf(d.lru, b);
    var d' := WriteStep(d, b, data).0;
    if k < |d.lru| { MoveFrontLooksUp(d.lru, k, d'.lru[0], b); }
    assert Wf(d');
    forall x | 0 <= x < |d.disk|
      ensures View(d', x) == if x != b then View(d, x) else if Stale(d, b) then d.disk[b] else data
    {
      WriteViewAt(d, b, data, x);
    }
  }

  lemma WriteStale(d: Dev, b: nat, data: Block, x: nat)
    requires Wf(d) && Stale(WriteStep(d, b, data).0, x)
    ensures Stale(d, x)
  {
    if b < |d.disk| {
      var k := IndexOf(d.lru, b);
      if k < |d.lru| {
        MoveFrontLooksUp(d.lru, k, d.lru[k].(data := data, dirty := true), x);
      } else if |d.lru| < d.maxBuffers {
        assert WriteStep(d, b, data).0.lru[1..] == d.lru;
      }
    }
  }

  /** A read as the flat disk sees it. */
  lemma ReadFlat(d: Dev, b: nat)
    requires Wf(d) && b < |d.disk|
    ensures ReadStep(d, b).1 == Some(Views(d)[b]) && Views(ReadStep(d, b).0) == Views(d)
    ensures NoNewStale(d, ReadStep(d, b).0) && Wf(ReadStep(d, b).0) && !Stale(ReadStep(d, b).0, b)
  {
    hide ReadStep, View, Stale;
    ReadRefines(d, b);
    forall x: nat | Stale(ReadStep(d, b).0, x) ensures Stale(d, x) { ReadStale(d, b, x); }
  }

  /** A write as the flat disk sees it. */
  lemma WriteFlat(d: Dev, b: nat, data: Block)
    requires Wf(d) && b < |d.disk|
    ensures !Stale(d, b) ==> Views(WriteStep(d, b, data).0) == Views(d)[b := data]
    ensures NoNewStale(d, WriteStep(d, b, data).0) && Wf(WriteStep(d, b, data).0)
  {
    hide WriteStep, View, Stale;
    WriteRefinesIff(d, b, data);
    forall x: nat | Stale(WriteStep(d, b, data).0, x) ensures Stale(d, x) { WriteStale(d, b, data, x); }
  }

  lemma WriteCoherent(d: Dev, b: nat, data: Block)
    requires Coherent(d) && !Stale(d, b)
    ensures Coherent(WriteStep(d, b, data).0)
  {
    if b < |d.disk| {
      WriteRefinesIff(d, b, data);
      var k := IndexOf(d.lru, b);
      var d' := WriteStep(d, b, data).0;
      forall i | 0 <= i < |d'.lru| ensures d'.lru[i].num < |d.disk| && (d'.lru[i].dirty ==> d'.lru[i].valid)
        && (d'.lru[i].valid && !d'.lru[i].dirty ==> d'.lru[i].data == d'.disk[d'.lru[i].num])
      {
        assert i == 0 || d'.lru[i] in d.lru;
      }
    }
  }

  /** The lost write: what a write to an invalidated buffer stores, the next read throws away. */
  lemma StaleWriteIsDiscarded(d: Dev, b: nat, data: Block)
    requires Wf(d) && b < |d.disk| && Stale(d, b)
    ensures ReadStep(WriteStep(d, b, data).0, b).1 == Some(d.disk[b])
  {
    var d' := WriteStep(d, b, data).0;
    WriteRefinesIff(d, b, data);
    MoveFrontLooksUp(d.lru, IndexOf(d.lru, b), d'.lru[0], b);
    ReadRefines(d', b);
  }

  /** Such a state is one home write away: the write through the cache that follows it is lost. */
  lemma LostWriteExample(data: Block)
    requires data != ZeroBlock()
    ensures var d := HomeStep(ReadStep(Dev([ZeroBlock()], [], 1), 0).0, 0, ZeroBlock());
            && Coherent(d) && WriteStep(d, 0, data).1
            && ReadStep(WriteStep(d, 0, data).0, 0).1 == Some(ZeroBlock()) != Some(data)
  {
    var start := Dev([ZeroBlock()], [], 1);
    var d := HomeStep(ReadStep(start, 0).0, 0, ZeroBlock());
    assert ReadStep(start, 0).0.lru == [Buf(0, ZeroBlock(), true, false, 1)];
    assert d.lru == [Buf(0, ZeroBlock(), false, false, 1)] && d.disk[0] == ZeroBlock();
    StaleWriteIsDiscarded(d, 0, data);
  }

  // ---------- sync ----------

  lemma {:induction false} WriteBackAt(disk: seq<Block>, lru: seq<Buf>, x: nat)
    requires Unique(lru) && x < |disk|
    ensures WriteBack(disk, lru)[x] ==
      var k := IndexOf(lru, x); if k < |lru| && lru[k].dirty then lru[k].data else disk[x]
    decreases |lru|
  {
    if lru != [] {
      var disk' := if lru[0].dirty && lru[0].num < |disk| then disk[lru[0].num := lru[0].data] else disk;
      WriteBackAt(disk', lru[1..], x);
      if lru[0].num == x {
        forall i | 0 <= i < |lru[1..]| ensures lru[1..][i].num != x {}
      }
    }
  }

  lemma CleanLooksUp(lru: seq<Buf>, x: nat)
    ensures IndexOf(AllClean(lru), x) == IndexOf(lru, x)
  {}

  /** A sync leaves no buffer dirty, and changes no view exactly when every dirty buffer that was
      invalidated in the meantime holds what the disk holds anyway. */
  lemma SyncRefinesIff(d: Dev)
    requires Wf(d)
    ensures var d' := SyncStep(d);
            && Wf(d') && (forall i :: 0 <= i < |d'.lru| ==> !d'.lru[i].dirty)
            && (SameViews(d, d') <==>
                forall x :: 0 <= x < |d.disk| && Stale(d, x) && Entry(d, x).dirty ==> Entry(d, x).data == d.disk[x])
  {
    var d' := SyncStep(d);
    forall x | 0 <= x < |d.disk|
      ensures View(d', x) == View(d, x) <==> (Stale(d, x) && Entry(d, x).dirty ==> Entry(d, x).data == d.disk[x])
    {
      WriteBackAt(d.disk, d.lru, x);
      CleanLooksUp(d.lru, x);
    }
  }

  /** On a coherent device a sync makes the disk equal to the view everywhere. */
  lemma SyncMakesDiskView(d: Dev)
    requires Coherent(d)
    ensures var d' := SyncStep(d);
            && Coherent(d') && SameViews(d, d')
            && forall x :: 0 <= x < |d.disk| ==> d'.disk[x] == View(d, x)
  {
    SyncRefinesIff(d);
    var d' := SyncStep(d);
    forall x | 0 <= x < |d.disk| ensures d'.disk[x] == View(d, x) {
      WriteBackAt(d.disk, d.lru, x);
    }
    forall i | 0 <= i < |d'.lru| && d'.lru[i].valid ensures d'.lru[i].data == d'.disk[d'.lru[i].num] {
      var x := d.lru[i].num;
      WriteBackAt(d.disk, d.lru, x);
      assert IndexOf(d.lru, x) == i;
    }
  }

  // ---------- eviction ----------

  lemma DropLooksUp(lru: seq<Buf>, k: nat, x: nat)
    requires Unique(lru) && k < |lru|
    ensures var rest := lru[..k] + lru[k + 1..];
            var i, j := IndexOf(lru, x), IndexOf(rest, x);
            && Unique(rest)
            && (j < |rest| <==> i < |lru| && i != k)
            && (j < |rest| ==> rest[j] == lru[i])
  {
    hide IndexOf;
    var rest := lru[..k] + lru[k + 1..];
    assert forall m :: 0 <= m < |rest| ==> rest[m] == lru[if m < k then m else m + 1];
    var i, j := IndexOf(lru, x), IndexOf(rest, x);
    if i < |lru| && i != k { FoundAt(rest, x, if i < k then i else i - 1); }
    if j < |rest| { FoundAt(lru, x, if j < k then j else j + 1); }
  }

  lemma EvictViewAt(d: Dev, x: nat)
    requires Coherent(d) && x < |d.disk|
    ensures |EvictStep(d).0.disk| == |d.disk| && View(EvictStep(d).0, x) == View(d, x)
  {
    var k := Victim(d.lru);
    if k < |d.lru| {
      DropLooksUp(d.lru, k, x);
      if d.lru[k].num == x { FoundAt(d.lru, x, k); }
    }
  }

  lemma EvictCoherent(d: Dev)
    requires Coherent(d)
    ensures Coherent(EvictStep(d).0)
  {
    hide Victim;
    var k, d' := Victim(d.lru), EvictStep(d).0;
    if k < |d.lru| {
      forall m | 0 <= m < |d'.lru| ensures d'.lru[m] == d.lru[if m < k then m else m + 1] {}
      assert forall m :: 0 <= m < |d.lru| && m != k ==> d.lru[m].num != d.lru[k].num;
    }
  }

  /** On a coherent device, evicting the least recently used free buffer changes no view; it fails only
      when every buffer is held. */
  lemma EvictRefines(d: Dev)
    requires Coherent(d)
    ensures var (d', ok) := EvictStep(d);
            && Coherent(d') && SameViews(d, d')
            && (ok <==> exists i :: 0 <= i < |d.lru| && d.lru[i].refs == 0)
            && |d'.lru| == |d.lru| - if ok then 1 else 0
  {
    EvictCoherent(d);
    forall x | 0 <= x < |d.disk| ensures View(EvictStep(d).0, x) == View(d, x) { EvictViewAt(d, x); }
    assert |EvictStep(d).0.disk| == |d.disk|;
  }

  // ---------- the journal's home write ----------

  lemma HomeViewAt(d: Dev, b: nat, data: Block, x: nat)
    requires Wf(d) && b < |d.disk| && x < |d.disk|
    ensures View(HomeStep(d, b, data), x) == if x == b then data else View(d, x)
  {
    var k := IndexOf(d.lru, b);
    if k < |d.lru| { UpdateLooksUp(d.lru, k, HomeStep(d, b, data).lru[k], x); }
  }

  /** A home write followed by the invalidation makes the new data the view, and nothing else. */
  lemma HomeRefines(d: Dev, b: nat, data: Block)
    requires Wf(d) && b < |d.disk|
    ensures var d' := HomeStep(d, b, data);
            Wf(d') && ViewsUpdated(d, d', b, data) && (Coherent(d) ==> Coherent(d'))
  {
    var k := IndexOf(d.lru, b);
    var d' := HomeStep(d, b, data);
    forall x | 0 <= x < |d.disk| ensures View(d', x) == if x == b then data else View(d, x) {
      HomeViewAt(d, b, data, x);
    }
    if k < |d.lru| { UpdateLooksUp(d.lru, k, d'.lru[k], b); }
    assert forall i :: 0 <= i < |d.lru| && i != k ==> d.lru[i].num != b;
  }

  /** The home writes of a checkpoint, as the flat disk sees them. */
  lemma {:induction false} HomeAllFlat(d: Dev, ws: seq<Blocks.Write>)
    requires Wf(d) && forall i :: 0 <= i < |ws| ==> ws[i].target < |d.disk|
    ensures var d' := HomeAll(d, ws);
            && Wf(d') && d'.disk == Apply(d.disk, ws) && Views(d') == Apply(Views(d), ws)
            && d'.maxBuffers == d.maxBuffers
            && forall x: nat :: Stale(d', x) ==> Stale(d, x) || Touches(ws, x)
    decreases |ws|
  {
    hide View, Stale, HomeStep, Wf;
    if ws != [] {
      var n := |ws| - 1;
      HomeAllFlat(d, ws[..n]);
      var e := HomeAll(d, ws[..n]);
      HomeFlat(e, ws[n].target, ws[n].data);
      assert forall x: nat :: Touches(ws[..n], x) ==> Touches(ws, x);
      assert Touches(ws, ws[n].target);
    }
  }

  lemma HomeFlat(d: Dev, b: nat, data: Block)
    requires Wf(d) && b < |d.disk|
    ensures var d' := HomeStep(d, b, data);
            && Wf(d') && d'.disk == d.disk[b := data] && d'.maxBuffers == d.maxBuffers
            && Views(d') == Views(d)[b := data]
            && forall x: nat :: Stale(d', x) ==> Stale(d, x) || x == b
  {
    HomeRefines(d, b, data);
    var k := IndexOf(d.lru, b);
    forall x: nat | Stale(HomeStep(d, b, data), x) ensures Stale(d, x) || x == b {
      if k < |d.lru| { UpdateLooksUp(d.lru, k, HomeStep(d, b, data).lru[k], x); }
    }
  }

  /** Blocks changed behind the cache's back change no view elsewhere. */
  lemma BehindCache(d: Dev, disk: seq<Block>)
    requires Wf(d) && |disk| == |d.disk|
    ensures var e := d.(disk := disk);
            && Wf(e) && (forall x :: 0 <= x < |disk| && disk[x] == d.disk[x] ==> Views(e)[x] == Views(d)[x])
            && forall x: nat :: Stale(e, x) <==> Stale(d, x)
  {}

  // ---------- runs ----------

  datatype DevOp = Read(b: nat) | Write(b: nat, data: Block) | Sync | Home(b: nat, data: Block)

  /** The flat disk the cache stands for. */
  function FlatStep(flat: seq<Block>, op: DevOp): (seq<Block>, Option<Block>) {
    match op
    case Read(b) => (flat, if b < |flat| then Some(flat[b]) else None)
    case Write(b, data) => (if b < |flat| then flat[b := data] else flat, None)
    case Sync => (flat, None)
    case Home(b, data) => (if b < |flat| then flat[b := data] else flat, None)
  }

  function DevStep(d: Dev, op: DevOp): (Dev, Option<Block>) {
    match op
    case Read(b) => ReadStep(d, b)
    case Write(b, data) => (WriteStep(d, b, data).0, None)
    case Sync => (SyncStep(d), None)
    case Home(b, data) => (HomeStep(d, b, data), None)
  }

  function FlatRun(flat: seq<Block>, ops: seq<DevOp>): seq<Option<Block>>
    decreases |ops|
  {
    if ops == [] then []
    else var (flat', out) := FlatStep(flat, ops[0]); [out] + FlatRun(flat', ops[1..])
  }

  function DevRun(d: Dev, ops: seq<DevOp>): seq<Option<Block>>
    decreases |ops|
  {
    if ops == [] then []
    else var (d', out) := DevStep(d, ops[0]); [out] + DevRun(d', ops[1..])
  }

  ghost predicate NeverWritesStale(d: Dev, ops: seq<DevOp>)
    decreases |ops|
  {
    ops != [] ==>
      && (ops[0].Write? ==> !Stale(d, ops[0].b))
      && NeverWritesStale(DevStep(d, ops[0]).0, ops[1..])
  }

  ghost predicate Represents(d: Dev, flat: seq<Block>) {
    Coherent(d) && |flat| == |d.disk| && forall x :: 0 <= x < |flat| ==> flat[x] == View(d, x)
  }

  lemma StepRefines(d: Dev, flat: seq<Block>, op: DevOp)
    requires Represents(d, flat) && (op.Write? ==> !Stale(d, op.b))
    ensures var (d', out) := DevStep(d, op);
            var (flat', out') := FlatStep(flat, op);
            Represents(d', flat') && out == out'
  {
    match op
    case Read(b) => if b < |flat| { ReadRefines(d, b); ReadCoherent(d, b); }
    case Write(b, data) => if b < |flat| { WriteRefinesIff(d, b, data); WriteCoherent(d, b, data); }
    case Sync => SyncMakesDiskView(d);
    case Home(b, data) => if b < |flat| { HomeRefines(d, b, data); }
  }

  /** Over any run of reads, writes, syncs and home writes, every read of the cached device returns what
      the flat disk returns. */
  lemma {:induction false} RunRefines(d: Dev, flat: seq<Block>, ops: seq<DevOp>)
    requires Represents(d, flat) && NeverWritesStale(d, ops)
    ensures DevRun(d, ops) == FlatRun(flat, ops)
    decreases |ops|
  {
    hide Represents, DevStep, FlatStep, Stale;
    if ops != [] {
      StepRefines(d, flat, ops[0]);
      RunRefines(DevStep(d, ops[0]).0, FlatStep(flat, ops[0]).0, ops[1..]);
    }
  }

  /** A freshly opened device caches nothing and stands for its disk. */
  lemma OpenedRepresents(disk: seq<Block>, maxBuffers: nat)
    ensures Represents(Dev(disk, [], maxBuffers), disk)
  {}
}
