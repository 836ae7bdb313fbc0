/** The cache's list orders the buffers by their last use, over every run; so what eviction picks is the
    least recently used buffer nobody holds. */
module DevOrder {
  import opened Blocks
  import opened DevModel
  import opened DevRefine

  /** When block `b` was last accessed: the number of accesses up to then, 0 if there was none. */
  function LastUse(trace: seq<nat>, b: nat): (t: nat)
    ensures t <= |trace| && (t > 0 ==> trace[t - 1] == b)
    ensures forall i :: t <= i < |trace| ==> trace[i] != b
  {
    if trace == [] then 0
    else
      var n := |trace| - 1;
      if trace[n] == b then n + 1 else LastUse(trace[..n], b)
  }

  lemma UseSnoc(trace: seq<nat>, b: nat, x: nat)
    ensures LastUse(trace + [b], x) == if x == b then |trace| + 1 else LastUse(trace, x)
  {
    assert (trace + [b])[..|trace|] == trace;
  }

  /** Every buffer has been used, and those in front more recently than those behind. */
  ghost predicate MruFirst(lru: seq<Buf>, trace: seq<nat>) {
    && (forall i :: 0 <= i < |lru| ==> LastUse(trace, lru[i].num) > 0)
    && forall i, j :: 0 <= i < j < |lru| ==> LastUse(trace, lru[i].num) > LastUse(trace, lru[j].num)
  }

  /** The access an operation makes; syncs and home writes are none. */
  function Access(d: Dev, op: DevOp): seq<nat> {
    if (op.Read? || op.Write?) && op.b < |d.disk| then [op.b] else []
  }

  lemma NewMru(lru: seq<Buf>, buf: Buf, trace: seq<nat>)
    requires MruFirst(lru, trace) && forall i :: 0 <= i < |lru| ==> lru[i].num != buf.num
    ensures MruFirst([buf] + lru, trace + [buf.num]) && MruFirst(lru, trace + [buf.num])
  {
    hide LastUse;
    var now := [buf] + lru;
    assert forall i :: 0 < i < |now| ==> now[i] == lru[i - 1];
    forall x: nat ensures LastUse(trace + [buf.num], x) == if x == buf.num then |trace| + 1 else LastUse(trace, x) {
      UseSnoc(trace, buf.num, x);
    }
    assert forall i :: 0 <= i < |lru| ==> LastUse(trace, lru[i].num) <= |trace|;
  }

  lemma FrontMru(lru: seq<Buf>, k: nat, buf: Buf, trace: seq<nat>)
    requires MruFirst(lru, trace) && k < |lru| && buf.num == lru[k].num
    ensures MruFirst(MoveFront(lru, k, buf), trace + [buf.num])
  {
    var rest := lru[..k] + lru[k + 1..];
    assert MoveFront(lru, k, buf) == [buf] + rest;
    hide LastUse, MoveFront;
    assert forall i :: 0 <= i < |rest| ==> rest[i] == lru[if i < k then i else i + 1];
    NewMru(rest, buf, trace);
  }

  lemma StepMru(d: Dev, trace: seq<nat>, op: DevOp)
    requires MruFirst(d.lru, trace)
    ensures MruFirst(DevStep(d, op).0.lru, trace + Access(d, op))
  {
    hide MruFirst, LastUse, MoveFront, WriteBack;
    if Access(d, op) == [] {
      assert trace + [] == trace;
      if op.Sync? { SameNumbers(d.lru, AllClean(d.lru), trace); }
      if op.Home? { SameNumbers(d.lru, DevStep(d, op).0.lru, trace); }
    } else {
      var k := IndexOf(d.lru, op.b);
      if k < |d.lru| {
        var buf := if op.Read? then Reloaded(d.lru[k], d.disk[op.b]) else d.lru[k].(data := op.data, dirty := true);
        FrontMru(d.lru, k, buf, trace);
      } else {
        var buf := if op.Read? then Buf(op.b, d.disk[op.b], true, false, 1) else Buf(op.b, op.data, true, true, 0);
        NewMru(d.lru, buf, trace);
      }
    }
  }

  lemma SameNumbers(lru: seq<Buf>, now: seq<Buf>, trace: seq<nat>)
    requires MruFirst(lru, trace) && |now| == |lru| && forall i :: 0 <= i < |lru| ==> now[i].num == lru[i].num
    ensures MruFirst(now, trace)
  {
    hide LastUse;
  }

  /** The device after a run, and the accesses the run made. */
  function After(d: Dev, ops: seq<DevOp>): Dev
    decreases |ops|
  {
    if ops == [] then d else After(DevStep(d, ops[0]).0, ops[1..])
  }

  function Accesses(d: Dev, ops: seq<DevOp>): seq<nat>
    decreases |ops|
  {
    if ops == [] then [] else Access(d, ops[0]) + Accesses(DevStep(d, ops[0]).0, ops[1..])
  }

  /** Most recently used first, in every reachable state. */
  lemma {:induction false} RunIsMruFirst(d: Dev, trace: seq<nat>, ops: seq<DevOp>)
    requires MruFirst(d.lru, trace)
    ensures MruFirst(After(d, ops).lru, trace + Accesses(d, ops))
    decreases |ops|
  {
    hide MruFirst, DevStep, Access;
    if ops == [] {
      assert trace + [] == trace;
    } else {
      var e := DevStep(d, ops[0]).0;
      StepMru(d, trace, ops[0]);
      RunIsMruFirst(e, trace + Access(d, ops[0]), ops[1..]);
      assert trace + Access(d, ops[0]) + Accesses(e, ops[1..]) == trace + (Access(d, ops[0]) + Accesses(e, ops[1..]));
    }
  }

  /** After any run on a freshly opened device, eviction picks the free buffer whose last use is oldest. */
  lemma VictimIsLeastRecent(disk: seq<Block>, maxBuffers: nat, ops: seq<DevOp>)
    ensures var d := Dev(disk, [], maxBuffers);
            var lru, trace := After(d, ops).lru, Accesses(d, ops);
            var k := Victim(lru);
            forall i :: 0 <= i < |lru| && i != k && lru[i].refs == 0 ==>
              k < |lru| && LastUse(trace, lru[k].num) < LastUse(trace, lru[i].num)
  {
    hide LastUse;
    var d := Dev(disk, [], maxBuffers);
    RunIsMruFirst(d, [], ops);
    assert [] + Accesses(d, ops) == Accesses(d, ops);
  }

  // ---------- references nobody gives back ----------

  function Refs(d: Dev, x: nat): int { if Cached(d, x) then Entry(d, x).refs else 0 }

  predicate BringsIn(d: Dev, op: DevOp, x: nat) {
    op == Read(x) && x < |d.disk| && !Cached(d, x) && |d.lru| < d.maxBuffers
  }

  lemma ReadRefs(d: Dev, b: nat, x: nat)
    requires DevModel.Wf(d)
    ensures Refs(ReadStep(d, b).0, x) == Refs(d, x) + if BringsIn(d, Read(b), x) then 1 else 0
  {
    hide MoveFront;
    var k := IndexOf(d.lru, b);
    if b < |d.disk| {
      if k < |d.lru| {
        MoveFrontLooksUp(d.lru, k, Reloaded(d.lru[k], d.disk[b]), x);
      } else {
        PushLooksUp(d.lru, Buf(b, d.disk[b], true, false, 1), x);
      }
    }
  }

  lemma WriteRefs(d: Dev, b: nat, data: Block, x: nat)
    requires DevModel.Wf(d)
    ensures Refs(WriteStep(d, b, data).0, x) == Refs(d, x)
  {
    hide MoveFront;
    var k := IndexOf(d.lru, b);
    if b < |d.disk| {
      if k < |d.lru| {
        MoveFrontLooksUp(d.lru, k, d.lru[k].(data := data, dirty := true), x);
      } else {
        PushLooksUp(d.lru, Buf(b, data, true, true, 0), x);
      }
    }
  }

  lemma SyncRefs(d: Dev, x: nat)
    ensures Refs(SyncStep(d), x) == Refs(d, x)
  {
    CleanLooksUp(d.lru, x);
  }

  lemma HomeRefs(d: Dev, b: nat, data: Block, x: nat)
    requires DevModel.Wf(d)
    ensures Refs(HomeStep(d, b, data), x) == Refs(d, x)
  {
    var k := IndexOf(d.lru, b);
    if k < |d.lru| { UpdateLooksUp(d.lru, k, d.lru[k].(valid := false, dirty := false), x); }
  }

  /** Only a read that brings its block into the cache takes a reference; nothing gives one back. */
  lemma StepRefs(d: Dev, op: DevOp, x: nat)
    requires DevModel.Wf(d)
    ensures Refs(DevStep(d, op).0, x) == Refs(d, x) + if BringsIn(d, op, x) then 1 else 0
  {
    hide ReadStep, WriteStep, SyncStep, HomeStep, Refs;
    match op
    case Read(b) => ReadRefs(d, b, x);
    case Write(b, data) => WriteRefs(d, b, data, x);
    case Sync => SyncRefs(d, x);
    case Home(b, data) => HomeRefs(d, b, data, x);
  }

  lemma StepWf(d: Dev, op: DevOp)
    requires DevModel.Wf(d)
    ensures DevModel.Wf(DevStep(d, op).0)
  {
    match op
    case Read(b) => if b < |d.disk| { ReadRefines(d, b); }
    case Write(b, data) => if b < |d.disk| { WriteRefinesIff(d, b, data); }
    case Sync => SyncRefinesIff(d);
    case Home(b, data) => if b < |d.disk| { HomeRefines(d, b, data); }
  }

  /** Eviction drops only what nobody refers to. */
  lemma EvictRefs(d: Dev, x: nat)
    requires DevModel.Wf(d)
    ensures Refs(EvictStep(d).0, x) == Refs(d, x)
  {
    var k := Victim(d.lru);
    if k < |d.lru| {
      DropLooksUp(d.lru, k, x);
      if IndexOf(d.lru, x) == k { assert d.lru[k].refs == 0; }
    }
  }

  function CountBroughtIn(d: Dev, ops: seq<DevOp>, x: nat): nat
    decreases |ops|
  {
    if ops == [] then 0
    else (if BringsIn(d, ops[0], x) then 1 else 0) + CountBroughtIn(DevStep(d, ops[0]).0, ops[1..], x)
  }

  /** So a block that a read has brought in is referred to for good, and eviction will never choose it. */
  lemma {:induction false} ReadHoldsForGood(d: Dev, ops: seq<DevOp>, x: nat)
    requires DevModel.Wf(d)
    ensures Refs(After(d, ops), x) == Refs(d, x) + CountBroughtIn(d, ops, x)
    ensures Refs(After(d, ops), x) > 0 ==>
      var e := EvictStep(After(d, ops)).0; Cached(e, x) && Refs(e, x) == Refs(After(d, ops), x)
    decreases |ops|
  {
    hide DevStep, Refs, BringsIn, EvictStep, DevModel.Wf;
    if ops == [] {
      EvictRefs(d, x);
      HeldIsCached(d, x);
      HeldIsCached(EvictStep(d).0, x);
    } else {
      StepRefs(d, ops[0], x);
      StepWf(d, ops[0]);
      ReadHoldsForGood(DevStep(d, ops[0]).0, ops[1..], x);
    }
  }

  lemma HeldIsCached(d: Dev, x: nat)
    ensures Refs(d, x) != 0 ==> Cached(d, x)
  {}

  lemma PushLooksUp(lru: seq<Buf>, buf: Buf, x: nat)
    requires Unique(lru) && IndexOf(lru, buf.num) == |lru|
    ensures Unique([buf] + lru)
    ensures IndexOf([buf] + lru, x) == if x == buf.num then 0 else IndexOf(lru, x) + 1
  {
    assert ([buf] + lru)[1..] == lru;
  }
}
