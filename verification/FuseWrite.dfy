/** modernfs_write of fuse_ops.c: begin, inode_write into the transaction, inode_sync, commit, checkpoint;
    and that what was written is then read back through the cache. */
module FuseWrite {
  import BlockAlloc
  import opened BlockDev
  import opened Blocks
  import opened BlockTree
  import opened DevRefine
  import Buffers
  import DevModel
  import opened FileArray
  import opened FileBytes
  import opened FileJournal
  import opened FileMap
  import opened InodeIo
  import opened InodeTable
  import opened Journal
  import opened JournalCommit
  import JournalCrash
  import JournalFormat
  import opened JournalLog
  import JournalRun
  import opened Options
  import PowerLoss

  // ---------- file systems that differ only outside the data area ----------

  ghost predicate SameData(s: Fs, t: Fs) {
    && Inv(s) && |t.disk| == |s.disk| && t.dataStart == s.dataStart && t.used == s.used && t.inodes == s.inodes
    && forall b :: s.dataStart <= b < s.dataStart + |s.used| ==> t.disk[b] == s.disk[b]
  }

  lemma {:induction false} SamePtr(s: Fs, t: Fs, x: Loc)
    requires SameData(s, t) && IsLoc(s, x)
    ensures Ptr(t, x) == Ptr(s, x)
    decreases Depth(x)
  {
    if !InInode(x) {
      SamePtr(s, t, Parent(x));
      if Ptr(s, Parent(x)) != 0 { InUse(s, Parent(x)); }
    }
  }

  lemma SameInv(s: Fs, t: Fs)
    requires SameData(s, t)
    ensures Inv(t)
  {
    hide Ptr;
    forall x | IsLoc(t, x) ensures Ptr(t, x) == Ptr(s, x) { SamePtr(s, t, x); }
  }

  /** Reading depends on the data area alone. */
  lemma {:induction false} SameRead(s: Fs, t: Fs, f: nat, off: nat, n: nat)
    requires SameData(s, t) && Inv(t) && f < |s.inodes|
    ensures ReadLoop(t, f, off, n) == ReadLoop(s, f, off, n)
    decreases n
  {
    hide Ptr, Inv;
    InvShaped(s);
    if n > 0 {
      if BlockIdx(off) < MAX_BLOCKS {
        var l := DataLoc(f, BlockIdx(off));
        SamePtr(s, t, l);
        if Ptr(s, l) != 0 { InUse(s, l); }
      }
      SameRead(s, t, f, off + ChunkLen(off, n), n - ChunkLen(off, n));
    }
  }

  /** After a journaled write, any state whose data area is the journaled one with the transaction applied
      gives the written bytes back. */
  lemma JournaledReads(s: Fs, f: nat, off: nat, data: seq<Byte>, t: Fs)
    requires Inv(s) && f < |s.inodes| && off + |data| <= MAX_OFFSET
    requires InodeWrite(s, f, off, data, true).status.Ok?
    requires var j := InodeWrite(s, f, off, data, true);
             SameData(j.fs.(disk := Apply(j.fs.disk, j.pending)), t)
    ensures Inv(t) && InodeRead(t, f, off, |data|) == Ok(data)
  {
    hide Ptr, Inv, InodeWrite, ReadLoop, Apply;
    var r := InodeWrite(s, f, off, data, false).fs;
    JournaledIsDirect(s, f, off, data);
    WriteThenRead(s, f, off, data);
    SameInv(r, t);
    SameRead(r, t, f, off, |data|);
  }

  // ---------- commit and checkpoint of one transaction on an empty journal ----------

  /** Nothing a commit prints lies outside the journal, whether it succeeds or runs out of slots. */
  lemma CommitStaysInJournal(r: Ring, m: JournalRun.Machine, tid: nat)
    requires JournalRun.Wf(r, m)
    ensures JournalCrash.HomeEq(r, m.disk, JournalRun.ExecCommit(r, m, tid).next.disk)
  {
    hide RecordWrites, Apply;
    if tid in m.txns && m.txns[tid].state == JournalRun.Active && m.txns[tid].writes != [] {
      var ws, free := m.txns[tid].writes, Free(r, m.sb.head, m.sb.tail);
      var n := if free < 2 * |ws| + 1 then 2 * TornRecords(free, |ws|) else 2 * |ws| + 1;
      PrintedByWrites(r, m.disk, m.sb.tail, tid % 0x1_0000_0000_0000_0000, ws, n);
    }
  }

  /** The log of a transaction: a transaction without writes leaves none. */
  function LogOf(ws: seq<Write>): seq<seq<Write>> { if ws == [] then [] else [ws] }

  lemma CommitAlone(r: Ring, m: JournalRun.Machine, tid: nat)
    requires JournalRun.Wf(r, m) && m.sb.head == m.sb.tail
    requires tid in m.txns && m.txns[tid].state == JournalRun.Active
    requires m.txns[tid].writes != [] ==> StaysOffSlotZero(r, m.sb.tail, |m.txns[tid].writes|)
    ensures var out := JournalRun.ExecCommit(r, m, tid);
            out.ok && LogAt(r, out.next.disk, out.next.sb.head, out.next.sb.tail, LogOf(m.txns[tid].writes))
  {
    hide RecordWrites, Apply;
    var ws := m.txns[tid].writes;
    if ws != [] {
      var id := tid % 0x1_0000_0000_0000_0000;
      PrintedByWrites(r, m.disk, m.sb.tail, id, ws, 2 * |ws| + 1);
      var e := Apply(m.disk, RecordWrites(r, m.sb.tail, id, ws, 2 * |ws| + 1));
      CommitAppends(r, m.disk, e, JournalRun.ExecCommit(r, m, tid).next.disk, m.sb.head, m.sb.tail, [], id, ws);
      assert [] + [ws] == [ws];
    }
  }

  lemma SweptAlone(r: Ring, d: seq<Block>, head: nat, tail: nat, ws: seq<Write>)
    requires LogAt(r, d, head, tail, LogOf(ws)) && AllHome(r, d, ws)
    ensures MaySweep(r, d, head, tail) && Sweep(r, d, head, tail, r.blocks) == Some(ws)
  {
    LogWalksHome(r, d, head, tail, LogOf(ws));
    ReadersAgree(r, d, head, tail, LogOf(ws));
    if ws == [] {
      assert Flatten([]) == [];
    } else {
      FlattenOne(ws);
    }
  }

  lemma FlattenOne(ws: seq<Write>)
    ensures Flatten([ws]) == ws
  {
    assert [ws][..0] == [];
    assert [] + ws == ws;
  }

  /** The device after records went behind the cache's back, the transaction went home with its blocks
      invalidated, and the superblock was rewritten: outside the journal clients see the transaction applied. */
  lemma AfterCheckpoint(r: Ring, d: DevModel.Dev, disk: seq<Block>, ws: seq<Write>, super: Block)
    requires DevModel.Wf(d) && JournalCrash.HomeEq(r, d.disk, disk) && AllHome(r, disk, ws) && r.start < |disk|
    ensures var e := DevModel.HomeAll(d.(disk := disk), ws);
            var e' := e.(disk := Apply(disk, ws)[r.start := super]);
            && |e'.disk| == |d.disk| && DevModel.Wf(e')
            && JournalCrash.HomeEq(r, Apply(Views(d), ws), Views(e'))
            && forall x: nat :: Stale(e', x) ==> Stale(d, x) || Touches(ws, x)
  {
    hide Views, Stale, Apply, DevModel.HomeAll;
    var b := d.(disk := disk);
    BehindCache(d, disk);
    HomeAllFlat(b, ws);
    assert JournalCrash.HomeEq(r, Views(d), Views(b));
    JournalCrash.HomeEqApply(r, Views(d), Views(b), ws);
    BehindCache(DevModel.HomeAll(b, ws), Apply(disk, ws)[r.start := super]);
  }

  /** The blocks that the sweep of this commit must leave alone. */
  function GuardedBy(r: Ring, tail: nat, n: nat): Region { Guarded(r, !StaysOffSlotZero(r, tail, n)) }

  /** A commit that wraps without harm can be swept too. */
  lemma WrapSwept(r: Ring, d: seq<Block>, e: seq<Block>, f: seq<Block>, tail: nat, id: JournalFormat.LongWord,
                  ws: seq<Write>)
    requires Printed(r, d, e, tail, id, ws, 2 * |ws| + 1) && SuperDiffers(r, e, f) && ws != []
    requires JournalFormat.Magic(f[r.start]) == JournalFormat.JOURNAL_MAGIC
    requires !StaysOffSlotZero(r, tail, |ws|) && SweptWhole(r, d, tail, ws) && AllHome(Guarded(r, true), d, ws)
    ensures var tail' := Slot(r, tail + 2 * |ws| + 1);
            Sweep(r, f, tail, tail', r.blocks) == Some(ws) && MaySweep(r, f, tail, tail')
  {
    hide Sweep, MaySweep, RecordBlock, JournalFormat.Magic, AllHome, LuckyWrap;
    PrintedGeometry(r, d, e, f, tail, id, ws, 2 * |ws| + 1);
    CommitSweptIff(r, d, e, f, tail, tail, [], id, ws);
    assert Flatten([]) + ws == ws;
    WrapReadsBack(r, d, e, f, tail, id, ws);
    hide Printed, SuperDiffers;
    WrapWalksHome(r, d, f, tail, ws);
  }

  /** The records of such a commit are read back as they were. */
  lemma WrapReadsBack(r: Ring, d: seq<Block>, e: seq<Block>, f: seq<Block>, tail: nat, id: JournalFormat.LongWord,
                      ws: seq<Write>)
    requires Printed(r, d, e, tail, id, ws, 2 * |ws| + 1) && SuperDiffers(r, e, f) && ws != []
    requires JournalFormat.Magic(f[r.start]) == JournalFormat.JOURNAL_MAGIC
    requires !StaysOffSlotZero(r, tail, |ws|) && SweptWhole(r, d, tail, ws)
    ensures tail < r.blocks && 2 * |ws| + 1 < r.blocks && r.start + r.blocks < |f|
    ensures RecordsAt(r, f, tail, ws) && !ReadSlot(r, f, Slot(r, tail + 2 * |ws|)).Data?
  {
    hide RecordBlock, JournalFormat.Magic, ReadBack, RecordsAt, ReadSlot;
    PrintedGeometry(r, d, e, f, tail, id, ws, 2 * |ws| + 1);
    NoHeaderOnZero(r, d, tail, ws);
    WholeReadBack(r, d, tail, ws);
    RecordsRead(r, d, e, f, tail, id, ws, 2 * |ws| + 1, 0, |ws|);
    assert ws[0..|ws|] == ws;
    if Slot(r, tail + 2 * |ws|) != 0 { CommitRead(r, d, e, f, tail, id, ws); } else { SuperIsNoRecord(r, f); }
  }

  lemma NoHeaderOnZero(r: Ring, d: seq<Block>, tail: nat, ws: seq<Write>)
    requires r.start + r.blocks < |d| && tail < r.blocks && 2 * |ws| + 1 < r.blocks && SweptWhole(r, d, tail, ws)
    ensures forall i :: 0 <= i < |ws| ==> Slot(r, tail + 2 * i) != 0
  {}

  lemma WholeReadBack(r: Ring, d: seq<Block>, tail: nat, ws: seq<Write>)
    requires r.start + r.blocks < |d| && tail < r.blocks && 2 * |ws| + 1 < r.blocks && SweptWhole(r, d, tail, ws)
    ensures ReadBack(r, d, tail, ws) == ws
  {
    hide ReadBack;
    if RecordsOffSlotZero(r, tail, |ws|) { ReadBackPlain(r, d, tail, ws); } else { ReadBackSame(r, d, tail, ws); }
  }

  lemma WrapWalksHome(r: Ring, d: seq<Block>, f: seq<Block>, tail: nat, ws: seq<Write>)
    requires tail < r.blocks && 2 * |ws| + 1 < r.blocks && r.start + r.blocks < |f| == |d|
    requires RecordsAt(r, f, tail, ws) && !ReadSlot(r, f, Slot(r, tail + 2 * |ws|)).Data?
    requires AllHome(Guarded(r, true), d, ws)
    ensures MaySweep(r, f, tail, Slot(r, tail + 2 * |ws| + 1))
  {
    hide SweepsHome, ReadSlot, RecordsAt;
    var n := |ws|;
    var tail', cur := Slot(r, tail + 2 * n + 1), Slot(r, tail + 2 * n);
    RingMisses(r, tail, n, 2 * n + 1);
    assert After(r, tail, n) == cur;
    SameHomes(Guarded(r, true), d, f, ws);
    LastStepHome(r, f, cur, tail', r.blocks - n);
    RingWalksHome(r, f, tail, tail', ws, r.blocks);
  }

  lemma SuperIsNoRecord(r: Ring, f: seq<Block>)
    requires r.start + r.blocks < |f| && JournalFormat.Magic(f[r.start]) == JournalFormat.JOURNAL_MAGIC
    ensures ReadSlot(r, f, 0) == Unknown
  {}

  lemma LastStepHome(r: Ring, f: seq<Block>, cur: nat, tail: nat, fuel: nat)
    requires cur < r.blocks && r.start + r.blocks < |f| && 1 <= fuel && Slot(r, cur + 1) == tail
    requires !ReadSlot(r, f, cur).Data?
    ensures SweepsHome(r, f, cur, tail, fuel, true)
  {}

  /** A commit on an empty journal: it fails for lack of slots alone, and what it leaves can be swept. */
  lemma CommitOutcome(r: Ring, m: JournalRun.Machine, tid: nat)
    requires JournalRun.Wf(r, m) && m.sb.head == m.sb.tail
    requires tid in m.txns && m.txns[tid].state == JournalRun.Active
    requires var ws := m.txns[tid].writes;
             && AllHome(GuardedBy(r, m.sb.tail, |ws|), m.disk, ws)
             && (|ws| == 0 || 2 * |ws| + 1 >= r.blocks || SweptWhole(r, m.disk, m.sb.tail, ws))
    ensures var out, ws := JournalRun.ExecCommit(r, m, tid), m.txns[tid].writes;
            && JournalCrash.HomeEq(r, m.disk, out.next.disk) && JournalRun.Wf(r, out.next)
            && (out.ok <==> |ws| == 0 || 2 * |ws| + 1 < r.blocks)
            && (out.ok ==> && (out.next.sb.head == out.next.sb.tail <==> ws == [])
                           && AllHome(r, out.next.disk, ws)
                           && MaySweep(r, out.next.disk, out.next.sb.head, out.next.sb.tail)
                           && Sweep(r, out.next.disk, out.next.sb.head, out.next.sb.tail, r.blocks) == Some(ws))
  {
    hide RecordWrites, Apply, Sweep, MaySweep, SweptWhole, JournalFormat.SuperBlock, LogAt, GuardedBy;
    hide JournalRun.CommitEvents;
    CommitStaysInJournal(r, m, tid);
    var ws := m.txns[tid].writes;
    GuardedIsHome(r, m.sb.tail, m.disk, ws);
    if ws == [] || StaysOffSlotZero(r, m.sb.tail, |ws|) {
      if JournalRun.ExecCommit(r, m, tid).ok { PlainOutcome(r, m, tid, ws); }
    } else if 2 * |ws| + 1 < r.blocks {
      WrapOutcome(r, m, tid, ws);
    }
  }

  lemma GuardedIsHome(r: Ring, tail: nat, d: seq<Block>, ws: seq<Write>)
    requires AllHome(GuardedBy(r, tail, |ws|), d, ws)
    ensures AllHome(r, d, ws)
  {}

  lemma PlainOutcome(r: Ring, m: JournalRun.Machine, tid: nat, ws: seq<Write>)
    requires JournalRun.Wf(r, m) && m.sb.head == m.sb.tail && tid in m.txns
    requires m.txns[tid] == JournalRun.Txn(ws, JournalRun.Active)
    requires (ws == [] || StaysOffSlotZero(r, m.sb.tail, |ws|)) && AllHome(r, m.disk, ws)
    requires |JournalRun.ExecCommit(r, m, tid).next.disk| == |m.disk|
    ensures var next := JournalRun.ExecCommit(r, m, tid).next;
            && next.sb.head < r.blocks && r.start + r.blocks < |next.disk|
            && MaySweep(r, next.disk, next.sb.head, next.sb.tail)
            && Sweep(r, next.disk, next.sb.head, next.sb.tail, r.blocks) == Some(ws)
  {
    hide RecordWrites, Apply, Sweep, MaySweep, JournalFormat.SuperBlock, JournalRun.ExecCommit, LogHolds;
    CommitAlone(r, m, tid);
    var next := JournalRun.ExecCommit(r, m, tid).next;
    SweptAlone(r, next.disk, next.sb.head, next.sb.tail, ws);
  }

  lemma WrapOutcome(r: Ring, m: JournalRun.Machine, tid: nat, ws: seq<Write>)
    requires JournalRun.Wf(r, m) && m.sb.head == m.sb.tail && tid in m.txns
    requires m.txns[tid] == JournalRun.Txn(ws, JournalRun.Active)
    requires ws != [] && !StaysOffSlotZero(r, m.sb.tail, |ws|) && 2 * |ws| + 1 < r.blocks
    requires SweptWhole(r, m.disk, m.sb.tail, ws)
    requires AllHome(GuardedBy(r, m.sb.tail, |ws|), m.disk, ws)
    ensures var next := JournalRun.ExecCommit(r, m, tid).next;
            && next.sb.head < r.blocks && r.start + r.blocks < |next.disk|
            && MaySweep(r, next.disk, next.sb.head, next.sb.tail)
            && Sweep(r, next.disk, next.sb.head, next.sb.tail, r.blocks) == Some(ws)
  {
    hide RecordWrites, Apply, Sweep, MaySweep, SweptWhole, JournalFormat.SuperBlock, JournalRun.CommitEvents;
    var next := JournalRun.ExecCommit(r, m, tid).next;
    var id := tid % 0x1_0000_0000_0000_0000;
    var e := Apply(m.disk, RecordWrites(r, m.sb.tail, id, ws, 2 * |ws| + 1));
    PrintedByWrites(r, m.disk, m.sb.tail, id, ws, 2 * |ws| + 1);
    JournalCrash.SuperWriteLoads(next.sb);
    WrapSwept(r, m.disk, e, next.disk, m.sb.tail, id, ws);
  }

  lemma BehindCacheHome(r: Ring, d: DevModel.Dev, disk: seq<Block>)
    requires DevModel.Wf(d) && JournalCrash.HomeEq(r, d.disk, disk)
    ensures JournalCrash.HomeEq(r, Views(d), Views(d.(disk := disk))) && NoNewStale(d, d.(disk := disk))
  {
    hide Views, Stale;
    BehindCache(d, disk);
  }

  /** From `d` to `e` no buffer was invalidated but those of blocks that `ws` names. */
  ghost predicate StaleOnlyAt(d: DevModel.Dev, e: DevModel.Dev, ws: seq<Write>) {
    forall x: nat :: Stale(e, x) ==> Stale(d, x) || Touches(ws, x)
  }

  /** From `d` to `e` the transaction `ws` went home; at most `k` more blocks are cached, and unless that filled the
      cache nothing else outside the journal reached the disk. */
  ghost predicate OnlyTransaction(r: Ring, d: DevModel.Dev, e: DevModel.Dev, ws: seq<Write>, k: nat) {
    && e.maxBuffers == d.maxBuffers && |d.lru| <= |e.lru| <= |d.lru| + k && |e.disk| == |d.disk|
    && (|e.lru| < e.maxBuffers ==> JournalCrash.HomeEq(r, Apply(d.disk, ws), e.disk))
  }

  /** The superblock in memory is the one on the device. */
  predicate SuperOnDisk(r: Ring, disk: seq<Block>, sb: JournalFormat.JournalSuper) {
    JournalFormat.WellSized(sb) && r.start < |disk| && disk[r.start] == JournalFormat.SuperBlock(sb)
  }

  lemma CachedThenHome(r: Ring, d: DevModel.Dev, e: DevModel.Dev, f: DevModel.Dev, ws: seq<Write>, k: nat, l: nat)
    requires StaysCached(d, e, k) && OnlyTransaction(r, e, f, ws, l)
    ensures OnlyTransaction(r, d, f, ws, k + l)
  {
    hide Apply, JournalCrash.HomeEq;
  }

  lemma {:induction false} HomeAllCaches(d: DevModel.Dev, ws: seq<Write>)
    ensures var e := DevModel.HomeAll(d, ws); |e.lru| == |d.lru| && e.maxBuffers == d.maxBuffers && |e.disk| == |d.disk|
    decreases |ws|
  {
    if ws != [] { HomeAllCaches(d, ws[..|ws| - 1]); }
  }

  lemma TransactionHome(r: Ring, d: DevModel.Dev, disk: seq<Block>, sb: JournalFormat.JournalSuper, ws: seq<Write>,
                        e: DevModel.Dev)
    requires JournalCrash.HomeEq(r, d.disk, disk) && r.start < |disk| && r.blocks > 0 && JournalFormat.WellSized(sb)
    requires e == if ws == [] then d.(disk := disk)
      else DevModel.HomeAll(d.(disk := disk), ws).(disk :=
        Apply(disk, ws)[r.start := JournalFormat.SuperBlock(JournalRun.Released(sb))])
    ensures OnlyTransaction(r, d, e, ws, 0)
    ensures ws != [] ==> e.disk[r.start] == JournalFormat.SuperBlock(JournalRun.Released(sb))
  {
    hide Apply, DevModel.HomeAll, JournalFormat.SuperBlock;
    HomeAllCaches(d.(disk := disk), ws);
    JournalCrash.HomeEqApply(r, d.disk, disk, ws);
    if ws == [] { AppliesNothing(d.disk, ws); }
  }

  /** The device after a checkpoint of `ws` alone. */
  lemma ViewsAfter(r: Ring, d: DevModel.Dev, disk: seq<Block>, sb: JournalFormat.JournalSuper, ws: seq<Write>,
                   e: DevModel.Dev)
    requires DevModel.Wf(d) && JournalCrash.HomeEq(r, d.disk, disk) && AllHome(r, disk, ws) && r.start < |disk|
    requires JournalFormat.WellSized(sb)
    requires e == if ws == [] then d.(disk := disk)
      else DevModel.HomeAll(d.(disk := disk), ws).(disk :=
        Apply(disk, ws)[r.start := JournalFormat.SuperBlock(JournalRun.Released(sb))])
    ensures |e.disk| == |d.disk| && JournalCrash.HomeEq(r, Apply(Views(d), ws), Views(e))
    ensures StaleOnlyAt(d, e, ws)
  {
    hide Views, Stale, Apply, DevModel.HomeAll, JournalFormat.SuperBlock;
    if ws == [] {
      BehindCacheHome(r, d, disk);
      AppliesNothing(Views(d), ws);
    } else {
      AfterCheckpoint(r, d, disk, ws, JournalFormat.SuperBlock(JournalRun.Released(sb)));
    }
  }

  // ---------- the write as a whole ----------

  /** The blocks a transaction names lie in the data area, in use, behind the journal. */
  lemma PendingHome(r: Ring, s: Fs, f: nat, off: nat, data: seq<Byte>)
    requires Inv(s) && f < |s.inodes| && off + |data| <= MAX_OFFSET && r.start + r.blocks <= s.dataStart
    ensures var j := InodeWrite(s, f, off, data, true);
            && Inv(j.fs) && |j.fs.disk| == |s.disk| && |j.fs.used| == |s.used| && j.fs.dataStart == s.dataStart
            && (forall i :: 0 <= i < |j.pending| ==> Allocated(j.fs, j.pending[i].target))
            && AllHome(r, j.fs.disk, j.pending)
  {
    hide WriteLoop, Inv, Extends;
    PendingInDataArea(s, f, off, data);
    ExtendsGeometry(s, WriteLoop(s, f, off, data, true).fs);
    InvShaped(s);
  }

  /** A transaction that can be committed and checkpointed over file system `j`. */
  ghost predicate ReadyWith(r: Ring, j: Fs, ws: seq<Write>) {
    && Inv(j) && Inv(j.(disk := Apply(j.disk, ws))) && AllHome(r, j.disk, ws)
    && forall i :: 0 <= i < |ws| ==> Allocated(j, ws[i].target)
  }

  lemma ReadyFacts(r: Ring, j: Fs, ws: seq<Write>)
    requires ReadyWith(r, j, ws)
    ensures Shaped(j) && Inv(j) && Inv(j.(disk := Apply(j.disk, ws))) && AllHome(r, j.disk, ws)
    ensures forall i :: 0 <= i < |ws| ==> Allocated(j, ws[i].target)
  {
    InvShaped(j);
  }

  lemma PendingReady(r: Ring, s: Fs, f: nat, off: nat, data: seq<Byte>)
    requires Inv(s) && f < |s.inodes| && off + |data| <= MAX_OFFSET && r.start + r.blocks <= s.dataStart
    ensures var j := InodeWrite(s, f, off, data, true);
            && |j.fs.disk| == |s.disk| && j.fs.dataStart == s.dataStart && |j.fs.inodes| == |s.inodes|
            && ReadyWith(r, j.fs, j.pending)
  {
    hide Inv, InodeWrite, Apply;
    PendingHome(r, s, f, off, data);
    JournaledIsDirect(s, f, off, data);
  }

  lemma OnlyShaped(s: Fs)
    requires Inv(s)
    ensures Shaped(s)
  {}

  /** Free blocks stay writable when only blocks in use were invalidated. */
  lemma StaleThrough(d: DevModel.Dev, e: DevModel.Dev, f: DevModel.Dev, ws: seq<Write>)
    requires NoNewStale(d, e) && StaleOnlyAt(e, f, ws)
    ensures StaleOnlyAt(d, f, ws)
  {
    hide Stale, Touches;
  }

  lemma WritableAfter(s: Fs, d: DevModel.Dev, t: Fs, e: DevModel.Dev, ws: seq<Write>)
    requires FreeWritable(s, d) && t.used == s.used && t.dataStart == s.dataStart
    requires StaleOnlyAt(d, e, ws)
    requires forall i :: 0 <= i < |ws| ==> Allocated(s, ws[i].target)
    ensures FreeWritable(t, e)
  {
    hide Stale;
    forall b: nat | IsFree(t, b) ensures !Stale(e, b) {
      assert IsFree(s, b) && !Allocated(s, b);
      forall i | 0 <= i < |ws| ensures ws[i].target != b {
        assert Allocated(s, ws[i].target);
      }
    }
  }

  /** The inode's record merged into its block of the table. */
  function Stored(s: Fs, tableStart: nat, inum: nat, d: DiskInode): Fs
    requires WellFormed(d) && tableStart + TableBlock(inum) < |s.disk|
  {
    var b := tableStart + TableBlock(inum);
    s.(disk := s.disk[b := Merge(s.disk[b], inum, d)])
  }

  lemma StoredIs(s: Fs, tableStart: nat, inum: nat, d: DiskInode)
    requires WellFormed(d) && tableStart + TableBlock(inum) < |s.disk|
    ensures var b := tableStart + TableBlock(inum);
            Stored(s, tableStart, inum, d) == s.(disk := s.disk[b := Merge(s.disk[b], inum, d)])
  {
    hide TableBlock, Merge;
  }

  /** `t` has the data area of `j` with `ws` applied, seen through a rewritten inode table and the journal. */
  lemma DataAfter(r: Ring, j: Fs, tb: nat, record: Block, ws: seq<Write>, disk: seq<Block>)
    requires Inv(j) && tb < j.dataStart && r.start + r.blocks <= j.dataStart && tb < |j.disk|
    requires JournalCrash.HomeEq(r, Apply(j.disk[tb := record], ws), disk)
    requires Inv(j.(disk := Apply(j.disk, ws)))
    ensures SameData(j.(disk := Apply(j.disk, ws)), j.(disk := disk))
  {
    hide Inv, Apply;
    InvShaped(j);
    forall b | j.dataStart <= b < j.dataStart + |j.used| ensures disk[b] == Apply(j.disk, ws)[b] {
      ApplyAt(j.disk[tb := record], j.disk, ws, b);
    }
  }

  lemma SettledData(r: Ring, j: Fs, tb: nat, record: Block, ws: seq<Write>, ok: bool, disk: seq<Block>)
    requires Inv(j) && tb < j.dataStart && r.start + r.blocks <= j.dataStart && tb < |j.disk|
    requires JournalCrash.HomeEq(r, if ok then Apply(j.disk[tb := record], ws) else j.disk[tb := record], disk)
    requires Inv(j.(disk := Apply(j.disk, ws)))
    ensures SameData(if ok then j.(disk := Apply(j.disk, ws)) else j, j.(disk := disk))
  {
    hide Inv, Apply;
    if ok {
      DataAfter(r, j, tb, record, ws, disk);
    } else {
      AppliesNothing(j.disk, []);
      AppliesNothing(j.disk[tb := record], []);
      DataAfter(r, j, tb, record, [], disk);
    }
  }

  /** What `write` leaves behind, from the outcome of the inode sync and of the commit with its checkpoint. */
  lemma Settled(r: Ring, j: Fs, d: DevModel.Dev, tb: nat, record: Block, ws: seq<Write>, ok: bool, disk: seq<Block>,
                e: DevModel.Dev)
    requires ReadyWith(r, j, ws) && FreeWritable(j, d) && tb < j.dataStart && r.start + r.blocks <= j.dataStart
    requires tb < |j.disk|
    requires JournalCrash.HomeEq(r, if ok then Apply(j.disk[tb := record], ws) else j.disk[tb := record], disk)
    requires StaleOnlyAt(d, e, ws)
    ensures SameData(if ok then j.(disk := Apply(j.disk, ws)) else j, j.(disk := disk))
    ensures FreeWritable(j.(disk := disk), e)
  {
    hide Apply, ReadyWith, FreeWritable, StaleOnlyAt, JournalCrash.HomeEq, SameData, Inv, Allocated, AllHome;
    ReadyFacts(r, j, ws);
    SettledData(r, j, tb, record, ws, ok, disk);
    WritableAfter(j, d, j.(disk := disk), e, ws);
  }

  lemma SettledAll(r: Ring, j: Fs, d: DevModel.Dev, synced: DevModel.Dev, tableStart: nat, f: nat, ino: DiskInode,
                   ws: seq<Write>, ok: bool, t: Fs, u: Fs, e: DevModel.Dev)
    requires ReadyWith(r, j, ws) && FreeWritable(j, d) && WellFormed(ino) && r.start + r.blocks <= j.dataStart
    requires tableStart + TableBlock(f) < j.dataStart <= |j.disk| && t == Stored(j, tableStart, f, ino)
    requires u == t.(disk := u.disk)
    requires JournalCrash.HomeEq(r, if ok then Apply(t.disk, ws) else t.disk, u.disk)
    requires NoNewStale(d, synced) && StaleOnlyAt(synced, e, ws) && StaysCached(d, synced, 2)
    requires ok ==> OnlyTransaction(r, synced, e, ws, 0)
    ensures ok ==> OnlyTransaction(r, d, e, ws, 2)
    ensures SameData(if ok then j.(disk := Apply(j.disk, ws)) else j, u) && FreeWritable(u, e)
    ensures Synced(r, j, u, tableStart, f, ino, true)
  {
    hide Apply, ReadyWith, FreeWritable, StaleOnlyAt, JournalCrash.HomeEq, SameData, Inv, Allocated, Synced;
    hide Merge, TableBlock, WellFormed, Stored, NoNewStale, StaysCached, OnlyTransaction;
    StaleThrough(d, synced, e, ws);
    if ok { CachedThenHome(r, d, synced, e, ws, 2, 0); }
    ReadyFacts(r, j, ws);
    StoredIs(j, tableStart, f, ino);
    var tb := tableStart + TableBlock(f);
    Settled(r, j, d, tb, Merge(j.disk[tb], f, ino), ws, ok, u.disk, e);
    SettledFront(r, j, tableStart, f, ino, ws, ok, u.disk);
  }

  lemma SameHomes(r: Region, d: seq<Block>, e: seq<Block>, ws: seq<Write>)
    requires |d| == |e| && AllHome(r, d, ws)
    ensures AllHome(r, e, ws)
  {}

  /** Behind the journal and the inode table no block of a transaction is guarded. */
  lemma GuardedHome(r: Ring, j: Fs, tail: nat, ws: seq<Write>)
    requires Shaped(j) && r.start + r.blocks < j.dataStart && forall i :: 0 <= i < |ws| ==> Allocated(j, ws[i].target)
    ensures AllHome(GuardedBy(r, tail, |ws|), j.disk, ws)
  {
    forall i | 0 <= i < |ws| ensures IsHome(GuardedBy(r, tail, |ws|), j.disk, ws[i].target) {
      assert Allocated(j, ws[i].target);
    }
  }

  /** In front of the data area and outside the journal nothing has changed but the table block `tb`, which holds
      `record`. */
  ghost predicate FrontKept(r: Ring, s: Fs, t: Fs, tb: nat, record: Block) {
    && |t.disk| == |s.disk|
    && forall b :: 0 <= b < s.dataStart && b < |s.disk| && !InJournal(r, b) ==>
         t.disk[b] == if b == tb then record else s.disk[b]
  }

  /** What a write leaves in front of the data area: the inode's record in its block of the table, or nothing. */
  ghost predicate Synced(r: Ring, s: Fs, t: Fs, tableStart: nat, f: nat, d: DiskInode, stored: bool) {
    var tb := tableStart + TableBlock(f);
    && tb < |s.disk|
    && if stored then WellFormed(d) && FrontKept(r, s, t, tb, Merge(s.disk[tb], f, d))
       else FrontKept(r, s, t, tb, s.disk[tb])
  }

  lemma SettledFront(r: Ring, j: Fs, tableStart: nat, f: nat, d: DiskInode, ws: seq<Write>, ok: bool, disk: seq<Block>)
    requires WellFormed(d) && Shaped(j) && tableStart + TableBlock(f) < j.dataStart <= |j.disk|
    requires forall i :: 0 <= i < |ws| ==> Allocated(j, ws[i].target)
    requires var tb := tableStart + TableBlock(f);
             var stored := j.disk[tb := Merge(j.disk[tb], f, d)];
             JournalCrash.HomeEq(r, if ok then Apply(stored, ws) else stored, disk)
    ensures Synced(r, j, j.(disk := disk), tableStart, f, d, true)
  {
    hide Apply, Merge, TableBlock, WellFormed, JournalCrash.HomeEq, Allocated;
    var tb := tableStart + TableBlock(f);
    var stored := j.disk[tb := Merge(j.disk[tb], f, d)];
    SameLength(r, if ok then Apply(stored, ws) else stored, disk);
    forall b | 0 <= b < j.dataStart && b < |j.disk| && !InJournal(r, b) ensures disk[b] == stored[b] {
      FrontStays(r, j, stored, ws, ok, disk, b);
    }
  }

  lemma SameLength(r: Region, d: seq<Block>, e: seq<Block>)
    requires JournalCrash.HomeEq(r, d, e)
    ensures |d| == |e|
  {}

  lemma FrontStays(r: Ring, j: Fs, stored: seq<Block>, ws: seq<Write>, ok: bool, disk: seq<Block>, b: nat)
    requires b < j.dataStart && b < |stored| && !InJournal(r, b)
    requires forall i :: 0 <= i < |ws| ==> Allocated(j, ws[i].target)
    requires JournalCrash.HomeEq(r, if ok then Apply(stored, ws) else stored, disk)
    ensures b < |disk| && disk[b] == stored[b]
  {
    hide Apply;
    forall i | 0 <= i < |ws| ensures ws[i].target != b { assert Allocated(j, ws[i].target); }
    ApplyFrame(stored, ws, b);
  }

  /** Writing into a transaction touches nothing in front of the data area. */
  lemma WriteKeepsFront(r: Ring, s: Fs, f: nat, off: nat, data: seq<Byte>, t: Fs, tb: nat, record: Block)
    requires Inv(s) && f < |s.inodes| && off + |data| <= MAX_OFFSET
    ensures var j := InodeWrite(s, f, off, data, true).fs;
            && j.dataStart == s.dataStart && |j.disk| == |s.disk|
            && (forall b :: 0 <= b < s.dataStart && b < |s.disk| ==> j.disk[b] == s.disk[b])
            && (FrontKept(r, j, t, tb, record) ==> FrontKept(r, s, t, tb, record))
  {
    hide Ptr, Inv, WriteLoop, Extends;
    PendingInDataArea(s, f, off, data);
    ExtendsGeometry(s, WriteLoop(s, f, off, data, true).fs);
  }

  // ---------- a power failure after the write ----------

  /** The file system a device image holds: its data area as `s` has it laid out, and inode `f` as its record says. */
  function OnDevice(s: Fs, disk: seq<Block>, tableStart: nat, f: nat): Fs
    requires f < |s.inodes| && tableStart + TableBlock(f) < |disk|
  {
    s.(disk := disk, inodes := s.inodes[f := OnDisk(disk, tableStart, f)])
  }

  /** After a power failure the image is recovered, and what it then holds is a file system. */
  ghost predicate IsLeft(r: Ring, disk: seq<Block>, s: Fs, tableStart: nat, f: nat) {
    && r.start + r.blocks < |disk| && f < |s.inodes|
    && var image := JournalRun.Recovered(r, disk);
       tableStart + TableBlock(f) < |image| && Inv(OnDevice(s, image, tableStart, f))
  }

  /** And the range reads back from it. */
  ghost predicate ReadsBack(r: Ring, disk: seq<Block>, s: Fs, tableStart: nat, f: nat, off: nat, data: seq<Byte>)
    requires IsLeft(r, disk, s, tableStart, f)
  {
    InodeRead(OnDevice(s, JournalRun.Recovered(r, disk), tableStart, f), f, off, |data|) == Ok(data)
  }

  /** On a journal whose pointers meet recovery finds nothing to replay. */
  lemma NothingToRecover(r: Ring, disk: seq<Block>, sb: JournalFormat.JournalSuper)
    requires r.start + r.blocks < |disk| && SuperOnDisk(r, disk, sb) && sb.head == sb.tail < r.blocks
    ensures JournalRun.Recovered(r, disk) == disk
  {
    hide JournalFormat.SuperBlock;
    JournalCrash.SuperWriteLoads(sb);
    assert Flatten([]) == [];
    AppliesNothing(disk, []);
  }

  /** Images that agree outside the journal, all of which lies before the inode table, hold the same files. */
  lemma SameOnDevice(r: Ring, s: Fs, c: Fs, disk: seq<Block>, tableStart: nat, f: nat)
    requires Inv(s) && Inv(c) && Shaped(c) && f < |s.inodes| && c == s.(disk := c.disk) && |c.disk| == |s.disk|
    requires r.start + r.blocks <= tableStart && tableStart + TableBlock(f) < s.dataStart
    requires JournalCrash.HomeEq(r, c.disk, disk)
    requires c.disk[tableStart + TableBlock(f)] == s.disk[tableStart + TableBlock(f)]
    requires OnDisk(s.disk, tableStart, f) == s.inodes[f]
    ensures SameData(c, OnDevice(s, disk, tableStart, f))
  {
    hide TableBlock, Inv;
    assert disk[tableStart + TableBlock(f)] == s.disk[tableStart + TableBlock(f)];
    assert s.inodes[f := s.inodes[f]] == s.inodes;
  }

  lemma SameInodeRead(s: Fs, t: Fs, f: nat, off: nat, n: nat)
    requires SameData(s, t) && Inv(t) && f < |s.inodes|
    ensures InodeRead(t, f, off, n) == InodeRead(s, f, off, n)
  {
    hide Ptr, Inv, ReadLoop;
    if off < s.inodes[f].size {
      SameRead(s, t, f, off, if off + n > s.inodes[f].size then s.inodes[f].size - off else n);
    }
  }

  /** A successful write on a device that held everything before it and a cache with room for what it reads: after a
      power failure and recovery the range reads back exactly when the write did not grow the file and gave no new
      block anything but zeros. */
  lemma AfterPowerLoss(r: Ring, s: Fs, tableStart: nat, f: nat, off: nat, data: seq<Byte>,
                       d: DevModel.Dev, e: DevModel.Dev,
                       k: nat, sb: JournalFormat.JournalSuper)
    requires Inv(s) && Shaped(s) && f < |s.inodes| && off + |data| <= MAX_OFFSET && data != []
    requires InodeWrite(s, f, off, data, true).status.Ok?
    requires r.start + r.blocks <= tableStart && tableStart + TableBlock(f) < s.dataStart
    requires d.disk == s.disk && OnDisk(s.disk, tableStart, f) == s.inodes[f] && |d.lru| + k < d.maxBuffers
    requires OnlyTransaction(r, d, e, InodeWrite(s, f, off, data, true).pending, k)
    requires r.start + r.blocks < |e.disk| && SuperOnDisk(r, e.disk, sb) && sb.head == sb.tail < r.blocks
    ensures off + |data| <= MAX_BYTES && IsLeft(r, e.disk, s, tableStart, f)
    ensures ReadsBack(r, e.disk, s, tableStart, f, off, data) <==> PowerLoss.SurvivesPowerLoss(s, f, off, data)
  {
    hide Inv, InodeWrite, InodeRead, Apply, TableBlock, OnDisk, JournalRun.Recovered, SameData, Ptr;
    hide PowerLoss.SurvivesPowerLoss;
    var left := PowerLoss.Left(s, InodeWrite(s, f, off, data, true).pending);
    NothingToRecover(r, e.disk, sb);
    PowerLoss.PowerLossIff(s, f, off, data);
    PowerLoss.TableStays(s, f, off, data, tableStart + TableBlock(f));
    InvShaped(left);
    SameOnDevice(r, s, left, e.disk, tableStart, f);
    SameInv(left, OnDevice(s, e.disk, tableStart, f));
    SameInodeRead(left, OnDevice(s, e.disk, tableStart, f), f, off, |data|);
  }

  // ---------- modernfs_write ----------

  datatype Reply = Bytes(count: nat) | ENoSpace | EInval | EIo

  /** What the caller hears and what the file system holds: a failed write has placed no data; a write whose
      commit found no room has mapped its blocks but not filled them; a successful one is applied. */
  ghost predicate Outcome(j: Written, full: bool, n: nat, reply: Reply, t: Fs)
    requires Inv(j.fs)
  {
    match j.status
    case NoSpaceErr => reply == ENoSpace && t == j.fs
    case InvalidErr => reply == EInval && t == j.fs
    case Ok(_) =>
      if j.pending != [] && full then reply == EIo && SameData(j.fs, t)
      else reply == Bytes(n) && SameData(j.fs.(disk := Apply(j.fs.disk, j.pending)), t)
  }

  lemma OutcomeRefused(j: Written, full: bool, n: nat, reply: Reply)
    requires Inv(j.fs) && !j.status.Ok? && reply == if j.status == NoSpaceErr then ENoSpace else EInval
    ensures Outcome(j, full, n, reply, j.fs)
  {}

  lemma OutcomeDone(j: Written, full: bool, n: nat, reply: Reply, t: Fs)
    requires Inv(j.fs) && Outcome(j, full, n, reply, t) && reply.Bytes?
    ensures j.status.Ok? && reply == Bytes(n) && SameData(j.fs.(disk := Apply(j.fs.disk, j.pending)), t)
  {
    hide SameData;
  }

  lemma RefusedSynced(r: Ring, s: Fs, tableStart: nat, f: nat, off: nat, data: seq<Byte>, d: DiskInode)
    requires Inv(s) && f < |s.inodes| && off + |data| <= MAX_OFFSET
    requires tableStart + TableBlock(f) < s.dataStart
    ensures Synced(r, s, InodeWrite(s, f, off, data, true).fs, tableStart, f, d, false)
  {
    hide Inv, InodeWrite;
    InvShaped(s);
    var j := InodeWrite(s, f, off, data, true).fs;
    WriteKeepsFront(r, s, f, off, data, j, tableStart + TableBlock(f), s.disk[tableStart + TableBlock(f)]);
  }

  lemma StoredSynced(r: Ring, s: Fs, t: Fs, tableStart: nat, f: nat, off: nat, data: seq<Byte>, d: DiskInode)
    requires Inv(s) && f < |s.inodes| && off + |data| <= MAX_OFFSET
    requires tableStart + TableBlock(f) < s.dataStart
    requires Synced(r, InodeWrite(s, f, off, data, true).fs, t, tableStart, f, d, true)
    ensures Synced(r, s, t, tableStart, f, d, true)
  {
    hide Inv, InodeWrite, Merge;
    InvShaped(s);
    var j, tb := InodeWrite(s, f, off, data, true).fs, tableStart + TableBlock(f);
    WriteKeepsFront(r, s, f, off, data, t, tb, Merge(j.disk[tb], f, d));
  }

  class Mount {
    const layer: InodeLayer
    const journal: JournalManager
    const tableStart: nat

    constructor (layer: InodeLayer, journal: JournalManager, tableStart: nat)
      ensures this.layer == layer && this.journal == journal && this.tableStart == tableStart
    {
      this.layer, this.journal, this.tableStart := layer, journal, tableStart;
    }

    /** The journal and the block layer share the device; the journal lies before the inode table. */
    ghost predicate Valid()
      reads this, layer, layer.dev, layer.dev.disk, layer.dev.cache, layer.dev.cache.lru, layer.dev.cache.lru.nodes
      reads layer.dev.cache.table, layer.dev.cache.table.buckets, layer.balloc, layer.balloc.bitmap, journal
      reads journal.disk
    {
      && layer.Valid() && journal.Valid() && journal.disk == layer.dev.disk
      && journal.ring.start + journal.ring.blocks <= tableStart <= layer.balloc.dataStart
    }

    ghost predicate Checkpointed()
      reads this, journal
    {
      journal.sb.head == journal.sb.tail
    }

    /** `commit`, seen from the block layer. */
    method CommitBehind(txn: Transaction) returns (ok: bool)
      requires Valid()
      modifies journal`sb, journal`activeTxns, layer.dev.disk, txn`state
      ensures Valid() && layer.dev.Repr() == old(layer.dev.Repr())
      ensures layer.dev.Model() == old(layer.dev.Model()).(disk := layer.dev.disk.blocks)
      ensures var out := JournalRun.ExecCommit(journal.ring, old(journal.Machine(txn)), txn.id);
              && ok == out.ok && layer.dev.disk.blocks == out.next.disk && journal.sb == out.next.sb
              && |out.next.disk| == |old(layer.dev.disk.blocks)|
    {
      hide Buffers.BufferCache.Valid, Buffers.Values, JournalRun.ExecCommit, BlockAlloc.BlockAllocator.Valid;
      CommitStaysInJournal(journal.ring, journal.Machine(txn), txn.id);
      ok := journal.Commit(txn);
    }

    lemma MountFacts()
      requires Valid()
      ensures layer.Valid() && layer.dev.Valid() && journal.Valid() && journal.disk == layer.dev.disk
      ensures journal.ring.start + journal.ring.blocks <= tableStart <= layer.balloc.dataStart
      ensures DevModel.Wf(layer.dev.Model()) && layer.dev.Model().disk == layer.dev.disk.blocks
    {}

    /** The parts are in order, and the device is as long as the journal's region needs. */
    lemma MountFits()
      requires layer.Valid() && journal.disk == layer.dev.disk && JournalFormat.WellSized(journal.sb)
      requires journal.ring.start + journal.ring.blocks < |layer.dev.disk.blocks|
      requires journal.sb.head < journal.ring.blocks && journal.sb.tail < journal.ring.blocks
      requires journal.ring.start + journal.ring.blocks <= tableStart <= layer.balloc.dataStart
      ensures Valid()
    {
      hide InodeLayer.Valid;
    }

    method CheckpointBehind()
      requires Valid() && MaySweep(journal.ring, layer.dev.disk.blocks, journal.sb.head, journal.sb.tail)
      modifies journal`sb, layer.dev.disk, layer.dev.cache.lru.nodes`valid, layer.dev.cache.lru.nodes`dirty
      ensures Valid() && layer.dev.Repr() == old(layer.dev.Repr())
      ensures journal.State() == JournalRun.ExecCheckpoint(journal.ring, old(journal.State())).next
      ensures layer.dev.Model() == if old(journal.sb).head == old(journal.sb).tail then old(layer.dev.Model())
        else DevModel.HomeAll(old(layer.dev.Model()),
                              Sweep(journal.ring, old(layer.dev.disk.blocks), old(journal.sb).head,
                                old(journal.sb).tail, journal.ring.blocks).value)
             .(disk := layer.dev.disk.blocks)
    {
      hide BlockDevice.Valid, BlockDevice.Model, JournalRun.ExecCheckpoint, Sweep, MaySweep, DevModel.HomeAll;
      hide BlockAlloc.BlockAllocator.Valid;
      journal.Checkpoint(layer.dev);
    }

    /** `rust_journal_commit`, and `rust_journal_checkpoint` if it succeeds. */
    method CommitAndCheckpoint(txn: Transaction) returns (ok: bool)
      requires Valid() && Checkpointed() && txn.state == JournalRun.Active
      requires AllHome(GuardedBy(journal.ring, journal.sb.tail, |txn.writes|), layer.dev.disk.blocks, txn.writes)
      requires |txn.writes| == 0 || 2 * |txn.writes| + 1 >= journal.ring.blocks
               || SweptWhole(journal.ring, layer.dev.disk.blocks, journal.sb.tail, txn.writes)
      modifies journal`sb, journal`activeTxns, layer.dev.disk, txn`state
      modifies layer.dev.cache.lru.nodes`valid, layer.dev.cache.lru.nodes`dirty
      ensures Valid() && layer.dev.Repr() == old(layer.dev.Repr())
      ensures |layer.dev.disk.blocks| == |old(layer.dev.disk.blocks)|
      ensures ok <==> |txn.writes| == 0 || 2 * |txn.writes| + 1 < journal.ring.blocks
      ensures ok ==>
        && JournalCrash.HomeEq(journal.ring, Apply(old(Views(layer.dev.Model())), txn.writes), Views(layer.dev.Model()))
        && Checkpointed()
        && StaleOnlyAt(old(layer.dev.Model()), layer.dev.Model(), txn.writes)
        && OnlyTransaction(journal.ring, old(layer.dev.Model()), layer.dev.Model(), txn.writes, 0)
        && (txn.writes != [] ==> SuperOnDisk(journal.ring, layer.dev.disk.blocks, journal.sb))
      ensures !ok ==>
        && JournalCrash.HomeEq(journal.ring, old(Views(layer.dev.Model())), Views(layer.dev.Model()))
        && NoNewStale(old(layer.dev.Model()), layer.dev.Model())
    {
      hide Valid, JournalRun.ExecCommit, MaySweep, Sweep, Views, Stale, Apply, DevModel.HomeAll, BlockDevice.Model;
      hide AllHome;
      hide InodeLayer.Valid, BlockDevice.Valid, JournalCrash.HomeEq, JournalFormat.SuperBlock, DevModel.Wf, SweptWhole;
      hide GuardedBy, Touches, JournalRun.ExecCheckpoint;
      hide OnlyTransaction;
      MountFacts();
      ghost var d, ws, m := layer.dev.Model(), txn.writes, journal.Machine(txn);
      CommitOutcome(journal.ring, m, txn.id);
      ok := CommitBehind(txn);
      MountFacts();
      if ok {
        ghost var disk, sb := layer.dev.disk.blocks, journal.sb;
        CheckpointOutcome(journal.ring, journal.State());
        CheckpointBehind();
        ViewsAfter(journal.ring, d, disk, sb, ws, layer.dev.Model());
        TransactionHome(journal.ring, d, disk, sb, ws, layer.dev.Model());
      } else {
        BehindCacheHome(journal.ring, d, layer.dev.disk.blocks);
      }
    }

    /** `inode_sync` of the written inode. */
    method SyncInode(ino: Inode, ghost s: Fs, ghost table: seq<DiskInode>)
      requires Valid() && ino.inum < |table| && layer.Abs(ino, table) == s && WellFormed(ino.disk)
      requires tableStart + TableBlock(ino.inum) < |s.disk| < 0x1_0000_0000
      modifies ino`dirty, layer.dev.disk, layer.dev.Repr()
      ensures ino.inum == old(ino.inum) && ino.disk == old(ino.disk) && ino.dirty == old(ino.dirty && !ino.valid)
      ensures Valid() && fresh(layer.dev.Repr() - old(layer.dev.Repr()))
      ensures NoNewStale(old(layer.dev.Model()), layer.dev.Model())
      ensures StaysCached(old(layer.dev.Model()), layer.dev.Model(), 2)
      ensures layer.Abs(ino, table)
        == if old(ino.valid && ino.dirty) then Stored(s, tableStart, old(ino.inum), old(ino.disk)) else s
    {
      hide InodeLayer.Valid, InodeLayer.Abs, BlockDevice.Valid, Views, TableBlock, Stored, Stale, WellFormed;
      if ino.valid && ino.dirty {
        StoreInode(ino, s, table);
        ino.dirty := false;
      }
    }

    method StoreInode(ino: Inode, ghost s: Fs, ghost table: seq<DiskInode>)
      requires Valid() && ino.inum < |table| && layer.Abs(ino, table) == s && WellFormed(ino.disk)
      requires tableStart + TableBlock(ino.inum) < |s.disk| < 0x1_0000_0000
      modifies layer.dev.disk, layer.dev.Repr()
      ensures unchanged(ino)
      ensures Valid() && fresh(layer.dev.Repr() - old(layer.dev.Repr()))
      ensures NoNewStale(old(layer.dev.Model()), layer.dev.Model())
      ensures StaysCached(old(layer.dev.Model()), layer.dev.Model(), 2)
      ensures layer.Abs(ino, table) == Stored(s, tableStart, old(ino.inum), old(ino.disk))
    {
      hide InodeLayer.Valid, InodeLayer.Abs, BlockDevice.Valid, BlockDevice.Model, Views, DevModel.View, TableBlock;
      hide Merge, Encode, Stale, WellFormed, Stored, NoNewStale, StaysCached, DevModel.Wf;
      var b := tableStart + TableBlock(ino.inum);
      StoredIs(s, tableStart, ino.inum, ino.disk);
      layer.AbsFacts(ino, table);
      ghost var d := layer.dev.Model();
      var buf := layer.ReadBlock(b, ino, table);
      ghost var e := layer.dev.Model();
      layer.WriteBlock(b, Merge(buf, ino.inum, ino.disk), ino, table);
      NoNewStaleThen(d, e, layer.dev.Model());
      StaysCachedThen(d, e, layer.dev.Model(), 1, 1);
      assert layer.Abs(ino, table) == Stored(s, tableStart, ino.inum, ino.disk);
      layer.AbsFacts(ino, table);
      assert |layer.dev.disk.blocks| == |s.disk|;
      MountFits();
    }

    /** `inode_write` into the transaction. */
    method WriteInto(ino: Inode, data: seq<Byte>, offset: nat, txn: Transaction, ghost s: Fs,
                     ghost table: seq<DiskInode>)
      returns (r: Result<nat>)
      requires Valid() && ino.inum < |table| && layer.Abs(ino, table) == s && ino.inum < |s.inodes|
      requires Inv(s) && FreeWritable(s, layer.dev.Model()) && txn.state == JournalRun.Active && txn.writes == []
      requires offset + |data| <= MAX_OFFSET
      modifies ino`disk, ino`dirty, layer.dev.disk, layer.dev.Repr(), layer.balloc, layer.balloc.bitmap, txn
      ensures ino.inum == old(ino.inum) && Valid() && fresh(layer.dev.Repr() - old(layer.dev.Repr()))
      ensures StaysCached(old(layer.dev.Model()), layer.dev.Model(), 11 * Chunks(offset, |data|))
      ensures var j := InodeWrite(s, ino.inum, offset, data, true);
              && layer.Abs(ino, table) == j.fs && FreeWritable(j.fs, layer.dev.Model())
              && txn.writes == j.pending && txn.state == JournalRun.Active
              && r == ReplyOf(j.status, |data|)
    {
      hide InodeLayer.Valid, InodeLayer.Abs, FreeWritable, Views, DevModel.View, Inv, InodeWrite, BlockDevice.Valid;
      hide BlockDevice.Model, AllHome;
      layer.AbsFacts(ino, table);
      PendingHome(journal.ring, s, ino.inum, offset, data);
      r := layer.Write(ino, data, offset, txn, s, table);
      layer.AbsFacts(ino, table);
      MountFits();
      assert [] + InodeWrite(s, ino.inum, offset, data, true).pending
        == InodeWrite(s, ino.inum, offset, data, true).pending;
    }

    /** `modernfs_write` on a mount with a journal that every write leaves checkpointed: when it succeeds,
        reading the range back through the cache gives the written bytes. */
    method Write(ino: Inode, data: seq<Byte>, offset: nat, ghost s: Fs, ghost table: seq<DiskInode>)
      returns (reply: Reply)
      requires Valid() && Checkpointed() && ino.valid
      requires ino.inum < |table| && layer.Abs(ino, table) == s && ino.inum < |s.inodes|
      requires Inv(s) && FreeWritable(s, layer.dev.Model()) && offset + |data| <= MAX_OFFSET
      requires tableStart + TableBlock(ino.inum) < s.dataStart
      requires WellFormed(InodeWrite(s, ino.inum, offset, data, true).fs.inodes[ino.inum])
      requires var n := |InodeWrite(s, ino.inum, offset, data, true).pending|;
               n == 0 || 2 * n + 1 >= journal.ring.blocks || RecordsOffSlotZero(journal.ring, journal.sb.tail, n)
      modifies ino`disk, ino`dirty, layer.dev.disk, layer.dev.Repr(), layer.balloc, layer.balloc.bitmap
      modifies journal`sb, journal`nextTid, journal`activeTxns
      ensures ino.inum == old(ino.inum) && Valid() && fresh(layer.dev.Repr() - old(layer.dev.Repr()))
      ensures var j := InodeWrite(s, ino.inum, offset, data, true);
              Outcome(j, 2 * |j.pending| + 1 >= journal.ring.blocks, |data|, reply, layer.Abs(ino, table))
      ensures Synced(journal.ring, s, layer.Abs(ino, table), tableStart, ino.inum, ino.disk, reply.Bytes? || reply.EIo?)
      ensures reply.Bytes? || reply.EIo? ==> !ino.dirty
      ensures FreeWritable(layer.Abs(ino, table), layer.dev.Model())
      ensures reply.Bytes? ==>
        && Checkpointed() && Inv(layer.Abs(ino, table)) && ino.inum < |layer.Abs(ino, table).inodes|
        && InodeRead(layer.Abs(ino, table), ino.inum, offset, |data|) == Ok(data)
      ensures reply.Bytes? ==>
        var ws := InodeWrite(s, ino.inum, offset, data, true).pending;
        && OnlyTransaction(journal.ring, old(layer.dev.Model()), layer.dev.Model(), ws, 11 * Chunks(offset, |data|) + 2)
        && (ws != [] ==> SuperOnDisk(journal.ring, layer.dev.disk.blocks, journal.sb))
    {
      hide Valid, InodeLayer.Valid, InodeLayer.Abs, BlockDevice.Valid, BlockDevice.Model, Views, Inv, InodeWrite;
      hide InodeRead, SameData, FreeWritable;
      hide AllHome, Apply, WellFormed, TableBlock, StaysOffSlotZero, RecordsOffSlotZero, GuardedBy, ReadyWith;
      hide OnlyTransaction, SuperOnDisk, StaysCached, Chunks, Outcome, Synced;
      reply := AttemptAndConclude(ino, data, offset, s, table);
      if reply.Bytes? {
        MountFacts();
        ghost var j := InodeWrite(s, ino.inum, offset, data, true);
        OutcomeDone(j, 2 * |j.pending| + 1 >= journal.ring.blocks, |data|, reply, layer.Abs(ino, table));
        layer.AbsFacts(ino, table);
        JournaledReads(s, ino.inum, offset, data, layer.Abs(ino, table));
      }
    }

    /** `modernfs_write` on a device that holds all of the file system, and the power fails after the reply. */
    method WriteAndLosePower(ino: Inode, data: seq<Byte>, offset: nat, ghost s: Fs, ghost table: seq<DiskInode>)
      returns (reply: Reply)
      requires Valid() && Checkpointed() && ino.valid && data != []
      requires ino.inum < |table| && layer.Abs(ino, table) == s && ino.inum < |s.inodes|
      requires Inv(s) && FreeWritable(s, layer.dev.Model()) && offset + |data| <= MAX_OFFSET
      requires tableStart + TableBlock(ino.inum) < s.dataStart
      requires WellFormed(InodeWrite(s, ino.inum, offset, data, true).fs.inodes[ino.inum])
      requires var n := |InodeWrite(s, ino.inum, offset, data, true).pending|;
               n == 0 || 2 * n + 1 >= journal.ring.blocks || RecordsOffSlotZero(journal.ring, journal.sb.tail, n)
      requires layer.dev.disk.blocks == s.disk && tableStart + TableBlock(ino.inum) < |s.disk|
      requires OnDisk(s.disk, tableStart, ino.inum) == s.inodes[ino.inum]
      requires |layer.dev.Model().lru| + 11 * Chunks(offset, |data|) + 2 < layer.dev.Model().maxBuffers
      modifies ino`disk, ino`dirty, layer.dev.disk, layer.dev.Repr(), layer.balloc, layer.balloc.bitmap
      modifies journal`sb, journal`nextTid, journal`activeTxns
      ensures reply.Bytes? ==>
        && offset + |data| <= MAX_BYTES && Shaped(s)
        && IsLeft(journal.ring, layer.dev.disk.blocks, s, tableStart, ino.inum)
        && (ReadsBack(journal.ring, layer.dev.disk.blocks, s, tableStart, ino.inum, offset, data) <==>
              PowerLoss.SurvivesPowerLoss(s, ino.inum, offset, data))
    {
      hide Valid, InodeLayer.Valid, InodeLayer.Abs, BlockDevice.Valid, BlockDevice.Model, Views, Inv, InodeWrite;
      hide InodeRead, SameData, FreeWritable;
      hide Apply, WellFormed, TableBlock, RecordsOffSlotZero, OnlyTransaction, SuperOnDisk, Chunks, Outcome, OnDisk;
      hide PowerLoss.SurvivesPowerLoss, IsLeft, ReadsBack, Synced, Shaped, DevModel.Wf, JournalManager.Valid;
      MountFacts();
      OnlyShaped(s);
      ghost var d, j, k :=
        layer.dev.Model(), InodeWrite(s, ino.inum, offset, data, true), 11 * Chunks(offset, |data|) + 2;
      reply := Write(ino, data, offset, s, table);
      if reply.Bytes? {
        MountFacts();
        OutcomeDone(j, 2 * |j.pending| + 1 >= journal.ring.blocks, |data|, reply, layer.Abs(ino, table));
        PowerLoss.SomethingPending(s, ino.inum, offset, data);
        AfterPowerLoss(journal.ring, s, tableStart, ino.inum, offset, data, d, layer.dev.Model(), k, journal.sb);
      }
    }

    /** The steps of it. */
    method AttemptAndConclude(ino: Inode, data: seq<Byte>, offset: nat, ghost s: Fs, ghost table: seq<DiskInode>)
      returns (reply: Reply)
      requires Valid() && Checkpointed() && ino.valid
      requires ino.inum < |table| && layer.Abs(ino, table) == s && ino.inum < |s.inodes|
      requires Inv(s) && FreeWritable(s, layer.dev.Model()) && offset + |data| <= MAX_OFFSET
      requires tableStart + TableBlock(ino.inum) < s.dataStart
      requires WellFormed(InodeWrite(s, ino.inum, offset, data, true).fs.inodes[ino.inum])
      requires var n := |InodeWrite(s, ino.inum, offset, data, true).pending|;
               n == 0 || 2 * n + 1 >= journal.ring.blocks || RecordsOffSlotZero(journal.ring, journal.sb.tail, n)
      modifies ino`disk, ino`dirty, layer.dev.disk, layer.dev.Repr(), layer.balloc, layer.balloc.bitmap
      modifies journal`sb, journal`nextTid, journal`activeTxns
      ensures ino.inum == old(ino.inum) && Valid() && fresh(layer.dev.Repr() - old(layer.dev.Repr()))
      ensures var j := InodeWrite(s, ino.inum, offset, data, true);
              Outcome(j, 2 * |j.pending| + 1 >= journal.ring.blocks, |data|, reply, layer.Abs(ino, table))
      ensures Synced(journal.ring, s, layer.Abs(ino, table), tableStart, ino.inum, ino.disk, reply.Bytes? || reply.EIo?)
      ensures reply.Bytes? || reply.EIo? ==> !ino.dirty
      ensures FreeWritable(layer.Abs(ino, table), layer.dev.Model())
      ensures reply.Bytes? ==> Checkpointed()
      ensures reply.Bytes? ==>
        var ws := InodeWrite(s, ino.inum, offset, data, true).pending;
        && OnlyTransaction(journal.ring, old(layer.dev.Model()), layer.dev.Model(), ws, 11 * Chunks(offset, |data|) + 2)
        && (ws != [] ==> SuperOnDisk(journal.ring, layer.dev.disk.blocks, journal.sb))
    {
      hide Valid, InodeLayer.Valid, InodeLayer.Abs, BlockDevice.Valid, BlockDevice.Model, Views, Inv, InodeWrite;
      hide SameData, FreeWritable;
      hide AllHome, Apply, WellFormed, TableBlock, StaysOffSlotZero, RecordsOffSlotZero, GuardedBy, ReadyWith;
      hide OnlyTransaction, SuperOnDisk, StaysCached, Chunks, Outcome, Synced;
      ghost var d, j := layer.dev.Model(), InodeWrite(s, ino.inum, offset, data, true);
      var r, txn := Attempt(ino, data, offset, s, table);
      if !r.Ok? {
        reply := if r == NoSpaceErr then ENoSpace else EInval;
        RefusedSynced(journal.ring, s, tableStart, ino.inum, offset, data, ino.disk);
        OutcomeRefused(j, 2 * |j.pending| + 1 >= journal.ring.blocks, |data|, reply);
        return;
      }
      ghost var k := 11 * Chunks(offset, |data|);
      reply := Conclude(ino, |data|, txn, d, k, j, table);
      assert reply.Bytes? ==> OnlyTransaction(journal.ring, d, layer.dev.Model(), j.pending, k + 2);
      MountFacts();
      StoredSynced(journal.ring, s, layer.Abs(ino, table), tableStart, ino.inum, offset, data, ino.disk);
    }

    /** What follows a write into the transaction that succeeded; `d` is the device before the write. */
    method Conclude(ino: Inode, n: nat, txn: Transaction, ghost d: DevModel.Dev, ghost k: nat, ghost j: Written,
                    ghost table: seq<DiskInode>)
      returns (reply: Reply)
      requires Valid() && Checkpointed() && ino.inum < |table| && Inv(j.fs) && j.status.Ok?
      requires layer.Abs(ino, table) == j.fs && FreeWritable(j.fs, layer.dev.Model())
      requires ReadyWith(journal.ring, j.fs, j.pending)
      requires txn.state == JournalRun.Active && txn.writes == j.pending
      requires WellFormed(ino.disk) && tableStart + TableBlock(ino.inum) < j.fs.dataStart
      requires |j.pending| == 0 || 2 * |j.pending| + 1 >= journal.ring.blocks
               || RecordsOffSlotZero(journal.ring, journal.sb.tail, |j.pending|)
      requires StaysCached(d, layer.dev.Model(), k) && ino.valid
      modifies ino`dirty, layer.dev.disk, layer.dev.Repr(), journal`sb, journal`activeTxns, txn`state
      ensures ino.inum == old(ino.inum) && Valid() && fresh(layer.dev.Repr() - old(layer.dev.Repr()))
      ensures !ino.dirty && (reply.EIo? || reply == Bytes(n))
      ensures Synced(journal.ring, j.fs, layer.Abs(ino, table), tableStart, ino.inum, ino.disk, true)
      ensures Outcome(j, 2 * |j.pending| + 1 >= journal.ring.blocks, n, reply, layer.Abs(ino, table))
      ensures FreeWritable(layer.Abs(ino, table), layer.dev.Model())
      ensures reply.Bytes? ==>
        && Checkpointed() && OnlyTransaction(journal.ring, d, layer.dev.Model(), j.pending, k + 2)
        && (j.pending != [] ==> SuperOnDisk(journal.ring, layer.dev.disk.blocks, journal.sb))
    {
      hide Valid, InodeLayer.Valid, InodeLayer.Abs, BlockDevice.Valid, BlockDevice.Model, Views, Inv, SameData;
      hide FreeWritable;
      hide AllHome, Apply, WellFormed, TableBlock, StaysOffSlotZero, RecordsOffSlotZero, GuardedBy, ReadyWith;
      hide OnlyTransaction, SuperOnDisk, StaysCached, Synced;
      ghost var before := layer.dev.Model();
      var ok := Settle(ino, txn, j.fs, table);
      if !ok {
        return EIo;
      }
      CachedThenHome(journal.ring, d, before, layer.dev.Model(), j.pending, k, 2);
      reply := Bytes(n);
    }

    /** Begin, and write into the transaction; abort it when that fails. The aborted transaction stays in the
        journal's table. */
    method Attempt(ino: Inode, data: seq<Byte>, offset: nat, ghost s: Fs, ghost table: seq<DiskInode>)
      returns (r: Result<nat>, txn: Transaction)
      requires Valid() && ino.inum < |table| && layer.Abs(ino, table) == s && ino.inum < |s.inodes|
      requires Inv(s) && FreeWritable(s, layer.dev.Model()) && offset + |data| <= MAX_OFFSET
      modifies ino`disk, ino`dirty, layer.dev.disk, layer.dev.Repr(), layer.balloc, layer.balloc.bitmap
      modifies journal`nextTid, journal`activeTxns
      ensures ino.inum == old(ino.inum) && Valid() && fresh(layer.dev.Repr() - old(layer.dev.Repr())) && fresh(txn)
      ensures StaysCached(old(layer.dev.Model()), layer.dev.Model(), 11 * Chunks(offset, |data|))
      ensures var j := InodeWrite(s, ino.inum, offset, data, true);
              && layer.Abs(ino, table) == j.fs && FreeWritable(j.fs, layer.dev.Model())
              && ino.disk == j.fs.inodes[ino.inum]
              && r == ReplyOf(j.status, |data|)
              && (r.Ok? ==>
                    && txn.state == JournalRun.Active && txn.writes == j.pending
                    && ReadyWith(journal.ring, j.fs, j.pending) && j.fs.dataStart == s.dataStart)
      ensures !r.Ok? ==> txn.state == JournalRun.Aborted && journal.activeTxns == old(journal.activeTxns)[txn.id := txn]
    {
      hide InodeLayer.Valid, InodeLayer.Abs, BlockDevice.Valid, BlockDevice.Model, Views, Inv, InodeWrite, FreeWritable;
      hide ReadyWith;
      hide JournalRun.Exec, JournalManager.Machine, JournalManager.State, StaysCached, Chunks;
      layer.AbsFacts(ino, table);
      PendingReady(journal.ring, s, ino.inum, offset, data);
      txn := journal.Begin();
      r := WriteInto(ino, data, offset, txn, s, table);
      layer.AbsFacts(ino, table);
      if !r.Ok? {
        txn.Abandon();
      }
    }

    /** From `inode_sync` on. */
    method Settle(ino: Inode, txn: Transaction, ghost j: Fs, ghost table: seq<DiskInode>) returns (ok: bool)
      requires Valid() && Checkpointed() && ino.inum < |table| && layer.Abs(ino, table) == j
      requires FreeWritable(j, layer.dev.Model()) && ReadyWith(journal.ring, j, txn.writes)
      requires WellFormed(ino.disk) && tableStart + TableBlock(ino.inum) < j.dataStart
      requires txn.state == JournalRun.Active && ino.valid
      requires |txn.writes| == 0 || 2 * |txn.writes| + 1 >= journal.ring.blocks
               || RecordsOffSlotZero(journal.ring, journal.sb.tail, |txn.writes|)
      modifies ino`dirty, layer.dev.disk, layer.dev.Repr(), journal`sb, journal`activeTxns, txn`state
      ensures ino.inum == old(ino.inum) && Valid() && fresh(layer.dev.Repr() - old(layer.dev.Repr()))
      ensures ok <==> |txn.writes| == 0 || 2 * |txn.writes| + 1 < journal.ring.blocks
      ensures txn.writes == old(txn.writes) && ino.disk == old(ino.disk) && !ino.dirty
      ensures SameData(if ok then j.(disk := Apply(j.disk, txn.writes)) else j, layer.Abs(ino, table))
      ensures Synced(journal.ring, j, layer.Abs(ino, table), tableStart, ino.inum, ino.disk, true)
      ensures FreeWritable(layer.Abs(ino, table), layer.dev.Model()) && (ok ==> Checkpointed())
      ensures ok ==> OnlyTransaction(journal.ring, old(layer.dev.Model()), layer.dev.Model(), txn.writes, 2)
      ensures ok && txn.writes != [] ==> SuperOnDisk(journal.ring, layer.dev.disk.blocks, journal.sb)
    {
      hide ReadyWith, Valid, InodeLayer.Valid, InodeLayer.Abs, BlockDevice.Valid, BlockDevice.Model, Views, Inv;
      hide SameData, FreeWritable, Stored;
      hide Stale, Merge, Apply, WellFormed, TableBlock, StaysOffSlotZero, RecordsOffSlotZero, GuardedBy;
      hide JournalCrash.HomeEq, Allocated, AllHome, Touches;
      hide StaleOnlyAt, NoNewStale, OnlyTransaction, SuperOnDisk, StaysCached, Synced;
      ghost var d, ws, r := layer.dev.Model(), txn.writes, journal.ring;
      ReadyFacts(r, j, ws);
      ghost var t := Stored(j, tableStart, ino.inum, ino.disk);
      ghost var synced;
      ok, synced := RecordAndPublish(ino, txn, j, table);
      MountFacts();
      SettledAll(r, j, d, synced, tableStart, ino.inum, ino.disk, ws, ok, t, layer.Abs(ino, table), layer.dev.Model());
    }

    /** The inode goes to its table, then, from device `synced`, the transaction home. */
    method RecordAndPublish(ino: Inode, txn: Transaction, ghost j: Fs, ghost table: seq<DiskInode>)
      returns (ok: bool, ghost synced: DevModel.Dev)
      requires Valid() && Checkpointed() && ino.inum < |table| && layer.Abs(ino, table) == j
      requires ReadyWith(journal.ring, j, txn.writes)
      requires WellFormed(ino.disk) && tableStart + TableBlock(ino.inum) < j.dataStart <= |j.disk|
      requires txn.state == JournalRun.Active && ino.valid
      requires |txn.writes| == 0 || 2 * |txn.writes| + 1 >= journal.ring.blocks
               || RecordsOffSlotZero(journal.ring, journal.sb.tail, |txn.writes|)
      modifies ino`dirty, layer.dev.disk, layer.dev.Repr(), journal`sb, journal`activeTxns, txn`state
      ensures ino.inum == old(ino.inum) && Valid() && fresh(layer.dev.Repr() - old(layer.dev.Repr()))
      ensures ok <==> |txn.writes| == 0 || 2 * |txn.writes| + 1 < journal.ring.blocks
      ensures txn.writes == old(txn.writes) && ino.disk == old(ino.disk) && !ino.dirty && (ok ==> Checkpointed())
      ensures journal.ring.start + journal.ring.blocks <= j.dataStart
      ensures var t, u := Stored(j, tableStart, ino.inum, ino.disk), layer.Abs(ino, table);
              && u == t.(disk := u.disk)
              && JournalCrash.HomeEq(journal.ring, if ok then Apply(t.disk, txn.writes) else t.disk, u.disk)
      ensures NoNewStale(old(layer.dev.Model()), synced) && StaleOnlyAt(synced, layer.dev.Model(), txn.writes)
      ensures StaysCached(old(layer.dev.Model()), synced, 2)
      ensures ok ==> OnlyTransaction(journal.ring, synced, layer.dev.Model(), txn.writes, 0)
      ensures ok && txn.writes != [] ==> SuperOnDisk(journal.ring, layer.dev.disk.blocks, journal.sb)
    {
      hide ReadyWith, Valid, InodeLayer.Valid, InodeLayer.Abs, BlockDevice.Valid, BlockDevice.Model, Views, Stored;
      hide WellFormed, TableBlock, RecordsOffSlotZero, GuardedBy, JournalCrash.HomeEq, AllHome, Apply;
      hide StaleOnlyAt, NoNewStale, OnlyTransaction, SuperOnDisk, StaysCached, DevModel.Wf, JournalManager.Valid;
      hide StaysOffSlotZero, LuckyWrap, Touches, Stale;
      Record(ino, txn, j, table);
      MountFacts();
      synced := layer.dev.Model();
      ok := Publish(ino, txn, layer.Abs(ino, table), table);
    }

    /** Mark the inode and sync it. */
    method Record(ino: Inode, txn: Transaction, ghost j: Fs, ghost table: seq<DiskInode>)
      requires Valid() && ino.inum < |table| && layer.Abs(ino, table) == j && ReadyWith(journal.ring, j, txn.writes)
      requires WellFormed(ino.disk) && tableStart + TableBlock(ino.inum) < j.dataStart <= |j.disk| && ino.valid
      modifies ino`dirty, layer.dev.disk, layer.dev.Repr()
      ensures ino.inum == old(ino.inum) && ino.disk == old(ino.disk) && txn.writes == old(txn.writes) && !ino.dirty
      ensures Valid() && fresh(layer.dev.Repr() - old(layer.dev.Repr()))
      ensures NoNewStale(old(layer.dev.Model()), layer.dev.Model())
      ensures StaysCached(old(layer.dev.Model()), layer.dev.Model(), 2)
      ensures layer.Abs(ino, table) == Stored(j, tableStart, ino.inum, ino.disk)
      ensures AllHome(GuardedBy(journal.ring, journal.sb.tail, |txn.writes|), layer.Abs(ino, table).disk, txn.writes)
      ensures journal.ring.start + journal.ring.blocks <= j.dataStart
    {
      hide ReadyWith, Valid, InodeLayer.Valid, InodeLayer.Abs, BlockDevice.Valid, BlockDevice.Model, Views, Stored;
      hide Merge, WellFormed, TableBlock, GuardedBy, AllHome, NoNewStale, StaysCached;
      StoredIs(j, tableStart, ino.inum, ino.disk);
      MarkDirty(ino, j, table);
      SyncFirst(ino, txn, j, table);
    }

    /** `modernfs_write` marks the inode whatever `inode_write` has done to it. */
    method MarkDirty(ino: Inode, ghost j: Fs, ghost table: seq<DiskInode>)
      requires Valid() && ino.inum < |table| && layer.Abs(ino, table) == j
      modifies ino`dirty
      ensures ino.dirty && Valid() && layer.Abs(ino, table) == j && layer.dev.Model() == old(layer.dev.Model())
    {
      hide BlockDevice.Valid, BlockAlloc.BlockAllocator.Valid, BlockAlloc.BlockAllocator.Used, Views;
      ino.dirty := true;
    }

    /** `inode_sync`, with a transaction waiting that can be committed: it still can. */
    method SyncFirst(ino: Inode, txn: Transaction, ghost j: Fs, ghost table: seq<DiskInode>)
      requires Valid() && ino.inum < |table| && layer.Abs(ino, table) == j && ReadyWith(journal.ring, j, txn.writes)
      requires WellFormed(ino.disk) && tableStart + TableBlock(ino.inum) < j.dataStart <= |j.disk|
      requires ino.valid && ino.dirty
      modifies ino`dirty, layer.dev.disk, layer.dev.Repr()
      ensures ino.inum == old(ino.inum) && ino.disk == old(ino.disk) && txn.writes == old(txn.writes) && !ino.dirty
      ensures Valid() && fresh(layer.dev.Repr() - old(layer.dev.Repr()))
      ensures NoNewStale(old(layer.dev.Model()), layer.dev.Model())
      ensures StaysCached(old(layer.dev.Model()), layer.dev.Model(), 2)
      ensures var tb := tableStart + TableBlock(ino.inum);
              layer.Abs(ino, table) == j.(disk := j.disk[tb := Merge(j.disk[tb], ino.inum, ino.disk)])
      ensures AllHome(GuardedBy(journal.ring, journal.sb.tail, |txn.writes|), layer.Abs(ino, table).disk, txn.writes)
      ensures journal.ring.start + journal.ring.blocks <= j.dataStart
    {
      hide ReadyWith, Valid, InodeLayer.Valid, InodeLayer.Abs, BlockDevice.Valid, BlockDevice.Model, Views, Inv, Stored;
      hide Stale, Merge, Apply, WellFormed, TableBlock, GuardedBy, Allocated, AllHome, NoNewStale, DevModel.View;
      ghost var ws, guarded := txn.writes, GuardedBy(journal.ring, journal.sb.tail, |txn.writes|);
      ReadyFacts(journal.ring, j, ws);
      MountFacts();
      layer.AbsFacts(ino, table);
      GuardedHome(journal.ring, j, journal.sb.tail, ws);
      StoredIs(j, tableStart, ino.inum, ino.disk);
      SyncInode(ino, j, table);
      MountFacts();
      ghost var stored := layer.Abs(ino, table).disk;
      assert |stored| == |j.disk|;
      SameHomes(guarded, j.disk, stored, ws);
    }

    /** Commit and checkpoint, as the file system sees them. */
    method Publish(ino: Inode, txn: Transaction, ghost t: Fs, ghost table: seq<DiskInode>) returns (ok: bool)
      requires Valid() && Checkpointed() && ino.inum < |table| && layer.Abs(ino, table) == t
      requires txn.state == JournalRun.Active
      requires AllHome(GuardedBy(journal.ring, journal.sb.tail, |txn.writes|), t.disk, txn.writes)
      requires |txn.writes| == 0 || 2 * |txn.writes| + 1 >= journal.ring.blocks
               || RecordsOffSlotZero(journal.ring, journal.sb.tail, |txn.writes|)
      modifies layer.dev.disk, journal`sb, journal`activeTxns, txn`state
      modifies layer.dev.cache.lru.nodes`valid, layer.dev.cache.lru.nodes`dirty
      ensures Valid() && layer.dev.Repr() == old(layer.dev.Repr()) && (ok ==> Checkpointed())
      ensures ok <==> |txn.writes| == 0 || 2 * |txn.writes| + 1 < journal.ring.blocks
      ensures layer.Abs(ino, table) == t.(disk := layer.Abs(ino, table).disk)
      ensures var after := if ok then Apply(t.disk, txn.writes) else t.disk;
              JournalCrash.HomeEq(journal.ring, after, layer.Abs(ino, table).disk)
      ensures StaleOnlyAt(old(layer.dev.Model()), layer.dev.Model(), txn.writes)
      ensures ok ==> OnlyTransaction(journal.ring, old(layer.dev.Model()), layer.dev.Model(), txn.writes, 0)
      ensures ok && txn.writes != [] ==> SuperOnDisk(journal.ring, layer.dev.disk.blocks, journal.sb)
    {
      hide InodeLayer.Valid, InodeLayer.Abs, BlockDevice.Valid, BlockDevice.Model, Views, Stale, JournalCrash.HomeEq;
      hide Apply, AllHome, RecordsOffSlotZero, LuckyWrap;
      hide Touches, GuardedBy, OnlyTransaction, SuperOnDisk;
      MountFacts();
      layer.AbsFacts(ino, table);
      SameHomes(GuardedBy(journal.ring, journal.sb.tail, |txn.writes|), t.disk, layer.dev.disk.blocks, txn.writes);
      ok := CommitAndCheckpoint(txn);
      MountFacts();
      layer.AbsFacts(ino, table);
    }
  }
}
