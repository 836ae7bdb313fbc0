/** Where the journal's promises end: exact conditions for a commit to be recovered and to be
    all-or-nothing, the accounting of ring slots, and small machines on which each promise fails. */
module JournalGaps {
  import opened Blocks
  import opened JournalFormat
  import opened Modular
  import opened JournalLog
  import opened JournalCommit
  import opened JournalRun
  import opened JournalCrash
  import opened JournalLoss
  import opened Options

  // ---------- ring accounting ----------

  /** `allocate_journal_block` succeeds exactly while a slot is free, and uses up one. */
  lemma AllocateWhileFree(r: Ring, head: nat, tail: nat)
    requires head < r.blocks && tail < r.blocks
    ensures 0 <= Free(r, head, tail) <= r.blocks - 1
    ensures (tail + 1) % r.blocks == Slot(r, tail + 1)
    ensures Slot(r, tail + 1) == head <==> Free(r, head, tail) == 0
    ensures Slot(r, tail + 1) != head ==> Free(r, head, Slot(r, tail + 1)) == Free(r, head, tail) - 1
  {
    ModOnce(tail + 1, r.blocks);
  }

  /** From any reachable pointers: a commit of n > 0 writes succeeds exactly when 2n + 1 slots are free,
      and then consumes exactly those; a failed commit eats every free slot; a checkpoint that returns
      frees them all. */
  lemma SlotAccounting(r: Ring, m: Machine, tid: nat)
    requires Wf(r, m) && Pending(m, tid) != []
    ensures var n := |Pending(m, tid)|;
            var before := Free(r, m.sb.head, m.sb.tail);
            var out := ExecCommit(r, m, tid);
            var after := Free(r, out.next.sb.head, out.next.sb.tail);
            && Wf(r, out.next)
            && (out.ok <==> 2 * n + 1 <= before)
            && after == (if out.ok then before - (2 * n + 1) else 0)
    ensures var out := ExecCheckpoint(r, m);
            out.ok ==> Free(r, out.next.sb.head, out.next.sb.tail) == r.blocks - 1
  {
    hide Apply, RecordWrites, SuperBlock, CommitEvents, Sweep, CheckpointEvents;
  }

  /** All-or-nothing on the device: a commit call either succeeds or writes nothing, exactly when there
      is room for all of it or not even for one record. */
  lemma AllOrNothingIff(r: Ring, m: Machine, tid: nat)
    requires Wf(r, m) && Pending(m, tid) != []
    ensures var out := ExecCommit(r, m, tid);
            var free := Free(r, m.sb.head, m.sb.tail);
            out.ok || out.events == [] <==> 2 * |Pending(m, tid)| + 1 <= free || free < 2
  {
    hide Apply, SuperBlock, CommitEvents;
  }

  // ---------- wrapping over slot 0 ----------

  /** A commit that returned Ok is in the recovered log after an immediate power failure exactly when
      it stayed off slot 0, or its wrap was lucky. */
  lemma OkCommitRecoveredIff(r: Ring, m: Machine, log: seq<seq<Write>>, tid: nat)
    requires Inv(r, m, log) && Pending(m, tid) != [] && ExecCommit(r, m, tid).ok
    ensures var d' := ExecCommit(r, m, tid).next.disk;
            var sb := Loaded(d'[r.start]);
            var ws := Pending(m, tid);
            sb.head < r.blocks &&
            (Scan(r, d', sb.head, sb.tail, [], r.blocks) == Done(log + [ws], [])
             <==> StaysOffSlotZero(r, m.sb.tail, |ws|) || LuckyWrap(r, m.disk, m.sb.tail, ws))
  {
    hide Scan, Apply, SuperBlock, RecordWrites, Magic, LogHolds, CommitEvents, LuckyWrap;
    var ws, tail := Pending(m, tid), m.sb.tail;
    var n := 2 * |ws| + 1;
    var id: LongWord := tid % 0x1_0000_0000_0000_0000;
    var out := ExecCommit(r, m, tid).next;
    var e := Apply(m.disk, RecordWrites(r, tail, id, ws, n));
    LogSpan(r, m.disk, m.sb.head, EndOf(r, m.sb.head, tail), log);
    PrintedByWrites(r, m.disk, tail, id, ws, n);
    SuperWriteLoads(out.sb);
    CommitRecoveredIff(r, m.disk, e, out.disk, m.sb.head, tail, log, id, ws);
  }

  /** What the next checkpoint sweeps up after a commit that returned Ok, with no crash at all: the log and the
      whole transaction, and nothing else, exactly when it stayed off slot 0, or only its commit record fell there,
      or its wrap was lucky. */
  lemma OkCommitSweptIff(r: Ring, m: Machine, log: seq<seq<Write>>, tid: nat)
    requires Inv(r, m, log) && Pending(m, tid) != [] && ExecCommit(r, m, tid).ok
    ensures var next, ws := ExecCommit(r, m, tid).next, Pending(m, tid);
            Wf(r, next) &&
            (Sweep(r, next.disk, next.sb.head, next.sb.tail, r.blocks) == Some(Flatten(log) + ws) <==>
              SweptWhole(r, m.disk, m.sb.tail, ws))
  {
    hide Sweep, Apply, SuperBlock, RecordWrites, Magic, LogHolds, CommitEvents, SweptWhole, Flatten, RecordBlock;
    hide Loaded, AllHomeTxns;
    var ws, tail := Pending(m, tid), m.sb.tail;
    var id: LongWord := tid % 0x1_0000_0000_0000_0000;
    var out := ExecCommit(r, m, tid).next;
    var e := Apply(m.disk, RecordWrites(r, tail, id, ws, 2 * |ws| + 1));
    PrintedByWrites(r, m.disk, tail, id, ws, 2 * |ws| + 1);
    SuperWriteLoads(out.sb);
    CommitSweptIff(r, m.disk, e, out.disk, m.sb.head, tail, log, id, ws);
  }

  const BYTE_BLOCK: Block := seq(BLOCK_SIZE, i => 1)

  function EmptySuper(pos: Word): JournalSuper {
    JournalSuper(1, BLOCK_SIZE, 4, 1, pos, pos, Zeros(4040))
  }

  function Repeat(n: nat, b: Block): (s: seq<Block>)
    ensures |s| == n && forall i :: 0 <= i < n ==> s[i] == b
  {
    if n == 0 then [] else Repeat(n - 1, b) + [b]
  }

  /** A journal of `slots` slots at block 0, empty with both pointers at `pos` and every slot holding
      `stale`, then four home blocks holding `home`. */
  function Toy(slots: nat, pos: Word, stale: Block, home: Block, ws: seq<Write>): Machine
    requires 1 <= slots
  {
    Machine([SuperBlock(EmptySuper(pos))] + Repeat(slots - 1, stale) + Repeat(4, home), EmptySuper(pos),
      map[7 := Txn(ws, Active)], 8)
  }

  lemma ToyHolds(r: Ring, pos: Word, stale: Block, home: Block, ws: seq<Write>)
    requires r.start == 0 && 1 <= pos < r.blocks
    ensures Inv(r, Toy(r.blocks, pos, stale, home, ws), [])
  {
    hide SuperBlock, Magic;
    SuperWriteLoads(EmptySuper(pos));
  }

  /** Four slots, pointers at 2: header and payload take slots 2 and 3, the commit record takes slot 0
      and the superblock then overwrites it. Commit returns Ok, and after a crash the write is gone. */
  lemma WrappedCommitIsLost() returns (r: Ring, m: Machine)
    ensures Inv(r, m, []) && Pending(m, 7) == [Write(6, BYTE_BLOCK)]
    ensures var out := ExecCommit(r, m, 7);
            out.ok && r.start + r.blocks < |out.next.disk| && 6 < |out.next.disk|
            && Recovered(r, out.next.disk)[6] != BYTE_BLOCK
  {
    hide Apply, RecordWrites, Scan, SuperBlock, Magic, CommitEvents, Flatten, RecordBlock;
    r := Region(0, 4);
    var ws := [Write(6, BYTE_BLOCK)];
    m := Toy(4, 2, ZeroBlock(), ZeroBlock(), ws);
    ToyHolds(r, 2, ZeroBlock(), ZeroBlock(), ws);
    var e := Apply(m.disk, RecordWrites(r, 2, 7, ws, 3));
    var out := ExecCommit(r, m, 7).next;
    PrintedByWrites(r, m.disk, 2, 7, ws, 3);
    assert out.disk == e[0 := SuperBlock(out.sb)];
    assert e[6] == m.disk[6] == ZeroBlock();
    SuperWriteLoads(out.sb);
    ScanStopsAtSlotZero(r, m.disk, e, out.disk, 2, 7, ws, 1, 4);
    assert Recovered(r, out.disk) == Apply(out.disk, Flatten([]));
    NothingReplayed(out.disk);
    assert ZeroBlock()[0] != BYTE_BLOCK[0];
  }

  /** A run the atomicity theorem covers: a transaction of two writes commits, and the power fails in the
      checkpoint after one of its home writes; recovery brings both blocks home. */
  lemma InterruptedCheckpointRecovers() returns (r: Ring, m: Machine, steps: seq<Step>)
    ensures Inv(r, m, []) && |m.disk| == 11 && m.disk[7] != BYTE_BLOCK && m.disk[8] != BYTE_BLOCK
    ensures steps == [Do(CommitTxn(7)), Crash(Checkpoint, 1, {0})] && AllAllowed(r, m, steps)
    ensures r.start + r.blocks < |RunAll(r, m, steps).disk|
    ensures var after := Recovered(r, RunAll(r, m, steps).disk);
            |after| == 11 && after[7] == BYTE_BLOCK && after[8] == BYTE_BLOCK
  {
    hide Apply, Recovered, SuperBlock, Magic, CommitEvents, RecordWrites, Flatten, LogHolds, RunAll, AllAllowed;
    hide PublishedIn, Perform, Adds;
    r := Region(0, 7);
    var ws := [Write(7, BYTE_BLOCK), Write(8, BYTE_BLOCK)];
    m := Toy(7, 1, ZeroBlock(), ZeroBlock(), ws);
    ToyHolds(r, 1, ZeroBlock(), ZeroBlock(), ws);
    assert ZeroBlock()[0] != BYTE_BLOCK[0];
    var commit, stop := Do(CommitTxn(7)), Crash(Checkpoint, 1, {0});
    steps := [commit, stop];
    CommitRuns(r, m, ws, commit);
    var log := CommitStep(r, m, [], commit);
    CheckpointMayStop(r, Perform(r, m, commit), log);
    RunOfTwo(r, m, commit, stop);
    RunIsAtomic(r, m, [], steps);
    RecoveredAppliesLog(r, m.disk, []);
    NothingReplayed(m.disk);
    TwoWrites(m.disk, ws);
    assert [ws] + [] == [ws];
  }

  lemma CommitRuns(r: Ring, m: Machine, ws: seq<Write>, commit: Step)
    requires r == Region(0, 7) && ws == [Write(7, BYTE_BLOCK), Write(8, BYTE_BLOCK)] && commit == Do(CommitTxn(7))
    requires m == Toy(7, 1, ZeroBlock(), ZeroBlock(), ws) && Wf(r, m)
    ensures Allowed(r, m, commit) && Published(r, m, commit) == [ws]
    ensures var sb := Perform(r, m, commit).sb; sb.head == 1 && sb.tail == 6
  {
    hide Apply, SuperBlock, CommitEvents, RecordWrites, Published;
    assert AllHome(r, m.disk, ws);
    PublishedIs(r, m, commit);
  }

  /** A checkpoint may lose power after its first write. */
  lemma CheckpointMayStop(r: Ring, m: Machine, log: seq<seq<Write>>)
    requires Inv(r, m, log) && m.sb.head != m.sb.tail
    ensures Allowed(r, m, Crash(Checkpoint, 1, {0})) && Published(r, m, Crash(Checkpoint, 1, {0})) == []
  {
    hide Apply, SuperBlock, Sweep, Scan, Flatten;
    ReadersAgree(r, m.disk, m.sb.head, m.sb.tail, log);
  }

  lemma RunOfTwo(r: Ring, m: Machine, a: Step, b: Step)
    requires Wf(r, m) && Allowed(r, m, a) && Wf(r, Perform(r, m, a)) && Allowed(r, Perform(r, m, a), b)
    ensures AllAllowed(r, m, [a, b])
    ensures PublishedIn(r, m, [a, b]) == Published(r, m, a) + Published(r, Perform(r, m, a), b)
  {
    hide Allowed, Perform, Published;
    assert [a, b][1..] == [b] && [b][1..] == [];
    var m1 := Perform(r, m, a);
    assert AllAllowed(r, m1, [b]);
    assert PublishedIn(r, m1, [b]) == Published(r, m1, b) + PublishedIn(r, Perform(r, m1, b), []);
    assert Published(r, m1, b) + [] == Published(r, m1, b);
  }

  lemma TwoWrites(d: seq<Block>, ws: seq<Write>)
    requires |ws| == 2 && ws[0].target < |d| && ws[1].target < |d| && ws[0].target != ws[1].target
    ensures var e := Apply(d, Flatten([ws])); e[ws[0].target] == ws[0].data && e[ws[1].target] == ws[1].data
  {
    assert [ws][..0] == [];
    assert Flatten([ws]) == [] + ws == ws;
    ApplyLastWriter(d, ws, 0);
    ApplyLastWriter(d, ws, 1);
  }

  lemma NothingReplayed(d: seq<Block>)
    ensures Apply(d, Flatten([])) == d
  {}

  // ---------- running out of room ----------

  /** Four slots, pointers at 1, a transaction of two writes: commit fails with "Journal is full", and
      the next checkpoint carries the first of the two home all the same. */
  lemma FailedCommitLeaks() returns (r: Ring, m: Machine)
    ensures Inv(r, m, []) && Pending(m, 7) == [Write(6, BYTE_BLOCK), Write(7, BYTE_BLOCK)]
    ensures !ExecCommit(r, m, 7).ok && Wf(r, ExecCommit(r, m, 7).next)
    ensures var later := ExecCheckpoint(r, ExecCommit(r, m, 7).next).next;
            |later.disk| == 8 && later.disk[6] == BYTE_BLOCK && later.disk[7] != BYTE_BLOCK
  {
    hide Apply, RecordWrites, Scan, Sweep, SuperBlock, Magic, CommitEvents, CheckpointEvents, Flatten, RecordBlock;
    r := Region(0, 4);
    var ws := [Write(6, BYTE_BLOCK), Write(7, BYTE_BLOCK)];
    m := Toy(4, 1, ZeroBlock(), ZeroBlock(), ws);
    ToyHolds(r, 1, ZeroBlock(), ZeroBlock(), ws);
    var d := m.disk;
    var e := Apply(d, RecordWrites(r, 1, 7, ws, 2));
    PrintedByWrites(r, d, 1, 7, ws, 2);
    assert !JumpsTail(r, d, 1, 1) by { assert d[3] == ZeroBlock(); ZeroMagic(); }
    FailedCommitIsSwept(r, d, e, 1, 1, [], 7, ws, 1);
    assert ExecCommit(r, m, 7).next.disk == e;
    assert ReadBack(r, d, 1, ws[..1]) == [ws[0]] by { ReadBackPlain(r, d, 1, ws[..1]); }
    assert e[6] == ZeroBlock() && e[7] == ZeroBlock();
    FlattenNone();
    assert [] + [ws[0]] == [ws[0]];
    ApplySnoc(e, [], ws[0]);
    NoWrites(e);
    assert ZeroBlock()[0] != BYTE_BLOCK[0];
  }

  lemma FlattenNone()
    ensures Flatten([]) == []
  {}

  /** A failed commit is harmless, in that the next checkpoint carries home the log and nothing else, exactly
      when no slot was free, or one that does not read as a data header. When the slot left over reads as one,
      that checkpoint never returns; in every other case torn records go home with the log. */
  lemma FailedCommitHarmlessIff(r: Ring, m: Machine, log: seq<seq<Write>>, tid: nat)
    requires Inv(r, m, log) && Pending(m, tid) != [] && !ExecCommit(r, m, tid).ok
    ensures var next, free := ExecCommit(r, m, tid).next, Free(r, m.sb.head, m.sb.tail);
            && Wf(r, next) && next.sb.head != next.sb.tail
            && var swept := Sweep(r, next.disk, next.sb.head, next.sb.tail, r.blocks);
            && (swept == None <==> JumpsTail(r, m.disk, m.sb.head, m.sb.tail))
            && (swept == Some(Flatten(log)) <==>
                free == 0 || (free == 1 && Magic(m.disk[r.start + m.sb.tail]) != DATA_MAGIC))
            && (swept.Some? ==>
                  swept.value == Flatten(log) + ReadBack(r, m.disk, m.sb.tail, Pending(m, tid)[..free / 2]))
  {
    hide Sweep, Apply, RecordWrites, Magic, LogHolds, Flatten, ReadBack, SuperBlock;
    var ws, free := Pending(m, tid), Free(r, m.sb.head, m.sb.tail);
    var id: LongWord := tid % 0x1_0000_0000_0000_0000;
    var k := TornRecords(free, |ws|);
    LogSpan(r, m.disk, m.sb.head, EndOf(r, m.sb.head, m.sb.tail), log);
    PrintedByWrites(r, m.disk, m.sb.tail, id, ws, 2 * k);
    FailedCommitIsSwept(r, m.disk, ExecCommit(r, m, tid).next.disk, m.sb.head, m.sb.tail, log, id, ws, k);
    var back := ReadBack(r, m.disk, m.sb.tail, ws[..k]);
    assert |back| == k;
    SameLength(Flatten(log), back);
  }

  /** So after a refused commit off slot 0 a checkpoint finds what is on the device exactly when that commit was
      harmless. */
  lemma RefusedSweepsIff(r: Ring, m: Machine, log: seq<seq<Write>>, tid: nat)
    requires Inv(r, m, log) && Pending(m, tid) != [] && !ExecCommit(r, m, tid).ok
    requires OffSlotZero(r, m.sb.tail, PrintedBlocks(r, m, tid))
    ensures var next, free := ExecCommit(r, m, tid).next, Free(r, m.sb.head, m.sb.tail);
            && Wf(r, next)
            && (SweepsAsOnDisk(r, next) <==>
                  free == 0 || (free == 1 && Magic(m.disk[r.start + m.sb.tail]) != DATA_MAGIC))
  {
    hide Sweep, Scan, Apply, RecordWrites, Magic, LogHolds, Flatten, ReadBack, SuperBlock, Loaded, Adds, Published;
    FailedCommitHarmlessIff(r, m, log, tid);
    RefusedStep(r, m, log, Do(CommitTxn(tid)));
    var next := ExecCommit(r, m, tid).next;
    hide ExecCommit;
    ReadersAgree(r, next.disk, Loaded(next.disk[r.start]).head, Loaded(next.disk[r.start]).tail, log);
  }

  lemma ZeroMagic()
    ensures Magic(ZeroBlock()) == 0
  {}

  /** Two slots, the only free one still reading as a data header: a commit fails having written nothing, and
      the next checkpoint never returns. */
  lemma FailedCommitJams(stale: Block) returns (r: Ring, m: Machine)
    requires Magic(stale) == DATA_MAGIC
    ensures Inv(r, m, []) && Pending(m, 7) == [Write(4, BYTE_BLOCK)]
    ensures var out := ExecCommit(r, m, 7);
            !out.ok && out.events == [] && Wf(r, out.next) && !ExecCheckpoint(r, out.next).ok
  {
    hide Apply, RecordWrites, Sweep, SuperBlock, Magic, Flatten, LogHolds, ReadBack, CommitEvents, CheckpointEvents;
    hide ZeroBlock;
    r := Region(0, 2);
    var ws := [Write(4, BYTE_BLOCK)];
    m := Toy(2, 1, stale, ZeroBlock(), ws);
    ToyHolds(r, 1, stale, ZeroBlock(), ws);
    hide Toy;
    OneSlotJams(r, m, 7);
  }

  lemma OneSlotJams(r: Ring, m: Machine, tid: nat)
    requires r.blocks == 2 && Inv(r, m, []) && m.sb.head == m.sb.tail == 1 && Magic(m.disk[r.start + 1]) == DATA_MAGIC
    requires |Pending(m, tid)| == 1
    ensures var out := ExecCommit(r, m, tid);
            !out.ok && out.events == [] && Wf(r, out.next) && !ExecCheckpoint(r, out.next).ok
  {
    hide Apply, Sweep, SuperBlock, Magic, Flatten, LogHolds, ReadBack, CommitEvents, CheckpointEvents, RecordBlock;
    assert JumpsTail(r, m.disk, 1, 1);
    FailedCommitHarmlessIff(r, m, [], tid);
  }

  lemma SameLength(a: seq<Write>, b: seq<Write>)
    ensures a + b == a <==> b == []
  {
    if a + b == a { assert |a + b| == |a| + |b|; }
  }

  /** Nine slots, one transaction committed and acknowledged in slots 4 to 6: a later commit that does not fit puts
      a header onto slot 0. The image has no superblock any more, so opening it is refused and the acknowledged
      transaction is lost with it. */
  lemma RefusedCommitLosesLog() returns (r: Ring, m: Machine)
    ensures Inv(r, m, []) && Pending(m, 7) != [] && ExecCommit(r, m, 7).ok
    ensures var later := ExecCommit(r, m, 7).next;
            && Inv(r, later, [Pending(m, 7)]) && Pending(later, 8) != []
            && var refused := ExecCommit(r, later, 8);
               !refused.ok && r.start < |refused.next.disk| && Magic(refused.next.disk[r.start]) == DATA_MAGIC
  {
    hide Apply, SuperBlock, CommitEvents, RecordWrites, Magic, LogHolds, RecordBlock;
    r := Region(0, 9);
    var w := Write(9, BYTE_BLOCK);
    var toy := Toy(9, 4, ZeroBlock(), ZeroBlock(), [w]);
    ToyHolds(r, 4, ZeroBlock(), ZeroBlock(), [w]);
    m := toy.(txns := map[7 := Txn([w], Active), 8 := Txn([w, w, w], Active)]);
    var later := ExecCommit(r, m, 7).next;
    AcksThenRefuses(r, m, [w], later);
    RefusedCommitDestroysSuper(r, later, [[w]], 8);
  }

  lemma AcksThenRefuses(r: Ring, m: Machine, ws: seq<Write>, later: Machine)
    requires r == Region(0, 9) && Inv(r, m, []) && m.sb.head == m.sb.tail == 4 && |ws| == 1 && AllHome(r, m.disk, ws)
    requires Pending(m, 7) == ws && |Pending(m, 8)| == 3 && later == ExecCommit(r, m, 7).next
    ensures ExecCommit(r, m, 7).ok && Inv(r, later, [ws]) && Pending(later, 8) == Pending(m, 8)
    ensures !ExecCommit(r, later, 8).ok && PrintedBlocks(r, later, 8) == 4 && later.sb.tail == 7
  {
    hide Apply, SuperBlock, CommitEvents, RecordWrites, Magic, LogHolds, RecordBlock, ImageHolds, LogAt;
    PublishedCommit(r, m, [], 7, ws, later);
    assert [] + [ws] == [ws];
  }

  // ---------- a device that reorders a commit's writes ----------

  const OLD_BLOCK: Block := seq(BLOCK_SIZE, i => 2)

  /** Four slots: the device persists header, commit record and superblock but loses the payload. That
      is a legal loss, no barrier lies between, and recovery then brings home the slot's stale content:
      neither the old block nor the new one. */
  lemma ReorderedCommitTears() returns (r: Ring, m: Machine, kept: set<nat>)
    ensures Inv(r, m, []) && Pending(m, 7) == [Write(6, BYTE_BLOCK)] && |m.disk| == 9
    ensures StaysOffSlotZero(r, m.sb.tail, 1) && LegalLoss(ExecCommit(r, m, 7).events, 4, kept)
    ensures var d' := Apply(m.disk, Survivors(ExecCommit(r, m, 7).events, kept));
            Recovered(r, d')[6] != m.disk[6] && Recovered(r, d')[6] != BYTE_BLOCK
  {
    hide Scan, SuperBlock, Magic, HeaderBlock, CommitBlock;
    r := Region(0, 5);
    kept := {0, 2, 3};
    var ws := [Write(6, BYTE_BLOCK)];
    m := Toy(5, 1, ZeroBlock(), OLD_BLOCK, ws);
    ToyHolds(r, 1, ZeroBlock(), OLD_BLOCK, ws);
    var sb' := m.sb.(tail := 4);
    var header, commit, super := HeaderBlock(6, BYTE_BLOCK), CommitBlock(7, 1), SuperBlock(sb');
    ToyEvents(r, m, ws, sb');
    var evs := [Pwrite(Write(1, header)), Pwrite(Write(2, BYTE_BLOCK)), Pwrite(Write(3, commit)),
      Pwrite(Write(0, super)), Fsync, Fsync];
    var s := [Write(1, header), Write(3, commit), Write(0, super)];
    ToySurvivors(evs, s);
    var f := m.disk[1 := header][3 := commit][0 := super];
    assert Apply(m.disk, s) == f by { ApplyThree(m.disk, s); }
    TornImage(r, f, sb', Write(6, ZeroBlock()));
    assert ZeroBlock()[0] == 0 && BYTE_BLOCK[0] == 1 && OLD_BLOCK[0] == 2;
  }

  /** A header, a stale payload and a commit record read as a whole transaction. */
  lemma TornScan(r: Ring, f: seq<Block>, stale: Write)
    requires r == Region(0, 5) && |f| == 9
    requires f[1] == HeaderBlock(stale.target, BYTE_BLOCK) && f[2] == stale.data && f[3] == CommitBlock(7, 1)
    ensures Scan(r, f, 1, 4, [], 5) == Done([[stale]], [])
  {
    hide HeaderBlock, CommitBlock, Magic, TargetOf;
    HeaderDecodes(stale.target, BYTE_BLOCK);
    CommitDecodes(7, 1);
    assert [] + [stale] == [stale] && [[stale]] + [] == [[stale]];
    assert Scan(r, f, 4, 4, [], 3) == Done([], []);
    assert Scan(r, f, 3, 4, [stale], 4) == Done([[stale]], []);
  }

  lemma ReplayOne(d: seq<Block>, w: Write)
    requires w.target < |d|
    ensures Apply(d, Flatten([[w]]))[w.target] == w.data
  {
    hide Apply;
    var txns := [[w]];
    assert txns[..0] == [];
    assert Flatten(txns) == Flatten(txns[..0]) + txns[0];
    assert Flatten(txns) == [] + [w];
    ApplySnoc(d, [], w);
  }

  lemma TornImage(r: Ring, f: seq<Block>, sb: JournalSuper, stale: Write)
    requires r == Region(0, 5) && |f| == 9 && 5 <= stale.target < 9 && WellSized(sb) && sb.head == 1 && sb.tail == 4
    requires f[0] == SuperBlock(sb) && f[1] == HeaderBlock(stale.target, BYTE_BLOCK)
    requires f[2] == stale.data && f[3] == CommitBlock(7, 1)
    ensures Recovered(r, f)[stale.target] == stale.data
  {
    hide Scan, SuperBlock, HeaderBlock, CommitBlock, Apply, Flatten, Magic;
    SuperWriteLoads(sb);
    TornScan(r, f, stale);
    ReplayOne(f, stale);
  }

  lemma ToyEvents(r: Ring, m: Machine, ws: seq<Write>, sb': JournalSuper)
    requires r == Region(0, 5) && ws == [Write(6, BYTE_BLOCK)] && m == Toy(5, 1, ZeroBlock(), OLD_BLOCK, ws)
    requires sb' == m.sb.(tail := 4)
    ensures ExecCommit(r, m, 7).events == [Pwrite(Write(1, HeaderBlock(6, BYTE_BLOCK))), Pwrite(Write(2, BYTE_BLOCK)),
      Pwrite(Write(3, CommitBlock(7, 1))), Pwrite(Write(0, SuperBlock(sb'))), Fsync, Fsync]
  {
    hide SuperBlock, HeaderBlock, CommitBlock, Apply;
    assert RecordWrites(r, 1, 7, ws, 0) == [];
    assert RecordWrites(r, 1, 7, ws, 1) == [Write(1, HeaderBlock(6, BYTE_BLOCK))];
    assert RecordWrites(r, 1, 7, ws, 2) == [Write(1, HeaderBlock(6, BYTE_BLOCK)), Write(2, BYTE_BLOCK)];
  }

  lemma ToySurvivors(evs: seq<Event>, s: seq<Write>)
    requires |evs| == 6 && evs[4].Fsync? && evs[5].Fsync?
    requires |s| == 3 && evs[0] == Pwrite(s[0]) && evs[1].Pwrite? && evs[2] == Pwrite(s[1]) && evs[3] == Pwrite(s[2])
    ensures Survivors(evs, {0, 2, 3}) == s
  {
    var kept: set<nat> := {0, 2, 3};
    assert Survivors(evs[..0], kept) == [];
    assert evs[..1][..0] == evs[..0] && evs[..2][..1] == evs[..1] && evs[..3][..2] == evs[..2];
    assert Survivors(evs[..1], kept) == [s[0]];
    assert Survivors(evs[..2], kept) == [s[0]];
    assert Survivors(evs[..3], kept) == [s[0], s[1]];
    assert evs[..4][..3] == evs[..3] && evs[..5][..4] == evs[..4];
    assert Survivors(evs[..4], kept) == s;
    assert Survivors(evs[..5], kept) == s;
  }

  lemma ApplyThree(d: seq<Block>, s: seq<Write>)
    requires |s| == 3
    ensures Apply(d, s) == Put(Put(Put(d, s[0]), s[1]), s[2])
  {
    assert s[..2][..1] == s[..1] && s[..1][..0] == [];
    assert Apply(d, s[..1]) == Put(d, s[0]);
    assert Apply(d, s[..2]) == Put(Put(d, s[0]), s[1]);
  }

  /** Seven slots that hold stale commit records, and in slots 3 and 4 a stale header and its payload: the device loses
      every record of a commit that writes that very payload to that very block, and recovery takes it for whole. */
  lemma LostRecordsRecovered() returns (r: Ring, m: Machine)
    ensures Inv(r, m, []) && Pending(m, 7) == [Write(8, BYTE_BLOCK)] && LegalLoss(ExecCommit(r, m, 7).events, 4, {3})
    ensures var image := Apply(m.disk, Survivors(ExecCommit(r, m, 7).events, {3}));
            |image| == |m.disk| == 11 && image[1..] == m.disk[1..] && ScansTo(r, image, [Pending(m, 7)])
  {
    hide Scan, SuperBlock, Magic, TargetOf, HeaderBlock, CommitBlock, Apply, Survivors, ExecCommit, ScansTo;
    r := Region(0, 7);
    var w, stale, header := Write(8, BYTE_BLOCK), CommitBlock(1, 1), HeaderBlock(8, BYTE_BLOCK);
    m := Machine([SuperBlock(EmptySuper(1)), stale, stale, header, BYTE_BLOCK, stale, stale] + Repeat(4, ZeroBlock()),
                 EmptySuper(1), map[7 := Txn([w], Active)], 8);
    SuperWriteLoads(EmptySuper(1));
    CommitDecodes(1, 1);
    HeaderDecodes(8, BYTE_BLOCK);
    OvershootHappens(r, m, 7, w);
  }
}
