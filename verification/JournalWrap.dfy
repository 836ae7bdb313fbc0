/** Commits that wrap over slot 0 with no crash at all: what the next checkpoint makes of the home blocks, and how
    many one-block transactions a fresh ring takes before the first of them is in danger. */
module JournalWrap {
  import opened Blocks
  import opened JournalFormat
  import opened JournalLog
  import opened JournalCommit
  import opened JournalRun
  import opened JournalCrash
  import opened JournalGaps
  import opened Options

  // ---------- a payload on slot 0 ----------

  /** Slot 0 falls on the payload of record `j`. */
  predicate PayloadWraps(r: Ring, tail: nat, n: nat, j: nat) {
    1 <= tail < r.blocks && j < n && tail + 2 * j + 1 == r.blocks
  }

  /** Reading the transaction back replaces that one payload by the block behind the journal. */
  lemma {:induction false} ReadBackReplaces(r: Ring, d: seq<Block>, cur: nat, ws: seq<Write>, j: nat)
    requires r.start + r.blocks < |d| && PayloadWraps(r, cur, |ws|, j) && 2 * |ws| < r.blocks
    ensures ReadBack(r, d, cur, ws) == ws[j := Write(ws[j].target, d[r.start + r.blocks])]
    decreases j
  {
    if j == 0 {
      ReadBackPlain(r, d, 1, ws[1..]);
      assert Slot(r, cur + 2) == 1;
    } else {
      var rest := ws[1..];
      ReadBackReplaces(r, d, cur + 2, rest, j - 1);
      assert rest[j - 1 := Write(rest[j - 1].target, d[r.start + r.blocks])]
        == ws[j := Write(ws[j].target, d[r.start + r.blocks])][1..];
    }
  }

  /** Is write `j` overwritten by a later one? */
  ghost predicate Overwritten(ws: seq<Write>, j: nat)
    requires j < |ws|
  {
    exists i :: j < i < |ws| && ws[i].target == ws[j].target
  }

  /** Two lists of writes that differ in the data of one write leave the same image exactly when the data is the
      same or a later write hides it. */
  lemma OneWriteDiffers(d: seq<Block>, ws: seq<Write>, j: nat, b: Block)
    requires j < |ws| && ws[j].target < |d|
    ensures Apply(d, ws[j := Write(ws[j].target, b)]) == Apply(d, ws) <==> b == ws[j].data || Overwritten(ws, j)
  {
    hide Apply;
    var vs := ws[j := Write(ws[j].target, b)];
    if Overwritten(ws, j) {
      HiddenWrite(d, ws, vs, j);
    } else {
      ApplyLastWriter(d, ws, j);
      ApplyLastWriter(d, vs, j);
      assert b == ws[j].data ==> vs == ws;
    }
  }

  lemma {:induction false} HiddenWrite(d: seq<Block>, ws: seq<Write>, vs: seq<Write>, j: nat)
    requires j < |ws| == |vs| && Overwritten(ws, j) && vs[j].target == ws[j].target
    requires forall i :: 0 <= i < |ws| && i != j ==> vs[i] == ws[i]
    ensures Apply(d, vs) == Apply(d, ws)
    decreases |ws|
  {
    var n := |ws| - 1;
    if Overwritten(ws, j) && j < n && Overwritten(ws[..n], j) {
      HiddenWrite(d, ws[..n], vs[..n], j);
    } else {
      assert ws[n].target == ws[j].target;
      DifferAtOnly(d, ws[..n], vs[..n], j);
    }
  }

  lemma {:induction false} DifferAtOnly(d: seq<Block>, ws: seq<Write>, vs: seq<Write>, j: nat)
    requires j < |ws| == |vs| && vs[j].target == ws[j].target
    requires forall i :: 0 <= i < |ws| && i != j ==> vs[i] == ws[i]
    ensures forall x :: 0 <= x < |d| && x != ws[j].target ==> Apply(d, vs)[x] == Apply(d, ws)[x]
    decreases |ws|
  {
    var n := |ws| - 1;
    if j == n {
      assert ws[..n] == vs[..n];
    } else {
      DifferAtOnly(d, ws[..n], vs[..n], j);
    }
  }

  /** The sweep after a commit with a payload on slot 0. */
  lemma PayloadWrapSwept(r: Ring, m: Machine, log: seq<seq<Write>>, tid: nat, j: nat)
    requires Inv(r, m, log) && Pending(m, tid) != [] && ExecCommit(r, m, tid).ok
    requires PayloadWraps(r, m.sb.tail, |Pending(m, tid)|, j)
    ensures var next, ws := ExecCommit(r, m, tid).next, Pending(m, tid);
            && Wf(r, next) && next.sb.head != next.sb.tail
            && Sweep(r, next.disk, next.sb.head, next.sb.tail, r.blocks)
               == Some(Flatten(log) + ws[j := Write(ws[j].target, m.disk[r.start + r.blocks])])
  {
    hide Sweep, Apply, SuperBlock, RecordWrites, Magic, LogHolds, CommitEvents, Flatten, RecordBlock, Loaded;
    hide AllHomeTxns;
    var ws, tail := Pending(m, tid), m.sb.tail;
    var id: LongWord := tid % 0x1_0000_0000_0000_0000;
    var out := ExecCommit(r, m, tid).next;
    var n := 2 * |ws| + 1;
    var e := Apply(m.disk, RecordWrites(r, tail, id, ws, n));
    PrintedByWrites(r, m.disk, tail, id, ws, n);
    var left := SweepPassesOldLog(r, m.disk, e, out.disk, m.sb.head, tail, log, id, ws, n, n);
    SweepReadsBack(r, m.disk, e, out.disk, tail, id, ws, left);
    ReadBackReplaces(r, m.disk, tail, ws, j);
  }

  lemma CommitKeepsHome(r: Ring, m: Machine, tid: nat)
    requires Wf(r, m)
    ensures HomeEq(r, m.disk, ExecCommit(r, m, tid).next.disk) && |ExecCommit(r, m, tid).next.disk| == |m.disk|
  {
    hide RecordWrites, Apply, SuperBlock;
    if tid in m.txns && m.txns[tid].state == Active && m.txns[tid].writes != [] {
      var ws, free := m.txns[tid].writes, Free(r, m.sb.head, m.sb.tail);
      var n := if free < 2 * |ws| + 1 then 2 * TornRecords(free, |ws|) else 2 * |ws| + 1;
      PrintedByWrites(r, m.disk, m.sb.tail, tid % 0x1_0000_0000_0000_0000, ws, n);
    }
  }

  /** What a checkpoint that sweeps up `swept` leaves on the home blocks. */
  lemma CheckpointHome(r: Ring, m: Machine, d: seq<Block>, swept: seq<Write>)
    requires Wf(r, m) && m.sb.head != m.sb.tail && Sweep(r, m.disk, m.sb.head, m.sb.tail, r.blocks) == Some(swept)
    requires HomeEq(r, d, m.disk)
    ensures var out := ExecCheckpoint(r, m); out.ok && HomeEq(r, Apply(d, swept), out.next.disk)
  {
    hide Sweep, Apply, SuperBlock;
    HomeEqApply(r, d, m.disk, swept);
  }

  /** A payload on slot 0 and no crash at all: after the next checkpoint the home blocks hold the log and the
      transaction exactly when the block behind the journal happens to hold that payload, or a later write of the
      transaction hides it. */
  lemma PayloadWrapHomeIff(r: Ring, m: Machine, log: seq<seq<Write>>, tid: nat, j: nat)
    requires Inv(r, m, log) && Pending(m, tid) != [] && ExecCommit(r, m, tid).ok
    requires PayloadWraps(r, m.sb.tail, |Pending(m, tid)|, j)
    requires AllHome(Region(r.start, r.blocks + 1), m.disk, Flatten(log) + Pending(m, tid))
    ensures var ws, later := Pending(m, tid), ExecCheckpoint(r, ExecCommit(r, m, tid).next);
            && later.ok
            && (HomeEq(r, Apply(m.disk, Flatten(log) + ws), later.next.disk) <==>
                  m.disk[r.start + r.blocks] == ws[j].data || Overwritten(ws, j))
  {
    hide Sweep, Apply, SuperBlock, RecordWrites, LogHolds, Flatten, ExecCommit, ExecCheckpoint, LogAt, ImageHolds;
    hide Overwritten;
    var ws, next := Pending(m, tid), ExecCommit(r, m, tid).next;
    var vs := ws[j := Write(ws[j].target, m.disk[r.start + r.blocks])];
    PayloadWrapSwept(r, m, log, tid, j);
    CommitKeepsHome(r, m, tid);
    CheckpointHome(r, next, m.disk, Flatten(log) + vs);
    var d := Apply(m.disk, Flatten(log));
    ApplyConcat(m.disk, Flatten(log), ws);
    ApplyConcat(m.disk, Flatten(log), vs);
    assert (Flatten(log) + ws)[|Flatten(log)| + j] == ws[j];
    OneWriteDiffers(d, ws, j, m.disk[r.start + r.blocks]);
    DifferAtOnly(d, ws, vs, j);
    SameThroughHome(r, Apply(d, ws), Apply(d, vs), ExecCheckpoint(r, next).next.disk, ws[j].target);
  }

  lemma SameThroughHome(r: Ring, a: seq<Block>, b: seq<Block>, e: seq<Block>, t: nat)
    requires |a| == |b| && HomeEq(r, b, e) && t < |a| && !InJournal(r, t)
    requires forall x :: 0 <= x < |a| && x != t ==> b[x] == a[x]
    ensures HomeEq(r, a, e) <==> b == a
  {
    if HomeEq(r, a, e) { assert b[t] == a[t]; }
  }

  // ---------- small machines ----------

  /** A transaction of one write whose payload falls on slot 0: the block behind the journal goes home instead. */
  lemma StandInGoesHome(r: Ring, m: Machine, tid: nat, w: Write)
    requires Inv(r, m, []) && Pending(m, tid) == [w] && m.sb.head == m.sb.tail == r.blocks - 1 && 3 < r.blocks
    requires IsHome(r, m.disk, w.target)
    ensures ExecCommit(r, m, tid).ok && Wf(r, ExecCommit(r, m, tid).next)
    ensures var later := ExecCheckpoint(r, ExecCommit(r, m, tid).next);
            later.ok && |later.next.disk| == |m.disk| && later.next.disk[w.target] == m.disk[r.start + r.blocks]
  {
    hide Apply, Sweep, SuperBlock, Magic, Flatten, LogHolds, CommitEvents, CheckpointEvents, RecordWrites;
    hide ExecCheckpoint, Loaded;
    PayloadWrapSwept(r, m, [], tid, 0);
    CommitKeepsHome(r, m, tid);
    FlattenNone();
    var swept := [] + [w][0 := Write(w.target, m.disk[r.start + r.blocks])];
    hide Inv, ExecCommit;
    CheckpointHome(r, ExecCommit(r, m, tid).next, m.disk, swept);
    ApplyLastWriter(m.disk, swept, 0);
  }

  /** Eight slots, pointers at 7: the one payload falls on slot 0. Commit and checkpoint succeed, nothing crashes,
      and the block does not hold what was written. */
  lemma WrappedCommitIsMangled() returns (r: Ring, m: Machine)
    ensures Inv(r, m, []) && Pending(m, 7) == [Write(10, BYTE_BLOCK)] && ExecCommit(r, m, 7).ok
    ensures Wf(r, ExecCommit(r, m, 7).next)
    ensures var later := ExecCheckpoint(r, ExecCommit(r, m, 7).next);
            later.ok && 10 < |later.next.disk| && later.next.disk[10] != BYTE_BLOCK
  {
    hide Apply, Sweep, SuperBlock, Magic, Inv, ExecCommit, ExecCheckpoint, Wf;
    r := Region(0, 8);
    var ws := [Write(10, BYTE_BLOCK)];
    m := Toy(8, 7, ZeroBlock(), ZeroBlock(), ws);
    ToyHolds(r, 7, ZeroBlock(), ZeroBlock(), ws);
    StandInGoesHome(r, m, 7, ws[0]);
    assert m.disk[8] == ZeroBlock();
    assert ZeroBlock()[0] != BYTE_BLOCK[0];
  }

  /** A header on slot 0 loses its record, and yet no harm may come of it: the block it names may hold the data
      already. So what the sweep returns tells more than the home blocks do. */
  lemma LostRecordUnnoticed() returns (r: Ring, m: Machine)
    ensures Inv(r, m, []) && ExecCommit(r, m, 7).ok && Wf(r, ExecCommit(r, m, 7).next) && r.start + r.blocks < |m.disk|
    ensures !SweptWhole(r, m.disk, m.sb.tail, Pending(m, 7))
    ensures var later := ExecCheckpoint(r, ExecCommit(r, m, 7).next);
            later.ok && HomeEq(r, Apply(m.disk, Pending(m, 7)), later.next.disk)
  {
    hide Apply, Sweep, SuperBlock, Magic, Inv, ExecCommit, ExecCheckpoint, Wf;
    r := Region(0, 8);
    var ws := [Write(10, BYTE_BLOCK), Write(11, BYTE_BLOCK)];
    m := Toy(8, 6, ZeroBlock(), BYTE_BLOCK, ws);
    ToyHolds(r, 6, ZeroBlock(), BYTE_BLOCK, ws);
    ByteMagic();
    HeaderWraps(r, m, 7, ws);
    assert m.disk[10] == m.disk[11] == BYTE_BLOCK;
    NothingNew(m.disk, ws);
    NothingNew(m.disk, [ws[0]]);
  }

  lemma ByteMagic()
    ensures Magic(BYTE_BLOCK) != DATA_MAGIC
  {}

  lemma {:induction false} NothingNew(d: seq<Block>, ws: seq<Write>)
    requires forall i :: 0 <= i < |ws| ==> ws[i].target < |d| && d[ws[i].target] == ws[i].data
    ensures Apply(d, ws) == d
  {
    if ws != [] { NothingNew(d, ws[..|ws| - 1]); }
  }

  /** The second of two headers on slot 0, and no payload that reads as a record: the first write goes home. */
  lemma HeaderWraps(r: Ring, m: Machine, tid: nat, ws: seq<Write>)
    requires Inv(r, m, []) && Pending(m, tid) == ws && |ws| == 2 && m.sb.head == m.sb.tail == r.blocks - 2
    requires 5 < r.blocks
    requires Magic(ws[1].data) != DATA_MAGIC
    ensures ExecCommit(r, m, tid).ok && Wf(r, ExecCommit(r, m, tid).next)
    ensures !SweptWhole(r, m.disk, m.sb.tail, ws)
    ensures var later := ExecCheckpoint(r, ExecCommit(r, m, tid).next);
            later.ok && HomeEq(r, Apply(m.disk, [ws[0]]), later.next.disk)
  {
    hide Sweep, Apply, SuperBlock, RecordWrites, Magic, LogHolds, CommitEvents, Flatten, RecordBlock, Loaded;
    hide ExecCheckpoint;
    var tail, id: LongWord := m.sb.tail, tid % 0x1_0000_0000_0000_0000;
    var out := ExecCommit(r, m, tid).next;
    var e := Apply(m.disk, RecordWrites(r, tail, id, ws, 5));
    PrintedByWrites(r, m.disk, tail, id, ws, 5);
    SuperWriteLoads(out.sb);
    SweepToZero(r, m.disk, e, out.disk, tail, id, ws, 1, r.blocks);
    ReadBackPlain(r, m.disk, tail, ws[..1]);
    PayloadOnDisk(r, m.disk, e, out.disk, tail, id, ws, 1);
    CommitRead(r, m.disk, e, out.disk, tail, id, ws);
    CommitKeepsHome(r, m, tid);
    NoneTillThree(r, out.disk, r.blocks - 1);
    OntoNothing(ws[..1]);
    assert ws[..1] == [ws[0]];
    hide Inv, ExecCommit, Printed;
    CheckpointHome(r, out, m.disk, [ws[0]]);
  }

  lemma NoneTillThree(r: Ring, f: seq<Block>, fuel: nat)
    requires 3 < r.blocks && r.start + r.blocks < |f| && 3 <= fuel
    requires !ReadSlot(r, f, 0).Data? && !ReadSlot(r, f, 1).Data? && !ReadSlot(r, f, 2).Data?
    ensures Sweep(r, f, 0, 3, fuel) == Some([])
  {
    hide ReadSlot, Sweep;
    SweepSkipsOne(r, f, 0, 3, fuel);
    SweepSkipsOne(r, f, 1, 3, fuel - 1);
    SweepSkipsLast(r, f, 2, 3, fuel - 2);
  }

  // ---------- laps of the ring ----------

  /** Begin, write one block, commit, checkpoint. */
  function Round(tid: nat, w: Write): seq<Step> {
    [Do(BeginTxn), Do(WriteTxn(tid, w.target, w.data)), Do(CommitTxn(tid)), Do(Checkpoint)]
  }

  /** One round for each write, under consecutive transaction ids. */
  function Rounds(tid: nat, ws: seq<Write>): seq<Step>
    decreases |ws|
  {
    if ws == [] then [] else Round(tid, ws[0]) + Rounds(tid + 1, ws[1..])
  }

  /** The transaction of a round, open and filled. */
  function Opened(m: Machine, w: Write): Machine {
    m.(txns := m.txns[m.nextTid := Txn([w], Active)], nextTid := m.nextTid + 1)
  }

  lemma RoundIs(r: Ring, m: Machine, w: Write, rest: seq<Step>)
    requires Wf(r, m) && Wf(r, ExecCommit(r, Opened(m, w), m.nextTid).next)
    ensures RunAll(r, m, Round(m.nextTid, w) + rest)
         == RunAll(r, ExecCheckpoint(r, ExecCommit(r, Opened(m, w), m.nextTid).next).next, rest)
  {
    hide ExecCommit, ExecCheckpoint;
    var round := Round(m.nextTid, w);
    var steps := round + rest;
    var m1 := Perform(r, m, steps[0]);
    assert [] + [w] == [w] && m1.txns[m.nextTid := Txn([w], Active)] == m.txns[m.nextTid := Txn([w], Active)];
    assert Perform(r, m1, steps[1]) == Opened(m, w);
    var m3 := ExecCommit(r, Opened(m, w), m.nextTid).next;
    assert steps[1..][1..][1..][1..] == rest;
    RunFour(r, m, steps, m1, Opened(m, w), m3);
  }

  lemma RunFour(r: Ring, m: Machine, steps: seq<Step>, m1: Machine, m2: Machine, m3: Machine)
    requires |steps| >= 4 && Wf(r, m) && m1 == Perform(r, m, steps[0]) && Wf(r, m1) && m2 == Perform(r, m1, steps[1])
    requires Wf(r, m2) && m3 == Perform(r, m2, steps[2]) && Wf(r, m3)
    ensures RunAll(r, m, steps) == RunAll(r, Perform(r, m3, steps[3]), steps[1..][1..][1..][1..])
  {
    hide Perform, Wf;
    assert RunAll(r, m2, steps[1..][1..]) == RunAll(r, m3, steps[1..][1..][1..]);
  }

  /** A round whose records leave slot 0 out: the write goes home and the journal is in order again, three slots on. */
  lemma RoundServes(r: Ring, m: Machine, w: Write)
    requires Inv(r, m, []) && m.sb.head == m.sb.tail && IsHome(r, m.disk, w.target) && 3 < r.blocks
    requires RecordsOffSlotZero(r, m.sb.tail, 1)
    ensures var next := ExecCommit(r, Opened(m, w), m.nextTid).next;
            && Wf(r, next)
            && var m' := ExecCheckpoint(r, next).next;
               && Inv(r, m', []) && m'.sb.head == m'.sb.tail == Slot(r, m.sb.tail + 3) && m'.nextTid == m.nextTid + 1
               && |m'.disk| == |m.disk| && HomeEq(r, Apply(m.disk, [w]), m'.disk)
  {
    hide Sweep, Apply, SuperBlock, Magic, LogHolds, Loaded, Flatten, RecordWrites, CommitEvents;
    var open, tid := Opened(m, w), m.nextTid;
    OkCommitSweptIff(r, open, [], tid);
    FlattenNone();
    assert [] + [w] == [w];
    CommitKeepsHome(r, open, tid);
    var next := ExecCommit(r, open, tid).next;
    CheckpointHome(r, next, m.disk, [w]);
    ReleasedHolds(r, next, ExecCheckpoint(r, next).next);
  }

  /** The pointers leave room for `n` rounds before a record falls on slot 0. With a multiple of three slots only
      commit records ever do, and the ring goes round for ever. */
  predicate RoomForRounds(r: Ring, tail: nat, n: nat) {
    n == 0 || (3 < r.blocks && 1 <= tail < r.blocks && tail % 3 == 1
      && (r.blocks % 3 == 0 || tail + 3 * n <= r.blocks + 1))
  }

  lemma RoomForNext(r: Ring, tail: nat, n: nat)
    requires n > 0 && RoomForRounds(r, tail, n)
    ensures 3 < r.blocks && RecordsOffSlotZero(r, tail, 1) && RoomForRounds(r, Slot(r, tail + 3), n - 1)
    ensures tail + 3 * n <= r.blocks ==> Slot(r, Slot(r, tail + 3) + 3 * (n - 1)) == Slot(r, tail + 3 * n)
    ensures tail + 3 * n <= r.blocks ==> n == 1 || tail + 3 < r.blocks
  {}

  lemma {:induction false} RoundsServe(r: Ring, m: Machine, ws: seq<Write>)
    requires Inv(r, m, []) && m.sb.head == m.sb.tail && AllHome(r, m.disk, ws) && RoomForRounds(r, m.sb.tail, |ws|)
    ensures var m' := RunAll(r, m, Rounds(m.nextTid, ws));
            && Inv(r, m', []) && m'.sb.head == m'.sb.tail && m'.nextTid == m.nextTid + |ws|
            && |m'.disk| == |m.disk| && HomeEq(r, Apply(m.disk, ws), m'.disk)
            && (r.blocks % 3 != 0 && m.sb.tail + 3 * |ws| <= r.blocks ==> m'.sb.tail == Slot(r, m.sb.tail + 3 * |ws|))
    decreases |ws|
  {
    hide Apply, ExecCommit, ExecCheckpoint, ImageHolds, LogAt, Round, RoomForRounds, RecordsOffSlotZero, RunAll, HomeEq;
    if ws == [] {
      ServedNone(r, m);
    } else {
      var w, rest := ws[0], ws[1..];
      RoomForNext(r, m.sb.tail, |ws|);
      assert Rounds(m.nextTid, ws) == Round(m.nextTid, w) + Rounds(m.nextTid + 1, rest);
      RoundServes(r, m, w);
      RoundIs(r, m, w, Rounds(m.nextTid + 1, rest));
      var m1 := ExecCheckpoint(r, ExecCommit(r, Opened(m, w), m.nextTid).next).next;
      forall i | 0 <= i < |rest|
        ensures IsHome(r, m1.disk, rest[i].target)
      {
        assert IsHome(r, m.disk, ws[i + 1].target);
      }
      RoundsServe(r, m1, rest);
      HomeEqApply(r, Apply(m.disk, [w]), m1.disk, rest);
      ApplyConcat(m.disk, [w], rest);
      assert [w] + rest == ws;
      HomeEqThrough(r, Apply(m.disk, ws), Apply(m1.disk, rest), RunAll(r, m1, Rounds(m1.nextTid, rest)).disk);
    }
  }

  lemma ServedNone(r: Ring, m: Machine)
    requires Wf(r, m)
    ensures RunAll(r, m, Rounds(m.nextTid, [])) == m && HomeEq(r, Apply(m.disk, []), m.disk)
  {}

  /** From pointers at slot 1, one-block transactions with a checkpoint after each all go home, with no bound when
      the number of slots is a multiple of three and otherwise up to a third of the slots behind slot 0. */
  lemma LapServes(r: Ring, m: Machine, ws: seq<Write>)
    requires Inv(r, m, []) && m.sb.head == m.sb.tail == 1 && 3 < r.blocks && AllHome(r, m.disk, ws)
    requires r.blocks % 3 == 0 || |ws| <= (r.blocks - 1) / 3
    ensures HomeEq(r, Apply(m.disk, ws), RunAll(r, m, Rounds(m.nextTid, ws)).disk)
  {
    hide Apply, Rounds, ImageHolds, LogAt;
    RoundsServe(r, m, ws);
  }

  /** The transaction after that. If the number of slots leaves a remainder of two its payload falls on slot 0, and
      it goes home exactly when the block behind the journal holds the same bytes; if the remainder is one its
      header falls there, the sweep does not return it, and nothing at all goes home unless the payload reads as a
      data header. */
  lemma LapEnds(r: Ring, m: Machine, ws: seq<Write>, w: Write)
    requires Inv(r, m, []) && m.sb.head == m.sb.tail == 1 && 3 < r.blocks && r.blocks % 3 != 0
    requires |ws| == (r.blocks - 1) / 3
    requires AllHome(r, m.disk, ws) && IsHome(Region(r.start, r.blocks + 1), m.disk, w.target)
    ensures var was, now := Apply(m.disk, ws), RunAll(r, m, Rounds(m.nextTid, ws) + Round(m.nextTid + |ws|, w)).disk;
            && r.start + r.blocks < |was|
            && (r.blocks % 3 == 2 ==> (HomeEq(r, Apply(was, [w]), now) <==> was[r.start + r.blocks] == w.data))
            && (r.blocks % 3 == 1 && Magic(w.data) != DATA_MAGIC ==> HomeEq(r, was, now))
  {
    hide Apply, Rounds, ImageHolds, LogAt, Round, ExecCommit, ExecCheckpoint, Magic, RunAll, HomeEq;
    RoundsServe(r, m, ws);
    var m' := RunAll(r, m, Rounds(m.nextTid, ws));
    RunTwice(r, m, Rounds(m.nextTid, ws), Round(m.nextTid + |ws|, w));
    LastRound(r, m', w);
    RoundIs(r, m', w, []);
    assert Round(m'.nextTid, w) + [] == Round(m'.nextTid, w);
    var last := ExecCheckpoint(r, ExecCommit(r, Opened(m', w), m'.nextTid).next).next;
    RunNothing(r, last);
    var was, next := Apply(m.disk, ws), last.disk;
    assert was[r.start + r.blocks] == m'.disk[r.start + r.blocks] by { HomeEqAt(r, was, m'.disk, r.start + r.blocks); }
    HomeEqApply(r, was, m'.disk, [w]);
    HomeEqThrough(r, was, m'.disk, next);
    HomeEqThrough(r, Apply(was, [w]), Apply(m'.disk, [w]), next);
  }

  lemma RunNothing(r: Ring, m: Machine)
    ensures RunAll(r, m, []) == m
  {}

  lemma HomeEqAt(r: Ring, d: seq<Block>, e: seq<Block>, b: nat)
    requires HomeEq(r, d, e) && b < |d| && !InJournal(r, b)
    ensures d[b] == e[b]
  {}

  lemma HomeEqThrough(r: Ring, d: seq<Block>, e: seq<Block>, f: seq<Block>)
    requires HomeEq(r, d, e)
    ensures HomeEq(r, d, f) <==> HomeEq(r, e, f)
  {}

  lemma {:induction false} RunTwice(r: Ring, m: Machine, a: seq<Step>, b: seq<Step>)
    requires Wf(r, RunAll(r, m, a))
    ensures RunAll(r, m, a + b) == RunAll(r, RunAll(r, m, a), b)
    decreases |a|
  {
    hide Perform;
    if a == [] {
      assert a + b == b;
    } else if Wf(r, m) {
      assert (a + b)[0] == a[0] && (a + b)[1..] == a[1..] + b;
      RunTwice(r, Perform(r, m, a[0]), a[1..], b);
    }
  }

  /** A round at the end of the lap: pointers at the last slot, or at slot 0. */
  lemma LastRound(r: Ring, m: Machine, w: Write)
    requires Inv(r, m, []) && m.sb.head == m.sb.tail && 3 < r.blocks
    requires IsHome(Region(r.start, r.blocks + 1), m.disk, w.target)
    requires m.sb.tail == 0 || m.sb.tail == r.blocks - 1
    ensures var next := ExecCommit(r, Opened(m, w), m.nextTid).next;
            && Wf(r, next)
            && var later := ExecCheckpoint(r, next).next.disk;
               && (m.sb.tail != 0 ==> (HomeEq(r, Apply(m.disk, [w]), later) <==> m.disk[r.start + r.blocks] == w.data))
               && (m.sb.tail == 0 && Magic(w.data) != DATA_MAGIC ==> HomeEq(r, m.disk, later))
  {
    hide Apply, SuperBlock, Magic, LogHolds, Loaded, Flatten, RecordWrites, CommitEvents, ExecCheckpoint, Sweep;
    var open, tid := Opened(m, w), m.nextTid;
    FlattenNone();
    assert [] + [w] == [w];
    if m.sb.tail != 0 {
      PayloadWrapHomeIff(r, open, [], tid, 0);
      assert !Overwritten([w], 0);
    } else if Magic(w.data) != DATA_MAGIC {
      HeaderFirst(r, open, tid, w);
    }
  }

  /** The header of a one-block transaction on slot 0, and a payload that does not read as one. */
  lemma HeaderFirst(r: Ring, m: Machine, tid: nat, w: Write)
    requires Inv(r, m, []) && Pending(m, tid) == [w] && m.sb.head == m.sb.tail == 0 && 3 < r.blocks
    requires Magic(w.data) != DATA_MAGIC
    ensures var next := ExecCommit(r, m, tid).next;
            Wf(r, next) && HomeEq(r, m.disk, ExecCheckpoint(r, next).next.disk)
  {
    hide Sweep, Apply, SuperBlock, RecordWrites, Magic, LogHolds, CommitEvents, Flatten, RecordBlock, Loaded;
    hide ExecCheckpoint;
    var id: LongWord := tid % 0x1_0000_0000_0000_0000;
    var out := ExecCommit(r, m, tid).next;
    var e := Apply(m.disk, RecordWrites(r, 0, id, [w], 3));
    PrintedByWrites(r, m.disk, 0, id, [w], 3);
    SuperWriteLoads(out.sb);
    PayloadOnDisk(r, m.disk, e, out.disk, 0, id, [w], 0);
    CommitRead(r, m.disk, e, out.disk, 0, id, [w]);
    CommitKeepsHome(r, m, tid);
    NoneTillThree(r, out.disk, r.blocks);
    hide Inv, ExecCommit, Printed;
    CheckpointHome(r, out, m.disk, []);
    NoWrites(m.disk);
  }
}
