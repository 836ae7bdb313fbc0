/** A commit of which only part reached the device: exactly when the log before it is still there, and exactly
    when recovery takes the transaction for whole. */
module JournalLoss {
  import opened Blocks
  import opened JournalFormat
  import opened JournalLog
  import opened JournalCommit
  import opened JournalRun
  import opened JournalCrash

  // ---------- what survives of the printed slots ----------

  /** Of the `n` slots from `tail` those in `kept` hold the printed blocks, the others what they held before. */
  ghost predicate PartlyPrinted(r: Ring, d: seq<Block>, e: seq<Block>, tail: nat, txnId: LongWord, ws: seq<Write>,
                                n: nat, kept: set<nat>)
    requires n <= 2 * |ws| + 1
  {
    && |d| == |e| && r.start + r.blocks < |d| && tail < r.blocks && n < r.blocks
    && (forall i :: 0 <= i < n ==>
          SlotBlock(r, e, tail, i) == if i in kept then RecordBlock(txnId, ws, i) else SlotBlock(r, d, tail, i))
    && (forall b :: 0 <= b < |d| && !InSpan(r, tail, n, b) ==> e[b] == d[b])
  }

  lemma PrintPart(r: Ring, d: seq<Block>, e: seq<Block>, tail: nat, txnId: LongWord, ws: seq<Write>, n: nat,
                  kept: set<nat>)
    requires n <= 2 * |ws| && n + 1 < r.blocks
    requires PartlyPrinted(r, d, e, tail, txnId, ws, n, kept)
    ensures var e' := if n in kept then e[r.start + Slot(r, tail + n) := RecordBlock(txnId, ws, n)] else e;
            PartlyPrinted(r, d, e', tail, txnId, ws, n + 1, kept)
  {
    hide RecordBlock;
    var block := RecordBlock(txnId, ws, n);
    var e' := if n in kept then e[r.start + Slot(r, tail + n) := block] else e;
    forall i | 0 <= i < n + 1
      ensures SlotBlock(r, e', tail, i) == if i in kept then RecordBlock(txnId, ws, i) else SlotBlock(r, d, tail, i)
    {
      if i < n {
        assert SlotBlock(r, e, tail, i) == if i in kept then RecordBlock(txnId, ws, i) else SlotBlock(r, d, tail, i);
        assert Slot(r, tail + i) != Slot(r, tail + n);
      }
    }
  }

  /** The slots after a crash that kept the record writes in `kept`. */
  lemma {:induction false} SurvivorsPrint(r: Ring, d: seq<Block>, tail: nat, txnId: LongWord, ws: seq<Write>, n: nat,
                                          kept: set<nat>)
    requires n <= 2 * |ws| + 1 && r.start + r.blocks < |d| && tail < r.blocks && n < r.blocks
    ensures var e := Apply(d, Survivors(Pwrites(RecordWrites(r, tail, txnId, ws, n)), kept));
            PartlyPrinted(r, d, e, tail, txnId, ws, n, kept)
  {
    hide RecordBlock, Apply, Survivors, Pwrites, PartlyPrinted, RecordWrites;
    var all := RecordWrites(r, tail, txnId, ws, n);
    if n == 0 {
      NothingSurvives(d, all, kept);
      PrintedNone(r, d, tail, txnId, ws, kept);
    } else {
      SurvivorsPrint(r, d, tail, txnId, ws, n - 1, kept);
      var front := RecordWrites(r, tail, txnId, ws, n - 1);
      var w := Write(r.start + Slot(r, tail + n - 1), RecordBlock(txnId, ws, n - 1));
      assert all == front + [w] by { LastRecordWrite(r, tail, txnId, ws, n); }
      OneMoreSurvives(d, front, w, kept);
      PrintPart(r, d, Apply(d, Survivors(Pwrites(front), kept)), tail, txnId, ws, n - 1, kept);
    }
  }

  lemma PrintedNone(r: Ring, d: seq<Block>, tail: nat, txnId: LongWord, ws: seq<Write>, kept: set<nat>)
    requires r.start + r.blocks < |d| && tail < r.blocks
    ensures PartlyPrinted(r, d, d, tail, txnId, ws, 0, kept)
  {}

  lemma NothingSurvives(d: seq<Block>, ws: seq<Write>, kept: set<nat>)
    requires |ws| == 0
    ensures Apply(d, Survivors(Pwrites(ws), kept)) == d
  {}

  lemma OneMoreSurvives(d: seq<Block>, front: seq<Write>, w: Write, kept: set<nat>)
    requires w.target < |d|
    ensures var e := Apply(d, Survivors(Pwrites(front), kept));
            Apply(d, Survivors(Pwrites(front + [w]), kept)) == if |front| in kept then e[w.target := w.data] else e
  {
    hide Apply;
    assert Pwrites(front + [w]) == Pwrites(front) + [Pwrite(w)];
    SurvivorsSnoc(Pwrites(front), Pwrite(w), kept);
    var s := Survivors(Pwrites(front), kept);
    if |front| in kept { ApplySnoc(d, s, w); } else { assert s + [] == s; }
  }

  // ---------- is the log before it still there? ----------

  /** Slots a log takes. */
  function Length(log: seq<seq<Write>>): nat { if log == [] then 0 else 2 * |log[0]| + 1 + Length(log[1..]) }

  lemma {:induction false} LengthIs(r: Ring, d: seq<Block>, cur: nat, end: nat, log: seq<seq<Write>>)
    requires r.start + r.blocks < |d| && LogHolds(r, d, cur, end, log)
    ensures end == cur + Length(log)
    decreases |log|
  {
    if log != [] { LengthIs(r, d, cur + 2 * |log[0]| + 1, end, log[1..]); }
  }

  /** From the pointers of superblock `sb` a reader finds all of `log` first. */
  ghost predicate Frames(r: Ring, d: seq<Block>, sb: JournalSuper, log: seq<seq<Write>>) {
    && r.start + r.blocks < |d| && sb.head < r.blocks
    && (log != [] ==>
          && 1 <= sb.head && sb.head + Length(log) <= r.blocks
          && LogHolds(r, d, sb.head, sb.head + Length(log), log)
          && (sb.tail < sb.head || sb.head + Length(log) <= sb.tail))
  }

  /** The image can be opened, and a reader finds all of `log` first. */
  ghost predicate Retains(r: Ring, d: seq<Block>, log: seq<seq<Write>>) {
    r.start < |d| && PosesAsSuper(r, d, d[r.start], log)
  }

  /** Block `b` in the place of the superblock would make the log readable. */
  ghost predicate PosesAsSuper(r: Ring, d: seq<Block>, b: Block, log: seq<seq<Write>>) {
    Magic(b) == JOURNAL_MAGIC && Frames(r, d, Loaded(b), log)
  }

  /** Then the scan of recovery starts with the log, whatever comes behind it. */
  lemma RetainedIsScanned(r: Ring, d: seq<Block>, log: seq<seq<Write>>)
    requires Retains(r, d, log) && log != []
    ensures var sb := Loaded(d[r.start]);
            var end := sb.head + Length(log);
            Steps(log) <= r.blocks
            && Scan(r, d, sb.head, sb.tail, [], r.blocks)
                == PrependAll(log, Scan(r, d, Slot(r, end), sb.tail, [], r.blocks - Steps(log)))
  {
    hide Scan;
    var sb := Loaded(d[r.start]);
    StepsBound(r, d, sb.head, sb.head + Length(log), log);
    ScanThroughLog(r, d, sb.head, sb.head + Length(log), sb.tail, log, r.blocks);
  }

  /** Which of the printed blocks, counted from the tail, falls on slot 0. */
  function AtSlotZero(r: Ring, tail: nat): nat
    requires tail < r.blocks
  {
    if tail == 0 then 0 else r.blocks - tail
  }

  lemma HitsStart(r: Ring, tail: nat, n: nat)
    requires tail < r.blocks && n < r.blocks
    ensures InSpan(r, tail, n, r.start) <==> AtSlotZero(r, tail) < n
    ensures AtSlotZero(r, tail) < n ==> Slot(r, tail + AtSlotZero(r, tail)) == 0
    ensures AtSlotZero(r, tail) >= n <==> OffSlotZero(r, tail, n)
  {}

  /** The blocks between the pointers survive whatever is printed into free slots and into slot 0. */
  lemma LogStays(r: Ring, d: seq<Block>, f: seq<Block>, head: nat, tail: nat, log: seq<seq<Write>>, n: nat)
    requires LogAt(r, d, head, tail, log) && n <= Free(r, head, tail) && |f| == |d|
    requires forall b :: 0 <= b < |d| && b != r.start && !InSpan(r, tail, n, b) ==> f[b] == d[b]
    ensures EndOf(r, head, tail) == head + Length(log)
    ensures log != [] ==> LogHolds(r, f, head, head + Length(log), log) && 1 <= head && head + Length(log) <= r.blocks
  {
    LogSpan(r, d, head, EndOf(r, head, tail), log);
    LengthIs(r, d, head, EndOf(r, head, tail), log);
    if log != [] {
      assert SameSlots(r, d, f, head, EndOf(r, head, tail));
      LogFrame(r, d, f, head, EndOf(r, head, tail), log);
    }
  }

  /** What is on the device after a commit of which the writes in `kept` survived. */
  lemma InterruptedImage(r: Ring, m: Machine, tid: nat, kept: set<nat>)
    requires Wf(r, m) && Pending(m, tid) != []
    ensures var ws, tail, n, out := Pending(m, tid), m.sb.tail, PrintedBlocks(r, m, tid), ExecCommit(r, m, tid);
            var id: LongWord := tid % 0x1_0000_0000_0000_0000;
            var image := Apply(m.disk, Survivors(out.events, kept));
            var supered := out.ok && n in kept;
            && n <= 2 * |ws| + 1 && n < r.blocks && |image| == |m.disk| && Wf(r, out.next)
            && (forall b :: 0 <= b < |image| && b != r.start && !InSpan(r, tail, n, b) ==> image[b] == m.disk[b])
            && (supered ==> image[r.start] == SuperBlock(out.next.sb))
            && (!supered ==> PartlyPrinted(r, m.disk, image, tail, id, ws, n, kept))
  {
    hide RecordWrites, Apply, Survivors, RecordBlock, SuperBlock, Pwrites;
    var ws, tail, n, out := Pending(m, tid), m.sb.tail, PrintedBlocks(r, m, tid), ExecCommit(r, m, tid);
    var id: LongWord := tid % 0x1_0000_0000_0000_0000;
    PrintedFits(r, m, tid);
    var recs := RecordWrites(r, tail, id, ws, n);
    var e := Apply(m.disk, Survivors(Pwrites(recs), kept));
    SurvivorsPrint(r, m.disk, tail, id, ws, n, kept);
    if out.ok { SurvivorsOfFitting(m.disk, recs, SuperWrite(r, out.next.sb), kept); }
  }

  /** With the superblock write among the survivors: what survived of the records, and the superblock on top. */
  lemma SuperedImage(r: Ring, m: Machine, tid: nat, kept: set<nat>) returns (e: seq<Block>)
    requires Wf(r, m) && Pending(m, tid) != [] && ExecCommit(r, m, tid).ok && PrintedBlocks(r, m, tid) in kept
    ensures var ws, n, out := Pending(m, tid), PrintedBlocks(r, m, tid), ExecCommit(r, m, tid);
            && n <= 2 * |ws| + 1 && |e| == |m.disk| && r.start < |e|
            && PartlyPrinted(r, m.disk, e, m.sb.tail, tid % 0x1_0000_0000_0000_0000, ws, n, kept)
            && Apply(m.disk, Survivors(out.events, kept)) == e[r.start := SuperBlock(out.next.sb)]
  {
    hide RecordWrites, Apply, Survivors, RecordBlock, SuperBlock, Pwrites;
    var ws, tail, n, out := Pending(m, tid), m.sb.tail, PrintedBlocks(r, m, tid), ExecCommit(r, m, tid);
    var id: LongWord := tid % 0x1_0000_0000_0000_0000;
    PrintedFits(r, m, tid);
    var recs := RecordWrites(r, tail, id, ws, n);
    e := Apply(m.disk, Survivors(Pwrites(recs), kept));
    SurvivorsPrint(r, m.disk, tail, id, ws, n, kept);
    SurvivorsOfFitting(m.disk, recs, SuperWrite(r, out.next.sb), kept);
  }

  lemma PrintedFits(r: Ring, m: Machine, tid: nat)
    requires Wf(r, m) && Pending(m, tid) != []
    ensures var ws, n, out := Pending(m, tid), PrintedBlocks(r, m, tid), ExecCommit(r, m, tid);
            var recs := RecordWrites(r, m.sb.tail, tid % 0x1_0000_0000_0000_0000, ws, n);
            && n <= 2 * |ws| + 1 && n <= Free(r, m.sb.head, m.sb.tail) < r.blocks && Wf(r, out.next)
            && (out.ok <==> HasRoom(r, m, tid)) && (out.ok ==> n == 2 * |ws| + 1)
            && out.events == (if out.ok then Pwrites(recs) + [Pwrite(SuperWrite(r, out.next.sb))] + [Fsync] + [Fsync]
                else Pwrites(recs))
            && out.next.sb == m.sb.(tail := out.next.sb.tail)
            && (out.ok ==> out.next.sb.tail == Slot(r, m.sb.tail + n))
  {
    hide RecordWrites, Apply, SuperBlock, Pwrites;
  }

  lemma SurvivorsOfFitting(d: seq<Block>, recs: seq<Write>, super: Write, kept: set<nat>)
    requires super.target < |d|
    ensures var e := Apply(d, Survivors(Pwrites(recs), kept));
            Apply(d, Survivors(Pwrites(recs) + [Pwrite(super)] + [Fsync] + [Fsync], kept)) ==
              if |recs| in kept then e[super.target := super.data] else e
  {
    hide Apply;
    var evs := Pwrites(recs);
    SurvivorsSnoc(evs, Pwrite(super), kept);
    SurvivorsSnoc(evs + [Pwrite(super)], Fsync, kept);
    SurvivorsSnoc(evs + [Pwrite(super)] + [Fsync], Fsync, kept);
    var s := Survivors(evs, kept);
    assert s + [] == s && s + [super] + [] == s + [super];
    if |recs| in kept { ApplySnoc(d, s, super); }
  }

  /** Whatever part of a commit reached the device, refused or not: the log before it is still there exactly when
      the superblock write that publishes the commit survived, or no surviving record write hit slot 0, or the
      payload that hit it happens to read as a superblock that frames the log. */
  lemma InterruptedCommitRetainsIff(r: Ring, m: Machine, log: seq<seq<Write>>, tid: nat, kept: set<nat>)
    requires Inv(r, m, log) && Pending(m, tid) != []
    ensures var ws, n, out := Pending(m, tid), PrintedBlocks(r, m, tid), ExecCommit(r, m, tid);
            var image := Apply(m.disk, Survivors(out.events, kept));
            var zero := AtSlotZero(r, m.sb.tail);
            && n <= 2 * |ws| + 1
            && (Retains(r, image, log) <==>
                  || (out.ok && n in kept)
                  || !(zero < n && zero in kept)
                  || PosesAsSuper(r, image, RecordBlock(tid % 0x1_0000_0000_0000_0000, ws, zero), log))
            && (zero < n && zero % 2 == 0 ==>
                  !PosesAsSuper(r, image, RecordBlock(tid % 0x1_0000_0000_0000_0000, ws, zero), log))
  {
    hide Apply, Survivors, RecordBlock, SuperBlock, LogHolds, Magic, Loaded, ExecCommit, Frames, PosesAsSuper, LogAt;
    hide ImageHolds, Free;
    var ws, n, out := Pending(m, tid), PrintedBlocks(r, m, tid), ExecCommit(r, m, tid);
    var image := Apply(m.disk, Survivors(out.events, kept));
    var zero, id: LongWord := AtSlotZero(r, m.sb.tail), tid % 0x1_0000_0000_0000_0000;
    InterruptedFacts(r, m, log, tid, kept);
    hide PrintedBlocks, Inv;
    if zero < n && zero % 2 == 0 { NoSuperPoses(r, image, id, ws, zero, log); }
  }

  /** What decides whether the log is retained: the block in the place of the superblock. */
  lemma InterruptedFacts(r: Ring, m: Machine, log: seq<seq<Write>>, tid: nat, kept: set<nat>)
    requires Inv(r, m, log) && Pending(m, tid) != []
    ensures var ws, n, out := Pending(m, tid), PrintedBlocks(r, m, tid), ExecCommit(r, m, tid);
            var image := Apply(m.disk, Survivors(out.events, kept));
            var zero := AtSlotZero(r, m.sb.tail);
            && n <= 2 * |ws| + 1 && |image| == |m.disk|
            && (!(out.ok && n in kept) && zero < n && zero in kept ==>
                  image[r.start] == RecordBlock(tid % 0x1_0000_0000_0000_0000, ws, zero))
            && ((out.ok && n in kept) || !(zero < n && zero in kept) ==> PosesAsSuper(r, image, image[r.start], log))
  {
    hide Apply, Survivors, RecordBlock, SuperBlock, LogHolds, Magic, Loaded, ExecCommit, PosesAsSuper, InSpan;
    var ws, n, out := Pending(m, tid), PrintedBlocks(r, m, tid), ExecCommit(r, m, tid);
    var image := Apply(m.disk, Survivors(out.events, kept));
    PrintedFits(r, m, tid);
    InterruptedImage(r, m, tid, kept);
    LogStays(r, m.disk, image, m.sb.head, m.sb.tail, log, n);
    hide PrintedBlocks, LogAt, ImageHolds, Free;
    if out.ok && n in kept {
      SuperRetains(r, m, image, n, out.next.sb, log);
    } else {
      hide PartlyPrinted;
      WithoutSuper(r, m, image, tid % 0x1_0000_0000_0000_0000, ws, n, kept, log);
    }
  }

  lemma WithoutSuper(r: Ring, m: Machine, image: seq<Block>, txnId: LongWord, ws: seq<Write>, n: nat, kept: set<nat>,
                     log: seq<seq<Write>>)
    requires Inv(r, m, log) && n <= 2 * |ws| + 1 && PartlyPrinted(r, m.disk, image, m.sb.tail, txnId, ws, n, kept)
    requires EndOf(r, m.sb.head, m.sb.tail) == m.sb.head + Length(log)
    requires log != [] ==> LogHolds(r, image, m.sb.head, m.sb.head + Length(log), log)
                           && 1 <= m.sb.head && m.sb.head + Length(log) <= r.blocks
    ensures var zero := AtSlotZero(r, m.sb.tail);
            if zero < n && zero in kept then image[r.start] == RecordBlock(txnId, ws, zero) else Retains(r, image, log)
  {
    hide RecordBlock, LogHolds, Magic, Loaded, PosesAsSuper, InSpan;
    var zero := AtSlotZero(r, m.sb.tail);
    if zero < n {
      SlotZeroHolds(r, m.disk, image, m.sb.tail, txnId, ws, n, kept);
    } else {
      StartStays(r, m.disk, image, m.sb.tail, txnId, ws, n, kept);
    }
    SuperStays(r, m, image, log);
  }

  lemma NoSuperPoses(r: Ring, image: seq<Block>, txnId: LongWord, ws: seq<Write>, i: nat, log: seq<seq<Write>>)
    requires i <= 2 * |ws| && i % 2 == 0
    ensures !PosesAsSuper(r, image, RecordBlock(txnId, ws, i), log)
  {
    hide RecordBlock, Frames, Magic;
    RecordIsNoSuper(txnId, ws, i);
  }

  lemma SuperRetains(r: Ring, m: Machine, image: seq<Block>, n: nat, sb: JournalSuper, log: seq<seq<Write>>)
    requires Wf(r, m) && |image| == |m.disk| && WellSized(sb) && image[r.start] == SuperBlock(sb)
    requires 0 < n <= Free(r, m.sb.head, m.sb.tail) < r.blocks && sb == m.sb.(tail := Slot(r, m.sb.tail + n))
    requires EndOf(r, m.sb.head, m.sb.tail) == m.sb.head + Length(log)
    requires log != [] ==> LogHolds(r, image, m.sb.head, m.sb.head + Length(log), log)
                           && 1 <= m.sb.head && m.sb.head + Length(log) <= r.blocks
    ensures Retains(r, image, log)
  {
    hide LogHolds, Magic, SuperBlock, Loaded;
    SuperWriteLoads(sb);
  }

  lemma StartStays(r: Ring, d: seq<Block>, e: seq<Block>, tail: nat, txnId: LongWord, ws: seq<Write>, n: nat,
                   kept: set<nat>)
    requires n <= 2 * |ws| + 1 && PartlyPrinted(r, d, e, tail, txnId, ws, n, kept) && AtSlotZero(r, tail) >= n
    ensures e[r.start] == d[r.start]
  {
    hide RecordBlock;
    HitsStart(r, tail, n);
  }

  lemma SlotZeroHolds(r: Ring, d: seq<Block>, e: seq<Block>, tail: nat, txnId: LongWord, ws: seq<Write>, n: nat,
                      kept: set<nat>)
    requires n <= 2 * |ws| + 1 && PartlyPrinted(r, d, e, tail, txnId, ws, n, kept) && AtSlotZero(r, tail) < n
    ensures var zero := AtSlotZero(r, tail);
            e[r.start] == if zero in kept then RecordBlock(txnId, ws, zero) else d[r.start]
  {
    hide RecordBlock;
    var zero := AtSlotZero(r, tail);
    HitsStart(r, tail, n);
    assert SlotBlock(r, e, tail, zero) == if zero in kept then RecordBlock(txnId, ws, zero)
      else SlotBlock(r, d, tail, zero);
  }

  /** With the superblock block as it was, the log is framed as it was. */
  lemma SuperStays(r: Ring, m: Machine, image: seq<Block>, log: seq<seq<Write>>)
    requires Inv(r, m, log) && |image| == |m.disk|
    requires EndOf(r, m.sb.head, m.sb.tail) == m.sb.head + Length(log)
    requires log != [] ==> LogHolds(r, image, m.sb.head, m.sb.head + Length(log), log)
                           && 1 <= m.sb.head && m.sb.head + Length(log) <= r.blocks
    ensures image[r.start] == m.disk[r.start] ==> Retains(r, image, log)
  {
    hide LogHolds, Magic, Loaded;
  }

  lemma RecordIsNoSuper(txnId: LongWord, ws: seq<Write>, i: nat)
    requires i <= 2 * |ws| && i % 2 == 0
    ensures Magic(RecordBlock(txnId, ws, i)) != JOURNAL_MAGIC
  {
    hide HeaderBlock, CommitBlock, Magic;
    if i == 2 * |ws| {
      CommitDecodes(txnId, |ws| % 0x1_0000_0000);
    } else {
      HeaderDecodes(ws[i / 2].target, ws[i / 2].data);
    }
  }

  function Under(n: nat): (s: set<nat>)
    ensures forall i: nat :: i in s <==> i < n
  {
    if n == 0 then {} else Under(n - 1) + {n - 1}
  }

  /** A refused commit leaves the log readable exactly when the slots it printed into leave out slot 0, or the
      payload it put there happens to pose as the superblock. */
  lemma FailedCommitRetainsIff(r: Ring, m: Machine, log: seq<seq<Write>>, tid: nat)
    requires Inv(r, m, log) && Pending(m, tid) != [] && !ExecCommit(r, m, tid).ok
    ensures var ws, n, tail := Pending(m, tid), PrintedBlocks(r, m, tid), m.sb.tail;
            var next, zero := ExecCommit(r, m, tid).next, AtSlotZero(r, m.sb.tail);
            && n == 2 * TornRecords(Free(r, m.sb.head, tail), |ws|) && n <= 2 * |ws| + 1
            && (Retains(r, next.disk, log) <==>
                  || OffSlotZero(r, tail, n)
                  || (zero % 2 == 1 && PosesAsSuper(r, next.disk, RecordBlock(tid % 0x1_0000_0000_0000_0000, ws, zero),
                    log)))
  {
    hide Apply, Survivors, RecordBlock, LogHolds, Magic, Loaded, Pwrites, RecordWrites, PosesAsSuper, Retains;
    var ws, n := Pending(m, tid), PrintedBlocks(r, m, tid);
    var all := Under(n);
    PrintedFits(r, m, tid);
    InterruptedCommitRetainsIff(r, m, log, tid, all);
    SurvivorsKeptAll(RecordWrites(r, m.sb.tail, tid % 0x1_0000_0000_0000_0000, ws, n), all);
    HitsStart(r, m.sb.tail, n);
  }

  /** When the record that falls on slot 0 is a header, nothing saves the log: the image has no superblock, and
      opening it is refused. */
  lemma RefusedCommitDestroysSuper(r: Ring, m: Machine, log: seq<seq<Write>>, tid: nat)
    requires Inv(r, m, log) && Pending(m, tid) != [] && !ExecCommit(r, m, tid).ok
    requires !OffSlotZero(r, m.sb.tail, PrintedBlocks(r, m, tid)) && AtSlotZero(r, m.sb.tail) % 2 == 0
    ensures var next := ExecCommit(r, m, tid).next; r.start < |next.disk| && Magic(next.disk[r.start]) == DATA_MAGIC
  {
    hide Apply, RecordBlock, LogHolds, Magic, Loaded, RecordWrites;
    var ws, n, zero := Pending(m, tid), PrintedBlocks(r, m, tid), AtSlotZero(r, m.sb.tail);
    var id: LongWord := tid % 0x1_0000_0000_0000_0000;
    PrintedFits(r, m, tid);
    HitsStart(r, m.sb.tail, n);
    PrintedByWrites(r, m.disk, m.sb.tail, id, ws, n);
    var e := ExecCommit(r, m, tid).next.disk;
    assert SlotBlock(r, e, m.sb.tail, zero) == RecordBlock(id, ws, zero);
    RecordPair(id, ws, zero / 2);
    HeaderDecodes(ws[zero / 2].target, ws[zero / 2].data);
  }

  // ---------- is the transaction itself recovered? ----------

  /** Every printed block that was lost reads, in the slot's old content, as the block it should have been. */
  ghost predicate LostReadSame(r: Ring, d: seq<Block>, tail: nat, ws: seq<Write>, kept: set<nat>)
    requires r.start + r.blocks < |d| && StaysOffSlotZero(r, tail, |ws|)
  {
    && (forall j: nat {:trigger Pair(r, d, tail, ws, kept, j)} :: j < |ws| ==> Pair(r, d, tail, ws, kept, j))
    && (2 * |ws| in kept || ReadSlot(r, d, tail + 2 * |ws|) == Commit)
  }

  predicate Pair(r: Ring, d: seq<Block>, tail: nat, ws: seq<Write>, kept: set<nat>, j: nat)
    requires r.start + r.blocks < |d| && StaysOffSlotZero(r, tail, |ws|) && j < |ws|
  {
    var header, payload := d[r.start + tail + 2 * j], d[r.start + tail + 2 * j + 1];
    && (2 * j in kept || (Magic(header) == DATA_MAGIC && TargetOf(header) == ws[j].target))
    && (2 * j + 1 in kept || payload == ws[j].data)
  }

  lemma PairReads(r: Ring, d: seq<Block>, e: seq<Block>, f: seq<Block>, tail: nat, txnId: LongWord, ws: seq<Write>,
                  kept: set<nat>, j: nat)
    requires StaysOffSlotZero(r, tail, |ws|) && j < |ws|
    requires PartlyPrinted(r, d, e, tail, txnId, ws, 2 * |ws| + 1, kept) && SuperDiffers(r, e, f)
    ensures ReadSlot(r, f, tail + 2 * j) == Data(ws[j]) <==> Pair(r, d, tail, ws, kept, j)
  {
    hide HeaderBlock, RecordBlock, Magic, TargetOf;
    RecordPair(txnId, ws, j);
    HeaderDecodes(ws[j].target, ws[j].data);
    assert SlotBlock(r, e, tail, 2 * j) == if 2 * j in kept then RecordBlock(txnId, ws, 2 * j)
      else SlotBlock(r, d, tail, 2 * j);
    assert SlotBlock(r, e, tail, 2 * j + 1) == if 2 * j + 1 in kept then RecordBlock(txnId, ws, 2 * j + 1)
      else SlotBlock(r, d, tail, 2 * j + 1);
  }

  lemma CommitSlotReads(r: Ring, d: seq<Block>, e: seq<Block>, f: seq<Block>, tail: nat, txnId: LongWord,
                        ws: seq<Write>, kept: set<nat>)
    requires StaysOffSlotZero(r, tail, |ws|)
    requires PartlyPrinted(r, d, e, tail, txnId, ws, 2 * |ws| + 1, kept) && SuperDiffers(r, e, f)
    ensures ReadSlot(r, f, tail + 2 * |ws|) == Commit <==> 2 * |ws| in kept || ReadSlot(r, d, tail + 2 * |ws|) == Commit
  {
    hide CommitBlock, RecordBlock, Magic;
    var n := 2 * |ws|;
    assert SlotBlock(r, e, tail, n) == if n in kept then RecordBlock(txnId, ws, n) else SlotBlock(r, d, tail, n);
    assert RecordBlock(txnId, ws, n) == CommitBlock(txnId, |ws| % 0x1_0000_0000) by { LastRecordIs(txnId, ws); }
    CommitDecodes(txnId, |ws| % 0x1_0000_0000);
  }

  lemma LastRecordIs(txnId: LongWord, ws: seq<Write>)
    ensures RecordBlock(txnId, ws, 2 * |ws|) == CommitBlock(txnId, |ws| % 0x1_0000_0000)
  {
    hide CommitBlock, HeaderBlock;
  }

  /** Records in a row, one by one. */
  lemma {:induction false} RecordsAtIff(r: Ring, f: seq<Block>, cur: nat, ws: seq<Write>)
    requires r.start + r.blocks < |f| && cur + 2 * |ws| < r.blocks
    ensures RecordsAt(r, f, cur, ws) <==>
      forall j: nat {:trigger ws[j]} :: j < |ws| ==> ReadSlot(r, f, cur + 2 * j) == Data(ws[j])
    decreases |ws|
  {
    hide ReadSlot;
    if ws != [] {
      var rest := ws[1..];
      RecordsAtIff(r, f, cur + 2, rest);
      assert forall j: nat {:trigger rest[j]} :: j < |rest| ==>
        rest[j] == ws[j + 1] && cur + 2 + 2 * j == cur + 2 * (j + 1);
      assert forall j: nat {:trigger ws[j]} :: 0 < j < |ws| ==> ws[j] == rest[j - 1];
    }
  }

  /** The transaction reads back from its slots exactly when what was lost was there already. */
  lemma TxnAtIff(r: Ring, d: seq<Block>, e: seq<Block>, f: seq<Block>, tail: nat, txnId: LongWord, ws: seq<Write>,
                 kept: set<nat>)
    requires StaysOffSlotZero(r, tail, |ws|)
    requires PartlyPrinted(r, d, e, tail, txnId, ws, 2 * |ws| + 1, kept) && SuperDiffers(r, e, f)
    ensures TxnAt(r, f, tail, ws) <==> LostReadSame(r, d, tail, ws, kept)
  {
    hide Pair, RecordBlock;
    forall j | 0 <= j < |ws| ensures ReadSlot(r, f, tail + 2 * j) == Data(ws[j]) <==> Pair(r, d, tail, ws, kept, j) {
      PairReads(r, d, e, f, tail, txnId, ws, kept, j);
    }
    CommitSlotReads(r, d, e, f, tail, txnId, ws, kept);
    hide PartlyPrinted;
    RecordsAtIff(r, f, tail, ws);
  }

  // ---------- scans that come to exactly one transaction ----------

  lemma {:induction false} ScanExtends(r: Ring, f: seq<Block>, cur: nat, tail: nat, pend: seq<Write>, fuel: nat)
    requires cur < r.blocks && r.start + r.blocks < |f| && pend != []
    requires var s := Scan(r, f, cur, tail, pend, fuel); s.Done? && s.txns != []
    ensures pend <= Scan(r, f, cur, tail, pend, fuel).txns[0]
    decreases fuel
  {
    if cur != tail && ReadSlot(r, f, cur).Data? {
      ScanExtends(r, f, Slot(r, cur + 2), tail, pend + [ReadSlot(r, f, cur).write], fuel - 1);
    }
  }

  lemma RecordsNone(r: Ring, f: seq<Block>, cur: nat, ws: seq<Write>)
    requires cur < r.blocks && r.start + r.blocks < |f| && |ws| == 0
    ensures RecordsAt(r, f, cur, ws)
  {}

  lemma RecordsOneMore(r: Ring, f: seq<Block>, cur: nat, ws: seq<Write>)
    requires cur < r.blocks && r.start + r.blocks < |f| && ws != []
    requires ReadSlot(r, f, cur) == Data(ws[0]) && RecordsAt(r, f, Slot(r, cur + 2), ws[1..])
    ensures RecordsAt(r, f, cur, ws)
  {}

  /** A scan has collected `ws[..a]`, has as many slots before `end` as the rest of `ws` takes or fewer, and comes
      to `ws` alone: then the rest of `ws` and its commit record lie there, or the last slot reads as a data record
      and the scan jumps over the tail behind it. */
  lemma {:induction false} ScanShape(r: Ring, f: seq<Block>, cur: nat, end: nat, ws: seq<Write>, a: nat, fuel: nat)
    returns (b: nat)
    requires 1 <= cur <= end < r.blocks && r.start + r.blocks < |f| && a <= |ws| && ws != []
    requires end - cur <= 2 * (|ws| - a)
    requires a == 0 ==> ReadSlot(r, f, cur) != Commit
    requires Scan(r, f, cur, Slot(r, end + 1), ws[..a], fuel) == Done([ws], [])
    ensures a <= b <= |ws| && end == cur + 2 * (b - a) && RecordsAt(r, f, cur, ws[a..b]) && b - a < fuel
    ensures ReadSlot(r, f, end) == Commit ==> b == |ws|
    ensures ReadSlot(r, f, end) != Commit ==>
      b < |ws| && ReadSlot(r, f, end) == Data(ws[b])
      && Scan(r, f, Slot(r, end + 2), Slot(r, end + 1), ws[..b + 1], fuel - (b - a) - 1) == Done([ws], [])
    decreases end - cur
  {
    hide RecordsAt, Scan;
    var pend, tail := ws[..a], Slot(r, end + 1);
    RecordsNone(r, f, cur, ws[a..a]);
    ScanStep(r, f, cur, tail, pend, fuel);
    match ReadSlot(r, f, cur)
    case Commit =>
      OnlyOne(pend, Scan(r, f, Slot(r, cur + 1), tail, [], fuel - 1), ws);
      b := a;
    case Data(w) =>
      ScanExtends(r, f, Slot(r, cur + 2), tail, pend + [w], fuel - 1);
      OneFurther(ws, a, w);
      if cur == end {
        b := a;
      } else {
        if cur + 1 == end { ScanEnds(r, f, tail, pend + [w], fuel - 1); }
        b := ScanShape(r, f, cur + 2, end, ws, a + 1, fuel - 1);
        assert ws[a..b][1..] == ws[a + 1..b];
        RecordsOneMore(r, f, cur, ws[a..b]);
      }
    case Unknown => assert false;
  }

  /** One step of the scan. */
  lemma ScanStep(r: Ring, f: seq<Block>, cur: nat, tail: nat, pend: seq<Write>, fuel: nat)
    requires cur < r.blocks && r.start + r.blocks < |f| && cur != tail && Scan(r, f, cur, tail, pend, fuel).Done?
    ensures fuel > 0
    ensures match ReadSlot(r, f, cur)
            case Data(w) => Scan(r, f, cur, tail, pend, fuel)
              == Scan(r, f, Slot(r, cur + 2), tail, pend + [w], fuel - 1)
            case Commit =>
              Scan(r, f, cur, tail, pend, fuel) ==
                var rest := Scan(r, f, Slot(r, cur + 1), tail, [], fuel - 1); if pend != [] then Prepend(pend, rest)
                  else rest
            case Unknown => Scan(r, f, cur, tail, pend, fuel) == Done([], pend)
  {}

  lemma ScanEnds(r: Ring, f: seq<Block>, tail: nat, pend: seq<Write>, fuel: nat)
    requires tail < r.blocks && r.start + r.blocks < |f|
    ensures Scan(r, f, tail, tail, pend, fuel) == Done([], pend)
  {}

  lemma OnlyOne(pend: seq<Write>, rest: Scanned, ws: seq<Write>)
    ensures Prepend(pend, rest) == Done([ws], []) ==> pend == ws
  {
    if rest.Done? { assert ([pend] + rest.txns)[0] == pend; }
  }

  lemma OneFurther(ws: seq<Write>, a: nat, w: Write)
    requires a <= |ws| && ws[..a] + [w] <= ws
    ensures a < |ws| && ws[a] == w && ws[..a + 1] == ws[..a] + [w]
  {
    assert ws[a] == (ws[..a] + [w])[a];
  }

  /** The same from a slot where nothing has been collected yet: commit records are skipped first. */
  lemma {:induction false} ScanWhole(r: Ring, f: seq<Block>, cur: nat, end: nat, ws: seq<Write>, fuel: nat)
    returns (c: nat, b: nat)
    requires 1 <= cur <= end < r.blocks && r.start + r.blocks < |f| && ws != [] && end - cur <= 2 * |ws|
    requires Scan(r, f, cur, Slot(r, end + 1), [], fuel) == Done([ws], [])
    ensures b <= |ws| && end == cur + c + 2 * b && c + b < fuel && Skips(r, f, cur, c)
    ensures RecordsAt(r, f, cur + c, ws[..b])
    ensures ReadSlot(r, f, end) == Commit ==> b == |ws|
    ensures ReadSlot(r, f, end) != Commit ==>
      b < |ws| && ReadSlot(r, f, end) == Data(ws[b])
      && Scan(r, f, Slot(r, end + 2), Slot(r, end + 1), ws[..b + 1], fuel - c - b - 1) == Done([ws], [])
    decreases end - cur
  {
    hide RecordsAt, Scan;
    if ReadSlot(r, f, cur) == Commit {
      ScanStep(r, f, cur, Slot(r, end + 1), [], fuel);
      if cur == end { ScanEnds(r, f, Slot(r, end + 1), [], fuel - 1); }
      c, b := ScanWhole(r, f, cur + 1, end, ws, fuel - 1);
      c := c + 1;
    } else {
      assert ws[..0] == [];
      b := ScanShape(r, f, cur, end, ws, 0, fuel);
      assert ws[0..b] == ws[..b];
      c := 0;
    }
  }

  /** `c` commit records in a row. */
  ghost predicate Skips(r: Ring, f: seq<Block>, cur: nat, c: nat)
    requires r.start + r.blocks < |f|
    decreases c
  {
    c > 0 ==> cur < r.blocks && ReadSlot(r, f, cur) == Commit && Skips(r, f, cur + 1, c - 1)
  }

  lemma {:induction false} ScanSkips(r: Ring, f: seq<Block>, cur: nat, tail: nat, c: nat, fuel: nat)
    requires r.start + r.blocks < |f| && cur + c < r.blocks && c <= fuel && Skips(r, f, cur, c)
    requires tail < cur || cur + c < tail
    ensures Scan(r, f, cur, tail, [], fuel) == Scan(r, f, cur + c, tail, [], fuel - c)
    decreases c
  {
    if c > 0 { ScanSkips(r, f, cur + 1, tail, c - 1, fuel - 1); }
  }

  /** The one stroke of luck: the commit record was lost and its slot still reads as a data header, stale commit
      records fill the room that record leaves, and what the scan finds behind the tail completes the transaction. */
  ghost predicate LuckyOvershoot(r: Ring, f: seq<Block>, tail: nat, ws: seq<Write>, fuel: nat)
    requires r.start + r.blocks < |f| && StaysOffSlotZero(r, tail, |ws|)
  {
    exists b: nat :: b < |ws| && Overshoots(r, f, tail, ws, b, fuel)
  }

  ghost predicate Overshoots(r: Ring, f: seq<Block>, tail: nat, ws: seq<Write>, b: nat, fuel: nat)
    requires r.start + r.blocks < |f| && StaysOffSlotZero(r, tail, |ws|) && b < |ws|
  {
    var c, end := 2 * (|ws| - b), tail + 2 * |ws|;
    && c + b < fuel && Skips(r, f, tail, c) && RecordsAt(r, f, tail + c, ws[..b])
    && ReadSlot(r, f, end) == Data(ws[b])
    && Scan(r, f, Slot(r, end + 2), Slot(r, end + 1), ws[..b + 1], fuel - c - b - 1) == Done([ws], [])
  }

  lemma OvershootScans(r: Ring, f: seq<Block>, tail: nat, ws: seq<Write>, b: nat, fuel: nat)
    requires r.start + r.blocks < |f| && StaysOffSlotZero(r, tail, |ws|) && b < |ws|
    requires Overshoots(r, f, tail, ws, b, fuel)
    ensures Scan(r, f, tail, Slot(r, tail + 2 * |ws| + 1), [], fuel) == Done([ws], [])
  {
    hide Scan;
    var c, end := 2 * (|ws| - b), tail + 2 * |ws|;
    var tail' := Slot(r, end + 1);
    ScanSkips(r, f, tail, tail', c, fuel);
    LinearMisses(r, tail + c, b, tail');
    ScanRecords(r, f, tail + c, tail', [], ws[..b], fuel - c);
    assert After(r, tail + c, b) == end;
    assert [] + ws[..b] == ws[..b] && ws[..b] + [ws[b]] == ws[..b + 1];
    ScanData(r, f, end, tail', ws[..b], fuel - c - b);
  }

  lemma ScanData(r: Ring, f: seq<Block>, cur: nat, tail: nat, pend: seq<Write>, fuel: nat)
    requires cur < r.blocks && r.start + r.blocks < |f| && cur != tail && 1 <= fuel && ReadSlot(r, f, cur).Data?
    ensures Scan(r, f, cur, tail, pend, fuel)
      == Scan(r, f, Slot(r, cur + 2), tail, pend + [ReadSlot(r, f, cur).write], fuel - 1)
  {}

  /** A scan of the slots a transaction was printed into comes to that transaction alone exactly when it lies
      there, or by that luck. */
  lemma ScanAloneIff(r: Ring, f: seq<Block>, tail: nat, ws: seq<Write>, fuel: nat)
    requires r.start + r.blocks < |f| && StaysOffSlotZero(r, tail, |ws|) && ws != [] && |ws| + 2 <= fuel
    ensures Scan(r, f, tail, Slot(r, tail + 2 * |ws| + 1), [], fuel) == Done([ws], []) <==>
            TxnAt(r, f, tail, ws) || LuckyOvershoot(r, f, tail, ws, fuel)
  {
    hide Scan, Overshoots;
    var end := tail + 2 * |ws|;
    var tail' := Slot(r, end + 1);
    if TxnAt(r, f, tail, ws) {
      ScanTxn(r, f, tail, tail', ws, fuel);
      ScanDone(r, f, tail', fuel - |ws| - 1);
      assert [ws] + [] == [ws];
    }
    if LuckyOvershoot(r, f, tail, ws, fuel) {
      var b: nat :| b < |ws| && Overshoots(r, f, tail, ws, b, fuel);
      OvershootScans(r, f, tail, ws, b, fuel);
    }
    if Scan(r, f, tail, tail', [], fuel) == Done([ws], []) {
      var c, b := ScanWhole(r, f, tail, end, ws, fuel);
      if b == |ws| {
        assert ws[..b] == ws && c == 0;
      } else {
        assert Overshoots(r, f, tail, ws, b, fuel) by { IsOvershoot(r, f, tail, ws, c, b, fuel); }
      }
    }
  }

  lemma ScanDone(r: Ring, f: seq<Block>, tail: nat, fuel: nat)
    requires tail < r.blocks && r.start + r.blocks < |f|
    ensures Scan(r, f, tail, tail, [], fuel) == Done([], [])
  {}

  lemma IsOvershoot(r: Ring, f: seq<Block>, tail: nat, ws: seq<Write>, c: nat, b: nat, fuel: nat)
    requires r.start + r.blocks < |f| && StaysOffSlotZero(r, tail, |ws|) && b < |ws| && c == 2 * (|ws| - b)
    requires c + b < fuel
    requires Skips(r, f, tail, c) && RecordsAt(r, f, tail + c, ws[..b])
    requires var end := tail + 2 * |ws|;
             && ReadSlot(r, f, end) == Data(ws[b])
             && Scan(r, f, Slot(r, end + 2), Slot(r, end + 1), ws[..b + 1], fuel - c - b - 1) == Done([ws], [])
    ensures Overshoots(r, f, tail, ws, b, fuel)
  {}

  /** On a device that reorders, a crash inside a commit that stays off slot 0 may keep the superblock write and
      lose records. Recovery then yields the log and the transaction exactly when every lost block reads as the
      old content of its slot does, or by an overshoot. */
  lemma SurvivingSuperIff(r: Ring, m: Machine, log: seq<seq<Write>>, tid: nat, kept: set<nat>)
    requires Inv(r, m, log) && Pending(m, tid) != [] && StaysOffSlotZero(r, m.sb.tail, |Pending(m, tid)|)
    requires 2 * |Pending(m, tid)| + 1 in kept
    ensures var ws, tail := Pending(m, tid), m.sb.tail;
            var image := Apply(m.disk, Survivors(ExecCommit(r, m, tid).events, kept));
            var sb := Loaded(image[r.start]);
            && |image| == |m.disk| && sb == m.sb.(tail := Slot(r, tail + 2 * |ws| + 1)) && Steps(log) <= r.blocks
            && (Scan(r, image, sb.head, sb.tail, [], r.blocks) == Done(log + [ws], []) <==>
                LostReadSame(r, m.disk, tail, ws, kept) || LuckyOvershoot(r, image, tail, ws, r.blocks - Steps(log)))
  {
    hide Scan, Apply, Survivors, LogHolds, Loaded, LostReadSame, LuckyOvershoot, ExecCommit, TxnAt;
    var ws, head, tail := Pending(m, tid), m.sb.head, m.sb.tail;
    var image := Apply(m.disk, Survivors(ExecCommit(r, m, tid).events, kept));
    RoomFollows(r, m, log, |ws|);
    SurvivingImage(r, m, log, tid, kept);
    hide LogAt, ImageHolds;
    RetainedThenRest(r, image, head, tail, log, ws);
    ScanAloneIff(r, image, tail, ws, r.blocks - Steps(log));
  }

  /** The scan that completes an overshoot runs over slots the commit has left alone: unless the last slot holds the
      commit record or reads as a data header, which leads past slot 0, it is a scan of the device before the call. */
  lemma OvershootReadsDisk(r: Ring, m: Machine, log: seq<seq<Write>>, tid: nat, kept: set<nat>, pend: seq<Write>,
                           fuel: nat)
    requires Inv(r, m, log) && Pending(m, tid) != [] && m.sb.tail + 2 * |Pending(m, tid)| + 2 <= r.blocks
    requires 1 <= m.sb.tail
    requires 2 * |Pending(m, tid)| + 1 in kept && HasRoom(r, m, tid) && !ReadSlot(r, m.disk, r.blocks - 1).Data?
    ensures var end := m.sb.tail + 2 * |Pending(m, tid)|;
            var image := Apply(m.disk, Survivors(ExecCommit(r, m, tid).events, kept));
            && |image| == |m.disk|
            && Scan(r, image, Slot(r, end + 2), Slot(r, end + 1), pend, fuel)
                == Scan(r, m.disk, Slot(r, end + 2), Slot(r, end + 1), pend, fuel)
  {
    hide Scan, Apply, Survivors, LogHolds, Loaded, ExecCommit, SuperBlock, RecordBlock, PartlyPrinted, LogAt, Magic;
    var end, n := m.sb.tail + 2 * |Pending(m, tid)|, PrintedBlocks(r, m, tid);
    var image := Apply(m.disk, Survivors(ExecCommit(r, m, tid).events, kept));
    PrintedFits(r, m, tid);
    InterruptedImage(r, m, tid, kept);
    SuperWriteLoads(ExecCommit(r, m, tid).next.sb);
    if end + 2 == r.blocks {
      ScanUnknown(r, image, end + 1, pend, fuel);
      ScanUnknown(r, m.disk, end + 1, pend, fuel);
    } else {
      SameScanBehind(r, m.disk, image, end + 1, end + 2, pend, fuel);
    }
  }

  /** Behind slot `tail` a scan runs up to the superblock on slot 0. */
  lemma {:induction false} SameScanBehind(r: Ring, d: seq<Block>, f: seq<Block>, tail: nat, cur: nat, pend: seq<Write>,
                                          fuel: nat)
    requires 0 < tail < cur < r.blocks && r.start + r.blocks < |d| == |f|
    requires Magic(d[r.start]) == Magic(f[r.start]) == JOURNAL_MAGIC
    requires forall b :: r.start + tail < b <= r.start + r.blocks ==> f[b] == d[b]
    requires !ReadSlot(r, d, r.blocks - 1).Data?
    ensures Scan(r, f, cur, tail, pend, fuel) == Scan(r, d, cur, tail, pend, fuel)
    decreases fuel, 0
  {
    hide Magic, TargetOf;
    if fuel > 0 {
      assert ReadSlot(r, f, cur) == ReadSlot(r, d, cur);
      match ReadSlot(r, d, cur)
      case Data(w) => SameScanOn(r, d, f, tail, cur + 2, pend + [w], fuel - 1);
      case Commit => SameScanOn(r, d, f, tail, cur + 1, [], fuel - 1);
      case Unknown =>
    }
  }

  lemma {:induction false} SameScanOn(r: Ring, d: seq<Block>, f: seq<Block>, tail: nat, next: nat, pend: seq<Write>,
                                      fuel: nat)
    requires 0 < tail < next <= r.blocks && tail < r.blocks && r.start + r.blocks < |d| == |f|
    requires Magic(d[r.start]) == Magic(f[r.start]) == JOURNAL_MAGIC
    requires forall b :: r.start + tail < b <= r.start + r.blocks ==> f[b] == d[b]
    requires !ReadSlot(r, d, r.blocks - 1).Data?
    ensures Scan(r, f, Slot(r, next), tail, pend, fuel) == Scan(r, d, Slot(r, next), tail, pend, fuel)
    decreases fuel, 1
  {
    hide Magic, TargetOf, Scan;
    if next < r.blocks {
      SameScanBehind(r, d, f, tail, next, pend, fuel);
    } else {
      ScanUnknown(r, f, tail, pend, fuel);
      ScanUnknown(r, d, tail, pend, fuel);
    }
  }

  lemma ScanUnknown(r: Ring, f: seq<Block>, tail: nat, pend: seq<Write>, fuel: nat)
    requires 0 < tail < r.blocks && r.start + r.blocks < |f| && Magic(f[r.start]) == JOURNAL_MAGIC
    ensures Scan(r, f, 0, tail, pend, fuel) == if fuel == 0 then Hung else Done([], pend)
  {}

  /** The image: the new superblock, the log as it was, and of the transaction what survived. */
  lemma SurvivingImage(r: Ring, m: Machine, log: seq<seq<Write>>, tid: nat, kept: set<nat>)
    requires Inv(r, m, log) && Pending(m, tid) != [] && StaysOffSlotZero(r, m.sb.tail, |Pending(m, tid)|)
    requires 2 * |Pending(m, tid)| + 1 in kept && HasRoom(r, m, tid) && 2 * |Pending(m, tid)| + 1 < r.blocks
    ensures var ws, head, tail := Pending(m, tid), m.sb.head, m.sb.tail;
            var image := Apply(m.disk, Survivors(ExecCommit(r, m, tid).events, kept));
            && |image| == |m.disk| && Loaded(image[r.start]) == m.sb.(tail := Slot(r, tail + 2 * |ws| + 1))
            && (TxnAt(r, image, tail, ws) <==> LostReadSame(r, m.disk, tail, ws, kept))
            && EndOf(r, head, tail) == head + Length(log)
            && (log != [] ==>
                  LogHolds(r, image, head, head + Length(log), log) && 1 <= head && head + Length(log) <= r.blocks)
  {
    hide Apply, Survivors, SuperBlock, Magic, LogHolds, Loaded, LostReadSame, RecordBlock, ExecCommit, TxnAt, InSpan;
    hide PartlyPrinted;
    var ws, n, out := Pending(m, tid), PrintedBlocks(r, m, tid), ExecCommit(r, m, tid);
    var image := Apply(m.disk, Survivors(out.events, kept));
    var id: LongWord := tid % 0x1_0000_0000_0000_0000;
    PrintedFits(r, m, tid);
    InterruptedImage(r, m, tid, kept);
    LogStays(r, m.disk, image, m.sb.head, m.sb.tail, log, n);
    SuperWriteLoads(out.next.sb);
    var e := SuperedImage(r, m, tid, kept);
    hide PrintedBlocks, LogAt, ImageHolds, Free, Inv;
    OnlySuperDiffers(r, m.disk, e, image, m.sb.tail, id, ws, n, kept, SuperBlock(out.next.sb));
    TxnAtIff(r, m.disk, e, image, m.sb.tail, id, ws, kept);
  }

  lemma OnlySuperDiffers(r: Ring, d: seq<Block>, e: seq<Block>, f: seq<Block>, tail: nat, txnId: LongWord,
                         ws: seq<Write>, n: nat, kept: set<nat>, super: Block)
    requires n <= 2 * |ws| + 1 && PartlyPrinted(r, d, e, tail, txnId, ws, n, kept) && r.start < |e|
    requires f == e[r.start := super]
    ensures SuperDiffers(r, e, f)
  {}

  /** Such luck: both blocks of a one-write transaction and its commit record are lost, over stale commit records
      and a stale data header that happens to pair with the block behind the tail. */
  lemma OvershootExample(r: Ring, f: seq<Block>, w: Write)
    requires r == Region(0, 7) && |f| == 11 && Magic(f[0]) == JOURNAL_MAGIC
    requires Magic(f[1]) == Magic(f[2]) == Magic(f[5]) == Magic(f[6]) == COMMIT_MAGIC
    requires Magic(f[3]) == DATA_MAGIC && TargetOf(f[3]) == w.target && f[4] == w.data
    ensures Scan(r, f, 1, 4, [], 7) == Done([[w]], []) && !TxnAt(r, f, 1, [w])
  {
    hide Magic, TargetOf;
    assert [] + [w] == [w] && [[w]] + [] == [[w]];
    assert Scan(r, f, 0, 4, [], 2) == Done([], []);
    assert Scan(r, f, 6, 4, [], 3) == Done([], []);
    assert Scan(r, f, 5, 4, [w], 4) == Done([[w]], []);
    assert Scan(r, f, 3, 4, [], 5) == Done([[w]], []);
    assert Scan(r, f, 2, 4, [], 6) == Done([[w]], []);
  }

  /** Recovery takes the image for exactly these transactions. */
  ghost predicate ScansTo(r: Ring, f: seq<Block>, txns: seq<seq<Write>>) {
    && r.start + r.blocks < |f|
    && var sb := Loaded(f[r.start]);
       sb.head < r.blocks && Scan(r, f, sb.head, sb.tail, [], r.blocks) == Done(txns, [])
  }

  /** A device may come to that: it loses all three record blocks of the commit and keeps its superblock. */
  lemma OvershootHappens(r: Ring, m: Machine, tid: nat, w: Write)
    requires r == Region(0, 7) && |m.disk| == 11 && Inv(r, m, []) && m.sb.head == m.sb.tail == 1
    requires Pending(m, tid) == [w]
    requires Magic(m.disk[1]) == Magic(m.disk[2]) == Magic(m.disk[5]) == Magic(m.disk[6]) == COMMIT_MAGIC
    requires Magic(m.disk[3]) == DATA_MAGIC && TargetOf(m.disk[3]) == w.target && m.disk[4] == w.data
    ensures LegalLoss(ExecCommit(r, m, tid).events, 4, {3})
    ensures var image := Apply(m.disk, Survivors(ExecCommit(r, m, tid).events, {3}));
            |image| == 11 && image[1..] == m.disk[1..] && ScansTo(r, image, [[w]])
  {
    hide Apply, SuperBlock, Magic, TargetOf, Scan, RecordWrites, Loaded, LogHolds, ImageHolds;
    CommitEventsAre(r, m, tid);
    var out := ExecCommit(r, m, tid);
    var recs := RecordWrites(r, 1, tid % 0x1_0000_0000_0000_0000, [w], 3);
    PrintedFits(r, m, tid);
    SurvivorsOfFitting(m.disk, recs, SuperWrite(r, out.next.sb), {3});
    NoneSurvive(Pwrites(recs), {3});
    NothingApplied(m.disk);
    SuperWriteLoads(out.next.sb);
    hide ExecCommit, Survivors;
    OvershootExample(r, m.disk[0 := SuperBlock(out.next.sb)], w);
  }

  lemma {:induction false} NoneSurvive(evs: seq<Event>, kept: set<nat>)
    requires forall i :: i in kept ==> i >= |evs|
    ensures Survivors(evs, kept) == []
  {
    if evs != [] { NoneSurvive(evs[..|evs| - 1], kept); }
  }

  lemma NothingApplied(d: seq<Block>)
    ensures Apply(d, []) == d
  {}

  lemma RetainedThenRest(r: Ring, f: seq<Block>, head: nat, tail: nat, log: seq<seq<Write>>, ws: seq<Write>)
    requires r.start + r.blocks < |f| && head < r.blocks && EndOf(r, head, tail) == head + Length(log)
    requires StaysOffSlotZero(r, tail, |ws|) && 2 * |ws| + 1 <= Free(r, head, tail) && ws != []
    requires log != [] ==> LogHolds(r, f, head, head + Length(log), log) && 1 <= head && head + Length(log) <= r.blocks
    ensures var tail' := Slot(r, tail + 2 * |ws| + 1);
            && |ws| + 2 <= r.blocks - Steps(log)
            && (Scan(r, f, head, tail', [], r.blocks) == Done(log + [ws], []) <==>
                Scan(r, f, tail, tail', [], r.blocks - Steps(log)) == Done([ws], []))
  {
    hide Scan, LogHolds, Length, Steps, Free, EndOf, Slot, StaysOffSlotZero;
    var tail' := Slot(r, tail + 2 * |ws| + 1);
    EmptyLogHolds(r, f, head);
    NewTail(r, head, tail, Length(log), |ws|, log == []);
    assert LogHolds(r, f, head, tail, log);
    StepsBound(r, f, head, tail, log);
    ScanThroughLog(r, f, head, tail, tail', log, r.blocks);
    OnlyBehind(log, ws, Scan(r, f, tail, tail', [], r.blocks - Steps(log)));
  }

  /** A commit that stays off slot 0 leaves the pointers in order and its tail behind them or at slot 0. */
  lemma NewTail(r: Ring, head: nat, tail: nat, length: nat, n: nat, none: bool)
    requires head < r.blocks && EndOf(r, head, tail) == head + length
    requires StaysOffSlotZero(r, tail, n) && 2 * n + 1 <= Free(r, head, tail)
    requires if none then length == 0 else 1 <= head && head + length <= r.blocks
    ensures head + length == tail && Slot(r, head) == head && Slot(r, tail) == tail
    ensures var tail' := Slot(r, tail + 2 * n + 1); tail' < head || tail <= tail'
    ensures tail + 2 * n + 1 <= r.blocks && (head == 0 ==> none)
  {}

  lemma EmptyLogHolds(r: Ring, f: seq<Block>, head: nat)
    requires r.start + r.blocks < |f|
    ensures LogHolds(r, f, head, head, []) && Length([]) == 0
  {}

  lemma OnlyBehind(log: seq<seq<Write>>, ws: seq<Write>, rest: Scanned)
    ensures PrependAll(log, rest) == Done(log + [ws], []) <==> rest == Done([ws], [])
  {
    if rest.Done? && log + rest.txns == log + [ws] {
      assert rest.txns == (log + rest.txns)[|log|..] == (log + [ws])[|log|..] == [ws];
    }
  }
}
