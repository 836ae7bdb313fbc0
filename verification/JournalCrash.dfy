/** Crash safety of the journal over whole runs: what every step keeps, and what recovery yields. */
module JournalCrash {
  import opened Blocks
  import opened JournalFormat
  import opened JournalLog
  import opened JournalCommit
  import opened JournalRun
  import opened Options

  // ---------- images compared outside the journal ----------

  ghost predicate HomeEq(r: Region, d: seq<Block>, e: seq<Block>) {
    |d| == |e| && forall b :: 0 <= b < |d| && !InJournal(r, b) ==> d[b] == e[b]
  }

  ghost predicate JournalEq(r: Region, d: seq<Block>, e: seq<Block>) {
    |d| == |e| && forall b :: 0 <= b < |d| && InJournal(r, b) ==> d[b] == e[b]
  }

  lemma {:induction false} HomeEqApply(r: Region, d: seq<Block>, e: seq<Block>, ws: seq<Write>)
    requires HomeEq(r, d, e)
    ensures HomeEq(r, Apply(d, ws), Apply(e, ws))
  {
    if ws != [] { HomeEqApply(r, d, e, ws[..|ws| - 1]); }
  }

  lemma {:induction false} HomeWritesKeepJournal(r: Region, d: seq<Block>, ws: seq<Write>)
    requires AllHome(r, d, ws)
    ensures JournalEq(r, d, Apply(d, ws))
  {
    if ws != [] { HomeWritesKeepJournal(r, d, ws[..|ws| - 1]); }
  }

  /** Every block written in `s` is also written in `ws`. */
  ghost predicate WithinTargets(s: seq<Write>, ws: seq<Write>) {
    forall j :: 0 <= j < |s| ==> Touches(ws, s[j].target)
  }

  /** A half-applied replay, whatever part of it survived, is completed by a full one. */
  lemma ReplayCompletes(d: seq<Block>, s: seq<Write>, ws: seq<Write>)
    requires WithinTargets(s, ws)
    ensures Apply(Apply(d, s), ws) == Apply(d, ws)
  {
    forall b | 0 <= b < |d| && !Touches(ws, b) ensures Apply(d, s)[b] == d[b] {
      ApplyFrame(d, s, b);
    }
    ApplyForgets(Apply(d, s), d, ws);
  }

  // ---------- the invariant ----------

  ghost predicate AllHomeTxns(r: Ring, d: seq<Block>, log: seq<seq<Write>>) {
    forall i :: 0 <= i < |log| ==> AllHome(r, d, log[i])
  }

  /** The image: its superblock block is readable and its pointers frame exactly `log`. */
  ghost predicate ImageHolds(r: Ring, d: seq<Block>, log: seq<seq<Write>>) {
    && r.start + r.blocks < |d| && AllHomeTxns(r, d, log)
    && Magic(d[r.start]) == JOURNAL_MAGIC
    && LogAt(r, d, Loaded(d[r.start]).head, Loaded(d[r.start]).tail, log)
  }

  /** The machine: the in-memory pointers frame the same log as those on the device. */
  ghost predicate Inv(r: Ring, m: Machine, log: seq<seq<Write>>) {
    && Wf(r, m) && ImageHolds(r, m.disk, log)
    && LogAt(r, m.disk, m.sb.head, m.sb.tail, log)
    && (log != [] ==> var sb := Loaded(m.disk[r.start]); sb.head == m.sb.head && sb.tail == m.sb.tail)
  }

  /** After a commit was refused for lack of slots the pointers in memory frame torn records as well, and every
      slot is taken; the device still holds exactly `log`. */
  ghost predicate Jammed(r: Ring, m: Machine, log: seq<seq<Write>>) {
    Wf(r, m) && ImageHolds(r, m.disk, log) && Free(r, m.sb.head, m.sb.tail) == 0
  }

  ghost predicate Safe(r: Ring, m: Machine, log: seq<seq<Write>>) { Inv(r, m, log) || Jammed(r, m, log) }

  lemma FlattenHome(r: Ring, d: seq<Block>, log: seq<seq<Write>>)
    requires AllHomeTxns(r, d, log)
    ensures AllHome(r, d, Flatten(log))
  {
    if log != [] {
      var n := |log| - 1;
      assert forall i :: 0 <= i < n ==> log[..n][i] == log[i];
      FlattenHome(r, d, log[..n]);
      assert AllHome(r, d, log[n]);
    }
  }

  lemma FlattenSnoc(log: seq<seq<Write>>, ws: seq<Write>)
    ensures Flatten(log + [ws]) == Flatten(log) + ws
  {
    assert (log + [ws])[..|log|] == log;
  }

  lemma LogAtFrame(r: Ring, d: seq<Block>, e: seq<Block>, head: nat, tail: nat, log: seq<seq<Write>>)
    requires LogAt(r, d, head, tail, log) && |d| == |e|
    requires forall b :: r.start < b < r.start + r.blocks ==> d[b] == e[b]
    ensures LogAt(r, e, head, tail, log)
  {
    LogSpan(r, d, head, EndOf(r, head, tail), log);
    if log != [] { LogFrame(r, d, e, head, EndOf(r, head, tail), log); }
  }

  lemma ImageFrame(r: Ring, d: seq<Block>, e: seq<Block>, log: seq<seq<Write>>)
    requires ImageHolds(r, d, log) && JournalEq(r, d, e)
    ensures ImageHolds(r, e, log)
  {
    assert d[r.start] == e[r.start];
    LogAtFrame(r, d, e, Loaded(d[r.start]).head, Loaded(d[r.start]).tail, log);
    forall i | 0 <= i < |log| ensures AllHome(r, e, log[i]) { assert AllHome(r, d, log[i]); }
  }

  /** Reopening a good image re-establishes the invariant. */
  lemma ReopenHolds(r: Ring, d: seq<Block>, log: seq<seq<Write>>)
    requires ImageHolds(r, d, log)
    ensures Inv(r, Reopen(r, d), log)
  {}

  /** What recovery makes of a good image: the log applied, in order and whole. */
  lemma RecoveredAppliesLog(r: Ring, d: seq<Block>, log: seq<seq<Write>>)
    requires ImageHolds(r, d, log)
    ensures Recovered(r, d) == Apply(d, Flatten(log))
  {
    var sb := Loaded(d[r.start]);
    ReadersAgree(r, d, sb.head, sb.tail, log);
  }

  // ---------- commit ----------

  lemma {:induction false} RecordTargets(r: Ring, tail: nat, tid: LongWord, ws: seq<Write>, n: nat, i: nat)
    requires i < n <= 2 * |ws| + 1 && tail < r.blocks && n < r.blocks
    ensures InSpan(r, tail, n, RecordWrites(r, tail, tid, ws, n)[i].target)
    decreases n
  {
    hide RecordBlock;
    if i < n - 1 { RecordTargets(r, tail, tid, ws, n - 1, i); }
  }

  /** None of the `n` slots from `tail` is slot 0. */
  predicate OffSlotZero(r: Ring, tail: nat, n: nat) { n == 0 || (1 <= tail && tail + n <= r.blocks) }

  /** Before the superblock write a commit only fills free slots, so whatever part of it survives
      changes neither the log nor the home blocks. */
  lemma UnpublishedCommit(r: Ring, m: Machine, log: seq<seq<Write>>, n: nat, s: seq<Write>)
    requires Inv(r, m, log) && OffSlotZero(r, m.sb.tail, n)
    requires AllInSpan(r, m.sb.tail, n, s)
    ensures ImageHolds(r, Apply(m.disk, s), log) && HomeEq(r, m.disk, Apply(m.disk, s))
  {
    hide LogHolds, Magic, Loaded;
    var d, tail := m.disk, m.sb.tail;
    var f := Apply(d, s);
    forall b | 0 <= b < |d| && !InSpan(r, tail, n, b) ensures f[b] == d[b] {
      ApplyFrame(d, s, b);
    }
    assert f[r.start] == d[r.start];
    if log != [] {
      LogSpan(r, d, m.sb.head, EndOf(r, m.sb.head, tail), log);
      LogFrame(r, d, f, m.sb.head, EndOf(r, m.sb.head, tail), log);
    } else {
      LogAtFrame(r, d, d, Loaded(d[r.start]).head, Loaded(d[r.start]).tail, log);
      EmptyLogAt(r, d, f, Loaded(d[r.start]).head, Loaded(d[r.start]).tail);
    }
    forall i | 0 <= i < |log| ensures AllHome(r, f, log[i]) { assert AllHome(r, d, log[i]); }
  }

  lemma EmptyLogAt(r: Ring, d: seq<Block>, e: seq<Block>, head: nat, tail: nat)
    requires LogAt(r, d, head, tail, []) && |d| == |e|
    ensures LogAt(r, e, head, tail, [])
  {}

  lemma SuperWriteLoads(sb: JournalSuper)
    requires WellSized(sb)
    ensures Magic(SuperBlock(sb)) == JOURNAL_MAGIC
    ensures sb.head != 0 || sb.tail != 0 ==> Loaded(SuperBlock(sb)) == sb
    ensures sb.head == 0 && sb.tail == 0 ==> Loaded(SuperBlock(sb)) == sb.(head := 1, tail := 1)
  {
    SuperRoundTrip(sb);
  }

  /** With the superblock write the transaction is part of the log, in memory and on the device. */
  lemma PublishedCommit(r: Ring, m: Machine, log: seq<seq<Write>>, tid: LongWord, ws: seq<Write>, m': Machine)
    requires Inv(r, m, log) && StaysOffSlotZero(r, m.sb.tail, |ws|) && ws != [] && AllHome(r, m.disk, ws)
    requires 2 * |ws| + 1 < r.blocks && m'.sb == m.sb.(tail := Slot(r, m.sb.tail + 2 * |ws| + 1))
    requires m'.disk == Apply(m.disk, RecordWrites(r, m.sb.tail, tid, ws, 2 * |ws| + 1))[r.start := SuperBlock(m'.sb)]
    ensures Inv(r, m', log + [ws]) && HomeEq(r, m.disk, m'.disk)
  {
    hide LogHolds, RecordWrites, Apply, SuperBlock, RecordBlock, Magic;
    var d, tail := m.disk, m.sb.tail;
    var e := Apply(d, RecordWrites(r, tail, tid, ws, 2 * |ws| + 1));
    assert Printed(r, d, e, tail, tid, ws, 2 * |ws| + 1) by { PrintedByWrites(r, d, tail, tid, ws, 2 * |ws| + 1); }
    assert LogAt(r, m'.disk, m'.sb.head, m'.sb.tail, log + [ws]) by {
      CommitAppends(r, d, e, m'.disk, m.sb.head, tail, log, tid, ws);
    }
    assert Magic(m'.disk[r.start]) == JOURNAL_MAGIC && Loaded(m'.disk[r.start]) == m'.sb by { SuperWriteLoads(m'.sb); }
    forall i | 0 <= i < |log + [ws]| ensures AllHome(r, m'.disk, (log + [ws])[i]) {
      if i < |log| { assert AllHome(r, d, log[i]); }
    }
  }

  // ---------- checkpoint ----------

  /** Moving the head to the tail empties the log. */
  lemma ReleasedHolds(r: Ring, m: Machine, m': Machine)
    requires Wf(r, m) && |m'.disk| == |m.disk| && m'.sb == Released(m.sb)
    requires m'.disk[r.start] == SuperBlock(m'.sb)
    ensures Inv(r, m', [])
  {
    SuperWriteLoads(m'.sb);
  }

  // ---------- steps and runs ----------

  /** One thing that happens to the journal: an operation runs to its end, or the power fails after
      `k` of its device events, `kept` of them on the medium, and the device is opened again. */
  datatype Step = Do(op: Op) | Crash(op: Op, k: nat, kept: set<nat>)

  function Perform(r: Ring, m: Machine, step: Step): Machine
    requires Wf(r, m)
  {
    match step
    case Do(op) => Exec(r, m, op).next
    case Crash(op, _, kept) => Reopen(r, Apply(m.disk, Survivors(Exec(r, m, op).events, kept)))
  }

  /** The writes a commit of `tid` would publish. */
  function Pending(m: Machine, tid: nat): seq<Write> {
    if tid in m.txns && m.txns[tid].state == Active then m.txns[tid].writes else []
  }

  /** The superblock write that publishes `n` writes survives only together with all their records.
      The code puts no barrier between them, so this is asked of the device; one that writes back in
      order meets it. */
  ghost predicate SuperLast(n: nat, kept: set<nat>) {
    2 * n + 1 in kept ==> forall i :: 0 <= i < 2 * n + 1 ==> i in kept
  }

  predicate HasRoom(r: Ring, m: Machine, tid: nat) {
    2 * |Pending(m, tid)| + 1 <= Free(r, m.sb.head, m.sb.tail)
  }

  /** How many slots a commit of `tid` prints into, whether it then succeeds or is refused. */
  function PrintedBlocks(r: Ring, m: Machine, tid: nat): nat {
    var n, free := |Pending(m, tid)|, Free(r, m.sb.head, m.sb.tail);
    if n == 0 || free < 0 then 0 else if free < 2 * n + 1 then 2 * TornRecords(free, n) else 2 * n + 1
  }

  /** The pointers in memory lead a sweep, and a scan, to what those on the device lead them to. Only a refused
      commit can make a difference here: `FailedCommitHarmlessIff` says when it does not. */
  predicate SweepsAsOnDisk(r: Ring, m: Machine)
    requires Wf(r, m)
  {
    var sb := Loaded(m.disk[r.start]);
    sb.head < r.blocks &&
    Sweep(r, m.disk, m.sb.head, m.sb.tail, r.blocks) == Sweep(r, m.disk, sb.head, sb.tail, r.blocks)
  }

  predicate ScansAsOnDisk(r: Ring, m: Machine)
    requires Wf(r, m)
  {
    var sb := Loaded(m.disk[r.start]);
    sb.head < r.blocks &&
    var scan, onDisk := Scan(r, m.disk, m.sb.head, m.sb.tail, [], r.blocks),
      Scan(r, m.disk, sb.head, sb.tail, [], r.blocks);
    scan.Done? && onDisk.Done? && scan.txns == onDisk.txns
  }

  /** Commits stay off slot 0, refused ones too, and those that have room name home blocks; checkpoints and
      recoveries find what the device would lead them to; devices lose only what they may. */
  ghost predicate Allowed(r: Ring, m: Machine, step: Step)
    requires Wf(r, m)
  {
    && (step.op.CommitTxn? ==>
          && OffSlotZero(r, m.sb.tail, PrintedBlocks(r, m, step.op.tid))
          && (HasRoom(r, m, step.op.tid) ==> AllHome(r, m.disk, Pending(m, step.op.tid))))
    && (step.op.Checkpoint? ==> SweepsAsOnDisk(r, m))
    && (step.op.Recover? ==> ScansAsOnDisk(r, m))
    && (step.Crash? ==> LegalLoss(Exec(r, m, step.op).events, step.k, step.kept))
    && (step.Crash? && step.op.CommitTxn? && HasRoom(r, m, step.op.tid) ==>
          SuperLast(|Pending(m, step.op.tid)|, step.kept))
  }

  /** Unless a commit has been refused, checkpoints and recoveries need no leave. */
  lemma PointersAgree(r: Ring, m: Machine, log: seq<seq<Write>>)
    requires Inv(r, m, log)
    ensures SweepsAsOnDisk(r, m) && ScansAsOnDisk(r, m)
  {
    hide Scan, Sweep, LogHolds, Flatten;
    ReadersAgree(r, m.disk, m.sb.head, m.sb.tail, log);
    ReadersAgree(r, m.disk, Loaded(m.disk[r.start]).head, Loaded(m.disk[r.start]).tail, log);
  }

  /** The step wrote the superblock that ends it, and that write is on the device. */
  ghost predicate SuperSurvives(r: Ring, out: Outcome, step: Step) {
    WellSized(out.next.sb) &&
    exists i: nat ::
      i < |out.events| && out.events[i] == Pwrite(SuperWrite(r, out.next.sb)) && (step.Do? || i in step.kept)
  }

  /** The transaction whose superblock write reached the device in this step, if any. */
  ghost function Published(r: Ring, m: Machine, step: Step): seq<seq<Write>>
    requires Wf(r, m)
  {
    if step.op.CommitTxn? && Pending(m, step.op.tid) != [] && SuperSurvives(r, Exec(r, m, step.op), step) then
      [Pending(m, step.op.tid)]
    else []
  }

  /** The events of a commit: its records, then, if it had room, superblock and barriers. */
  lemma CommitEventsAre(r: Ring, m: Machine, tid: nat)
    requires Wf(r, m) && Pending(m, tid) != []
    ensures var ws, n, out := Pending(m, tid), PrintedBlocks(r, m, tid), ExecCommit(r, m, tid);
            var recs := RecordWrites(r, m.sb.tail, tid % 0x1_0000_0000_0000_0000, ws, n);
            && Wf(r, out.next) && n <= 2 * |ws| + 1 && n < r.blocks && out.ok == HasRoom(r, m, tid)
            && (forall i :: 0 <= i < n ==> i < |out.events| && out.events[i] == Pwrite(recs[i]))
            && (HasRoom(r, m, tid) ==>
                  && n == 2 * |ws| + 1 && |out.events| == n + 3 && out.events[n] == Pwrite(SuperWrite(r, out.next.sb))
                  && out.events[n + 1] == Fsync && out.events[n + 2] == Fsync)
            && (!HasRoom(r, m, tid) ==>
                  && out.events == Pwrites(recs) && Free(r, out.next.sb.head, out.next.sb.tail) == 0
                  && out.next.disk == Apply(m.disk, recs))
  {
    hide Apply, RecordWrites, SuperBlock;
  }

  /** Among the events of a commit that stays off slot 0 only the last write is the superblock's. */
  lemma PublishedIs(r: Ring, m: Machine, step: Step)
    requires Wf(r, m) && step.op.CommitTxn? && Pending(m, step.op.tid) != []
    requires OffSlotZero(r, m.sb.tail, PrintedBlocks(r, m, step.op.tid))
    ensures var ws := Pending(m, step.op.tid);
            Published(r, m, step) ==
              if HasRoom(r, m, step.op.tid) && (step.Do? || 2 * |ws| + 1 in step.kept) then [ws] else []
  {
    hide Apply, RecordWrites, SuperBlock, RecordBlock;
    var ws, tail, n := Pending(m, step.op.tid), m.sb.tail, PrintedBlocks(r, m, step.op.tid);
    var id: LongWord := step.op.tid % 0x1_0000_0000_0000_0000;
    var out := Exec(r, m, step.op);
    CommitEventsAre(r, m, step.op.tid);
    forall i | 0 <= i < n ensures out.events[i].w.target != r.start {
      RecordTargets(r, tail, id, ws, n, i);
    }
    if HasRoom(r, m, step.op.tid) && (step.Do? || n in step.kept) {
      assert SuperSurvives(r, out, step);
    }
  }

  /** Home blocks as recovery would leave them, before and after: the published writes are added. */
  ghost predicate Adds(r: Ring, d: seq<Block>, log: seq<seq<Write>>, e: seq<Block>, log': seq<seq<Write>>,
                       pub: seq<seq<Write>>) {
    HomeEq(r, Apply(e, Flatten(log')), Apply(Apply(d, Flatten(log)), Flatten(pub)))
  }

  lemma AddsNothing(r: Ring, d: seq<Block>, log: seq<seq<Write>>, e: seq<Block>)
    requires HomeEq(r, d, e)
    ensures Adds(r, d, log, e, log, [])
  {
    HomeEqApply(r, d, e, Flatten(log));
  }

  lemma AddsOne(r: Ring, d: seq<Block>, log: seq<seq<Write>>, e: seq<Block>, ws: seq<Write>)
    requires HomeEq(r, d, e)
    ensures Adds(r, d, log, e, log + [ws], [ws])
  {
    HomeEqApply(r, d, e, Flatten(log));
    HomeEqApply(r, Apply(d, Flatten(log)), Apply(e, Flatten(log)), ws);
    FlattenSnoc(log, ws);
    ApplyConcat(e, Flatten(log), ws);
    FlattenSnoc([], ws);
    assert [] + [ws] == [ws] && [] + ws == ws;
  }

  /** A step without device events leaves the image alone. */
  lemma IdleStep(r: Ring, m: Machine, log: seq<seq<Write>>, step: Step)
    requires Safe(r, m, log) && Exec(r, m, step.op).events == []
    requires Exec(r, m, step.op).next.disk == m.disk && Exec(r, m, step.op).next.sb == m.sb
    ensures Safe(r, Perform(r, m, step), log) && (Inv(r, m, log) ==> Inv(r, Perform(r, m, step), log))
    ensures Adds(r, m.disk, log, Perform(r, m, step).disk, log, [])
  {
    hide Exec, Apply;
    assert Survivors([], {}) == [];
    if step.Crash? {
      assert Survivors([], step.kept) == [];
      NoWrites(m.disk);
      ReopenHolds(r, m.disk, log);
    }
    AddsNothing(r, m.disk, log, m.disk);
  }

  lemma NoWrites(d: seq<Block>)
    ensures Apply(d, []) == d
  {}

  lemma RoomFollows(r: Ring, m: Machine, log: seq<seq<Write>>, n: nat)
    requires Inv(r, m, log) && StaysOffSlotZero(r, m.sb.tail, n)
    ensures 2 * n + 1 <= Free(r, m.sb.head, m.sb.tail) && 2 * n + 1 < r.blocks
  {
    LogSpan(r, m.disk, m.sb.head, EndOf(r, m.sb.head, m.sb.tail), log);
  }

  /** With its superblock write all of a commit survives; without it only records do. */
  lemma CommitSurvivors(r: Ring, sb: JournalSuper, tid: LongWord, ws: seq<Write>, kept: set<nat>)
    requires WellSized(sb) && sb.tail < r.blocks && 2 * |ws| + 1 < r.blocks && SuperLast(|ws|, kept)
    ensures var n := 2 * |ws| + 1;
            var recs := RecordWrites(r, sb.tail, tid, ws, n);
            Survivors(CommitEvents(r, sb, tid, ws), kept) ==
              if n in kept then recs + [SuperWrite(r, sb.(tail := Slot(r, sb.tail + n)))]
              else Survivors(Pwrites(recs), kept)
  {
    hide RecordWrites, SuperWrite;
    var n := 2 * |ws| + 1;
    var recs := RecordWrites(r, sb.tail, tid, ws, n);
    var super := SuperWrite(r, sb.(tail := Slot(r, sb.tail + n)));
    var evs := Pwrites(recs);
    SurvivorsSnoc(evs, Pwrite(super), kept);
    SurvivorsSnoc(evs + [Pwrite(super)], Fsync, kept);
    SurvivorsSnoc(evs + [Pwrite(super)] + [Fsync], Fsync, kept);
    if n in kept { SurvivorsKeptAll(recs, kept); }
  }

  lemma SurvivorsInSpan(r: Ring, tail: nat, tid: LongWord, ws: seq<Write>, n: nat, kept: set<nat>)
    requires n <= 2 * |ws| + 1 && tail < r.blocks && n < r.blocks
    ensures AllInSpan(r, tail, n, RecordWrites(r, tail, tid, ws, n))
    ensures AllInSpan(r, tail, n, Survivors(Pwrites(RecordWrites(r, tail, tid, ws, n)), kept))
  {
    hide Survivors, RecordWrites, InSpan;
    var recs := RecordWrites(r, tail, tid, ws, n);
    forall i | 0 <= i < n ensures InSpan(r, tail, n, recs[i].target) { RecordTargets(r, tail, tid, ws, n, i); }
    var s := Survivors(Pwrites(recs), kept);
    forall j | 0 <= j < |s| ensures InSpan(r, tail, n, s[j].target) {
      var i := SurvivorsAreEvents(Pwrites(recs), kept, j);
    }
  }

  /** Every write goes to one of the `n` slots from `tail`. */
  ghost predicate AllInSpan(r: Ring, tail: nat, n: nat, s: seq<Write>) {
    forall j :: 0 <= j < |s| ==> InSpan(r, tail, n, s[j].target)
  }

  /** A commit that is refused for lack of slots: the device keeps the log it held. */
  lemma RefusedStep(r: Ring, m: Machine, log: seq<seq<Write>>, step: Step)
    requires Safe(r, m, log) && step.op.CommitTxn? && Allowed(r, m, step)
    requires Pending(m, step.op.tid) != [] && !HasRoom(r, m, step.op.tid)
    ensures Safe(r, Perform(r, m, step), log) && Published(r, m, step) == []
    ensures Adds(r, m.disk, log, Perform(r, m, step).disk, log, [])
  {
    hide Apply, Survivors, RecordWrites, LogHolds, SuperBlock, Magic, Flatten, CommitEvents, Published, LogAt;
    hide ExecCommit;
    PublishedIs(r, m, step);
    var ws, n := Pending(m, step.op.tid), PrintedBlocks(r, m, step.op.tid);
    if Inv(r, m, log) {
      CommitEventsAre(r, m, step.op.tid);
      var id: LongWord := step.op.tid % 0x1_0000_0000_0000_0000;
      var torn := RecordWrites(r, m.sb.tail, id, ws, n);
      var s := if step.Crash? then Survivors(Pwrites(torn), step.kept) else torn;
      SurvivorsInSpan(r, m.sb.tail, id, ws, n, if step.Crash? then step.kept else {});
      UnpublishedCommit(r, m, log, n, s);
      if step.Crash? { ReopenHolds(r, Apply(m.disk, s), log); }
      AddsNothing(r, m.disk, log, Apply(m.disk, s));
    } else {
      NothingTorn(r, m, step.op.tid);
      IdleStep(r, m, log, step);
    }
  }

  /** On a full ring a refused commit writes nothing. */
  lemma NothingTorn(r: Ring, m: Machine, tid: nat)
    requires Wf(r, m) && Pending(m, tid) != [] && Free(r, m.sb.head, m.sb.tail) == 0
    ensures var out := ExecCommit(r, m, tid); out.events == [] && out.next.disk == m.disk && out.next.sb == m.sb
  {
    hide SuperBlock, CommitEvents;
  }

  lemma CommitStep(r: Ring, m: Machine, log: seq<seq<Write>>, step: Step) returns (log': seq<seq<Write>>)
    requires Safe(r, m, log) && step.op.CommitTxn? && Allowed(r, m, step)
    ensures Safe(r, Perform(r, m, step), log')
    ensures Adds(r, m.disk, log, Perform(r, m, step).disk, log', Published(r, m, step))
    ensures Inv(r, m, log) && (Pending(m, step.op.tid) == [] || HasRoom(r, m, step.op.tid)) ==>
      Inv(r, Perform(r, m, step), log')
  {
    hide Apply, Survivors, RecordWrites, LogHolds, SuperBlock, Magic, Flatten, CommitEvents, SuperSurvives, Adds;
    hide Perform;
    var ws := Pending(m, step.op.tid);
    log' := log;
    if ws == [] {
      NothingToCommit(r, m, step.op.tid);
      IdleStep(r, m, log, step);
    } else if !HasRoom(r, m, step.op.tid) {
      RefusedStep(r, m, log, step);
    } else {
      log' := FittingStep(r, m, log, step);
    }
  }

  lemma NothingToCommit(r: Ring, m: Machine, tid: nat)
    requires Wf(r, m) && Pending(m, tid) == []
    ensures var out := ExecCommit(r, m, tid); out.events == [] && out.next.disk == m.disk && out.next.sb == m.sb
  {
    hide Apply, RecordWrites, SuperBlock, CommitEvents;
  }

  /** A commit that has room. */
  lemma FittingStep(r: Ring, m: Machine, log: seq<seq<Write>>, step: Step) returns (log': seq<seq<Write>>)
    requires Inv(r, m, log) && step.op.CommitTxn? && Allowed(r, m, step)
    requires Pending(m, step.op.tid) != [] && HasRoom(r, m, step.op.tid)
    ensures Inv(r, Perform(r, m, step), log')
    ensures Adds(r, m.disk, log, Perform(r, m, step).disk, log', Published(r, m, step))
  {
    hide Inv, Adds, Perform, Published, Allowed;
    PublishedAs(r, m, log, step);
    if step.Do? || 2 * |Pending(m, step.op.tid)| + 1 in step.kept {
      log' := log + [Pending(m, step.op.tid)];
      FittingWhole(r, m, log, step);
    } else {
      log' := log;
      FittingLost(r, m, log, step);
    }
  }

  lemma PublishedAs(r: Ring, m: Machine, log: seq<seq<Write>>, step: Step)
    requires Inv(r, m, log) && step.op.CommitTxn? && Allowed(r, m, step)
    requires Pending(m, step.op.tid) != [] && HasRoom(r, m, step.op.tid)
    ensures var ws := Pending(m, step.op.tid);
            Published(r, m, step) == if step.Do? || 2 * |ws| + 1 in step.kept then [ws] else []
  {
    hide LogAt, Published, ExecCommit;
    PublishedIs(r, m, step);
  }

  /** Its superblock write reaches the device. */
  lemma FittingWhole(r: Ring, m: Machine, log: seq<seq<Write>>, step: Step)
    requires Inv(r, m, log) && step.op.CommitTxn? && Allowed(r, m, step)
    requires Pending(m, step.op.tid) != [] && HasRoom(r, m, step.op.tid)
    requires step.Do? || 2 * |Pending(m, step.op.tid)| + 1 in step.kept
    ensures var ws := Pending(m, step.op.tid);
            && Inv(r, Perform(r, m, step), log + [ws])
            && Adds(r, m.disk, log, Perform(r, m, step).disk, log + [ws], [ws])
  {
    hide Apply, Survivors, RecordWrites, LogHolds, SuperBlock, Magic, Flatten, CommitEvents;
    var ws := Pending(m, step.op.tid);
    var n, tid := 2 * |ws| + 1, step.op.tid % 0x1_0000_0000_0000_0000;
    RoomFollows(r, m, log, |ws|);
    var recs, full := RecordWrites(r, m.sb.tail, tid, ws, n), Exec(r, m, step.op).next;
    PublishedCommit(r, m, log, tid, ws, full);
    if step.Crash? { CommitSurvivors(r, m.sb, tid, ws, step.kept); }
    ApplySnoc(m.disk, recs, SuperWrite(r, full.sb));
    AddsOne(r, m.disk, log, full.disk, ws);
  }

  /** It does not. */
  lemma FittingLost(r: Ring, m: Machine, log: seq<seq<Write>>, step: Step)
    requires Inv(r, m, log) && step.op.CommitTxn? && Allowed(r, m, step)
    requires Pending(m, step.op.tid) != [] && HasRoom(r, m, step.op.tid)
    requires step.Crash? && 2 * |Pending(m, step.op.tid)| + 1 !in step.kept
    ensures Inv(r, Perform(r, m, step), log) && Adds(r, m.disk, log, Perform(r, m, step).disk, log, [])
  {
    hide Apply, Survivors, RecordWrites, LogHolds, SuperBlock, Magic, Flatten, CommitEvents;
    var ws := Pending(m, step.op.tid);
    var n, tid := 2 * |ws| + 1, step.op.tid % 0x1_0000_0000_0000_0000;
    RoomFollows(r, m, log, |ws|);
    CommitSurvivors(r, m.sb, tid, ws, step.kept);
    var s := Survivors(Pwrites(RecordWrites(r, m.sb.tail, tid, ws, n)), step.kept);
    SurvivorsInSpan(r, m.sb.tail, tid, ws, n, step.kept);
    UnpublishedCommit(r, m, log, n, s);
    AddsNothing(r, m.disk, log, Apply(m.disk, s));
  }

  // ---------- checkpoint and recovery steps ----------

  /** The image a checkpoint interrupted before its superblock write leaves, and that of any
      interrupted or finished recovery: some of the log's writes, `s`, have gone home. */
  lemma HalfReplayed(r: Ring, d: seq<Block>, log: seq<seq<Write>>, s: seq<Write>)
    requires ImageHolds(r, d, log) && WithinTargets(s, Flatten(log))
    ensures var e := Apply(d, s);
            JournalEq(r, d, e) && ImageHolds(r, e, log) && Adds(r, d, log, e, log, [])
  {
    FlattenHome(r, d, log);
    assert AllHome(r, d, s) by {
      forall j | 0 <= j < |s| ensures IsHome(r, d, s[j].target) {
        assert Touches(Flatten(log), s[j].target);
      }
    }
    HomeWritesKeepJournal(r, d, s);
    ImageFrame(r, d, Apply(d, s), log);
    ReplayCompletes(d, s, Flatten(log));
  }

  lemma SurvivorsWithin(evs: seq<Event>, kept: set<nat>, ws: seq<Write>)
    requires forall i :: 0 <= i < |evs| && i in kept && evs[i].Pwrite? ==> Touches(ws, evs[i].w.target)
    ensures WithinTargets(Survivors(evs, kept), ws)
  {
    forall j | 0 <= j < |Survivors(evs, kept)| ensures Touches(ws, Survivors(evs, kept)[j].target) {
      var i := SurvivorsAreEvents(evs, kept, j);
    }
  }

  /** What a checkpoint and a recovery find between the pointers, after a refused commit as well. */
  lemma ReadersFind(r: Ring, m: Machine, log: seq<seq<Write>>)
    requires Safe(r, m, log)
    ensures m.sb.head == m.sb.tail ==> log == [] && Inv(r, m, log)
    ensures SweepsAsOnDisk(r, m) ==> Sweep(r, m.disk, m.sb.head, m.sb.tail, r.blocks) == Some(Flatten(log))
    ensures ScansAsOnDisk(r, m) ==>
      var scan := Scan(r, m.disk, m.sb.head, m.sb.tail, [], r.blocks); scan.Done? && scan.txns == log
  {
    hide Scan, Sweep, LogHolds, Flatten;
    var sb := Loaded(m.disk[r.start]);
    ReadersAgree(r, m.disk, sb.head, sb.tail, log);
    if Inv(r, m, log) && m.sb.head == m.sb.tail { NothingBetween(r, m.disk, m.sb.head, log); }
  }

  lemma RecoverStep(r: Ring, m: Machine, log: seq<seq<Write>>, step: Step)
    requires Safe(r, m, log) && step.op.Recover? && Allowed(r, m, step)
    ensures Safe(r, Perform(r, m, step), log)
    ensures Adds(r, m.disk, log, Perform(r, m, step).disk, log, [])
  {
    hide Scan, Survivors, Apply, Flatten, LogHolds;
    var ws, d := Flatten(log), m.disk;
    var evs := Exec(r, m, step.op).events;
    ReadersFind(r, m, log);
    hide ScansAsOnDisk;
    if m.sb.head == m.sb.tail {
      IdleStep(r, m, log, step);
    } else if step.Crash? {
      SurvivorsWithin(evs, step.kept, ws);
      HalfReplayed(r, d, log, Survivors(evs, step.kept));
    } else {
      HalfReplayed(r, d, log, ws);
      if Inv(r, m, log) { LogAtFrame(r, d, Apply(d, ws), m.sb.head, m.sb.tail, log); }
    }
  }

  /** The two interpreters agree: on every log that successful commits printed, `recover` and `checkpoint`
      leave the same home blocks, those of the log applied in order; recovering once more changes nothing. */
  lemma InterpretersAgree(r: Ring, m: Machine, log: seq<seq<Write>>)
    requires Inv(r, m, log)
    ensures var recovered, swept := ExecRecover(r, m).next, ExecCheckpoint(r, m).next;
            && Wf(r, recovered) && recovered.disk == Apply(m.disk, Flatten(log))
            && HomeEq(r, swept.disk, recovered.disk)
            && ExecRecover(r, recovered).next == recovered
    ensures Wf(r, m) && |Recovered(r, m.disk)| == |m.disk|
            && HomeEq(r, Recovered(r, m.disk), ExecCheckpoint(r, m).next.disk)
            && Recovered(r, Recovered(r, m.disk)) == Recovered(r, m.disk)
  {
    hide Scan, Sweep, Flatten, LogHolds, SuperBlock;
    var ws := Flatten(log);
    var e := Apply(m.disk, ws);
    ReadersAgree(r, m.disk, m.sb.head, m.sb.tail, log);
    RecoveredAppliesLog(r, m.disk, log);
    SelfWithin(ws);
    HalfReplayed(r, m.disk, log, ws);
    LogAtFrame(r, m.disk, e, m.sb.head, m.sb.tail, log);
    ReadersAgree(r, e, m.sb.head, m.sb.tail, log);
    RecoveredAppliesLog(r, e, log);
    ReplayCompletes(m.disk, ws, ws);
    if m.sb.head == m.sb.tail { NothingBetween(r, m.disk, m.sb.head, log); }
  }

  lemma SelfWithin(ws: seq<Write>)
    ensures WithinTargets(ws, ws)
  {}

  lemma NothingBetween(r: Ring, d: seq<Block>, pos: nat, log: seq<seq<Write>>)
    requires LogAt(r, d, pos, pos, log)
    ensures log == [] && Flatten(log) == [] && Apply(d, Flatten(log)) == d
  {
    LogSpan(r, d, pos, pos, log);
  }

  /** If the checkpoint's superblock write survived, so did every home write: they precede a barrier. */
  lemma CheckpointCrashImage(r: Ring, m: Machine, ws: seq<Write>, k: nat, kept: set<nat>)
    requires Wf(r, m) && LegalLoss(CheckpointEvents(r, m.sb, ws), k, kept) && |ws| + 1 in kept
    ensures Apply(m.disk, Survivors(CheckpointEvents(r, m.sb, ws), kept))
         == Apply(m.disk, ws)[r.start := SuperBlock(Released(m.sb))]
  {
    var super := SuperWrite(r, Released(m.sb));
    var evs := Pwrites(ws);
    assert CheckpointEvents(r, m.sb, ws)[|ws|].Fsync?;
    assert forall i :: 0 <= i < |ws| ==> i < |ws| < k ==> i in kept;
    SurvivorsKeptAll(ws, kept);
    SurvivorsSnoc(evs, Fsync, kept);
    SurvivorsSnoc(evs + [Fsync], Pwrite(super), kept);
    SurvivorsSnoc(evs + [Fsync] + [Pwrite(super)], Fsync, kept);
    assert ws + [] == ws && ws + [super] + [] == ws + [super];
    ApplySnoc(m.disk, ws, super);
  }

  /** Without its superblock write a checkpoint leaves only home writes. */
  lemma CheckpointWithin(r: Ring, sb: JournalSuper, ws: seq<Write>, kept: set<nat>)
    requires WellSized(sb) && |ws| + 1 !in kept
    ensures WithinTargets(Survivors(CheckpointEvents(r, sb, ws), kept), ws)
  {
    hide Survivors;
    forall i | 0 <= i < |ws| ensures Touches(ws, ws[i].target) {}
    SurvivorsWithin(CheckpointEvents(r, sb, ws), kept, ws);
  }

  /** Once the whole log has gone home it may be dropped. */
  lemma AddsHome(r: Ring, d: seq<Block>, log: seq<seq<Write>>, e: seq<Block>)
    requires HomeEq(r, Apply(d, Flatten(log)), e)
    ensures Adds(r, d, log, e, [], [])
  {
    NoWrites(e);
    NoWrites(Apply(d, Flatten(log)));
  }

  lemma CheckpointStep(r: Ring, m: Machine, log: seq<seq<Write>>, step: Step) returns (log': seq<seq<Write>>)
    requires Safe(r, m, log) && step.op.Checkpoint? && Allowed(r, m, step)
    ensures Inv(r, Perform(r, m, step), log')
    ensures Adds(r, m.disk, log, Perform(r, m, step).disk, log', [])
  {
    hide Scan, Survivors, Apply, Flatten, LogHolds, SuperBlock, CheckpointEvents;
    var ws := Flatten(log);
    var d, m' := m.disk, Perform(r, m, step);
    ReadersFind(r, m, log);
    hide SweepsAsOnDisk;
    if m.sb.head == m.sb.tail {
      log' := log;
      IdleStep(r, m, log, step);
    } else {
      var full := Exec(r, m, step.op).next;
      ReleasedHolds(r, m, full);
      if step.Do? || |ws| + 1 in step.kept {
        log' := [];
        if step.Crash? { CheckpointCrashImage(r, m, ws, step.k, step.kept); }
        AddsHome(r, d, log, m'.disk);
      } else {
        log' := log;
        CheckpointWithin(r, m.sb, ws, step.kept);
        HalfReplayed(r, d, log, Survivors(CheckpointEvents(r, m.sb, ws), step.kept));
      }
    }
  }

  // ---------- whole runs ----------

  lemma StepKeeps(r: Ring, m: Machine, log: seq<seq<Write>>, step: Step) returns (log': seq<seq<Write>>)
    requires Safe(r, m, log) && Allowed(r, m, step)
    ensures Safe(r, Perform(r, m, step), log')
    ensures Adds(r, m.disk, log, Perform(r, m, step).disk, log', Published(r, m, step))
  {
    hide Adds, ImageHolds, LogAt, Apply, Survivors, ExecCommit, ExecCheckpoint, ExecRecover;
    log' := log;
    match step.op
    case CommitTxn(_) => log' := CommitStep(r, m, log, step);
    case Checkpoint => log' := CheckpointStep(r, m, log, step);
    case Recover => RecoverStep(r, m, log, step);
    case _ => IdleStep(r, m, log, step);
  }

  /** A run; it stops where the superblock no longer makes sense. */
  function RunAll(r: Ring, m: Machine, steps: seq<Step>): Machine
    decreases |steps|
  {
    if steps == [] || !Wf(r, m) then m else RunAll(r, Perform(r, m, steps[0]), steps[1..])
  }

  ghost predicate AllAllowed(r: Ring, m: Machine, steps: seq<Step>)
    decreases |steps|
  {
    steps != [] ==> Wf(r, m) && Allowed(r, m, steps[0]) && AllAllowed(r, Perform(r, m, steps[0]), steps[1..])
  }

  /** The transactions of a run whose superblock write reached the device, in order. */
  ghost function PublishedIn(r: Ring, m: Machine, steps: seq<Step>): seq<seq<Write>>
    decreases |steps|
  {
    if steps == [] || !Wf(r, m) then []
    else Published(r, m, steps[0]) + PublishedIn(r, Perform(r, m, steps[0]), steps[1..])
  }

  lemma {:induction false} FlattenConcat(a: seq<seq<Write>>, b: seq<seq<Write>>)
    ensures Flatten(a + b) == Flatten(a) + Flatten(b)
  {
    if b == [] {
      assert a + b == a;
    } else {
      var n := |b| - 1;
      FlattenConcat(a, b[..n]);
      assert (a + b)[..|a| + n] == a + b[..n];
    }
  }

  lemma AddsThenAdds(r: Ring, d: seq<Block>, log: seq<seq<Write>>,
                     e: seq<Block>, log1: seq<seq<Write>>, p1: seq<seq<Write>>,
                     f: seq<Block>, log2: seq<seq<Write>>, p2: seq<seq<Write>>)
    requires Adds(r, d, log, e, log1, p1) && Adds(r, e, log1, f, log2, p2)
    ensures Adds(r, d, log, f, log2, p1 + p2)
  {
    HomeEqApply(r, Apply(e, Flatten(log1)), Apply(Apply(d, Flatten(log)), Flatten(p1)), Flatten(p2));
    FlattenConcat(p1, p2);
    ApplyConcat(Apply(d, Flatten(log)), Flatten(p1), Flatten(p2));
  }

  lemma {:induction false} RunKeeps(r: Ring, m: Machine, log: seq<seq<Write>>, steps: seq<Step>)
    returns (log': seq<seq<Write>>)
    requires Safe(r, m, log) && AllAllowed(r, m, steps)
    ensures Safe(r, RunAll(r, m, steps), log')
    ensures Adds(r, m.disk, log, RunAll(r, m, steps).disk, log', PublishedIn(r, m, steps))
    decreases |steps|
  {
    hide Adds, ImageHolds, LogAt, Perform, Published, Allowed;
    if steps == [] {
      log' := log;
      AddsNothing(r, m.disk, log, m.disk);
    } else {
      var m1 := Perform(r, m, steps[0]);
      var log1 := StepKeeps(r, m, log, steps[0]);
      log' := RunKeeps(r, m1, log1, steps[1..]);
      AddsThenAdds(r, m.disk, log, m1.disk, log1, Published(r, m, steps[0]),
                   RunAll(r, m1, steps[1..]).disk, log', PublishedIn(r, m1, steps[1..]));
    }
  }

  /** Crash atomicity: whatever run of operations, refused commits and power failures brought the machine here,
      recovery now leaves on the home blocks what they held (after recovery) at the start plus the published
      transactions, each whole, in order, and nothing else. */
  lemma RunIsAtomic(r: Ring, m: Machine, log: seq<seq<Write>>, steps: seq<Step>)
    requires Safe(r, m, log) && AllAllowed(r, m, steps)
    ensures r.start + r.blocks < |m.disk| && r.start + r.blocks < |RunAll(r, m, steps).disk|
    ensures HomeEq(r, Recovered(r, RunAll(r, m, steps).disk),
                   Apply(Recovered(r, m.disk), Flatten(PublishedIn(r, m, steps))))
  {
    var log' := RunKeeps(r, m, log, steps);
    RecoveredAppliesLog(r, m.disk, log);
    RecoveredAppliesLog(r, RunAll(r, m, steps).disk, log');
  }

  // ---------- durability ----------

  /** A step whose commit of a non-empty transaction returned Ok. */
  predicate Acks(r: Ring, m: Machine, step: Step)
    requires Wf(r, m)
  {
    step.Do? && step.op.CommitTxn? && Exec(r, m, step.op).ok && Pending(m, step.op.tid) != []
  }

  /** Before commit returns Ok it has written the superblock that publishes the transaction. */
  lemma AckPublishes(r: Ring, m: Machine, step: Step)
    requires Wf(r, m) && Acks(r, m, step)
    ensures Published(r, m, step) == [Pending(m, step.op.tid)]
  {
    hide Apply, RecordWrites, SuperBlock;
    var ws, out := Pending(m, step.op.tid), Exec(r, m, step.op);
    assert out.events[2 * |ws| + 1] == Pwrite(SuperWrite(r, out.next.sb));
  }

  /** A run cut in two. */
  lemma {:induction false} RunSplits(r: Ring, m: Machine, a: seq<Step>, b: seq<Step>)
    requires AllAllowed(r, m, a + b)
    ensures AllAllowed(r, m, a) && AllAllowed(r, RunAll(r, m, a), b)
    ensures RunAll(r, m, a + b) == RunAll(r, RunAll(r, m, a), b)
    decreases |a|
  {
    hide Perform, Allowed;
    if a == [] {
      assert a + b == b;
    } else {
      assert (a + b)[0] == a[0] && (a + b)[1..] == a[1..] + b;
      RunSplits(r, Perform(r, m, a[0]), a[1..], b);
    }
  }

  /** Durability: in any run, once commit has returned Ok and no transaction published later names the block,
      recovery leaves on it what the transaction last wrote there. */
  lemma AckedIsDurable(r: Ring, m: Machine, log: seq<seq<Write>>, before: seq<Step>, commit: Step, later: seq<Step>,
                       j: nat)
    requires Safe(r, m, log) && AllAllowed(r, m, before + ([commit] + later))
    requires var at := RunAll(r, m, before);
             && Wf(r, at) && Acks(r, at, commit)
             && var ws := Pending(at, commit.op.tid);
             && j < |ws| && (forall i :: j < i < |ws| ==> ws[i].target != ws[j].target)
             && !Touches(Flatten(PublishedIn(r, Perform(r, at, commit), later)), ws[j].target)
    ensures var end := RunAll(r, m, before + ([commit] + later)).disk;
            var w := Pending(RunAll(r, m, before), commit.op.tid)[j];
            r.start + r.blocks < |end| && w.target < |Recovered(r, end)| && Recovered(r, end)[w.target] == w.data
  {
    hide Allowed, Recovered, Apply, Flatten, Published, HomeEq, Perform, Adds, ImageHolds, LogAt, ExecCommit, Safe;
    var at, rest := RunAll(r, m, before), [commit] + later;
    RunSplits(r, m, before, rest);
    var log1 := RunKeeps(r, m, log, before);
    RunIsAtomic(r, at, log1, rest);
    var ws := Pending(at, commit.op.tid);
    var after := PublishedIn(r, Perform(r, at, commit), later);
    AckPublishes(r, at, commit);
    assert rest[1..] == later;
    assert PublishedIn(r, at, rest) == [ws] + after;
    FlattenCons(ws, after);
    AckedHome(r, at, commit);
    assert IsHome(r, at.disk, ws[j].target);
    LastOfTwo(Recovered(r, at.disk), ws, Flatten(after), j);
    SameAtHome(r, Recovered(r, RunAll(r, at, rest).disk), Apply(Recovered(r, at.disk), ws + Flatten(after)),
      ws[j].target);
  }

  lemma AckedHome(r: Ring, m: Machine, commit: Step)
    requires Wf(r, m) && Acks(r, m, commit) && Allowed(r, m, commit)
    ensures AllHome(r, m.disk, Pending(m, commit.op.tid)) && |Recovered(r, m.disk)| == |m.disk|
  {
    hide Apply, RecordWrites, SuperBlock, Scan;
  }

  /** A write that nothing behind it overwrites decides its block. */
  lemma LastOfTwo(d: seq<Block>, a: seq<Write>, b: seq<Write>, j: nat)
    requires j < |a| && a[j].target < |d| && (forall i :: j < i < |a| ==> a[i].target != a[j].target)
    requires !Touches(b, a[j].target)
    ensures Apply(d, a + b)[a[j].target] == a[j].data
  {
    hide Apply;
    forall i | j < i < |a + b| ensures (a + b)[i].target != a[j].target {
      if i >= |a| { assert (a + b)[i] == b[i - |a|]; }
    }
    ApplyLastWriter(d, a + b, j);
  }

  lemma SameAtHome(r: Ring, d: seq<Block>, e: seq<Block>, b: nat)
    requires HomeEq(r, d, e) && b < |e| && !InJournal(r, b)
    ensures b < |d| && d[b] == e[b]
  {}

  /** What mkfs writes: an empty log with both pointers at slot 1. */
  lemma FreshJournal(r: Ring, d: seq<Block>, sb: JournalSuper)
    requires r.start + r.blocks < |d| && WellSized(sb) && sb.head == sb.tail == 1 && d[r.start] == SuperBlock(sb)
    ensures Inv(r, Reopen(r, d), [])
  {
    SuperWriteLoads(sb);
  }

  /** An image of the old format, both pointers 0, opens as an empty log behind the superblock's slot. */
  lemma OldFormatOpens(r: Ring, d: seq<Block>, sb: JournalSuper)
    requires r.start + r.blocks < |d| && WellSized(sb) && sb.head == sb.tail == 0 && d[r.start] == SuperBlock(sb)
    ensures Inv(r, Reopen(r, d), []) && Reopen(r, d).sb == sb.(head := 1, tail := 1)
  {
    SuperWriteLoads(sb);
  }
}
