/** The journal as a step machine over a device that can lose power: whole runs of
    begin / write / commit / abort / checkpoint / recover with crashes inside any of them. */
module JournalRun {
  import opened Blocks
  import opened JournalFormat
  import opened JournalLog
  import opened JournalCommit
  import opened Options

  // ---------- device events and what a crash leaves of them ----------

  datatype Event = Pwrite(w: Write) | Fsync

  function Pwrites(ws: seq<Write>): (evs: seq<Event>)
    ensures |evs| == |ws|
  {
    seq(|ws|, i requires 0 <= i < |ws| => Pwrite(ws[i]))
  }

  /** The writes among `evs` whose index is in `kept`, in order. */
  function Survivors(evs: seq<Event>, kept: set<nat>): seq<Write> {
    if evs == [] then []
    else
      var n := |evs| - 1;
      Survivors(evs[..n], kept) + if evs[n].Pwrite? && n in kept then [evs[n].w] else []
  }

  /** A crash after `k` events may lose any write not yet followed by a completed fsync. */
  ghost predicate LegalLoss(evs: seq<Event>, k: nat, kept: set<nat>) {
    && k <= |evs|
    && (forall i :: i in kept ==> i < k)
    && (forall i, j :: 0 <= i < j < k && evs[j].Fsync? ==> i in kept)
  }

  lemma SurvivorsSnoc(evs: seq<Event>, e: Event, kept: set<nat>)
    ensures Survivors(evs + [e], kept) == Survivors(evs, kept) + if e.Pwrite? && |evs| in kept then [e.w] else []
  {
    assert (evs + [e])[..|evs|] == evs;
  }

  lemma {:induction false} SurvivorsKeptAll(ws: seq<Write>, kept: set<nat>)
    requires forall i :: 0 <= i < |ws| ==> i in kept
    ensures Survivors(Pwrites(ws), kept) == ws
  {
    if ws != [] {
      var n := |ws| - 1;
      SurvivorsKeptAll(ws[..n], kept);
      assert Pwrites(ws) == Pwrites(ws[..n]) + [Pwrite(ws[n])];
      SurvivorsSnoc(Pwrites(ws[..n]), Pwrite(ws[n]), kept);
    }
  }

  lemma {:induction false} SurvivorsAreEvents(evs: seq<Event>, kept: set<nat>, j: nat) returns (i: nat)
    requires j < |Survivors(evs, kept)|
    ensures i < |evs| && i in kept && evs[i] == Pwrite(Survivors(evs, kept)[j])
  {
    var n := |evs| - 1;
    if j < |Survivors(evs[..n], kept)| {
      i := SurvivorsAreEvents(evs[..n], kept, j);
    } else {
      i := n;
    }
  }

  // ---------- the machine ----------

  datatype TxnState = Active | Committed | Aborted
  datatype Txn = Txn(writes: seq<Write>, state: TxnState)

  /** The device, the in-memory superblock and the transactions clients hold. */
  datatype Machine = Machine(disk: seq<Block>, sb: JournalSuper, txns: map<nat, Txn>, nextTid: nat)

  datatype Op =
    | BeginTxn
    | WriteTxn(tid: nat, target: Word, data: seq<Byte>)
    | CommitTxn(tid: nat)
    | AbortTxn(tid: nat)
    | Checkpoint
    | Recover

  datatype Outcome = Outcome(next: Machine, events: seq<Event>, ok: bool)

  predicate Wf(r: Ring, m: Machine) {
    && r.start + r.blocks < |m.disk| && WellSized(m.sb)
    && m.sb.head < r.blocks && m.sb.tail < r.blocks
  }

  function SuperWrite(r: Ring, sb: JournalSuper): Write
    requires WellSized(sb)
  {
    Write(r.start, SuperBlock(sb))
  }

  /** A commit with room: the records, then the superblock that publishes them, then two barriers. */
  function CommitEvents(r: Ring, sb: JournalSuper, tid: LongWord, ws: seq<Write>): seq<Event>
    requires WellSized(sb) && sb.tail < r.blocks && 2 * |ws| + 1 < r.blocks
  {
    Pwrites(RecordWrites(r, sb.tail, tid, ws, 2 * |ws| + 1))
    + [Pwrite(SuperWrite(r, sb.(tail := Slot(r, sb.tail + 2 * |ws| + 1))))] + [Fsync] + [Fsync]
  }

  function ExecCommit(r: Ring, m: Machine, tid: nat): Outcome
    requires Wf(r, m)
  {
    if tid !in m.txns || m.txns[tid].state != Active then Outcome(m, [], false)
    else
      var ws, sb := m.txns[tid].writes, m.sb;
      var done := m.txns[tid := Txn(ws, Committed)];
      var free := Free(r, sb.head, sb.tail);
      if ws == [] then Outcome(m.(txns := done), [], true)
      else if free < 2 * |ws| + 1 then
        var torn := RecordWrites(r, sb.tail, tid % 0x1_0000_0000_0000_0000, ws, 2 * TornRecords(free, |ws|));
        Outcome(m.(disk := Apply(m.disk, torn), sb := sb.(tail := Slot(r, sb.tail + free))), Pwrites(torn), false)
      else
        var printed := RecordWrites(r, sb.tail, tid % 0x1_0000_0000_0000_0000, ws, 2 * |ws| + 1);
        var sb' := sb.(tail := Slot(r, sb.tail + 2 * |ws| + 1));
        Outcome(Machine(Apply(m.disk, printed)[r.start := SuperBlock(sb')], sb', done, m.nextTid),
                CommitEvents(r, sb, tid % 0x1_0000_0000_0000_0000, ws), true)
  }

  /** Every data record goes home, then a barrier, then the head moves, then a barrier. */
  function CheckpointEvents(r: Ring, sb: JournalSuper, ws: seq<Write>): seq<Event>
    requires WellSized(sb)
  {
    Pwrites(ws) + [Fsync] + [Pwrite(SuperWrite(r, Released(sb)))] + [Fsync]
  }

  function Released(sb: JournalSuper): JournalSuper {
    sb.(head := sb.tail, sequence := (sb.sequence + 1) % 0x1_0000_0000_0000_0000)
  }

  /** A sweep that never meets the tail never returns; the machine then stays where it is. */
  function ExecCheckpoint(r: Ring, m: Machine): Outcome
    requires Wf(r, m)
  {
    if m.sb.head == m.sb.tail then Outcome(m, [], true)
    else match Sweep(r, m.disk, m.sb.head, m.sb.tail, r.blocks)
      case None => Outcome(m, [], false)
      case Some(ws) =>
        var sb' := Released(m.sb);
        Outcome(m.(disk := Apply(m.disk, ws)[r.start := SuperBlock(sb')], sb := sb'), CheckpointEvents(r, m.sb, ws),
          true)
  }

  function ExecRecover(r: Ring, m: Machine): Outcome
    requires Wf(r, m)
  {
    if m.sb.head == m.sb.tail then Outcome(m, [], true)
    else match Scan(r, m.disk, m.sb.head, m.sb.tail, [], r.blocks)
      case Hung => Outcome(m, [], false)
      case Done(txns, _) =>
        Outcome(m.(disk := Apply(m.disk, Flatten(txns))), Pwrites(Flatten(txns)) + [Fsync], true)
  }

  function Exec(r: Ring, m: Machine, op: Op): Outcome
    requires Wf(r, m)
  {
    match op
    case BeginTxn =>
      Outcome(m.(txns := m.txns[m.nextTid := Txn([], Active)], nextTid := m.nextTid + 1), [], true)
    case WriteTxn(tid, target, data) =>
      if tid in m.txns && m.txns[tid].state == Active && |data| == BLOCK_SIZE then
        Outcome(m.(txns := m.txns[tid := Txn(m.txns[tid].writes + [Write(target, data)], Active)]), [], true)
      else Outcome(m, [], false)
    case CommitTxn(tid) => ExecCommit(r, m, tid)
    case AbortTxn(tid) =>
      if tid in m.txns && m.txns[tid].state == Active then
        Outcome(m.(txns := m.txns[tid := m.txns[tid].(state := Aborted)]), [], true)
      else Outcome(m, [], false)
    case Checkpoint => ExecCheckpoint(r, m)
    case Recover => ExecRecover(r, m)
  }

  /** `new` on an image: pointers (0, 0) are the old format and mean (1, 1). */
  function Loaded(b: Block): (sb: JournalSuper)
    ensures WellSized(sb)
  {
    var sb := DecodeSuper(b);
    if sb.head == 0 && sb.tail == 0 then sb.(head := 1, tail := 1) else sb
  }

  function Reopen(r: Ring, d: seq<Block>): Machine
    requires r.start < |d|
  {
    Machine(d, Loaded(d[r.start]), map[], 1)
  }

  /** Mount after a crash: what the blocks hold once `recover` has replayed the log. */
  function Recovered(r: Ring, d: seq<Block>): seq<Block>
    requires r.start + r.blocks < |d|
  {
    var sb := Loaded(d[r.start]);
    if sb.head >= r.blocks then d
    else match Scan(r, d, sb.head, sb.tail, [], r.blocks)
      case Hung => d
      case Done(txns, _) => Apply(d, Flatten(txns))
  }
}
