/** A transaction over a run: what was written to it, whatever else went on, is what its commit publishes; and
    once it has ended nothing moves it again. */
module JournalTxn {
  import opened Blocks
  import opened JournalCommit
  import opened JournalCrash
  import opened JournalFormat
  import opened JournalLog
  import opened JournalRun
  import opened Options

  // ---------- one operation ----------

  /** Operations that name a transaction. */
  predicate Names(op: Op, tid: nat) {
    match op
    case WriteTxn(t, _, _) => t == tid
    case CommitTxn(t) => t == tid
    case AbortTxn(t) => t == tid
    case _ => false
  }

  /** The machine stays well formed, ids are never handed out twice, and only operations that name it change a
      transaction. */
  lemma OthersStay(r: Ring, m: Machine, op: Op, tid: nat)
    requires Wf(r, m) && tid < m.nextTid
    ensures var next := Exec(r, m, op).next;
            && Wf(r, next) && tid < next.nextTid && |next.disk| == |m.disk|
            && (tid in m.txns ==> tid in next.txns)
            && (!Names(op, tid) ==>
                  (tid in next.txns ==> tid in m.txns) && (tid in m.txns ==> next.txns[tid] == m.txns[tid]))
  {
    hide Apply, RecordWrites, SuperBlock, CommitEvents, Sweep, Scan, CheckpointEvents, Flatten;
  }

  /** Until its commit a transaction is in memory only. */
  predicate InMemory(op: Op) { op.BeginTxn? || op.WriteTxn? || op.AbortTxn? }

  lemma NothingReachesDevice(r: Ring, m: Machine, op: Op)
    requires Wf(r, m) && InMemory(op)
    ensures var out := Exec(r, m, op); out.events == [] && out.next.disk == m.disk && out.next.sb == m.sb
  {}

  /** A refused commit leaves the transaction as it was; any other end is final. */
  lemma HowItEnds(r: Ring, m: Machine, tid: nat)
    requires Wf(r, m) && tid in m.txns && m.txns[tid].state == Active
    ensures var out := Exec(r, m, CommitTxn(tid));
            tid in out.next.txns && out.next.txns[tid] == m.txns[tid].(state := if out.ok then Committed else Active)
    ensures var out := Exec(r, m, AbortTxn(tid));
            out.ok && tid in out.next.txns && out.next.txns[tid] == m.txns[tid].(state := Aborted)
  {
    hide Apply, RecordWrites, SuperBlock, CommitEvents;
  }

  // ---------- the history of a transaction ----------

  function Doing(ops: seq<Op>): (steps: seq<Step>)
    ensures |steps| == |ops|
  {
    seq(|ops|, i requires 0 <= i < |ops| => Do(ops[i]))
  }

  /** The blocks handed to transaction `tid`, in order; data of any other length is refused. */
  function WrittenTo(ops: seq<Op>, tid: nat): seq<Write> {
    if ops == [] then []
    else
      (match ops[0]
       case WriteTxn(t, target, data) => if t == tid && |data| == BLOCK_SIZE then [Write(target, data)] else []
       case _ => []) + WrittenTo(ops[1..], tid)
  }

  /** Nobody ends the transaction. */
  predicate LeavesOpen(ops: seq<Op>, tid: nat) { CommitTxn(tid) !in ops && AbortTxn(tid) !in ops }

  lemma DoingRest(ops: seq<Op>)
    requires ops != []
    ensures Doing(ops)[0] == Do(ops[0]) && Doing(ops)[1..] == Doing(ops[1..])
  {}

  /** Whatever else the run does, to other transactions or to the device, an open transaction has gathered exactly
      the blocks written to it. */
  lemma {:induction false} PendingIsHistory(r: Ring, m: Machine, ops: seq<Op>, tid: nat)
    requires Wf(r, m) && tid < m.nextTid && tid in m.txns && m.txns[tid].state == Active && LeavesOpen(ops, tid)
    ensures var end := RunAll(r, m, Doing(ops));
            && Wf(r, end) && tid in end.txns
            && end.txns[tid] == Txn(m.txns[tid].writes + WrittenTo(ops, tid), Active)
    decreases |ops|
  {
    hide Exec, Wf, WrittenTo;
    if ops == [] {
      NothingWritten(m.txns[tid].writes, tid);
    } else {
      DoingRest(ops);
      OthersStay(r, m, ops[0], tid);
      WriteGathers(r, m, ops[0], tid);
      PendingIsHistory(r, Exec(r, m, ops[0]).next, ops[1..], tid);
      WrittenFirst(m.txns[tid].writes, ops, tid);
    }
  }

  lemma NothingWritten(was: seq<Write>, tid: nat)
    ensures was + WrittenTo([], tid) == was
  {}

  lemma WrittenFirst(was: seq<Write>, ops: seq<Op>, tid: nat)
    requires ops != []
    ensures was + WrittenTo([ops[0]], tid) + WrittenTo(ops[1..], tid) == was + WrittenTo(ops, tid)
  {
    assert [ops[0]][1..] == [];
    assert WrittenTo([ops[0]], tid) + WrittenTo(ops[1..], tid) == WrittenTo(ops, tid);
  }

  lemma WriteGathers(r: Ring, m: Machine, op: Op, tid: nat)
    requires Wf(r, m) && tid < m.nextTid && tid in m.txns && m.txns[tid].state == Active
    requires op != CommitTxn(tid) && op != AbortTxn(tid)
    ensures var next := Exec(r, m, op).next;
            tid in next.txns && next.txns[tid] == Txn(m.txns[tid].writes + WrittenTo([op], tid), Active)
  {
    assert [op][1..] == [];
    assert m.txns[tid].writes + [] == m.txns[tid].writes;
    if Names(op, tid) {
      assert op.WriteTxn?;
    } else {
      hide Exec;
      OthersStay(r, m, op, tid);
    }
  }

  /** From its begin on. */
  lemma TransactionIsItsWrites(r: Ring, m: Machine, ops: seq<Op>)
    requires Wf(r, m) && LeavesOpen(ops, m.nextTid)
    ensures var end := RunAll(r, m, [Do(BeginTxn)] + Doing(ops));
            Wf(r, end) && Pending(end, m.nextTid) == WrittenTo(ops, m.nextTid)
  {
    hide RunAll;
    BeginOpens(r, m);
    var m1 := Exec(r, m, BeginTxn).next;
    PendingIsHistory(r, m1, ops, m.nextTid);
    assert [] + WrittenTo(ops, m.nextTid) == WrittenTo(ops, m.nextTid);
    RunFirst(r, m, BeginTxn, Doing(ops));
  }

  lemma BeginOpens(r: Ring, m: Machine)
    requires Wf(r, m)
    ensures var next := Exec(r, m, BeginTxn).next;
            && Wf(r, next) && m.nextTid < next.nextTid && m.nextTid in next.txns
            && next.txns[m.nextTid] == Txn([], Active)
  {}

  lemma RunFirst(r: Ring, m: Machine, op: Op, rest: seq<Step>)
    requires Wf(r, m)
    ensures RunAll(r, m, [Do(op)] + rest) == RunAll(r, Exec(r, m, op).next, rest)
    ensures PublishedIn(r, m, [Do(op)] + rest) == Published(r, m, Do(op)) + PublishedIn(r, Exec(r, m, op).next, rest)
  {
    hide Exec, Published;
    assert ([Do(op)] + rest)[1..] == rest;
  }

  // ---------- its commit ----------

  /** The commit behind such a run succeeds exactly when there is room, and the run has then published, last of all,
      exactly what was written to the transaction. */
  lemma CommitPublishesWrites(r: Ring, m: Machine, ops: seq<Op>)
    requires Wf(r, m) && LeavesOpen(ops, m.nextTid) && WrittenTo(ops, m.nextTid) != []
    ensures var run, commit := [Do(BeginTxn)] + Doing(ops), CommitTxn(m.nextTid);
            var end, ws := RunAll(r, m, run), WrittenTo(ops, m.nextTid);
            && Wf(r, end)
            && (Exec(r, end, commit).ok <==> 2 * |ws| + 1 <= Free(r, end.sb.head, end.sb.tail))
            && (Exec(r, end, commit).ok ==> PublishedIn(r, m, run + [Do(commit)]) == PublishedIn(r, m, run) + [ws])
  {
    hide RunAll, PublishedIn, Published, Exec, Wf;
    var run, commit := [Do(BeginTxn)] + Doing(ops), CommitTxn(m.nextTid);
    var end := RunAll(r, m, run);
    TransactionIsItsWrites(r, m, ops);
    OkIffRoom(r, end, m.nextTid);
    if Exec(r, end, commit).ok {
      AckPublishes(r, end, Do(commit));
      PublishedLast(r, m, run, Do(commit));
    }
  }

  lemma OkIffRoom(r: Ring, m: Machine, tid: nat)
    requires Wf(r, m) && Pending(m, tid) != []
    ensures Exec(r, m, CommitTxn(tid)).ok <==> HasRoom(r, m, tid)
  {
    hide Apply, RecordWrites, SuperBlock, CommitEvents;
  }

  lemma {:induction false} PublishedLast(r: Ring, m: Machine, steps: seq<Step>, last: Step)
    requires Wf(r, RunAll(r, m, steps))
    ensures PublishedIn(r, m, steps + [last])
         == PublishedIn(r, m, steps) + Published(r, RunAll(r, m, steps), last)
    decreases |steps|
  {
    hide Perform, Published, Wf;
    if steps == [] {
      assert [] + [last] == [last] && [last][1..] == [];
    } else {
      assert (steps + [last])[0] == steps[0] && (steps + [last])[1..] == steps[1..] + [last];
      if Wf(r, m) { PublishedLast(r, Perform(r, m, steps[0]), steps[1..], last); }
    }
  }

  /** One write after the other. */
  function Writing(tid: nat, ws: seq<Write>): seq<Op> {
    if ws == [] then [] else [WriteTxn(tid, ws[0].target, ws[0].data)] + Writing(tid, ws[1..])
  }

  lemma {:induction false} WritingWrites(tid: nat, ws: seq<Write>)
    ensures WrittenTo(Writing(tid, ws), tid) == ws && LeavesOpen(Writing(tid, ws), tid)
    ensures forall op :: op in Writing(tid, ws) ==> InMemory(op)
  {
    if ws != [] {
      WritingWrites(tid, ws[1..]);
      assert Writing(tid, ws)[1..] == Writing(tid, ws[1..]);
    }
  }

  lemma {:induction false} MemoryRun(r: Ring, m: Machine, ops: seq<Op>)
    requires Wf(r, m) && forall op :: op in ops ==> InMemory(op)
    ensures var end := RunAll(r, m, Doing(ops));
            end.disk == m.disk && end.sb == m.sb && PublishedIn(r, m, Doing(ops)) == []
    ensures AllAllowed(r, m, Doing(ops))
    decreases |ops|
  {
    hide Exec;
    if ops != [] {
      DoingRest(ops);
      NothingReachesDevice(r, m, ops[0]);
      MemoryRun(r, Exec(r, m, ops[0]).next, ops[1..]);
    }
  }

  /** Begin, write a list of blocks, commit, and the power may fail in the commit: afterwards recovery yields the
      whole list on top of what it would have yielded before, or nothing of it, and all of it if the commit returned
      Ok. */
  lemma WrittenIsRecovered(r: Ring, m: Machine, log: seq<seq<Write>>, ws: seq<Write>, commit: Step)
    requires Safe(r, m, log) && ws != [] && commit.op == CommitTxn(m.nextTid)
    requires var run := [Do(BeginTxn)] + Doing(Writing(m.nextTid, ws));
             Wf(r, RunAll(r, m, run)) && Allowed(r, RunAll(r, m, run), commit)
    ensures var run := [Do(BeginTxn)] + Doing(Writing(m.nextTid, ws));
            var at, end := RunAll(r, m, run), RunAll(r, m, run + [commit]);
            && r.start + r.blocks < |m.disk| && r.start + r.blocks < |end.disk|
            && HomeEq(r, Recovered(r, end.disk),
                      if SuperSurvives(r, Exec(r, at, commit.op), commit) then Apply(Recovered(r, m.disk), ws)
                      else Recovered(r, m.disk))
            && (commit.Do? && Exec(r, at, commit.op).ok ==> SuperSurvives(r, Exec(r, at, commit.op), commit))
  {
    hide Allowed, Recovered, Apply, Exec, HomeEq, SuperSurvives, Flatten, Perform, Safe;
    var ops := Writing(m.nextTid, ws);
    var run := [Do(BeginTxn)] + Doing(ops);
    var at := RunAll(r, m, run);
    WritingWrites(m.nextTid, ws);
    TransactionIsItsWrites(r, m, ops);
    assert Doing([BeginTxn] + ops) == run;
    MemoryRun(r, m, [BeginTxn] + ops);
    AllowedBehind(r, m, run, commit);
    RunIsAtomic(r, m, log, run + [commit]);
    PublishedLast(r, m, run, commit);
    var pub := Published(r, at, commit);
    assert pub == if SuperSurvives(r, Exec(r, at, commit.op), commit) then [ws] else [];
    assert PublishedIn(r, m, run + [commit]) == [] + pub == pub;
    OneFlat(ws);
    SameThroughNothing(Recovered(r, m.disk));
    if commit.Do? && Exec(r, at, commit.op).ok { AckPublishes(r, at, commit); }
  }

  lemma {:induction false} AllowedBehind(r: Ring, m: Machine, steps: seq<Step>, last: Step)
    requires AllAllowed(r, m, steps) && Wf(r, RunAll(r, m, steps)) && Allowed(r, RunAll(r, m, steps), last)
    ensures AllAllowed(r, m, steps + [last])
    decreases |steps|
  {
    hide Perform, Allowed, Wf;
    if steps == [] {
      assert [] + [last] == [last] && [last][1..] == [];
    } else {
      assert (steps + [last])[0] == steps[0] && (steps + [last])[1..] == steps[1..] + [last];
      AllowedBehind(r, Perform(r, m, steps[0]), steps[1..], last);
    }
  }

  lemma OneFlat(ws: seq<Write>)
    ensures Flatten([ws]) == ws && Flatten([]) == []
  {
    assert [ws][..0] == [];
    assert [] + ws == ws;
  }

  lemma SameThroughNothing(d: seq<Block>)
    ensures Apply(d, []) == d
  {}

  // ---------- after its end ----------

  /** A transaction that was committed or aborted stays so over any run, accepts no write, and no commit of it
      publishes anything or sends the device anything. */
  lemma {:induction false} EndedForGood(r: Ring, m: Machine, ops: seq<Op>, tid: nat)
    requires Wf(r, m) && tid < m.nextTid && tid in m.txns && m.txns[tid].state != Active
    ensures var end := RunAll(r, m, Doing(ops));
            && Wf(r, end) && tid in end.txns && end.txns[tid] == m.txns[tid] && Pending(end, tid) == []
            && forall op :: Names(op, tid) ==> Exec(r, end, op) == Outcome(end, [], false)
    decreases |ops|
  {
    hide Wf;
    if ops == [] {
    } else {
      hide Exec;
      DoingRest(ops);
      OthersStay(r, m, ops[0], tid);
      RefusedAfterEnd(r, m, ops[0], tid);
      EndedForGood(r, Exec(r, m, ops[0]).next, ops[1..], tid);
    }
  }

  lemma RefusedAfterEnd(r: Ring, m: Machine, op: Op, tid: nat)
    requires Wf(r, m) && tid in m.txns && m.txns[tid].state != Active
    ensures Names(op, tid) ==> Exec(r, m, op) == Outcome(m, [], false)
  {}

  // ---------- the sequence number ----------

  /** Checkpoints that had something to release. */
  function Releases(r: Ring, m: Machine, ops: seq<Op>): nat
    decreases |ops|
  {
    if ops == [] || !Wf(r, m) then 0
    else
      (if ops[0].Checkpoint? && m.sb.head != m.sb.tail && Exec(r, m, ops[0]).ok then 1 else 0)
      + Releases(r, Exec(r, m, ops[0]).next, ops[1..])
  }

  /** The sequence number counts them, in 64 bits, and nothing else does; of the other fields only the pointers
      ever change. */
  lemma {:induction false} SequenceCounts(r: Ring, m: Machine, ops: seq<Op>)
    requires Wf(r, m)
    ensures var end := RunAll(r, m, Doing(ops)).sb;
            && end.sequence == (m.sb.sequence + Releases(r, m, ops)) % 0x1_0000_0000_0000_0000
            && end == m.sb.(sequence := end.sequence, head := end.head, tail := end.tail)
    decreases |ops|
  {
    hide Exec, Wf;
    if ops != [] {
      DoingRest(ops);
      OneRelease(r, m, ops[0]);
      var m1 := Exec(r, m, ops[0]).next;
      SequenceCounts(r, m1, ops[1..]);
      ModTwice(m.sb.sequence, Releases(r, m, ops) - Releases(r, m1, ops[1..]), Releases(r, m1, ops[1..]));
      assert RunAll(r, m, Doing(ops)) == RunAll(r, m1, Doing(ops[1..]));
    }
  }

  lemma ModTwice(a: nat, b: nat, c: nat)
    ensures ((a + b) % 0x1_0000_0000_0000_0000 + c) % 0x1_0000_0000_0000_0000 == (a + (b + c)) % 0x1_0000_0000_0000_0000
  {}

  lemma OneRelease(r: Ring, m: Machine, op: Op)
    requires Wf(r, m)
    ensures var next := Exec(r, m, op).next;
            var n := if op.Checkpoint? && m.sb.head != m.sb.tail && Exec(r, m, op).ok then 1 else 0;
            && Wf(r, next)
            && next.sb.sequence == (m.sb.sequence + n) % 0x1_0000_0000_0000_0000
            && next.sb == m.sb.(sequence := next.sb.sequence, head := next.sb.head, tail := next.sb.tail)
            && (n == 1 ==> next.sb.head == next.sb.tail == m.sb.tail && next.disk[r.start] == SuperBlock(next.sb))
  {
    hide Apply, RecordWrites, SuperBlock, CommitEvents, Sweep, Scan, CheckpointEvents, Flatten;
  }
}
