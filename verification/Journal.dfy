/** journal/mod.rs: the journal manager updates its superblock and the device in place; each method does to
    them exactly what the step machine of `JournalRun` says. */
module Journal {
  import opened Blocks
  import opened BlockDev
  import Buffers
  import DevModel
  import opened DiskFile
  import opened JournalCommit
  import opened JournalCrash
  import opened JournalFormat
  import opened JournalLog
  import opened JournalRun
  import opened Modular
  import opened Options

  lemma SlotIsRemainder(r: Ring, p: nat)
    requires p < 2 * r.blocks
    ensures p % r.blocks == Slot(r, p) < r.blocks
  {
    if p >= r.blocks { ModOnce(p, r.blocks); }
  }

  lemma NextSlot(r: Ring, tail: nat, k: nat)
    requires tail < r.blocks && k + 1 < r.blocks
    ensures Slot(r, tail + k) < r.blocks && (k == 0 ==> Slot(r, tail + k) == tail)
    ensures Slot(r, Slot(r, tail + k) + 1) == Slot(r, tail + (k + 1)) < r.blocks
  {}

  class Transaction {
    const id: nat
    var writes: seq<Write>
    var state: TxnState

    constructor (id: nat)
      ensures this.id == id && writes == [] && state == Active
    {
      this.id, writes, state := id, [], Active;
    }

    /** The transaction as the step machine has it. */
    ghost function Value(): Txn
      reads this
    {
      Txn(writes, state)
    }

    /** `write_block`: on every machine that holds the transaction it is the write step. */
    method WriteBlock(target: Word, data: seq<Byte>) returns (ok: bool)
      modifies this`writes
      ensures ok <==> state == Active && |data| == BLOCK_SIZE
      ensures writes == if ok then old(writes) + [Write(target, data)] else old(writes)
      ensures forall r: Ring, m: Machine :: Wf(r, m) && id in m.txns && m.txns[id] == old(Value()) ==>
        Exec(r, m, WriteTxn(id, target, data)) == Outcome(m.(txns := m.txns[id := Value()]), [], ok)
    {
      if state != Active || |data| != BLOCK_SIZE {
        return false;
      }
      writes := writes + [Write(target, data)];
      ok := true;
    }

    /** `rust_journal_abort`, which unlike `abort` does not go through the journal: the transaction is aborted in
        whatever state it was, and nobody takes it out of the table. */
    method Abandon()
      modifies this`state
      ensures state == Aborted
    {
      state := Aborted;
    }
  }

  lemma PwritesSnoc(ws: seq<Write>, w: Write)
    ensures Pwrites(ws + [w]) == Pwrites(ws) + [Pwrite(w)]
  {}

  /** Two more blocks of a transaction: the header and the payload of record `i`. */
  lemma PrintPair(r: Ring, d: seq<Block>, tail: nat, tid: LongWord, ws: seq<Write>, i: nat)
    requires r.start + r.blocks < |d| && tail < r.blocks && i < |ws| && 2 * i + 2 < r.blocks
    ensures var header := Write(r.start + Slot(r, tail + 2 * i), HeaderBlock(ws[i].target, ws[i].data));
            var payload := Write(r.start + Slot(r, tail + 2 * i + 1), ws[i].data);
            var front, all := RecordWrites(r, tail, tid, ws, 2 * i), RecordWrites(r, tail, tid, ws, 2 * i + 2);
            && Apply(d, all) == Put(Put(Apply(d, front), header), payload)
            && Pwrites(all) == Pwrites(front) + [Pwrite(header)] + [Pwrite(payload)]
  {
    hide Apply, HeaderBlock, Pwrites, RecordBlock, RecordWrites, Put;
    var header := Write(r.start + Slot(r, tail + 2 * i), HeaderBlock(ws[i].target, ws[i].data));
    var payload := Write(r.start + Slot(r, tail + 2 * i + 1), ws[i].data);
    var front := RecordWrites(r, tail, tid, ws, 2 * i);
    RecordPair(tid, ws, i);
    LastRecordWrite(r, tail, tid, ws, 2 * i + 1);
    LastRecordWrite(r, tail, tid, ws, 2 * i + 2);
    ApplySnoc(d, front, header);
    ApplySnoc(d, front + [header], payload);
    PwritesSnoc(front, header);
    PwritesSnoc(front + [header], payload);
  }

  lemma AppliesNothing(d: seq<Block>, ws: seq<Write>)
    requires |ws| == 0
    ensures Apply(d, ws) == d
  {}

  /** The whole transaction is on the device: the last block is the commit record. */
  lemma PrintCommit(r: Ring, d: seq<Block>, tail: nat, tid: LongWord, ws: seq<Write>)
    requires r.start + r.blocks < |d| && tail < r.blocks && 2 * |ws| + 1 < r.blocks
    ensures var record := Write(r.start + Slot(r, tail + 2 * |ws|), CommitBlock(tid, |ws| % 0x1_0000_0000));
            var front, all := RecordWrites(r, tail, tid, ws, 2 * |ws|), RecordWrites(r, tail, tid, ws, 2 * |ws| + 1);
            && Apply(d, all) == Put(Apply(d, front), record)
            && Pwrites(all) == Pwrites(front) + [Pwrite(record)]
  {
    hide Apply, CommitBlock, Pwrites, HeaderBlock, Put;
    var record := Write(r.start + Slot(r, tail + 2 * |ws|), CommitBlock(tid, |ws| % 0x1_0000_0000));
    var front := RecordWrites(r, tail, tid, ws, 2 * |ws|);
    assert RecordWrites(r, tail, tid, ws, 2 * |ws| + 1) == front + [record];
    ApplySnoc(d, front, record);
    PwritesSnoc(front, record);
  }

  // ---------- walks from head to tail ----------

  /** The blocks a walk must not write: the journal and, if a header may sit in its last slot, also the block
      behind it, which is then read for the payload. */
  function Guarded(r: Ring, last: bool): Region { Region(r.start, r.blocks + if last then 1 else 0) }

  /** The sweep reaches the tail and writes no guarded block. */
  predicate SweepsHome(r: Ring, d: seq<Block>, cur: nat, tail: nat, fuel: nat, last: bool)
    requires cur < r.blocks && r.start + r.blocks < |d|
    ensures SweepsHome(r, d, cur, tail, fuel, last) ==> Sweep(r, d, cur, tail, fuel).Some?
    decreases fuel
  {
    cur == tail ||
    (fuel > 0 &&
     match ReadSlot(r, d, cur)
     case Data(w) => (cur == r.blocks - 1 ==> last) && IsHome(Guarded(r, last), d, w.target)
                     && SweepsHome(r, d, Slot(r, cur + 2), tail, fuel - 1, last)
     case _ => SweepsHome(r, d, Slot(r, cur + 1), tail, fuel - 1, last))
  }

  /** The same of the scan of `recover`, which also ends at a block it does not know. */
  predicate ScansHome(r: Ring, d: seq<Block>, cur: nat, tail: nat, pend: seq<Write>, fuel: nat, last: bool)
    requires cur < r.blocks && r.start + r.blocks < |d|
    ensures ScansHome(r, d, cur, tail, pend, fuel, last) ==> Scan(r, d, cur, tail, pend, fuel).Done?
    decreases fuel
  {
    cur == tail ||
    (fuel > 0 &&
     match ReadSlot(r, d, cur)
     case Data(w) => (cur == r.blocks - 1 ==> last) && IsHome(Guarded(r, last), d, w.target)
                     && ScansHome(r, d, Slot(r, cur + 2), tail, pend + [w], fuel - 1, last)
     case Commit => ScansHome(r, d, Slot(r, cur + 1), tail, [], fuel - 1, last)
     case Unknown => true)
  }

  /** The sweep may be run: with or without a header in the last slot it stays home. */
  ghost predicate MaySweep(r: Ring, d: seq<Block>, head: nat, tail: nat)
    requires head < r.blocks && r.start + r.blocks < |d|
  {
    exists last: bool :: SweepsHome(r, d, head, tail, r.blocks, last)
  }

  lemma SameRecord(r: Ring, d: seq<Block>, e: seq<Block>, cur: nat, last: bool)
    requires cur < r.blocks && r.start + r.blocks < |d| && JournalEq(Guarded(r, last), d, e)
    requires cur == r.blocks - 1 && ReadSlot(r, d, cur).Data? ==> last
    ensures ReadSlot(r, e, cur) == ReadSlot(r, d, cur)
  {}

  /** Where a walk stands: `sent` has gone home, on top of disk `d` and event log `evs`. */
  ghost predicate Sent(r: Region, d: seq<Block>, e: seq<Block>, evs: seq<Event>, evs': seq<Event>, sent: seq<Write>) {
    e == Apply(d, sent) && JournalEq(r, d, e) && evs' == evs + Pwrites(sent)
  }

  lemma SentNothing(r: Region, d: seq<Block>, evs: seq<Event>, sent: seq<Write>)
    requires sent == []
    ensures Sent(r, d, d, evs, evs, sent)
  {
    assert evs + [] == evs;
  }

  lemma SentOneMore(r: Region, d: seq<Block>, e: seq<Block>, evs: seq<Event>, evs': seq<Event>, sent: seq<Write>,
                    w: Write)
    requires Sent(r, d, e, evs, evs', sent) && !InJournal(r, w.target)
    ensures Sent(r, d, Put(e, w), evs, evs' + [Pwrite(w)], sent + [w])
  {
    hide Apply, Pwrites;
    ApplySnoc(d, sent, w);
    PwritesSnoc(sent, w);
    assert evs + Pwrites(sent) + [Pwrite(w)] == evs + Pwrites(sent + [w]);
  }

  lemma SentAll(r: Region, d: seq<Block>, e: seq<Block>, evs: seq<Event>, evs': seq<Event>, sent: seq<Write>)
    requires Sent(r, d, e, evs, evs', sent)
    ensures |e| == |d| && e == Apply(d, sent) && evs' == evs + Pwrites(sent)
  {}

  /** What a walk has sent home does not change the records still to be read. */
  lemma SentRecord(r: Ring, d: seq<Block>, e: seq<Block>, evs: seq<Event>, evs': seq<Event>, sent: seq<Write>, cur: nat,
                   last: bool)
    requires cur < r.blocks && r.start + r.blocks < |d| && Sent(Guarded(r, last), d, e, evs, evs', sent)
    requires cur == r.blocks - 1 && ReadSlot(r, d, cur).Data? ==> last
    ensures |e| == |d| && ReadSlot(r, e, cur) == ReadSlot(r, d, cur)
  {
    hide Apply, Pwrites;
    SameRecord(r, d, e, cur, last);
  }

  lemma NothingPending(r: Region, d: seq<Block>)
    ensures AllHome(r, d, []) && Flatten([]) == []
  {}

  lemma OneMorePending(r: Region, d: seq<Block>, pend: seq<Write>, w: Write)
    requires AllHome(r, d, pend) && IsHome(r, d, w.target)
    ensures AllHome(r, d, pend + [w])
  {}

  /** A whole transaction goes home. */
  lemma SentTxn(r: Region, d: seq<Block>, e: seq<Block>, evs: seq<Event>, evs': seq<Event>, replayed: seq<seq<Write>>,
                ws: seq<Write>)
    requires Sent(r, d, e, evs, evs', Flatten(replayed)) && AllHome(r, d, ws) && |e| == |d|
    ensures forall i :: 0 <= i < |ws| ==> ws[i].target < |e|
    ensures Sent(r, d, Apply(e, ws), evs, evs' + Pwrites(ws), Flatten(replayed + [ws]))
  {
    hide Apply, Pwrites, Flatten;
    ApplyConcat(d, Flatten(replayed), ws);
    PwritesConcat(Flatten(replayed), ws);
    FlattenSnoc(replayed, ws);
    SameLengthHome(r, d, e, ws);
    HomeWritesKeepJournal(r, e, ws);
    ThreeParts(evs, Pwrites(Flatten(replayed)), Pwrites(ws));
  }

  lemma ThreeParts(a: seq<Event>, b: seq<Event>, c: seq<Event>)
    ensures a + b + c == a + (b + c)
  {}

  lemma SameLengthHome(r: Region, d: seq<Block>, e: seq<Block>, ws: seq<Write>)
    requires AllHome(r, d, ws) && |e| == |d|
    ensures AllHome(r, e, ws) && forall i :: 0 <= i < |ws| ==> ws[i].target < |e|
  {}

  lemma PwritesConcat(a: seq<Write>, b: seq<Write>)
    ensures Pwrites(a + b) == Pwrites(a) + Pwrites(b)
  {}

  lemma HomeAllNothing(d: DevModel.Dev, sent: seq<Write>)
    requires sent == []
    ensures DevModel.HomeAll(d, sent) == d
  {}

  lemma HomeAllSnoc(d: DevModel.Dev, ws: seq<Write>, w: Write)
    ensures DevModel.HomeAll(d, ws + [w]) == DevModel.HomeStep(DevModel.HomeAll(d, ws), w.target, w.data)
  {
    assert (ws + [w])[..|ws|] == ws;
  }

  lemma SweepEnds(r: Ring, d: seq<Block>, tail: nat, fuel: nat, sent: seq<Write>)
    requires tail < r.blocks && r.start + r.blocks < |d|
    ensures Sweep(r, d, tail, tail, fuel).Some? && sent + Sweep(r, d, tail, tail, fuel).value == sent
  {}

  /** The sweep goes on one record further. */
  lemma SweepGoesOn(r: Ring, d: seq<Block>, cur: nat, tail: nat, fuel: nat, last: bool)
    requires cur < r.blocks && r.start + r.blocks < |d| && cur != tail && SweepsHome(r, d, cur, tail, fuel, last)
    ensures fuel > 0
    ensures var next := Slot(r, cur + if ReadSlot(r, d, cur).Data? then 2 else 1);
            && SweepsHome(r, d, next, tail, fuel - 1, last)
            && Sweep(r, d, cur, tail, fuel).value ==
               (if ReadSlot(r, d, cur).Data? then [ReadSlot(r, d, cur).write] else [])
               + Sweep(r, d, next, tail, fuel - 1).value
            && (ReadSlot(r, d, cur).Data? ==>
                  && (cur == r.blocks - 1 ==> last)
                  && var b := ReadSlot(r, d, cur).write.target;
                     IsHome(r, d, b) && !InJournal(Guarded(r, last), b))
  {}

  lemma {:induction false} RecordsWalkHome(r: Ring, d: seq<Block>, cur: nat, tail: nat, pend: seq<Write>,
                                           ws: seq<Write>, fuel: nat)
    requires r.start + r.blocks < |d| && |ws| <= fuel && cur + 2 * |ws| < r.blocks
    requires RecordsAt(r, d, cur, ws) && AllHome(r, d, ws) && (tail < cur || cur + 2 * |ws| < tail)
    ensures SweepsHome(r, d, cur + 2 * |ws|, tail, fuel - |ws|, false) ==> SweepsHome(r, d, cur, tail, fuel, false)
    ensures ScansHome(r, d, cur + 2 * |ws|, tail, pend + ws, fuel - |ws|, false) ==>
      ScansHome(r, d, cur, tail, pend, fuel, false)
    decreases |ws|
  {
    if ws == [] {
      assert pend + ws == pend;
    } else {
      RecordsWalkHome(r, d, cur + 2, tail, pend + [ws[0]], ws[1..], fuel - 1);
      assert pend + [ws[0]] + ws[1..] == pend + ws;
      assert IsHome(r, d, ws[0].target);
    }
  }

  lemma {:induction false} LogWalksThrough(r: Ring, d: seq<Block>, cur: nat, end: nat, tail: nat, log: seq<seq<Write>>,
                                           fuel: nat)
    requires r.start + r.blocks < |d| && LogHolds(r, d, cur, end, log) && end <= r.blocks && Steps(log) <= fuel
    requires AllHomeTxns(r, d, log) && (tail < cur || end <= tail) && Slot(r, end) == tail
    ensures SweepsHome(r, d, Slot(r, cur), tail, fuel, false) && ScansHome(r, d, Slot(r, cur), tail, [], fuel, false)
    decreases |log|
  {
    LogSpan(r, d, cur, end, log);
    if log != [] {
      var ws := log[0];
      var next := cur + 2 * |ws| + 1;
      LogSpan(r, d, next, end, log[1..]);
      LogWalksThrough(r, d, next, end, tail, log[1..], fuel - |ws| - 1);
      assert AllHome(r, d, log[0]);
      RecordsWalkHome(r, d, cur, tail, [], ws, fuel);
      CommitWalksOn(r, d, cur + 2 * |ws|, tail, [] + ws, fuel - |ws|);
    }
  }

  lemma CommitWalksOn(r: Ring, d: seq<Block>, cur: nat, tail: nat, pend: seq<Write>, fuel: nat)
    requires cur < r.blocks && r.start + r.blocks < |d| && fuel > 0 && ReadSlot(r, d, cur) == Record.Commit
    requires SweepsHome(r, d, Slot(r, cur + 1), tail, fuel - 1, false)
    requires ScansHome(r, d, Slot(r, cur + 1), tail, [], fuel - 1, false)
    ensures SweepsHome(r, d, cur, tail, fuel, false) && ScansHome(r, d, cur, tail, pend, fuel, false)
  {}

  /** Between the pointers of a journal whose commits never wrapped, both walks stay home; so every such
      journal can be checkpointed and recovered. */
  lemma LogWalksHome(r: Ring, d: seq<Block>, head: nat, tail: nat, log: seq<seq<Write>>)
    requires LogAt(r, d, head, tail, log) && AllHomeTxns(r, d, log)
    ensures SweepsHome(r, d, head, tail, r.blocks, false) && ScansHome(r, d, head, tail, [], r.blocks, false)
  {
    var end := EndOf(r, head, tail);
    LogSpan(r, d, head, end, log);
    StepsBound(r, d, head, end, log);
    if log != [] { LogWalksThrough(r, d, head, end, tail, log, r.blocks); }
  }

  /** Records that were printed round the ring: the sweep writes home blocks, and leaves alone the block it may
      read for a payload behind the last slot. */
  lemma {:induction false} RingWalksHome(r: Ring, d: seq<Block>, cur: nat, tail: nat, ws: seq<Write>, fuel: nat)
    requires cur < r.blocks && r.start + r.blocks < |d| && |ws| <= fuel
    requires RecordsAt(r, d, cur, ws) && Misses(r, cur, |ws|, tail) && AllHome(Guarded(r, true), d, ws)
    requires SweepsHome(r, d, After(r, cur, |ws|), tail, fuel - |ws|, true)
    ensures SweepsHome(r, d, cur, tail, fuel, true)
    decreases |ws|
  {
    if ws != [] {
      RingWalksHome(r, d, Slot(r, cur + 2), tail, ws[1..], fuel - 1);
      assert IsHome(Guarded(r, true), d, ws[0].target);
    }
  }

  lemma CheckpointOutcome(r: Ring, m: JournalRun.Machine)
    requires Wf(r, m) && Sweep(r, m.disk, m.sb.head, m.sb.tail, r.blocks).Some?
    ensures var out := ExecCheckpoint(r, m);
            var ws := Sweep(r, m.disk, m.sb.head, m.sb.tail, r.blocks).value;
            var sb' := Released(m.sb);
            && (m.sb.head == m.sb.tail ==> out == Outcome(m, [], true))
            && (m.sb.head != m.sb.tail ==>
                  && out.next == m.(disk := Apply(m.disk, ws)[r.start := SuperBlock(sb')], sb := sb')
                  && out.events == Pwrites(ws) + [Fsync] + [Pwrite(SuperWrite(r, sb'))] + [Fsync]
                  && out.ok)
  {}

  lemma ScanEnds(r: Ring, d: seq<Block>, tail: nat, pend: seq<Write>, fuel: nat, done: seq<seq<Write>>)
    requires tail < r.blocks && r.start + r.blocks < |d|
    ensures Scan(r, d, tail, tail, pend, fuel).Done? && done + Scan(r, d, tail, tail, pend, fuel).txns == done
  {}

  /** The scan goes on one record further. */
  lemma ScanGoesOn(r: Ring, d: seq<Block>, cur: nat, tail: nat, pend: seq<Write>, fuel: nat, done: seq<seq<Write>>,
                   last: bool)
    requires cur < r.blocks && r.start + r.blocks < |d| && cur != tail && ScansHome(r, d, cur, tail, pend, fuel, last)
    ensures fuel > 0
    ensures var txns := done + Scan(r, d, cur, tail, pend, fuel).txns;
            match ReadSlot(r, d, cur)
            case Data(w) =>
              && (cur == r.blocks - 1 ==> last) && IsHome(Guarded(r, last), d, w.target)
              && ScansHome(r, d, Slot(r, cur + 2), tail, pend + [w], fuel - 1, last)
              && txns == done + Scan(r, d, Slot(r, cur + 2), tail, pend + [w], fuel - 1).txns
            case Commit =>
              && ScansHome(r, d, Slot(r, cur + 1), tail, [], fuel - 1, last)
              && txns
                 == (if pend != [] then done + [pend] else done) + Scan(r, d, Slot(r, cur + 1), tail, [], fuel - 1).txns
            case Unknown => txns == done
  {
    if ReadSlot(r, d, cur).Commit? && pend != [] {
      var rest := Scan(r, d, Slot(r, cur + 1), tail, [], fuel - 1).txns;
      assert done + ([pend] + rest) == done + [pend] + rest;
    }
  }

  class JournalManager {
    const disk: Disk
    const ring: Ring
    var sb: JournalSuper
    var nextTid: nat
    var activeTxns: map<nat, Transaction>

    ghost predicate Valid()
      reads this, disk
    {
      ring.start + ring.blocks < |disk.blocks| && WellSized(sb) && sb.head < ring.blocks && sb.tail < ring.blocks
    }

    /** The step machine's view of the device, the superblock and one transaction. */
    ghost function Machine(txn: Transaction): (m: Machine)
      requires Valid()
      reads this, disk, txn
      ensures Wf(ring, m)
    {
      JournalRun.Machine(disk.blocks, sb, map[txn.id := txn.Value()], nextTid)
    }

    /** The same with no transaction in view. */
    ghost function State(): (m: Machine)
      requires Valid()
      reads this, disk
      ensures Wf(ring, m)
    {
      JournalRun.Machine(disk.blocks, sb, map[], nextTid)
    }

    ghost function FreeSlots(): (n: nat)
      requires Valid()
      reads this, disk
    {
      Free(ring, sb.head, sb.tail)
    }

    /** The part of `new` behind its checks. */
    constructor (disk: Disk, ring: Ring)
      requires ring.start + ring.blocks < |disk.blocks|
      ensures this.disk == disk && this.ring == ring && sb == Loaded(disk.blocks[ring.start])
      ensures nextTid == 1 && activeTxns == map[]
    {
      this.disk, this.ring := disk, ring;
      var super := DecodeSuper(disk.blocks[ring.start]);
      if super.head == 0 && super.tail == 0 {
        super := super.(head := 1, tail := 1);
      }
      sb, nextTid, activeTxns := super, 1, map[];
    }

    /** `new`: too small a region, or an image without the journal magic, is refused. */
    static method Open(disk: Disk, start: Word, blocks: Word) returns (j: JournalManager?)
      requires start + blocks < |disk.blocks| && start + blocks < 0x1_0000_0000
      ensures j == null <==> blocks < 2 || Magic(disk.blocks[start]) != JOURNAL_MAGIC
      ensures j != null ==>
        && fresh(j) && j.disk == disk && j.ring == Region(start, blocks)
        && j.sb == Loaded(disk.blocks[start]) && j.nextTid == 1 && j.activeTxns == map[]
    {
      if blocks < 2 || Magic(disk.blocks[start]) != JOURNAL_MAGIC {
        return null;
      }
      j := new JournalManager(disk, Region(start, blocks));
    }

    /** `begin_transaction`. */
    method Begin() returns (txn: Transaction)
      requires Valid()
      modifies this`nextTid, this`activeTxns
      ensures Valid() && Exec(ring, old(State()), BeginTxn) == Outcome(Machine(txn), [], true)
      ensures fresh(txn) && txn.id == old(nextTid) && txn.writes == [] && txn.state == Active
      ensures nextTid == old(nextTid) + 1 && activeTxns == old(activeTxns)[txn.id := txn]
    {
      txn := new Transaction(nextTid);
      nextTid := nextTid + 1;
      activeTxns := activeTxns[txn.id := txn];
    }

    /** `abort`. */
    method Abort(txn: Transaction) returns (ok: bool)
      requires Valid()
      modifies this`activeTxns, txn`state
      ensures Valid()
      ensures var out := Exec(ring, old(Machine(txn)), AbortTxn(txn.id)); Machine(txn) == out.next && ok == out.ok
      ensures activeTxns == if ok then old(activeTxns) - {txn.id} else old(activeTxns)
    {
      if txn.state != Active {
        return false;
      }
      txn.state := Aborted;
      activeTxns := activeTxns - {txn.id};
      ok := true;
    }

    /** `allocate_journal_block`: succeeds exactly while a slot is free, and takes one. */
    method AllocateJournalBlock() returns (slot: Option<Word>)
      requires Valid()
      modifies this`sb
      ensures Valid() && (slot.None? <==> old(FreeSlots()) == 0)
      ensures slot.None? ==> sb == old(sb)
      ensures slot.Some? ==> slot.value == old(sb).tail && sb == old(sb).(tail := Slot(ring, old(sb).tail + 1))
      ensures slot.Some? ==> FreeSlots() == old(FreeSlots()) - 1
    {
      SlotIsRemainder(ring, sb.tail + 1);
      var nextTail := (sb.tail + 1) % ring.blocks;
      if nextTail == sb.head {
        return None;
      }
      slot := Some(sb.tail);
      sb := sb.(tail := nextTail);
    }

    /** `write_journal_data`, into a slot already allocated for the header. */
    method WriteJournalData(slot: Word, target: Word, data: Block) returns (ok: bool)
      requires Valid() && slot < ring.blocks
      modifies this`sb, disk
      ensures Valid() && (ok <==> old(FreeSlots()) > 0)
      ensures !ok ==> sb == old(sb) && disk.blocks == old(disk.blocks) && disk.events == old(disk.events)
      ensures ok ==>
        var header, payload :=
          Write(ring.start + slot, HeaderBlock(target, data)), Write(ring.start + old(sb).tail, data);
        && sb == old(sb).(tail := Slot(ring, old(sb).tail + 1)) && FreeSlots() == old(FreeSlots()) - 1
        && disk.blocks == Put(Put(old(disk.blocks), header), payload)
        && disk.events == old(disk.events) + [Pwrite(header)] + [Pwrite(payload)]
    {
      var dataSlot := AllocateJournalBlock();
      if dataSlot.None? {
        return false;
      }
      disk.WriteBlock(ring.start + slot, HeaderBlock(target, data));
      disk.WriteBlock(ring.start + dataSlot.value, data);
      ok := true;
    }

    /** The record loop of `commit`; when it runs out of slots the records printed so far stay. */
    method PrintRecords(ws: seq<Write>, ghost tid: LongWord) returns (ok: bool)
      requires Valid()
      modifies this`sb, disk
      ensures Valid()
      ensures var k := TornRecords(old(FreeSlots()), |ws|);
              var printed := RecordWrites(ring, old(sb).tail, tid, ws, 2 * k);
              && (ok <==> k == |ws|)
              && disk.blocks == Apply(old(disk.blocks), printed)
              && disk.events == old(disk.events) + Pwrites(printed)
              && sb == old(sb).(tail := Slot(ring, old(sb).tail + if ok then 2 * |ws| else old(FreeSlots())))
              && FreeSlots() == old(FreeSlots()) - if ok then 2 * |ws| else old(FreeSlots())
    {
      hide RecordWrites, Apply, Pwrites, HeaderBlock, Slot, Put;
      ghost var free, tail := FreeSlots(), sb.tail;
      assert free <= ring.blocks - 1;
      hide Free;
      NextSlot(ring, tail, 0);
      AppliesNothing(disk.blocks, RecordWrites(ring, tail, tid, ws, 0));
      for i := 0 to |ws|
        invariant Valid() && 2 * i <= free && FreeSlots() == free - 2 * i
        invariant sb == old(sb).(tail := sb.tail) && sb.tail == Slot(ring, tail + 2 * i)
        invariant disk.blocks == Apply(old(disk.blocks), RecordWrites(ring, tail, tid, ws, 2 * i))
        invariant disk.events == old(disk.events) + Pwrites(RecordWrites(ring, tail, tid, ws, 2 * i))
      {
        if 2 * i < free { NextSlot(ring, tail, 2 * i); }
        var fits := PrintRecord(ws[i].target, ws[i].data);
        if !fits {
          return false;
        }
        PrintPair(ring, old(disk.blocks), tail, tid, ws, i);
        NextSlot(ring, tail, 2 * i + 1);
      }
      ok := true;
    }

    /** One turn of the record loop of `commit`. */
    method PrintRecord(target: Word, data: Block) returns (ok: bool)
      requires Valid()
      modifies this`sb, disk
      ensures Valid() && (ok <==> old(FreeSlots()) >= 2)
      ensures !ok ==>
        && sb == old(sb).(tail := if old(FreeSlots()) == 0 then old(sb).tail else Slot(ring, old(sb).tail + 1))
        && FreeSlots() == 0
        && disk.blocks == old(disk.blocks) && disk.events == old(disk.events)
      ensures ok ==>
        var slot := Slot(ring, old(sb).tail + 1);
        var header, payload :=
          Write(ring.start + old(sb).tail, HeaderBlock(target, data)), Write(ring.start + slot, data);
        && sb == old(sb).(tail := Slot(ring, slot + 1)) && FreeSlots() == old(FreeSlots()) - 2
        && disk.blocks == Put(Put(old(disk.blocks), header), payload)
        && disk.events == old(disk.events) + [Pwrite(header)] + [Pwrite(payload)]
    {
      hide HeaderBlock, Slot, Put, Free;
      var slot := AllocateJournalBlock();
      if slot.None? {
        return false;
      }
      ok := WriteJournalData(slot.value, target, data);
    }

    /** `write_commit_record`. */
    method WriteCommitRecord(slot: Word, tid: LongWord, numBlocks: nat)
      requires Valid() && slot < ring.blocks
      modifies disk
      ensures var record := Write(ring.start + slot, CommitBlock(tid, numBlocks % 0x1_0000_0000));
              && Valid() && disk.blocks == Put(old(disk.blocks), record)
              && disk.events == old(disk.events) + [Pwrite(record)]
    {
      disk.WriteBlock(ring.start + slot, CommitBlock(tid, numBlocks % 0x1_0000_0000));
    }

    /** `sync_superblock_to_disk`. */
    method SyncSuperblock()
      requires Valid()
      modifies disk
      ensures Valid() && disk.blocks == old(disk.blocks)[ring.start := SuperBlock(sb)]
      ensures disk.events == old(disk.events) + [Pwrite(SuperWrite(ring, sb))] + [Fsync]
    {
      disk.WriteBlock(ring.start, SuperBlock(sb));
      disk.Sync();
    }

    /** `commit`. */
    method Commit(txn: Transaction) returns (ok: bool)
      requires Valid()
      modifies this`sb, this`activeTxns, disk, txn`state
      ensures Valid()
      ensures var out := ExecCommit(ring, old(Machine(txn)), txn.id);
              Machine(txn) == out.next && ok == out.ok && disk.events == old(disk.events) + out.events
      ensures activeTxns == if ok then old(activeTxns) - {txn.id} else old(activeTxns)
    {
      hide Apply, RecordWrites, SuperBlock, CommitEvents, Pwrites;
      if txn.state != Active {
        return false;
      }
      if txn.writes == [] {
        txn.state := Committed;
        activeTxns := activeTxns - {txn.id};
        return true;
      }
      ok := Publish(txn.writes, txn.id % 0x1_0000_0000_0000_0000);
      if ok {
        txn.state := Committed;
        activeTxns := activeTxns - {txn.id};
      }
    }

    /** Records, commit record, superblock, barriers: what `commit` does with a non-empty transaction. */
    method Publish(ws: seq<Write>, tid: LongWord) returns (ok: bool)
      requires Valid() && ws != []
      modifies this`sb, disk
      ensures Valid() && (ok <==> 2 * |ws| + 1 <= old(FreeSlots()))
      ensures ok ==>
        && sb == old(sb).(tail := Slot(ring, old(sb).tail + 2 * |ws| + 1))
        && disk.blocks == Apply(old(disk.blocks),
            RecordWrites(ring, old(sb).tail, tid, ws, 2 * |ws| + 1))[ring.start := SuperBlock(sb)]
        && disk.events == old(disk.events) + CommitEvents(ring, old(sb), tid, ws)
      ensures !ok ==>
        var torn := RecordWrites(ring, old(sb).tail, tid, ws, 2 * TornRecords(old(FreeSlots()), |ws|));
        && sb == old(sb).(tail := Slot(ring, old(sb).tail + old(FreeSlots())))
        && disk.blocks == Apply(old(disk.blocks), torn)
        && disk.events == old(disk.events) + Pwrites(torn)
    {
      hide RecordWrites, Apply, Pwrites, CommitBlock, SuperBlock;
      ok := PrintRecords(ws, tid);
      if !ok {
        return;
      }
      var slot := AllocateJournalBlock();
      if slot.None? {
        return false;
      }
      WriteCommitRecord(slot.value, tid, |ws|);
      PrintCommit(ring, old(disk.blocks), old(sb).tail, tid, ws);
      SyncSuperblock();
      disk.Sync();
    }

    /** `read_journal_block`. */
    method ReadJournalBlock(slot: Word) returns (record: Record)
      requires Valid() && slot < ring.blocks
      ensures record == ReadSlot(ring, disk.blocks, slot)
    {
      var block := disk.blocks[ring.start + slot];
      if Magic(block) == DATA_MAGIC {
        record := Data(Write(TargetOf(block), disk.blocks[ring.start + slot + 1]));
      } else if Magic(block) == COMMIT_MAGIC {
        record := Record.Commit;
      } else {
        record := Unknown;
      }
    }

    /** A home write of `checkpoint`, and the callback that drops the cached copy. */
    method WriteHome(w: Write, dev: BlockDevice)
      requires Valid() && dev.disk == disk && dev.Valid() && IsHome(ring, disk.blocks, w.target)
      modifies disk, dev.cache.lru.nodes`valid, dev.cache.lru.nodes`dirty
      ensures Valid() && dev.Valid()
      ensures disk.blocks == Put(old(disk.blocks), w) && disk.events == old(disk.events) + [Pwrite(w)]
      ensures dev.Model() == DevModel.HomeStep(old(dev.Model()), w.target, w.data)
      ensures JournalEq(ring, old(disk.blocks), disk.blocks)
    {
      hide Buffers.BufferCache.Valid, Buffers.Values, DevModel.Invalidated;
      disk.WriteBlock(w.target, w.data);
      dev.Invalidate(w.target);
    }

    /** The loop of `checkpoint`. */
    method SweepHome(dev: BlockDevice, ghost last: bool)
      requires Valid() && dev.disk == disk && dev.Valid()
      requires SweepsHome(ring, disk.blocks, sb.head, sb.tail, ring.blocks, last)
      modifies disk, dev.cache.lru.nodes`valid, dev.cache.lru.nodes`dirty
      ensures Valid() && dev.Valid()
      ensures var ws := Sweep(ring, old(disk.blocks), sb.head, sb.tail, ring.blocks).value;
              && disk.blocks == Apply(old(disk.blocks), ws)
              && disk.events == old(disk.events) + Pwrites(ws)
              && dev.Model() == DevModel.HomeAll(old(dev.Model()), ws)
    {
      hide Guarded, Slot, Sent, BlockDevice.Valid, BlockDevice.Model, SweepsHome, Sweep, ReadSlot, JournalEq, Put;
      hide DevModel.HomeAll, DevModel.HomeStep;
      ghost var d, ws := disk.blocks, Sweep(ring, disk.blocks, sb.head, sb.tail, ring.blocks).value;
      ghost var sent: seq<Write>, fuel: nat := [], ring.blocks;
      ghost var evs, cached := disk.events, dev.Model();
      SentNothing(Guarded(ring, last), d, evs, sent);
      HomeAllNothing(cached, sent);
      var current: Word := sb.head;
      while current != sb.tail
        invariant current < ring.blocks && Valid() && dev.Valid()
        invariant SweepsHome(ring, d, current, sb.tail, fuel, last)
        invariant ws == sent + Sweep(ring, d, current, sb.tail, fuel).value
        invariant Sent(Guarded(ring, last), d, disk.blocks, evs, disk.events, sent)
        invariant dev.Model() == DevModel.HomeAll(cached, sent)
        decreases fuel
      {
        SlotIsRemainder(ring, current + 1);
        SlotIsRemainder(ring, current + 2);
        SweepGoesOn(ring, d, current, sb.tail, fuel, last);
        SentRecord(ring, d, disk.blocks, evs, disk.events, sent, current, last);
        var record := ReadJournalBlock(current);
        if record.Data? {
          SentOneMore(Guarded(ring, last), d, disk.blocks, evs, disk.events, sent, record.write);
          HomeAllSnoc(cached, sent, record.write);
          WriteHome(record.write, dev);
          sent := sent + [record.write];
          current := (current + 2) % ring.blocks;
        } else {
          current := (current + 1) % ring.blocks;
        }
        fuel := fuel - 1;
      }
      SweepEnds(ring, d, current, fuel, sent);
      SentAll(Guarded(ring, last), d, disk.blocks, evs, disk.events, sent);
    }

    /** `checkpoint`: the step machine's checkpoint, and every block it wrote home dropped from the cache. */
    method Checkpoint(dev: BlockDevice)
      requires Valid() && dev.disk == disk && dev.Valid()
      requires MaySweep(ring, disk.blocks, sb.head, sb.tail)
      modifies this`sb, disk, dev.cache.lru.nodes`valid, dev.cache.lru.nodes`dirty
      ensures Valid() && dev.Valid()
      ensures var out := ExecCheckpoint(ring, old(State()));
              out.ok && State() == out.next && disk.events == old(disk.events) + out.events
      ensures FreeSlots() == ring.blocks - 1
      ensures dev.Model() == if old(sb).head == old(sb).tail then old(dev.Model())
        else DevModel.HomeAll(old(dev.Model()),
          Sweep(ring, old(disk.blocks), old(sb).head, old(sb).tail, ring.blocks).value)
             .(disk := disk.blocks)
    {
      hide DevModel.HomeAll, BlockDevice.Valid, BlockDevice.Model, SweepsHome, Sweep, Apply;
      hide ExecCheckpoint, CheckpointEvents, SuperBlock;
      CheckpointOutcome(ring, State());
      if sb.head == sb.tail {
        return;
      }
      ghost var last :| SweepsHome(ring, disk.blocks, sb.head, sb.tail, ring.blocks, last);
      SweepHome(dev, last);
      disk.Sync();
      ReleaseHead(dev);
    }

    /** The end of `checkpoint`: the slots are free once the moved head is on the device. */
    method ReleaseHead(dev: BlockDevice)
      requires Valid() && dev.disk == disk && dev.Valid()
      modifies this`sb, disk
      ensures Valid() && dev.Valid() && sb == Released(old(sb)) && FreeSlots() == ring.blocks - 1
      ensures disk.blocks == old(disk.blocks)[ring.start := SuperBlock(sb)]
      ensures disk.events == old(disk.events) + [Pwrite(SuperWrite(ring, sb))] + [Fsync]
      ensures dev.Model() == old(dev.Model()).(disk := disk.blocks)
    {
      hide Buffers.BufferCache.Valid, Buffers.Values, SuperBlock;
      sb := sb.(head := sb.tail, sequence := (sb.sequence + 1) % 0x1_0000_0000_0000_0000);
      disk.WriteBlock(ring.start, SuperBlock(sb));
      disk.Sync();
    }

    /** `recover`: the scan replays each transaction when it meets the commit record. */
    method Recover() returns (recovered: nat)
      requires Valid()
      requires exists last: bool :: ScansHome(ring, disk.blocks, sb.head, sb.tail, [], ring.blocks, last)
      modifies disk
      ensures Valid()
      ensures var out := ExecRecover(ring, old(State()));
              out.ok && State() == out.next && disk.events == old(disk.events) + out.events
      ensures recovered == |Scan(ring, old(disk.blocks), sb.head, sb.tail, [], ring.blocks).txns|
    {
      hide ScansHome, Scan, Apply, Flatten;
      if sb.head == sb.tail {
        ScanEnds(ring, disk.blocks, sb.head, [], ring.blocks, []);
        return 0;
      }
      ghost var last :| ScansHome(ring, disk.blocks, sb.head, sb.tail, [], ring.blocks, last);
      recovered := Replay(last);
      disk.Sync();
    }

    /** The loop of `recover`. */
    method Replay(ghost last: bool) returns (recovered: nat)
      requires Valid()
      requires ScansHome(ring, disk.blocks, sb.head, sb.tail, [], ring.blocks, last)
      modifies disk
      ensures Valid()
      ensures var txns := Scan(ring, old(disk.blocks), sb.head, sb.tail, [], ring.blocks).txns;
              && disk.blocks == Apply(old(disk.blocks), Flatten(txns))
              && disk.events == old(disk.events) + Pwrites(Flatten(txns))
              && recovered == |txns|
    {
      hide Guarded, Slot, Sent, ScansHome, Scan, ReadSlot, JournalEq, Put, Flatten, AllHome;
      ghost var d, txns := disk.blocks, Scan(ring, disk.blocks, sb.head, sb.tail, [], ring.blocks).txns;
      ghost var replayed: seq<seq<Write>>, fuel: nat := [], ring.blocks;
      ghost var evs := disk.events;
      NothingPending(Guarded(ring, last), d);
      SentNothing(Guarded(ring, last), d, evs, Flatten(replayed));
      var pend: seq<Write>, current: Word := [], sb.head;
      recovered := 0;
      while current != sb.tail
        invariant current < ring.blocks && Valid() && recovered == |replayed|
        invariant ScansHome(ring, d, current, sb.tail, pend, fuel, last) && AllHome(Guarded(ring, last), d, pend)
        invariant txns == replayed + Scan(ring, d, current, sb.tail, pend, fuel).txns
        invariant Sent(Guarded(ring, last), d, disk.blocks, evs, disk.events, Flatten(replayed))
        decreases fuel
      {
        SlotIsRemainder(ring, current + 1);
        SlotIsRemainder(ring, current + 2);
        ScanGoesOn(ring, d, current, sb.tail, pend, fuel, replayed, last);
        SentRecord(ring, d, disk.blocks, evs, disk.events, Flatten(replayed), current, last);
        var record := ReadJournalBlock(current);
        match record {
        case Data(w) =>
          OneMorePending(Guarded(ring, last), d, pend, w);
          pend := pend + [w];
          current := (current + 2) % ring.blocks;
        case Commit =>
          if pend != [] {
            SentTxn(Guarded(ring, last), d, disk.blocks, evs, disk.events, replayed, pend);
            WriteAll(pend);
            replayed := replayed + [pend];
            recovered := recovered + 1;
            pend := [];
            NothingPending(Guarded(ring, last), d);
          }
          current := (current + 1) % ring.blocks;
        case Unknown =>
          SentAll(Guarded(ring, last), d, disk.blocks, evs, disk.events, Flatten(replayed));
          return;
        }
        fuel := fuel - 1;
      }
      ScanEnds(ring, d, current, pend, fuel, replayed);
      SentAll(Guarded(ring, last), d, disk.blocks, evs, disk.events, Flatten(replayed));
    }

    method WriteAll(ws: seq<Write>)
      requires Valid() && forall i :: 0 <= i < |ws| ==> ws[i].target < |disk.blocks|
      modifies disk
      ensures Valid() && disk.blocks == Apply(old(disk.blocks), ws) && disk.events == old(disk.events) + Pwrites(ws)
    {
      hide Apply, Pwrites;
      ghost var d, evs := disk.blocks, disk.events;
      AppliesNothing(d, ws[..0]);
      for i := 0 to |ws|
        invariant Valid() && |disk.blocks| == |d|
        invariant disk.blocks == Apply(d, ws[..i]) && disk.events == evs + Pwrites(ws[..i])
      {
        assert ws[..i + 1] == ws[..i] + [ws[i]];
        ApplySnoc(d, ws[..i], ws[i]);
        PwritesSnoc(ws[..i], ws[i]);
        disk.WriteBlock(ws[i].target, ws[i].data);
      }
      assert ws[..|ws|] == ws;
    }
  }
}
