/** What `commit` puts on the device, and what the readers then see: for a commit that does not touch
    slot 0, for one that wraps over it, and for one that runs out of room half way. */
module JournalCommit {
  import opened Blocks
  import opened JournalFormat
  import opened JournalLog
  import opened Options

  /** Free slots; one slot always stays empty so that `head == tail` means an empty journal. */
  function Free(r: Ring, head: nat, tail: nat): int {
    r.blocks - 1 - (EndOf(r, head, tail) - head)
  }

  /** The `i`-th block a transaction prints: header, payload, header, payload, ..., commit record. */
  function RecordBlock(txnId: LongWord, ws: seq<Write>, i: nat): Block
    requires i <= 2 * |ws|
  {
    if i == 2 * |ws| then CommitBlock(txnId, |ws| % 0x1_0000_0000)
    else if i % 2 == 0 then HeaderBlock(ws[i / 2].target, ws[i / 2].data)
    else ws[i / 2].data
  }

  /** The first `n` blocks a transaction prints, slot after slot round the ring from `tail`. */
  function RecordWrites(r: Ring, tail: nat, txnId: LongWord, ws: seq<Write>, n: nat): (s: seq<Write>)
    requires n <= 2 * |ws| + 1 && tail < r.blocks && n < r.blocks
    ensures |s| == n
  {
    if n == 0 then []
    else RecordWrites(r, tail, txnId, ws, n - 1)
         + [Write(r.start + Slot(r, tail + n - 1), RecordBlock(txnId, ws, n - 1))]
  }

  lemma LastRecordWrite(r: Ring, tail: nat, txnId: LongWord, ws: seq<Write>, n: nat)
    requires 0 < n <= 2 * |ws| + 1 && tail < r.blocks && n < r.blocks
    ensures RecordWrites(r, tail, txnId, ws, n)
         == RecordWrites(r, tail, txnId, ws, n - 1)
            + [Write(r.start + Slot(r, tail + n - 1), RecordBlock(txnId, ws, n - 1))]
  {
    hide RecordBlock;
  }

  /** Slots `tail .. tail + n` hold the printed blocks and every other block is as before. */
  ghost predicate Printed(r: Ring, d: seq<Block>, e: seq<Block>, tail: nat, txnId: LongWord, ws: seq<Write>, n: nat)
    requires n <= 2 * |ws| + 1
  {
    && |d| == |e| && r.start + r.blocks < |d| && tail < r.blocks && n < r.blocks
    && (forall i :: 0 <= i < n ==> SlotBlock(r, e, tail, i) == RecordBlock(txnId, ws, i))
    && (forall b :: 0 <= b < |d| && !InSpan(r, tail, n, b) ==> e[b] == d[b])
  }

  function SlotBlock(r: Ring, d: seq<Block>, tail: nat, i: nat): Block
    requires r.start + r.blocks < |d| && tail < r.blocks && i < r.blocks
  {
    d[r.start + Slot(r, tail + i)]
  }

  /** Block `b` is one of the `n` ring slots from `tail`. */
  predicate InSpan(r: Ring, tail: nat, n: nat, b: nat) {
    InJournal(r, b) && (tail <= b - r.start < tail + n || b - r.start + r.blocks < tail + n)
  }

  lemma PrintOne(r: Ring, d: seq<Block>, e: seq<Block>, tail: nat, txnId: LongWord, ws: seq<Write>, n: nat)
    requires n <= 2 * |ws| && n + 1 < r.blocks
    requires Printed(r, d, e, tail, txnId, ws, n)
    ensures Printed(r, d, e[r.start + Slot(r, tail + n) := RecordBlock(txnId, ws, n)], tail, txnId, ws, n + 1)
  {
    var block := RecordBlock(txnId, ws, n);
    var e' := e[r.start + Slot(r, tail + n) := block];
    forall i | 0 <= i < n + 1 ensures SlotBlock(r, e', tail, i) == RecordBlock(txnId, ws, i) {
      if i < n {
        assert SlotBlock(r, e, tail, i) == RecordBlock(txnId, ws, i);
        assert Slot(r, tail + i) != Slot(r, tail + n);
      }
    }
  }

  lemma {:induction false} PrintedByWrites(r: Ring, d: seq<Block>, tail: nat, txnId: LongWord, ws: seq<Write>, n: nat)
    requires n <= 2 * |ws| + 1
    requires r.start + r.blocks < |d| && tail < r.blocks && n < r.blocks
    ensures Printed(r, d, Apply(d, RecordWrites(r, tail, txnId, ws, n)), tail, txnId, ws, n)
  {
    if n > 0 {
      PrintedByWrites(r, d, tail, txnId, ws, n - 1);
      var front := RecordWrites(r, tail, txnId, ws, n - 1);
      var all := RecordWrites(r, tail, txnId, ws, n);
      assert all[..n - 1] == front;
      PrintOne(r, d, Apply(d, front), tail, txnId, ws, n - 1);
    }
  }

  // ---------- reading the printed records back ----------

  /** What a reader makes of data records printed from slot `cur`: a record whose header sits in the
      last slot gets the block physically after the journal for its payload. */
  function ReadBack(r: Ring, d: seq<Block>, cur: nat, ws: seq<Write>): (s: seq<Write>)
    requires r.start + r.blocks < |d| && cur < r.blocks
    ensures |s| == |ws|
    decreases |ws|
  {
    if ws == [] then []
    else [Write(ws[0].target, if cur == r.blocks - 1 then d[r.start + r.blocks] else ws[0].data)]
         + ReadBack(r, d, Slot(r, cur + 2), ws[1..])
  }

  lemma {:induction false} ReadBackPlain(r: Ring, d: seq<Block>, cur: nat, ws: seq<Write>)
    requires r.start + r.blocks < |d| && cur < r.blocks && cur + 2 * |ws| <= r.blocks
    ensures ReadBack(r, d, cur, ws) == ws
    decreases |ws|
  {
    if ws != [] { ReadBackPlain(r, d, Slot(r, cur + 2), ws[1..]); }
  }

  /** `f` is `e` except perhaps in the journal superblock. */
  ghost predicate SuperDiffers(r: Ring, e: seq<Block>, f: seq<Block>) {
    |f| == |e| && forall b :: 0 <= b < |e| && b != r.start ==> f[b] == e[b]
  }

  lemma RecordPair(txnId: LongWord, ws: seq<Write>, j: nat)
    requires j < |ws|
    ensures RecordBlock(txnId, ws, 2 * j) == HeaderBlock(ws[j].target, ws[j].data)
    ensures RecordBlock(txnId, ws, 2 * j + 1) == ws[j].data
  {
    hide HeaderBlock, CommitBlock;
  }

  /** Record `j`, once printed, is read at its slot, unless the superblock has replaced its header. */
  lemma RecordRead(r: Ring, d: seq<Block>, e: seq<Block>, f: seq<Block>, tail: nat, txnId: LongWord, ws: seq<Write>,
                   n: nat, j: nat)
    requires n <= 2 * |ws| + 1 && 2 * j + 2 <= n && j < |ws|
    requires Printed(r, d, e, tail, txnId, ws, n) && SuperDiffers(r, e, f)
    requires Slot(r, tail + 2 * j) != 0 || f == e
    ensures var cur := Slot(r, tail + 2 * j);
            var payload := if cur == r.blocks - 1 then d[r.start + r.blocks] else ws[j].data;
            ReadSlot(r, f, cur) == Data(Write(ws[j].target, payload))
  {
    hide HeaderBlock, RecordBlock, Magic, TargetOf;
    RecordPair(txnId, ws, j);
    PairOnDisk(r, d, e, f, tail, txnId, ws, n, j);
    hide Printed, SuperDiffers;
    HeaderDecodes(ws[j].target, ws[j].data);
  }

  /** Header and payload of a printed record, where a reader looks for them. */
  lemma PairOnDisk(r: Ring, d: seq<Block>, e: seq<Block>, f: seq<Block>, tail: nat, txnId: LongWord, ws: seq<Write>,
                   n: nat, j: nat)
    requires n <= 2 * |ws| + 1 && 2 * j + 2 <= n && j < |ws|
    requires Printed(r, d, e, tail, txnId, ws, n) && SuperDiffers(r, e, f)
    requires Slot(r, tail + 2 * j) != 0 || f == e
    ensures var cur := Slot(r, tail + 2 * j);
            && cur < r.blocks && r.start + r.blocks < |f|
            && f[r.start + cur] == HeaderBlock(ws[j].target, ws[j].data)
            && f[r.start + cur + 1] == if cur == r.blocks - 1 then d[r.start + r.blocks] else ws[j].data
  {
    hide HeaderBlock, RecordBlock;
    var cur := Slot(r, tail + 2 * j);
    RecordPair(txnId, ws, j);
    assert SlotBlock(r, e, tail, 2 * j) == HeaderBlock(ws[j].target, ws[j].data);
    assert cur < r.blocks - 1 ==> f[r.start + cur + 1] == ws[j].data by {
      assert SlotBlock(r, e, tail, 2 * j + 1) == ws[j].data;
    }
  }

  lemma {:induction false} RecordsRead(r: Ring, d: seq<Block>, e: seq<Block>, f: seq<Block>, tail: nat, txnId: LongWord,
                                       ws: seq<Write>, n: nat, j: nat, k: nat)
    requires n <= 2 * |ws| + 1 && j <= k <= |ws| && 2 * k <= n
    requires Printed(r, d, e, tail, txnId, ws, n) && SuperDiffers(r, e, f)
    requires f == e || forall i :: j <= i < k ==> Slot(r, tail + 2 * i) != 0
    ensures var cur := Slot(r, tail + 2 * j); RecordsAt(r, f, cur, ReadBack(r, d, cur, ws[j..k]))
    decreases k - j
  {
    if j < k {
      RecordRead(r, d, e, f, tail, txnId, ws, n, j);
      RecordsRead(r, d, e, f, tail, txnId, ws, n, j + 1, k);
      assert ws[j..k][1..] == ws[j + 1..k];
      assert Slot(r, Slot(r, tail + 2 * j) + 2) == Slot(r, tail + 2 * (j + 1));
    }
  }

  /** The log survives what is printed into free slots, and the new superblock. */
  lemma LogSurvives(r: Ring, d: seq<Block>, e: seq<Block>, f: seq<Block>, head: nat, tail: nat, log: seq<seq<Write>>,
                    txnId: LongWord, ws: seq<Write>, n: nat)
    requires LogAt(r, d, head, tail, log) && n <= 2 * |ws| + 1 && n <= Free(r, head, tail)
    requires Printed(r, d, e, tail, txnId, ws, n) && SuperDiffers(r, e, f)
    ensures LogHolds(r, f, head, EndOf(r, head, tail), log)
  {
    LogSpan(r, d, head, EndOf(r, head, tail), log);
    if log != [] {
      assert SameSlots(r, d, f, head, EndOf(r, head, tail));
      LogFrame(r, d, f, head, EndOf(r, head, tail), log);
    }
  }

  /** A commit that stays off slot 0 appends its transaction to the log. */
  predicate StaysOffSlotZero(r: Ring, tail: nat, n: nat) { 1 <= tail && tail + 2 * n + 1 <= r.blocks }

  lemma CommitPrintsTxn(r: Ring, d: seq<Block>, e: seq<Block>, f: seq<Block>, tail: nat, txnId: LongWord,
                        ws: seq<Write>)
    requires StaysOffSlotZero(r, tail, |ws|)
    requires Printed(r, d, e, tail, txnId, ws, 2 * |ws| + 1) && SuperDiffers(r, e, f)
    ensures TxnAt(r, f, tail, ws)
  {
    RecordsRead(r, d, e, f, tail, txnId, ws, 2 * |ws| + 1, 0, |ws|);
    ReadBackPlain(r, d, tail, ws);
    assert ws[0..|ws|] == ws;
    CommitRead(r, d, e, f, tail, txnId, ws);
  }

  lemma CommitAppends(r: Ring, d: seq<Block>, e: seq<Block>, f: seq<Block>, head: nat, tail: nat, log: seq<seq<Write>>,
                      txnId: LongWord, ws: seq<Write>)
    requires LogAt(r, d, head, tail, log) && ws != [] && StaysOffSlotZero(r, tail, |ws|)
    requires Printed(r, d, e, tail, txnId, ws, 2 * |ws| + 1) && SuperDiffers(r, e, f)
    ensures LogAt(r, f, head, Slot(r, tail + 2 * |ws| + 1), log + [ws])
  {
    LogSpan(r, d, head, EndOf(r, head, tail), log);
    assert EndOf(r, head, tail) == tail;
    LogSurvives(r, d, e, f, head, tail, log, txnId, ws, 2 * |ws| + 1);
    CommitPrintsTxn(r, d, e, f, tail, txnId, ws);
    LogAppend(r, f, head, tail, log, ws);
  }

  lemma CommitRead(r: Ring, d: seq<Block>, e: seq<Block>, f: seq<Block>, tail: nat, txnId: LongWord, ws: seq<Write>)
    requires Printed(r, d, e, tail, txnId, ws, 2 * |ws| + 1) && SuperDiffers(r, e, f)
    requires Slot(r, tail + 2 * |ws|) != 0
    ensures ReadSlot(r, f, Slot(r, tail + 2 * |ws|)) == Commit
  {
    assert SlotBlock(r, e, tail, 2 * |ws|) == RecordBlock(txnId, ws, 2 * |ws|);
    CommitDecodes(txnId, |ws| % 0x1_0000_0000);
  }

  /** Whatever was printed into free slots, both readers pass the old log and go on at the old tail. */
  lemma ScanPassesOldLog(r: Ring, d: seq<Block>, e: seq<Block>, f: seq<Block>, head: nat, tail: nat,
                         log: seq<seq<Write>>, txnId: LongWord, ws: seq<Write>, n: nat, q: nat)
    returns (left: nat)
    requires LogAt(r, d, head, tail, log) && n <= 2 * |ws| + 1 && n <= Free(r, head, tail)
    requires Printed(r, d, e, tail, txnId, ws, n) && SuperDiffers(r, e, f) && q <= Free(r, head, tail)
    ensures left == r.blocks - Steps(log) && Free(r, head, tail) + 1 <= left
    ensures var tail' := Slot(r, tail + q);
            Scan(r, f, head, tail', [], r.blocks) == PrependAll(log, Scan(r, f, tail, tail', [], left))
  {
    hide Scan, Steps, LogHolds, PrependAll;
    PrintedGeometry(r, d, e, f, tail, txnId, ws, n);
    var end := EndOf(r, head, tail);
    LogSpan(r, d, head, end, log);
    assert LogHolds(r, f, head, end, log) by { LogSurvives(r, d, e, f, head, tail, log, txnId, ws, n); }
    StepsBound(r, f, head, end, log);
    left := r.blocks - Steps(log);
    var tail' := Slot(r, tail + q);
    hide Printed, SuperDiffers;
    assert Slot(r, head) == head && Slot(r, end) == tail;
    assert tail' < head || end <= tail';
    ScanThroughLog(r, f, head, end, tail', log, r.blocks);
  }

  lemma SweepPassesOldLog(r: Ring, d: seq<Block>, e: seq<Block>, f: seq<Block>, head: nat, tail: nat,
                          log: seq<seq<Write>>, txnId: LongWord, ws: seq<Write>, n: nat, q: nat)
    returns (left: nat)
    requires LogAt(r, d, head, tail, log) && n <= 2 * |ws| + 1 && n <= Free(r, head, tail)
    requires Printed(r, d, e, tail, txnId, ws, n) && SuperDiffers(r, e, f) && q <= Free(r, head, tail)
    ensures left == r.blocks - Steps(log) && Free(r, head, tail) + 1 <= left
    ensures var tail' := Slot(r, tail + q);
            Sweep(r, f, head, tail', r.blocks) == Onto(Flatten(log), Sweep(r, f, tail, tail', left))
  {
    hide Sweep, Steps, LogHolds, Flatten, Onto;
    PrintedGeometry(r, d, e, f, tail, txnId, ws, n);
    var end := EndOf(r, head, tail);
    LogSpan(r, d, head, end, log);
    assert LogHolds(r, f, head, end, log) by { LogSurvives(r, d, e, f, head, tail, log, txnId, ws, n); }
    StepsBound(r, f, head, end, log);
    left := r.blocks - Steps(log);
    var tail' := Slot(r, tail + q);
    hide Printed, SuperDiffers;
    assert Slot(r, head) == head && Slot(r, end) == tail;
    assert tail' < head || end <= tail';
    SweepThroughLog(r, f, head, end, tail', log, r.blocks);
  }

  // ---------- a commit that wraps ----------

  /** The one lucky wrap: slot 0 falls on a payload, and the block the reader takes instead, the one
      physically behind the journal, happens to hold the same bytes. */
  predicate LuckyWrap(r: Ring, d: seq<Block>, tail: nat, ws: seq<Write>)
    requires r.start + r.blocks < |d|
  {
    && 1 <= tail < r.blocks < tail + 2 * |ws|
    && (r.blocks - tail) % 2 == 1
    && ws[(r.blocks - 1 - tail) / 2].data == d[r.start + r.blocks]
  }

  lemma {:induction false} RingMisses(r: Ring, cur: nat, m: nat, q: nat)
    requires cur < r.blocks && 2 * m <= q < r.blocks
    ensures Misses(r, cur, m, Slot(r, cur + q))
    decreases m
  {
    if m > 0 { RingMisses(r, Slot(r, cur + 2), m - 1, q - 2); }
  }

  /** Header `m` (or the commit record, when `m == |ws|`) fell on slot 0: the scan stops there. */
  lemma ScanStopsAtSlotZero(r: Ring, d: seq<Block>, e: seq<Block>, f: seq<Block>, tail: nat, txnId: LongWord,
                            ws: seq<Write>, m: nat, fuel: nat)
    requires m <= |ws| && m < fuel
    requires Printed(r, d, e, tail, txnId, ws, 2 * |ws| + 1) && SuperDiffers(r, e, f)
    requires Slot(r, tail + 2 * m) == 0 && Magic(f[r.start]) == JOURNAL_MAGIC
    ensures var s := Scan(r, f, tail, Slot(r, tail + 2 * |ws| + 1), [], fuel); s.Done? && s.txns == []
  {
    var tail' := Slot(r, tail + 2 * |ws| + 1);
    var back := ReadBack(r, d, tail, ws[0..m]);
    assert RecordsAt(r, f, tail, back) by { RecordsRead(r, d, e, f, tail, txnId, ws, 2 * |ws| + 1, 0, m); }
    assert Misses(r, tail, m, tail') by { RingMisses(r, tail, m, 2 * |ws| + 1); }
    assert After(r, tail, m) == 0;
    assert Scan(r, f, tail, tail', [], fuel) == Scan(r, f, 0, tail', [] + back, fuel - m) by {
      ScanRecords(r, f, tail, tail', [], back, fuel);
    }
  }

  lemma ScanLastCommit(r: Ring, f: seq<Block>, cur: nat, tail: nat, pend: seq<Write>, fuel: nat)
    requires cur < r.blocks && r.start + r.blocks < |f| && 1 <= fuel && pend != []
    requires ReadSlot(r, f, cur) == Commit && Slot(r, cur + 1) == tail
    ensures Scan(r, f, cur, tail, pend, fuel) == Done([pend], [])
  {
    assert [pend] + [] == [pend];
  }

  lemma PrintedGeometry(r: Ring, d: seq<Block>, e: seq<Block>, f: seq<Block>, tail: nat, txnId: LongWord,
                        ws: seq<Write>, n: nat)
    requires n <= 2 * |ws| + 1 && Printed(r, d, e, tail, txnId, ws, n) && SuperDiffers(r, e, f)
    ensures |d| == |e| == |f| && r.start + r.blocks < |f| && tail < r.blocks && n < r.blocks
  {}

  /** No header and no commit record on slot 0: records and commit record are read. */
  lemma TxnReadsBack(r: Ring, d: seq<Block>, e: seq<Block>, f: seq<Block>, tail: nat, txnId: LongWord, ws: seq<Write>)
    requires Printed(r, d, e, tail, txnId, ws, 2 * |ws| + 1) && SuperDiffers(r, e, f)
    requires forall m :: 0 <= m <= |ws| ==> Slot(r, tail + 2 * m) != 0
    ensures |d| == |f| && r.start + r.blocks < |f| && tail < r.blocks && 2 * |ws| + 1 < r.blocks
    ensures RecordsAt(r, f, tail, ReadBack(r, d, tail, ws)) && ReadSlot(r, f, Slot(r, tail + 2 * |ws|)) == Commit
  {
    hide ReadBack, RecordBlock, Magic, RecordsAt, ReadSlot;
    PrintedGeometry(r, d, e, f, tail, txnId, ws, 2 * |ws| + 1);
    hide Printed, SuperDiffers;
    RecordsRead(r, d, e, f, tail, txnId, ws, 2 * |ws| + 1, 0, |ws|);
    assert ws[0..|ws|] == ws;
    CommitRead(r, d, e, f, tail, txnId, ws);
  }

  /** No header and no commit record on slot 0: the whole transaction is read, as `ReadBack` has it. */
  lemma ScanReadsBack(r: Ring, d: seq<Block>, e: seq<Block>, f: seq<Block>, tail: nat, txnId: LongWord, ws: seq<Write>,
                      fuel: nat)
    requires |ws| + 1 <= fuel && ws != []
    requires Printed(r, d, e, tail, txnId, ws, 2 * |ws| + 1) && SuperDiffers(r, e, f)
    requires forall m :: 0 <= m <= |ws| ==> Slot(r, tail + 2 * m) != 0
    ensures Scan(r, f, tail, Slot(r, tail + 2 * |ws| + 1), [], fuel) == Done([ReadBack(r, d, tail, ws)], [])
  {
    hide Scan, ReadBack, RecordBlock, Magic, RecordsAt, ReadSlot;
    var n := |ws|;
    var tail' := Slot(r, tail + 2 * n + 1);
    TxnReadsBack(r, d, e, f, tail, txnId, ws);
    hide Printed, SuperDiffers;
    var back := ReadBack(r, d, tail, ws);
    assert Misses(r, tail, n, tail') by { RingMisses(r, tail, n, 2 * n + 1); }
    var cur := Slot(r, tail + 2 * n);
    assert After(r, tail, n) == cur;
    assert Scan(r, f, tail, tail', [], fuel) == Scan(r, f, cur, tail', back, fuel - n) by {
      ScanRecords(r, f, tail, tail', [], back, fuel);
      assert [] + back == back;
    }
    ScanLastCommit(r, f, cur, tail', back, fuel - n);
  }

  /** Only a record whose header sits in the last slot can come back changed. */
  lemma {:induction false} ReadBackSame(r: Ring, d: seq<Block>, cur: nat, ws: seq<Write>)
    requires r.start + r.blocks < |d| && 1 <= cur < r.blocks && 2 * |ws| < r.blocks
    requires cur + 2 * |ws| > r.blocks ==> (r.blocks - cur) % 2 == 1
    ensures ReadBack(r, d, cur, ws) == ws <==>
      (cur + 2 * |ws| <= r.blocks || ws[(r.blocks - 1 - cur) / 2].data == d[r.start + r.blocks])
    decreases |ws|
  {
    if cur + 2 * |ws| <= r.blocks {
      ReadBackPlain(r, d, cur, ws);
    } else if cur == r.blocks - 1 {
      ReadBackPlain(r, d, 1, ws[1..]);
      assert ReadBack(r, d, cur, ws)[0].data == d[r.start + r.blocks];
      assert ws == [ws[0]] + ws[1..];
    } else {
      ReadBackSame(r, d, cur + 2, ws[1..]);
      var back := ReadBack(r, d, cur + 2, ws[1..]);
      assert ReadBack(r, d, cur, ws) == [ws[0]] + back;
      assert ws == [ws[0]] + ws[1..];
      assert ([ws[0]] + back)[1..] == back;
      assert (r.blocks - 1 - cur) / 2 == (r.blocks - 1 - (cur + 2)) / 2 + 1;
    }
  }

  /** Some header, or the commit record, falls on slot 0. */
  predicate HitsSlotZero(r: Ring, tail: nat, n: nat) {
    tail == 0 || (tail < r.blocks && (r.blocks - tail) % 2 == 0 && r.blocks - tail <= 2 * n)
  }

  lemma WhoHitsSlotZero(r: Ring, tail: nat, n: nat) returns (m: nat)
    requires tail < r.blocks && 2 * n + 1 < r.blocks
    ensures HitsSlotZero(r, tail, n) ==> m <= n && Slot(r, tail + 2 * m) == 0
    ensures !HitsSlotZero(r, tail, n) ==> forall i :: 0 <= i <= n ==> Slot(r, tail + 2 * i) != 0
  {
    m := if tail == 0 then 0 else (r.blocks - tail) / 2;
  }

  /** Exactly when a commit that had room is recovered: it stays off slot 0, or is lucky. */
  lemma CommitRecoveredIff(r: Ring, d: seq<Block>, e: seq<Block>, f: seq<Block>, head: nat, tail: nat,
                           log: seq<seq<Write>>, txnId: LongWord, ws: seq<Write>)
    requires LogAt(r, d, head, tail, log) && ws != [] && 2 * |ws| + 1 <= Free(r, head, tail)
    requires Printed(r, d, e, tail, txnId, ws, 2 * |ws| + 1) && SuperDiffers(r, e, f)
    requires Magic(f[r.start]) == JOURNAL_MAGIC
    ensures Scan(r, f, head, Slot(r, tail + 2 * |ws| + 1), [], r.blocks) == Done(log + [ws], []) <==>
            StaysOffSlotZero(r, tail, |ws|) || LuckyWrap(r, d, tail, ws)
  {
    hide Scan, ReadBack;
    LogSpan(r, d, head, EndOf(r, head, tail), log);
    var left := ScanPassesOldLog(r, d, e, f, head, tail, log, txnId, ws, 2 * |ws| + 1, 2 * |ws| + 1);
    var rest := Scan(r, f, tail, Slot(r, tail + 2 * |ws| + 1), [], left);
    var m := WhoHitsSlotZero(r, tail, |ws|);
    if HitsSlotZero(r, tail, |ws|) {
      assert rest.Done? && rest.txns == [] by { ScanStopsAtSlotZero(r, d, e, f, tail, txnId, ws, m, left); }
      assert PrependAll(log, rest) != Done(log + [ws], []) by { assert |log + [ws]| != |log + []|; }
    } else {
      var back := ReadBack(r, d, tail, ws);
      assert rest == Done([back], []) by { ScanReadsBack(r, d, e, f, tail, txnId, ws, left); }
      assert PrependAll(log, rest) == Done(log + [ws], []) <==> back == ws by {
        assert (log + [back])[|log|] == back && (log + [ws])[|log|] == ws;
      }
      assert back == ws <==> StaysOffSlotZero(r, tail, |ws|) || LuckyWrap(r, d, tail, ws) by {
        ReadBackSame(r, d, tail, ws);
      }
    }
  }

  // ---------- what the sweep makes of a commit, wrapping or not ----------

  /** A sweep of the slots `[cur, end)`, the last one no data record, returns at most one write for two slots;
      when it returns that many, the last one pairs the two last slots. */
  lemma {:induction false} LinearSweep(r: Ring, f: seq<Block>, cur: nat, end: nat, fuel: nat) returns (x: seq<Write>)
    requires cur <= end < r.blocks && r.start + r.blocks < |f| && end - cur <= fuel
    requires cur < end ==> !ReadSlot(r, f, end - 1).Data?
    ensures Sweep(r, f, cur, end, fuel) == Some(x) && 2 * |x| <= end - cur
    ensures 2 * |x| == end - cur > 0 ==> ReadSlot(r, f, end - 2) == Data(x[|x| - 1])
    decreases end - cur
  {
    if cur == end {
      x := [];
    } else if ReadSlot(r, f, cur).Data? {
      var rest := LinearSweep(r, f, cur + 2, end, fuel - 1);
      x := [ReadSlot(r, f, cur).write] + rest;
    } else {
      x := LinearSweep(r, f, cur + 1, end, fuel - 1);
    }
  }

  /** No header and no commit record on slot 0: the sweep returns the transaction as `ReadBack` has it. */
  lemma SweepReadsBack(r: Ring, d: seq<Block>, e: seq<Block>, f: seq<Block>, tail: nat, txnId: LongWord, ws: seq<Write>,
                       fuel: nat)
    requires |ws| + 1 <= fuel
    requires Printed(r, d, e, tail, txnId, ws, 2 * |ws| + 1) && SuperDiffers(r, e, f)
    requires forall m :: 0 <= m <= |ws| ==> Slot(r, tail + 2 * m) != 0
    ensures Sweep(r, f, tail, Slot(r, tail + 2 * |ws| + 1), fuel) == Some(ReadBack(r, d, tail, ws))
  {
    hide Sweep, ReadBack, RecordBlock, Magic, RecordsAt, ReadSlot;
    var n := |ws|;
    var tail' := Slot(r, tail + 2 * n + 1);
    TxnReadsBack(r, d, e, f, tail, txnId, ws);
    hide Printed, SuperDiffers;
    var back := ReadBack(r, d, tail, ws);
    var cur := Slot(r, tail + 2 * n);
    assert Misses(r, tail, n, tail') by { RingMisses(r, tail, n, 2 * n + 1); }
    assert After(r, tail, n) == cur;
    SweepRecords(r, f, tail, tail', back, fuel);
    SweepSkipsLast(r, f, cur, tail', fuel - n);
    OntoNothing(back);
  }

  lemma SweepSkipsLast(r: Ring, f: seq<Block>, cur: nat, tail: nat, fuel: nat)
    requires cur < r.blocks && r.start + r.blocks < |f| && 1 <= fuel
    requires !ReadSlot(r, f, cur).Data? && Slot(r, cur + 1) == tail
    ensures Sweep(r, f, cur, tail, fuel) == Some([])
  {}

  lemma OntoNothing(ws: seq<Write>)
    ensures Onto(ws, Some([])) == Some(ws)
  {
    assert ws + [] == ws;
  }

  /** The sweep comes to slot 0 behind the records before header `m`. */
  lemma SweepToZero(r: Ring, d: seq<Block>, e: seq<Block>, f: seq<Block>, tail: nat, txnId: LongWord, ws: seq<Write>,
                    m: nat, fuel: nat)
    requires m < |ws| && 2 * |ws| + 2 <= fuel && Slot(r, tail + 2 * m) == 0
    requires Printed(r, d, e, tail, txnId, ws, 2 * |ws| + 1) && SuperDiffers(r, e, f)
    ensures var tail' := Slot(r, tail + 2 * |ws| + 1);
            && tail' == 2 * (|ws| - m) + 1
            && Sweep(r, f, tail, tail', fuel) == Onto(ReadBack(r, d, tail, ws[..m]), Sweep(r, f, 0, tail', fuel - m))
  {
    hide Sweep, ReadBack, RecordBlock, RecordsAt, Onto;
    PrintedGeometry(r, d, e, f, tail, txnId, ws, 2 * |ws| + 1);
    var n := |ws|;
    var tail' := Slot(r, tail + 2 * n + 1);
    var back := ReadBack(r, d, tail, ws[..m]);
    assert RecordsAt(r, f, tail, back) by {
      RecordsRead(r, d, e, f, tail, txnId, ws, 2 * n + 1, 0, m);
      assert ws[0..m] == ws[..m];
    }
    hide Printed, SuperDiffers;
    assert Misses(r, tail, m, tail') by { RingMisses(r, tail, m, 2 * n + 1); }
    assert After(r, tail, m) == 0;
    SweepRecords(r, f, tail, tail', back, fuel);
  }

  /** Header `m` fell on slot 0, where the superblock has replaced it: the sweep misses that record and cannot
      make up for it, whatever it reads out of the payloads from slot 1 on. */
  lemma SweepMissesRecord(r: Ring, d: seq<Block>, e: seq<Block>, f: seq<Block>, tail: nat, txnId: LongWord,
                          ws: seq<Write>, m: nat, fuel: nat)
    requires m < |ws| && 2 * |ws| + 2 <= fuel
    requires Printed(r, d, e, tail, txnId, ws, 2 * |ws| + 1) && SuperDiffers(r, e, f)
    requires Slot(r, tail + 2 * m) == 0 && Magic(f[r.start]) == JOURNAL_MAGIC
    ensures Sweep(r, f, tail, Slot(r, tail + 2 * |ws| + 1), fuel) != Some(ws)
  {
    hide Sweep, ReadBack, RecordBlock, CommitBlock, Magic;
    PrintedGeometry(r, d, e, f, tail, txnId, ws, 2 * |ws| + 1);
    SweepToZero(r, d, e, f, tail, txnId, ws, m, fuel);
    LastPairOnDisk(r, d, e, f, tail, txnId, ws, m);
    hide Printed, SuperDiffers;
    var x := SweepPastZero(r, f, 2 * (|ws| - m) + 1, fuel - m);
    SameLast(ReadBack(r, d, tail, ws[..m]), x, ws);
  }

  lemma SameLast(front: seq<Write>, x: seq<Write>, ws: seq<Write>)
    ensures front + x == ws ==> |x| == |ws| - |front| && (x != [] ==> x[|x| - 1] == ws[|ws| - 1])
  {
    if x != [] { assert (front + x)[|front + x| - 1] == x[|x| - 1]; }
  }

  /** From a superblock on slot 0 to a tail behind a commit record. */
  lemma SweepPastZero(r: Ring, f: seq<Block>, tail: nat, fuel: nat) returns (x: seq<Write>)
    requires 1 < tail < r.blocks && r.start + r.blocks < |f| && tail <= fuel
    requires !ReadSlot(r, f, 0).Data? && !ReadSlot(r, f, tail - 1).Data?
    ensures Sweep(r, f, 0, tail, fuel) == Some(x) && 2 * |x| <= tail - 1
    ensures 2 * |x| == tail - 1 ==> ReadSlot(r, f, tail - 2) == Data(x[|x| - 1])
  {
    hide Sweep, ReadSlot;
    SweepSkipsOne(r, f, 0, tail, fuel);
    x := LinearSweep(r, f, 1, tail, fuel - 1);
  }

  lemma SweepSkipsOne(r: Ring, f: seq<Block>, cur: nat, tail: nat, fuel: nat)
    requires cur < r.blocks && r.start + r.blocks < |f| && 1 <= fuel && cur != tail && !ReadSlot(r, f, cur).Data?
    ensures Sweep(r, f, cur, tail, fuel) == Sweep(r, f, Slot(r, cur + 1), tail, fuel - 1)
  {}

  lemma PayloadOnDisk(r: Ring, d: seq<Block>, e: seq<Block>, f: seq<Block>, tail: nat, txnId: LongWord, ws: seq<Write>,
                      j: nat)
    requires j < |ws| && Printed(r, d, e, tail, txnId, ws, 2 * |ws| + 1) && SuperDiffers(r, e, f)
    requires Slot(r, tail + 2 * j + 1) != 0
    ensures r.start + r.blocks < |f| && f[r.start + Slot(r, tail + 2 * j + 1)] == ws[j].data
  {
    hide RecordBlock;
    RecordPair(txnId, ws, j);
    assert SlotBlock(r, e, tail, 2 * j + 1) == RecordBlock(txnId, ws, 2 * j + 1);
  }

  /** With header `m` on slot 0 the last payload and the commit record are at the end of slots `[1, tail)`; no
      data record can pair them. */
  lemma LastPairOnDisk(r: Ring, d: seq<Block>, e: seq<Block>, f: seq<Block>, tail: nat, txnId: LongWord, ws: seq<Write>,
                       m: nat)
    requires m < |ws| && Slot(r, tail + 2 * m) == 0
    requires Printed(r, d, e, tail, txnId, ws, 2 * |ws| + 1) && SuperDiffers(r, e, f)
    ensures var last := 2 * (|ws| - m);
            && last < r.blocks && r.start + r.blocks < |f|
            && ReadSlot(r, f, last) == Commit
            && ReadSlot(r, f, last - 1) != Data(ws[|ws| - 1])
  {
    hide RecordBlock, CommitBlock, Magic;
    PrintedGeometry(r, d, e, f, tail, txnId, ws, 2 * |ws| + 1);
    var n := |ws|;
    var last := 2 * (n - m);
    assert Slot(r, tail + 2 * n) == last && Slot(r, tail + 2 * (n - 1) + 1) == last - 1;
    CommitRead(r, d, e, f, tail, txnId, ws);
    PayloadOnDisk(r, d, e, f, tail, txnId, ws, n - 1);
    hide Printed, SuperDiffers, Slot;
  }

  /** No record falls on slot 0, though the commit record may. */
  predicate RecordsOffSlotZero(r: Ring, tail: nat, n: nat) { 1 <= tail && tail + 2 * n <= r.blocks }

  /** What of a commit that had room the ordinary sweep carries home: all of it, and nothing else. */
  predicate SweptWhole(r: Ring, d: seq<Block>, tail: nat, ws: seq<Write>)
    requires r.start + r.blocks < |d|
  {
    RecordsOffSlotZero(r, tail, |ws|) || LuckyWrap(r, d, tail, ws)
  }

  /** Exactly when the next checkpoint, with no crash at all, sweeps up the log and the transaction: the
      commit stays off slot 0, or only its commit record falls there, or it is lucky. */
  lemma CommitSweptIff(r: Ring, d: seq<Block>, e: seq<Block>, f: seq<Block>, head: nat, tail: nat, log: seq<seq<Write>>,
                       txnId: LongWord, ws: seq<Write>)
    requires LogAt(r, d, head, tail, log) && ws != [] && 2 * |ws| + 1 <= Free(r, head, tail)
    requires Printed(r, d, e, tail, txnId, ws, 2 * |ws| + 1) && SuperDiffers(r, e, f)
    requires Magic(f[r.start]) == JOURNAL_MAGIC
    ensures Sweep(r, f, head, Slot(r, tail + 2 * |ws| + 1), r.blocks) == Some(Flatten(log) + ws) <==>
      SweptWhole(r, d, tail, ws)
  {
    hide Sweep, ReadBack, Flatten, RecordBlock, Magic;
    PrintedGeometry(r, d, e, f, tail, txnId, ws, 2 * |ws| + 1);
    var left := SweepPassesOldLog(r, d, e, f, head, tail, log, txnId, ws, 2 * |ws| + 1, 2 * |ws| + 1);
    var rest := Sweep(r, f, tail, Slot(r, tail + 2 * |ws| + 1), left);
    SameBehind(Flatten(log), rest, ws);
    var m := WhoHitsSlotZero(r, tail, |ws|);
    if !HitsSlotZero(r, tail, |ws|) {
      SweepReadsBack(r, d, e, f, tail, txnId, ws, left);
      ReadBackSame(r, d, tail, ws);
    } else if m < |ws| {
      SweepMissesRecord(r, d, e, f, tail, txnId, ws, m, left);
    } else {
      SweepPastZeroCommit(r, d, e, f, tail, txnId, ws, left);
    }
  }

  lemma SameBehind(front: seq<Write>, rest: Option<seq<Write>>, ws: seq<Write>)
    ensures Onto(front, rest) == Some(front + ws) <==> rest == Some(ws)
  {
    if rest.Some? && front + rest.value == front + ws {
      assert rest.value == (front + rest.value)[|front|..] == (front + ws)[|front|..] == ws;
    }
  }

  /** Only the commit record fell on slot 0: the sweep takes the superblock there for an unknown block. */
  lemma SweepPastZeroCommit(r: Ring, d: seq<Block>, e: seq<Block>, f: seq<Block>, tail: nat, txnId: LongWord,
                            ws: seq<Write>, fuel: nat)
    requires 1 <= tail && tail + 2 * |ws| == r.blocks && |ws| + 1 <= fuel
    requires Printed(r, d, e, tail, txnId, ws, 2 * |ws| + 1) && SuperDiffers(r, e, f)
    requires Magic(f[r.start]) == JOURNAL_MAGIC
    ensures Sweep(r, f, tail, Slot(r, tail + 2 * |ws| + 1), fuel) == Some(ws)
  {
    hide Sweep, ReadBack, RecordBlock, Magic;
    PrintedGeometry(r, d, e, f, tail, txnId, ws, 2 * |ws| + 1);
    var n := |ws|;
    assert RecordsAt(r, f, tail, ws) by {
      RecordsRead(r, d, e, f, tail, txnId, ws, 2 * n + 1, 0, n);
      ReadBackPlain(r, d, tail, ws);
      assert ws[0..n] == ws;
    }
    hide Printed, SuperDiffers;
    assert Misses(r, tail, n, 1) by { RingMisses(r, tail, n, 2 * n + 1); }
    assert After(r, tail, n) == 0;
    SweepRecords(r, f, tail, 1, ws, fuel);
    SweepSkipsLast(r, f, 0, 1, fuel - n);
    OntoNothing(ws);
  }

  // ---------- a commit that runs out of room ----------

  /** Complete records a commit of `n` writes gets onto the ring before "Journal is full". */
  function TornRecords(free: nat, n: nat): nat { if free / 2 < n then free / 2 else n }

  /** More fuel does not change what a sweep that met the tail returned. */
  lemma {:induction false} SweepMoreFuel(r: Ring, d: seq<Block>, cur: nat, tail: nat, fuel: nat, more: nat)
    requires cur < r.blocks && r.start + r.blocks < |d| && Sweep(r, d, cur, tail, fuel).Some?
    ensures Sweep(r, d, cur, tail, fuel + more) == Sweep(r, d, cur, tail, fuel)
    decreases fuel
  {
    if cur != tail {
      SweepMoreFuel(r, d, Slot(r, cur + if ReadSlot(r, d, cur).Data? then 2 else 1), tail, fuel - 1, more);
    }
  }

  /** A walk from `head` comes to `slot` after `steps` steps; a data record there jumps over the tail and back to
      `head`. Then no walk meets the tail. */
  lemma {:induction false} NeverMeetsTail(r: Ring, e: seq<Block>, head: nat, slot: nat, tail: nat, steps: nat,
                                          before: seq<Write>, fuel: nat)
    requires head < r.blocks && slot < r.blocks && r.start + r.blocks < |e|
    requires slot != tail && ReadSlot(r, e, slot).Data? && Slot(r, slot + 2) == head
    requires forall left: nat :: Sweep(r, e, head, tail, steps + left) == Onto(before, Sweep(r, e, slot, tail, left))
    ensures Sweep(r, e, slot, tail, fuel) == None
    decreases fuel
  {
    if fuel > 0 {
      NeverMeetsTail(r, e, head, slot, tail, steps, before, fuel - 1);
      if Sweep(r, e, head, tail, fuel - 1).Some? {
        SweepMoreFuel(r, e, head, tail, fuel - 1, steps);
      }
    }
  }

  /** The sweep passes a log and the records behind it. */
  lemma SweepPassesBoth(r: Ring, e: seq<Block>, head: nat, end: nat, tail: nat, log: seq<seq<Write>>, back: seq<Write>,
                        left: nat)
    requires r.start + r.blocks < |e| && head < r.blocks && end <= r.blocks && tail < r.blocks
    requires LogHolds(r, e, head, end, log)
    requires (tail < head || end <= tail) && RecordsAt(r, e, Slot(r, end), back)
    requires Misses(r, Slot(r, end), |back|, tail)
    ensures Sweep(r, e, head, tail, Steps(log) + |back| + left)
         == Onto(Flatten(log) + back, Sweep(r, e, After(r, Slot(r, end), |back|), tail, left))
  {
    hide Sweep, Flatten, Steps, LogHolds, RecordsAt, Misses, After, Onto;
    assert Slot(r, head) == head;
    SweepThroughLog(r, e, head, end, tail, log, Steps(log) + |back| + left);
    SweepRecords(r, e, Slot(r, end), tail, back, |back| + left);
    OntoOnto(Flatten(log), back, Sweep(r, e, After(r, Slot(r, end), |back|), tail, left));
  }

  /** The sweep passes the log and the torn records behind it. */
  lemma SweepPassesTorn(r: Ring, d: seq<Block>, e: seq<Block>, head: nat, tail: nat, log: seq<seq<Write>>,
                        txnId: LongWord, ws: seq<Write>, k: nat, left: nat)
    requires LogAt(r, d, head, tail, log) && k <= |ws| && 2 * k <= Free(r, head, tail)
    requires Printed(r, d, e, tail, txnId, ws, 2 * k)
    ensures var tail' := Slot(r, tail + Free(r, head, tail));
            Sweep(r, e, head, tail', Steps(log) + k + left)
              == Onto(Flatten(log) + ReadBack(r, d, tail, ws[..k]), Sweep(r, e, Slot(r, tail + 2 * k), tail', left))
  {
    hide Sweep, ReadBack, Flatten, RecordBlock, LogHolds, RecordsAt, Onto, Misses, Steps;
    PrintedGeometry(r, d, e, e, tail, txnId, ws, 2 * k);
    var end, free := EndOf(r, head, tail), Free(r, head, tail);
    var back := ReadBack(r, d, tail, ws[..k]);
    LogSpan(r, d, head, end, log);
    LogSurvives(r, d, e, e, head, tail, log, txnId, ws, 2 * k);
    assert RecordsAt(r, e, tail, back) by {
      RecordsRead(r, d, e, e, tail, txnId, ws, 2 * k, 0, k);
      assert ws[0..k] == ws[..k];
    }
    hide Printed, LogAt;
    RingMisses(r, tail, k, free);
    SweepPassesBoth(r, e, head, end, Slot(r, tail + free), log, back, left);
  }

  /** After a failed commit the next checkpoint's sweep carries home the log and the torn records behind it; but
      when an odd slot is left over and still reads as a data header, the sweep jumps over the moved tail and
      goes round for ever. */
  lemma FailedCommitIsSwept(r: Ring, d: seq<Block>, e: seq<Block>, head: nat, tail: nat, log: seq<seq<Write>>,
                            txnId: LongWord, ws: seq<Write>, k: nat)
    requires LogAt(r, d, head, tail, log) && 0 <= Free(r, head, tail) < 2 * |ws| + 1
    requires k == TornRecords(Free(r, head, tail), |ws|) && Printed(r, d, e, tail, txnId, ws, 2 * k)
    ensures k == Free(r, head, tail) / 2
    ensures var free := Free(r, head, tail);
            Sweep(r, e, head, Slot(r, tail + free), r.blocks) ==
              if JumpsTail(r, d, head, tail) then None else Some(Flatten(log) + ReadBack(r, d, tail, ws[..k]))
  {
    hide Sweep, ReadBack, Flatten, RecordBlock, LogHolds, RecordsAt, Steps, Magic;
    var free := Free(r, head, tail);
    var tail', slot := Slot(r, tail + free), Slot(r, tail + 2 * k);
    var before := Flatten(log) + ReadBack(r, d, tail, ws[..k]);
    PrintedGeometry(r, d, e, e, tail, txnId, ws, 2 * k);
    RoomForSweep(r, d, head, tail, log, k);
    var left: nat := r.blocks - Steps(log) - k;
    forall n: nat ensures Sweep(r, e, head, tail', Steps(log) + k + n) == Onto(before, Sweep(r, e, slot, tail', n)) {
      SweepPassesTorn(r, d, e, head, tail, log, txnId, ws, k, n);
    }
    assert Sweep(r, e, head, tail', r.blocks) == Onto(before, Sweep(r, e, slot, tail', left));
    NextSlotUntouched(r, d, e, tail, txnId, ws, 2 * k);
    hide Printed, LogAt;
    OntoNothing(before);
    SweepsLeftOver(r, e, head, tail, slot, free, Steps(log) + k, before, left);
  }

  lemma NextSlotUntouched(r: Ring, d: seq<Block>, e: seq<Block>, tail: nat, txnId: LongWord, ws: seq<Write>, n: nat)
    requires n <= 2 * |ws| + 1 && Printed(r, d, e, tail, txnId, ws, n)
    ensures var b := r.start + Slot(r, tail + n); b < |e| == |d| && e[b] == d[b]
  {
    hide RecordBlock;
  }

  lemma RoomForSweep(r: Ring, d: seq<Block>, head: nat, tail: nat, log: seq<seq<Write>>, k: nat)
    requires LogAt(r, d, head, tail, log) && 2 * k <= Free(r, head, tail)
    ensures Steps(log) + k < r.blocks && Free(r, head, tail) < r.blocks
  {
    LogSpan(r, d, head, EndOf(r, head, tail), log);
    StepsBound(r, d, head, EndOf(r, head, tail), log);
  }

  /** What the sweep makes of the slot the torn records may leave over. */
  lemma SweepsLeftOver(r: Ring, e: seq<Block>, head: nat, tail: nat, slot: nat, free: nat, steps: nat,
                       before: seq<Write>, fuel: nat)
    requires head < r.blocks && tail < r.blocks && r.start + r.blocks < |e| && 1 <= fuel
    requires free == Free(r, head, tail) < r.blocks && slot == Slot(r, tail + (free - free % 2))
    requires var tail' := Slot(r, tail + free);
             forall left: nat :: Sweep(r, e, head, tail', steps + left) == Onto(before, Sweep(r, e, slot, tail', left))
    ensures Sweep(r, e, slot, Slot(r, tail + free), fuel) ==
      if free % 2 == 1 && ReadSlot(r, e, slot).Data? then None else Some([])
  {
    hide Sweep;
    var tail' := Slot(r, tail + free);
    if free % 2 == 0 {
      SweepEmpty(r, e, tail', fuel);
    } else if ReadSlot(r, e, slot).Data? {
      NeverMeetsTail(r, e, head, slot, tail', steps, before, fuel);
    } else {
      SweepSkipsLast(r, e, slot, tail', fuel);
    }
  }

  lemma SweepEmpty(r: Ring, e: seq<Block>, tail: nat, fuel: nat)
    requires tail < r.blocks && r.start + r.blocks < |e|
    ensures Sweep(r, e, tail, tail, fuel) == Some([])
  {}

  /** With an odd number of free slots the records of a commit that does not fit leave one slot over: does it
      hold what reads as a data header? */
  predicate JumpsTail(r: Ring, d: seq<Block>, head: nat, tail: nat)
    requires r.start + r.blocks < |d| && tail < r.blocks && head < r.blocks
  {
    var free := Free(r, head, tail);
    0 < free < r.blocks && free % 2 == 1 && Magic(d[r.start + Slot(r, tail + free - 1)]) == DATA_MAGIC
  }
}
