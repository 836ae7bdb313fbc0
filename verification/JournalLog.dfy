/** What a device image means as a log: the two readers of journal/mod.rs (`recover` scans for whole
    transactions, `checkpoint` sweeps up every data record) and the shape that `commit` prints. */
module JournalLog {
  import opened Blocks
  import opened JournalFormat
  import opened Options

  /** The journal region: `blocks` slots from block `start`; slot 0 is the journal superblock. */
  datatype Region = Region(start: nat, blocks: nat)

  type Ring = r: Region | 2 <= r.blocks && r.start + r.blocks < 0x1_0000_0000 witness Region(0, 2)

  predicate InJournal(r: Region, b: nat) { r.start <= b < r.start + r.blocks }

  /** A block a transaction may name: on the device and outside the journal. */
  predicate IsHome(r: Region, d: seq<Block>, b: nat) { b < |d| && !InJournal(r, b) }

  ghost predicate AllHome(r: Region, d: seq<Block>, ws: seq<Write>) {
    forall i :: 0 <= i < |ws| ==> IsHome(r, d, ws[i].target)
  }

  /** Reduce a position that is less than one lap past the ring. */
  function Slot(r: Ring, p: nat): nat {
    if p < r.blocks then p else p - r.blocks
  }

  // ---------- reading one slot ----------

  datatype Record = Data(write: Write) | Commit | Unknown

  /** `read_journal_block`: a data record's payload is the physically next block. */
  function ReadSlot(r: Ring, d: seq<Block>, cur: nat): Record
    requires cur < r.blocks && r.start + r.blocks < |d|
  {
    var b := d[r.start + cur];
    if Magic(b) == DATA_MAGIC then Data(Write(TargetOf(b), d[r.start + cur + 1]))
    else if Magic(b) == COMMIT_MAGIC then Commit
    else Unknown
  }

  // ---------- the two readers ----------

  /** Outcome of `recover`'s scan: it may never meet the tail, or end with the transactions to replay
      and the uncommitted writes it discards. */
  datatype Scanned = Hung | Done(txns: seq<seq<Write>>, torn: seq<Write>)

  function Prepend(t: seq<Write>, s: Scanned): Scanned {
    if s.Hung? then Hung else Done([t] + s.txns, s.torn)
  }

  /** The scan of `recover` from slot `cur` to slot `tail` with `pend` collected so far. A scan that
      reaches the tail does so within one step per slot, so `fuel` is the number of slots. */
  function Scan(r: Ring, d: seq<Block>, cur: nat, tail: nat, pend: seq<Write>, fuel: nat): Scanned
    requires cur < r.blocks && r.start + r.blocks < |d|
    decreases fuel
  {
    if cur == tail then Done([], pend)
    else if fuel == 0 then Hung
    else match ReadSlot(r, d, cur)
      case Data(w) => Scan(r, d, Slot(r, cur + 2), tail, pend + [w], fuel - 1)
      case Commit =>
        var rest := Scan(r, d, Slot(r, cur + 1), tail, [], fuel - 1);
        if pend != [] then Prepend(pend, rest) else rest
      case Unknown => Done([], pend)
  }

  function Onto(ws: seq<Write>, rest: Option<seq<Write>>): Option<seq<Write>> {
    if rest.Some? then Some(ws + rest.value) else None
  }

  /** The sweep of `checkpoint`: every data record between head and tail, committed or not. */
  function Sweep(r: Ring, d: seq<Block>, cur: nat, tail: nat, fuel: nat): Option<seq<Write>>
    requires cur < r.blocks && r.start + r.blocks < |d|
    decreases fuel
  {
    if cur == tail then Some([])
    else if fuel == 0 then None
    else match ReadSlot(r, d, cur)
      case Data(w) => Onto([w], Sweep(r, d, Slot(r, cur + 2), tail, fuel - 1))
      case _ => Sweep(r, d, Slot(r, cur + 1), tail, fuel - 1)
  }

  function Flatten(txns: seq<seq<Write>>): seq<Write> {
    if txns == [] then [] else Flatten(txns[..|txns| - 1]) + txns[|txns| - 1]
  }

  lemma {:induction false} FlattenCons(t: seq<Write>, ts: seq<seq<Write>>)
    ensures Flatten([t] + ts) == t + Flatten(ts)
  {
    if ts == [] {
      assert ([t] + ts)[..0] == [];
      assert Flatten([t]) == [] + t;
    } else {
      var n := |ts| - 1;
      assert ([t] + ts)[..n + 1] == [t] + ts[..n];
      FlattenCons(t, ts[..n]);
    }
  }

  // ---------- what the printer leaves behind ----------

  /** Starting at slot `cur` and going round the ring, one data record per write. */
  ghost predicate RecordsAt(r: Ring, d: seq<Block>, cur: nat, ws: seq<Write>)
    requires r.start + r.blocks < |d| && cur < r.blocks
    decreases |ws|
  {
    ws != [] ==>
      && ReadSlot(r, d, cur) == Data(ws[0])
      && RecordsAt(r, d, Slot(r, cur + 2), ws[1..])
  }

  /** Slots `cur ..` hold one data record per write and then a commit record, without wrapping. */
  ghost predicate TxnAt(r: Ring, d: seq<Block>, cur: nat, ws: seq<Write>)
    requires r.start + r.blocks < |d|
  {
    && cur + 2 * |ws| < r.blocks
    && RecordsAt(r, d, cur, ws)
    && ReadSlot(r, d, cur + 2 * |ws|) == Commit
  }

  /** Slots `[cur, end)` hold exactly the non-empty transactions `log`, without wrapping. */
  ghost predicate LogHolds(r: Ring, d: seq<Block>, cur: nat, end: nat, log: seq<seq<Write>>)
    requires r.start + r.blocks < |d|
    decreases |log|
  {
    if log == [] then cur == end
    else
      && log[0] != []
      && cur + 2 * |log[0]| + 1 <= end <= r.blocks
      && TxnAt(r, d, cur, log[0])
      && LogHolds(r, d, cur + 2 * |log[0]| + 1, end, log[1..])
  }

  lemma {:induction false} LogSpan(r: Ring, d: seq<Block>, cur: nat, end: nat, log: seq<seq<Write>>)
    requires r.start + r.blocks < |d| && LogHolds(r, d, cur, end, log)
    ensures cur <= end && (log != [] ==> cur < end)
    decreases |log|
  {
    if log != [] { LogSpan(r, d, cur + 2 * |log[0]| + 1, end, log[1..]); }
  }

  ghost predicate SameSlots(r: Ring, d: seq<Block>, e: seq<Block>, from: nat, to: nat) {
    |d| == |e| && forall b :: r.start + from <= b < r.start + to && b < |d| ==> d[b] == e[b]
  }

  lemma {:induction false} RecordsFrame(r: Ring, d: seq<Block>, e: seq<Block>, cur: nat, ws: seq<Write>)
    requires r.start + r.blocks < |d| && cur + 2 * |ws| < r.blocks && RecordsAt(r, d, cur, ws)
    requires SameSlots(r, d, e, cur, cur + 2 * |ws|)
    ensures RecordsAt(r, e, cur, ws)
    decreases |ws|
  {
    if ws != [] { RecordsFrame(r, d, e, cur + 2, ws[1..]); }
  }

  /** The log reads only its own slots. */
  lemma {:induction false} LogFrame(r: Ring, d: seq<Block>, e: seq<Block>, cur: nat, end: nat, log: seq<seq<Write>>)
    requires r.start + r.blocks < |d| && LogHolds(r, d, cur, end, log)
    requires SameSlots(r, d, e, cur, end)
    ensures LogHolds(r, e, cur, end, log)
    decreases |log|
  {
    if log != [] {
      LogSpan(r, d, cur + 2 * |log[0]| + 1, end, log[1..]);
      RecordsFrame(r, d, e, cur, log[0]);
      LogFrame(r, d, e, cur + 2 * |log[0]| + 1, end, log[1..]);
    }
  }

  lemma {:induction false} LogAppend(r: Ring, d: seq<Block>, cur: nat, end: nat, log: seq<seq<Write>>, ws: seq<Write>)
    requires r.start + r.blocks < |d| && LogHolds(r, d, cur, end, log)
    requires ws != [] && TxnAt(r, d, end, ws)
    ensures LogHolds(r, d, cur, end + 2 * |ws| + 1, log + [ws])
    decreases |log|
  {
    LogSpan(r, d, cur, end, log);
    if log == [] {
      assert log + [ws] == [ws] && [ws][1..] == [];
    } else {
      LogSpan(r, d, cur + 2 * |log[0]| + 1, end, log[1..]);
      LogAppend(r, d, cur + 2 * |log[0]| + 1, end, log[1..], ws);
      assert (log + [ws])[1..] == log[1..] + [ws];
    }
  }

  // ---------- the readers invert the printer ----------

  /** The slots a run of records starts at avoid the tail. */
  ghost predicate Misses(r: Ring, cur: nat, n: nat, tail: nat)
    requires cur < r.blocks
    decreases n
  {
    n > 0 ==> cur != tail && Misses(r, Slot(r, cur + 2), n - 1, tail)
  }

  lemma {:induction false} LinearMisses(r: Ring, cur: nat, n: nat, tail: nat)
    requires cur + 2 * n < r.blocks && (tail < cur || cur + 2 * n < tail)
    ensures Misses(r, cur, n, tail)
    decreases n
  {
    if n > 0 { LinearMisses(r, cur + 2, n - 1, tail); }
  }

  /** The slot after `n` records. */
  function After(r: Ring, cur: nat, n: nat): (s: nat)
    requires cur < r.blocks
    ensures s < r.blocks
    ensures cur + 2 * n < 2 * r.blocks ==> s == Slot(r, cur + 2 * n)
    decreases n
  {
    if n == 0 then cur else After(r, Slot(r, cur + 2), n - 1)
  }

  /** A run of data records is collected whole, wherever on the ring it lies. */
  lemma {:induction false} ScanRecords(r: Ring, d: seq<Block>, cur: nat, tail: nat, pend: seq<Write>, ws: seq<Write>,
                                       fuel: nat)
    requires cur < r.blocks && r.start + r.blocks < |d| && |ws| <= fuel
    requires RecordsAt(r, d, cur, ws) && Misses(r, cur, |ws|, tail)
    ensures Scan(r, d, cur, tail, pend, fuel) == Scan(r, d, After(r, cur, |ws|), tail, pend + ws, fuel - |ws|)
    decreases |ws|
  {
    if ws == [] {
      assert pend + ws == pend;
    } else {
      ScanRecords(r, d, Slot(r, cur + 2), tail, pend + [ws[0]], ws[1..], fuel - 1);
      assert pend + [ws[0]] + ws[1..] == pend + ws;
    }
  }

  function Steps(log: seq<seq<Write>>): nat { if log == [] then 0 else |log[0]| + 1 + Steps(log[1..]) }

  lemma {:induction false} StepsBound(r: Ring, d: seq<Block>, cur: nat, end: nat, log: seq<seq<Write>>)
    requires r.start + r.blocks < |d| && LogHolds(r, d, cur, end, log)
    ensures Steps(log) <= end - cur
    decreases |log|
  {
    if log != [] { StepsBound(r, d, cur + 2 * |log[0]| + 1, end, log[1..]); }
  }

  function PrependAll(log: seq<seq<Write>>, s: Scanned): Scanned {
    if s.Hung? then Hung else Done(log + s.txns, s.torn)
  }

  lemma ScanCommit(r: Ring, d: seq<Block>, cur: nat, tail: nat, pend: seq<Write>, fuel: nat)
    requires cur < r.blocks && r.start + r.blocks < |d| && 1 <= fuel
    requires cur != tail && pend != [] && ReadSlot(r, d, cur) == Commit
    ensures Scan(r, d, cur, tail, pend, fuel) == Prepend(pend, Scan(r, d, Slot(r, cur + 1), tail, [], fuel - 1))
  {}

  lemma {:induction false} ScanTxn(r: Ring, d: seq<Block>, cur: nat, tail: nat, ws: seq<Write>, fuel: nat)
    requires r.start + r.blocks < |d| && |ws| + 1 <= fuel
    requires ws != [] && TxnAt(r, d, cur, ws) && (tail < cur || cur + 2 * |ws| < tail)
    ensures Scan(r, d, cur, tail, [], fuel)
         == Prepend(ws, Scan(r, d, Slot(r, cur + 2 * |ws| + 1), tail, [], fuel - |ws| - 1))
  {
    hide Scan;
    assert Misses(r, cur, |ws|, tail) by { LinearMisses(r, cur, |ws|, tail); }
    ScanRecords(r, d, cur, tail, [], ws, fuel);
    assert [] + ws == ws;
    assert After(r, cur, |ws|) == cur + 2 * |ws|;
    ScanCommit(r, d, cur + 2 * |ws|, tail, ws, fuel - |ws|);
  }

  lemma PrependHead(ws: seq<Write>, log: seq<seq<Write>>, s: Scanned)
    ensures Prepend(ws, PrependAll(log, s)) == PrependAll([ws] + log, s)
  {
    if s.Done? { assert [ws] + (log + s.txns) == [ws] + log + s.txns; }
  }

  /** `recover` reads back exactly the transactions that were printed, in order, and goes on at the
      slot behind them; a payload is never taken for a header, whatever bytes it starts with. */
  lemma {:induction false} ScanThroughLog(r: Ring, d: seq<Block>, cur: nat, end: nat, tail: nat, log: seq<seq<Write>>,
                                          fuel: nat)
    requires r.start + r.blocks < |d|
    requires LogHolds(r, d, cur, end, log) && end <= r.blocks && Steps(log) <= fuel
    requires tail < cur || end <= tail
    ensures Scan(r, d, Slot(r, cur), tail, [], fuel)
         == PrependAll(log, Scan(r, d, Slot(r, end), tail, [], fuel - Steps(log)))
    decreases |log|
  {
    LogSpan(r, d, cur, end, log);
    var rest := Scan(r, d, Slot(r, end), tail, [], fuel - Steps(log));
    if log == [] {
      assert rest.Done? ==> [] + rest.txns == rest.txns;
    } else {
      var ws := log[0];
      var next := cur + 2 * |ws| + 1;
      var left := fuel - |ws| - 1;
      LogSpan(r, d, next, end, log[1..]);
      var step := Scan(r, d, Slot(r, next), tail, [], left);
      assert Scan(r, d, cur, tail, [], fuel) == Prepend(ws, step) by { ScanTxn(r, d, cur, tail, ws, fuel); }
      assert step == PrependAll(log[1..], rest) by { ScanThroughLog(r, d, next, end, tail, log[1..], left); }
      PrependHead(ws, log[1..], rest);
      assert [ws] + log[1..] == log;
    }
  }

  lemma OntoOnto(a: seq<Write>, b: seq<Write>, rest: Option<seq<Write>>)
    ensures Onto(a, Onto(b, rest)) == Onto(a + b, rest)
  {
    if rest.Some? { assert a + (b + rest.value) == a + b + rest.value; }
  }

  lemma {:induction false} SweepRecords(r: Ring, d: seq<Block>, cur: nat, tail: nat, ws: seq<Write>, fuel: nat)
    requires cur < r.blocks && r.start + r.blocks < |d| && |ws| <= fuel
    requires RecordsAt(r, d, cur, ws) && Misses(r, cur, |ws|, tail)
    ensures Sweep(r, d, cur, tail, fuel) == Onto(ws, Sweep(r, d, After(r, cur, |ws|), tail, fuel - |ws|))
    decreases |ws|
  {
    var rest := Sweep(r, d, After(r, cur, |ws|), tail, fuel - |ws|);
    if ws == [] {
      assert rest.Some? ==> ws + rest.value == rest.value;
    } else {
      var step := Sweep(r, d, Slot(r, cur + 2), tail, fuel - 1);
      assert Sweep(r, d, cur, tail, fuel) == Onto([ws[0]], step);
      assert step == Onto(ws[1..], rest) by { SweepRecords(r, d, Slot(r, cur + 2), tail, ws[1..], fuel - 1); }
      OntoOnto([ws[0]], ws[1..], rest);
      assert [ws[0]] + ws[1..] == ws;
    }
  }

  lemma {:induction false} SweepTxn(r: Ring, d: seq<Block>, cur: nat, tail: nat, ws: seq<Write>, fuel: nat)
    requires r.start + r.blocks < |d| && |ws| + 1 <= fuel
    requires TxnAt(r, d, cur, ws) && (tail < cur || cur + 2 * |ws| < tail)
    ensures Sweep(r, d, cur, tail, fuel)
         == Onto(ws, Sweep(r, d, Slot(r, cur + 2 * |ws| + 1), tail, fuel - |ws| - 1))
  {
    LinearMisses(r, cur, |ws|, tail);
    SweepRecords(r, d, cur, tail, ws, fuel);
    assert After(r, cur, |ws|) == cur + 2 * |ws|;
  }

  /** `checkpoint` collects the same writes, flattened, and goes on behind them. */
  lemma {:induction false} SweepThroughLog(r: Ring, d: seq<Block>, cur: nat, end: nat, tail: nat, log: seq<seq<Write>>,
                                           fuel: nat)
    requires r.start + r.blocks < |d|
    requires LogHolds(r, d, cur, end, log) && end <= r.blocks && Steps(log) <= fuel
    requires tail < cur || end <= tail
    ensures Sweep(r, d, Slot(r, cur), tail, fuel)
         == Onto(Flatten(log), Sweep(r, d, Slot(r, end), tail, fuel - Steps(log)))
    decreases |log|
  {
    LogSpan(r, d, cur, end, log);
    var rest := Sweep(r, d, Slot(r, end), tail, fuel - Steps(log));
    if log == [] {
      assert rest.Some? ==> [] + rest.value == rest.value;
    } else {
      var ws := log[0];
      var next := cur + 2 * |ws| + 1;
      var left := fuel - |ws| - 1;
      LogSpan(r, d, next, end, log[1..]);
      var step := Sweep(r, d, Slot(r, next), tail, left);
      assert Sweep(r, d, cur, tail, fuel) == Onto(ws, step) by { SweepTxn(r, d, cur, tail, ws, fuel); }
      assert step == Onto(Flatten(log[1..]), rest) by { SweepThroughLog(r, d, next, end, tail, log[1..], left); }
      FlattenCons(ws, log[1..]);
      assert [ws] + log[1..] == log;
      OntoOnto(ws, Flatten(log[1..]), rest);
    }
  }

  /** The pointers `head`, `tail` and the slots between them hold the log, without wrapping. */
  ghost predicate LogAt(r: Ring, d: seq<Block>, head: nat, tail: nat, log: seq<seq<Write>>) {
    && r.start + r.blocks < |d| && head < r.blocks && tail < r.blocks
    && (log != [] ==> 1 <= head)
    && EndOf(r, head, tail) <= r.blocks
    && LogHolds(r, d, head, EndOf(r, head, tail), log)
  }

  /** The tail as a position at or after the head. */
  function EndOf(r: Ring, head: nat, tail: nat): nat {
    if tail < head then tail + r.blocks else tail
  }

  /** Print, then parse: both readers recover the log exactly. */
  lemma ReadersAgree(r: Ring, d: seq<Block>, head: nat, tail: nat, log: seq<seq<Write>>)
    requires LogAt(r, d, head, tail, log)
    ensures Scan(r, d, head, tail, [], r.blocks) == Done(log, [])
    ensures Sweep(r, d, head, tail, r.blocks) == Some(Flatten(log))
  {
    var end := EndOf(r, head, tail);
    LogSpan(r, d, head, end, log);
    StepsBound(r, d, head, end, log);
    if log != [] {
      ScanThroughLog(r, d, head, end, tail, log, r.blocks);
      SweepThroughLog(r, d, head, end, tail, log, r.blocks);
      assert log + [] == log && Flatten(log) + [] == Flatten(log);
    }
  }
}
