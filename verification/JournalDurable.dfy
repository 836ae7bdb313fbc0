/** The same runs on a device with a write-back cache of its own: a power failure may lose any write, of whatever
    operation, that no completed barrier lies behind. */
module JournalDurable {
  import opened Blocks
  import opened JournalCommit
  import opened JournalCrash
  import opened JournalFormat
  import opened JournalLog
  import opened JournalRun
  import opened Options

  /** The machine, the blocks that are on the medium for certain, and the writes since the last barrier. */
  datatype Held = Held(m: Machine, base: seq<Block>, waiting: seq<Write>)

  /** Events reach the device one by one; a barrier brings everything that waits to the medium. */
  function Absorb(base: seq<Block>, waiting: seq<Write>, evs: seq<Event>): (r: (seq<Block>, seq<Write>))
    decreases |evs|
  {
    if evs == [] then (base, waiting)
    else match evs[0]
      case Pwrite(w) => Absorb(base, waiting + [w], evs[1..])
      case Fsync => Absorb(Apply(base, waiting), [], evs[1..])
  }

  /** Everything a power failure inside `op` may still lose, in order: what was waiting, then the events of `op`. */
  function AtRisk(r: Ring, h: Held, op: Op): seq<Event>
    requires Wf(r, h.m)
  {
    Pwrites(h.waiting) + Exec(r, h.m, op).events
  }

  /** In a crash `k` events of the operation were done, and `kept` says which of all events at risk reached the
      medium. */
  function Next(r: Ring, h: Held, step: Step): Held
    requires Wf(r, h.m) && |h.base| == |h.m.disk|
  {
    match step
    case Do(op) =>
      var out := Exec(r, h.m, op);
      var (base, waiting) := Absorb(h.base, h.waiting, out.events);
      Held(out.next, base, waiting)
    case Crash(op, _, kept) =>
      var image := Apply(h.base, Survivors(AtRisk(r, h, op), kept));
      Held(Reopen(r, image), image, [])
  }

  function Shift(kept: set<nat>, n: nat): (s: set<nat>)
    ensures forall i: nat :: i in s <==> i + n in kept
  {
    set i: nat | i in kept && i >= n :: i - n
  }

  /** The step as far as its own events are concerned. */
  function Own(step: Step, n: nat): Step {
    match step
    case Do(_) => step
    case Crash(op, k, kept) => Crash(op, k, Shift(kept, n))
  }

  /** As in `JournalCrash`, but the loss is legal if it respects the barriers over everything at risk. */
  ghost predicate MayStep(r: Ring, h: Held, step: Step)
    requires Wf(r, h.m)
  {
    && Allowed(r, h.m, Own(step, |h.waiting|))
    && (step.Crash? ==> LegalLoss(AtRisk(r, h, step.op), |h.waiting| + step.k, step.kept))
  }

  // ---------- events and images ----------

  lemma {:induction false} SurvivorsSplit(a: seq<Event>, b: seq<Event>, kept: set<nat>)
    ensures Survivors(a + b, kept) == Survivors(a, kept) + Survivors(b, Shift(kept, |a|))
    decreases |b|
  {
    if b == [] {
      assert a + b == a;
    } else {
      var n := |b| - 1;
      assert (a + b)[..|a| + n] == a + b[..n] && (a + b)[|a| + n] == b[n];
      SurvivorsSplit(a, b[..n], kept);
    }
  }

  function WritesOf(evs: seq<Event>): seq<Write>
    decreases |evs|
  {
    if evs == [] then [] else (if evs[0].Pwrite? then [evs[0].w] else []) + WritesOf(evs[1..])
  }

  lemma {:induction false} AbsorbKeeps(base: seq<Block>, waiting: seq<Write>, evs: seq<Event>)
    ensures var (b, w) := Absorb(base, waiting, evs);
            && Apply(b, w) == Apply(Apply(base, waiting), WritesOf(evs))
            && (evs != [] && evs[|evs| - 1].Fsync? ==> w == [])
    decreases |evs|
  {
    if evs == [] {
      NoWrites(Apply(base, waiting));
    } else {
      var rest := evs[1..];
      assert rest != [] ==> rest[|rest| - 1] == evs[|evs| - 1];
      match evs[0]
      case Pwrite(w) =>
        AbsorbKeeps(base, waiting + [w], rest);
        ApplySnoc(base, waiting, w);
        ApplyConcat(Apply(base, waiting), [w], WritesOf(rest));
        OneWrite(Apply(base, waiting), w);
      case Fsync =>
        AbsorbKeeps(Apply(base, waiting), [], rest);
        NoWrites(Apply(base, waiting));
        assert [] + WritesOf(rest) == WritesOf(rest);
    }
  }

  lemma OneWrite(d: seq<Block>, w: Write)
    ensures Apply(d, [w]) == Put(d, w)
  {
    assert [w][..0] == [];
    NoWrites(d);
  }

  lemma {:induction false} AbsorbWrites(base: seq<Block>, waiting: seq<Write>, ws: seq<Write>)
    ensures Absorb(base, waiting, Pwrites(ws)) == (base, waiting + ws)
    decreases |ws|
  {
    if ws == [] {
      assert waiting + ws == waiting;
    } else {
      assert Pwrites(ws)[1..] == Pwrites(ws[1..]);
      AbsorbWrites(base, waiting + [ws[0]], ws[1..]);
      assert waiting + [ws[0]] + ws[1..] == waiting + ws;
    }
  }

  lemma {:induction false} WritesOfConcat(a: seq<Event>, b: seq<Event>)
    ensures WritesOf(a + b) == WritesOf(a) + WritesOf(b)
    decreases |a|
  {
    if a == [] {
      assert a + b == b;
    } else {
      assert (a + b)[1..] == a[1..] + b;
      WritesOfConcat(a[1..], b);
    }
  }

  lemma {:induction false} WritesOfPwrites(ws: seq<Write>)
    ensures WritesOf(Pwrites(ws)) == ws
    decreases |ws|
  {
    if ws != [] {
      assert Pwrites(ws)[1..] == Pwrites(ws[1..]);
      WritesOfPwrites(ws[1..]);
    }
  }

  lemma WritesOfFsync()
    ensures WritesOf([Fsync]) == []
  {}

  lemma WritesOfOne(w: Write)
    ensures WritesOf([Pwrite(w)]) == [w]
  {}

  // ---------- what the operations hand to the device ----------

  /** An operation that returns Ok has put a barrier behind everything it wrote, and the disk the machine sees is what
      its events make of it; only a refused commit leaves writes waiting. */
  lemma OkIsFlushed(r: Ring, m: Machine, op: Op)
    requires Wf(r, m)
    ensures var out := Exec(r, m, op);
            && out.next.disk == Apply(m.disk, WritesOf(out.events))
            && (out.ok && out.events != [] ==> out.events[|out.events| - 1].Fsync?)
            && (!out.ok && out.events != [] ==> op.CommitTxn? && Pending(m, op.tid) != [] && !HasRoom(r, m, op.tid))
  {
    hide Apply, WritesOf, RecordWrites, SuperBlock, Sweep, Scan, Flatten, Pwrites;
    NoWrites(m.disk);
    assert WritesOf([]) == [] by { WritesOfPwrites([]); assert Pwrites([]) == []; }
    match op
    case CommitTxn(tid) => CommitWrites(r, m, tid);
    case Checkpoint => CheckpointWrites(r, m);
    case Recover => RecoverWrites(r, m);
    case _ =>
  }

  lemma CommitWrites(r: Ring, m: Machine, tid: nat)
    requires Wf(r, m)
    ensures var out := ExecCommit(r, m, tid);
            && out.next.disk == Apply(m.disk, WritesOf(out.events))
            && (out.ok && out.events != [] ==> out.events[|out.events| - 1].Fsync?)
            && (!out.ok && out.events != [] ==> Pending(m, tid) != [] && !HasRoom(r, m, tid))
  {
    hide Apply, WritesOf, RecordWrites, SuperBlock, Pwrites;
    NoWrites(m.disk);
    assert WritesOf([]) == [] by { WritesOfPwrites([]); assert Pwrites([]) == []; }
    var ws := Pending(m, tid);
    if ws != [] {
      var n, id := PrintedBlocks(r, m, tid), tid % 0x1_0000_0000_0000_0000;
      CommitEventsAre(r, m, tid);
      var recs := RecordWrites(r, m.sb.tail, id, ws, n);
      if HasRoom(r, m, tid) {
        PublishWrites(m.disk, recs, SuperWrite(r, ExecCommit(r, m, tid).next.sb));
      } else {
        WritesOfPwrites(recs);
      }
    }
  }

  lemma PublishWrites(d: seq<Block>, recs: seq<Write>, super: Write)
    ensures var evs := Pwrites(recs) + [Pwrite(super)] + [Fsync] + [Fsync];
            Apply(d, WritesOf(evs)) == Put(Apply(d, recs), super)
  {
    hide Apply, WritesOf, Pwrites;
    WritesOfConcat(Pwrites(recs) + [Pwrite(super)] + [Fsync], [Fsync]);
    WritesOfConcat(Pwrites(recs) + [Pwrite(super)], [Fsync]);
    WritesOfConcat(Pwrites(recs), [Pwrite(super)]);
    WritesOfPwrites(recs);
    WritesOfFsync();
    WritesOfOne(super);
    assert recs + [super] + [] + [] == recs + [super];
    ApplySnoc(d, recs, super);
  }

  lemma CheckpointWrites(r: Ring, m: Machine)
    requires Wf(r, m)
    ensures var out := ExecCheckpoint(r, m);
            && out.next.disk == Apply(m.disk, WritesOf(out.events))
            && (out.events != [] ==> out.ok && out.events[|out.events| - 1].Fsync?)
  {
    hide Apply, WritesOf, SuperBlock, Sweep, Pwrites;
    NoWrites(m.disk);
    assert WritesOf([]) == [] by { WritesOfPwrites([]); assert Pwrites([]) == []; }
    if m.sb.head != m.sb.tail && Sweep(r, m.disk, m.sb.head, m.sb.tail, r.blocks).Some? {
      var ws := Sweep(r, m.disk, m.sb.head, m.sb.tail, r.blocks).value;
      var super := SuperWrite(r, Released(m.sb));
      WritesOfConcat(Pwrites(ws) + [Fsync] + [Pwrite(super)], [Fsync]);
      WritesOfConcat(Pwrites(ws) + [Fsync], [Pwrite(super)]);
      WritesOfConcat(Pwrites(ws), [Fsync]);
      WritesOfPwrites(ws);
      WritesOfFsync();
      WritesOfOne(super);
      assert ws + [] + [super] + [] == ws + [super];
      ApplySnoc(m.disk, ws, super);
    }
  }

  lemma RecoverWrites(r: Ring, m: Machine)
    requires Wf(r, m)
    ensures var out := ExecRecover(r, m);
            && out.next.disk == Apply(m.disk, WritesOf(out.events))
            && (out.events != [] ==> out.ok && out.events[|out.events| - 1].Fsync?)
  {
    hide Apply, WritesOf, Scan, Pwrites, Flatten;
    NoWrites(m.disk);
    assert WritesOf([]) == [] by { WritesOfPwrites([]); assert Pwrites([]) == []; }
    if m.sb.head != m.sb.tail && Scan(r, m.disk, m.sb.head, m.sb.tail, [], r.blocks).Done? {
      var ws := Flatten(Scan(r, m.disk, m.sb.head, m.sb.tail, [], r.blocks).txns);
      WritesOfConcat(Pwrites(ws), [Fsync]);
      WritesOfPwrites(ws);
      WritesOfFsync();
      assert ws + [] == ws;
    }
  }

  // ---------- the invariant ----------

  /** Whatever part of the waiting writes is lost, the image holds the log, and home blocks are not among them. */
  ghost predicate KeepsUnderLoss(r: Ring, base: seq<Block>, waiting: seq<Write>, log: seq<seq<Write>>) {
    forall kept: set<nat> ::
      var d := Apply(base, Survivors(Pwrites(waiting), kept));
      ImageHolds(r, d, log) && HomeEq(r, Apply(base, waiting), d)
  }

  /** Something waits only after a refused commit, on a ring without a free slot. */
  ghost predicate Sound(r: Ring, h: Held, log: seq<seq<Write>>) {
    && Safe(r, h.m, log) && h.m.disk == Apply(h.base, h.waiting)
    && (h.waiting != [] ==>
          Free(r, h.m.sb.head, h.m.sb.tail) == 0 && KeepsUnderLoss(r, h.base, h.waiting, log))
  }

  lemma TornKeeps(r: Ring, m: Machine, log: seq<seq<Write>>, tid: nat)
    requires Inv(r, m, log) && Pending(m, tid) != [] && !HasRoom(r, m, tid)
    requires OffSlotZero(r, m.sb.tail, PrintedBlocks(r, m, tid))
    ensures var out := ExecCommit(r, m, tid);
            var torn := RecordWrites(r, m.sb.tail, tid % 0x1_0000_0000_0000_0000, Pending(m, tid),
                          2 * TornRecords(Free(r, m.sb.head, m.sb.tail), |Pending(m, tid)|));
            && out.events == Pwrites(torn) && KeepsUnderLoss(r, m.disk, torn, log)
            && Free(r, out.next.sb.head, out.next.sb.tail) == 0 && out.next.disk == Apply(m.disk, torn)
  {
    hide Apply, RecordWrites, Survivors, ImageHolds, LogAt, ExecCommit;
    CommitEventsAre(r, m, tid);
    var n, ws := PrintedBlocks(r, m, tid), Pending(m, tid);
    var id: LongWord := tid % 0x1_0000_0000_0000_0000;
    var torn := RecordWrites(r, m.sb.tail, id, ws, n);
    SurvivorsInSpan(r, m.sb.tail, id, ws, n, {});
    UnpublishedCommit(r, m, log, n, torn);
    forall kept: set<nat>
      ensures var d := Apply(m.disk, Survivors(Pwrites(torn), kept));
              ImageHolds(r, d, log) && HomeEq(r, Apply(m.disk, torn), d)
    {
      SurvivorsInSpan(r, m.sb.tail, id, ws, n, kept);
      UnpublishedCommit(r, m, log, n, Survivors(Pwrites(torn), kept));
    }
  }

  // ---------- one step ----------

  lemma SoundFits(r: Ring, h: Held, log: seq<seq<Write>>)
    requires Sound(r, h, log)
    ensures Wf(r, h.m) && |h.base| == |h.m.disk|
  {
    hide ImageHolds, LogAt, KeepsUnderLoss;
  }

  /** With nothing waiting a step is one of the runs without a cache. */
  lemma NothingWaiting(r: Ring, h: Held, step: Step)
    requires Wf(r, h.m) && h.waiting == [] && h.base == h.m.disk
    ensures AtRisk(r, h, step.op) == Exec(r, h.m, step.op).events && Own(step, 0) == step
    ensures step.Crash? ==> Next(r, h, step).m == Perform(r, h.m, step)
  {
    hide Apply, Survivors, Exec;
    assert Pwrites([]) == [];
    assert [] + Exec(r, h.m, step.op).events == Exec(r, h.m, step.op).events;
    if step.Crash? { assert Shift(step.kept, 0) == step.kept; }
  }

  /** On a full ring an operation that sends nothing changes neither image nor pointers; one that sends something
      returns Ok. */
  lemma FullRing(r: Ring, m: Machine, op: Op)
    requires Wf(r, m) && Free(r, m.sb.head, m.sb.tail) == 0
    ensures var out := Exec(r, m, op);
            && (out.events == [] ==> out.next.disk == m.disk && out.next.sb == m.sb)
            && (out.events != [] ==> out.ok && (op.Checkpoint? || op.Recover?))
  {
    hide Apply, SuperBlock, Sweep, Scan, Flatten, ExecCommit;
    match op
    case CommitTxn(tid) =>
      if Pending(m, tid) == [] { NothingToCommit(r, m, tid); } else { NothingTorn(r, m, tid); }
    case _ =>
  }

  lemma SilentPublishesNothing(r: Ring, m: Machine, step: Step)
    requires Wf(r, m) && Exec(r, m, step.op).events == []
    ensures Published(r, m, step) == []
  {
    hide Exec;
  }

  /** An operation that runs to its end. */
  lemma DoSound(r: Ring, h: Held, log: seq<seq<Write>>, op: Op) returns (log': seq<seq<Write>>)
    requires Sound(r, h, log) && MayStep(r, h, Do(op))
    ensures |h.base| == |h.m.disk| && Sound(r, Next(r, h, Do(op)), log')
    ensures Adds(r, h.m.disk, log, Next(r, h, Do(op)).m.disk, log', Published(r, h.m, Do(op)))
  {
    hide Apply, Survivors, Exec, ImageHolds, LogAt, Adds, Published, Safe, KeepsUnderLoss, Free, Allowed;
    SoundFits(r, h, log);
    OkIsFlushed(r, h.m, op);
    var out := Exec(r, h.m, op);
    AbsorbKeeps(h.base, h.waiting, out.events);
    if h.waiting == [] {
      if !out.ok && out.events != [] {
        log' := log;
        RefusedSound(r, h, log, op);
      } else {
        log' := StepKeeps(r, h.m, log, Do(op));
      }
    } else {
      FullRing(r, h.m, op);
      if out.events == [] {
        log' := log;
        IdleStep(r, h.m, log, Do(op));
        SilentPublishesNothing(r, h.m, Do(op));
      } else {
        log' := StepKeeps(r, h.m, log, Do(op));
      }
    }
  }

  lemma RefusedSound(r: Ring, h: Held, log: seq<seq<Write>>, op: Op)
    requires Sound(r, h, log) && MayStep(r, h, Do(op)) && h.waiting == []
    requires !Exec(r, h.m, op).ok && Exec(r, h.m, op).events != []
    requires op.CommitTxn? && Pending(h.m, op.tid) != [] && !HasRoom(r, h.m, op.tid)
    ensures |h.base| == |h.m.disk| && Sound(r, Next(r, h, Do(op)), log)
    ensures Adds(r, h.m.disk, log, Next(r, h, Do(op)).m.disk, log, Published(r, h.m, Do(op)))
  {
    hide Apply, Survivors, ExecCommit, ImageHolds, LogAt, Adds, Published, KeepsUnderLoss, Free, RecordWrites, Absorb;
    var m := h.m;
    NoWrites(h.base);
    RefusedStep(r, m, log, Do(op));
    if Jammed(r, m, log) { NothingTorn(r, m, op.tid); }
    TornKeeps(r, m, log, op.tid);
    var torn := RecordWrites(r, m.sb.tail, op.tid % 0x1_0000_0000_0000_0000, Pending(m, op.tid),
                  2 * TornRecords(Free(r, m.sb.head, m.sb.tail), |Pending(m, op.tid)|));
    AbsorbWrites(h.base, [], torn);
    assert [] + torn == torn;
  }

  /** A power failure while something waits. */
  lemma LossSound(r: Ring, h: Held, log: seq<seq<Write>>, step: Step) returns (log': seq<seq<Write>>)
    requires Sound(r, h, log) && MayStep(r, h, step) && step.Crash? && h.waiting != []
    ensures |h.base| == |h.m.disk| && Sound(r, Next(r, h, step), log')
    ensures Adds(r, h.m.disk, log, Next(r, h, step).m.disk, log', Published(r, h.m, Own(step, |h.waiting|)))
  {
    hide Apply, Survivors, Exec, ImageHolds, LogAt, Adds, Published, Free, Allowed, Flatten;
    SoundFits(r, h, log);
    var n, own := |h.waiting|, Own(step, |h.waiting|);
    var evs := Exec(r, h.m, step.op).events;
    var s1, s2 := Survivors(Pwrites(h.waiting), step.kept), Survivors(evs, own.kept);
    SurvivorsSplit(Pwrites(h.waiting), evs, step.kept);
    ApplyConcat(h.base, s1, s2);
    if j: nat :| j < step.k && j < |evs| && evs[j].Fsync? {
      assert AtRisk(r, h, step.op)[n + j].Fsync?;
      assert forall i :: 0 <= i < n ==> i < n + j < n + step.k ==> i in step.kept;
      SurvivorsKeptAll(h.waiting, step.kept);
      log' := StepKeeps(r, h.m, log, own);
      assert Next(r, h, step).m == Perform(r, h.m, own);
    } else {
      log' := log;
      var d := Apply(h.base, s1);
      EarlyWithin(r, h.m, log, own);
      HalfReplayed(r, d, log, s2);
      AddsNothing(r, h.m.disk, log, d);
      var none: seq<seq<Write>> := [];
      AddsThenAdds(r, h.m.disk, log, d, log, none, Apply(d, s2), log, none);
      assert none + none == none;
      ReopenHolds(r, Apply(d, s2), log);
    }
    NoWrites(Next(r, h, step).base);
  }

  /** Before the first barrier of an operation only home writes of the log have been sent. */
  lemma EarlyWithin(r: Ring, m: Machine, log: seq<seq<Write>>, step: Step)
    requires Safe(r, m, log) && Free(r, m.sb.head, m.sb.tail) == 0 && step.Crash? && Allowed(r, m, step)
    requires var evs := Exec(r, m, step.op).events; forall j :: 0 <= j < step.k && j < |evs| ==> !evs[j].Fsync?
    ensures WithinTargets(Survivors(Exec(r, m, step.op).events, step.kept), Flatten(log))
    ensures Published(r, m, step) == []
  {
    hide Apply, SuperBlock, Sweep, Scan, Flatten, Survivors, ExecCommit, ImageHolds, LogAt;
    var evs, ws := Exec(r, m, step.op).events, Flatten(log);
    FullRing(r, m, step.op);
    ReadersFind(r, m, log);
    if evs == [] {
      SilentPublishesNothing(r, m, step);
    } else {
      hide SweepsAsOnDisk, ScansAsOnDisk, Free;
      assert |evs| > |ws| && evs[|ws|].Fsync?;
      assert forall i :: 0 <= i < |ws| ==> evs[i] == Pwrite(ws[i]);
    }
    SurvivorsWithin(evs, step.kept, ws);
  }

  // ---------- whole runs ----------

  predicate Ready(r: Ring, h: Held) { Wf(r, h.m) && |h.base| == |h.m.disk| }

  function RunHeld(r: Ring, h: Held, steps: seq<Step>): Held
    decreases |steps|
  {
    if steps == [] || !Ready(r, h) then h else RunHeld(r, Next(r, h, steps[0]), steps[1..])
  }

  ghost predicate MayRun(r: Ring, h: Held, steps: seq<Step>)
    decreases |steps|
  {
    steps != [] ==> Ready(r, h) && MayStep(r, h, steps[0]) && MayRun(r, Next(r, h, steps[0]), steps[1..])
  }

  /** The transactions whose superblock write reached the medium, or in an operation that ended the device. */
  ghost function PublishedBy(r: Ring, h: Held, steps: seq<Step>): seq<seq<Write>>
    decreases |steps|
  {
    if steps == [] || !Ready(r, h) then []
    else Published(r, h.m, Own(steps[0], |h.waiting|)) + PublishedBy(r, Next(r, h, steps[0]), steps[1..])
  }

  lemma StepSound(r: Ring, h: Held, log: seq<seq<Write>>, step: Step) returns (log': seq<seq<Write>>)
    requires Sound(r, h, log) && MayStep(r, h, step)
    ensures |h.base| == |h.m.disk| && Sound(r, Next(r, h, step), log')
    ensures Adds(r, h.m.disk, log, Next(r, h, step).m.disk, log', Published(r, h.m, Own(step, |h.waiting|)))
  {
    hide Apply, Survivors, Exec, ImageHolds, LogAt, Adds, Published, Allowed, Safe, Free;
    SoundFits(r, h, log);
    if step.Do? {
      log' := DoSound(r, h, log, step.op);
    } else if h.waiting != [] {
      log' := LossSound(r, h, log, step);
    } else {
      NoWrites(h.base);
      NothingWaiting(r, h, step);
      log' := StepKeeps(r, h.m, log, step);
      NoWrites(Next(r, h, step).base);
    }
  }

  lemma {:induction false} RunSound(r: Ring, h: Held, log: seq<seq<Write>>, steps: seq<Step>)
    returns (log': seq<seq<Write>>)
    requires Sound(r, h, log) && MayRun(r, h, steps)
    ensures Sound(r, RunHeld(r, h, steps), log')
    ensures Adds(r, h.m.disk, log, RunHeld(r, h, steps).m.disk, log', PublishedBy(r, h, steps))
    decreases |steps|
  {
    hide Adds, Sound, Published, MayStep, Next, Wf;
    if steps == [] {
      log' := log;
      AddsNothing(r, h.m.disk, log, h.m.disk);
    } else {
      var h1 := Next(r, h, steps[0]);
      var log1 := StepSound(r, h, log, steps[0]);
      log' := RunSound(r, h1, log1, steps[1..]);
      AddsThenAdds(r, h.m.disk, log, h1.m.disk, log1, Published(r, h.m, Own(steps[0], |h.waiting|)),
                   RunHeld(r, h1, steps[1..]).m.disk, log', PublishedBy(r, h1, steps[1..]));
    }
  }

  /** A mounted journal, with everything on the medium. */
  function Flushed(m: Machine): Held { Held(m, m.disk, []) }

  lemma FlushedSound(r: Ring, m: Machine, log: seq<seq<Write>>)
    requires Safe(r, m, log)
    ensures Sound(r, Flushed(m), log)
  {
    hide ImageHolds, LogAt;
    NoWrites(m.disk);
  }

  /** Crash atomicity on such a device: after any run, with power failures inside it, lose any part `kept` leaves out of
      what still waits, and recovery yields what it would have yielded at the start plus the published transactions,
      each whole, in order, and nothing else. */
  lemma AtomicUnderLoss(r: Ring, m: Machine, log: seq<seq<Write>>, steps: seq<Step>, kept: set<nat>)
    requires Safe(r, m, log) && MayRun(r, Flushed(m), steps)
    ensures var end := RunHeld(r, Flushed(m), steps);
            var image := Apply(end.base, Survivors(Pwrites(end.waiting), kept));
            && r.start + r.blocks < |m.disk| && r.start + r.blocks < |image|
            && HomeEq(r, Recovered(r, image), Apply(Recovered(r, m.disk), Flatten(PublishedBy(r, Flushed(m), steps))))
  {
    hide Safe, Apply, Survivors, ImageHolds, LogAt, Recovered, Flatten, MayRun, RunHeld, PublishedBy, Free;
    FlushedSound(r, m, log);
    var log' := RunSound(r, Flushed(m), log, steps);
    var end := RunHeld(r, Flushed(m), steps);
    var image := Apply(end.base, Survivors(Pwrites(end.waiting), kept));
    ImageAfterLoss(r, end, log', kept);
    SafeImage(r, m, log);
    RecoveredAppliesLog(r, m.disk, log);
    RecoveredAppliesLog(r, image, log');
    HomeEqApply(r, end.m.disk, image, Flatten(log'));
  }

  lemma SafeImage(r: Ring, m: Machine, log: seq<seq<Write>>)
    requires Safe(r, m, log)
    ensures ImageHolds(r, m.disk, log) && r.start + r.blocks < |m.disk|
  {}

  lemma ImageAfterLoss(r: Ring, h: Held, log: seq<seq<Write>>, kept: set<nat>)
    requires Sound(r, h, log)
    ensures var image := Apply(h.base, Survivors(Pwrites(h.waiting), kept));
            && ImageHolds(r, image, log) && HomeEq(r, h.m.disk, image) && r.start + r.blocks < |image|
  {
    hide LogAt, Apply, Survivors, Free;
    SafeImage(r, h.m, log);
    if h.waiting == [] { assert Pwrites(h.waiting) == []; NothingSurvives(kept); }
  }

  lemma NothingSurvives(kept: set<nat>)
    ensures Survivors([], kept) == []
  {}

  // ---------- durability ----------

  lemma {:induction false} RunHeldSplits(r: Ring, h: Held, a: seq<Step>, b: seq<Step>)
    requires MayRun(r, h, a + b)
    ensures MayRun(r, h, a) && MayRun(r, RunHeld(r, h, a), b)
    ensures RunHeld(r, h, a + b) == RunHeld(r, RunHeld(r, h, a), b)
    ensures PublishedBy(r, h, a + b) == PublishedBy(r, h, a) + PublishedBy(r, RunHeld(r, h, a), b)
    decreases |a|
  {
    hide Next, MayStep, Published, Wf;
    if a == [] {
      assert a + b == b;
    } else {
      assert (a + b)[0] == a[0] && (a + b)[1..] == a[1..] + b;
      RunHeldSplits(r, Next(r, h, a[0]), a[1..], b);
    }
  }

  /** When commit returns Ok nothing waits any more: the transaction is on the medium. */
  lemma AckIsFlushed(r: Ring, h: Held, log: seq<seq<Write>>, step: Step)
    requires Sound(r, h, log) && Acks(r, h.m, step)
    ensures |h.base| == |h.m.disk| && Next(r, h, step).waiting == []
    ensures Next(r, h, step).base == Exec(r, h.m, step.op).next.disk
  {
    hide Apply, Survivors, Exec, ImageHolds, LogAt, Safe, Free;
    SoundFits(r, h, log);
    OkIsFlushed(r, h.m, step.op);
    var evs := Exec(r, h.m, step.op).events;
    AckSends(r, h.m, step);
    AbsorbKeeps(h.base, h.waiting, evs);
    NoWrites(Next(r, h, step).base);
  }

  lemma AckSends(r: Ring, m: Machine, step: Step)
    requires Wf(r, m) && Acks(r, m, step)
    ensures Exec(r, m, step.op).events != []
  {
    hide Apply, RecordWrites, SuperBlock;
  }

  /** Durability on such a device: once commit has returned Ok, no later power failure takes the transaction back,
      whatever it loses of the writes no barrier lies behind. */
  lemma AckedUnderLoss(r: Ring, m: Machine, log: seq<seq<Write>>, before: seq<Step>, commit: Step, later: seq<Step>,
                       kept: set<nat>, j: nat)
    requires Safe(r, m, log) && MayRun(r, Flushed(m), before + ([commit] + later))
    requires var at := RunHeld(r, Flushed(m), before);
             && Ready(r, at) && Acks(r, at.m, commit)
             && var ws := Pending(at.m, commit.op.tid);
             && j < |ws| && (forall i :: j < i < |ws| ==> ws[i].target != ws[j].target)
             && !Touches(Flatten(PublishedBy(r, Next(r, at, commit), later)), ws[j].target)
    ensures var end := RunHeld(r, Flushed(m), before + ([commit] + later));
            var image := Apply(end.base, Survivors(Pwrites(end.waiting), kept));
            var w := Pending(RunHeld(r, Flushed(m), before).m, commit.op.tid)[j];
            r.start + r.blocks < |image| && w.target < |Recovered(r, image)| && Recovered(r, image)[w.target] == w.data
  {
    hide Safe, Apply, Survivors, ImageHolds, LogAt, Recovered, Flatten, Next, Published, Allowed, HomeEq, ExecCommit;
    hide Free;
    var h, rest := Flushed(m), [commit] + later;
    var at := RunHeld(r, h, before);
    RunHeldSplits(r, h, before, rest);
    AtomicUnderLoss(r, m, log, before + rest, kept);
    var ws := Pending(at.m, commit.op.tid);
    var first, after := PublishedBy(r, h, before), PublishedBy(r, Next(r, at, commit), later);
    AckPublishes(r, at.m, commit);
    assert rest[1..] == later;
    assert PublishedBy(r, at, rest) == [ws] + after;
    FlattenConcat(first, [ws] + after);
    FlattenCons(ws, after);
    AckedHome(r, at.m, commit);
    SafeImage(r, m, log);
    SameSize(r, m, log, before);
    ApplyConcat(Recovered(r, m.disk), Flatten(first), ws + Flatten(after));
    assert IsHome(r, at.m.disk, ws[j].target);
    LastOfTwo(Apply(Recovered(r, m.disk), Flatten(first)), ws, Flatten(after), j);
    var end := RunHeld(r, h, before + rest);
    SameAtHome(r, Recovered(r, Apply(end.base, Survivors(Pwrites(end.waiting), kept))),
      Apply(Recovered(r, m.disk), Flatten(first + ([ws] + after))), ws[j].target);
  }

  lemma SameSize(r: Ring, m: Machine, log: seq<seq<Write>>, steps: seq<Step>)
    requires Safe(r, m, log) && MayRun(r, Flushed(m), steps) && r.start + r.blocks < |m.disk|
    ensures |RunHeld(r, Flushed(m), steps).m.disk| == |m.disk| == |Recovered(r, m.disk)|
  {
    hide Safe, Apply, Survivors, ImageHolds, LogAt, Flatten, MayRun, RunHeld, PublishedBy, Sound, Scan;
    FlushedSound(r, m, log);
    var log' := RunSound(r, Flushed(m), log, steps);
  }
}
