/** A run of the engine from an empty database that ends in a wrong read: a snapshot keeps two versions of a key
    apart while a compaction cuts its output between them, is released, and the next compaction takes only the
    newer one, a deletion. */
module ResurrectionRuns {
  import opened InternalKeys
  import opened Versions
  import opened VersionGet
  import opened CompactionInputs
  import opened Compactions
  import opened CompactionWork
  import opened LevelEdits
  import opened LevelOrder
  import opened Engine
  import opened EngineSteps
  import opened Resurrection

  ghost predicate EndsIn(states: seq<Db>, steps: seq<Step>, s: Db) {
    Execution(states, steps) && states[|states| - 1] == s
  }

  /** Some run ends in this state. */
  ghost predicate Reachable(s: Db) {
    exists states, steps :: EndsIn(states, steps, s)
  }

  lemma ReachableIsSane(s: Db)
    requires Reachable(s)
    ensures Inv(s) && Sane(s)
  {
    hide Inv, Sane, Execution;
    var states, steps :| EndsIn(states, steps, s);
    assert |states| > 0 by { NonEmptyRun(states, steps); }
    EveryRunKeepsInv(states, steps, |states| - 1);
    InvIsSane(s);
  }

  lemma NonEmptyRun(states: seq<Db>, steps: seq<Step>)
    requires Execution(states, steps)
    ensures |states| == |steps| + 1
  {
  }

  lemma OneMoreStep(s: Db, step: Step, s': Db)
    requires Reachable(s) && Sane(s) && Next(s, s', step)
    ensures Reachable(s')
  {
    hide Sane, Next, Init;
    var states, steps :| EndsIn(states, steps, s);
    var more, done := states + [s'], steps + [step];
    forall i | 0 <= i < |done|
      ensures Sane(more[i]) && Next(more[i], more[i + 1], done[i])
    {
      if i < |steps| {
        assert Sane(states[i]) && Next(states[i], states[i + 1], steps[i]);
      }
    }
    assert EndsIn(more, done, s');
  }

  // ----- Whole operations -----

  ghost function Wrote(s: Db, ops: seq<Op>): Db
    requires s.last + |ops| < MAX_SEQUENCE && s.logfile in s.disk.logs
  {
    var b: Batch := LogRecord(s.last + 1, ops);
    s.(mem := s.mem + BatchEntries(b), history := s.history + BatchEntries(b), last := s.last + |ops|,
       disk := AddToLog(s.disk, s.logfile, b))
  }

  lemma Write(s: Db, ops: seq<Op>)
    requires Reachable(s) && s.pending == [] && s.last + |ops| < MAX_SEQUENCE
    ensures s.logfile in s.disk.logs && Reachable(Wrote(s, ops))
  {
    hide Reachable, Inv, BatchEntries, WellFormed;
    ReachableIsSane(s);
    var logged := s.(pending := ops, disk := AddToLog(s.disk, s.logfile, LogRecord(s.last + 1, ops)));
    OneMoreStep(s, AppendLog(ops), logged);
    ReachableIsSane(logged);
    OneMoreStep(logged, InsertBatch, Wrote(s, ops));
  }

  ghost function Flushed(s: Db, f: File): Db
    requires |s.version.files| > 0
  {
    var v := AddTo(s.version, 0, f);
    s.(mem := {}, imm := None, immLog := s.logfile, logfile := s.nextFile, nextFile := s.nextFile + 2, version := v,
       disk := Disk(v, s.nextFile, s.last, s.nextFile + 2, s.disk.logs[s.nextFile := []], s.disk.tables + {s.nextFile + 1}))
  }

  /** The memtable is switched and its table installed in level 0. */
  lemma Flush(s: Db, f: File)
    requires Reachable(s) && s.pending == [] && s.imm.None? && s.background.Idle?
    requires ValidFile(f) && Entries(f.entries) == s.mem != {} && f.number == s.nextFile + 1
    ensures |s.version.files| > 0 && Reachable(Flushed(s, f))
  {
    hide Reachable, Inv, ValidFile, Entries, Data;
    ReachableIsSane(s);
    var v := AddTo(s.version, 0, f);
    var a := s.(imm := Some(s.mem), mem := {}, immLog := s.logfile, logfile := s.nextFile, nextFile := s.nextFile + 1,
                disk := s.disk.(logs := s.disk.logs[s.nextFile := []]));
    OneMoreStep(s, SwitchMemtable, a);
    ReachableIsSane(a);
    var b := a.(background := Installing(v, true, 0, false), nextFile := a.nextFile + 1, disk := a.disk.(tables := a.disk.tables + {a.nextFile}));
    OneMoreStep(a, BeginFlush(Some(f), 0), b);
    Install(b);
  }

  /** LogManifest and Commit. */
  lemma Install(s: Db)
    requires Reachable(s) && s.background.Installing? && !s.background.logged
    ensures Reachable(s.(version := s.background.target, imm := if s.background.flush then None else s.imm, background := Idle,
                         disk := s.disk.(manifest := s.background.target, lastSequence := s.last, nextFile := s.nextFile,
                                         logNumber := if s.background.flush then s.logfile else s.disk.logNumber)))
  {
    hide Reachable, Inv;
    ReachableIsSane(s);
    var logged := s.(background := s.background.(logged := true),
                     disk := s.disk.(manifest := s.background.target, lastSequence := s.last, nextFile := s.nextFile,
                                     logNumber := if s.background.flush then s.logfile else s.disk.logNumber));
    OneMoreStep(s, LogManifest, logged);
    ReachableIsSane(logged);
    OneMoreStep(logged, Commit, logged.(version := s.background.target, imm := if s.background.flush then None else s.imm, background := Idle));
  }

  ghost function Compacted(s: Db, level: nat, inputs0: seq<File>, inputs1: seq<File>, outs: seq<File>, nextFile: nat): Db
    requires level + 1 < |s.version.files|
  {
    var v := Replace(s.version, level, inputs0, inputs1, outs);
    s.(version := v, nextFile := nextFile,
       disk := s.disk.(manifest := v, lastSequence := s.last, nextFile := nextFile, tables := s.disk.tables + Numbers(outs)))
  }

  lemma Compact(s: Db, level: nat, inputs0: seq<File>, inputs1: seq<File>, input: seq<Entry>, outs: seq<File>, nextFile: nat)
    requires Reachable(s) && s.imm.None? && s.background.Idle? && WellFormed(s.version) && level + 1 < |s.version.files|
    requires GoodInputs(s.version, level, inputs0, inputs1) && Merged(inputs0, inputs1, input)
    requires OutputsHold(outs, Kept(input, |input|, Oldest(s), s.version, level), s.nextFile, nextFile)
    ensures Reachable(Compacted(s, level, inputs0, inputs1, outs, nextFile))
  {
    hide Reachable, Inv, GoodInputs, Merged, OutputsHold, Kept, WellFormed;
    ReachableIsSane(s);
    var v := Replace(s.version, level, inputs0, inputs1, outs);
    var begun := s.(background := Installing(v, false, Oldest(s), false), nextFile := nextFile,
                    disk := s.disk.(tables := s.disk.tables + Numbers(outs)));
    OneMoreStep(s, BeginCompaction(level, inputs0, inputs1, input, outs), begun);
    Install(begun);
  }

  // ----- The run -----

  const PUT_2 := Op(2.0, Value, "deleted")
  const PUT_1 := Op(1.0, Value, "older")
  const DELETE_2 := Op(2.0, Deletion, "")
  const PUT_1_AGAIN := Op(1.0, Value, "new")

  const INPUT := [PUT_1_AT_2, DELETE_2_AT_3, PUT_2_AT_1]
  const FLUSHED := File(3, 100, PUT_1_AT_2.key, PUT_2_AT_1.key, INPUT)
  const KEPT := File(8, 100, PUT_1_AT_4.key, PUT_1_AT_4.key, [PUT_1_AT_4])

  const ONE_FILE := Version([[FLUSHED], [], [], [], [], [], []])
  const SPLIT := Version([[], [NEXT, LEFT_BEHIND], [], [], [], [], []])

  const START := Db({}, None, EMPTY_VERSION, 0, [], 1, 0, 2, [], Idle, Disk(EMPTY_VERSION, 1, 0, 2, map[1 := []], {}), {})

  lemma Started()
    ensures Reachable(START)
  {
    assert EndsIn([START], [], START);
  }

  lemma Batches()
    ensures BatchEntries(LogRecord(1, [PUT_2])) == {PUT_2_AT_1}
    ensures BatchEntries(LogRecord(2, [PUT_1, DELETE_2])) == {PUT_1_AT_2, DELETE_2_AT_3}
    ensures BatchEntries(LogRecord(4, [PUT_1_AGAIN])) == {PUT_1_AT_4}
  {
    var a: Batch, b: Batch, c: Batch := LogRecord(1, [PUT_2]), LogRecord(2, [PUT_1, DELETE_2]), LogRecord(4, [PUT_1_AGAIN]);
    assert OpEntry(a, 0) == PUT_2_AT_1;
    assert OpEntry(b, 0) == PUT_1_AT_2 && OpEntry(b, 1) == DELETE_2_AT_3;
    assert OpEntry(c, 0) == PUT_1_AT_4;
  }

  /** The state after two writes with a snapshot between them. */
  lemma TwoWrites() returns (s: Db)
    ensures Reachable(s) && s.pending == [] && s.imm.None? && s.background.Idle? && s.version == EMPTY_VERSION
    ensures s.mem == s.history == {PUT_2_AT_1, PUT_1_AT_2, DELETE_2_AT_3}
    ensures s.last == 3 && s.snapshots == [1] && s.nextFile == 2
  {
    hide Reachable, BatchEntries, Inv, Sane;
    Batches();
    Started();
    Write(START, [PUT_2]);
    var a := Wrote(START, [PUT_2]);
    ReachableIsSane(a);
    var b := a.(snapshots := [1]);
    assert a.snapshots + [a.last] == [1];
    OneMoreStep(a, TakeSnapshot, b);
    Write(b, [PUT_1, DELETE_2]);
    s := Wrote(b, [PUT_1, DELETE_2]);
  }

  lemma InputIsValid()
    ensures ValidFile(FLUSHED) && Entries(INPUT) == {PUT_2_AT_1, PUT_1_AT_2, DELETE_2_AT_3}
  {
    assert INPUT[0] == PUT_1_AT_2 && INPUT[1] == DELETE_2_AT_3 && INPUT[2] == PUT_2_AT_1;
  }

  lemma OneFileVersion()
    ensures AddTo(EMPTY_VERSION, 0, FLUSHED) == ONE_FILE
  {
    assert InsertFile([], FLUSHED) == [FLUSHED];
    assert AddTo(EMPTY_VERSION, 0, FLUSHED).files == ONE_FILE.files;
  }

  lemma FlushedInputs()
    ensures WellFormed(ONE_FILE) && GoodInputs(ONE_FILE, 0, [FLUSHED], []) && Merged([FLUSHED], [], INPUT)
  {
    InputIsValid();
    hide ValidFile;
    var fs := ONE_FILE.files;
    assert fs[0] == [FLUSHED] && forall l :: 1 <= l < NUM_LEVELS ==> fs[l] == [];
    assert WellFormed(ONE_FILE);
    FlushedSeed();
    OneFileData(FLUSHED);
    assert FilesData([]) == {};
    assert ValidFile(FLUSHED) && Sorted(INPUT) by { InputIsSorted(); }
  }

  lemma InputIsSorted()
    ensures ValidFile(FLUSHED) && Sorted(INPUT)
  {
    InputIsValid();
  }

  lemma FlushedSeed()
    ensures Seed(0, [FLUSHED], [FLUSHED]) && BoundaryFree([FLUSHED], [FLUSHED])
    ensures IsSmallestKey([FLUSHED], FLUSHED.smallest) && IsLargestKey([FLUSHED], FLUSHED.largest)
    ensures Overlapping([], Some(1.0), Some(2.0)) == []
  {
    assert [FLUSHED][1..] == [];
    assert Overlapping([FLUSHED], Some(1.0), Some(2.0)) == [FLUSHED];
    assert ClosedRange([FLUSHED], Some(1.0), Some(2.0));
    assert FLUSHED in [FLUSHED];
  }

  lemma NoneDropped()
    requires WellFormed(ONE_FILE)
    ensures Kept(INPUT, 3, 1, ONE_FILE, 0) == INPUT
  {
    hide WellFormed, CoveredFrom;
    assert INPUT[0] == PUT_1_AT_2 && INPUT[1] == DELETE_2_AT_3 && INPUT[2] == PUT_2_AT_1;
    assert !Dropped(INPUT, 0, 1, ONE_FILE, 0) && !Dropped(INPUT, 1, 1, ONE_FILE, 0) && !Dropped(INPUT, 2, 1, ONE_FILE, 0);
    hide Dropped;
    assert Kept(INPUT, 0, 1, ONE_FILE, 0) == [];
    assert Kept(INPUT, 1, 1, ONE_FILE, 0) == [] + [INPUT[0]];
    assert Kept(INPUT, 2, 1, ONE_FILE, 0) == [INPUT[0]] + [INPUT[1]];
    assert Kept(INPUT, 3, 1, ONE_FILE, 0) == [INPUT[0], INPUT[1]] + [INPUT[2]];
  }

  lemma CutInTwo()
    ensures Flatten(Tables([NEXT, LEFT_BEHIND])) == INPUT
  {
    var ts := Tables([NEXT, LEFT_BEHIND]);
    assert ts == [NEXT.entries, LEFT_BEHIND.entries];
    assert ts[..1] == [NEXT.entries] && [NEXT.entries][..0] == [];
    assert Flatten([NEXT.entries]) == [] + NEXT.entries == NEXT.entries;
    assert Flatten(ts) == NEXT.entries + LEFT_BEHIND.entries;
  }

  /** The live snapshot keeps all three entries; the output is cut between the two of key 2. */
  lemma CutOutputs()
    requires WellFormed(ONE_FILE)
    ensures OutputsHold([NEXT, LEFT_BEHIND], Kept(INPUT, 3, 1, ONE_FILE, 0), 4, 6)
  {
    hide WellFormed, CoveredFrom, Kept, Flatten;
    NoneDropped();
    CutInTwo();
    assert ValidFile(NEXT) && ValidFile(LEFT_BEHIND);
  }

  lemma SplitVersion()
    ensures Replace(ONE_FILE, 0, [FLUSHED], [], [NEXT, LEFT_BEHIND]) == SPLIT
  {
    assert Without([FLUSHED], [FLUSHED]) == Without([], [FLUSHED]) == [];
    var outs := [NEXT, LEFT_BEHIND];
    assert outs[..1] == [NEXT] && [NEXT][..0] == [];
    assert InsertFiles([], [NEXT]) == [NEXT];
    assert [NEXT][1..] == [] && InsertFile([NEXT], LEFT_BEHIND) == [NEXT] + InsertFile([], LEFT_BEHIND) == outs;
    assert InsertFiles([], outs) == InsertFile(InsertFiles([], outs[..1]), LEFT_BEHIND);
  }

  /** A state of a run whose version is the straddling one. */
  lemma StraddlingIsReachable() returns (s: Db)
    ensures Reachable(s) && s.version == STRADDLING && s.imm.None? && s.background.Idle?
    ensures s.mem == {} && s.history == {PUT_1_AT_4, PUT_1_AT_2, DELETE_2_AT_3, PUT_2_AT_1}
    ensures s.snapshots == [] && s.last == 4 && s.nextFile == 8
  {
    hide Reachable, BatchEntries, Inv, Sane, GoodInputs, Merged, OutputsHold, Kept, WellFormed, ValidFile, Replace, Entries, InsertFile;
    var a := TwoWrites();
    InputIsValid();
    Flush(a, FLUSHED);
    OneFileVersion();
    var b := Flushed(a, FLUSHED);
    FlushedInputs();
    CutOutputs();
    Compact(b, 0, [FLUSHED], [], INPUT, [NEXT, LEFT_BEHIND], 6);
    SplitVersion();
    var c := Compacted(b, 0, [FLUSHED], [], [NEXT, LEFT_BEHIND], 6);
    ReachableIsSane(c);
    var d := c.(snapshots := []);
    assert c.snapshots[..0] + c.snapshots[1..] == [];
    OneMoreStep(c, ReleaseSnapshot(0), d);
    Write(d, [PUT_1_AGAIN]);
    Batches();
    var e := Wrote(d, [PUT_1_AGAIN]);
    assert e.mem == {PUT_1_AT_4};
    PickedIsValid();
    Flush(e, PICKED);
    s := Flushed(e, PICKED);
    PickedOnTop();
  }

  lemma PickedIsValid()
    ensures ValidFile(PICKED) && Entries(PICKED.entries) == {PUT_1_AT_4}
  {
    assert PICKED.entries[0] == PUT_1_AT_4;
  }

  lemma PickedOnTop()
    ensures AddTo(SPLIT, 0, PICKED) == STRADDLING
  {
    assert InsertFile([], PICKED) == [PICKED];
    assert AddTo(SPLIT, 0, PICKED).files == STRADDLING.files;
  }

  /** One run in full: after the next compaction a deleted value is read, though the history says absent. */
  lemma DeletedValueIsRead() returns (s: Db)
    ensures Reachable(s)
    ensures Read(s.history, 2.0, s.last) == None && Read(Total(s), 2.0, s.last) == Some("deleted")
  {
    hide Reachable, Inv, Sane, GoodInputs, Merged, OutputsHold, Kept, WellFormed, ValidFile, Replace, Remaining, Read, Unique, KeptSet;
    var t := StraddlingIsReachable();
    ReachableIsSane(t);
    PickedInputs();
    KeptOutput();
    Compact(t, 0, [PICKED], [NEXT], MERGED, [KEPT], 9);
    s := Compacted(t, 0, [PICKED], [NEXT], [KEPT], 9);
    assert s.history == t.history;
    DeletedBefore();
    DeletedValueComesBack();
    CompactedData(t);
    assert Total(s) == Data(s.version) by { NothingInMemory(s); }
  }

  lemma NothingInMemory(s: Db)
    requires s.mem == {} && s.imm.None?
    ensures Total(s) == Data(s.version)
  {
  }

  lemma KeptOutput()
    requires WellFormed(STRADDLING)
    ensures OutputsHold([KEPT], Kept(MERGED, 3, 4, STRADDLING, 0), 8, 9)
  {
    hide WellFormed, CoveredFrom;
    TombstoneDropped();
    assert MERGED[0] == PUT_1_AT_4 && MERGED[1] == PUT_1_AT_2 && MERGED[2] == DELETE_2_AT_3;
    assert !Dropped(MERGED, 0, 4, STRADDLING, 0);
    assert Shadowed(MERGED, 1, 4) by { assert MERGED[0].key.user == MERGED[1].key.user; }
    assert Kept(MERGED, 0, 4, STRADDLING, 0) == [];
    assert Kept(MERGED, 1, 4, STRADDLING, 0) == [PUT_1_AT_4];
    assert Kept(MERGED, 2, 4, STRADDLING, 0) == [PUT_1_AT_4];
    assert Kept(MERGED, 3, 4, STRADDLING, 0) == [PUT_1_AT_4];
    var ts := Tables([KEPT]);
    assert ts == [KEPT.entries] && ts[..0] == [];
    assert Flatten(ts) == [] + KEPT.entries == KEPT.entries;
    assert ValidFile(KEPT);
  }

  lemma TombstoneDropped()
    requires WellFormed(STRADDLING)
    ensures Obsolete(DELETE_2_AT_3, 4, STRADDLING, 0)
  {
  }

  lemma CompactedData(t: Db)
    requires Inv(t) && t.version == STRADDLING && t.nextFile == 8
    requires GoodInputs(STRADDLING, 0, [PICKED], [NEXT]) && Merged([PICKED], [NEXT], MERGED)
    requires OutputsHold([KEPT], Kept(MERGED, 3, 4, STRADDLING, 0), 8, 9)
    ensures Data(Replace(STRADDLING, 0, [PICKED], [NEXT], [KEPT]))
         == Remaining(STRADDLING, 0, [PICKED], [NEXT]) + KeptSet(MERGED, 4, STRADDLING, 0)
  {
    hide GoodInputs, Merged, OutputsHold, Kept, Replace, Remaining, KeptSet, WellFormed, Aged, Data, Unique, Accounted;
    UniqueSubset(t);
    WellFormedOf(t);
    CompactionTarget(STRADDLING, 0, [PICKED], [NEXT], MERGED, [KEPT], 4, 8, 9, t.disk.tables);
  }
}
