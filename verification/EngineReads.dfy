/** What readers see over whole runs: each step keeps the reads of every user key that no compaction splits, and
    no step ever loses a value that is present. */
module EngineReads {
  import opened InternalKeys
  import opened Versions
  import opened VersionGet
  import opened CompactionInputs
  import opened Compactions
  import opened CompactionWork
  import opened LevelEdits
  import opened LevelOrder
  import opened Engine
  import opened EngineSteps

  // ----- Reads over changing stores -----

  /** Entries newer than everything else do not disturb reads that agree. */
  lemma NewerEntriesKeepReads(before: set<Entry>, after: set<Entry>, newer: set<Entry>, snapshot: nat, u: UserKey)
    requires SameReads(before, after, snapshot, u) && after <= before
    requires Unique(before + newer) && NewerThan(newer, before)
    ensures SameReads(before + newer, after + newer, snapshot, u)
  {
    hide Read;
    forall s | s >= snapshot
      ensures Read(after + newer, u, s) == Read(before + newer, u, s)
    {
      var w := FindNewest(newer, u, s);
      if w.Some? {
        ReadOfNewest(before + newer, u, s, w.value);
        ReadOfNewest(after + newer, u, s, w.value);
      } else {
        ReadIgnores(before, newer, u, s);
        ReadIgnores(after, newer, u, s);
      }
    }
  }

  /** Entries the reader cannot see do not matter. */
  lemma ReadIgnores(es: set<Entry>, unseen: set<Entry>, u: UserKey, s: nat)
    requires Unique(es + unseen)
    requires forall x :: x in unseen && x.key.user == u ==> x.key.sequence > s
    ensures Read(es + unseen, u, s) == Read(es, u, s)
  {
    hide Read;
    var a := FindNewest(es, u, s);
    var b := FindNewest(es + unseen, u, s);
    assert a.Some? ==> IsNewest(es + unseen, u, s, a.value);
    assert b.Some? ==> IsNewest(es, u, s, b.value);
  }

  /** Past the last sequence number, every snapshot reads the same. */
  lemma ReadBeyond(es: set<Entry>, u: UserKey, s: nat, s2: nat)
    requires Unique(es) && AllAtMost(es, s) && s <= s2
    ensures Read(es, u, s) == Read(es, u, s2)
  {
    hide Read;
    var a := FindNewest(es, u, s);
    var b := FindNewest(es, u, s2);
    assert a.Some? ==> IsNewest(es, u, s2, a.value);
    assert b.Some? ==> IsNewest(es, u, s, b.value);
  }

  lemma ReadsChain(a: set<Entry>, b: set<Entry>, c: set<Entry>, s: nat, s2: nat, u: UserKey)
    requires SameReads(a, b, s, u) && SameReads(b, c, s2, u) && s2 <= s
    ensures SameReads(a, c, s, u)
  {
    hide Read;
  }

  lemma ReadsLater(before: set<Entry>, after: set<Entry>, snapshot: nat, later: nat, u: UserKey)
    requires SameReads(before, after, snapshot, u) && snapshot <= later
    ensures SameReads(before, after, later, u)
  {
    hide Read;
  }

  /** At or past the last sequence number the choice of snapshot does not matter. */
  lemma ReadsFromLast(before: set<Entry>, after: set<Entry>, snapshot: nat, last: nat, u: UserKey)
    requires Unique(before) && AllAtMost(before, last) && after <= before
    requires SameReads(before, after, snapshot, u)
    ensures SameReads(before, after, last, u)
  {
    hide Read;
    forall s | s >= last
      ensures Read(after, u, s) == Read(before, u, s)
    {
      var m := if s >= snapshot then s else snapshot;
      ReadBeyond(before, u, s, m);
      ReadBeyond(after, u, s, m);
    }
  }

  // ----- Steps -----

  /** Nothing a reader sees changes. */
  ghost predicate SameView(s: Db, s': Db) {
    && s'.history == s.history && Total(s') == Total(s) && Oldest(s') >= Oldest(s)
    && (s'.background.Installing? ==>
          TotalAfter(s') == Total(s)
          || (s.background.Installing? && TotalAfter(s') == TotalAfter(s) && s'.background.snapshot == s.background.snapshot))
  }

  lemma SameViewKeepsReads(s: Db, s': Db, u: UserKey)
    requires ReadsInv(s, u) && SameView(s, s')
    ensures ReadsInv(s', u)
  {
    hide SameReads, Total, TotalAfter;
    ReadsLater(s.history, Total(s), Oldest(s), Oldest(s'), u);
    SameStoreReads(Total(s), u);
  }

  lemma SameStoreReads(es: set<Entry>, u: UserKey)
    ensures forall n: nat :: SameReads(es, es, n, u)
  {
  }

  /** Steps that write nothing and drop nothing. */
  lemma QuietSteps(s: Db, s': Db, step: Step)
    requires Inv(s) && Sane(s) && Next(s, s', step)
    requires step.AppendLog? || step.SwitchMemtable? || step.LogManifest? || step.DeleteObsolete? || step.TakeSnapshot? || step.ReleaseSnapshot?
    ensures SameView(s, s')
  {
    hide WellFormed, Data, BatchEntries, OrderInv, BackgroundInv, DiskInv, Accounted, Unique, AllAtMost;
    if step.SwitchMemtable? {
      assert s'.mem + ImmData(s') == s.mem + ImmData(s);
      assert TotalAfter(s') == TotalAfter(s) by { SwitchKeepsView(s, s'); }
    }
  }

  lemma SwitchKeepsView(s: Db, s': Db)
    requires s.imm.None? && s'.mem == {} && s'.imm == Some(s.mem) && s'.background == s.background && s'.version == s.version
    requires BackgroundInv(s)
    ensures TotalAfter(s') == TotalAfter(s)
  {
    hide Data, GoodVersion, NewerThan, Accounted;
  }

  lemma FlushAndMoveViews(s: Db, s': Db, step: Step)
    requires Inv(s) && Sane(s) && Next(s, s', step) && (step.BeginFlush? || step.BeginMove?)
    ensures SameView(s, s')
  {
    hide WellFormed, Aged, Accounted, Data, GoodVersion, Unique, BatchEntries, NewerThan, LogsInOrder, LogEntries, FlushLevel,
         ValidFile, Entries, GoodInputs, Replace, AddTo;
    match step
    case BeginFlush(table, level) =>
      if s.imm.value != {} {
        FlushTarget(s, table.value, level);
      }
      assert TotalAfter(s') == Total(s);
    case BeginMove(level, f) =>
      WellFormedOf(s);
      MoveTarget(s, level, f);
      assert TotalAfter(s') == Total(s);
  }

  lemma InsertBatchKeepsReads(s: Db, s': Db, u: UserKey)
    requires Inv(s) && Sane(s) && Next(s, s', InsertBatch) && ReadsInv(s, u)
    ensures ReadsInv(s', u)
  {
    hide OrderInv, DiskInv, Accounted, Data, BatchEntries, WellFormed, SameReads;
    BatchIsNewer(s);
    InsertKeepsSequences(s, s');
    var w := Pending(s);
    NewerEntriesKeepReads(s.history, Total(s), w, Oldest(s), u);
    ReadsLater(s'.history, Total(s'), Oldest(s), Oldest(s'), u);
    if s.background.Installing? {
      assert TotalAfter(s') == TotalAfter(s) + w;
      NewerEntriesKeepReads(Total(s), TotalAfter(s), w, s.background.snapshot, u);
    }
  }

  /** A compaction keeps the reads of u exactly when no deleted value of u resurfaces. */
  lemma CompactionReads(s: Db, s': Db, level: nat, inputs0: seq<File>, inputs1: seq<File>, input: seq<Entry>, outs: seq<File>, u: UserKey)
    requires Inv(s) && Sane(s) && Next(s, s', BeginCompaction(level, inputs0, inputs1, input, outs)) && ReadsInv(s, u)
    ensures level + 1 < |s.version.files|
    ensures ReadsInv(s', u) <==>
      !Resurfaces(s.mem + Remaining(s.version, level, inputs0, inputs1), input, Oldest(s), s.version, level, u)
  {
    hide WellFormed, Aged, Data, GoodVersion, Unique, BatchEntries, GoodInputs, Replace, Remaining, Kept, DiskInv,
         Entries, Merged, OutputsHold, SameReads, KeptSet, NewerThan, Resurfaces, Accounted;
    var v := s.version;
    UniqueSubset(s);
    WellFormedOf(s);
    MergedSorted(inputs0, inputs1, input);
    CompactionTarget(v, level, inputs0, inputs1, input, outs, Oldest(s), s.nextFile, s'.nextFile, s.disk.tables);
    var rest := s.mem + Remaining(v, level, inputs0, inputs1);
    assert Total(s) == rest + Entries(input) && Total(s') == Total(s);
    assert TotalAfter(s') == rest + KeptSet(input, Oldest(s), v, level);
    SameReadsIffNothingResurfaces(rest, input, Oldest(s), v, level, u);
  }

  lemma BeginCompactionKeepsReads(s: Db, s': Db, level: nat, inputs0: seq<File>, inputs1: seq<File>, input: seq<Entry>, outs: seq<File>, u: UserKey)
    requires Inv(s) && Sane(s) && Next(s, s', BeginCompaction(level, inputs0, inputs1, input, outs)) && ReadsInv(s, u)
    requires !Splits(s, BeginCompaction(level, inputs0, inputs1, input, outs), u)
    ensures ReadsInv(s', u)
  {
    CompactionReads(s, s', level, inputs0, inputs1, input, outs, u);
    UniqueSubset(s);
    WellFormedOf(s);
    MemOverVersion(s);
    hide WellFormed, Aged, Data, GoodVersion, Unique, BatchEntries, GoodInputs, Replace, Remaining, Kept, DiskInv, SplitKey,
         Entries, Merged, OutputsHold, KeptSet, NewerThan, Resurfaces, Accounted, Inv, ReadsInv, SameReads;
    UnsplitKeepsReads(s.mem, s.version, level, inputs0, inputs1, input, Oldest(s), u);
  }

  lemma MemOverVersion(s: Db)
    requires Inv(s)
    ensures WellFormed(s.version) && Aged(s.version) && NewerThan(s.mem, Data(s.version)) && Unique(s.mem + Data(s.version))
  {
    hide WellFormed, Aged, Data, Accounted, BackgroundInv, DiskInv, UniqueNumbers, FreshNumber, Present;
    assert s.mem + Data(s.version) <= s.history;
  }

  lemma CommitKeepsReads(s: Db, s': Db, u: UserKey)
    requires Inv(s) && Sane(s) && Next(s, s', Commit) && ReadsInv(s, u)
    ensures ReadsInv(s', u)
  {
    hide WellFormed, Aged, Data, GoodVersion, Unique, BatchEntries, Accounted, DiskInv, SameReads;
    assert Total(s') == TotalAfter(s);
    ReadsChain(s.history, Total(s), Total(s'), Oldest(s), s.background.snapshot, u);
  }

  /** What the disk alone would give readers of u after a crash. */
  lemma DiskReads(s: Db, u: UserKey)
    requires Inv(s) && ReadsInv(s, u)
    ensures SameReads(s.history + Pending(s), Durable(s.disk), Oldest(s), u)
  {
    DiskHoldsEverything(s);
    BatchIsNewer(s);
    hide WellFormed, Aged, Data, GoodVersion, BatchEntries, LogData, Accounted, SameReads, Durable, DiskInv;
    if s.background.Installing? && s.background.logged {
      ReadsChain(s.history, Total(s), Held(s), Oldest(s), s.background.snapshot, u);
    }
    NewerEntriesKeepReads(s.history, Held(s), Pending(s), Oldest(s), u);
  }

  lemma CrashAndRecoverKeepsReads(s: Db, s': Db, recovered: seq<File>, newLog: nat, u: UserKey)
    requires Inv(s) && Sane(s) && Next(s, s', CrashAndRecover(recovered, newLog)) && ReadsInv(s, u)
    ensures ReadsInv(s', u)
  {
    hide WellFormed, Aged, Data, GoodVersion, BatchEntries, Unique, LogData, Durable, RecoveredTables, Inv, SameReads, IsRecoveredLast;
    RecoveredGood(s, s', recovered, newLog);
    DiskReads(s, u);
    RecoveredLast(s, s', recovered, newLog);
    BatchIsNewer(s);
    DurableWithinHistory(s);
    ReadsFromLast(s'.history, Durable(s.disk), Oldest(s), s'.last, u);
    assert Total(s') == Data(s'.version);
  }

  /** Every step keeps the reads of a user key it does not split. */
  lemma NextKeepsReads(s: Db, s': Db, step: Step, u: UserKey)
    requires Inv(s) && Sane(s) && Next(s, s', step) && ReadsInv(s, u) && !Splits(s, step, u)
    ensures ReadsInv(s', u)
  {
    hide Inv, Sane, ReadsInv, Next, SameView, Splits;
    match step
    case InsertBatch => InsertBatchKeepsReads(s, s', u);
    case BeginCompaction(level, inputs0, inputs1, input, outs) =>
      BeginCompactionKeepsReads(s, s', level, inputs0, inputs1, input, outs, u);
    case Commit => CommitKeepsReads(s, s', u);
    case CrashAndRecover(recovered, newLog) => CrashAndRecoverKeepsReads(s, s', recovered, newLog, u);
    case BeginFlush(_, _) =>
      FlushAndMoveViews(s, s', step);
      SameViewKeepsReads(s, s', u);
    case BeginMove(_, _) =>
      FlushAndMoveViews(s, s', step);
      SameViewKeepsReads(s, s', u);
    case _ =>
      QuietSteps(s, s', step);
      SameViewKeepsReads(s, s', u);
  }

  // ----- Runs -----

  /** In every reachable state, after any compactions at all, a value that is present at a live snapshot is what
      readers get from the store, and from the disk alone: only deletions can be undone. */
  lemma EveryRunKeepsPresentValues(states: seq<Db>, steps: seq<Step>, n: nat, u: UserKey, s: nat)
    requires Execution(states, steps) && n < |states| && s >= Oldest(states[n])
    ensures Inv(states[n])
    ensures Read(states[n].history, u, s).Some? ==> Read(Total(states[n]), u, s) == Read(states[n].history, u, s)
    ensures var written := states[n].history + Pending(states[n]);
      Read(written, u, s).Some? ==> Read(Durable(states[n].disk), u, s) == Read(written, u, s)
  {
    EveryRunKeepsInv(states, steps, n);
    var d := states[n];
    BatchIsNewer(d);
    DurableWithinHistory(d);
    hide Read, Accounted, Total, Durable, OrderInv, BackgroundInv, DiskInv, BatchEntries, Execution;
    PresentValuesStay(d.history, Total(d), Oldest(d), u, s);
    PresentValuesStay(d.history + Pending(d), Durable(d.disk), Oldest(d), u, s);
  }

  /** In every reachable state, a user key that no compaction of the run split reads exactly what the history of
      writes says, from the store and from the disk alone. */
  lemma {:induction false} UnsplitKeysReadTheirHistory(states: seq<Db>, steps: seq<Step>, n: nat, u: UserKey)
    requires Execution(states, steps) && n < |states|
    requires forall i :: 0 <= i < n ==> !Splits(states[i], steps[i], u)
    ensures Inv(states[n]) && ReadsInv(states[n], u)
    ensures SameReads(states[n].history, Total(states[n]), Oldest(states[n]), u)
    ensures SameReads(states[n].history + Pending(states[n]), Durable(states[n].disk), Oldest(states[n]), u)
  {
    hide Init, Next, Inv, Total, Durable, SameReads, Splits;
    EveryRunKeepsInv(states, steps, n);
    if n == 0 {
      InitReads(states[0], u);
    } else {
      UnsplitKeysReadTheirHistory(states, steps, n - 1, u);
      NextKeepsReads(states[n - 1], states[n], steps[n - 1], u);
    }
    InvIsSane(states[n]);
    DiskReads(states[n], u);
  }

  lemma InitReads(s: Db, u: UserKey)
    requires Init(s)
    ensures ReadsInv(s, u)
  {
    hide Data;
    EmptyVersionIsGood(s.nextFile, {});
    SameStoreReads({}, u);
    assert Total(s) == {};
  }

  /** Runs whose compactions leave no boundary file behind at the next level read the history for every key. */
  lemma ClosedRunsReadTheirHistory(states: seq<Db>, steps: seq<Step>, n: nat)
    requires Execution(states, steps) && n < |states|
    requires forall i :: 0 <= i < n && steps[i].BeginCompaction? ==> ClosesNextLevel(states[i], steps[i])
    ensures Inv(states[n])
    ensures forall u :: SameReads(states[n].history, Total(states[n]), Oldest(states[n]), u)
    ensures forall u :: SameReads(states[n].history + Pending(states[n]), Durable(states[n].disk), Oldest(states[n]), u)
  {
    EveryRunKeepsInv(states, steps, n);
    InvIsSane(states[n]);
    forall u
      ensures SameReads(states[n].history, Total(states[n]), Oldest(states[n]), u)
      ensures SameReads(states[n].history + Pending(states[n]), Durable(states[n].disk), Oldest(states[n]), u)
    {
      forall i | 0 <= i < n
        ensures !Splits(states[i], steps[i], u)
      {
        if steps[i].BeginCompaction? {
          ClosedStepSplitsNothing(states[i], states[i + 1], steps[i], u);
        }
      }
      UnsplitKeysReadTheirHistory(states, steps, n, u);
    }
  }

  /** The file test: no file left at the next level starts with the user key its inputs end with. */
  ghost predicate ClosesNextLevel(s: Db, step: Step)
    requires step.BeginCompaction?
  {
    step.level + 1 < |s.version.files| && BoundaryFree(s.version.files[step.level + 1], step.inputs1)
  }

  lemma ClosedStepSplitsNothing(s: Db, s': Db, step: Step, u: UserKey)
    requires Sane(s) && Next(s, s', step) && step.BeginCompaction? && ClosesNextLevel(s, step)
    ensures !Splits(s, step, u)
  {
    hide BoundaryFree, SplitKey, WellFormed, GoodInputs;
    NoneSplitIffBoundaryFree(s.version, step.level, step.inputs0, step.inputs1);
  }
}
