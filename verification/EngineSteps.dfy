/** Each step of the engine keeps the invariant. */
module EngineSteps {
  import opened InternalKeys
  import opened Versions
  import opened VersionGet
  import opened CompactionInputs
  import opened Compactions
  import opened CompactionWork
  import opened LevelEdits
  import opened LevelOrder
  import opened Engine

  // ----- Writes -----

  lemma BatchIsNewer(s: Db)
    requires Inv(s)
    ensures AllAtMost(Pending(s), s.last + |s.pending|)
    ensures NewerThan(Pending(s), s.history)
    ensures Unique(s.history + Pending(s))
    ensures forall e :: e in Pending(s) ==> e.key.sequence > s.last
  {
    hide Aged, WellFormed, Accounted, BackgroundInv, OrderInv, DiskInv, Total;
  }

  lemma LogEntriesPush(log: seq<Batch>, b: Batch)
    ensures LogEntries(log + [b]) == LogEntries(log) + BatchEntries(b)
  {
    hide BatchEntries;
  }

  lemma AppendLogKeeps(s: Db, s': Db, ops: seq<Op>)
    requires Inv(s) && Sane(s) && Next(s, s', AppendLog(ops))
    ensures Inv(s')
  {
    hide WellFormed, Aged, Accounted, Data, GoodVersion, Unique, NewerThan, AllAtMost, FreshNumber, LogEntries, LogsInOrder;
    assert Pending(s) == {} by { NoPending(s); }
    LogEntriesPush(s.disk.logs[s.logfile], LogRecord(s.last + 1, ops));
    AppendKeepsLogsInOrder(s.disk, s.logfile, s.last, LogRecord(s.last + 1, ops));
  }

  lemma AppendKeepsLogsInOrder(d: Disk, log: nat, last: nat, b: Batch)
    requires LogsInOrder(d, last + 1) && log in d.logs && b.start == last + 1
    requires forall k :: k in d.logs && k >= d.logNumber ==> k <= log
    ensures LogsInOrder(AddToLog(d, log, b), BatchEnd(b))
  {
    forall k | k in d.logs && d.logNumber <= k < log
      ensures LogPrecedes(d.logs[k], d.logs[log] + [b])
    {
      assert LogInOrder(d.logs[k], last + 1) && LogPrecedes(d.logs[k], d.logs[log]);
      assert forall a :: a in d.logs[k] ==> BatchEnd(a) <= last + 1;
    }
    assert forall k :: k in d.logs && k >= d.logNumber ==> LogInOrder(d.logs[k], last + 1);
  }

  lemma InsertBatchKeeps(s: Db, s': Db)
    requires Inv(s) && Sane(s) && Next(s, s', InsertBatch)
    ensures Inv(s')
  {
    hide SequencesInv, OrderInv, BackgroundInv, DiskInv, Accounted, Data, BatchEntries, Unique, NewerThan;
    InsertKeepsSequences(s, s');
    InsertKeepsOrder(s, s');
    InsertKeepsDisk(s, s');
  }

  lemma InsertKeepsSequences(s: Db, s': Db)
    requires Inv(s) && Sane(s) && Next(s, s', InsertBatch)
    ensures SequencesInv(s') && Accounted(s'.history, Total(s'), Oldest(s')) && Oldest(s) <= Oldest(s')
    ensures Total(s') == Total(s) + Pending(s)
  {
    hide OrderInv, BackgroundInv, DiskInv, Accounted, Data, BatchEntries, WellFormed;
    BatchIsNewer(s);
    assert Total(s') == Total(s) + Pending(s);
    AccountedMore(s.history, Total(s), Pending(s), Oldest(s), Oldest(s'));
  }

  /** Entries held on both sides, and a later snapshot, leave the account of what is missing intact. */
  lemma AccountedMore(before: set<Entry>, after: set<Entry>, more: set<Entry>, snapshot: nat, later: nat)
    requires Accounted(before, after, snapshot) && snapshot <= later
    ensures Accounted(before + more, after + more, later)
  {
  }

  lemma InsertKeepsOrder(s: Db, s': Db)
    requires Inv(s) && Sane(s) && Next(s, s', InsertBatch)
    ensures OrderInv(s') && BackgroundInv(s')
  {
    hide DiskInv, Accounted, Data, BatchEntries, WellFormed, GoodVersion;
    BatchIsNewer(s);
    var w := Pending(s);
    assert Total(s') == Total(s) + w;
    if s.background.Installing? {
      assert TotalAfter(s') == TotalAfter(s) + w;
      AccountedMore(Total(s), TotalAfter(s), w, s.background.snapshot, s.background.snapshot);
    }
  }

  lemma InsertKeepsDisk(s: Db, s': Db)
    requires Inv(s) && Sane(s) && Next(s, s', InsertBatch)
    ensures DiskInv(s')
  {
    hide OrderInv, BackgroundInv, Accounted, Data, BatchEntries, WellFormed, Unique, NewerThan, FreshNumber, LogEntries, LogsInOrder;
    BatchIsNewer(s);
    NoPending(s');
  }

  lemma GoodVersionGrows(v: Version, nextFile: nat, tables: set<nat>, nextFile2: nat, tables2: set<nat>)
    requires GoodVersion(v, nextFile, tables) && nextFile <= nextFile2 && tables <= tables2
    ensures GoodVersion(v, nextFile2, tables2)
  {
    hide WellFormed, Aged, UniqueNumbers;
  }

  lemma SwitchMemtableKeeps(s: Db, s': Db)
    requires Inv(s) && Sane(s) && Next(s, s', SwitchMemtable)
    ensures Inv(s')
  {
    hide WellFormed, Aged, Accounted, Data, GoodVersion, Unique, BatchEntries;
    GoodVersionGrows(s.version, s.nextFile, s.disk.tables, s'.nextFile, s'.disk.tables);
    if s.background.Installing? {
      GoodVersionGrows(s.background.target, s.nextFile, s.disk.tables, s'.nextFile, s'.disk.tables);
    }
    assert Pending(s) == {} by { NoPending(s); }
    assert Pending(s') == {} by { NoPending(s'); }
    assert Total(s') == Total(s) && TotalAfter(s') == TotalAfter(s);
    assert s.mem + ImmData(s) == s.mem && s'.mem + ImmData(s') == s.mem;
  }

  lemma NoPending(s: Db)
    requires s.pending == [] && s.last < MAX_SEQUENCE
    ensures Pending(s) == {}
  {
  }

  // ----- Snapshots -----

  lemma TakeSnapshotKeeps(s: Db, s': Db)
    requires Inv(s) && Sane(s) && Next(s, s', TakeSnapshot)
    ensures Inv(s')
  {
    hide WellFormed, Aged, Accounted, Data, GoodVersion, Unique, BatchEntries, NewerThan, FreshNumber, LogEntries, LogsInOrder, AllAtMost;
    assert Oldest(s') == Oldest(s);
  }

  lemma ReleaseSnapshotKeeps(s: Db, s': Db, i: nat)
    requires Inv(s) && Sane(s) && Next(s, s', ReleaseSnapshot(i))
    ensures Inv(s')
  {
    hide WellFormed, Aged, Accounted, Data, GoodVersion, Unique, BatchEntries, NewerThan, FreshNumber, LogEntries, LogsInOrder, AllAtMost;
    assert Oldest(s) <= Oldest(s');
    AccountedMore(s.history, Total(s), {}, Oldest(s), Oldest(s'));
    assert s.history + {} == s.history && Total(s) + {} == Total(s);
  }

  // ----- Installing a version -----

  lemma LogManifestKeeps(s: Db, s': Db)
    requires Inv(s) && Sane(s) && Next(s, s', LogManifest)
    ensures Inv(s')
  {
    hide WellFormed, Aged, Accounted, Data, GoodVersion, Unique, BatchEntries, NewerThan, FreshNumber, LogInOrder, LogPrecedes,
         LogEntries;
    assert TotalAfter(s') == TotalAfter(s);
    assert LogsInOrder(s'.disk, s'.last + |s'.pending| + 1);
    FreshOf(s.background.target, s.nextFile, s.disk.tables);
  }

  lemma FreshOf(v: Version, nextFile: nat, tables: set<nat>)
    requires GoodVersion(v, nextFile, tables)
    ensures FreshNumber(v, nextFile) && Present(v, tables)
  {
  }

  lemma AccountedChain(a: set<Entry>, b: set<Entry>, c: set<Entry>, s: nat, s2: nat)
    requires Accounted(a, b, s) && Accounted(b, c, s2) && b <= a && s2 <= s
    ensures Accounted(a, c, s)
  {
  }

  lemma CommitKeeps(s: Db, s': Db)
    requires Inv(s) && Sane(s) && Next(s, s', Commit)
    ensures Inv(s')
  {
    hide WellFormed, Aged, Accounted, Data, GoodVersion, Unique, BatchEntries, FreshNumber, LogEntries, LogsInOrder;
    assert Total(s') == TotalAfter(s);
    AccountedChain(s.history, Total(s), Total(s'), Oldest(s), s.background.snapshot);
  }

  lemma DeleteObsoleteKeeps(s: Db, s': Db, keepTables: set<nat>, keepLogs: set<nat>)
    requires Inv(s) && Sane(s) && Next(s, s', DeleteObsolete(keepTables, keepLogs))
    ensures Inv(s')
  {
    hide WellFormed, Aged, Accounted, Data, Unique, BatchEntries, NewerThan, FreshNumber, GoodVersion, LogEntries, LogInOrder, LogPrecedes, AllAtMost;
    TablesKept(s.version, s.nextFile, s.disk.tables, keepTables);
    if s.background.Installing? {
      TablesKept(s.background.target, s.nextFile, s.disk.tables, keepTables);
    }
    assert Total(s') == Total(s) && TotalAfter(s') == TotalAfter(s);
    assert Pending(s') == Pending(s);
    assert LogsInOrder(s'.disk, s'.last + |s'.pending| + 1);
  }

  lemma TablesKept(v: Version, nextFile: nat, tables: set<nat>, keep: set<nat>)
    requires GoodVersion(v, nextFile, tables) && Present(v, keep)
    ensures GoodVersion(v, nextFile, tables * keep)
  {
    hide WellFormed, Aged, UniqueNumbers, FreshNumber;
  }

  // ----- Flushes, moves and compactions -----

  lemma AddToNumbers(v: Version, level: nat, f: File, nextFile: nat, tables: set<nat>)
    requires UniqueNumbers(v) && FreshNumber(v, nextFile) && Present(v, tables) && level < |v.files|
    requires f.number == nextFile
    ensures UniqueNumbers(AddTo(v, level, f)) && FreshNumber(AddTo(v, level, f), nextFile + 1)
    ensures Present(AddTo(v, level, f), tables + {nextFile})
  {
    hide InsertFile;
    InsertFileMembers(v.files[level], f);
    var w := AddTo(v, level, f);
    assert forall l, g :: 0 <= l < |v.files| && g in w.files[l] ==> g in v.files[l] || (l == level && g == f);
  }

  lemma FlushTarget(s: Db, f: File, level: nat)
    requires Inv(s) && s.imm.Some? && Entries(f.entries) == s.imm.value && ValidFile(f)
    requires f.number == s.nextFile && FlushLevel(s.version, level, f)
    ensures GoodVersion(AddTo(s.version, level, f), s.nextFile + 1, s.disk.tables + {s.nextFile})
    ensures Data(AddTo(s.version, level, f)) == Data(s.version) + s.imm.value
  {
    hide WellFormed, Aged, FlushLevel, ValidFile, UniqueNumbers, Present, Accounted, Data, Entries;
    FlushLevelBound(s.version, level, f);
    LevelCount(s.version);
    ImmIsNewer(s);
    FlushKeepsOrder(s.version, level, f);
    AddToNumbers(s.version, level, f, s.nextFile, s.disk.tables);
    AddToData(s.version, level, f);
  }

  lemma ImmIsNewer(s: Db)
    requires OrderInv(s)
    ensures NewerThan(ImmData(s), Data(s.version)) && NewerThan(s.mem, Data(s.version))
  {
    hide GoodVersion, Data;
  }

  lemma BeginFlushKeeps(s: Db, s': Db, table: Option<File>, level: nat)
    requires Inv(s) && Sane(s) && Next(s, s', BeginFlush(table, level))
    ensures Inv(s')
  {
    hide WellFormed, Aged, Data, GoodVersion, Unique, BatchEntries, FlushLevel, ValidFile, Read, Entries, FreshNumber, LogEntries,
         LogInOrder, LogPrecedes, Accounted, AllAtMost;
    GoodVersionGrows(s.version, s.nextFile, s.disk.tables, s'.nextFile, s'.disk.tables);
    if s.imm.value != {} {
      FlushTarget(s, table.value, level);
    }
    AccountedSame(Total(s), 0);
    assert TotalAfter(s') == Total(s);
    assert Total(s') == Total(s);
  }

  lemma ReplaceNumbers(v: Version, level: nat, inputs0: seq<File>, inputs1: seq<File>, outs: seq<File>,
                       nextFile: nat, nextFile': nat, tables: set<nat>)
    requires UniqueNumbers(v) && FreshNumber(v, nextFile) && Present(v, tables) && level + 1 < |v.files|
    requires nextFile <= nextFile' && DistinctNumbers(outs)
    requires (forall f :: f in outs ==> nextFile <= f.number < nextFile')
          || (inputs0 == outs && inputs0 != [] && forall f :: f in inputs0 ==> f in v.files[level])
    ensures UniqueNumbers(Replace(v, level, inputs0, inputs1, outs))
    ensures FreshNumber(Replace(v, level, inputs0, inputs1, outs), nextFile')
    ensures Present(Replace(v, level, inputs0, inputs1, outs), tables + Numbers(outs))
    ensures forall f, g :: f in outs && g in v.files[level + 1] ==> f.number != g.number
  {
    hide Replace, UniqueNumbers, FreshNumber, Present;
    var w := Replace(v, level, inputs0, inputs1, outs);
    ReplaceMembers(v, level, inputs0, inputs1, outs);
    ReplaceUnique(v, w, level, inputs0, outs, nextFile);
    ReplacePresent(v, w, level, inputs0, outs, nextFile, nextFile', tables);
  }

  /** Every file of the new version was there before and not among the upper inputs, or is an output. */
  ghost predicate Replaced(v: Version, w: Version, level: nat, inputs0: seq<File>, outs: seq<File>) {
    && |w.files| == |v.files|
    && forall l, g :: 0 <= l < |v.files| && g in w.files[l] ==>
      (g in v.files[l] && (l == level ==> g !in inputs0)) || (l == level + 1 && g in outs)
  }

  lemma ReplaceMembers(v: Version, level: nat, inputs0: seq<File>, inputs1: seq<File>, outs: seq<File>)
    requires level + 1 < |v.files|
    ensures Replaced(v, Replace(v, level, inputs0, inputs1, outs), level, inputs0, outs)
  {
    hide InsertFiles, Without;
    WithoutMembers(v.files[level], inputs0);
    WithoutMembers(v.files[level + 1], inputs1);
    InsertFilesMembers(Without(v.files[level + 1], inputs1), outs);
  }

  lemma ReplaceUnique(v: Version, w: Version, level: nat, inputs0: seq<File>, outs: seq<File>, nextFile: nat)
    requires Replaced(v, w, level, inputs0, outs) && UniqueNumbers(v) && FreshNumber(v, nextFile) && level + 1 < |v.files| && DistinctNumbers(outs)
    requires (forall f :: f in outs ==> nextFile <= f.number)
          || (inputs0 == outs && inputs0 != [] && forall f :: f in inputs0 ==> f in v.files[level])
    ensures UniqueNumbers(w)
    ensures forall f, g :: f in outs && g in v.files[level + 1] ==> f.number != g.number
  {
    forall l, m, f, g | 0 <= l < |w.files| && 0 <= m < |w.files| && f in w.files[l] && g in w.files[m] && f.number == g.number
      ensures l == m && f == g
    {
      if f in outs && g in outs && l == level + 1 && m == level + 1 {
        SameNumberSameFile(outs, f, g);
      }
    }
  }

  lemma ReplacePresent(v: Version, w: Version, level: nat, inputs0: seq<File>, outs: seq<File>, nextFile: nat, nextFile': nat, tables: set<nat>)
    requires Replaced(v, w, level, inputs0, outs) && FreshNumber(v, nextFile) && Present(v, tables) && level + 1 < |v.files|
    requires nextFile <= nextFile'
    requires (forall f :: f in outs ==> nextFile <= f.number < nextFile')
          || (inputs0 == outs && inputs0 != [] && forall f :: f in inputs0 ==> f in v.files[level])
    ensures FreshNumber(w, nextFile') && Present(w, tables + Numbers(outs))
  {
  }

  /** A single file moved down unchanged. */
  lemma BeginMoveKeeps(s: Db, s': Db, level: nat, f: File)
    requires Inv(s) && Sane(s) && Next(s, s', BeginMove(level, f))
    ensures Inv(s')
  {
    hide WellFormed, Aged, Data, GoodVersion, Unique, BatchEntries, GoodInputs, Read, Replace, NewerThan;
    WellFormedOf(s);
    MoveTarget(s, level, f);
    assert TotalAfter(s') == Total(s);
    assert Total(s') == Total(s);
    NewerThanSubset(s.mem + ImmData(s), Data(s.version), Data(s'.background.target));
  }

  lemma MoveTarget(s: Db, level: nat, f: File)
    requires Inv(s) && GoodInputs(s.version, level, [f], [])
    ensures level + 1 < |s.version.files|
    ensures GoodVersion(Replace(s.version, level, [f], [], [f]), s.nextFile, s.disk.tables)
    ensures Data(Replace(s.version, level, [f], [], [f])) == Data(s.version)
  {
    hide WellFormed, Aged, GoodInputs, Accounted, Data, Unique, UniqueNumbers, FreshNumber, Present, ValidFile, Sorted;
    var v := s.version;
    LevelCount(v);
    GoodInputsMembers(v, level, [f], []);
    LevelsValid(v, level);
    MovedOutputs(v, level, f);
    ReplaceNumbers(v, level, [f], [], [f], s.nextFile, s.nextFile, s.disk.tables);
    PresentAlready(v, level, f, s.disk.tables);
    ReplaceData(v, level, [f], [], [f]);
    UniqueSubset(s);
    CompactionKeepsWellFormed(v, level, [f], [], f.entries, [f]);
    CompactionKeepsAged(v, level, [f], [], f.entries, [f]);
  }

  lemma PresentAlready(v: Version, level: nat, f: File, tables: set<nat>)
    requires Present(v, tables) && level < |v.files| && f in v.files[level]
    ensures tables + Numbers([f]) == tables
  {
  }

  lemma UniqueSubset(s: Db)
    requires SequencesInv(s)
    ensures Unique(Data(s.version)) && Unique(Total(s))
  {
    hide Data;
  }

  lemma MovedOutputs(v: Version, level: nat, f: File)
    requires WellFormed(v) && UniqueNumbers(v) && level + 1 < NUM_LEVELS && f in v.files[level]
    ensures Merged([f], [], f.entries) && GoodOutputs(v, level, [], f.entries, [f])
  {
    hide Sorted;
    assert FilesData([f]) == Entries(f.entries) && FilesData([]) == {};
    LevelsValid(v, level);
    assert ValidFile(f);
  }

  /** The version a compaction builds, and what it holds. */
  lemma CompactionTarget(v: Version, level: nat, inputs0: seq<File>, inputs1: seq<File>, input: seq<Entry>, outs: seq<File>,
                         snapshot: nat, nextFile: nat, nextFile': nat, tables: set<nat>)
    requires GoodVersion(v, nextFile, tables) && Unique(Data(v))
    requires GoodInputs(v, level, inputs0, inputs1) && Merged(inputs0, inputs1, input)
    requires OutputsHold(outs, Kept(input, |input|, snapshot, v, level), nextFile, nextFile')
    ensures level + 1 < |v.files|
    ensures GoodVersion(Replace(v, level, inputs0, inputs1, outs), nextFile', tables + Numbers(outs))
    ensures Data(v) == Remaining(v, level, inputs0, inputs1) + Entries(input)
    ensures Data(Replace(v, level, inputs0, inputs1, outs))
         == Remaining(v, level, inputs0, inputs1) + KeptSet(input, snapshot, v, level)
    ensures KeptSet(input, snapshot, v, level) <= Entries(input)
  {
    hide WellFormed, Aged, GoodInputs, Data, Unique, UniqueNumbers, FreshNumber, Present, ValidFile, ValidFiles, Sorted,
         DistinctNumbers, Kept, Replace, Remaining, Entries;
    LevelCount(v);
    GoodInputsMembers(v, level, inputs0, inputs1);
    KeptInOrder(input, |input|, snapshot, v, level);
    OutputsAreGood(outs, Kept(input, |input|, snapshot, v, level), nextFile, nextFile');
    KeptSubset(input, snapshot, v, level);
    OutputNumbers(outs, nextFile, nextFile');
    ReplaceNumbers(v, level, inputs0, inputs1, outs, nextFile, nextFile', tables);
    ReplaceData(v, level, inputs0, inputs1, outs);
    assert GoodOutputs(v, level, inputs1, input, outs);
    CompactionKeepsWellFormed(v, level, inputs0, inputs1, input, outs);
    CompactionKeepsAged(v, level, inputs0, inputs1, input, outs);
  }

  lemma OutputNumbers(outs: seq<File>, nextFile: nat, nextFile': nat)
    requires forall i :: 0 <= i < |outs| ==> nextFile <= outs[i].number < nextFile'
    ensures forall f :: f in outs ==> nextFile <= f.number < nextFile'
  {
  }

  lemma KeptSubset(input: seq<Entry>, snapshot: nat, v: Version, level: nat)
    requires WellFormed(v)
    ensures KeptSet(input, snapshot, v, level) <= Entries(input)
  {
    hide WellFormed, Dropped, Kept;
    KeptMembers(input, |input|, snapshot, v, level);
  }

  lemma BeginCompactionKeeps(s: Db, s': Db, level: nat, inputs0: seq<File>, inputs1: seq<File>, input: seq<Entry>, outs: seq<File>)
    requires Inv(s) && Sane(s) && Next(s, s', BeginCompaction(level, inputs0, inputs1, input, outs))
    ensures Inv(s')
  {
    hide WellFormed, Aged, Data, GoodVersion, Unique, BatchEntries, GoodInputs, Read, Replace, Remaining, Kept,
         Entries, Merged, OutputsHold, Accounted, KeptSet, NewerThan;
    var v := s.version;
    UniqueSubset(s);
    WellFormedOf(s);
    CompactionTarget(v, level, inputs0, inputs1, input, outs, Oldest(s), s.nextFile, s'.nextFile, s.disk.tables);
    NextFileGrows(s, s', level, inputs0, inputs1, input, outs);
    GoodVersionGrows(v, s.nextFile, s.disk.tables, s'.nextFile, s'.disk.tables);
    var rest := s.mem + Remaining(v, level, inputs0, inputs1);
    MergedSorted(inputs0, inputs1, input);
    assert Total(s) == rest + Entries(input);
    DropsAreAccounted(rest, input, Oldest(s), v, level);
    assert Total(s') == Total(s);
    assert TotalAfter(s') == rest + KeptSet(input, Oldest(s), v, level);
    assert OrderInv(s');
    NewerThanSubset(s.mem + ImmData(s), Data(v), Data(s'.background.target));
  }

  lemma NewerThanSubset(newer: set<Entry>, older: set<Entry>, part: set<Entry>)
    requires NewerThan(newer, older) && part <= older
    ensures NewerThan(newer, part)
  {
  }

  lemma MergedSorted(inputs0: seq<File>, inputs1: seq<File>, input: seq<Entry>)
    requires Merged(inputs0, inputs1, input)
    ensures Sorted(input)
  {
  }

  lemma WellFormedOf(s: Db)
    requires OrderInv(s)
    ensures WellFormed(s.version) && GoodVersion(s.version, s.nextFile, s.disk.tables)
  {
  }

  lemma NextFileGrows(s: Db, s': Db, level: nat, inputs0: seq<File>, inputs1: seq<File>, input: seq<Entry>, outs: seq<File>)
    requires Inv(s) && Sane(s) && Next(s, s', BeginCompaction(level, inputs0, inputs1, input, outs))
    ensures s.nextFile <= s'.nextFile
  {
  }

  // ----- Crash and recovery -----

  /** What the manifest names, without the logs: the installed version, or the logged one. */
  ghost function Held(s: Db): set<Entry> {
    if s.background.Installing? && s.background.logged then TotalAfter(s) else Total(s)
  }

  /** At every step the disk alone holds what readers see now or will see, plus the batch in flight; what it does
      not hold of the history was hidden or deleted. */
  lemma DiskHoldsEverything(s: Db)
    requires Inv(s)
    ensures Durable(s.disk) == Held(s) + Pending(s)
    ensures Accounted(s.history + Pending(s), Durable(s.disk), Oldest(s))
    ensures GoodVersion(s.disk.manifest, s.nextFile, s.disk.tables)
    ensures NewerThan(LogData(s.disk), Data(s.disk.manifest))
  {
    LogsHold(s);
    BatchIsNewer(s);
    UniqueSubset(s);
    hide WellFormed, Aged, Data, GoodVersion, BatchEntries, LogData, Accounted;
    assert Durable(s.disk) == Held(s) + Pending(s);
    if s.background.Installing? && s.background.logged {
      AccountedChain(s.history, Total(s), Held(s), Oldest(s), s.background.snapshot);
    }
    AccountedMore(s.history, Held(s), Pending(s), Oldest(s), Oldest(s));
  }

  /** The logs numbered at or above LogNumber hold exactly what no table named by the manifest holds. */
  lemma LogsHold(s: Db)
    requires Inv(s)
    ensures LogData(s.disk) == s.mem + (if LoggedFlush(s) then {} else ImmData(s)) + Pending(s)
  {
    hide WellFormed, Aged, Data, GoodVersion, BatchEntries, Accounted, NewerThan, Unique, LogEntries, LogsInOrder, FreshNumber;
    var d := s.disk;
    forall e
      ensures e in LogData(d) <==> e in s.mem + (if LoggedFlush(s) then {} else ImmData(s)) + Pending(s)
    {
      if e in s.mem + Pending(s) {
        assert e in LogEntries(d.logs[s.logfile]);
      }
      if e in ImmData(s) && !LoggedFlush(s) {
        assert e in LogEntries(d.logs[s.immLog]);
      }
    }
  }

  /** Recovery adds its tables to level 0 one by one, each newer than everything before it. */
  lemma {:induction false} RecoveredVersion(v: Version, fs: seq<File>, tables: set<nat>, next: nat)
    requires GoodVersion(v, next, tables) && ValidFiles(fs) && |v.files| > 0
    requires NewerThan(FilesData(fs), Data(v))
    requires forall i :: 0 <= i < |fs| ==> FreshNumber(v, fs[i].number) && fs[i].number < next
    requires forall i, j :: 0 <= i < j < |fs| ==> fs[i].number < fs[j].number && NewerThan(FilesData([fs[j]]), FilesData([fs[i]]))
    ensures GoodVersion(AddAll(v, fs), next, tables + Numbers(fs))
    ensures Data(AddAll(v, fs)) == Data(v) + FilesData(fs)
  {
    hide GoodVersion, Data, ValidFile, NewerThan, FreshNumber, FilesData, Entries, Numbers;
    if fs == [] {
      NoFilesData();
      assert Data(v) + {} == Data(v) && tables + {} == tables;
    } else {
      var k := |fs| - 1;
      var front, f := fs[..k], fs[k];
      assert fs == front + [f];
      FreshIsGood(v, next, f.number, tables);
      SplitRecovered(v, front, f);
      RecoveredVersion(v, front, tables, f.number);
      RecoveredStep(AddAll(v, front), f, tables + Numbers(front));
      assert Data(v) + FilesData(front) + Entries(f.entries) == Data(v) + FilesData(fs);
      assert tables + Numbers(front) + {f.number} == tables + Numbers(fs);
      GoodVersionGrows(AddAll(v, fs), f.number + 1, tables + Numbers(fs), next, tables + Numbers(fs));
    }
  }

  lemma SplitRecovered(v: Version, front: seq<File>, f: File)
    requires NewerThan(FilesData(front + [f]), Data(v))
    requires forall i :: 0 <= i < |front| ==> NewerThan(FilesData([f]), FilesData([front[i]]))
    ensures FilesData(front + [f]) == FilesData(front) + Entries(f.entries)
    ensures Numbers(front + [f]) == Numbers(front) + {f.number}
    ensures NewerThan(FilesData(front), Data(v))
    ensures NewerThan(Entries(f.entries), Data(v) + FilesData(front))
  {
    hide Data, Entries;
    FilesDataUnion(front + [f], front, [f]);
    OneFileData(f);
    LastIsNewest(front, f);
  }

  lemma NoFilesData()
    ensures FilesData([]) == {} && Numbers([]) == {}
  {
  }

  lemma FreshIsGood(v: Version, next: nat, number: nat, tables: set<nat>)
    requires GoodVersion(v, next, tables) && FreshNumber(v, number)
    ensures GoodVersion(v, number, tables)
  {
    hide WellFormed, Aged, UniqueNumbers, FreshNumber, Present;
  }

  lemma LastIsNewest(front: seq<File>, f: File)
    requires forall i :: 0 <= i < |front| ==> NewerThan(FilesData([f]), FilesData([front[i]]))
    ensures NewerThan(FilesData([f]), FilesData(front))
  {
    forall x, y | x in FilesData([f]) && y in FilesData(front) && x.key.user == y.key.user
      ensures x.key.sequence > y.key.sequence
    {
      var g :| g in front && y in g.entries;
      var i :| 0 <= i < |front| && front[i] == g;
      assert y in FilesData([front[i]]);
    }
  }

  lemma RecoveredStep(w: Version, f: File, tables: set<nat>)
    requires GoodVersion(w, f.number, tables) && ValidFile(f) && NewerThan(Entries(f.entries), Data(w)) && |w.files| > 0
    ensures GoodVersion(AddTo(w, 0, f), f.number + 1, tables + {f.number})
    ensures Data(AddTo(w, 0, f)) == Data(w) + Entries(f.entries)
  {
    hide WellFormed, Aged, UniqueNumbers, FreshNumber, Present, ValidFile, Data, NewerThan, AddTo;
    FlushKeepsOrder(w, 0, f);
    AddToNumbers(w, 0, f, f.number, tables);
    AddToData(w, 0, f);
  }

  lemma RecoveredGood(s: Db, s': Db, recovered: seq<File>, newLog: nat)
    requires Inv(s) && Sane(s) && Recovered(s, s', recovered, newLog)
    ensures GoodVersion(s'.version, s'.nextFile, s'.disk.tables)
    ensures Data(s'.version) == Durable(s.disk)
  {
    DiskHoldsEverything(s);
    hide WellFormed, Aged, UniqueNumbers, FreshNumber, Present, ValidFile, Data, NewerThan, Inv;
    var v := s.disk.manifest;
    assert |v.files| > 0 by { ManifestLevels(s); }
    var top := s.nextFile;
    if recovered != [] && top <= recovered[|recovered| - 1].number {
      top := recovered[|recovered| - 1].number + 1;
    }
    GoodVersionGrows(v, s.nextFile, s.disk.tables, top, s.disk.tables);
    RecoveredVersion(v, recovered, s.disk.tables, top);
    FreshIsGood(s'.version, top, s'.nextFile, s'.disk.tables);
    assert Data(v) + LogData(s.disk) == Durable(s.disk);
  }

  lemma ManifestLevels(s: Db)
    requires Inv(s)
    ensures |s.disk.manifest.files| > 0
  {
    DiskHoldsEverything(s);
    hide Inv, Aged, UniqueNumbers, FreshNumber, Present;
  }

  /** The recovered last sequence covers every entry ever written and stays in range. */
  lemma RecoveredLast(s: Db, s': Db, recovered: seq<File>, newLog: nat)
    requires Inv(s) && Sane(s) && Recovered(s, s', recovered, newLog)
    ensures AllAtMost(s.history + Pending(s), s'.last) && s'.last < MAX_SEQUENCE
  {
    LogsHold(s);
    BatchIsNewer(s);
    LogDataBelow(s.disk, s'.last);
    hide WellFormed, Aged, Data, GoodVersion, BatchEntries, NewerThan, LogData, Accounted, RecoveredTables, LogEntries;
    assert forall e :: e in s.mem + ImmData(s) ==> e in Total(s);
    if s'.last != s.disk.lastSequence {
      var k, b :| k in s.disk.logs && k >= s.disk.logNumber && b in s.disk.logs[k] && BatchEnd(b) == s'.last + 1;
      var i :| 0 <= i < |s.disk.logs[k]| && s.disk.logs[k][i] == b;
    }
  }

  lemma LogDataBelow(d: Disk, last: nat)
    requires forall k, b :: k in d.logs && k >= d.logNumber && b in d.logs[k] ==> BatchEnd(b) <= last + 1
    ensures AllAtMost(LogData(d), last)
  {
    forall e | e in LogData(d)
      ensures e.key.sequence <= last
    {
      var k :| k in d.logs && k >= d.logNumber && e in LogEntries(d.logs[k]);
      var b :| b in d.logs[k] && e in BatchEntries(b);
      assert e.key.sequence < BatchEnd(b);
    }
  }

  /** At the last sequence number of all, what is missing was still hidden or deleted. */
  lemma AccountedFromLast(before: set<Entry>, after: set<Entry>, snapshot: nat, last: nat)
    requires AllAtMost(before, last) && Accounted(before, after, snapshot)
    ensures Accounted(before, after, last)
  {
  }

  lemma DurableWithinHistory(s: Db)
    requires Inv(s)
    ensures Durable(s.disk) <= s.history + Pending(s)
  {
    DiskHoldsEverything(s);
    hide WellFormed, Aged, Data, GoodVersion, BatchEntries, NewerThan, LogData, Accounted, Durable, DiskInv;
  }

  /** A crash at any step and the recovery after it lose nothing that was written. */
  lemma CrashAndRecoverKeeps(s: Db, s': Db, recovered: seq<File>, newLog: nat)
    requires Inv(s) && Sane(s) && Next(s, s', CrashAndRecover(recovered, newLog))
    ensures Inv(s')
  {
    hide WellFormed, Aged, Data, GoodVersion, BatchEntries, Unique, LogData, Durable, RecoveredTables, Inv, Accounted;
    RecoveredGood(s, s', recovered, newLog);
    DiskHoldsEverything(s);
    RecoveredLast(s, s', recovered, newLog);
    BatchIsNewer(s);
    DurableWithinHistory(s);
    AccountedFromLast(s'.history, Durable(s.disk), Oldest(s), s'.last);
    FreshStart(s');
  }

  /** A state with nothing in memory and nothing in progress. */
  lemma FreshStart(s: Db)
    requires s.mem == {} && s.imm == None && s.pending == [] && s.snapshots == [] && s.background == Idle
    requires GoodVersion(s.version, s.nextFile, s.disk.tables)
    requires s.last < MAX_SEQUENCE && Unique(s.history) && AllAtMost(s.history, s.last)
    requires Data(s.version) <= s.history && Accounted(s.history, Data(s.version), s.last)
    requires s.disk.manifest == s.version && s.disk.logNumber == s.logfile && s.disk.lastSequence == s.last
    requires s.logfile < s.disk.nextFile && FreshNumber(s.version, s.disk.nextFile)
    requires s.logfile in s.disk.logs && s.disk.logs[s.logfile] == []
    requires forall k :: k in s.disk.logs ==> k <= s.logfile < s.nextFile
    ensures Inv(s)
  {
    hide WellFormed, Aged, Data, GoodVersion, BatchEntries, Unique, Accounted;
    NoPending(s);
    assert Total(s) == Data(s.version);
  }

  lemma InitKeeps(s: Db)
    requires Init(s)
    ensures Inv(s)
  {
    hide Data, Accounted, GoodVersion;
    EmptyVersionIsGood(s.nextFile, {});
    AccountedSame({}, s.last);
    FreshStart(s);
  }

  lemma EmptyVersionIsGood(nextFile: nat, tables: set<nat>)
    ensures GoodVersion(EMPTY_VERSION, nextFile, tables) && Data(EMPTY_VERSION) == {}
  {
    hide WellFormed, Aged;
    EmptyLevels();
    NoDataIsOrdered(EMPTY_VERSION);
  }

  lemma EmptyLevels()
    ensures |EMPTY_VERSION.files| == NUM_LEVELS && forall l :: 0 <= l < NUM_LEVELS ==> EMPTY_VERSION.files[l] == []
  {
  }

  lemma NoDataIsOrdered(v: Version)
    requires |v.files| == NUM_LEVELS && forall l :: 0 <= l < NUM_LEVELS ==> v.files[l] == []
    ensures WellFormed(v) && Aged(v) && Data(v) == {}
  {
    assert forall l :: 0 <= l < NUM_LEVELS ==> FilesData(v.files[l]) == {};
  }

  lemma AccountedSame(es: set<Entry>, snapshot: nat)
    ensures Accounted(es, es, snapshot)
  {
  }

  // ----- Runs -----

  /** Every step keeps the invariant and never forgets a write. */
  lemma NextKeepsInv(s: Db, s': Db, step: Step)
    requires Inv(s) && Sane(s) && Next(s, s', step)
    ensures Inv(s') && s.history <= s'.history
  {
    match step
    case AppendLog(ops) => AppendLogKeeps(s, s', ops);
    case InsertBatch => InsertBatchKeeps(s, s');
    case SwitchMemtable => SwitchMemtableKeeps(s, s');
    case BeginFlush(table, level) => BeginFlushKeeps(s, s', table, level);
    case BeginMove(level, f) => BeginMoveKeeps(s, s', level, f);
    case BeginCompaction(level, inputs0, inputs1, input, outs) => BeginCompactionKeeps(s, s', level, inputs0, inputs1, input, outs);
    case LogManifest => LogManifestKeeps(s, s');
    case Commit => CommitKeeps(s, s');
    case DeleteObsolete(keepTables, keepLogs) => DeleteObsoleteKeeps(s, s', keepTables, keepLogs);
    case TakeSnapshot => TakeSnapshotKeeps(s, s');
    case ReleaseSnapshot(i) => ReleaseSnapshotKeeps(s, s', i);
    case CrashAndRecover(recovered, newLog) => CrashAndRecoverKeeps(s, s', recovered, newLog);
  }

  /** A run: states linked by steps, from an empty database. */
  ghost predicate Execution(states: seq<Db>, steps: seq<Step>) {
    && |states| == |steps| + 1 && Init(states[0])
    && forall i :: 0 <= i < |steps| ==> Sane(states[i]) && Next(states[i], states[i + 1], steps[i])
  }

  /** Whatever compactions do, in every reachable state the levels are in order, the disk alone has the files it
      names and holds the history up to entries that were hidden or deleted, and nothing is forgotten. */
  lemma {:induction false} EveryRunKeepsInv(states: seq<Db>, steps: seq<Step>, n: nat)
    requires Execution(states, steps) && n < |states|
    ensures Inv(states[n])
    ensures Accounted(states[n].history + Pending(states[n]), Durable(states[n].disk), Oldest(states[n]))
    ensures Present(states[n].disk.manifest, states[n].disk.tables)
    ensures forall i :: 0 <= i <= n ==> states[i].history <= states[n].history
  {
    hide Init, Next, Accounted, Total, Durable, SequencesInv, OrderInv, BackgroundInv, DiskInv, BatchEntries, WellFormed;
    if n == 0 {
      InitKeeps(states[0]);
    } else {
      EveryRunKeepsInv(states, steps, n - 1);
      NextKeepsInv(states[n - 1], states[n], steps[n - 1]);
    }
    DiskHoldsEverything(states[n]);
    InvIsSane(states[n]);
    FreshOf(states[n].disk.manifest, states[n].nextFile, states[n].disk.tables);
  }
}
