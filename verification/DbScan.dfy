/** DBImpl::NewIterator: one iterator over the memtables, the level-0 tables and the concatenated levels, and the
    user's iterator on top of it, which shows what the history of writes says. */
module DbScan {
  import opened InternalKeys
  import opened Versions
  import opened VersionGet
  import opened CompactionWork
  import opened LevelEdits
  import opened LevelOrder
  import opened SortedRuns
  import opened IteratorStack
  import opened DbIterator
  import opened Engine
  import opened EngineSteps
  import opened EngineReads

  /** The concatenated levels from l down. */
  function DeepRuns(v: Version, l: nat): seq<seq<Entry>>
    decreases |v.files| - l
  {
    if l >= |v.files| then [] else (if v.files[l] == [] then [] else [Joined(v.files[l])]) + DeepRuns(v, l + 1)
  }

  /** NewInternalIterator's children. */
  function StoreRuns(mem: seq<Entry>, imm: Option<seq<Entry>>, v: Version): seq<seq<Entry>> {
    [mem] + (if imm.Some? then [imm.value] else [])
    + ((if v.files == [] then [] else LevelOrder.Tables(v.files[0])) + DeepRuns(v, 1))
  }

  ghost function All(runs: seq<seq<Entry>>): set<Entry> {
    set r, e | r in runs && e in r :: e
  }

  ghost predicate GoodRuns(runs: seq<seq<Entry>>) {
    SortedEach(runs) && DistinctRuns(runs)
  }

  /** Runs that are newer than others may stand before them. */
  lemma AppendRuns(a: seq<seq<Entry>>, b: seq<seq<Entry>>)
    requires GoodRuns(a) && GoodRuns(b) && NewerThan(All(a), All(b))
    ensures GoodRuns(a + b) && All(a + b) == All(a) + All(b)
  {
    hide Sorted;
    forall i, j, x: Entry, y: Entry | 0 <= i < j < |a + b| && x in (a + b)[i] && y in (a + b)[j]
      ensures x.key != y.key
    {
      if i < |a| <= j {
        assert a[i] in a && b[j - |a|] in b && x in All(a) && y in All(b);
      }
    }
  }

  lemma OneRun(es: seq<Entry>)
    requires Sorted(es)
    ensures GoodRuns([es]) && All([es]) == Entries(es)
  {
    assert [es][0] == es;
  }

  /** The entries of the levels from l down. */
  ghost function DeepData(v: Version, l: nat): set<Entry> {
    set m, e | l <= m < |v.files| && e in FilesData(v.files[m]) :: e
  }

  lemma {:induction false} DeepRunsGood(v: Version, l: nat)
    requires WellFormed(v) && Aged(v) && 0 < l <= NUM_LEVELS
    ensures GoodRuns(DeepRuns(v, l)) && All(DeepRuns(v, l)) == DeepData(v, l)
    decreases NUM_LEVELS - l
  {
    hide WellFormed, Joined, FilesData, Sorted, AgedLevel0, GoodRuns, All;
    LevelCount(v);
    if l == NUM_LEVELS {
      NoRuns();
      assert DeepData(v, l) == {};
    } else {
      DeepRunsGood(v, l + 1);
      DeepSplit(v, l);
      LevelsValid(v, l);
      if v.files[l] == [] {
        NoFiles();
        assert [] + DeepRuns(v, l + 1) == DeepRuns(v, l + 1) && {} + DeepData(v, l + 1) == DeepData(v, l + 1);
      } else {
        JoinedKeeps(v.files[l]);
        OneRun(Joined(v.files[l]));
        NewerThanDeeper(v, l);
        AppendRuns([Joined(v.files[l])], DeepRuns(v, l + 1));
      }
    }
  }

  lemma NoRuns()
    ensures GoodRuns([]) && All([]) == {}
  {
  }

  lemma DeepSplit(v: Version, l: nat)
    requires l < |v.files|
    ensures DeepData(v, l) == FilesData(v.files[l]) + DeepData(v, l + 1)
    ensures DeepData(v, 0) == Data(v)
  {
    hide FilesData;
  }

  lemma NewerThanDeeper(v: Version, l: nat)
    requires Aged(v) && l < |v.files|
    ensures NewerThan(FilesData(v.files[l]), DeepData(v, l + 1))
  {
    hide FilesData, AgedLevel0;
    forall x, y | x in FilesData(v.files[l]) && y in DeepData(v, l + 1) && x.key.user == y.key.user
      ensures x.key.sequence > y.key.sequence
    {
      var m :| l + 1 <= m < |v.files| && y in FilesData(v.files[m]);
      assert NewerThan(FilesData(v.files[l]), FilesData(v.files[m]));
    }
  }

  lemma Level0RunsGood(v: Version)
    requires WellFormed(v) && Aged(v)
    ensures |v.files| > 0 && GoodRuns(LevelOrder.Tables(v.files[0])) && All(LevelOrder.Tables(v.files[0])) == FilesData(v.files[0])
  {
    hide WellFormed, Sorted, FilesData, Aged;
    LevelCount(v);
    LevelsValid(v, 0);
    var fs, runs := v.files[0], LevelOrder.Tables(v.files[0]);
    TablesData(fs);
    DistinctAt(v, 0);
    forall i | 0 <= i < |runs|
      ensures Sorted(runs[i])
    {
      assert ValidFile(fs[i]);
    }
    forall i, j, x: Entry, y: Entry | 0 <= i < j < |runs| && x in runs[i] && y in runs[j]
      ensures x.key != y.key
    {
      Level0Distinct(v, fs, i, j, x, y);
    }
    forall e
      ensures e in All(runs) <==> exists i :: 0 <= i < |fs| && e in runs[i]
    {
      if i :| 0 <= i < |fs| && e in runs[i] {
        assert runs[i] in runs;
      }
    }
  }

  lemma DistinctAt(v: Version, l: nat)
    requires WellFormed(v) && l < NUM_LEVELS
    ensures DistinctNumbers(v.files[l])
  {
    hide ValidFiles, Disjoint;
  }

  /** The children are sorted, no key occurs in two of them, and together they hold all the data. */
  lemma StoreRunsGood(mem: seq<Entry>, imm: Option<seq<Entry>>, v: Version)
    requires Sorted(mem) && (imm.Some? ==> Sorted(imm.value)) && WellFormed(v) && Aged(v)
    requires NewerThan(Entries(mem), ImmSet(imm)) && NewerThan(Entries(mem) + ImmSet(imm), Data(v))
    ensures GoodRuns(StoreRuns(mem, imm, v)) && All(StoreRuns(mem, imm, v)) == Entries(mem) + ImmSet(imm) + Data(v)
  {
    hide WellFormed, Aged, Sorted, GoodRuns, All, FilesData, Data, DeepData, Entries, DeepRuns;
    LevelCount(v);
    Level0RunsGood(v);
    DeepRunsGood(v, 1);
    DeepSplit(v, 0);
    NewerThanDeeper(v, 0);
    AppendRuns(LevelOrder.Tables(v.files[0]), DeepRuns(v, 1));
    OneRun(mem);
    var upper := [mem] + if imm.Some? then [imm.value] else [];
    if imm.Some? {
      OneRun(imm.value);
      AppendRuns([mem], [imm.value]);
    } else {
      assert upper == [mem] && ImmSet(imm) == {};
    }
    AppendRuns(upper, LevelOrder.Tables(v.files[0]) + DeepRuns(v, 1));
  }

  ghost function ImmSet(imm: Option<seq<Entry>>): set<Entry> {
    if imm.Some? then Entries(imm.value) else {}
  }

  /** The memtables of a state, as their iterators list them. */
  ghost predicate Lists(s: Db, mem: seq<Entry>, imm: Option<seq<Entry>>) {
    && Sorted(mem) && Entries(mem) == s.mem
    && (imm.Some? <==> s.imm.Some?) && (imm.Some? ==> Sorted(imm.value) && Entries(imm.value) == s.imm.value)
  }

  lemma StateRunsGood(s: Db, mem: seq<Entry>, imm: Option<seq<Entry>>)
    requires Inv(s) && Lists(s, mem, imm)
    ensures var runs := StoreRuns(mem, imm, s.version);
      && SortedEach(runs) && DistinctRuns(runs)
      && Sorted(Union(runs)) && Entries(Union(runs)) == Total(s) && Unique(Total(s))
  {
    hide Union, SortedEach, DistinctRuns, Sorted, Data, Accounted, DiskInv, BackgroundInv, WellFormed, Aged, StoreRuns, Unique;
    WellFormedOf(s);
    AgedOf(s);
    UniqueSubset(s);
    assert ImmSet(imm) == ImmData(s);
    StoreRunsGood(mem, imm, s.version);
    var runs := StoreRuns(mem, imm, s.version);
    UnionKeeps(runs);
    forall e
      ensures e in Entries(Union(runs)) <==> e in All(runs)
    {
      if i :| 0 <= i < |runs| && e in runs[i] {
        assert runs[i] in runs;
      }
      if r :| r in runs && e in r {
        var i :| 0 <= i < |runs| && runs[i] == r;
      }
    }
  }

  lemma AgedOf(s: Db)
    requires OrderInv(s)
    ensures Aged(s.version)
  {
    hide WellFormed, Aged, UniqueNumbers, FreshNumber, Present, Data;
  }

  /** Entry e of the run is shown to the user at snapshot s as the value of u. */
  ghost predicate ShownAt(run: seq<Entry>, s: nat, i: int, u: UserKey, value: string) {
    IsVisible(run, s, i) && run[i].key.user == u && run[i].value == value
  }

  lemma ShownIsRead(run: seq<Entry>, s: nat, u: UserKey, value: string)
    requires Sorted(run) && Unique(Entries(run))
    ensures (exists i :: ShownAt(run, s, i, u, value)) <==> Read(Entries(run), u, s) == Some(value)
  {
    hide Sorted, Unique, Entries, Read;
    VisibleIsRead(run, s, u, value);
    if Read(Entries(run), u, s) == Some(value) {
      var i :| IsVisible(run, s, i) && run[i].key.user == u && run[i].value == value;
      assert ShownAt(run, s, i, u, value);
    }
  }

  /** In every reachable state the user's iterator at a live snapshot shows every value that the history says is
      present, and for keys no compaction of the run has split nothing else. */
  lemma ScanShowsHistory(states: seq<Db>, steps: seq<Step>, n: nat, mem: seq<Entry>, imm: Option<seq<Entry>>, u: UserKey, s: nat, value: string)
    requires Execution(states, steps) && n < |states| && Lists(states[n], mem, imm) && s >= Oldest(states[n])
    ensures var run := Union(StoreRuns(mem, imm, states[n].version));
      && (Read(states[n].history, u, s) == Some(value) ==> exists i :: ShownAt(run, s, i, u, value))
      && ((forall i :: 0 <= i < n ==> !Splits(states[i], steps[i], u)) ==>
            (Read(states[n].history, u, s) == Some(value) <==> exists i :: ShownAt(run, s, i, u, value)))
  {
    hide Init, Next, Sane, Inv, Union, StoreRuns, Sorted, Read, Splits, IsVisible, Lists, Total, Entries, Unique;
    EveryRunKeepsPresentValues(states, steps, n, u, s);
    StateRunsGood(states[n], mem, imm);
    var run := Union(StoreRuns(mem, imm, states[n].version));
    ShownIsRead(run, s, u, value);
    if forall i :: 0 <= i < n ==> !Splits(states[i], steps[i], u) {
      UnsplitKeysReadTheirHistory(states, steps, n, u);
    }
  }

  /** The user's iterator over the store, driven by any list of calls. */
  method Scan(ghost s: Db, mem: seq<Entry>, imm: Option<seq<Entry>>, v: Version, sequence: SequenceNumber, ops: seq<CursorOp>)
    returns (it: DbIter)
    requires Inv(s) && Lists(s, mem, imm) && v == s.version
    ensures fresh(it) && it.Valid() && it.iter.entries == Union(StoreRuns(mem, imm, v)) && Entries(it.iter.entries) == Total(s)
    ensures Position(it) == MovedAll(it.iter.entries, sequence, ops)
    ensures it.valid ==> ShownAt(it.iter.entries, sequence, it.at, it.Key(), it.Value())
  {
    hide Union, StoreRuns, Inv, SortedEach, DistinctRuns, Sorted, Entries, MovedAll, Unique, Lists;
    StateRunsGood(s, mem, imm);
    var run := ReadRuns(StoreRuns(mem, imm, v));
    it := Drive(run, sequence, ops);
  }
}
