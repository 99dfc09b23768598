/** DBImpl::Recover: replay the logs the manifest does not cover into level-0 tables.  The tables it builds, wherever
    the memtable happens to fill up, are what the engine's recovery step asks for. */
module Recovery {
  import opened InternalKeys
  import opened Versions
  import opened CompactionWork
  import opened SortedRuns
  import opened LevelEdits
  import opened LevelOrder
  import opened Engine
  import opened EngineSteps

  // ----- The memtable that collects a log -----

  /** Every sequence number of the entries lies in [low, high). */
  ghost predicate Between(es: set<Entry>, low: nat, high: nat) {
    forall e :: e in es ==> low <= e.key.sequence < high
  }

  /** WriteBatchInternal::InsertInto: consecutive sequence numbers from the batch's own. */
  method InsertInto(b: Batch, mem: seq<Entry>) returns (r: seq<Entry>)
    requires Sorted(mem) && Between(Entries(mem), 0, b.start)
    ensures Sorted(r) && Entries(r) == Entries(mem) + BatchEntries(b)
  {
    hide Sorted;
    r := mem;
    for i := 0 to |b.ops|
      invariant Sorted(r) && Between(Entries(r), 0, b.start + i)
      invariant Entries(r) == Entries(mem) + set k | 0 <= k < i :: OpEntry(b, k)
    {
      var e := OpEntry(b, i);
      assert forall x :: x in r ==> x in Entries(r);
      InsertSortedKeeps(r, e);
      r := InsertSorted(r, e);
    }
  }

  // ----- Replaying a log -----

  /** How many of the first n batches fill the memtable. */
  function Filled(full: nat -> bool, n: nat): nat {
    |set i: nat | i < n && full(i)|
  }

  /** How many memtables the replay of n batches writes out: one after each batch that fills it, and what is left. */
  function MemTables(full: nat -> bool, n: nat): nat {
    Filled(full, n) + if n > 0 && !full(n - 1) then 1 else 0
  }

  lemma OneMoreBatch(full: nat -> bool, n: nat)
    ensures Filled(full, n + 1) == Filled(full, n) + if full(n) then 1 else 0
    ensures Filled(full, 0) == 0
  {
    var before := set i: nat | i < n && full(i);
    assert (set i: nat | i < n + 1 && full(i)) == before + if full(n) then {n} else {};
  }

  class Replay {
    var nextFile: nat       // the file number counter
    var added: seq<File>    // the edit's new level-0 files
    var maxSequence: nat
    ghost var done: seq<Batch>  // every batch replayed so far
    ghost const first: nat

    constructor (nextFile: nat)
      ensures Valid() && done == [] && first == nextFile == this.nextFile && fresh(this)
    {
      this.nextFile, added, maxSequence, done, first := nextFile, [], 0, [], nextFile;
    }

    ghost predicate Valid()
      reads this
    {
      TablesInOrder(added, first, nextFile) && FilesData(added) == LogEntries(done) && IsMax(done, maxSequence)
    }

    /** WriteLevel0Table without a base version: an empty memtable makes no table, but uses up a number. */
    method WriteLevel0Table(mem: seq<Entry>, size: seq<Entry> -> nat, ghost low: nat, ghost high: nat)
      requires TablesInOrder(added, first, nextFile) && Sorted(mem) && Between(FilesData(added), 0, low) && Between(Entries(mem), low, high) && low <= high
      modifies `nextFile, `added
      ensures TablesInOrder(added, first, nextFile) && nextFile == old(nextFile) + 1 && Between(FilesData(added), 0, high)
      ensures added == if mem == [] then old(added)
                       else old(added) + [File(old(nextFile), size(mem), mem[0].key, mem[|mem| - 1].key, mem)]
      ensures FilesData(added) == old(FilesData(added)) + Entries(mem)
    {
      hide TablesInOrder, Sorted, Between, FilesData, Entries;
      NumberUsed(added, first, nextFile);
      BetweenWider(FilesData(added), 0, low, 0, high);
      EmptyMem();
      if mem != [] {
        var f := File(nextFile, size(mem), mem[0].key, mem[|mem| - 1].key, mem);
        TableAdded(added, first, nextFile, f, low, high);
        added := added + [f];
      }
      nextFile := nextFile + 1;
    }

    method MarkFileNumberUsed(number: nat)
      requires Valid()
      modifies `nextFile
      ensures Valid() && nextFile == if old(nextFile) <= number then number + 1 else old(nextFile)
    {
      if nextFile <= number {
        nextFile := number + 1;
      }
    }

    /** Amid a log: the tables end before low, and the memtable holds what is replayed from there up to high. */
    ghost predicate Amid(mem: seq<Entry>, low: nat, high: nat)
      reads this
    {
      && TablesInOrder(added, first, nextFile) && IsMax(done, maxSequence) && Sorted(mem) && FilesData(added) + Entries(mem) == LogEntries(done)
      && low <= high && Between(FilesData(added), 0, low) && Between(Entries(mem), low, high)
    }

    /** One record: insert it, and write the memtable out if that fills it. */
    method ReplayBatch(mem: Option<seq<Entry>>, b: Batch, full: bool, size: seq<Entry> -> nat, ghost low: nat, ghost high: nat)
      returns (r: Option<seq<Entry>>, ghost low': nat)
      requires Amid(Buffered(mem), low, high) && high <= b.start && b.start >= 1
      modifies this
      ensures Amid(Buffered(r), low', BatchEnd(b)) && done == old(done) + [b]
      ensures (r.Some? <==> !full) && nextFile == old(nextFile) + if full then 1 else 0
    {
      hide Sorted, LogEntries, BatchEntries, IsMax, ValidFiles, FilesData, Entries, TablesInOrder;
      BetweenWider(Entries(Buffered(mem)), low, high, 0, b.start);
      var grown := InsertInto(b, Buffered(mem));
      BatchBetween(b);
      BetweenBoth(Entries(Buffered(mem)), BatchEntries(b), low, high, b.start, BatchEnd(b));
      LogEntriesPush(done, b);
      MaxPush(done, maxSequence, b);
      var lastSeq := BatchEnd(b) - 1;
      if lastSeq > maxSequence {
        maxSequence := lastSeq;
      }
      done := done + [b];
      r, low' := Some(grown), low;
      if full {
        WriteLevel0Table(grown, size, low, BatchEnd(b));
        r, low' := None, BatchEnd(b);
        EmptyMem();
      }
    }

    /** RecoverLogFile: full says after which records the memtable has outgrown its buffer. */
    method RecoverLogFile(log: seq<Batch>, full: nat -> bool, size: seq<Entry> -> nat, ghost bound: nat)
      requires Valid() && LogInOrder(log, bound) && LogPrecedes(done, log)
      modifies this
      ensures Valid() && done == old(done) + log && nextFile == old(nextFile) + MemTables(full, |log|)
    {
      hide Filled, Sorted, LogEntries, BatchEntries, IsMax, ValidFiles, FilesData, Entries, TablesInOrder;
      var mem: Option<seq<Entry>> := None;
      ghost var low: nat := if log == [] then maxSequence + 1 else log[0].start;
      ghost var high: nat := low;
      DoneBefore(done, maxSequence, log);
      EmptyMem();
      OneMoreBatch(full, 0);
      for i := 0 to |log|
        invariant Amid(Buffered(mem), low, high) && (mem.Some? <==> i > 0 && !full(i - 1))
        invariant nextFile == old(nextFile) + Filled(full, i)
        invariant done == old(done) + log[..i] && (i < |log| ==> high <= log[i].start)
      {
        mem, low := ReplayBatch(mem, log[i], full(i), size, low, high);
        high := BatchEnd(log[i]);
        OneMoreBatch(full, i);
        assert log[..i + 1] == log[..i] + [log[i]];
      }
      assert log[..|log|] == log;
      if mem.Some? {
        WriteLevel0Table(mem.value, size, low, high);
      }
      EmptyMem();
    }
  }

  /** Files under ascending new numbers, each wholly later than the ones before it. */
  ghost predicate TablesInOrder(added: seq<File>, first: nat, nextFile: nat) {
    && ValidFiles(added) && first <= nextFile
    && (forall i :: 0 <= i < |added| ==> first <= added[i].number < nextFile)
    && (forall i, j :: 0 <= i < j < |added| ==> added[i].number < added[j].number && Later(added[j].entries, added[i].entries))
  }

  ghost predicate Later(xs: seq<Entry>, ys: seq<Entry>) {
    forall x, y :: x in xs && y in ys ==> x.key.sequence > y.key.sequence
  }

  /** The last sequence number of any of the batches, 0 when there are none. */
  ghost predicate IsMax(done: seq<Batch>, max: nat) {
    && (forall b :: b in done ==> BatchEnd(b) <= max + 1)
    && (max == 0 || exists b :: b in done && BatchEnd(b) == max + 1)
  }

  lemma MaxPush(done: seq<Batch>, max: nat, b: Batch)
    requires IsMax(done, max) && b.start >= 1
    ensures IsMax(done + [b], if BatchEnd(b) - 1 > max then BatchEnd(b) - 1 else max)
  {
    assert (done + [b])[|done|] == b;
  }

  lemma LaterThanAll(fs: seq<File>, mem: seq<Entry>, low: nat, high: nat)
    requires Between(FilesData(fs), 0, low) && Between(Entries(mem), low, high)
    ensures forall i :: 0 <= i < |fs| ==> Later(mem, fs[i].entries)
  {
    forall i, x, y | 0 <= i < |fs| && x in mem && y in fs[i].entries
      ensures x.key.sequence > y.key.sequence
    {
      assert fs[i] in fs && y in FilesData(fs) && x in Entries(mem);
    }
  }

  lemma NumberUsed(fs: seq<File>, first: nat, next: nat)
    requires TablesInOrder(fs, first, next)
    ensures TablesInOrder(fs, first, next + 1)
  {
    hide ValidFiles, Later;
  }

  /** A memtable of later entries under the next number extends the tables. */
  lemma TableAdded(fs: seq<File>, first: nat, next: nat, f: File, low: nat, high: nat)
    requires TablesInOrder(fs, first, next) && f.number == next && f.entries != [] && Sorted(f.entries)
    requires f.smallest == f.entries[0].key && f.largest == f.entries[|f.entries| - 1].key
    requires Between(FilesData(fs), 0, low) && Between(Entries(f.entries), low, high) && low <= high
    ensures TablesInOrder(fs + [f], first, next + 1) && FilesData(fs + [f]) == FilesData(fs) + Entries(f.entries)
    ensures Between(FilesData(fs + [f]), 0, high)
  {
    hide Later, Sorted, FilesData, Entries;
    LaterThanAll(fs, f.entries, low, high);
    FilesDataUnion(fs + [f], fs, [f]);
    OneFileData(f);
  }

  lemma EmptyMem()
    ensures Entries([]) == {} && Sorted([])
  {
  }

  lemma BetweenWider(es: set<Entry>, low: nat, high: nat, low2: nat, high2: nat)
    requires Between(es, low, high) && low2 <= low && high <= high2
    ensures Between(es, low2, high2)
  {
  }

  lemma BetweenBoth(es: set<Entry>, more: set<Entry>, low: nat, mid: nat, mid2: nat, high: nat)
    requires Between(es, low, mid) && Between(more, mid2, high) && low <= mid2 && mid <= high
    ensures Between(es + more, low, high)
  {
  }

  lemma BatchBetween(b: Batch)
    ensures Between(BatchEntries(b), b.start, BatchEnd(b))
  {
  }

  lemma DoneBefore(done: seq<Batch>, max: nat, log: seq<Batch>)
    requires LogPrecedes(done, log) && IsMax(done, max)
    ensures Between(LogEntries(done), 0, if log == [] then max + 1 else log[0].start)
  {
    forall e | e in LogEntries(done)
      ensures e.key.sequence < if log == [] then max + 1 else log[0].start
    {
      var b :| b in done && e in BatchEntries(b);
      BatchBetween(b);
    }
  }

  // ----- Recovering the whole store -----

  function InsertNumber(ns: seq<nat>, n: nat): seq<nat> {
    if ns == [] || n < ns[0] then [n] + ns else [ns[0]] + InsertNumber(ns[1..], n)
  }

  ghost predicate Ascend(ns: seq<nat>) {
    forall i, j :: 0 <= i < j < |ns| ==> ns[i] < ns[j]
  }

  lemma {:induction false} InsertNumberKeeps(ns: seq<nat>, n: nat)
    requires Ascend(ns) && n !in ns
    ensures Ascend(InsertNumber(ns, n)) && forall k :: k in InsertNumber(ns, n) <==> k == n || k in ns
  {
    if ns != [] && ns[0] < n {
      var rest := InsertNumber(ns[1..], n);
      InsertNumberKeeps(ns[1..], n);
      forall i | 0 <= i < |rest|
        ensures ns[0] < rest[i]
      {
        assert rest[i] in rest;
      }
    }
  }

  /** The logs to recover, in the order in which they were generated. */
  method LogsToRecover(logs: map<nat, seq<Batch>>, minLog: nat) returns (numbers: seq<nat>)
    ensures Ascend(numbers) && forall k :: k in numbers <==> k in logs && k >= minLog
  {
    numbers := [];
    var left := logs.Keys;
    while left != {}
      invariant left <= logs.Keys && Ascend(numbers)
      invariant forall k :: k in numbers <==> k in logs && k !in left && k >= minLog
      decreases left
    {
      var k :| k in left;
      if k >= minLog {
        InsertNumberKeeps(numbers, k);
        numbers := InsertNumber(numbers, k);
      }
      left := left - {k};
    }
  }

  /** Every live table has a file; as in the source, any file with its number passes. */
  predicate NothingMissing(d: Disk) {
    forall l, i :: 0 <= l < |d.manifest.files| && 0 <= i < |d.manifest.files[l]| ==>
      d.manifest.files[l][i].number in d.tables || d.manifest.files[l][i].number in d.logs
  }

  /** The batches of some logs, one log after the other. */
  ghost function Batches(d: Disk, numbers: seq<nat>): seq<Batch>
    requires forall k :: k in numbers ==> k in d.logs
  {
    if numbers == [] then [] else Batches(d, numbers[..|numbers| - 1]) + d.logs[numbers[|numbers| - 1]]
  }

  lemma {:induction false} BatchesMembers(d: Disk, numbers: seq<nat>)
    requires forall k :: k in numbers ==> k in d.logs
    ensures forall b :: b in Batches(d, numbers) <==> exists k :: k in numbers && b in d.logs[k]
  {
    if numbers != [] {
      var front, last := numbers[..|numbers| - 1], numbers[|numbers| - 1];
      BatchesMembers(d, front);
      assert numbers == front + [last];
    }
  }

  lemma BatchesData(d: Disk, numbers: seq<nat>)
    requires forall k :: k in numbers <==> k in d.logs && k >= d.logNumber
    ensures LogEntries(Batches(d, numbers)) == LogData(d)
  {
    hide BatchEntries;
    BatchesMembers(d, numbers);
    forall e | e in LogData(d)
      ensures e in LogEntries(Batches(d, numbers))
    {
      var k :| k in d.logs && k >= d.logNumber && e in LogEntries(d.logs[k]);
      var b :| b in d.logs[k] && e in BatchEntries(b);
      assert k in numbers && b in Batches(d, numbers);
    }
    forall e | e in LogEntries(Batches(d, numbers))
      ensures e in LogData(d)
    {
      var b :| b in Batches(d, numbers) && e in BatchEntries(b);
      var k :| k in numbers && b in d.logs[k];
      assert e in LogEntries(d.logs[k]);
    }
  }

  lemma BatchesPrecede(d: Disk, numbers: seq<nat>, i: nat, bound: nat)
    requires LogsInOrder(d, bound) && Ascend(numbers) && i < |numbers|
    requires forall k :: k in numbers ==> k in d.logs && k >= d.logNumber
    ensures LogPrecedes(Batches(d, numbers[..i]), d.logs[numbers[i]])
  {
    BatchesMembers(d, numbers[..i]);
    forall a, b | a in Batches(d, numbers[..i]) && b in d.logs[numbers[i]]
      ensures BatchEnd(a) <= b.start
    {
      var k :| k in numbers[..i] && a in d.logs[k];
      assert LogPrecedes(d.logs[k], d.logs[numbers[i]]);
    }
  }

  /** The answers of the memtable's size while log k is replayed. */
  function FullIn(full: (nat, nat) -> bool, k: nat): nat -> bool {
    (j: nat) => full(k, j)
  }

  /** The next file number behind the replay of these logs: one for the manifest, one for each memtable written out, and
      past each log's own number. */
  ghost function NumberAfter(d: Disk, full: (nat, nat) -> bool, numbers: seq<nat>): nat
    requires forall k :: k in numbers ==> k in d.logs
  {
    if numbers == [] then d.nextFile + 1 else
      var k := numbers[|numbers| - 1];
      var next := NumberAfter(d, full, numbers[..|numbers| - 1]) + MemTables(FullIn(full, k), |d.logs[k]|);
      if next <= k then k + 1 else next
  }

  ghost predicate IsRecoveredNext(d: Disk, full: (nat, nat) -> bool, next: nat) {
    exists numbers :: Ascend(numbers) && (forall k :: k in numbers <==> k in d.logs && k >= d.logNumber) && next == NumberAfter(d, full, numbers)
  }

  /** Recover, from the disk alone.  full and size are the answers of the memtable's and the table's size. */
  method Recover(d: Disk, full: (nat, nat) -> bool, size: seq<Entry> -> nat, ghost bound: nat)
    returns (ok: bool, recovered: seq<File>, last: nat, newLog: nat, nextFile: nat)
    requires LogsInOrder(d, bound) && d.logNumber < d.nextFile && FreshNumber(d.manifest, d.nextFile)
    ensures ok <==> NothingMissing(d)
    ensures NothingMissing(d) <==> forall l, i :: 0 <= l < |d.manifest.files| && 0 <= i < |d.manifest.files[l]| ==>
        d.manifest.files[l][i].number in d.tables || d.manifest.files[l][i].number in d.logs
    ensures ok ==> RecoveredTables(d, recovered) && IsRecoveredLast(d, last)
    ensures ok ==> (forall k :: k in d.logs ==> k < newLog) && IsRecoveredNext(d, full, newLog) && nextFile == newLog + 1
    ensures ok ==> d.nextFile < nextFile && forall f :: f in recovered ==> d.nextFile < f.number < nextFile
  {
    hide LogsInOrder, LogPrecedes, FreshNumber, TablesInOrder, LogEntries, FilesData, IsMax, MemTables;
    ok, recovered, last, newLog, nextFile := NothingMissing(d), [], 0, 0, 0;
    if !ok {
      return;
    }
    var numbers: seq<nat> := LogsToRecover(d.logs, d.logNumber);
    var r := new Replay(d.nextFile + 1);
    for i := 0 to |numbers|
      invariant r.Valid() && r.done == Batches(d, numbers[..i]) && r.first == d.nextFile + 1 && fresh(r)
      invariant r.nextFile == NumberAfter(d, full, numbers[..i])
      invariant forall j :: 0 <= j < i ==> numbers[j] < r.nextFile
    {
      BatchesPrecede(d, numbers, i, bound);
      LogOf(d, numbers[i], bound);
      assert numbers[..i + 1][..i] == numbers[..i];
      r.RecoverLogFile(d.logs[numbers[i]], FullIn(full, numbers[i]), size, bound);
      r.MarkFileNumberUsed(numbers[i]);
    }
    assert numbers[..|numbers|] == numbers;
    last := if d.lastSequence < r.maxSequence then r.maxSequence else d.lastSequence;
    recovered, newLog, nextFile := r.added, r.nextFile, r.nextFile + 1;
    BatchesData(d, numbers);
    BatchesMembers(d, numbers);
    ReplayedTables(d, recovered, d.nextFile + 1, r.nextFile);
    ReplayedLast(d, numbers, r.maxSequence, last);
  }

  lemma LogOf(d: Disk, k: nat, bound: nat)
    requires LogsInOrder(d, bound) && k in d.logs && k >= d.logNumber
    ensures LogInOrder(d.logs[k], bound)
  {
  }

  lemma ReplayedTables(d: Disk, added: seq<File>, first: nat, nextFile: nat)
    requires TablesInOrder(added, first, nextFile) && FilesData(added) == LogData(d)
    requires FreshNumber(d.manifest, d.nextFile) && d.nextFile < first
    ensures RecoveredTables(d, added) && d.nextFile < nextFile
    ensures forall f :: f in added ==> d.nextFile < f.number < nextFile
  {
    hide LogData;
    forall i, j | 0 <= i < j < |added|
      ensures NewerThan(FilesData([added[j]]), FilesData([added[i]]))
    {
      OneFileData(added[i]);
      OneFileData(added[j]);
      assert Later(added[j].entries, added[i].entries);
    }
  }

  lemma ReplayedLast(d: Disk, numbers: seq<nat>, max: nat, last: nat)
    requires forall k :: k in numbers <==> k in d.logs && k >= d.logNumber
    requires IsMax(Batches(d, numbers), max) && last == if d.lastSequence < max then max else d.lastSequence
    ensures IsRecoveredLast(d, last)
  {
    BatchesMembers(d, numbers);
    if last != d.lastSequence {
      var b :| b in Batches(d, numbers) && BatchEnd(b) == last + 1;
      var k :| k in numbers && b in d.logs[k];
    }
  }

  /** From every reachable state recovery can run, and is the engine's recovery step. */
  method Restart(s: Db, full: (nat, nat) -> bool, size: seq<Entry> -> nat)
    returns (ok: bool, recovered: seq<File>, last: nat, newLog: nat, nextFile: nat, ghost s': Db)
    requires Inv(s)
    ensures ok && Sane(s) && Next(s, s', CrashAndRecover(recovered, newLog)) && Inv(s')
    ensures s'.version == AddAll(s.disk.manifest, recovered) && s'.last == last && s'.logfile == newLog && s'.nextFile == nextFile
  {
    hide GoodVersion, LogsInOrder, FreshNumber, NothingMissing, RecoveredTables, IsRecoveredLast, IsRecoveredNext, Accounted, Numbers;
    InvIsSane(s);
    DiskIsSound(s);
    ok, recovered, last, newLog, nextFile := Recover(s.disk, full, size, s.last + |s.pending| + 1);
    var version := AddAll(s.disk.manifest, recovered);
    AddAllFresh(s.disk.manifest, recovered, s.disk.nextFile, nextFile);
    var disk := Disk(version, newLog, last, nextFile, s.disk.logs[newLog := []], s.disk.tables + Numbers(recovered));
    s' := Db({}, None, version, last, [], newLog, s.immLog, nextFile, [], Idle, disk, s.history + Pending(s));
    CrashAndRecoverKeeps(s, s', recovered, newLog);
  }

  lemma DiskIsSound(s: Db)
    requires Inv(s)
    ensures LogsInOrder(s.disk, s.last + |s.pending| + 1) && s.disk.logNumber < s.disk.nextFile
    ensures FreshNumber(s.disk.manifest, s.disk.nextFile) && NothingMissing(s.disk) && |s.disk.manifest.files| > 0
  {
    hide LogsInOrder, FreshNumber, Accounted, Data, BatchEntries;
    DiskHoldsEverything(s);
    ManifestLevels(s);
    FreshOf(s.disk.manifest, s.nextFile, s.disk.tables);
  }

  lemma {:induction false} AddAllFresh(v: Version, fs: seq<File>, first: nat, next: nat)
    requires |v.files| > 0 && FreshNumber(v, first) && first <= next && forall f :: f in fs ==> f.number < next
    ensures FreshNumber(AddAll(v, fs), next)
  {
    if fs != [] {
      var k := |fs| - 1;
      AddAllFresh(v, fs[..k], first, next);
      InsertFileMembers(AddAll(v, fs[..k]).files[0], fs[k]);
    }
  }
}
