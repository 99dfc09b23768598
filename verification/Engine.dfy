/** The whole engine as a state machine: writes, memtable switches, flushes, trivial moves, compactions,
    manifest appends, obsolete-file deletion, snapshots, crashes and recovery.  Every step keeps one
    invariant over order, sequence numbers and the disk; a second one, for each user key, says that its reads at
    every live snapshot agree with the full history of writes. */
module Engine {
  import opened InternalKeys
  import opened Versions
  import opened VersionGet
  import opened CompactionInputs
  import opened Compactions
  import opened CompactionWork
  import opened LevelEdits
  import opened LevelOrder

  datatype Op = Op(user: UserKey, kind: ValueType, value: string)

  /** A log record: a write batch and the sequence number of its first operation. */
  datatype LogRecord = LogRecord(start: nat, ops: seq<Op>)

  type Batch = r: LogRecord | r.start + |r.ops| <= MAX_SEQUENCE witness LogRecord(0, [])

  /** What survives a crash: the MANIFEST's state, the log files by number, and the table files present. */
  datatype Disk = Disk(manifest: Version, logNumber: nat, lastSequence: nat, nextFile: nat,
                       logs: map<nat, seq<Batch>>, tables: set<nat>)

  /** The background thread: idle, or installing a new version (its manifest record written or not). */
  datatype Background = Idle | Installing(target: Version, flush: bool, snapshot: nat, logged: bool)

  datatype Db = Db(
    mem: set<Entry>, imm: Option<set<Entry>>, version: Version, last: nat, snapshots: seq<nat>,
    logfile: nat, immLog: nat, nextFile: nat, pending: seq<Op>, background: Background, disk: Disk,
    history: set<Entry>)  // every entry ever written

  datatype Step =
    | AppendLog(ops: seq<Op>)
    | InsertBatch
    | SwitchMemtable
    | BeginFlush(table: Option<File>, flushLevel: nat)
    | BeginMove(moveLevel: nat, moved: File)
    | BeginCompaction(level: nat, inputs0: seq<File>, inputs1: seq<File>, input: seq<Entry>, outs: seq<File>)
    | LogManifest
    | Commit
    | DeleteObsolete(keepTables: set<nat>, keepLogs: set<nat>)
    | TakeSnapshot
    | ReleaseSnapshot(index: nat)
    | CrashAndRecover(recovered: seq<File>, newLog: nat)

  // ----- Derived state -----

  /** Consecutive sequence numbers from start, as MemTableInserter assigns them. */
  function OpEntry(b: Batch, i: nat): Entry
    requires i < |b.ops|
  {
    Entry(InternalKey(b.ops[i].user, b.start + i, b.ops[i].kind), b.ops[i].value)
  }

  ghost function BatchEntries(b: Batch): set<Entry> {
    set i | 0 <= i < |b.ops| :: OpEntry(b, i)
  }

  ghost function LogEntries(log: seq<Batch>): set<Entry> {
    set b, e | b in log && e in BatchEntries(b) :: e
  }

  /** The first sequence number behind a batch. */
  function BatchEnd(b: Batch): nat {
    b.start + |b.ops|
  }

  ghost function Pending(s: Db): set<Entry>
    requires s.last + |s.pending| < MAX_SEQUENCE
  {
    BatchEntries(LogRecord(s.last + 1, s.pending))
  }

  ghost function ImmData(s: Db): set<Entry> {
    if s.imm.Some? then s.imm.value else {}
  }

  /** Everything a reader can reach. */
  ghost function Total(s: Db): set<Entry> {
    s.mem + ImmData(s) + Data(s.version)
  }

  /** What a reader will reach once the background thread is done. */
  ghost function TotalAfter(s: Db): set<Entry> {
    if s.background.Idle? then Total(s)
    else s.mem + (if s.background.flush then {} else ImmData(s)) + Data(s.background.target)
  }

  /** snapshots_.oldest(), or the last sequence when no snapshot is live. */
  ghost function Oldest(s: Db): nat {
    if s.snapshots == [] then s.last else s.snapshots[0]
  }

  /** The logs recovery reads. */
  ghost function LogData(d: Disk): set<Entry> {
    set k, e | k in d.logs && k >= d.logNumber && e in LogEntries(d.logs[k]) :: e
  }

  ghost function Durable(d: Disk): set<Entry> {
    Data(d.manifest) + LogData(d)
  }

  ghost predicate AllAtMost(es: set<Entry>, s: nat) {
    forall e :: e in es ==> e.key.sequence <= s
  }

  ghost predicate Present(v: Version, tables: set<nat>) {
    forall l, f :: 0 <= l < |v.files| && f in v.files[l] ==> f.number in tables
  }

  /** File numbers identify files across the whole version. */
  ghost predicate UniqueNumbers(v: Version) {
    forall l, m, f, g :: 0 <= l < |v.files| && 0 <= m < |v.files| && f in v.files[l] && g in v.files[m] && f.number == g.number
      ==> l == m && f == g
  }

  /** Batches follow each other in sequence order and stay below a bound. */
  ghost predicate LogInOrder(log: seq<Batch>, bound: nat) {
    && (forall i :: 0 <= i < |log| ==> 1 <= log[i].start && BatchEnd(log[i]) <= bound)
    && (forall i, j :: 0 <= i < j < |log| ==> BatchEnd(log[i]) <= log[j].start)
  }

  ghost predicate LogPrecedes(first: seq<Batch>, second: seq<Batch>) {
    forall a, b :: a in first && b in second ==> BatchEnd(a) <= b.start
  }

  /** Within each log recovery reads, and from log to log. */
  ghost predicate LogsInOrder(d: Disk, bound: nat) {
    && (forall k :: k in d.logs && k >= d.logNumber ==> LogInOrder(d.logs[k], bound))
    && (forall k, l :: k in d.logs && l in d.logs && d.logNumber <= k < l ==> LogPrecedes(d.logs[k], d.logs[l]))
  }

  ghost predicate GoodVersion(v: Version, nextFile: nat, tables: set<nat>) {
    WellFormed(v) && Aged(v) && UniqueNumbers(v) && FreshNumber(v, nextFile) && Present(v, tables)
  }

  // ----- The invariants -----

  ghost predicate SequencesInv(s: Db) {
    && s.last + |s.pending| < MAX_SEQUENCE
    && Unique(s.history) && AllAtMost(s.history, s.last)
    && Total(s) <= s.history
    && (forall i :: 0 <= i < |s.snapshots| ==> s.snapshots[i] <= s.last)
    && (forall i, j :: 0 <= i < j < |s.snapshots| ==> s.snapshots[i] <= s.snapshots[j])
  }

  ghost predicate OrderInv(s: Db) {
    && GoodVersion(s.version, s.nextFile, s.disk.tables)
    && NewerThan(s.mem, ImmData(s)) && NewerThan(s.mem + ImmData(s), Data(s.version))
  }

  ghost predicate BackgroundInv(s: Db) {
    s.background.Installing? ==>
      && GoodVersion(s.background.target, s.nextFile, s.disk.tables)
      && (s.background.flush ==> s.imm.Some?)
      && s.background.snapshot <= Oldest(s)
      && TotalAfter(s) <= Total(s)
      && NewerThan(s.mem + (if s.background.flush then {} else ImmData(s)), Data(s.background.target))
      && Accounted(Total(s), TotalAfter(s), s.background.snapshot)
  }

  /** The manifest already names the table that holds the immutable memtable. */
  ghost predicate LoggedFlush(s: Db) {
    s.background.Installing? && s.background.logged && s.background.flush
  }

  ghost predicate DiskInv(s: Db)
    requires s.last + |s.pending| < MAX_SEQUENCE
  {
    && s.disk.manifest == (if s.background.Installing? && s.background.logged then s.background.target else s.version)
    && s.disk.logNumber == (if s.imm.Some? && !LoggedFlush(s) then s.immLog else s.logfile)
    && s.disk.logNumber < s.disk.nextFile && FreshNumber(s.disk.manifest, s.disk.nextFile)
    && s.logfile in s.disk.logs && LogEntries(s.disk.logs[s.logfile]) == s.mem + Pending(s)
    && (s.imm.Some? ==> s.immLog < s.logfile)
    && (s.imm.Some? && !LoggedFlush(s) ==> s.immLog in s.disk.logs && LogEntries(s.disk.logs[s.immLog]) == s.imm.value)
    && LogsInOrder(s.disk, s.last + |s.pending| + 1)
    && (forall k :: k in s.disk.logs ==> k < s.nextFile)
    && (forall k :: k in s.disk.logs && k >= s.disk.logNumber ==> k == s.logfile || (s.imm.Some? && k == s.immLog))
    && (forall e :: e in s.history ==> e.key.sequence <= s.disk.lastSequence || e in s.mem || (e in ImmData(s) && !LoggedFlush(s)))
    && s.disk.lastSequence <= s.last
  }

  ghost predicate Inv(s: Db) {
    && SequencesInv(s) && OrderInv(s) && BackgroundInv(s) && DiskInv(s)
    && Accounted(s.history, Total(s), Oldest(s))
  }

  /** Reads of u agree with the history now, and will once the background thread is done. */
  ghost predicate ReadsInv(s: Db, u: UserKey) {
    && SameReads(s.history, Total(s), Oldest(s), u)
    && (s.background.Installing? ==> SameReads(Total(s), TotalAfter(s), s.background.snapshot, u))
  }

  /** What the definitions of the steps need to make sense; part of the invariant. */
  ghost predicate Sane(s: Db) {
    s.last + |s.pending| < MAX_SEQUENCE && s.logfile in s.disk.logs && WellFormed(s.version) && |s.disk.manifest.files| == NUM_LEVELS
  }

  lemma InvIsSane(s: Db)
    requires Inv(s)
    ensures Sane(s)
  {
  }

  // ----- Steps -----

  const EMPTY_VERSION := Version([[], [], [], [], [], [], []])

  ghost predicate Init(s: Db) {
    && s.mem == {} && s.imm == None && s.version == EMPTY_VERSION
    && s.last == 0 && s.snapshots == [] && s.pending == [] && s.background == Idle && s.history == {}
    && s.logfile < s.nextFile
    && s.disk == Disk(s.version, s.logfile, 0, s.nextFile, map[s.logfile := []], {})
  }

  function AddToLog(d: Disk, log: nat, b: Batch): Disk
    requires log in d.logs
  {
    d.(logs := d.logs[log := d.logs[log] + [b]])
  }

  function Numbers(fs: seq<File>): set<nat> {
    set f | f in fs :: f.number
  }

  ghost predicate Next(s: Db, s': Db, step: Step)
    requires Sane(s)
  {
    match step
    // a batch reaches the log before the memtable
    case AppendLog(ops) =>
      && s.pending == [] && s.last + |ops| < MAX_SEQUENCE
      && s' == s.(pending := ops, disk := AddToLog(s.disk, s.logfile, LogRecord(s.last + 1, ops)))
    case InsertBatch =>
      s' == s.(mem := s.mem + Pending(s), history := s.history + Pending(s), last := s.last + |s.pending|, pending := [])
    // MakeRoomForWrite
    case SwitchMemtable =>
      && s.imm.None? && s.pending == []
      && s' == s.(imm := Some(s.mem), mem := {}, immLog := s.logfile, logfile := s.nextFile, nextFile := s.nextFile + 1,
                  disk := s.disk.(logs := s.disk.logs[s.nextFile := []]))
    // CompactMemTable: an empty memtable makes no table, but uses up a file number
    case BeginFlush(table, level) =>
      && s.background.Idle? && s.imm.Some?
      && (if s.imm.value == {} then
            s' == s.(background := Installing(s.version, true, 0, false), nextFile := s.nextFile + 1)
          else
            && table.Some? && ValidFile(table.value) && Entries(table.value.entries) == s.imm.value
            && table.value.number == s.nextFile && FlushLevel(s.version, level, table.value)
            && s' == s.(background := Installing(AddTo(s.version, level, table.value), true, 0, false),
                        nextFile := s.nextFile + 1, disk := s.disk.(tables := s.disk.tables + {s.nextFile})))
    // BackgroundCompaction, IsTrivialMove
    case BeginMove(level, f) =>
      && s.background.Idle? && s.imm.None? && GoodInputs(s.version, level, [f], [])
      && s' == s.(background := Installing(Replace(s.version, level, [f], [], [f]), false, 0, false))
    // DoCompactionWork
    case BeginCompaction(level, inputs0, inputs1, input, outs) =>
      && s.background.Idle? && s.imm.None?
      && GoodInputs(s.version, level, inputs0, inputs1) && Merged(inputs0, inputs1, input)
      && OutputsHold(outs, Kept(input, |input|, Oldest(s), s.version, level), s.nextFile, s'.nextFile)
      && s' == s.(background := Installing(Replace(s.version, level, inputs0, inputs1, outs), false, Oldest(s), false),
                  nextFile := s'.nextFile, disk := s.disk.(tables := s.disk.tables + Numbers(outs)))
    // LogAndApply: the manifest record is durable before the version is installed
    case LogManifest =>
      && s.background.Installing? && !s.background.logged
      && s' == s.(background := s.background.(logged := true),
                  disk := s.disk.(manifest := s.background.target, lastSequence := s.last, nextFile := s.nextFile,
                                  logNumber := if s.background.flush then s.logfile else s.disk.logNumber))
    case Commit =>
      && s.background.Installing? && s.background.logged
      && s' == s.(version := s.background.target, imm := if s.background.flush then None else s.imm, background := Idle)
    // DeleteObsoleteFiles keeps live tables, tables still being written, and logs numbered >= LogNumber
    case DeleteObsolete(keepTables, keepLogs) =>
      && Present(s.version, keepTables) && (s.background.Installing? ==> Present(s.background.target, keepTables))
      && (forall k :: k in s.disk.logs && k >= s.disk.logNumber ==> k in keepLogs)
      && s' == s.(disk := s.disk.(tables := s.disk.tables * keepTables,
                                  logs := map k | k in s.disk.logs && k in keepLogs :: s.disk.logs[k]))
    case TakeSnapshot =>
      s' == s.(snapshots := s.snapshots + [s.last])
    case ReleaseSnapshot(i) =>
      i < |s.snapshots| && s' == s.(snapshots := s.snapshots[..i] + s.snapshots[i + 1..])
    case CrashAndRecover(recovered, newLog) =>
      Recovered(s, s', recovered, newLog)
  }

  /** The step compacts inputs that split u at the next level. */
  ghost predicate Splits(s: Db, step: Step, u: UserKey) {
    step.BeginCompaction? && step.level + 1 < |s.version.files| && SplitKey(s.version, step.level, step.inputs1, u)
  }

  // ----- Recovery -----

  /** The level-0 tables recovery writes hold exactly the log data, older entries in lower-numbered tables. */
  ghost predicate RecoveredTables(d: Disk, recovered: seq<File>) {
    && ValidFiles(recovered) && FilesData(recovered) == LogData(d)
    && (forall i :: 0 <= i < |recovered| ==> FreshNumber(d.manifest, recovered[i].number))
    && (forall i, j :: 0 <= i < j < |recovered| ==>
          recovered[i].number < recovered[j].number && NewerThan(FilesData([recovered[j]]), FilesData([recovered[i]])))
  }

  ghost function AddAll(v: Version, fs: seq<File>): Version
    requires |v.files| > 0
    ensures |AddAll(v, fs).files| == |v.files|
  {
    if fs == [] then v else AddTo(AddAll(v, fs[..|fs| - 1]), 0, fs[|fs| - 1])
  }

  /** The larger of the manifest's last sequence number and the last one of any replayed batch. */
  ghost predicate IsRecoveredLast(d: Disk, last: nat) {
    && last >= d.lastSequence
    && (forall k, b :: k in d.logs && k >= d.logNumber && b in d.logs[k] ==> BatchEnd(b) <= last + 1)
    && (last == d.lastSequence || exists k, b :: k in d.logs && k >= d.logNumber && b in d.logs[k] && BatchEnd(b) == last + 1)
  }

  /** A crash keeps only the disk; recovery reads the manifest and replays the logs it does not cover. */
  ghost predicate Recovered(s: Db, s': Db, recovered: seq<File>, newLog: nat)
    requires Sane(s)
  {
    && RecoveredTables(s.disk, recovered)
    && s'.mem == {} && s'.imm == None && s'.pending == [] && s'.snapshots == [] && s'.background == Idle
    && s'.version == AddAll(s.disk.manifest, recovered)
    && IsRecoveredLast(s.disk, s'.last)
    && s'.logfile == newLog && (forall k :: k in s.disk.logs ==> k < newLog) && newLog < s'.nextFile
    && FreshNumber(s'.version, s'.nextFile)
    && s'.disk == Disk(s'.version, newLog, s'.last, s'.nextFile, s.disk.logs[newLog := []], s.disk.tables + Numbers(recovered))
    && s'.history == s.history + Pending(s)
  }
}
