/** DBImpl::Get: memtable, then immutable memtable, then the current version, stopping at the first answer. */
module DbGet {
  import opened InternalKeys
  import opened Versions
  import opened VersionGet
  import opened CompactionWork
  import opened Engine
  import opened EngineSteps
  import opened EngineReads

  lemma SearchSortedAnswers(es: seq<Entry>, u: UserKey, s: SequenceNumber)
    requires Sorted(es)
    ensures Answers(Entries(es), u, s, SearchSorted(es, u, s))
  {
    FirstAtOrAfterIsNewest(es, u, s);
  }

  /** The early-stopping search returns the newest visible entry over all the data. */
  method Get(mem: seq<Entry>, imm: Option<seq<Entry>>, v: Version, u: UserKey, snapshot: Option<SequenceNumber>, last: SequenceNumber)
    returns (r: Lookup)
    requires Sorted(mem) && (imm.Some? ==> Sorted(imm.value)) && WellFormed(v) && Aged(v)
    requires NewerThan(Entries(mem), ImmEntries(imm)) && NewerThan(Entries(mem) + ImmEntries(imm), Data(v))
    ensures Answers(Entries(mem) + ImmEntries(imm) + Data(v), u, ReadSequence(snapshot, last), r)
  {
    hide WellFormed, Aged, Sorted, Data, Entries;
    var s := ReadSequence(snapshot, last);
    r := SearchSorted(mem, u, s);
    SearchSortedAnswers(mem, u, s);
    ghost var older := ImmEntries(imm) + Data(v);
    assert Entries(mem) + ImmEntries(imm) + Data(v) == Entries(mem) + older;
    NewerDecides(Entries(mem), older, u, s, r);
    if r != NotFound {
      return;
    }
    if imm.Some? {
      r := SearchSorted(imm.value, u, s);
      SearchSortedAnswers(imm.value, u, s);
    }
    NewerDecides(ImmEntries(imm), Data(v), u, s, r);
    if r != NotFound {
      return;
    }
    r := VersionGet.Get(v, u, s);
  }

  ghost function ImmEntries(imm: Option<seq<Entry>>): set<Entry> {
    if imm.Some? then Entries(imm.value) else {}
  }

  /** The snapshot of the read options, or the last sequence. */
  function ReadSequence(snapshot: Option<SequenceNumber>, last: SequenceNumber): SequenceNumber {
    if snapshot.Some? then snapshot.value else last
  }

  /** In every reachable state a lookup at a live snapshot returns what the history of writes says: always when
      that is a value, and whatever it is when no compaction of the run split the user key. */
  lemma GetReadsHistory(states: seq<Db>, steps: seq<Step>, n: nat, u: UserKey, s: nat, r: Lookup)
    requires Execution(states, steps) && n < |states|
    requires s >= Oldest(states[n]) && Answers(Total(states[n]), u, s, r)
    ensures Read(states[n].history, u, s).Some? ==> AsRead(r) == Read(states[n].history, u, s)
    ensures (forall i :: 0 <= i < n ==> !Splits(states[i], steps[i], u)) ==> AsRead(r) == Read(states[n].history, u, s)
  {
    hide Init, Next, Total, SequencesInv, OrderInv, BackgroundInv, DiskInv, Read, Answers, Splits;
    EveryRunKeepsPresentValues(states, steps, n, u, s);
    UniqueSubset(states[n]);
    AnswersIsRead(Total(states[n]), u, s, r);
    if forall i :: 0 <= i < n ==> !Splits(states[i], steps[i], u) {
      UnsplitKeysReadTheirHistory(states, steps, n, u);
    }
  }
}
