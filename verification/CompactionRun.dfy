/** A whole compaction, from the choice of its first file to the tables it writes, is the engine's compaction step. */
module CompactionRuns {
  import opened InternalKeys
  import opened Versions
  import opened CompactionInputs
  import opened Compactions
  import opened CompactionWork
  import opened LevelEdits
  import opened LevelOrder
  import opened Engine
  import opened EngineSteps
  import opened IteratorStack

  lemma {:induction false} PiecesSorted(pieces: seq<seq<Entry>>)
    requires Sorted(Flatten(pieces))
    ensures forall i :: 0 <= i < |pieces| ==> Sorted(pieces[i])
  {
    hide Sorted;
    if pieces != [] {
      var n := |pieces| - 1;
      SortedParts(Flatten(pieces[..n]), pieces[n]);
      SortedTail(Flatten(pieces[..n]), pieces[n]);
      PiecesSorted(pieces[..n]);
      assert forall i :: 0 <= i < n ==> pieces[..n][i] == pieces[i];
    }
  }

  lemma SortedTail(a: seq<Entry>, b: seq<Entry>)
    requires Sorted(a + b)
    ensures Sorted(b)
  {
    hide Less;
    assert forall i :: 0 <= i < |b| ==> (a + b)[|a| + i] == b[i];
  }

  /** Each output becomes a table under the next number. */
  method NumberOutputs(outputs: seq<seq<Entry>>, nextFile: nat, size: seq<Entry> -> nat) returns (outs: seq<File>, nextFile': nat)
    requires Sorted(Flatten(outputs)) && forall i :: 0 <= i < |outputs| ==> outputs[i] != []
    ensures OutputsHold(outs, Flatten(outputs), nextFile, nextFile') && LevelOrder.Tables(outs) == outputs
    ensures nextFile' == nextFile + |outs|
    ensures forall i :: 0 <= i < |outs| ==> outs[i].number == nextFile + i && outs[i].size == size(outs[i].entries)
  {
    hide Sorted, Flatten;
    PiecesSorted(outputs);
    outs, nextFile' := [], nextFile;
    for i := 0 to |outputs|
      invariant |outs| == i && nextFile' == nextFile + i && ValidFiles(outs)
      invariant forall j :: 0 <= j < i ==>
        outs[j].number == nextFile + j && outs[j].entries == outputs[j] && outs[j].size == size(outs[j].entries)
    {
      var es := outputs[i];
      outs := outs + [File(nextFile', size(es), es[0].key, es[|es| - 1].key, es)];
      nextFile' := nextFile' + 1;
    }
    assert LevelOrder.Tables(outs) == outputs;
  }

  /** The picked file is the first past the pointer, and the seed is that file, at level 0 closed under overlaps. */
  ghost predicate StartsAt(v: Version, level: nat, compactPointer: Option<InternalKey>, picked: File, seed: seq<File>)
    requires level < |v.files|
  {
    && (exists i :: PickedAt(v.files[level], compactPointer, i, picked))
    && if level > 0 then seed == [picked]
       else exists lo, hi :: SearchedRange(v.files[0], 0, picked.smallest.user, picked.largest.user, lo, hi)
              && seed == Overlapping(v.files[0], lo, hi)
  }

  /** The inputs are the seed's boundary closure, or the larger closed selection if taking it costs nothing. */
  ghost predicate Grows(v: Version, level: nat, seed: seq<File>, limit: nat, own: seq<File>, larger: seq<File>,
                        inputs0: seq<File>, inputs1: seq<File>)
    requires WellFormed(v) && level + 1 < NUM_LEVELS
  {
    && BoundaryClosure(v.files[level], seed, own)
    && (inputs1 != [] ==> ClosedSelection(v.files[level], level, own + inputs1, larger))
    && inputs0 == if inputs1 != [] && |larger| > |own| && TotalFileSize(inputs1) + TotalFileSize(larger) < limit
                     && NextLevelCount(v, level, larger, |inputs1|) then larger else own
  }

  function Asked(f: nat -> bool, n: nat): (r: seq<bool>)
    ensures |r| == n
  {
    seq(n, i requires 0 <= i < n => f(i))
  }

  /** PickCompaction for a level that is due: the seed, and what SetupOtherInputs makes of it. */
  method PickCompaction(v: Version, level: nat, compactPointer: Option<InternalKey>, limit: nat)
    returns (c: Compaction, ghost picked: File, ghost seed: seq<File>, ghost own: seq<File>, ghost larger: seq<File>)
    requires WellFormed(v) && level + 1 < NUM_LEVELS && v.files[level] != []
    ensures fresh(c) && fresh(c.levelPtrs) && c.Valid() && c.version == v && c.level == level && c.queried == None
    ensures GoodInputs(v, level, c.inputs0, c.inputs1) && IsGrandparents(v, level, c.inputs0, c.inputs1, c.grandparents)
    ensures picked in c.inputs0 && StartsAt(v, level, compactPointer, picked, seed)
    ensures Grows(v, level, seed, limit, own, larger, c.inputs0, c.inputs1)
  {
    hide WellFormed, GoodInputs, Seed, ClosedSelection, NextLevelCount, PickedAt, BoundaryClosure, SearchedRange, Overlapping, IsGrandparents;
    LevelCount(v);
    var start, first := PickSeed(v, level, compactPointer);
    c := new Compaction(level, v, start);
    var _, closed, selection := c.SetupOtherInputs(limit);
    picked, seed, own, larger := first, start, closed, selection;
  }

  /** Pick, set up, merge and write: whatever the sizes are, an idle engine with no memtable to flush takes its
      compaction step. */
  method Compact(s: Db, level: nat, compactPointer: Option<InternalKey>, limit: nat,
                 stopBefore: nat -> bool, fullAfter: nat -> bool, size: seq<Entry> -> nat)
    returns (inputs0: seq<File>, inputs1: seq<File>, input: seq<Entry>, outs: seq<File>, nextFile: nat, ghost s': Db,
             ghost picked: File, ghost seed: seq<File>, ghost own: seq<File>, ghost larger: seq<File>)
    requires Inv(s) && s.background.Idle? && s.imm.None?
    requires level + 1 < |s.version.files| && s.version.files[level] != []
    ensures Sane(s) && Next(s, s', BeginCompaction(level, inputs0, inputs1, input, outs)) && Inv(s') && s'.nextFile == nextFile
    ensures picked in inputs0 && StartsAt(s.version, level, compactPointer, picked, seed)
    ensures Grows(s.version, level, seed, limit, own, larger, inputs0, inputs1)
    ensures CutsWhereAsked(input, Asked(stopBefore, |input|), Asked(fullAfter, |input|), LevelOrder.Tables(outs))
    ensures nextFile == s.nextFile + |outs|
    ensures forall i :: 0 <= i < |outs| ==> outs[i].number == s.nextFile + i && outs[i].size == size(outs[i].entries)
  {
    hide Aged, GoodInputs, Merged, Sorted, Kept, Data, Unique, UniqueNumbers, FreshNumber, Present, Seed, Accounted, ValidFiles,
         Disjoint, DistinctNumbers, LogInOrder, LogPrecedes, Next, OutputsHold, CutsWhereAsked, StartsAt, Grows,
         IsGrandparents, WellFormed;
    InvIsSane(s);
    var v := s.version;
    var snapshot: SequenceNumber := if s.snapshots == [] then s.last else s.snapshots[0];
    var c, p, sd, o, lg := PickCompaction(v, level, compactPointer, limit);
    picked, seed, own, larger := p, sd, o, lg;
    inputs0, inputs1 := c.inputs0, c.inputs1;
    input := ReadInputs(v, level, inputs0, inputs1);
    MergedSorted(inputs0, inputs1, input);
    var n := |input|;
    var outputs := DoCompactionWork(c, input, snapshot, Asked(stopBefore, n), Asked(fullAfter, n));
    KeptInOrder(input, n, snapshot, v, level);
    outs, nextFile := NumberOutputs(outputs, s.nextFile, size);
    GoodInputsMembers(v, level, inputs0, inputs1);
    s' := s.(background := Installing(Replace(v, level, inputs0, inputs1, outs), false, snapshot, false),
             nextFile := nextFile, disk := s.disk.(tables := s.disk.tables + Numbers(outs)));
    IsStep(s, s', level, inputs0, inputs1, input, outs);
    BeginCompactionKeeps(s, s', level, inputs0, inputs1, input, outs);
  }

  lemma IsStep(s: Db, s': Db, level: nat, inputs0: seq<File>, inputs1: seq<File>, input: seq<Entry>, outs: seq<File>)
    requires Sane(s) && s.background.Idle? && s.imm.None? && level + 1 < |s.version.files|
    requires GoodInputs(s.version, level, inputs0, inputs1) && Merged(inputs0, inputs1, input)
    requires OutputsHold(outs, Kept(input, |input|, Oldest(s), s.version, level), s.nextFile, s'.nextFile)
    requires s' == s.(background := Installing(Replace(s.version, level, inputs0, inputs1, outs), false, Oldest(s), false),
                      nextFile := s'.nextFile, disk := s.disk.(tables := s.disk.tables + Numbers(outs)))
    ensures Next(s, s', BeginCompaction(level, inputs0, inputs1, input, outs))
  {
    hide Aged, GoodInputs, Merged, Sorted, Kept, OutputsHold;
  }
}
