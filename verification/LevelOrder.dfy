/** Flushes, trivial moves and compactions keep levels well formed and ordered by age. */
module LevelOrder {
  import opened InternalKeys
  import opened Versions
  import opened CompactionInputs
  import opened Compactions
  import opened CompactionWork
  import opened LevelEdits

  /** A file number no file of the version uses yet. */
  ghost predicate FreshNumber(v: Version, n: nat) {
    forall l, f :: 0 <= l < |v.files| && f in v.files[l] ==> f.number < n
  }

  /** The level PickLevelForMemTableOutput may choose for a table. */
  ghost predicate FlushLevel(v: Version, level: nat, f: File)
    requires WellFormed(v)
  {
    && level <= MAX_MEM_COMPACT_LEVEL
    && (level > 0 ==> forall l, g :: 0 <= l <= level && g in v.files[l]
                                 ==> !Overlaps(g, Some(f.smallest.user), Some(f.largest.user)))
  }

  lemma NoOverlapNoSharedKey(f: File, g: File)
    requires ValidFile(f) && ValidFile(g) && !Overlaps(g, Some(f.smallest.user), Some(f.largest.user))
    ensures NewerThan(FilesData([g]), Entries(f.entries))
    ensures Apart(f, g)
  {
    forall x, y | x in g.entries && y in f.entries && x.key.user == y.key.user
      ensures false
    {
      EntriesWithinFile(g, x);
      EntriesWithinFile(f, y);
    }
    FileBounds(f);
    FileBounds(g);
  }

  /** A memtable flush keeps every level well formed and ordered. */
  lemma FlushKeepsOrder(v: Version, level: nat, f: File)
    requires WellFormed(v) && Aged(v) && ValidFile(f) && FlushLevel(v, level, f)
    requires NewerThan(Entries(f.entries), Data(v)) && FreshNumber(v, f.number)
    ensures WellFormed(AddTo(v, level, f)) && Aged(AddTo(v, level, f))
  {
    hide WellFormed, FlushLevel, ValidFile;
    LevelCount(v);
    FlushLevelBound(v, level, f);
    var w := AddTo(v, level, f);
    FlushKeepsWellFormed(v, level, f);
    FlushKeepsLevel0(v, level, f);
    AddToData(v, level, f);
    forall l | 0 <= l < level
      ensures NewerThan(FilesData(v.files[l]), Entries(f.entries))
    {
      NoOverlapLevel(v, level, f, l);
    }
    forall l, m | 0 <= l < m < |w.files|
      ensures NewerThan(FilesData(w.files[l]), FilesData(w.files[m]))
    {
      assert NewerThan(FilesData(v.files[l]), FilesData(v.files[m]));
      assert FilesData(v.files[m]) <= Data(v);
    }
  }

  lemma FlushLevelBound(v: Version, level: nat, f: File)
    requires WellFormed(v) && FlushLevel(v, level, f)
    ensures level <= MAX_MEM_COMPACT_LEVEL
  {
  }

  lemma NoOverlapLevel(v: Version, level: nat, f: File, l: nat)
    requires WellFormed(v) && ValidFile(f) && FlushLevel(v, level, f) && l < level
    ensures NewerThan(FilesData(v.files[l]), Entries(f.entries))
  {
    forall x, y | x in FilesData(v.files[l]) && y in Entries(f.entries) && x.key.user == y.key.user
      ensures x.key.sequence > y.key.sequence
    {
      var g :| g in v.files[l] && x in g.entries;
      NoOverlapNoSharedKey(f, g);
      assert x in FilesData([g]);
    }
  }

  lemma FlushKeepsWellFormed(v: Version, level: nat, f: File)
    requires WellFormed(v) && ValidFile(f) && FlushLevel(v, level, f) && FreshNumber(v, f.number)
    ensures WellFormed(AddTo(v, level, f))
  {
    hide ValidFile;
    var fs := v.files[level];
    forall g | g in fs && level > 0
      ensures Apart(f, g)
    {
      var i :| 0 <= i < |fs| && fs[i] == g;
      NoOverlapNoSharedKey(f, g);
    }
    InsertFilesKeepsLevel(fs, [f], level > 0);
    assert InsertFiles(fs, []) == fs && [f][..0] == [];
    assert InsertFiles(fs, [f]) == InsertFile(fs, f);
  }

  lemma FlushKeepsLevel0(v: Version, level: nat, f: File)
    requires WellFormed(v) && Aged(v) && level < NUM_LEVELS && FreshNumber(v, f.number)
    requires NewerThan(Entries(f.entries), Data(v))
    ensures AgedLevel0(AddTo(v, level, f).files[0])
  {
    hide WellFormed;
    assert |v.files| == NUM_LEVELS by { LevelCount(v); }
    var fs := v.files[0];
    InsertFileMembers(fs, f);
    forall g, h | g in InsertFile(fs, f) && h in InsertFile(fs, f) && g.number > h.number
      ensures NewerThan(FilesData([g]), FilesData([h]))
    {
      if h in fs && g !in fs {
        assert FilesData([g]) == Entries(f.entries);
        forall y | y in FilesData([h])
          ensures y in Data(v)
        {
          assert y in FilesData(fs);
        }
      }
    }
  }

  lemma LevelCount(v: Version)
    requires WellFormed(v)
    ensures |v.files| == NUM_LEVELS
  {
  }

  // ----- Compactions -----

  /** The tables a compaction writes: sorted, disjoint, under new numbers, holding only input entries. */
  ghost predicate GoodOutputs(v: Version, level: nat, inputs1: seq<File>, input: seq<Entry>, outs: seq<File>)
    requires level + 1 < |v.files|
  {
    && ValidFiles(outs) && Disjoint(outs) && DistinctNumbers(outs)
    && (forall f, g :: f in outs && g in v.files[level + 1] && g !in inputs1 ==> f.number != g.number)
    && FilesData(outs) <= Entries(input)
  }

  ghost predicate Merged(inputs0: seq<File>, inputs1: seq<File>, input: seq<Entry>) {
    Sorted(input) && Entries(input) == FilesData(inputs0) + FilesData(inputs1)
  }

  /** Every input entry lies on the same side of a next-level file that is not an input. */
  lemma InputsOnOneSide(v: Version, level: nat, inputs0: seq<File>, inputs1: seq<File>, g: File, x: Entry,
                        lo: InternalKey, hi: InternalKey)
    requires WellFormed(v) && level + 1 < NUM_LEVELS
    requires forall f :: f in inputs0 ==> f in v.files[level]
    requires IsSmallestKey(inputs0, lo) && IsLargestKey(inputs0, hi)
    requires inputs1 == Overlapping(v.files[level + 1], Some(lo.user), Some(hi.user))
    requires g in v.files[level + 1] && g !in inputs1
    requires x in FilesData(inputs0) + FilesData(inputs1)
    ensures g.largest.user < lo.user ==> Less(g.largest, x.key)
    ensures g.largest.user >= lo.user ==> Less(x.key, g.smallest)
  {
    hide WellFormed, Sorted, Disjoint, DistinctNumbers;
    LevelCount(v);
    LevelsValid(v, level);
    LevelsValid(v, level + 1);
    var fs := v.files[level + 1];
    OverlappingMembers(fs, Some(lo.user), Some(hi.user));
    if x in FilesData(inputs0) {
      var f :| f in inputs0 && x in f.entries;
      assert ValidFile(f);
      EntriesWithinFile(f, x);
    } else {
      var h :| h in inputs1 && x in h.entries;
      assert ValidFile(h);
      EntriesWithinFile(h, x);
      FilesApart(fs, g, h);
    }
  }

  lemma LevelsValid(v: Version, l: nat)
    requires WellFormed(v) && l < NUM_LEVELS
    ensures forall f :: f in v.files[l] ==> ValidFile(f)
    ensures ValidFiles(v.files[l]) && (l > 0 ==> Disjoint(v.files[l]))
  {
    hide ValidFile;
  }

  lemma FilesApart(fs: seq<File>, g: File, h: File)
    requires ValidFiles(fs) && Disjoint(fs) && g in fs && h in fs && g != h
    ensures Apart(g, h)
    ensures AtMost(g.smallest, g.largest) && AtMost(h.smallest, h.largest)
  {
    hide ValidFile;
    FileBoundsAll(fs);
    var i :| 0 <= i < |fs| && fs[i] == g;
    var j :| 0 <= j < |fs| && fs[j] == h;
  }

  lemma OutputsApart(v: Version, level: nat, inputs0: seq<File>, inputs1: seq<File>, input: seq<Entry>, outs: seq<File>, f: File, g: File)
    requires WellFormed(v) && GoodInputs(v, level, inputs0, inputs1) && Merged(inputs0, inputs1, input)
    requires GoodOutputs(v, level, inputs1, input, outs)
    requires f in outs && g in v.files[level + 1] && g !in inputs1
    ensures Apart(f, g)
  {
    hide WellFormed, ValidFile, ValidFiles, Disjoint, DistinctNumbers, Sorted, GoodInputs, IsSmallestKey, IsLargestKey, FilesData;
    LevelCount(v);
    GoodInputsMembers(v, level, inputs0, inputs1);
    var lo, hi := InputRange(v, level, inputs0, inputs1);
    var first, last := EndEntries(outs, f);
    InputsOnOneSide(v, level, inputs0, inputs1, g, first, lo, hi);
    InputsOnOneSide(v, level, inputs0, inputs1, g, last, lo, hi);
  }

  lemma EndEntries(fs: seq<File>, f: File) returns (first: Entry, last: Entry)
    requires ValidFiles(fs) && f in fs
    ensures first in FilesData(fs) && first.key == f.smallest
    ensures last in FilesData(fs) && last.key == f.largest
  {
    hide Sorted;
    var i :| 0 <= i < |fs| && fs[i] == f;
    assert ValidFile(fs[i]);
    first, last := f.entries[0], f.entries[|f.entries| - 1];
    assert first in f.entries && last in f.entries;
  }

  lemma InputRange(v: Version, level: nat, inputs0: seq<File>, inputs1: seq<File>) returns (lo: InternalKey, hi: InternalKey)
    requires WellFormed(v) && GoodInputs(v, level, inputs0, inputs1)
    ensures level + 1 < NUM_LEVELS
    ensures IsSmallestKey(inputs0, lo) && IsLargestKey(inputs0, hi)
    ensures inputs1 == Overlapping(v.files[level + 1], Some(lo.user), Some(hi.user))
  {
    hide IsSmallestKey, IsLargestKey, Seed, BoundaryFree;
    lo, hi :| IsSmallestKey(inputs0, lo) && IsLargestKey(inputs0, hi)
           && inputs1 == Overlapping(v.files[level + 1], Some(lo.user), Some(hi.user));
  }

  /** Compactions keep every level well formed: the outputs fit between the files left behind. */
  lemma CompactionKeepsWellFormed(v: Version, level: nat, inputs0: seq<File>, inputs1: seq<File>, input: seq<Entry>, outs: seq<File>)
    requires WellFormed(v) && GoodInputs(v, level, inputs0, inputs1) && Merged(inputs0, inputs1, input)
    requires GoodOutputs(v, level, inputs1, input, outs)
    ensures WellFormed(Replace(v, level, inputs0, inputs1, outs))
  {
    hide ValidFile, GoodInputs, Merged, Sorted;
    GoodInputsMembers(v, level, inputs0, inputs1);
    var upper, lower := Without(v.files[level], inputs0), Without(v.files[level + 1], inputs1);
    WithoutMembers(v.files[level], inputs0);
    WithoutMembers(v.files[level + 1], inputs1);
    WithoutKeepsNumbers(v.files[level], inputs0);
    WithoutKeepsNumbers(v.files[level + 1], inputs1);
    WithoutKeepsDisjoint(v.files[level + 1], inputs1);
    if level > 0 {
      WithoutKeepsDisjoint(v.files[level], inputs0);
    }
    MembersValid(v.files[level], upper);
    MembersValid(v.files[level + 1], lower);
    forall f, g | f in outs && g in lower
      ensures Apart(f, g)
    {
      OutputsApart(v, level, inputs0, inputs1, input, outs, f, g);
    }
    InsertFilesKeepsLevel(lower, outs, true);
  }

  lemma MembersValid(fs: seq<File>, gs: seq<File>)
    requires ValidFiles(fs) && forall g :: g in gs ==> g in fs
    ensures ValidFiles(gs)
  {
    forall i | 0 <= i < |gs|
      ensures ValidFile(gs[i])
    {
      assert gs[i] in fs;
    }
  }

  lemma GoodInputsMembers(v: Version, level: nat, inputs0: seq<File>, inputs1: seq<File>)
    requires WellFormed(v) && GoodInputs(v, level, inputs0, inputs1)
    ensures level + 1 < NUM_LEVELS
    ensures forall f :: f in inputs0 ==> f in v.files[level]
    ensures forall f :: f in inputs1 ==> f in v.files[level + 1]
  {
    SeedMembers(level, v.files[level], inputs0);
    var lo, hi := InputRange(v, level, inputs0, inputs1);
    OverlappingMembers(v.files[level + 1], Some(lo.user), Some(hi.user));
  }

  /** What the compaction leaves in its level is newer than the inputs it takes from it. */
  lemma LeftBehindIsNewer(v: Version, level: nat, inputs0: seq<File>, inputs1: seq<File>)
    requires WellFormed(v) && Unique(Data(v)) && GoodInputs(v, level, inputs0, inputs1)
    ensures NewerThan(FilesData(Without(v.files[level], inputs0)), FilesData(inputs0))
  {
    var fs := v.files[level];
    assert FilesData(fs) <= Data(v);
    SeedNothingOlder(level, fs, inputs0);
    WithoutMembers(fs, inputs0);
    forall x, y | x in FilesData(Without(fs, inputs0)) && y in FilesData(inputs0) && x.key.user == y.key.user
      ensures x.key.sequence > y.key.sequence
    {
      var g :| g in Without(fs, inputs0) && x in g.entries;
      var f :| f in inputs0 && y in f.entries;
      assert NewerThan(FilesData([g]), FilesData([f]));
      assert x in FilesData([g]) && y in FilesData([f]);
    }
  }

  /** Moving data one level down, when what stays behind is newer than what moves, keeps the levels aged. */
  lemma MoveDownKeepsAged(v: Version, w: Version, level: nat, moved: set<Entry>)
    requires |v.files| == |w.files| && level + 1 < |v.files|
    requires forall l, m :: 0 <= l < m < |v.files| ==> NewerThan(FilesData(v.files[l]), FilesData(v.files[m]))
    requires forall l :: 0 <= l < |v.files| && l != level && l != level + 1 ==> w.files[l] == v.files[l]
    requires FilesData(w.files[level]) <= FilesData(v.files[level]) && moved <= FilesData(v.files[level])
    requires FilesData(w.files[level + 1]) <= FilesData(v.files[level + 1]) + moved
    requires NewerThan(FilesData(w.files[level]), moved)
    ensures forall l, m :: 0 <= l < m < |w.files| ==> NewerThan(FilesData(w.files[l]), FilesData(w.files[m]))
  {
    hide FilesData;
    assert NewerThan(FilesData(v.files[level]), FilesData(v.files[level + 1]));
    forall l, m | 0 <= l < m < |w.files|
      ensures NewerThan(FilesData(w.files[l]), FilesData(w.files[m]))
    {
      assert NewerThan(FilesData(v.files[l]), FilesData(v.files[m]));
      assert l < level ==> NewerThan(FilesData(v.files[l]), FilesData(v.files[level]));
      assert m > level + 1 ==> NewerThan(FilesData(v.files[level]), FilesData(v.files[m]));
    }
  }

  /** Compactions keep the levels ordered by age. */
  lemma CompactionKeepsAged(v: Version, level: nat, inputs0: seq<File>, inputs1: seq<File>, input: seq<Entry>, outs: seq<File>)
    requires WellFormed(v) && Aged(v) && Unique(Data(v))
    requires GoodInputs(v, level, inputs0, inputs1) && Merged(inputs0, inputs1, input)
    requires GoodOutputs(v, level, inputs1, input, outs)
    ensures Aged(Replace(v, level, inputs0, inputs1, outs))
  {
    hide WellFormed, GoodInputs, FilesData, InsertFiles, Without, Unique, Sorted, ValidFiles, Disjoint, DistinctNumbers;
    LevelCount(v);
    GoodInputsMembers(v, level, inputs0, inputs1);
    ReplaceData(v, level, inputs0, inputs1, outs);
    LeftBehindIsNewer(v, level, inputs0, inputs1);
    MoveDownKeepsAged(v, Replace(v, level, inputs0, inputs1, outs), level, FilesData(inputs0));
    WithoutMembers(v.files[0], inputs0);
  }

  // ----- The tables a compaction writes -----

  function Tables(fs: seq<File>): seq<seq<Entry>> {
    seq(|fs|, i requires 0 <= i < |fs| => fs[i].entries)
  }

  /** The tables a compaction wrote hold the surviving entries, cut anywhere, under fresh numbers. */
  ghost predicate OutputsHold(outs: seq<File>, kept: seq<Entry>, nextFile: nat, nextFile': nat) {
    && ValidFiles(outs) && DistinctNumbers(outs)
    && (forall i :: 0 <= i < |outs| ==> nextFile <= outs[i].number < nextFile')
    && Flatten(Tables(outs)) == kept
    && nextFile <= nextFile'
  }

  /** Cutting a sorted sequence gives sorted pieces, each wholly before the next ones. */
  lemma {:induction false} PiecesOrdered(pieces: seq<seq<Entry>>)
    requires Sorted(Flatten(pieces))
    ensures forall e :: e in Flatten(pieces) <==> exists i :: 0 <= i < |pieces| && e in pieces[i]
    ensures forall i, j :: 0 <= i < j < |pieces| ==> AllBefore(pieces[i], pieces[j])
  {
    hide AllBefore, Sorted;
    if pieces != [] {
      var n := |pieces| - 1;
      SortedParts(Flatten(pieces[..n]), pieces[n]);
      PiecesOrdered(pieces[..n]);
      forall i | 0 <= i < n
        ensures AllBefore(pieces[i], pieces[n])
      {
        assert forall e :: e in pieces[..n][i] ==> e in Flatten(pieces[..n]);
        PartBefore(pieces[i], Flatten(pieces[..n]), pieces[n]);
      }
      forall i, j | 0 <= i < j < |pieces|
        ensures AllBefore(pieces[i], pieces[j])
      {
        if j < n {
          assert AllBefore(pieces[..n][i], pieces[..n][j]);
        }
      }
    }
  }

  ghost predicate AllBefore(a: seq<Entry>, b: seq<Entry>) {
    forall x, y :: x in a && y in b ==> Less(x.key, y.key)
  }

  lemma PartBefore(part: seq<Entry>, a: seq<Entry>, b: seq<Entry>)
    requires AllBefore(a, b) && forall e :: e in part ==> e in a
    ensures AllBefore(part, b)
  {
    hide Less;
  }

  lemma SortedParts(a: seq<Entry>, b: seq<Entry>)
    requires Sorted(a + b)
    ensures Sorted(a) && AllBefore(a, b)
  {
    hide Less;
    var all := a + b;
    assert forall i :: 0 <= i < |a| ==> all[i] == a[i];
    assert forall i :: 0 <= i < |b| ==> all[|a| + i] == b[i];
  }

  /** The written tables are disjoint, in order, and hold exactly the surviving entries. */
  lemma OutputsAreGood(outs: seq<File>, kept: seq<Entry>, nextFile: nat, nextFile': nat)
    requires OutputsHold(outs, kept, nextFile, nextFile') && Sorted(kept)
    ensures Disjoint(outs) && FilesData(outs) == Entries(kept)
  {
    hide Sorted, ValidFile, DistinctNumbers, Flatten;
    PiecesOrdered(Tables(outs));
    forall i, j | 0 <= i < j < |outs|
      ensures Less(outs[i].largest, outs[j].smallest)
    {
      var _, x := FileEnds(outs[i]);
      var y, _ := FileEnds(outs[j]);
      assert x in Tables(outs)[i] && y in Tables(outs)[j] && AllBefore(Tables(outs)[i], Tables(outs)[j]);
    }
    TablesData(outs);
  }

  lemma FileEnds(f: File) returns (first: Entry, last: Entry)
    requires ValidFile(f)
    ensures first in f.entries && first.key == f.smallest && last in f.entries && last.key == f.largest
  {
    first, last := f.entries[0], f.entries[|f.entries| - 1];
  }

  lemma TablesData(outs: seq<File>)
    ensures forall e :: e in FilesData(outs) <==> exists i :: 0 <= i < |outs| && e in Tables(outs)[i]
  {
    forall e
      ensures e in FilesData(outs) <==> exists i :: 0 <= i < |outs| && e in Tables(outs)[i]
    {
      if e in FilesData(outs) {
        var f :| f in outs && e in f.entries;
        var i :| 0 <= i < |outs| && outs[i] == f;
        assert e in Tables(outs)[i];
      }
      if i :| 0 <= i < |outs| && e in Tables(outs)[i] {
        assert outs[i] in outs;
      }
    }
  }

  // ----- When a compaction cannot resurrect anything -----

  /** A user key is split when a next-level input ends with it and a next-level file left out starts with it. */
  ghost predicate SplitKey(v: Version, level: nat, inputs1: seq<File>, u: UserKey)
    requires level + 1 < |v.files|
  {
    exists f, g :: f in inputs1 && g in v.files[level + 1] && g !in inputs1 && f.largest.user == u == g.smallest.user
  }

  /** A value can only resurface from a file of the next level that splits its user key with an input, and
      only for user keys past the end of the level's own inputs. */
  lemma ResurrectionStraddles(newer: set<Entry>, v: Version, level: nat, inputs0: seq<File>, inputs1: seq<File>,
                              input: seq<Entry>, snapshot: nat, u: UserKey, t: Entry, e: Entry)
    returns (f: File, g: File)
    requires WellFormed(v) && Aged(v) && Unique(newer + Data(v)) && NewerThan(newer, Data(v))
    requires GoodInputs(v, level, inputs0, inputs1) && Merged(inputs0, inputs1, input)
    requires Resurrects(newer + Remaining(v, level, inputs0, inputs1), input, snapshot, v, level, u, t, e)
    ensures f in inputs1 && t in f.entries && g in v.files[level + 1] && g !in inputs1 && e in g.entries
    ensures e.key.sequence < t.key.sequence && e.key.user == t.key.user == u
    ensures f.largest.user == u == g.smallest.user
    ensures forall x :: x in inputs0 ==> x.largest.user < u
  {
    hide WellFormed, Sorted, GoodInputs, ValidFiles, Disjoint, DistinctNumbers;
    LevelCount(v);
    GoodInputsMembers(v, level, inputs0, inputs1);
    ReplaceData(v, level, inputs0, inputs1, []);
    assert t in Entries(input) && t in Data(v);
    var rest := newer + Remaining(v, level, inputs0, inputs1);
    assert e in rest + Entries(input) && e != t;
    assert e.key.sequence < t.key.sequence;
    assert e !in newer;
    var l := WhereRemains(v, level, inputs0, inputs1, e);
    assert l == level + 1 && t !in FilesData(inputs0) by {
      SurvivorIsNextLevel(v, level, inputs0, inputs1, t, e, l);
    }
    WithoutMembers(v.files[level + 1], inputs1);
    f :| f in inputs1 && t in f.entries;
    g :| g in Without(v.files[level + 1], inputs1) && e in g.entries;
    StraddlingEnds(v, level, inputs0, inputs1, f, g, t, e);
  }

  lemma StraddlingEnds(v: Version, level: nat, inputs0: seq<File>, inputs1: seq<File>, f: File, g: File, t: Entry, e: Entry)
    requires WellFormed(v) && GoodInputs(v, level, inputs0, inputs1)
    requires f in inputs1 && g in v.files[level + 1] && g !in inputs1
    requires t in f.entries && e in g.entries && e.key.user == t.key.user && e.key.sequence < t.key.sequence
    ensures f.largest.user == t.key.user == g.smallest.user
    ensures forall x :: x in inputs0 ==> x.largest.user < t.key.user
  {
    hide WellFormed, Sorted, Disjoint, DistinctNumbers, GoodInputs;
    LevelCount(v);
    GoodInputsMembers(v, level, inputs0, inputs1);
    LevelsValid(v, level + 1);
    var lo, hi := InputRange(v, level, inputs0, inputs1);
    var fs := v.files[level + 1];
    OverlappingMembers(fs, Some(lo.user), Some(hi.user));
    assert ValidFile(f) && ValidFile(g);
    EntriesWithinFile(f, t);
    EntriesWithinFile(g, e);
    FilesApart(fs, f, g);
    assert Less(t.key, e.key);
  }

  lemma WhereRemains(v: Version, level: nat, inputs0: seq<File>, inputs1: seq<File>, e: Entry) returns (l: nat)
    requires level + 1 < |v.files| && e in Remaining(v, level, inputs0, inputs1)
    ensures l < |v.files|
    ensures e in FilesData(if l == level then Without(v.files[level], inputs0)
                           else if l == level + 1 then Without(v.files[level + 1], inputs1) else v.files[l])
  {
    hide FilesData, Without;
    var r := v.files[level := Without(v.files[level], inputs0)][level + 1 := Without(v.files[level + 1], inputs1)];
    l :| 0 <= l < |r| && e in FilesData(r[l]);
  }

  /** An older entry left behind an uncovered tombstone among the inputs is at the next level, and the
      tombstone came from there too. */
  lemma SurvivorIsNextLevel(v: Version, level: nat, inputs0: seq<File>, inputs1: seq<File>, t: Entry, e: Entry, l: nat)
    requires WellFormed(v) && Aged(v) && Unique(Data(v)) && GoodInputs(v, level, inputs0, inputs1)
    requires t in FilesData(inputs0) + FilesData(inputs1) && !CoveredFrom(v, level + 2, t.key.user)
    requires l < NUM_LEVELS && e.key.user == t.key.user && e.key.sequence < t.key.sequence
    requires e in FilesData(if l == level then Without(v.files[level], inputs0)
                            else if l == level + 1 then Without(v.files[level + 1], inputs1) else v.files[l])
    ensures l == level + 1 && t !in FilesData(inputs0)
  {
    hide GoodInputs, Data, Without, WellFormed, Unique, CoveredFrom;
    LevelCount(v);
    GoodInputsMembers(v, level, inputs0, inputs1);
    ReplaceData(v, level, inputs0, inputs1, []);
    LeftBehindIsNewer(v, level, inputs0, inputs1);
    assert NewerThan(FilesData(v.files[level]), FilesData(v.files[level + 1]));
    assert forall k :: 0 <= k < level ==>
      NewerThan(FilesData(v.files[k]), FilesData(v.files[level])) && NewerThan(FilesData(v.files[k]), FilesData(v.files[level + 1]));
    if l > level + 1 {
      UncoveredNoData(v, level + 2, l, e);
    }
    if t in FilesData(inputs0) {
      NextLevelInputsComplete(v, level, inputs0, inputs1, t, e);
    }
  }

  lemma UncoveredNoData(v: Version, lvl: nat, l: nat, e: Entry)
    requires WellFormed(v) && lvl <= l < NUM_LEVELS && !CoveredFrom(v, lvl, e.key.user)
    ensures e !in FilesData(v.files[l])
  {
    hide Disjoint, DistinctNumbers;
    forall g | g in v.files[l]
      ensures e !in g.entries
    {
      assert !InRange(g, e.key.user);
      forall x | x in g.entries
        ensures InRange(g, x.key.user)
      {
        EntriesWithinFile(g, x);
      }
    }
  }

  lemma NextLevelInputsComplete(v: Version, level: nat, inputs0: seq<File>, inputs1: seq<File>, t: Entry, e: Entry)
    requires WellFormed(v) && GoodInputs(v, level, inputs0, inputs1)
    requires t in FilesData(inputs0) && e.key.user == t.key.user
    ensures e !in FilesData(Without(v.files[level + 1], inputs1))
  {
    hide WellFormed, GoodInputs, Sorted, Without, Overlapping;
    LevelCount(v);
    GoodInputsMembers(v, level, inputs0, inputs1);
    LevelsValid(v, level);
    LevelsValid(v, level + 1);
    var lo, hi := InputRange(v, level, inputs0, inputs1);
    WithoutMembers(v.files[level + 1], inputs1);
    OverlappingMembers(v.files[level + 1], Some(lo.user), Some(hi.user));
    var f :| f in inputs0 && t in f.entries;
    EntriesWithinFile(f, t);
    forall g | g in v.files[level + 1] && e in g.entries
      ensures g in inputs1
    {
      EntriesWithinFile(g, e);
    }
  }

  /** Reads of a user key that is not split are the same after the compaction, at every live snapshot. */
  lemma UnsplitKeepsReads(newer: set<Entry>, v: Version, level: nat, inputs0: seq<File>, inputs1: seq<File>,
                          input: seq<Entry>, snapshot: nat, u: UserKey)
    requires WellFormed(v) && Aged(v) && Unique(newer + Data(v)) && NewerThan(newer, Data(v))
    requires GoodInputs(v, level, inputs0, inputs1) && Merged(inputs0, inputs1, input)
    requires !SplitKey(v, level, inputs1, u)
    ensures !Resurfaces(newer + Remaining(v, level, inputs0, inputs1), input, snapshot, v, level, u)
    ensures var rest := newer + Remaining(v, level, inputs0, inputs1);
      SameReads(rest + Entries(input), rest + KeptSet(input, snapshot, v, level), snapshot, u)
  {
    hide WellFormed, GoodInputs, Remaining, Resurrects, Sorted, Unique, Aged, SameReads, Kept, Data, KeptSet;
    LevelCount(v);
    GoodInputsMembers(v, level, inputs0, inputs1);
    var rest := newer + Remaining(v, level, inputs0, inputs1);
    if Resurfaces(rest, input, snapshot, v, level, u) {
      var t, e :| Resurrects(rest, input, snapshot, v, level, u, t, e);
      var f, g := ResurrectionStraddles(newer, v, level, inputs0, inputs1, input, snapshot, u, t, e);
    }
    AllTogether(newer, v, level, inputs0, inputs1, input);
    SameReadsIffNothingResurfaces(rest, input, snapshot, v, level, u);
  }

  lemma AllTogether(newer: set<Entry>, v: Version, level: nat, inputs0: seq<File>, inputs1: seq<File>, input: seq<Entry>)
    requires WellFormed(v) && GoodInputs(v, level, inputs0, inputs1) && Merged(inputs0, inputs1, input)
    ensures level + 1 < |v.files|
    ensures newer + Remaining(v, level, inputs0, inputs1) + Entries(input) == newer + Data(v)
  {
    hide WellFormed, GoodInputs, Remaining, Sorted, Data;
    LevelCount(v);
    GoodInputsMembers(v, level, inputs0, inputs1);
    ReplaceData(v, level, inputs0, inputs1, []);
  }

  /** Within the user-key range of the level's own inputs nothing can resurface, so every read stays. */
  lemma InRangeKeepsReads(newer: set<Entry>, v: Version, level: nat, inputs0: seq<File>, inputs1: seq<File>,
                          input: seq<Entry>, snapshot: nat, u: UserKey, lo: InternalKey, hi: InternalKey)
    requires WellFormed(v) && Aged(v) && Unique(newer + Data(v)) && NewerThan(newer, Data(v))
    requires GoodInputs(v, level, inputs0, inputs1) && Merged(inputs0, inputs1, input)
    requires IsSmallestKey(inputs0, lo) && IsLargestKey(inputs0, hi) && lo.user <= u <= hi.user
    ensures var rest := newer + Remaining(v, level, inputs0, inputs1);
      SameReads(rest + Entries(input), rest + KeptSet(input, snapshot, v, level), snapshot, u)
  {
    hide WellFormed, GoodInputs, Remaining, Resurrects, Sorted, Unique, Aged, SameReads, Kept, Data, KeptSet;
    LevelCount(v);
    GoodInputsMembers(v, level, inputs0, inputs1);
    var rest := newer + Remaining(v, level, inputs0, inputs1);
    if Resurfaces(rest, input, snapshot, v, level, u) {
      var t, e :| Resurrects(rest, input, snapshot, v, level, u, t, e);
      var f, g := ResurrectionStraddles(newer, v, level, inputs0, inputs1, input, snapshot, u, t, e);
    }
    AllTogether(newer, v, level, inputs0, inputs1, input);
    SameReadsIffNothingResurfaces(rest, input, snapshot, v, level, u);
  }

  /** No user key is split exactly when the next level's inputs leave no boundary file behind. */
  lemma NoneSplitIffBoundaryFree(v: Version, level: nat, inputs0: seq<File>, inputs1: seq<File>)
    requires WellFormed(v) && GoodInputs(v, level, inputs0, inputs1) && level + 1 < |v.files|
    ensures (forall u :: !SplitKey(v, level, inputs1, u)) <==> BoundaryFree(v.files[level + 1], inputs1)
  {
    hide WellFormed, GoodInputs, IsLargestKey, Sorted, Disjoint, DistinctNumbers;
    LevelCount(v);
    LevelsValid(v, level + 1);
    if u :| SplitKey(v, level, inputs1, u) {
      var f, g :| f in inputs1 && g in v.files[level + 1] && g !in inputs1 && f.largest.user == u == g.smallest.user;
      SplitterIsBoundary(v, level, inputs0, inputs1, f, g);
    }
    if !BoundaryFree(v.files[level + 1], inputs1) {
      var k, g :| IsLargestKey(inputs1, k) && g in v.files[level + 1] && IsBoundary(g, k);
      BoundarySplits(v.files[level + 1], inputs1, k, g);
      assert SplitKey(v, level, inputs1, k.user);
    }
  }

  lemma BoundarySplits(fs: seq<File>, sel: seq<File>, k: InternalKey, g: File)
    requires IsLargestKey(sel, k) && g in fs && IsBoundary(g, k) && ValidFiles(fs)
    ensures exists f :: f in sel && f.largest.user == k.user == g.smallest.user && g !in sel
  {
    FileBoundsAll(fs);
  }

  lemma SplitterIsBoundary(v: Version, level: nat, inputs0: seq<File>, inputs1: seq<File>, f: File, g: File)
    requires WellFormed(v) && GoodInputs(v, level, inputs0, inputs1) && level + 1 < |v.files|
    requires f in inputs1 && g in v.files[level + 1] && g !in inputs1 && f.largest.user == g.smallest.user
    ensures !BoundaryFree(v.files[level + 1], inputs1)
  {
    hide WellFormed, GoodInputs, Sorted, Disjoint, DistinctNumbers, IsSmallestKey, Overlapping, ValidFiles;
    LevelCount(v);
    LevelsValid(v, level + 1);
    var fs := v.files[level + 1];
    var lo, hi := InputRange(v, level, inputs0, inputs1);
    OverlappingMembers(fs, Some(lo.user), Some(hi.user));
    FilesApart(fs, f, g);
    OverlappingIsRun(fs, |fs|, Some(lo.user), Some(hi.user));
    assert fs[..|fs|] == fs;
    var a, b :| RunAt(fs, inputs1, a, b);
    RunRange(fs, inputs1, a, b);
    assert fs[b - 1] in inputs1 by { assert inputs1[b - 1 - a] == fs[b - 1]; }
    FilesApart(fs, fs[b - 1], g);
    assert IsBoundary(g, fs[b - 1].largest);
  }

  /** A compaction whose next-level inputs are closed too preserves every read at every live snapshot. */
  lemma BoundaryClosedKeepsReads(newer: set<Entry>, v: Version, level: nat, inputs0: seq<File>, inputs1: seq<File>,
                                 input: seq<Entry>, snapshot: nat)
    requires WellFormed(v) && Aged(v) && Unique(newer + Data(v)) && NewerThan(newer, Data(v))
    requires GoodInputs(v, level, inputs0, inputs1) && Merged(inputs0, inputs1, input)
    requires BoundaryFree(v.files[level + 1], inputs1)
    ensures var rest := newer + Remaining(v, level, inputs0, inputs1);
      forall u :: SameReads(rest + Entries(input), rest + KeptSet(input, snapshot, v, level), snapshot, u)
  {
    hide WellFormed, Remaining, Sorted, Unique, Aged, SameReads, Kept, Data, KeptSet, GoodInputs, BoundaryFree, SplitKey;
    LevelCount(v);
    GoodInputsMembers(v, level, inputs0, inputs1);
    NoneSplitIffBoundaryFree(v, level, inputs0, inputs1);
    forall u
      ensures var rest := newer + Remaining(v, level, inputs0, inputs1);
        SameReads(rest + Entries(input), rest + KeptSet(input, snapshot, v, level), snapshot, u)
    {
      UnsplitKeepsReads(newer, v, level, inputs0, inputs1, input, snapshot, u);
    }
  }
}
