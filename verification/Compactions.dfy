/** The Compaction object: its inputs, the next-level files they need, and the per-key base-level test with
    its remembered positions. */
module Compactions {
  import opened InternalKeys
  import opened Versions
  import opened CompactionInputs

  /** What SetupOtherInputs promises of the two input sets. */
  ghost predicate GoodInputs(v: Version, level: nat, inputs0: seq<File>, inputs1: seq<File>)
    requires WellFormed(v)
  {
    && level + 1 < NUM_LEVELS
    && Seed(level, v.files[level], inputs0) && BoundaryFree(v.files[level], inputs0)
    && exists lo, hi :: IsSmallestKey(inputs0, lo) && IsLargestKey(inputs0, hi)
                     && inputs1 == Overlapping(v.files[level + 1], Some(lo.user), Some(hi.user))
  }

  /** Some file of a level at or below lvl covers the user key: the plain scan. */
  ghost predicate CoveredFrom(v: Version, lvl: nat, u: UserKey)
    requires WellFormed(v)
  {
    exists l, f :: lvl <= l < NUM_LEVELS && f in v.files[l] && InRange(f, u)
  }

  class Compaction {
    const level: nat
    const version: Version
    var inputs0: seq<File>
    var inputs1: seq<File>
    var grandparents: seq<File>
    const levelPtrs: array<nat>
    ghost var queried: Option<UserKey>  // the last user key asked about

    constructor (level: nat, version: Version, seed: seq<File>)
      requires WellFormed(version) && level + 1 < NUM_LEVELS
      ensures this.level == level && this.version == version && inputs0 == seed
      ensures Valid() && fresh(levelPtrs) && queried == None
    {
      this.level, this.version, this.inputs0, inputs1, grandparents := level, version, seed, [], [];
      levelPtrs := new nat[NUM_LEVELS](_ => 0);
      queried := None;
    }

    /** The remembered positions only skip files that end before every key still to be asked about. */
    ghost predicate Valid()
      reads `queried, levelPtrs
    {
      && WellFormed(version) && level + 1 < NUM_LEVELS && levelPtrs.Length == NUM_LEVELS
      && forall l :: 0 <= l < NUM_LEVELS ==>
           && levelPtrs[l] <= |version.files[l]|
           && (levelPtrs[l] > 0 ==> queried.Some?)
           && forall i :: 0 <= i < levelPtrs[l] ==> version.files[l][i].largest.user < queried.value
    }

    /** IsBaseLevelForKey: for user keys asked in ascending order, the moving positions answer exactly what a
        scan of every level from level + 2 down would. */
    method IsBaseLevelForKey(u: UserKey) returns (base: bool)
      requires Valid() && (queried.Some? ==> queried.value <= u)
      modifies levelPtrs, `queried
      ensures Valid() && queried == Some(u)
      ensures base <==> !CoveredFrom(version, level + 2, u)
    {
      queried := Some(u);
      for lvl := level + 2 to NUM_LEVELS
        invariant Valid() && queried == Some(u)
        invariant forall l, f :: level + 2 <= l < lvl && f in version.files[l] ==> !InRange(f, u)
      {
        var files := version.files[lvl];
        FileBoundsAll(files);
        while levelPtrs[lvl] < |files|
          invariant Valid() && queried == Some(u)
          decreases |files| - levelPtrs[lvl]
        {
          var f := files[levelPtrs[lvl]];
          if u <= f.largest.user {
            if u >= f.smallest.user {
              assert f in version.files[lvl] && InRange(f, u);
              return false;
            }
            forall i | levelPtrs[lvl] < i < |files|
              ensures u < files[i].smallest.user
            {
              assert Less(f.largest, files[i].smallest);
            }
            break;
          }
          levelPtrs[lvl] := levelPtrs[lvl] + 1;
        }
        assert forall i :: 0 <= i < |files| ==> !InRange(files[i], u);
      }
      return true;
    }

    /** SetupOtherInputs: close the level's inputs under boundary files, pull in every overlapping file of
        the next level, and grow the level's inputs when that costs no further next-level file. */
    method SetupOtherInputs(expandedCompactionByteSizeLimit: nat)
      returns (compactPointer: InternalKey, ghost own: seq<File>, ghost larger: seq<File>)
      requires Valid() && Seed(level, version.files[level], inputs0)
      modifies `inputs0, `inputs1, `grandparents
      ensures Valid() && GoodInputs(version, level, inputs0, inputs1)
      ensures BoundaryClosure(version.files[level], old(inputs0), own) && GoodInputs(version, level, own, inputs1)
      ensures inputs1 != [] ==> ClosedSelection(version.files[level], level, own + inputs1, larger)
      ensures inputs0 == if inputs1 != [] && |larger| > |own| && TotalFileSize(inputs1) + TotalFileSize(larger) < expandedCompactionByteSizeLimit
                            && NextLevelCount(version, level, larger, |inputs1|) then larger else own
      ensures forall f :: f in old(inputs0) ==> f in inputs0
      ensures IsLargestKey(inputs0, compactPointer)
      ensures IsGrandparents(version, level, inputs0, inputs1, grandparents)
    {
      hide ValidFiles, Disjoint, DistinctNumbers, Seed, GoodInputs, IsLargestKey, IsGrandparents, BoundaryClosure, ClosedSelection, NextLevelCount;
      var selected0, selected1, overlapping2, pointer, own0, larger0 := SelectInputs(version, level, inputs0, expandedCompactionByteSizeLimit);
      inputs0, inputs1, grandparents, compactPointer, own, larger := selected0, selected1, overlapping2, pointer, own0, larger0;
    }
  }

  /** SetupOtherInputs on values: own is the selection closed under boundary files, larger the closed selection over
      the range of all inputs. */
  method SelectInputs(v: Version, level: nat, sel: seq<File>, expandedCompactionByteSizeLimit: nat)
    returns (inputs0: seq<File>, inputs1: seq<File>, grandparents: seq<File>, pointer: InternalKey,
             ghost own: seq<File>, ghost larger: seq<File>)
    requires WellFormed(v) && level + 1 < NUM_LEVELS && Seed(level, v.files[level], sel)
    ensures GoodInputs(v, level, inputs0, inputs1)
    ensures BoundaryClosure(v.files[level], sel, own) && GoodInputs(v, level, own, inputs1)
    ensures inputs1 != [] ==> ClosedSelection(v.files[level], level, own + inputs1, larger)
    ensures inputs0 == if inputs1 != [] && |larger| > |own| && TotalFileSize(inputs1) + TotalFileSize(larger) < expandedCompactionByteSizeLimit
                          && NextLevelCount(v, level, larger, |inputs1|) then larger else own
    ensures forall f :: f in sel ==> f in inputs0
    ensures IsLargestKey(inputs0, pointer)
    ensures IsGrandparents(v, level, inputs0, inputs1, grandparents)
  {
    hide ValidFiles, Disjoint, DistinctNumbers, Seed, BoundaryFree, IsRun, IsSmallestKey, IsLargestKey, GoodInputs, IsGrandparents,
         BoundaryClosure, ClosedSelection, NextLevelCount;
    var smallest, largest;
    inputs0, smallest, largest := CloseInputs(v, level, sel);
    own, larger := inputs0, [];
    inputs1, grandparents, pointer := [], [], largest;
    var overlapping1, _, _ := GetOverlappingInputs(v, level + 1, Some(smallest.user), Some(largest.user));
    inputs1 := overlapping1;
    InputsAreGood(v, level, inputs0, inputs1, smallest, largest);
    if inputs1 != [] {
      var expanded0, largest0, closed := ExpandInputs(v, level, inputs0, inputs1, smallest, largest, expandedCompactionByteSizeLimit);
      inputs0, pointer, larger := expanded0, largest0, closed;
    }
    assert inputs0 != [] by {
      SeedNotEmpty(v, level, inputs0, inputs1);
    }
    grandparents := PickGrandparents(v, level, inputs0, inputs1);
  }

  lemma SeedNotEmpty(v: Version, level: nat, inputs0: seq<File>, inputs1: seq<File>)
    requires WellFormed(v) && GoodInputs(v, level, inputs0, inputs1)
    ensures inputs0 != []
  {
  }

  method PickGrandparents(v: Version, level: nat, inputs0: seq<File>, inputs1: seq<File>) returns (grandparents: seq<File>)
    requires WellFormed(v) && inputs0 != []
    ensures IsGrandparents(v, level, inputs0, inputs1, grandparents)
  {
    hide IsSmallestKey, IsLargestKey, Overlapping, Overlaps;
    grandparents := [];
    if level + 2 < NUM_LEVELS {
      var allStart, allLimit := GetRange(inputs0 + inputs1);
      var overlapping2, _, _ := GetOverlappingInputs(v, level + 2, Some(allStart.user), Some(allLimit.user));
      grandparents := overlapping2;
    }
  }

  /** The level + 2 files that overlap the whole compaction. */
  ghost predicate IsGrandparents(v: Version, level: nat, inputs0: seq<File>, inputs1: seq<File>, grandparents: seq<File>)
    requires WellFormed(v)
  {
    if level + 2 < 7 then exists start, limit ::
      && IsSmallestKey(inputs0 + inputs1, start) && IsLargestKey(inputs0 + inputs1, limit)
      && grandparents == Overlapping(v.files[level + 2], Some(start.user), Some(limit.user))
    else grandparents == []
  }

  /** The first step of SetupOtherInputs: add boundary files and take the range. */
  method CloseInputs(v: Version, level: nat, sel: seq<File>) returns (closed: seq<File>, smallest: InternalKey, largest: InternalKey)
    requires WellFormed(v) && level + 1 < NUM_LEVELS && Seed(level, v.files[level], sel)
    ensures Seed(level, v.files[level], closed) && BoundaryFree(v.files[level], closed)
    ensures BoundaryClosure(v.files[level], sel, closed)
    ensures forall f :: f in sel ==> f in closed
    ensures IsSmallestKey(closed, smallest) && IsLargestKey(closed, largest)
  {
    closed := AddBoundaryInputs(v.files[level], sel);
    BoundaryKeepsSeed(level, v.files[level], sel, closed);
    smallest, largest := GetRange(closed);
  }

  lemma InputsAreGood(v: Version, level: nat, inputs0: seq<File>, inputs1: seq<File>, smallest: InternalKey, largest: InternalKey)
    requires WellFormed(v) && level + 1 < NUM_LEVELS
    requires Seed(level, v.files[level], inputs0) && BoundaryFree(v.files[level], inputs0)
    requires IsSmallestKey(inputs0, smallest) && IsLargestKey(inputs0, largest)
    requires inputs1 == Overlapping(v.files[level + 1], Some(smallest.user), Some(largest.user))
    ensures GoodInputs(v, level, inputs0, inputs1)
  {
  }

  /** The expansion step of SetupOtherInputs: more of the level's files when the next level's set stays the
      same.  Equal counts are enough to know that it does. */
  method ExpandInputs(v: Version, level: nat, inputs0: seq<File>, inputs1: seq<File>, smallest: InternalKey, largest: InternalKey,
                      expandedCompactionByteSizeLimit: nat)
    returns (expanded0: seq<File>, pointer: InternalKey, ghost closed: seq<File>)
    requires WellFormed(v) && GoodInputs(v, level, inputs0, inputs1)
    requires IsSmallestKey(inputs0, smallest) && IsLargestKey(inputs0, largest)
    requires inputs1 == Overlapping(v.files[level + 1], Some(smallest.user), Some(largest.user))
    ensures GoodInputs(v, level, expanded0, inputs1)
    ensures forall f :: f in inputs0 ==> f in expanded0
    ensures IsLargestKey(expanded0, pointer)
    ensures ClosedSelection(v.files[level], level, inputs0 + inputs1, closed)
    ensures expanded0 == if |closed| > |inputs0| && TotalFileSize(inputs1) + TotalFileSize(closed) < expandedCompactionByteSizeLimit
                            && NextLevelCount(v, level, closed, |inputs1|) then closed else inputs0
  {
    hide ValidFiles, Disjoint, DistinctNumbers, BoundaryFree, IsRun, IsLargestKey, IsSmallestKey, NextLevelCount, BoundaryClosure,
         ClosedRange, BelowClosedRanges;
    var allStart, allLimit := GetRange(inputs0 + inputs1);
    var unbounded, lo, hi := GetOverlappingInputs(v, level, Some(allStart.user), Some(allLimit.user));
    SeedMembers(level, v.files[level], inputs0);
    ExpansionContains(v.files[level], inputs0, inputs1, lo, hi, allStart, allLimit);
    assert inputs0[0] in unbounded;
    OverlappingIsSeed(v, level, lo, hi);
    var larger, newStart, newLimit := CloseInputs(v, level, unbounded);
    closed := larger;
    assert SelectedOver(v.files[level], level, inputs0 + inputs1, closed, allStart, allLimit, lo, hi);
    NewRange(v, level, closed, |inputs1|, newStart, newLimit);
    expanded0, pointer := inputs0, largest;
    if |larger| > |inputs0| && TotalFileSize(inputs1) + TotalFileSize(larger) < expandedCompactionByteSizeLimit {
      var expanded1, _, _ := GetOverlappingInputs(v, level + 1, Some(newStart.user), Some(newLimit.user));
      RangeGrows(inputs0, larger, smallest, largest, newStart, newLimit);
      EqualCountsSameFiles(v.files[level + 1], Some(smallest.user), Some(largest.user), Some(newStart.user), Some(newLimit.user));
      if |expanded1| == |inputs1| {
        InputsAreGood(v, level, larger, inputs1, newStart, newLimit);
        expanded0, pointer := larger, newLimit;
      }
    }
  }

  /** The range a search of the level ends with: the asked one, or at level 0 the least closed one around it. */
  ghost predicate SearchedRange(fs: seq<File>, level: nat, begin: UserKey, end: UserKey, lo: Option<UserKey>, hi: Option<UserKey>) {
    if level > 0 then lo == Some(begin) && hi == Some(end)
    else LeastClosed(fs, Some(begin), Some(end), lo, hi)
  }

  ghost predicate SelectedOver(fs: seq<File>, level: nat, of: seq<File>, sel: seq<File>, start: InternalKey, limit: InternalKey,
                               lo: Option<UserKey>, hi: Option<UserKey>) {
    && IsSmallestKey(of, start) && IsLargestKey(of, limit) && SearchedRange(fs, level, start.user, limit.user, lo, hi)
    && BoundaryClosure(fs, Overlapping(fs, lo, hi), sel)
  }

  /** The level's files over the whole range of these files, closed under boundary files. */
  ghost predicate ClosedSelection(fs: seq<File>, level: nat, of: seq<File>, sel: seq<File>) {
    exists start, limit, lo, hi :: SelectedOver(fs, level, of, sel, start, limit, lo, hi)
  }

  /** How many files of the next level the range of the selection overlaps. */
  ghost predicate NextLevelCount(v: Version, level: nat, sel: seq<File>, count: nat)
    requires level + 1 < |v.files|
  {
    forall lo, hi :: IsSmallestKey(sel, lo) && IsLargestKey(sel, hi) ==>
      |Overlapping(v.files[level + 1], Some(lo.user), Some(hi.user))| == count
  }

  lemma NewRange(v: Version, level: nat, sel: seq<File>, count: nat, lo: InternalKey, hi: InternalKey)
    requires level + 1 < |v.files| && IsSmallestKey(sel, lo) && IsLargestKey(sel, hi)
    ensures NextLevelCount(v, level, sel, count) <==> |Overlapping(v.files[level + 1], Some(lo.user), Some(hi.user))| == count
  {
    forall lo2, hi2 | IsSmallestKey(sel, lo2) && IsLargestKey(sel, hi2)
      ensures lo2 == lo && hi2 == hi
    {
      AtMostAntisymmetric(lo, lo2);
      AtMostAntisymmetric(hi, hi2);
    }
  }

  lemma RangeGrows(fs: seq<File>, gs: seq<File>, lo: InternalKey, hi: InternalKey, lo2: InternalKey, hi2: InternalKey)
    requires IsSmallestKey(fs, lo) && IsLargestKey(fs, hi) && IsSmallestKey(gs, lo2) && IsLargestKey(gs, hi2)
    requires forall f :: f in fs ==> f in gs
    ensures lo2.user <= lo.user && hi.user <= hi2.user
  {
  }

  /** Boundary files extend a seed to a seed. */
  lemma BoundaryKeepsSeed(level: nat, fs: seq<File>, sel: seq<File>, r: seq<File>)
    requires ValidFiles(fs) && (level > 0 ==> Disjoint(fs)) && Seed(level, fs, sel) && sel <= r
    requires Disjoint(fs) && IsRun(fs, sel) ==> IsRun(fs, r)
    requires BoundaryFree(fs, sel) ==> r == sel
    ensures Seed(level, fs, r)
  {
    if level == 0 {
      var lo, hi :| ClosedRange(fs, lo, hi) && sel == Overlapping(fs, lo, hi);
      ClosedIsBoundaryFree(fs, lo, hi);
    }
  }

  lemma OverlappingIsSeed(v: Version, level: nat, lo: Option<UserKey>, hi: Option<UserKey>)
    requires WellFormed(v) && level < NUM_LEVELS
    requires level == 0 ==> ClosedRange(v.files[0], lo, hi)
    ensures Overlapping(v.files[level], lo, hi) != [] ==> Seed(level, v.files[level], Overlapping(v.files[level], lo, hi))
  {
    var fs := v.files[level];
    if level > 0 {
      OverlappingIsRun(fs, |fs|, lo, hi);
      assert fs[..|fs|] == fs;
    }
  }

  lemma SeedMembers(level: nat, fs: seq<File>, sel: seq<File>)
    requires Seed(level, fs, sel)
    ensures forall f :: f in sel ==> f in fs
  {
    if level == 0 {
      var lo, hi :| ClosedRange(fs, lo, hi) && sel == Overlapping(fs, lo, hi);
      OverlappingMembers(fs, lo, hi);
    } else {
      var a, b :| RunAt(fs, sel, a, b);
    }
  }

  /** Every input overlaps the range of all the inputs, so the expanded set contains them. */
  lemma ExpansionContains(fs: seq<File>, inputs0: seq<File>, inputs1: seq<File>, lo: Option<UserKey>, hi: Option<UserKey>,
                          allStart: InternalKey, allLimit: InternalKey)
    requires ValidFiles(fs) && forall f :: f in inputs0 ==> f in fs
    requires IsSmallestKey(inputs0 + inputs1, allStart) && IsLargestKey(inputs0 + inputs1, allLimit)
    requires Covers(lo, hi, Some(allStart.user), Some(allLimit.user))
    ensures forall f :: f in inputs0 ==> f in Overlapping(fs, lo, hi)
  {
    OverlappingMembers(fs, lo, hi);
    FileBoundsAll(fs);
    forall f | f in inputs0
      ensures f in Overlapping(fs, lo, hi)
    {
      assert f in inputs0 + inputs1;
    }
  }

  // ----- Where a compaction starts -----

  ghost predicate PastPointer(f: File, compactPointer: Option<InternalKey>) {
    compactPointer.None? || Less(compactPointer.value, f.largest)
  }

  /** The picked file is the first past the pointer, or the level's first when none is past it. */
  ghost predicate PickedAt(fs: seq<File>, compactPointer: Option<InternalKey>, i: int, picked: File) {
    && 0 <= i < |fs| && picked == fs[i]
    && (forall j :: 0 <= j < i ==> !PastPointer(fs[j], compactPointer))
    && (PastPointer(picked, compactPointer) || (i == 0 && forall f :: f in fs ==> !PastPointer(f, compactPointer)))
  }

  /** PickCompaction's choice in a level that is due: the first file past the level's compact pointer, or the
      first file of the level; at level 0 with everything that overlaps it. */
  method PickSeed(v: Version, level: nat, compactPointer: Option<InternalKey>) returns (seed: seq<File>, picked: File)
    requires WellFormed(v) && level < NUM_LEVELS && v.files[level] != []
    ensures Seed(level, v.files[level], seed) && picked in seed
    ensures if level > 0 then seed == [picked]
            else exists lo, hi :: SearchedRange(v.files[0], 0, picked.smallest.user, picked.largest.user, lo, hi) && seed == Overlapping(v.files[0], lo, hi)
    ensures exists i :: PickedAt(v.files[level], compactPointer, i, picked)
  {
    hide ValidFile;
    var files := v.files[level];
    var i := 0;
    while i < |files| && !(compactPointer.None? || Less(compactPointer.value, files[i].largest))
      invariant i <= |files|
      invariant forall j :: 0 <= j < i ==> !PastPointer(files[j], compactPointer)
    {
      i := i + 1;
    }
    if i == |files| {
      i := 0;
    }
    picked := files[i];
    assert PickedAt(files, compactPointer, i, picked);
    seed := [picked];
    FileBoundsAll(files);
    if level == 0 {
      var overlapping, lo, hi := GetOverlappingInputs(v, 0, Some(picked.smallest.user), Some(picked.largest.user));
      OverlappingMembers(files, lo, hi);
      OverlappingIsSeed(v, 0, lo, hi);
      assert picked in overlapping;
      assert SearchedRange(files, 0, picked.smallest.user, picked.largest.user, lo, hi);
      seed := overlapping;
    } else {
      assert RunAt(files, seed, i, i + 1);
    }
  }

  /** CompactRange's choice: the files overlapping the requested range, at sorted levels cut to a prefix once
      they reach the size limit. */
  method RangeSeed(v: Version, level: nat, begin: Option<UserKey>, end: Option<UserKey>, limit: nat) returns (seed: Option<seq<File>>)
    requires WellFormed(v) && level < NUM_LEVELS
    ensures seed.None? ==> forall f :: f in v.files[level] ==> !Overlaps(f, begin, end)
    ensures seed.Some? && level == 0 ==> exists lo, hi :: LeastClosed(v.files[0], begin, end, lo, hi) && seed.value == Overlapping(v.files[0], lo, hi)
    ensures seed.Some? ==> Seed(level, v.files[level], seed.value)
    ensures seed.Some? && level > 0 ==> ShortestPrefix(Overlapping(v.files[level], begin, end), seed.value, limit)
  {
    var inputs, lo, hi := GetOverlappingInputs(v, level, begin, end);
    OverlappingMembers(v.files[level], lo, hi);
    if inputs == [] {
      return None;
    }
    OverlappingIsSeed(v, level, lo, hi);
    if level == 0 {
      assert LeastClosed(v.files[0], begin, end, lo, hi);
      return Some(inputs);
    }
    var n := PrefixToLimit(inputs, limit);
    RunPrefix(v.files[level], inputs, n);
    return Some(inputs[..n]);
  }

  /** Avoid compacting too much in one shot. */
  method PrefixToLimit(inputs: seq<File>, limit: nat) returns (n: nat)
    requires inputs != []
    ensures 0 < n <= |inputs| && ShortestPrefix(inputs, inputs[..n], limit)
  {
    var total, i := 0, 0;
    while i < |inputs|
      invariant i <= |inputs| && total == TotalFileSize(inputs[..i])
      invariant forall j :: 0 < j <= i ==> TotalFileSize(inputs[..j]) < limit
    {
      TotalSnoc(inputs[..i], inputs[i]);
      assert inputs[..i + 1] == inputs[..i] + [inputs[i]];
      total := total + inputs[i].size;
      i := i + 1;
      if total >= limit {
        return i;
      }
    }
    assert inputs[..i] == inputs;
    return i;
  }

  /** The fewest files, but at least one, that reach the limit; all of them if none do. */
  ghost predicate ShortestPrefix(all: seq<File>, prefix: seq<File>, limit: nat) {
    && prefix != [] && prefix <= all
    && (prefix == all || TotalFileSize(prefix) >= limit)
    && forall j :: 0 < j < |prefix| ==> TotalFileSize(all[..j]) < limit
  }

  lemma {:induction false} TotalSnoc(fs: seq<File>, f: File)
    ensures TotalFileSize(fs + [f]) == TotalFileSize(fs) + f.size
  {
    if fs != [] {
      TotalSnoc(fs[1..], f);
      assert (fs + [f])[1..] == fs[1..] + [f];
    }
  }

  /** The least closed range around the asked one. */
  ghost predicate LeastClosed(fs: seq<File>, begin: Option<UserKey>, end: Option<UserKey>, lo: Option<UserKey>, hi: Option<UserKey>) {
    Covers(lo, hi, begin, end) && ClosedRange(fs, lo, hi) && BelowClosedRanges(fs, begin, end, lo, hi)
  }

  lemma RunPrefix(fs: seq<File>, sel: seq<File>, n: nat)
    requires IsRun(fs, sel) && 0 < n <= |sel|
    ensures IsRun(fs, sel[..n])
  {
    var a, b :| RunAt(fs, sel, a, b);
    assert RunAt(fs, sel[..n], a, a + n);
  }
}
