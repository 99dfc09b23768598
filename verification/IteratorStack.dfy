/** The iterator stack as a whole: each of its cursors, driven by any list of calls, stands where a plain cursor over
    one sorted run stands, so each may take the place of a plain cursor in the one above it.  The merged inputs of a
    compaction are the run its work loop asks for. */
module IteratorStack {
  import opened InternalKeys
  import opened Versions
  import opened CompactionInputs
  import opened Compactions
  import opened CompactionWork
  import opened LevelEdits
  import opened LevelOrder
  import opened SortedRuns
  import opened Cursors
  import opened Merger
  import opened Tables
  import opened TwoLevelIterators

  // ----- The merging iterator -----

  /** The iterator shows position p of the union: that entry, or nothing at its end. */
  ghost predicate Shows(it: MergingIterator, union: seq<Entry>, p: nat)
    requires it.Valid()
    reads it, it.children
  {
    && p <= |union| && it.Positioned() && (it.current.None? <==> p == |union|)
    && (it.current.Some? ==> it.children[it.current.value].Current() == union[p])
  }

  /** The union's entries are the children's, each once, in order. */
  ghost predicate IsUnion(children: seq<Cursor>, union: seq<Entry>) {
    && Sorted(union) && Distinct(children)
    && (forall i, a :: 0 <= i < |children| && 0 <= a < |children[i].entries| ==> children[i].entries[a] in union)
    && (forall e :: e in union ==> InUnion(children, e.key))
  }

  /** The current entry's position in the union. */
  lemma PositionOf(it: MergingIterator, union: seq<Entry>) returns (p: nat)
    requires it.Valid() && it.current.Some? && IsUnion(it.children, union)
    ensures p < |union| && union[p] == it.children[it.current.value].Current()
  {
    hide Sorted, Distinct;
    var c := it.children[it.current.value];
    assert c.entries[c.pos] in union;
    p :| 0 <= p < |union| && union[p] == c.Current();
  }

  /** Standing on the least key from position q of the union on means showing position q. */
  lemma LandedFrom(it: MergingIterator, union: seq<Entry>, q: nat)
    requires it.Valid() && it.Positioned() && IsUnion(it.children, union) && q <= |union|
    requires it.current.Some? ==> forall i :: 0 <= i < q ==> union[i].key != it.Key()
    requires forall k :: InUnion(it.children, k) && (forall i :: 0 <= i < q ==> Less(union[i].key, k)) ==> it.current.Some? && !Less(k, it.Key())
    ensures Shows(it, union, q)
  {
    hide Less, Sorted, Distinct, InUnion, AtOrAfter, Before;
    UnionKeys(it, union);
    if q < |union| {
      Around(union, q);
      assert InUnion(it.children, union[q].key);
    }
    if it.current.Some? {
      var p := PositionOf(it, union);
      Around(union, p);
    }
  }

  /** Standing on the greatest key before position q means showing the position before q. */
  lemma LandedBefore(it: MergingIterator, union: seq<Entry>, q: nat)
    requires it.Valid() && it.Positioned() && IsUnion(it.children, union) && q <= |union|
    requires it.current.Some? ==> forall i :: q <= i < |union| ==> union[i].key != it.Key()
    requires forall k :: InUnion(it.children, k) && (forall i :: q <= i < |union| ==> Less(k, union[i].key)) ==> it.current.Some? && !Less(it.Key(), k)
    ensures Shows(it, union, if q == 0 then |union| else q - 1)
  {
    hide Less, Sorted, Distinct, InUnion, AtOrAfter, Before;
    UnionKeys(it, union);
    if q > 0 {
      Around(union, q - 1);
      assert InUnion(it.children, union[q - 1].key);
    }
    if it.current.Some? {
      var p := PositionOf(it, union);
      Around(union, p);
    }
  }

  lemma UnionKeys(it: MergingIterator, union: seq<Entry>)
    requires it.Valid() && IsUnion(it.children, union)
    ensures Distinct(it.children) && forall i :: 0 <= i < |union| ==> InUnion(it.children, union[i].key)
  {
    hide Sorted, Distinct, InUnion;
    assert forall i :: 0 <= i < |union| ==> union[i] in union;
  }

  /** Sorted keys around position p. */
  lemma Around(union: seq<Entry>, p: nat)
    requires Sorted(union) && p < |union|
    ensures forall i :: 0 <= i < p ==> Less(union[i].key, union[p].key)
    ensures forall i :: p < i < |union| ==> Less(union[p].key, union[i].key)
    ensures forall i :: 0 <= i < |union| && union[i].key == union[p].key ==> i == p
  {
  }

  lemma SoughtKeys(it: MergingIterator, union: seq<Entry>, target: InternalKey)
    requires it.Valid() && IsUnion(it.children, union)
    ensures forall i :: 0 <= i < FirstFrom(union, target) ==> Less(union[i].key, target)
    ensures forall k :: InUnion(it.children, k) && (forall i :: 0 <= i < FirstFrom(union, target) ==> Less(union[i].key, k)) ==> !Less(k, target)
  {
    hide Sorted, Distinct;
    FirstFromSplits(union, target);
    forall k | InUnion(it.children, k) && (forall i :: 0 <= i < FirstFrom(union, target) ==> Less(union[i].key, k))
      ensures !Less(k, target)
    {
      var i, a :| 0 <= i < |it.children| && 0 <= a < |it.children[i].entries| && it.children[i].entries[a].key == k;
      var j :| 0 <= j < |union| && union[j] == it.children[i].entries[a];
    }
  }

  /** One call on the merging iterator moves it as a plain cursor over the union moves. */
  method CallMerging(it: MergingIterator, move: Move, ghost union: seq<Entry>, ghost p: nat)
    requires it.Valid() && IsUnion(it.children, union) && Shows(it, union, p)
    modifies it, it.children
    ensures it.Valid() && Shows(it, union, Stepped(union, p, move))
  {
    hide Sorted, Distinct, InUnion, AtOrAfter, Before;
    UnionKeys(it, union);
    match move {
      case ToFirst =>
        it.SeekToFirst();
        LandedFrom(it, union, 0);
      case ToLast =>
        it.SeekToLast();
        LandedBefore(it, union, |union|);
      case To(target) =>
        it.Seek(target);
        SoughtKeys(it, union, target);
        LandedFrom(it, union, FirstFrom(union, target));
      case Onward =>
        if it.current.Some? {
          Around(union, p);
          it.Next();
            LandedFrom(it, union, p + 1);
        }
      case Back =>
        if it.current.Some? {
          Around(union, p);
          it.Prev();
            LandedBefore(it, union, p);
        }
    }
  }

  /** After any list of calls on a fresh merging iterator over sorted children with distinct keys, with any changes of
      direction, it is valid exactly when a plain cursor over their sorted union is, and shows the same entry. */
  method DriveMerging(runs: seq<seq<Entry>>, moves: seq<Move>) returns (it: MergingIterator)
    requires SortedEach(runs) && DistinctRuns(runs)
    ensures fresh(it) && it.Valid() && Sorted(Union(runs))
    ensures forall e :: e in Union(runs) <==> exists i :: 0 <= i < |runs| && e in runs[i]
    ensures var p := SteppedAll(Union(runs), moves);
      && (it.current.Some? <==> p < |Union(runs)|)
      && (it.current.Some? ==> it.children[it.current.value].Current() == Union(runs)[p])
  {
    hide Sorted, DistinctRuns, Union, IsUnion;
    it := OpenMerging(runs);
    UnionKeeps(runs);
    ghost var union := Union(runs);
    for k := 0 to |moves|
      invariant fresh(it) && (forall c :: 0 <= c < |it.children| ==> fresh(it.children[c])) && it.Valid() && IsUnion(it.children, union)
      invariant Shows(it, union, SteppedAll(union, moves[..k]))
    {
      assert moves[..k + 1][..k] == moves[..k];
      CallMerging(it, moves[k], union, SteppedAll(union, moves[..k]));
    }
    assert moves[..|moves|] == moves;
  }

  /** A merging iterator over a fresh cursor for each run. */
  method OpenMerging(runs: seq<seq<Entry>>) returns (it: MergingIterator)
    requires SortedEach(runs) && DistinctRuns(runs)
    ensures fresh(it) && it.Valid() && (forall c :: 0 <= c < |it.children| ==> fresh(it.children[c]))
    ensures |it.children| == |runs| && forall i :: 0 <= i < |runs| ==> it.children[i].entries == runs[i]
    ensures IsUnion(it.children, Union(runs)) && Shows(it, Union(runs), |Union(runs)|)
  {
    hide Sorted, DistinctRuns, Union, IsUnion, Distinct, AtOrAfter, Before, InUnion;
    var children: seq<Cursor> := [];
    for i := 0 to |runs|
      invariant |children| == i && forall j :: 0 <= j < i ==>
        fresh(children[j]) && children[j].entries == runs[j] && children[j].Valid() && !children[j].IsValid()
      invariant forall j, k :: 0 <= j < k < i ==> children[j] != children[k]
    {
      var c := new Cursor(runs[i]);
      children := children + [c];
    }
    it := new MergingIterator(children);
    UnionOfRuns(children, runs);
  }

  lemma UnionOfRuns(children: seq<Cursor>, runs: seq<seq<Entry>>)
    requires SortedEach(runs) && DistinctRuns(runs) && |children| == |runs|
    requires forall i :: 0 <= i < |runs| ==> children[i].entries == runs[i]
    ensures IsUnion(children, Union(runs))
  {
    hide Sorted, Union;
    UnionKeeps(runs);
    forall e | e in Union(runs)
      ensures InUnion(children, e.key)
    {
      var i :| 0 <= i < |runs| && e in runs[i];
      var a :| 0 <= a < |runs[i]| && runs[i][a] == e;
      assert children[i].entries[a].key == e.key;
    }
  }

  // ----- The two-level iterator -----

  /** One call on the two-level iterator moves it as a plain cursor over the concatenated blocks moves. */
  method CallTwoLevel(it: TwoLevelIterator, move: Move)
    requires it.Valid()
    modifies it`data, it`handle, it`indexPos, it.data
    ensures it.Valid() && old(it.Pos()) <= |Concat(it.parts)| && it.Pos() == Stepped(Concat(it.parts), old(it.Pos()), move)
    ensures it.IsValid() <==> it.Pos() < |Concat(it.parts)|
    ensures it.IsValid() ==> it.data.Current() == Concat(it.parts)[it.Pos()]
    ensures it.data == old(it.data) || it.data == null || fresh(it.data)
  {
    hide Concat, Searchable;
    it.ShowsPosition();
    it.WithinTable();
    match move {
      case ToFirst => it.SeekToFirst();
      case ToLast => it.SeekToLast();
      case To(target) =>
        it.Seek(target);
        FirstFromIs(Concat(it.parts), target, it.Pos());
      case Onward => if it.IsValid() { it.Next(); }
      case Back => if it.IsValid() { it.Prev(); }
    }
    it.ShowsPosition();
  }

  /** After any list of calls, across any blocks and empty ones, the same as a plain cursor over the whole table. */
  method DriveTwoLevel(index: seq<IndexEntry>, blocks: map<nat, seq<Entry>>, ghost parts: seq<seq<Entry>>, moves: seq<Move>)
    returns (it: TwoLevelIterator)
    requires Searchable(index, blocks, parts)
    ensures fresh(it) && it.Valid() && it.parts == parts
    ensures var p := SteppedAll(Concat(parts), moves);
      && (it.IsValid() <==> p < |Concat(parts)|)
      && (it.IsValid() ==> it.data.Current() == Concat(parts)[p])
  {
    hide Concat, Searchable;
    it := new TwoLevelIterator(index, blocks, parts);
    it.ShowsPosition();
    it.WithinTable();
    for k := 0 to |moves|
      invariant fresh(it) && (it.data == null || fresh(it.data)) && it.Valid() && it.parts == parts
      invariant it.Pos() == SteppedAll(Concat(parts), moves[..k])
    {
      assert moves[..k + 1][..k] == moves[..k];
      CallTwoLevel(it, moves[k]);
    }
    assert moves[..|moves|] == moves;
    it.ShowsPosition();
  }

  // ----- The inputs of a compaction -----

  function Joined(fs: seq<File>): seq<Entry> {
    if fs == [] then [] else Joined(fs[..|fs| - 1]) + fs[|fs| - 1].entries
  }

  lemma {:induction false} JoinedMembers(fs: seq<File>)
    ensures forall e :: e in Joined(fs) <==> exists i :: 0 <= i < |fs| && e in fs[i].entries
  {
    if fs != [] {
      var n := |fs| - 1;
      JoinedMembers(fs[..n]);
      forall e
        ensures e in Joined(fs) <==> exists i :: 0 <= i < |fs| && e in fs[i].entries
      {
        if i :| 0 <= i < n && e in fs[i].entries {
          assert e in fs[..n][i].entries;
        }
        if i :| 0 <= i < n && e in fs[..n][i].entries {
          assert e in fs[i].entries;
        }
      }
    }
  }

  lemma {:induction false} JoinedSorted(fs: seq<File>)
    requires ValidFiles(fs) && Disjoint(fs)
    ensures Sorted(Joined(fs))
  {
    hide Sorted, Less;
    if fs == [] {
      NothingSorted();
    } else {
      var n := |fs| - 1;
      JoinedSorted(fs[..n]);
      JoinedBefore(fs, n);
      assert ValidFile(fs[n]);
      SortedJoin(Joined(fs[..n]), fs[n].entries);
    }
  }

  lemma JoinedBefore(fs: seq<File>, n: nat)
    requires ValidFiles(fs) && Disjoint(fs) && n < |fs|
    ensures forall x, y :: x in Joined(fs[..n]) && y in fs[n].entries ==> Less(x.key, y.key)
  {
    hide Sorted, Less, Joined, ValidFiles, Disjoint;
    JoinedMembers(fs[..n]);
    forall x, y | x in Joined(fs[..n]) && y in fs[n].entries
      ensures Less(x.key, y.key)
    {
      var i :| 0 <= i < n && x in fs[..n][i].entries;
      EarlierFile(fs, i, n, x, y);
    }
  }

  lemma JoinedKeeps(fs: seq<File>)
    requires ValidFiles(fs) && Disjoint(fs)
    ensures Sorted(Joined(fs)) && Entries(Joined(fs)) == FilesData(fs)
  {
    hide Sorted, Joined, ValidFiles, Disjoint;
    JoinedSorted(fs);
    JoinedMembers(fs);
    forall e
      ensures e in Entries(Joined(fs)) <==> e in FilesData(fs)
    {
      if i :| 0 <= i < |fs| && e in fs[i].entries {
        assert fs[i] in fs;
      }
      if f :| f in fs && e in f.entries {
        var i :| 0 <= i < |fs| && fs[i] == f;
      }
    }
  }

  lemma EarlierFile(fs: seq<File>, i: nat, j: nat, x: Entry, y: Entry)
    requires ValidFiles(fs) && Disjoint(fs) && i < j < |fs| && x in fs[i].entries && y in fs[j].entries
    ensures Less(x.key, y.key)
  {
    hide Sorted;
    EntriesWithinFile(fs[i], x);
    EntriesWithinFile(fs[j], y);
  }

  lemma SortedJoin(a: seq<Entry>, b: seq<Entry>)
    requires Sorted(a) && Sorted(b) && forall x, y :: x in a && y in b ==> Less(x.key, y.key)
    ensures Sorted(a + b)
  {
    hide Less;
  }

  /** MakeInputIterator's children: one for each level-0 file, one for all the files of a deeper level. */
  function InputRuns(level: nat, inputs: seq<File>): seq<seq<Entry>> {
    if inputs == [] then [] else if level == 0 then LevelOrder.Tables(inputs) else [Joined(inputs)]
  }

  /** The runs of a level's inputs hold exactly the inputs' entries, each run in order. */
  lemma InputRunsHold(level: nat, inputs: seq<File>)
    requires ValidFiles(inputs) && (level > 0 ==> Disjoint(inputs))
    ensures SortedEach(InputRuns(level, inputs))
    ensures forall e :: e in FilesData(inputs) <==> exists i :: 0 <= i < |InputRuns(level, inputs)| && e in InputRuns(level, inputs)[i]
  {
    hide Sorted, Joined, FilesData;
    var runs := InputRuns(level, inputs);
    if inputs == [] {
      assert FilesData(inputs) == {} by { NoFiles(); }
    } else if level == 0 {
      TablesData(inputs);
      forall i | 0 <= i < |inputs|
        ensures Sorted(runs[i])
      {
        assert ValidFile(inputs[i]);
      }
    } else {
      JoinedKeeps(inputs);
      assert runs[0] == Joined(inputs);
      assert forall e :: e in Joined(inputs) <==> e in Entries(Joined(inputs));
    }
  }

  lemma NoFiles()
    ensures FilesData([]) == {}
  {
  }

  lemma RunFiles(fs: seq<File>, sel: seq<File>)
    requires ValidFiles(fs) && Disjoint(fs) && (sel == [] || IsRun(fs, sel))
    ensures ValidFiles(sel) && Disjoint(sel)
  {
    hide ValidFile;
    if sel != [] {
      var a, b :| RunAt(fs, sel, a, b);
      assert forall k :: 0 <= k < |sel| ==> sel[k] == fs[a + k];
    }
  }

  lemma {:induction false} OverlappingFiles(fs: seq<File>, lo: Option<UserKey>, hi: Option<UserKey>)
    requires ValidFiles(fs) && DistinctNumbers(fs)
    ensures ValidFiles(Overlapping(fs, lo, hi)) && DistinctNumbers(Overlapping(fs, lo, hi))
  {
    hide ValidFile;
    if fs != [] {
      var rest := Overlapping(fs[1..], lo, hi);
      OverlappingFiles(fs[1..], lo, hi);
      OverlappingMembers(fs[1..], lo, hi);
      forall i | 0 <= i < |rest|
        ensures fs[0].number != rest[i].number
      {
        assert rest[i] in fs[1..];
      }
    }
  }

  /** Both input sets in the form their iterators need. */
  lemma InputFiles(v: Version, level: nat, inputs0: seq<File>, inputs1: seq<File>)
    requires WellFormed(v) && GoodInputs(v, level, inputs0, inputs1)
    ensures ValidFiles(inputs0) && (level > 0 ==> Disjoint(inputs0)) && (level == 0 ==> DistinctNumbers(inputs0))
    ensures ValidFiles(inputs1) && Disjoint(inputs1)
  {
    hide ValidFile, WellFormed, BoundaryFree, IsSmallestKey, IsLargestKey;
    LevelCount(v);
    LevelsValid(v, level + 1);
    var lo, hi := InputRange(v, level, inputs0, inputs1);
    var fs := v.files[level + 1];
    OverlappingIsRun(fs, |fs|, Some(lo.user), Some(hi.user));
    assert fs[..|fs|] == fs;
    RunFiles(fs, inputs1);
    UpperInputFiles(v, level, inputs0);
  }

  lemma UpperInputFiles(v: Version, level: nat, inputs0: seq<File>)
    requires WellFormed(v) && level < NUM_LEVELS && Seed(level, v.files[level], inputs0)
    ensures ValidFiles(inputs0) && (level > 0 ==> Disjoint(inputs0)) && (level == 0 ==> DistinctNumbers(inputs0))
  {
    hide ValidFile, IsRun;
    if level == 0 {
      var lo, hi :| ClosedRange(v.files[0], lo, hi) && inputs0 == Overlapping(v.files[0], lo, hi);
      OverlappingFiles(v.files[0], lo, hi);
    } else {
      RunFiles(v.files[level], inputs0);
    }
  }

  /** Entries of one user key have different sequence numbers in different runs. */
  lemma InputRunsDistinct(v: Version, level: nat, inputs0: seq<File>, inputs1: seq<File>)
    requires WellFormed(v) && Aged(v) && GoodInputs(v, level, inputs0, inputs1)
    ensures SortedEach(InputRuns(level, inputs0) + InputRuns(level + 1, inputs1))
    ensures DistinctRuns(InputRuns(level, inputs0) + InputRuns(level + 1, inputs1))
  {
    hide WellFormed, GoodInputs, ValidFiles, Disjoint, Sorted, FilesData, Joined, Aged;
    LevelCount(v);
    GoodInputsMembers(v, level, inputs0, inputs1);
    InputFiles(v, level, inputs0, inputs1);
    InputRunsHold(level, inputs0);
    InputRunsHold(level + 1, inputs1);
    var upper, lower := InputRuns(level, inputs0), InputRuns(level + 1, inputs1);
    forall i, j, x: Entry, y: Entry | 0 <= i < j < |upper + lower| && x in (upper + lower)[i] && y in (upper + lower)[j]
      ensures x.key != y.key
    {
      if j < |upper| {
        Level0Distinct(v, inputs0, i, j, x, y);
      } else if i < |upper| {
        assert x in FilesData(inputs0) && y in FilesData(inputs1);
        LevelsDistinct(v, level, inputs0, inputs1, x, y);
      }
    }
  }

  lemma Level0Distinct(v: Version, inputs0: seq<File>, i: nat, j: nat, x: Entry, y: Entry)
    requires WellFormed(v) && Aged(v) && DistinctNumbers(inputs0) && forall f :: f in inputs0 ==> f in v.files[0]
    requires i < j < |inputs0| && x in inputs0[i].entries && y in inputs0[j].entries
    ensures x.key != y.key
  {
    hide WellFormed;
    var f, g := inputs0[i], inputs0[j];
    LevelCount(v);
    assert f in v.files[0] && g in v.files[0] && AgedLevel0(v.files[0]);
    OneFileData(f);
    OneFileData(g);
    assert f.number > g.number ==> NewerThan(FilesData([f]), FilesData([g]));
    assert g.number > f.number ==> NewerThan(FilesData([g]), FilesData([f]));
  }

  lemma LevelsDistinct(v: Version, level: nat, inputs0: seq<File>, inputs1: seq<File>, x: Entry, y: Entry)
    requires WellFormed(v) && Aged(v) && level + 1 < NUM_LEVELS
    requires forall f :: f in inputs0 ==> f in v.files[level]
    requires forall f :: f in inputs1 ==> f in v.files[level + 1]
    requires x in FilesData(inputs0) && y in FilesData(inputs1)
    ensures x.key != y.key
  {
    hide WellFormed, AgedLevel0;
    LevelCount(v);
    assert x in FilesData(v.files[level]) && y in FilesData(v.files[level + 1]);
    assert NewerThan(FilesData(v.files[level]), FilesData(v.files[level + 1]));
  }

  /** Iterating from the first entry to the last gives the union. */
  method ReadRuns(runs: seq<seq<Entry>>) returns (input: seq<Entry>)
    requires SortedEach(runs) && DistinctRuns(runs)
    ensures input == Union(runs)
  {
    hide Sorted, Union, IsUnion, DistinctRuns, SortedEach;
    var it := OpenMerging(runs);
    ghost var union := Union(runs);
    CallMerging(it, ToFirst, union, |union|);
    input := [];
    while it.current.Some?
      invariant fresh(it) && (forall c :: 0 <= c < |it.children| ==> fresh(it.children[c])) && it.Valid() && IsUnion(it.children, union)
      invariant |input| <= |union| && Shows(it, union, |input|) && input == union[..|input|]
      decreases |union| - |input|
    {
      var e := it.children[it.current.value].Current();
      ghost var p := |input|;
      assert union[..p + 1] == union[..p] + [e];
      input := input + [e];
      CallMerging(it, Onward, union, p);
    }
    assert union[..|union|] == union;
  }

  /** The merged inputs of a compaction, which its work loop passes over. */
  method ReadInputs(v: Version, level: nat, inputs0: seq<File>, inputs1: seq<File>) returns (input: seq<Entry>)
    requires WellFormed(v) && Aged(v) && GoodInputs(v, level, inputs0, inputs1)
    ensures Merged(inputs0, inputs1, input)
  {
    hide WellFormed, GoodInputs, Aged, Sorted, Union, InputRuns, DistinctRuns;
    InputRunsDistinct(v, level, inputs0, inputs1);
    input := ReadRuns(InputRuns(level, inputs0) + InputRuns(level + 1, inputs1));
    UnionIsMerged(v, level, inputs0, inputs1);
  }

  lemma UnionIsMerged(v: Version, level: nat, inputs0: seq<File>, inputs1: seq<File>)
    requires WellFormed(v) && Aged(v) && GoodInputs(v, level, inputs0, inputs1)
    ensures Merged(inputs0, inputs1, Union(InputRuns(level, inputs0) + InputRuns(level + 1, inputs1)))
  {
    hide WellFormed, GoodInputs, Aged, Sorted, Union, InputRuns, DistinctRuns, FilesData, ValidFiles, Disjoint;
    var upper, lower := InputRuns(level, inputs0), InputRuns(level + 1, inputs1);
    InputRunsDistinct(v, level, inputs0, inputs1);
    InputFiles(v, level, inputs0, inputs1);
    InputRunsHold(level, inputs0);
    InputRunsHold(level + 1, inputs1);
    UnionKeeps(upper + lower);
    forall e
      ensures e in Union(upper + lower) <==> e in FilesData(inputs0) + FilesData(inputs1)
    {
      if i :| 0 <= i < |upper| && e in upper[i] {
        assert e in (upper + lower)[i];
      }
      if i :| 0 <= i < |lower| && e in lower[i] {
        assert e in (upper + lower)[|upper| + i];
      }
    }
  }
}
