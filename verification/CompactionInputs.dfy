/** Choosing the files of a compaction: the key range of a selection, boundary files, and the expansion of
    the level's inputs that must leave the next level's inputs alone. */
module CompactionInputs {
  import opened InternalKeys
  import opened Versions

  // ----- Key range of a selection -----

  ghost predicate IsLargestKey(fs: seq<File>, k: InternalKey) {
    && (exists f :: f in fs && f.largest == k)
    && (forall f :: f in fs ==> AtMost(f.largest, k))
  }

  ghost predicate IsSmallestKey(fs: seq<File>, k: InternalKey) {
    && (exists f :: f in fs && f.smallest == k)
    && (forall f :: f in fs ==> AtMost(k, f.smallest))
  }

  /** FindLargestKey. */
  method FindLargestKey(fs: seq<File>) returns (r: Option<InternalKey>)
    ensures r.None? <==> fs == []
    ensures r.Some? ==> IsLargestKey(fs, r.value)
  {
    if |fs| == 0 {
      return None;
    }
    var largest := fs[0].largest;
    for i := 1 to |fs|
      invariant IsLargestKey(fs[..i], largest)
    {
      var f := fs[i];
      forall g | g in fs[..i]
        ensures AtMost(g.largest, if Less(largest, f.largest) then f.largest else largest)
      {
      }
      assert fs[..i + 1] == fs[..i] + [f];
      assert f in fs[..i + 1];
      if Less(largest, f.largest) {
        largest := f.largest;
      }
    }
    assert fs[..|fs|] == fs;
    return Some(largest);
  }

  /** GetRange: the least internal-key range that holds every file of the selection. */
  method GetRange(fs: seq<File>) returns (smallest: InternalKey, largest: InternalKey)
    requires |fs| > 0
    ensures IsSmallestKey(fs, smallest) && IsLargestKey(fs, largest)
  {
    smallest, largest := fs[0].smallest, fs[0].largest;
    for i := 1 to |fs|
      invariant IsSmallestKey(fs[..i], smallest) && IsLargestKey(fs[..i], largest)
    {
      var f := fs[i];
      forall g | g in fs[..i]
        ensures AtMost(g.largest, if Less(largest, f.largest) then f.largest else largest)
        ensures AtMost(if Less(f.smallest, smallest) then f.smallest else smallest, g.smallest)
      {
      }
      assert fs[..i + 1] == fs[..i] + [f];
      assert f in fs[..i + 1];
      if Less(f.smallest, smallest) {
        smallest := f.smallest;
      }
      if Less(largest, f.largest) {
        largest := f.largest;
      }
    }
    assert fs[..|fs|] == fs;
  }

  // ----- Boundary files -----

  /** f starts after the key with the same user key. */
  predicate IsBoundary(f: File, key: InternalKey) {
    Less(key, f.smallest) && f.smallest.user == key.user
  }

  /** FindSmallestBoundaryFile. */
  method FindSmallestBoundaryFile(levelFiles: seq<File>, key: InternalKey) returns (r: Option<File>)
    ensures r.None? ==> forall f :: f in levelFiles ==> !IsBoundary(f, key)
    ensures r.Some? ==> r.value in levelFiles && IsBoundary(r.value, key)
    ensures r.Some? ==> forall f :: f in levelFiles && IsBoundary(f, key) ==> AtMost(r.value.smallest, f.smallest)
  {
    r := None;
    for i := 0 to |levelFiles|
      invariant r.None? ==> forall f :: f in levelFiles[..i] ==> !IsBoundary(f, key)
      invariant r.Some? ==> r.value in levelFiles && IsBoundary(r.value, key)
      invariant r.Some? ==> forall f :: f in levelFiles[..i] && IsBoundary(f, key) ==> AtMost(r.value.smallest, f.smallest)
    {
      var f := levelFiles[i];
      assert levelFiles[..i + 1] == levelFiles[..i] + [f];
      if Less(key, f.smallest) && f.smallest.user == key.user {
        if r.None? || Less(f.smallest, r.value.smallest) {
          if r.Some? {
            forall g | g in levelFiles[..i] && IsBoundary(g, key)
              ensures AtMost(f.smallest, g.smallest)
            {
            }
          }
          r := Some(f);
        } else {
        }
      }
    }
    assert levelFiles[..|levelFiles|] == levelFiles;
  }

  /** No file of the level starts after the selection's largest key with the same user key. */
  ghost predicate BoundaryFree(levelFiles: seq<File>, sel: seq<File>) {
    forall k, g :: IsLargestKey(sel, k) && g in levelFiles ==> !IsBoundary(g, k)
  }

  /** sel is a run of adjacent files of the level. */
  ghost predicate IsRun(fs: seq<File>, sel: seq<File>) {
    exists a, b :: RunAt(fs, sel, a, b)
  }

  ghost predicate RunAt(fs: seq<File>, sel: seq<File>, a: int, b: int) {
    0 <= a < b <= |fs| && |sel| == b - a && forall k :: 0 <= k < |sel| ==> sel[k] == fs[a + k]
  }

  lemma RunPush(fs: seq<File>, sel: seq<File>, a: int, b: int)
    requires RunAt(fs, sel, a, b) && b < |fs|
    ensures IsRun(fs, sel + [fs[b]])
  {
    assert RunAt(fs, sel + [fs[b]], a, b + 1);
  }

  lemma RunIndexes(fs: seq<File>, sel: seq<File>, a: int, b: int, f: File, g: File) returns (i: nat, j: nat)
    requires RunAt(fs, sel, a, b) && f in sel && g in fs && g !in sel
    ensures a <= i < b && fs[i] == f && j < |fs| && fs[j] == g && !(a <= j < b)
  {
    var k :| 0 <= k < |sel| && sel[k] == f;
    i := a + k;
    j :| 0 <= j < |fs| && fs[j] == g;
    if a <= j < b {
      assert sel[j - a] == g;
    }
  }

  ghost function FilesAfter(fs: seq<File>, key: InternalKey): nat {
    if fs == [] then 0 else (if Less(key, fs[0].smallest) then 1 else 0) + FilesAfter(fs[1..], key)
  }

  lemma {:induction false} FilesAfterDecreases(fs: seq<File>, key: InternalKey, key2: InternalKey)
    requires Less(key, key2)
    ensures FilesAfter(fs, key2) <= FilesAfter(fs, key)
    ensures (exists f :: f in fs && Less(key, f.smallest) && !Less(key2, f.smallest)) ==> FilesAfter(fs, key2) < FilesAfter(fs, key)
  {
    if fs != [] {
      FilesAfterDecreases(fs[1..], key, key2);
    }
  }

  lemma LargestKeyUnique(fs: seq<File>, k: InternalKey, k2: InternalKey)
    requires IsLargestKey(fs, k) && IsLargestKey(fs, k2)
    ensures k == k2
  {
    AtMostAntisymmetric(k, k2);
  }

  /** The last file of a run holds its largest key, the first its smallest. */
  lemma RunRange(fs: seq<File>, sel: seq<File>, a: int, b: int)
    requires ValidFiles(fs) && Disjoint(fs) && RunAt(fs, sel, a, b)
    ensures IsLargestKey(sel, fs[b - 1].largest) && IsSmallestKey(sel, fs[a].smallest)
  {
    assert sel[0] == fs[a] && sel[b - 1 - a] == fs[b - 1];
    forall f | f in sel
      ensures AtMost(f.largest, fs[b - 1].largest) && AtMost(fs[a].smallest, f.smallest)
    {
      var i :| 0 <= i < |sel| && sel[i] == f;
      assert f == fs[a + i];
      if a + i < b - 1 {
        LargestIncreasing(fs, a + i, b - 1);
      }
      if i > 0 {
        FileBounds(fs[a]);
      }
    }
  }

  /** The first file that starts after a run with the run's last user key is the next file of the level. */
  lemma BoundaryIsNext(fs: seq<File>, b: nat, i: nat)
    requires ValidFiles(fs) && Disjoint(fs) && 0 < b <= |fs| && i < |fs|
    requires IsBoundary(fs[i], fs[b - 1].largest)
    requires forall j :: 0 <= j < |fs| && IsBoundary(fs[j], fs[b - 1].largest) ==> AtMost(fs[i].smallest, fs[j].smallest)
    ensures i == b
  {
    FileBounds(fs[i]);
    FileBounds(fs[b - 1]);
    if i > b {
      FileBounds(fs[b]);
      assert IsBoundary(fs[b], fs[b - 1].largest);
    }
  }

  lemma BoundaryExtendsRun(fs: seq<File>, sel: seq<File>, key: InternalKey, f: File)
    requires ValidFiles(fs) && Disjoint(fs) && IsRun(fs, sel)
    requires IsLargestKey(sel, key) && f in fs && IsBoundary(f, key)
    requires forall g :: g in fs && IsBoundary(g, key) ==> AtMost(f.smallest, g.smallest)
    ensures IsRun(fs, sel + [f])
  {
    var a, b :| RunAt(fs, sel, a, b);
    RunRange(fs, sel, a, b);
    LargestKeyUnique(sel, key, fs[b - 1].largest);
    var i :| 0 <= i < |fs| && fs[i] == f;
    BoundaryIsNext(fs, b, i);
    RunPush(fs, sel, a, b);
  }

  lemma LargestAfterPush(sel: seq<File>, f: File, key: InternalKey)
    requires IsLargestKey(sel, key) && Less(key, f.largest)
    ensures IsLargestKey(sel + [f], f.largest)
  {
    assert (sel + [f])[|sel|] == f;
    forall g | g in sel + [f]
      ensures AtMost(g.largest, f.largest)
    {
      if g in sel {
      }
    }
  }

  /** f is the boundary file that starts first behind the selection. */
  ghost predicate IsNextBoundary(levelFiles: seq<File>, sel: seq<File>, f: File) {
    exists k :: IsLargestKey(sel, k) && f in levelFiles && IsBoundary(f, k)
             && forall g :: g in levelFiles && IsBoundary(g, k) ==> AtMost(f.smallest, g.smallest)
  }

  /** r is the selection followed by one boundary file after the other, until there is none. */
  ghost predicate BoundaryClosure(levelFiles: seq<File>, sel: seq<File>, r: seq<File>) {
    && sel <= r && BoundaryFree(levelFiles, r)
    && forall i :: |sel| <= i < |r| ==> IsNextBoundary(levelFiles, r[..i], r[i])
  }

  /** AddBoundaryInputs: extend the selection until no boundary file is left. */
  method AddBoundaryInputs(levelFiles: seq<File>, compactionFiles: seq<File>) returns (r: seq<File>)
    requires ValidFiles(levelFiles)
    ensures compactionFiles == [] ==> r == []
    ensures compactionFiles <= r && BoundaryFree(levelFiles, r)
    ensures BoundaryClosure(levelFiles, compactionFiles, r)
    ensures forall i :: |compactionFiles| <= i < |r| ==> r[i] in levelFiles
    ensures Disjoint(levelFiles) && IsRun(levelFiles, compactionFiles) ==> IsRun(levelFiles, r)
    ensures BoundaryFree(levelFiles, compactionFiles) ==> r == compactionFiles
  {
    r := compactionFiles;
    var key := FindLargestKey(r);
    if key.None? {
      return;
    }
    var largestKey := key.value;
    var continueSearching := true;
    while continueSearching
      invariant IsLargestKey(r, largestKey) && compactionFiles <= r
      invariant forall i :: |compactionFiles| <= i < |r| ==> r[i] in levelFiles
      invariant forall i :: |compactionFiles| <= i < |r| ==> IsNextBoundary(levelFiles, r[..i], r[i])
      invariant Disjoint(levelFiles) && IsRun(levelFiles, compactionFiles) ==> IsRun(levelFiles, r)
      invariant BoundaryFree(levelFiles, compactionFiles) ==> r == compactionFiles
      invariant !continueSearching ==> BoundaryFree(levelFiles, r)
      decreases continueSearching, FilesAfter(levelFiles, largestKey)
    {
      var boundary := FindSmallestBoundaryFile(levelFiles, largestKey);
      if boundary.Some? {
        var f := boundary.value;
        FileBoundsAll(levelFiles);
        FilesAfterDecreases(levelFiles, largestKey, f.largest);
        if Disjoint(levelFiles) && IsRun(levelFiles, compactionFiles) {
          BoundaryExtendsRun(levelFiles, r, largestKey, f);
        }
        LargestAfterPush(r, f, largestKey);
        OneMoreBoundary(levelFiles, compactionFiles, r, f, largestKey);
        r := r + [f];
        largestKey := f.largest;
      } else {
        forall k, g | IsLargestKey(r, k) && g in levelFiles
          ensures !IsBoundary(g, k)
        {
          LargestKeyUnique(r, k, largestKey);
        }
        continueSearching := false;
      }
    }
  }

  lemma OneMoreBoundary(levelFiles: seq<File>, sel: seq<File>, r: seq<File>, f: File, key: InternalKey)
    requires sel <= r && IsLargestKey(r, key) && f in levelFiles && IsBoundary(f, key)
    requires forall g :: g in levelFiles && IsBoundary(g, key) ==> AtMost(f.smallest, g.smallest)
    requires forall i :: |sel| <= i < |r| ==> IsNextBoundary(levelFiles, r[..i], r[i])
    ensures forall i :: |sel| <= i < |r + [f]| ==> IsNextBoundary(levelFiles, (r + [f])[..i], (r + [f])[i])
  {
    hide IsLargestKey, AtMost;
    forall i | |sel| <= i < |r + [f]|
      ensures IsNextBoundary(levelFiles, (r + [f])[..i], (r + [f])[i])
    {
      if i < |r| {
        assert (r + [f])[..i] == r[..i] && (r + [f])[i] == r[i];
      } else {
        assert (r + [f])[..i] == r;
      }
    }
  }

  // ----- What the selected inputs guarantee -----

  /** A selection the compaction may start from: at level 0 every file overlapping a closed range, at the
      sorted levels a run of adjacent files. */
  ghost predicate Seed(level: nat, fs: seq<File>, sel: seq<File>) {
    && sel != []
    && if level == 0 then exists lo, hi :: ClosedRange(fs, lo, hi) && sel == Overlapping(fs, lo, hi)
       else IsRun(fs, sel)
  }

  /** Whatever the selection leaves behind in its level is newer than what it takes. */
  ghost predicate NothingOlderLeft(fs: seq<File>, sel: seq<File>) {
    forall f, g :: f in sel && g in fs && g !in sel ==> NewerThan(FilesData([g]), FilesData([f]))
  }

  lemma SeedNothingOlder(level: nat, fs: seq<File>, sel: seq<File>)
    requires ValidFiles(fs) && (level > 0 ==> Disjoint(fs)) && Unique(FilesData(fs))
    requires Seed(level, fs, sel) && BoundaryFree(fs, sel)
    ensures NothingOlderLeft(fs, sel)
  {
    forall f, g | f in sel && g in fs && g !in sel
      ensures NewerThan(FilesData([g]), FilesData([f]))
    {
      if level == 0 {
        ClosedLeavesDisjoint(fs, sel, f, g);
      } else {
        RunLeavesNewer(fs, sel, f, g);
      }
    }
  }

  lemma ClosedLeavesDisjoint(fs: seq<File>, sel: seq<File>, f: File, g: File)
    requires ValidFiles(fs) && Seed(0, fs, sel)
    requires f in sel && g in fs && g !in sel
    ensures NewerThan(FilesData([g]), FilesData([f]))
  {
    var lo, hi :| ClosedRange(fs, lo, hi) && sel == Overlapping(fs, lo, hi);
    OverlappingMembers(fs, lo, hi);
    forall x, y | x in g.entries && y in f.entries && x.key.user == y.key.user
      ensures false
    {
      EntriesWithinFile(f, y);
      EntriesWithinFile(g, x);
    }
  }

  lemma RunLeavesNewer(fs: seq<File>, sel: seq<File>, f: File, g: File)
    requires ValidFiles(fs) && Disjoint(fs) && Unique(FilesData(fs)) && IsRun(fs, sel) && BoundaryFree(fs, sel)
    requires f in sel && g in fs && g !in sel
    ensures NewerThan(FilesData([g]), FilesData([f]))
  {
    var a, b :| RunAt(fs, sel, a, b);
    var i, j := RunIndexes(fs, sel, a, b, f, g);
    RunRange(fs, sel, a, b);
    OutsideRunIsNewer(fs, a, b, i, j);
  }

  lemma OutsideRunIsNewer(fs: seq<File>, a: nat, b: nat, i: nat, j: nat)
    requires ValidFiles(fs) && Disjoint(fs) && Unique(FilesData(fs))
    requires a <= i < b <= |fs| && j < |fs| && !(a <= j < b)
    requires !IsBoundary(fs[j], fs[b - 1].largest)
    ensures NewerThan(FilesData([fs[j]]), FilesData([fs[i]]))
  {
    hide ValidFile;
    var f, g, last := fs[i], fs[j], fs[b - 1].largest;
    if i < b - 1 {
      LargestIncreasing(fs, i, b - 1);
    }
    forall x, y | x in g.entries && y in f.entries && x.key.user == y.key.user
      ensures x.key.sequence > y.key.sequence
    {
      EntriesWithinFile(f, y);
      EntriesWithinFile(g, x);
      assert x in FilesData(fs) && y in FilesData(fs);
    }
  }

  /** A file between two overlapping ones overlaps. */
  lemma BetweenOverlaps(fs: seq<File>, i: nat, j: nat, k: nat, lo: Option<UserKey>, hi: Option<UserKey>)
    requires ValidFiles(fs) && Disjoint(fs) && i < j < k < |fs|
    requires Overlaps(fs[i], lo, hi) && Overlaps(fs[k], lo, hi)
    ensures Overlaps(fs[j], lo, hi)
  {
    FileBounds(fs[j]);
  }

  /** At a sorted level the files overlapping a user-key range are adjacent. */
  lemma {:induction false} OverlappingIsRun(fs: seq<File>, n: nat, lo: Option<UserKey>, hi: Option<UserKey>)
    requires ValidFiles(fs) && Disjoint(fs) && n <= |fs|
    ensures Overlapping(fs[..n], lo, hi) != [] ==> IsRun(fs, Overlapping(fs[..n], lo, hi))
  {
    if n > 0 {
      var sel := Overlapping(fs[..n - 1], lo, hi);
      OverlappingIsRun(fs, n - 1, lo, hi);
      assert fs[..n] == fs[..n - 1] + [fs[n - 1]];
      OverlappingSnoc(fs[..n - 1], fs[n - 1], lo, hi);
      if Overlaps(fs[n - 1], lo, hi) {
        OverlappingMembers(fs[..n - 1], lo, hi);
        if sel == [] {
          assert RunAt(fs, sel + [fs[n - 1]], n - 1, n);
        } else {
          var a, b :| RunAt(fs, sel, a, b);
          RunEndsAtOverlap(fs, n - 1, sel, a, b, lo, hi);
          RunPush(fs, sel, a, b);
        }
      } else {
        assert sel + [] == sel;
      }
    }
  }

  lemma RunEndsAtOverlap(fs: seq<File>, n: nat, sel: seq<File>, a: int, b: int, lo: Option<UserKey>, hi: Option<UserKey>)
    requires ValidFiles(fs) && Disjoint(fs) && n < |fs| && Overlaps(fs[n], lo, hi) && RunAt(fs, sel, a, b)
    requires forall f :: f in sel <==> f in fs[..n] && Overlaps(f, lo, hi)
    ensures b == n
  {
    var last := sel[b - 1 - a];
    assert last == fs[b - 1] && last in sel;
    var i :| 0 <= i < n && fs[i] == last;
    SameFileSameIndex(fs, i, b - 1);
    if b < n {
      BetweenOverlaps(fs, b - 1, b, n, lo, hi);
      assert fs[..n][b] == fs[b];
      forall k | 0 <= k < |sel|
        ensures sel[k] != fs[b]
      {
        FileBounds(fs[a + k]);
      }
    }
  }

  lemma SameFileSameIndex(fs: seq<File>, i: nat, j: nat)
    requires ValidFiles(fs) && Disjoint(fs) && i < |fs| && j < |fs| && fs[i] == fs[j]
    ensures i == j
  {
    FileBounds(fs[i]);
  }

  /** A wider range overlaps at least as many files, and equally many only when they are the same. */
  lemma {:induction false} EqualCountsSameFiles(fs: seq<File>, lo: Option<UserKey>, hi: Option<UserKey>,
                                                lo2: Option<UserKey>, hi2: Option<UserKey>)
    requires Covers(lo2, hi2, lo, hi)
    ensures |Overlapping(fs, lo, hi)| <= |Overlapping(fs, lo2, hi2)|
    ensures |Overlapping(fs, lo, hi)| == |Overlapping(fs, lo2, hi2)| ==> Overlapping(fs, lo, hi) == Overlapping(fs, lo2, hi2)
  {
    if fs != [] {
      EqualCountsSameFiles(fs[1..], lo, hi, lo2, hi2);
    }
  }

  /** A closed level-0 selection has no boundary files to add. */
  lemma ClosedIsBoundaryFree(fs: seq<File>, lo: Option<UserKey>, hi: Option<UserKey>)
    requires ValidFiles(fs) && ClosedRange(fs, lo, hi)
    ensures BoundaryFree(fs, Overlapping(fs, lo, hi))
  {
    hide ValidFile;
    var sel := Overlapping(fs, lo, hi);
    OverlappingMembers(fs, lo, hi);
    FileBoundsAll(fs);
    forall k, g | IsLargestKey(sel, k) && g in fs
      ensures !IsBoundary(g, k)
    {
      var f :| f in sel && f.largest == k;
    }
  }
}
