/** Table files, the levels they are arranged in, and the reads a version serves. */
module Versions {
  import opened InternalKeys

  const NUM_LEVELS: nat := 7
  const MAX_MEM_COMPACT_LEVEL: nat := 2

  /** FileMetaData together with the entries its table holds. */
  datatype File = File(number: nat, size: nat, smallest: InternalKey, largest: InternalKey,
                       entries: seq<Entry>)

  ghost predicate ValidFile(f: File) {
    && |f.entries| > 0 && Sorted(f.entries)
    && f.smallest == f.entries[0].key && f.largest == f.entries[|f.entries| - 1].key
  }

  ghost predicate ValidFiles(fs: seq<File>) {
    forall i :: 0 <= i < |fs| ==> ValidFile(fs[i])
  }

  /** Levels >= 1: ordered and disjoint in internal-key order. */
  ghost predicate Disjoint(fs: seq<File>) {
    forall i, j :: 0 <= i < j < |fs| ==> Less(fs[i].largest, fs[j].smallest)
  }

  ghost predicate DistinctNumbers(fs: seq<File>) {
    forall i, j :: 0 <= i < j < |fs| ==> fs[i].number != fs[j].number
  }

  datatype Version = Version(files: seq<seq<File>>)

  ghost predicate WellFormed(v: Version) {
    && |v.files| == NUM_LEVELS
    && (forall l :: 0 <= l < NUM_LEVELS ==> ValidFiles(v.files[l]) && DistinctNumbers(v.files[l]))
    && (forall l :: 1 <= l < NUM_LEVELS ==> Disjoint(v.files[l]))
  }

  ghost function FilesData(fs: seq<File>): set<Entry> {
    set f, e | f in fs && e in f.entries :: e
  }

  ghost function Data(v: Version): set<Entry> {
    set l, e | 0 <= l < |v.files| && e in FilesData(v.files[l]) :: e
  }

  /** Every entry in newer is newer than every entry of the same user key in older. */
  ghost predicate NewerThan(newer: set<Entry>, older: set<Entry>) {
    forall x, y :: x in newer && y in older && x.key.user == y.key.user ==> x.key.sequence > y.key.sequence
  }

  /** Entries never hop across levels: shallower levels, and higher-numbered level-0 files, are newer. */
  ghost predicate Aged(v: Version) {
    && (forall l, m :: 0 <= l < m < |v.files| ==> NewerThan(FilesData(v.files[l]), FilesData(v.files[m])))
    && (|v.files| > 0 ==> AgedLevel0(v.files[0]))
  }

  ghost predicate AgedLevel0(fs: seq<File>) {
    forall f, g :: f in fs && g in fs && f.number > g.number ==> NewerThan(FilesData([f]), FilesData([g]))
  }

  // ----- File ranges -----

  predicate AfterFile(u: Option<UserKey>, f: File) {
    u.Some? && u.value > f.largest.user
  }

  predicate BeforeFile(u: Option<UserKey>, f: File) {
    u.Some? && u.value < f.smallest.user
  }

  predicate Overlaps(f: File, lo: Option<UserKey>, hi: Option<UserKey>) {
    !AfterFile(lo, f) && !BeforeFile(hi, f)
  }

  predicate InRange(f: File, u: UserKey) {
    f.smallest.user <= u <= f.largest.user
  }

  lemma EntriesWithinFile(f: File, e: Entry)
    requires ValidFile(f) && e in f.entries
    ensures AtMost(f.smallest, e.key) && AtMost(e.key, f.largest)
    ensures InRange(f, e.key.user)
  {
    var i :| 0 <= i < |f.entries| && f.entries[i] == e;
    assert i == 0 || Less(f.entries[0].key, f.entries[i].key);
    assert i == |f.entries| - 1 || Less(f.entries[i].key, f.entries[|f.entries| - 1].key);
  }

  lemma FileBounds(f: File)
    requires ValidFile(f)
    ensures AtMost(f.smallest, f.largest) && f.smallest.user <= f.largest.user
  {
    EntriesWithinFile(f, f.entries[0]);
  }

  lemma FileBoundsAll(fs: seq<File>)
    requires ValidFiles(fs)
    ensures forall i :: 0 <= i < |fs| ==> AtMost(fs[i].smallest, fs[i].largest) && fs[i].smallest.user <= fs[i].largest.user
  {
    forall i | 0 <= i < |fs|
      ensures AtMost(fs[i].smallest, fs[i].largest) && fs[i].smallest.user <= fs[i].largest.user
    {
      FileBounds(fs[i]);
    }
  }

  /** Binary search for the first file whose largest key is at or after key. */
  method FindFile(files: seq<File>, key: InternalKey) returns (index: nat)
    requires ValidFiles(files) && Disjoint(files)
    ensures index <= |files|
    ensures forall i :: 0 <= i < index ==> Less(files[i].largest, key)
    ensures forall i :: index <= i < |files| ==> !Less(files[i].largest, key)
  {
    FileBoundsAll(files);
    var left, right := 0, |files|;
    while left < right
      invariant 0 <= left <= right <= |files|
      invariant forall i :: 0 <= i < left ==> Less(files[i].largest, key)
      invariant forall i :: right <= i < |files| ==> !Less(files[i].largest, key)
    {
      var mid := (left + right) / 2;
      if Less(files[mid].largest, key) {
        forall i | 0 <= i < mid
          ensures Less(files[i].largest, key)
        {
          LargestIncreasing(files, i, mid);
        }
        left := mid + 1;
      } else {
        forall i | mid < i < |files|
          ensures !Less(files[i].largest, key)
        {
          LargestIncreasing(files, mid, i);
        }
        right := mid;
      }
    }
    return right;
  }

  lemma LargestIncreasing(fs: seq<File>, i: nat, j: nat)
    requires ValidFiles(fs) && Disjoint(fs) && i < j < |fs|
    ensures Less(fs[i].largest, fs[j].largest)
  {
    FileBounds(fs[j]);
  }

  /** Both forms answer the same question: does any file overlap the user-key range?  On a sorted
      disjoint level the binary search agrees with the linear scan. */
  method SomeFileOverlapsRange(disjointSorted: bool, files: seq<File>, lo: Option<UserKey>, hi: Option<UserKey>)
    returns (overlap: bool)
    requires ValidFiles(files) && (disjointSorted ==> Disjoint(files))
    ensures overlap <==> exists f :: f in files && Overlaps(f, lo, hi)
  {
    if !disjointSorted {
      for i := 0 to |files|
        invariant forall k :: 0 <= k < i ==> !Overlaps(files[k], lo, hi)
      {
        if AfterFile(lo, files[i]) || BeforeFile(hi, files[i]) {
        } else {
          assert files[i] in files;
          return true;
        }
      }
      return false;
    }
    FileBoundsAll(files);
    var index := 0;
    if lo.Some? {
      // the earliest internal key of the lower bound
      index := FindFile(files, InternalKey(lo.value, MAX_SEQUENCE, Value));
    }
    if index >= |files| {
      return false;
    }
    overlap := !BeforeFile(hi, files[index]);
    assert Overlaps(files[index], lo, hi) <==> overlap;
  }

  // ----- Overlapping inputs -----

  /** The files of a level that overlap the range, in level order. */
  function Overlapping(fs: seq<File>, lo: Option<UserKey>, hi: Option<UserKey>): seq<File> {
    if fs == [] then []
    else (if Overlaps(fs[0], lo, hi) then [fs[0]] else []) + Overlapping(fs[1..], lo, hi)
  }

  lemma {:induction false} OverlappingMembers(fs: seq<File>, lo: Option<UserKey>, hi: Option<UserKey>)
    ensures forall f :: f in Overlapping(fs, lo, hi) <==> f in fs && Overlaps(f, lo, hi)
    ensures |Overlapping(fs, lo, hi)| <= |fs|
  {
    if fs != [] {
      OverlappingMembers(fs[1..], lo, hi);
    }
  }

  lemma {:induction false} OverlappingSnoc(fs: seq<File>, f: File, lo: Option<UserKey>, hi: Option<UserKey>)
    ensures Overlapping(fs + [f], lo, hi)
         == Overlapping(fs, lo, hi) + if Overlaps(f, lo, hi) then [f] else []
  {
    if fs != [] {
      OverlappingSnoc(fs[1..], f, lo, hi);
      assert (fs + [f])[1..] == fs[1..] + [f];
    }
  }

  predicate LowerOrEqual(a: Option<UserKey>, b: Option<UserKey>) {
    a.None? || (b.Some? && a.value <= b.value)
  }

  predicate UpperOrEqual(a: Option<UserKey>, b: Option<UserKey>) {
    a.None? || (b.Some? && a.value >= b.value)
  }

  /** [lo, hi] contains [lo2, hi2]; None is unbounded. */
  predicate Covers(lo: Option<UserKey>, hi: Option<UserKey>, lo2: Option<UserKey>, hi2: Option<UserKey>) {
    LowerOrEqual(lo, lo2) && UpperOrEqual(hi, hi2)
  }

  /** No file that overlaps the range sticks out of it. */
  ghost predicate ClosedRange(fs: seq<File>, lo: Option<UserKey>, hi: Option<UserKey>) {
    forall f :: f in fs && Overlaps(f, lo, hi) ==> Covers(lo, hi, Some(f.smallest.user), Some(f.largest.user))
  }

  /** Every closed range around [begin, end] is around [lo, hi]. */
  ghost predicate BelowClosedRanges(fs: seq<File>, begin: Option<UserKey>, end: Option<UserKey>,
                                    lo: Option<UserKey>, hi: Option<UserKey>) {
    forall lo2, hi2 :: Covers(lo2, hi2, begin, end) && ClosedRange(fs, lo2, hi2) ==> Covers(lo2, hi2, lo, hi)
  }

  /** Widening by a file that overlaps keeps the range below every closed range. */
  lemma WidenStaysBelow(fs: seq<File>, begin: Option<UserKey>, end: Option<UserKey>,
                        lo: Option<UserKey>, hi: Option<UserKey>, f: File)
    requires BelowClosedRanges(fs, begin, end, lo, hi) && f in fs && Overlaps(f, lo, hi)
    ensures BelowClosedRanges(fs, begin, end, Some(f.smallest.user), hi)
    ensures BelowClosedRanges(fs, begin, end, lo, Some(f.largest.user))
  {
    forall lo2, hi2 | Covers(lo2, hi2, begin, end) && ClosedRange(fs, lo2, hi2)
      ensures Covers(lo2, hi2, Some(f.smallest.user), hi) && Covers(lo2, hi2, lo, Some(f.largest.user))
    {
      assert Covers(lo2, hi2, lo, hi);
    }
  }

  lemma ClosedRangeSnoc(fs: seq<File>, f: File, lo: Option<UserKey>, hi: Option<UserKey>)
    requires ClosedRange(fs, lo, hi)
    requires Overlaps(f, lo, hi) ==> Covers(lo, hi, Some(f.smallest.user), Some(f.largest.user))
    ensures ClosedRange(fs + [f], lo, hi)
  {
  }

  /** How many files start before lo or end after hi: the measure of the level-0 restart. */
  ghost function Protruding(fs: seq<File>, lo: Option<UserKey>, hi: Option<UserKey>): nat {
    if fs == [] then 0 else
      var first := (if lo.Some? && fs[0].smallest.user < lo.value then 1 else 0)
                 + (if hi.Some? && fs[0].largest.user > hi.value then 1 else 0);
      first + Protruding(fs[1..], lo, hi)
  }

  lemma {:induction false} ProtrudingShrinks(fs: seq<File>, lo: Option<UserKey>, hi: Option<UserKey>,
                                             lo2: Option<UserKey>, hi2: Option<UserKey>)
    requires Covers(lo2, hi2, lo, hi)
    requires lo.Some? <==> lo2.Some?
    requires hi.Some? <==> hi2.Some?
    ensures Protruding(fs, lo2, hi2) <= Protruding(fs, lo, hi)
    ensures (exists f :: f in fs && lo.Some? && f.smallest.user == lo2.value < lo.value)
        || (exists f :: f in fs && hi.Some? && f.largest.user == hi2.value > hi.value)
        ==> Protruding(fs, lo2, hi2) < Protruding(fs, lo, hi)
  {
    if fs != [] {
      ProtrudingShrinks(fs[1..], lo, hi, lo2, hi2);
    }
  }

  /** Stores the files of a level that overlap [begin, end].  At level 0 a file that sticks out widens the
      range and restarts the scan; the result is then every file overlapping the least closed range. */
  method GetOverlappingInputs(v: Version, level: nat, begin: Option<UserKey>, end: Option<UserKey>)
    returns (inputs: seq<File>, userBegin: Option<UserKey>, userEnd: Option<UserKey>)
    requires WellFormed(v) && level < NUM_LEVELS
    ensures inputs == Overlapping(v.files[level], userBegin, userEnd)
    ensures level > 0 ==> userBegin == begin && userEnd == end
    ensures Covers(userBegin, userEnd, begin, end)
    ensures level == 0 ==> ClosedRange(v.files[0], userBegin, userEnd)
    ensures level == 0 ==> BelowClosedRanges(v.files[0], begin, end, userBegin, userEnd)
  {
    var files := v.files[level];
    FileBoundsAll(files);
    inputs, userBegin, userEnd := [], begin, end;
    var i := 0;
    while i < |files|
      invariant 0 <= i <= |files|
      invariant inputs == Overlapping(files[..i], userBegin, userEnd)
      invariant level > 0 ==> userBegin == begin && userEnd == end
      invariant Covers(userBegin, userEnd, begin, end)
      invariant begin.Some? <==> userBegin.Some?
      invariant end.Some? <==> userEnd.Some?
      invariant level == 0 ==> ClosedRange(files[..i], userBegin, userEnd)
      invariant level == 0 ==> BelowClosedRanges(files, begin, end, userBegin, userEnd)
      decreases Protruding(files, userBegin, userEnd), |files| - i
    {
      var f := files[i];
      assert f in files;
      OverlappingSnoc(files[..i], f, userBegin, userEnd);
      assert files[..i + 1] == files[..i] + [f];
      i := i + 1;
      if userBegin.Some? && f.largest.user < userBegin.value {
      } else if userEnd.Some? && f.smallest.user > userEnd.value {
      } else {
        inputs := inputs + [f];
        if level == 0 {
          if userBegin.Some? && f.smallest.user < userBegin.value {
            WidenStaysBelow(files, begin, end, userBegin, userEnd, f);
            ProtrudingShrinks(files, userBegin, userEnd, Some(f.smallest.user), userEnd);
            userBegin := Some(f.smallest.user);
            inputs, i := [], 0;
          } else if userEnd.Some? && f.largest.user > userEnd.value {
            WidenStaysBelow(files, begin, end, userBegin, userEnd, f);
            ProtrudingShrinks(files, userBegin, userEnd, userBegin, Some(f.largest.user));
            userEnd := Some(f.largest.user);
            inputs, i := [], 0;
          } else {
            ClosedRangeSnoc(files[..i - 1], f, userBegin, userEnd);
          }
        }
      }
    }
    assert files[..i] == files;
  }

  function TotalFileSize(fs: seq<File>): nat {
    if fs == [] then 0 else fs[0].size + TotalFileSize(fs[1..])
  }

  /** Where a flushed memtable may go: the deepest level <= 2 with no overlap at it or above, unless the
      level below that holds too many overlapping bytes. */
  method PickLevelForMemTableOutput(v: Version, lo: UserKey, hi: UserKey, maxGrandParentOverlapBytes: nat)
    returns (level: nat)
    requires WellFormed(v)
    ensures level <= 2
    ensures forall l :: 2 <= l < level + 2 ==> TotalFileSize(Overlapping(v.files[l], Some(lo), Some(hi))) <= maxGrandParentOverlapBytes
    ensures level > 0 ==> forall l, f :: 0 <= l <= level && f in v.files[l] ==> !Overlaps(f, Some(lo), Some(hi))
    ensures level < 2 && (forall l, f :: 0 <= l <= level + 1 && f in v.files[l] ==> !Overlaps(f, Some(lo), Some(hi)))
        ==> TotalFileSize(Overlapping(v.files[level + 2], Some(lo), Some(hi))) > maxGrandParentOverlapBytes
  {
    hide ValidFiles, Disjoint, DistinctNumbers, ClosedRange, BelowClosedRanges, TotalFileSize, Overlapping;
    level := 0;
    var overlap := SomeFileOverlapsRange(false, v.files[0], Some(lo), Some(hi));
    if !overlap {
      while level < MAX_MEM_COMPACT_LEVEL
        invariant level <= MAX_MEM_COMPACT_LEVEL
        invariant forall l :: 2 <= l < level + 2 ==> TotalFileSize(Overlapping(v.files[l], Some(lo), Some(hi))) <= maxGrandParentOverlapBytes
        invariant forall l, f :: 0 <= l <= level && f in v.files[l] ==> !Overlaps(f, Some(lo), Some(hi))
      {
        overlap := SomeFileOverlapsRange(true, v.files[level + 1], Some(lo), Some(hi));
        if overlap {
          break;
        }
        if level + 2 < NUM_LEVELS {
          var overlaps, _, _ := GetOverlappingInputs(v, level + 2, Some(lo), Some(hi));
          if TotalFileSize(overlaps) > maxGrandParentOverlapBytes {
            break;
          }
        }
        level := level + 1;
      }
    }
  }
}
