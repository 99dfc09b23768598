/** Point lookups: the early-stopping search through memtables, level 0 and the sorted levels returns the
    newest entry at the snapshot over all the data. */
module VersionGet {
  import opened InternalKeys
  import opened Versions

  /** The first entry of a table at or after the key: what TableCache::Get hands to SaveValue. */
  function FirstAtOrAfter(es: seq<Entry>, key: InternalKey): (r: Option<Entry>)
    ensures r.Some? ==> r.value in es && !Less(r.value.key, key)
  {
    if es == [] then None
    else if !Less(es[0].key, key) then Some(es[0])
    else FirstAtOrAfter(es[1..], key)
  }

  /** The entry found, when it belongs to the user key, is its newest visible entry in the table; anything
      else means the table holds none. */
  lemma {:induction false} FirstAtOrAfterIsNewest(es: seq<Entry>, u: UserKey, s: SequenceNumber)
    requires Sorted(es)
    ensures var r := FirstAtOrAfter(es, LookupKey(u, s));
      if r.Some? && r.value.key.user == u then IsNewest((set e | e in es), u, s, r.value)
      else forall x :: x in es && x.key.user == u ==> x.key.sequence > s
  {
    if es != [] {
      LookupKeySplits(u, s, es[0].key);
      forall i | 0 < i < |es|
        ensures Less(es[0].key, es[i].key)
      {
      }
      FirstAtOrAfterIsNewest(es[1..], u, s);
      forall x | x in es
        ensures x == es[0] || x in es[1..]
      {
      }
      if !Less(es[0].key, LookupKey(u, s)) {
        forall x | x in es && x.key.user == u
          ensures es[0].key.user == u && x.key.sequence <= es[0].key.sequence
        {
          var i :| 0 <= i < |es| && es[i] == x;
          assert i == 0 || Less(es[0].key, x.key);
        }
      }
    }
  }

  // ----- std::sort with NewestFirst -----

  function InsertNewestFirst(f: File, fs: seq<File>): seq<File> {
    if fs == [] || f.number > fs[0].number then [f] + fs else [fs[0]] + InsertNewestFirst(f, fs[1..])
  }

  function SortNewestFirst(fs: seq<File>): seq<File> {
    if fs == [] then [] else InsertNewestFirst(fs[0], SortNewestFirst(fs[1..]))
  }

  ghost predicate NewestFirst(fs: seq<File>) {
    forall i, j :: 0 <= i < j < |fs| ==> fs[i].number >= fs[j].number
  }

  lemma {:induction false} InsertNewestFirstSorts(f: File, fs: seq<File>)
    requires NewestFirst(fs)
    ensures NewestFirst(InsertNewestFirst(f, fs))
    ensures forall g :: g in InsertNewestFirst(f, fs) <==> g == f || g in fs
  {
    if fs == [] || f.number > fs[0].number {
    } else {
      InsertNewestFirstSorts(f, fs[1..]);
      var r := InsertNewestFirst(f, fs[1..]);
      assert forall i :: 0 <= i < |r| ==> r[i] in r;
    }
  }

  lemma {:induction false} SortNewestFirstSorts(fs: seq<File>)
    ensures NewestFirst(SortNewestFirst(fs))
    ensures forall f :: f in SortNewestFirst(fs) <==> f in fs
  {
    if fs != [] {
      SortNewestFirstSorts(fs[1..]);
      InsertNewestFirstSorts(fs[0], SortNewestFirst(fs[1..]));
    }
  }

  datatype Lookup = NotFound | Found(value: string) | Deleted

  function Result(e: Entry): Lookup {
    if e.key.kind.Value? then Found(e.value) else Deleted
  }

  function AsRead(r: Lookup): Option<string> {
    if r.Found? then Some(r.value) else None
  }

  /** The meaning of a lookup in a store: the newest visible entry, or that there is none. */
  ghost predicate Answers(es: set<Entry>, u: UserKey, s: nat, r: Lookup) {
    match r
    case NotFound => forall x :: x in es && x.key.user == u ==> x.key.sequence > s
    case _ => exists e :: IsNewest(es, u, s, e) && r == Result(e)
  }

  lemma AnswersIsRead(es: set<Entry>, u: UserKey, s: nat, r: Lookup)
    requires Unique(es) && Answers(es, u, s, r)
    ensures AsRead(r) == Read(es, u, s)
  {
    if r != NotFound {
      var e :| IsNewest(es, u, s, e) && r == Result(e);
      ReadOfNewest(es, u, s, e);
    }
  }

  /** Seek to the lookup key and keep the entry only if it belongs to the user key: SaveValue after a table
      search, and MemTable::Get. */
  function SearchSorted(es: seq<Entry>, u: UserKey, s: SequenceNumber): Lookup {
    var r := FirstAtOrAfter(es, LookupKey(u, s));
    if r.Some? && r.value.key.user == u then Result(r.value) else NotFound
  }

  function SearchTable(f: File, u: UserKey, s: SequenceNumber): Lookup {
    SearchSorted(f.entries, u, s)
  }

  lemma SearchTableAnswers(f: File, u: UserKey, s: SequenceNumber)
    requires ValidFile(f)
    ensures Answers(FilesData([f]), u, s, SearchTable(f, u, s))
  {
    FirstAtOrAfterIsNewest(f.entries, u, s);
    assert FilesData([f]) == set e | e in f.entries;
  }

  /** A newer store that answers settles the union; one that does not leaves it to the older store. */
  lemma NewerDecides(newer: set<Entry>, older: set<Entry>, u: UserKey, s: nat, r: Lookup)
    requires NewerThan(newer, older)
    requires Answers(newer, u, s, r)
    ensures r != NotFound ==> Answers(newer + older, u, s, r)
    ensures r == NotFound ==> forall r2 :: Answers(older, u, s, r2) ==> Answers(newer + older, u, s, r2)
  {
    if r != NotFound {
      var e :| IsNewest(newer, u, s, e) && r == Result(e);
      assert IsNewest(newer + older, u, s, e);
    } else {
      forall r2 | Answers(older, u, s, r2)
        ensures Answers(newer + older, u, s, r2)
      {
        if r2 != NotFound {
          var e :| IsNewest(older, u, s, e) && r2 == Result(e);
          assert IsNewest(newer + older, u, s, e);
        }
      }
    }
  }

  /** One binary-searched file answers for a whole sorted level, even when the user key straddles files. */
  lemma OneFileAnswersLevel(fs: seq<File>, index: nat, u: UserKey, s: SequenceNumber)
    requires ValidFiles(fs) && Disjoint(fs) && index <= |fs|
    requires forall i :: 0 <= i < index ==> Less(fs[i].largest, LookupKey(u, s))
    requires index < |fs| ==> !Less(fs[index].largest, LookupKey(u, s))
    ensures Answers(FilesData(fs), u, s,
                    if index == |fs| || u < fs[index].smallest.user then NotFound else SearchTable(fs[index], u, s))
  {
    forall x | x in FilesData(fs) && x.key.user == u && x.key.sequence <= s
      ensures index < |fs| && fs[index].smallest.user <= u
      ensures var r := FirstAtOrAfter(fs[index].entries, LookupKey(u, s));
        r.Some? && AtMost(r.value.key, x.key)
    {
      var i := FileAtOrAfter(fs, index, u, s, x);
      FoundBeforeAll(fs, index, i, u, s, x);
    }
    if index < |fs| {
      SearchTableAnswers(fs[index], u, s);
      var r := FirstAtOrAfter(fs[index].entries, LookupKey(u, s));
      FirstAtOrAfterIsNewest(fs[index].entries, u, s);
      if r.Some? && r.value.key.user == u {
        assert r.value in FilesData(fs);
        EntriesWithinFile(fs[index], r.value);
        assert IsNewest(FilesData(fs), u, s, r.value);
      }
    }
  }

  /** A visible entry of the user key lies in the file the search picked or in a later one. */
  lemma FileAtOrAfter(fs: seq<File>, index: nat, u: UserKey, s: SequenceNumber, x: Entry) returns (i: nat)
    requires ValidFiles(fs) && index <= |fs|
    requires forall i :: 0 <= i < index ==> Less(fs[i].largest, LookupKey(u, s))
    requires x in FilesData(fs) && x.key.user == u && x.key.sequence <= s
    ensures index <= i < |fs| && x in fs[i].entries
  {
    var f :| f in fs && x in f.entries;
    i :| 0 <= i < |fs| && fs[i] == f;
    EntriesWithinFile(f, x);
    if i < index {
      LookupKeySplits(u, s, x.key);
    }
  }

  /** The entry found in the picked file precedes every visible entry of the user key in the level. */
  lemma FoundBeforeAll(fs: seq<File>, index: nat, i: nat, u: UserKey, s: SequenceNumber, x: Entry)
    requires ValidFiles(fs) && Disjoint(fs) && index <= i < |fs|
    requires !Less(fs[index].largest, LookupKey(u, s))
    requires x in fs[i].entries && x.key.user == u && x.key.sequence <= s
    ensures fs[index].smallest.user <= u
    ensures var r := FirstAtOrAfter(fs[index].entries, LookupKey(u, s));
      r.Some? && AtMost(r.value.key, x.key)
  {
    var f := fs[index];
    LargestIsFound(f, LookupKey(u, s));
    var r := FirstAtOrAfter(f.entries, LookupKey(u, s));
    EntriesWithinFile(f, r.value);
    EntriesWithinFile(fs[i], x);
    if i == index {
      FoundIsFirst(f.entries, LookupKey(u, s), x);
    } else {
    }
  }

  lemma {:induction false} LargestIsFound(f: File, key: InternalKey)
    requires ValidFile(f) && !Less(f.largest, key)
    ensures FirstAtOrAfter(f.entries, key).Some?
  {
    FoundWhenPresent(f.entries, key, |f.entries| - 1);
  }

  lemma {:induction false} FoundWhenPresent(es: seq<Entry>, key: InternalKey, i: nat)
    requires i < |es| && !Less(es[i].key, key)
    ensures FirstAtOrAfter(es, key).Some?
  {
    if i > 0 {
      FoundWhenPresent(es[1..], key, i - 1);
    }
  }

  lemma {:induction false} FoundIsFirst(es: seq<Entry>, key: InternalKey, x: Entry)
    requires Sorted(es) && x in es && !Less(x.key, key)
    ensures FirstAtOrAfter(es, key).Some?
    ensures var r := FirstAtOrAfter(es, key).value; r == x || Less(r.key, x.key)
  {
    if Less(es[0].key, key) {
      assert es == [es[0]] + es[1..];
      FoundIsFirst(es[1..], key, x);
    }
  }

  ghost function DataBelow(v: Version, level: nat): set<Entry>
    requires level <= |v.files|
  {
    set l, e | 0 <= l < level && e in FilesData(v.files[l]) :: e
  }

  /** Version::Get: search level by level and stop at the first answer. */
  method Get(v: Version, u: UserKey, s: SequenceNumber) returns (r: Lookup)
    requires WellFormed(v) && Aged(v)
    ensures Answers(Data(v), u, s, r)
  {
    assert DataBelow(v, NUM_LEVELS) == Data(v);
    r := NotFound;
    for level := 0 to NUM_LEVELS
      invariant r == NotFound && Answers(DataBelow(v, level), u, s, NotFound)
    {
      if |v.files[level]| > 0 {
        if level == 0 {
          r := GetLevel0(v.files[0], u, s);
        } else {
          var index := FindFile(v.files[level], LookupKey(u, s));
          OneFileAnswersLevel(v.files[level], index, u, s);
          if index < |v.files[level]| && u >= v.files[level][index].smallest.user {
            r := SearchTable(v.files[level][index], u, s);
          }
        }
      }
      assert Answers(FilesData(v.files[level]), u, s, r);
      LevelDecides(v, level, u, s, r);
      if r != NotFound {
        return;
      }
    }
  }

  lemma LevelDecides(v: Version, level: nat, u: UserKey, s: nat, r: Lookup)
    requires Aged(v) && level < |v.files|
    requires Answers(DataBelow(v, level), u, s, NotFound)
    requires Answers(FilesData(v.files[level]), u, s, r)
    ensures r != NotFound ==> Answers(Data(v), u, s, r)
    ensures r == NotFound ==> Answers(DataBelow(v, level + 1), u, s, NotFound)
  {
    if r != NotFound {
      var e :| IsNewest(FilesData(v.files[level]), u, s, e) && r == Result(e);
      forall x | x in Data(v) && x.key.user == u && x.key.sequence <= s
        ensures x.key.sequence <= e.key.sequence
      {
        var l :| 0 <= l < |v.files| && x in FilesData(v.files[l]);
      }
      assert IsNewest(Data(v), u, s, e);
    }
  }

  /** Level-0 files that cover the user key, newest first. */
  method GetLevel0(fs: seq<File>, u: UserKey, s: SequenceNumber) returns (r: Lookup)
    requires ValidFiles(fs) && AgedLevel0(fs) && DistinctNumbers(fs)
    ensures Answers(FilesData(fs), u, s, r)
  {
    var tmp := [];
    for i := 0 to |fs|
      invariant forall f :: f in tmp <==> f in fs[..i] && InRange(f, u)
    {
      if u >= fs[i].smallest.user && u <= fs[i].largest.user {
        tmp := tmp + [fs[i]];
      }
      assert fs[..i + 1] == fs[..i] + [fs[i]];
    }
    assert fs[..|fs|] == fs;
    var files := SortNewestFirst(tmp);
    SortNewestFirstSorts(tmp);
    for i := 0 to |files|
      invariant Answers(FilesData(files[..i]), u, s, NotFound)
    {
      r := SearchTable(files[i], u, s);
      assert files[i] in fs;
      SearchTableAnswers(files[i], u, s);
      if r != NotFound {
        FirstAnswerIsNewest(fs, files, i, u, s, r);
        return;
      }
      forall x | x in FilesData(files[..i + 1])
        ensures x in FilesData(files[..i]) || x in FilesData([files[i]])
      {
      }
    }
    forall x | x in FilesData(fs) && x.key.user == u
      ensures x in FilesData(files[..|files|])
    {
      var f :| f in fs && x in f.entries;
      EntriesWithinFile(f, x);
    }
    return NotFound;
  }

  lemma FirstAnswerIsNewest(fs: seq<File>, files: seq<File>, i: nat, u: UserKey, s: nat, r: Lookup)
    requires ValidFiles(fs) && AgedLevel0(fs) && DistinctNumbers(fs)
    requires forall f :: f in files <==> f in fs && InRange(f, u)
    requires NewestFirst(files) && i < |files| && r != NotFound
    requires Answers(FilesData(files[..i]), u, s, NotFound) && Answers(FilesData([files[i]]), u, s, r)
    ensures Answers(FilesData(fs), u, s, r)
  {
    var e :| IsNewest(FilesData([files[i]]), u, s, e) && r == Result(e);
    forall x | x in FilesData(fs) && x.key.user == u && x.key.sequence <= s
      ensures x.key.sequence <= e.key.sequence
    {
      var f :| f in fs && x in f.entries;
      EntriesWithinFile(f, x);
      var k :| 0 <= k < |files| && files[k] == f;
      assert files[i] in fs;
      if f.number == files[i].number {
        SameNumberSameFile(fs, f, files[i]);
      } else {
        assert x in FilesData([f]) && e in FilesData([files[i]]);
      }
    }
    assert e in FilesData(fs);
    assert IsNewest(FilesData(fs), u, s, e);
  }

  lemma SameNumberSameFile(fs: seq<File>, f: File, g: File)
    requires DistinctNumbers(fs) && f in fs && g in fs && f.number == g.number
    ensures f == g
  {
  }
}
