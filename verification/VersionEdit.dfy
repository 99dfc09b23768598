/** The MANIFEST record format: how a version edit is written as tagged fields and read back. */
module VersionEdits {
  import opened Coding
  import opened InternalKeys
  import opened Versions

  const COMPARATOR: nat := 1
  const LOG_NUMBER: nat := 2
  const NEXT_FILE_NUMBER: nat := 3
  const LAST_SEQUENCE: nat := 4
  const COMPACT_POINTER: nat := 5
  const DELETED_FILE: nat := 6
  const NEW_FILE: nat := 7
  const PREV_LOG_NUMBER: nat := 9

  /** An encoded internal key. */
  type Key = Bytes

  datatype FileMetaData = FileMetaData(number: nat, size: nat, smallest: Key, largest: Key)

  datatype Contents = Contents(
    comparator: Option<Bytes>, logNumber: Option<nat>, prevLogNumber: Option<nat>, nextFile: Option<nat>, lastSequence: Option<nat>,
    compactPointers: seq<(nat, Key)>, deletedFiles: seq<(nat, nat)>, newFiles: seq<(nat, FileMetaData)>)

  const FRESH := Contents(None, None, None, None, None, [], [], [])

  datatype Counter = LogNumber | PrevLogNumber | NextFileNumber | LastSequence

  /** One tagged field of the encoding. */
  datatype Field =
    | Comparator(name: Bytes)
    | Count(counter: Counter, number: nat)
    | CompactPointer(level: nat, key: Key)
    | DeletedFile(level: nat, number: nat)
    | NewFile(level: nat, file: FileMetaData)

  // ----- The format -----

  function TagOf(c: Counter): nat {
    match c
    case LogNumber => LOG_NUMBER
    case PrevLogNumber => PREV_LOG_NUMBER
    case NextFileNumber => NEXT_FILE_NUMBER
    case LastSequence => LAST_SEQUENCE
  }

  function FieldBytes(f: Field): Bytes {
    match f
    case Comparator(name) => Varint(COMPARATOR) + Prefixed(name)
    case Count(counter, n) => Varint(TagOf(counter)) + Varint(n)
    case CompactPointer(level, key) => Varint(COMPACT_POINTER) + (Varint(level) + Prefixed(key))
    case DeletedFile(level, n) => Varint(DELETED_FILE) + (Varint(level) + Varint(n))
    case NewFile(level, m) =>
      Varint(NEW_FILE) + (Varint(level) + (Varint(m.number) + (Varint(m.size) + (Prefixed(m.smallest) + Prefixed(m.largest)))))
  }

  function FieldsBytes(fs: seq<Field>): Bytes {
    if fs == [] then [] else FieldsBytes(fs[..|fs| - 1]) + FieldBytes(fs[|fs| - 1])
  }

  function NameField(o: Option<Bytes>): seq<Field> {
    if o.Some? then [Comparator(o.value)] else []
  }

  function CountField(counter: Counter, o: Option<nat>): seq<Field> {
    if o.Some? then [Count(counter, o.value)] else []
  }

  function Singles(c: Contents): seq<Field> {
    NameField(c.comparator) + CountField(LogNumber, c.logNumber) + CountField(PrevLogNumber, c.prevLogNumber)
    + CountField(NextFileNumber, c.nextFile) + CountField(LastSequence, c.lastSequence)
  }

  function Pointers(ps: seq<(nat, Key)>): seq<Field> {
    seq(|ps|, i requires 0 <= i < |ps| => CompactPointer(ps[i].0, ps[i].1))
  }

  function Deletions(ds: seq<(nat, nat)>): seq<Field> {
    seq(|ds|, i requires 0 <= i < |ds| => DeletedFile(ds[i].0, ds[i].1))
  }

  function Additions(ns: seq<(nat, FileMetaData)>): seq<Field> {
    seq(|ns|, i requires 0 <= i < |ns| => NewFile(ns[i].0, ns[i].1))
  }

  /** The fields of an edit in the order EncodeTo writes them. */
  function Fields(c: Contents): seq<Field> {
    Singles(c) + Pointers(c.compactPointers) + Deletions(c.deletedFiles) + Additions(c.newFiles)
  }

  /** The numbers fit their C++ types and the levels exist. */
  predicate FitsField(f: Field) {
    match f
    case Comparator(name) => |name| < TWO_32
    case Count(_, n) => n < TWO_64
    case CompactPointer(level, key) => level < NUM_LEVELS && |key| < TWO_32
    case DeletedFile(level, n) => level < NUM_LEVELS && n < TWO_64
    case NewFile(level, m) =>
      level < NUM_LEVELS && m.number < TWO_64 && m.size < TWO_64 && |m.smallest| < TWO_32 && |m.largest| < TWO_32
  }

  predicate FitFields(fs: seq<Field>) {
    forall i :: 0 <= i < |fs| ==> FitsField(fs[i])
  }

  // ----- Reading fields -----

  function ReadLevel(s: Bytes): (r: Parsed<nat>)
    ensures r.Parsed? ==> |r.rest| < |s| && r.value < NUM_LEVELS
  {
    var v := ReadVarint32(s);
    if v.Parsed? && v.value < NUM_LEVELS then v else Fail
  }

  function ReadMeta(s: Bytes): (r: Parsed<FileMetaData>)
    ensures r.Parsed? ==> |r.rest| < |s|
  {
    var number := ReadVarint64(s);
    if number.Fail? then Fail else
    var size := ReadVarint64(number.rest);
    if size.Fail? then Fail else
    var smallest := ReadPrefixed(size.rest);
    if smallest.Fail? then Fail else
    var largest := ReadPrefixed(smallest.rest);
    if largest.Fail? then Fail else Parsed(FileMetaData(number.value, size.value, smallest.value, largest.value), largest.rest)
  }

  function ReadCount(counter: Counter, s: Bytes): (r: Parsed<Field>)
    ensures r.Parsed? ==> |r.rest| < |s|
  {
    var n := ReadVarint64(s);
    if n.Fail? then Fail else Parsed(Count(counter, n.value), n.rest)
  }

  /** What a tag announces. */
  function ReadBody(tag: nat, s: Bytes): (r: Parsed<Field>)
    ensures r.Parsed? ==> |r.rest| < |s|
  {
    if tag == COMPARATOR then
      var name := ReadPrefixed(s);
      if name.Fail? then Fail else Parsed(Comparator(name.value), name.rest)
    else if tag == LOG_NUMBER then ReadCount(LogNumber, s)
    else if tag == PREV_LOG_NUMBER then ReadCount(PrevLogNumber, s)
    else if tag == NEXT_FILE_NUMBER then ReadCount(NextFileNumber, s)
    else if tag == LAST_SEQUENCE then ReadCount(LastSequence, s)
    else
      var level := ReadLevel(s);
      if level.Fail? then Fail
      else if tag == COMPACT_POINTER then
        var key := ReadPrefixed(level.rest);
        if key.Fail? then Fail else Parsed(CompactPointer(level.value, key.value), key.rest)
      else if tag == DELETED_FILE then
        var number := ReadVarint64(level.rest);
        if number.Fail? then Fail else Parsed(DeletedFile(level.value, number.value), number.rest)
      else if tag == NEW_FILE then
        var file := ReadMeta(level.rest);
        if file.Fail? then Fail else Parsed(NewFile(level.value, file.value), file.rest)
      else Fail
  }

  /** Every field up to the end of the input, or None if some byte does not fit the format. */
  function ReadFields(s: Bytes): Option<seq<Field>>
    decreases |s|
  {
    var tag := ReadVarint32(s);
    if tag.Fail? then (if s == [] then Some([]) else None) else
    var body := ReadBody(tag.value, tag.rest);
    if body.Fail? then None else
    Prepend([body.value], ReadFields(body.rest))
  }

  function Prepend(fs: seq<Field>, more: Option<seq<Field>>): Option<seq<Field>> {
    if more.None? then None else Some(fs + more.value)
  }

  lemma PrependTwice(fs: seq<Field>, gs: seq<Field>, more: Option<seq<Field>>)
    ensures Prepend(fs, Prepend(gs, more)) == Prepend(fs + gs, more) && Prepend([], more) == more
  {
    if more.Some? {
      assert fs + (gs + more.value) == fs + gs + more.value;
      assert [] + more.value == more.value;
    }
  }

  lemma MetaRoundTrip(m: FileMetaData, rest: Bytes)
    requires m.number < TWO_64 && m.size < TWO_64 && |m.smallest| < TWO_32 && |m.largest| < TWO_32
    ensures ReadMeta(Varint(m.number) + (Varint(m.size) + (Prefixed(m.smallest) + (Prefixed(m.largest) + rest)))) == Parsed(m, rest)
  {
    hide ReadVarint32, ReadVarint64, ReadPrefixed, Varint, Prefixed;
    PrefixedRoundTrip(m.largest, rest);
    PrefixedRoundTrip(m.smallest, Prefixed(m.largest) + rest);
    VarintRoundTrip(m.size, Prefixed(m.smallest) + (Prefixed(m.largest) + rest));
    VarintRoundTrip(m.number, Varint(m.size) + (Prefixed(m.smallest) + (Prefixed(m.largest) + rest)));
  }

  /** A field is read back as written, and reading stops right behind it. */
  lemma FieldRoundTrip(f: Field, rest: Bytes)
    requires FitsField(f)
    ensures var tag := ReadVarint32(FieldBytes(f) + rest);
      tag.Parsed? && ReadBody(tag.value, tag.rest) == Parsed(f, rest)
  {
    hide ReadVarint32, ReadVarint64, ReadPrefixed, Varint, Prefixed, ReadMeta;
    var s := FieldBytes(f) + rest;
    match f
    case Comparator(name) =>
      assert s == Varint(COMPARATOR) + (Prefixed(name) + rest);
      VarintRoundTrip(COMPARATOR, Prefixed(name) + rest);
      PrefixedRoundTrip(name, rest);
    case Count(counter, n) =>
      assert s == Varint(TagOf(counter)) + (Varint(n) + rest);
      VarintRoundTrip(TagOf(counter), Varint(n) + rest);
      VarintRoundTrip(n, rest);
    case CompactPointer(level, key) =>
      assert s == Varint(COMPACT_POINTER) + (Varint(level) + (Prefixed(key) + rest));
      VarintRoundTrip(COMPACT_POINTER, Varint(level) + (Prefixed(key) + rest));
      VarintRoundTrip(level, Prefixed(key) + rest);
      PrefixedRoundTrip(key, rest);
    case DeletedFile(level, n) =>
      assert s == Varint(DELETED_FILE) + (Varint(level) + (Varint(n) + rest));
      VarintRoundTrip(DELETED_FILE, Varint(level) + (Varint(n) + rest));
      VarintRoundTrip(level, Varint(n) + rest);
      VarintRoundTrip(n, rest);
    case NewFile(level, m) =>
      var body := Varint(m.number) + (Varint(m.size) + (Prefixed(m.smallest) + (Prefixed(m.largest) + rest)));
      assert s == Varint(NEW_FILE) + (Varint(level) + body);
      VarintRoundTrip(NEW_FILE, Varint(level) + body);
      VarintRoundTrip(level, body);
      MetaRoundTrip(m, rest);
  }

  lemma {:induction false} FieldsBytesCons(f: Field, fs: seq<Field>)
    ensures FieldsBytes([f] + fs) == FieldBytes(f) + FieldsBytes(fs)
  {
    hide FieldBytes;
    var all := [f] + fs;
    if fs == [] {
      assert all[..0] == [] && all[0] == f;
    } else {
      var n := |fs| - 1;
      assert all[..|all| - 1] == [f] + fs[..n];
      FieldsBytesCons(f, fs[..n]);
    }
  }

  lemma {:induction false} FieldsRoundTrip(fs: seq<Field>)
    requires FitFields(fs)
    ensures ReadFields(FieldsBytes(fs)) == Some(fs)
  {
    hide FieldBytes, FitsField, ReadBody, ReadVarint32;
    if fs == [] {
      EmptyInput();
    } else {
      assert fs == [fs[0]] + fs[1..];
      FieldsBytesCons(fs[0], fs[1..]);
      FieldRoundTrip(fs[0], FieldsBytes(fs[1..]));
      FieldsRoundTrip(fs[1..]);
    }
  }

  lemma EmptyInput()
    ensures ReadVarint32([]) == Fail
  {
  }

  // ----- What the fields mean -----

  predicate PairLess(a: (nat, nat), b: (nat, nat)) {
    a.0 < b.0 || (a.0 == b.0 && a.1 < b.1)
  }

  /** deleted_files_ is an ordered set. */
  predicate PairsAscend(ds: seq<(nat, nat)>) {
    forall i, j :: 0 <= i < j < |ds| ==> PairLess(ds[i], ds[j])
  }

  /** std::set::insert. */
  function InsertPair(ds: seq<(nat, nat)>, d: (nat, nat)): (r: seq<(nat, nat)>)
    ensures forall x :: x in r <==> x == d || x in ds
  {
    if ds == [] then [d]
    else if PairLess(d, ds[0]) then [d] + ds
    else if d == ds[0] then ds
    else [ds[0]] + InsertPair(ds[1..], d)
  }

  lemma {:induction false} InsertPairAscends(ds: seq<(nat, nat)>, d: (nat, nat))
    requires PairsAscend(ds)
    ensures PairsAscend(InsertPair(ds, d))
    ensures (forall x :: x in ds ==> PairLess(x, d)) ==> InsertPair(ds, d) == ds + [d]
  {
    if ds != [] && !PairLess(d, ds[0]) && d != ds[0] {
      InsertPairAscends(ds[1..], d);
      var rest := InsertPair(ds[1..], d);
      forall i | 0 <= i < |rest|
        ensures PairLess(ds[0], rest[i])
      {
        assert rest[i] in rest;
      }
    }
    if ds != [] {
      assert ds[0] in ds;
    }
  }

  function ApplyField(c: Contents, f: Field): Contents {
    match f
    case Comparator(name) => c.(comparator := Some(name))
    case Count(LogNumber, n) => c.(logNumber := Some(n))
    case Count(PrevLogNumber, n) => c.(prevLogNumber := Some(n))
    case Count(NextFileNumber, n) => c.(nextFile := Some(n))
    case Count(LastSequence, n) => c.(lastSequence := Some(n))
    case CompactPointer(level, key) => c.(compactPointers := c.compactPointers + [(level, key)])
    case DeletedFile(level, n) => c.(deletedFiles := InsertPair(c.deletedFiles, (level, n)))
    case NewFile(level, m) => c.(newFiles := c.newFiles + [(level, m)])
  }

  function ApplyFields(c: Contents, fs: seq<Field>): Contents
    decreases |fs|
  {
    if fs == [] then c else ApplyFields(ApplyField(c, fs[0]), fs[1..])
  }

  /** Clear forgets everything but the compaction pointers. */
  function Cleared(c: Contents): Contents {
    FRESH.(compactPointers := c.compactPointers)
  }

  lemma {:induction false} ApplyConcat(c: Contents, a: seq<Field>, b: seq<Field>)
    ensures ApplyFields(c, a + b) == ApplyFields(ApplyFields(c, a), b)
    decreases |a|
  {
    hide ApplyField;
    if a == [] {
      assert a + b == b;
    } else {
      assert (a + b)[1..] == a[1..] + b;
      ApplyConcat(ApplyField(c, a[0]), a[1..], b);
    }
  }

  lemma {:induction false} ApplyPointers(c: Contents, ps: seq<(nat, Key)>)
    ensures ApplyFields(c, Pointers(ps)) == c.(compactPointers := c.compactPointers + ps)
    decreases |ps|
  {
    if ps != [] {
      assert Pointers(ps)[1..] == Pointers(ps[1..]);
      ApplyPointers(c.(compactPointers := c.compactPointers + [ps[0]]), ps[1..]);
      assert c.compactPointers + [ps[0]] + ps[1..] == c.compactPointers + ps;
    }
  }

  lemma {:induction false} ApplyDeletions(c: Contents, ds: seq<(nat, nat)>)
    requires PairsAscend(c.deletedFiles + ds)
    ensures ApplyFields(c, Deletions(ds)) == c.(deletedFiles := c.deletedFiles + ds)
    decreases |ds|
  {
    if ds == [] {
      assert c.deletedFiles + ds == c.deletedFiles;
    } else {
      var all := c.deletedFiles + ds;
      assert Deletions(ds)[1..] == Deletions(ds[1..]);
      forall x | x in c.deletedFiles
        ensures PairLess(x, ds[0])
      {
        var i :| 0 <= i < |c.deletedFiles| && c.deletedFiles[i] == x;
        assert PairLess(all[i], all[|c.deletedFiles|]);
      }
      assert PairsAscend(c.deletedFiles) by {
        assert c.deletedFiles == all[..|c.deletedFiles|];
      }
      InsertPairAscends(c.deletedFiles, ds[0]);
      assert c.deletedFiles + [ds[0]] + ds[1..] == all;
      ApplyDeletions(c.(deletedFiles := c.deletedFiles + [ds[0]]), ds[1..]);
    }
  }

  lemma {:induction false} ApplyAdditions(c: Contents, ns: seq<(nat, FileMetaData)>)
    ensures ApplyFields(c, Additions(ns)) == c.(newFiles := c.newFiles + ns)
    decreases |ns|
  {
    if ns != [] {
      assert Additions(ns)[1..] == Additions(ns[1..]);
      ApplyAdditions(c.(newFiles := c.newFiles + [ns[0]]), ns[1..]);
      assert c.newFiles + [ns[0]] + ns[1..] == c.newFiles + ns;
    }
  }

  /** Decoding the fields of an edit into another one restores it, up to the pointers that one already held. */
  lemma FieldsRestore(c: Contents, used: Contents)
    requires PairsAscend(c.deletedFiles)
    ensures ApplyFields(Cleared(used), Fields(c)) == c.(compactPointers := used.compactPointers + c.compactPointers)
  {
    hide Pointers, Deletions, Additions, PairsAscend;
    var start := Cleared(used);
    var singles := c.(compactPointers := used.compactPointers, deletedFiles := [], newFiles := []);
    ApplySingles(c, start);
    var withPointers := singles.(compactPointers := used.compactPointers + c.compactPointers);
    ApplyPointers(singles, c.compactPointers);
    assert [] + c.deletedFiles == c.deletedFiles && [] + c.newFiles == c.newFiles;
    ApplyDeletions(withPointers, c.deletedFiles);
    ApplyAdditions(withPointers.(deletedFiles := c.deletedFiles), c.newFiles);
    ApplyConcat(start, Singles(c), Pointers(c.compactPointers));
    ApplyConcat(start, Singles(c) + Pointers(c.compactPointers), Deletions(c.deletedFiles));
    ApplyConcat(start, Singles(c) + Pointers(c.compactPointers) + Deletions(c.deletedFiles), Additions(c.newFiles));
  }

  lemma ApplySingles(c: Contents, start: Contents)
    requires start == FRESH.(compactPointers := start.compactPointers)
    ensures ApplyFields(start, Singles(c)) == c.(compactPointers := start.compactPointers, deletedFiles := [], newFiles := [])
  {
    hide ApplyFields, NameField, CountField;
    var a, b, d, e, f := NameField(c.comparator), CountField(LogNumber, c.logNumber), CountField(PrevLogNumber, c.prevLogNumber),
      CountField(NextFileNumber, c.nextFile), CountField(LastSequence, c.lastSequence);
    ApplyConcat(start, a, b);
    ApplyConcat(start, a + b, d);
    ApplyConcat(start, a + b + d, e);
    ApplyConcat(start, a + b + d + e, f);
    ApplyName(start, c.comparator);
    ApplyCount(ApplyFields(start, a), LogNumber, c.logNumber);
    ApplyCount(ApplyFields(start, a + b), PrevLogNumber, c.prevLogNumber);
    ApplyCount(ApplyFields(start, a + b + d), NextFileNumber, c.nextFile);
    ApplyCount(ApplyFields(start, a + b + d + e), LastSequence, c.lastSequence);
  }

  lemma ApplyName(c: Contents, o: Option<Bytes>)
    ensures ApplyFields(c, NameField(o)) == if o.Some? then c.(comparator := o) else c
  {
    if o.Some? {
      assert NameField(o)[1..] == [];
    }
  }

  lemma ApplyCount(c: Contents, counter: Counter, o: Option<nat>)
    ensures ApplyFields(c, CountField(counter, o)) == if o.Some? then ApplyField(c, Count(counter, o.value)) else c
  {
    if o.Some? {
      assert CountField(counter, o)[1..] == [];
    }
  }

  lemma FieldsBytesSnoc(fs: seq<Field>, f: Field)
    ensures FieldsBytes(fs + [f]) == FieldsBytes(fs) + FieldBytes(f)
  {
    assert (fs + [f])[..|fs|] == fs;
  }

  method PutField(dst: Bytes, f: Field) returns (r: Bytes)
    requires FitsField(f)
    ensures r == dst + FieldBytes(f)
  {
    hide Varint, Prefixed;
    match f
    case Comparator(name) =>
      r := PutVarint32(dst, COMPARATOR);
      r := PutPrefixed(r, name);
    case Count(counter, n) =>
      r := PutVarint32(dst, TagOf(counter));
      r := PutVarint64(r, n);
    case CompactPointer(level, key) =>
      r := PutVarint32(dst, COMPACT_POINTER);
      r := PutVarint32(r, level);
      r := PutPrefixed(r, key);
    case DeletedFile(level, n) =>
      r := PutVarint32(dst, DELETED_FILE);
      r := PutVarint32(r, level);
      r := PutVarint64(r, n);
    case NewFile(level, m) =>
      r := PutVarint32(dst, NEW_FILE);
      r := PutVarint32(r, level);
      ghost var head := r;
      r := PutVarint64(r, m.number);
      r := PutVarint64(r, m.size);
      r := PutPrefixed(r, m.smallest);
      r := PutPrefixed(r, m.largest);
      Reassociate(head, Varint(m.number), Varint(m.size), Prefixed(m.smallest), Prefixed(m.largest));
      Reassociate(dst, Varint(NEW_FILE), Varint(level), Varint(m.number) + (Varint(m.size) + (Prefixed(m.smallest) + Prefixed(m.largest))), []);
  }

  lemma Reassociate(a: Bytes, b: Bytes, c: Bytes, d: Bytes, e: Bytes)
    ensures a + b + c + d + e == a + (b + (c + (d + e)))
  {
    assert a + b + c + d + e == a + b + c + (d + e);
    assert a + b + c + (d + e) == a + b + (c + (d + e));
  }

  lemma OneField(f: Field)
    ensures FieldsBytes([f]) == FieldBytes(f)
  {
    hide FieldBytes;
    assert [f][..0] == [];
  }

  method PutName(dst: Bytes, o: Option<Bytes>) returns (r: Bytes)
    requires o.Some? ==> FitsField(Comparator(o.value))
    ensures r == dst + FieldsBytes(NameField(o))
  {
    hide FieldBytes, FieldsBytes, FitsField;
    r := dst;
    EmptyFields();
    if o.Some? {
      OneField(Comparator(o.value));
      r := PutField(r, Comparator(o.value));
    }
  }

  method PutCount(dst: Bytes, counter: Counter, o: Option<nat>) returns (r: Bytes)
    requires o.Some? ==> o.value < TWO_64
    ensures r == dst + FieldsBytes(CountField(counter, o))
  {
    hide FieldBytes, FieldsBytes;
    r := dst;
    EmptyFields();
    if o.Some? {
      OneField(Count(counter, o.value));
      r := PutField(r, Count(counter, o.value));
    }
  }

  lemma {:induction false} FieldsBytesConcat(a: seq<Field>, b: seq<Field>)
    ensures FieldsBytes(a + b) == FieldsBytes(a) + FieldsBytes(b)
  {
    hide FieldBytes;
    if b == [] {
      assert a + b == a;
    } else {
      var n := |b| - 1;
      assert (a + b)[..|a + b| - 1] == a + b[..n];
      FieldsBytesConcat(a, b[..n]);
    }
  }

  lemma SinglesBytes(c: Contents)
    ensures FieldsBytes(Singles(c)) == FieldsBytes(NameField(c.comparator)) + FieldsBytes(CountField(LogNumber, c.logNumber))
      + FieldsBytes(CountField(PrevLogNumber, c.prevLogNumber)) + FieldsBytes(CountField(NextFileNumber, c.nextFile))
      + FieldsBytes(CountField(LastSequence, c.lastSequence))
  {
    hide NameField, CountField, FieldsBytes;
    var a, b, d, e, f := NameField(c.comparator), CountField(LogNumber, c.logNumber), CountField(PrevLogNumber, c.prevLogNumber),
      CountField(NextFileNumber, c.nextFile), CountField(LastSequence, c.lastSequence);
    FieldsBytesConcat(a, b);
    FieldsBytesConcat(a + b, d);
    FieldsBytesConcat(a + b + d, e);
    FieldsBytesConcat(a + b + d + e, f);
  }

  /** Each field in bytes, its tag a number. */
  lemma TaggedFields(f: Field)
    ensures FieldBytes(f) ==
      match f
      case Comparator(name) => [1] + Prefixed(name)
      case Count(LogNumber, n) => [2] + Varint(n)
      case Count(NextFileNumber, n) => [3] + Varint(n)
      case Count(LastSequence, n) => [4] + Varint(n)
      case CompactPointer(level, key) => [5] + Varint(level) + Prefixed(key)
      case DeletedFile(level, n) => [6] + Varint(level) + Varint(n)
      case NewFile(level, m) => [7] + Varint(level) + Varint(m.number) + Varint(m.size) + Prefixed(m.smallest) + Prefixed(m.largest)
      case Count(PrevLogNumber, n) => [9] + Varint(n)
  {
    SmallTags();
    hide Varint, Prefixed;
    match f {
      case CompactPointer(level, key) =>
        assert [5] + (Varint(level) + Prefixed(key)) == [5] + Varint(level) + Prefixed(key);
      case DeletedFile(level, n) =>
        assert [6] + (Varint(level) + Varint(n)) == [6] + Varint(level) + Varint(n);
      case NewFile(level, m) =>
        Reassociate([7] + Varint(level), Varint(m.number), Varint(m.size), Prefixed(m.smallest), Prefixed(m.largest));
        assert [7] + (Varint(level) + (Varint(m.number) + (Varint(m.size) + (Prefixed(m.smallest) + Prefixed(m.largest)))))
          == [7] + Varint(level) + (Varint(m.number) + (Varint(m.size) + (Prefixed(m.smallest) + Prefixed(m.largest))));
      case _ =>
    }
  }

  lemma SmallTags()
    ensures forall t: nat :: 0 < t < 128 ==> Varint(t) == [t]
  {
  }

  /** The bytes of an edit: the comparator's name, the four counters, the pointers, the deletions, the additions. */
  lemma EditBytes(c: Contents)
    ensures FieldsBytes(Fields(c)) ==
      (if c.comparator.Some? then [1] + Prefixed(c.comparator.value) else [])
      + (if c.logNumber.Some? then [2] + Varint(c.logNumber.value) else [])
      + (if c.prevLogNumber.Some? then [9] + Varint(c.prevLogNumber.value) else [])
      + (if c.nextFile.Some? then [3] + Varint(c.nextFile.value) else [])
      + (if c.lastSequence.Some? then [4] + Varint(c.lastSequence.value) else [])
      + FieldsBytes(Pointers(c.compactPointers)) + FieldsBytes(Deletions(c.deletedFiles)) + FieldsBytes(Additions(c.newFiles))
  {
    hide Pointers, Deletions, Additions, Singles, Varint, Prefixed, FieldBytes, FieldsBytes;
    SinglesBytes(c);
    var a, b, d := Singles(c), Pointers(c.compactPointers), Deletions(c.deletedFiles);
    FieldsBytesConcat(a, b);
    FieldsBytesConcat(a + b, d);
    FieldsBytesConcat(a + b + d, Additions(c.newFiles));
    EmptyFields();
    if c.comparator.Some? { OneTaggedField(Comparator(c.comparator.value)); }
    if c.logNumber.Some? { OneTaggedField(Count(LogNumber, c.logNumber.value)); }
    if c.prevLogNumber.Some? { OneTaggedField(Count(PrevLogNumber, c.prevLogNumber.value)); }
    if c.nextFile.Some? { OneTaggedField(Count(NextFileNumber, c.nextFile.value)); }
    if c.lastSequence.Some? { OneTaggedField(Count(LastSequence, c.lastSequence.value)); }
  }

  lemma OneTaggedField(f: Field)
    ensures FieldsBytes([f]) == FieldBytes(f)
    ensures f.Comparator? ==> FieldBytes(f) == [1] + Prefixed(f.name)
    ensures f.Count? ==> FieldBytes(f) == [if f.counter.LogNumber? then 2 else if f.counter.PrevLogNumber? then 9
                                           else if f.counter.NextFileNumber? then 3 else 4] + Varint(f.number)
  {
    OneField(f);
    TaggedFields(f);
  }

  /** Each pointer, deletion and addition is written behind those before it, in the order of the lists. */
  lemma ListBytes(ps: seq<(nat, Key)>, ds: seq<(nat, nat)>, ns: seq<(nat, FileMetaData)>)
    ensures ps != [] ==> var p := ps[|ps| - 1];
      FieldsBytes(Pointers(ps)) == FieldsBytes(Pointers(ps[..|ps| - 1])) + ([5] + Varint(p.0) + Prefixed(p.1))
    ensures ds != [] ==> var x := ds[|ds| - 1];
      FieldsBytes(Deletions(ds)) == FieldsBytes(Deletions(ds[..|ds| - 1])) + ([6] + Varint(x.0) + Varint(x.1))
    ensures ns != [] ==> var (level, m) := ns[|ns| - 1];
      FieldsBytes(Additions(ns)) == FieldsBytes(Additions(ns[..|ns| - 1]))
        + ([7] + Varint(level) + Varint(m.number) + Varint(m.size) + Prefixed(m.smallest) + Prefixed(m.largest))
  {
    hide Varint, Prefixed, FieldBytes;
    if ps != [] {
      var p := ps[|ps| - 1];
      assert Pointers(ps)[..|ps| - 1] == Pointers(ps[..|ps| - 1]);
      TaggedFields(CompactPointer(p.0, p.1));
    }
    if ds != [] {
      var x := ds[|ds| - 1];
      assert Deletions(ds)[..|ds| - 1] == Deletions(ds[..|ds| - 1]);
      TaggedFields(DeletedFile(x.0, x.1));
    }
    if ns != [] {
      var n := ns[|ns| - 1];
      assert Additions(ns)[..|ns| - 1] == Additions(ns[..|ns| - 1]);
      TaggedFields(NewFile(n.0, n.1));
    }
  }

  /** Whatever bytes an edit is decoded from, its levels exist and its numbers fit their types. */
  lemma {:induction false} AcceptedFit(s: Bytes)
    requires ReadFields(s).Some?
    ensures FitFields(ReadFields(s).value)
    ensures forall f :: f in ReadFields(s).value && (f.CompactPointer? || f.DeletedFile? || f.NewFile?) ==> f.level < 7
    decreases |s|
  {
    hide ReadBody, FitsField;
    var tag := ReadVarint32(s);
    if tag.Parsed? {
      var body := ReadBody(tag.value, tag.rest);
      BodyFits(tag.value, tag.rest);
      AcceptedFit(body.rest);
    }
  }

  lemma BodyFits(tag: nat, s: Bytes)
    requires ReadBody(tag, s).Parsed?
    ensures var f := ReadBody(tag, s).value;
      FitsField(f) && (f.CompactPointer? || f.DeletedFile? || f.NewFile? ==> f.level < 7)
  {
    hide ReadVarint32, ReadVarint64, ReadPrefixed;
  }

  /** A tag that no field has, or a level that does not exist, fails the whole edit, as does a tag cut short. */
  lemma BadFieldFails(tag: nat, level: nat, s: Bytes)
    requires tag < 0x1_0000_0000 && level < 0x1_0000_0000
    ensures tag !in {1, 2, 3, 4, 5, 6, 7, 9} ==> ReadFields(Varint(tag) + s) == None
    ensures tag in {5, 6, 7} && level >= 7 ==> ReadFields(Varint(tag) + (Varint(level) + s)) == None
    ensures s != [] && ReadVarint32(s).Fail? ==> ReadFields(s) == None
  {
    hide ReadVarint32, Varint, ReadPrefixed, ReadVarint64, ReadMeta;
    VarintRoundTrip(tag, s);
    VarintRoundTrip(tag, Varint(level) + s);
    VarintRoundTrip(level, s);
  }

  // ----- The edit object -----

  class VersionEdit {
    var comparator: Option<Bytes>
    var logNumber: Option<nat>
    var prevLogNumber: Option<nat>
    var nextFile: Option<nat>
    var lastSequence: Option<nat>
    var compactPointers: seq<(nat, Key)>
    var deletedFiles: seq<(nat, nat)>
    var newFiles: seq<(nat, FileMetaData)>

    ghost function Value(): Contents
      reads this
    {
      Contents(comparator, logNumber, prevLogNumber, nextFile, lastSequence, compactPointers, deletedFiles, newFiles)
    }

    constructor ()
      ensures Value() == FRESH
    {
      comparator, logNumber, prevLogNumber, nextFile, lastSequence := None, None, None, None, None;
      compactPointers, deletedFiles, newFiles := [], [], [];
    }

    method EncodeTo(dst: Bytes) returns (r: Bytes)
      requires FitFields(Fields(Value()))
      ensures r == dst + FieldsBytes(Fields(Value()))
    {
      hide FieldBytes, FitsField, FitFields, FieldsBytes, Singles, Pointers, Deletions, Additions;
      r := PutSingles(dst);
      ghost var c := Value();
      ghost var first := Singles(c);
      PartsStart(c);
      for i := 0 to |compactPointers|
        invariant r == dst + FieldsBytes(first + Pointers(compactPointers[..i]))
      {
        PointerNext(c, i, first);
        r := PutField(r, CompactPointer(compactPointers[i].0, compactPointers[i].1));
      }
      assert compactPointers[..|compactPointers|] == compactPointers;
      ghost var second := first + Pointers(compactPointers);
      for i := 0 to |deletedFiles|
        invariant r == dst + FieldsBytes(second + Deletions(deletedFiles[..i]))
      {
        DeletionNext(c, i, second);
        r := PutField(r, DeletedFile(deletedFiles[i].0, deletedFiles[i].1));
      }
      assert deletedFiles[..|deletedFiles|] == deletedFiles;
      ghost var third := second + Deletions(deletedFiles);
      for i := 0 to |newFiles|
        invariant r == dst + FieldsBytes(third + Additions(newFiles[..i]))
      {
        AdditionNext(c, i, third);
        r := PutField(r, NewFile(newFiles[i].0, newFiles[i].1));
      }
      assert newFiles[..|newFiles|] == newFiles;
    }

    method PutSingles(dst: Bytes) returns (r: Bytes)
      requires FitFields(Fields(Value()))
      ensures r == dst + FieldsBytes(Singles(Value()))
    {
      hide FieldBytes, FitsField, FieldsBytes, NameField, CountField;
      SinglesFit(Value());
      SinglesBytes(Value());
      r := PutName(dst, comparator);
      r := PutCount(r, LogNumber, logNumber);
      r := PutCount(r, PrevLogNumber, prevLogNumber);
      r := PutCount(r, NextFileNumber, nextFile);
      r := PutCount(r, LastSequence, lastSequence);
    }

    method Clear()
      modifies this
      ensures Value() == Cleared(old(Value()))
    {
      comparator, logNumber, prevLogNumber, nextFile, lastSequence := None, None, None, None, None;
      deletedFiles, newFiles := [], [];
    }

    /** Reads an encoded edit into this one; fails exactly when some byte does not fit the format. */
    method DecodeFrom(src: Bytes) returns (ok: bool)
      modifies this
      ensures ok <==> ReadFields(src).Some?
      ensures ok ==> Value() == ApplyFields(Cleared(old(Value())), ReadFields(src).value)
    {
      hide ReadBody, TakeVarint, ApplyFields;
      ghost var start, done := Cleared(Value()), [];
      Clear();
      ApplyNothing(start);
      PrependTwice([], [], ReadFields(src));
      var input := src;
      while true
        invariant Value() == ApplyFields(start, done)
        invariant ReadFields(src) == Prepend(done, ReadFields(input))
        decreases |input|
      {
        var tag := GetVarint(input, 5, TWO_32);
        if tag.Fail? {
          break;
        }
        var body := ReadBody(tag.value, tag.rest);
        if body.Fail? {
          return false;
        }
        ApplySnoc(start, done, body.value);
        PrependTwice(done, [body.value], ReadFields(body.rest));
        Assign(body.value);
        done := done + [body.value];
        input := body.rest;
      }
      ok := input == [];
      assert done + [] == done;
    }

    /** The assignment each case of DecodeFrom's switch ends with. */
    method Assign(f: Field)
      modifies this
      ensures Value() == ApplyField(old(Value()), f)
    {
      match f
      case Comparator(name) => comparator := Some(name);
      case Count(LogNumber, n) => logNumber := Some(n);
      case Count(PrevLogNumber, n) => prevLogNumber := Some(n);
      case Count(NextFileNumber, n) => nextFile := Some(n);
      case Count(LastSequence, n) => lastSequence := Some(n);
      case CompactPointer(level, key) => compactPointers := compactPointers + [(level, key)];
      case DeletedFile(level, n) => deletedFiles := InsertPair(deletedFiles, (level, n));
      case NewFile(level, m) => newFiles := newFiles + [(level, m)];
    }
  }

  lemma EmptyFields()
    ensures FieldsBytes([]) == []
  {
  }

  lemma ApplyNothing(c: Contents)
    ensures ApplyFields(c, []) == c
  {
  }

  lemma ApplySnoc(c: Contents, fs: seq<Field>, f: Field)
    ensures ApplyFields(c, fs + [f]) == ApplyField(ApplyFields(c, fs), f)
  {
    ApplyConcat(c, fs, [f]);
    assert [f][1..] == [];
  }

  lemma SinglesFit(c: Contents)
    requires FitFields(Fields(c))
    ensures c.comparator.Some? ==> FitsField(Comparator(c.comparator.value))
    ensures c.logNumber.Some? ==> c.logNumber.value < TWO_64
    ensures c.prevLogNumber.Some? ==> c.prevLogNumber.value < TWO_64
    ensures c.nextFile.Some? ==> c.nextFile.value < TWO_64
    ensures c.lastSequence.Some? ==> c.lastSequence.value < TWO_64
  {
    var a, b, d, e, f := NameField(c.comparator), CountField(LogNumber, c.logNumber), CountField(PrevLogNumber, c.prevLogNumber),
      CountField(NextFileNumber, c.nextFile), CountField(LastSequence, c.lastSequence);
    forall i | 0 <= i < |Singles(c)|
      ensures FitsField(Singles(c)[i])
    {
      assert Fields(c)[i] == Singles(c)[i];
    }
    assert a != [] ==> Singles(c)[0] == a[0];
    assert b != [] ==> Singles(c)[|a|] == b[0];
    assert d != [] ==> Singles(c)[|a + b|] == d[0];
    assert e != [] ==> Singles(c)[|a + b + d|] == e[0];
    assert f != [] ==> Singles(c)[|a + b + d + e|] == f[0];
  }

  lemma PartsStart(c: Contents)
    ensures forall s: seq<Field> :: s + Pointers(c.compactPointers[..0]) == s
    ensures forall s: seq<Field> :: s + Deletions(c.deletedFiles[..0]) == s
    ensures forall s: seq<Field> :: s + Additions(c.newFiles[..0]) == s
  {
  }

  lemma PointerNext(c: Contents, i: nat, before: seq<Field>)
    requires i < |c.compactPointers| && FitFields(Fields(c))
    ensures var f := CompactPointer(c.compactPointers[i].0, c.compactPointers[i].1);
      FitsField(f) && FieldsBytes(before + Pointers(c.compactPointers[..i + 1]))
                   == FieldsBytes(before + Pointers(c.compactPointers[..i])) + FieldBytes(f)
  {
    hide FieldBytes, FitsField;
    var f := CompactPointer(c.compactPointers[i].0, c.compactPointers[i].1);
    assert Fields(c)[|Singles(c)| + i] == f;
    assert before + Pointers(c.compactPointers[..i + 1]) == before + Pointers(c.compactPointers[..i]) + [f];
    FieldsBytesSnoc(before + Pointers(c.compactPointers[..i]), f);
  }

  lemma DeletionNext(c: Contents, i: nat, before: seq<Field>)
    requires i < |c.deletedFiles| && FitFields(Fields(c))
    ensures var f := DeletedFile(c.deletedFiles[i].0, c.deletedFiles[i].1);
      FitsField(f) && FieldsBytes(before + Deletions(c.deletedFiles[..i + 1]))
                   == FieldsBytes(before + Deletions(c.deletedFiles[..i])) + FieldBytes(f)
  {
    hide FieldBytes, FitsField;
    var f := DeletedFile(c.deletedFiles[i].0, c.deletedFiles[i].1);
    assert Fields(c)[|Singles(c)| + |c.compactPointers| + i] == f;
    assert before + Deletions(c.deletedFiles[..i + 1]) == before + Deletions(c.deletedFiles[..i]) + [f];
    FieldsBytesSnoc(before + Deletions(c.deletedFiles[..i]), f);
  }

  lemma AdditionNext(c: Contents, i: nat, before: seq<Field>)
    requires i < |c.newFiles| && FitFields(Fields(c))
    ensures var f := NewFile(c.newFiles[i].0, c.newFiles[i].1);
      FitsField(f) && FieldsBytes(before + Additions(c.newFiles[..i + 1]))
                   == FieldsBytes(before + Additions(c.newFiles[..i])) + FieldBytes(f)
  {
    hide FieldBytes, FitsField;
    var f := NewFile(c.newFiles[i].0, c.newFiles[i].1);
    assert Fields(c)[|Singles(c)| + |c.compactPointers| + |c.deletedFiles| + i] == f;
    assert before + Additions(c.newFiles[..i + 1]) == before + Additions(c.newFiles[..i]) + [f];
    FieldsBytesSnoc(before + Additions(c.newFiles[..i]), f);
  }

  /** Decoding inverts encoding: on a fresh edit exactly, and on a used one up to the compaction pointers,
      which Clear does not forget. */
  lemma DecodeInvertsEncode(c: Contents, used: Contents)
    requires PairsAscend(c.deletedFiles) && FitFields(Fields(c))
    ensures ReadFields(FieldsBytes(Fields(c))).Some?
    ensures ApplyFields(Cleared(used), ReadFields(FieldsBytes(Fields(c))).value)
         == c.(compactPointers := used.compactPointers + c.compactPointers)
    ensures ApplyFields(Cleared(FRESH), ReadFields(FieldsBytes(Fields(c))).value) == c
  {
    FieldsRoundTrip(Fields(c));
    FieldsRestore(c, used);
    FieldsRestore(c, FRESH);
    assert [] + c.compactPointers == c.compactPointers;
  }
}
