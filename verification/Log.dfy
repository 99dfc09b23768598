/** The log file format: how a record is cut into fragments that never cross a block, and where the bytes
    of a list of fragments lie. */
module LogFormat {
  import opened Coding

  type Word = w: seq<Byte> | |w| == 4 witness [0, 0, 0, 0]

  /** The masked checksum of a fragment's type and payload; any function will do. */
  type Checksum = (Byte, seq<Byte>) -> Word

  const BLOCK_SIZE: nat := 32768
  const HEADER_SIZE: nat := 7

  const ZERO_TYPE: Byte := 0
  const FULL_TYPE: Byte := 1
  const FIRST_TYPE: Byte := 2
  const MIDDLE_TYPE: Byte := 3
  const LAST_TYPE: Byte := 4

  datatype Fragment = Fragment(kind: Byte, payload: seq<Byte>)

  function Zeros(n: nat): seq<Byte> {
    seq(n, _ => 0)
  }

  /** Trailer bytes too few for a header are filled with zeros. */
  function Padding(offset: nat): nat
    requires offset <= BLOCK_SIZE
  {
    if BLOCK_SIZE - offset < HEADER_SIZE then BLOCK_SIZE - offset else 0
  }

  /** Where in its block the next fragment starts. */
  function Start(offset: nat): nat
    requires offset <= BLOCK_SIZE
  {
    if BLOCK_SIZE - offset < HEADER_SIZE then 0 else offset
  }

  function Kind(begin: bool, end: bool): Byte {
    if begin && end then FULL_TYPE else if begin then FIRST_TYPE else if end then LAST_TYPE else MIDDLE_TYPE
  }

  function Physical(crc: Checksum, f: Fragment): seq<Byte>
    requires |f.payload| <= 0xffff
  {
    crc(f.kind, f.payload) + [|f.payload| % 256, |f.payload| / 256, f.kind] + f.payload
  }

  /** A record's fragments from a block offset; begin tells whether this is the record's first. */
  ghost function Split(offset: nat, data: seq<Byte>, begin: bool): seq<Fragment>
    requires offset <= BLOCK_SIZE
    decreases |data|, BLOCK_SIZE - HEADER_SIZE == Start(offset)
  {
    var avail := BLOCK_SIZE - Start(offset) - HEADER_SIZE;
    var n := if |data| < avail then |data| else avail;
    var first := [Fragment(Kind(begin, n == |data|), data[..n])];
    if n == |data| then first else first + Split(After(first[0], offset), data[n..], false)
  }

  /** The fragments stay inside their blocks. */
  ghost predicate Fits(frags: seq<Fragment>, offset: nat) {
    offset <= BLOCK_SIZE && (frags != [] ==>
      && FULL_TYPE <= frags[0].kind <= LAST_TYPE
      && After(frags[0], offset) <= BLOCK_SIZE
      && Fits(frags[1..], After(frags[0], offset)))
  }

  ghost function Layout(crc: Checksum, frags: seq<Fragment>, offset: nat): seq<Byte>
    requires Fits(frags, offset)
    decreases |frags|
  {
    if frags == [] then [] else Placed(crc, frags[0], offset) + Layout(crc, frags[1..], After(frags[0], offset))
  }

  /** A fragment with the padding in front of it. */
  function Placed(crc: Checksum, f: Fragment, offset: nat): seq<Byte>
    requires offset <= BLOCK_SIZE && |f.payload| <= 0xffff
  {
    Zeros(Padding(offset)) + Physical(crc, f)
  }

  /** The block offset after a fragment. */
  function After(f: Fragment, offset: nat): nat
    requires offset <= BLOCK_SIZE
  {
    Start(offset) + HEADER_SIZE + |f.payload|
  }

  /** The block offset after the fragments. */
  ghost function EndOffset(frags: seq<Fragment>, offset: nat): nat
    requires Fits(frags, offset)
    ensures EndOffset(frags, offset) <= BLOCK_SIZE
    decreases |frags|
  {
    if frags == [] then offset else EndOffset(frags[1..], After(frags[0], offset))
  }

  lemma {:induction false} SplitFits(offset: nat, data: seq<Byte>, begin: bool)
    requires offset <= BLOCK_SIZE
    ensures Fits(Split(offset, data, begin), offset) && Split(offset, data, begin) != []
    decreases |data|, BLOCK_SIZE - HEADER_SIZE == Start(offset)
  {
    var avail := BLOCK_SIZE - Start(offset) - HEADER_SIZE;
    if |data| > avail {
      SplitFits(Start(offset) + HEADER_SIZE + avail, data[avail..], false);
      assert Split(offset, data, begin)[1..] == Split(Start(offset) + HEADER_SIZE + avail, data[avail..], false);
    }
  }

  lemma {:induction false} FitsConcat(a: seq<Fragment>, b: seq<Fragment>, offset: nat)
    requires Fits(a, offset) && Fits(b, EndOffset(a, offset))
    ensures Fits(a + b, offset) && EndOffset(a + b, offset) == EndOffset(b, EndOffset(a, offset))
    decreases |a|
  {
    if a == [] {
      assert a + b == b;
    } else {
      FitsConcat(a[1..], b, After(a[0], offset));
      assert (a + b)[1..] == a[1..] + b;
    }
  }

  lemma {:induction false} LayoutConcat(crc: Checksum, a: seq<Fragment>, b: seq<Fragment>, offset: nat)
    requires Fits(a, offset) && Fits(b, EndOffset(a, offset))
    ensures Fits(a + b, offset)
    ensures Layout(crc, a + b, offset) == Layout(crc, a, offset) + Layout(crc, b, EndOffset(a, offset))
    decreases |a|
  {
    hide Placed, Physical;
    FitsConcat(a, b, offset);
    if a == [] {
      assert a + b == b;
      assert [] + Layout(crc, b, offset) == Layout(crc, b, offset);
    } else {
      var at := After(a[0], offset);
      LayoutConcat(crc, a[1..], b, at);
      assert (a + b)[1..] == a[1..] + b && (a + b)[0] == a[0];
      var p, x, y := Placed(crc, a[0], offset), Layout(crc, a[1..], at), Layout(crc, b, EndOffset(a, offset));
      assert p + (x + y) == p + x + y;
    }
  }

  /** The four kinds of fragments, by whether one begins and ends its record. */
  lemma KindNumbers()
    ensures Kind(true, true) == 1 && Kind(true, false) == 2 && Kind(false, false) == 3 && Kind(false, true) == 4
  {
  }

  /** A block is 32 KB; what cannot hold a seven-byte header is zero, and a header is a checksum of kind and payload,
      the length with its low byte first, and the kind. */
  lemma PlacedBytes(crc: Checksum, f: Fragment, offset: nat)
    requires offset <= 32768 && |f.payload| <= 0xffff
    ensures offset <= BLOCK_SIZE
    ensures Placed(crc, f, offset) == (if offset > 32761 then seq(32768 - offset, _ => 0) else [])
      + (crc(f.kind, f.payload) + [|f.payload| % 256, |f.payload| / 256, f.kind] + f.payload)
    ensures After(f, offset) == (if offset > 32761 then 0 else offset) + 7 + |f.payload|
  {
  }

  /** A record that fits behind a header in the first block is one fragment; a longer one fills the block. */
  lemma FirstBlock(crc: Checksum, record: seq<Byte>)
    ensures |record| <= 32761 ==>
      LogBytes(crc, [record]) == crc(1, record) + [|record| % 256, |record| / 256, 1] + record
    ensures |record| > 32761 ==>
      crc(2, record[..32761]) + [0xf9, 0x7f, 2] + record[..32761] <= LogBytes(crc, [record])
      && |LogBytes(crc, [record])| > 32768
  {
    SplitFits(0, record, true);
    var frags := Split(0, record, true);
    assert [record][1..] == [];
    assert SplitAll(0, [record]) == frags + [];
    assert frags + [] == frags;
    var f := frags[0];
    PlacedBytes(crc, f, 0);
    assert Layout(crc, frags, 0) == Placed(crc, f, 0) + Layout(crc, frags[1..], After(f, 0));
    if |record| <= 32761 {
      assert f == Fragment(1, record[..|record|]) && record[..|record|] == record;
      assert frags[1..] == [];
    } else {
      assert f == Fragment(2, record[..32761]);
      SplitFits(32768, record[32761..], false);
      assert frags[1..] == Split(32768, record[32761..], false);
      NonEmptyLayout(crc, frags[1..], After(f, 0));
    }
  }

  lemma NonEmptyLayout(crc: Checksum, frags: seq<Fragment>, offset: nat)
    requires Fits(frags, offset) && frags != []
    ensures |Layout(crc, frags, offset)| > 0
  {
  }

  /** All the fragments of a list of records. */
  ghost function SplitAll(offset: nat, records: seq<seq<Byte>>): (frags: seq<Fragment>)
    requires offset <= BLOCK_SIZE
    ensures Fits(frags, offset)
    decreases |records|
  {
    if records == [] then [] else
      SplitFits(offset, records[0], true);
      var first := Split(offset, records[0], true);
      var rest := SplitAll(EndOffset(first, offset), records[1..]);
      FitsConcat(first, rest, offset);
      first + rest
  }

  ghost function LogBytes(crc: Checksum, records: seq<seq<Byte>>): seq<Byte> {
    Layout(crc, SplitAll(0, records), 0)
  }
}

/** log::Writer. */
module LogWriter {
  import opened Coding
  import opened LogFormat

  class Writer {
    const crc: Checksum
    var dest: seq<Byte>
    var blockOffset: nat
    ghost var records: seq<seq<Byte>>

    constructor (crc: Checksum)
      ensures Valid() && records == [] && dest == [] && this.crc == crc
    {
      this.crc, dest, blockOffset, records := crc, [], 0, [];
    }

    /** The file holds exactly the records added, laid out from the start of the file. */
    ghost predicate Valid()
      reads this
    {
      && blockOffset == EndOffset(SplitAll(0, records), 0)
      && dest == LogBytes(crc, records)
    }

    method EmitPhysicalRecord(kind: Byte, payload: seq<Byte>)
      requires |payload| <= 0xffff && blockOffset + HEADER_SIZE + |payload| <= BLOCK_SIZE
      modifies `dest, `blockOffset
      ensures dest == old(dest) + Physical(crc, Fragment(kind, payload))
      ensures blockOffset == old(blockOffset) + HEADER_SIZE + |payload|
    {
      var header := crc(kind, payload) + [|payload| % 256, |payload| / 256, kind];
      dest := dest + header + payload;
      blockOffset := blockOffset + HEADER_SIZE + |payload|;
    }

    /** One turn of the fragmenting loop: switch to a new block if no header fits, then emit as much as fits. */
    method EmitFragment(left: seq<Byte>, begin: bool) returns (rest: seq<Byte>, ghost f: Fragment)
      requires blockOffset <= BLOCK_SIZE
      modifies `dest, `blockOffset
      ensures blockOffset == After(f, old(blockOffset)) <= BLOCK_SIZE && Fits([f], old(blockOffset))
      ensures dest == old(dest) + Placed(crc, f, old(blockOffset))
      ensures Split(old(blockOffset), left, begin) == [f] + if rest == [] then [] else Split(blockOffset, rest, false)
      ensures |rest| < |left| || rest == [] || (rest == left && Start(old(blockOffset)) == BLOCK_SIZE - HEADER_SIZE && Start(blockOffset) == 0)
    {
      var leftover := BLOCK_SIZE - blockOffset;
      if leftover < HEADER_SIZE {
        dest := dest + Zeros(leftover);
        blockOffset := 0;
      } else {
        assert dest == dest + Zeros(0);
      }
      var avail := BLOCK_SIZE - blockOffset - HEADER_SIZE;
      var n := if |left| < avail then |left| else avail;
      var end := |left| == n;
      var kind := if begin && end then FULL_TYPE else if begin then FIRST_TYPE else if end then LAST_TYPE else MIDDLE_TYPE;
      EmitPhysicalRecord(kind, left[..n]);
      rest, f := left[n..], Fragment(kind, left[..n]);
      assert [f][1..] == [];
    }

    /** Cut the record into fragments and append them; an empty record still makes one fragment. */
    method AddRecord(slice: seq<Byte>)
      requires Valid()
      modifies this
      ensures Valid() && records == old(records) + [slice]
    {
      hide Placed, Physical, Split, Layout, EndOffset, Fits, SplitAll, LogBytes;
      AddedRecord(crc, records, slice);
      ghost var offset, all := blockOffset, Split(blockOffset, slice, true);
      var left, begin := slice, true;
      ghost var done: seq<Fragment> := [];
      EmptyLayout(crc, offset);
      assert [] + all == all;
      while true
        invariant blockOffset <= BLOCK_SIZE && Fits(done, offset)
        invariant done + Split(blockOffset, left, begin) == all
        invariant blockOffset == EndOffset(done, offset) && dest == old(dest) + Layout(crc, done, offset)
        invariant records == old(records)
        decreases |left|, BLOCK_SIZE - HEADER_SIZE == Start(blockOffset)
      {
        ghost var at := blockOffset;
        ghost var f;
        left, f := EmitFragment(left, begin);
        begin := false;
        PushFragment(crc, done, f, offset, at);
        assert left == [] ==> [f] + [] == [f];
        assert left != [] ==> done + ([f] + Split(blockOffset, left, false)) == (done + [f]) + Split(blockOffset, left, false);
        done := done + [f];
        if |left| == 0 {
          break;
        }
      }
      assert done == all;
      assert dest == old(dest) + Layout(crc, all, offset);
      assert dest == LogBytes(crc, records + [slice]);
      records := records + [slice];
    }
  }

  lemma EmptyLayout(crc: Checksum, offset: nat)
    requires offset <= BLOCK_SIZE
    ensures Fits([], offset) && Layout(crc, [], offset) == [] && EndOffset([], offset) == offset
  {
  }

  lemma PushFragment(crc: Checksum, done: seq<Fragment>, f: Fragment, offset: nat, at: nat)
    requires Fits(done, offset) && at == EndOffset(done, offset) && Fits([f], at)
    ensures Fits(done + [f], offset) && EndOffset(done + [f], offset) == After(f, at)
    ensures Layout(crc, done + [f], offset) == Layout(crc, done, offset) + Placed(crc, f, at)
  {
    hide Placed, Physical;
    FitsConcat(done, [f], offset);
    LayoutConcat(crc, done, [f], offset);
    assert [f][1..] == [];
    assert Layout(crc, [f], at) == Placed(crc, f, at) + [];
  }

  /** One more record goes after the bytes of the others. */
  lemma AddedRecord(crc: Checksum, records: seq<seq<Byte>>, slice: seq<Byte>)
    ensures var at := EndOffset(SplitAll(0, records), 0);
      && Fits(Split(at, slice, true), at)
      && LogBytes(crc, records + [slice]) == LogBytes(crc, records) + Layout(crc, Split(at, slice, true), at)
      && EndOffset(SplitAll(0, records + [slice]), 0) == EndOffset(Split(at, slice, true), at)
  {
    var at := EndOffset(SplitAll(0, records), 0);
    SplitFits(at, slice, true);
    SplitAllPush(0, records, slice);
    LayoutConcat(crc, SplitAll(0, records), Split(at, slice, true), 0);
    FitsConcat(SplitAll(0, records), Split(at, slice, true), 0);
  }

  lemma {:induction false} SplitAllPush(offset: nat, records: seq<seq<Byte>>, slice: seq<Byte>)
    requires offset <= BLOCK_SIZE
    ensures SplitAll(offset, records + [slice])
         == SplitAll(offset, records) + Split(EndOffset(SplitAll(offset, records), offset), slice, true)
    decreases |records|
  {
    if records == [] {
      assert [] + [slice] == [slice] && [slice][1..] == [];
      var first := Split(offset, slice, true);
      assert SplitAll(offset, [slice]) == first + [];
    } else {
      SplitFits(offset, records[0], true);
      var first := Split(offset, records[0], true);
      var at := EndOffset(first, offset);
      assert (records + [slice])[1..] == records[1..] + [slice];
      SplitAllPush(at, records[1..], slice);
      FitsConcat(first, SplitAll(at, records[1..]), offset);
    }
  }
}

/** log::Reader, reading a file from its start. */
module LogReader {
  import opened Coding
  import opened LogFormat

  const EOF: int := 5
  const BAD_RECORD: int := 6

  // ----- Parsing back what Layout wrote -----

  /** The rest of the file is a prefix of the bytes of the fragments. */
  ghost predicate Tracks(crc: Checksum, rest: seq<Byte>, frags: seq<Fragment>, offset: nat) {
    Fits(frags, offset) && rest <= Layout(crc, frags, offset)
  }

  /** The first fragment lies wholly in the rest of the file. */
  ghost predicate Whole(rest: seq<Byte>, frags: seq<Fragment>, offset: nat)
    requires offset <= BLOCK_SIZE
  {
    frags != [] && |rest| >= Padding(offset) + HEADER_SIZE + |frags[0].payload|
  }

  /** Skipping a block trailer. */
  lemma SkipTrailer(crc: Checksum, rest: seq<Byte>, frags: seq<Fragment>, offset: nat)
    requires Tracks(crc, rest, frags, offset) && BLOCK_SIZE - offset < HEADER_SIZE && |rest| >= BLOCK_SIZE - offset
    ensures Tracks(crc, rest[BLOCK_SIZE - offset..], frags, 0)
    ensures Whole(rest, frags, offset) <==> Whole(rest[BLOCK_SIZE - offset..], frags, 0)
  {
    if frags != [] {
      var pad := BLOCK_SIZE - offset;
      var f, tail := frags[0], Layout(crc, frags[1..], After(frags[0], offset));
      assert Layout(crc, frags, offset) == Zeros(pad) + (Physical(crc, f) + tail);
      assert Layout(crc, frags, 0) == Physical(crc, f) + tail by {
        assert Zeros(0) == [];
        assert Zeros(0) + Physical(crc, f) == Physical(crc, f);
      }
      assert Layout(crc, frags, offset)[pad..] == Layout(crc, frags, 0);
    }
  }

  /** A header read where a fragment starts is that fragment's header. */
  lemma ParseHeader(crc: Checksum, rest: seq<Byte>, frags: seq<Fragment>, offset: nat)
    requires Tracks(crc, rest, frags, offset) && BLOCK_SIZE - offset >= HEADER_SIZE && |rest| >= HEADER_SIZE
    ensures frags != []
    ensures var f := frags[0];
      && |f.payload| <= 0xffff && offset + HEADER_SIZE + |f.payload| <= BLOCK_SIZE && FULL_TYPE <= f.kind <= LAST_TYPE
      && rest[..4] == crc(f.kind, f.payload) && rest[4] as int + 256 * rest[5] as int == |f.payload| && rest[6] == f.kind
      && (Whole(rest, frags, offset) ==>
            && rest[HEADER_SIZE..HEADER_SIZE + |f.payload|] == f.payload
            && Tracks(crc, rest[HEADER_SIZE + |f.payload|..], frags[1..], offset + HEADER_SIZE + |f.payload|))
  {
    var f := frags[0];
    var n := HEADER_SIZE + |f.payload|;
    var tail := Layout(crc, frags[1..], After(f, offset));
    assert Layout(crc, frags, offset) == Physical(crc, f) + tail by {
      assert Zeros(0) == [];
      assert Zeros(0) + Physical(crc, f) == Physical(crc, f);
    }
    var p := Physical(crc, f);
    assert p[..4] == crc(f.kind, f.payload) && p[7..] == f.payload;
    assert rest[..4] == p[..4];
    if |rest| >= n {
      assert rest[..n] == p;
      assert rest[n..] <= tail;
    }
  }

  /** What reading one fragment must do on a file that is a prefix of these fragments: the first one comes back if
      it lies wholly in the file, and otherwise the file has ended. */
  ghost predicate FragmentRead(crc: Checksum, rest: seq<Byte>, offset: nat, frags: seq<Fragment>,
                               rest': seq<Byte>, offset': nat, kind: int, fragment: seq<Byte>)
    requires offset <= BLOCK_SIZE
  {
    Tracks(crc, rest, frags, offset) ==>
      if Whole(rest, frags, offset) then
        && kind == frags[0].kind && fragment == frags[0].payload
        && offset' == After(frags[0], offset) && rest' == rest[Padding(offset) + HEADER_SIZE + |frags[0].payload|..]
        && Tracks(crc, rest', frags[1..], offset')
      else kind == EOF
  }

  /** A position that only a block trailer, or nothing, separates from an earlier one. */
  ghost predicate Ahead(crc: Checksum, frags: seq<Fragment>, rest: seq<Byte>, offset: nat, rest': seq<Byte>, offset': nat)
    requires offset <= BLOCK_SIZE && offset' <= BLOCK_SIZE
  {
    && |rest'| <= |rest| && rest' == rest[|rest| - |rest'|..] && |rest| - |rest'| + Padding(offset') == Padding(offset)
    && (Tracks(crc, rest, frags, offset) ==>
      Tracks(crc, rest', frags, offset') && (Whole(rest', frags, offset') <==> Whole(rest, frags, offset)))
    && (frags != [] ==> After(frags[0], offset') == After(frags[0], offset))
  }

  lemma AheadTrailer(crc: Checksum, frags: seq<Fragment>, rest: seq<Byte>, offset: nat, rest': seq<Byte>, offset': nat)
    requires offset <= BLOCK_SIZE && offset' <= BLOCK_SIZE && Ahead(crc, frags, rest, offset, rest', offset')
    requires BLOCK_SIZE - offset' < HEADER_SIZE && |rest'| >= BLOCK_SIZE - offset'
    ensures Ahead(crc, frags, rest, offset, rest'[BLOCK_SIZE - offset'..], 0)
  {
    hide Tracks;
    var pad := BLOCK_SIZE - offset';
    assert rest'[pad..] == rest[|rest| - |rest'| + pad..];
    if Tracks(crc, rest', frags, offset') {
      SkipTrailer(crc, rest', frags, offset');
    }
  }

  lemma AheadRead(crc: Checksum, frags: seq<Fragment>, rest: seq<Byte>, offset: nat, rest': seq<Byte>, offset': nat,
                  rest2: seq<Byte>, offset2: nat, kind: int, fragment: seq<Byte>)
    requires offset <= BLOCK_SIZE && offset' <= BLOCK_SIZE && Ahead(crc, frags, rest, offset, rest', offset')
    requires FragmentRead(crc, rest', offset', frags, rest2, offset2, kind, fragment)
    ensures FragmentRead(crc, rest, offset, frags, rest2, offset2, kind, fragment)
  {
    hide Tracks;
    if Tracks(crc, rest, frags, offset) && Whole(rest, frags, offset) {
      var n := Padding(offset') + HEADER_SIZE + |frags[0].payload|;
      assert rest'[n..] == rest[|rest| - |rest'| + n..];
    }
  }

  lemma NothingAhead(crc: Checksum, frags: seq<Fragment>, rest: seq<Byte>, offset: nat)
    requires offset <= BLOCK_SIZE
    ensures Ahead(crc, frags, rest, offset, rest, offset)
  {
  }

  lemma AheadTracks(crc: Checksum, frags: seq<Fragment>, rest: seq<Byte>, offset: nat, rest': seq<Byte>, offset': nat)
    requires offset <= BLOCK_SIZE && offset' <= BLOCK_SIZE && Ahead(crc, frags, rest, offset, rest', offset')
    ensures Tracks(crc, rest, frags, offset) ==> Tracks(crc, rest', frags, offset')
  {
    hide Tracks, Whole;
  }

  lemma AheadEnd(crc: Checksum, frags: seq<Fragment>, rest: seq<Byte>, offset: nat, rest': seq<Byte>, offset': nat)
    requires offset <= BLOCK_SIZE && offset' <= BLOCK_SIZE && Ahead(crc, frags, rest, offset, rest', offset') && |rest'| < HEADER_SIZE
    ensures FragmentRead(crc, rest, offset, frags, [], 0, EOF, [])
    ensures forall r, o :: FragmentRead(crc, rest, offset, frags, r, o, EOF, [])
  {
    hide Tracks;
  }

  /** What a header at the front of the unread part of a block, n bytes of it, tells: only a torn tail makes a record
      that was written look too long, and a fragment that is all there checks out. */
  lemma HeaderDecides(crc: Checksum, rest: seq<Byte>, offset: nat, frags: seq<Fragment>, n: nat, eof: bool)
    requires offset <= BLOCK_SIZE && HEADER_SIZE <= n <= |rest| && n <= BLOCK_SIZE - offset
    requires if eof then n == |rest| else n == BLOCK_SIZE - offset
    ensures var length := rest[4] as int + 256 * rest[5] as int;
      && (HEADER_SIZE + length > n ==> if eof then AtEnd(crc, rest, offset, frags) else Untracked(crc, rest, offset, frags))
      && (rest[6] == ZERO_TYPE ==> Untracked(crc, rest, offset, frags))
      && (HEADER_SIZE + length <= n ==>
            if crc(rest[6], rest[HEADER_SIZE..HEADER_SIZE + length]) != rest[..4] then Untracked(crc, rest, offset, frags)
            else FragmentRead(crc, rest, offset, frags, rest[HEADER_SIZE + length..], offset + HEADER_SIZE + length,
                              rest[6], rest[HEADER_SIZE..HEADER_SIZE + length]))
  {
    hide Tracks;
    if Tracks(crc, rest, frags, offset) {
      ParseHeader(crc, rest, frags, offset);
    }
  }

  ghost predicate AtEnd(crc: Checksum, rest: seq<Byte>, offset: nat, frags: seq<Fragment>)
    requires offset <= BLOCK_SIZE
  {
    forall r, o :: FragmentRead(crc, rest, offset, frags, r, o, EOF, [])
  }

  ghost predicate Untracked(crc: Checksum, rest: seq<Byte>, offset: nat, frags: seq<Fragment>)
    requires offset <= BLOCK_SIZE
  {
    !Tracks(crc, rest, frags, offset) && forall r, o, k, f :: FragmentRead(crc, rest, offset, frags, r, o, k, f)
  }

  lemma Excused(crc: Checksum, rest: seq<Byte>, offset: nat, frags: seq<Fragment>, rest': seq<Byte>, offset': nat,
                kind: int, fragment: seq<Byte>, eof: bool)
    requires offset <= BLOCK_SIZE
    requires if eof then AtEnd(crc, rest, offset, frags) && kind == EOF && fragment == [] else Untracked(crc, rest, offset, frags)
    ensures FragmentRead(crc, rest, offset, frags, rest', offset', kind, fragment)
    ensures !eof ==> !Tracks(crc, rest, frags, offset)
  {
    hide Tracks, FragmentRead;
  }

  lemma PrefixSlice<T>(s: seq<T>, n: nat, a: nat, b: nat)
    requires a <= b <= n <= |s|
    ensures s[..n][a..b] == s[a..b]
  {
  }

  /** The file holds this fragment there, under a checksum that matches. */
  ghost predicate PhysicalAt(crc: Checksum, file: seq<Byte>, kind: Byte, payload: seq<Byte>, p: int) {
    && 0 <= p && p + 7 + |payload| <= |file| && file[p..p + 4] == crc(kind, payload)
    && file[p + 4] as int + 256 * file[p + 5] as int == |payload| && file[p + 6] == kind
    && file[p + 7..p + 7 + |payload|] == payload
  }

  function Joined(pieces: seq<seq<Byte>>): seq<Byte> {
    if pieces == [] then [] else Joined(pieces[..|pieces| - 1]) + pieces[|pieces| - 1]
  }

  /** At a block boundary. */
  predicate Aligned(p: int) {
    p % 32768 == 0
  }

  lemma AlignedNext(p: int)
    ensures Aligned(0) && (Aligned(p) ==> Aligned(p + BLOCK_SIZE))
  {
  }

  /** Where the next fragment may start: right here, or at the next block if less than a header is left of this one. */
  predicate Follows(end: int, p: int) {
    p == end || (end < p < end + 7 && Aligned(p))
  }

  lemma FollowsHere(p: int)
    ensures Follows(p, p)
  {
  }

  lemma NextBlock(end: int, p: int)
    requires end <= p < end + HEADER_SIZE && Aligned(p)
    ensures Follows(end, p)
  {
  }

  /** A first fragment and middle ones in the file, each right behind the one before it; end is where they end. */
  ghost predicate Begun(crc: Checksum, file: seq<Byte>, pieces: seq<seq<Byte>>, places: seq<int>, end: int) {
    && pieces != [] && |places| == |pieces| && end == places[|pieces| - 1] + 7 + |pieces[|pieces| - 1]|
    && (forall i :: 0 <= i < |pieces| ==> PhysicalAt(crc, file, if i == 0 then 2 else 3, pieces[i], places[i]))
    && forall i :: 0 < i < |pieces| ==> Follows(places[i - 1] + 7 + |pieces[i - 1]|, places[i])
  }

  /** The record is the payload of one full fragment of the file, or of a first, middle ones and a last, each right
      behind the one before it: nothing damaged is left out in between. */
  ghost predicate Assembled(crc: Checksum, file: seq<Byte>, record: seq<Byte>) {
    || (exists p :: PhysicalAt(crc, file, 1, record, p))
    || exists pieces, places, end, last, p ::
         && Begun(crc, file, pieces, places, end) && Follows(end, p) && PhysicalAt(crc, file, 4, last, p)
         && record == Joined(pieces) + last
  }

  lemma BegunMore(crc: Checksum, file: seq<Byte>, pieces: seq<seq<Byte>>, places: seq<int>, end: int, payload: seq<Byte>, p: int)
    requires Begun(crc, file, pieces, places, end) && Follows(end, p) && PhysicalAt(crc, file, 3, payload, p)
    ensures Begun(crc, file, pieces + [payload], places + [p], p + 7 + |payload|)
    ensures Joined(pieces + [payload]) == Joined(pieces) + payload
  {
    hide PhysicalAt, Follows, Aligned;
    assert (pieces + [payload])[..|pieces|] == pieces;
  }

  lemma BegunOne(crc: Checksum, file: seq<Byte>, payload: seq<Byte>, p: int)
    requires PhysicalAt(crc, file, 2, payload, p)
    ensures Begun(crc, file, [payload], [p], p + 7 + |payload|) && Joined([payload]) == payload
  {
    assert [payload][..0] == [] && Joined([]) == [];
  }

  class Reader {
    const crc: Checksum
    const file: seq<Byte>
    var filePos: nat
    var buffer: seq<Byte>
    var eof: bool
    var reported: nat  // corruption reports
    ghost var offset: nat  // where in its block the buffer starts

    constructor (crc: Checksum, file: seq<Byte>)
      ensures Valid() && Rest() == file && offset == BLOCK_SIZE && reported == 0 && this.crc == crc && this.file == file
    {
      hide Aligned;
      AlignedNext(0);
      this.crc, this.file, filePos, buffer, eof, reported := crc, file, 0, [], false, 0;
      offset := BLOCK_SIZE;
    }

    /** The buffer is the unread part of the block last read; a short block means the file has ended. */
    ghost predicate Valid()
      reads this
    {
      && |buffer| <= filePos <= |file| && buffer == file[filePos - |buffer|..filePos] && offset <= BLOCK_SIZE
      && (!eof ==> |buffer| == BLOCK_SIZE - offset && Aligned(filePos))
      && (eof ==> filePos == |file| && (|buffer| < BLOCK_SIZE - offset || buffer == []))
    }

    ghost function Rest(): seq<Byte>
      requires Valid()
      reads this
    {
      file[filePos - |buffer|..]
    }

    /** Where in the file the reader stands. */
    ghost function At(): int
      reads this
    {
      filePos - |buffer|
    }

    /** One fragment, the end of the file, or a bad record.  Whatever list of fragments the file is a prefix
        of, the next one comes back if it lies wholly in the file, and otherwise the file has ended: a torn
        tail is never reported as corruption. */
    method ReadPhysicalRecord(ghost frags: seq<Fragment>) returns (kind: int, fragment: seq<Byte>)
      requires Valid()
      modifies `filePos, `buffer, `eof, `reported, `offset
      ensures Valid() && |Rest()| <= |old(Rest())| && (kind != EOF ==> |Rest()| < |old(Rest())|)
      ensures old(Tracks(crc, Rest(), frags, offset)) ==> reported == old(reported)
      ensures FragmentRead(crc, old(Rest()), old(offset), frags, Rest(), offset, kind, fragment)
      ensures 1 <= kind <= 4 ==>
        PhysicalAt(crc, file, kind, fragment, At() - 7 - |fragment|) && Follows(old(At()), At() - 7 - |fragment|)
    {
      hide Tracks, Whole, Ahead, FragmentRead, PhysicalAt, Follows, Aligned;
      ghost var start, startOffset := Rest(), offset;
      Refill(frags);
      if |buffer| < HEADER_SIZE {
        AheadEnd(crc, frags, start, startOffset, Rest(), offset);
        buffer := [];
        return EOF, [];
      }
      ghost var rest, at := Rest(), offset;
      AheadTracks(crc, frags, start, startOffset, rest, at);
      ghost var front, position := buffer, filePos - |buffer|;
      kind, fragment := ParseRecord(frags);
      if 1 <= kind <= 4 {
        FragmentInFile(front, position, kind, fragment);
      }
      AheadRead(crc, frags, start, startOffset, rest, at, Rest(), offset, kind, fragment);
    }

    /** Skip block trailers until a header is in the buffer, or the file has ended. */
    method Refill(ghost frags: seq<Fragment>)
      requires Valid()
      modifies `filePos, `buffer, `eof, `offset
      ensures Valid() && |Rest()| <= |old(Rest())| && (|buffer| < HEADER_SIZE ==> eof)
      ensures Ahead(crc, frags, old(Rest()), old(offset), Rest(), offset)
      ensures |buffer| >= HEADER_SIZE ==> Follows(old(At()), At())
    {
      hide Tracks, Whole, Ahead, Follows, Aligned;
      ghost var start, startOffset, stood := Rest(), offset, At();
      FollowsHere(stood);
      NothingAhead(crc, frags, start, offset);
      while |buffer| < HEADER_SIZE && !eof
        invariant Valid() && |Rest()| <= |start|
        invariant Ahead(crc, frags, start, startOffset, Rest(), offset)
        invariant if |buffer| >= HEADER_SIZE then Follows(stood, At()) else eof || At() == stood
        decreases |file| - filePos, !eof
      {
        AheadTrailer(crc, frags, start, startOffset, Rest(), offset);
        NextBlock(stood, filePos);
        ReadBlock();
      }
    }

    /** What a fragment parsed at the front of the buffer is in the file. */
    lemma FragmentInFile(front: seq<Byte>, position: int, kind: Byte, fragment: seq<Byte>)
      requires 0 <= position && position + |front| <= |file| && front == file[position..position + |front|]
      requires 7 + |fragment| <= |front| && front[4] as int + 256 * front[5] as int == |fragment| && front[6] == kind
      requires front[..4] == crc(kind, fragment) && front[7..7 + |fragment|] == fragment
      ensures PhysicalAt(crc, file, kind, fragment, position)
    {
      var n := |fragment|;
      forall i | 0 <= i < n
        ensures file[position + 7..position + 7 + n][i] == fragment[i]
      {
        assert front[7..7 + n][i] == front[7 + i] == file[position + (7 + i)];
      }
      forall i | 0 <= i < 4
        ensures file[position..position + 4][i] == front[..4][i]
      {
        assert front[i] == file[position + i];
      }
    }

    /** Drop what is left of the block and read the next one. */
    method ReadBlock()
      requires Valid() && !eof
      modifies `filePos, `buffer, `eof, `offset
      ensures Valid() && offset == 0 && Rest() == old(Rest())[BLOCK_SIZE - old(offset)..]
      ensures filePos > old(filePos) || (filePos == old(filePos) && eof)
      ensures At() == old(filePos) && (|buffer| == BLOCK_SIZE || eof)
    {
      hide Aligned;
      AlignedNext(filePos);
      var n := if |file| - filePos < BLOCK_SIZE then |file| - filePos else BLOCK_SIZE;
      buffer := file[filePos..filePos + n];
      filePos, offset := filePos + n, 0;
      if n < BLOCK_SIZE {
        eof := true;
      }
    }

    /** The header and payload at the front of the buffer. */
    method ParseRecord(ghost frags: seq<Fragment>) returns (kind: int, fragment: seq<Byte>)
      requires Valid() && |buffer| >= HEADER_SIZE
      modifies `buffer, `reported, `offset
      ensures Valid() && |Rest()| <= |old(Rest())| && (kind != EOF ==> |Rest()| < |old(Rest())|)
      ensures old(Tracks(crc, Rest(), frags, offset)) ==> reported == old(reported)
      ensures FragmentRead(crc, old(Rest()), old(offset), frags, Rest(), offset, kind, fragment)
      ensures var b := old(buffer);
        var length := b[4] as int + 256 * b[5] as int;
        if 7 + length > |b| then buffer == [] && fragment == []
          && (if old(eof) then kind == 5 && reported == old(reported) else kind == 6 && reported == old(reported) + 1)
        else if b[6] == 0 && length == 0 then buffer == [] && fragment == [] && kind == 6 && reported == old(reported)
        else if crc(b[6], b[7..7 + length]) != b[..4] then buffer == [] && fragment == [] && kind == 6 && reported == old(reported) + 1
        else kind == b[6] as int && fragment == b[7..7 + length] && buffer == b[7 + length..] && reported == old(reported)
    {
      hide Tracks, FragmentRead, AtEnd, Untracked, Valid, Rest, Aligned;
      ghost var rest, at := Rest(), offset;
      BufferFacts();
      var length := buffer[4] as int + 256 * buffer[5] as int;
      var tag := buffer[6];
      HeaderDecides(crc, rest, at, frags, |buffer|, eof);
      if HEADER_SIZE + length > |buffer| {
        Clear();
        Excused(crc, rest, at, frags, Rest(), offset, if eof then EOF else BAD_RECORD, [], eof);
        if !eof {
          Report();
          return BAD_RECORD, [];
        }
        return EOF, [];
      }
      if tag == ZERO_TYPE && length == 0 {
        Clear();
        Excused(crc, rest, at, frags, Rest(), offset, BAD_RECORD, [], false);
        return BAD_RECORD, [];
      }
      fragment := buffer[HEADER_SIZE..HEADER_SIZE + length];
      PrefixSlice(rest, |buffer|, HEADER_SIZE, HEADER_SIZE + length);
      PrefixSlice(rest, |buffer|, 0, 4);
      if crc(tag, fragment) != buffer[..4] {
        Clear();
        Excused(crc, rest, at, frags, Rest(), offset, BAD_RECORD, [], false);
        Report();
        return BAD_RECORD, [];
      }
      Consume(HEADER_SIZE + length);
      kind := tag;
    }

    method Report()
      requires Valid()
      modifies `reported
      ensures Valid() && Rest() == old(Rest()) && reported == old(reported) + 1
    {
      reported := reported + 1;
    }

    lemma BufferFacts()
      requires Valid()
      ensures |buffer| <= |Rest()| && buffer == Rest()[..|buffer|] && offset <= BLOCK_SIZE && |buffer| <= BLOCK_SIZE - offset
      ensures if eof then |buffer| == |Rest()| else |buffer| == BLOCK_SIZE - offset
    {
    }

    method Consume(n: nat)
      requires Valid() && n <= |buffer|
      modifies `buffer, `offset
      ensures Valid() && Rest() == old(Rest())[n..] && offset == old(offset) + n && buffer == old(buffer)[n..]
    {
      buffer, offset := buffer[n..], offset + n;
      assert Rest() == old(Rest())[n..];
    }

    method Clear()
      requires Valid()
      modifies `buffer, `offset
      ensures Valid() && buffer == [] && Rest() == old(Rest())[|old(buffer)|..]
    {
      if !eof {
        offset := BLOCK_SIZE;
      }
      buffer := [];
    }

    /** The rest of the file is a prefix of the bytes of these records. */
    ghost predicate Synced(records: seq<seq<Byte>>)
      requires Valid()
      reads this
    {
      Tracks(crc, Rest(), SplitAll(offset, records), offset)
    }

    /** The next record's last fragment lies wholly in the file. */
    ghost predicate HasRecord(records: seq<seq<Byte>>)
      requires Valid()
      reads this
    {
      records != [] && |Rest()| >= RecordLength(crc, records[0], offset)
    }

    /** The next whole record.  Whatever records the file is a prefix of, the next one comes back exactly when
        its last fragment lies wholly in the file, and nothing is reported as corrupt. */
    method ReadRecord(ghost records: seq<seq<Byte>>) returns (ok: bool, record: seq<Byte>)
      requires Valid()
      modifies `filePos, `buffer, `eof, `reported, `offset
      ensures Valid() && |Rest()| <= |old(Rest())| && (ok ==> |Rest()| < |old(Rest())|)
      ensures old(Synced(records)) ==> reported == old(reported)
      ensures old(Synced(records) && HasRecord(records)) ==> ok && record == records[0] && Synced(records[1..])
      ensures old(Synced(records) && HasRecord(records)) ==>
        && offset == RecordEnd(records[0], old(offset))
        && |Rest()| == |old(Rest())| - RecordLength(crc, records[0], old(offset))
      ensures old(Synced(records) && !HasRecord(records)) ==> !ok
      ensures ok ==> Assembled(crc, file, record)
    {
      hide Layout, Physical, Split, SplitAll, Tracks, Reading, Fits, RecordLength, RecordEnd, Rest, Begun, Joined, PhysicalAt, Follows, Aligned;
      ghost var synced := Synced(records);
      ghost var st := StartState(crc, Rest(), records, offset);
      ghost var end, after := st.end, st.after;
      var scratch, inFragmented := [], false;
      ghost var pieces: seq<seq<Byte>>, places: seq<int> := [], [];
      if synced {
        StartRecord(crc, Rest(), records, offset);
      }
      while true
        invariant Valid() && |Rest()| <= |old(Rest())|
        invariant synced ==> reported == old(reported)
        invariant synced ==> Reading(crc, Rest(), offset, records, st, scratch, inFragmented)
        invariant st.end == end && st.after == after
        invariant inFragmented ==> Begun(crc, file, pieces, places, At()) && scratch == Joined(pieces)
        decreases |Rest()|
      {
        ghost var rest, at := Rest(), offset;
        if synced {
          StepRecord(crc, rest, at, records, st, scratch, inFragmented);
        }
        ghost var stood := At();
        var kind, fragment := ReadPhysicalRecord(st.frags);
        ghost var place := At() - 7 - |fragment|;
        assert [] + fragment == fragment;
        if kind == FULL_TYPE as int {
          if inFragmented && scratch != [] {
            Report();
          }
          return true, fragment;
        } else if kind == FIRST_TYPE as int {
          if inFragmented && scratch != [] {
            Report();
          }
          BegunOne(crc, file, fragment, place);
          scratch, inFragmented, pieces, places := fragment, true, [fragment], [place];
        } else if kind == MIDDLE_TYPE as int {
          if !inFragmented {
            Report();
          } else {
            BegunMore(crc, file, pieces, places, stood, fragment, place);
            scratch, pieces, places := scratch + fragment, pieces + [fragment], places + [place];
          }
        } else if kind == LAST_TYPE as int {
          if !inFragmented {
            Report();
          } else {
            scratch := scratch + fragment;
            return true, scratch;
          }
        } else if kind == EOF {
          return false, [];
        } else if kind == BAD_RECORD {
          if inFragmented {
            Report();
            scratch, inFragmented := [], false;
          }
        } else {
          Report();
          scratch, inFragmented := [], false;
        }
        st := Stepped(st);
      }
    }
  }

  /** The bytes a record takes from a block offset, padding included, and the block offset after it. */
  ghost function RecordLength(crc: Checksum, record: seq<Byte>, offset: nat): nat
    requires offset <= BLOCK_SIZE
  {
    SplitFits(offset, record, true);
    |Layout(crc, Split(offset, record, true), offset)|
  }

  ghost function RecordEnd(record: seq<Byte>, offset: nat): nat
    requires offset <= BLOCK_SIZE
    ensures RecordEnd(record, offset) <= BLOCK_SIZE
  {
    SplitFits(offset, record, true);
    EndOffset(Split(offset, record, true), offset)
  }

  /** What is left of the current record, all the fragments still to come, where the record will end, and how
      much of the file will be left then; negative when the file ends first. */
  datatype State = State(left: seq<Byte>, frags: seq<Fragment>, end: nat, after: int)

  ghost function StartState(crc: Checksum, rest: seq<Byte>, records: seq<seq<Byte>>, offset: nat): State
    requires offset <= BLOCK_SIZE
  {
    if records == [] then State([], SplitAll(offset, records), offset, -1)
    else State(records[0], SplitAll(offset, records), RecordEnd(records[0], offset), |rest| - RecordLength(crc, records[0], offset))
  }

  ghost function Stepped(st: State): State {
    if st.frags != [] && |st.frags[0].payload| <= |st.left| then
      st.(left := st.left[|st.frags[0].payload|..], frags := st.frags[1..])
    else st
  }

  /** In the middle of reading the first of the records: scratch holds its fragments so far. */
  ghost predicate Reading(crc: Checksum, rest: seq<Byte>, offset: nat, records: seq<seq<Byte>>, st: State,
                          scratch: seq<Byte>, inFragmented: bool)
    requires offset <= BLOCK_SIZE
  {
    Tracks(crc, rest, st.frags, offset) &&
    if records == [] then st.frags == [] && st.after < 0 && !inFragmented else
      var current := Split(offset, st.left, !inFragmented);
      && Fits(current, offset) && EndOffset(current, offset) == st.end && |rest| - |Layout(crc, current, offset)| == st.after
      && st.frags == current + SplitAll(st.end, records[1..])
      && scratch + st.left == records[0] && (!inFragmented ==> scratch == [])
  }

  lemma StartRecord(crc: Checksum, rest: seq<Byte>, records: seq<seq<Byte>>, offset: nat)
    requires offset <= BLOCK_SIZE && Tracks(crc, rest, SplitAll(offset, records), offset)
    ensures Reading(crc, rest, offset, records, StartState(crc, rest, records, offset), [], false)
  {
    if records != [] {
      SplitFits(offset, records[0], true);
      assert [] + records[0] == records[0];
    }
  }

  /** What the next fragment can be, and what reading it leaves to come. */
  lemma StepRecord(crc: Checksum, rest: seq<Byte>, offset: nat, records: seq<seq<Byte>>, st: State,
                   scratch: seq<Byte>, inFragmented: bool)
    requires offset <= BLOCK_SIZE && Reading(crc, rest, offset, records, st, scratch, inFragmented)
    ensures Tracks(crc, rest, st.frags, offset)
    ensures st.after >= 0 ==> records != [] && Whole(rest, st.frags, offset)
    ensures Whole(rest, st.frags, offset) ==>
      var f := st.frags[0];
      var rest' := rest[Padding(offset) + HEADER_SIZE + |f.payload|..];
      && records != [] && f.kind in {FULL_TYPE, FIRST_TYPE, MIDDLE_TYPE, LAST_TYPE}
      && (f.kind in {FULL_TYPE, FIRST_TYPE} <==> !inFragmented)
      && (inFragmented || scratch == [])
      && (f.kind in {FULL_TYPE, LAST_TYPE} ==>
            && st.after == |rest'| && st.end == After(f, offset)
            && scratch + f.payload == records[0] && st.frags[1..] == SplitAll(st.end, records[1..]))
      && (f.kind in {FIRST_TYPE, MIDDLE_TYPE} && After(f, offset) <= BLOCK_SIZE && Tracks(crc, rest', st.frags[1..], After(f, offset)) ==>
            Reading(crc, rest', After(f, offset), records, Stepped(st), scratch + f.payload, true))
      && After(f, offset) <= BLOCK_SIZE
  {
    hide Split, SplitAll, Layout, EndOffset, Fits, Physical;
    if records != [] {
      var current := Split(offset, st.left, !inFragmented);
      SplitStep(crc, offset, st.left, !inFragmented);
      var f := current[0];
      var others := SplitAll(st.end, records[1..]);
      assert st.frags[0] == f && st.frags[1..] == current[1..] + others;
      if f.payload == st.left {
        assert current[1..] + others == others;
      } else {
        assert scratch + f.payload + st.left[|f.payload|..] == scratch + st.left by {
          assert f.payload + st.left[|f.payload|..] == st.left;
        }
      }
    }
  }

  /** The first fragment of a record, and what follows it. */
  lemma SplitStep(crc: Checksum, offset: nat, left: seq<Byte>, begin: bool)
    requires offset <= BLOCK_SIZE
    ensures var current := Split(offset, left, begin);
      && current != [] && Fits(current, offset)
      && var f := current[0];
      && |f.payload| <= |left| && f.payload == left[..|f.payload|] && f.kind == Kind(begin, f.payload == left)
      && After(f, offset) <= BLOCK_SIZE && |f.payload| <= 0xffff && Fits(current[1..], After(f, offset))
      && (f.payload == left ==> current[1..] == [])
      && (f.payload != left ==> current[1..] == Split(After(f, offset), left[|f.payload|..], false))
      && EndOffset(current, offset) == (if f.payload == left then After(f, offset) else EndOffset(current[1..], After(f, offset)))
      && |Layout(crc, current, offset)| == Padding(offset) + HEADER_SIZE + |f.payload|
                                         + (if f.payload == left then 0 else |Layout(crc, current[1..], After(f, offset))|)
  {
    SplitFits(offset, left, begin);
    var current := Split(offset, left, begin);
    var f := current[0];
    assert Layout(crc, current, offset) == Placed(crc, f, offset) + Layout(crc, current[1..], After(f, offset));
    assert f.payload == left <==> |f.payload| == |left|;
  }

  // ----- A whole file -----

  /** The bytes the first n records take, and the block offset after them. */
  ghost function PrefixLength(crc: Checksum, records: seq<seq<Byte>>, n: nat, offset: nat): nat
    requires n <= |records| && offset <= BLOCK_SIZE
  {
    if n == 0 then 0
    else PrefixLength(crc, records, n - 1, offset) + RecordLength(crc, records[n - 1], PrefixEnd(records, n - 1, offset))
  }

  ghost function PrefixEnd(records: seq<seq<Byte>>, n: nat, offset: nat): nat
    requires n <= |records| && offset <= BLOCK_SIZE
    ensures PrefixEnd(records, n, offset) <= BLOCK_SIZE
  {
    if n == 0 then offset else RecordEnd(records[n - 1], PrefixEnd(records, n - 1, offset))
  }

  /** The first n records are the ones that lie wholly in a file of this length. */
  ghost predicate WholeRecords(crc: Checksum, records: seq<seq<Byte>>, n: nat, length: nat) {
    && n <= |records| && PrefixLength(crc, records, n, 0) <= length
    && (n < |records| ==> PrefixLength(crc, records, n + 1, 0) > length)
  }

  /** Every one of these records is assembled from fragments of the file. */
  ghost predicate EachAssembled(crc: Checksum, file: seq<Byte>, out: seq<seq<Byte>>) {
    forall i :: 0 <= i < |out| ==> Assembled(crc, file, out[i])
  }

  lemma NoneAssembled(crc: Checksum, file: seq<Byte>)
    ensures EachAssembled(crc, file, [])
  {
  }

  lemma OneAssembled(crc: Checksum, file: seq<Byte>, out: seq<seq<Byte>>, record: seq<Byte>)
    requires EachAssembled(crc, file, out) && Assembled(crc, file, record)
    ensures EachAssembled(crc, file, out + [record])
  {
    hide Assembled;
  }

  /** Read every record until the reader gives up.  For any records written and any byte prefix of their file
      the records whose last fragment lies wholly in the prefix come back, in order, and nothing is reported. */
  method ReadAll(crc: Checksum, file: seq<Byte>, ghost records: seq<seq<Byte>>) returns (out: seq<seq<Byte>>, reported: nat)
    ensures file <= LogBytes(crc, records) ==>
      reported == 0 && |out| <= |records| && out == records[..|out|] && WholeRecords(crc, records, |out|, |file|)
    ensures EachAssembled(crc, file, out)
  {
    hide SplitAll, RecordLength, RecordEnd, Tracks, LogBytes, ReadSoFar, WholeRecords, PrefixLength, PrefixEnd, Layout, Split, Fits, EndOffset,
         Assembled, EachAssembled, Aligned, Reader.Rest;
    NoneAssembled(crc, file);
    var reader := new Reader(crc, file);
    out := [];
    ghost var synced := file <= LogBytes(crc, records);
    if synced {
      NoneRead(crc, records, file);
    }
    var ok := true;
    while ok
      invariant fresh(reader) && reader.Valid() && reader.crc == crc && reader.file == file && (synced ==> reader.reported == 0)
      invariant EachAssembled(crc, file, out)
      invariant synced ==> |out| <= |records| && out == records[..|out|]
      invariant synced && ok ==> reader.Synced(records[|out|..])
      invariant synced && ok ==> ReadSoFar(crc, records, |out|, |file|, |reader.Rest()|, reader.offset)
      invariant synced && !ok ==> WholeRecords(crc, records, |out|, |file|)
      decreases |reader.Rest()|, ok
    {
      ghost var rest := if |out| <= |records| then records[|out|..] else [];
      if synced {
        NextRead(crc, records, |out|, |file|, |reader.Rest()|, reader.offset);
      }
      var record;
      ok, record := reader.ReadRecord(rest);
      if ok {
        OneAssembled(crc, file, out, record);
        out := out + [record];
      }
    }
    reported := reader.reported;
  }

  /** The first n records have been read, and this much of the file is left. */
  ghost predicate ReadSoFar(crc: Checksum, records: seq<seq<Byte>>, n: nat, length: nat, left: nat, offset: nat) {
    && n <= |records| && left <= length && length - left == PrefixLength(crc, records, n, BLOCK_SIZE)
    && offset == PrefixEnd(records, n, BLOCK_SIZE)
    && forall k :: 0 <= k <= |records| ==> PrefixLength(crc, records, k, 0) == PrefixLength(crc, records, k, BLOCK_SIZE)
  }

  lemma NoneRead(crc: Checksum, records: seq<seq<Byte>>, file: seq<Byte>)
    requires file <= LogBytes(crc, records)
    ensures Tracks(crc, file, SplitAll(BLOCK_SIZE, records[0..]), BLOCK_SIZE)
    ensures ReadSoFar(crc, records, 0, |file|, |file|, BLOCK_SIZE) && records[..0] == []
  {
    hide Tracks, SplitAll, LogBytes;
    BlockStart(crc, records, file);
    assert records[0..] == records;
  }

  /** If the next record is whole the position behind it is known; if not, the ones read are all that are whole. */
  lemma NextRead(crc: Checksum, records: seq<seq<Byte>>, n: nat, length: nat, left: nat, offset: nat)
    requires n <= |records| && offset <= BLOCK_SIZE && ReadSoFar(crc, records, n, length, left, offset)
    ensures n < |records| ==> records[n..] != [] && records[n..][0] == records[n] && records[n..][1..] == records[n + 1..]
    ensures n < |records| ==> records[..n + 1] == records[..n] + [records[n]]
    ensures if n < |records| && left >= RecordLength(crc, records[n], offset)
      then ReadSoFar(crc, records, n + 1, length, left - RecordLength(crc, records[n], offset), RecordEnd(records[n], offset))
      else WholeRecords(crc, records, n, length)
  {
    hide RecordLength, RecordEnd;
    if n < |records| {
      NextRecord(crc, records, n, BLOCK_SIZE);
    }
  }

  lemma NextRecord(crc: Checksum, records: seq<seq<Byte>>, n: nat, offset: nat)
    requires n < |records| && offset <= BLOCK_SIZE
    ensures PrefixLength(crc, records, n + 1, offset)
         == PrefixLength(crc, records, n, offset) + RecordLength(crc, records[n], PrefixEnd(records, n, offset))
    ensures PrefixEnd(records, n + 1, offset) == RecordEnd(records[n], PrefixEnd(records, n, offset))
  {
    hide RecordLength, RecordEnd;
  }

  /** A file's start is like the end of a full block. */
  lemma BlockStart(crc: Checksum, records: seq<seq<Byte>>, file: seq<Byte>)
    requires file <= LogBytes(crc, records)
    ensures Tracks(crc, file, SplitAll(BLOCK_SIZE, records), BLOCK_SIZE)
    ensures forall n :: 0 <= n <= |records| ==> PrefixLength(crc, records, n, 0) == PrefixLength(crc, records, n, BLOCK_SIZE)
  {
    hide Layout, EndOffset, Physical, Placed, PrefixLength, PrefixEnd;
    if records != [] {
      var first := Split(0, records[0], true);
      SplitFits(0, records[0], true);
      SameSplit(records[0]);
      SameFromBlockStart(crc, first);
      FitsConcat(first, SplitAll(EndOffset(first, 0), records[1..]), 0);
      SameFromBlockStart(crc, SplitAll(0, records));
    } else {
      EmptyAtBlockStart(crc);
    }
    forall n | 0 <= n <= |records|
      ensures PrefixLength(crc, records, n, 0) == PrefixLength(crc, records, n, BLOCK_SIZE)
    {
      SamePrefix(crc, records, n);
    }
  }

  lemma {:induction false} SamePrefix(crc: Checksum, records: seq<seq<Byte>>, n: nat)
    requires n <= |records|
    ensures PrefixLength(crc, records, n, 0) == PrefixLength(crc, records, n, BLOCK_SIZE)
    ensures n > 0 ==> PrefixEnd(records, n, 0) == PrefixEnd(records, n, BLOCK_SIZE)
  {
    hide Layout, EndOffset, Split;
    if n == 1 {
      SplitFits(0, records[0], true);
      SameSplit(records[0]);
      SameFromBlockStart(crc, Split(0, records[0], true));
    } else if n > 1 {
      SamePrefix(crc, records, n - 1);
    }
  }

  lemma EmptyAtBlockStart(crc: Checksum)
    ensures Layout(crc, [], 0) == Layout(crc, [], BLOCK_SIZE)
  {
  }

  lemma SameSplit(data: seq<Byte>)
    ensures Split(0, data, true) == Split(BLOCK_SIZE, data, true)
  {
    var avail := BLOCK_SIZE - HEADER_SIZE;
    var n := if |data| < avail then |data| else avail;
    var f := Fragment(Kind(true, n == |data|), data[..n]);
    assert Split(0, data, true) == if n == |data| then [f] else [f] + Split(After(f, 0), data[n..], false);
    assert Split(BLOCK_SIZE, data, true) == if n == |data| then [f] else [f] + Split(After(f, BLOCK_SIZE), data[n..], false);
  }

  lemma SameFromBlockStart(crc: Checksum, frags: seq<Fragment>)
    requires frags != [] && Fits(frags, 0)
    ensures Fits(frags, BLOCK_SIZE) && Layout(crc, frags, BLOCK_SIZE) == Layout(crc, frags, 0)
    ensures EndOffset(frags, BLOCK_SIZE) == EndOffset(frags, 0)
  {
    assert After(frags[0], 0) == After(frags[0], BLOCK_SIZE);
    assert Placed(crc, frags[0], 0) == Placed(crc, frags[0], BLOCK_SIZE);
  }
}

/** A crash while a record is being appended: what is read back is the log before the record or after it. */
module LogCrash {
  import opened Coding
  import opened LogFormat
  import opened LogWriter
  import opened LogReader

  /** The bytes of the first n records are the log of just those. */
  lemma {:induction false} PrefixIsLog(crc: Checksum, records: seq<seq<Byte>>, n: nat)
    requires n <= |records|
    ensures PrefixLength(crc, records, n, 0) == |LogBytes(crc, records[..n])|
    ensures PrefixEnd(records, n, 0) == EndOffset(SplitAll(0, records[..n]), 0)
  {
    hide Layout, EndOffset, Split, SplitAll;
    if n == 0 {
      NoRecords(crc);
    } else {
      PrefixIsLog(crc, records, n - 1);
      AddedRecord(crc, records[..n - 1], records[n - 1]);
      assert records[..n] == records[..n - 1] + [records[n - 1]];
      SplitFits(PrefixEnd(records, n - 1, 0), records[n - 1], true);
    }
  }

  lemma NoRecords(crc: Checksum)
    ensures LogBytes(crc, []) == [] && SplitAll(0, []) == [] && EndOffset([], 0) == 0
  {
  }

  lemma {:induction false} MoreRecordsLonger(crc: Checksum, records: seq<seq<Byte>>, n: nat, m: nat)
    requires n <= m <= |records|
    ensures PrefixLength(crc, records, n, 0) <= PrefixLength(crc, records, m, 0)
  {
    hide RecordLength, PrefixEnd;
    if n < m {
      MoreRecordsLonger(crc, records, n, m - 1);
    }
  }

  /** The file holds a log and any part of one more record. */
  method ReadAfterCrash(crc: Checksum, file: seq<Byte>, ghost records: seq<seq<Byte>>, ghost last: seq<Byte>)
    returns (out: seq<seq<Byte>>, reported: nat)
    requires LogBytes(crc, records) <= file <= LogBytes(crc, records + [last])
    ensures reported == 0 && (out == records || out == records + [last])
  {
    hide LogBytes, PrefixLength, PrefixEnd;
    ghost var all := records + [last];
    out, reported := ReadAll(crc, file, all);
    PrefixIsLog(crc, all, |records|);
    assert all[..|records|] == records && all[..|all|] == all;
    if |out| < |records| {
      MoreRecordsLonger(crc, all, |out| + 1, |records|);
    }
  }
}
