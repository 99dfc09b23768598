/** The block format: entries with prefix-compressed keys, followed by the restart array and its length. */
module BlockFormat {
  import opened Coding

  /** An entry, and how many bytes of its key it takes from the key before it. */
  datatype Item = Item(shared: nat, key: Bytes, value: Bytes)

  datatype Header = Header(shared: nat, nonShared: nat, valueLength: nat)

  ghost predicate SharesAt(items: seq<Item>, i: nat)
    requires i < |items|
  {
    && items[i].shared <= |items[i].key|
    && (i == 0 ==> items[i].shared == 0)
    && (i > 0 ==> items[i].shared <= |items[i - 1].key| && items[i].key[..items[i].shared] == items[i - 1].key[..items[i].shared])
  }

  ghost predicate Sharing(items: seq<Item>) {
    forall i :: 0 <= i < |items| ==> SharesAt(items, i) && Fits(items[i])
  }

  predicate Fits(e: Item) {
    |e.key| < TWO_32 && |e.value| < TWO_32
  }

  function Unshared(e: Item): Bytes {
    if e.shared <= |e.key| then e.key[e.shared..] else []
  }

  function HeaderOf(e: Item): Header {
    Header(e.shared, |Unshared(e)|, |e.value|)
  }

  function HeaderBytes(h: Header): (s: Bytes)
    ensures |s| >= 3
  {
    Varint(h.shared) + (Varint(h.nonShared) + Varint(h.valueLength))
  }

  function ItemBytes(e: Item): (s: Bytes)
    ensures |s| >= 3
  {
    HeaderBytes(HeaderOf(e)) + (Unshared(e) + e.value)
  }

  ghost function DataBytes(items: seq<Item>): Bytes {
    if items == [] then [] else DataBytes(items[..|items| - 1]) + ItemBytes(items[|items| - 1])
  }

  /** Where entry i starts. */
  ghost function Offset(items: seq<Item>, i: nat): nat
    requires i <= |items|
  {
    |DataBytes(items[..i])|
  }

  lemma OffsetStep(items: seq<Item>, i: nat)
    requires i < |items|
    ensures Offset(items, i + 1) == Offset(items, i) + |ItemBytes(items[i])|
  {
    assert items[..i + 1][..i] == items[..i];
  }

  lemma {:induction false} OffsetsAscend(items: seq<Item>, i: nat, j: nat)
    requires i <= j <= |items|
    ensures Offset(items, i) + 3 * (j - i) <= Offset(items, j)
    decreases j
  {
    hide ItemBytes, Offset;
    if i < j {
      OffsetsAscend(items, i, j - 1);
      OffsetStep(items, j - 1);
    }
  }

  /** The data is its first i entries, then the rest. */
  lemma {:induction false} DataPrefix(items: seq<Item>, i: nat)
    requires i <= |items|
    ensures Offset(items, i) <= |DataBytes(items)| && DataBytes(items)[..Offset(items, i)] == DataBytes(items[..i])
    decreases |items|
  {
    hide ItemBytes;
    var n := |items| - 1;
    if i <= n {
      DataPrefix(items[..n], i);
      assert items[..n][..i] == items[..i];
    } else {
      assert items[..i] == items;
    }
  }

  /** Entry i starts at its offset. */
  lemma DataAt(items: seq<Item>, i: nat)
    requires i < |items|
    ensures Offset(items, i) + |ItemBytes(items[i])| == Offset(items, i + 1) <= |DataBytes(items)|
    ensures DataBytes(items)[Offset(items, i)..] == ItemBytes(items[i]) + DataBytes(items)[Offset(items, i + 1)..]
  {
    hide ItemBytes, DataBytes, Offset;
    OffsetStep(items, i);
    DataPrefix(items, i + 1);
    DataSnoc(items, i);
    var all, to := DataBytes(items), Offset(items, i + 1);
    var start, e := Offset(items, i), ItemBytes(items[i]);
    assert all[..to][start..] == e;
    assert all[start..] == all[..to][start..] + all[to..];
  }

  lemma DataSnoc(items: seq<Item>, i: nat)
    requires i < |items|
    ensures DataBytes(items[..i + 1]) == DataBytes(items[..i]) + ItemBytes(items[i])
    ensures Offset(items, i) == |DataBytes(items[..i])|
  {
    assert items[..i + 1][..i] == items[..i];
  }

  // ----- Reading one entry -----

  function ReadHeader(s: Bytes): (r: Parsed<Header>)
    ensures r.Parsed? ==> |r.rest| + 3 <= |s|
  {
    var shared := ReadVarint32(s);
    if shared.Fail? then Fail else
    var nonShared := ReadVarint32(shared.rest);
    if nonShared.Fail? then Fail else
    var valueLength := ReadVarint32(nonShared.rest);
    if valueLength.Fail? then Fail else Parsed(Header(shared.value, nonShared.value, valueLength.value), valueLength.rest)
  }

  /** A header and, by its lengths' 32-bit sum, enough bytes behind it. */
  function ReadEntry(s: Bytes): (r: Parsed<Header>)
    ensures r.Parsed? ==> |r.rest| + 3 <= |s|
  {
    var h := ReadHeader(s);
    if h.Parsed? && (h.value.nonShared + h.value.valueLength) % TWO_32 <= |h.rest| then h else Fail
  }

  /** An entry that is accepted though its key suffix and value do not fit behind its header. */
  ghost predicate RunsOver(s: Bytes) {
    var e := ReadEntry(s);
    e.Parsed? && e.value.nonShared + e.value.valueLength > |e.rest|
  }

  /** The body of an accepted entry lies behind its header exactly when the two lengths do not wrap around. */
  lemma RunsOverIffWraps(s: Bytes)
    requires |s| < TWO_32 && ReadEntry(s).Parsed?
    ensures var h := ReadEntry(s).value; !RunsOver(s) <==> h.nonShared + h.valueLength < TWO_32
  {
  }

  /** Eight bytes whose entry is accepted with a key of 2^32 - 1 bytes. */
  lemma WrappedEntryAccepted(last: Byte)
    ensures var s: Bytes := [0, 0xff, 0xff, 0xff, 0xff, 0x0f, 2, last];
      ReadEntry(s) == Parsed(Header(0, TWO_32 - 1, 2), [last]) && RunsOver(s)
  {
    var s: Bytes := [0, 0xff, 0xff, 0xff, 0xff, 0x0f, 2, last];
    var h := Header(0, TWO_32 - 1, 2);
    HeaderRoundTrip(h, [last]);
    LongestVarint();
    OneByteLength(0);
    OneByteLength(2);
    assert HeaderBytes(h) + [last] == s;
    assert (TWO_32 - 1 + 2) % TWO_32 == 1;
  }

  lemma OneByteLength(v: Byte)
    requires v < 128
    ensures Varint(v) == [v]
  {
  }

  lemma LongestVarint()
    ensures Varint(TWO_32 - 1) == [0xff, 0xff, 0xff, 0xff, 0x0f]
  {
    assert Varint(0xf) == [0x0f];
    assert Varint(0x7ff) == [0xff] + Varint(0xf);
    assert Varint(0x3_ffff) == [0xff] + Varint(0x7ff);
    assert Varint(0x1ff_ffff) == [0xff] + Varint(0x3_ffff);
    assert Varint(0xffff_ffff) == [0xff] + Varint(0x1ff_ffff);
  }

  lemma HeaderRoundTrip(h: Header, rest: Bytes)
    requires h.shared < TWO_32 && h.nonShared < TWO_32 && h.valueLength < TWO_32
    ensures ReadHeader(HeaderBytes(h) + rest) == Parsed(h, rest)
  {
    hide ReadVarint32, Varint;
    var a, b, c := Varint(h.shared), Varint(h.nonShared), Varint(h.valueLength);
    assert HeaderBytes(h) + rest == a + (b + (c + rest));
    VarintRoundTrip(h.shared, b + (c + rest));
    VarintRoundTrip(h.nonShared, c + rest);
    VarintRoundTrip(h.valueLength, rest);
  }

  lemma ItemRoundTrip(e: Item, rest: Bytes)
    requires e.shared <= |e.key| && Fits(e)
    ensures ReadEntry(ItemBytes(e) + rest) == Parsed(HeaderOf(e), Unshared(e) + e.value + rest)
  {
    hide ReadHeader, HeaderBytes;
    assert ItemBytes(e) + rest == HeaderBytes(HeaderOf(e)) + (Unshared(e) + e.value + rest);
    HeaderRoundTrip(HeaderOf(e), Unshared(e) + e.value + rest);
  }

  /** An entry in bytes: shared length, unshared length, value length, the rest of the key, the value. */
  lemma ItemLayout(e: Item)
    requires e.shared <= |e.key|
    ensures ItemBytes(e) ==
      Varint(e.shared) + Varint(|e.key| - e.shared) + Varint(|e.value|) + e.key[e.shared..] + e.value
  {
    hide Varint;
    var a, b, c := Varint(e.shared), Varint(|e.key| - e.shared), Varint(|e.value|);
    assert a + (b + c) + (e.key[e.shared..] + e.value) == a + b + c + e.key[e.shared..] + e.value;
  }

  /** DecodeEntry: one byte each in the common case, three varints otherwise. */
  method DecodeEntry(data: Bytes, p: nat, limit: nat) returns (ok: bool, h: Header, next: nat)
    requires limit <= |data|
    ensures ok <==> p <= limit && ReadEntry(data[p..limit]).Parsed?
    ensures ok ==> p + 3 <= next <= limit && ReadEntry(data[p..limit]) == Parsed(h, data[next..limit])
    ensures ok ==> (h.nonShared + h.valueLength > limit - next <==> RunsOver(data[p..limit]))
  {
    hide ReadHeader;
    h := Header(0, 0, 0);
    if limit - p < 3 {
      return false, h, p;
    }
    if data[p] < 128 && data[p + 1] < 128 && data[p + 2] < 128 {
      OneByteHeader(data[p..limit]);
      assert data[p..limit][3..] == data[p + 3..limit];
      h, next := Header(data[p], data[p + 1], data[p + 2]), p + 3;
    } else {
      var r := GetHeader(data[p..limit]);
      if r.Fail? {
        return false, h, p;
      }
      h, next := r.value, limit - |r.rest|;
      assert data[next..limit] == r.rest;
    }
    ok := limit - next >= (h.nonShared + h.valueLength) % TWO_32;
  }

  method GetHeader(s: Bytes) returns (r: Parsed<Header>)
    ensures r == ReadHeader(s)
    ensures r.Parsed? ==> |r.rest| <= |s| && r.rest == s[|s| - |r.rest|..]
  {
    hide TakeVarint;
    var shared := GetVarint(s, 5, TWO_32);
    if shared.Fail? {
      return Fail;
    }
    var nonShared := GetVarint(shared.rest, 5, TWO_32);
    if nonShared.Fail? {
      return Fail;
    }
    var valueLength := GetVarint(nonShared.rest, 5, TWO_32);
    if valueLength.Fail? {
      return Fail;
    }
    VarintSuffix(s);
    VarintSuffix(shared.rest);
    VarintSuffix(nonShared.rest);
    r := Parsed(Header(shared.value, nonShared.value, valueLength.value), valueLength.rest);
  }

  lemma OneByteHeader(s: Bytes)
    requires |s| >= 3 && s[0] < 128 && s[1] < 128 && s[2] < 128
    ensures ReadHeader(s) == Parsed(Header(s[0], s[1], s[2]), s[3..])
  {
    hide ReadVarint32;
    OneByteVarint(s);
    OneByteVarint(s[1..]);
    OneByteVarint(s[2..]);
    assert s[1..][1..] == s[2..] && s[2..][1..] == s[3..];
  }

  lemma OneByteVarint(s: Bytes)
    requires s != [] && s[0] < 128
    ensures ReadVarint32(s) == Parsed(s[0], s[1..])
  {
    assert Pow128(0) == 1;
    assert Digit(s[0], 0) == s[0];
  }

  /** What a varint leaves unread is a suffix. */
  lemma VarintSuffix(s: Bytes)
    ensures ReadVarint32(s).Parsed? ==> var rest := ReadVarint32(s).rest; |rest| < |s| && rest == s[|s| - |rest|..]
  {
    hide Wrap, Digit, Pow128;
    TakeVarintSuffix(s, 0, 0, 5, TWO_32);
  }

  lemma {:induction false} TakeVarintSuffix(s: Bytes, i: nat, acc: nat, limit: nat, modulus: nat)
    requires modulus > 0
    ensures TakeVarint(s, i, acc, limit, modulus).Parsed? ==>
        var rest := TakeVarint(s, i, acc, limit, modulus).rest; |rest| < |s| && rest == s[|s| - |rest|..]
    decreases |s|
  {
    hide Wrap, Digit, Pow128;
    if i < limit && s != [] && s[0] >= 128 {
      TakeVarintSuffix(s[1..], i + 1, Wrap(acc + Digit(s[0] - 128, i), modulus), limit, modulus);
    }
  }
}

/** BlockBuilder: appends entries, restarting the prefix compression every interval entries. */
module BlockBuilders {
  import opened Coding
  import opened BlockFormat

  ghost predicate Starts(items: seq<Item>, starts: seq<nat>) {
    && starts != [] && starts[0] == 0
    && (forall i, j :: 0 <= i < j < |starts| ==> starts[i] < starts[j])
    && (forall j :: 0 < j < |starts| ==> starts[j] < |items|)
    && (forall j :: 0 <= j < |starts| && starts[j] < |items| ==> items[starts[j]].shared == 0)
  }

  ghost function Offsets(items: seq<Item>, starts: seq<nat>): seq<nat>
    requires forall j :: 0 <= j < |starts| ==> starts[j] <= |items|
  {
    seq(|starts|, j requires 0 <= j < |starts| => Offset(items, starts[j]))
  }

  /** The bytes hold these entries, with restart points at these of them. */
  ghost predicate IsBlock(data: Bytes, items: seq<Item>, starts: seq<nat>) {
    && Sharing(items) && Starts(items, starts) && |data| < TWO_32
    && data == DataBytes(items) + Words(Offsets(items, starts)) + Fixed(|starts|, 4)
  }

  function Keys(items: seq<Item>): seq<(Bytes, Bytes)> {
    seq(|items|, i requires 0 <= i < |items| => (items[i].key, items[i].value))
  }

  /** The entry is stored with as many bytes of the previous key as it repeats. */
  ghost predicate Repeats(last: Bytes, e: Item) {
    && e.shared <= |last| && e.shared <= |e.key| && last[..e.shared] == e.key[..e.shared]
    && (e.shared < |last| && e.shared < |e.key| ==> last[e.shared] != e.key[e.shared])
  }

  lemma SharingSnoc(items: seq<Item>, e: Item)
    requires Sharing(items) && Fits(e) && e.shared <= |e.key|
    requires e.shared > 0 ==> items != [] && Repeats(items[|items| - 1].key, e)
    ensures Sharing(items + [e])
  {
    hide Fits;
    var all := items + [e];
    forall i | 0 <= i < |all|
      ensures SharesAt(all, i) && Fits(all[i])
    {
      if i < |items| {
        assert SharesAt(items, i);
      }
    }
  }

  lemma OffsetsSnoc(items: seq<Item>, starts: seq<nat>, e: Item)
    requires forall j :: 0 <= j < |starts| ==> starts[j] <= |items|
    ensures Offsets(items + [e], starts) == Offsets(items, starts)
    ensures DataBytes(items + [e]) == DataBytes(items) + ItemBytes(e)
    ensures Offset(items + [e], |items|) == |DataBytes(items)|
  {
    var all := items + [e];
    assert all[..|items|] == items;
    forall j | 0 <= j < |starts|
      ensures Offset(all, starts[j]) == Offset(items, starts[j])
    {
      assert all[..starts[j]] == items[..starts[j]];
    }
  }

  /** What the buffer and the restart list hold while the block is open. */
  ghost predicate Building(buffer: Bytes, restarts: seq<nat>, items: seq<Item>, starts: seq<nat>) {
    && Sharing(items) && Starts(items, starts)
    && buffer == DataBytes(items) && restarts == Offsets(items, starts)
  }

  function LastKey(items: seq<Item>): Bytes {
    if items == [] then [] else items[|items| - 1].key
  }

  lemma StartsSnoc(items: seq<Item>, starts: seq<nat>, e: Item, again: bool)
    requires Starts(items, starts) && e.shared <= |e.key| && (again || items == [] ==> e.shared == 0)
    requires again ==> starts[|starts| - 1] < |items|
    ensures Starts(items + [e], if again then starts + [|items|] else starts)
  {
  }

  /** Appending one item, at a restart point or not, keeps the buffer and the list in step. */
  lemma AddedItem(buffer: Bytes, restarts: seq<nat>, items: seq<Item>, starts: seq<nat>, e: Item, again: bool)
    requires Building(buffer, restarts, items, starts) && Fits(e) && e.shared <= |e.key|
    requires again ==> e.shared == 0 && starts[|starts| - 1] < |items|
    requires !again ==> Repeats(LastKey(items), e)
    ensures Building(buffer + ItemBytes(e), if again then restarts + [|buffer|] else restarts,
                     items + [e], if again then starts + [|items|] else starts)
  {
    hide DataBytes, ItemBytes, Sharing, Offset, SharesAt, Starts, Offsets;
    SharingSnoc(items, e);
    assert Starts(items, starts);
    StartsSnoc(items, starts, e, again);
    StartsBounded(items, starts);
    OffsetsSnoc(items, starts, e);
    if again {
      OffsetsPush(items + [e], starts, |items|);
    }
  }

  lemma StartsBounded(items: seq<Item>, starts: seq<nat>)
    requires Starts(items, starts)
    ensures forall j :: 0 <= j < |starts| ==> starts[j] <= |items|
  {
  }

  lemma OffsetsPush(items: seq<Item>, starts: seq<nat>, n: nat)
    requires n <= |items| && forall j :: 0 <= j < |starts| ==> starts[j] <= |items|
    ensures Offsets(items, starts + [n]) == Offsets(items, starts) + [Offset(items, n)]
  {
  }

  class BlockBuilder {
    const interval: nat
    var buffer: Bytes
    var restarts: seq<nat>
    var counter: nat
    var lastKey: Bytes
    var finished: bool
    ghost var items: seq<Item>
    ghost var starts: seq<nat>

    ghost predicate Valid()
      reads this
    {
      interval > 0 && (!finished ==>
        && Building(buffer, restarts, items, starts) && lastKey == LastKey(items)
        && counter <= interval && counter == |items| - starts[|starts| - 1])
    }

    constructor (interval: nat)
      requires interval > 0
      ensures Valid() && this.interval == interval && items == [] && !finished
    {
      this.interval := interval;
      buffer, restarts, counter, lastKey, finished, items, starts := [], [0], 0, [], false, [], [0];
      new;
      assert Offset([], 0) == 0;
    }

    method Reset()
      requires interval > 0
      modifies this
      ensures Valid() && items == [] && !finished
    {
      buffer, restarts, counter, lastKey, finished, items, starts := [], [0], 0, [], false, [], [0];
      assert Offset([], 0) == 0;
    }

    method Add(key: Bytes, value: Bytes)
      requires Valid() && !finished && |key| < TWO_32 && |value| < TWO_32
      modifies this
      ensures Valid() && !finished && |items| == old(|items|) + 1 && items[..|items| - 1] == old(items)
      ensures Keys(items) == old(Keys(items)) + [(key, value)]
      ensures old(counter) < interval ==> starts == old(starts) && Repeats(old(lastKey), items[|items| - 1])
      ensures old(counter) == interval ==> starts == old(starts) + [old(|items|)] && items[|items| - 1].shared == 0
    {
      hide Building, ItemBytes, Starts;
      var shared := 0;
      ghost var again := counter == interval;
      ghost var marks := starts;
      StartNonEmpty(buffer, restarts, items, starts);
      if counter < interval {
        shared := CommonPrefix(lastKey, key);
      } else {
        restarts := restarts + [|buffer|];
        counter := 0;
        marks := starts + [|items|];
      }
      var e := Item(shared, key, value);
      AddedItem(buffer, old(restarts), items, starts, e, again);
      var entry := PutItem(e);
      buffer := buffer + entry;
      assert lastKey[..shared] + key[shared..] == key by {
        assert key[..shared] + key[shared..] == key;
      }
      lastKey := lastKey[..shared] + key[shared..];
      counter := counter + 1;
      items, starts := items + [e], marks;
    }

    method Finish() returns (data: Bytes)
      requires Valid() && !finished && |buffer| + 4 * |restarts| + 4 < TWO_32
      modifies this
      ensures Valid() && finished && IsBlock(data, old(items), old(starts))
    {
      hide DataBytes, ItemBytes, Sharing, Offset, SharesAt;
      var tail := PutWords(restarts);
      buffer := buffer + tail + Fixed(|restarts|, 4);
      finished := true;
      data := buffer;
    }
  }

  lemma StartNonEmpty(buffer: Bytes, restarts: seq<nat>, items: seq<Item>, starts: seq<nat>)
    requires Building(buffer, restarts, items, starts)
    ensures starts != [] && starts[|starts| - 1] <= |items| && |restarts| == |starts|
  {
  }

  method CommonPrefix(a: Bytes, b: Bytes) returns (n: nat)
    ensures n <= |a| && n <= |b| && a[..n] == b[..n]
    ensures n < |a| && n < |b| ==> a[n] != b[n]
  {
    n := 0;
    while n < |a| && n < |b| && a[n] == b[n]
      invariant n <= |a| && n <= |b| && a[..n] == b[..n]
    {
      n := n + 1;
    }
  }

  method PutItem(e: Item) returns (s: Bytes)
    requires e.shared <= |e.key| && Fits(e)
    ensures s == ItemBytes(e)
  {
    hide Varint;
    s := PutVarint32([], e.shared);
    s := PutVarint32(s, |e.key| - e.shared);
    s := PutVarint32(s, |e.value|);
    s := s + e.key[e.shared..] + e.value;
  }
}

/** Block::Iter: a cursor over the entries of a block, which scans forward from restart points. */
module BlockIterators {
  import opened Coding
  import opened BlockFormat
  import opened BlockBuilders

  /** Where each part of a well-formed block lies. */
  ghost predicate Laid(data: Bytes, items: seq<Item>, starts: seq<nat>, restarts: nat, count: nat) {
    IsBlock(data, items, starts) && restarts == |DataBytes(items)| && count == |starts|
  }

  lemma LaidOut(data: Bytes, items: seq<Item>, starts: seq<nat>, restarts: nat, count: nat)
    requires Laid(data, items, starts, restarts, count)
    ensures restarts + 4 * count + 4 == |data| && data[..restarts] == DataBytes(items) && count == |starts| > 0
    ensures starts[0] == 0 && forall j :: 0 <= j < count ==> starts[j] <= |items|
    ensures starts[count - 1] == |items| <==> items == []
    ensures forall j :: 0 < j < count ==> starts[j] < |items|
  {
    hide Sharing, DataBytes;
    StartsBounded(items, starts);
    WordsLength(Offsets(items, starts));
    assert |Offsets(items, starts)| == count;
  }

  /** A restart point read back is the offset of its entry. */
  lemma RestartRead(data: Bytes, items: seq<Item>, starts: seq<nat>, restarts: nat, count: nat, i: nat)
    requires Laid(data, items, starts, restarts, count) && i < count
    ensures restarts + 4 * count + 4 == |data| && count == |starts| && starts[i] <= |items|
    ensures starts[i] < |items| ==> items[starts[i]].shared == 0
    ensures FromFixed(data[restarts + 4 * i..restarts + 4 * i + 4]) == Offset(items, starts[i])
  {
    hide Sharing, DataBytes, Fixed, FromFixed, Words, Offset;
    LaidOut(data, items, starts, restarts, count);
    var rs := Offsets(items, starts);
    WordsAt(rs, i);
    var tail := Words(rs) + Fixed(count, 4);
    assert data == DataBytes(items) + tail;
    assert data[restarts + 4 * i..restarts + 4 * i + 4] == tail[4 * i..4 * i + 4] == Words(rs)[4 * i..4 * i + 4];
    OffsetWithin(items, starts[i]);
    Widths();
    FixedRoundTrip(rs[i], 4);
  }

  lemma OffsetWithin(items: seq<Item>, i: nat)
    requires i <= |items|
    ensures Offset(items, i) <= |DataBytes(items)|
  {
    DataPrefix(items, i);
  }

  /** Entry p parses to itself, and the next entry starts where its value ends. */
  lemma EntryRead(data: Bytes, items: seq<Item>, starts: seq<nat>, restarts: nat, count: nat, p: nat)
    requires Laid(data, items, starts, restarts, count) && p < |items|
    ensures Offset(items, p) < Offset(items, p + 1) <= restarts <= |data| && items[p].shared <= |items[p].key|
    ensures var e := ReadEntry(data[Offset(items, p)..restarts]);
      && e.Parsed? && e.value == HeaderOf(items[p])
      && e.rest == Unshared(items[p]) + items[p].value + data[Offset(items, p + 1)..restarts]
  {
    hide DataBytes, Offset, ItemBytes, ReadEntry, IsBlock;
    LaidOut(data, items, starts, restarts, count);
    DataAt(items, p);
    SharedFits(data, items, starts, p);
    assert data[Offset(items, p)..restarts] == DataBytes(items)[Offset(items, p)..];
    assert data[Offset(items, p + 1)..restarts] == DataBytes(items)[Offset(items, p + 1)..];
    ItemRoundTrip(items[p], DataBytes(items)[Offset(items, p + 1)..]);
  }

  /** After entry p its key is all that entry p + 1 needs. */
  lemma NextShares(data: Bytes, items: seq<Item>, starts: seq<nat>, restarts: nat, count: nat, p: nat)
    requires Laid(data, items, starts, restarts, count) && p < |items|
    ensures items[p].shared <= |items[p].key| && items[p].key == items[p].key[..items[p].shared] + Unshared(items[p])
    ensures p + 1 < |items| ==>
      && items[p + 1].shared <= |items[p + 1].key| && items[p + 1].shared <= |items[p].key|
      && items[p].key[..items[p + 1].shared] == items[p + 1].key[..items[p + 1].shared]
  {
    hide IsBlock;
    SharedFits(data, items, starts, p);
    if p + 1 < |items| {
      SharedFits(data, items, starts, p + 1);
    }
  }

  lemma Pieces(data: Bytes, from: nat, to: nat, a: Bytes, b: Bytes, c: Bytes)
    requires from <= to <= |data| && data[from..to] == a + b + c
    ensures from + |a| + |b| + |c| == to
    ensures data[from..from + |a|] == a && data[from + |a|..from + |a| + |b|] == b
  {
    var whole := a + b + c;
    assert whole[..|a|] == a && whole[|a|..|a| + |b|] == b;
    assert data[from..from + |a|] == data[from..to][..|a|];
    forall k | 0 <= k < |b|
      ensures data[from + |a| + k] == b[k]
    {
      assert data[from + |a| + k] == data[from..to][|a| + k];
    }
  }

  lemma EntryParses(data: Bytes, items: seq<Item>, starts: seq<nat>, restarts: nat, count: nat, p: nat)
    requires Laid(data, items, starts, restarts, count) && p < |items|
    ensures Offset(items, p) <= restarts <= |data| && Offset(items, p + 1) <= restarts
    ensures ReadEntry(data[Offset(items, p)..restarts]).Parsed?
  {
    hide Laid, Offset, ReadEntry;
    EntryRead(data, items, starts, restarts, count, p);
  }

  /** Decoding entry p after the key before it yields its key and its value, and ends where the next entry starts. */
  lemma EntryDecoded(data: Bytes, items: seq<Item>, starts: seq<nat>, restarts: nat, count: nat, p: nat, key: Bytes, h: Header, next: nat)
    requires Laid(data, items, starts, restarts, count) && p < |items|
    requires items[p].shared <= |items[p].key| && items[p].shared <= |key| && key[..items[p].shared] == items[p].key[..items[p].shared]
    requires Offset(items, p) <= restarts <= |data| && next <= restarts
    requires ReadEntry(data[Offset(items, p)..restarts]) == Parsed(h, data[next..restarts])
    ensures h.shared <= |key| && next + h.nonShared + h.valueLength == Offset(items, p + 1) <= |data|
    ensures key[..h.shared] + data[next..next + h.nonShared] == items[p].key
    ensures data[next + h.nonShared..next + h.nonShared + h.valueLength] == items[p].value
  {
    hide Laid, Offset, ReadEntry;
    EntryRead(data, items, starts, restarts, count, p);
    NextShares(data, items, starts, restarts, count, p);
    Pieces(data, next, restarts, Unshared(items[p]), items[p].value, data[Offset(items, p + 1)..restarts]);
  }

  lemma SharedFits(data: Bytes, items: seq<Item>, starts: seq<nat>, p: nat)
    requires IsBlock(data, items, starts) && p < |items|
    ensures items[p].shared <= |items[p].key| && Fits(items[p])
    ensures p > 0 ==> items[p].shared <= |items[p - 1].key| && items[p].key[..items[p].shared] == items[p - 1].key[..items[p].shared]
  {
    hide DataBytes, Words, Offsets, Starts, Fits;
    assert SharesAt(items, p) && Fits(items[p]);
  }

  lemma OffsetOrder(items: seq<Item>, i: nat, j: nat)
    requires i <= |items| && j <= |items|
    ensures Offset(items, i) < Offset(items, j) <==> i < j
    ensures Offset(items, i) == Offset(items, j) <==> i == j
    ensures Offset(items, |items|) == |DataBytes(items)|
  {
    if i <= j {
      OffsetsAscend(items, i, j);
    } else {
      OffsetsAscend(items, j, i);
    }
    assert items[..|items|] == items;
  }

  /** The data ends where the restart array starts. */
  lemma OffsetsEnd(data: Bytes, items: seq<Item>, starts: seq<nat>, restarts: nat, count: nat, p: nat)
    requires Laid(data, items, starts, restarts, count) && p <= |items|
    ensures |starts| == count && Offset(items, p) <= restarts && (Offset(items, p) < restarts <==> p < |items|)
  {
    hide Offset, DataBytes;
    LaidOut(data, items, starts, restarts, count);
    OffsetOrder(items, p, |items|);
  }

  ghost predicate KeysAscend(items: seq<Item>, rank: Bytes -> real) {
    forall i, j :: 0 <= i < j < |items| ==> rank(items[i].key) < rank(items[j].key)
  }

  /** The first entry whose key is not before the target. */
  ghost predicate FirstAtLeast(items: seq<Item>, rank: Bytes -> real, target: Bytes, p: nat) {
    && p <= |items|
    && (forall i :: 0 <= i < p ==> rank(items[i].key) < rank(target))
    && (p < |items| ==> rank(items[p].key) >= rank(target))
  }

  class BlockIter {
    const data: Bytes
    const restarts: nat
    const numRestarts: nat
    const rank: Bytes -> real  // the comparator orders keys by rank
    var current: nat
    var restartIndex: nat
    var key: Bytes
    var valueStart: nat
    var valueEnd: nat
    var corrupt: bool
    var overran: bool  // the code has accepted an entry that reaches past the block; all is undefined from there
    ghost const items: seq<Item>
    ghost const starts: seq<nat>
    ghost var pos: nat

    /** The block is one a builder wrote. */
    ghost predicate Good() {
      Laid(data, items, starts, restarts, numRestarts)
    }

    ghost predicate At(p: nat)
      reads this
    {
      && p <= |items|
      && (p < |items| ==>
        && current == Offset(items, p) && key == items[p].key && valueEnd == Offset(items, p + 1)
        && valueStart <= valueEnd <= |data| && data[valueStart..valueEnd] == items[p].value
        && restartIndex < |starts| && starts[restartIndex] <= p
        && (restartIndex + 1 < |starts| ==> p <= starts[restartIndex + 1]))
      && (p == |items| ==> current == restarts)
    }

    /** The next entry to parse is p. */
    ghost predicate Ready(p: nat)
      reads this
    {
      && p <= |items| && valueEnd == Offset(items, p)
      && (p < |items| ==>
        && items[p].shared <= |items[p].key| && items[p].shared <= |key|
        && key[..items[p].shared] == items[p].key[..items[p].shared])
      && restartIndex < |starts| && starts[restartIndex] <= p
    }

    /** Holds on any bytes the block accepts, written by a builder or not. */
    ghost predicate Framed()
      reads this
    {
      numRestarts > 0 && restarts + 4 * numRestarts + 4 == |data|
    }

    /** Parsing on from an offset leaves the block. */
    ghost predicate RunsOverAt(offset: nat, key: Bytes) {
      offset < restarts <= |data| && RunsOver(data[offset..restarts]) && ReadEntry(data[offset..restarts]).value.shared <= |key|
    }

    /** Only an entry whose lengths wrap around lets the cursor leave the block. */
    ghost predicate OverrunExplained()
      reads this
    {
      && (Good() ==> !overran)
      && (overran ==> restarts <= |data| && exists p :: 0 <= p <= restarts && RunsOver(data[p..restarts]))
    }

    ghost predicate Inv()
      reads this
    {
      && Framed() && (Good() ==> !corrupt && At(pos)) && OverrunExplained()
      && (current < restarts ==> restartIndex < numRestarts && current < valueEnd <= restarts && valueStart <= valueEnd)
    }

    predicate Valid()
      reads this
    {
      current < restarts
    }

    function Key(): Bytes
      reads this
    {
      key
    }

    function Value(): Bytes
      requires Inv() && Valid()
      reads this
    {
      data[valueStart..valueEnd]
    }

    function GetRestartPoint(index: nat): nat
      requires Framed() && index < numRestarts
      reads this
    {
      FromFixed(data[restarts + 4 * index..restarts + 4 * index + 4])
    }

    constructor (data: Bytes, restarts: nat, numRestarts: nat, rank: Bytes -> real, ghost items: seq<Item>, ghost starts: seq<nat>)
      requires numRestarts > 0 && restarts + 4 * numRestarts + 4 == |data|
      ensures Inv() && this.data == data && this.restarts == restarts && this.numRestarts == numRestarts && this.rank == rank
      ensures this.items == items && this.starts == starts && !Valid() && !overran
    {
      this.data, this.restarts, this.numRestarts, this.rank, this.items, this.starts := data, restarts, numRestarts, rank, items, starts;
      current, restartIndex, key, valueStart, valueEnd, corrupt, pos := restarts, numRestarts, [], 0, 0, false, |items|;
      overran := false;
    }

    method CorruptionError()
      modifies this
      ensures current == restarts && restartIndex == numRestarts && corrupt && pos == old(pos) && overran == old(overran)
    {
      current, restartIndex, corrupt, key, valueStart, valueEnd := restarts, numRestarts, true, [], 0, 0;
    }

    /** The entry at offset p sends the code past the block; the model stops there. */
    method Overrun(ghost p: nat)
      requires Framed() && !Good() && p <= restarts && RunsOver(data[p..restarts])
      modifies this
      ensures Inv() && !Valid() && overran
    {
      current, restartIndex, overran := restarts, numRestarts, true;
    }

    method SeekToRestartPoint(index: nat)
      requires Framed() && index < numRestarts
      modifies this
      ensures restartIndex == index && valueEnd == valueStart == GetRestartPoint(index)
      ensures current == old(current) && corrupt == old(corrupt) && pos == old(pos) && overran == old(overran)
      ensures Good() ==> index < |starts| && Ready(starts[index])
    {
      hide Laid, DataBytes, Offset, FromFixed;
      key := [];
      restartIndex := index;
      var offset := GetRestartPoint(index);
      valueStart, valueEnd := offset, offset;
      if Good() {
        RestartRead(data, items, starts, restarts, numRestarts, index);
      }
    }

    /** Moves to the entry that starts where the current value ends. */
    method ParseNextKey(ghost p: nat) returns (ok: bool)
      requires Framed() && restartIndex < numRestarts && valueStart <= valueEnd && OverrunExplained()
      requires Good() ==> !corrupt && Ready(p)
      modifies this
      ensures Inv() && (ok <==> Valid()) && (ok ==> old(valueEnd) == current)
      ensures Good() ==> pos == p && At(p) && (p < |items| ==> ok && Ready(p + 1))
      ensures overran <==> old(overran || RunsOverAt(valueEnd, key))
    {
      hide Laid, DataBytes, Offset, FromFixed, ReadEntry;
      pos := p;
      current := valueEnd;
      if Good() {
        OffsetsEnd(data, items, starts, restarts, numRestarts, p);
      }
      if current >= restarts {
        current, restartIndex := restarts, numRestarts;
        return false;
      }
      if Good() {
        EntryParses(data, items, starts, restarts, numRestarts, p);
      }
      var decoded, h, next := DecodeEntry(data, current, restarts);
      if Good() {
        EntryDecoded(data, items, starts, restarts, numRestarts, p, key, h, next);
        NextShares(data, items, starts, restarts, numRestarts, p);
      }
      if !decoded || |key| < h.shared {
        CorruptionError();
        return false;
      }
      if h.nonShared + h.valueLength > restarts - next {
        Overrun(current);
        return false;
      }
      key := key[..h.shared] + data[next..next + h.nonShared];
      valueStart := next + h.nonShared;
      valueEnd := valueStart + h.valueLength;
      SkipRestarts(p);
      ok := true;
    }

    method SkipRestarts(ghost p: nat)
      requires Framed() && restartIndex < numRestarts
      requires Good() ==> p < |items| && current == Offset(items, p) && restartIndex < |starts| && starts[restartIndex] <= p
      modifies this`restartIndex
      ensures restartIndex < numRestarts
      ensures Good() ==> |starts| == numRestarts
      ensures Good() ==> starts[restartIndex] <= p && (restartIndex + 1 < |starts| ==> p <= starts[restartIndex + 1])
    {
      hide Laid, DataBytes, Offset, FromFixed;
      if Good() {
        OffsetsEnd(data, items, starts, restarts, numRestarts, p);
      }
      while restartIndex + 1 < numRestarts && GetRestartPoint(restartIndex + 1) < current
        invariant restartIndex < numRestarts
        invariant Good() ==> starts[restartIndex] <= p
      {
        if Good() {
          PointBefore(restartIndex + 1, p);
        }
        restartIndex := restartIndex + 1;
      }
      if Good() && restartIndex + 1 < numRestarts {
        PointBefore(restartIndex + 1, p);
      }
    }

    lemma PointBefore(index: nat, p: nat)
      requires Good() && Framed() && index < numRestarts && p <= |items|
      ensures |starts| == numRestarts && starts[index] <= |items| && (GetRestartPoint(index) < Offset(items, p) <==> starts[index] < p)
    {
      hide Laid, DataBytes, Offset, FromFixed;
      RestartRead(data, items, starts, restarts, numRestarts, index);
      OffsetOrder(items, starts[index], p);
    }

    // ----- The iterator's operations -----

    method SeekToFirst()
      requires Inv()
      modifies this
      ensures Inv() && (Good() ==> pos == 0)
    {
      hide Laid;
      if Good() {
        LaidOut(data, items, starts, restarts, numRestarts);
      }
      SeekToRestartPoint(0);
      var _ := ParseNextKey(0);
    }

    method SeekToLast()
      requires Inv()
      modifies this
      ensures Inv() && (Good() ==> pos == if items == [] then 0 else |items| - 1)
    {
      hide Laid, DataBytes, Offset;
      if Good() {
        LaidOut(data, items, starts, restarts, numRestarts);
        OffsetOrder(items, 0, |items|);
      }
      SeekToRestartPoint(numRestarts - 1);
      ScanTo(restarts, if Good() then starts[numRestarts - 1] else 0, |items|);
    }

    method Next()
      requires Inv() && Valid()
      modifies this
      ensures Inv() && (Good() ==> pos == old(pos) + 1)
    {
      hide Laid, DataBytes, Offset;
      if Good() {
        AtReady();
      }
      var _ := ParseNextKey(pos + 1);
    }

    /** Scans back to a restart point before the current entry, then forward to the entry that ends where it starts. */
    method Prev()
      requires Inv() && Valid()
      modifies this
      ensures Inv() && (Good() ==> pos == if old(pos) == 0 then |items| else old(pos) - 1)
    {
      hide Laid, DataBytes, Offset, FromFixed;
      var original := current;
      if Good() {
        AtReady();
      }
      while GetRestartPoint(restartIndex) >= original
        invariant Framed() && restartIndex < numRestarts && pos == old(pos) && OverrunExplained()
        invariant Good() ==> !corrupt && pos < |items| && original == Offset(items, pos)
        decreases restartIndex
      {
        if restartIndex == 0 {
          if Good() {
            LaidOut(data, items, starts, restarts, numRestarts);
            PointBefore(0, pos);
          }
          current, restartIndex := restarts, numRestarts;
          pos := |items|;
          return;
        }
        restartIndex := restartIndex - 1;
      }
      ghost var p := pos;
      if Good() {
        PointBefore(restartIndex, pos);
      }
      SeekToRestartPoint(restartIndex);
      ScanTo(original, if Good() then starts[restartIndex] else 0, p);
    }

    /** do {} while (ParseNextKey() && NextEntryOffset() < limit). */
    method ScanTo(limit: nat, ghost from: nat, ghost stop: nat)
      requires Framed() && restartIndex < numRestarts && valueStart == valueEnd && OverrunExplained()
      requires Good() ==> !corrupt && Ready(from) && from <= stop <= |items| && limit == Offset(items, stop)
      requires Good() && from == stop ==> stop == |items|
      modifies this
      ensures Inv() && (Good() ==> pos == if from == stop then |items| else stop - 1)
    {
      hide Laid, DataBytes, Offset;
      var ok := ParseNextKey(from);
      ghost var p: nat := from;
      if Good() && from < stop {
        OffsetOrder(items, from + 1, stop);
      }
      while ok && valueEnd < limit
        invariant Inv() && (ok <==> Valid())
        invariant Good() ==> pos == p && (from == stop ==> p == |items|)
        invariant Good() && from < stop ==> p < stop && ok && Ready(p + 1) && (valueEnd < limit <==> p + 1 < stop)
        decreases if Valid() then restarts - valueEnd + 1 else 0
      {
        ok := ParseNextKey(p + 1);
        p := p + 1;
        if Good() {
          OffsetOrder(items, p + 1, stop);
        }
      }
    }

    lemma ValidInside()
      requires Inv() && Good()
      ensures pos <= |items| && (Valid() <==> pos < |items|)
    {
      hide Laid, DataBytes, Offset;
      LaidOut(data, items, starts, restarts, numRestarts);
      OffsetOrder(items, pos, |items|);
    }

    /** Over bytes where no accepted entry's lengths wrap around, the cursor stays inside the block. */
    lemma SafeWithoutWraps()
      requires Inv() && |data| < TWO_32 && restarts <= |data|
      requires forall p :: 0 <= p <= restarts && ReadEntry(data[p..restarts]).Parsed? ==>
                 ReadEntry(data[p..restarts]).value.nonShared + ReadEntry(data[p..restarts]).value.valueLength < TWO_32
      ensures !overran
    {
      hide ReadEntry, Laid;
      if overran {
        var p :| 0 <= p <= restarts && RunsOver(data[p..restarts]);
        RunsOverIffWraps(data[p..restarts]);
      }
    }

    /** The cursor shows the entry it is at. */
    lemma Reads()
      requires Inv() && Good() && Valid()
      ensures pos < |items| && Key() == items[pos].key && Value() == items[pos].value
    {
      hide Laid, DataBytes, Offset;
      ValidInside();
    }

    lemma AtReady()
      requires Inv() && Valid() && Good()
      ensures pos < |items| && Ready(pos + 1) && current == Offset(items, pos)
    {
      hide Laid, DataBytes, Offset;
      LaidOut(data, items, starts, restarts, numRestarts);
      NextShares(data, items, starts, restarts, numRestarts, pos);
    }

    /** Binary search over the restart points, then a scan from the last one with a key before the target. */
    method Seek(target: Bytes)
      requires Inv()
      modifies this
      ensures Inv()
      ensures Good() && KeysAscend(items, rank) ==> FirstAtLeast(items, rank, target, pos)
    {
      hide Laid, DataBytes, Offset, FromFixed, ReadEntry;
      ghost var good := Good() && KeysAscend(items, rank);
      var left: nat, right: nat := 0, numRestarts - 1;
      if Good() {
        LaidOut(data, items, starts, restarts, numRestarts);
      }
      while left < right
        invariant left <= right < numRestarts && Inv()
        invariant good && left > 0 ==> starts[left] < |items| && rank(items[starts[left]].key) < rank(target)
      {
        var mid := (left + right + 1) / 2;
        var regionOffset := GetRestartPoint(mid);
        if Good() {
          RestartKey(mid);
        }
        var ok, h, next := DecodeEntry(data, regionOffset, restarts);
        if !ok || h.shared != 0 {
          CorruptionError();
          return;
        }
        assert Good() ==> h.nonShared + h.valueLength <= restarts - next by {
          if Good() {
            var e := items[starts[mid]];
            Pieces(data, next, restarts, e.key, e.value, data[Offset(items, starts[mid] + 1)..restarts]);
          }
        }
        if next + h.nonShared > |data| {
          Overrun(regionOffset);
          return;
        }
        var midKey := data[next..next + h.nonShared];
        assert Good() ==> midKey == items[starts[mid]].key by {
          if Good() {
            var e := items[starts[mid]];
            Pieces(data, next, restarts, e.key, e.value, data[Offset(items, starts[mid] + 1)..restarts]);
          }
        }
        if rank(midKey) < rank(target) {
          left := mid;
        } else {
          right := mid - 1;
        }
      }
      SeekToRestartPoint(left);
      ScanFor(target, if Good() then starts[left] else 0);
    }

    /** Parses on until a key is not before the target. */
    method ScanFor(target: Bytes, ghost from: nat)
      requires Framed() && restartIndex < numRestarts && valueStart == valueEnd && OverrunExplained()
      requires Good() ==> !corrupt && Ready(from)
      modifies this
      ensures Inv()
      ensures Good() ==> from <= pos && (forall i :: from <= i < pos ==> rank(items[i].key) < rank(target))
      ensures Good() && pos < |items| ==> rank(items[pos].key) >= rank(target)
    {
      hide Laid, DataBytes, Offset, RunsOverAt, OverrunExplained;
      ghost var p: nat := from;
      var ok := ParseNextKey(p);
      while ok && rank(key) < rank(target)
        invariant Inv() && (ok <==> Valid())
        invariant Good() ==> pos == p && from <= p && (forall i :: from <= i < p ==> rank(items[i].key) < rank(target))
        invariant Good() && p < |items| ==> ok && key == items[p].key && Ready(p + 1)
        decreases if Valid() then restarts - valueEnd + 1 else 0
      {
        if Good() {
          AtReady();
        }
        ok := ParseNextKey(p + 1);
        p := p + 1;
      }
    }

    /** The key at a restart point is stored whole. */
    lemma RestartKey(index: nat)
      requires Good() && Framed() && 0 < index < numRestarts
      ensures |starts| == numRestarts && starts[index] < |items|
      ensures var offset, e := GetRestartPoint(index), items[starts[index]];
        && offset <= restarts && ReadEntry(data[offset..restarts]).Parsed?
        && ReadEntry(data[offset..restarts]).value == Header(0, |e.key|, |e.value|)
        && Offset(items, starts[index] + 1) <= restarts
        && ReadEntry(data[offset..restarts]).rest == e.key + e.value + data[Offset(items, starts[index] + 1)..restarts]
    {
      hide Laid, DataBytes, Offset, FromFixed, ReadEntry;
      LaidOut(data, items, starts, restarts, numRestarts);
      RestartRead(data, items, starts, restarts, numRestarts, index);
      EntryRead(data, items, starts, restarts, numRestarts, starts[index]);
    }
  }

  datatype Opened = BadContents | Empty | Cursor

  /** Block's constructor and NewIterator: the last word counts the restart points, if there is room for them. */
  method NewIterator(data: Bytes, rank: Bytes -> real, ghost items: seq<Item>, ghost starts: seq<nat>)
    returns (outcome: Opened, iter: BlockIter?)
    ensures outcome.Cursor? <==> iter != null
    ensures iter != null ==> fresh(iter) && iter.Inv() && !iter.Valid() && !iter.overran && iter.data == data && iter.rank == rank && iter.items == items
    ensures IsBlock(data, items, starts) ==> outcome.Cursor? && iter.Good()
    ensures outcome.BadContents? <==> |data| < 4 || FromFixed(data[|data| - 4..]) * 4 + 4 > |data|
    ensures outcome.Empty? <==> |data| >= 4 && FromFixed(data[|data| - 4..]) == 0
  {
    hide Sharing, DataBytes, Fixed, Words, FromFixed;
    iter := null;
    if |data| < 4 {
      Trailer(data, items, starts);
      return BadContents, null;
    }
    var numRestarts := FromFixed(data[|data| - 4..]);
    Trailer(data, items, starts);
    if numRestarts > (|data| - 4) / 4 {
      return BadContents, null;
    }
    if numRestarts == 0 {
      return Empty, null;
    }
    iter := new BlockIter(data, |data| - (1 + numRestarts) * 4, numRestarts, rank, items, starts);
    outcome := Cursor;
  }

  lemma Trailer(data: Bytes, items: seq<Item>, starts: seq<nat>)
    ensures IsBlock(data, items, starts) ==>
        |data| >= 4 && FromFixed(data[|data| - 4..]) == |starts| > 0 && |DataBytes(items)| + 4 * |starts| + 4 == |data|
  {
    hide Sharing, DataBytes, Fixed, Words, FromFixed;
    if IsBlock(data, items, starts) {
      LaidOut(data, items, starts, |DataBytes(items)|, |starts|);
      Widths();
      FixedRoundTrip(|starts|, 4);
      assert data[|data| - 4..] == Fixed(|starts|, 4);
    }
  }

  /** Adds the entries to a builder and finishes the block. */
  method Write(entries: seq<(Bytes, Bytes)>, interval: nat) returns (fits: bool, data: Bytes, ghost items: seq<Item>, ghost starts: seq<nat>)
    requires interval > 0 && forall i :: 0 <= i < |entries| ==> |entries[i].0| < TWO_32 && |entries[i].1| < TWO_32
    ensures fits ==> IsBlock(data, items, starts) && Keys(items) == entries
  {
    hide IsBlock, Building, Repeats;
    var builder := new BlockBuilder(interval);
    for i := 0 to |entries|
      invariant fresh(builder) && builder.Valid() && !builder.finished && Keys(builder.items) == entries[..i]
    {
      builder.Add(entries[i].0, entries[i].1);
    }
    assert entries[..|entries|] == entries;
    items, starts, data := builder.items, builder.starts, [];
    if |builder.buffer| + 4 * |builder.restarts| + 4 >= TWO_32 {
      return false, data, items, starts;
    }
    data := builder.Finish();
    fits := true;
  }

  /** What a builder wrote, a cursor over the finished bytes reads back, first entry to last. */
  method ReadBack(data: Bytes, rank: Bytes -> real, ghost items: seq<Item>, ghost starts: seq<nat>) returns (out: seq<(Bytes, Bytes)>)
    requires IsBlock(data, items, starts)
    ensures out == Keys(items)
  {
    hide IsBlock, Laid, Offset;
    var _, iter := NewIterator(data, rank, items, starts);
    iter.SeekToFirst();
    iter.ValidInside();
    out := [];
    while iter.Valid()
      invariant iter.Inv() && iter.Good() && iter.items == items && iter.pos <= |items| && out == Keys(items)[..iter.pos]
      invariant iter.Valid() <==> iter.pos < |items|
      decreases |items| - iter.pos
    {
      iter.Reads();
      out := out + [(iter.Key(), iter.Value())];
      iter.Next();
      iter.ValidInside();
    }
    assert Keys(items)[..|items|] == Keys(items);
  }
}
