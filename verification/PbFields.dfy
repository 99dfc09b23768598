/** What one field of the input does to a message, for every field the decoder knows: what each kind of member takes
    and refuses, whatever encoder the bytes come from. */
module PbFields {
  import opened Coding
  import opened InternalKeys
  import opened PbFormat
  import opened PbDecode

  /** A field of the descriptor, by its key: its decoder runs on what follows, its member is replaced, and if it is
      required it has been seen. */
  lemma KnownField(d: Descriptor, i: nat, w: nat, rest: Bytes, m: Message, seen: set<nat>)
    requires ValidTags(d) && i < |d.fields| && i < |m.items| && w < 8
    ensures var r := ReadField(d.fields[i], w, rest, m.items[i]);
      ReadFields(d, Varint(8 * d.fields[i].tag + w) + rest, m, seen)
      == if r.Fail? then None
         else ReadFields(d, r.rest, Message(m.items[i := r.value]), if d.fields[i].htype.Required? then seen + {i} else seen)
  {
    hide ReadUInt32, Varint, ReadField, FindField;
    var t := 8 * d.fields[i].tag + w;
    UInt32RoundTrip(t, rest);
    FindsField(d.fields, i);
    assert t / 8 == d.fields[i].tag && t % 8 == w;
    VarintNonEmpty(t);
  }

  /** Decoding succeeds when every field does and each of the first 64 required fields has come. */
  lemma RequiredMeans(d: Descriptor, s: Bytes, m: Message)
    ensures var r := ReadFields(d, s, m, {});
      && (DecodeInto(d, s, m).Some? <==> r.Some? && forall i ::
            0 <= i < |d.fields| && d.fields[i].htype.Required? && |set j | 0 <= j < i && d.fields[j].htype.Required?| < 64
            ==> i in r.value.1)
      && (DecodeInto(d, s, m).Some? ==> DecodeInto(d, s, m) == Some(r.value.0))
  {
    hide ReadFields, RequiredBefore;
    forall i | 0 <= i < |d.fields|
      ensures RequiredBefore(d.fields, i) == |set j | 0 <= j < i && d.fields[j].htype.Required?|
    {
      RequiredCounted(d.fields, i);
    }
  }

  lemma {:induction false} RequiredCounted(fs: seq<Field>, i: nat)
    requires i <= |fs|
    ensures RequiredBefore(fs, i) == |set j | 0 <= j < i && fs[j].htype.Required?|
  {
    if i > 0 {
      RequiredCounted(fs, i - 1);
      var before := set j | 0 <= j < i - 1 && fs[j].htype.Required?;
      assert (set j | 0 <= j < i && fs[j].htype.Required?) == before + if fs[i - 1].htype.Required? then {i - 1} else {};
    }
  }

  // ----- Members that hold numbers -----

  /** Half the numbers a member of this many bytes holds. */
  function Half(size: nat): int {
    if size == 1 then 0x80 else if size == 2 then 0x8000 else if size == 4 then 0x8000_0000 else 0x8000_0000_0000_0000
  }

  /** A varint becomes the one number of the member's range that stands for it, and is refused if there is none: itself
      for an unsigned member, the number equal to it modulo 2^32, or 2^64 for 8 bytes, for a signed one, and the number
      whose zigzag form it is for a zigzag one. */
  lemma VarintStored(f: Field, n: nat, x: int, rest: Bytes, base: Value)
    requires IntSize(f.dataSize) && n < 0x1_0000_0000_0000_0000
    ensures var r := ReadValue(f, Varint(n) + rest, base);
      var h := Half(f.dataSize);
      && (f.ltype.UVarintType? ==> (r == Parsed(Int(x), rest) <==> x == n < 2 * h))
      && (f.ltype.VarintType? ==> (r == Parsed(Int(x), rest) <==>
            -h <= x < h && (x - n) % (if f.dataSize == 8 then 0x1_0000_0000_0000_0000 else 0x1_0000_0000) == 0))
      && (f.ltype.SVarintType? ==> (r == Parsed(Int(x), rest) <==> -h <= x < h && n == if x < 0 then -2 * x - 1 else 2 * x))
      && (f.ltype.UVarintType? || f.ltype.VarintType? || f.ltype.SVarintType? ==> r.Fail? || (r.value.Int? && r.rest == rest))
  {
    hide ReadVarint64, Varint, DecodeInto, VarintValue, UnZigZag, HalfRange, Half;
    VarintRoundTrip(n, rest);
    Ranges(f.dataSize);
    match f.ltype
    case VarintType => SignedStored(f.dataSize, n, x);
    case SVarintType => ZigZagOf(n, x);
    case _ =>
  }

  lemma Ranges(size: nat)
    requires IntSize(size)
    ensures Half(size) == HalfRange(size)
  {
  }

  lemma ZigZagOf(n: nat, x: int)
    ensures UnZigZag(n) == x <==> n == if x < 0 then -2 * x - 1 else 2 * x
  {
  }

  lemma SignedStored(size: nat, n: nat, x: int)
    requires IntSize(size) && n < 0x1_0000_0000_0000_0000
    ensures var h, y := Half(size), VarintValue(size, n);
      (x == y && -h <= y < h) <==> -h <= x < h && (x - n) % (if size == 8 then 0x1_0000_0000_0000_0000 else 0x1_0000_0000) == 0
  {
    var y, h := VarintValue(size, n), Half(size);
    if size == 8 {
      SameResidue(n, y, x, 0x1_0000_0000_0000_0000);
    } else {
      var low := n % 0x1_0000_0000;
      SameResidue(n, low, y, 0x1_0000_0000);
      SameResidue(n, y, x, 0x1_0000_0000);
    }
  }

  /** Of two numbers less than m apart only one is congruent to n. */
  lemma SameResidue(n: int, y: int, x: int, m: int)
    requires m > 0 && (y - n) % m == 0
    ensures (x - n) % m == 0 <==> (x - y) % m == 0
    ensures -m < x - y < m ==> ((x - y) % m == 0 <==> x == y)
  {
    var k := (y - n) / m;
    assert y - n == m * k;
    if (x - n) % m == 0 {
      var j := (x - n) / m;
      assert x - y == m * (j - k);
      Multiple(j - k, m);
    }
    if (x - y) % m == 0 {
      var j := (x - y) / m;
      assert x - n == m * (j + k);
      Multiple(j + k, m);
    }
  }

  lemma Multiple(k: int, m: int)
    requires m > 0
    ensures (m * k) % m == 0
  {
    var q, r := (m * k) / m, (m * k) % m;
    assert m * k == m * q + r;
    assert r == m * (k - q);
    assert k - q >= 1 ==> m * (k - q) >= m;
    assert k - q <= -1 ==> m * (k - q) <= -m;
  }

  /** A bool is true for any number but 0, and fixed-width numbers are little-endian. */
  lemma OtherNumbersStored(f: Field, n: nat, s: Bytes, rest: Bytes, base: Value)
    ensures f.ltype.BoolType? && n < 0x1_0000_0000 ==>
        ReadValue(f, Varint(n) + rest, base) == Parsed(Int(if n == 0 then 0 else 1), rest)
    ensures f.ltype.Fixed32Type? && |s| == 4 ==> ReadValue(f, s + rest, base) == Parsed(Int(FromFixed(s)), rest)
    ensures f.ltype.Fixed64Type? && |s| == 8 ==> ReadValue(f, s + rest, base) == Parsed(Int(FromFixed(s)), rest)
    ensures (f.ltype.Fixed32Type? && |s| < 4) || (f.ltype.Fixed64Type? && |s| < 8) ==> ReadValue(f, s, base).Fail?
  {
    hide ReadUInt32, Varint, FromFixed, DecodeInto;
    if n < 0x1_0000_0000 {
      UInt32RoundTrip(n, rest);
    }
    assert (s + rest)[..|s|] == s && (s + rest)[|s|..] == rest;
  }

  // ----- Members that hold bytes -----

  /** The part of a string before its first zero byte. */
  ghost predicate UpToZero(q: Bytes, p: Bytes) {
    q <= p && (forall i :: 0 <= i < |q| ==> q[i] != 0) && (|q| == |p| || p[|q|] == 0)
  }

  lemma {:induction false} CStringStops(p: Bytes, q: Bytes)
    ensures UpToZero(q, p) <==> q == CString(p)
  {
    if p != [] && p[0] != 0 {
      CStringStops(p[1..], CString(p[1..]));
      if q != [] && q[0] == p[0] {
        CStringStops(p[1..], q[1..]);
        assert q == [q[0]] + q[1..] && p == [p[0]] + p[1..];
        assert q <= p <==> q[1..] <= p[1..];
        assert (forall i :: 0 <= i < |q| ==> q[i] != 0) <==> (forall i :: 0 <= i < |q[1..]| ==> q[1..][i] != 0) by {
          if forall i :: 0 <= i < |q[1..]| ==> q[1..][i] != 0 {
            forall i | 0 <= i < |q|
              ensures q[i] != 0
            {
              assert i > 0 ==> q[i] == q[1..][i - 1];
            }
          }
        }
      }
    }
  }

  /** Bytes are taken if they fit, a string if its terminator fits too and then up to its first zero byte, and bytes of
      a fixed length if they have it or are none at all, which stands for all zeros. */
  lemma BytesStored(f: Field, p: Bytes, q: Bytes, rest: Bytes, base: Value)
    requires |p| < 0x1_0000_0000
    ensures var r := ReadValue(f, Varint(|p|) + (p + rest), base);
      && (f.ltype.BytesType? ==> r == if |p| <= f.dataSize && |p| <= 65535 then Parsed(Blob(p), rest) else Fail)
      && (f.ltype.StringType? ==> (r == Parsed(Blob(q), rest) <==> |p| + 1 <= f.dataSize && UpToZero(q, p)))
      && (f.ltype.StringType? ==> (r.Fail? <==> |p| + 1 > f.dataSize))
      && (f.ltype.FixedLengthBytesType? && p == [] ==> r == Parsed(Blob(seq(f.dataSize, _ => 0)), rest))
      && (f.ltype.FixedLengthBytesType? && p != [] ==>
            r == if |p| == f.dataSize && |p| <= 65535 then Parsed(Blob(p), rest) else Fail)
  {
    hide ReadUInt32, Varint, CString, DecodeInto;
    UInt32RoundTrip(|p|, p + rest);
    TakeWhole(p, rest);
    CStringStops(p, q);
    CStringStops(p, CString(p));
    assert p == [] ==> p + rest == rest;
  }

  /** A submessage is decoded into what its member holds, which keeps the fields that do not come again. */
  lemma SubmessageStored(f: Field, p: Bytes, rest: Bytes, m: Message)
    requires f.ltype.SubmessageType? && |p| < 0x1_0000_0000
    ensures var r := DecodeInto(f.sub, p, m);
      ReadValue(f, Varint(|p|) + p + rest, Sub(m)) == if r.None? then Fail else Parsed(Sub(r.value), rest)
  {
    hide ReadUInt32, Varint, DecodeInto, ReadDelimited;
    assert Varint(|p|) + p + rest == Prefixed(p) + rest;
    DelimitedRoundTrip(p, rest);
  }

  /** Bytes that end before the length they announce are refused. */
  lemma CutShort(f: Field, n: nat, s: Bytes, base: Value)
    requires |s| < n < 0x1_0000_0000
    requires f.ltype.BytesType? || f.ltype.StringType? || f.ltype.SubmessageType? || f.ltype.FixedLengthBytesType?
    ensures ReadValue(f, Varint(n) + s, base).Fail?
  {
    hide ReadUInt32, Varint, DecodeInto, CString;
    UInt32RoundTrip(n, s);
  }

  // ----- Arrays -----

  /** A required or optional field that comes again is decoded over what it held. */
  lemma SingleField(f: Field, w: nat, s: Bytes, items: seq<Value>)
    requires !f.htype.Repeated?
    ensures var r := ReadValue(f, s, if items == [] then DefaultValue(f) else items[0]);
      ReadField(f, w, s, items) == if r.Fail? then Fail else Parsed([r.value], r.rest)
  {
    hide ReadValue;
  }

  /** An array takes single items while it has room, packable ones also when the wire type is not 2. */
  lemma ItemAppended(f: Field, w: nat, s: Bytes, items: seq<Value>)
    requires f.htype.Repeated? && (w != 2 || WireType(f.ltype) == 2)
    ensures var r := ReadValue(f, s, DefaultValue(f));
      ReadField(f, w, s, items) == if |items| >= f.arraySize || r.Fail? then Fail else Parsed(items + [r.value], r.rest)
  {
    hide ReadValue;
  }

  /** A packed chunk's numbers join those the array holds, and it fails if they do not all fit. */
  lemma ChunkAppended(f: Field, items: seq<Value>, more: seq<Value>, tail: Bytes)
    requires f.htype.Repeated? && Packable(f.ltype) && (forall j :: 0 <= j < |more| ==> TypedValue(f, more[j]))
    requires PackedBytes(f, more).Some? && |PackedBytes(f, more).value| < 0x1_0000_0000
    ensures var b := PackedBytes(f, more).value;
      ReadField(f, 2, Varint(|b|) + b + tail, items)
      == if more != [] && |items| + |more| > f.arraySize then Fail else Parsed(items + more, tail)
  {
    hide ReadUInt32, Varint, TypedValue, PackedBytes, ReadPacked, ReadDelimited;
    var b := PackedBytes(f, more).value;
    assert Varint(|b|) + b + tail == Prefixed(b) + tail;
    DelimitedRoundTrip(b, tail);
    PackedFrom(f, items, more, []);
    assert b + [] == b;
    EndOfChunk(f, items + more);
  }

  lemma EndOfChunk(f: Field, items: seq<Value>)
    requires Packable(f.ltype)
    ensures ReadPacked(f, [], items) == Some(items)
  {
  }

  lemma {:induction false} PackedFrom(f: Field, items: seq<Value>, more: seq<Value>, tail: Bytes)
    requires Packable(f.ltype) && forall j :: 0 <= j < |more| ==> TypedValue(f, more[j])
    ensures PackedBytes(f, more).Some?
    ensures ReadPacked(f, PackedBytes(f, more).value + tail, items)
      == if more != [] && |items| + |more| > f.arraySize then None else ReadPacked(f, tail, items + more)
    decreases |more|
  {
    hide ReadValue, ValueBytes, TypedValue;
    if more == [] {
      assert [] + tail == tail && items + more == items;
    } else {
      var k := |more| - 1;
      var front, b := more[..k], ValueBytes(f, more[k]);
      NumberRoundTrip(f, more[k], tail, Int(0));
      PackedFrom(f, items, front, b.value + tail);
      assert PackedBytes(f, more).value + tail == PackedBytes(f, front).value + (b.value + tail);
      assert items + front + [more[k]] == items + more;
    }
  }

  // ----- More of what the encoder puts out -----

  /** A submessage alone in its field: key, length, and its own bytes. */
  lemma SubmessageField(f: Field, v: Value)
    requires !f.htype.Repeated? && f.ltype.SubmessageType? && TypedValue(f, v)
    ensures TypedItems(f, [v])
    ensures var b := MessageBytes(f.sub, v.message);
      FieldBytes(f, [v]) == if b.None? then None else Some(Varint(8 * f.tag + 2) + (Varint(|b.value|) + b.value))
  {
    hide Varint, MessageBytes, Typed;
    OneTagged(f, [v]);
    assert FieldBytes(f, [v]) == TaggedBytes(f, [v]);
  }

  /** Strings, bytes and submessages of an array come one behind the other, each with its own key. */
  lemma ItemField(f: Field, items: seq<Value>, v: Value)
    requires f.htype.Repeated? && WireType(f.ltype) == 2 && TypedItems(f, items + [v]) && |items| < f.arraySize
    ensures TypedItems(f, items) && TypedValue(f, v)
    ensures FieldBytes(f, items).Some? && ValueBytes(f, v).Some? ==>
        FieldBytes(f, items + [v]) == Some(FieldBytes(f, items).value + (Varint(8 * f.tag + 2) + ValueBytes(f, v).value))
  {
    hide Varint, ValueBytes, TypedValue;
    var all := items + [v];
    assert all[..|all| - 1] == items && all[|items|] == v;
    forall j | 0 <= j < |items|
      ensures TypedValue(f, items[j])
    {
      assert all[j] == items[j];
    }
    assert items == [] ==> TaggedBytes(f, items) == Some([]);
  }
}
