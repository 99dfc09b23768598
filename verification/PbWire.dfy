/** The wire format in numbers, as the Protocol Buffers encoding defines it: what the encoder's bytes are, what the
    decoder does with fields it does not know, and that what it stores always fits the message's members. */
module PbWire {
  import opened Coding
  import opened InternalKeys
  import opened PbFormat
  import opened PbDecode

  // ----- What the encoder puts out -----

  /** The wire type of each kind of field: 0 varint, 1 eight bytes, 2 length-delimited, 5 four bytes. */
  lemma WireTypes(f: Field)
    ensures WireType(f.ltype) ==
      match f.ltype
      case Fixed64Type => 1
      case Fixed32Type => 5
      case BytesType => 2
      case StringType => 2
      case SubmessageType => 2
      case FixedLengthBytesType => 2
      case _ => 0
  {
  }

  /** A number alone in its field: key, then the value as its type is written. */
  lemma NumberField(f: Field, v: Value)
    requires !f.htype.Repeated? && Packable(f.ltype) && TypedValue(f, v)
    ensures TypedItems(f, [v]) && FieldBytes(f, [v]) == Some(
      match f.ltype
      case BoolType => Varint(8 * f.tag) + [v.n]
      case VarintType => Varint(8 * f.tag) + Varint(if v.n >= 0 then v.n else 0x1_0000_0000_0000_0000 + v.n)
      case UVarintType => Varint(8 * f.tag) + Varint(v.n)
      case SVarintType => Varint(8 * f.tag) + Varint(if v.n >= 0 then 2 * v.n else -2 * v.n - 1)
      case Fixed32Type => Varint(8 * f.tag + 5) + Fixed(v.n, 4)
      case Fixed64Type => Varint(8 * f.tag + 1) + Fixed(v.n, 8)
      case _ => [])
  {
    hide Fixed;
    OneTagged(f, [v]);
    assert FieldBytes(f, [v]) == TaggedBytes(f, [v]);
    if f.ltype.BoolType? {
      assert Varint(v.n) == [v.n];
    }
  }

  /** Bytes alone in their field: key, length, bytes. */
  lemma BytesField(f: Field, v: Value)
    requires !f.htype.Repeated? && (f.ltype.BytesType? || f.ltype.StringType? || f.ltype.FixedLengthBytesType?) && TypedValue(f, v)
    ensures TypedItems(f, [v]) && FieldBytes(f, [v]) ==
      if f.ltype.BytesType? && |v.bytes| > f.dataSize then None
      else Some(Varint(8 * f.tag + 2) + (Varint(|v.bytes|) + v.bytes))
  {
    hide Varint;
    OneTagged(f, [v]);
    assert FieldBytes(f, [v]) == TaggedBytes(f, [v]);
  }

  /** A packed array: key, length, values; an array longer than its member fails. */
  lemma PackedField(f: Field, items: seq<Value>)
    requires f.htype.Repeated? && Packable(f.ltype) && TypedItems(f, items) && items != []
    ensures if |items| > f.arraySize then FieldBytes(f, items) == None
            else PackedBytes(f, items).Some? ==>
              FieldBytes(f, items) == Some(Varint(8 * f.tag + 2) + (Varint(|PackedBytes(f, items).value|) + PackedBytes(f, items).value))
  {
    hide Varint, PackedBytes;
  }

  /** A message is its fields' bytes in descriptor order. */
  lemma FieldsInOrder(d: Descriptor, m: Message, n: nat)
    requires Typed(d, m) && n < |d.fields| && FieldsBytes(d, m, n).Some? && FieldBytes(d.fields[n], m.items[n]).Some?
    ensures FieldsBytes(d, m, n + 1) == Some(FieldsBytes(d, m, n).value + FieldBytes(d.fields[n], m.items[n]).value)
    ensures FieldsBytes(d, m, 0) == Some([])
  {
    hide FieldBytes;
  }

  // ----- Fields the decoder does not know -----

  lemma {:induction false} NoSuchField(fs: seq<Field>, tag: nat)
    requires forall i :: 0 <= i < |fs| ==> fs[i].tag != tag
    ensures FindField(fs, tag) == |fs|
  {
    if fs != [] {
      NoSuchField(fs[1..], tag);
    }
  }

  lemma {:induction false} VarintSkipped(n: nat, rest: Bytes)
    ensures SkipVarint(Varint(n) + rest) == Parsed((), rest)
  {
    var s := Varint(n) + rest;
    if n < 128 {
      assert s[1..] == rest && s[0] == n;
    } else {
      assert s[1..] == Varint(n / 128) + rest && s[0] == n % 128 + 128;
      VarintSkipped(n / 128, rest);
    }
  }

  /** The bytes behind the key of an unknown field. */
  lemma UnknownKey(d: Descriptor, tag: nat, w: nat, rest: Bytes, m: Message, seen: set<nat>)
    requires w < 8 && 0 < 8 * tag + w < TWO_32 && forall i :: 0 <= i < |d.fields| ==> d.fields[i].tag != tag
    ensures var r := SkipField(w, rest);
      ReadFields(d, Varint(8 * tag + w) + rest, m, seen) == if r.Fail? then None else ReadFields(d, r.rest, m, seen)
  {
    hide ReadUInt32, Varint, SkipField, FindField;
    var t := 8 * tag + w;
    UInt32RoundTrip(t, rest);
    NoSuchField(d.fields, tag);
    assert t / 8 == tag && t % 8 == w;
    VarintNonEmpty(t);
  }

  /** A field whose number is not in the descriptor leaves the message alone: a number of any length, eight bytes,
      four bytes, or a length and that many bytes, by its wire type. */
  lemma UnknownFieldSkipped(d: Descriptor, tag: nat, w: nat, n: nat, p: Bytes, tail: Bytes, m: Message, seen: set<nat>)
    requires 0 < 8 * tag + w < TWO_32 && forall i :: 0 <= i < |d.fields| ==> d.fields[i].tag != tag
    requires w == 0 || (w == 1 && |p| == 8) || (w == 2 && |p| < TWO_32) || (w == 5 && |p| == 4)
    ensures var payload := if w == 0 then Varint(n) else if w == 2 then Varint(|p|) + p else p;
      ReadFields(d, Varint(8 * tag + w) + payload + tail, m, seen) == ReadFields(d, tail, m, seen)
  {
    hide Varint, ReadFields, ReadUInt32, SkipVarint;
    var payload := if w == 0 then Varint(n) else if w == 2 then Varint(|p|) + p else p;
    assert Varint(8 * tag + w) + payload + tail == Varint(8 * tag + w) + (payload + tail);
    UnknownKey(d, tag, w, payload + tail, m, seen);
    if w == 0 {
      VarintSkipped(n, tail);
    } else if w == 2 {
      DelimitedRoundTrip(p, tail);
    } else {
      assert (p + tail)[|p|..] == tail;
    }
  }

  /** Any other wire type, or too few bytes for it, makes decoding fail. */
  lemma UnknownFieldFails(d: Descriptor, tag: nat, w: nat, rest: Bytes, m: Message, seen: set<nat>)
    requires w < 8 && 0 < 8 * tag + w < TWO_32 && forall i :: 0 <= i < |d.fields| ==> d.fields[i].tag != tag
    requires (w != 0 && w != 1 && w != 2 && w != 5) || (w == 1 && |rest| < 8) || (w == 5 && |rest| < 4)
    ensures ReadFields(d, Varint(8 * tag + w) + rest, m, seen) == None
  {
    hide Varint, ReadFields;
    UnknownKey(d, tag, w, rest, m, seen);
  }

  /** A zero byte where a key is due ends the message, whatever follows. */
  lemma ZeroEnds(d: Descriptor, rest: Bytes, m: Message, seen: set<nat>)
    ensures ReadFields(d, [0] + rest, m, seen) == Some((m, seen)) && ReadFields(d, [], m, seen) == Some((m, seen))
  {
    assert ([0] + rest)[0] == 0 && ReadUInt32([0] + rest).Parsed? && ReadUInt32([0] + rest).value == 0;
  }

  /** Nothing to read is a message exactly when nothing is required. */
  lemma EmptyIffNothingRequired(d: Descriptor, m: Message)
    ensures DecodeInto(d, [], m) == Some(m) <==> forall i :: 0 <= i < |d.fields| ==> !d.fields[i].htype.Required?
  {
    ZeroEnds(d, [], m, {});
    if i :| 0 <= i < |d.fields| && d.fields[i].htype.Required? {
      var k := FirstRequired(d.fields, i);
      assert !AllSeen(d, {});
    }
  }

  lemma {:induction false} FirstRequired(fs: seq<Field>, i: nat) returns (k: nat)
    requires i < |fs| && fs[i].htype.Required?
    ensures k <= i && fs[k].htype.Required? && RequiredBefore(fs, k) == 0
  {
    if j :| 0 <= j < i && fs[j].htype.Required? {
      k := FirstRequired(fs, j);
    } else {
      k := i;
      NoneRequiredBefore(fs, i);
    }
  }

  lemma {:induction false} NoneRequiredBefore(fs: seq<Field>, i: nat)
    requires i <= |fs| && forall j :: 0 <= j < i ==> !fs[j].htype.Required?
    ensures RequiredBefore(fs, i) == 0
  {
    if i > 0 {
      NoneRequiredBefore(fs, i - 1);
    }
  }

  // ----- What the decoder stores -----

  /** Members that can hold something: integers of a machine width, strings with room for a terminator. */
  ghost predicate Sized(d: Descriptor)
    decreases d
  {
    forall i :: 0 <= i < |d.fields| ==>
      && (d.fields[i].ltype.VarintType? || d.fields[i].ltype.UVarintType? || d.fields[i].ltype.SVarintType? ==>
            d.fields[i].dataSize == 1 || d.fields[i].dataSize == 2 || d.fields[i].dataSize == 4 || d.fields[i].dataSize == 8)
      && (d.fields[i].ltype.StringType? ==> d.fields[i].dataSize > 0)
      && Sized(d.fields[i].sub)
  }

  /** The value lies within its member. */
  ghost predicate FitsMember(f: Field, v: Value)
    decreases f, 0
  {
    match f.ltype
    case BoolType => v.Int? && 0 <= v.n <= 1
    case VarintType => v.Int? && (f.dataSize == 1 ==> -0x80 <= v.n < 0x80) && (f.dataSize == 2 ==> -0x8000 <= v.n < 0x8000)
      && (f.dataSize == 4 ==> -0x8000_0000 <= v.n < 0x8000_0000) && -0x8000_0000_0000_0000 <= v.n < 0x8000_0000_0000_0000
    case UVarintType => v.Int? && (f.dataSize == 1 ==> v.n < 0x100) && (f.dataSize == 2 ==> v.n < 0x1_0000)
      && (f.dataSize == 4 ==> v.n < 0x1_0000_0000) && 0 <= v.n < 0x1_0000_0000_0000_0000
    case SVarintType => v.Int? && (f.dataSize == 1 ==> -0x80 <= v.n < 0x80) && (f.dataSize == 2 ==> -0x8000 <= v.n < 0x8000)
      && (f.dataSize == 4 ==> -0x8000_0000 <= v.n < 0x8000_0000) && -0x8000_0000_0000_0000 <= v.n < 0x8000_0000_0000_0000
    case Fixed32Type => v.Int? && 0 <= v.n < 0x1_0000_0000
    case Fixed64Type => v.Int? && 0 <= v.n < 0x1_0000_0000_0000_0000
    case BytesType => v.Blob? && |v.bytes| <= f.dataSize
    case StringType => v.Blob? && |v.bytes| + 1 <= f.dataSize && forall i :: 0 <= i < |v.bytes| ==> v.bytes[i] != 0
    case SubmessageType => v.Sub? && FitsMembers(f.sub, v.message)
    case FixedLengthBytesType => v.Blob? && |v.bytes| == f.dataSize
  }

  ghost predicate FitsItems(f: Field, items: seq<Value>)
    decreases f, 1
  {
    && (f.htype.Required? ==> |items| == 1) && (f.htype.Optional? ==> |items| <= 1) && (f.htype.Repeated? ==> |items| <= f.arraySize)
    && forall i :: 0 <= i < |items| ==> FitsMember(f, items[i])
  }

  ghost predicate FitsMembers(d: Descriptor, m: Message)
    decreases d, 2
  {
    |m.items| == |d.fields| && forall i :: 0 <= i < |d.fields| ==> FitsItems(d.fields[i], m.items[i])
  }

  lemma {:induction false} CStringFits(s: Bytes)
    ensures |CString(s)| <= |s| && forall i :: 0 <= i < |CString(s)| ==> CString(s)[i] != 0
  {
    if s != [] && s[0] != 0 {
      CStringFits(s[1..]);
    }
  }

  lemma {:induction false} FixedBelow(s: Bytes)
    ensures FromFixed(s) < Pow256(|s|)
  {
    if s != [] {
      FixedBelow(s[1..]);
    }
  }

  lemma {:induction false} DefaultFits(f: Field)
    requires Sized(Descriptor([f]))
    ensures FitsMember(f, DefaultValue(f))
    decreases f, 0
  {
    assert [f][0] == f;
    if f.ltype.SubmessageType? {
      assert Sized(f.sub);
      DefaultsFit(f.sub);
    }
  }

  /** The defaults fit. */
  lemma {:induction false} DefaultsFit(d: Descriptor)
    requires Sized(d)
    ensures FitsMembers(d, DefaultMessage(d))
    decreases d, 1
  {
    forall i | 0 <= i < |d.fields|
      ensures FitsItems(d.fields[i], DefaultItems(d.fields[i]))
    {
      FieldSized(d, i);
      DefaultFits(d.fields[i]);
    }
  }

  lemma FieldSized(d: Descriptor, i: nat)
    requires Sized(d) && i < |d.fields|
    ensures Sized(Descriptor([d.fields[i]])) && Sized(d.fields[i].sub)
  {
    var f := d.fields[i];
    assert Descriptor([f]).fields[0] == f;
  }

  lemma {:induction false} ValueFits(f: Field, s: Bytes, base: Value)
    requires Sized(Descriptor([f])) && ReadValue(f, s, base).Parsed? && (f.ltype.SubmessageType? ==> FitsMember(f, base))
    ensures FitsMember(f, ReadValue(f, s, base).value)
    decreases f, 0
  {
    hide ReadUInt32, ReadVarint64, CString, Sized, DecodeInto;
    match f.ltype
    case Fixed32Type =>
      Widths();
      FixedBelow(s[..4]);
    case Fixed64Type =>
      Widths();
      FixedBelow(s[..8]);
    case StringType =>
      var size := ReadUInt32(s);
      CStringFits(Take(size.rest, size.value).value);
    case SubmessageType =>
      SubSized(f);
      MessageFits(f.sub, ReadDelimited(s).value, base.message);
    case _ =>
  }

  lemma SubSized(f: Field)
    requires Sized(Descriptor([f]))
    ensures Sized(f.sub)
  {
    assert Descriptor([f]).fields[0] == f;
  }

  lemma {:induction false} PackedFits(f: Field, s: Bytes, items: seq<Value>)
    requires Sized(Descriptor([f])) && Packable(f.ltype) && f.htype.Repeated? && FitsItems(f, items) && ReadPacked(f, s, items).Some?
    ensures FitsItems(f, ReadPacked(f, s, items).value)
    decreases f, 1, |s|
  {
    hide Sized, FitsMember, ReadValue;
    if s != [] {
      ValueFits(f, s, Int(0));
      var r := ReadValue(f, s, Int(0));
      PackedFits(f, r.rest, items + [r.value]);
    }
  }

  lemma {:induction false} FieldFits(f: Field, wireType: nat, s: Bytes, items: seq<Value>)
    requires Sized(Descriptor([f])) && FitsItems(f, items) && ReadField(f, wireType, s, items).Parsed?
    ensures FitsItems(f, ReadField(f, wireType, s, items).value)
    decreases f, 2
  {
    hide Sized, FitsMember, ReadValue, ReadPacked, ReadDelimited, DefaultValue;
    DefaultFits(f);
    if f.htype.Repeated? && wireType == WT_STRING && Packable(f.ltype) {
      PackedFits(f, ReadDelimited(s).value, items);
    } else if f.htype.Repeated? {
      ValueFits(f, s, DefaultValue(f));
    } else {
      ValueFits(f, s, if items == [] then DefaultValue(f) else items[0]);
    }
  }

  lemma {:induction false} FieldsFit(d: Descriptor, s: Bytes, m: Message, seen: set<nat>)
    requires Sized(d) && FitsMembers(d, m) && ReadFields(d, s, m, seen).Some?
    ensures FitsMembers(d, ReadFields(d, s, m, seen).value.0)
    decreases d, 3, |s|
  {
    hide ReadUInt32, ReadField, SkipField, FindField, Sized, FitsItems;
    if s != [] && ReadUInt32(s).value != 0 {
      var tag := ReadUInt32(s);
      var i := FindField(d.fields, tag.value / 8);
      if i >= |d.fields| {
        FieldsFit(d, SkipField(tag.value % 8, tag.rest).rest, m, seen);
      } else {
        FieldSized(d, i);
        FieldFits(d.fields[i], tag.value % 8, tag.rest, m.items[i]);
        var r := ReadField(d.fields[i], tag.value % 8, tag.rest, m.items[i]);
        FieldsFit(d, r.rest, Message(m.items[i := r.value]), if d.fields[i].htype.Required? then seen + {i} else seen);
      }
    }
  }

  /** Whatever the bytes, decoding stores nothing outside the message's members. */
  lemma {:induction false} MessageFits(d: Descriptor, s: Bytes, m: Message)
    requires Sized(d) && FitsMembers(d, m) && DecodeInto(d, s, m).Some?
    ensures FitsMembers(d, DecodeInto(d, s, m).value)
    decreases d, 4
  {
    hide Sized, ReadFields, FitsMembers;
    FieldsFit(d, s, m, {});
  }

  lemma DecodedFits(d: Descriptor, s: Bytes)
    requires Sized(d) && Decode(d, s).Some?
    ensures FitsMembers(d, Decode(d, s).value)
  {
    hide Sized, FitsMembers;
    DefaultsFit(d);
    MessageFits(d, s, DefaultMessage(d));
  }
}
