/** The encoder: one set of methods serves both the pass that only counts bytes and the pass that writes them. */
module PbEncode {
  import opened Coding
  import opened InternalKeys
  import opened PbFormat

  datatype Status = Good | StreamFull | ArrayTooLong | BytesTooLong | SizeChanged

  datatype Output = Output(written: nat, buffer: Bytes)

  /** A call that means to put out b succeeds exactly when there is something to put out and room for it. */
  ghost predicate Puts(sizing: bool, maxSize: nat, before: Output, after: Output, b: Option<Bytes>, status: Status) {
    && status != SizeChanged
    && (status == Good <==> b.Some? && (sizing || before.written + |b.value| <= maxSize))
    && (status == Good ==> after.written == before.written + |b.value|)
    && (status == Good ==> after.buffer == if sizing then before.buffer else before.buffer + b.value)
  }

  /** Two calls in a row, the first of them successful. */
  lemma Then(sizing: bool, maxSize: nat, o0: Output, o1: Output, o2: Output, a: Option<Bytes>, b: Option<Bytes>, status: Status)
    requires Puts(sizing, maxSize, o0, o1, a, Good) && Puts(sizing, maxSize, o1, o2, b, status)
    ensures a.Some? && Puts(sizing, maxSize, o0, o2, Join(a, b), status)
  {
    if status == Good {
      assert o0.buffer + a.value + b.value == o0.buffer + (a.value + b.value);
    }
  }

  /** A call that fails on a part fails on the whole. */
  lemma Cut(sizing: bool, maxSize: nat, o0: Output, o1: Output, part: Option<Bytes>, whole: Option<Bytes>, status: Status)
    requires Puts(sizing, maxSize, o0, o1, part, status) && status != Good
    requires whole.Some? ==> part.Some? && |part.value| <= |whole.value|
    ensures Puts(sizing, maxSize, o0, o1, whole, status)
  {
  }

  lemma Nothing(sizing: bool, maxSize: nat, o: Output)
    requires !sizing ==> o.written <= maxSize
    ensures Puts(sizing, maxSize, o, o, Some([]), Good)
  {
  }

  lemma JoinCut(a: Option<Bytes>, b: Option<Bytes>)
    ensures Join(a, b).Some? ==> a.Some? && |a.value| <= |Join(a, b).value|
  {
  }

  /** pb_ostream_t: a stream without a callback only counts. */
  class OStream {
    const sizing: bool
    const maxSize: nat
    var written: nat
    var buffer: Bytes

    ghost predicate Valid()
      reads this
    {
      !sizing ==> |buffer| == written <= maxSize
    }

    constructor (sizing: bool, maxSize: nat)
      ensures Valid() && this.sizing == sizing && this.maxSize == maxSize && written == 0 && buffer == []
    {
      this.sizing, this.maxSize, written, buffer := sizing, maxSize, 0, [];
    }

    function Out(): Output
      reads this
    {
      Output(written, buffer)
    }

    /** pb_write. */
    method Write(data: Bytes) returns (status: Status)
      requires Valid()
      modifies this
      ensures Valid() && Puts(sizing, maxSize, old(Out()), Out(), Some(data), status)
    {
      if |data| > 0 && !sizing {
        if written + |data| > maxSize {
          return StreamFull;
        }
        buffer := buffer + data;
      }
      written := written + |data|;
      status := Good;
    }

    /** pb_write without data, on a counting stream. */
    method Count(size: nat)
      requires sizing
      modifies this
      ensures Valid() && written == old(written) + size && buffer == old(buffer)
    {
      written := written + size;
    }

    /** pb_encode_varint: seven bits a byte, the top bit cleared on the last. */
    method EncodeVarint(value: nat) returns (status: Status)
      requires Valid()
      modifies this
      ensures Valid() && Puts(sizing, maxSize, old(Out()), Out(), Some(Varint(value)), status)
    {
      if value <= 0x7F {
        status := Write([value]);
        return;
      }
      var digits: Bytes := [];
      var left := value;
      while left > 0
        invariant left >= 0 && (left == 0 ==> digits != [])
        invariant digits != [] ==> digits[|digits| - 1] >= 128
        invariant left == 0 ==> digits[..|digits| - 1] + [digits[|digits| - 1] - 128] == Varint(value)
        invariant left > 0 ==> digits + Varint(left) == Varint(value)
      {
        digits := digits + [left % 128 + 128];
        left := left / 128;
      }
      digits := digits[|digits| - 1 := digits[|digits| - 1] - 128];
      status := Write(digits);
    }

    method EncodeTag(f: Field, wireType: nat) returns (status: Status)
      requires Valid()
      modifies this
      ensures Valid() && Puts(sizing, maxSize, old(Out()), Out(), Some(TagBytes(f, wireType)), status)
    {
      status := EncodeVarint(8 * f.tag + wireType);
    }

    /** pb_encode_string: a length and the bytes. */
    method EncodeString(s: Bytes) returns (status: Status)
      requires Valid()
      modifies this
      ensures Valid() && Puts(sizing, maxSize, old(Out()), Out(), Some(Prefixed(s)), status)
    {
      status := EncodeVarint(|s|);
      JoinCut(Some(Varint(|s|)), Some(s));
      if status == Good {
        ghost var middle := Out();
        status := Write(s);
        Then(sizing, maxSize, old(Out()), middle, Out(), Some(Varint(|s|)), Some(s), status);
      }
    }
  }

  // ----- Prefixes -----

  lemma {:induction false} PackedPrefix(f: Field, items: seq<Value>, k: nat)
    requires (forall i :: 0 <= i < |items| ==> TypedValue(f, items[i])) && k <= |items|
    ensures PackedBytes(f, items).Some? ==>
        PackedBytes(f, items[..k]).Some? && |PackedBytes(f, items[..k]).value| <= |PackedBytes(f, items).value|
    decreases |items|
  {
    hide ValueBytes, TypedValue;
    if k < |items| {
      var n := |items| - 1;
      PackedPrefix(f, items[..n], k);
      assert items[..n][..k] == items[..k];
    } else {
      assert items[..k] == items;
    }
  }

  lemma {:induction false} TaggedPrefix(f: Field, items: seq<Value>, k: nat)
    requires (forall i :: 0 <= i < |items| ==> TypedValue(f, items[i])) && k <= |items|
    ensures TaggedBytes(f, items).Some? ==>
        TaggedBytes(f, items[..k]).Some? && |TaggedBytes(f, items[..k]).value| <= |TaggedBytes(f, items).value|
    decreases |items|
  {
    hide ValueBytes, TypedValue;
    if k < |items| {
      var n := |items| - 1;
      TaggedPrefix(f, items[..n], k);
      assert items[..n][..k] == items[..k];
    } else {
      assert items[..k] == items;
    }
  }

  lemma {:induction false} FieldsPrefix(d: Descriptor, m: Message, n: nat, k: nat)
    requires Typed(d, m) && k <= n <= |d.fields|
    ensures FieldsBytes(d, m, n).Some? ==>
        FieldsBytes(d, m, k).Some? && |FieldsBytes(d, m, k).value| <= |FieldsBytes(d, m, n).value|
    decreases n
  {
    hide FieldBytes, TypedItems;
    if k < n {
      FieldsPrefix(d, m, n - 1, k);
    }
  }

  lemma PackedNext(f: Field, items: seq<Value>, i: nat)
    requires (forall j :: 0 <= j < |items| ==> TypedValue(f, items[j])) && i < |items|
    ensures PackedBytes(f, items[..i + 1]) == Join(PackedBytes(f, items[..i]), ValueBytes(f, items[i]))
    ensures TaggedBytes(f, items[..i + 1])
         == Join(TaggedBytes(f, items[..i]), Join(Some(TagBytes(f, WireType(f.ltype))), ValueBytes(f, items[i])))
  {
    assert items[..i + 1][..i] == items[..i];
  }

  // ----- Encoding -----

  lemma EmptyValues(f: Field, items: seq<Value>)
    ensures items[..0] == [] && PackedBytes(f, items[..0]) == Some([]) && TaggedBytes(f, items[..0]) == Some([])
  {
    assert items[..0] == [];
  }

  /** The field encoders: pb_enc_bool, pb_enc_varint and the rest. */
  method EncodeValue(stream: OStream, f: Field, v: Value) returns (status: Status)
    requires stream.Valid() && TypedValue(f, v)
    modifies stream
    ensures stream.Valid() && Puts(stream.sizing, stream.maxSize, old(stream.Out()), stream.Out(), ValueBytes(f, v), status)
    decreases f, 0
  {
    match f.ltype
    case BoolType => status := stream.EncodeVarint(v.n);
    case VarintType => status := stream.EncodeVarint(Unsigned64(v.n));
    case UVarintType => status := stream.EncodeVarint(v.n);
    case SVarintType => status := stream.EncodeVarint(ZigZag(v.n));
    case Fixed32Type => status := stream.Write(Fixed(v.n, 4));
    case Fixed64Type => status := stream.Write(Fixed(v.n, 8));
    case BytesType =>
      if |v.bytes| > f.dataSize {
        return BytesTooLong;
      }
      status := stream.EncodeString(v.bytes);
    case StringType => status := stream.EncodeString(v.bytes);
    case SubmessageType => status := EncodeSubmessage(stream, f.sub, v.message);
    case FixedLengthBytesType => status := stream.EncodeString(v.bytes);
  }

  /** pb_encode_submessage: a counting pass for the length, then a writing pass that may not write more. */
  method EncodeSubmessage(stream: OStream, d: Descriptor, m: Message) returns (status: Status)
    requires stream.Valid() && Typed(d, m)
    modifies stream
    ensures stream.Valid() && Puts(stream.sizing, stream.maxSize, old(stream.Out()), stream.Out(), Delimited(MessageBytes(d, m)), status)
    decreases d, 5
  {
    hide MessageBytes, Typed, Varint;
    var substream := new OStream(true, 0);
    status := Encode(substream, d, m);
    if status != Good {
      return;
    }
    var size := substream.written;
    status := stream.EncodeVarint(size);
    if status != Good {
      return;
    }
    if stream.sizing {
      stream.Count(size);
      return Good;
    }
    if stream.written + size > stream.maxSize {
      return StreamFull;
    }
    substream := new OStream(false, size);
    status := Encode(substream, d, m);
    stream.written := stream.written + substream.written;
    stream.buffer := stream.buffer + substream.buffer;
    if substream.written != size {
      return SizeChanged;
    }
  }

  /** encode_array: numbers packed behind one tag and a length, everything else one tag each. */
  method EncodeArray(stream: OStream, f: Field, items: seq<Value>) returns (status: Status)
    requires stream.Valid() && TypedItems(f, items) && f.htype.Repeated?
    modifies stream
    ensures stream.Valid() && Puts(stream.sizing, stream.maxSize, old(stream.Out()), stream.Out(), FieldBytes(f, items), status)
    decreases f, 2
  {
    hide TypedValue, ValueBytes, PackedBytes, TaggedBytes, TagBytes;
    if |items| == 0 {
      return Good;
    }
    if |items| > f.arraySize {
      return ArrayTooLong;
    }
    if Packable(f.ltype) {
      status := EncodePacked(stream, f, items);
    } else {
      status := EncodeEach(stream, f, items);
    }
  }

  method EncodePacked(stream: OStream, f: Field, items: seq<Value>) returns (status: Status)
    requires stream.Valid() && (forall i :: 0 <= i < |items| ==> TypedValue(f, items[i]))
    modifies stream
    ensures stream.Valid() && Puts(stream.sizing, stream.maxSize, old(stream.Out()), stream.Out(), Join(Some(TagBytes(f, WT_STRING)), Delimited(PackedBytes(f, items))), status)
    decreases f, 1, 2
  {
    hide TypedValue, ValueBytes, PackedBytes, TagBytes, Varint;
    status := stream.EncodeTag(f, WT_STRING);
    if status != Good {
      return;
    }
    var sizestream := new OStream(true, 0);
    status := EncodeValues(sizestream, f, items);
    if status != Good {
      return;
    }
    var size := sizestream.written;
    status := stream.EncodeVarint(size);
    if status != Good {
      return;
    }
    if stream.sizing {
      stream.Count(size);
      return Good;
    }
    status := EncodeValues(stream, f, items);
  }

  method EncodeValues(stream: OStream, f: Field, items: seq<Value>) returns (status: Status)
    requires stream.Valid() && (forall i :: 0 <= i < |items| ==> TypedValue(f, items[i]))
    modifies stream
    ensures stream.Valid() && Puts(stream.sizing, stream.maxSize, old(stream.Out()), stream.Out(), PackedBytes(f, items), status)
    decreases f, 1, 1
  {
    hide TypedValue, ValueBytes, TagBytes, Puts, Join;
    EmptyValues(f, items);
    Nothing(stream.sizing, stream.maxSize, stream.Out());
    for i := 0 to |items|
      invariant stream.Valid() && Puts(stream.sizing, stream.maxSize, old(stream.Out()), stream.Out(), PackedBytes(f, items[..i]), Good)
    {
      PackedNext(f, items, i);
      PackedPrefix(f, items, i + 1);
      ghost var middle := stream.Out();
      status := EncodeValue(stream, f, items[i]);
      Then(stream.sizing, stream.maxSize, old(stream.Out()), middle, stream.Out(), PackedBytes(f, items[..i]), ValueBytes(f, items[i]), status);
      if status != Good {
        Cut(stream.sizing, stream.maxSize, old(stream.Out()), stream.Out(), PackedBytes(f, items[..i + 1]), PackedBytes(f, items), status);
        return;
      }
    }
    assert items[..|items|] == items;
    status := Good;
  }

  method EncodeEach(stream: OStream, f: Field, items: seq<Value>) returns (status: Status)
    requires stream.Valid() && (forall i :: 0 <= i < |items| ==> TypedValue(f, items[i]))
    modifies stream
    ensures stream.Valid() && Puts(stream.sizing, stream.maxSize, old(stream.Out()), stream.Out(), TaggedBytes(f, items), status)
    decreases f, 1, 1
  {
    hide TypedValue, ValueBytes, TagBytes, Puts, Join;
    EmptyValues(f, items);
    Nothing(stream.sizing, stream.maxSize, stream.Out());
    for i := 0 to |items|
      invariant stream.Valid() && Puts(stream.sizing, stream.maxSize, old(stream.Out()), stream.Out(), TaggedBytes(f, items[..i]), Good)
    {
      PackedNext(f, items, i);
      TaggedPrefix(f, items, i + 1);
      ghost var middle := stream.Out();
      status := EncodeTagged(stream, f, items[i]);
      Then(stream.sizing, stream.maxSize, old(stream.Out()), middle, stream.Out(), TaggedBytes(f, items[..i]), Join(Some(TagBytes(f, WireType(f.ltype))), ValueBytes(f, items[i])), status);
      if status != Good {
        Cut(stream.sizing, stream.maxSize, old(stream.Out()), stream.Out(), TaggedBytes(f, items[..i + 1]), TaggedBytes(f, items), status);
        return;
      }
    }
    assert items[..|items|] == items;
    status := Good;
  }

  /** pb_encode_tag_for_field and the field's encoder. */
  method EncodeTagged(stream: OStream, f: Field, v: Value) returns (status: Status)
    requires stream.Valid() && TypedValue(f, v)
    modifies stream
    ensures stream.Valid() && Puts(stream.sizing, stream.maxSize, old(stream.Out()), stream.Out(), Join(Some(TagBytes(f, WireType(f.ltype))), ValueBytes(f, v)), status)
    decreases f, 1, 0
  {
    hide TypedValue, ValueBytes, TagBytes;
    status := stream.EncodeTag(f, WireType(f.ltype));
    if status != Good {
      return;
    }
    status := EncodeValue(stream, f, v);
  }

  /** encode_basic_field. */
  method EncodeField(stream: OStream, f: Field, items: seq<Value>) returns (status: Status)
    requires stream.Valid() && TypedItems(f, items)
    modifies stream
    ensures stream.Valid() && Puts(stream.sizing, stream.maxSize, old(stream.Out()), stream.Out(), FieldBytes(f, items), status)
    decreases f, 3
  {
    hide TypedValue, ValueBytes, PackedBytes, TagBytes;
    match f.htype
    case Required =>
      OneTagged(f, items);
      status := EncodeTagged(stream, f, items[0]);
    case Optional =>
      if |items| > 0 {
        OneTagged(f, items);
        status := EncodeTagged(stream, f, items[0]);
      } else {
        status := Good;
      }
    case Repeated =>
      status := EncodeArray(stream, f, items);
  }

  /** pb_encode: every field in descriptor order. */
  method Encode(stream: OStream, d: Descriptor, m: Message) returns (status: Status)
    requires stream.Valid() && Typed(d, m)
    modifies stream
    ensures stream.Valid() && Puts(stream.sizing, stream.maxSize, old(stream.Out()), stream.Out(), MessageBytes(d, m), status)
    decreases d, 4
  {
    hide TypedItems, FieldBytes, Puts, Join;
    Nothing(stream.sizing, stream.maxSize, stream.Out());
    for i := 0 to |d.fields|
      invariant stream.Valid() && Puts(stream.sizing, stream.maxSize, old(stream.Out()), stream.Out(), FieldsBytes(d, m, i), Good)
    {
      FieldsPrefix(d, m, |d.fields|, i + 1);
      ghost var middle := stream.Out();
      status := EncodeField(stream, d.fields[i], m.items[i]);
      Then(stream.sizing, stream.maxSize, old(stream.Out()), middle, stream.Out(), FieldsBytes(d, m, i), FieldBytes(d.fields[i], m.items[i]), status);
      if status != Good {
        Cut(stream.sizing, stream.maxSize, old(stream.Out()), stream.Out(), FieldsBytes(d, m, i + 1), FieldsBytes(d, m, |d.fields|), status);
        return;
      }
    }
    status := Good;
  }

  /** pb_get_encoded_size: the counting pass gives the length of what a writing pass with room puts out. */
  method GetEncodedSize(d: Descriptor, m: Message) returns (status: Status, size: nat)
    requires Typed(d, m)
    ensures status == Good <==> MessageBytes(d, m).Some?
    ensures status == Good ==> size == |MessageBytes(d, m).value|
  {
    hide MessageBytes, Typed;
    var stream := new OStream(true, 0);
    status := Encode(stream, d, m);
    size := stream.written;
  }
}
