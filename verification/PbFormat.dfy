/** Protocol Buffers as nanopb's static fields use it: descriptors, message values, and the bytes they encode to. */
module PbFormat {
  import opened Coding
  import opened InternalKeys

  datatype HType = Required | Optional | Repeated

  datatype LType = BoolType | VarintType | UVarintType | SVarintType | Fixed32Type | Fixed64Type
    | BytesType | StringType | SubmessageType | FixedLengthBytesType

  /** pb_field_t: dataSize is the width of an integer, or the room for a byte or character string. */
  datatype Field = Field(tag: nat, htype: HType, ltype: LType, dataSize: nat, arraySize: nat, sub: Descriptor)

  datatype Descriptor = Descriptor(fields: seq<Field>)

  datatype Value = Int(n: int) | Blob(bytes: Bytes) | Sub(message: Message)

  /** For each field its items: one if required, none or one if optional, any number if repeated. */
  datatype Message = Message(items: seq<seq<Value>>)

  const WT_VARINT: nat := 0
  const WT_64BIT: nat := 1
  const WT_STRING: nat := 2
  const WT_32BIT: nat := 5

  /** pb_size_t is 16 bits unless configured otherwise. */
  const PB_SIZE_MAX: nat := 0xFFFF

  const TWO_31: int := 0x8000_0000
  const TWO_63: int := 0x8000_0000_0000_0000

  predicate Packable(t: LType) {
    t.BoolType? || t.VarintType? || t.UVarintType? || t.SVarintType? || t.Fixed32Type? || t.Fixed64Type?
  }

  function WireType(t: LType): nat {
    match t
    case BoolType => WT_VARINT
    case VarintType => WT_VARINT
    case UVarintType => WT_VARINT
    case SVarintType => WT_VARINT
    case Fixed32Type => WT_32BIT
    case Fixed64Type => WT_64BIT
    case _ => WT_STRING
  }

  // ----- What C's types guarantee -----

  /** 2 to the power of the width's bits, halved. */
  function HalfRange(size: nat): int {
    if size == 1 then 0x80 else if size == 2 then 0x8000 else if size == 4 then TWO_31 else TWO_63
  }

  predicate IntSize(size: nat) {
    size == 1 || size == 2 || size == 4 || size == 8
  }

  /** A value a struct member of the field's type can hold. */
  ghost predicate TypedValue(f: Field, v: Value)
    decreases f, 0
  {
    match f.ltype
    case BoolType => v.Int? && 0 <= v.n <= 1
    case VarintType => v.Int? && IntSize(f.dataSize) && -HalfRange(f.dataSize) <= v.n < HalfRange(f.dataSize)
    case UVarintType => v.Int? && IntSize(f.dataSize) && 0 <= v.n < 2 * HalfRange(f.dataSize)
    case SVarintType => v.Int? && IntSize(f.dataSize) && -HalfRange(f.dataSize) <= v.n < HalfRange(f.dataSize)
    case Fixed32Type => v.Int? && 0 <= v.n < TWO_32
    case Fixed64Type => v.Int? && 0 <= v.n < TWO_64
    case BytesType => v.Blob? && |v.bytes| <= PB_SIZE_MAX
    case StringType => v.Blob? && |v.bytes| <= f.dataSize <= PB_SIZE_MAX && forall i :: 0 <= i < |v.bytes| ==> v.bytes[i] != 0
    case SubmessageType => v.Sub? && Typed(f.sub, v.message)
    case FixedLengthBytesType => v.Blob? && |v.bytes| == f.dataSize <= PB_SIZE_MAX
  }

  ghost predicate TypedItems(f: Field, items: seq<Value>)
    decreases f, 1
  {
    && (f.htype.Required? ==> |items| == 1)
    && (f.htype.Optional? ==> |items| <= 1)
    && forall i :: 0 <= i < |items| ==> TypedValue(f, items[i])
  }

  ghost predicate Typed(d: Descriptor, m: Message)
    decreases d, 2
  {
    |m.items| == |d.fields| && forall i :: 0 <= i < |d.fields| ==> TypedItems(d.fields[i], m.items[i])
  }

  // ----- Integers -----

  function Unsigned64(n: int): nat
    requires -TWO_63 <= n < TWO_64
  {
    if n < 0 then n + TWO_64 else n
  }

  function Signed64(n: nat): int
    requires n < TWO_64
  {
    if n >= TWO_63 then n - TWO_64 else n
  }

  /** Small magnitudes of either sign become small numbers: 2n, or -2n - 1 below zero. */
  function ZigZag(n: int): (r: nat)
    requires -TWO_63 <= n < TWO_63
    ensures r < TWO_64
  {
    if n < 0 then -2 * n - 1 else 2 * n
  }

  function UnZigZag(z: nat): int {
    if z % 2 == 1 then -(z / 2) - 1 else z / 2
  }

  lemma ZigZagInverse(n: int)
    requires -TWO_63 <= n < TWO_63
    ensures UnZigZag(ZigZag(n)) == n
  {
  }

  /** On 64 bits, ~(value << 1) for a negative value and value << 1 otherwise. */
  lemma ZigZagBits(n: int)
    requires -TWO_63 <= n < TWO_63
    ensures ZigZag(n) == if n < 0 then TWO_64 - 1 - (2 * Unsigned64(n)) % TWO_64 else 2 * n
  {
  }

  // ----- The bytes of a message -----

  function Join(a: Option<Bytes>, b: Option<Bytes>): Option<Bytes> {
    if a.Some? && b.Some? then Some(a.value + b.value) else None
  }

  function TagBytes(f: Field, wireType: nat): Bytes {
    Varint(8 * f.tag + wireType)
  }

  /** A length and that many bytes. */
  function Delimited(o: Option<Bytes>): Option<Bytes> {
    if o.Some? then Some(Prefixed(o.value)) else None
  }

  ghost function ValueBytes(f: Field, v: Value): Option<Bytes>
    requires TypedValue(f, v)
    decreases f, 0
  {
    match f.ltype
    case BoolType => Some(Varint(v.n))
    case VarintType => Some(Varint(Unsigned64(v.n)))
    case UVarintType => Some(Varint(v.n))
    case SVarintType => Some(Varint(ZigZag(v.n)))
    case Fixed32Type => Some(Fixed(v.n, 4))
    case Fixed64Type => Some(Fixed(v.n, 8))
    case BytesType => if |v.bytes| > f.dataSize then None else Some(Prefixed(v.bytes))
    case StringType => Some(Prefixed(v.bytes))
    case SubmessageType => Delimited(MessageBytes(f.sub, v.message))
    case FixedLengthBytesType => Some(Prefixed(v.bytes))
  }

  /** The values of a packed array. */
  ghost function PackedBytes(f: Field, items: seq<Value>): Option<Bytes>
    requires forall i :: 0 <= i < |items| ==> TypedValue(f, items[i])
    decreases f, 1, |items|
  {
    if items == [] then Some([]) else
      Join(PackedBytes(f, items[..|items| - 1]), ValueBytes(f, items[|items| - 1]))
  }

  /** Each value behind its own tag. */
  ghost function TaggedBytes(f: Field, items: seq<Value>): Option<Bytes>
    requires forall i :: 0 <= i < |items| ==> TypedValue(f, items[i])
    decreases f, 1, |items|
  {
    if items == [] then Some([]) else
      Join(TaggedBytes(f, items[..|items| - 1]), Join(Some(TagBytes(f, WireType(f.ltype))), ValueBytes(f, items[|items| - 1])))
  }

  /** A field: nothing for no items, and arrays of numbers packed. */
  ghost function FieldBytes(f: Field, items: seq<Value>): Option<Bytes>
    requires TypedItems(f, items)
    decreases f, 2
  {
    if items == [] then Some([])
    else if f.htype.Repeated? && |items| > f.arraySize then None
    else if f.htype.Repeated? && Packable(f.ltype) then Join(Some(TagBytes(f, WT_STRING)), Delimited(PackedBytes(f, items)))
    else TaggedBytes(f, items)
  }

  /** The first n fields of a message. */
  ghost function FieldsBytes(d: Descriptor, m: Message, n: nat): Option<Bytes>
    requires Typed(d, m) && n <= |d.fields|
    decreases d, 3, n
  {
    if n == 0 then Some([]) else Join(FieldsBytes(d, m, n - 1), FieldBytes(d.fields[n - 1], m.items[n - 1]))
  }

  ghost function MessageBytes(d: Descriptor, m: Message): Option<Bytes>
    requires Typed(d, m)
    decreases d, 4
  {
    FieldsBytes(d, m, |d.fields|)
  }

  lemma OneTagged(f: Field, items: seq<Value>)
    requires |items| == 1 && TypedValue(f, items[0])
    ensures TaggedBytes(f, items) == Join(Some(TagBytes(f, WireType(f.ltype))), ValueBytes(f, items[0]))
  {
    hide TypedValue, ValueBytes, TagBytes;
    assert items[..0] == [];
    var b := Join(Some(TagBytes(f, WireType(f.ltype))), ValueBytes(f, items[0]));
    assert Join(Some([]), b) == b by {
      if b.Some? {
        assert [] + b.value == b.value;
      }
    }
  }
}
