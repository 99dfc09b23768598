/** The decoder itself: a stream whose bytes run out, an iterator over a message's fields, and the loop that
    takes fields as they come and checks at the end that the required ones did. */
module PbDecoder {
  import opened Coding
  import opened InternalKeys
  import opened PbFormat
  import opened PbDecode
  import opened PbEncode

  /** pb_istream_t over a buffer: the bytes that are left. */
  class IStream {
    var rest: Bytes

    constructor (s: Bytes)
      ensures rest == s
    {
      rest := s;
    }

    /** pb_readbyte. */
    method ReadByte() returns (ok: bool, byte: Byte)
      modifies this
      ensures ok <==> old(rest) != []
      ensures ok ==> byte == old(rest)[0] && rest == old(rest)[1..]
      ensures !ok ==> rest == old(rest)
    {
      if rest == [] {
        return false, 0;
      }
      ok, byte, rest := true, rest[0], rest[1..];
    }

    /** pb_read into a buffer. */
    method Read(n: nat) returns (ok: bool, s: Bytes)
      modifies this
      ensures ok <==> Take(old(rest), n).Parsed?
      ensures ok ==> Take(old(rest), n) == Parsed(s, rest)
    {
      if |rest| < n {
        return false, [];
      }
      ok, s, rest := true, rest[..n], rest[n..];
    }

    /** pb_decode_varint32.  The bit position is a uint_fast8_t of eight bits. */
    method DecodeVarint32() returns (ok: bool, value: nat)
      modifies this
      ensures ok <==> ReadUInt32(old(rest)).Parsed?
      ensures ok ==> ReadUInt32(old(rest)) == Parsed(value, rest)
    {
      hide OrShifted, BitPosition;
      var byte;
      ok, byte := ReadByte();
      value := 0;
      if !ok {
        return;
      }
      if byte < 128 {
        value := byte;
        return;
      }
      var bitpos := 7;
      assert bitpos == BitPosition(1) by { FirstPosition(); }
      value := byte - 128;
      ghost var i: nat := 1;
      var more := true;
      while more
        invariant bitpos == BitPosition(i) && i > 0 && bitpos >= 0 && 0 <= value < TWO_32
        invariant more ==> ReadUInt32(old(rest)) == MoreVarint32(rest, i, value)
        invariant !more ==> ReadUInt32(old(rest)) == if bitpos == 35 && byte >= 16 then Fail else Parsed(value, rest)
        decreases more, |rest|
      {
        ok, byte := ReadByte();
        if !ok {
          return;
        }
        if bitpos >= 32 {
          var signExtension := if bitpos < 63 then 0xFF else 0x01;
          if byte % 128 != 0 && (value < TWO_31 || byte != signExtension) {
            return false, value;
          }
        } else {
          value := OrShifted(value, byte % 128, bitpos);
        }
        NextPosition(i);
        bitpos := (bitpos + 7) % 256;
        i := i + 1;
        more := byte >= 128;
      }
      if bitpos == 35 && byte >= 16 {
        return false, value;
      }
      ok := true;
    }

    /** pb_decode_varint: at most ten bytes, keeping the low 64 bits. */
    method DecodeVarint() returns (ok: bool, value: nat)
      modifies this
      ensures ok <==> ReadVarint64(old(rest)).Parsed?
      ensures ok ==> ReadVarint64(old(rest)) == Parsed(value, rest)
    {
      hide Digit, Wrap;
      var bitpos := 0;
      value := 0;
      ghost var i: nat := 0;
      var more := true;
      while more
        invariant bitpos == 7 * i && value >= 0
        invariant more ==> ReadVarint64(old(rest)) == TakeVarint(rest, i, value, 10, TWO_64)
        invariant !more ==> ReadVarint64(old(rest)) == Parsed(value, rest)
        decreases more, |rest|
      {
        if bitpos >= 64 {
          return false, value;
        }
        var byte;
        ok, byte := ReadByte();
        if !ok {
          return;
        }
        value := Wrap(value + Digit(byte % 128, bitpos / 7), TWO_64);
        bitpos := bitpos + 7;
        i := i + 1;
        more := byte >= 128;
      }
      ok := true;
    }

    /** pb_make_string_substream, with the parent already moved behind it. */
    method MakeSubstream() returns (ok: bool, substream: IStream)
      modifies this
      ensures ok <==> ReadDelimited(old(rest)).Parsed?
      ensures fresh(substream)
      ensures ok ==> ReadDelimited(old(rest)) == Parsed(substream.rest, rest)
    {
      substream := new IStream([]);
      var size;
      ok, size := DecodeVarint32();
      if !ok {
        return;
      }
      var s;
      ok, s := Read(size);
      substream.rest := s;
    }

    /** pb_skip_field. */
    method Skip(wireType: nat) returns (ok: bool)
      modifies this
      ensures ok <==> SkipField(wireType, old(rest)).Parsed?
      ensures ok ==> SkipField(wireType, old(rest)).rest == rest
      ensures wireType == 1 ==> (ok <==> |old(rest)| >= 8) && (ok ==> rest == old(rest)[8..])
      ensures wireType == 5 ==> (ok <==> |old(rest)| >= 4) && (ok ==> rest == old(rest)[4..])
      ensures wireType !in {0, 1, 2, 5} ==> !ok
    {
      if wireType == WT_VARINT {
        var byte;
        ok, byte := ReadByte();
        while ok && byte >= 128
          invariant SkipVarint(old(rest)) == if !ok then Fail else if byte >= 128 then SkipVarint(rest) else Parsed((), rest)
          decreases ok, |rest|
        {
          ok, byte := ReadByte();
        }
      } else if wireType == WT_64BIT {
        var read, _ := Read(8);
        ok := read;
      } else if wireType == WT_STRING {
        var read, _ := MakeSubstream();
        ok := read;
      } else if wireType == WT_32BIT {
        var read, _ := Read(4);
        ok := read;
      } else {
        ok := false;
      }
    }
  }

  // ----- The field iterator -----

  /** pb_field_iter_t: walks a message's fields and wraps around, counting the required ones it has passed. */
  class FieldIter {
    const fields: seq<Field>
    var pos: nat
    var requiredIndex: nat

    ghost predicate Valid()
      reads this
    {
      (if fields == [] then pos == 0 else pos < |fields|) && requiredIndex == RequiredBefore(fields, pos)
    }

    constructor (fields: seq<Field>)
      ensures Valid() && this.fields == fields && pos == 0
    {
      this.fields, pos, requiredIndex := fields, 0, 0;
    }

    /** pb_field_iter_next: false when it has wrapped around to the first field. */
    method Next() returns (more: bool)
      requires Valid()
      modifies this
      ensures Valid() && (more <==> old(pos) + 1 < |fields|) && pos == if more then old(pos) + 1 else 0
    {
      if fields == [] {
        return false;
      }
      if pos + 1 == |fields| {
        pos, requiredIndex := 0, 0;
        return false;
      }
      if fields[pos].htype.Required? {
        requiredIndex := requiredIndex + 1;
      }
      pos := pos + 1;
      more := true;
    }

    /** pb_field_iter_find: onwards from where it is, around the end and back. */
    method Find(tag: nat) returns (found: bool)
      requires Valid()
      modifies this
      ensures Valid() && (found <==> exists i :: 0 <= i < |fields| && fields[i].tag == tag)
      ensures if found then pos < |fields| && fields[pos].tag == tag else pos == old(pos)
    {
      if fields == [] {
        return false;
      }
      var start := pos;
      ghost var wrapped := false;
      if fields[pos].tag == tag {
        return true;
      }
      var more := Next();
      wrapped := !more;
      while pos != start
        invariant Valid() && pos < |fields| && start < |fields|
        invariant !wrapped ==> start < pos && forall i :: start <= i < pos ==> fields[i].tag != tag
        invariant wrapped ==> pos <= start && forall i :: 0 <= i < pos || start <= i < |fields| ==> fields[i].tag != tag
        decreases !wrapped, if wrapped then start - pos else |fields| - pos
      {
        if fields[pos].tag == tag {
          return true;
        }
        more := Next();
        wrapped := wrapped || !more;
      }
      found := false;
    }
  }

  // ----- The required-field check -----

  lemma {:induction false} RequiredMonotone(fs: seq<Field>, i: nat, j: nat)
    requires i <= j <= |fs|
    ensures RequiredBefore(fs, i) <= RequiredBefore(fs, j)
    ensures i < j && fs[i].htype.Required? ==> RequiredBefore(fs, i) < RequiredBefore(fs, j)
    decreases j
  {
    if i < j {
      RequiredMonotone(fs, i, j - 1);
    }
  }

  /** Every number below the count is some required field's. */
  lemma {:induction false} RequiredField(fs: seq<Field>, n: nat, k: nat) returns (i: nat)
    requires n <= |fs| && k < RequiredBefore(fs, n)
    ensures i < n && fs[i].htype.Required? && RequiredBefore(fs, i) == k
  {
    if k < RequiredBefore(fs, n - 1) {
      i := RequiredField(fs, n - 1, k);
    } else {
      i := n - 1;
    }
  }

  /** The bit array mirrors the set of required fields seen. */
  ghost predicate Mirrors(d: Descriptor, bits: seq<bool>, seen: set<nat>) {
    && |bits| == PB_MAX_REQUIRED_FIELDS
    && (forall k :: 0 <= k < |bits| && bits[k] ==> k < RequiredBefore(d.fields, |d.fields|))
    && forall i :: 0 <= i < |d.fields| && d.fields[i].htype.Required? && RequiredBefore(d.fields, i) < PB_MAX_REQUIRED_FIELDS ==>
      (i in seen <==> bits[RequiredBefore(d.fields, i)])
  }

  lemma MirrorsMore(d: Descriptor, bits: seq<bool>, seen: set<nat>, i: nat)
    requires Mirrors(d, bits, seen) && i < |d.fields| && d.fields[i].htype.Required?
    ensures var k := RequiredBefore(d.fields, i);
      Mirrors(d, if k < PB_MAX_REQUIRED_FIELDS then bits[k := true] else bits, seen + {i})
  {
    RequiredMonotone(d.fields, i, |d.fields|);
    forall j | 0 <= j < |d.fields| && d.fields[j].htype.Required?
      ensures RequiredBefore(d.fields, j) == RequiredBefore(d.fields, i) <==> i == j
    {
      if i <= j {
        RequiredMonotone(d.fields, i, j);
      } else {
        RequiredMonotone(d.fields, j, i);
      }
    }
  }

  /** All bits below the count are set exactly when all the first 64 required fields were seen. */
  lemma MirroredCheck(d: Descriptor, bits: seq<bool>, seen: set<nat>)
    requires Mirrors(d, bits, seen)
    ensures var total := RequiredBefore(d.fields, |d.fields|);
      (forall k :: 0 <= k < |bits| && k < total ==> bits[k]) <==> AllSeen(d, seen)
  {
    var total := RequiredBefore(d.fields, |d.fields|);
    forall i | 0 <= i < |d.fields| && d.fields[i].htype.Required?
      ensures RequiredBefore(d.fields, i) < total
    {
      RequiredMonotone(d.fields, i, |d.fields|);
    }
    if AllSeen(d, seen) {
      forall k | 0 <= k < |bits| && k < total
        ensures bits[k]
      {
        var i := RequiredField(d.fields, |d.fields|, k);
      }
    }
  }

  /** Whole words must be all ones, and the last word ones up to the count and zeros beyond. */
  method CheckBits(bits: seq<bool>, count: nat) returns (ok: bool)
    requires |bits| == PB_MAX_REQUIRED_FIELDS && count <= |bits| && forall k :: count <= k < |bits| ==> !bits[k]
    ensures ok <==> forall k :: 0 <= k < count ==> bits[k]
  {
    for i := 0 to count / 32
      invariant forall k :: 0 <= k < 32 * i ==> bits[k]
    {
      var word, ones := bits[32 * i..32 * i + 32], seq(32, _ => true);
      if word != ones {
        var b :| 0 <= b < 32 && word[b] != ones[b];
        assert bits[32 * i + b] == word[b];
        return false;
      }
      assert forall b :: 0 <= b < 32 ==> word[b] == ones[b];
      forall k | 32 * i <= k < 32 * i + 32
        ensures bits[k]
      {
        assert bits[k] == word[k - 32 * i];
      }
    }
    var w, r := count / 32, count % 32;
    if r != 0 {
      var word, ones := bits[32 * w..32 * w + 32], seq(32, b => b < r);
      if word != ones {
        var b :| 0 <= b < 32 && word[b] != ones[b];
        assert bits[32 * w + b] == word[b];
        return false;
      }
      forall k | 32 * w <= k < count
        ensures bits[k]
      {
        assert bits[k] == word[k - 32 * w] == ones[k - 32 * w];
      }
    }
    ok := true;
  }

  /** How many required fields there are, from wherever the iterator stands. */
  method CountRequired(iter: FieldIter) returns (count: nat)
    requires iter.Valid()
    modifies iter
    ensures iter.Valid() && count == RequiredBefore(iter.fields, |iter.fields|)
  {
    count := iter.requiredIndex;
    if iter.fields == [] {
      return;
    }
    var last := iter.fields[iter.pos];
    var more := iter.Next();
    while more
      invariant iter.Valid() && (more ==> iter.pos < |iter.fields|)
      invariant !more ==> iter.pos == 0 && last == iter.fields[|iter.fields| - 1] && count == RequiredBefore(iter.fields, |iter.fields| - 1)
      decreases more, |iter.fields| - iter.pos
    {
      count := iter.requiredIndex;
      last := iter.fields[iter.pos];
      more := iter.Next();
    }
    if last.htype.Required? {
      count := count + 1;
    }
  }

  // ----- Decoding -----

  /** The field decoders: pb_dec_bool, pb_dec_varint and the rest. */
  method DecodeValue(stream: IStream, f: Field, base: Value) returns (ok: bool, v: Value)
    requires ValidTags(f.sub)
    modifies stream
    ensures ok <==> ReadValue(f, old(stream.rest), base).Parsed?
    ensures ok ==> ReadValue(f, old(stream.rest), base) == Parsed(v, stream.rest)
    decreases f, 0
  {
    hide ReadUInt32, ReadVarint64, DecodeInto, ValidTags, CString, Take;
    v := base;
    var n, s;
    match f.ltype
    case BoolType =>
      ok, n := stream.DecodeVarint32();
      v := Int(if n != 0 then 1 else 0);
    case VarintType =>
      ok, n := stream.DecodeVarint();
      if ok {
        v := Int(VarintValue(f.dataSize, n));
        ok := InSigned(v.n, f.dataSize);
      }
    case UVarintType =>
      ok, n := stream.DecodeVarint();
      v := Int(n);
      ok := ok && InUnsigned(n, f.dataSize);
    case SVarintType =>
      ok, n := stream.DecodeVarint();
      v := Int(UnZigZag(n));
      ok := ok && InSigned(v.n, f.dataSize);
    case Fixed32Type =>
      ok, s := stream.Read(4);
      v := Int(FromFixed(s));
    case Fixed64Type =>
      ok, s := stream.Read(8);
      v := Int(FromFixed(s));
    case BytesType =>
      ok, n := stream.DecodeVarint32();
      if !ok || n > PB_SIZE_MAX || n > f.dataSize {
        return false, v;
      }
      ok, s := stream.Read(n);
      v := Blob(s);
    case StringType =>
      ok, n := stream.DecodeVarint32();
      if !ok || n + 1 > f.dataSize {
        return false, v;
      }
      ok, s := stream.Read(n);
      v := Blob(CString(s));
    case SubmessageType =>
      var substream;
      ok, substream := stream.MakeSubstream();
      if !ok || !base.Sub? {
        return false, v;
      }
      var m;
      ok, m := DecodeNoInit(substream, f.sub, base.message);
      v := Sub(m);
    case FixedLengthBytesType =>
      ok, n := stream.DecodeVarint32();
      if !ok || n > PB_SIZE_MAX {
        return false, v;
      }
      if n == 0 {
        return true, Blob(Zeros(f.dataSize));
      }
      if n != f.dataSize {
        return false, v;
      }
      ok, s := stream.Read(n);
      v := Blob(s);
  }

  /** decode_static_field. */
  method DecodeStaticField(stream: IStream, f: Field, wireType: nat, items: seq<Value>) returns (ok: bool, out: seq<Value>)
    requires ValidTags(f.sub)
    modifies stream
    ensures ok <==> ReadField(f, wireType, old(stream.rest), items).Parsed?
    ensures ok ==> ReadField(f, wireType, old(stream.rest), items) == Parsed(out, stream.rest)
    decreases f, 2
  {
    hide ReadValue, ReadPacked, ValidTags, DefaultValue;
    out := items;
    var v;
    if !f.htype.Repeated? {
      ok, v := DecodeValue(stream, f, if items == [] then DefaultValue(f) else items[0]);
      out := [v];
    } else if wireType == WT_STRING && Packable(f.ltype) {
      ok, out := DecodePacked(stream, f, items);
    } else {
      if |items| >= f.arraySize {
        return false, out;
      }
      ok, v := DecodeValue(stream, f, DefaultValue(f));
      out := items + [v];
    }
  }

  method DecodePacked(stream: IStream, f: Field, items: seq<Value>) returns (ok: bool, out: seq<Value>)
    requires ValidTags(f.sub) && Packable(f.ltype)
    modifies stream
    ensures ok <==> ReadDelimited(old(stream.rest)).Parsed? && ReadPacked(f, ReadDelimited(old(stream.rest)).value, items).Some?
    ensures ok ==> ReadPacked(f, ReadDelimited(old(stream.rest)).value, items) == Some(out) && ReadDelimited(old(stream.rest)).rest == stream.rest
    decreases f, 1
  {
    hide ReadValue, ValidTags, ReadDelimited;
    out := items;
    var substream;
    ok, substream := stream.MakeSubstream();
    if !ok {
      return;
    }
    ghost var s := substream.rest;
    var status := true;
    while status && substream.rest != [] && |out| < f.arraySize
      invariant fresh(substream) && ReadPacked(f, s, items) == if status then ReadPacked(f, substream.rest, out) else None
      invariant stream.rest == ReadDelimited(old(stream.rest)).rest
      decreases status, |substream.rest|
    {
      var v;
      status, v := DecodeValue(substream, f, Int(0));
      out := if status then out + [v] else out;
    }
    ok := status && substream.rest == [];
  }

  /** pb_decode_noinit. */
  method DecodeNoInit(stream: IStream, d: Descriptor, m: Message) returns (ok: bool, out: Message)
    requires ValidTags(d)
    modifies stream
    ensures ok <==> DecodeInto(d, old(stream.rest), m).Some?
    ensures ok ==> DecodeInto(d, old(stream.rest), m) == Some(out)
    decreases d, 4
  {
    hide ReadUInt32, ReadField, SkipField, ValidTags, AllSeen, Mirrors, FindField;
    var bits := seq(PB_MAX_REQUIRED_FIELDS, _ => false);
    ghost var seen: set<nat> := {};
    var iter := new FieldIter(d.fields);
    out := m;
    NothingSeen(d, bits);
    var ended := false;
    while !ended && stream.rest != []
      invariant iter.Valid() && iter.fields == d.fields && fresh(iter) && Mirrors(d, bits, seen) && |bits| == PB_MAX_REQUIRED_FIELDS
      invariant ReadFields(d, old(stream.rest), m, {}) == if ended then Some((out, seen)) else ReadFields(d, stream.rest, out, seen)
      decreases !ended, |stream.rest|
    {
      var temp;
      ok, temp := stream.DecodeVarint32();
      if !ok {
        return;
      }
      if temp == 0 {
        ended := true;
      } else {
        var found := iter.Find(temp / 8);
        Located(d, temp / 8, iter.pos, found);
        if !found || iter.pos >= |out.items| {
          ok := stream.Skip(temp % 8);
          if !ok {
            return;
          }
        } else {
          var i := iter.pos;
          if d.fields[i].htype.Required? {
            MirrorsMore(d, bits, seen, i);
            if iter.requiredIndex < PB_MAX_REQUIRED_FIELDS {
              bits := bits[iter.requiredIndex := true];
            }
            seen := seen + {i};
          }
          SubTagsValid(d, i);
          var items;
          ok, items := DecodeStaticField(stream, d.fields[i], temp % 8, out.items[i]);
          if !ok {
            return;
          }
          out := Message(out.items[i := items]);
        }
      }
    }
    var count := CountRequired(iter);
    MirroredCheck(d, bits, seen);
    NoneBeyond(d, bits, seen);
    ok := CheckBits(bits, if count > PB_MAX_REQUIRED_FIELDS then PB_MAX_REQUIRED_FIELDS else count);
  }

  lemma NothingSeen(d: Descriptor, bits: seq<bool>)
    requires |bits| == PB_MAX_REQUIRED_FIELDS && forall k :: 0 <= k < |bits| ==> !bits[k]
    ensures Mirrors(d, bits, {})
  {
  }

  lemma NoneBeyond(d: Descriptor, bits: seq<bool>, seen: set<nat>)
    requires Mirrors(d, bits, seen)
    ensures |bits| == PB_MAX_REQUIRED_FIELDS
    ensures forall k :: RequiredBefore(d.fields, |d.fields|) <= k < |bits| ==> !bits[k]
  {
  }

  lemma {:induction false} FindFieldNone(fs: seq<Field>, tag: nat)
    ensures FindField(fs, tag) == |fs| <==> forall i :: 0 <= i < |fs| ==> fs[i].tag != tag
    ensures FindField(fs, tag) < |fs| ==> fs[FindField(fs, tag)].tag == tag
  {
    if fs != [] {
      FindFieldNone(fs[1..], tag);
      assert forall i :: 0 < i < |fs| ==> fs[i] == fs[1..][i - 1];
      assert forall i :: 0 <= i < |fs| - 1 ==> fs[1..][i] == fs[i + 1];
    }
  }

  /** With distinct tags, where the iterator stops is where the field is. */
  lemma Located(d: Descriptor, tag: nat, pos: nat, found: bool)
    requires ValidTags(d) && (found <==> exists i :: 0 <= i < |d.fields| && d.fields[i].tag == tag)
    requires found ==> pos < |d.fields| && d.fields[pos].tag == tag
    ensures found ==> FindField(d.fields, tag) == pos
    ensures !found ==> FindField(d.fields, tag) == |d.fields|
  {
    FindFieldNone(d.fields, tag);
    if found {
      FindsField(d.fields, pos);
    }
  }

  /** pb_decode over a whole buffer: set the defaults, then decode. */
  method DecodeMessage(s: Bytes, d: Descriptor) returns (ok: bool, m: Message)
    requires ValidTags(d)
    ensures ok <==> Decode(d, s).Some?
    ensures ok ==> Decode(d, s) == Some(m)
  {
    hide DecodeInto, ValidTags, DefaultMessage;
    var stream := new IStream(s);
    ok, m := DecodeNoInit(stream, d, DefaultMessage(d));
  }

  /** Encode into a buffer, decode from it: it goes in exactly when it fits, and comes out exactly when its
      strings are terminated. */
  method Transmit(d: Descriptor, m: Message, room: nat) returns (sent: bool, ok: bool, received: Message)
    requires ValidTags(d) && Typed(d, m) && room < TWO_32
    ensures sent <==> MessageBytes(d, m).Some? && |MessageBytes(d, m).value| <= room
    ensures sent ==> (ok && received == m <==> Terminated(d, m))
  {
    hide MessageBytes, Typed, ValidTags, Terminated, Decode;
    var stream := new OStream(false, room);
    var status := Encode(stream, d, m);
    sent, ok, received := status == Good, false, m;
    if sent {
      assert [] + MessageBytes(d, m).value == MessageBytes(d, m).value;
      RoundTripIffTerminated(d, m);
      ok, received := DecodeMessage(stream.buffer, d);
    }
  }
}
