/** Write batches: a byte string with a sequence number, a count and the operations, and what iterating it does. */
module WriteBatches {
  import opened Coding
  import opened InternalKeys

  const HEADER: nat := 12
  const TYPE_DELETION: Byte := 0
  const TYPE_VALUE: Byte := 1

  datatype Op = Put(key: Bytes, value: Bytes) | Delete(key: Bytes)

  predicate FitsOp(op: Op) {
    |op.key| < TWO_32 && (op.Put? ==> |op.value| < TWO_32)
  }

  function OpBytes(op: Op): (s: Bytes)
    ensures s != []
  {
    match op
    case Put(key, value) => [TYPE_VALUE] + (Prefixed(key) + Prefixed(value))
    case Delete(key) => [TYPE_DELETION] + Prefixed(key)
  }

  /** A record starts with the type byte of the internal key its entry gets. */
  lemma TypeByte(op: Op, u: UserKey, s: SequenceNumber)
    ensures OpBytes(op)[0] == Tag(InternalKey(u, s, if op.Put? then Value else Deletion)) % 256
    ensures OpBytes(op) == if op.Put? then [1] + Varint(|op.key|) + op.key + Varint(|op.value|) + op.value
                           else [0] + Varint(|op.key|) + op.key
  {
  }

  function OpsBytes(ops: seq<Op>): Bytes {
    if ops == [] then [] else OpsBytes(ops[..|ops| - 1]) + OpBytes(ops[|ops| - 1])
  }

  lemma {:induction false} OpsBytesConcat(a: seq<Op>, b: seq<Op>)
    ensures OpsBytes(a + b) == OpsBytes(a) + OpsBytes(b)
  {
    hide OpBytes;
    if b == [] {
      assert a + b == a;
    } else {
      var n := |b| - 1;
      assert (a + b)[..|a + b| - 1] == a + b[..n];
      OpsBytesConcat(a, b[..n]);
    }
  }

  lemma OneOpBytes(op: Op)
    ensures OpsBytes([op]) == OpBytes(op)
  {
    assert [op][..0] == [];
  }

  // ----- Iterating -----

  function ReadOp(s: Bytes): (r: Parsed<Op>)
    ensures r.Parsed? ==> |r.rest| < |s|
  {
    if s == [] then Fail
    else if s[0] == TYPE_VALUE then
      var key := ReadPrefixed(s[1..]);
      if key.Fail? then Fail else
      var value := ReadPrefixed(key.rest);
      if value.Fail? then Fail else Parsed(Put(key.value, value.value), value.rest)
    else if s[0] == TYPE_DELETION then
      var key := ReadPrefixed(s[1..]);
      if key.Fail? then Fail else Parsed(Delete(key.value), key.rest)
    else Fail
  }

  /** The operations handed to the handler before the input ends or stops making sense. */
  function Visited(s: Bytes): (seq<Op>, bool)
    decreases |s|
  {
    if s == [] then ([], true) else
      var op := ReadOp(s);
      if op.Fail? then ([], false) else
        var more := Visited(op.rest);
        ([op.value] + more.0, more.1)
  }

  /** A record of another type ends the iteration with an error. */
  lemma UnknownType(ops: seq<Op>, rest: Bytes)
    requires (forall i :: 0 <= i < |ops| ==> FitsOp(ops[i])) && rest != [] && rest[0] > 1
    ensures Visited(OpsBytes(ops) + rest) == (ops, false)
  {
    hide OpsBytes, FitsOp, OpBytes;
    VisitedBefore(ops, rest);
    assert ReadOp(rest).Fail? && Visited(rest) == ([], false);
    assert ops + [] == ops;
  }

  /** What follows some operations is visited after them. */
  lemma {:induction false} VisitedBefore(ops: seq<Op>, rest: Bytes)
    requires forall i :: 0 <= i < |ops| ==> FitsOp(ops[i])
    ensures Visited(OpsBytes(ops) + rest) == (ops + Visited(rest).0, Visited(rest).1)
  {
    hide OpBytes, FitsOp, ReadOp;
    if ops == [] {
      assert [] + rest == rest && [] + Visited(rest).0 == Visited(rest).0;
    } else {
      assert ops == [ops[0]] + ops[1..];
      OpsBytesConcat([ops[0]], ops[1..]);
      OneOpBytes(ops[0]);
      OpRoundTrip(ops[0], OpsBytes(ops[1..]) + rest);
      assert OpsBytes(ops) + rest == OpBytes(ops[0]) + (OpsBytes(ops[1..]) + rest);
      VisitedBefore(ops[1..], rest);
      var seen := Visited(rest).0;
      assert [ops[0]] + (ops[1..] + seen) == ops + seen;
    }
  }

  lemma OpRoundTrip(op: Op, rest: Bytes)
    requires FitsOp(op)
    ensures ReadOp(OpBytes(op) + rest) == Parsed(op, rest)
  {
    hide ReadPrefixed, Prefixed;
    var s := OpBytes(op) + rest;
    match op
    case Put(key, value) =>
      assert s[1..] == Prefixed(key) + (Prefixed(value) + rest);
      PrefixedRoundTrip(key, Prefixed(value) + rest);
      PrefixedRoundTrip(value, rest);
    case Delete(key) =>
      assert s[1..] == Prefixed(key) + rest;
      PrefixedRoundTrip(key, rest);
  }

  lemma VisitedRoundTrip(ops: seq<Op>)
    requires forall i :: 0 <= i < |ops| ==> FitsOp(ops[i])
    ensures Visited(OpsBytes(ops)) == (ops, true)
  {
    hide FitsOp, OpsBytes;
    VisitedBefore(ops, []);
    assert OpsBytes(ops) + [] == OpsBytes(ops);
    assert Visited([]) == ([], true) && ops + [] == ops;
  }

  // ----- The batch object -----

  /** The bytes hold these operations, and the count agrees. */
  ghost predicate Holds(rep: Bytes, ops: seq<Op>) {
    && |rep| >= HEADER && rep[HEADER..] == OpsBytes(ops)
    && FromFixed(rep[8..HEADER]) == |ops| < 0x8000_0000
    && forall i :: 0 <= i < |ops| ==> FitsOp(ops[i])
  }

  /** uint32 to int. */
  function Signed32(n: nat): int {
    if n >= 0x8000_0000 then n - TWO_32 else n
  }

  /** A batch holds one list of operations. */
  lemma HoldsOne(rep: Bytes, a: seq<Op>, b: seq<Op>)
    requires Holds(rep, a) && Holds(rep, b)
    ensures a == b
  {
    VisitedRoundTrip(a);
    VisitedRoundTrip(b);
  }

  lemma HeaderWritten(rep: Bytes, at: nat, width: nat, v: nat, rep': Bytes)
    requires |rep| >= at + width && rep' == rep[..at] + Fixed(v, width) + rep[at + width..] && v < Pow256(width)
    ensures |rep'| == |rep| && FromFixed(rep'[at..at + width]) == v
    ensures rep'[..at] == rep[..at] && rep'[at + width..] == rep[at + width..]
  {
    FixedRoundTrip(v, width);
    assert rep'[at..at + width] == Fixed(v, width);
    assert rep'[..at] == rep[..at] && rep'[at + width..] == rep[at + width..];
  }

  lemma {:induction false} ZerosRead(n: nat)
    ensures FromFixed(seq(n, _ => 0)) == 0
  {
    if n > 0 {
      ZerosRead(n - 1);
      assert seq(n, _ => 0 as Byte)[1..] == seq(n - 1, _ => 0 as Byte);
    }
  }

  lemma HeldCount(rep: Bytes, ops: seq<Op>)
    requires Holds(rep, ops)
    ensures |rep| >= HEADER && Signed32(FromFixed(rep[8..HEADER])) == |ops| < 0x8000_0000
    ensures rep[HEADER..] == OpsBytes(ops) && forall i :: 0 <= i < |ops| ==> FitsOp(ops[i])
  {
  }

  lemma Appended(before: Bytes, after: Bytes, added: Bytes)
    requires |before| >= HEADER && after == before + added
    ensures after[..8] == before[..8] && after[8..HEADER] == before[8..HEADER] && after[HEADER..] == before[HEADER..] + added
  {
  }

  /** Counting and appending more operations. */
  lemma HoldsMore(before: Bytes, counted: Bytes, after: Bytes, ops: seq<Op>, more: seq<Op>)
    requires Holds(before, ops) && |ops| + |more| < 0x8000_0000 && forall i :: 0 <= i < |more| ==> FitsOp(more[i])
    requires |counted| == |before| && counted[HEADER..] == before[HEADER..] && FromFixed(counted[8..HEADER]) == |ops| + |more|
    requires after == counted + OpsBytes(more)
    ensures Holds(after, ops + more) && after[..8] == counted[..8]
  {
    hide FitsOp, FromFixed, OpsBytes;
    OpsBytesConcat(ops, more);
    Appended(counted, after, OpsBytes(more));
    forall i | 0 <= i < |ops + more|
      ensures FitsOp((ops + more)[i])
    {
      assert (ops + more)[i] == if i < |ops| then ops[i] else more[i - |ops|];
    }
  }

  lemma Rejoin(a: Bytes, b: Bytes, c: Bytes)
    ensures a + (b + c) == a + b + c
  {
  }

  lemma PutFits(key: Bytes, value: Bytes)
    requires FitsOp(Put(key, value))
    ensures |key| < TWO_32 && |value| < TWO_32
  {
  }

  lemma PutBytes(before: Bytes, key: Bytes, value: Bytes)
    ensures before + [1] + Prefixed(key) + Prefixed(value) == before + OpBytes(Put(key, value))
  {
    hide Prefixed;
    assert before + [1] + Prefixed(key) + Prefixed(value) == before + [1] + (Prefixed(key) + Prefixed(value));
  }

  class WriteBatch {
    var rep: Bytes

    ghost predicate Has(ops: seq<Op>)
      reads this
    {
      Holds(rep, ops)
    }

    function Count(): int
      requires |rep| >= HEADER
      reads this
    {
      Signed32(FromFixed(rep[8..HEADER]))
    }

    function Sequence(): nat
      requires |rep| >= HEADER
      reads this
    {
      FromFixed(rep[..8])
    }

    constructor ()
      ensures Has([]) && Sequence() == 0
    {
      rep := seq(HEADER, _ => 0);
      new;
      ZerosRead(4);
      ZerosRead(8);
      assert rep[8..HEADER] == seq(4, _ => 0 as Byte) && rep[..8] == seq(8, _ => 0 as Byte);
    }

    method SetSequence(seqno: SequenceNumber)
      requires |rep| >= HEADER
      modifies this
      ensures |rep| == old(|rep|) && Sequence() == seqno && rep[8..] == old(rep[8..])
      ensures rep == Fixed(seqno, 8) + old(rep)[8..]
      ensures forall ops :: old(Has(ops)) ==> Has(ops)
    {
      Widths();
      var rep' := rep[..0] + Fixed(seqno, 8) + rep[8..];
      HeaderWritten(rep, 0, 8, seqno, rep');
      assert rep'[8..][..4] == rep[8..][..4] && rep'[8..][4..] == rep[8..][4..];
      assert rep'[8..HEADER] == rep[8..HEADER] && rep'[HEADER..] == rep[HEADER..];
      rep := rep';
    }

    method SetCount(n: nat)
      requires |rep| >= HEADER && n < 0x8000_0000
      modifies this
      ensures |rep| == old(|rep|) && rep[..8] == old(rep[..8]) && FromFixed(rep[8..HEADER]) == n && rep[HEADER..] == old(rep[HEADER..])
      ensures rep == old(rep)[..8] + Fixed(n, 4) + old(rep)[12..]
    {
      Widths();
      var rep' := rep[..8] + Fixed(n, 4) + rep[HEADER..];
      HeaderWritten(rep, 8, 4, n, rep');
      rep := rep';
    }

    method AddPut(key: Bytes, value: Bytes, ghost ops: seq<Op>)
      requires Has(ops) && FitsOp(Put(key, value)) && |ops| + 1 < 0x8000_0000
      modifies this
      ensures Has(ops + [Put(key, value)]) && Sequence() == old(Sequence())
      ensures rep == old(rep)[..8] + Fixed(|ops| + 1, 4) + old(rep)[12..] + [1] + Varint(|key|) + key + Varint(|value|) + value
    {
      hide FromFixed, OpsBytes, Holds, Varint, Fixed, FitsOp;
      assert |key| < TWO_32 && |value| < TWO_32 by { PutFits(key, value); }
      ghost var before := rep;
      HeldCount(before, ops);
      SetCount(Count() + 1);
      ghost var counted := rep;
      rep := rep + [TYPE_VALUE];
      rep := PutPrefixed(rep, key);
      ghost var half := rep;
      rep := PutPrefixed(rep, value);
      Rejoin(half, Varint(|value|), value);
      Rejoin(counted + [1], Varint(|key|), key);
      PutBytes(counted, key, value);
      OneOpBytes(Put(key, value));
      HoldsMore(before, counted, rep, ops, [Put(key, value)]);
    }

    method AddDelete(key: Bytes, ghost ops: seq<Op>)
      requires Has(ops) && FitsOp(Delete(key)) && |ops| + 1 < 0x8000_0000
      modifies this
      ensures Has(ops + [Delete(key)]) && Sequence() == old(Sequence())
      ensures rep == old(rep)[..8] + Fixed(|ops| + 1, 4) + old(rep)[12..] + [0] + Varint(|key|) + key
    {
      hide FromFixed, OpsBytes, Holds, Varint, Fixed;
      ghost var before := rep;
      HeldCount(before, ops);
      SetCount(Count() + 1);
      ghost var counted := rep;
      Rejoin(counted + [0], Varint(|key|), key);
      assert counted + [0] + Prefixed(key) == counted + ([0] + Prefixed(key));
      rep := rep + [TYPE_DELETION];
      rep := PutPrefixed(rep, key);
      OneOpBytes(Delete(key));
      HoldsMore(before, counted, rep, ops, [Delete(key)]);
    }

    /** Appends another batch's operations; the sequence number stays. */
    method Append(source: WriteBatch, ghost ops: seq<Op>, ghost more: seq<Op>)
      requires Has(ops) && source.Has(more) && source != this && |ops| + |more| < 0x8000_0000
      modifies this
      ensures Has(ops + more) && Sequence() == old(Sequence())
      ensures rep == old(rep)[..8] + Fixed(|ops| + |more|, 4) + old(rep)[12..] + source.rep[12..]
    {
      hide FromFixed, FitsOp, OpsBytes, Holds;
      ghost var before := rep;
      HeldCount(before, ops);
      HeldCount(source.rep, more);
      SetCount(Count() + source.Count());
      ghost var counted := rep;
      rep := rep + source.rep[HEADER..];
      HoldsMore(before, counted, rep, ops, more);
    }

    /** Hands each operation to the handler in turn; here the handler collects them. */
    method Iterate() returns (ok: bool, ops: seq<Op>)
      ensures |rep| < HEADER ==> !ok && ops == []
      ensures |rep| >= HEADER ==> ops == Visited(rep[HEADER..]).0
      ensures |rep| >= HEADER ==> (ok <==> Visited(rep[HEADER..]).1 && |ops| == Count())
      ensures forall held :: Has(held) ==> ok && ops == held
    {
      hide ReadOp, FitsOp, OpsBytes, FromFixed;
      ops := [];
      if |rep| < HEADER {
        return false, ops;
      }
      forall held | Has(held)
        ensures Visited(rep[HEADER..]) == (held, true)
      {
        VisitedRoundTrip(held);
      }
      var input := rep[HEADER..];
      assert [] + Visited(input).0 == Visited(input).0;
      while input != []
        invariant Visited(rep[HEADER..]) == (ops + Visited(input).0, Visited(input).1)
        decreases |input|
      {
        var op := ReadOp(input);
        if op.Fail? {
          return false, ops;
        }
        assert ops + ([op.value] + Visited(op.rest).0) == ops + [op.value] + Visited(op.rest).0;
        ops := ops + [op.value];
        input := op.rest;
      }
      ok := |ops| == Count();
    }

    /** Adds each operation to the memtable, giving out consecutive sequence numbers from the batch's own. */
    method InsertInto(mem: seq<(nat, Op)>) returns (ok: bool, mem': seq<(nat, Op)>)
      requires |rep| >= HEADER
      ensures mem' == mem + Numbered(Sequence(), Visited(rep[HEADER..]).0)
      ensures ok <==> Visited(rep[HEADER..]).1 && |Visited(rep[HEADER..]).0| == Count()
      ensures forall held :: Has(held) ==> ok && mem' == mem + Numbered(Sequence(), held)
    {
      hide FitsOp, OpsBytes, FromFixed, ReadOp, Visited;
      var ops;
      ok, ops := Iterate();
      mem' := mem;
      var sequence := Sequence();
      for i := 0 to |ops|
        invariant sequence == Sequence() + i && mem' == mem + Numbered(Sequence(), ops[..i])
      {
        assert Numbered(Sequence(), ops[..i + 1]) == Numbered(Sequence(), ops[..i]) + [(sequence, ops[i])];
        mem' := mem' + [(sequence, ops[i])];
        sequence := sequence + 1;
      }
      assert ops[..|ops|] == ops;
    }
  }

  /** Operations with consecutive sequence numbers. */
  function Numbered(start: nat, ops: seq<Op>): seq<(nat, Op)> {
    seq(|ops|, i requires 0 <= i < |ops| => (start + i, ops[i]))
  }
}
