/** Internal keys, entries and the one simple object every part of the engine refines:
    a multi-version map from (user key, sequence) to a value or a tombstone.

    User keys are modelled as reals.  Every engine-side use of a user key is a comparison under the
    user comparator, and every total order on a countable set (such as byte strings) embeds in the
    rationals, so a statement about all reals is a statement about every user comparator. */
module InternalKeys {
  type UserKey = real

  const MAX_SEQUENCE: nat := 0xFF_FFFF_FFFF_FFFF

  type SequenceNumber = n: nat | n <= MAX_SEQUENCE

  datatype ValueType = Deletion | Value

  datatype InternalKey = InternalKey(user: UserKey, sequence: SequenceNumber, kind: ValueType)

  datatype Entry = Entry(key: InternalKey, value: string)

  datatype Option<T> = None | Some(value: T)

  /** The packed (sequence << 8 | type) trailer. */
  function Tag(k: InternalKey): nat {
    256 * k.sequence + if k.kind.Value? then 1 else 0
  }

  /** InternalKeyComparator: user key ascending, then trailer descending. */
  predicate Less(a: InternalKey, b: InternalKey) {
    a.user < b.user || (a.user == b.user && Tag(a) > Tag(b))
  }

  predicate AtMost(a: InternalKey, b: InternalKey) {
    !Less(b, a)
  }

  /** LookupKey: kValueTypeForSeek is the highest type, so this sorts at or before every entry of the
      user key with a sequence number of at most s. */
  function LookupKey(u: UserKey, s: SequenceNumber): InternalKey {
    InternalKey(u, s, Value)
  }

  /** The order is total: the trailer decides the sequence number and the type. */
  lemma AtMostAntisymmetric(a: InternalKey, b: InternalKey)
    requires AtMost(a, b) && AtMost(b, a)
    ensures a == b
  {
    assert Tag(a) % 256 == if a.kind.Value? then 1 else 0;
    assert Tag(b) % 256 == if b.kind.Value? then 1 else 0;
  }

  /** Seeking to LookupKey(u, s) skips exactly the entries that precede u or are too new. */
  lemma LookupKeySplits(u: UserKey, s: SequenceNumber, k: InternalKey)
    ensures Less(k, LookupKey(u, s)) <==> k.user < u || (k.user == u && k.sequence > s)
  {
  }

  ghost predicate Sorted(es: seq<Entry>) {
    forall i, j :: 0 <= i < j < |es| ==> Less(es[i].key, es[j].key)
  }

  // ----- The multi-version map -----

  /** e is the newest entry of u with a sequence number of at most s. */
  ghost predicate IsNewest(es: set<Entry>, u: UserKey, s: nat, e: Entry) {
    && e in es && e.key.user == u && e.key.sequence <= s
    && forall x :: x in es && x.key.user == u && x.key.sequence <= s ==> x.key.sequence <= e.key.sequence
  }

  /** No two entries share a user key and a sequence number. */
  ghost predicate Unique(es: set<Entry>) {
    forall x, y :: x in es && y in es && x.key.user == y.key.user && x.key.sequence == y.key.sequence ==> x == y
  }

  /** What a reader at snapshot s sees for u: a tombstone reads as absent. */
  ghost function Read(es: set<Entry>, u: UserKey, s: nat): Option<string> {
    if exists e :: IsNewest(es, u, s, e) && e.key.kind.Value? then
      var e :| IsNewest(es, u, s, e) && e.key.kind.Value?;
      Some(e.value)
    else None
  }

  lemma ReadOfNewest(es: set<Entry>, u: UserKey, s: nat, e: Entry)
    requires Unique(es) && IsNewest(es, u, s, e)
    ensures Read(es, u, s) == if e.key.kind.Value? then Some(e.value) else None
  {
    forall x | IsNewest(es, u, s, x)
      ensures x == e
    {
      assert x.key.sequence == e.key.sequence;
    }
  }

  lemma ReadOfNothing(es: set<Entry>, u: UserKey, s: nat)
    requires forall x :: x in es && x.key.user == u ==> x.key.sequence > s
    ensures Read(es, u, s) == None
  {
  }

  /** Some entry visible to the reader means there is a newest one. */
  lemma {:induction false} NewestExists(es: set<Entry>, u: UserKey, s: nat, x: Entry) returns (e: Entry)
    requires x in es && x.key.user == u && x.key.sequence <= s
    ensures IsNewest(es, u, s, e)
    decreases s - x.key.sequence
  {
    if y :| y in es && y.key.user == u && x.key.sequence < y.key.sequence <= s {
      e := NewestExists(es, u, s, y);
    } else {
      e := x;
    }
  }

  /** A read in terms of the newest visible entry, if there is one. */
  lemma FindNewest(es: set<Entry>, u: UserKey, s: nat) returns (r: Option<Entry>)
    requires Unique(es)
    ensures r.Some? ==> IsNewest(es, u, s, r.value)
    ensures r.None? ==> forall x :: x in es && x.key.user == u ==> x.key.sequence > s
    ensures Read(es, u, s) == if r.Some? && r.value.key.kind.Value? then Some(r.value.value) else None
  {
    if x :| x in es && x.key.user == u && x.key.sequence <= s {
      var e := NewestExists(es, u, s, x);
      ReadOfNewest(es, u, s, e);
      r := Some(e);
    } else {
      ReadOfNothing(es, u, s);
      r := None;
    }
  }
}
