/** The keys an index may use instead of real ones: between the last key of a block and the first of the next. */
module Separators {
  import opened Coding
  import opened InternalKeys

  // ----- The bytewise comparator -----

  /** memcmp order, a prefix first. */
  predicate BytesLess(a: Bytes, b: Bytes) {
    if b == [] then false
    else if a == [] then true
    else if a[0] != b[0] then a[0] < b[0]
    else BytesLess(a[1..], b[1..])
  }

  lemma {:induction false} BytesTotal(a: Bytes, b: Bytes)
    ensures !(BytesLess(a, b) && BytesLess(b, a))
    ensures a != b <==> BytesLess(a, b) || BytesLess(b, a)
  {
    if a != [] && b != [] {
      BytesTotal(a[1..], b[1..]);
      assert a == [a[0]] + a[1..] && b == [b[0]] + b[1..];
    }
  }

  lemma {:induction false} BytesTransitive(a: Bytes, b: Bytes, c: Bytes)
    requires BytesLess(a, b) && BytesLess(b, c)
    ensures BytesLess(a, c)
  {
    if a != [] && a[0] == b[0] == c[0] {
      BytesTransitive(a[1..], b[1..], c[1..]);
    }
  }

  /** The first differing byte decides. */
  lemma {:induction false} FirstDifference(a: Bytes, b: Bytes, d: nat)
    requires d < |a| && d < |b| && a[..d] == b[..d] && a[d] != b[d]
    ensures BytesLess(a, b) <==> a[d] < b[d]
  {
    if d > 0 {
      assert a[0] == a[..d][0] && b[0] == b[..d][0];
      assert a[1..][..d - 1] == a[..d][1..] && b[1..][..d - 1] == b[..d][1..];
      FirstDifference(a[1..], b[1..], d - 1);
    }
  }

  /** Strings after start and before the one that raises its byte d have more than d + 1 bytes. */
  lemma {:induction false} NothingBetween(start: Bytes, d: nat, s: Bytes)
    requires d < |start| && start[d] < 0xff && |s| <= d + 1 && BytesLess(start, s)
    ensures !BytesLess(s, start[..d] + [start[d] + 1])
  {
    if d > 0 && s[0] == start[0] {
      NothingBetween(start[1..], d - 1, s[1..]);
      assert (start[..d] + [start[d] + 1])[1..] == start[1..][..d - 1] + [start[1..][d - 1] + 1];
    }
  }

  /** Strings strictly between two that agree on d bytes have more than d. */
  lemma {:induction false} NothingShorter(start: Bytes, limit: Bytes, d: nat, s: Bytes)
    requires d <= |start| && d <= |limit| && start[..d] == limit[..d] && |s| <= d && BytesLess(start, s)
    ensures !BytesLess(s, limit)
  {
    if d > 0 {
      assert start[0] == start[..d][0] && limit[0] == limit[..d][0];
      if s[0] == start[0] {
        assert start[1..][..d - 1] == start[..d][1..] && limit[1..][..d - 1] == limit[..d][1..];
        NothingShorter(start[1..], limit[1..], d - 1, s[1..]);
      }
    }
  }

  /** Behind a run of 0xff only longer strings follow. */
  lemma {:induction false} NothingBehind(key: Bytes, d: nat, s: Bytes)
    requires d <= |key| && (forall i :: 0 <= i < d ==> key[i] == 0xff) && BytesLess(key, s)
    ensures |s| > d
  {
    if d > 0 {
      NothingBehind(key[1..], d - 1, s[1..]);
    }
  }

  /** The two strings agree up to byte d, and there the first one's byte can be raised and stay below the second's. */
  predicate RoomAt(start: Bytes, limit: Bytes, d: nat) {
    d < |start| && d < |limit| && start[..d] == limit[..d] && start[d] as int + 1 < limit[d] as int
  }

  /** Two strings part at one place. */
  lemma PartOnce(start: Bytes, limit: Bytes, d: nat)
    requires d <= |start| && d <= |limit| && start[..d] == limit[..d]
    requires d == |start| || d == |limit| || start[d] != limit[d]
    ensures forall i: nat :: RoomAt(start, limit, i) ==> i == d
  {
    Agree(start, limit, d);
    forall i: nat | RoomAt(start, limit, i)
      ensures i == d
    {
      Agree(start, limit, i);
    }
  }

  lemma Agree(start: Bytes, limit: Bytes, n: nat)
    requires n <= |start| && n <= |limit| && start[..n] == limit[..n]
    ensures forall i :: 0 <= i < n ==> start[i] == limit[i]
  {
    forall i | 0 <= i < n
      ensures start[i] == limit[i]
    {
      assert start[i] == start[..n][i] && limit[i] == limit[..n][i];
    }
  }

  /** A string in [start, limit) that is no longer than start.  It is start itself unless the byte where the two part
      has room; then it is the shortest string strictly between them, and the least of its length. */
  method FindShortestSeparator(start: Bytes, limit: Bytes) returns (r: Bytes)
    ensures BytesLess(start, limit) ==> !BytesLess(r, start) && BytesLess(r, limit)
    ensures |r| <= |start| && (start == limit ==> r == start) && (r == start || BytesLess(start, r))
    ensures r != start <==> exists d: nat :: RoomAt(start, limit, d)
    ensures r != start ==> forall s :: BytesLess(start, s) && BytesLess(s, limit) ==> |s| > |r| || (|s| == |r| && !BytesLess(s, r))
  {
    r := start;
    BytesTotal(start, start);
    var diffIndex := 0;
    while diffIndex < |start| && diffIndex < |limit| && start[diffIndex] == limit[diffIndex]
      invariant diffIndex <= |start| && diffIndex <= |limit| && start[..diffIndex] == limit[..diffIndex]
    {
      diffIndex := diffIndex + 1;
    }
    PartOnce(start, limit, diffIndex);
    if diffIndex >= |start| || diffIndex >= |limit| {
      // one string is a prefix of the other
    } else {
      var diffByte := start[diffIndex];
      if diffByte < 0xff && diffByte + 1 < limit[diffIndex] {
        r := start[..diffIndex] + [diffByte + 1];
        assert r[..diffIndex] == start[..diffIndex];
        FirstDifference(start, r, diffIndex);
        FirstDifference(r, start, diffIndex);
        FirstDifference(r, limit, diffIndex);
        forall s | |s| <= |r| && BytesLess(start, s) && BytesLess(s, limit)
          ensures |s| == |r| && !BytesLess(s, r)
        {
          NothingBetween(start, diffIndex, s);
          if |s| <= diffIndex {
            NothingShorter(start, limit, diffIndex, s);
          }
        }
        assert RoomAt(start, limit, diffIndex);
      }
    }
  }

  /** The shortest string after key that is no longer, and the least of its length; key itself when it is a run of 0xff. */
  method FindShortSuccessor(key: Bytes) returns (r: Bytes)
    ensures |r| <= |key| && (r == key || BytesLess(key, r))
    ensures r == key <==> forall i :: 0 <= i < |key| ==> key[i] == 0xff
    ensures r != key ==> forall s :: BytesLess(key, s) ==> |s| > |r| || (|s| == |r| && !BytesLess(s, r))
  {
    for i := 0 to |key|
      invariant forall j :: 0 <= j < i ==> key[j] == 0xff
    {
      if key[i] != 0xff {
        r := key[..i] + [key[i] + 1];
        assert r[..i] == key[..i];
        FirstDifference(key, r, i);
        forall s | |s| <= |r| && BytesLess(key, s)
          ensures |s| == |r| && !BytesLess(s, r)
        {
          NothingBetween(key, i, s);
          NothingBehind(key, i, s);
        }
        return;
      }
    }
    r := key;
  }

  // ----- Internal keys -----

  /** What the user comparator promises of its separator and successor. */
  ghost predicate Separates(sep: (UserKey, UserKey) -> UserKey) {
    && (forall a, b :: a < b ==> a <= sep(a, b) < b)
    && (forall a :: sep(a, a) == a)
  }

  /** A shorter user key that is logically larger, tagged with the earliest possible number; else start itself. */
  function InternalSeparator(start: InternalKey, limit: InternalKey, sep: (UserKey, UserKey) -> UserKey, size: UserKey -> nat): InternalKey {
    var tmp := sep(start.user, limit.user);
    if size(tmp) < size(start.user) && start.user < tmp then InternalKey(tmp, MAX_SEQUENCE, Value) else start
  }

  function InternalSuccessor(key: InternalKey, succ: UserKey -> UserKey, size: UserKey -> nat): InternalKey {
    var tmp := succ(key.user);
    if size(tmp) < size(key.user) && key.user < tmp then InternalKey(tmp, MAX_SEQUENCE, Value) else key
  }

  /** The separator lies in [start, limit), and strictly between the user keys unless it is start. */
  lemma InternalSeparatorBetween(start: InternalKey, limit: InternalKey, sep: (UserKey, UserKey) -> UserKey, size: UserKey -> nat)
    requires Separates(sep) && Less(start, limit)
    ensures var r := InternalSeparator(start, limit, sep, size);
      && AtMost(start, r) && Less(r, limit)
      && (r != start ==> start.user < r.user < limit.user && r == InternalKey(sep(start.user, limit.user), 0xFF_FFFF_FFFF_FFFF, Value))
      && (r != start <==> sep(start.user, limit.user) != start.user && size(sep(start.user, limit.user)) < size(start.user))
  {
    var tmp := sep(start.user, limit.user);
    if start.user == limit.user {
      assert tmp == start.user;
    }
  }

  lemma InternalSuccessorAfter(key: InternalKey, succ: UserKey -> UserKey, size: UserKey -> nat)
    ensures var r := InternalSuccessor(key, succ, size);
      && AtMost(key, r)
      && (r != key ==> r == InternalKey(succ(key.user), 0xFF_FFFF_FFFF_FFFF, Value))
      && (r != key <==> key.user < succ(key.user) && size(succ(key.user)) < size(key.user))
  {
  }
}
