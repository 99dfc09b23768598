/** DBIter: a bidirectional cursor over the entries a snapshot can see, driven by an internal cursor that
    also yields tombstones, hidden versions and entries that are too new. */
module DbIterator {
  import opened InternalKeys
  import opened Cursors
  import opened CompactionWork

  /** The entry the snapshot sees for its user key: the newest one not too new, and not a tombstone. */
  ghost predicate IsVisible(es: seq<Entry>, s: nat, i: int) {
    && 0 <= i < |es| && es[i].key.sequence <= s && es[i].key.kind.Value?
    && forall j :: 0 <= j < i && es[j].key.user == es[i].key.user ==> es[j].key.sequence > s
  }

  ghost predicate NoneVisible(es: seq<Entry>, s: nat, lo: int, hi: int) {
    forall i :: lo <= i < hi ==> !IsVisible(es, s, i)
  }

  lemma SortedUsers(es: seq<Entry>)
    requires Sorted(es)
    ensures forall i, j :: 0 <= i < j < |es| ==> es[i].key.user <= es[j].key.user
  {
  }

  // ----- The visible entries are the visible map, in key order -----

  /** Visible entries are exactly what point reads at the snapshot return. */
  lemma VisibleIsRead(es: seq<Entry>, s: nat, u: UserKey, v: string)
    requires Sorted(es) && Unique(Entries(es))
    ensures Read(Entries(es), u, s) == Some(v) <==> exists i :: IsVisible(es, s, i) && es[i].key.user == u && es[i].value == v
  {
    hide Read;
    var r := FindNewest(Entries(es), u, s);
    if r.Some? {
      var i :| 0 <= i < |es| && es[i] == r.value;
      forall j | 0 <= j < i && es[j].key.user == u
        ensures es[j].key.sequence > s
      {
        assert Less(es[j].key, es[i].key) && es[j] in Entries(es);
      }
      assert r.value.key.kind.Value? ==> IsVisible(es, s, i);
    }
    forall i | IsVisible(es, s, i) && es[i].key.user == u
      ensures r == Some(es[i])
    {
      NewestIsVisible(es, s, u, i, r);
    }
  }

  lemma NewestIsVisible(es: seq<Entry>, s: nat, u: UserKey, i: int, r: Option<Entry>)
    requires Sorted(es) && Unique(Entries(es)) && IsVisible(es, s, i) && es[i].key.user == u
    requires r.Some? ==> IsNewest(Entries(es), u, s, r.value)
    requires r.None? ==> forall x :: x in Entries(es) && x.key.user == u ==> x.key.sequence > s
    ensures r == Some(es[i])
  {
    assert es[i] in Entries(es);
    var k :| 0 <= k < |es| && es[k] == r.value;
    assert k > i ==> Less(es[i].key, es[k].key);
  }

  /** Visible entries are in strictly ascending user-key order: one per user key. */
  lemma VisibleAscending(es: seq<Entry>, s: nat, i: int, j: int)
    requires Sorted(es) && IsVisible(es, s, i) && IsVisible(es, s, j) && i < j
    ensures es[i].key.user < es[j].key.user
  {
    assert Less(es[i].key, es[j].key);
  }

  class DbIter {
    const iter: Cursor
    const sequence: SequenceNumber
    var forward: bool
    var valid: bool
    var savedKey: Option<UserKey>
    var savedValue: string
    ghost var at: nat  // the index of the entry the iterator is on, while valid

    constructor (iter: Cursor, sequence: SequenceNumber)
      requires iter.Valid()
      ensures Valid() && this.iter == iter && this.sequence == sequence && !valid
    {
      this.iter, this.sequence := iter, sequence;
      forward, valid, savedKey, savedValue, at := true, false, None, "", 0;
    }

    /** Forward, the internal cursor is on the current entry.  In reverse it is before every entry of the
        current key, and only entries too new for the snapshot lie between the two. */
    ghost predicate Valid()
      reads this, iter
    {
      && iter.Valid()
      && (valid ==> IsVisible(iter.entries, sequence, at))
      && (valid && forward ==> iter.pos == at)
      && (valid && !forward ==>
            && savedKey == Some(iter.entries[at].key.user) && savedValue == iter.entries[at].value
            && Gap(iter.entries, sequence, ReversePos(iter), at))
    }

    /** The internal position counted down past the first entry to -1. */
    static ghost function ReversePos(c: Cursor): int
      reads c
    {
      if c.pos < |c.entries| then c.pos else -1
    }

    static ghost predicate Gap(es: seq<Entry>, s: nat, p: int, at: int) {
      && -1 <= p < at < |es|
      && (p >= 0 ==> es[p].key.user < es[at].key.user)
      && forall k :: p < k < at ==> es[k].key.sequence > s
    }

    function Key(): UserKey
      requires Valid() && valid
      reads this, iter
      ensures Key() == iter.entries[at].key.user
    {
      if forward then iter.Current().key.user else savedKey.value
    }

    function Value(): string
      requires Valid() && valid
      reads this, iter
      ensures Value() == iter.entries[at].value
    {
      if forward then iter.Current().value else savedValue
    }

    /** Forward scan from the internal position: the next visible entry, past the key to skip if there is one. */
    method FindNextUserEntry(skipping: bool, skip: Option<UserKey>)
      requires iter.Valid() && iter.IsValid() && (skipping ==> skip.Some?)
      requires ScanState(iter.entries, sequence, iter.pos, skipping, skip)
      modifies this, iter
      ensures Valid() && forward
      ensures valid ==> Wanted(iter.entries, sequence, skipping, skip, at) && old(iter.pos) <= at
      ensures NoneWanted(iter.entries, sequence, skipping, skip, old(iter.pos), if valid then at else |iter.entries|)
    {
      hide Sorted, Scanning, ScanState, NoneWanted, Wanted, IsVisible, Valid;
      var skippingNow, skipNow := skipping, skip;
      forward := true;
      ghost var es, s, start, p := iter.entries, sequence, iter.pos, iter.pos;
      ScanStart(es, s, start, skipping, skip);
      while iter.pos < |iter.entries|
        invariant iter.pos == p && start <= p <= |es| && forward && iter.Valid()
        invariant Scanning(es, s, start, p, skipping, skip, skippingNow, skipNow)
        decreases |es| - p
      {
        var ikey := iter.Current().key;
        ScanStep(es, s, start, p, skipping, skip, skippingNow, skipNow);
        if ikey.sequence <= sequence {
          if ikey.kind.Deletion? {
            skipNow, skippingNow := Some(ikey.user), true;
          } else if !(skippingNow && ikey.user <= skipNow.value) {
            break;
          }
        }
        iter.Next();
        p := p + 1;
      }
      ScanEnd(es, s, start, p, skipping, skip, skippingNow, skipNow);
      valid, savedKey, at := iter.pos < |iter.entries|, None, iter.pos;
      ForwardValid();
    }

    /** How a forward scan stands at p: nothing wanted so far, and the running skip key accepts the same entries
        ahead as the one it started with. */
    static ghost predicate Scanning(es: seq<Entry>, s: nat, start: int, p: int, skipping: bool, skip: Option<UserKey>,
                                    skipping2: bool, skip2: Option<UserKey>) {
      && (skipping2 ==> skip2.Some?) && ScanState(es, s, p, skipping2, skip2)
      && NoneWanted(es, s, skipping, skip, start, p) && SameAhead(es, s, p, skipping, skip, skipping2, skip2)
    }

    static lemma ScanEnd(es: seq<Entry>, s: nat, start: int, p: int, skipping: bool, skip: Option<UserKey>,
                         skipping2: bool, skip2: Option<UserKey>)
      requires Scanning(es, s, start, p, skipping, skip, skipping2, skip2)
      ensures NoneWanted(es, s, skipping, skip, start, p)
    {
    }

    lemma ForwardValid()
      requires iter.Valid() && forward && (valid ==> IsVisible(iter.entries, sequence, at) && iter.pos == at)
      ensures Valid()
    {
    }

    static ghost predicate NoneWanted(es: seq<Entry>, s: nat, skipping: bool, skip: Option<UserKey>, lo: int, hi: int) {
      forall i :: lo <= i < hi ==> !Wanted(es, s, skipping, skip, i)
    }

    /** The running skip key accepts the same entries ahead as the one the scan started with. */
    static ghost predicate SameAhead(es: seq<Entry>, s: nat, p: int, skipping: bool, skip: Option<UserKey>, skipping2: bool, skip2: Option<UserKey>) {
      forall i :: p <= i < |es| ==> (Wanted(es, s, skipping, skip, i) <==> Wanted(es, s, skipping2, skip2, i))
    }

    static lemma ScanStart(es: seq<Entry>, s: nat, p: int, skipping: bool, skip: Option<UserKey>)
      requires ScanState(es, s, p, skipping, skip) && (skipping ==> skip.Some?)
      ensures Scanning(es, s, p, p, skipping, skip, skipping, skip)
    {
    }

    /** What each branch of the forward scan does to its state. */
    static lemma ScanStep(es: seq<Entry>, s: nat, start: int, p: nat, skipping: bool, skip: Option<UserKey>,
                          skipping2: bool, skip2: Option<UserKey>)
      requires Sorted(es) && start <= p < |es| && Scanning(es, s, start, p, skipping, skip, skipping2, skip2)
      ensures skipping2 ==> skip2.Some?
      ensures es[p].key.sequence <= s && es[p].key.kind.Deletion? ==>
        Scanning(es, s, start, p + 1, skipping, skip, true, Some(es[p].key.user))
      ensures es[p].key.sequence > s || (es[p].key.kind.Value? && skipping2 && es[p].key.user <= skip2.value) ==>
        Scanning(es, s, start, p + 1, skipping, skip, skipping2, skip2)
      ensures es[p].key.sequence <= s && es[p].key.kind.Value? && !(skipping2 && es[p].key.user <= skip2.value) ==>
        Wanted(es, s, skipping, skip, p) && IsVisible(es, s, p)
    {
      SortedUsers(es);
      assert Wanted(es, s, skipping, skip, p) <==> Wanted(es, s, skipping2, skip2, p);
      if es[p].key.sequence <= s && es[p].key.kind.Deletion? {
        forall i | p + 1 <= i < |es|
          ensures Wanted(es, s, skipping, skip, i) <==> Wanted(es, s, true, Some(es[p].key.user), i)
        {
          assert Wanted(es, s, skipping, skip, i) <==> Wanted(es, s, skipping2, skip2, i);
        }
      }
    }

    /** The key to skip is behind the scan, and entries still ahead that the scan may yield have shown no
        entry the snapshot sees yet. */
    static ghost predicate ScanState(es: seq<Entry>, s: nat, p: int, skipping: bool, skip: Option<UserKey>) {
      && (forall i :: 0 <= i < |es| && p <= i && es[i].key.sequence <= s && skipping && skip.Some? ==> es[i].key.user >= skip.value)
      && forall i, j :: 0 <= j < p <= i < |es| && es[j].key.user == es[i].key.user && (skipping && skip.Some? ==> es[i].key.user > skip.value)
           ==> es[j].key.sequence > s
    }

    /** Past the current entry, wanting an entry beyond its key means no more than being visible. */
    static lemma VisibleAhead(es: seq<Entry>, s: nat, at: int)
      requires Sorted(es) && IsVisible(es, s, at)
      ensures forall i :: at < i < |es| ==> (IsVisible(es, s, i) <==> Wanted(es, s, true, Some(es[at].key.user), i))
    {
      forall i | at < i < |es| && IsVisible(es, s, i)
        ensures es[i].key.user > es[at].key.user
      {
        VisibleAscending(es, s, at, i);
      }
    }

    static lemma NothingSkipped(es: seq<Entry>, s: nat)
      ensures forall i :: IsVisible(es, s, i) <==> Wanted(es, s, false, None, i)
    {
    }

    static ghost predicate Wanted(es: seq<Entry>, s: nat, skipping: bool, skip: Option<UserKey>, i: int) {
      IsVisible(es, s, i) && (skipping && skip.Some? ==> es[i].key.user > skip.value)
    }

    /** Backward scan from the internal position: the last visible entry at or before it. */
    method FindPrevUserEntry()
      requires iter.Valid()
      modifies this, iter
      ensures Valid()
      ensures valid ==> !forward && at <= old(ReversePos(iter)) && NoneVisible(iter.entries, sequence, at + 1, old(ReversePos(iter)) + 1)
      ensures !valid ==> forward && NoneVisible(iter.entries, sequence, 0, old(ReversePos(iter)) + 1)
    {
      hide Sorted, NoneVisible, Candidate;
      var kind := Deletion;
      ghost var es, start := iter.entries, ReversePos(iter);
      forward := false;
      NoneVisibleEmpty(es, sequence, start + 1);
      while iter.pos < |iter.entries|
        invariant iter.Valid() && -1 <= ReversePos(iter) <= start && !forward
        invariant kind.Value? ==> Candidate(es, sequence, at, start, ReversePos(iter), savedKey, savedValue)
        invariant kind.Deletion? ==> NoneVisible(es, sequence, ReversePos(iter) + 1, start + 1)
        decreases ReversePos(iter)
      {
        var ikey := iter.Current().key;
        BackStep(es, sequence, at, start, iter.pos, kind, savedKey, savedValue);
        if ikey.sequence <= sequence {
          if !kind.Deletion? && ikey.user < savedKey.value {
            break;
          }
          kind := ikey.kind;
          if kind.Deletion? {
            savedKey, savedValue := None, "";
          } else {
            savedKey, savedValue := Some(ikey.user), iter.Current().value;
            at := iter.pos;
          }
        }
        iter.Prev();
      }
      if kind.Deletion? {
        valid, savedKey, savedValue, forward := false, None, "", true;
      } else {
        BackEnd(es, sequence, at, start, ReversePos(iter), savedKey, savedValue);
        valid := true;
      }
    }

    static lemma NoneVisibleEmpty(es: seq<Entry>, s: nat, p: int)
      ensures NoneVisible(es, s, p, p)
    {
    }

    /** What each branch of the backward scan does to its state. */
    static lemma BackStep(es: seq<Entry>, s: nat, c: int, start: int, p: int, kind: ValueType, savedKey: Option<UserKey>, savedValue: string)
      requires Sorted(es) && 0 <= p <= start < |es|
      requires kind.Value? ==> Candidate(es, s, c, start, p, savedKey, savedValue)
      requires kind.Deletion? ==> NoneVisible(es, s, p + 1, start + 1)
      ensures kind.Value? ==> savedKey.Some?
      ensures es[p].key.sequence > s && kind.Value? ==> Candidate(es, s, c, start, p - 1, savedKey, savedValue)
      ensures es[p].key.sequence > s && kind.Deletion? ==> NoneVisible(es, s, p, start + 1)
      ensures es[p].key.sequence <= s && !(kind.Value? && es[p].key.user < savedKey.value) ==>
        if es[p].key.kind.Deletion? then NoneVisible(es, s, p, start + 1)
        else Candidate(es, s, p, start, p - 1, Some(es[p].key.user), es[p].value)
    {
      SortedUsers(es);
    }

    static lemma BackEnd(es: seq<Entry>, s: nat, c: int, start: int, p: int, savedKey: Option<UserKey>, savedValue: string)
      requires Sorted(es) && Candidate(es, s, c, start, p, savedKey, savedValue)
      requires p >= 0 ==> es[p].key.user < savedKey.value
      ensures IsVisible(es, s, c) && Gap(es, s, p, c) && c <= start && NoneVisible(es, s, c + 1, start + 1)
      ensures savedKey == Some(es[c].key.user) && savedValue == es[c].value
    {
      SortedUsers(es);
    }

    /** The backward scan's best entry so far: nothing the snapshot sees lies between it and the scan. */
    static ghost predicate Candidate(es: seq<Entry>, s: nat, c: int, start: int, p: int, savedKey: Option<UserKey>, savedValue: string) {
      && -1 <= p < c <= start < |es| && es[c].key.sequence <= s && es[c].key.kind.Value?
      && savedKey == Some(es[c].key.user) && savedValue == es[c].value
      && (forall k :: p < k < c ==> es[k].key.sequence > s)
      && NoneVisible(es, s, c + 1, start + 1)
    }

    /** The next visible entry after the current one. */
    method Next()
      requires Valid() && valid
      modifies this, iter
      ensures Valid() && forward
      ensures valid ==> old(at) < at && NoneVisible(iter.entries, sequence, old(at) + 1, at)
      ensures !valid ==> NoneVisible(iter.entries, sequence, old(at) + 1, |iter.entries|)
    {
      SortedUsers(iter.entries);
      VisibleAhead(iter.entries, sequence, at);
      if !forward {
        forward := true;
        if !iter.IsValid() {
          iter.SeekToFirst();
        } else {
          iter.Next();
        }
        if !iter.IsValid() {
          assert false;  // the entries of the current key lie ahead
        }
      } else {
        savedKey := Some(iter.Current().key.user);
      }
      FindNextUserEntry(true, savedKey);
    }

    /** The last visible entry before the current one. */
    method Prev()
      requires Valid() && valid
      modifies this, iter
      ensures Valid()
      ensures valid ==> at < old(at) && NoneVisible(iter.entries, sequence, at + 1, old(at))
      ensures !valid ==> NoneVisible(iter.entries, sequence, 0, old(at))
    {
      ghost var es := iter.entries;
      SortedUsers(es);
      if forward {
        savedKey := Some(iter.Current().key.user);
        while true
          invariant iter.Valid() && iter.IsValid() && iter.pos <= old(at)
          invariant savedKey == Some(es[old(at)].key.user) && forward
          invariant forall k :: iter.pos <= k <= old(at) ==> es[k].key.user == savedKey.value
          decreases iter.pos
        {
          iter.Prev();
          if !iter.IsValid() {
            valid, savedKey, savedValue := false, None, "";
            return;
          }
          if iter.Current().key.user < savedKey.value {
            break;
          }
        }
        forward := false;
      }
      FindPrevUserEntry();
    }

    /** The first visible entry with a user key at or after the target. */
    method Seek(target: UserKey)
      requires Valid()
      modifies this, iter
      ensures Valid() && forward
      ensures valid ==> iter.entries[at].key.user >= target
      ensures forall i :: IsVisible(iter.entries, sequence, i) && iter.entries[i].key.user >= target ==> valid && at <= i
    {
      SortedUsers(iter.entries);
      NothingSkipped(iter.entries, sequence);
      forward, savedValue, savedKey := true, "", None;
      iter.Seek(LookupKey(target, sequence));
      if iter.IsValid() {
        FindNextUserEntry(false, None);
      } else {
        valid := false;
      }
    }

    method SeekToFirst()
      requires Valid()
      modifies this, iter
      ensures Valid() && forward
      ensures NoneVisible(iter.entries, sequence, 0, if valid then at else |iter.entries|)
    {
      NothingSkipped(iter.entries, sequence);
      forward, savedValue := true, "";
      iter.SeekToFirst();
      if iter.IsValid() {
        FindNextUserEntry(false, None);
      } else {
        valid := false;
      }
    }

    method SeekToLast()
      requires Valid()
      modifies this, iter
      ensures Valid()
      ensures NoneVisible(iter.entries, sequence, if valid then at + 1 else 0, |iter.entries|)
    {
      forward, savedValue := false, "";
      iter.SeekToLast();
      FindPrevUserEntry();
    }
  }

  // ----- Any sequence of calls -----

  datatype CursorOp = First | Last | SeekTo(target: UserKey) | Forward | Backward

  ghost function FirstVisible(es: seq<Entry>, s: nat, lo: nat, target: Option<UserKey>): Option<nat>
    decreases |es| - lo
  {
    if lo >= |es| then None
    else if IsVisible(es, s, lo) && (target.Some? ==> es[lo].key.user >= target.value) then Some(lo)
    else FirstVisible(es, s, lo + 1, target)
  }

  ghost function LastVisible(es: seq<Entry>, s: nat, hi: nat): Option<nat>
    requires hi <= |es|
  {
    if hi == 0 then None else if IsVisible(es, s, hi - 1) then Some(hi - 1) else LastVisible(es, s, hi - 1)
  }

  /** The plain cursor over the visible entries; moving while not valid is not allowed and does nothing. */
  ghost function Moved(es: seq<Entry>, s: nat, cur: Option<nat>, op: CursorOp): Option<nat>
    requires cur.Some? ==> cur.value < |es|
  {
    match op
    case First => FirstVisible(es, s, 0, None)
    case Last => LastVisible(es, s, |es|)
    case SeekTo(target) => FirstVisible(es, s, 0, Some(target))
    case Forward => if cur.Some? then FirstVisible(es, s, cur.value + 1, None) else None
    case Backward => if cur.Some? then LastVisible(es, s, cur.value) else None
  }

  lemma {:induction false} FirstVisibleIs(es: seq<Entry>, s: nat, lo: nat, target: Option<UserKey>, at: Option<nat>)
    requires at.Some? ==> lo <= at.value && IsVisible(es, s, at.value) && (target.Some? ==> es[at.value].key.user >= target.value)
    requires forall i :: lo <= i < (if at.Some? then at.value else |es|) && IsVisible(es, s, i) ==> target.Some? && es[i].key.user < target.value
    ensures FirstVisible(es, s, lo, target) == at
    decreases |es| - lo
  {
    if lo < |es| && (at.Some? ==> lo < at.value) {
      FirstVisibleIs(es, s, lo + 1, target, at);
    }
  }

  lemma {:induction false} LastVisibleIs(es: seq<Entry>, s: nat, hi: nat, at: Option<nat>)
    requires hi <= |es|
    requires at.Some? ==> at.value < hi && IsVisible(es, s, at.value) && NoneVisible(es, s, at.value + 1, hi)
    requires at.None? ==> NoneVisible(es, s, 0, hi)
    ensures LastVisible(es, s, hi) == at
  {
    if hi > 0 && (at.Some? ==> at.value < hi - 1) {
      LastVisibleIs(es, s, hi - 1, at);
    }
  }

  ghost function Position(it: DbIter): Option<nat>
    reads it
  {
    if it.valid then Some(it.at) else None
  }

  /** One call on the iterator moves it as the plain cursor moves. */
  method Call(it: DbIter, op: CursorOp)
    requires it.Valid()
    modifies it, it.iter
    ensures it.Valid()
    ensures Position(it) == Moved(it.iter.entries, it.sequence, old(Position(it)), op)
  {
    ghost var es, s, was := it.iter.entries, it.sequence, Position(it);
    match op {
      case First =>
        it.SeekToFirst();
        FirstVisibleIs(es, s, 0, None, Position(it));
      case Last =>
        it.SeekToLast();
        LastVisibleIs(es, s, |es|, Position(it));
      case SeekTo(target) =>
        it.Seek(target);
        FirstVisibleIs(es, s, 0, Some(target), Position(it));
      case Forward =>
        if it.valid {
          it.Next();
          FirstVisibleIs(es, s, was.value + 1, None, Position(it));
        }
      case Backward =>
        if it.valid {
          it.Prev();
          LastVisibleIs(es, s, was.value, Position(it));
        }
    }
  }

  ghost function MovedAll(es: seq<Entry>, s: nat, ops: seq<CursorOp>): Option<nat>
    ensures MovedAll(es, s, ops).Some? ==> MovedAll(es, s, ops).value < |es|
  {
    if ops == [] then None else
      var cur := MovedAll(es, s, ops[..|ops| - 1]);
      MovedStays(es, s, cur, ops[|ops| - 1]);
      Moved(es, s, cur, ops[|ops| - 1])
  }

  lemma MovedStays(es: seq<Entry>, s: nat, cur: Option<nat>, op: CursorOp)
    requires cur.Some? ==> cur.value < |es|
    ensures Moved(es, s, cur, op).Some? ==> Moved(es, s, cur, op).value < |es|
  {
    FirstVisibleInRange(es, s, 0, None);
    LastVisibleInRange(es, s, |es|);
    if op.SeekTo? {
      FirstVisibleInRange(es, s, 0, Some(op.target));
    }
    if cur.Some? {
      FirstVisibleInRange(es, s, cur.value + 1, None);
      LastVisibleInRange(es, s, cur.value);
    }
  }

  lemma FirstVisibleInRange(es: seq<Entry>, s: nat, lo: nat, target: Option<UserKey>)
    ensures FirstVisible(es, s, lo, target).Some? ==> FirstVisible(es, s, lo, target).value < |es|
    decreases |es| - lo
  {
    if lo < |es| {
      FirstVisibleInRange(es, s, lo + 1, target);
    }
  }

  lemma LastVisibleInRange(es: seq<Entry>, s: nat, hi: nat)
    requires hi <= |es|
    ensures LastVisible(es, s, hi).Some? ==> LastVisible(es, s, hi).value < |es|
  {
  }

  /** After any sequence of calls from a fresh iterator, with any mix of directions, its position, key and
      value are those of the plain cursor over the snapshot's visible entries. */
  method Drive(entries: seq<Entry>, sequence: SequenceNumber, ops: seq<CursorOp>) returns (it: DbIter)
    requires Sorted(entries)
    ensures fresh(it) && it.Valid() && it.iter.entries == entries && it.sequence == sequence
    ensures Position(it) == MovedAll(entries, sequence, ops)
    ensures it.valid ==> it.Key() == entries[MovedAll(entries, sequence, ops).value].key.user
    ensures it.valid ==> it.Value() == entries[MovedAll(entries, sequence, ops).value].value
  {
    var iter := new Cursor(entries);
    it := new DbIter(iter, sequence);
    for k := 0 to |ops|
      invariant fresh(it) && fresh(it.iter) && it.Valid() && it.iter.entries == entries && it.sequence == sequence
      invariant Position(it) == MovedAll(entries, sequence, ops[..k])
    {
      assert ops[..k + 1][..k] == ops[..k];
      Call(it, ops[k]);
    }
    assert ops[..|ops|] == ops;
  }
}
