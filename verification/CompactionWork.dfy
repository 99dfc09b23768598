/** The compaction loop, its drop rules, and exactly when they preserve every read at a live snapshot. */
module CompactionWork {
  import opened InternalKeys
  import opened Versions
  import opened Compactions

  // ----- Which entries a compaction drops -----

  /** A newer entry of the same user key is already visible to every live snapshot. */
  ghost predicate Shadowed(input: seq<Entry>, i: nat, snapshot: nat)
    requires i < |input|
  {
    exists j :: 0 <= j < i && input[j].key.user == input[i].key.user && input[j].key.sequence <= snapshot
  }

  /** A tombstone every live snapshot sees, for a user key with no data below the output level. */
  ghost predicate Obsolete(e: Entry, snapshot: nat, v: Version, level: nat)
    requires WellFormed(v)
  {
    e.key.kind.Deletion? && e.key.sequence <= snapshot && !CoveredFrom(v, level + 2, e.key.user)
  }

  ghost predicate Dropped(input: seq<Entry>, i: nat, snapshot: nat, v: Version, level: nat)
    requires WellFormed(v) && i < |input|
  {
    Shadowed(input, i, snapshot) || Obsolete(input[i], snapshot, v, level)
  }

  /** What survives of the first n input entries. */
  ghost function Kept(input: seq<Entry>, n: nat, snapshot: nat, v: Version, level: nat): seq<Entry>
    requires WellFormed(v) && n <= |input|
  {
    if n == 0 then [] else
      var last := if Dropped(input, n - 1, snapshot, v, level) then [] else [input[n - 1]];
      Kept(input, n - 1, snapshot, v, level) + last
  }

  lemma KeptStep(input: seq<Entry>, i: nat, snapshot: nat, v: Version, level: nat, drop: bool)
    requires WellFormed(v) && i < |input| && (drop <==> Dropped(input, i, snapshot, v, level))
    ensures Kept(input, i + 1, snapshot, v, level)
         == Kept(input, i, snapshot, v, level) + if drop then [] else [input[i]]
  {
  }

  function Flatten(outputs: seq<seq<Entry>>): seq<Entry> {
    if outputs == [] then [] else Flatten(outputs[..|outputs| - 1]) + outputs[|outputs| - 1]
  }

  function Buffered(builder: Option<seq<Entry>>): seq<Entry> {
    if builder.Some? then builder.value else []
  }

  lemma FlattenPush(outputs: seq<seq<Entry>>, output: seq<Entry>)
    ensures Flatten(outputs + [output]) == Flatten(outputs) + output
  {
    assert (outputs + [output])[..|outputs|] == outputs;
  }

  /** Same user key, previous position: the code's running last_sequence_for_key decides shadowing. */
  lemma PreviousDecides(input: seq<Entry>, i: nat, snapshot: nat)
    requires Sorted(input) && i < |input|
    ensures Shadowed(input, i, snapshot) <==>
      i > 0 && input[i - 1].key.user == input[i].key.user && input[i - 1].key.sequence <= snapshot
  {
    if Shadowed(input, i, snapshot) {
      var j :| 0 <= j < i && input[j].key.user == input[i].key.user && input[j].key.sequence <= snapshot;
      assert j == i - 1 || Less(input[j].key, input[i - 1].key);
      assert Less(input[i - 1].key, input[i].key);
    }
  }

  ghost predicate NoneEmpty(outputs: seq<seq<Entry>>, builder: Option<seq<Entry>>) {
    (forall k :: 0 <= k < |outputs| ==> outputs[k] != []) && builder != Some([])
  }

  ghost function Written(outputs: seq<seq<Entry>>, builder: Option<seq<Entry>>): seq<Entry> {
    Flatten(outputs) + Buffered(builder)
  }

  // ----- Where outputs are cut -----

  /** The finished outputs and the open one. */
  ghost function Files(outputs: seq<seq<Entry>>, builder: Option<seq<Entry>>): seq<seq<Entry>> {
    outputs + if builder.Some? then [builder.value] else []
  }

  /** No cut was asked for behind position a and up to position b. */
  ghost predicate Uncut(stopBefore: seq<bool>, fullAfter: seq<bool>, a: int, b: int)
    requires |stopBefore| == |fullAfter| && 0 <= a && b < |stopBefore|
  {
    a < |fullAfter| && !fullAfter[a] && forall i :: a < i <= b ==> !stopBefore[i]
  }

  /** Entries that follow each other are in one output exactly when no cut was asked for between them. */
  ghost predicate CutsWhereAsked(input: seq<Entry>, stopBefore: seq<bool>, fullAfter: seq<bool>, outputs: seq<seq<Entry>>)
    requires |stopBefore| == |input| && |fullAfter| == |input|
  {
    && (forall k :: 0 <= k < |outputs| ==> outputs[k] != [] && TogetherRight(input, stopBefore, fullAfter, outputs[k]))
    && forall k :: 0 < k < |outputs| && outputs[k - 1] != [] && outputs[k] != [] ==>
         ApartRight(input, stopBefore, fullAfter, outputs[k - 1][|outputs[k - 1]| - 1], outputs[k][0])
  }

  ghost predicate TogetherRight(input: seq<Entry>, stopBefore: seq<bool>, fullAfter: seq<bool>, output: seq<Entry>)
    requires |stopBefore| == |input| && |fullAfter| == |input|
  {
    forall j, a, b :: 0 < j < |output| && 0 <= a < |input| && 0 <= b < |input| && input[a] == output[j - 1] && input[b] == output[j] ==>
      Uncut(stopBefore, fullAfter, a, b)
  }

  ghost predicate ApartRight(input: seq<Entry>, stopBefore: seq<bool>, fullAfter: seq<bool>, x: Entry, y: Entry)
    requires |stopBefore| == |input| && |fullAfter| == |input|
  {
    forall a, b :: 0 <= a < |input| && 0 <= b < |input| && input[a] == x && input[b] == y ==> !Uncut(stopBefore, fullAfter, a, b)
  }

  /** Before entry i: last is the position of the last entry written, and an output is open as long as no cut was asked for. */
  ghost predicate Cutting(input: seq<Entry>, stopBefore: seq<bool>, fullAfter: seq<bool>, files: seq<seq<Entry>>, open: bool, last: int, i: nat)
    requires |stopBefore| == |input| && |fullAfter| == |input| && i <= |input|
  {
    && CutsWhereAsked(input, stopBefore, fullAfter, files) && -1 <= last < i
    && (last == -1 ==> files == [])
    && (last >= 0 ==> files != [] && var f := files[|files| - 1]; f != [] && f[|f| - 1] == input[last])
    && (open <==> last >= 0 && Uncut(stopBefore, fullAfter, last, i - 1))
  }

  lemma SamePlace(input: seq<Entry>, a: nat, b: nat)
    requires Sorted(input) && a < |input| && b < |input| && input[a] == input[b]
    ensures a == b
  {
    assert !Less(input[a].key, input[b].key) && !Less(input[b].key, input[a].key);
  }

  lemma StaysTogether(input: seq<Entry>, stopBefore: seq<bool>, fullAfter: seq<bool>, output: seq<Entry>, last: nat, i: nat)
    requires |stopBefore| == |input| && |fullAfter| == |input| && last < i < |input| && Sorted(input)
    requires TogetherRight(input, stopBefore, fullAfter, output) && output != [] && output[|output| - 1] == input[last]
    requires Uncut(stopBefore, fullAfter, last, i)
    ensures TogetherRight(input, stopBefore, fullAfter, output + [input[i]])
  {
    hide Sorted, Uncut;
    var f := output + [input[i]];
    forall j, a, b | 0 < j < |f| && 0 <= a < |input| && 0 <= b < |input| && input[a] == f[j - 1] && input[b] == f[j]
      ensures Uncut(stopBefore, fullAfter, a, b)
    {
      assert f[j - 1] == output[j - 1];
      if j == |f| - 1 {
        SamePlace(input, a, last);
        SamePlace(input, b, i);
      } else {
        assert f[j] == output[j];
      }
    }
  }

  lemma OneEntry(input: seq<Entry>, stopBefore: seq<bool>, fullAfter: seq<bool>, i: nat)
    requires |stopBefore| == |input| && |fullAfter| == |input| && i < |input|
    ensures TogetherRight(input, stopBefore, fullAfter, [input[i]]) && [] + [input[i]] == [input[i]]
  {
  }

  lemma StaysApart(input: seq<Entry>, stopBefore: seq<bool>, fullAfter: seq<bool>, last: nat, i: nat)
    requires |stopBefore| == |input| && |fullAfter| == |input| && last < i < |input| && Sorted(input)
    requires !Uncut(stopBefore, fullAfter, last, i)
    ensures ApartRight(input, stopBefore, fullAfter, input[last], input[i])
  {
    hide Sorted, Uncut;
    forall a, b | 0 <= a < |input| && 0 <= b < |input| && input[a] == input[last] && input[b] == input[i]
      ensures !Uncut(stopBefore, fullAfter, a, b)
    {
      SamePlace(input, a, last);
      SamePlace(input, b, i);
    }
  }

  lemma LongerLast(input: seq<Entry>, stopBefore: seq<bool>, fullAfter: seq<bool>, front: seq<seq<Entry>>, output: seq<Entry>, e: Entry)
    requires |stopBefore| == |input| && |fullAfter| == |input| && output != []
    requires CutsWhereAsked(input, stopBefore, fullAfter, front + [output])
    requires TogetherRight(input, stopBefore, fullAfter, output + [e])
    ensures CutsWhereAsked(input, stopBefore, fullAfter, front + [output + [e]])
  {
    hide TogetherRight, ApartRight;
    var before, after := front + [output], front + [output + [e]];
    assert forall k :: 0 <= k < |front| ==> after[k] == before[k];
    assert after[|front|] == output + [e] && before[|front|] == output && (output + [e])[0] == output[0];
  }

  lemma OneMoreOutput(input: seq<Entry>, stopBefore: seq<bool>, fullAfter: seq<bool>, files: seq<seq<Entry>>, e: Entry)
    requires |stopBefore| == |input| && |fullAfter| == |input|
    requires CutsWhereAsked(input, stopBefore, fullAfter, files) && TogetherRight(input, stopBefore, fullAfter, [e])
    requires files != [] ==> var f := files[|files| - 1]; f != [] && ApartRight(input, stopBefore, fullAfter, f[|f| - 1], e)
    ensures CutsWhereAsked(input, stopBefore, fullAfter, files + [[e]])
  {
    hide TogetherRight, ApartRight;
    var after := files + [[e]];
    assert forall k :: 0 <= k < |files| ==> after[k] == files[k];
    assert after[|files|] == [e];
  }

  lemma UncutStep(stopBefore: seq<bool>, fullAfter: seq<bool>, a: nat, i: nat)
    requires |stopBefore| == |fullAfter| && a < i < |stopBefore|
    ensures Uncut(stopBefore, fullAfter, a, i) <==> Uncut(stopBefore, fullAfter, a, i - 1) && !stopBefore[i]
  {
  }

  lemma UncutStart(stopBefore: seq<bool>, fullAfter: seq<bool>, i: nat)
    requires |stopBefore| == |fullAfter| && i < |stopBefore|
    ensures Uncut(stopBefore, fullAfter, i, i) <==> !fullAfter[i]
  {
  }

  /** Entry i is written behind the open output or, when a cut was asked for since the last one, into a new one. */
  lemma WriteCut(input: seq<Entry>, stopBefore: seq<bool>, fullAfter: seq<bool>, done: seq<seq<Entry>>, builder: Option<seq<Entry>>,
                 stopped: seq<seq<Entry>>, left: Option<seq<Entry>>, last: int, i: nat)
    requires |stopBefore| == |input| && |fullAfter| == |input| && i < |input| && Sorted(input)
    requires Cutting(input, stopBefore, fullAfter, Files(done, builder), builder.Some?, last, i)
    requires Files(stopped, left) == Files(done, builder) && left == if stopBefore[i] then None else builder
    ensures Cutting(input, stopBefore, fullAfter, Files(stopped, left), left.Some?, last, i + 1)
    ensures Cutting(input, stopBefore, fullAfter, stopped + [Buffered(left) + [input[i]]], !fullAfter[i], i, i + 1)
  {
    hide Sorted, TogetherRight, ApartRight, CutsWhereAsked, Uncut;
    var files := Files(stopped, left);
    OneEntry(input, stopBefore, fullAfter, i);
    UncutStart(stopBefore, fullAfter, i);
    if last >= 0 {
      UncutStep(stopBefore, fullAfter, last, i);
    }
    if left.Some? {
      assert files == stopped + [left.value] && files[|stopped|] == left.value;
      LastTogether(input, stopBefore, fullAfter, stopped, left.value);
      StaysTogether(input, stopBefore, fullAfter, left.value, last, i);
      LongerLast(input, stopBefore, fullAfter, stopped, left.value, input[i]);
    } else {
      assert files == stopped;
      if last >= 0 {
        StaysApart(input, stopBefore, fullAfter, last, i);
      }
      OneMoreOutput(input, stopBefore, fullAfter, stopped, input[i]);
    }
  }

  lemma LastTogether(input: seq<Entry>, stopBefore: seq<bool>, fullAfter: seq<bool>, front: seq<seq<Entry>>, output: seq<Entry>)
    requires |stopBefore| == |input| && |fullAfter| == |input|
    requires CutsWhereAsked(input, stopBefore, fullAfter, front + [output])
    ensures TogetherRight(input, stopBefore, fullAfter, output)
  {
    hide TogetherRight, ApartRight;
    assert (front + [output])[|front|] == output;
  }

  /** FinishCompactionOutputFile. */
  method FinishOutput(outputs: seq<seq<Entry>>, builder: Option<seq<Entry>>) returns (r: seq<seq<Entry>>)
    requires NoneEmpty(outputs, builder) && builder.Some?
    ensures NoneEmpty(r, None) && Written(r, None) == Written(outputs, builder)
    ensures r == outputs + [builder.value]
  {
    FlattenPush(outputs, builder.value);
    r := outputs + [builder.value];
  }

  /** Open an output if there is none, add the entry, and close the output when it is full. */
  method AppendOutput(outputs: seq<seq<Entry>>, builder: Option<seq<Entry>>, e: Entry, full: bool)
    returns (r: seq<seq<Entry>>, b: Option<seq<Entry>>)
    requires NoneEmpty(outputs, builder)
    ensures NoneEmpty(r, b) && Written(r, b) == Written(outputs, builder) + [e]
    ensures Files(r, b) == outputs + [Buffered(builder) + [e]] && (b.Some? <==> !full)
  {
    r, b := outputs, Some(Buffered(builder) + [e]);
    assert Flatten(outputs) + (Buffered(builder) + [e]) == Written(outputs, builder) + [e];
    if full {
      r := FinishOutput(r, b);
      b := None;
    }
  }

  /** Closing an output does not change which outputs there are. */
  lemma Finished(outputs: seq<seq<Entry>>, builder: Option<seq<Entry>>, r: seq<seq<Entry>>, b: Option<seq<Entry>>)
    requires (r == outputs && b == builder) || (builder.Some? && r == outputs + [builder.value] && b == None)
    ensures Files(r, b) == Files(outputs, builder)
  {
  }

  lemma NothingWritten(input: seq<Entry>, snapshot: nat, v: Version, level: nat, stopBefore: seq<bool>, fullAfter: seq<bool>)
    requires WellFormed(v) && |stopBefore| == |input| && |fullAfter| == |input|
    ensures NoneEmpty([], None) && Written([], None) == Kept(input, 0, snapshot, v, level)
    ensures Cutting(input, stopBefore, fullAfter, Files([], None), false, -1, 0)
  {
    hide WellFormed;
  }

  /** With no output left open the finished ones are all that was written. */
  lemma AllClosed(input: seq<Entry>, stopBefore: seq<bool>, fullAfter: seq<bool>, outputs: seq<seq<Entry>>, last: int)
    requires |stopBefore| == |input| && |fullAfter| == |input| && NoneEmpty(outputs, None)
    requires exists open :: Cutting(input, stopBefore, fullAfter, Files(outputs, None), open, last, |input|)
    ensures Written(outputs, None) == Flatten(outputs)
    ensures CutsWhereAsked(input, stopBefore, fullAfter, outputs) && forall i :: 0 <= i < |outputs| ==> outputs[i] != []
  {
    hide CutsWhereAsked, Flatten;
    assert Files(outputs, None) == outputs && Flatten(outputs) + [] == Flatten(outputs);
  }

  lemma SortedAt(es: seq<Entry>, i: nat)
    requires Sorted(es) && 0 < i < |es|
    ensures Less(es[i - 1].key, es[i].key)
  {
  }

  /** DoCompactionWork: one pass over the merged inputs.  stopBefore and fullAfter are the answers of
      ShouldStopBefore and of the output-size test at each entry; any answers are allowed. */
  method DoCompactionWork(c: Compaction, input: seq<Entry>, smallestSnapshot: SequenceNumber,
                          stopBefore: seq<bool>, fullAfter: seq<bool>)
    returns (outputs: seq<seq<Entry>>)
    requires c.Valid() && c.queried == None && Sorted(input)
    requires smallestSnapshot < MAX_SEQUENCE
    requires |stopBefore| == |input| && |fullAfter| == |input|
    modifies c.levelPtrs, c`queried
    ensures Flatten(outputs) == Kept(input, |input|, smallestSnapshot, c.version, c.level)
    ensures Unique(Entries(input)) ==>
        forall e :: e in Flatten(outputs) <==> e in input && Needed(Entries(input), smallestSnapshot, c.version, c.level, e)
    ensures Sorted(Flatten(outputs))
    ensures CutsWhereAsked(input, stopBefore, fullAfter, outputs)
    ensures forall i :: 0 <= i < |outputs| ==> outputs[i] != []
  {
    hide WellFormed, Kept, Sorted, NoneEmpty, Written, Cutting, Files, CutsWhereAsked, Needed, Unique, Entries, Flatten;
    outputs := [];
    ghost var last := -1;
    NothingWritten(input, smallestSnapshot, c.version, c.level, stopBefore, fullAfter);
    var builder: Option<seq<Entry>> := None;
    var currentUserKey: Option<UserKey> := None;
    var lastSequenceForKey: SequenceNumber := MAX_SEQUENCE;
    for i := 0 to |input|
      invariant c.Valid()
      invariant c.queried.Some? ==> i > 0 && c.queried.value <= input[i - 1].key.user
      invariant currentUserKey == if i == 0 then None else Some(input[i - 1].key.user)
      invariant i > 0 ==> lastSequenceForKey == input[i - 1].key.sequence
      invariant NoneEmpty(outputs, builder)
      invariant Cutting(input, stopBefore, fullAfter, Files(outputs, builder), builder.Some?, last, i)
      invariant Written(outputs, builder) == Kept(input, i, smallestSnapshot, c.version, c.level)
    {
      hide Compaction.Valid;
      var key := input[i].key;
      if i > 0 {
        SortedAt(input, i);
      }
      ghost var before, open := outputs, builder;
      if stopBefore[i] && builder.Some? {
        outputs := FinishOutput(outputs, builder);
        builder := None;
      }
      Finished(before, open, outputs, builder);
      WriteCut(input, stopBefore, fullAfter, before, open, outputs, builder, last, i);
      var drop := false;
      if currentUserKey.None? || key.user != currentUserKey.value {
        currentUserKey := Some(key.user);
        lastSequenceForKey := MAX_SEQUENCE;
      }
      PreviousDecides(input, i, smallestSnapshot);
      if lastSequenceForKey <= smallestSnapshot {
        drop := true;
      } else if key.kind.Deletion? && key.sequence <= smallestSnapshot {
        drop := c.IsBaseLevelForKey(key.user);
      }
      KeptStep(input, i, smallestSnapshot, c.version, c.level, drop);
      lastSequenceForKey := key.sequence;
      if !drop {
        outputs, builder := AppendOutput(outputs, builder, input[i], fullAfter[i]);
        last := i;
      }
    }
    ghost var before, open := outputs, builder;
    if builder.Some? {
      outputs := FinishOutput(outputs, builder);
    }
    Finished(before, open, outputs, None);
    AllClosed(input, stopBefore, fullAfter, outputs, last);
    KeptInOrder(input, |input|, smallestSnapshot, c.version, c.level);
    if Unique(Entries(input)) {
      KeptIffNeeded(input, smallestSnapshot, c.version, c.level);
    }
  }

  // ----- What the drop rules keep -----

  ghost function Entries(es: seq<Entry>): set<Entry> {
    set e | e in es
  }

  /** What an output must have, said without the rules: some live snapshot reads e from the inputs, and if e is a
      deletion, not every live snapshot sees it or a file two levels down or deeper may hold its user key. */
  ghost predicate Needed(inputs: set<Entry>, snapshot: nat, v: Version, level: nat, e: Entry)
    requires WellFormed(v)
  {
    && (exists s :: s >= snapshot && IsNewest(inputs, e.key.user, s, e))
    && (e.key.kind.Deletion? ==>
          e.key.sequence > snapshot
          || exists l, f :: level + 2 <= l < 7 && f in v.files[l] && f.smallest.user <= e.key.user <= f.largest.user)
  }

  /** An entry that no newer one hides from the oldest live snapshot is read at some live snapshot, and conversely. */
  lemma UnshadowedIsNewest(input: seq<Entry>, i: nat, snapshot: nat)
    requires Sorted(input) && Unique(Entries(input)) && i < |input|
    ensures !Shadowed(input, i, snapshot) <==> exists s :: s >= snapshot && IsNewest(Entries(input), input[i].key.user, s, input[i])
  {
    var e := input[i];
    var s := if e.key.sequence >= snapshot then e.key.sequence else snapshot;
    if !Shadowed(input, i, snapshot) {
      forall x | x in Entries(input) && x.key.user == e.key.user && x.key.sequence <= s
        ensures x.key.sequence <= e.key.sequence
      {
        var j :| 0 <= j < |input| && input[j] == x;
        if j > i {
          assert Less(e.key, x.key);
        }
      }
      assert IsNewest(Entries(input), e.key.user, s, e);
    } else {
      var j :| 0 <= j < i && input[j].key.user == e.key.user && input[j].key.sequence <= snapshot;
      assert Less(input[j].key, e.key) && input[j] in Entries(input) && e in Entries(input);
      assert input[j].key.sequence > e.key.sequence;
    }
  }

  /** The survivors are exactly the entries needed. */
  lemma KeptIffNeeded(input: seq<Entry>, snapshot: nat, v: Version, level: nat)
    requires WellFormed(v) && Sorted(input) && Unique(Entries(input))
    ensures forall e :: e in Kept(input, |input|, snapshot, v, level) <==> e in input && Needed(Entries(input), snapshot, v, level, e)
  {
    hide WellFormed, Sorted, Unique, Shadowed, Kept, IsNewest, CoveredFrom;
    KeptMembers(input, |input|, snapshot, v, level);
    forall i | 0 <= i < |input|
      ensures Dropped(input, i, snapshot, v, level) <==> !Needed(Entries(input), snapshot, v, level, input[i])
    {
      UnshadowedIsNewest(input, i, snapshot);
      CoveredMeans(v, level + 2, input[i].key.user);
    }
  }

  lemma CoveredMeans(v: Version, lvl: nat, u: UserKey)
    requires WellFormed(v)
    ensures CoveredFrom(v, lvl, u) <==> exists l, f :: lvl <= l < 7 && f in v.files[l] && f.smallest.user <= u <= f.largest.user
  {
    hide ValidFiles, Disjoint, DistinctNumbers;
    if l, f :| lvl <= l < 7 && f in v.files[l] && f.smallest.user <= u <= f.largest.user {
      assert InRange(f, u);
    }
  }

  lemma {:induction false} KeptInOrder(input: seq<Entry>, n: nat, snapshot: nat, v: Version, level: nat)
    requires WellFormed(v) && Sorted(input) && n <= |input|
    ensures Sorted(Kept(input, n, snapshot, v, level))
  {
    hide WellFormed, Dropped;
    if n > 0 {
      KeptInOrder(input, n - 1, snapshot, v, level);
      KeptMembers(input, n - 1, snapshot, v, level);
      var kept := Kept(input, n - 1, snapshot, v, level);
      forall i | 0 <= i < |kept|
        ensures Less(kept[i].key, input[n - 1].key)
      {
        assert kept[i] in kept;
      }
    }
  }

  // ----- What the drop rules do to reads -----

  ghost function KeptSet(input: seq<Entry>, snapshot: nat, v: Version, level: nat): set<Entry>
    requires WellFormed(v)
  {
    Entries(Kept(input, |input|, snapshot, v, level))
  }

  lemma {:induction false} KeptMembers(input: seq<Entry>, n: nat, snapshot: nat, v: Version, level: nat)
    requires WellFormed(v) && n <= |input|
    ensures forall e :: e in Kept(input, n, snapshot, v, level) <==>
                        exists i :: 0 <= i < n && input[i] == e && !Dropped(input, i, snapshot, v, level)
  {
    hide WellFormed;
    if n > 0 {
      KeptMembers(input, n - 1, snapshot, v, level);
    }
  }

  /** The newest entry a live snapshot sees survives, unless it is an obsolete tombstone; then nothing of
      the user key that the snapshot sees survives. */
  lemma NewestSurvives(input: seq<Entry>, snapshot: nat, v: Version, level: nat, u: UserKey, s: nat, e: Entry)
    requires WellFormed(v) && Sorted(input) && Unique(Entries(input)) && s >= snapshot
    requires IsNewest(Entries(input), u, s, e)
    ensures !Obsolete(e, snapshot, v, level) ==> e in KeptSet(input, snapshot, v, level)
    ensures Obsolete(e, snapshot, v, level) ==>
      forall x :: x in KeptSet(input, snapshot, v, level) && x.key.user == u ==> x.key.sequence > s
  {
    hide WellFormed;
    KeptMembers(input, |input|, snapshot, v, level);
    var i :| 0 <= i < |input| && input[i] == e;
    assert !Shadowed(input, i, snapshot) by {
      forall j | 0 <= j < i && input[j].key.user == u
        ensures input[j].key.sequence > s
      {
        assert Less(input[j].key, e.key) && input[j] in Entries(input);
      }
    }
    if Obsolete(e, snapshot, v, level) {
      forall k | i <= k < |input| && input[k].key.user == u
        ensures Dropped(input, k, snapshot, v, level)
      {
        assert k == i || Shadowed(input, k, snapshot);
      }
      forall x | x in KeptSet(input, snapshot, v, level) && x.key.user == u
        ensures x.key.sequence > s
      {
        var k :| 0 <= k < |input| && input[k] == x && !Dropped(input, k, snapshot, v, level);
        assert Less(x.key, e.key) && x in Entries(input);
      }
    }
  }

  /** The one way a compaction changes a read of u: the newest entry some live snapshot sees is an obsolete
      tombstone among the inputs, while a file that is not an input holds an older value. */
  ghost predicate Resurrects(rest: set<Entry>, input: seq<Entry>, snapshot: nat, v: Version, level: nat,
                             u: UserKey, t: Entry, e: Entry)
    requires WellFormed(v)
  {
    && t in input && IsNewest(rest + Entries(input), u, snapshot, t) && Obsolete(t, snapshot, v, level)
    && IsNewest(rest, u, snapshot, e) && e.key.kind.Value?
  }

  /** A deleted value of u comes back. */
  ghost predicate Resurfaces(rest: set<Entry>, input: seq<Entry>, snapshot: nat, v: Version, level: nat, u: UserKey)
    requires WellFormed(v)
  {
    exists t, e :: Resurrects(rest, input, snapshot, v, level, u, t, e)
  }

  /** Every snapshot from the given one on reads the same for u. */
  ghost predicate SameReads(before: set<Entry>, after: set<Entry>, snapshot: nat, u: UserKey) {
    forall s :: s >= snapshot ==> Read(after, u, s) == Read(before, u, s)
  }

  /** For each user key, a compaction preserves its reads at every live snapshot exactly when no deleted value
      of that key resurfaces. */
  lemma SameReadsIffNothingResurfaces(rest: set<Entry>, input: seq<Entry>, snapshot: nat, v: Version, level: nat, u: UserKey)
    requires WellFormed(v) && Sorted(input) && Unique(rest + Entries(input))
    ensures SameReads(rest + Entries(input), rest + KeptSet(input, snapshot, v, level), snapshot, u)
       <==> !Resurfaces(rest, input, snapshot, v, level, u)
  {
    hide WellFormed;
    KeptMembers(input, |input|, snapshot, v, level);
    var before, after := rest + Entries(input), rest + KeptSet(input, snapshot, v, level);
    if Resurfaces(rest, input, snapshot, v, level, u) {
      var t, e :| Resurrects(rest, input, snapshot, v, level, u, t, e);
      assert IsNewest(Entries(input), u, snapshot, t);
      NewestSurvives(input, snapshot, v, level, u, snapshot, t);
      assert IsNewest(after, u, snapshot, e);
      ReadOfNewest(after, u, snapshot, e);
      ReadOfNewest(before, u, snapshot, t);
      assert Read(after, u, snapshot) != Read(before, u, snapshot);
    } else {
      forall s | s >= snapshot
        ensures Read(after, u, s) == Read(before, u, s)
      {
        NothingResurfacesSameRead(rest, input, snapshot, v, level, u, s);
      }
    }
  }

  lemma NothingResurfacesSameRead(rest: set<Entry>, input: seq<Entry>, snapshot: nat, v: Version, level: nat, u: UserKey, s: nat)
    requires WellFormed(v) && Sorted(input) && Unique(rest + Entries(input)) && s >= snapshot
    requires !Resurfaces(rest, input, snapshot, v, level, u)
    ensures Read(rest + KeptSet(input, snapshot, v, level), u, s) == Read(rest + Entries(input), u, s)
  {
    hide WellFormed, Read, Kept;
    KeptMembers(input, |input|, snapshot, v, level);
    var before, after := rest + Entries(input), rest + KeptSet(input, snapshot, v, level);
    var e := FindNewest(before, u, s);
    var f := FindNewest(after, u, s);
    if e.Some? && e.value !in after {
      NewestSurvives(input, snapshot, v, level, u, s, e.value);
      assert f.None? || !Resurrects(rest, input, snapshot, v, level, u, e.value, f.value);
    } else if e.Some? {
      assert f.Some? && f.value == e.value;
    }
  }

  /** e may be missing: a newer entry hides it from every live snapshot, or it is a deletion that all of them see. */
  ghost predicate Droppable(before: set<Entry>, snapshot: nat, e: Entry) {
    && e.key.sequence <= snapshot
    && (e.key.kind.Deletion? || exists x :: x in before && x.key.user == e.key.user && e.key.sequence < x.key.sequence <= snapshot)
  }

  /** Only droppable entries are missing. */
  ghost predicate Accounted(before: set<Entry>, after: set<Entry>, snapshot: nat) {
    forall e :: e in before && e !in after ==> Droppable(before, snapshot, e)
  }

  lemma DroppedIsDroppable(before: set<Entry>, input: seq<Entry>, i: nat, snapshot: nat, v: Version, level: nat)
    requires WellFormed(v) && Sorted(input) && Unique(before) && Entries(input) <= before && i < |input|
    requires Dropped(input, i, snapshot, v, level)
    ensures Droppable(before, snapshot, input[i])
  {
    hide WellFormed, CoveredFrom;
    var e := input[i];
    assert e in Entries(input);
    if j :| 0 <= j < i && input[j].key.user == e.key.user && input[j].key.sequence <= snapshot {
      var x := input[j];
      assert x in Entries(input) && Less(x.key, e.key) && x.key.sequence != e.key.sequence;
    }
  }

  /** Whatever the compaction, it drops only such entries. */
  lemma DropsAreAccounted(rest: set<Entry>, input: seq<Entry>, snapshot: nat, v: Version, level: nat)
    requires WellFormed(v) && Sorted(input) && Unique(rest + Entries(input))
    ensures Accounted(rest + Entries(input), rest + KeptSet(input, snapshot, v, level), snapshot)
  {
    hide WellFormed, Kept, Dropped, Sorted, Unique, Droppable;
    KeptMembers(input, |input|, snapshot, v, level);
    var before, after := rest + Entries(input), rest + KeptSet(input, snapshot, v, level);
    forall e | e in before && e !in after
      ensures Droppable(before, snapshot, e)
    {
      var i :| 0 <= i < |input| && input[i] == e;
      DroppedIsDroppable(before, input, i, snapshot, v, level);
    }
  }

  /** So a value that a live snapshot should see is never lost; only a deleted one can come back. */
  lemma PresentValuesStay(before: set<Entry>, after: set<Entry>, snapshot: nat, u: UserKey, s: nat)
    requires Accounted(before, after, snapshot) && after <= before && Unique(before) && s >= snapshot
    ensures Read(before, u, s).Some? ==> Read(after, u, s) == Read(before, u, s)
  {
    hide Read;
    var e := FindNewest(before, u, s);
    if e.Some? && e.value.key.kind.Value? {
      assert IsNewest(after, u, s, e.value);
      ReadOfNewest(after, u, s, e.value);
    }
  }
}
