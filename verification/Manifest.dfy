/** Version edits, the builder that applies a run of them at once, and the proof that replaying a MANIFEST
    in one pass gives the version that applying the edits one at a time gave. */
module Manifest {
  import opened InternalKeys
  import opened Versions
  import opened LevelEdits
  import opened LevelOrder

  /** The numbers an edit may record. */
  datatype Counters = Counters(logNumber: Option<nat>, prevLogNumber: Option<nat>, nextFile: Option<nat>, lastSequence: Option<nat>)

  /** VersionEdit: numbers, the (level, number) pairs it deletes and the files it adds. */
  datatype Edit = Edit(counters: Counters, deleted: set<(nat, nat)>, added: seq<(nat, File)>)

  ghost function AddsIn(added: seq<(nat, File)>, level: nat): set<File> {
    set a | a in added && a.0 == level :: a.1
  }

  ghost function DeletesIn(deleted: set<(nat, nat)>, level: nat): set<nat> {
    set d | d in deleted && d.0 == level :: d.1
  }

  ghost function Adds(e: Edit, level: nat): set<File> {
    AddsIn(e.added, level)
  }

  ghost function Deletes(e: Edit, level: nat): set<nat> {
    DeletesIn(e.deleted, level)
  }

  ghost predicate ValidEdit(e: Edit) {
    && (forall d :: d in e.deleted ==> d.0 < NUM_LEVELS)
    && (forall a :: a in e.added ==> a.0 < NUM_LEVELS)
  }

  /** BySmallestKey on every pair: the order of a level's file list and of the builder's added set. */
  ghost predicate StrictlySorted(fs: seq<File>) {
    forall i, j :: 0 <= i < j < |fs| ==> BySmallestKey(fs[i], fs[j])
  }

  /** Files are told apart by smallest key and number. */
  ghost predicate DistinctKeys(fs: set<File>) {
    forall f, g :: f in fs && g in fs && f.smallest == g.smallest && f.number == g.number ==> f == g
  }

  function Files(fs: seq<File>): set<File> {
    set f | f in fs
  }

  lemma NonEmptyFiles(fs: seq<File>)
    requires fs != []
    ensures Files(fs) != {}
  {
    assert fs[0] in Files(fs);
  }

  lemma FirstIsLeast(fs: seq<File>, f: File)
    requires StrictlySorted(fs) && fs != [] && (fs[0] in Files(fs) ==> f in Files(fs))
    ensures f == fs[0] || BySmallestKey(fs[0], f)
  {
    assert f in fs;
    var i :| 0 <= i < |fs| && fs[i] == f;
  }

  /** A strictly sorted list is determined by its files. */
  lemma {:induction false} SortedListUnique(fs: seq<File>, gs: seq<File>)
    requires StrictlySorted(fs) && StrictlySorted(gs) && Files(fs) == Files(gs)
    ensures fs == gs
  {
    if fs != [] {
      NonEmptyFiles(fs);
    }
    if gs != [] {
      NonEmptyFiles(gs);
    }
    if fs != [] && gs != [] {
      FirstIsLeast(fs, gs[0]);
      FirstIsLeast(gs, fs[0]);
      assert fs[0] == gs[0];
      forall f
        ensures f in Files(fs[1..]) <==> f in Files(gs[1..])
      {
        assert f in Files(fs) <==> f == fs[0] || f in fs[1..];
        assert f in Files(gs) <==> f == gs[0] || f in gs[1..];
        assert !BySmallestKey(fs[0], fs[0]);
      }
      SortedListUnique(fs[1..], gs[1..]);
    }
  }

  lemma {:induction false} InsertFileSorted(fs: seq<File>, f: File)
    requires StrictlySorted(fs) && f !in fs && DistinctKeys(Files(fs) + {f})
    ensures StrictlySorted(InsertFile(fs, f)) && Files(InsertFile(fs, f)) == Files(fs) + {f}
  {
    InsertFileMembers(fs, f);
    if fs == [] || BySmallestKey(f, fs[0]) {
      assert fs != [] ==> forall i :: 0 < i < |fs| ==> BySmallestKey(fs[0], fs[i]);
    } else {
      assert fs[0] in fs && BySmallestKey(fs[0], f) by {
        if AtMost(fs[0].smallest, f.smallest) && AtMost(f.smallest, fs[0].smallest) {
          AtMostAntisymmetric(fs[0].smallest, f.smallest);
        }
      }
      InsertFileSorted(fs[1..], f);
      InsertFileMembers(fs[1..], f);
      var rest := InsertFile(fs[1..], f);
      forall i | 0 <= i < |rest|
        ensures BySmallestKey(fs[0], rest[i])
      {
        assert rest[i] in rest;
      }
    }
  }

  /** The files a level keeps: the base's and the added ones whose numbers are not deleted. */
  ghost function Survivors(base: set<File>, added: set<File>, deleted: set<nat>): set<File> {
    set f | f in base + added && f.number !in deleted
  }

  // ----- SaveTo -----

  /** Equivalent under BySmallestKey. */
  predicate SameKey(f: File, g: File) {
    f.smallest == g.smallest && f.number == g.number
  }

  /** Sorted under BySmallestKey, with equivalent files side by side. */
  ghost predicate WeaklySorted(fs: seq<File>) {
    forall i, j :: 0 <= i < j < |fs| ==> !BySmallestKey(fs[j], fs[i])
  }

  lemma BySmallestKeyTotal(f: File, g: File)
    ensures BySmallestKey(f, g) || BySmallestKey(g, f) || SameKey(f, g)
    ensures !(BySmallestKey(f, g) && BySmallestKey(g, f)) && !(BySmallestKey(f, g) && SameKey(f, g))
  {
    if AtMost(f.smallest, g.smallest) && AtMost(g.smallest, f.smallest) {
      AtMostAntisymmetric(f.smallest, g.smallest);
    }
  }

  lemma BySmallestKeyMoves(f: File, g: File, h: File)
    ensures BySmallestKey(f, g) && !BySmallestKey(h, g) ==> BySmallestKey(f, h)
    ensures !BySmallestKey(g, f) && BySmallestKey(g, h) ==> BySmallestKey(f, h)
  {
    BySmallestKeyTotal(g, h);
    BySmallestKeyTotal(f, g);
  }

  /** std::upper_bound from an iterator: the first base file that sorts after f. */
  method UpperBound(base: seq<File>, from: nat, f: File) returns (r: nat)
    requires WeaklySorted(base) && from <= |base|
    ensures from <= r <= |base|
    ensures forall i :: from <= i < r ==> !BySmallestKey(f, base[i])
    ensures forall i :: r <= i < |base| ==> BySmallestKey(f, base[i])
  {
    hide BySmallestKey;
    r := from;
    while r < |base| && !BySmallestKey(f, base[r])
      invariant from <= r <= |base|
      invariant forall i :: from <= i < r ==> !BySmallestKey(f, base[i])
    {
      r := r + 1;
    }
    forall i | r < i < |base|
      ensures BySmallestKey(f, base[i])
    {
      BySmallestKeyMoves(f, base[r], base[i]);
    }
  }

  /** Base files first, up to the upper bound of each added file. */
  function Merge(base: seq<File>, added: seq<File>): seq<File> {
    if added == [] then base
    else if base != [] && !BySmallestKey(added[0], base[0]) then [base[0]] + Merge(base[1..], added)
    else [added[0]] + Merge(base, added[1..])
  }

  function Undeleted(fs: seq<File>, deleted: set<nat>): seq<File> {
    if fs == [] then [] else (if fs[0].number in deleted then [] else [fs[0]]) + Undeleted(fs[1..], deleted)
  }

  function MaybeAddFile(out: seq<File>, f: File, deleted: set<nat>): seq<File> {
    if f.number in deleted then out else out + [f]
  }

  /** One level of SaveTo: merge the added files into the base in one pass, dropping the deleted numbers. */
  method SaveLevel(base: seq<File>, added: seq<File>, deleted: set<nat>) returns (out: seq<File>)
    requires WeaklySorted(base)
    ensures out == Undeleted(Merge(base, added), deleted)
  {
    hide BySmallestKey, WeaklySorted, Merge, Undeleted;
    out := [];
    var b := 0;
    assert base[b..] == base && added[0..] == added;
    for i := 0 to |added|
      invariant b <= |base| && out + Undeleted(Merge(base[b..], added[i..]), deleted) == Undeleted(Merge(base, added), deleted)
    {
      var bound := UpperBound(base, b, added[i]);
      while b < bound
        invariant b <= bound && out + Undeleted(Merge(base[b..], added[i..]), deleted) == Undeleted(Merge(base, added), deleted)
      {
        assert base[b..][1..] == base[b + 1..];
        TakeBase(base[b..], added[i..], deleted, out);
        out := MaybeAddFile(out, base[b], deleted);
        b := b + 1;
      }
      assert added[i..][1..] == added[i + 1..];
      TakeAdded(base[b..], added[i..], deleted, out);
      out := MaybeAddFile(out, added[i], deleted);
    }
    assert added[|added|..] == [];
    while b < |base|
      invariant b <= |base| && out + Undeleted(Merge(base[b..], []), deleted) == Undeleted(Merge(base, added), deleted)
    {
      assert base[b..][1..] == base[b + 1..];
      TakeBase(base[b..], [], deleted, out);
      out := MaybeAddFile(out, base[b], deleted);
      b := b + 1;
    }
    assert base[b..] == [] && Undeleted(Merge([], []), deleted) == [] by { NothingMerged(deleted); }
    assert out + [] == out;
  }

  lemma NothingMerged(deleted: set<nat>)
    ensures Undeleted(Merge([], []), deleted) == []
  {
  }

  lemma TakeBase(base: seq<File>, added: seq<File>, deleted: set<nat>, out: seq<File>)
    requires base != [] && (added != [] ==> !BySmallestKey(added[0], base[0]))
    ensures out + Undeleted(Merge(base, added), deleted)
         == MaybeAddFile(out, base[0], deleted) + Undeleted(Merge(base[1..], added), deleted)
  {
    hide BySmallestKey;
    var rest := Merge(base[1..], added);
    assert Merge(base, added) == [base[0]] + rest;
    assert ([base[0]] + rest)[1..] == rest;
  }

  lemma TakeAdded(base: seq<File>, added: seq<File>, deleted: set<nat>, out: seq<File>)
    requires added != [] && (base != [] ==> BySmallestKey(added[0], base[0]))
    ensures out + Undeleted(Merge(base, added), deleted)
         == MaybeAddFile(out, added[0], deleted) + Undeleted(Merge(base, added[1..]), deleted)
  {
    hide BySmallestKey;
    var rest := Merge(base, added[1..]);
    assert Merge(base, added) == [added[0]] + rest;
    assert ([added[0]] + rest)[1..] == rest;
  }

  lemma {:induction false} MergeBag(base: seq<File>, added: seq<File>)
    ensures multiset(Merge(base, added)) == multiset(base) + multiset(added)
    decreases |base| + |added|
  {
    hide BySmallestKey;
    if added != [] {
      if base != [] && !BySmallestKey(added[0], base[0]) {
        MergeBag(base[1..], added);
        ConsBag(base[0], base[1..]);
        ConsBag(base[0], Merge(base[1..], added));
        assert base == [base[0]] + base[1..];
      } else {
        MergeBag(base, added[1..]);
        ConsBag(added[0], added[1..]);
        ConsBag(added[0], Merge(base, added[1..]));
        assert added == [added[0]] + added[1..];
      }
    }
  }

  lemma ConsBag(f: File, fs: seq<File>)
    ensures multiset([f] + fs) == multiset{f} + multiset(fs)
  {
  }

  lemma MergeMembers(base: seq<File>, added: seq<File>)
    ensures multiset(Merge(base, added)) == multiset(base) + multiset(added)
    ensures forall f :: f in Merge(base, added) <==> f in base || f in added
  {
    hide Merge;
    MergeBag(base, added);
    forall f
      ensures f in Merge(base, added) <==> f in base || f in added
    {
      assert f in Merge(base, added) <==> f in multiset(base) + multiset(added);
    }
  }

  lemma {:induction false} UndeletedMembers(fs: seq<File>, deleted: set<nat>)
    ensures forall f :: f in Undeleted(fs, deleted) <==> f in fs && f.number !in deleted
    ensures forall f: File :: f.number !in deleted ==> multiset(Undeleted(fs, deleted))[f] == multiset(fs)[f]
  {
    if fs != [] {
      UndeletedMembers(fs[1..], deleted);
      assert fs == [fs[0]] + fs[1..];
    }
  }

  lemma {:induction false} UndeletedStrict(fs: seq<File>, deleted: set<nat>)
    requires StrictlySorted(fs)
    ensures StrictlySorted(Undeleted(fs, deleted))
  {
    hide BySmallestKey;
    if fs != [] {
      UndeletedStrict(fs[1..], deleted);
      UndeletedMembers(fs[1..], deleted);
      var rest := Undeleted(fs[1..], deleted);
      forall i | 0 <= i < |rest|
        ensures BySmallestKey(fs[0], rest[i])
      {
        assert rest[i] in rest;
      }
    }
  }

  lemma {:induction false} UndeletedWeak(fs: seq<File>, deleted: set<nat>)
    requires WeaklySorted(fs)
    ensures WeaklySorted(Undeleted(fs, deleted))
  {
    hide BySmallestKey;
    if fs != [] {
      UndeletedWeak(fs[1..], deleted);
      UndeletedMembers(fs[1..], deleted);
      var rest := Undeleted(fs[1..], deleted);
      forall i | 0 <= i < |rest|
        ensures !BySmallestKey(rest[i], fs[0])
      {
        assert rest[i] in rest;
      }
    }
  }

  lemma {:induction false} MergeSorted(base: seq<File>, added: seq<File>)
    requires WeaklySorted(base) && WeaklySorted(added)
    ensures WeaklySorted(Merge(base, added))
    decreases |base| + |added|
  {
    hide BySmallestKey;
    if added != [] {
      if base != [] && !BySmallestKey(added[0], base[0]) {
        MergeSorted(base[1..], added);
        MergeMembers(base[1..], added);
        WeaklyFirst(base[0], base[1..], added);
      } else {
        MergeSorted(base, added[1..]);
        MergeMembers(base, added[1..]);
        if base != [] {
          BySmallestKeyTotal(added[0], base[0]);
        }
        WeaklyFirst(added[0], added[1..], base);
      }
    }
  }

  /** A file that is not after the first of two sorted lists is not after any file of them. */
  lemma WeaklyFirst(f: File, tail: seq<File>, other: seq<File>)
    requires WeaklySorted([f] + tail) && WeaklySorted(other) && (other != [] ==> !BySmallestKey(other[0], f))
    ensures forall g :: g in tail || g in other ==> !BySmallestKey(g, f)
  {
    hide BySmallestKey;
    forall g | g in tail
      ensures !BySmallestKey(g, f)
    {
      var i :| 0 <= i < |tail| && tail[i] == g;
      assert ([f] + tail)[i + 1] == g && ([f] + tail)[0] == f;
    }
    forall g | g in other
      ensures !BySmallestKey(g, f)
    {
      var i :| 0 <= i < |other| && other[i] == g;
      if i > 0 {
        BySmallestKeyMoves(g, f, other[0]);
      }
    }
  }

  lemma StrictIsWeak(fs: seq<File>)
    requires StrictlySorted(fs)
    ensures WeaklySorted(fs)
  {
    forall i, j | 0 <= i < j < |fs|
      ensures !BySmallestKey(fs[j], fs[i])
    {
      BySmallestKeyTotal(fs[i], fs[j]);
    }
  }

  /** Merging strictly sorted lists without equivalent files gives a strictly sorted list. */
  lemma {:induction false} MergeStrict(base: seq<File>, added: seq<File>)
    requires StrictlySorted(base) && StrictlySorted(added) && forall f, g :: f in base && g in added ==> !SameKey(f, g)
    ensures StrictlySorted(Merge(base, added))
    decreases |base| + |added|
  {
    hide BySmallestKey;
    if added != [] {
      StrictIsWeak(base);
      StrictIsWeak(added);
      if base != [] && !BySmallestKey(added[0], base[0]) {
        MergeStrict(base[1..], added);
        MergeMembers(base[1..], added);
        StrictlyFirst(base[0], base[1..], added);
      } else {
        MergeStrict(base, added[1..]);
        MergeMembers(base, added[1..]);
        if base != [] {
          BySmallestKeyTotal(added[0], base[0]);
        }
        assert forall g :: g in base ==> !SameKey(g, added[0]);
        StrictlyFirst(added[0], added[1..], base);
      }
    }
  }

  lemma StrictlyFirst(f: File, tail: seq<File>, other: seq<File>)
    requires StrictlySorted([f] + tail) && StrictlySorted(other) && (other != [] ==> !BySmallestKey(other[0], f))
    requires forall g :: g in other ==> !SameKey(f, g)
    ensures forall g :: g in tail || g in other ==> BySmallestKey(f, g)
  {
    StrictIsWeak([f] + tail);
    StrictIsWeak(other);
    hide BySmallestKey, SameKey;
    WeaklyFirst(f, tail, other);
    forall g | g in tail
      ensures BySmallestKey(f, g)
    {
      var i :| 0 <= i < |tail| && tail[i] == g;
      assert ([f] + tail)[i + 1] == g && ([f] + tail)[0] == f;
    }
    forall g | g in other
      ensures BySmallestKey(f, g)
    {
      BySmallestKeyTotal(f, g);
    }
  }

  // ----- The builder -----

  /** What the builder has gathered for one level. */
  datatype LevelState = LevelState(deleted: set<nat>, added: seq<File>)

  const NOTHING := LevelState({}, [])

  ghost function Numbers(fs: set<File>): set<nat> {
    set f | f in fs :: f.number
  }

  /** Some file of the list is equivalent to f. */
  predicate HasKey(fs: seq<File>, f: File) {
    exists i :: 0 <= i < |fs| && SameKey(fs[i], f)
  }

  /** std::set::insert under BySmallestKey: an equivalent file already there wins. */
  function SetInsert(fs: seq<File>, f: File): seq<File> {
    if HasKey(fs, f) then fs else InsertFile(fs, f)
  }

  lemma SetInsertSorted(fs: seq<File>, f: File)
    requires StrictlySorted(fs)
    ensures StrictlySorted(SetInsert(fs, f))
    ensures forall g :: g in SetInsert(fs, f) <==> g in fs || (g == f && !HasKey(fs, f))
  {
    if !HasKey(fs, f) {
      StrictlyDistinct(fs);
      assert forall g :: g in fs ==> !SameKey(g, f);
      InsertFileSorted(fs, f);
      InsertFileMembers(fs, f);
    }
  }

  lemma StrictlyDistinct(fs: seq<File>)
    requires StrictlySorted(fs)
    ensures DistinctKeys(Files(fs))
  {
    forall f, g | f in fs && g in fs && SameKey(f, g)
      ensures f == g
    {
      var i :| 0 <= i < |fs| && fs[i] == f;
      var j :| 0 <= j < |fs| && fs[j] == g;
      BySmallestKeyTotal(f, g);
      BySmallestKeyTotal(g, f);
    }
  }

  /** One turn of Apply's second loop. */
  function AddOne(s: LevelState, f: File): LevelState {
    LevelState(s.deleted - {f.number}, SetInsert(s.added, f))
  }

  /** Apply's second loop, as one level sees it. */
  function AddEach(s: LevelState, added: seq<(nat, File)>, level: nat): LevelState {
    if added == [] then s else
      var n := |added| - 1;
      var before := AddEach(s, added[..n], level);
      if added[n].0 == level then AddOne(before, added[n].1) else before
  }

  /** Apply: deletions first, then every added file takes its number back out of them. */
  ghost function Applied(s: LevelState, e: Edit, level: nat): LevelState {
    AddEach(LevelState(s.deleted + Deletes(e, level), s.added), e.added, level)
  }

  lemma AddsInSnoc(added: seq<(nat, File)>, i: nat, level: nat)
    requires i < |added|
    ensures AddsIn(added[..i + 1], level) == AddsIn(added[..i], level) + if added[i].0 == level then {added[i].1} else {}
    ensures AddsIn(added[..i + 1], level) <= AddsIn(added, level)
  {
    assert added[..i + 1] == added[..i] + [added[i]];
  }

  lemma AddsInLast(added: seq<(nat, File)>, level: nat)
    requires added != []
    ensures var n := |added| - 1; AddsIn(added, level) == AddsIn(added[..n], level) + if added[n].0 == level then {added[n].1} else {}
  {
    AddsInSnoc(added, |added| - 1, level);
    assert added[..|added|] == added;
  }

  /** Added files join in order, the first of each key; their numbers are no longer deleted. */
  lemma {:induction false} AddEachHolds(s: LevelState, added: seq<(nat, File)>, level: nat)
    requires StrictlySorted(s.added)
    ensures var r := AddEach(s, added, level);
      && StrictlySorted(r.added) && r.deleted == s.deleted - Numbers(AddsIn(added, level))
      && (forall f :: f in s.added ==> f in r.added)
      && (forall f :: f in r.added ==> f in s.added || f in AddsIn(added, level))
      && (forall f :: f in AddsIn(added, level) ==> HasKey(r.added, f))
  {
    hide StrictlySorted, SetInsert, SameKey;
    if added != [] {
      var n := |added| - 1;
      var f := added[n].1;
      var before := AddEach(s, added[..n], level);
      AddEachHolds(s, added[..n], level);
      AddsInLast(added, level);
      if added[n].0 == level {
        SetInsertSorted(before.added, f);
        assert Numbers(AddsIn(added[..n], level) + {f}) == Numbers(AddsIn(added[..n], level)) + {f.number};
        KeysKept(before.added, SetInsert(before.added, f));
        if !HasKey(before.added, f) {
          HasOwnKey(SetInsert(before.added, f), f);
        }
      }
    } else {
      assert AddsIn(added, level) == {} && Numbers({}) == {};
    }
  }

  lemma HasOwnKey(fs: seq<File>, f: File)
    requires f in fs
    ensures HasKey(fs, f)
  {
    var i :| 0 <= i < |fs| && fs[i] == f;
    assert SameKey(fs[i], f);
  }

  lemma KeysKept(fs: seq<File>, gs: seq<File>)
    requires forall g :: g in fs ==> g in gs
    ensures forall f :: HasKey(fs, f) ==> HasKey(gs, f)
  {
    forall f | HasKey(fs, f)
      ensures HasKey(gs, f)
    {
      var i :| 0 <= i < |fs| && SameKey(fs[i], f);
      assert fs[i] in gs;
      var j :| 0 <= j < |gs| && gs[j] == fs[i];
    }
  }

  /** Adding to a list that already has files leaves out, of what the same edit adds alone, the files with their keys. */
  lemma {:induction false} AddEachOver(s: LevelState, t: LevelState, added: seq<(nat, File)>, level: nat)
    requires StrictlySorted(s.added) && t.added == []
    ensures forall f :: f in AddEach(s, added, level).added <==>
                        f in s.added || (f in AddEach(t, added, level).added && !HasKey(s.added, f))
  {
    hide StrictlySorted, SetInsert, SameKey, HasKey;
    if added != [] {
      var n := |added| - 1;
      AddEachOver(s, t, added[..n], level);
      if added[n].0 == level {
        var f := added[n].1;
        var over, alone := AddEach(s, added[..n], level).added, AddEach(t, added[..n], level).added;
        NothingSorted();
        AddEachHolds(s, added[..n], level);
        AddEachHolds(t, added[..n], level);
        SetInsertSorted(over, f);
        SetInsertSorted(alone, f);
        KeyOver(s.added, over, alone, f);
      }
    }
  }

  lemma NothingSorted()
    ensures StrictlySorted([])
  {
  }

  lemma SameKeyHeld(fs: seq<File>, f: File, g: File)
    requires SameKey(f, g)
    ensures HasKey(fs, f) ==> HasKey(fs, g)
  {
    if i :| 0 <= i < |fs| && SameKey(fs[i], f) {
      assert SameKey(fs[i], g);
    }
  }

  lemma KeyOver(had: seq<File>, over: seq<File>, alone: seq<File>, f: File)
    requires forall g :: g in over <==> g in had || (g in alone && !HasKey(had, g))
    ensures HasKey(over, f) <==> HasKey(had, f) || HasKey(alone, f)
  {
    if i :| 0 <= i < |over| && SameKey(over[i], f) {
      assert over[i] in over;
      if over[i] in had {
        var j :| 0 <= j < |had| && had[j] == over[i];
      } else {
        var j :| 0 <= j < |alone| && alone[j] == over[i];
      }
    }
    if i :| 0 <= i < |had| && SameKey(had[i], f) {
      assert had[i] in over;
      var j :| 0 <= j < |over| && over[j] == had[i];
    } else if i :| 0 <= i < |alone| && SameKey(alone[i], f) {
      SameKeyHeld(had, alone[i], f);
      assert alone[i] in over;
      var j :| 0 <= j < |over| && over[j] == alone[i];
    }
  }

  /** The levels after some of the edit's deletions. */
  ghost predicate DeletedSome(start: seq<LevelState>, now: seq<LevelState>, done: set<(nat, nat)>) {
    && |start| == |now| == NUM_LEVELS
    && forall l :: 0 <= l < NUM_LEVELS ==> now[l] == LevelState(start[l].deleted + DeletesIn(done, l), start[l].added)
  }

  lemma DeleteOneMore(start: seq<LevelState>, now: seq<LevelState>, done: set<(nat, nat)>, d: (nat, nat))
    requires DeletedSome(start, now, done) && d.0 < NUM_LEVELS
    ensures DeletedSome(start, now[d.0 := now[d.0].(deleted := now[d.0].deleted + {d.1})], done + {d})
  {
    forall l
      ensures DeletesIn(done + {d}, l) == DeletesIn(done, l) + if d.0 == l then {d.1} else {}
    {
    }
  }

  /** The levels after all of the edit's deletions and its first i added files. */
  ghost predicate AddedSome(start: seq<LevelState>, now: seq<LevelState>, e: Edit, i: nat)
    requires i <= |e.added|
  {
    && |start| == |now| == NUM_LEVELS
    && forall l :: 0 <= l < NUM_LEVELS ==>
         now[l] == AddEach(LevelState(start[l].deleted + Deletes(e, l), start[l].added), e.added[..i], l)
  }

  lemma AddOneMore(start: seq<LevelState>, now: seq<LevelState>, e: Edit, i: nat)
    requires ValidEdit(e) && i < |e.added| && AddedSome(start, now, e, i)
    ensures e.added[i].0 < NUM_LEVELS
    ensures AddedSome(start, now[e.added[i].0 := AddOne(now[e.added[i].0], e.added[i].1)], e, i + 1)
  {
    hide AddOne;
    assert e.added[i] in e.added;
    assert e.added[..i + 1][..i] == e.added[..i];
  }

  class Builder {
    const base: Version
    var levels: seq<LevelState>

    ghost predicate Valid()
      reads this
    {
      |base.files| == NUM_LEVELS && |levels| == NUM_LEVELS && forall l :: 0 <= l < NUM_LEVELS ==> StrictlySorted(levels[l].added)
    }

    constructor (base: Version)
      requires |base.files| == NUM_LEVELS
      ensures Valid() && this.base == base
      ensures forall l :: 0 <= l < NUM_LEVELS ==> levels[l] == NOTHING
    {
      this.base := base;
      levels := seq(NUM_LEVELS, _ => NOTHING);
    }

    /** Adds an edit to what has been gathered, whatever it deletes and adds. */
    method Apply(e: Edit)
      requires Valid() && ValidEdit(e)
      modifies this
      ensures Valid()
      ensures forall l :: 0 <= l < NUM_LEVELS ==> levels[l] == Applied(old(levels)[l], e, l)
    {
      hide StrictlySorted, AddOne, AddEach, AddsIn, DeletesIn;
      ghost var start := levels;
      var rest := e.deleted;
      assert DeletedSome(start, levels, e.deleted - rest) by { NoneDeleted(start); assert e.deleted - rest == {}; }
      while rest != {}
        invariant |base.files| == NUM_LEVELS && rest <= e.deleted && DeletedSome(start, levels, e.deleted - rest)
      {
        var d :| d in rest;
        DeleteOneMore(start, levels, e.deleted - rest, d);
        levels := levels[d.0 := levels[d.0].(deleted := levels[d.0].deleted + {d.1})];
        assert e.deleted - (rest - {d}) == e.deleted - rest + {d};
        rest := rest - {d};
      }
      assert AddedSome(start, levels, e, 0) by { assert e.deleted - rest == e.deleted; NoneAdded(start, levels, e); }
      for i := 0 to |e.added|
        invariant |base.files| == NUM_LEVELS && AddedSome(start, levels, e, i)
      {
        AddOneMore(start, levels, e, i);
        levels := levels[e.added[i].0 := AddOne(levels[e.added[i].0], e.added[i].1)];
      }
      AllAdded(start, levels, e);
    }

    /** Every level of the new version: the base's files and the added ones that are not deleted, in order. */
    method SaveTo() returns (v: Version)
      requires Valid()
      requires forall l :: 0 <= l < NUM_LEVELS ==> WeaklySorted(base.files[l])
      ensures |v.files| == NUM_LEVELS
      ensures forall l :: 0 <= l < NUM_LEVELS ==> v.files[l] == Saved(base.files[l], levels[l])
    {
      hide StrictlySorted, WeaklySorted, Merge, Undeleted;
      var out: seq<seq<File>> := [];
      for level := 0 to NUM_LEVELS
        invariant |out| == level
        invariant forall l :: 0 <= l < level ==> out[l] == Saved(base.files[l], levels[l])
      {
        var fs := SaveLevel(base.files[level], levels[level].added, levels[level].deleted);
        out := out + [fs];
      }
      v := Version(out);
    }
  }

  lemma NoneDeleted(start: seq<LevelState>)
    requires |start| == NUM_LEVELS
    ensures DeletedSome(start, start, {})
  {
    assert forall l :: DeletesIn({}, l) == {};
  }

  lemma NoneAdded(start: seq<LevelState>, now: seq<LevelState>, e: Edit)
    requires DeletedSome(start, now, e.deleted)
    ensures AddedSome(start, now, e, 0)
  {
  }

  lemma AllAdded(start: seq<LevelState>, now: seq<LevelState>, e: Edit)
    requires AddedSome(start, now, e, |e.added|) && forall l :: 0 <= l < NUM_LEVELS ==> StrictlySorted(start[l].added)
    ensures forall l :: 0 <= l < NUM_LEVELS ==> now[l] == Applied(start[l], e, l) && StrictlySorted(now[l].added)
  {
    hide StrictlySorted, AddEach;
    assert e.added[..|e.added|] == e.added;
    forall l | 0 <= l < NUM_LEVELS
      ensures StrictlySorted(now[l].added)
    {
      AddEachHolds(LevelState(start[l].deleted + Deletes(e, l), start[l].added), e.added, l);
    }
  }

  lemma DistinctSubset(big: set<File>, small: set<File>)
    requires DistinctKeys(big) && small <= big
    ensures DistinctKeys(small)
  {
  }

  /** SaveTo's result for a level. */
  function Saved(base: seq<File>, s: LevelState): seq<File> {
    Undeleted(Merge(base, s.added), s.deleted)
  }

  // ----- One pass against one at a time -----

  /** The files of a level after applying the edits one version at a time. */
  ghost function Live(edits: seq<Edit>, level: nat): seq<File> {
    if edits == [] then [] else Saved(Live(edits[..|edits| - 1], level), Applied(NOTHING, edits[|edits| - 1], level))
  }

  ghost function Gathered(edits: seq<Edit>, level: nat): LevelState {
    if edits == [] then NOTHING else Applied(Gathered(edits[..|edits| - 1], level), edits[|edits| - 1], level)
  }

  /** The files of a level after one builder, over the empty version, has applied all the edits. */
  ghost function Replayed(edits: seq<Edit>, level: nat): seq<File> {
    Saved([], Gathered(edits, level))
  }

  /** Edit e gives a deleted number back to its level, but not to file f, which had it. */
  ghost predicate ReusedBy(edits: seq<Edit>, e: Edit, level: nat, f: File) {
    && f in Gathered(edits, level).added && f.number in Gathered(edits, level).deleted
    && f.number in Numbers(Adds(e, level)) && f !in Applied(NOTHING, e, level).added
  }

  ghost predicate Reuses(edits: seq<Edit>, e: Edit, level: nat) {
    exists f :: ReusedBy(edits, e, level, f)
  }

  /** Edit e adds a file that the level already holds under the same smallest key and number. */
  ghost predicate Repeats(edits: seq<Edit>, e: Edit, level: nat) {
    exists f, g :: f in Replayed(edits, level) && g in Adds(e, level) && SameKey(f, g)
  }

  /** A builder's state is sorted, and saved over nothing is its undeleted files. */
  lemma {:induction false} GatheredSorted(edits: seq<Edit>, level: nat)
    ensures StrictlySorted(Gathered(edits, level).added)
    ensures Replayed(edits, level) == Undeleted(Gathered(edits, level).added, Gathered(edits, level).deleted)
    ensures StrictlySorted(Replayed(edits, level))
  {
    hide StrictlySorted, AddEach, Undeleted;
    var s := Gathered(edits, level);
    if edits == [] {
      NothingSorted();
    } else {
      var n := |edits| - 1;
      var before := Gathered(edits[..n], level);
      GatheredSorted(edits[..n], level);
      AddEachHolds(LevelState(before.deleted + Deletes(edits[n], level), before.added), edits[n].added, level);
    }
    MergeNothing(s.added);
    UndeletedStrict(s.added, s.deleted);
  }

  lemma {:induction false} MergeNothing(added: seq<File>)
    ensures Merge([], added) == added
  {
    if added != [] {
      MergeNothing(added[1..]);
    }
  }

  /** What the next edit does to both sides. */
  lemma NextEdit(edits: seq<Edit>, e: Edit, level: nat)
    ensures var s, t, own := Gathered(edits, level), Gathered(edits + [e], level), Applied(NOTHING, e, level);
      && Live(edits + [e], level) == Saved(Live(edits, level), own)
      && t == Applied(s, e, level)
      && StrictlySorted(s.added) && StrictlySorted(t.added) && StrictlySorted(own.added)
      && (forall f :: f in t.added <==> f in s.added || (f in own.added && !HasKey(s.added, f)))
      && t.deleted == s.deleted + Deletes(e, level) - Numbers(Adds(e, level))
      && own.deleted == Deletes(e, level) - Numbers(Adds(e, level))
      && (forall f :: f in own.added ==> f in Adds(e, level))
      && (forall f :: f in Adds(e, level) ==> HasKey(own.added, f))
  {
    hide StrictlySorted, AddEach, HasKey, Saved;
    assert (edits + [e])[..|edits|] == edits;
    var s := Gathered(edits, level);
    GatheredSorted(edits, level);
    GatheredSorted(edits + [e], level);
    NothingSorted();
    var over, alone := LevelState(s.deleted + Deletes(e, level), s.added), LevelState({} + Deletes(e, level), []);
    AddEachHolds(over, e.added, level);
    AddEachHolds(alone, e.added, level);
    AddEachOver(over, alone, e.added, level);
  }

  /** One more edit keeps both ways equal exactly when it neither reuses a deleted number nor repeats a file. */
  lemma OnePassStep(edits: seq<Edit>, e: Edit, level: nat)
    requires Replayed(edits, level) == Live(edits, level)
    ensures Replayed(edits + [e], level) == Live(edits + [e], level) <==> !Reuses(edits, e, level) && !Repeats(edits, e, level)
  {
    hide StrictlySorted, Merge, Undeleted, HasKey, Applied, SameKey, Gathered;
    NextEdit(edits, e, level);
    GatheredSorted(edits, level);
    GatheredSorted(edits + [e], level);
    if Repeats(edits, e, level) {
      RepeatBreaks(edits, e, level);
    } else if Reuses(edits, e, level) {
      ReuseBreaks(edits, e, level);
    } else {
      QuietEditKeeps(edits, e, level);
    }
  }

  lemma ReuseBreaks(edits: seq<Edit>, e: Edit, level: nat)
    requires Replayed(edits, level) == Live(edits, level) && Reuses(edits, e, level)
    ensures Replayed(edits + [e], level) != Live(edits + [e], level)
  {
    hide StrictlySorted, Merge, Undeleted, HasKey, Applied, Gathered, Live;
    var s, t, own := Gathered(edits, level), Gathered(edits + [e], level), Applied(NOTHING, e, level);
    var f :| ReusedBy(edits, e, level, f);
    NextEdit(edits, e, level);
    GatheredSorted(edits, level);
    GatheredSorted(edits + [e], level);
    UndeletedMembers(s.added, s.deleted);
    UndeletedMembers(t.added, t.deleted);
    MergeMembers(Live(edits, level), own.added);
    UndeletedMembers(Merge(Live(edits, level), own.added), own.deleted);
    assert f in Replayed(edits + [e], level) && f !in Live(edits + [e], level);
  }

  lemma RepeatBreaks(edits: seq<Edit>, e: Edit, level: nat)
    requires Replayed(edits, level) == Live(edits, level) && Repeats(edits, e, level)
    ensures Replayed(edits + [e], level) != Live(edits + [e], level)
  {
    hide StrictlySorted, Merge, Undeleted, HasKey, Applied, Gathered, Live;
    var own := Applied(NOTHING, e, level);
    var live := Live(edits, level);
    NextEdit(edits, e, level);
    GatheredSorted(edits, level);
    GatheredSorted(edits + [e], level);
    var f, g0 :| f in Replayed(edits, level) && g0 in Adds(e, level) && SameKey(f, g0);
    var g := KeyHolder(own.added, g0);
    MergeMembers(live, own.added);
    var merged := Merge(live, own.added);
    UndeletedMembers(merged, own.deleted);
    assert g.number !in own.deleted && f.number !in own.deleted;
    assert multiset(live)[f] >= 1 && multiset(own.added)[g] >= 1;
    NotStrict(Undeleted(merged, own.deleted), f, g);
  }

  lemma KeyHolder(fs: seq<File>, f: File) returns (g: File)
    requires HasKey(fs, f)
    ensures g in fs && SameKey(g, f)
  {
    var i :| 0 <= i < |fs| && SameKey(fs[i], f);
    g := fs[i];
  }

  /** Two places for equivalent files, or for one file, rule out a strictly sorted list. */
  lemma NotStrict(fs: seq<File>, f: File, g: File)
    requires f in fs && g in fs && SameKey(f, g) && (f == g ==> multiset(fs)[f] >= 2)
    ensures !StrictlySorted(fs)
  {
    if StrictlySorted(fs) {
      StrictOnce(fs);
      StrictlyDistinct(fs);
    }
  }

  lemma {:induction false} StrictOnce(fs: seq<File>)
    requires StrictlySorted(fs)
    ensures forall f: File :: multiset(fs)[f] <= 1
  {
    if fs != [] {
      StrictOnce(fs[1..]);
      BySmallestKeyTotal(fs[0], fs[0]);
      assert fs == [fs[0]] + fs[1..];
      assert fs[0] !in fs[1..];
    }
  }

  lemma QuietEditKeeps(edits: seq<Edit>, e: Edit, level: nat)
    requires Replayed(edits, level) == Live(edits, level) && !Reuses(edits, e, level) && !Repeats(edits, e, level)
    ensures Replayed(edits + [e], level) == Live(edits + [e], level)
  {
    hide StrictlySorted, Merge, Undeleted, HasKey, Applied, Gathered, Live, SameKey;
    var s, t, own := Gathered(edits, level), Gathered(edits + [e], level), Applied(NOTHING, e, level);
    var live := Live(edits, level);
    NextEdit(edits, e, level);
    GatheredSorted(edits, level);
    GatheredSorted(edits + [e], level);
    MergeStrict(live, own.added);
    var merged := Merge(live, own.added);
    UndeletedStrict(merged, own.deleted);
    MergeMembers(live, own.added);
    UndeletedMembers(merged, own.deleted);
    UndeletedMembers(s.added, s.deleted);
    UndeletedMembers(t.added, t.deleted);
    forall f
      ensures f in Replayed(edits + [e], level) <==> f in Live(edits + [e], level)
    {
      assert !ReusedBy(edits, e, level, f);
      SameFile(edits, e, level, f);
    }
    SortedListUnique(Replayed(edits + [e], level), Live(edits + [e], level));
  }

  /** A file the edit adds whose key is gathered already is that gathered file, under a deleted number. */
  lemma SameFile(edits: seq<Edit>, e: Edit, level: nat, f: File)
    requires !Reuses(edits, e, level) && !Repeats(edits, e, level)
    ensures f in Applied(NOTHING, e, level).added && HasKey(Gathered(edits, level).added, f) ==>
        f in Gathered(edits, level).added && f.number in Gathered(edits, level).deleted
    ensures f in Applied(NOTHING, e, level).added ==> f.number in Numbers(Adds(e, level))
  {
    hide StrictlySorted, Merge, Undeleted, HasKey, Applied, Gathered, Live;
    var s, own := Gathered(edits, level), Applied(NOTHING, e, level);
    NextEdit(edits, e, level);
    GatheredSorted(edits, level);
    UndeletedMembers(s.added, s.deleted);
    if f in own.added && HasKey(s.added, f) {
      var g := KeyHolder(s.added, f);
      assert g.number in s.deleted;
      assert !ReusedBy(edits, e, level, g);
      StrictlyDistinct(own.added);
    }
  }

  /** Replaying a manifest in one pass gives, at every point, the files that installing the edits one by one
      gave, exactly when no deleted file number ever comes back to its level as a different file and no file is
      added while the level holds one of the same smallest key and number. */
  lemma {:induction false} OnePassIsLive(edits: seq<Edit>, level: nat)
    ensures (forall k :: 0 <= k <= |edits| ==> Replayed(edits[..k], level) == Live(edits[..k], level))
       <==> (forall k :: 0 <= k < |edits| ==> !Reuses(edits[..k], edits[k], level) && !Repeats(edits[..k], edits[k], level))
  {
    hide Live, Replayed, Reuses, Repeats;
    if forall k :: 0 <= k < |edits| ==> !Reuses(edits[..k], edits[k], level) && !Repeats(edits[..k], edits[k], level) {
      assert edits[..0] == [];
      EmptyPass(level);
      for k := 0 to |edits|
        invariant forall j :: 0 <= j <= k ==> Replayed(edits[..j], level) == Live(edits[..j], level)
      {
        OnePassStep(edits[..k], edits[k], level);
        assert edits[..k + 1] == edits[..k] + [edits[k]];
      }
    } else {
      var k :| 0 <= k < |edits| && (Reuses(edits[..k], edits[k], level) || Repeats(edits[..k], edits[k], level));
      assert edits[..k + 1] == edits[..k] + [edits[k]];
      if Replayed(edits[..k], level) == Live(edits[..k], level) {
        OnePassStep(edits[..k], edits[k], level);
      }
    }
  }

  lemma EmptyPass(level: nat)
    ensures Replayed([], level) == Live([], level) == []
  {
  }

  const NO_COUNTERS := Counters(None, None, None, None)

  function AddEdit(level: nat, f: File): Edit {
    Edit(NO_COUNTERS, {}, [(level, f)])
  }

  function DeleteEdit(level: nat, number: nat): Edit {
    Edit(NO_COUNTERS, {(level, number)}, [])
  }

  lemma OneFileAdded(s: LevelState, level: nat, f: File)
    ensures Applied(s, AddEdit(level, f), level) == AddOne(s, f)
  {
    var e := AddEdit(level, f);
    assert Deletes(e, level) == {} && s.deleted + {} == s.deleted;
    assert e.added[..0] == [] && AddEach(s, [], level) == s;
    assert AddEach(s, e.added, level) == AddOne(AddEach(s, e.added[..0], level), f);
  }

  lemma OneNumberDeleted(s: LevelState, level: nat, number: nat)
    ensures Applied(s, DeleteEdit(level, number), level) == LevelState(s.deleted + {number}, s.added)
  {
    var e := DeleteEdit(level, number);
    assert Deletes(e, level) == {number} by {
      assert (level, number) in e.deleted;
    }
  }

  lemma EditSnoc(edits: seq<Edit>, e: Edit, level: nat)
    ensures Live(edits + [e], level) == Saved(Live(edits, level), Applied(NOTHING, e, level))
    ensures Gathered(edits + [e], level) == Applied(Gathered(edits, level), e, level)
  {
    assert (edits + [e])[..|edits|] == edits;
  }

  lemma NoEdits(level: nat)
    ensures Live([], level) == [] && Gathered([], level) == NOTHING
  {
  }

  lemma TwoEdits(a: Edit, b: Edit, level: nat)
    ensures Live([a, b], level) == Saved(Saved([], Applied(NOTHING, a, level)), Applied(NOTHING, b, level))
    ensures Gathered([a, b], level) == Applied(Applied(NOTHING, a, level), b, level)
  {
    hide Saved, Applied, Live, Gathered;
    NoEdits(level);
    EditSnoc([], a, level);
    EditSnoc([a], b, level);
    assert [] + [a] == [a] && [a] + [b] == [a, b];
  }

  lemma {:induction false} UndeletedAll(fs: seq<File>)
    ensures Undeleted(fs, {}) == fs
  {
    if fs != [] {
      UndeletedAll(fs[1..]);
    }
  }

  /** A file added twice is in the live level twice, and is replayed once. */
  lemma RepeatedFileReplaysOnce(level: nat, f: File)
    ensures Live([AddEdit(level, f), AddEdit(level, f)], level) == [f, f]
    ensures Replayed([AddEdit(level, f), AddEdit(level, f)], level) == [f]
  {
    hide Applied;
    var e := AddEdit(level, f);
    var once := LevelState({}, [f]);
    TwoEdits(e, e, level);
    OneFileAdded(NOTHING, level, f);
    OneFileAdded(once, level, f);
    BySmallestKeyTotal(f, f);
    HasOwnKey([f], f);
    assert AddOne(NOTHING, f) == AddOne(once, f) == once;
    MergeNothing([f]);
    assert [f][1..] == [] && Merge([f], [f]) == [f] + Merge([], [f]) == [f, f];
    UndeletedAll([f]);
    UndeletedAll([f, f]);
  }

  /** A deleted file comes back in the replay once its number is given to another file. */
  lemma ReusedNumberReplaysBoth(level: nat, f: File, g: File)
    requires f.number == g.number && BySmallestKey(f, g)
    ensures Live([AddEdit(level, f), DeleteEdit(level, f.number), AddEdit(level, g)], level) == [g]
    ensures Replayed([AddEdit(level, f), DeleteEdit(level, f.number), AddEdit(level, g)], level) == [f, g]
  {
    hide Applied;
    var a, d, b, n := AddEdit(level, f), DeleteEdit(level, f.number), AddEdit(level, g), f.number;
    TwoEdits(a, d, level);
    EditSnoc([a, d], b, level);
    assert [a, d] + [b] == [a, d, b];
    OneFileAdded(NOTHING, level, f);
    OneNumberDeleted(NOTHING, level, n);
    OneNumberDeleted(LevelState({}, [f]), level, n);
    assert {} + {n} == {n};
    OneFileAdded(NOTHING, level, g);
    OneFileAdded(LevelState({n}, [f]), level, g);
    BySmallestKeyTotal(f, g);
    assert AddOne(NOTHING, f) == LevelState({}, [f]) && AddOne(NOTHING, g) == LevelState({}, [g]);
    assert !HasKey([f], g);
    assert AddOne(LevelState({n}, [f]), g) == LevelState({}, [f, g]);
    MergeNothing([f]);
    MergeNothing([g]);
    MergeNothing([f, g]);
    UndeletedAll([f]);
    UndeletedAll([g]);
    UndeletedAll([f, g]);
    assert [f][1..] == [] && Undeleted([f], {n}) == [];
    assert Merge([f], []) == [f];
    assert Live([a, d], level) == [];
  }

  lemma {:induction false} LiveSorted(edits: seq<Edit>, level: nat)
    ensures WeaklySorted(Live(edits, level))
  {
    hide WeaklySorted, StrictlySorted, AddEach, Merge, Undeleted;
    if edits == [] {
      StrictIsWeak([]) by { NothingSorted(); }
    } else {
      var n := |edits| - 1;
      var own := Applied(NOTHING, edits[n], level);
      LiveSorted(edits[..n], level);
      NothingSorted();
      AddEachHolds(LevelState({} + Deletes(edits[n], level), []), edits[n].added, level);
      StrictIsWeak(own.added);
      MergeSorted(Live(edits[..n], level), own.added);
      UndeletedWeak(Merge(Live(edits[..n], level), own.added), own.deleted);
    }
  }

  /** Both ways of reaching a version, as the builder's methods run them, from any edits. */
  method ApplyBothWays(edits: seq<Edit>) returns (live: Version, replayed: Version)
    requires forall i :: 0 <= i < |edits| ==> ValidEdit(edits[i])
    ensures |live.files| == |replayed.files| == NUM_LEVELS
    ensures forall l :: 0 <= l < NUM_LEVELS ==> live.files[l] == Live(edits, l) && replayed.files[l] == Replayed(edits, l)
  {
    hide WeaklySorted, StrictlySorted, AddEach, Merge, Undeleted, ValidEdit, Saved, Applied;
    var empty := Version([[], [], [], [], [], [], []]);
    var all := new Builder(empty);
    live := empty;
    for i := 0 to |edits|
      invariant fresh(all) && all.Valid() && all.base == empty && |live.files| == NUM_LEVELS
      invariant forall l :: 0 <= l < NUM_LEVELS ==> live.files[l] == Live(edits[..i], l) && all.levels[l] == Gathered(edits[..i], l)
    {
      assert edits[..i + 1][..i] == edits[..i];
      forall l | 0 <= l < NUM_LEVELS
        ensures WeaklySorted(live.files[l])
      {
        LiveSorted(edits[..i], l);
      }
      var one := new Builder(live);
      one.Apply(edits[i]);
      live := one.SaveTo();
      all.Apply(edits[i]);
    }
    assert edits[..|edits|] == edits;
    StrictIsWeak([]) by { NothingSorted(); }
    replayed := all.SaveTo();
  }

  // ----- Logging edits and recovering from them -----

  function Latest(a: Option<nat>, b: Option<nat>): Option<nat> {
    if b.Some? then b else a
  }

  function Update(a: Counters, b: Counters): Counters {
    Counters(Latest(a.logNumber, b.logNumber), Latest(a.prevLogNumber, b.prevLogNumber),
             Latest(a.nextFile, b.nextFile), Latest(a.lastSequence, b.lastSequence))
  }

  /** Of every number, the last one recorded. */
  ghost function Recorded(edits: seq<Edit>): Counters {
    if edits == [] then Counters(None, None, None, None)
    else Update(Recorded(edits[..|edits| - 1]), edits[|edits| - 1].counters)
  }

  /** A file number names one file. */
  ghost predicate NumbersName(fs: set<File>) {
    forall f, g :: f in fs && g in fs && f.number == g.number ==> f == g
  }

  ghost predicate SortedLevels(v: Version) {
    |v.files| == NUM_LEVELS && forall l :: 0 <= l < NUM_LEVELS ==> StrictlySorted(v.files[l])
  }

  /** Level l of the version, as the manifest's edits give it. */
  ghost predicate LevelOnDisk(v: Version, edits: seq<Edit>, nextFile: nat, l: nat)
    requires |v.files| == NUM_LEVELS && l < NUM_LEVELS
  {
    && NumbersName(Files(Gathered(edits, l).added))
    && v.files[l] == Live(edits, l) == Replayed(edits, l)
    && forall f :: f in Files(v.files[l]) ==> f.number < nextFile
  }

  ghost predicate OnDisk(v: Version, edits: seq<Edit>, nextFile: nat) {
    && |v.files| == NUM_LEVELS
    && (forall i :: 0 <= i < |edits| ==> ValidEdit(edits[i]))
    && (forall l :: 0 <= l < NUM_LEVELS ==> LevelOnDisk(v, edits, nextFile, l))
  }

  /** A new edit's files are new to their levels and their numbers are in use for no other file. */
  ghost predicate FreshAt(v: Version, known: set<File>, nextFile: nat, e: Edit, l: nat)
    requires |v.files| == NUM_LEVELS && l < NUM_LEVELS
  {
    && Files(v.files[l]) !! Adds(e, l) && NumbersName(known + Files(v.files[l]) + Adds(e, l))
    && forall f :: f in Adds(e, l) ==> f.number < nextFile
  }

  lemma NamedFilesDistinct(fs: set<File>)
    requires NumbersName(fs)
    ensures DistinctKeys(fs)
  {
  }

  lemma RecordedSnoc(edits: seq<Edit>, e: Edit)
    ensures Recorded(edits + [e]) == Update(Recorded(edits), e.counters)
  {
    assert (edits + [e])[..|edits|] == edits;
  }

  /** An edit whose files are new to the level changes it as sets of files say. */
  lemma FreshInstalls(v: Version, known: set<File>, nextFile: nat, e: Edit, l: nat)
    requires |v.files| == NUM_LEVELS && l < NUM_LEVELS && StrictlySorted(v.files[l]) && FreshAt(v, known, nextFile, e, l)
    ensures var own := Applied(NOTHING, e, l);
      && Files(own.added) == Adds(e, l)
      && StrictlySorted(Saved(v.files[l], own))
      && Files(Saved(v.files[l], own)) == Survivors(Files(v.files[l]), Adds(e, l), Deletes(e, l) - Numbers(Adds(e, l)))
  {
    hide StrictlySorted, Merge, Undeleted, AddEach, BySmallestKey;
    var own := Applied(NOTHING, e, l);
    var fs := v.files[l];
    NothingSorted();
    AddEachHolds(LevelState({} + Deletes(e, l), []), e.added, l);
    forall f | f in Adds(e, l)
      ensures f in own.added
    {
      var g := KeyHolder(own.added, f);
    }
    forall f, g | f in fs && g in own.added
      ensures !SameKey(f, g)
    {
      assert f in Files(fs) && g in Adds(e, l);
    }
    MergeStrict(fs, own.added);
    UndeletedStrict(Merge(fs, own.added), own.deleted);
    MergeMembers(fs, own.added);
    UndeletedMembers(Merge(fs, own.added), own.deleted);
  }

  lemma FreshIsQuiet(v: Version, edits: seq<Edit>, nextFile: nat, e: Edit, l: nat)
    requires |v.files| == NUM_LEVELS && l < NUM_LEVELS
    requires v.files[l] == Replayed(edits, l) && FreshAt(v, Files(Gathered(edits, l).added), nextFile, e, l)
    ensures !Reuses(edits, e, l) && !Repeats(edits, e, l)
  {
    hide StrictlySorted, Merge, Undeleted, Gathered;
    GatheredSorted(edits, l);
    FreshInstalls(v, Files(Gathered(edits, l).added), nextFile, e, l);
    forall f | f in Gathered(edits, l).added && f.number in Numbers(Adds(e, l))
      ensures f in Applied(NOTHING, e, l).added
    {
      var g :| g in Adds(e, l) && g.number == f.number;
      assert f in Files(Gathered(edits, l).added) && g in Files(Applied(NOTHING, e, l).added);
    }
    forall f, g | f in Replayed(edits, l) && g in Adds(e, l)
      ensures !SameKey(f, g)
    {
      assert f in Files(v.files[l]);
    }
  }

  /** Installing one more edit keeps the manifest an account of the version. */
  lemma LevelStaysOnDisk(v: Version, w: Version, edits: seq<Edit>, nextFile: nat, e: Edit, l: nat)
    requires |v.files| == |w.files| == NUM_LEVELS && l < NUM_LEVELS
    requires LevelOnDisk(v, edits, nextFile, l) && FreshAt(v, Files(Gathered(edits, l).added), nextFile, e, l)
    requires w.files[l] == Saved(v.files[l], Applied(NOTHING, e, l))
    ensures LevelOnDisk(w, edits + [e], nextFile, l) && NumbersName(Files(w.files[l]))
  {
    hide StrictlySorted, Applied, Saved, Gathered;
    GatheredSorted(edits, l);
    FreshInstalls(v, Files(Gathered(edits, l).added), nextFile, e, l);
    FreshIsQuiet(v, edits, nextFile, e, l);
    OnePassStep(edits, e, l);
    NextEdit(edits, e, l);
    assert Files(Gathered(edits + [e], l).added) <= Files(Gathered(edits, l).added) + Adds(e, l);
  }

  /** WriteSnapshot: one edit that adds every file of the version. */
  method Snapshot(v: Version) returns (e: Edit)
    requires |v.files| == NUM_LEVELS
    ensures ValidEdit(e) && e.deleted == {} && e.counters == Counters(None, None, None, None)
    ensures forall l :: 0 <= l < NUM_LEVELS ==> Adds(e, l) == Files(v.files[l])
  {
    var added: seq<(nat, File)> := [];
    for level := 0 to NUM_LEVELS
      invariant forall a :: a in added <==> a.0 < level && a.1 in v.files[a.0]
    {
      for i := 0 to |v.files[level]|
        invariant forall a :: a in added <==> (a.0 < level && a.1 in v.files[a.0]) || (a.0 == level && a.1 in v.files[level][..i])
      {
        added := added + [(level, v.files[level][i])];
      }
      assert v.files[level][..|v.files[level]|] == v.files[level];
    }
    e := Edit(Counters(None, None, None, None), {}, added);
    forall l, f | 0 <= l < NUM_LEVELS
      ensures f in Adds(e, l) <==> f in Files(v.files[l])
    {
      assert (l, f) in added <==> f in v.files[l];
    }
  }

  lemma SnapshotOnDisk(v: Version, e: Edit, nextFile: nat)
    requires SortedLevels(v) && ValidEdit(e) && e.deleted == {}
    requires forall l :: 0 <= l < NUM_LEVELS ==> Adds(e, l) == Files(v.files[l])
    requires forall l :: 0 <= l < NUM_LEVELS ==> NumbersName(Files(v.files[l])) && forall f :: f in Files(v.files[l]) ==> f.number < nextFile
    ensures OnDisk(v, [e], nextFile)
    ensures forall l :: 0 <= l < NUM_LEVELS ==> Files(Gathered([e], l).added) == Files(v.files[l])
  {
    hide StrictlySorted, AddEach, Saved;
    var empty := Version([[], [], [], [], [], [], []]);
    forall l | 0 <= l < NUM_LEVELS
      ensures LevelOnDisk(v, [e], nextFile, l) && Files(Gathered([e], l).added) == Files(v.files[l])
    {
      NothingSorted();
      EmptyLevel(empty.files[l]);
      EmptyPass(l);
      GatheredNothing(l);
      assert FreshAt(empty, {}, nextFile, e, l) && [] + [e] == [e];
      LevelStaysOnDisk(empty, Version(seq(NUM_LEVELS, i requires 0 <= i < NUM_LEVELS => Saved([], Applied(NOTHING, e, i)))), [], nextFile, e, l);
      FreshInstalls(empty, {}, nextFile, e, l);
      NextEdit([], e, l);
      assert Deletes(e, l) == {} && {} - Numbers(Adds(e, l)) == {};
      SortedListUnique(Saved([], Applied(NOTHING, e, l)), v.files[l]);
    }
  }

  lemma GatheredNothing(l: nat)
    ensures Gathered([], l) == NOTHING && Files(NOTHING.added) == {}
  {
  }

  /** The numbers LogAndApply fills in before it writes the edit. */
  function Completed(c: Counters, logNumber: nat, prevLogNumber: nat, nextFile: nat, lastSequence: nat): Counters {
    Counters(if c.logNumber.Some? then c.logNumber else Some(logNumber),
             if c.prevLogNumber.Some? then c.prevLogNumber else Some(prevLogNumber),
             Some(nextFile), Some(lastSequence))
  }

  ghost predicate Numbered(v: Version, nextFile: nat)
    requires |v.files| == NUM_LEVELS
  {
    forall l :: 0 <= l < NUM_LEVELS ==> NumbersName(Files(v.files[l])) && forall f :: f in Files(v.files[l]) ==> f.number < nextFile
  }

  /** The manifest tells a recovering process everything this one knows. */
  ghost predicate Accounts(edits: seq<Edit>, v: Version, logNumber: nat, prevLogNumber: nat, nextFile: nat, lastSequence: nat) {
    var c := Recorded(edits);
    && c.logNumber == Some(logNumber) && c.prevLogNumber == Some(prevLogNumber)
    && c.nextFile.Some? && c.nextFile.value <= nextFile
    && c.lastSequence.Some? && c.lastSequence.value <= lastSequence
    && OnDisk(v, edits, c.nextFile.value)
  }

  /** w is v with one edit applied: its deletions first, then its added files. */
  ghost predicate Installs(v: Version, e: Edit, w: Version)
    requires |v.files| == |w.files| == NUM_LEVELS
  {
    forall l :: 0 <= l < NUM_LEVELS ==>
      Files(w.files[l]) == Survivors(Files(v.files[l]), Adds(e, l), Deletes(e, l) - Numbers(Adds(e, l)))
  }

  lemma EditInstalled(v: Version, w: Version, edits: seq<Edit>, before: nat, nextFile: nat, e: Edit)
    requires OnDisk(v, edits, before) && before <= nextFile && |w.files| == NUM_LEVELS && ValidEdit(e)
    requires forall l :: 0 <= l < NUM_LEVELS ==> FreshAt(v, Files(Gathered(edits, l).added), nextFile, e, l)
    requires forall l :: 0 <= l < NUM_LEVELS ==> w.files[l] == Saved(v.files[l], Applied(NOTHING, e, l))
    ensures OnDisk(w, edits + [e], nextFile) && Numbered(w, nextFile)
  {
    hide FreshAt, Gathered, Live, Replayed, ValidEdit, NumbersName, Applied, Saved;
    forall l | 0 <= l < NUM_LEVELS
      ensures LevelOnDisk(w, edits + [e], nextFile, l) && NumbersName(Files(w.files[l]))
    {
      assert LevelOnDisk(v, edits, before, l);
      assert LevelOnDisk(v, edits, nextFile, l);
      LevelStaysOnDisk(v, w, edits, nextFile, e, l);
    }
  }

  /** A builder over v that applies one edit. */
  method BuildOne(v: Version, ghost nextFile: nat, e: Edit) returns (w: Version)
    requires SortedLevels(v) && ValidEdit(e)
    requires forall l :: 0 <= l < NUM_LEVELS ==> FreshAt(v, {}, nextFile, e, l)
    ensures SortedLevels(w) && Installs(v, e, w)
    ensures forall l :: 0 <= l < NUM_LEVELS ==> w.files[l] == Saved(v.files[l], Applied(NOTHING, e, l))
  {
    hide StrictlySorted, WeaklySorted, NumbersName, FreshAt, Files, AddsIn, Saved, Applied;
    var builder := new Builder(v);
    forall l | 0 <= l < NUM_LEVELS
      ensures WeaklySorted(v.files[l])
    {
      StrictIsWeak(v.files[l]);
    }
    builder.Apply(e);
    w := builder.SaveTo();
    forall l | 0 <= l < NUM_LEVELS
      ensures StrictlySorted(w.files[l])
      ensures Files(w.files[l]) == Survivors(Files(v.files[l]), Adds(e, l), Deletes(e, l) - Numbers(Adds(e, l)))
    {
      FreshInstalls(v, {}, nextFile, e, l);
    }
  }

  lemma KnownStaysFresh(v: Version, known: set<File>, fewer: set<File>, nextFile: nat, edit: Edit, e: Edit, l: nat)
    requires |v.files| == NUM_LEVELS && l < NUM_LEVELS && FreshAt(v, known, nextFile, edit, l) && e.added == edit.added
    requires fewer <= known + Files(v.files[l])
    ensures FreshAt(v, fewer, nextFile, e, l)
  {
  }

  lemma RecordedAccounts(v: Version, w: Version, records: seq<Edit>, edit: Edit, e: Edit,
                         logNumber: nat, prevLogNumber: nat, nextFile: nat, lastSequence: nat)
    requires |v.files| == |w.files| == NUM_LEVELS
    requires e == edit.(counters := Completed(edit.counters, logNumber, prevLogNumber, nextFile, lastSequence))
    ensures Installs(v, e, w) ==> Installs(v, edit, w)
    ensures OnDisk(w, records + [e], nextFile) ==>
        Accounts(records + [e], w, e.counters.logNumber.value, e.counters.prevLogNumber.value, nextFile, lastSequence)
    ensures Recorded(records + [e]).nextFile == Some(nextFile) && Recorded(records + [e]).lastSequence == Some(lastSequence)
  {
    hide OnDisk;
    RecordedSnoc(records, e);
  }

  lemma EmptyLevel(fs: seq<File>)
    requires fs == []
    ensures StrictlySorted(fs) && Files(fs) == {}
  {
  }

  /** Applies every record to one builder, and keeps the last of every number. */
  method Gather(base: Version, records: seq<Edit>) returns (builder: Builder, c: Counters)
    requires |base.files| == NUM_LEVELS
    requires forall i :: 0 <= i < |records| ==> ValidEdit(records[i])
    ensures fresh(builder) && builder.Valid() && builder.base == base && c == Recorded(records)
    ensures forall l :: 0 <= l < NUM_LEVELS ==> builder.levels[l] == Gathered(records, l)
  {
    hide StrictlySorted, Files, AddsIn, ValidEdit, Applied;
    builder := new Builder(base);
    c := Counters(None, None, None, None);
    for i := 0 to |records|
      invariant fresh(builder) && builder.Valid() && builder.base == base && c == Recorded(records[..i])
      invariant forall l :: 0 <= l < NUM_LEVELS ==> builder.levels[l] == Gathered(records[..i], l)
    {
      assert records[..i + 1] == records[..i] + [records[i]];
      assert records[..i + 1][..i] == records[..i];
      RecordedSnoc(records[..i], records[i]);
      builder.Apply(records[i]);
      c := Update(c, records[i].counters);
    }
    assert records[..|records|] == records;
  }

  /** Adds every file of the version and records nothing else. */
  ghost predicate IsSnapshot(e: Edit, v: Version) {
    && e.deleted == {} && e.counters == Counters(None, None, None, None)
    && |v.files| == 7 && forall l :: 0 <= l < 7 ==> Adds(e, l) == Files(v.files[l])
  }

  class VersionSet {
    var current: Version
    var logNumber: nat
    var prevLogNumber: nat
    var nextFile: nat
    var lastSequence: nat
    var manifest: Option<seq<Edit>>  // the records of the descriptor log, once there is one

    ghost predicate Valid()
      reads this
    {
      && SortedLevels(current) && Numbered(current, nextFile)
      && (manifest.Some? ==> Accounts(manifest.value, current, logNumber, prevLogNumber, nextFile, lastSequence))
    }

    ghost function Known(l: nat): set<File>
      reads this
    {
      if manifest.Some? then Files(Gathered(manifest.value, l).added) else {}
    }

    constructor ()
      ensures Valid() && manifest.None? && current == Version([[], [], [], [], [], [], []])
      ensures logNumber == prevLogNumber == lastSequence == 0 && nextFile == 2
    {
      current := Version([[], [], [], [], [], [], []]);
      logNumber, prevLogNumber, nextFile, lastSequence, manifest := 0, 0, 2, 0, None;
    }

    /** The descriptor log's records; the first call starts them with a snapshot of the current version. */
    method Descriptor() returns (records: seq<Edit>, ghost before: nat)
      requires Valid()
      ensures OnDisk(current, records, before) && before <= nextFile
      ensures manifest.Some? ==> records == manifest.value
      ensures manifest.None? ==> |records| == 1 && IsSnapshot(records[0], current)
      ensures forall l :: 0 <= l < NUM_LEVELS ==> Files(Gathered(records, l).added) <= Known(l) + Files(current.files[l])
    {
      hide StrictlySorted, Gathered, Live, Replayed;
      if manifest.None? {
        var snapshot := Snapshot(current);
        SnapshotOnDisk(current, snapshot, nextFile);
        records, before := [snapshot], nextFile;
      } else {
        records, before := manifest.value, Recorded(manifest.value).nextFile.value;
      }
    }

    /** Installs an edit once it is durable. */
    method LogAndApply(edit: Edit)
      requires Valid() && ValidEdit(edit)
      requires forall l :: 0 <= l < NUM_LEVELS ==> FreshAt(current, Known(l), nextFile, edit, l)
      modifies this
      ensures Valid() && manifest.Some?
      ensures Installs(old(current), edit, current)
      ensures nextFile == old(nextFile) && lastSequence == old(lastSequence)
      ensures Some(logNumber) == Latest(Some(old(logNumber)), edit.counters.logNumber)
      ensures Some(prevLogNumber) == Latest(Some(old(prevLogNumber)), edit.counters.prevLogNumber)
      ensures Recorded(manifest.value).nextFile == Some(nextFile) && Recorded(manifest.value).lastSequence == Some(lastSequence)
      ensures var n := if old(manifest).Some? then |old(manifest).value| else 1;
        && |manifest.value| == n + 1
        && (if old(manifest).Some? then manifest.value[..n] == old(manifest).value else IsSnapshot(manifest.value[0], old(current)))
        && manifest.value[n] == edit.(counters := Counters(Some(logNumber), Some(prevLogNumber), Some(nextFile), Some(lastSequence)))
    {
      hide StrictlySorted, NumbersName, Gathered, Live, Replayed, FreshAt, Files, AddsIn, Survivors, OnDisk, Accounts, Recorded, Installs, Numbered,
           Saved, Applied;
      var e := edit.(counters := Completed(edit.counters, logNumber, prevLogNumber, nextFile, lastSequence));
      assert ValidEdit(e);
      forall l | 0 <= l < NUM_LEVELS
        ensures FreshAt(current, {}, nextFile, e, l)
      {
        KnownStaysFresh(current, Known(l), {}, nextFile, edit, e, l);
      }
      var v := BuildOne(current, nextFile, e);
      var records, before := Descriptor();
      forall l | 0 <= l < NUM_LEVELS
        ensures FreshAt(current, Files(Gathered(records, l).added), nextFile, e, l)
      {
        KnownStaysFresh(current, Known(l), Files(Gathered(records, l).added), nextFile, edit, e, l);
      }
      EditInstalled(current, v, records, before, nextFile, e);
      RecordedAccounts(current, v, records, edit, e, logNumber, prevLogNumber, nextFile, lastSequence);
      manifest := Some(records + [e]);
      current, logNumber, prevLogNumber := v, e.counters.logNumber.value, e.counters.prevLogNumber.value;
    }

    /** Reads the records back into a fresh version set with one builder. */
    method Recover(records: seq<Edit>) returns (ok: bool)
      requires Valid() && manifest.None? && forall l :: 0 <= l < NUM_LEVELS ==> current.files[l] == []
      requires forall i :: 0 <= i < |records| ==> ValidEdit(records[i])
      modifies this
      ensures ok <==> Recorded(records).nextFile.Some? && Recorded(records).logNumber.Some? && Recorded(records).lastSequence.Some?
      ensures manifest == old(manifest)
      ensures !ok ==> current == old(current) && (lastSequence, logNumber, prevLogNumber) == old((lastSequence, logNumber, prevLogNumber))
      ensures ok ==> SortedLevels(current) && forall l :: 0 <= l < NUM_LEVELS ==> current.files[l] == Replayed(records, l)
      ensures ok ==> logNumber == Recorded(records).logNumber.value && lastSequence == Recorded(records).lastSequence.value
      ensures ok ==> nextFile == Recorded(records).nextFile.value + 1
      ensures ok ==> Some(prevLogNumber) == Latest(Some(0), Recorded(records).prevLogNumber)
    {
      hide StrictlySorted, WeaklySorted, NumbersName, Files, AddsIn, Gathered;
      var builder, c := Gather(current, records);
      forall l | 0 <= l < NUM_LEVELS
        ensures WeaklySorted(builder.base.files[l]) && StrictlySorted(Replayed(records, l))
      {
        NothingSorted();
        StrictIsWeak([]);
        GatheredSorted(records, l);
      }
      nextFile := MarkUsed(MarkUsed(nextFile, Latest(Some(0), c.prevLogNumber).value), Latest(Some(0), c.logNumber).value);
      if c.nextFile.None? || c.logNumber.None? || c.lastSequence.None? {
        return false;
      }
      current := builder.SaveTo();
      logNumber, lastSequence, nextFile := c.logNumber.value, c.lastSequence.value, c.nextFile.value + 1;
      prevLogNumber := Latest(Some(0), c.prevLogNumber).value;
      ok := true;
    }
  }

  /** MarkFileNumberUsed. */
  function MarkUsed(nextFile: nat, number: nat): nat {
    if nextFile <= number then number + 1 else nextFile
  }

  /** A fresh version set that recovers from the manifest is in the same state. */
  method Reopen(vs: VersionSet) returns (reopened: VersionSet, ok: bool)
    requires vs.Valid() && vs.manifest.Some?
    ensures ok && fresh(reopened) && reopened.Valid() && reopened.current == vs.current
    ensures reopened.logNumber == vs.logNumber && reopened.prevLogNumber == vs.prevLogNumber
    ensures Some(reopened.lastSequence) == Recorded(vs.manifest.value).lastSequence
    ensures Some(reopened.nextFile - 1) == Recorded(vs.manifest.value).nextFile
  {
    hide StrictlySorted, NumbersName, Gathered, Live, Replayed, Files, AddsIn;
    var records := vs.manifest.value;
    reopened := new VersionSet();
    ok := reopened.Recover(records);
    forall l | 0 <= l < NUM_LEVELS
      ensures reopened.current.files[l] == vs.current.files[l]
    {
      assert LevelOnDisk(vs.current, records, Recorded(records).nextFile.value, l);
    }
    assert reopened.current.files == vs.current.files;
    forall l | 0 <= l < NUM_LEVELS
      ensures NumbersName(Files(vs.current.files[l])) && forall f :: f in Files(vs.current.files[l]) ==> f.number < reopened.nextFile
    {
      assert LevelOnDisk(vs.current, records, Recorded(records).nextFile.value, l);
    }
  }

  // ----- The engine's edits -----

  /** A flush logged as an edit installs exactly the version the engine's flush step names. */
  lemma FlushEdit(v: Version, level: nat, f: File, e: Edit, w: Version)
    requires SortedLevels(v) && SortedLevels(w) && level < NUM_LEVELS
    requires e.deleted == {} && e.added == [(level, f)] && f !in v.files[level] && DistinctKeys(Files(v.files[level]) + {f})
    requires Installs(v, e, w)
    ensures w == AddTo(v, level, f)
  {
    hide DistinctKeys, StrictlySorted;
    forall l | 0 <= l < NUM_LEVELS
      ensures w.files[l] == AddTo(v, level, f).files[l]
    {
      InsertFileSorted(v.files[level], f);
      assert Adds(e, l) == if l == level then {f} else {} by {
        assert (level, f) in e.added;
      }
      assert Deletes(e, l) == {};
      SortedListUnique(w.files[l], AddTo(v, level, f).files[l]);
    }
    assert w.files == AddTo(v, level, f).files;
  }

  /** AddInputDeletions and InstallCompactionResults. */
  ghost function CompactionEdit(level: nat, inputs0: seq<File>, inputs1: seq<File>, outs: seq<File>): Edit {
    Edit(Counters(None, None, None, None),
         (set f | f in inputs0 :: (level, f.number)) + (set f | f in inputs1 :: (level + 1, f.number)),
         seq(|outs|, i requires 0 <= i < |outs| => (level + 1, outs[i])))
  }

  lemma {:induction false} WithoutSorted(fs: seq<File>, sel: seq<File>)
    requires StrictlySorted(fs)
    ensures StrictlySorted(Without(fs, sel)) && Files(Without(fs, sel)) == Files(fs) - Files(sel)
  {
    WithoutMembers(fs, sel);
    if fs != [] {
      WithoutSorted(fs[1..], sel);
      WithoutMembers(fs[1..], sel);
      var rest := Without(fs[1..], sel);
      forall i | 0 <= i < |rest|
        ensures BySmallestKey(fs[0], rest[i])
      {
        assert rest[i] in rest;
      }
    }
  }

  lemma {:induction false} InsertFilesSorted(fs: seq<File>, added: seq<File>)
    requires StrictlySorted(fs) && DistinctNumbers(added) && Files(fs) !! Files(added) && DistinctKeys(Files(fs) + Files(added))
    ensures StrictlySorted(InsertFiles(fs, added)) && Files(InsertFiles(fs, added)) == Files(fs) + Files(added)
  {
    hide StrictlySorted;
    if added != [] {
      var n := |added| - 1;
      assert added == added[..n] + [added[n]];
      assert Files(added) == Files(added[..n]) + {added[n]};
      InsertFilesSorted(fs, added[..n]);
      assert added[n] !in Files(added[..n]) && added[n] in Files(added);
      InsertFileSorted(InsertFiles(fs, added[..n]), added[n]);
    }
  }

  lemma CompactionEditAt(level: nat, inputs0: seq<File>, inputs1: seq<File>, outs: seq<File>, l: nat)
    ensures Adds(CompactionEdit(level, inputs0, inputs1, outs), l) == if l == level + 1 then Files(outs) else {}
    ensures Deletes(CompactionEdit(level, inputs0, inputs1, outs), l)
         == if l == level then Numbers(Files(inputs0)) else if l == level + 1 then Numbers(Files(inputs1)) else {}
  {
    var e := CompactionEdit(level, inputs0, inputs1, outs);
    forall f
      ensures f in Adds(e, l) <==> l == level + 1 && f in outs
    {
      if l == level + 1 && f in outs {
        var i :| 0 <= i < |outs| && outs[i] == f;
        assert e.added[i] == (l, f);
      }
    }
    forall n
      ensures n in Deletes(e, l) <==> (l == level && n in Numbers(Files(inputs0))) || (l == level + 1 && n in Numbers(Files(inputs1)))
    {
      assert n in Deletes(e, l) <==> (l, n) in e.deleted;
    }
  }

  /** A compaction (or a move) logged as an edit installs exactly the version the engine's step names. */
  lemma CompactionEditReplaces(v: Version, level: nat, inputs0: seq<File>, inputs1: seq<File>, outs: seq<File>, w: Version)
    requires SortedLevels(v) && SortedLevels(w) && level + 1 < NUM_LEVELS
    requires Files(inputs0) <= Files(v.files[level]) && NumbersName(Files(v.files[level]))
    requires Files(inputs1) <= Files(v.files[level + 1]) && NumbersName(Files(v.files[level + 1]) + Files(outs))
    requires Files(v.files[level + 1]) !! Files(outs) && DistinctNumbers(outs)
    requires Installs(v, CompactionEdit(level, inputs0, inputs1, outs), w)
    ensures w == Replace(v, level, inputs0, inputs1, outs)
  {
    hide StrictlySorted, CompactionEdit, Adds, Deletes;
    var r := Replace(v, level, inputs0, inputs1, outs);
    var left := Without(v.files[level + 1], inputs1);
    WithoutSorted(v.files[level], inputs0);
    WithoutSorted(v.files[level + 1], inputs1);
    NamedFilesDistinct(Files(v.files[level + 1]) + Files(outs));
    DistinctSubset(Files(v.files[level + 1]) + Files(outs), Files(left) + Files(outs));
    InsertFilesSorted(left, outs);
    forall l | 0 <= l < NUM_LEVELS
      ensures w.files[l] == r.files[l]
    {
      CompactionEditAt(level, inputs0, inputs1, outs, l);
      SurvivorsAre(v, level, inputs0, inputs1, outs, l);
      SortedListUnique(w.files[l], r.files[l]);
    }
    assert w.files == r.files;
  }

  lemma SurvivorsAre(v: Version, level: nat, inputs0: seq<File>, inputs1: seq<File>, outs: seq<File>, l: nat)
    requires |v.files| == NUM_LEVELS && level + 1 < NUM_LEVELS && l < NUM_LEVELS
    requires Files(inputs0) <= Files(v.files[level]) && NumbersName(Files(v.files[level]))
    requires Files(inputs1) <= Files(v.files[level + 1]) && NumbersName(Files(v.files[level + 1]) + Files(outs))
    requires Files(v.files[level + 1]) !! Files(outs)
    ensures l == level ==> Survivors(Files(v.files[l]), {}, Numbers(Files(inputs0)) - Numbers({})) == Files(v.files[l]) - Files(inputs0)
    ensures l == level + 1 ==>
        Survivors(Files(v.files[l]), Files(outs), Numbers(Files(inputs1)) - Numbers(Files(outs))) == Files(v.files[l]) - Files(inputs1) + Files(outs)
    ensures l != level && l != level + 1 ==> Survivors(Files(v.files[l]), {}, {} - Numbers({})) == Files(v.files[l])
  {
  }
}
