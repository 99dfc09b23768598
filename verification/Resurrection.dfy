/** A concrete state in which a compaction brings a deleted value back: SetupOtherInputs closes only the
    compacted level under boundary files, so an input of the next level may share its last user key with a
    file that stays behind. */
module Resurrection {
  import opened InternalKeys
  import opened Versions
  import opened CompactionInputs
  import opened Compactions
  import opened CompactionWork
  import opened LevelEdits
  import opened LevelOrder

  const PUT_1_AT_4 := Entry(InternalKey(1.0, 4, Value), "new")
  const PUT_1_AT_2 := Entry(InternalKey(1.0, 2, Value), "older")
  const DELETE_2_AT_3 := Entry(InternalKey(2.0, 3, Deletion), "")
  const PUT_2_AT_1 := Entry(InternalKey(2.0, 1, Value), "deleted")

  const PICKED := File(7, 100, PUT_1_AT_4.key, PUT_1_AT_4.key, [PUT_1_AT_4])
  const NEXT := File(4, 100, PUT_1_AT_2.key, DELETE_2_AT_3.key, [PUT_1_AT_2, DELETE_2_AT_3])
  const LEFT_BEHIND := File(5, 100, PUT_2_AT_1.key, PUT_2_AT_1.key, [PUT_2_AT_1])

  const STRADDLING := Version([[PICKED], [NEXT, LEFT_BEHIND], [], [], [], [], []])

  const MERGED := [PUT_1_AT_4, PUT_1_AT_2, DELETE_2_AT_3]

  lemma FixtureData()
    ensures FilesData([PICKED]) == {PUT_1_AT_4}
    ensures FilesData([NEXT]) == {PUT_1_AT_2, DELETE_2_AT_3}
    ensures FilesData([LEFT_BEHIND]) == {PUT_2_AT_1}
    ensures FilesData([NEXT, LEFT_BEHIND]) == {PUT_1_AT_2, DELETE_2_AT_3, PUT_2_AT_1}
    ensures Entries(MERGED) == {PUT_1_AT_4, PUT_1_AT_2, DELETE_2_AT_3}
  {
    OneFileData(PICKED);
    OneFileData(NEXT);
    OneFileData(LEFT_BEHIND);
    assert [PUT_1_AT_4][0] == PUT_1_AT_4 && [PUT_2_AT_1][0] == PUT_2_AT_1;
    assert [PUT_1_AT_2, DELETE_2_AT_3][0] == PUT_1_AT_2 && [PUT_1_AT_2, DELETE_2_AT_3][1] == DELETE_2_AT_3;
    assert MERGED[0] == PUT_1_AT_4 && MERGED[1] == PUT_1_AT_2 && MERGED[2] == DELETE_2_AT_3;
    FilesDataUnion([NEXT, LEFT_BEHIND], [NEXT], [LEFT_BEHIND]);
  }

  lemma StraddlingData()
    ensures FilesData(STRADDLING.files[0]) == {PUT_1_AT_4}
    ensures FilesData(STRADDLING.files[1]) == {PUT_1_AT_2, DELETE_2_AT_3, PUT_2_AT_1}
    ensures forall l :: 2 <= l < NUM_LEVELS ==> FilesData(STRADDLING.files[l]) == {}
    ensures Data(STRADDLING) == {PUT_1_AT_4, PUT_1_AT_2, DELETE_2_AT_3, PUT_2_AT_1}
  {
    FixtureData();
    hide Entries;
    var fs := STRADDLING.files;
    assert fs[0] == [PICKED] && fs[1] == [NEXT, LEFT_BEHIND];
    assert forall l :: 2 <= l < NUM_LEVELS ==> fs[l] == [] && FilesData(fs[l]) == {};
    forall e
      ensures e in Data(STRADDLING) <==> e in FilesData(fs[0]) || e in FilesData(fs[1])
    {
    }
  }

  lemma StraddlingIsWellFormed()
    ensures WellFormed(STRADDLING)
  {
    var fs := STRADDLING.files;
    assert fs[0] == [PICKED] && fs[1] == [NEXT, LEFT_BEHIND];
    assert forall l :: 2 <= l < NUM_LEVELS ==> fs[l] == [];
    assert ValidFile(PICKED) && ValidFile(NEXT) && ValidFile(LEFT_BEHIND);
  }

  lemma StraddlingIsAged()
    ensures Aged(STRADDLING)
  {
    StraddlingData();
    hide FilesData;
    forall l, m | 0 <= l < m < NUM_LEVELS
      ensures NewerThan(FilesData(STRADDLING.files[l]), FilesData(STRADDLING.files[m]))
    {
    }
  }

  lemma PickedSeed()
    ensures Seed(0, [PICKED], [PICKED]) && BoundaryFree([PICKED], [PICKED])
    ensures IsSmallestKey([PICKED], PICKED.smallest) && IsLargestKey([PICKED], PICKED.largest)
    ensures Overlapping([NEXT, LEFT_BEHIND], Some(1.0), Some(1.0)) == [NEXT]
  {
    assert [PICKED][1..] == [] && [NEXT, LEFT_BEHIND][1..] == [LEFT_BEHIND] && [LEFT_BEHIND][1..] == [];
    assert Overlapping([PICKED], Some(1.0), Some(1.0)) == [PICKED];
    assert ClosedRange([PICKED], Some(1.0), Some(1.0));
    assert PICKED in [PICKED];
    assert Overlapping([LEFT_BEHIND], Some(1.0), Some(1.0)) == [];
  }

  lemma PickedInputs()
    ensures WellFormed(STRADDLING) && GoodInputs(STRADDLING, 0, [PICKED], [NEXT]) && Merged([PICKED], [NEXT], MERGED)
  {
    hide WellFormed, Seed, BoundaryFree, IsSmallestKey, IsLargestKey, Overlapping;
    StraddlingIsWellFormed();
    PickedSeed();
    FixtureData();
  }

  /** Before the compaction the deleted key reads as absent; after it, the old value is back. */
  lemma DeletedValueComesBack()
    ensures WellFormed(STRADDLING) && Aged(STRADDLING)
    ensures GoodInputs(STRADDLING, 0, [PICKED], [NEXT]) && Merged([PICKED], [NEXT], MERGED)
    ensures Read(Data(STRADDLING), 2.0, 4) == None
    ensures Read(Remaining(STRADDLING, 0, [PICKED], [NEXT]) + KeptSet(MERGED, 4, STRADDLING, 0), 2.0, 4) == Some("deleted")
  {
    hide *;
    StraddlingIsWellFormed();
    StraddlingIsAged();
    PickedInputs();
    StraddlingData();
    RestIsLeftBehind();
    TombstoneIsDropped();
    DeletedBefore();
    DeletedAfter(KeptSet(MERGED, 4, STRADDLING, 0));
  }

  lemma DeletedBefore()
    ensures Read({PUT_1_AT_4, PUT_1_AT_2, DELETE_2_AT_3, PUT_2_AT_1}, 2.0, 4) == None
  {
    ReadOfNewest({PUT_1_AT_4, PUT_1_AT_2, DELETE_2_AT_3, PUT_2_AT_1}, 2.0, 4, DELETE_2_AT_3);
  }

  lemma DeletedAfter(kept: set<Entry>)
    requires kept <= {PUT_1_AT_4, PUT_1_AT_2}
    ensures Read({PUT_2_AT_1} + kept, 2.0, 4) == Some("deleted")
  {
    ReadOfNewest({PUT_2_AT_1} + kept, 2.0, 4, PUT_2_AT_1);
  }

  lemma TombstoneIsDropped()
    requires WellFormed(STRADDLING)
    ensures KeptSet(MERGED, 4, STRADDLING, 0) <= {PUT_1_AT_4, PUT_1_AT_2}
  {
    FixtureData();
    KeptMembers(MERGED, 3, 4, STRADDLING, 0);
    assert Obsolete(MERGED[2], 4, STRADDLING, 0);
  }

  lemma RestIsLeftBehind()
    ensures Remaining(STRADDLING, 0, [PICKED], [NEXT]) == {PUT_2_AT_1}
  {
    var upper, lower := Without([PICKED], [PICKED]), Without([NEXT, LEFT_BEHIND], [NEXT]);
    assert [PICKED][1..] == [] && [NEXT, LEFT_BEHIND][1..] == [LEFT_BEHIND] && [LEFT_BEHIND][1..] == [];
    assert Without([LEFT_BEHIND], [NEXT]) == [LEFT_BEHIND];
    NothingLeft([PICKED], [PICKED]);
    assert upper == [] && lower == [LEFT_BEHIND];
    FixtureData();
    hide Entries;
    var r := STRADDLING.files[0 := upper][1 := lower];
    assert forall l :: 0 <= l < NUM_LEVELS && l != 1 ==> r[l] == [] && FilesData(r[l]) == {};
    assert FilesData(r[1]) == {PUT_2_AT_1};
    forall e
      ensures e in Data(Version(r)) <==> e in FilesData(r[1])
    {
    }
  }
}
