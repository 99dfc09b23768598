/** TwoLevelIterator: an index cursor and a cursor over the block it points to, together one cursor over
    the concatenation of all blocks, some of which may be empty. */
module TwoLevelIterators {
  import opened Cursors
  import opened InternalKeys
  import opened Tables

  /** The index leads to the blocks, and each index key separates what comes before it from what follows. */
  ghost predicate Searchable(index: seq<IndexEntry>, blocks: map<nat, seq<Entry>>, parts: seq<seq<Entry>>) {
    && |index| == |parts| && Sorted(Concat(parts))
    && (forall j :: 0 <= j < |parts| ==> index[j].offset in blocks && blocks[index[j].offset] == parts[j])
    && (forall j, x :: 0 <= j < |parts| && 0 <= x < BlockStart(parts, j + 1) <= |Concat(parts)| ==> AtMost(Concat(parts)[x].key, index[j].key))
    && (forall j, x :: 0 <= j < |parts| && BlockStart(parts, j + 1) <= x < |Concat(parts)| ==> Less(index[j].key, Concat(parts)[x].key))
  }

  lemma {:induction false} StartsAscend(parts: seq<seq<Entry>>, i: nat)
    requires i < |parts|
    ensures BlockStart(parts, i) + |parts[i]| == BlockStart(parts, i + 1) <= |Concat(parts)|
    ensures BlockStart(parts, |parts|) == |Concat(parts)| && BlockStart(parts, 0) == 0
    decreases |parts| - i
  {
    assert parts[..i + 1][..i] == parts[..i] && parts[..|parts|] == parts;
    if i + 1 < |parts| {
      StartsAscend(parts, i + 1);
    }
  }

  lemma AllStart(parts: seq<seq<Entry>>)
    ensures BlockStart(parts, |parts|) == |Concat(parts)| && BlockStart(parts, 0) == 0
  {
    assert parts[..|parts|] == parts;
  }

  /** A finished table is searchable this way. */
  lemma TableIsSearchable(t: TableFile, parts: seq<seq<Entry>>)
    requires Indexed(t, parts)
    ensures Searchable(t.index, t.blocks, parts)
  {
    hide Concat, Less;
    var all := Concat(parts);
    forall j, x | 0 <= j < |parts| && 0 <= x < |all|
      ensures BlockStart(parts, j + 1) <= |all|
      ensures if x < BlockStart(parts, j + 1) then AtMost(all[x].key, t.index[j].key) else Less(t.index[j].key, all[x].key)
    {
      StartsAscend(parts, j);
      BlockPlaced(t, parts, j);
      assert Separated(t.index, parts, j);
      var to := BlockStart(parts, j + 1);
      if x < to {
        BeforeLast(all, x, to - 1, t.index[j].key);
      } else {
        NextBlock(parts, j, x);
        BlockPlaced(t, parts, j + 1);
        assert all[to + 0] == parts[j + 1][0];
        AfterNext(all, to, x, t.index[j].key);
      }
    }
  }

  lemma BeforeLast(all: seq<Entry>, x: nat, last: nat, key: InternalKey)
    requires Sorted(all) && x <= last < |all| && AtMost(all[last].key, key)
    ensures AtMost(all[x].key, key)
  {
    assert x == last || Less(all[x].key, all[last].key);
  }

  lemma AfterNext(all: seq<Entry>, next: nat, x: nat, key: InternalKey)
    requires Sorted(all) && next <= x < |all| && Less(key, all[next].key)
    ensures Less(key, all[x].key)
  {
    assert x == next || Less(all[next].key, all[x].key);
  }

  class TwoLevelIterator {
    const index: seq<IndexEntry>
    const blocks: map<nat, seq<Entry>>
    ghost const parts: seq<seq<Entry>>
    var indexPos: nat      // the index cursor; |index| when it is not valid
    var data: Cursor?
    var handle: nat        // of the block data is over

    /** The data cursor, if any, is over the block the index points to. */
    ghost predicate Opened()
      reads this, data
    {
      && Searchable(index, blocks, parts) && indexPos <= |index|
      && (data != null ==> indexPos < |index| && data.Valid() && data.entries == parts[indexPos] && handle == index[indexPos].offset)
    }

    ghost predicate Valid()
      reads this, data
    {
      Opened() && (if indexPos == |index| then data == null else data != null && data.IsValid())
    }

    predicate IsValid()
      reads this, data
    {
      data != null && data.IsValid()
    }

    /** The position in the concatenation of the blocks; its length stands for not valid. */
    ghost function Pos(): nat
      requires Valid()
      reads this, data
    {
      if data == null then |Concat(parts)| else BlockStart(parts, indexPos) + data.pos
    }

    constructor (index: seq<IndexEntry>, blocks: map<nat, seq<Entry>>, ghost parts: seq<seq<Entry>>)
      requires Searchable(index, blocks, parts)
      ensures Valid() && this.index == index && this.blocks == blocks && this.parts == parts && !IsValid()
    {
      this.index, this.blocks, this.parts, indexPos, data, handle := index, blocks, parts, |index|, null, 0;
    }

    /** Opens the block the index points to, unless it is open already. */
    method InitDataBlock()
      requires Searchable(index, blocks, parts) && indexPos <= |index|
      requires data != null ==> data.Valid() && handle in blocks && data.entries == blocks[handle]
      modifies this`data, this`handle
      ensures Opened() && (data == null <==> indexPos == |index|)
      ensures data == old(data) || data == null || fresh(data)
      ensures data != null ==> handle in blocks && data.entries == blocks[handle]
    {
      hide Sorted, Concat, AtMost, Less;
      if indexPos == |index| {
        data := null;
      } else if data != null && index[indexPos].offset == handle {
      } else {
        handle := index[indexPos].offset;
        BlockIsSorted(parts, indexPos);
        data := new Cursor(blocks[handle]);
      }
    }

    method SkipEmptyDataBlocksForward(ghost p: nat)
      requires Opened() && (data == null ==> indexPos == |index|)
      requires p == if data == null then |Concat(parts)| else BlockStart(parts, indexPos) + data.pos
      modifies this`data, this`handle, this`indexPos, data
      ensures Valid() && Pos() == p && (data == old(data) || data == null || fresh(data))
    {
      hide Concat, Less, Sorted;
      AllStart(parts);
      while data == null || !data.IsValid()
        invariant Opened() && (data == null ==> indexPos == |index|) && (data == old(data) || data == null || fresh(data))
        invariant p == if data == null then |Concat(parts)| else BlockStart(parts, indexPos) + data.pos
        decreases |index| - indexPos, data != null
      {
        if indexPos == |index| {
          data := null;
          return;
        }
        StartsAscend(parts, indexPos);
        indexPos := indexPos + 1;
        InitDataBlock();
        if data != null {
          data.SeekToFirst();
        }
      }
    }

    /** With the data cursor run off the front of its block, the one before; p is where the next entry would be. */
    method SkipEmptyDataBlocksBackward(ghost p: nat)
      requires Opened() && (data == null ==> indexPos == |index|) && p <= |Concat(parts)|
      requires IsValid() ==> p == BlockStart(parts, indexPos) + data.pos + 1
      requires !IsValid() ==> p == if data == null then 0 else BlockStart(parts, indexPos)
      modifies this`data, this`handle, this`indexPos, data
      ensures Valid() && Pos() == (if p == 0 then |Concat(parts)| else p - 1)
      ensures data == old(data) || data == null || fresh(data)
    {
      hide Concat, Less, Sorted;
      AllStart(parts);
      while data == null || !data.IsValid()
        invariant Opened() && (data == null ==> indexPos == |index|) && (data == old(data) || data == null || fresh(data))
        invariant IsValid() ==> p == BlockStart(parts, indexPos) + data.pos + 1
        invariant !IsValid() ==> p == if data == null then 0 else BlockStart(parts, indexPos)
        decreases if indexPos == |index| then 0 else indexPos + 1, data != null && !data.IsValid()
      {
        if indexPos == |index| {
          data := null;
          return;
        }
        indexPos := if indexPos == 0 then |index| else indexPos - 1;
        InitDataBlock();
        if data != null {
          StartsAscend(parts, indexPos);
          data.SeekToLast();
        }
      }
      StartsAscend(parts, indexPos);
    }

    /** Positions at the first entry at or after the target. */
    method Seek(target: InternalKey)
      requires Valid()
      modifies this`data, this`handle, this`indexPos, data
      ensures Valid() && (data == old(data) || data == null || fresh(data))
      ensures Pos() <= |Concat(parts)| && forall x :: 0 <= x < Pos() ==> Less(Concat(parts)[x].key, target)
      ensures Pos() < |Concat(parts)| ==> AtMost(target, Concat(parts)[Pos()].key)
    {
      hide Concat, Less, Sorted;
      AllStart(parts);
      indexPos := SeekIndex(index, target);
      InitDataBlock();
      ghost var p := |Concat(parts)|;
      if data != null {
        data.Seek(target);
        p := BlockStart(parts, indexPos) + data.pos;
      }
      SoughtPosition(index, blocks, parts, target, indexPos, if data == null then 0 else data.pos, p);
      SkipEmptyDataBlocksForward(p);
    }

    method SeekToFirst()
      requires Valid()
      modifies this`data, this`handle, this`indexPos, data
      ensures Valid() && Pos() == 0 && (data == old(data) || data == null || fresh(data))
    {
      hide Concat, Less, Sorted;
      AllStart(parts);
      indexPos := 0;
      InitDataBlock();
      if data != null {
        data.SeekToFirst();
      }
      SkipEmptyDataBlocksForward(0);
    }

    method SeekToLast()
      requires Valid()
      modifies this`data, this`handle, this`indexPos, data
      ensures Valid() && Pos() == (if Concat(parts) == [] then 0 else |Concat(parts)| - 1)
      ensures data == old(data) || data == null || fresh(data)
    {
      hide Concat, Less, Sorted;
      AllStart(parts);
      indexPos := if |index| == 0 then 0 else |index| - 1;
      InitDataBlock();
      if data != null {
        StartsAscend(parts, indexPos);
        data.SeekToLast();
      }
      SkipEmptyDataBlocksBackward(|Concat(parts)|);
    }

    method Next()
      requires Valid() && IsValid()
      modifies this`data, this`handle, this`indexPos, data
      ensures Valid() && Pos() == old(Pos()) + 1 && (data == old(data) || data == null || fresh(data))
    {
      hide Concat, Less, Sorted;
      ghost var p := Pos();
      data.Next();
      SkipEmptyDataBlocksForward(p + 1);
    }

    method Prev()
      requires Valid() && IsValid()
      modifies this`data, this`handle, this`indexPos, data
      ensures Valid() && Pos() == (if old(Pos()) == 0 then |Concat(parts)| else old(Pos()) - 1)
      ensures data == old(data) || data == null || fresh(data)
    {
      hide Concat, Less, Sorted;
      ghost var p := Pos();
      StartsAscend(parts, indexPos);
      data.Prev();
      SkipEmptyDataBlocksBackward(p);
    }

    lemma WithinTable()
      requires Valid()
      ensures Pos() <= |Concat(parts)|
    {
      hide Concat, Less;
      if data != null {
        StartsAscend(parts, indexPos);
      }
    }

    /** What the iterator shows is the entry at its position. */
    lemma ShowsPosition()
      requires Valid()
      ensures IsValid() <==> Pos() < |Concat(parts)|
      ensures IsValid() ==> data.Current() == Concat(parts)[Pos()]
    {
      if IsValid() {
        BlockAt(parts, indexPos, data.pos);
      }
    }
  }

  /** The block cursor, in the block the index leads to, is at the first entry at or after the target. */
  lemma SoughtPosition(index: seq<IndexEntry>, blocks: map<nat, seq<Entry>>, parts: seq<seq<Entry>>, target: InternalKey, i: nat, q: nat, p: nat)
    requires Searchable(index, blocks, parts) && i <= |index| && (forall j :: 0 <= j < i ==> Less(index[j].key, target))
    requires i < |index| ==> AtMost(target, index[i].key) && q <= |parts[i]| && p == BlockStart(parts, i) + q
    requires i < |index| ==> forall x :: 0 <= x < q ==> Less(parts[i][x].key, target)
    requires i < |index| ==> forall x :: q <= x < |parts[i]| ==> !Less(parts[i][x].key, target)
    requires i == |index| ==> p == |Concat(parts)|
    ensures p <= |Concat(parts)| && forall x :: 0 <= x < p ==> Less(Concat(parts)[x].key, target)
    ensures p < |Concat(parts)| ==> AtMost(target, Concat(parts)[p].key)
  {
    hide Concat, Sorted;
    AllStart(parts);
    var all := Concat(parts);
    if i > 0 {
      StartsAscend(parts, i - 1);
      assert forall x :: 0 <= x < BlockStart(parts, i) ==> AtMost(all[x].key, index[i - 1].key);
    }
    if i < |index| {
      StartsAscend(parts, i);
      forall x | BlockStart(parts, i) <= x < p
        ensures Less(all[x].key, target)
      {
        BlockAt(parts, i, x - BlockStart(parts, i));
      }
      if q < |parts[i]| {
        BlockAt(parts, i, q);
      }
    }
  }

  lemma {:induction false} BlockIsSorted(parts: seq<seq<Entry>>, i: nat)
    requires i < |parts| && Sorted(Concat(parts))
    ensures Sorted(parts[i])
  {
    forall x, y | 0 <= x < y < |parts[i]|
      ensures Less(parts[i][x].key, parts[i][y].key)
    {
      BlockAt(parts, i, x);
      BlockAt(parts, i, y);
    }
  }
}
