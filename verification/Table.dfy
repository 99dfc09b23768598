/** Tables: data blocks, an index of keys between them, and a filter; how a builder makes them and how a
    point lookup reads at most one block. */
module Tables {
  import opened Coding
  import opened Cursors
  import opened FilterBlocks
  import opened InternalKeys
  import opened Separators

  datatype IndexEntry = IndexEntry(key: InternalKey, offset: nat)

  /** A finished table: its index, its blocks by file offset, and its filter block. */
  datatype TableFile = TableFile(index: seq<IndexEntry>, blocks: map<nat, seq<Entry>>, filter: Option<Bytes>)

  const BLOCK_TRAILER_SIZE: nat := 5

  function Concat(blocks: seq<seq<Entry>>): seq<Entry> {
    if blocks == [] then [] else Concat(blocks[..|blocks| - 1]) + blocks[|blocks| - 1]
  }

  /** An index key for a block: at or after its last key and before the next block's first, and of neither
      block's user key unless it is the last key itself. */
  predicate Between(key: InternalKey, block: seq<Entry>, next: seq<Entry>)
    requires block != []
  {
    var last := block[|block| - 1].key;
    && AtMost(last, key)
    && (next != [] ==> Less(key, next[0].key) && (key == last || key.user < next[0].key.user))
  }

  /** The blocks hold the entries in order, and the index leads to each. */
  ghost predicate Indexed(t: TableFile, done: seq<seq<Entry>>) {
    && Sorted(Concat(done)) && |t.index| == |done|
    && (forall j :: 0 <= j < |done| ==> done[j] != [] && t.index[j].offset in t.blocks && t.blocks[t.index[j].offset] == done[j])
    && (forall j :: 0 <= j < |done| ==> Separated(t.index, done, j))
  }

  /** Index entry j separates block j from the next. */
  ghost predicate Separated(index: seq<IndexEntry>, done: seq<seq<Entry>>, j: nat)
    requires j < |index| == |done|
  {
    done[j] != [] && Between(index[j].key, done[j], if j + 1 < |done| then done[j + 1] else [])
  }

  // ----- Positions in the concatenation -----

  /** Where block j starts. */
  ghost function BlockStart(blocks: seq<seq<Entry>>, j: nat): nat
    requires j <= |blocks|
  {
    |Concat(blocks[..j])|
  }

  lemma {:induction false} BlockAt(blocks: seq<seq<Entry>>, j: nat, i: nat)
    requires j < |blocks| && i < |blocks[j]|
    ensures BlockStart(blocks, j) + i < |Concat(blocks)| && Concat(blocks)[BlockStart(blocks, j) + i] == blocks[j][i]
    ensures BlockStart(blocks, j) + |blocks[j]| == BlockStart(blocks, j + 1) <= |Concat(blocks)|
    decreases |blocks|
  {
    var n := |blocks| - 1;
    assert blocks[..j + 1][..j] == blocks[..j];
    if j < n {
      BlockAt(blocks[..n], j, i);
      assert blocks[..n][..j] == blocks[..j] && blocks[..n][..j + 1] == blocks[..j + 1];
    } else {
      assert blocks[..j + 1] == blocks;
    }
  }

  /** The first entry at or after k. */
  ghost predicate IsFirstFrom(es: seq<Entry>, k: InternalKey, e: Entry) {
    exists p :: 0 <= p < |es| && FirstFromAt(es, k, p) && es[p] == e
  }

  ghost predicate FirstFromAt(es: seq<Entry>, k: InternalKey, p: nat)
    requires p < |es|
  {
    !Less(es[p].key, k) && forall i :: 0 <= i < p ==> Less(es[i].key, k)
  }

  // ----- Building -----

  /** The filter knows the key of a block at this offset. */
  ghost predicate Filtered(groups: seq<seq<Bytes>>, pending: seq<Bytes>, offset: nat, key: Bytes) {
    var i := offset / FILTER_BASE;
    (i < |groups| && key in groups[i]) || (i == |groups| && key in pending)
  }

  ghost predicate BlockFiltered(groups: seq<seq<Bytes>>, pending: seq<Bytes>, offset: nat, block: seq<Entry>, userBytes: UserKey -> Bytes) {
    forall e :: e in block ==> Filtered(groups, pending, offset, userBytes(e.key.user))
  }

  /** Block j is in the file where it should be. */
  ghost predicate Stored(blocks: map<nat, seq<Entry>>, offset: nat, done: seq<seq<Entry>>, offsets: seq<nat>, j: nat)
    requires j < |done| == |offsets|
  {
    done[j] != [] && offsets[j] < offset && offsets[j] in blocks && blocks[offsets[j]] == done[j]
  }

  /** Index entry j leads to block j and lies between it and what follows. */
  ghost predicate Points(index: seq<IndexEntry>, done: seq<seq<Entry>>, offsets: seq<nat>, current: seq<Entry>, j: nat)
    requires j < |index| <= |done| == |offsets|
  {
    done[j] != [] && index[j].offset == offsets[j] && Between(index[j].key, done[j], if j + 1 < |done| then done[j + 1] else current)
  }

  /** What the builder has written: finished blocks, all but perhaps the last of them indexed. */
  ghost predicate Written(index: seq<IndexEntry>, blocks: map<nat, seq<Entry>>, offset: nat, done: seq<seq<Entry>>, offsets: seq<nat>,
                          current: seq<Entry>, pendingIndex: bool) {
    && |offsets| == |done| && |index| == |done| - (if pendingIndex then 1 else 0)
    && (pendingIndex ==> current == [])
    && (!pendingIndex && done != [] ==> current != [])
    && (forall j :: 0 <= j < |done| ==> Stored(blocks, offset, done, offsets, j))
    && (forall j :: 0 <= j < |index| ==> Points(index, done, offsets, current, j))
  }

  lemma ConcatSnoc(blocks: seq<seq<Entry>>, block: seq<Entry>)
    ensures Concat(blocks + [block]) == Concat(blocks) + block
  {
    assert (blocks + [block])[..|blocks|] == blocks;
  }

  lemma SeparatorBetween(last: seq<Entry>, e: Entry, sep: (UserKey, UserKey) -> UserKey, size: UserKey -> nat)
    requires Separates(sep) && last != [] && Less(last[|last| - 1].key, e.key)
    ensures Between(InternalSeparator(last[|last| - 1].key, e.key, sep, size), last, [e])
  {
    InternalSeparatorBetween(last[|last| - 1].key, e.key, sep, size);
  }

  /** Add, when the last block waits for its index entry. */
  lemma IndexWritten(index: seq<IndexEntry>, blocks: map<nat, seq<Entry>>, offset: nat, done: seq<seq<Entry>>, offsets: seq<nat>,
                     e: Entry, sep: (UserKey, UserKey) -> UserKey, size: UserKey -> nat)
    requires Separates(sep) && done != [] && Written(index, blocks, offset, done, offsets, [], true)
    requires var last := done[|done| - 1]; last != [] && Less(last[|last| - 1].key, e.key)
    ensures var last := done[|done| - 1];
      Written(index + [IndexEntry(InternalSeparator(last[|last| - 1].key, e.key, sep, size), offsets[|offsets| - 1])],
              blocks, offset, done, offsets, [e], false)
  {
    hide Between;
    var last := done[|done| - 1];
    var key := InternalSeparator(last[|last| - 1].key, e.key, sep, size);
    var index' := index + [IndexEntry(key, offsets[|offsets| - 1])];
    assert Stored(blocks, offset, done, offsets, |done| - 1);
    SeparatorBetween(last, e, sep, size);
    forall j | 0 <= j < |index'|
      ensures Points(index', done, offsets, [e], j)
    {
      assert j < |index| ==> Points(index, done, offsets, [], j);
    }
  }

  /** Add, into a block that already has an entry. */
  lemma EntryWritten(index: seq<IndexEntry>, blocks: map<nat, seq<Entry>>, offset: nat, done: seq<seq<Entry>>, offsets: seq<nat>,
                     current: seq<Entry>, e: Entry)
    requires Written(index, blocks, offset, done, offsets, current, false) && (current != [] || done == [])
    ensures Written(index, blocks, offset, done, offsets, current + [e], false)
  {
    forall j | 0 <= j < |index|
      ensures Points(index, done, offsets, current + [e], j)
    {
      assert Points(index, done, offsets, current, j) && Stored(blocks, offset, done, offsets, j);
    }
  }

  /** Flush of a block with entries. */
  lemma BlockWritten(index: seq<IndexEntry>, blocks: map<nat, seq<Entry>>, offset: nat, done: seq<seq<Entry>>, offsets: seq<nat>,
                     current: seq<Entry>, length: nat)
    requires Written(index, blocks, offset, done, offsets, current, false) && current != []
    ensures Written(index, blocks[offset := current], offset + length + BLOCK_TRAILER_SIZE, done + [current], offsets + [offset], [], true)
  {
    hide Between;
    var blocks', offset', done', offsets' := blocks[offset := current], offset + length + BLOCK_TRAILER_SIZE, done + [current], offsets + [offset];
    forall j | 0 <= j < |done'|
      ensures Stored(blocks', offset', done', offsets', j)
    {
      assert j < |done| ==> Stored(blocks, offset, done, offsets, j);
    }
    forall j | 0 <= j < |index|
      ensures Points(index, done', offsets', [], j)
    {
      assert Points(index, done, offsets, current, j) && Stored(blocks, offset, done, offsets, j);
    }
  }

  lemma StartedBlockFiltered(groups: seq<seq<Bytes>>, pending: seq<Bytes>, groups': seq<seq<Bytes>>, pending': seq<Bytes>,
                             offset: nat, block: seq<Entry>, userBytes: UserKey -> Bytes)
    requires BlockFiltered(groups, pending, offset, block, userBytes)
    requires (groups' == groups && pending' == pending) || groups + [pending] <= groups'
    ensures BlockFiltered(groups', pending', offset, block, userBytes)
  {
    forall e | e in block
      ensures Filtered(groups', pending', offset, userBytes(e.key.user))
    {
      assert Filtered(groups, pending, offset, userBytes(e.key.user));
      var i := offset / FILTER_BASE;
      if i < |groups| {
        assert groups'[i] == groups[i];
      } else if groups + [pending] <= groups' {
        assert groups'[i] == (groups + [pending])[i];
      }
    }
  }

  /** The filter knows every key written so far, each at its block's offset. */
  ghost predicate AllFiltered(groups: seq<seq<Bytes>>, pending: seq<Bytes>, offset: nat, done: seq<seq<Entry>>, offsets: seq<nat>,
                              current: seq<Entry>, userBytes: UserKey -> Bytes) {
    && |groups| == offset / FILTER_BASE && |offsets| == |done|
    && BlockFiltered(groups, pending, offset, current, userBytes)
    && forall j :: 0 <= j < |done| ==> BlockFiltered(groups, pending, offsets[j], done[j], userBytes)
  }

  /** Starting the next block in the filter after the current one is written. */
  lemma FlushFiltered(groups: seq<seq<Bytes>>, pending: seq<Bytes>, groups': seq<seq<Bytes>>, pending': seq<Bytes>, offset: nat, offset': nat,
                      done: seq<seq<Entry>>, offsets: seq<nat>, current: seq<Entry>, userBytes: UserKey -> Bytes)
    requires AllFiltered(groups, pending, offset, done, offsets, current, userBytes) && |groups'| == offset' / FILTER_BASE
    requires (groups' == groups && pending' == pending) || groups + [pending] <= groups'
    ensures AllFiltered(groups', pending', offset', done + [current], offsets + [offset], [], userBytes)
  {
    hide BlockFiltered;
    NothingFiltered(groups', pending', offset', userBytes);
    forall j | 0 <= j <= |done|
      ensures BlockFiltered(groups', pending', (offsets + [offset])[j], (done + [current])[j], userBytes)
    {
      StartedBlockFiltered(groups, pending, groups', pending', (offsets + [offset])[j], (done + [current])[j], userBytes);
    }
  }

  lemma NothingFiltered(groups: seq<seq<Bytes>>, pending: seq<Bytes>, offset: nat, userBytes: UserKey -> Bytes)
    ensures BlockFiltered(groups, pending, offset, [], userBytes)
  {
  }

  /** Adding a key: it is known at the current offset, and every key known before still is. */
  lemma KeyFiltered(groups: seq<seq<Bytes>>, pending: seq<Bytes>, offset: nat, done: seq<seq<Entry>>, offsets: seq<nat>,
                    current: seq<Entry>, e: Entry, userBytes: UserKey -> Bytes)
    requires AllFiltered(groups, pending, offset, done, offsets, current, userBytes)
    ensures AllFiltered(groups, pending + [userBytes(e.key.user)], offset, done, offsets, current + [e], userBytes)
  {
    var pending' := pending + [userBytes(e.key.user)];
    assert pending'[|pending|] == userBytes(e.key.user);
    forall x | x in current + [e]
      ensures Filtered(groups, pending', offset, userBytes(x.key.user))
    {
      assert x in current ==> Filtered(groups, pending, offset, userBytes(x.key.user));
    }
    forall j | 0 <= j < |done|
      ensures BlockFiltered(groups, pending', offsets[j], done[j], userBytes)
    {
      forall x | x in done[j]
        ensures Filtered(groups, pending', offsets[j], userBytes(x.key.user))
      {
        assert Filtered(groups, pending, offsets[j], userBytes(x.key.user));
      }
    }
  }

  lemma FilterAhead(groups: seq<seq<Bytes>>, pending: seq<Bytes>, offset: nat, done: seq<seq<Entry>>, offsets: seq<nat>,
                    current: seq<Entry>, userBytes: UserKey -> Bytes, offset': nat)
    requires AllFiltered(groups, pending, offset, done, offsets, current, userBytes) && offset <= offset'
    ensures |groups| <= offset' / FILTER_BASE
  {
  }

  lemma SortedSnoc(es: seq<Entry>, e: Entry)
    requires Sorted(es) && (es != [] ==> Less(es[|es| - 1].key, e.key))
    ensures Sorted(es + [e])
  {
    forall i | 0 <= i < |es|
      ensures Less(es[i].key, e.key)
    {
      assert i == |es| - 1 || Less(es[i].key, es[|es| - 1].key);
    }
  }

  /** The last entry added is in the open block, or ends the last finished one if that waits for its index entry. */
  lemma LastEntry(index: seq<IndexEntry>, blocks: map<nat, seq<Entry>>, offset: nat, done: seq<seq<Entry>>, offsets: seq<nat>,
                  current: seq<Entry>, pendingIndex: bool)
    requires Written(index, blocks, offset, done, offsets, current, pendingIndex) && (pendingIndex ==> done != [])
    ensures |offsets| == |done| && (pendingIndex ==> current == []) && (!pendingIndex ==> current != [] || done == [])
    ensures pendingIndex ==> var last := done[|done| - 1];
      last != [] && |Concat(done)| > 0 && Concat(done)[|Concat(done)| - 1] == last[|last| - 1]
  {
    if pendingIndex {
      assert Stored(blocks, offset, done, offsets, |done| - 1);
    }
  }

  /** Add, whether or not the last block waits for its index entry. */
  lemma AddWritten(index: seq<IndexEntry>, blocks: map<nat, seq<Entry>>, offset: nat, done: seq<seq<Entry>>, offsets: seq<nat>,
                   current: seq<Entry>, pendingIndex: bool, entries: seq<Entry>, lastKey: InternalKey, e: Entry,
                   sep: (UserKey, UserKey) -> UserKey, size: UserKey -> nat, pendingOffset: nat)
    requires Separates(sep) && Written(index, blocks, offset, done, offsets, current, pendingIndex) && entries == Concat(done) + current
    requires entries != [] ==> lastKey == entries[|entries| - 1].key && Less(lastKey, e.key)
    requires pendingIndex ==> done != [] && offsets != [] && pendingOffset == offsets[|offsets| - 1]
    ensures Written(if pendingIndex then index + [IndexEntry(InternalSeparator(lastKey, e.key, sep, size), pendingOffset)] else index,
                    blocks, offset, done, offsets, current + [e], false)
    ensures entries + [e] == Concat(done) + (current + [e])
  {
    hide Written, Separates, Concat, Less;
    LastEntry(index, blocks, offset, done, offsets, current, pendingIndex);
    if pendingIndex {
      assert entries == Concat(done) && current + [e] == [e];
      IndexWritten(index, blocks, offset, done, offsets, e, sep, size);
    } else {
      EntryWritten(index, blocks, offset, done, offsets, current, e);
    }
  }

  class TableBuilder {
    const sep: (UserKey, UserKey) -> UserKey
    const succ: UserKey -> UserKey
    const size: UserKey -> nat
    const userBytes: UserKey -> Bytes
    const filter: FilterBlockBuilder?
    var offset: nat
    var lastKey: InternalKey
    var pendingIndex: bool
    var pendingOffset: nat
    var dataBlock: seq<Entry>
    var index: seq<IndexEntry>
    var blocks: map<nat, seq<Entry>>
    ghost var entries: seq<Entry>
    ghost var done: seq<seq<Entry>>
    ghost var offsets: seq<nat>

    ghost predicate FilterInv()
      reads this, filter
    {
      filter != null ==>
        filter.Valid() && AllFiltered(filter.groups, filter.pending, offset, done, offsets, dataBlock, userBytes)
    }

    ghost predicate Valid()
      reads this, filter
    {
      && Separates(sep) && Sorted(entries) && entries == Concat(done) + dataBlock
      && Written(index, blocks, offset, done, offsets, dataBlock, pendingIndex)
      && (entries != [] ==> lastKey == entries[|entries| - 1].key)
      && (pendingIndex ==> done != [] && offsets != [] && pendingOffset == offsets[|offsets| - 1])
      && FilterInv()
    }

    constructor (sep: (UserKey, UserKey) -> UserKey, succ: UserKey -> UserKey, size: UserKey -> nat, userBytes: UserKey -> Bytes,
                 filter: FilterBlockBuilder?)
      requires Separates(sep) && (filter != null ==> filter.Valid() && filter.groups == [])
      ensures Valid() && entries == [] && this.filter == filter
    {
      this.sep, this.succ, this.size, this.userBytes, this.filter := sep, succ, size, userBytes, filter;
      offset, pendingIndex, pendingOffset, dataBlock, index, blocks := 0, false, 0, [], [], map[];
      lastKey := InternalKey(0.0, 0, Deletion);
      entries, done, offsets := [], [], [];
      new;
      if filter != null {
        NothingFiltered(filter.groups, filter.pending, 0, userBytes);
      }
    }

    /** Appends an entry; full says whether the block is then large enough to be written out. */
    method Add(e: Entry, full: bool, length: nat)
      requires Valid() && (entries != [] ==> Less(lastKey, e.key))
      modifies this, filter
      ensures Valid() && entries == old(entries) + [e] && lastKey == e.key
      ensures if full then dataBlock == [] && done == old(done) + [old(dataBlock) + [e]] && offset == old(offset) + length + 5
              else dataBlock == old(dataBlock) + [e] && done == old(done) && offset == old(offset)
    {
      AddToBlock(e);
      if full {
        Flush(length);
      }
    }

    method AddToBlock(e: Entry)
      requires Valid() && (entries != [] ==> Less(lastKey, e.key))
      modifies this, filter
      ensures Valid() && entries == old(entries) + [e] && lastKey == e.key
      ensures dataBlock == old(dataBlock) + [e] && done == old(done) && offsets == old(offsets) && offset == old(offset) && blocks == old(blocks)
      ensures !pendingIndex && pendingOffset == old(pendingOffset)
      ensures index == old(index) +
        if old(pendingIndex) then [IndexEntry(InternalSeparator(old(lastKey), e.key, sep, size), old(pendingOffset))] else []
    {
      hide FilterBlockBuilder.Valid, Written, Separates, Sorted, Concat, AllFiltered, Less, InternalSeparator, Flatten, KeyStarts, FiltersBytes, FilterOffsets;
      AddWritten(index, blocks, offset, done, offsets, dataBlock, pendingIndex, entries, lastKey, e, sep, size, pendingOffset);
      SortedSnoc(entries, e);
      if pendingIndex {
        index := index + [IndexEntry(InternalSeparator(lastKey, e.key, sep, size), pendingOffset)];
        pendingIndex := false;
      }
      FilterKey(e);
      lastKey := e.key;
      dataBlock := dataBlock + [e];
      entries := entries + [e];
    }

    method FilterKey(e: Entry)
      requires FilterInv()
      modifies filter
      ensures filter != null ==>
        && filter.Valid() && AllFiltered(filter.groups, filter.pending, offset, done, offsets, dataBlock + [e], userBytes)
        && filter.groups == old(filter.groups) && filter.pending == old(filter.pending) + [userBytes(e.key.user)]
    {
      hide AllFiltered, FilterBlockBuilder.Valid;
      if filter != null {
        KeyFiltered(filter.groups, filter.pending, offset, done, offsets, dataBlock, e, userBytes);
        filter.AddKey(userBytes(e.key.user));
      }
    }

    method Flush(length: nat)
      requires Valid()
      modifies this, filter
      ensures Valid() && entries == old(entries) && dataBlock == [] && lastKey == old(lastKey) && index == old(index)
      ensures old(dataBlock) == [] ==>
        && done == old(done) && offsets == old(offsets) && offset == old(offset) && blocks == old(blocks)
        && pendingIndex == old(pendingIndex) && pendingOffset == old(pendingOffset)
      ensures old(dataBlock) != [] ==>
        && done == old(done) + [old(dataBlock)] && offsets == old(offsets) + [old(offset)]
        && offset == old(offset) + length + 5 && blocks == old(blocks)[old(offset) := old(dataBlock)]
        && pendingIndex && pendingOffset == old(offset)
    {
      hide Written, Separates, Sorted, Concat, AllFiltered, Flatten, KeyStarts, FiltersBytes, FilterOffsets;
      if dataBlock == [] {
        return;
      }
      LastEntry(index, blocks, offset, done, offsets, dataBlock, pendingIndex);
      BlockWritten(index, blocks, offset, done, offsets, dataBlock, length);
      ConcatSnoc(done, dataBlock);
      blocks := blocks[offset := dataBlock];
      pendingOffset := offset;
      offset := offset + length + BLOCK_TRAILER_SIZE;
      done, offsets := done + [dataBlock], offsets + [pendingOffset];
      dataBlock := [];
      pendingIndex := true;
      if filter != null {
        FilterAhead(filter.groups, filter.pending, old(offset), old(done), old(offsets), old(dataBlock), userBytes, offset);
        filter.StartBlock(offset);
        FlushFiltered(old(filter.groups), old(filter.pending), filter.groups, filter.pending, old(offset), offset,
                      old(done), old(offsets), old(dataBlock), userBytes);
      }
    }

    /** Writes out what is left, gives the last block its index entry, and closes the table. */
    method Finish(length: nat) returns (t: TableFile, ghost parts: seq<seq<Entry>>, ghost groups: seq<seq<Bytes>>)
      requires Valid()
      modifies this, filter
      ensures entries == old(entries) && Concat(parts) == entries && Indexed(t, parts)
      ensures parts == old(done) + if old(dataBlock) == [] then [] else [old(dataBlock)]
      ensures t.index == old(index) +
        if old(dataBlock) != [] then [IndexEntry(InternalSuccessor(old(lastKey), succ, size), old(offset))]
        else if old(pendingIndex) then [IndexEntry(InternalSuccessor(old(lastKey), succ, size), old(pendingOffset))] else []
      ensures filter == null ==> t.filter.None?
      ensures filter != null ==> t.filter == Some(FilterBlock(filter.create, groups)) && KnowsAll(t.index, parts, groups, userBytes)
    {
      hide FilterBlockBuilder.Valid, Written, Separates, Sorted, Concat, AllFiltered, FilterBlock, Between, Indexed, KnowsAll,
           InternalSuccessor, Flatten, KeyStarts, FiltersBytes, FilterOffsets;
      Flush(length);
      assert entries == Concat(done);
      LastEntry(index, blocks, offset, done, offsets, [], pendingIndex);
      parts, groups := done, [];
      if pendingIndex {
        InternalSuccessorAfter(lastKey, succ, size);
        LastIndexed(index, blocks, offset, done, offsets, InternalSuccessor(lastKey, succ, size));
        index := index + [IndexEntry(InternalSuccessor(lastKey, succ, size), pendingOffset)];
        pendingIndex := false;
      } else {
        NothingIndexed(index, blocks, offset, done, offsets);
      }
      t := TableFile(index, blocks, None);
      if filter != null {
        groups := if filter.pending == [] then filter.groups else filter.groups + [filter.pending];
        FinishedFiltered(filter.groups, filter.pending, offset, done, offsets, index, userBytes, groups);
        var contents := filter.Finish();
        t := t.(filter := Some(contents));
      }
      IndexedAnyFilter(index, blocks, parts, t);
    }
  }

  /** Every user key of block j is in the filter group of its offset. */
  ghost predicate KnowsAll(index: seq<IndexEntry>, parts: seq<seq<Entry>>, groups: seq<seq<Bytes>>, userBytes: UserKey -> Bytes) {
    && |index| == |parts|
    && forall j, e :: 0 <= j < |parts| && e in parts[j] ==> Known(groups, index[j].offset, userBytes(e.key.user))
  }

  ghost predicate Known(groups: seq<seq<Bytes>>, offset: nat, key: Bytes) {
    offset / FILTER_BASE < |groups| && key in groups[offset / FILTER_BASE]
  }

  lemma FinishedFiltered(groups: seq<seq<Bytes>>, pending: seq<Bytes>, offset: nat, done: seq<seq<Entry>>, offsets: seq<nat>,
                         index: seq<IndexEntry>, userBytes: UserKey -> Bytes, all: seq<seq<Bytes>>)
    requires AllFiltered(groups, pending, offset, done, offsets, [], userBytes)
    requires all == if pending == [] then groups else groups + [pending]
    requires |index| == |done| && forall j :: 0 <= j < |done| ==> index[j].offset == offsets[j]
    ensures KnowsAll(index, done, all, userBytes)
  {
    forall j, e | 0 <= j < |done| && e in done[j]
      ensures Known(all, index[j].offset, userBytes(e.key.user))
    {
      assert BlockFiltered(groups, pending, offsets[j], done[j], userBytes);
      assert Filtered(groups, pending, offsets[j], userBytes(e.key.user));
    }
  }

  /** The last block's index entry is at or after its last key. */
  lemma LastIndexed(index: seq<IndexEntry>, blocks: map<nat, seq<Entry>>, offset: nat, done: seq<seq<Entry>>, offsets: seq<nat>, key: InternalKey)
    requires Written(index, blocks, offset, done, offsets, [], true) && done != [] && done[|done| - 1] != [] && Sorted(Concat(done))
    requires var last := done[|done| - 1]; AtMost(last[|last| - 1].key, key)
    ensures var index' := index + [IndexEntry(key, offsets[|offsets| - 1])];
      && Indexed(TableFile(index', blocks, None), done)
      && |index'| == |offsets| && forall j :: 0 <= j < |done| ==> index'[j].offset == offsets[j]
  {
    hide Sorted, Concat, Less;
    var index' := index + [IndexEntry(key, offsets[|offsets| - 1])];
    forall j | 0 <= j < |done|
      ensures done[j] != [] && index'[j].offset == offsets[j] && offsets[j] in blocks && blocks[offsets[j]] == done[j]
      ensures Separated(index', done, j)
    {
      assert Stored(blocks, offset, done, offsets, j);
      assert j < |index| ==> Points(index, done, offsets, [], j);
    }
  }

  lemma NothingIndexed(index: seq<IndexEntry>, blocks: map<nat, seq<Entry>>, offset: nat, done: seq<seq<Entry>>, offsets: seq<nat>)
    requires Written(index, blocks, offset, done, offsets, [], false) && Sorted(Concat(done))
    ensures done == [] && Indexed(TableFile(index, blocks, None), done) && |index| == |offsets| == 0
  {
  }

  lemma IndexedAnyFilter(index: seq<IndexEntry>, blocks: map<nat, seq<Entry>>, done: seq<seq<Entry>>, t: TableFile)
    requires Indexed(TableFile(index, blocks, None), done) && t.index == index && t.blocks == blocks
    ensures Indexed(t, done)
  {
  }

  // ----- Looking up -----

  /** The first index entry at or after k, as the index block's cursor finds it. */
  method SeekIndex(index: seq<IndexEntry>, k: InternalKey) returns (i: nat)
    ensures i <= |index| && (forall j :: 0 <= j < i ==> Less(index[j].key, k))
    ensures i < |index| ==> AtMost(k, index[i].key)
  {
    i := 0;
    while i < |index| && Less(index[i].key, k)
      invariant i <= |index| && forall j :: 0 <= j < i ==> Less(index[j].key, k)
    {
      i := i + 1;
    }
  }

  /** The filter of the 2 KB the block starts in rules the key out. */
  ghost predicate Denied(t: TableFile, i: nat, create: seq<Bytes> -> Bytes, mayMatch: (Bytes, Bytes) -> bool, groups: seq<seq<Bytes>>, key: Bytes)
    requires i < |t.index|
  {
    var g := t.index[i].offset / 2048;
    t.filter.Some? && g < |groups| && !mayMatch(key, FilterOf(create, groups[g]))
  }

  /** Table::InternalGet: at most one block is read, and none when the filter rules the user key out. */
  method InternalGet(t: TableFile, k: InternalKey, userBytes: UserKey -> Bytes, create: seq<Bytes> -> Bytes, mayMatch: (Bytes, Bytes) -> bool,
                     ghost parts: seq<seq<Entry>>, ghost groups: seq<seq<Bytes>>)
    returns (r: Option<Entry>, ghost sought: nat)
    requires Indexed(t, parts)
    requires t.filter.Some? ==> t.filter.value == FilterBlock(create, groups) && |t.filter.value| < TWO_32
    requires t.filter.Some? ==> NoFalseNegatives(create, mayMatch) && KnowsAll(t.index, parts, groups, userBytes)
    ensures r.Some? ==> IsFirstFrom(Concat(parts), k, r.value)
    ensures forall e :: IsFirstFrom(Concat(parts), k, e) && e.key.user == k.user ==> r == Some(e)
    ensures |parts| == |t.index| && sought <= |t.index| && (forall j :: 0 <= j < sought ==> Less(t.index[j].key, k))
    ensures sought < |t.index| ==> AtMost(k, t.index[sought].key)
    ensures r.Some? <==> sought < |t.index| && !Denied(t, sought, create, mayMatch, groups, userBytes(k.user))
                         && exists e :: e in parts[sought] && !Less(e.key, k)
    ensures r.Some? ==> r.value in parts[sought]
  {
    hide Indexed, KnowsAll, IsFirstFrom, NoFalseNegatives, FilterBlock, FilterOf, Concat, Less;
    r := None;
    var i := SeekIndex(t.index, k);
    IndexMisses(t, parts, k, i);
    IndexedLength(t, parts);
    sought := i;
    if i < |t.index| {
      var offset := t.index[i].offset;
      forall e | IsFirstFrom(Concat(parts), k, e) && e.key.user == k.user
        ensures e in parts[i]
      {
        FirstIsInBlock(t, parts, k, i, e);
      }
      BlockPlaced(t, parts, i);
      if t.filter.Some? {
        var reader := new FilterBlockReader(mayMatch, t.filter.value);
        var possible := reader.KeyMayMatch(offset, userBytes(k.user), create, groups);
        if !possible {
          FilterDenies(t, parts, groups, create, mayMatch, userBytes, k, i);
          return;
        }
      }
      var cursor := new Cursor(t.blocks[offset]);
      cursor.Seek(k);
      SoughtInBlock(t, parts, k, i, cursor.pos);
      FirstSought(parts, k, i, cursor.pos);
      if cursor.IsValid() {
        r := Some(cursor.Current());
      }
    }
  }

  lemma IndexedLength(t: TableFile, parts: seq<seq<Entry>>)
    requires Indexed(t, parts)
    ensures |parts| == |t.index|
  {
  }

  /** Whatever of the block is the table's first entry at or after k, the cursor is on it. */
  lemma FirstSought(parts: seq<seq<Entry>>, k: InternalKey, i: nat, p: nat)
    requires i < |parts| && p <= |parts[i]| && (forall x :: 0 <= x < p ==> Less(parts[i][x].key, k))
    requires p < |parts[i]| ==> IsFirstFrom(Concat(parts), k, parts[i][p])
    ensures forall e :: IsFirstFrom(Concat(parts), k, e) && e in parts[i] ==> p < |parts[i]| && e == parts[i][p]
  {
    hide Concat, Less;
    forall e | IsFirstFrom(Concat(parts), k, e) && e in parts[i]
      ensures p < |parts[i]| && e == parts[i][p]
    {
      var x :| 0 <= x < |parts[i]| && parts[i][x] == e;
      if p < |parts[i]| {
        FirstUnique(Concat(parts), k, e, parts[i][p]);
      }
    }
  }

  lemma FirstUnique(es: seq<Entry>, k: InternalKey, e: Entry, f: Entry)
    requires IsFirstFrom(es, k, e) && IsFirstFrom(es, k, f)
    ensures e == f
  {
    var p :| 0 <= p < |es| && FirstFromAt(es, k, p) && es[p] == e;
    var q :| 0 <= q < |es| && FirstFromAt(es, k, q) && es[q] == f;
    assert p == q;
  }

  /** Every block before the one the index leads to lies before k. */
  lemma EarlierBlocks(t: TableFile, parts: seq<seq<Entry>>, k: InternalKey, i: nat)
    requires Indexed(t, parts) && i <= |t.index| && (forall j :: 0 <= j < i ==> Less(t.index[j].key, k))
    ensures i <= |parts| && BlockStart(parts, i) <= |Concat(parts)|
    ensures forall x :: 0 <= x < BlockStart(parts, i) ==> Less(Concat(parts)[x].key, k)
  {
    hide Concat, Less;
    if i > 0 {
      var j := i - 1;
      assert Separated(t.index, parts, j);
      var last := |parts[j]| - 1;
      BlockAt(parts, j, last);
      var at := BlockStart(parts, j) + last;
      assert BlockStart(parts, i) == at + 1;
      assert Concat(parts)[at] == parts[j][last];
      BeforeAll(Concat(parts), k, t.index[j].key, at);
    } else {
      NoBlocks(parts);
    }
  }

  lemma NoBlocks(parts: seq<seq<Entry>>)
    ensures BlockStart(parts, 0) == 0
  {
    assert parts[..0] == [];
  }

  lemma BeforeAll(es: seq<Entry>, k: InternalKey, between: InternalKey, at: nat)
    requires Sorted(es) && at < |es| && AtMost(es[at].key, between) && Less(between, k)
    ensures forall x :: 0 <= x <= at ==> Less(es[x].key, k)
  {
    assert forall x :: 0 <= x < at ==> Less(es[x].key, es[at].key);
  }

  /** Past the last index key there is nothing at or after k. */
  lemma IndexMisses(t: TableFile, parts: seq<seq<Entry>>, k: InternalKey, i: nat)
    requires Indexed(t, parts) && i <= |t.index| && (forall j :: 0 <= j < i ==> Less(t.index[j].key, k))
    ensures |t.index| == |parts|
    ensures i == |t.index| ==> forall e :: !IsFirstFrom(Concat(parts), k, e)
  {
    hide Concat, Less;
    EarlierBlocks(t, parts, k, i);
    assert parts[..|parts|] == parts;
  }

  /** Entries of the block the index leads to, in the whole table. */
  lemma BlockPlaced(t: TableFile, parts: seq<seq<Entry>>, i: nat)
    requires Indexed(t, parts) && i < |t.index|
    ensures t.index[i].offset in t.blocks && t.blocks[t.index[i].offset] == parts[i] != []
    ensures BlockStart(parts, i) + |parts[i]| == BlockStart(parts, i + 1) <= |Concat(parts)|
    ensures forall x :: 0 <= x < |parts[i]| ==> Concat(parts)[BlockStart(parts, i) + x] == parts[i][x]
    ensures Sorted(parts[i])
  {
    hide Concat, Less;
    forall x | 0 <= x < |parts[i]|
      ensures BlockStart(parts, i) + |parts[i]| == BlockStart(parts, i + 1) <= |Concat(parts)|
      ensures Concat(parts)[BlockStart(parts, i) + x] == parts[i][x]
    {
      BlockAt(parts, i, x);
    }
    assert parts[i][0] == parts[i][0];
    BlockAt(parts, i, 0);
  }

  /** The first entry at or after k is in that block, unless its user key is another one. */
  lemma FirstIsInBlock(t: TableFile, parts: seq<seq<Entry>>, k: InternalKey, i: nat, e: Entry)
    requires Indexed(t, parts) && i < |t.index| && (forall j :: 0 <= j < i ==> Less(t.index[j].key, k)) && AtMost(k, t.index[i].key)
    requires IsFirstFrom(Concat(parts), k, e) && e.key.user == k.user
    ensures e in parts[i]
  {
    hide Concat;
    var all, from, to := Concat(parts), BlockStart(parts, i), BlockStart(parts, i + 1);
    EarlierBlocks(t, parts, k, i);
    BlockPlaced(t, parts, i);
    var p :| 0 <= p < |all| && FirstFromAt(all, k, p) && all[p] == e;
    if p < to {
      assert all[p] == parts[i][p - from];
    } else {
      LaterOtherUser(t, parts, k, i, p);
    }
  }

  lemma LaterOtherUser(t: TableFile, parts: seq<seq<Entry>>, k: InternalKey, i: nat, p: nat)
    requires Indexed(t, parts) && i < |t.index| && AtMost(k, t.index[i].key)
    requires BlockStart(parts, i + 1) <= p < |Concat(parts)| && FirstFromAt(Concat(parts), k, p)
    ensures Concat(parts)[p].key.user != k.user
  {
    hide Concat;
    var all, from, to := Concat(parts), BlockStart(parts, i), BlockStart(parts, i + 1);
    NextBlock(parts, i, p);
    BlockPlaced(t, parts, i);
    BlockPlaced(t, parts, i + 1);
    var last, next := parts[i][|parts[i]| - 1], parts[i + 1][0];
    assert all[to - 1] == last && Less(last.key, k);
    assert all[to + 0] == next;
    assert Separated(t.index, parts, i);
    assert !Less(next.key, k);
  }

  lemma NextBlock(parts: seq<seq<Entry>>, i: nat, p: nat)
    requires i < |parts| && BlockStart(parts, i + 1) <= p < |Concat(parts)|
    ensures i + 1 < |parts|
  {
    assert parts[..|parts|] == parts;
  }

  /** A block the filter denies holds no entry of the user key. */
  lemma FilterDenies(t: TableFile, parts: seq<seq<Entry>>, groups: seq<seq<Bytes>>, create: seq<Bytes> -> Bytes,
                     mayMatch: (Bytes, Bytes) -> bool, userBytes: UserKey -> Bytes, k: InternalKey, i: nat)
    requires NoFalseNegatives(create, mayMatch) && KnowsAll(t.index, parts, groups, userBytes) && i < |t.index|
    requires var g := t.index[i].offset / FILTER_BASE; g < |groups| && !mayMatch(userBytes(k.user), FilterOf(create, groups[g]))
    ensures forall e :: e in parts[i] ==> e.key.user != k.user
  {
    forall e | e in parts[i]
      ensures e.key.user != k.user
    {
      assert Known(groups, t.index[i].offset, userBytes(e.key.user));
    }
  }

  /** The block's cursor stops at the table's first entry at or after k, if that is in the block. */
  lemma SoughtInBlock(t: TableFile, parts: seq<seq<Entry>>, k: InternalKey, i: nat, p: nat)
    requires Indexed(t, parts) && i < |t.index| && (forall j :: 0 <= j < i ==> Less(t.index[j].key, k))
    requires p <= |parts[i]| && (forall x :: 0 <= x < p ==> Less(parts[i][x].key, k))
    requires forall x :: p <= x < |parts[i]| ==> !Less(parts[i][x].key, k)
    ensures p < |parts[i]| ==> IsFirstFrom(Concat(parts), k, parts[i][p])
  {
    hide Concat, Less;
    EarlierBlocks(t, parts, k, i);
    BlockPlaced(t, parts, i);
    if p < |parts[i]| {
      var all, from := Concat(parts), BlockStart(parts, i);
      forall x | 0 <= x < from + p
        ensures Less(all[x].key, k)
      {
        assert x >= from ==> all[x] == parts[i][x - from];
      }
      assert all[from + p] == parts[i][p];
      assert FirstFromAt(all, k, from + p);
    }
  }
}
