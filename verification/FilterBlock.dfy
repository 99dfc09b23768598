/** The filter block: one filter for every 2 KB of file offsets, over the keys of the data blocks that start there. */
module FilterBlocks {
  import opened Coding

  const FILTER_BASE_LG: nat := 11
  const FILTER_BASE: nat := 2048

  /** A filter policy never denies a key its filter was made from. */
  ghost predicate NoFalseNegatives(create: seq<Bytes> -> Bytes, mayMatch: (Bytes, Bytes) -> bool) {
    forall keys: seq<Bytes>, k: Bytes :: k in keys ==> mayMatch(k, create(keys))
  }

  function Flatten(keys: seq<Bytes>): Bytes {
    if keys == [] then [] else Flatten(keys[..|keys| - 1]) + keys[|keys| - 1]
  }

  /** Where each key starts in the flattened keys. */
  function KeyStarts(keys: seq<Bytes>): seq<nat> {
    if keys == [] then [] else KeyStarts(keys[..|keys| - 1]) + [|Flatten(keys[..|keys| - 1])|]
  }

  /** The filter bytes of a group; no keys, no filter. */
  function FilterOf(create: seq<Bytes> -> Bytes, keys: seq<Bytes>): Bytes {
    if keys == [] then [] else create(keys)
  }

  function FiltersBytes(create: seq<Bytes> -> Bytes, groups: seq<seq<Bytes>>): Bytes {
    if groups == [] then [] else FiltersBytes(create, groups[..|groups| - 1]) + FilterOf(create, groups[|groups| - 1])
  }

  function FilterOffsets(create: seq<Bytes> -> Bytes, groups: seq<seq<Bytes>>): seq<nat> {
    if groups == [] then [] else
      FilterOffsets(create, groups[..|groups| - 1]) + [|FiltersBytes(create, groups[..|groups| - 1])|]
  }

  /** The finished block: the filters, where each starts, where that array starts, and the base. */
  function FilterBlock(create: seq<Bytes> -> Bytes, groups: seq<seq<Bytes>>): Bytes {
    var filters := FiltersBytes(create, groups);
    filters + Words(FilterOffsets(create, groups)) + Fixed(|filters|, 4) + [FILTER_BASE_LG]
  }

  lemma {:induction false} KeySlice(keys: seq<Bytes>, i: nat)
    requires i < |keys|
    ensures |KeyStarts(keys)| == |keys|
    ensures var from, to := KeyStarts(keys)[i], if i + 1 < |keys| then KeyStarts(keys)[i + 1] else |Flatten(keys)|;
      from <= to <= |Flatten(keys)| && Flatten(keys)[from..to] == keys[i]
  {
    var n := |keys| - 1;
    var before := keys[..n];
    KeyStartsLength(before);
    if i < n {
      KeySlice(before, i);
      var from, to := KeyStarts(before)[i], if i + 1 < n then KeyStarts(before)[i + 1] else |Flatten(before)|;
      SliceLeft(Flatten(before), keys[n], from, to);
    } else {
      SliceRight(Flatten(before), keys[n], 0, |keys[n]|);
      assert keys[n][0..|keys[n]|] == keys[n];
    }
  }

  lemma {:induction false} KeyStartsLength(keys: seq<Bytes>)
    ensures |KeyStarts(keys)| == |keys|
  {
    if keys != [] {
      KeyStartsLength(keys[..|keys| - 1]);
    }
  }

  lemma {:induction false} FilterSlice(create: seq<Bytes> -> Bytes, groups: seq<seq<Bytes>>, i: nat)
    requires i < |groups|
    ensures |FilterOffsets(create, groups)| == |groups|
    ensures var offsets, filters := FilterOffsets(create, groups), FiltersBytes(create, groups);
      var from, to := offsets[i], if i + 1 < |groups| then offsets[i + 1] else |filters|;
      from <= to <= |filters| && filters[from..to] == FilterOf(create, groups[i])
  {
    hide FilterOf;
    var n := |groups| - 1;
    var before := groups[..n];
    var rest, last := FiltersBytes(create, before), FilterOf(create, groups[n]);
    FilterOffsetsLength(create, before);
    if i < n {
      FilterSlice(create, before, i);
      var from, to := FilterOffsets(create, before)[i], if i + 1 < n then FilterOffsets(create, before)[i + 1] else |rest|;
      SliceLeft(rest, last, from, to);
    } else {
      SliceRight(rest, last, 0, |last|);
      assert last[0..|last|] == last;
    }
  }

  lemma {:induction false} FilterOffsetsLength(create: seq<Bytes> -> Bytes, groups: seq<seq<Bytes>>)
    ensures |FilterOffsets(create, groups)| == |groups|
  {
    if groups != [] {
      FilterOffsetsLength(create, groups[..|groups| - 1]);
    }
  }

  class FilterBlockBuilder {
    const create: seq<Bytes> -> Bytes
    var keys: Bytes
    var start: seq<nat>
    var result: Bytes
    var filterOffsets: seq<nat>
    ghost var groups: seq<seq<Bytes>>   // the keys behind each filter made so far
    ghost var pending: seq<Bytes>       // the keys added since

    ghost predicate Valid()
      reads this
    {
      && keys == Flatten(pending) && start == KeyStarts(pending)
      && result == FiltersBytes(create, groups) && filterOffsets == FilterOffsets(create, groups) && |filterOffsets| == |groups|
    }

    constructor (create: seq<Bytes> -> Bytes)
      ensures Valid() && this.create == create && groups == [] && pending == []
    {
      this.create := create;
      keys, start, result, filterOffsets, groups, pending := [], [], [], [], [], [];
    }

    /** Makes filters until the one for this offset is next. */
    method StartBlock(blockOffset: nat)
      requires Valid() && blockOffset / FILTER_BASE >= |groups|
      modifies this
      ensures Valid() && |groups| == blockOffset / 2048
      ensures if old(|groups|) == |groups| then groups == old(groups) && pending == old(pending)
              else pending == [] && groups == old(groups) + [old(pending)] + seq(|groups| - |old(groups)| - 1, _ => [])
    {
      var filterIndex := blockOffset / FILTER_BASE;
      while filterIndex > |filterOffsets|
        invariant Valid() && |groups| <= filterIndex
        invariant if old(|groups|) == |groups| then groups == old(groups) && pending == old(pending)
                  else pending == [] && groups == old(groups) + [old(pending)] + seq(|groups| - |old(groups)| - 1, _ => [])
      {
        GenerateFilter();
      }
    }

    method AddKey(key: Bytes)
      requires Valid()
      modifies this
      ensures Valid() && groups == old(groups) && pending == old(pending) + [key]
    {
      assert (pending + [key])[..|pending|] == pending;
      start := start + [|keys|];
      keys := keys + key;
      pending := pending + [key];
    }

    method GenerateFilter()
      requires Valid()
      modifies this
      ensures Valid() && groups == old(groups) + [old(pending)] && pending == []
    {
      hide FilterOf;
      assert (groups + [pending])[..|groups|] == groups;
      KeyStartsLength(pending);
      var numKeys := |start|;
      ghost var made := FilterOf(create, pending);
      if numKeys == 0 {
        filterOffsets := filterOffsets + [|result|];
        NoFilter(create);
      } else {
        start := start + [|keys|];
        var tmpKeys := [];
        for i := 0 to numKeys
          invariant |pending| == numKeys && tmpKeys == pending[..i] && start == old(start) + [|keys|] && keys == old(keys) && pending == old(pending)
          invariant result == old(result) && filterOffsets == old(filterOffsets) && groups == old(groups)
        {
          KeySlice(pending, i);
          tmpKeys := tmpKeys + [keys[start[i]..start[i + 1]]];
        }
        assert pending[..numKeys] == pending;
        SomeFilter(create, pending);
        filterOffsets := filterOffsets + [|result|];
        result := result + create(tmpKeys);
        keys, start := [], [];
      }
      groups, pending := groups + [pending], [];
    }

    method Finish() returns (contents: Bytes)
      requires Valid()
      modifies this
      ensures contents == FilterBlock(create, if old(pending) == [] then old(groups) else old(groups) + [old(pending)])
    {
      KeyStartsLength(pending);
      if start != [] {
        GenerateFilter();
      }
      var arrayOffset := |result|;
      var offsets := PutWords(filterOffsets);
      contents := result + offsets + Fixed(arrayOffset, 4) + [FILTER_BASE_LG];
    }
  }

  lemma NoFilter(create: seq<Bytes> -> Bytes)
    ensures FilterOf(create, []) == []
  {
  }

  lemma SomeFilter(create: seq<Bytes> -> Bytes, keys: seq<Bytes>)
    requires keys != []
    ensures FilterOf(create, keys) == create(keys)
  {
  }

  // ----- Reading -----

  class FilterBlockReader {
    const mayMatch: (Bytes, Bytes) -> bool
    const contents: Bytes
    const offset: nat
    const num: nat
    const baseLg: nat

    ghost predicate Valid() {
      var n := |contents|;
      if n < 5 || FromFixed(contents[n - 5..n - 1]) > n - 5 then num == 0
      else offset == FromFixed(contents[n - 5..n - 1]) && num == (n - 5 - offset) / 4 && baseLg == contents[n - 1]
    }

    constructor (mayMatch: (Bytes, Bytes) -> bool, contents: Bytes)
      ensures Valid() && this.mayMatch == mayMatch && this.contents == contents
    {
      this.mayMatch, this.contents := mayMatch, contents;
      var n := |contents|;
      if n < 5 {
        offset, num, baseLg := 0, 0, 0;
      } else {
        var lastWord := FromFixed(contents[n - 5..n - 1]);
        baseLg := contents[n - 1];
        if lastWord > n - 5 {
          offset, num := 0, 0;
        } else {
          offset, num := lastWord, (n - 5 - lastWord) / 4;
        }
      }
    }

    /** Unreadable filters match everything; otherwise the policy decides on the filter for the block's offset. */
    method KeyMayMatch(blockOffset: nat, key: Bytes, ghost create: seq<Bytes> -> Bytes, ghost groups: seq<seq<Bytes>>) returns (r: bool)
      requires Valid()
      ensures contents == FilterBlock(create, groups) && |contents| < TWO_32 ==>
          (r <==> (blockOffset / 2048 < |groups| ==> mayMatch(key, FilterOf(create, groups[blockOffset / 2048]))))
      ensures |contents| < 5 || FromFixed(contents[|contents| - 5..|contents| - 1]) > |contents| - 5 ==> r
    {
      hide FromFixed, FilterBlock, FilterOf, FiltersBytes, Index;
      ghost var built := contents == FilterBlock(create, groups) && |contents| < TWO_32;
      if built {
        TrailerRead(contents, create, groups);
        FilterIndex(blockOffset);
      }
      var index := Index(blockOffset, baseLg);
      r := true;
      if index < num {
        var at := offset + index * 4;
        var start, limit := FromFixed(contents[at..at + 4]), FromFixed(contents[at + 4..at + 8]);
        if built {
          FilterRead(contents, create, groups, index);
        }
        if start <= limit && limit <= offset {
          r := mayMatch(key, contents[start..limit]);
        } else if start == limit {
          r := false;
        }
      }
    }
  }

  /** blockOffset >> baseLg. */
  function Index(blockOffset: nat, baseLg: nat): nat {
    if baseLg == 0 then blockOffset else Index(blockOffset / 2, baseLg - 1)
  }

  lemma FilterIndex(blockOffset: nat)
    ensures Index(blockOffset, FILTER_BASE_LG) == blockOffset / FILTER_BASE
  {
    IndexTwice(blockOffset, 9);
    IndexTwice(blockOffset / 4, 7);
    IndexTwice(blockOffset / 16, 5);
    IndexTwice(blockOffset / 64, 3);
    IndexTwice(blockOffset / 256, 1);
    assert blockOffset / 4 / 4 == blockOffset / 16 && blockOffset / 16 / 4 == blockOffset / 64;
    assert blockOffset / 64 / 4 == blockOffset / 256 && blockOffset / 256 / 4 == blockOffset / 1024;
    assert Index(blockOffset / 1024, 1) == blockOffset / 1024 / 2;
  }

  lemma IndexTwice(x: nat, n: nat)
    ensures Index(x, n + 2) == Index(x / 4, n)
  {
    assert x / 2 / 2 == x / 4;
  }

  lemma TrailerRead(contents: Bytes, create: seq<Bytes> -> Bytes, groups: seq<seq<Bytes>>)
    requires contents == FilterBlock(create, groups) && |contents| < TWO_32
    ensures |contents| >= 5 && contents[|contents| - 1] == FILTER_BASE_LG
    ensures FromFixed(contents[|contents| - 5..|contents| - 1]) == |FiltersBytes(create, groups)|
    ensures |contents| == |FiltersBytes(create, groups)| + 4 * |groups| + 5
  {
    hide FiltersBytes, FilterOffsets, Words, Fixed, FromFixed;
    var filters := FiltersBytes(create, groups);
    var offsets := Words(FilterOffsets(create, groups));
    FilterOffsetsLength(create, groups);
    WordsLength(FilterOffsets(create, groups));
    Widths();
    FixedRoundTrip(|filters|, 4);
    assert contents[|contents| - 5..|contents| - 1] == Fixed(|filters|, 4);
  }

  /** The words around a filter's index are where it starts and where it ends. */
  lemma FilterRead(contents: Bytes, create: seq<Bytes> -> Bytes, groups: seq<seq<Bytes>>, i: nat)
    requires contents == FilterBlock(create, groups) && |contents| < TWO_32 && i < |groups|
    ensures var at := |FiltersBytes(create, groups)| + 4 * i;
      && at + 8 <= |contents|
      && var from, to := FromFixed(contents[at..at + 4]), FromFixed(contents[at + 4..at + 8]);
        from <= to <= |FiltersBytes(create, groups)| && contents[from..to] == FilterOf(create, groups[i])
  {
    hide FiltersBytes, FilterOffsets, Words, Fixed, FromFixed, FilterOf;
    var filters, starts := FiltersBytes(create, groups), FilterOffsets(create, groups);
    FilterSlice(create, groups, i);
    var all := starts + [|filters|];
    AllWords(starts, |filters|);
    assert contents == filters + (Words(all) + [FILTER_BASE_LG]);
    WordsAt(all, i);
    WordsAt(all, i + 1);
    var words := Words(all);
    SliceRight(filters, words + [FILTER_BASE_LG], 4 * i, 4 * i + 4);
    SliceRight(filters, words + [FILTER_BASE_LG], 4 * i + 4, 4 * i + 8);
    SliceLeft(words, [FILTER_BASE_LG], 4 * i, 4 * i + 4);
    SliceLeft(words, [FILTER_BASE_LG], 4 * i + 4, 4 * i + 8);
    Widths();
    FixedRoundTrip(all[i], 4);
    FixedRoundTrip(all[i + 1], 4);
    SliceLeft(filters, words + [FILTER_BASE_LG], all[i], all[i + 1]);
  }

  lemma AllWords(ws: seq<nat>, w: nat)
    ensures Words(ws + [w]) == Words(ws) + Fixed(w, 4)
  {
    assert (ws + [w])[..|ws|] == ws;
  }
}
