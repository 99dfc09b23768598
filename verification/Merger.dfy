/** MergingIterator: one cursor over the sorted union of its children, in both directions. */
module Merger {
  import opened InternalKeys
  import opened Cursors

  /** The child stands at its first key at or after k. */
  ghost predicate AtOrAfter(c: Cursor, k: InternalKey)
    reads c
  {
    && (forall a :: 0 <= a < c.pos && a < |c.entries| ==> Less(c.entries[a].key, k))
    && (forall a :: c.pos <= a < |c.entries| ==> !Less(c.entries[a].key, k))
  }

  /** The child stands at its first key after k. */
  ghost predicate After(c: Cursor, k: InternalKey)
    reads c
  {
    && (forall a :: 0 <= a < c.pos && a < |c.entries| ==> !Less(k, c.entries[a].key))
    && (forall a :: c.pos <= a < |c.entries| ==> Less(k, c.entries[a].key))
  }

  /** The child stands at its last key before k, or nowhere if it has none. */
  ghost predicate Before(c: Cursor, k: InternalKey)
    reads c
  {
    var p := if c.pos < |c.entries| then c.pos else -1;
    && (forall a :: 0 <= a <= p ==> Less(c.entries[a].key, k))
    && (forall a :: p < a < |c.entries| ==> !Less(c.entries[a].key, k))
  }

  /** k is a key of one of the children. */
  ghost predicate InUnion(children: seq<Cursor>, k: InternalKey) {
    exists i, a :: 0 <= i < |children| && 0 <= a < |children[i].entries| && children[i].entries[a].key == k
  }

  /** No key occurs in two children. */
  ghost predicate Distinct(children: seq<Cursor>) {
    forall i, j, a, b :: 0 <= i < j < |children| && 0 <= a < |children[i].entries| && 0 <= b < |children[j].entries|
      ==> children[i].entries[a].key != children[j].entries[b].key
  }

  class MergingIterator {
    const children: seq<Cursor>
    var current: Option<nat>
    var forward: bool

    constructor (children: seq<Cursor>)
      requires forall i :: 0 <= i < |children| ==> children[i].Valid() && !children[i].IsValid()
      requires forall i, j :: 0 <= i < j < |children| ==> children[i] != children[j]
      ensures this.children == children && Valid() && Positioned() && current.None?
    {
      this.children, current, forward := children, None, true;
    }

    ghost predicate Valid()
      reads this, children
    {
      && (forall i :: 0 <= i < |children| ==> children[i].Valid())
      && (forall i, j :: 0 <= i < j < |children| ==> children[i] != children[j])
      && (current.Some? ==> current.value < |children| && children[current.value].IsValid())
    }

    function Key(): InternalKey
      requires Valid() && current.Some?
      reads this, children
    {
      children[current.value].Current().key
    }

    /** Where the children stand around the current key. */
    ghost predicate Positioned()
      requires Valid()
      reads this, children
    {
      forall i :: 0 <= i < |children| ==>
        if current.None? then !children[i].IsValid()
        else if forward then AtOrAfter(children[i], Key())
        else i != current.value ==> Before(children[i], Key())
    }

    /** The valid child with the smallest key. */
    method FindSmallest()
      requires forall i :: 0 <= i < |children| ==> children[i].Valid()
      requires forall i, j :: 0 <= i < j < |children| ==> children[i] != children[j]
      modifies `current
      ensures Valid()
      ensures current.None? ==> forall i :: 0 <= i < |children| ==> !children[i].IsValid()
      ensures current.Some? ==> forall i :: 0 <= i < |children| && children[i].IsValid() ==> !Less(children[i].Current().key, Key())
    {
      var smallest: Option<nat> := None;
      for i := 0 to |children|
        invariant smallest.None? ==> forall j :: 0 <= j < i ==> !children[j].IsValid()
        invariant smallest.Some? ==> smallest.value < i && children[smallest.value].IsValid()
        invariant smallest.Some? ==> forall j :: 0 <= j < i && children[j].IsValid() ==>
          !Less(children[j].Current().key, children[smallest.value].Current().key)
      {
        if children[i].IsValid() {
          if smallest.None? || Less(children[i].Current().key, children[smallest.value].Current().key) {
            smallest := Some(i);
          }
        }
      }
      current := smallest;
    }

    /** The valid child with the largest key. */
    method FindLargest()
      requires forall i :: 0 <= i < |children| ==> children[i].Valid()
      requires forall i, j :: 0 <= i < j < |children| ==> children[i] != children[j]
      modifies `current
      ensures Valid()
      ensures current.None? ==> forall i :: 0 <= i < |children| ==> !children[i].IsValid()
      ensures current.Some? ==> forall i :: 0 <= i < |children| && children[i].IsValid() ==> !Less(Key(), children[i].Current().key)
    {
      var largest: Option<nat> := None;
      for i := |children| downto 0
        invariant largest.None? ==> forall j :: i <= j < |children| ==> !children[j].IsValid()
        invariant largest.Some? ==> i <= largest.value < |children| && children[largest.value].IsValid()
        invariant largest.Some? ==> forall j :: i <= j < |children| && children[j].IsValid() ==>
          !Less(children[largest.value].Current().key, children[j].Current().key)
      {
        if children[i].IsValid() {
          if largest.None? || Less(children[largest.value].Current().key, children[i].Current().key) {
            largest := Some(i);
          }
        }
      }
      current := largest;
    }

    /** Everything ahead of the children is at or after the smallest of them. */
    lemma SmallestIsLeast()
      requires Valid()
      requires current.None? ==> forall i :: 0 <= i < |children| ==> !children[i].IsValid()
      requires current.Some? ==> forall i :: 0 <= i < |children| && children[i].IsValid() ==> !Less(children[i].Current().key, Key())
      ensures forall i, a :: 0 <= i < |children| && children[i].pos <= a < |children[i].entries| ==>
        current.Some? && !Less(children[i].entries[a].key, Key())
    {
      forall i, a | 0 <= i < |children| && children[i].pos <= a < |children[i].entries|
        ensures current.Some? && !Less(children[i].entries[a].key, Key())
      {
        assert children[i].IsValid();
        assert a == children[i].pos || Less(children[i].Current().key, children[i].entries[a].key);
      }
    }

    /** Everything behind the children is at or before the largest of them. */
    lemma LargestIsGreatest()
      requires Valid()
      requires current.None? ==> forall i :: 0 <= i < |children| ==> !children[i].IsValid()
      requires current.Some? ==> forall i :: 0 <= i < |children| && children[i].IsValid() ==> !Less(Key(), children[i].Current().key)
      ensures forall i, a :: 0 <= i < |children| && children[i].IsValid() && 0 <= a <= children[i].pos ==>
        current.Some? && !Less(Key(), children[i].entries[a].key)
    {
      forall i, a | 0 <= i < |children| && children[i].IsValid() && 0 <= a <= children[i].pos
        ensures current.Some? && !Less(Key(), children[i].entries[a].key)
      {
        assert a == children[i].pos || Less(children[i].entries[a].key, children[i].Current().key);
      }
    }

    method SeekToFirst()
      requires Valid()
      modifies this, children
      ensures Valid() && forward && Positioned()
      ensures forall k :: InUnion(children, k) ==> current.Some? && !Less(k, Key())
    {
      hide Less, Sorted;
      for i := 0 to |children|
        invariant forall j :: 0 <= j < |children| ==> children[j].Valid()
        invariant forall j :: 0 <= j < i ==> children[j].pos == 0
      {
        children[i].SeekToFirst();
      }
      FindSmallest();
      forward := true;
      SmallestIsLeast();
    }

    method SeekToLast()
      requires Valid()
      modifies this, children
      ensures Valid() && !forward && (Distinct(children) ==> Positioned())
      ensures forall k :: InUnion(children, k) ==> current.Some? && !Less(Key(), k)
    {
      hide Less, Sorted, InUnion, Distinct;
      for i := 0 to |children|
        invariant forall j :: 0 <= j < |children| ==> children[j].Valid()
        invariant forall j :: 0 <= j < i ==> children[j].pos == if |children[j].entries| == 0 then 0 else |children[j].entries| - 1
      {
        children[i].SeekToLast();
      }
      FindLargest();
      forward := false;
      LastPositions();
    }

    /** Children at their last entries: the largest of those is the last key of all. */
    lemma LastPositions()
      requires Valid() && !forward
      requires forall j :: 0 <= j < |children| ==> children[j].pos == if |children[j].entries| == 0 then 0 else |children[j].entries| - 1
      requires current.None? ==> forall i :: 0 <= i < |children| ==> !children[i].IsValid()
      requires current.Some? ==> forall i :: 0 <= i < |children| && children[i].IsValid() ==> !Less(Key(), children[i].Current().key)
      ensures Distinct(children) ==> Positioned()
      ensures forall k :: InUnion(children, k) ==> current.Some? && !Less(Key(), k)
    {
      hide Less, Distinct;
      LargestIsGreatest();
      if current.Some? && Distinct(children) {
        ReversePositions();
      }
    }

    /** With distinct keys, another child's key that is not after the current key is before it. */
    lemma OtherChild(i: nat, a: nat)
      requires Valid() && current.Some? && Distinct(children)
      requires i < |children| && i != current.value && a < |children[i].entries|
      ensures Less(children[i].entries[a].key, Key()) || Less(Key(), children[i].entries[a].key)
    {
      var c, p := current.value, children[current.value].pos;
      assert children[c].entries[p].key != children[i].entries[a].key;
      if !Less(children[i].entries[a].key, Key()) && !Less(Key(), children[i].entries[a].key) {
        AtMostAntisymmetric(children[i].entries[a].key, Key());
      }
    }

    /** The children stand before the largest key once everything past them is not before it. */
    lemma ReversePositions()
      requires Valid() && current.Some? && Distinct(children) && !forward
      requires forall i :: 0 <= i < |children| && children[i].IsValid() ==> !Less(Key(), children[i].Current().key)
      requires forall i, a :: 0 <= i < |children| && (children[i].IsValid() ==> children[i].pos < a) && 0 <= a < |children[i].entries| ==>
        !Less(children[i].entries[a].key, Key())
      ensures Positioned()
    {
      forall i | 0 <= i < |children| && i != current.value
        ensures Before(children[i], Key())
      {
        if children[i].IsValid() {
          OtherChild(i, children[i].pos);
          forall a | 0 <= a < children[i].pos
            ensures Less(children[i].entries[a].key, Key())
          {
            assert Less(children[i].entries[a].key, children[i].Current().key);
          }
        }
      }
    }

    method Seek(target: InternalKey)
      requires Valid()
      modifies this, children
      ensures Valid() && forward && Positioned()
      ensures current.Some? ==> !Less(Key(), target)
      ensures forall k :: InUnion(children, k) && !Less(k, target) ==> current.Some? && !Less(k, Key())
    {
      hide Less, Sorted;
      for i := 0 to |children|
        invariant forall j :: 0 <= j < |children| ==> children[j].Valid()
        invariant forall j :: 0 <= j < i ==> AtOrAfter(children[j], target)
      {
        children[i].Seek(target);
      }
      FindSmallest();
      forward := true;
      SmallestIsLeast();
      SoughtPositions(target);
    }

    /** Children at or after the target are at or after the smallest key among them. */
    lemma SoughtPositions(target: InternalKey)
      requires Valid() && forward && forall i :: 0 <= i < |children| ==> AtOrAfter(children[i], target)
      requires current.None? ==> forall i :: 0 <= i < |children| ==> !children[i].IsValid()
      requires forall i, a :: 0 <= i < |children| && children[i].pos <= a < |children[i].entries| ==>
        current.Some? && !Less(children[i].entries[a].key, Key())
      ensures Positioned() && (current.Some? ==> !Less(Key(), target))
    {
    }

    /** A child moved past the key it showed. */
    lemma NextIsAfter(c: Cursor, key: InternalKey)
      requires c.Valid() && 0 < c.pos && c.entries[c.pos - 1].key == key
      ensures After(c, key)
    {
      forall a | 0 <= a < |c.entries|
        ensures if a < c.pos then !Less(key, c.entries[a].key) else Less(key, c.entries[a].key)
      {
        assert a == c.pos - 1 || if a < c.pos then Less(c.entries[a].key, c.entries[c.pos - 1].key) else Less(c.entries[c.pos - 1].key, c.entries[a].key);
      }
    }

    /** A child moved back from the key it showed. */
    lemma PrevIsBefore(c: Cursor, key: InternalKey)
      requires c.Valid()
      requires if c.pos < |c.entries| then c.pos + 1 < |c.entries| && c.entries[c.pos + 1].key == key else c.entries != [] && c.entries[0].key == key
      ensures Before(c, key)
    {
      var at := if c.pos < |c.entries| then c.pos + 1 else 0;
      forall a | 0 <= a < |c.entries|
        ensures if a < at then Less(c.entries[a].key, key) else !Less(c.entries[a].key, key)
      {
        assert a == at || if a < at then Less(c.entries[a].key, c.entries[at].key) else Less(c.entries[at].key, c.entries[a].key);
      }
    }

    /** Children after the key are at or after the smallest key among them, which is after it too. */
    lemma AdvancedPositions(key: InternalKey)
      requires Valid() && forward && forall i :: 0 <= i < |children| ==> After(children[i], key)
      requires current.None? ==> forall i :: 0 <= i < |children| ==> !children[i].IsValid()
      requires forall i, a :: 0 <= i < |children| && children[i].pos <= a < |children[i].entries| ==>
        current.Some? && !Less(children[i].entries[a].key, Key())
      ensures Positioned() && (current.Some? ==> Less(key, Key()))
      ensures forall k :: InUnion(children, k) && Less(key, k) ==> current.Some? && !Less(k, Key())
    {
      hide InUnion;
      forall k | InUnion(children, k) && Less(key, k)
        ensures current.Some? && !Less(k, Key())
      {
        UnionAhead(key, k);
      }
    }

    lemma UnionAhead(key: InternalKey, k: InternalKey)
      requires Valid() && (forall i :: 0 <= i < |children| ==> After(children[i], key)) && InUnion(children, k) && Less(key, k)
      ensures exists i, a :: 0 <= i < |children| && children[i].pos <= a < |children[i].entries| && children[i].entries[a].key == k
    {
      hide Less;
    }

    /** Children before the key are before the largest key among them, which is before it too. */
    lemma RetreatedPositions(key: InternalKey)
      requires Valid() && !forward && forall i :: 0 <= i < |children| ==> Before(children[i], key)
      requires current.None? ==> forall i :: 0 <= i < |children| ==> !children[i].IsValid()
      requires current.Some? ==> forall i :: 0 <= i < |children| && children[i].IsValid() ==> !Less(Key(), children[i].Current().key)
      ensures Distinct(children) ==> Positioned()
      ensures current.Some? ==> Less(Key(), key)
    {
      if current.Some? && Distinct(children) {
        assert Less(Key(), key);
        ReversePositions();
      }
    }

    /** Coming from reverse, the other children stand before the current key: move each to its first key
        after it. */
    method SwitchToForward()
      requires Valid() && current.Some? && Positioned() && !forward
      modifies this, children
      ensures Valid() && forward && current == old(current) && Key() == old(Key())
      ensures children[current.value].pos == old(children[current.value].pos)
      ensures Distinct(children) ==> forall j :: 0 <= j < |children| && j != current.value ==> After(children[j], Key())
    {
      hide Less, Sorted, After;
      ghost var key := Key();
      var c := current.value;
      for i := 0 to |children|
        invariant forall j :: 0 <= j < |children| ==> children[j].Valid()
        invariant current == Some(c) && children[c].IsValid() && Key() == key && children[c].pos == old(children[c].pos)
        invariant Distinct(children) ==> forall j :: 0 <= j < i && j != c ==> After(children[j], key)
      {
        if i != c {
          children[i].Seek(Key());
          if children[i].IsValid() && children[i].Current().key == Key() {
            children[i].Next();
          }
          if Distinct(children) {
            OthersAfter(i, key);
          }
        }
      }
      forward := true;
    }

    /** Move the current child on and pick the smallest again. */
    method Next()
      requires Valid() && current.Some? && Positioned()
      modifies this, children
      ensures Valid() && forward
      ensures Distinct(children) ==> Positioned()
      ensures Distinct(children) && current.Some? ==> Less(old(Key()), Key())
      ensures Distinct(children) ==> forall k :: InUnion(children, k) && Less(old(Key()), k) ==> current.Some? && !Less(k, Key())
    {
      ghost var key := Key();
      if !forward {
        SwitchToForward();
      } else if Distinct(children) {
        forall j | 0 <= j < |children| && j != current.value
          ensures After(children[j], key)
        {
          OthersAfter(j, key);
        }
      }
      AdvanceFrom(key);
    }

    method AdvanceFrom(ghost key: InternalKey)
      requires Valid() && current.Some? && forward && key == Key()
      requires Distinct(children) ==> forall j :: 0 <= j < |children| && j != current.value ==> After(children[j], key)
      modifies this, children
      ensures Valid() && forward
      ensures Distinct(children) ==> Positioned()
      ensures Distinct(children) && current.Some? ==> Less(key, Key())
      ensures Distinct(children) ==> forall k :: InUnion(children, k) && Less(key, k) ==> current.Some? && !Less(k, Key())
    {
      hide Less, Sorted, After, InUnion, Distinct;
      var c := current.value;
      children[c].Next();
      NextIsAfter(children[c], key);
      FindSmallest();
      SmallestIsLeast();
      if Distinct(children) {
        AdvancedPositions(key);
      }
    }

    lemma OthersAfter(j: nat, key: InternalKey)
      requires Valid() && current.Some? && Distinct(children) && key == Key()
      requires j < |children| && j != current.value && AtOrAfter(children[j], key)
      ensures After(children[j], key)
    {
      forall a | 0 <= a < |children[j].entries|
        ensures Less(children[j].entries[a].key, key) || Less(key, children[j].entries[a].key)
      {
        OtherChild(j, a);
      }
    }

    /** Coming from forward, the other children stand after the current key: move each to its last key
        before it. */
    method SwitchToReverse()
      requires Valid() && current.Some? && forward
      modifies this, children
      ensures Valid() && !forward && current == old(current) && Key() == old(Key()) && Positioned()
      ensures children[current.value].pos == old(children[current.value].pos)
    {
      hide Less, Sorted;
      ghost var key := Key();
      var c := current.value;
      for i := 0 to |children|
        invariant forall j :: 0 <= j < |children| ==> children[j].Valid()
        invariant current == Some(c) && children[c].IsValid() && Key() == key && children[c].pos == old(children[c].pos)
        invariant forall j :: 0 <= j < i && j != c ==> Before(children[j], key)
      {
        if i != c {
          children[i].Seek(Key());
          if children[i].IsValid() {
            children[i].Prev();
          } else {
            children[i].SeekToLast();
          }
        }
      }
      forward := false;
    }

    /** Move the current child back and pick the largest again. */
    method Prev()
      requires Valid() && current.Some? && Positioned()
      modifies this, children
      ensures Valid() && !forward
      ensures Distinct(children) ==> Positioned()
      ensures current.Some? ==> Less(Key(), old(Key()))
      ensures forall k :: InUnion(children, k) && Less(k, old(Key())) ==> current.Some? && !Less(Key(), k)
    {
      ghost var key := Key();
      if forward {
        SwitchToReverse();
      }
      RetreatFrom(key);
    }

    method RetreatFrom(ghost key: InternalKey)
      requires Valid() && current.Some? && !forward && key == Key() && Positioned()
      modifies this, children
      ensures Valid() && !forward
      ensures Distinct(children) ==> Positioned()
      ensures current.Some? ==> Less(Key(), key)
      ensures forall k :: InUnion(children, k) && Less(k, key) ==> current.Some? && !Less(Key(), k)
    {
      hide Less, Sorted, Distinct;
      var c := current.value;
      children[c].Prev();
      PrevIsBefore(children[c], key);
      FindLargest();
      LargestIsGreatest();
      RetreatedPositions(key);
    }
  }
}
