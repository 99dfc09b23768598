/** The iterator interface over a sorted run of entries.  As in Version::LevelFileNumIterator, the position
    one past the end stands for "not valid", whichever end the cursor ran off. */
module Cursors {
  import opened InternalKeys

  class Cursor {
    const entries: seq<Entry>
    var pos: nat

    constructor (entries: seq<Entry>)
      requires Sorted(entries)
      ensures Valid() && this.entries == entries && !IsValid()
    {
      this.entries, pos := entries, |entries|;
    }

    ghost predicate Valid()
      reads this
    {
      Sorted(entries) && pos <= |entries|
    }

    predicate IsValid()
      reads this
    {
      pos < |entries|
    }

    function Current(): Entry
      requires IsValid()
      reads this
    {
      entries[pos]
    }

    method SeekToFirst()
      requires Valid()
      modifies this
      ensures Valid() && pos == 0
    {
      pos := 0;
    }

    method SeekToLast()
      requires Valid()
      modifies this
      ensures Valid() && pos == if |entries| == 0 then 0 else |entries| - 1
    {
      pos := if |entries| == 0 then 0 else |entries| - 1;
    }

    /** Position at the first entry at or after the target. */
    method Seek(target: InternalKey)
      requires Valid()
      modifies this
      ensures Valid()
      ensures forall i :: 0 <= i < pos ==> Less(entries[i].key, target)
      ensures forall i :: pos <= i < |entries| ==> !Less(entries[i].key, target)
    {
      var left, right := 0, |entries|;
      while left < right
        invariant 0 <= left <= right <= |entries|
        invariant forall i :: 0 <= i < left ==> Less(entries[i].key, target)
        invariant forall i :: right <= i < |entries| ==> !Less(entries[i].key, target)
      {
        var mid := (left + right) / 2;
        if Less(entries[mid].key, target) {
          left := mid + 1;
        } else {
          right := mid;
        }
      }
      pos := right;
    }

    method Next()
      requires Valid() && IsValid()
      modifies this
      ensures Valid() && pos == old(pos) + 1
    {
      pos := pos + 1;
    }

    method Prev()
      requires Valid() && IsValid()
      modifies this
      ensures Valid() && pos == if old(pos) == 0 then |entries| else old(pos) - 1
    {
      pos := if pos == 0 then |entries| else pos - 1;
    }
  }

  // ----- What any sequence of calls does -----

  datatype Move = ToFirst | ToLast | To(target: InternalKey) | Onward | Back

  /** The position of the first entry at or after the target. */
  function FirstFrom(es: seq<Entry>, target: InternalKey): (p: nat)
    ensures p <= |es|
  {
    if es == [] || !Less(es[0].key, target) then 0 else 1 + FirstFrom(es[1..], target)
  }

  lemma {:induction false} FirstFromIs(es: seq<Entry>, target: InternalKey, p: nat)
    requires p <= |es| && forall i :: 0 <= i < p ==> Less(es[i].key, target)
    requires p < |es| ==> !Less(es[p].key, target)
    ensures FirstFrom(es, target) == p
  {
    if p > 0 {
      FirstFromIs(es[1..], target, p - 1);
    }
  }

  lemma {:induction false} FirstFromSplits(es: seq<Entry>, target: InternalKey)
    requires Sorted(es)
    ensures forall i :: 0 <= i < FirstFrom(es, target) ==> Less(es[i].key, target)
    ensures forall i :: FirstFrom(es, target) <= i < |es| ==> !Less(es[i].key, target)
  {
    if es != [] {
      if Less(es[0].key, target) {
        FirstFromSplits(es[1..], target);
      } else {
        assert forall i :: 0 < i < |es| ==> Less(es[0].key, es[i].key);
      }
    }
  }

  /** A plain cursor's next position; the length stands for not valid, from where Onward and Back are not allowed
      and do nothing. */
  function Stepped(es: seq<Entry>, p: nat, move: Move): (q: nat)
    requires p <= |es|
    ensures q <= |es|
  {
    match move
    case ToFirst => 0
    case ToLast => if |es| == 0 then 0 else |es| - 1
    case To(target) => FirstFrom(es, target)
    case Onward => if p < |es| then p + 1 else p
    case Back => if p == |es| then p else if p == 0 then |es| else p - 1
  }

  /** Where a list of calls leads from a fresh cursor. */
  function SteppedAll(es: seq<Entry>, moves: seq<Move>): (q: nat)
    ensures q <= |es|
  {
    if moves == [] then |es| else Stepped(es, SteppedAll(es, moves[..|moves| - 1]), moves[|moves| - 1])
  }

  method CallCursor(c: Cursor, move: Move)
    requires c.Valid()
    modifies c
    ensures c.Valid() && c.pos == Stepped(c.entries, old(c.pos), move)
  {
    match move {
      case ToFirst => c.SeekToFirst();
      case ToLast => c.SeekToLast();
      case To(target) =>
        c.Seek(target);
        FirstFromIs(c.entries, target, c.pos);
      case Onward => if c.IsValid() { c.Next(); }
      case Back => if c.IsValid() { c.Prev(); }
    }
  }
}
