/** SnapshotList: a circular doubly linked list around a dummy head, oldest snapshot first. */
module Snapshots {

  class SnapshotImpl {
    const sequence: nat
    var prev: SnapshotImpl?
    var next: SnapshotImpl?

    constructor (sequence: nat)
      ensures this.sequence == sequence
    {
      this.sequence, prev, next := sequence, null, null;
    }
  }

  ghost predicate Linked(a: SnapshotImpl, b: SnapshotImpl)
    reads a, b
  {
    a.next == b && b.prev == a
  }

  class SnapshotList {
    const head: SnapshotImpl
    ghost var nodes: seq<SnapshotImpl>  // the live snapshots, in list order

    /** Once around, from the head to the head. */
    ghost function Ring(): seq<SnapshotImpl>
      reads this
    {
      [head] + nodes + [head]
    }

    ghost predicate Valid()
      reads this, head, nodes
    {
      && (forall i :: 0 <= i < |nodes| ==> nodes[i] != head)
      && (forall i, j :: 0 <= i < j < |nodes| ==> nodes[i] != nodes[j] && nodes[i].sequence <= nodes[j].sequence)
      && (forall i :: 0 <= i <= |nodes| ==> Linked(Ring()[i], Ring()[i + 1]))
    }

    constructor ()
      ensures Valid() && nodes == [] && fresh(head)
    {
      head := new SnapshotImpl(0);
      nodes := [];
      new;
      head.prev, head.next := head, head;
    }

    method IsEmpty() returns (r: bool)
      requires Valid()
      ensures r <==> nodes == []
    {
      assert Linked(Ring()[0], Ring()[1]);
      r := head.next == head;
    }

    /** The first in the list has the least sequence number: no live snapshot reads anything older. */
    method Oldest() returns (s: SnapshotImpl)
      requires Valid() && nodes != []
      ensures s == nodes[0] && forall i :: 0 <= i < |nodes| ==> s.sequence <= nodes[i].sequence
    {
      assert Linked(Ring()[0], Ring()[1]);
      s := head.next;
    }

    method Newest() returns (s: SnapshotImpl)
      requires Valid() && nodes != []
      ensures s == nodes[|nodes| - 1] && forall i :: 0 <= i < |nodes| ==> nodes[i].sequence <= s.sequence
    {
      assert Linked(Ring()[|nodes|], Ring()[|nodes| + 1]);
      s := head.prev;
    }

    /** Appends a snapshot. */
    method New(sequence: nat) returns (s: SnapshotImpl)
      requires Valid() && (nodes != [] ==> nodes[|nodes| - 1].sequence <= sequence)
      modifies this, head, nodes
      ensures Valid() && fresh(s) && s.sequence == sequence && nodes == old(nodes) + [s]
    {
      ghost var n, was, ring := |nodes|, nodes, Ring();
      assert Linked(ring[n], ring[n + 1]);
      s := new SnapshotImpl(sequence);
      s.next := head;
      s.prev := head.prev;
      s.prev.next := s;
      s.next.prev := s;
      nodes := nodes + [s];
      forall i | 0 <= i < n
        ensures nodes[i].sequence <= s.sequence
      {
        assert i == n - 1 || was[i].sequence <= was[n - 1].sequence;
      }
      forall i | 0 <= i <= n + 1
        ensures Linked(Ring()[i], Ring()[i + 1])
      {
        assert i < n ==> old(Linked(ring[i], ring[i + 1]));
      }
    }

    /** Unlinks a snapshot of this list. */
    method Delete(s: SnapshotImpl, ghost at: nat)
      requires Valid() && at < |nodes| && nodes[at] == s
      modifies this, head, nodes
      ensures Valid() && nodes == old(nodes)[..at] + old(nodes)[at + 1..]
    {
      ghost var ring := Ring();
      assert ring[at + 1] == s && Linked(ring[at], ring[at + 1]) && Linked(ring[at + 1], ring[at + 2]);
      s.prev.next := s.next;
      s.next.prev := s.prev;
      nodes := nodes[..at] + nodes[at + 1..];
      forall i | 0 <= i <= |nodes|
        ensures Linked(Ring()[i], Ring()[i + 1])
      {
        assert i < at ==> old(Linked(ring[i], ring[i + 1]));
        assert i > at ==> old(Linked(ring[i + 1], ring[i + 2]));
      }
    }
  }
}
