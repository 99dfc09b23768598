/** The memtable's skip list.  Insert publishes a node one level at a time, bottom up; the list is valid after
    every single pointer store, and every search is right in each of those states. */
module SkipLists {
  import opened InternalKeys

  const MAX_HEIGHT: nat := 12

  class Node {
    const key: InternalKey
    var next: seq<Node?>

    constructor (key: InternalKey, height: nat)
      ensures this.key == key && next == seq(height, _ => null)
    {
      this.key, next := key, seq(height, _ => null);
    }

    method SetNext(l: nat, x: Node?)
      requires l < |next|
      modifies this
      ensures next == old(next)[l := x]
    {
      next := next[l := x];
    }
  }

  // ----- Levels as index arithmetic: links[i] is how many levels node i is published on -----

  /** The first index at or after from that is on level l. */
  ghost function NextIndex(links: seq<nat>, from: nat, l: nat): (r: nat)
    requires from <= |links|
    ensures from <= r <= |links| && (r < |links| ==> links[r] > l)
    ensures forall j :: from <= j < r ==> links[j] <= l
    decreases |links| - from
  {
    if from == |links| || links[from] > l then from else NextIndex(links, from + 1, l)
  }

  lemma NextIndexIs(links: seq<nat>, from: nat, l: nat, r: nat)
    requires from <= r <= |links| && (r < |links| ==> links[r] > l)
    requires forall j :: from <= j < r ==> links[j] <= l
    ensures NextIndex(links, from, l) == r
  {
  }

  /** Putting node r on one more level, l, redirects exactly the level-l searches that used to pass over it. */
  lemma RaisedLink(links: seq<nat>, r: nat, l: nat, from: nat, m: nat)
    requires r < |links| && links[r] == l && from <= |links|
    ensures NextIndex(links[r := l + 1], from, m) ==
      if m == l && from <= r < NextIndex(links, from, l) then r else NextIndex(links, from, m)
  {
    NextIndexIs(links[r := l + 1], from, m, if m == l && from <= r < NextIndex(links, from, l) then r else NextIndex(links, from, m));
  }

  ghost function NodeAt(nodes: seq<Node>, i: nat): Node? {
    if i < |nodes| then nodes[i] else null
  }

  ghost predicate Ordered(nodes: seq<Node>) {
    forall i, j :: 0 <= i < j < |nodes| ==> nodes[i] != nodes[j] && Less(nodes[i].key, nodes[j].key)
  }

  ghost function PointersOf(nodes: seq<Node>): seq<seq<Node?>>
    reads nodes
  {
    seq(|nodes|, i requires 0 <= i < |nodes| reads nodes => nodes[i].next)
  }

  /** Every published pointer of a level leads to the next node of that level; top holds the head's pointers
      and next those of the nodes. */
  ghost predicate Wired(nodes: seq<Node>, links: seq<nat>, top: seq<Node?>, next: seq<seq<Node?>>) {
    && |links| == |nodes| == |next| && |top| == MAX_HEIGHT
    && (forall i :: 0 <= i < |nodes| ==> 1 <= links[i] <= |next[i]| <= MAX_HEIGHT)
    && (forall l :: 0 <= l < MAX_HEIGHT ==> top[l] == NodeAt(nodes, NextIndex(links, 0, l)))
    && (forall i, l :: 0 <= i < |nodes| && 0 <= l < links[i] ==> next[i][l] == NodeAt(nodes, NextIndex(links, i + 1, l)))
  }

  /** at is the last place before index r on level l; -1 is the head. */
  ghost predicate LastBefore(links: seq<nat>, at: int, r: nat, l: nat) {
    && -1 <= at < r <= |links| && (at >= 0 ==> links[at] > l)
    && forall j :: at < j < r ==> links[j] <= l
  }

  /** Storing the pointer to node r in its predecessor puts it on level l and keeps every level wired. */
  lemma PublishKeepsWired(nodes: seq<Node>, links: seq<nat>, top: seq<Node?>, next: seq<seq<Node?>>, r: nat, l: nat, at: int)
    requires Wired(nodes, links, top, next) && r < |nodes| && links[r] == l < |next[r]| && l > 0
    requires LastBefore(links, at, r, l)
    requires next[r][l] == if at == -1 then top[l] else next[at][l]
    ensures at == -1 ==> Wired(nodes, links[r := l + 1], top[l := nodes[r]], next)
    ensures at >= 0 ==> Wired(nodes, links[r := l + 1], top, next[at := next[at][l := nodes[r]]])
  {
    hide NextIndex, NodeAt, Wired;
    WiredLengths(nodes, links, top, next);
    var raised := links[r := l + 1];
    var top' := if at == -1 then top[l := nodes[r]] else top;
    var next' := if at == -1 then next else next[at := next[at][l := nodes[r]]];
    forall m | 0 <= m < MAX_HEIGHT
      ensures top'[m] == NodeAt(nodes, NextIndex(raised, 0, m))
    {
      PublishedPointer(nodes, links, top, next, r, l, at, -1, m);
    }
    forall i, m | 0 <= i < |nodes| && 0 <= m < raised[i]
      ensures next'[i][m] == NodeAt(nodes, NextIndex(raised, i + 1, m))
    {
      PublishedPointer(nodes, links, top, next, r, l, at, i, m);
    }
    IsWired(nodes, raised, top', next');
  }

  lemma WiredLengths(nodes: seq<Node>, links: seq<nat>, top: seq<Node?>, next: seq<seq<Node?>>)
    requires Wired(nodes, links, top, next)
    ensures |links| == |nodes| == |next| && |top| == MAX_HEIGHT
    ensures forall i :: 0 <= i < |nodes| ==> 1 <= links[i] <= |next[i]| <= MAX_HEIGHT
  {
  }

  lemma IsWired(nodes: seq<Node>, links: seq<nat>, top: seq<Node?>, next: seq<seq<Node?>>)
    requires |links| == |nodes| == |next| && |top| == MAX_HEIGHT
    requires forall i :: 0 <= i < |nodes| ==> 1 <= links[i] <= |next[i]| <= MAX_HEIGHT
    requires forall l :: 0 <= l < MAX_HEIGHT ==> top[l] == NodeAt(nodes, NextIndex(links, 0, l))
    requires forall i, l :: 0 <= i < |nodes| && 0 <= l < links[i] ==> next[i][l] == NodeAt(nodes, NextIndex(links, i + 1, l))
    ensures Wired(nodes, links, top, next)
  {
    hide NextIndex, NodeAt;
  }

  /** A pointer after the store leads where its level now leads; -1 is the head's. */
  lemma PublishedPointer(nodes: seq<Node>, links: seq<nat>, top: seq<Node?>, next: seq<seq<Node?>>, r: nat, l: nat, at: int, i: int, m: nat)
    requires Wired(nodes, links, top, next) && r < |nodes| && links[r] == l < |next[r]| && l > 0
    requires LastBefore(links, at, r, l)
    requires next[r][l] == if at == -1 then top[l] else next[at][l]
    requires -1 <= i < |nodes| && m < MAX_HEIGHT && (i >= 0 ==> m < links[r := l + 1][i])
    ensures (if i == at && m == l then nodes[r] else if i == -1 then top[m] else next[i][m])
         == NodeAt(nodes, NextIndex(links[r := l + 1], i + 1, m))
  {
    hide NextIndex, NodeAt;
    RaisedPointer(links, at, r, l, i, m);
    NodeThere(nodes, r);
  }

  lemma NodeThere(nodes: seq<Node>, r: nat)
    requires r < |nodes|
    ensures NodeAt(nodes, r) == nodes[r]
  {
  }

  /** Where the pointers lead once r is on level l: the predecessor's to r, r's to where the predecessor's
      led, and every other one where it did. */
  lemma RaisedPointer(links: seq<nat>, at: int, r: nat, l: nat, i: int, m: nat)
    requires r < |links| && links[r] == l && LastBefore(links, at, r, l) && -1 <= i < |links|
    requires i >= 0 ==> m < links[r := l + 1][i]
    ensures i >= 0 ==> m < links[i] || (i == r && m == l)
    ensures NextIndex(links[r := l + 1], i + 1, m) ==
      if m == l && i == at then r else if m == l && i == r then NextIndex(links, at + 1, l) else NextIndex(links, i + 1, m)
  {
    RaisedLink(links, r, l, i + 1, m);
    if m == l && (i == at || i == r) {
      NextIndexIs(links, at + 1, l, NextIndex(links, r + 1, l));
    }
  }

  // ----- A new node on level 0 -----

  function InsertAt<T>(xs: seq<T>, r: nat, x: T): seq<T>
    requires r <= |xs|
  {
    seq(|xs| + 1, i requires 0 <= i <= |xs| => if i < r then xs[i] else if i == r then x else xs[i - 1])
  }

  lemma PointersOfInsert(nodes: seq<Node>, r: nat, x: Node)
    requires r <= |nodes|
    ensures PointersOf(InsertAt(nodes, r, x)) == InsertAt(PointersOf(nodes), r, x.next)
  {
  }

  lemma InsertedMembers(nodes: seq<Node>, r: nat, x: Node)
    requires r <= |nodes|
    ensures forall y :: y in InsertAt(nodes, r, x) ==> y == x || y in nodes
  {
  }

  lemma InsertedLinks(links: seq<nat>, r: nat, maxHeight: nat)
    requires r <= |links| && maxHeight >= 1 && forall i :: 0 <= i < |links| ==> links[i] <= maxHeight
    ensures forall i :: 0 <= i < |InsertAt(links, r, 1)| ==> InsertAt(links, r, 1)[i] <= maxHeight
  {
  }

  lemma OnlyAt(nodes: seq<Node>, at: int)
    requires Ordered(nodes) && 0 <= at < |nodes|
    ensures forall i :: 0 <= i < |nodes| && i != at ==> nodes[i] != nodes[at]
  {
    forall i | 0 <= i < |nodes| && i != at
      ensures nodes[i] != nodes[at]
    {
      assert if i < at then nodes[i] != nodes[at] else nodes[at] != nodes[i];
    }
  }

  lemma InsertKeepsOrdered(nodes: seq<Node>, r: nat, x: Node)
    requires Ordered(nodes) && r <= |nodes| && x !in nodes
    requires forall j :: 0 <= j < |nodes| ==> if j < r then Less(nodes[j].key, x.key) else Less(x.key, nodes[j].key)
    ensures Ordered(InsertAt(nodes, r, x))
  {
  }

  /** A node on level 0 alone shifts the places after it and is passed over on every other level. */
  lemma InsertedIndex(links: seq<nat>, r: nat, from: nat, m: nat)
    requires r <= |links| && from <= |links|
    requires forall j :: 0 <= j < |links| ==> links[j] >= 1
    ensures from <= r && (m > 0 || NextIndex(links, from, m) < r) ==>
      NextIndex(InsertAt(links, r, 1), from, m) == var q := NextIndex(links, from, m); if q < r then q else q + 1
    ensures from <= r && m == 0 && NextIndex(links, from, m) >= r ==> NextIndex(InsertAt(links, r, 1), from, m) == r
    ensures from >= r ==> NextIndex(InsertAt(links, r, 1), from + 1, m) == NextIndex(links, from, m) + 1
  {
    var q := NextIndex(links, from, m);
    if from <= r {
      NextIndexIs(InsertAt(links, r, 1), from, m, if q < r then q else if m == 0 then r else q + 1);
    }
    if from >= r {
      NextIndexIs(InsertAt(links, r, 1), from + 1, m, q + 1);
    }
  }

  /** The state right after the new node's level-0 pointer and its predecessor's are stored. */
  lemma InsertKeepsWired(nodes: seq<Node>, links: seq<nat>, top: seq<Node?>, next: seq<seq<Node?>>, x: Node, own: seq<Node?>,
                         r: nat, at: int)
    requires Wired(nodes, links, top, next) && LastBefore(links, at, r, 0) && 1 <= |own| <= MAX_HEIGHT
    requires own[0] == if at == -1 then top[0] else next[at][0]
    ensures at == -1 ==> Wired(InsertAt(nodes, r, x), InsertAt(links, r, 1), top[0 := x], InsertAt(next, r, own))
    ensures at >= 0 ==> Wired(InsertAt(nodes, r, x), InsertAt(links, r, 1), top, InsertAt(next[at := next[at][0 := x]], r, own))
  {
    LastIsAdjacent(links, at, r);
    var stored := if at == -1 then next else next[at := next[at][0 := x]];
    InsertedHeights(links, stored, own, r);
    hide NextIndex, LastBefore, NodeAt, InsertAt;
    InsertedTop(nodes, links, top, next, x, r, at);
    forall i, m | 0 <= i <= |nodes| && 0 <= m < InsertAt(links, r, 1)[i]
      ensures InsertAt(stored, r, own)[i][m] == NodeAt(InsertAt(nodes, r, x), NextIndex(InsertAt(links, r, 1), i + 1, m))
    {
      InsertedNext(nodes, links, top, next, x, own, r, at, i, m);
    }
    assert |InsertAt(nodes, r, x)| == |nodes| + 1 by {
      InsertedLength(nodes, r, x);
    }
  }

  lemma InsertedLength<T>(xs: seq<T>, r: nat, x: T)
    requires r <= |xs|
    ensures |InsertAt(xs, r, x)| == |xs| + 1
  {
  }

  lemma InsertedHeights(links: seq<nat>, next: seq<seq<Node?>>, own: seq<Node?>, r: nat)
    requires r <= |links| == |next| && 1 <= |own| <= MAX_HEIGHT
    requires forall i :: 0 <= i < |links| ==> 1 <= links[i] <= |next[i]| <= MAX_HEIGHT
    ensures |InsertAt(links, r, 1)| == |InsertAt(next, r, own)| == |links| + 1
    ensures forall i :: 0 <= i <= |links| ==> 1 <= InsertAt(links, r, 1)[i] <= |InsertAt(next, r, own)[i]| <= MAX_HEIGHT
  {
  }

  lemma InsertedTop(nodes: seq<Node>, links: seq<nat>, top: seq<Node?>, next: seq<seq<Node?>>, x: Node, r: nat, at: int)
    requires Wired(nodes, links, top, next) && at == r - 1 && r <= |nodes|
    ensures forall m :: 0 <= m < MAX_HEIGHT ==>
      (if at == -1 then top[0 := x] else top)[m] == NodeAt(InsertAt(nodes, r, x), NextIndex(InsertAt(links, r, 1), 0, m))
  {
    hide NextIndex;
    forall m | 0 <= m < MAX_HEIGHT
      ensures (if at == -1 then top[0 := x] else top)[m] == NodeAt(InsertAt(nodes, r, x), NextIndex(InsertAt(links, r, 1), 0, m))
    {
      InsertedPointer(links, r, -1, m);
      ShiftedNode(nodes, r, x, NextIndex(links, 0, m));
    }
  }

  lemma InsertedNext(nodes: seq<Node>, links: seq<nat>, top: seq<Node?>, next: seq<seq<Node?>>, x: Node, own: seq<Node?>,
                     r: nat, at: int, i: nat, m: nat)
    requires Wired(nodes, links, top, next) && at == r - 1 && r <= |nodes| && 1 <= |own| <= MAX_HEIGHT
    requires own[0] == if at == -1 then top[0] else next[at][0]
    requires i <= |nodes| && m < InsertAt(links, r, 1)[i]
    ensures m < |InsertAt(if at == -1 then next else next[at := next[at][0 := x]], r, own)[i]|
    ensures InsertAt(if at == -1 then next else next[at := next[at][0 := x]], r, own)[i][m]
         == NodeAt(InsertAt(nodes, r, x), NextIndex(InsertAt(links, r, 1), i + 1, m))
  {
    hide NextIndex;
    InsertedPointer(links, r, i, m);
    if r > 0 {
      InsertedPointer(links, r, r - 1, 0);
    } else {
      InsertedPointer(links, r, -1, 0);
    }
    ShiftedNode(nodes, r, x, NextIndex(links, if i < r then i + 1 else i, m));
  }

  function Shifted(q: nat, r: nat): nat {
    if q < r then q else q + 1
  }

  lemma ShiftedNode(nodes: seq<Node>, r: nat, x: Node, q: nat)
    requires r <= |nodes| && q <= |nodes|
    ensures NodeAt(InsertAt(nodes, r, x), Shifted(q, r)) == NodeAt(nodes, q)
    ensures NodeAt(InsertAt(nodes, r, x), r) == x
  {
  }

  lemma LastIsAdjacent(links: seq<nat>, at: int, r: nat)
    requires LastBefore(links, at, r, 0) && forall j :: 0 <= j < |links| ==> links[j] >= 1
    ensures at == r - 1 && r <= |links|
  {
    var last := if r > 0 then links[r - 1] else 1;
    assert last >= 1;
  }

  /** Where the pointers lead once the new node is at r: its level-0 predecessor's to it, and every other one,
      the new node's own included, to the node it led to before. */
  lemma InsertedPointer(links: seq<nat>, r: nat, i: int, m: nat)
    requires r <= |links| && -1 <= i <= |links| && forall j :: 0 <= j < |links| ==> links[j] >= 1
    requires i == r ==> m == 0
    ensures NextIndex(InsertAt(links, r, 1), i + 1, m) ==
      if i == r - 1 && m == 0 then r else Shifted(NextIndex(links, if i < r then i + 1 else i, m), r)
    ensures m == 0 ==> NextIndex(links, if i < r then i + 1 else i, m) == if i < r then i + 1 else i
  {
    InsertedIndex(links, r, if i < r then i + 1 else i, m);
  }

  class SkipList {
    const head: Node
    var maxHeight: nat
    ghost var nodes: seq<Node>  // level 0, in order
    ghost var links: seq<nat>

    constructor ()
      ensures Valid() && nodes == [] && fresh(head) && |head.next| == 12 && maxHeight == 1
    {
      head := new Node(InternalKey(0.0, 0, Value), MAX_HEIGHT);
      maxHeight := 1;
      nodes, links := [], [];
    }

    /** Sorted and wired. */
    ghost predicate Valid()
      reads this, head, nodes
    {
      && 1 <= maxHeight <= MAX_HEIGHT && head !in nodes
      && (forall i :: 0 <= i < |links| ==> links[i] <= maxHeight)
      && Ordered(nodes) && Wired(nodes, links, head.next, PointersOf(nodes))
    }

    /** The node a search stands on: the head, or one before the key and on the level searched. */
    ghost predicate Standing(x: Node, at: int, key: InternalKey, l: nat)
      requires Valid()
      reads this, head, nodes
    {
      && -1 <= at < |nodes| && l < MAX_HEIGHT
      && (if at == -1 then x == head else x == nodes[at] && links[at] > l && Less(x.key, key))
    }

    lemma StandingNext(x: Node, at: int, key: InternalKey, l: nat)
      requires Valid() && Standing(x, at, key, l)
      ensures l < |x.next| && x.next[l] == NodeAt(nodes, NextIndex(links, at + 1, l))
    {
      assert at >= 0 ==> PointersOf(nodes)[at] == x.next;
    }

    /** prev is the last node of the level before the key. */
    ghost predicate IsPrev(x: Node, at: int, key: InternalKey, l: nat)
      requires Valid()
      reads this, head, nodes
    {
      && Standing(x, at, key, l)
      && forall j :: at < j < |nodes| && links[j] > l ==> !Less(nodes[j].key, key)
    }

    lemma NothingBetween(at: int, key: InternalKey, l: nat)
      requires Valid() && -1 <= at < |nodes|
      requires var r := NextIndex(links, at + 1, l); r == |nodes| || !Less(nodes[r].key, key)
      ensures forall j :: at < j < |nodes| && links[j] > l ==> !Less(nodes[j].key, key)
    {
      var r := NextIndex(links, at + 1, l);
      forall j | at < j < |nodes| && links[j] > l
        ensures !Less(nodes[j].key, key)
      {
        assert j == r || Less(nodes[r].key, nodes[j].key);
      }
    }

    /** On level 0 the last node before the key splits the list. */
    lemma SplitAt(x: Node, at: int, key: InternalKey)
      requires Valid() && IsPrev(x, at, key, 0)
      ensures forall j :: 0 <= j < |nodes| ==> (Less(nodes[j].key, key) <==> j <= at)
      ensures NextIndex(links, at + 1, 0) == at + 1
    {
      forall j | 0 <= j < |nodes|
        ensures links[j] > 0 && (Less(nodes[j].key, key) <==> j <= at)
      {
        assert at == -1 || j >= at || Less(nodes[j].key, nodes[at].key);
      }
    }

    /** The first node at or after the key, and on each level the last node before it.  height is the list
        height the searcher happened to observe. */
    method FindGreaterOrEqual(key: InternalKey, height: nat) returns (r: Node?, prev: seq<Node>, ghost prevAt: seq<int>, ghost index: nat)
      requires Valid() && 1 <= height <= 12
      ensures index <= |nodes| && r == NodeAt(nodes, index)
      ensures forall j :: 0 <= j < |nodes| ==> (Less(nodes[j].key, key) <==> j < index)
      ensures |prev| == |prevAt| == height
      ensures forall l :: 0 <= l < height ==> IsPrev(prev[l], prevAt[l], key, l)
    {
      hide Less, Wired, PointersOf;
      SameLength();
      var x: Node, level := head, height - 1;
      ghost var at: int := -1;
      prev := seq(height, _ => head);
      prevAt := seq(height, _ => -1);
      while true
        invariant 0 <= level < height && Standing(x, at, key, level)
        invariant |prev| == |prevAt| == height
        invariant forall l :: level < l < height ==> IsPrev(prev[l], prevAt[l], key, l)
        decreases level, |nodes| - at
      {
        StandingNext(x, at, key, level);
        var next := x.next[level];
        if next != null && Less(next.key, key) {
          at, x := NextIndex(links, at + 1, level), next;
        } else {
          NothingBetween(at, key, level);
          prev, prevAt := prev[level := x], prevAt[level := at];
          if level == 0 {
            SplitAt(x, at, key);
            index := at + 1;
            return next, prev, prevAt, index;
          }
          level := level - 1;
        }
      }
    }

    /** The last node before the key, or the head. */
    method FindLessThan(key: InternalKey, height: nat) returns (r: Node, ghost index: int)
      requires Valid() && 1 <= height <= 12
      ensures -1 <= index < |nodes| && r == if index == -1 then head else nodes[index]
      ensures forall j :: 0 <= j < |nodes| ==> (Less(nodes[j].key, key) <==> j <= index)
    {
      hide Less, Wired, PointersOf;
      SameLength();
      var x: Node, level := head, height - 1;
      ghost var at: int := -1;
      while true
        invariant 0 <= level < height && Standing(x, at, key, level)
        decreases level, |nodes| - at
      {
        StandingNext(x, at, key, level);
        var next := x.next[level];
        if next == null || !Less(next.key, key) {
          if level == 0 {
            NothingBetween(at, key, 0);
            SplitAt(x, at, key);
            return x, at;
          }
          level := level - 1;
        } else {
          at, x := NextIndex(links, at + 1, level), next;
        }
      }
    }

    /** The last node, or the head of an empty list. */
    method FindLast(height: nat) returns (r: Node)
      requires Valid() && 1 <= height <= 12
      ensures r == if nodes == [] then head else nodes[|nodes| - 1]
    {
      var x: Node, level := head, height - 1;
      ghost var at: int := -1;
      while true
        invariant 0 <= level < height && -1 <= at < |nodes|
        invariant if at == -1 then x == head else x == nodes[at] && links[at] > level
        decreases level, |nodes| - at
      {
        var next := x.next[level];
        if next == null {
          if level == 0 {
            return x;
          }
          level := level - 1;
        } else {
          at, x := NextIndex(links, at + 1, level), next;
        }
      }
    }

    lemma LevelZero(at: nat)
      requires Valid() && at < |nodes|
      ensures |nodes[at].next| > 0 && nodes[at].next[0] == NodeAt(nodes, at + 1)
    {
      assert PointersOf(nodes)[at] == nodes[at].next;
      NextIndexIs(links, at + 1, 0, at + 1);
    }

    lemma LevelZeroHead()
      requires Valid()
      ensures |head.next| > 0 && head.next[0] == NodeAt(nodes, 0)
    {
      NextIndexIs(links, 0, 0, 0);
    }

    // ----- Insertion -----

    /** Node r is on the levels below l and no others; before its first level it is not in the list at all. */
    ghost predicate PublishedBelow(x: Node, r: nat, l: nat)
      reads `nodes, `links
    {
      if l == 0 then x != head && x !in nodes && r <= |nodes| else r < |nodes| && r < |links| && nodes[r] == x && links[r] == l
    }

    /** The node a search left behind on level l still precedes place r there. */
    ghost predicate Precedes(prev: Node, prevAt: int, r: nat, l: nat)
      reads `nodes, `links
    {
      && LastBefore(links, prevAt, r, l) && |links| == |nodes|
      && prev == if prevAt == -1 then head else nodes[prevAt]
    }

    lemma PrecedesPointer(prev: Node, prevAt: int, r: nat, l: nat)
      requires Valid() && Precedes(prev, prevAt, r, l) && l < MAX_HEIGHT
      ensures l < |prev.next| && prev.next == if prevAt == -1 then head.next else PointersOf(nodes)[prevAt]
    {
    }

    /** NoBarrier_SetNext: the new node's own pointer, not yet published, changes nothing a search sees. */
    method SetOwnNext(x: Node, ghost r: nat, l: nat, target: Node?)
      requires Valid() && PublishedBelow(x, r, l) && l < |x.next|
      modifies x
      ensures Valid() && x.next == old(x.next)[l := target]
    {
      ghost var was := PointersOf(nodes);
      x.SetNext(l, target);
      assert PointersOf(nodes) == if l == 0 then was else was[r := x.next];
    }

    /** SetNext on the predecessor puts the new node into level 0; the list is valid right after it. */
    method PublishBottom(x: Node, ghost r: nat, prev: Node, ghost prevAt: int)
      requires Valid() && PublishedBelow(x, r, 0) && 0 < |x.next| <= MAX_HEIGHT
      requires Precedes(prev, prevAt, r, 0) && |prev.next| > 0 && x.next[0] == prev.next[0]
      requires forall j :: 0 <= j < |nodes| ==> if j < r then Less(nodes[j].key, x.key) else Less(x.key, nodes[j].key)
      modifies prev, `links, `nodes
      ensures Valid() && x.next == old(x.next)
      ensures nodes == InsertAt(old(nodes), r, x) && links == InsertAt(old(links), r, 1)
    {
      hide NextIndex, Wired, Ordered, InsertAt;
      InsertKeepsOrdered(nodes, r, x);
      SameLength();
      ghost var before, was, top := nodes, PointersOf(nodes), head.next;
      PrecedesPointer(prev, prevAt, r, 0);
      InsertKeepsWired(nodes, links, top, was, x, x.next, r, prevAt);
      if prevAt >= 0 {
        OnlyAt(nodes, prevAt);
      }
      prev.SetNext(0, x);
      assert PointersOf(before) == if prevAt == -1 then was else was[prevAt := was[prevAt][0 := x]];
      PointersOfInsert(before, r, x);
      InsertedMembers(before, r, x);
      InsertedLinks(links, r, maxHeight);
      nodes, links := InsertAt(nodes, r, x), InsertAt(links, r, 1);
    }

    /** SetNext on the predecessor puts the new node on one more level; the list is valid right after it. */
    method Publish(x: Node, ghost r: nat, l: nat, prev: Node, ghost prevAt: int)
      requires Valid() && PublishedBelow(x, r, l) && 0 < l < |x.next| <= MAX_HEIGHT && l < maxHeight
      requires Precedes(prev, prevAt, r, l) && l < |prev.next| && x.next[l] == prev.next[l]
      modifies prev, `links
      ensures Valid() && x.next == old(x.next)
      ensures links == old(links)[r := l + 1]
    {
      hide NextIndex;
      ghost var was, top := PointersOf(nodes), head.next;
      PrecedesPointer(prev, prevAt, r, l);
      assert x.next == was[r];
      PublishKeepsWired(nodes, links, top, was, r, l, prevAt);
      prev.SetNext(l, x);
      links := links[r := l + 1];
      assert PointersOf(nodes) == if prevAt == -1 then was else was[prevAt := was[prevAt][l := x]];
    }

    lemma SameLength()
      requires Valid()
      ensures |links| == |nodes|
    {
    }

    /** What a search leaves behind precedes the place of its key, on the levels it did not see as well. */
    lemma SearchPrecedes(prev: Node, prevAt: int, key: InternalKey, r: nat, l: nat)
      requires Valid() && r <= |nodes| && l < MAX_HEIGHT
      requires forall j :: 0 <= j < |nodes| ==> (Less(nodes[j].key, key) <==> j < r)
      requires if l < maxHeight then IsPrev(prev, prevAt, key, l) else prev == head && prevAt == -1
      ensures Precedes(prev, prevAt, r, l)
    {
    }

    /** The search half of Insert: the place of the key, its predecessors on every level of the new node, and
        the raised list height. */
    method FindPlace(key: InternalKey, height: nat) returns (prev: seq<Node>, ghost prevAt: seq<int>, ghost r: nat)
      requires Valid() && 1 <= height <= 12
      modifies `maxHeight
      ensures Valid() && r <= |nodes| && maxHeight == if old(maxHeight) < height then height else old(maxHeight)
      ensures forall j :: 0 <= j < |nodes| ==> (Less(nodes[j].key, key) <==> j < r)
      ensures |prev| == |prevAt| >= height && forall l :: 0 <= l < height ==> Precedes(prev[l], prevAt[l], r, l)
    {
      hide NextIndex, Wired;
      var x, found, foundAt, index := FindGreaterOrEqual(key, maxHeight);
      prev, prevAt, r := found, foundAt, index;
      forall l | 0 <= l < maxHeight
        ensures Precedes(prev[l], prevAt[l], r, l)
      {
        SearchPrecedes(prev[l], prevAt[l], key, r, l);
      }
      if height > maxHeight {
        forall l | maxHeight <= l < height
          ensures Precedes(head, -1, r, l)
        {
          SearchPrecedes(head, -1, key, r, l);
        }
        prev := prev + seq(height - maxHeight, _ => head);
        prevAt := prevAt + seq(height - maxHeight, _ => -1);
        maxHeight := height;
      }
    }

    /** One level of the linking loop: the new node's pointer, then its predecessor's. */
    method LinkLevel(node: Node, ghost r: nat, l: nat, prev: Node, ghost prevAt: int)
      requires Valid() && PublishedBelow(node, r, l) && l < |node.next| <= maxHeight
      requires Precedes(prev, prevAt, r, l)
      requires l == 0 ==> forall j :: 0 <= j < |nodes| ==> if j < r then Less(nodes[j].key, node.key) else Less(node.key, nodes[j].key)
      modifies `nodes, `links, node, prev
      ensures Valid() && r < |nodes| == |links| && |node.next| == |old(node.next)|
      ensures r <= |old(nodes)| == |old(links)|
      ensures nodes == if l == 0 then InsertAt(old(nodes), r, node) else old(nodes)
      ensures links == if l == 0 then InsertAt(old(links), r, 1) else old(links)[r := l + 1]
    {
      hide NextIndex, Wired;
      SameLength();
      PrecedesPointer(prev, prevAt, r, l);
      SetOwnNext(node, r, l, prev.next[l]);
      if l == 0 {
        PublishBottom(node, r, prev, prevAt);
      } else {
        Publish(node, r, l, prev, prevAt);
      }
      SameLength();
    }

    /** The linking half of Insert: level by level, bottom up. */
    method LinkNode(node: Node, ghost r: nat, height: nat, prev: seq<Node>, ghost prevAt: seq<int>)
      requires Valid() && PublishedBelow(node, r, 0) && 1 <= height <= maxHeight && |node.next| == height
      requires |prev| == |prevAt| >= height && forall l :: 0 <= l < height ==> Precedes(prev[l], prevAt[l], r, l)
      requires forall j :: 0 <= j < |nodes| ==> if j < r then Less(nodes[j].key, node.key) else Less(node.key, nodes[j].key)
      modifies `nodes, `links, node, head, nodes
      ensures Valid() && r <= |old(nodes)| == |old(links)|
      ensures nodes == InsertAt(old(nodes), r, node) && links == InsertAt(old(links), r, height)
    {
      hide NextIndex, Valid;
      ghost var was, wasLinks := nodes, links;
      LinkLevel(node, r, 0, prev[0], prevAt[0]);
      for i := 1 to height
        invariant Valid() && |node.next| == height <= maxHeight && r <= |was| == |wasLinks|
        invariant nodes == InsertAt(was, r, node) && links == InsertAt(wasLinks, r, i)
        invariant forall l :: 0 <= l < height ==> Precedes(prev[l], prevAt[l], r, l) || l == 0
      {
        LinkLevel(node, r, i, prev[i], prevAt[i]);
      }
    }

    /** Insert. */
    method Insert(key: InternalKey, height: nat) returns (ghost r: nat)
      requires Valid() && 1 <= height <= 12
      requires forall i :: 0 <= i < |nodes| ==> nodes[i].key != key
      modifies this, head, nodes
      ensures Valid() && r <= |old(nodes)| == |old(links)|
      ensures |nodes| == |old(nodes)| + 1 && nodes[r].key == key && fresh(nodes[r])
      ensures nodes == InsertAt(old(nodes), r, nodes[r]) && links == InsertAt(old(links), r, height)
      ensures maxHeight == if old(maxHeight) < height then height else old(maxHeight)
    {
      hide NextIndex, Wired;
      var prev, prevAt, place := FindPlace(key, height);
      r := place;
      var node := new Node(key, height);
      forall j | 0 <= j < |nodes|
        ensures if j < r then Less(nodes[j].key, key) else Less(key, nodes[j].key)
      {
        if !Less(nodes[j].key, key) && !Less(key, nodes[j].key) {
          AtMostAntisymmetric(nodes[j].key, key);
        }
      }
      LinkNode(node, r, height, prev, prevAt);
    }
  }

  /** SkipList::Iterator: moves exactly as a cursor over the sorted level-0 list. */
  class Iterator {
    const list: SkipList
    var node: Node?
    ghost var at: nat  // |list.nodes| while not valid

    constructor (list: SkipList)
      requires list.Valid()
      ensures this.list == list && Valid() && node == null
    {
      this.list, node, at := list, null, |list.nodes|;
    }

    ghost predicate Valid()
      reads this, list, list.head, list.nodes
    {
      list.Valid() && at <= |list.nodes| && node == NodeAt(list.nodes, at)
    }

    method Next()
      requires Valid() && node != null
      modifies this
      ensures Valid() && at == old(at) + 1
    {
      list.LevelZero(at);
      node, at := node.next[0], at + 1;
    }

    /** There are no back links: search for the last node before the current key. */
    method Prev()
      requires Valid() && node != null
      modifies this
      ensures Valid() && at == if old(at) == 0 then |list.nodes| else old(at) - 1
    {
      var r, index := list.FindLessThan(node.key, list.maxHeight);
      assert !Less(list.nodes[at].key, node.key);
      assert at == 0 || Less(list.nodes[at - 1].key, list.nodes[at].key);
      assert index == at - 1;
      if r == list.head {
        node, at := null, |list.nodes|;
      } else {
        node, at := r, index;
      }
    }

    method Seek(target: InternalKey)
      requires Valid()
      modifies this
      ensures Valid() && forall j :: 0 <= j < |list.nodes| ==> (Less(list.nodes[j].key, target) <==> j < at)
    {
      var x, prev, prevAt, index := list.FindGreaterOrEqual(target, list.maxHeight);
      node, at := x, index;
    }

    method SeekToFirst()
      requires Valid()
      modifies this
      ensures Valid() && at == 0
    {
      list.LevelZeroHead();
      node, at := list.head.next[0], 0;
    }

    method SeekToLast()
      requires Valid()
      modifies this
      ensures Valid() && at == if |list.nodes| == 0 then 0 else |list.nodes| - 1
    {
      var r := list.FindLast(list.maxHeight);
      if r == list.head {
        node, at := null, 0;
      } else {
        node, at := r, |list.nodes| - 1;
      }
    }
  }
}
