/** MemTable: entries in a skip list, and the lookup that seeks to the lookup key. */
module MemTables {
  import opened InternalKeys
  import opened SkipLists
  import opened VersionGet

  class MemTable {
    const table: SkipList
    var values: map<InternalKey, string>  // the value bytes behind each key

    ghost predicate Valid()
      reads this, table, table.head, table.nodes
    {
      table.Valid() && forall i :: 0 <= i < |table.nodes| ==> table.nodes[i].key in values
    }

    ghost function Contents(): set<Entry>
      requires Valid()
      reads this, table, table.head, table.nodes
    {
      set i | 0 <= i < |table.nodes| :: Entry(table.nodes[i].key, values[table.nodes[i].key])
    }

    constructor ()
      ensures Valid() && Contents() == {} && fresh(table) && fresh(table.head)
    {
      table := new SkipList();
      values := map[];
    }

    /** Adds an entry whose key the table does not hold yet; height is the new node's. */
    method Add(sequence: SequenceNumber, kind: ValueType, user: UserKey, value: string, height: nat)
      requires Valid() && 1 <= height <= 12
      requires forall i :: 0 <= i < |table.nodes| ==> table.nodes[i].key != InternalKey(user, sequence, kind)
      modifies this, table, table.head, table.nodes
      ensures Valid() && Contents() == old(Contents()) + {Entry(InternalKey(user, sequence, kind), value)}
    {
      hide SkipList.Valid;
      var key := InternalKey(user, sequence, kind);
      ghost var before, kept := table.nodes, values;
      var r := table.Insert(key, height);
      values := values[key := value];
      assert forall i :: 0 <= i < |table.nodes| ==> table.nodes[i] == if i < r then before[i] else if i == r then table.nodes[r] else before[i - 1];
      assert forall i :: 0 <= i < |before| ==> before[i] == table.nodes[if i < r then i else i + 1];
      assert forall i :: 0 <= i < |before| ==> values[before[i].key] == kept[before[i].key];
    }

    /** Get: the first entry at or after the lookup key decides, if it has the user key. */
    method Get(u: UserKey, s: SequenceNumber) returns (r: Lookup)
      requires Valid()
      ensures Answers(Contents(), u, s, r)
    {
      hide Wired;
      var iter := new Iterator(table);
      iter.Seek(LookupKey(u, s));
      ghost var nodes, at := table.nodes, iter.at;
      forall i | 0 <= i < |nodes|
        ensures nodes[i].key.user < u || (nodes[i].key.user == u && nodes[i].key.sequence > s) <==> i < at
      {
        LookupKeySplits(u, s, nodes[i].key);
      }
      if iter.node != null && iter.node.key.user == u {
        var e := Entry(iter.node.key, values[iter.node.key]);
        assert nodes[at] == iter.node && e in Contents();
        forall i | at < i < |nodes| && nodes[i].key.user == u
          ensures nodes[i].key.sequence <= e.key.sequence
        {
          assert Less(nodes[at].key, nodes[i].key);
        }
        assert IsNewest(Contents(), u, s, e);
        r := Result(e);
      } else {
        forall i | at <= i < |nodes|
          ensures nodes[i].key.user != u
        {
          assert at == i || Less(nodes[at].key, nodes[i].key);
        }
        r := NotFound;
      }
    }
  }
}
