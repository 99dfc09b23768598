/** Sorted runs of entries: inserting one entry, and the sorted union of several runs. */
module SortedRuns {
  import opened InternalKeys
  import opened CompactionWork

  function InsertSorted(es: seq<Entry>, e: Entry): seq<Entry> {
    if es == [] || Less(e.key, es[0].key) then [e] + es else [es[0]] + InsertSorted(es[1..], e)
  }

  lemma {:induction false} InsertSortedKeeps(es: seq<Entry>, e: Entry)
    requires Sorted(es) && forall x :: x in es ==> x.key != e.key
    ensures Sorted(InsertSorted(es, e)) && Entries(InsertSorted(es, e)) == Entries(es) + {e}
  {
    if es != [] {
      var rest := InsertSorted(es[1..], e);
      assert Less(e.key, es[0].key) || Less(es[0].key, e.key) by {
        if !Less(e.key, es[0].key) && !Less(es[0].key, e.key) {
          AtMostAntisymmetric(e.key, es[0].key);
        }
      }
      if Less(e.key, es[0].key) {
        assert Entries([e] + es) == Entries(es) + {e};
      } else {
        InsertSortedKeeps(es[1..], e);
        assert Entries(es) == Entries(es[1..]) + {es[0]};
        assert Entries([es[0]] + rest) == Entries(rest) + {es[0]};
        forall i | 0 <= i < |rest|
          ensures Less(es[0].key, rest[i].key)
        {
          assert rest[i] in Entries(rest);
        }
      }
    }
  }

  /** Every entry of the runs, in order. */
  function Union(runs: seq<seq<Entry>>): seq<Entry> {
    if runs == [] then [] else InsertAll(Union(runs[..|runs| - 1]), runs[|runs| - 1])
  }

  function InsertAll(es: seq<Entry>, more: seq<Entry>): seq<Entry> {
    if more == [] then es else InsertSorted(InsertAll(es, more[..|more| - 1]), more[|more| - 1])
  }

  lemma {:induction false} InsertAllKeeps(es: seq<Entry>, more: seq<Entry>)
    requires Sorted(es) && Sorted(more) && forall x, y :: x in es && y in more ==> x.key != y.key
    ensures Sorted(InsertAll(es, more)) && Entries(InsertAll(es, more)) == Entries(es) + Entries(more)
  {
    if more != [] {
      var n := |more| - 1;
      var front := InsertAll(es, more[..n]);
      InsertAllKeeps(es, more[..n]);
      assert more == more[..n] + [more[n]];
      forall x | x in front
        ensures x.key != more[n].key
      {
        assert x in Entries(front);
        if x in more[..n] {
          var i :| 0 <= i < n && more[i] == x;
          assert Less(more[i].key, more[n].key);
        }
      }
      InsertSortedKeeps(front, more[n]);
    }
  }

  /** No key occurs in two of the runs. */
  ghost predicate DistinctRuns(runs: seq<seq<Entry>>) {
    forall i, j, x, y :: 0 <= i < j < |runs| && x in runs[i] && y in runs[j] ==> x.key != y.key
  }

  ghost predicate SortedEach(runs: seq<seq<Entry>>) {
    forall i :: 0 <= i < |runs| ==> Sorted(runs[i])
  }

  lemma {:induction false} UnionKeeps(runs: seq<seq<Entry>>)
    requires SortedEach(runs) && DistinctRuns(runs)
    ensures Sorted(Union(runs)) && forall e :: e in Union(runs) <==> exists i :: 0 <= i < |runs| && e in runs[i]
  {
    hide Sorted, InsertAll;
    if runs != [] {
      var n := |runs| - 1;
      UnionKeeps(runs[..n]);
      forall x, y | x in Union(runs[..n]) && y in runs[n]
        ensures x.key != y.key
      {
        var i :| 0 <= i < n && x in runs[..n][i];
        assert x in runs[i];
      }
      InsertAllKeeps(Union(runs[..n]), runs[n]);
      forall e
        ensures e in Union(runs) <==> exists i :: 0 <= i < |runs| && e in runs[i]
      {
        assert e in Union(runs) <==> e in Entries(Union(runs));
        if i :| 0 <= i < |runs| && e in runs[i] {
          assert i == n || e in runs[..n][i];
        }
        if i :| 0 <= i < n && e in runs[..n][i] {
          assert e in runs[i];
        }
      }
    } else {
      assert Sorted([]) by { NothingSorted(); }
    }
  }

  lemma NothingSorted()
    ensures Sorted([])
  {
  }
}
