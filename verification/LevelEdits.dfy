/** What flushes, moves and compactions do to the levels, and that the level ordering survives each. */
module LevelEdits {
  import opened InternalKeys
  import opened Versions
  import opened CompactionInputs
  import opened Compactions
  import opened CompactionWork

  // ----- Editing one level -----

  /** BySmallestKey: the order in which a level lists its files. */
  predicate BySmallestKey(f: File, g: File) {
    Less(f.smallest, g.smallest) || (f.smallest == g.smallest && f.number < g.number)
  }

  function InsertFile(fs: seq<File>, f: File): seq<File> {
    if fs == [] || BySmallestKey(f, fs[0]) then [f] + fs else [fs[0]] + InsertFile(fs[1..], f)
  }

  function InsertFiles(fs: seq<File>, added: seq<File>): seq<File> {
    if added == [] then fs else InsertFile(InsertFiles(fs, added[..|added| - 1]), added[|added| - 1])
  }

  function Without(fs: seq<File>, sel: seq<File>): seq<File> {
    if fs == [] then [] else (if fs[0] in sel then [] else [fs[0]]) + Without(fs[1..], sel)
  }

  lemma {:induction false} InsertFileMembers(fs: seq<File>, f: File)
    ensures forall g :: g in InsertFile(fs, f) <==> g == f || g in fs
  {
    if fs != [] && !BySmallestKey(f, fs[0]) {
      InsertFileMembers(fs[1..], f);
    }
  }

  lemma {:induction false} InsertFilesMembers(fs: seq<File>, added: seq<File>)
    ensures forall g :: g in InsertFiles(fs, added) <==> g in added || g in fs
  {
    if added != [] {
      var n := |added| - 1;
      InsertFilesMembers(fs, added[..n]);
      InsertFileMembers(InsertFiles(fs, added[..n]), added[n]);
      assert added == added[..n] + [added[n]];
    }
  }

  lemma {:induction false} WithoutMembers(fs: seq<File>, sel: seq<File>)
    ensures forall g :: g in Without(fs, sel) <==> g in fs && g !in sel
  {
    if fs != [] {
      WithoutMembers(fs[1..], sel);
    }
  }

  lemma {:induction false} NothingLeft(fs: seq<File>, sel: seq<File>)
    requires forall f :: f in fs ==> f in sel
    ensures Without(fs, sel) == []
  {
    if fs != [] {
      NothingLeft(fs[1..], sel);
    }
  }

  /** f lies wholly before or wholly after g. */
  predicate Apart(f: File, g: File) {
    Less(f.largest, g.smallest) || Less(g.largest, f.smallest)
  }

  lemma {:induction false} InsertKeepsDisjoint(fs: seq<File>, f: File)
    requires ValidFiles(fs) && Disjoint(fs) && ValidFile(f)
    requires forall g :: g in fs ==> Apart(f, g)
    ensures Disjoint(InsertFile(fs, f))
  {
    hide ValidFile;
    FileBoundsAll(fs);
    FileBounds(f);
    if fs == [] {
    } else if BySmallestKey(f, fs[0]) {
      assert Apart(f, fs[0]);
      assert forall i :: 0 < i < |fs| ==> Less(fs[0].largest, fs[i].smallest);
    } else {
      var rest := InsertFile(fs[1..], f);
      InsertKeepsDisjoint(fs[1..], f);
      InsertFileMembers(fs[1..], f);
      assert Apart(f, fs[0]);
      forall i | 0 <= i < |rest|
        ensures Less(fs[0].largest, rest[i].smallest)
      {
        assert rest[i] in rest;
      }
    }
  }

  lemma {:induction false} WithoutKeepsDisjoint(fs: seq<File>, sel: seq<File>)
    requires Disjoint(fs)
    ensures Disjoint(Without(fs, sel))
  {
    if fs != [] {
      WithoutKeepsDisjoint(fs[1..], sel);
      WithoutMembers(fs[1..], sel);
      var rest := Without(fs[1..], sel);
      forall i | 0 <= i < |rest|
        ensures Less(fs[0].largest, rest[i].smallest)
      {
        assert rest[i] in rest;
      }
    }
  }

  lemma {:induction false} WithoutKeepsNumbers(fs: seq<File>, sel: seq<File>)
    requires DistinctNumbers(fs)
    ensures DistinctNumbers(Without(fs, sel))
  {
    if fs != [] {
      WithoutKeepsNumbers(fs[1..], sel);
      WithoutMembers(fs[1..], sel);
      var rest := Without(fs[1..], sel);
      forall i | 0 <= i < |rest|
        ensures fs[0].number != rest[i].number
      {
        assert rest[i] in rest;
      }
    }
  }

  lemma {:induction false} InsertKeepsNumbers(fs: seq<File>, f: File)
    requires DistinctNumbers(fs) && forall g :: g in fs ==> g.number != f.number
    ensures DistinctNumbers(InsertFile(fs, f))
  {
    if fs != [] && !BySmallestKey(f, fs[0]) {
      InsertKeepsNumbers(fs[1..], f);
      InsertFileMembers(fs[1..], f);
      var rest := InsertFile(fs[1..], f);
      forall i | 0 <= i < |rest|
        ensures fs[0].number != rest[i].number
      {
        assert rest[i] in rest;
      }
    }
  }

  lemma ValidInsert(fs: seq<File>, f: File)
    requires ValidFiles(fs) && ValidFile(f)
    ensures ValidFiles(InsertFile(fs, f))
  {
    hide ValidFile;
    InsertFileMembers(fs, f);
    forall i | 0 <= i < |InsertFile(fs, f)|
      ensures ValidFile(InsertFile(fs, f)[i])
    {
      assert InsertFile(fs, f)[i] in InsertFile(fs, f);
    }
  }

  /** All but the last of some files, and how they stand to the last. */
  lemma AllButLast(added: seq<File>, sorted: bool)
    requires added != [] && ValidFiles(added) && DistinctNumbers(added) && (sorted ==> Disjoint(added))
    ensures var n := |added| - 1;
      && ValidFiles(added[..n]) && DistinctNumbers(added[..n]) && (sorted ==> Disjoint(added[..n])) && ValidFile(added[n])
      && (forall g :: g in added[..n] ==> g in added && g.number != added[n].number && (sorted ==> Apart(added[n], g)))
  {
    hide ValidFile;
    var n := |added| - 1;
    forall g | g in added[..n]
      ensures g in added && g.number != added[n].number && (sorted ==> Apart(added[n], g))
    {
      var i :| 0 <= i < n && added[i] == g;
    }
  }

  /** Adding files that are apart from everything in the level and from each other. */
  lemma {:induction false} InsertFilesKeepsLevel(fs: seq<File>, added: seq<File>, sorted: bool)
    requires ValidFiles(fs) && DistinctNumbers(fs) && ValidFiles(added) && DistinctNumbers(added)
    requires forall f, g :: f in added && g in fs ==> f.number != g.number
    requires sorted ==> Disjoint(fs) && Disjoint(added) && forall f, g :: f in added && g in fs ==> Apart(f, g)
    ensures ValidFiles(InsertFiles(fs, added)) && DistinctNumbers(InsertFiles(fs, added))
    ensures sorted ==> Disjoint(InsertFiles(fs, added))
  {
    hide ValidFiles, ValidFile, Disjoint, DistinctNumbers, Apart, InsertFile;
    if added != [] {
      var n := |added| - 1;
      var before, f := InsertFiles(fs, added[..n]), added[n];
      AllButLast(added, sorted);
      InsertFilesKeepsLevel(fs, added[..n], sorted);
      InsertFilesMembers(fs, added[..n]);
      InsertKeepsNumbers(before, f);
      ValidInsert(before, f);
      if sorted {
        InsertKeepsDisjoint(before, f);
      }
    }
  }

  // ----- Editing a version -----

  /** A flushed table joins its level. */
  function AddTo(v: Version, level: nat, f: File): Version
    requires level < |v.files|
  {
    Version(v.files[level := InsertFile(v.files[level], f)])
  }

  /** A compaction's inputs leave their levels and its outputs join the lower one. */
  function Replace(v: Version, level: nat, inputs0: seq<File>, inputs1: seq<File>, outs: seq<File>): Version
    requires level + 1 < |v.files|
  {
    Version(v.files[level := Without(v.files[level], inputs0)]
                   [level + 1 := InsertFiles(Without(v.files[level + 1], inputs1), outs)])
  }

  /** Everything a compaction does not read. */
  ghost function Remaining(v: Version, level: nat, inputs0: seq<File>, inputs1: seq<File>): set<Entry>
    requires level + 1 < |v.files|
  {
    Data(Version(v.files[level := Without(v.files[level], inputs0)][level + 1 := Without(v.files[level + 1], inputs1)]))
  }

  lemma FilesDataUnion(fs: seq<File>, gs: seq<File>, hs: seq<File>)
    requires forall f :: f in fs <==> f in gs || f in hs
    ensures FilesData(fs) == FilesData(gs) + FilesData(hs)
  {
  }

  lemma OneFileData(f: File)
    ensures FilesData([f]) == Entries(f.entries)
  {
    assert f in [f];
  }

  lemma AddToData(v: Version, level: nat, f: File)
    requires level < |v.files|
    ensures Data(AddTo(v, level, f)) == Data(v) + Entries(f.entries)
    ensures FilesData(AddTo(v, level, f).files[level]) == FilesData(v.files[level]) + Entries(f.entries)
  {
    var w := AddTo(v, level, f);
    InsertFileMembers(v.files[level], f);
    FilesDataUnion(w.files[level], v.files[level], [f]);
    assert FilesData([f]) == Entries(f.entries);
    forall e
      ensures e in Data(w) <==> e in Data(v) + Entries(f.entries)
    {
      if e in Data(v) {
        var l :| 0 <= l < |v.files| && e in FilesData(v.files[l]);
        assert e in FilesData(w.files[l]);
      }
      if e in Entries(f.entries) {
        assert e in FilesData(w.files[level]);
      }
    }
  }

  lemma ReplaceData(v: Version, level: nat, inputs0: seq<File>, inputs1: seq<File>, outs: seq<File>)
    requires level + 1 < |v.files|
    requires forall f :: f in inputs0 ==> f in v.files[level]
    requires forall f :: f in inputs1 ==> f in v.files[level + 1]
    ensures Data(v) == Remaining(v, level, inputs0, inputs1) + (FilesData(inputs0) + FilesData(inputs1))
    ensures Data(Replace(v, level, inputs0, inputs1, outs)) == Remaining(v, level, inputs0, inputs1) + FilesData(outs)
    ensures FilesData(v.files[level]) == FilesData(Without(v.files[level], inputs0)) + FilesData(inputs0)
    ensures FilesData(v.files[level + 1]) == FilesData(Without(v.files[level + 1], inputs1)) + FilesData(inputs1)
    ensures FilesData(Replace(v, level, inputs0, inputs1, outs).files[level + 1])
         == FilesData(Without(v.files[level + 1], inputs1)) + FilesData(outs)
  {
    WithoutMembers(v.files[level], inputs0);
    WithoutMembers(v.files[level + 1], inputs1);
    InsertFilesMembers(Without(v.files[level + 1], inputs1), outs);
    FilesDataUnion(v.files[level], Without(v.files[level], inputs0), inputs0);
    FilesDataUnion(v.files[level + 1], Without(v.files[level + 1], inputs1), inputs1);
    var w := Replace(v, level, inputs0, inputs1, outs);
    FilesDataUnion(w.files[level + 1], Without(v.files[level + 1], inputs1), outs);
    var r := Version(v.files[level := Without(v.files[level], inputs0)][level + 1 := Without(v.files[level + 1], inputs1)]);
    DataDiffersAt(v, r, level, FilesData(inputs0), FilesData(inputs1));
    DataDiffersAt(w, r, level, {}, FilesData(outs));
  }

  /** Two versions that differ in two adjacent levels. */
  lemma DataDiffersAt(v: Version, r: Version, level: nat, extra0: set<Entry>, extra1: set<Entry>)
    requires |v.files| == |r.files| && level + 1 < |v.files|
    requires forall l :: 0 <= l < |v.files| && l != level && l != level + 1 ==> v.files[l] == r.files[l]
    requires FilesData(v.files[level]) == FilesData(r.files[level]) + extra0
    requires FilesData(v.files[level + 1]) == FilesData(r.files[level + 1]) + extra1
    ensures Data(v) == Data(r) + (extra0 + extra1)
  {
    hide FilesData;
    forall e
      ensures e in Data(v) <==> e in Data(r) + (extra0 + extra1)
    {
      if e in Data(r) {
        var l :| 0 <= l < |r.files| && e in FilesData(r.files[l]);
        assert e in FilesData(v.files[l]);
      }
      assert e in extra0 ==> e in FilesData(v.files[level]);
      assert e in extra1 ==> e in FilesData(v.files[level + 1]);
      if e in Data(v) {
        var l :| 0 <= l < |v.files| && e in FilesData(v.files[l]);
        assert e in extra0 || e in extra1 || e in FilesData(r.files[l]);
      }
    }
  }
}
