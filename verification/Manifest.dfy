/** Version edits, the builder that applies a batch of them, and manifest replay
    (db/version_set.cc, VersionSet::Builder, WriteSnapshot, Recover). */
module Manifest {
  import opened InternalKeys
  import opened Versions

  /** The file changes of a VersionEdit; files are recorded with their level. */
  datatype Edit = Edit(deleted: set<(nat, nat)>, added: seq<(nat, File)>)

  /** BySmallestKey: by smallest internal key, ties by file number. */
  predicate BySmallestKey(f: File, g: File) {
    Less(f.Smallest(), g.Smallest()) || (!Less(g.Smallest(), f.Smallest()) && f.number < g.number)
  }

  ghost predicate SortedFiles(files: seq<File>) {
    forall i, j | 0 <= i < j < |files| :: BySmallestKey(files[i], files[j])
  }

  lemma BySmallestKeyTransitive(f: File, g: File, h: File)
    ensures BySmallestKey(f, g) && BySmallestKey(g, h) ==> BySmallestKey(f, h)
    ensures !BySmallestKey(f, f)
  {
  }

  lemma SameMembersSameEmptiness(a: seq<File>, b: seq<File>)
    requires forall f | f in a :: f in b
    ensures a != [] ==> b != []
  {
    if a != [] {
      var h := a[0];
      assert h in a;
    }
  }

  /** Two sorted file lists with the same members are the same list. */
  lemma {:induction false} SortedFilesUnique(a: seq<File>, b: seq<File>)
    requires SortedFiles(a) && SortedFiles(b)
    requires forall f :: f in a <==> f in b
    ensures a == b
  {
    SameMembersSameEmptiness(a, b);
    SameMembersSameEmptiness(b, a);
    if a != [] {
      assert a[0] in b && b[0] in a;
      var i :| 0 <= i < |b| && b[i] == a[0];
      var j :| 0 <= j < |a| && a[j] == b[0];
      BySmallestKeyTransitive(a[0], b[0], a[0]);
      assert a[0] == b[0];
      HeadOnce(a);
      HeadOnce(b);
      assert forall f :: f in a[1..] <==> f in b[1..];
      SortedFilesUnique(a[1..], b[1..]);
    }
  }

  lemma HeadOnce(a: seq<File>)
    requires SortedFiles(a) && a != []
    ensures forall f :: f in a[1..] <==> f in a && f != a[0]
  {
    BySmallestKeyTransitive(a[0], a[0], a[0]);
    assert a == [a[0]] + a[1..];
  }

  // ----- what a batch of edits means, level by level -----

  /** `f` put into its place among sorted files. */
  ghost function Inserted(files: seq<File>, f: File): (r: seq<File>)
    ensures forall g :: g in r <==> g in files || g == f
  {
    if files == [] || BySmallestKey(f, files[0]) then [f] + files else [files[0]] + Inserted(files[1..], f)
  }

  lemma {:induction false} InsertedIsSorted(files: seq<File>, f: File)
    requires SortedFiles(files) && forall g | g in files :: g.number != f.number
    ensures SortedFiles(Inserted(files, f))
  {
    if files != [] && BySmallestKey(f, files[0]) {
      forall j | 0 <= j < |files|
        ensures BySmallestKey(f, files[j])
      {
        BySmallestKeyTransitive(f, files[0], files[j]);
      }
    } else if files != [] {
      InsertedIsSorted(files[1..], f);
      var rest := Inserted(files[1..], f);
      forall j | 0 <= j < |rest|
        ensures BySmallestKey(files[0], rest[j])
      {
        assert rest[j] in rest;
        assert rest[j] in files[1..] || rest[j] == f;
      }
    }
  }

  /** Files with different numbers can always be put in order. */
  lemma {:induction false} SortedFilesExist(files: set<File>) returns (r: seq<File>)
    requires forall f, g | f in files && g in files && f.number == g.number :: f == g
    ensures SortedFiles(r) && forall f :: f in r <==> f in files
  {
    if files == {} {
      r := [];
    } else {
      var f :| f in files;
      var rest := SortedFilesExist(files - {f});
      InsertedIsSorted(rest, f);
      r := Inserted(rest, f);
    }
  }

  function DeletedNumbers(e: Edit, level: nat): set<nat> {
    set p | p in e.deleted && p.0 == level :: p.1
  }

  ghost function AddedFiles(e: Edit, level: nat): set<File> {
    set i | 0 <= i < |e.added| && e.added[i].0 == level :: e.added[i].1
  }

  ghost function Numbers(files: set<File>): set<nat> {
    set f | f in files :: f.number
  }

  /** Files a batch ever added to the level. */
  ghost function AllAdded(edits: seq<Edit>, level: nat): set<File> {
    if edits == [] then {} else AllAdded(edits[..|edits| - 1], level) + AddedFiles(edits[|edits| - 1], level)
  }

  /** Numbers whose last mention in the batch was a deletion. */
  ghost function AllDeleted(edits: seq<Edit>, level: nat): set<nat> {
    if edits == [] then {}
    else
      var e := edits[|edits| - 1];
      AllDeleted(edits[..|edits| - 1], level) + DeletedNumbers(e, level) - Numbers(AddedFiles(e, level))
  }

  /** `v'` is what SaveTo makes of base `v`: per level, base and added files that are not deleted, sorted. */
  ghost predicate Saves(v: Levels, edits: seq<Edit>, v': Levels) {
    forall l | 0 <= l < NUM_LEVELS ::
      && SortedFiles(v'[l])
      && forall f :: f in v'[l] <==> (f in v[l] || f in AllAdded(edits, l)) && f.number !in AllDeleted(edits, l)
  }

  ghost predicate LevelsSorted(v: Levels) {
    forall l | 0 <= l < NUM_LEVELS :: SortedFiles(v[l])
  }

  ghost function FilesIn(files: seq<File>): set<File> {
    set f | f in files
  }

  /** No file number is added twice to one level, the files already there included. */
  ghost predicate FreshNumbers(v: Levels, edits: seq<Edit>) {
    && (forall n, l | 0 <= n < |edits| && 0 <= l < NUM_LEVELS ::
          Numbers(AddedFiles(edits[n], l)) !! Numbers(FilesIn(v[l]) + AllAdded(edits[..n], l)))
    && (forall n | 0 <= n < |edits| :: DistinctAdditions(edits[n]))
  }

  ghost predicate DistinctAdditions(e: Edit) {
    forall i, j | 0 <= i < j < |e.added| && e.added[i].0 == e.added[j].0 :: e.added[i].1.number != e.added[j].1.number
  }

  /** Applying the edits one version at a time, as LogAndApply does. */
  ghost predicate Folds(vs: seq<Levels>, edits: seq<Edit>)
    ensures Folds(vs, edits) ==> |vs| == |edits| + 1
  {
    |vs| == |edits| + 1 && forall n | 0 <= n < |edits| :: Saves(vs[n], [edits[n]], vs[n + 1])
  }

  lemma OneEdit(e: Edit, level: nat)
    ensures AllAdded([e], level) == AddedFiles(e, level)
    ensures AllDeleted([e], level) == DeletedNumbers(e, level) - Numbers(AddedFiles(e, level))
  {
    assert [e][..0] == [];
  }

  /** What SaveTo keeps in a level. */
  ghost function Kept(v: Levels, edits: seq<Edit>, level: nat): set<File>
    requires level < NUM_LEVELS
  {
    set f | f in FilesIn(v[level]) + AllAdded(edits, level) && f.number !in AllDeleted(edits, level)
  }

  /** A batch that leaves no number twice in a level can be saved. */
  lemma SavesExists(v: Levels, edits: seq<Edit>) returns (v': Levels)
    requires forall l: nat, f, g | l < NUM_LEVELS && f in Kept(v, edits, l) && g in Kept(v, edits, l)
               && f.number == g.number ::
               f == g
    ensures Saves(v, edits, v')
  {
    var levels: seq<seq<File>> := [];
    for l := 0 to NUM_LEVELS
      invariant |levels| == l
      invariant forall m: nat | m < l :: SortedFiles(levels[m]) && forall f :: f in levels[m] <==>
                  f in Kept(v, edits, m)
    {
      hide Kept, SortedFiles;
      var files := SortedFilesExist(Kept(v, edits, l));
      levels := levels + [files];
    }
    v' := levels;
  }

  lemma {:induction false} FoldMembers(vs: seq<Levels>, edits: seq<Edit>, level: nat, f: File)
    requires Folds(vs, edits) && FreshNumbers(vs[0], edits) && level < NUM_LEVELS
    ensures f in vs[|edits|][level]
            <==> (f in vs[0][level] || f in AllAdded(edits, level)) && f.number !in AllDeleted(edits, level)
  {
    if edits != [] {
      var n := |edits| - 1;
      var front, e := edits[..n], edits[n];
      assert forall i | 0 <= i <= n :: front[..i] == edits[..i];
      FoldMembers(vs[..n + 1], front, level, f);
      OneEdit(e, level);
      assert Saves(vs[n], [e], vs[n + 1]);
      assert Numbers(AddedFiles(e, level)) !! Numbers(FilesIn(vs[0][level]) + AllAdded(front, level));
      if f in vs[0][level] || f in AllAdded(front, level) {
        assert f.number in Numbers(FilesIn(vs[0][level]) + AllAdded(front, level));
      }
      if f in AddedFiles(e, level) {
        assert f.number in Numbers(AddedFiles(e, level));
      }
    }
  }

  /** Replaying a manifest in one batch rebuilds the version the edits built one at a time. */
  lemma ReplayEqualsFold(vs: seq<Levels>, edits: seq<Edit>, v: Levels)
    requires Folds(vs, edits) && FreshNumbers(vs[0], edits) && LevelsSorted(vs[0])
    requires Saves(vs[0], edits, v)
    ensures v == vs[|edits|]
  {
    forall l | 0 <= l < NUM_LEVELS
      ensures v[l] == vs[|edits|][l]
    {
      forall f
        ensures f in v[l] <==> f in vs[|edits|][l]
      {
        FoldMembers(vs, edits, l, f);
      }
      assert SortedFiles(vs[|edits|][l]) by {
        if edits != [] {
          assert Saves(vs[|edits| - 1], [edits[|edits| - 1]], vs[|edits|]);
        }
      }
      SortedFilesUnique(v[l], vs[|edits|][l]);
    }
  }

  // ----- WriteSnapshot -----

  const EMPTY_VERSION: Levels := [[], [], [], [], [], [], []]

  function LevelAdditions(files: seq<File>, level: nat): (r: seq<(nat, File)>)
    ensures |r| == |files| && forall i | 0 <= i < |r| :: r[i] == (level, files[i])
  {
    seq(|files|, i requires 0 <= i < |files| => (level, files[i]))
  }

  function AdditionsFrom(v: Levels, level: nat): seq<(nat, File)>
    requires level <= NUM_LEVELS
    decreases NUM_LEVELS - level
  {
    if level == NUM_LEVELS then [] else LevelAdditions(v[level], level) + AdditionsFrom(v, level + 1)
  }

  /** WriteSnapshot: one edit that adds every file of the version at its level. */
  function SnapshotOf(v: Levels): Edit {
    Edit({}, AdditionsFrom(v, 0))
  }

  lemma {:induction false} AdditionsAreFiles(v: Levels, level: nat)
    requires level <= NUM_LEVELS
    ensures forall l, f :: (l, f) in AdditionsFrom(v, level) <==> level <= l < NUM_LEVELS && f in v[l]
    decreases NUM_LEVELS - level
  {
    if level < NUM_LEVELS {
      AdditionsAreFiles(v, level + 1);
      var here := LevelAdditions(v[level], level);
      forall l, f
        ensures (l, f) in here <==> l == level && f in v[level]
      {
        if l == level && f in v[level] {
          var i :| 0 <= i < |v[level]| && v[level][i] == f;
          assert here[i] == (l, f);
        }
      }
    }
  }

  lemma LevelAdditionsDistinct(v: Levels, level: nat)
    requires LevelsSorted(v) && UniqueNumbers(v) && level < NUM_LEVELS
    ensures DistinctAdditions(Edit({}, LevelAdditions(v[level], level)))
  {
    var files := v[level];
    forall i, j | 0 <= i < j < |files|
      ensures files[i].number != files[j].number
    {
      assert BySmallestKey(files[i], files[j]);
      BySmallestKeyTransitive(files[i], files[i], files[i]);
      assert files[i] in files && files[j] in files;
    }
  }

  lemma DistinctConcat(here: seq<(nat, File)>, rest: seq<(nat, File)>)
    requires DistinctAdditions(Edit({}, here)) && DistinctAdditions(Edit({}, rest))
    requires forall i, j | 0 <= i < |here| && 0 <= j < |rest| :: here[i].0 < rest[j].0
    ensures DistinctAdditions(Edit({}, here + rest))
  {
    var all := here + rest;
    var e, e0, e1 := Edit({}, all), Edit({}, here), Edit({}, rest);
    forall i, j | 0 <= i < j < |all| && all[i].0 == all[j].0
      ensures all[i].1.number != all[j].1.number
    {
      if j < |here| {
        assert e0.added[i].1.number != e0.added[j].1.number;
      } else if |here| <= i {
        assert e1.added[i - |here|].1.number != e1.added[j - |here|].1.number;
      }
    }
  }

  lemma {:induction false} AdditionsDistinct(v: Levels, level: nat)
    requires LevelsSorted(v) && UniqueNumbers(v) && level <= NUM_LEVELS
    ensures DistinctAdditions(Edit({}, AdditionsFrom(v, level)))
    decreases NUM_LEVELS - level
  {
    if level < NUM_LEVELS {
      AdditionsDistinct(v, level + 1);
      AdditionsAreFiles(v, level + 1);
      LevelAdditionsDistinct(v, level);
      var rest := AdditionsFrom(v, level + 1);
      forall i | 0 <= i < |rest|
        ensures level < rest[i].0
      {
        assert (rest[i].0, rest[i].1) in rest;
      }
      DistinctConcat(LevelAdditions(v[level], level), rest);
    }
  }

  /** A file number stands for one file at one level. */
  ghost predicate UniqueNumbers(v: Levels) {
    forall l, m, f, g | 0 <= l < NUM_LEVELS && 0 <= m < NUM_LEVELS && f in v[l] && g in v[m] && f.number == g.number ::
      l == m && f == g
  }

  lemma SnapshotAdds(v: Levels, level: nat)
    requires level < NUM_LEVELS
    ensures AddedFiles(SnapshotOf(v), level) == FilesIn(v[level])
    ensures DeletedNumbers(SnapshotOf(v), level) == {}
  {
    AdditionsAreFiles(v, 0);
    var e := SnapshotOf(v);
    forall i | 0 <= i < |e.added|
      ensures e.added[i].0 < NUM_LEVELS && e.added[i].1 in v[e.added[i].0]
    {
      assert (e.added[i].0, e.added[i].1) in e.added;
    }
    forall f | f in v[level]
      ensures f in AddedFiles(e, level)
    {
      assert (level, f) in e.added;
      var i :| 0 <= i < |e.added| && e.added[i] == (level, f);
    }
  }

  lemma SnapshotSaves(v: Levels)
    requires LevelsSorted(v)
    ensures Saves(EMPTY_VERSION, [SnapshotOf(v)], v)
  {
    forall l | 0 <= l < NUM_LEVELS
      ensures AllAdded([SnapshotOf(v)], l) == FilesIn(v[l])
      ensures AllDeleted([SnapshotOf(v)], l) == {}
    {
      OneEdit(SnapshotOf(v), l);
      SnapshotAdds(v, l);
    }
  }

  lemma {:induction false} AllAddedAfterSnapshot(v: Levels, edits: seq<Edit>, level: nat)
    requires level < NUM_LEVELS
    ensures AllAdded([SnapshotOf(v)] + edits, level) == FilesIn(v[level]) + AllAdded(edits, level)
  {
    hide SnapshotOf, AddedFiles, FilesIn;
    var all := [SnapshotOf(v)] + edits;
    if edits == [] {
      assert all == [SnapshotOf(v)];
      OneEdit(SnapshotOf(v), level);
      SnapshotAdds(v, level);
    } else {
      AllAddedAfterSnapshot(v, edits[..|edits| - 1], level);
      assert all[..|all| - 1] == [SnapshotOf(v)] + edits[..|edits| - 1];
    }
  }

  lemma SnapshotThenFreshAt(v: Levels, edits: seq<Edit>, n: nat, level: nat)
    requires n <= |edits| && level < NUM_LEVELS && FreshNumbers(v, edits)
    ensures var all := [SnapshotOf(v)] + edits;
            Numbers(AddedFiles(all[n], level)) !! Numbers(FilesIn(EMPTY_VERSION[level]) + AllAdded(all[..n], level))
  {
    hide SnapshotOf, DistinctAdditions;
    var all := [SnapshotOf(v)] + edits;
    assert FilesIn(EMPTY_VERSION[level]) == {};
    if n > 0 {
      assert all[..n] == [SnapshotOf(v)] + edits[..n - 1];
      AllAddedAfterSnapshot(v, edits[..n - 1], level);
      assert Numbers(AddedFiles(edits[n - 1], level)) !! Numbers(FilesIn(v[level]) + AllAdded(edits[..n - 1], level));
    }
  }

  lemma SnapshotThenFresh(v: Levels, edits: seq<Edit>)
    requires LevelsSorted(v) && UniqueNumbers(v) && FreshNumbers(v, edits)
    ensures FreshNumbers(EMPTY_VERSION, [SnapshotOf(v)] + edits)
  {
    hide DistinctAdditions, SnapshotOf;
    var all := [SnapshotOf(v)] + edits;
    assert DistinctAdditions(SnapshotOf(v)) by { SnapshotIsDistinct(v); }
    forall n | 0 <= n < |all|
      ensures DistinctAdditions(all[n])
    {
      assert n > 0 ==> all[n] == edits[n - 1];
    }
    forall n, l | 0 <= n < |all| && 0 <= l < NUM_LEVELS
      ensures Numbers(AddedFiles(all[n], l)) !! Numbers(FilesIn(EMPTY_VERSION[l]) + AllAdded(all[..n], l))
    {
      SnapshotThenFreshAt(v, edits, n, l);
    }
  }

  lemma SnapshotIsDistinct(v: Levels)
    requires LevelsSorted(v) && UniqueNumbers(v)
    ensures DistinctAdditions(SnapshotOf(v))
  {
    AdditionsDistinct(v, 0);
  }

  lemma SnapshotThenFolds(vs: seq<Levels>, edits: seq<Edit>)
    requires Folds(vs, edits) && LevelsSorted(vs[0])
    ensures Folds([EMPTY_VERSION] + vs, [SnapshotOf(vs[0])] + edits)
  {
    hide Saves, SnapshotOf, LevelsSorted;
    SnapshotSaves(vs[0]);
    FoldsPrepend(EMPTY_VERSION, SnapshotOf(vs[0]), vs, edits);
  }

  lemma FoldsPrepend(v: Levels, e: Edit, vs: seq<Levels>, edits: seq<Edit>)
    requires Folds(vs, edits) && Saves(v, [e], vs[0])
    ensures Folds([v] + vs, [e] + edits)
  {
    hide Saves;
    var all, allVs := [e] + edits, [v] + vs;
    forall n | 0 <= n < |all|
      ensures Saves(allVs[n], [all[n]], allVs[n + 1])
    {
      if n > 0 {
        assert allVs[n] == vs[n - 1] && allVs[n + 1] == vs[n] && all[n] == edits[n - 1];
      }
    }
  }

  /** VersionSet::Recover on a manifest that starts with a snapshot of vs[0] and holds the later edits
      rebuilds the last version. */
  lemma RecoverRebuildsCurrent(vs: seq<Levels>, edits: seq<Edit>, v: Levels)
    requires Folds(vs, edits) && FreshNumbers(vs[0], edits) && LevelsSorted(vs[0]) && UniqueNumbers(vs[0])
    requires Saves(EMPTY_VERSION, [SnapshotOf(vs[0])] + edits, v)
    ensures v == vs[|edits|]
  {
    hide Saves, FreshNumbers, SnapshotOf, UniqueNumbers, LevelsSorted, Folds;
    var all, allVs := [SnapshotOf(vs[0])] + edits, [EMPTY_VERSION] + vs;
    SnapshotThenFresh(vs[0], edits);
    SnapshotThenFolds(vs, edits);
    EmptyIsSorted();
    assert allVs[0] == EMPTY_VERSION && allVs[|all|] == vs[|edits|];
    ReplayEqualsFold(allVs, all, v);
  }

  lemma EmptyIsSorted()
    ensures LevelsSorted(EMPTY_VERSION)
  {
  }

  // ----- the builder -----

  /** Neither file sorts before the other, which is what std::set takes for equality. */
  predicate Equivalent(f: File, g: File) {
    !BySmallestKey(f, g) && !BySmallestKey(g, f)
  }

  /** std::set::insert into a sorted list. */
  method InsertSorted(files: seq<File>, f: File) returns (r: seq<File>)
    requires SortedFiles(files)
    ensures SortedFiles(r)
    ensures (exists g :: g in files && Equivalent(f, g)) ==> r == files
    ensures (forall g | g in files :: !Equivalent(f, g)) ==> forall h :: h in r <==> h in files || h == f
  {
    var i := 0;
    while i < |files| && BySmallestKey(files[i], f)
      invariant i <= |files|
      invariant forall j | 0 <= j < i :: BySmallestKey(files[j], f)
    {
      i := i + 1;
    }
    if i < |files| && !BySmallestKey(f, files[i]) {
      r := files;
      assert Equivalent(f, files[i]);
    } else {
      r := files[..i] + [f] + files[i..];
      forall j | i <= j < |files|
        ensures BySmallestKey(f, files[j])
      {
        BySmallestKeyTransitive(f, files[i], files[j]);
      }
      forall h
        ensures h in r <==> h in files || h == f
      {
        assert files == files[..i] + files[i..];
      }
    }
  }

  ghost function AddedUpTo(e: Edit, n: nat, level: nat): set<File>
    requires n <= |e.added|
  {
    set i | 0 <= i < n && e.added[i].0 == level :: e.added[i].1
  }

  lemma AddedUpToStep(e: Edit, n: nat, level: nat)
    requires n < |e.added|
    ensures AddedUpTo(e, n + 1, level) == AddedUpTo(e, n, level) + if e.added[n].0 == level then {e.added[n].1} else {}
  {
  }

  lemma NumbersPlus(files: set<File>, f: File)
    ensures Numbers(files + {f}) == Numbers(files) + {f.number}
  {
    assert f in files + {f};
    forall n | n in Numbers(files)
      ensures n in Numbers(files + {f})
    {
      var g :| g in files && g.number == n;
      assert g in files + {f};
    }
  }

  /** The file an edit adds next is equivalent to none added before it. */
  lemma NotYetAdded(v: Levels, edits: seq<Edit>, e: Edit, n: nat, added: seq<File>)
    requires FreshNumbers(v, edits + [e]) && n < |e.added| && e.added[n].0 < NUM_LEVELS
    requires FilesIn(added) == AllAdded(edits, e.added[n].0) + AddedUpTo(e, n, e.added[n].0)
    ensures forall g | g in added :: !Equivalent(e.added[n].1, g)
  {
    var level, f := e.added[n].0, e.added[n].1;
    assert (edits + [e])[..|edits|] == edits && (edits + [e])[|edits|] == e;
    assert f in AddedFiles(e, level);
    assert f.number in Numbers(AddedFiles(e, level));
    forall g | g in added
      ensures g.number != f.number
    {
      assert g in FilesIn(added);
      if g in AllAdded(edits, level) {
        assert g in FilesIn(v[level]) + AllAdded(edits, level);
        assert g.number in Numbers(FilesIn(v[level]) + AllAdded(edits, level));
      } else {
        var i :| 0 <= i < n && e.added[i].0 == level && e.added[i].1 == g;
        assert DistinctAdditions(e);
      }
    }
  }

  lemma {:induction false} BaseAndAddedDiffer(v: Levels, edits: seq<Edit>, level: nat)
    requires FreshNumbers(v, edits) && level < NUM_LEVELS
    ensures forall f, g | f in v[level] && g in AllAdded(edits, level) :: f.number != g.number
  {
    if edits != [] {
      var n := |edits| - 1;
      var front := edits[..n];
      assert forall i | 0 <= i <= n :: front[..i] == edits[..i];
      BaseAndAddedDiffer(v, front, level);
      forall f, g | f in v[level] && g in AddedFiles(edits[n], level)
        ensures f.number != g.number
      {
        assert g.number in Numbers(AddedFiles(edits[n], level));
        assert f in FilesIn(v[level]) + AllAdded(front, level);
        assert f.number in Numbers(FilesIn(v[level]) + AllAdded(front, level));
      }
    }
  }

  /** `r` holds the first m base and first n added files that are not deleted. */
  ghost predicate Merged(base: seq<File>, m: nat, added: seq<File>, n: nat, deleted: set<nat>, r: seq<File>)
    requires m <= |base| && n <= |added|
  {
    && SortedFiles(r)
    && (forall f :: f in r <==> (f in base[..m] || f in added[..n]) && f.number !in deleted)
  }

  /** The two lists are consumed up to m and n so that everything consumed sorts before what is left. */
  ghost predicate Cut(base: seq<File>, m: nat, added: seq<File>, n: nat)
    requires m <= |base| && n <= |added|
  {
    && (forall i, j | 0 <= i < m && n <= j < |added| :: BySmallestKey(base[i], added[j]))
    && (forall i, j | m <= i < |base| && 0 <= j < n :: BySmallestKey(added[j], base[i]))
  }

  lemma TakeBase(base: seq<File>, m: nat, added: seq<File>, n: nat, deleted: set<nat>, r: seq<File>)
    requires SortedFiles(base) && SortedFiles(added)
    requires m < |base| && n <= |added| && Cut(base, m, added, n) && Merged(base, m, added, n, deleted, r)
    requires n < |added| ==> BySmallestKey(base[m], added[n])
    ensures Cut(base, m + 1, added, n) && Merged(base, m + 1, added, n, deleted, MaybeAddFile(r, base[m], deleted))
  {
    forall j | n <= j < |added|
      ensures BySmallestKey(base[m], added[j])
    {
      BySmallestKeyTransitive(base[m], added[n], added[j]);
    }
    assert base[..m + 1] == base[..m] + [base[m]];
    assert forall i | 0 <= i < |r| :: r[i] in r;
  }

  lemma TakeAdded(base: seq<File>, m: nat, added: seq<File>, n: nat, deleted: set<nat>, r: seq<File>)
    requires SortedFiles(base) && SortedFiles(added)
    requires m <= |base| && n < |added| && Cut(base, m, added, n) && Merged(base, m, added, n, deleted, r)
    requires m < |base| ==> BySmallestKey(added[n], base[m])
    ensures Cut(base, m, added, n + 1) && Merged(base, m, added, n + 1, deleted, MaybeAddFile(r, added[n], deleted))
  {
    forall i | m <= i < |base|
      ensures BySmallestKey(added[n], base[i])
    {
      BySmallestKeyTransitive(added[n], base[m], base[i]);
    }
    assert added[..n + 1] == added[..n] + [added[n]];
    assert forall i | 0 <= i < |r| :: r[i] in r;
  }

  function MaybeAddFile(files: seq<File>, f: File, deleted: set<nat>): seq<File> {
    if f.number in deleted then files else files + [f]
  }

  method MergeLevel(base: seq<File>, added: seq<File>, deleted: set<nat>) returns (r: seq<File>)
    requires SortedFiles(base) && SortedFiles(added)
    requires forall f, g | f in base && g in added :: f.number != g.number
    ensures Merged(base, |base|, added, |added|, deleted, r)
  {
    r := [];
    var b := 0;
    for a := 0 to |added|
      invariant b <= |base| && Merged(base, b, added, a, deleted, r) && Cut(base, b, added, a)
    {
      hide Merged, Cut, SortedFiles;
      while b < |base| && !BySmallestKey(added[a], base[b])
        invariant b <= |base| && Merged(base, b, added, a, deleted, r) && Cut(base, b, added, a)
      {
        assert base[b] in base && added[a] in added;
        TakeBase(base, b, added, a, deleted, r);
        r := MaybeAddFile(r, base[b], deleted);
        b := b + 1;
      }
      TakeAdded(base, b, added, a, deleted, r);
      r := MaybeAddFile(r, added[a], deleted);
    }
    while b < |base|
      invariant b <= |base| && Merged(base, b, added, |added|, deleted, r) && Cut(base, b, added, |added|)
    {
      TakeBase(base, b, added, |added|, deleted, r);
      r := MaybeAddFile(r, base[b], deleted);
      b := b + 1;
    }
  }

  /** Half-way through Apply: all deletions noted, the first n additions made. */
  ghost predicate MidApply(edits: seq<Edit>, e: Edit, n: nat, deleted: seq<set<nat>>, added: seq<seq<File>>)
    requires n <= |e.added|
  {
    && |deleted| == |added| == NUM_LEVELS
    && forall l | 0 <= l < NUM_LEVELS ::
         && SortedFiles(added[l])
         && FilesIn(added[l]) == AllAdded(edits, l) + AddedUpTo(e, n, l)
         && deleted[l] == AllDeleted(edits, l) + DeletedNumbers(e, l) - Numbers(AddedUpTo(e, n, l))
  }

  lemma MidApplyReady(v: Levels, edits: seq<Edit>, e: Edit, n: nat, deleted: seq<set<nat>>, added: seq<seq<File>>)
    requires FreshNumbers(v, edits + [e])
    requires n < |e.added| && e.added[n].0 < NUM_LEVELS && MidApply(edits, e, n, deleted, added)
    ensures |deleted| == |added| == NUM_LEVELS
    ensures SortedFiles(added[e.added[n].0])
    ensures forall g | g in added[e.added[n].0] :: !Equivalent(e.added[n].1, g)
  {
    NotYetAdded(v, edits, e, n, added[e.added[n].0]);
  }

  lemma MidApplyStep(edits: seq<Edit>, e: Edit, n: nat, deleted: seq<set<nat>>, added: seq<seq<File>>, files: seq<File>)
    requires n < |e.added| && e.added[n].0 < NUM_LEVELS && MidApply(edits, e, n, deleted, added)
    requires SortedFiles(files)
    requires forall h :: h in files <==> h in added[e.added[n].0] || h == e.added[n].1
    ensures var (level, f) := e.added[n];
            |deleted| == |added| == NUM_LEVELS && MidApply(edits, e, n + 1,
                deleted[level := deleted[level] - {f.number}], added[level := files])
  {
    var (level, f) := e.added[n];
    forall l | 0 <= l < NUM_LEVELS
      ensures AddedUpTo(e, n + 1, l) == AddedUpTo(e, n, l) + if level == l then {f} else {}
      ensures Numbers(AddedUpTo(e, n + 1, l)) == Numbers(AddedUpTo(e, n, l)) + if level == l then {f.number} else {}
    {
      AddedUpToStep(e, n, l);
      NumbersPlus(AddedUpTo(e, n, l), f);
    }
    assert FilesIn(files) == FilesIn(added[level]) + {f};
  }

  lemma MidApplyDone(edits: seq<Edit>, e: Edit, deleted: seq<set<nat>>, added: seq<seq<File>>)
    requires MidApply(edits, e, |e.added|, deleted, added)
    ensures |deleted| == |added| == NUM_LEVELS
    ensures forall l | 0 <= l < NUM_LEVELS ::
              && SortedFiles(added[l])
              && FilesIn(added[l]) == AllAdded(edits + [e], l)
              && deleted[l] == AllDeleted(edits + [e], l)
  {
    assert (edits + [e])[..|edits|] == edits;
    assert forall l :: AddedUpTo(e, |e.added|, l) == AddedFiles(e, l);
  }

  class Builder {
    const base: Levels
    var deletedFiles: seq<set<nat>>
    var addedFiles: seq<seq<File>>
    ghost var applied: seq<Edit>

    ghost predicate Valid()
      reads this
    {
      && |deletedFiles| == |addedFiles| == NUM_LEVELS
      && LevelsSorted(base) && FreshNumbers(base, applied)
      && forall l | 0 <= l < NUM_LEVELS ::
           && SortedFiles(addedFiles[l])
           && FilesIn(addedFiles[l]) == AllAdded(applied, l)
           && deletedFiles[l] == AllDeleted(applied, l)
    }

    constructor (base: Levels)
      requires LevelsSorted(base)
      ensures Valid() && this.base == base && applied == []
    {
      this.base := base;
      deletedFiles := [{}, {}, {}, {}, {}, {}, {}];
      addedFiles := [[], [], [], [], [], [], []];
      applied := [];
    }

    /** Builder::Apply: deletions first, then additions, each addition cancelling a deletion of its number. */
    method Apply(e: Edit)
      requires Valid() && FreshNumbers(base, applied + [e])
      requires forall p | p in e.deleted :: p.0 < NUM_LEVELS
      requires forall p | p in e.added :: p.0 < NUM_LEVELS
      modifies this
      ensures Valid() && applied == old(applied) + [e]
    {
      hide FreshNumbers, LevelsSorted, SortedFiles;
      var level := 0;
      while level < NUM_LEVELS
        invariant level <= NUM_LEVELS && |deletedFiles| == NUM_LEVELS && addedFiles == old(addedFiles)
                  && applied == old(applied)
        invariant forall l | 0 <= l < NUM_LEVELS :: deletedFiles[l] == AllDeleted(applied, l)
                    + if l < level then DeletedNumbers(e, l) else {}
      {
        deletedFiles := deletedFiles[level := deletedFiles[level] + DeletedNumbers(e, level)];
        level := level + 1;
      }
      assert MidApply(applied, e, 0, deletedFiles, addedFiles);
      for i := 0 to |e.added|
        invariant applied == old(applied) && MidApply(applied, e, i, deletedFiles, addedFiles)
      {
        hide MidApply;
        var (lvl, f) := e.added[i];
        assert e.added[i] in e.added;
        MidApplyReady(base, applied, e, i, deletedFiles, addedFiles);
        var files := InsertSorted(addedFiles[lvl], f);
        MidApplyStep(applied, e, i, deletedFiles, addedFiles, files);
        deletedFiles := deletedFiles[lvl := deletedFiles[lvl] - {f.number}];
        addedFiles := addedFiles[lvl := files];
      }
      MidApplyDone(applied, e, deletedFiles, addedFiles);
      applied := applied + [e];
    }

    /** SaveTo: merges each level's base files with its added files and drops the deleted numbers. */
    method SaveTo() returns (v: Levels)
      requires Valid()
      ensures Saves(base, applied, v)
    {
      var levels: seq<seq<File>> := [];
      for l := 0 to NUM_LEVELS
        invariant |levels| == l
        invariant forall m | 0 <= m < l ::
                    && SortedFiles(levels[m])
                    && forall f :: f in levels[m] <==>
                        (f in base[m] || f in AllAdded(applied, m)) && f.number !in AllDeleted(applied, m)
      {
        BaseAndAddedDiffer(base, applied, l);
        var files := MergeLevel(base[l], addedFiles[l], deletedFiles[l]);
        assert forall f :: f in addedFiles[l] <==> f in FilesIn(addedFiles[l]);
        levels := levels + [files];
      }
      v := levels;
    }
  }
}
