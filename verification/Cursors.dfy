/** The cursor of DBImpl::NewIterator, put together: one child for each memtable, one for each level-0 file and one for
    each deeper level that holds files, merged (db/db_impl.cc, db/version_set.cc). A cursor that refines a list stands
    in for any other that refines the same list. */
module Cursors {
  import opened InternalKeys
  import opened SnapshotReads
  import opened Versions
  import opened Manifest
  import opened DbIterator
  import opened MergingIterator
  import opened TwoLevelIterator
  import opened Durability
  import opened DurabilityProofs
  import Database
  import Runs

  /** The entries of a level's files, one file after the other. */
  function LevelRun(files: seq<File>): seq<Entry> {
    if files == [] then [] else LevelRun(files[..|files| - 1]) + files[|files| - 1].entries
  }

  lemma {:induction false} LevelRunIsFlat(files: seq<File>, store: Store, n: nat)
    requires (forall f | f in files :: Fits(f)) && Opens(store, files) && n <= |files|
    ensures Upto(LevelIndex(files), store, n) == LevelRun(files[..n])
  {
    if n > 0 {
      LevelRunIsFlat(files, store, n - 1);
      LevelBlock(files, store, n - 1);
      assert files[..n][..n - 1] == files[..n - 1];
    }
  }

  lemma {:induction false} LevelRunHolds(files: seq<File>)
    ensures forall e :: e in LevelRun(files) <==> InLevel(files, e)
  {
    if files != [] {
      var front, last := files[..|files| - 1], files[|files| - 1];
      LevelRunHolds(front);
      forall e
        ensures InLevel(files, e) <==> InLevel(front, e) || e in last.entries
      {
        assert files == front + [last];
      }
    }
  }

  lemma {:induction false} LevelRunSorted(files: seq<File>)
    requires Ordered(files)
    ensures Sorted(LevelRun(files))
  {
    if files != [] {
      var front, last := files[..|files| - 1], files[|files| - 1];
      LevelRunSorted(front);
      LevelRunHolds(front);
      forall a, b | a in LevelRun(front) && b in last.entries
        ensures Precedes(a, b)
      {
        var f :| f in front && a in f.entries;
        assert AllBefore(f, last);
      }
    }
  }

  // ----- the runs to merge -----

  /** One run for each level-0 file. */
  function FileRuns(files: seq<File>): (r: seq<seq<Entry>>)
    ensures |r| == |files|
  {
    seq(|files|, i requires 0 <= i < |files| => files[i].entries)
  }

  /** One run for each level from l on that holds files. */
  function LevelRuns(v: Levels, l: nat): seq<seq<Entry>>
    decreases NUM_LEVELS - l
  {
    if l >= NUM_LEVELS then []
    else if v[l] == [] then LevelRuns(v, l + 1)
    else [LevelRun(v[l])] + LevelRuns(v, l + 1)
  }

  ghost predicate SortedRuns(runs: seq<seq<Entry>>) {
    forall r | r in runs :: Sorted(r)
  }

  ghost predicate RunsApart(runs: seq<seq<Entry>>) {
    forall i, j | 0 <= i < j < |runs| :: Apart(runs[i], runs[j])
  }

  ghost predicate InRuns(runs: seq<seq<Entry>>, e: Entry) {
    exists r :: r in runs && e in r
  }

  lemma RunsConcat(a: seq<seq<Entry>>, b: seq<seq<Entry>>)
    requires SortedRuns(a) && SortedRuns(b) && RunsApart(a) && RunsApart(b)
    requires forall e, x | InRuns(a, e) && InRuns(b, x) :: Precedes(e, x) || Precedes(x, e)
    ensures SortedRuns(a + b) && RunsApart(a + b)
    ensures forall e :: InRuns(a + b, e) <==> InRuns(a, e) || InRuns(b, e)
  {
    forall e
      ensures InRuns(a + b, e) <==> InRuns(a, e) || InRuns(b, e)
    {
      if InRuns(a, e) {
        var r :| r in a && e in r;
        assert r in a + b;
      }
      if InRuns(b, e) {
        var r :| r in b && e in r;
        assert r in a + b;
      }
    }
    forall i, j | 0 <= i < j < |a + b|
      ensures Apart((a + b)[i], (a + b)[j])
    {
      if i < |a| <= j {
        forall e, x | e in a[i] && x in b[j - |a|]
          ensures Precedes(e, x) || Precedes(x, e)
        {
          assert InRuns(a, e) && InRuns(b, x);
        }
      }
    }
  }

  lemma OneRun(r: seq<Entry>)
    requires Sorted(r)
    ensures SortedRuns([r]) && RunsApart([r])
    ensures forall e :: InRuns([r], e) <==> e in r
  {
    assert r in [r];
  }

  lemma FileRunsAre(files: seq<File>)
    requires NewestByNumber(files) && SortedFiles(files)
    ensures SortedRuns(FileRuns(files)) && RunsApart(FileRuns(files))
    ensures forall e :: InRuns(FileRuns(files), e) <==> InLevel(files, e)
  {
    var runs := FileRuns(files);
    forall i, j | 0 <= i < j < |runs|
      ensures Apart(runs[i], runs[j])
    {
      assert files[i] in files && files[j] in files && BySmallestKey(files[i], files[j]);
      BySmallestKeyTransitive(files[i], files[i], files[i]);
      NewerIsApart(files[i], files[j]);
    }
    forall e
      ensures InRuns(runs, e) <==> InLevel(files, e)
    {
      if InLevel(files, e) {
        var f :| f in files && e in f.entries;
        var i :| 0 <= i < |files| && files[i] == f;
        assert runs[i] in runs;
      }
    }
  }

  lemma NewerIsApart(f: File, g: File)
    requires NewerThan(f, g) || NewerThan(g, f)
    ensures Apart(f.entries, g.entries)
  {
  }

  lemma {:induction false} LevelRunsAre(v: Levels, l: nat)
    requires LevelInvariant(v) && 1 <= l <= NUM_LEVELS
    ensures SortedRuns(LevelRuns(v, l)) && RunsApart(LevelRuns(v, l))
    ensures forall e :: InRuns(LevelRuns(v, l), e) <==> exists m: nat :: l <= m < NUM_LEVELS && InLevel(v[m], e)
    decreases NUM_LEVELS - l
  {
    if l < NUM_LEVELS {
      LevelRunsAre(v, l + 1);
      LevelRunHolds(v[l]);
      LevelRunSorted(v[l]);
      var deeper := LevelRuns(v, l + 1);
      OneRun(LevelRun(v[l]));
      forall e, x | e in LevelRun(v[l]) && InRuns(deeper, x)
        ensures Precedes(e, x) || Precedes(x, e)
      {
        var m: nat :| l + 1 <= m < NUM_LEVELS && InLevel(v[m], x);
        ShallowerIsApart(v, l, m, e, x);
      }
      RunsConcat([LevelRun(v[l])], deeper);
      hide LevelInvariant, Apart, Sorted;
      forall e
        ensures InRuns(LevelRuns(v, l), e) <==> exists m: nat :: l <= m < NUM_LEVELS && InLevel(v[m], e)
      {
        assert v[l] == [] ==> !InLevel(v[l], e);
        if InLevel(v[l], e) {
          assert l <= l < NUM_LEVELS;
        }
      }
    }
  }

  lemma ShallowerIsApart(v: Levels, l: nat, m: nat, e: Entry, x: Entry)
    requires LevelInvariant(v) && l < m < NUM_LEVELS && InLevel(v[l], e) && InLevel(v[m], x)
    ensures Precedes(e, x) || Precedes(x, e)
  {
    var f :| f in v[l] && e in f.entries;
    var g :| g in v[m] && x in g.entries;
    assert NewerThan(f, g);
  }

  /** Version::AddIterators. */
  function VersionRuns(v: Levels): seq<seq<Entry>> {
    FileRuns(v[0]) + LevelRuns(v, 1)
  }

  lemma VersionRunsAre(v: Levels)
    requires LevelInvariant(v) && LevelsSorted(v)
    ensures SortedRuns(VersionRuns(v)) && RunsApart(VersionRuns(v))
    ensures forall e :: InRuns(VersionRuns(v), e) <==> e in Contents(v)
  {
    FileRunsAre(v[0]);
    LevelRunsAre(v, 1);
    forall e, x | InRuns(FileRuns(v[0]), e) && InRuns(LevelRuns(v, 1), x)
      ensures Precedes(e, x) || Precedes(x, e)
    {
      var m: nat :| 1 <= m < NUM_LEVELS && InLevel(v[m], x);
      ShallowerIsApart(v, 0, m, e, x);
    }
    RunsConcat(FileRuns(v[0]), LevelRuns(v, 1));
    hide LevelInvariant, LevelsSorted, InLevel, SortedRuns, RunsApart, FileRuns, LevelRuns;
    forall e
      ensures InRuns(VersionRuns(v), e) <==> InVersion(v, e)
    {
      if InVersion(v, e) {
        var l :| 0 <= l < |v| && InLevel(v[l], e);
        assert l == 0 || exists m: nat :: 1 <= m < NUM_LEVELS && InLevel(v[m], e);
      }
    }
  }

  /** The children of DBImpl::NewInternalIterator. */
  function IteratorRuns(mem: Database.MemTable, imm: Option<Database.MemTable>, v: Levels): seq<seq<Entry>> {
    [mem] + ((if imm.Some? then [imm.value] else []) + VersionRuns(v))
  }

  lemma NewerRunOnTop(r: seq<Entry>, below: seq<seq<Entry>>, es: iset<Entry>)
    requires Sorted(r) && SortedRuns(below) && RunsApart(below) && AllNewer(EntriesOf(r), es)
    requires forall e :: InRuns(below, e) <==> e in es
    ensures SortedRuns([r] + below) && RunsApart([r] + below)
    ensures forall e :: InRuns([r] + below, e) <==> e in EntriesOf(r) || e in es
  {
    OneRun(r);
    forall e, x | InRuns([r], e) && InRuns(below, x)
      ensures Precedes(e, x) || Precedes(x, e)
    {
      assert e in EntriesOf(r);
    }
    RunsConcat([r], below);
  }

  /** The children are sorted, never hold two entries with one user key and number, and together hold everything. */
  lemma IteratorRunsAre(mem: Database.MemTable, imm: Option<Database.MemTable>, v: Levels)
    requires Database.NewestFirst(mem, imm, v) && LevelsSorted(v)
    ensures SortedRuns(IteratorRuns(mem, imm, v)) && RunsApart(IteratorRuns(mem, imm, v))
    ensures forall e :: InRuns(IteratorRuns(mem, imm, v), e) <==> e in Database.Everything(mem, imm, v)
  {
    VersionRunsAre(v);
    hide LevelInvariant, LevelsSorted, Contents, VersionRuns, SortedRuns, RunsApart, Sorted;
    var below, es := VersionRuns(v), Contents(v);
    if imm.Some? {
      NewerRunOnTop(imm.value, below, es);
      below, es := [imm.value] + below, Contents(v) + EntriesOf(imm.value);
    } else {
      assert [] + below == below;
    }
    assert IteratorRuns(mem, imm, v) == [mem] + below;
    NewerRunOnTop(mem, below, es);
  }

  method ChildrenOf(runs: seq<seq<Entry>>) returns (children: seq<InternalIterator>)
    requires SortedRuns(runs) && RunsApart(runs)
    ensures |children| == |runs| && fresh(set c | c in children)
    ensures forall i | 0 <= i < |runs| :: children[i].entries == runs[i] && children[i].Positioned()
    ensures forall i, j | 0 <= i < j < |children| :: children[i] != children[j]
  {
    children := [];
    for i := 0 to |runs|
      invariant |children| == i && fresh(set c | c in children)
      invariant forall j | 0 <= j < i :: children[j].entries == runs[j] && children[j].Positioned()
      invariant forall a, b | 0 <= a < b < i :: children[a] != children[b]
    {
      var child := new InternalIterator(runs[i]);
      children := children + [child];
    }
  }

  /** DBImpl::NewInternalIterator: a merging cursor over a sorted list of everything the database holds. */
  method NewInternalIterator(mem: Database.MemTable, imm: Option<Database.MemTable>, v: Levels)
    returns (iter: MergingIter)
    requires Database.NewestFirst(mem, imm, v) && LevelsSorted(v)
    ensures iter.Refines() && !iter.Valid() && Sorted(iter.merged)
    ensures forall e :: e in iter.merged <==> e in Database.Everything(mem, imm, v)
  {
    IteratorRunsAre(mem, imm, v);
    ghost var everything := Database.Everything(mem, imm, v);
    var runs := IteratorRuns(mem, imm, v);
    hide Database.NewestFirst, LevelsSorted, Database.Everything, IteratorRuns, Sorted, Apart, InRuns;
    var children := ChildrenOf(runs);
    hide SortedRuns, RunsApart;
    ChildrenAreApart(children, runs);
    ghost var merged := MergeExists(children);
    MergeHolds(children, runs, merged);
    iter := new MergingIter(children, merged);
  }

  lemma ChildrenAreApart(children: seq<InternalIterator>, runs: seq<seq<Entry>>)
    requires SortedRuns(runs) && RunsApart(runs) && |children| == |runs|
    requires forall i | 0 <= i < |runs| :: children[i].entries == runs[i]
    ensures forall c | c in children :: Sorted(c.entries)
    ensures forall c, d | c in children && d in children && c != d :: Apart(c.entries, d.entries)
  {
    hide Sorted, Apart;
    forall c | c in children
      ensures Sorted(c.entries)
    {
      var i :| 0 <= i < |children| && children[i] == c;
      assert runs[i] in runs;
    }
    forall c, d | c in children && d in children && c != d
      ensures Apart(c.entries, d.entries)
    {
      var i :| 0 <= i < |children| && children[i] == c;
      var j :| 0 <= j < |children| && children[j] == d;
      if i < j {
        assert Apart(runs[i], runs[j]);
      } else {
        assert Apart(runs[j], runs[i]);
        ApartIsSymmetric(runs[j], runs[i]);
      }
    }
  }

  lemma ApartIsSymmetric(es: seq<Entry>, fs: seq<Entry>)
    requires Apart(es, fs)
    ensures Apart(fs, es)
  {
  }

  lemma MergeHolds(children: seq<InternalIterator>, runs: seq<seq<Entry>>, merged: seq<Entry>)
    requires IsMerge(children, merged) && |children| == |runs|
             && forall i | 0 <= i < |runs| :: children[i].entries == runs[i]
    ensures Sorted(merged) && forall e :: e in merged <==> InRuns(runs, e)
  {
    forall e
      ensures e in merged <==> InRuns(runs, e)
    {
      if e in merged {
        var c :| c in children && e in c.entries;
        var i :| 0 <= i < |children| && children[i] == c;
        assert runs[i] in runs;
      }
      if InRuns(runs, e) {
        var r :| r in runs && e in r;
        var i :| 0 <= i < |runs| && runs[i] == r;
        assert children[i] in children;
      }
    }
  }

  // ----- what a user walks over -----

  /** The user entries of `merged` at the snapshot are the keys that the writes have values for, with these values. */
  ghost predicate Walks(merged: seq<Entry>, snapshot: SequenceNumber, writes: iset<Entry>) {
    var ys := Yields(merged, snapshot);
    && (forall p | 0 <= p < |ys| ::
          0 <= ys[p] < |merged| && Read(writes, merged[ys[p]].key.userKey, snapshot) == Some(merged[ys[p]].value))
    && (forall p, q | 0 <= p < q < |ys| :: merged[ys[p]].key.userKey < merged[ys[q]].key.userKey)
    && (forall k | Read(writes, k, snapshot).Some? :: exists p :: 0 <= p < |ys| && merged[ys[p]].key.userKey == k)
  }

  lemma SameReadsSameWalk(merged: seq<Entry>, snapshot: SequenceNumber, writes: iset<Entry>)
    requires Sorted(merged) && forall k :: Read(EntriesOf(merged), k, snapshot) == Read(writes, k, snapshot)
    ensures Walks(merged, snapshot, writes)
  {
    YieldsAreReads(merged, snapshot);
    hide Read, Sorted, Yields;
  }

  /** In every running state, at a live snapshot, the cursor over the merge of all children walks exactly the keys
      with a value in the logged writes up to the snapshot, in order. */
  lemma CursorWalksHistory(states: seq<State>, actions: seq<Action>, n: nat, mem: Database.MemTable,
                           imm: Option<Database.MemTable>,
                           merged: seq<Entry>, snapshot: SequenceNumber)
    requires Run(states, actions) && n < |states| && states[n].memory.Some?
    requires var m := states[n].memory.value;
             && Runs.SkipLists(m, mem, imm) && Runs.IsLiveSnapshot(m, snapshot)
             && Sorted(merged) && forall e :: e in merged <==> e in Database.Everything(mem, imm, m.current)
    ensures snapshot <= |states[n].history| && Walks(merged, snapshot, EntriesOf(states[n].history[..snapshot]))
  {
    hide Run, Inv, Runs.SkipLists, Database.Everything, Sorted;
    RunKeepsInv(states, actions, n);
    MergeWalksHistory(states[n], states[n].memory.value, mem, imm, merged, snapshot);
  }

  lemma MergeWalksHistory(s: State, m: Memory, mem: Database.MemTable, imm: Option<Database.MemTable>,
                          merged: seq<Entry>, snapshot: SequenceNumber)
    requires s.memory == Some(m) && Inv(s) && Runs.SkipLists(m, mem, imm) && Runs.IsLiveSnapshot(m, snapshot)
    requires Sorted(merged) && forall e :: e in merged <==> e in Database.Everything(mem, imm, m.current)
    ensures snapshot <= |s.history| && Walks(merged, snapshot, EntriesOf(s.history[..snapshot]))
  {
    hide Inv, Runs.SkipLists, Runs.IsLiveSnapshot, Database.Everything, Runs.DbContents, Sorted, Read;
    Runs.RunningIsNewestFirst(s, m, mem, imm);
    assert EntriesOf(merged) == Runs.DbContents(m);
    Runs.ReadsMatchHistory(s, m, 0.0, snapshot);
    forall k
      ensures Read(Runs.DbContents(m), k, snapshot) == Read(EntriesOf(s.history[..snapshot]), k, snapshot)
    {
      Runs.ReadsMatchHistory(s, m, k, snapshot);
    }
    SameReadsSameWalk(merged, snapshot, EntriesOf(s.history[..snapshot]));
  }

  /** In every running state the children can be merged. */
  lemma RunningCanBeMerged(states: seq<State>, actions: seq<Action>, n: nat, mem: Database.MemTable,
                           imm: Option<Database.MemTable>)
    requires Run(states, actions) && n < |states| && states[n].memory.Some?
    requires Runs.SkipLists(states[n].memory.value, mem, imm)
    ensures var v := states[n].memory.value.current; Database.NewestFirst(mem, imm, v) && LevelsSorted(v)
  {
    RunKeepsInv(states, actions, n);
    Runs.RunningIsNewestFirst(states[n], states[n].memory.value, mem, imm);
    hide Run, Runs.SkipLists, Database.NewestFirst;
  }
}
