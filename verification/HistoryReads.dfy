/** The write history and what it means for a version to represent a prefix of it. Every way the current
    version changes (flush, compaction, move, recovery) is shown to keep representing the history. */
module HistoryReads {
  import opened InternalKeys
  import opened SnapshotReads
  import opened Versions
  import opened Selection
  import opened Compaction
  import opened Manifest
  import opened LevelChanges
  import opened CompactionReads

  /** Writes are numbered 1, 2, 3, ... in the order they were logged. */
  ghost predicate Numbered(h: seq<Entry>) {
    forall i | 0 <= i < |h| :: h[i].key.sequence == i + 1
  }

  lemma NumberedIsDistinct(h: seq<Entry>)
    requires Numbered(h)
    ensures Distinct(EntriesOf(h))
  {
    forall a, b | a in h && b in h && a.key.sequence == b.key.sequence
      ensures a == b
    {
      var i :| 0 <= i < |h| && h[i] == a;
      var j :| 0 <= j < |h| && h[j] == b;
    }
  }

  lemma SliceIsNumbered(h: seq<Entry>, lo: nat, hi: nat)
    requires Numbered(h) && lo <= hi <= |h|
    ensures forall e | e in h[lo..hi] :: lo < e.key.sequence <= hi
    ensures Distinct(EntriesOf(h[lo..hi]))
    ensures EntriesOf(h[..hi]) == EntriesOf(h[..lo]) + EntriesOf(h[lo..hi])
  {
    forall e | e in h[lo..hi]
      ensures lo < e.key.sequence <= hi && e in h
    {
      var i :| 0 <= i < hi - lo && h[lo..hi][i] == e;
      assert h[lo + i] == e;
    }
    NumberedIsDistinct(h);
    assert h[..hi] == h[..lo] + h[lo..hi];
  }

  /** `v` answers every read from `smallest` on like the first n writes do, and holds nothing else. */
  ghost predicate Represents(v: Levels, h: seq<Entry>, n: nat, smallest: int) {
    && n <= |h|
    && WellFormed(v)
    && Contents(v) <= EntriesOf(h[..n])
    && SameReadsFrom(Contents(v), EntriesOf(h[..n]), smallest)
  }

  lemma RepresentsLater(v: Levels, h: seq<Entry>, g: seq<Entry>, n: nat, smallest: int, smallest': int)
    requires Represents(v, h, n, smallest) && smallest <= smallest'
    ensures Represents(v, h + g, n, smallest')
  {
    assert (h + g)[..n] == h[..n];
  }

  lemma EntryIsOld(v: Levels, h: seq<Entry>, n: nat, smallest: int, l: nat, f: File, e: Entry)
    requires Numbered(h) && Represents(v, h, n, smallest) && l < NUM_LEVELS && f in v[l] && e in f.entries
    ensures e.key.sequence <= n
  {
    assert InLevel(v[l], e);
    assert e in Contents(v);
    SliceIsNumbered(h, 0, n);
    assert h[0..n] == h[..n];
  }

  /** A table holding exactly the writes numbered lo+1 .. hi. */
  ghost predicate Tabulates(f: File, h: seq<Entry>, lo: nat, hi: nat) {
    lo < hi <= |h| && EntriesOf(f.entries) == EntriesOf(h[lo..hi])
  }

  lemma TabulatedIsNewest(v: Levels, h: seq<Entry>, n: nat, hi: nat, smallest: int, f: File)
    requires Numbered(h) && Represents(v, h, n, smallest) && Tabulates(f, h, n, hi)
    ensures forall l, g | 0 <= l < NUM_LEVELS && g in v[l] :: NewerThan(f, g)
  {
    SliceIsNumbered(h, n, hi);
    forall l, g | 0 <= l < NUM_LEVELS && g in v[l]
      ensures NewerThan(f, g)
    {
      forall a, b | a in f.entries && b in g.entries
        ensures a.key.sequence > b.key.sequence
      {
        assert a in EntriesOf(f.entries);
        EntryIsOld(v, h, n, smallest, l, g, b);
      }
    }
  }

  /** Reads of a represented prefix extended by the newer writes in between. */
  lemma RepresentedExtends(v: Levels, h: seq<Entry>, n: nat, hi: nat, smallest: int)
    requires Numbered(h) && Represents(v, h, n, smallest) && n <= hi <= |h|
    ensures SameReadsFrom(Contents(v) + EntriesOf(h[n..hi]), EntriesOf(h[..hi]), smallest)
    ensures Contents(v) + EntriesOf(h[n..hi]) <= EntriesOf(h[..hi])
  {
    SliceIsNumbered(h, n, hi);
    SliceIsNumbered(h, 0, n);
    assert h[0..n] == h[..n];
    ContentsDistinct(v);
    SameReadsUnderNewer(Contents(v), EntriesOf(h[..n]), EntriesOf(h[n..hi]), smallest);
  }

  lemma FlushRepresents(v: Levels, h: seq<Entry>, n: nat, hi: nat, smallest: int, level: nat, f: File, v': Levels)
    requires Numbered(h) && Represents(v, h, n, smallest) && Tabulates(f, h, n, hi)
    requires SafeLevel(v, level, f.Smallest().userKey, f.Largest().userKey)
    requires forall l, g | 0 <= l < NUM_LEVELS && g in v[l] :: g.number < f.number
    requires Saves(v, [FlushEdit(level, f)], v')
    ensures Represents(v', h, hi, smallest)
  {
    TabulatedIsNewest(v, h, n, hi, smallest, f);
    FlushKeepsLevelInvariant(v, level, f, v');
    FlushAddsContents(v, level, f, v');
    RepresentedExtends(v, h, n, hi, smallest);
  }

  lemma SameReadsTransitive(a: iset<Entry>, b: iset<Entry>, c: iset<Entry>, s: int)
    requires SameReadsFrom(a, b, s) && SameReadsFrom(b, c, s)
    ensures SameReadsFrom(a, c, s)
  {
    forall k, t | s <= t
      ensures Read(a, k, t) == Read(c, k, t)
    {
      assert Read(a, k, t) == Read(b, k, t);
    }
  }

  lemma CompactionRepresents(v: Levels, h: seq<Entry>, n: nat, level: nat, in0: seq<File>, in1: seq<File>,
                             input: seq<Entry>,
                             outs: seq<seq<Entry>>, outputs: seq<File>, smallest: SequenceNumber, v': Levels)
    requires Represents(v, h, n, smallest)
    requires ValidInputs(v, level, in0, in1) && Merges(input, in0, in1)
    requires Flatten(outs) == Survivors(input, |input|, smallest, BaseKeys(v, level))
    requires Carry(outputs, outs) && FreeNumbers(v, level, in0, outputs)
    requires NoExposedMarker(v, level, in0, in1, smallest)
    requires Saves(v, [CompactionEdit(level, in0, in1, outputs)], v')
    ensures Represents(v', h, n, smallest)
  {
    CompactionIsCorrect(v, level, in0, in1, input, outs, outputs, smallest, v');
    SameReadsSymmetric(Contents(v), Contents(v'), smallest);
    SameReadsTransitive(Contents(v'), Contents(v), EntriesOf(h[..n]), smallest);
  }

  lemma SameReadsSymmetric(a: iset<Entry>, b: iset<Entry>, s: int)
    requires SameReadsFrom(a, b, s)
    ensures SameReadsFrom(b, a, s)
  {
  }

  /** A trivial move keeps the contents to the entry. */
  lemma MoveRepresents(v: Levels, h: seq<Entry>, n: nat, level: nat, f: File, smallest: int, v': Levels)
    requires Represents(v, h, n, smallest) && ValidInputs(v, level, [f], [])
    requires Saves(v, [CompactionEdit(level, [f], [], [f])], v')
    ensures Represents(v', h, n, smallest)
  {
    hide Saves;
    assert f in [f];
    assert FreeNumbers(v, level, [f], [f]);
    assert ValidOutputs([f], [], [f]);
    CompactionKeepsLevelInvariant(v, level, [f], [], [f], v');
    MoveKeepsContents(v, level, f, v');
  }

  lemma MoveKeepsContents(v: Levels, level: nat, f: File, v': Levels)
    requires WellFormed(v) && ValidInputs(v, level, [f], []) && FreeNumbers(v, level, [f], [f])
    requires Saves(v, [CompactionEdit(level, [f], [], [f])], v')
    ensures Contents(v') == Contents(v)
  {
    hide Saves, LevelInvariant;
    assert f in [f];
    CompactionMembers(v, level, [f], [], [f], v');
    CompactionContents(v, level, [f], [], [f], v');
    forall e
      ensures e in Contents(v') <==> e in Contents(v)
    {
      assert InLevel([f], e) ==> InLevel(v[level], e);
    }
  }

  // ----- the tables recovery writes -----

  /** Recovery writes the replayed entries as level-0 tables: consecutive slices, rising numbers. */
  ghost predicate RecoveredTables(tables: seq<File>, cuts: seq<nat>, h: seq<Entry>, n: nat) {
    && |cuts| == |tables| + 1 && cuts[0] == n && cuts[|tables|] == |h|
    && (forall i | 0 <= i < |tables| :: Tabulates(tables[i], h, cuts[i], cuts[i + 1]))
    && (forall i, j | 0 <= i < j < |tables| :: tables[i].number < tables[j].number)
  }

  function RecoveryEdit(tables: seq<File>): Edit {
    Edit({}, LevelAdditions(tables, 0))
  }

  ghost predicate AddedAtLevelZero(v: Levels, tables: seq<File>, v': Levels) {
    && (forall f :: f in v'[0] <==> f in v[0] || f in tables)
    && (forall l | 1 <= l < NUM_LEVELS :: forall f :: f in v'[l] <==> f in v[l])
  }

  lemma RecoveryMembers(v: Levels, tables: seq<File>, v': Levels)
    requires Saves(v, [RecoveryEdit(tables)], v')
    ensures LevelsSorted(v')
    ensures AddedAtLevelZero(v, tables, v')
  {
    var e := RecoveryEdit(tables);
    SavesChanges(v, e, v');
    forall l, g | 0 <= l < NUM_LEVELS
      ensures g in v'[l] <==> g in v[l] || (l == 0 && g in tables)
    {
      if l == 0 && g in tables {
        var i :| 0 <= i < |tables| && tables[i] == g;
        assert e.added[i] == (0, g);
      }
      assert DeletedNumbers(e, l) == {};
    }
  }

  lemma {:induction false} CutsAscend(tables: seq<File>, cuts: seq<nat>, h: seq<Entry>, n: nat, i: nat, j: nat)
    requires RecoveredTables(tables, cuts, h, n) && i <= j <= |tables|
    ensures cuts[i] <= cuts[j]
    ensures i < j ==> cuts[i + 1] <= cuts[j]
    decreases j - i
  {
    if i + 1 < j {
      CutsAscend(tables, cuts, h, n, i, j - 1);
      assert Tabulates(tables[j - 1], h, cuts[j - 1], cuts[j]);
    } else if i < j {
      assert Tabulates(tables[i], h, cuts[i], cuts[i + 1]);
    }
  }

  lemma TablesInOrder(tables: seq<File>, cuts: seq<nat>, h: seq<Entry>, n: nat, i: nat, j: nat)
    requires Numbered(h) && RecoveredTables(tables, cuts, h, n) && i < j < |tables|
    ensures NewerThan(tables[j], tables[i])
  {
    CutsAscend(tables, cuts, h, n, i, j);
    assert Tabulates(tables[i], h, cuts[i], cuts[i + 1]) && Tabulates(tables[j], h, cuts[j], cuts[j + 1]);
    SliceIsNumbered(h, cuts[i], cuts[i + 1]);
    SliceIsNumbered(h, cuts[j], cuts[j + 1]);
    forall a, b | a in tables[j].entries && b in tables[i].entries
      ensures a.key.sequence > b.key.sequence
    {
      assert a in EntriesOf(tables[j].entries) && b in EntriesOf(tables[i].entries);
    }
  }

  lemma RecoveredIsNewer(v: Levels, h: seq<Entry>, n: nat, smallest: int, tables: seq<File>, cuts: seq<nat>, i: nat)
    requires Numbered(h) && Represents(v, h, n, smallest) && RecoveredTables(tables, cuts, h, n) && i < |tables|
    ensures forall l, g | 0 <= l < NUM_LEVELS && g in v[l] :: NewerThan(tables[i], g)
  {
    CutsAscend(tables, cuts, h, n, 0, i);
    assert Tabulates(tables[i], h, cuts[i], cuts[i + 1]);
    SliceIsNumbered(h, cuts[i], cuts[i + 1]);
    forall l, g | 0 <= l < NUM_LEVELS && g in v[l]
      ensures NewerThan(tables[i], g)
    {
      forall a, b | a in tables[i].entries && b in g.entries
        ensures a.key.sequence > b.key.sequence
      {
        assert a in EntriesOf(tables[i].entries);
        EntryIsOld(v, h, n, smallest, l, g, b);
      }
    }
  }

  lemma RecoveredLevelZero(v: Levels, h: seq<Entry>, n: nat, smallest: int, tables: seq<File>, cuts: seq<nat>,
                           v': Levels)
    requires Numbered(h) && Represents(v, h, n, smallest) && RecoveredTables(tables, cuts, h, n)
    requires forall l, g, t | 0 <= l < NUM_LEVELS && g in v[l] && t in tables :: g.number < t.number
    requires forall g :: g in v'[0] <==> g in v[0] || g in tables
    ensures NewestByNumber(v'[0])
  {
    forall f, g | f in v'[0] && g in v'[0]
      ensures f.number == g.number ==> f == g
      ensures f.number > g.number ==> NewerThan(f, g)
    {
      if f in tables {
        var i :| 0 <= i < |tables| && tables[i] == f;
        if g in tables {
          var j :| 0 <= j < |tables| && tables[j] == g;
          if j < i {
            TablesInOrder(tables, cuts, h, n, j, i);
          }
        } else {
          RecoveredIsNewer(v, h, n, smallest, tables, cuts, i);
        }
      }
    }
  }

  lemma RecoveredRecency(v: Levels, h: seq<Entry>, n: nat, smallest: int, tables: seq<File>, cuts: seq<nat>, v': Levels)
    requires Numbered(h) && Represents(v, h, n, smallest) && RecoveredTables(tables, cuts, h, n)
    requires AddedAtLevelZero(v, tables, v')
    ensures forall l, m, f, g | 0 <= l < m < NUM_LEVELS && f in v'[l] && g in v'[m] :: NewerThan(f, g)
  {
    assert LevelInvariant(v);
    hide Represents, RecoveredTables, NewerThan;
    forall l, m, f, g | 0 <= l < m < NUM_LEVELS && f in v'[l] && g in v'[m]
      ensures NewerThan(f, g)
    {
      if f !in v[l] {
        var i :| 0 <= i < |tables| && tables[i] == f;
        RecoveredIsNewer(v, h, n, smallest, tables, cuts, i);
      }
    }
  }

  lemma RecoveredNumbers(v: Levels, tables: seq<File>, v': Levels)
    requires UniqueNumbers(v)
    requires forall i, j | 0 <= i < j < |tables| :: tables[i].number < tables[j].number
    requires forall l, g, t | 0 <= l < NUM_LEVELS && g in v[l] && t in tables :: g.number < t.number
    requires AddedAtLevelZero(v, tables, v')
    ensures UniqueNumbers(v')
  {
    forall l, m, f, g | 0 <= l < NUM_LEVELS && 0 <= m < NUM_LEVELS && f in v'[l] && g in v'[m] && f.number == g.number
      ensures l == m && f == g
    {
      if f in tables && g in tables {
        var i :| 0 <= i < |tables| && tables[i] == f;
        var j :| 0 <= j < |tables| && tables[j] == g;
      }
    }
  }

  lemma RecoveredLevelInvariant(v: Levels, h: seq<Entry>, n: nat, smallest: int, tables: seq<File>, cuts: seq<nat>,
                                v': Levels)
    requires Numbered(h) && Represents(v, h, n, smallest) && RecoveredTables(tables, cuts, h, n)
    requires forall l, g, t | 0 <= l < NUM_LEVELS && g in v[l] && t in tables :: g.number < t.number
    requires Saves(v, [RecoveryEdit(tables)], v')
    ensures WellFormed(v')
  {
    RecoveryMembers(v, tables, v');
    RecoveredLevelZero(v, h, n, smallest, tables, cuts, v');
    RecoveredRecency(v, h, n, smallest, tables, cuts, v');
    RecoveredNumbers(v, tables, v');
    assert WellFormed(v);
    hide Represents, RecoveredTables, NewerThan, Ordered, SortedFiles, Saves;
    forall l | 1 <= l < NUM_LEVELS
      ensures v'[l] == v[l]
    {
      SortedFilesUnique(v'[l], v[l]);
    }
  }

  lemma {:induction false} RecoveredEntries(tables: seq<File>, cuts: seq<nat>, h: seq<Entry>, n: nat, m: nat)
    requires RecoveredTables(tables, cuts, h, n) && m <= |tables|
    ensures n <= cuts[m] <= |h|
    ensures forall e :: InLevel(tables[..m], e) <==> e in h[n..cuts[m]]
  {
    CutsAscend(tables, cuts, h, n, 0, m);
    CutsAscend(tables, cuts, h, n, m, |tables|);
    if m > 0 {
      RecoveredEntries(tables, cuts, h, n, m - 1);
      var t := tables[m - 1];
      assert Tabulates(t, h, cuts[m - 1], cuts[m]);
      assert h[n..cuts[m]] == h[n..cuts[m - 1]] + h[cuts[m - 1]..cuts[m]];
      assert tables[..m] == tables[..m - 1] + [t];
      forall e
        ensures InLevel(tables[..m], e) <==> InLevel(tables[..m - 1], e) || e in t.entries
      {
        if InLevel(tables[..m - 1], e) {
          var f :| f in tables[..m - 1] && e in f.entries;
          assert f in tables[..m];
        }
        if e in t.entries {
          assert t in tables[..m];
        }
      }
      forall e
        ensures e in t.entries <==> e in h[cuts[m - 1]..cuts[m]]
      {
        assert e in EntriesOf(t.entries) <==> e in EntriesOf(h[cuts[m - 1]..cuts[m]]);
      }
    }
  }

  lemma RecoveredContents(v: Levels, tables: seq<File>, v': Levels)
    requires AddedAtLevelZero(v, tables, v')
    ensures forall e :: e in Contents(v') <==> e in Contents(v) || InLevel(tables, e)
  {
    forall e
      ensures e in Contents(v') <==> e in Contents(v) || InLevel(tables, e)
    {
      if e in Contents(v') {
        var l :| 0 <= l < NUM_LEVELS && InLevel(v'[l], e);
        var f :| f in v'[l] && e in f.entries;
        assert f in v[l] ==> InLevel(v[l], e);
        assert f in tables ==> InLevel(tables, e);
      }
      if e in Contents(v) {
        var l :| 0 <= l < NUM_LEVELS && InLevel(v[l], e);
        assert InLevel(v'[l], e);
      }
      if InLevel(tables, e) {
        assert InLevel(v'[0], e);
      }
    }
  }

  lemma RecoveryRepresents(v: Levels, h: seq<Entry>, n: nat, smallest: int, tables: seq<File>, cuts: seq<nat>,
                           v': Levels)
    requires Numbered(h) && Represents(v, h, n, smallest) && RecoveredTables(tables, cuts, h, n)
    requires forall l, g, t | 0 <= l < NUM_LEVELS && g in v[l] && t in tables :: g.number < t.number
    requires Saves(v, [RecoveryEdit(tables)], v')
    ensures Represents(v', h, |h|, smallest)
  {
    RecoveredLevelInvariant(v, h, n, smallest, tables, cuts, v');
    RecoveryMembers(v, tables, v');
    RecoveredContents(v, tables, v');
    RecoveredEntries(tables, cuts, h, n, |tables|);
    RepresentedExtends(v, h, n, |h|, smallest);
    hide LevelInvariant, Contents, InLevel, Saves;
    assert tables[..|tables|] == tables;
    assert forall e :: e in Contents(v') <==> e in Contents(v) || e in h[n..|h|];
    assert Contents(v') == Contents(v) + EntriesOf(h[n..|h|]);
  }
}
