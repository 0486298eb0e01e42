/** Every change of the current version keeps the level invariant: flush, trivial move and compaction
    (db/db_impl.cc, WriteLevel0Table, BackgroundCompaction, InstallCompactionResults). */
module LevelChanges {
  import opened InternalKeys
  import opened SnapshotReads
  import opened Versions
  import opened Selection
  import opened Compaction
  import opened Manifest

  ghost predicate WellFormed(v: Levels) {
    LevelInvariant(v) && LevelsSorted(v) && UniqueNumbers(v)
  }

  ghost predicate Disjoint(f: File, g: File) {
    f == g || AllBefore(f, g) || AllBefore(g, f)
  }

  ghost predicate PairwiseDisjoint(files: seq<File>) {
    forall f, g | f in files && g in files :: Disjoint(f, g)
  }

  lemma DisjointFromOrdered(files: seq<File>)
    requires Ordered(files)
    ensures PairwiseDisjoint(files)
  {
    forall f, g | f in files && g in files
      ensures Disjoint(f, g)
    {
      var i :| 0 <= i < |files| && files[i] == f;
      var j :| 0 <= j < |files| && files[j] == g;
    }
  }

  lemma SmallestDecidesOrder(f: File, g: File)
    requires Disjoint(f, g) && BySmallestKey(f, g)
    ensures AllBefore(f, g)
  {
    BySmallestKeyTransitive(f, f, f);
    assert AllBefore(g, f) ==> Precedes(g.entries[0], f.entries[0]);
  }

  lemma OrderedFromDisjoint(files: seq<File>)
    requires SortedFiles(files) && PairwiseDisjoint(files)
    ensures Ordered(files)
  {
    forall i, j | 0 <= i < j < |files|
      ensures AllBefore(files[i], files[j])
    {
      assert files[i] in files && files[j] in files;
      SmallestDecidesOrder(files[i], files[j]);
    }
  }

  /** The file changes of one edit, as membership per level. */
  ghost predicate Changes(v: Levels, e: Edit, v': Levels) {
    forall l | 0 <= l < NUM_LEVELS ::
      forall f :: f in v'[l] <==>
        (f in v[l] || f in AddedFiles(e, l)) && (f.number in DeletedNumbers(e, l) ==>
            f.number in Numbers(AddedFiles(e, l)))
  }

  lemma SavesChanges(v: Levels, e: Edit, v': Levels)
    requires Saves(v, [e], v')
    ensures Changes(v, e, v') && LevelsSorted(v')
  {
    forall l | 0 <= l < NUM_LEVELS
      ensures forall f :: f in v'[l] <==>
        (f in v[l] || f in AddedFiles(e, l)) && (f.number in DeletedNumbers(e, l) ==>
            f.number in Numbers(AddedFiles(e, l)))
    {
      OneEdit(e, l);
    }
  }

  // ----- flush -----

  function FlushEdit(level: nat, f: File): Edit {
    Edit({}, [(level, f)])
  }

  lemma FlushMembers(v: Levels, level: nat, f: File, v': Levels)
    requires Saves(v, [FlushEdit(level, f)], v')
    ensures LevelsSorted(v')
    ensures forall l, g | 0 <= l < NUM_LEVELS :: g in v'[l] <==> g in v[l] || (l == level && g == f)
  {
    var e := FlushEdit(level, f);
    SavesChanges(v, e, v');
    forall l, g | 0 <= l < NUM_LEVELS
      ensures g in v'[l] <==> g in v[l] || (l == level && g == f)
    {
      assert g in AddedFiles(e, l) <==> l == level && g == f by {
        assert e.added[0] == (level, f);
      }
      assert DeletedNumbers(e, l) == {};
    }
  }

  /** A flushed table is newer than everything in the version and carries a new number. */
  ghost predicate NewestFile(v: Levels, f: File) {
    forall l, g | 0 <= l < NUM_LEVELS && g in v[l] :: NewerThan(f, g) && g.number < f.number
  }

  lemma NoOverlapIsDisjoint(f: File, g: File)
    requires !Overlaps(g, Some(f.Smallest().userKey), Some(f.Largest().userKey))
    ensures Disjoint(f, g) && NewerThan(f, g) && NewerThan(g, f)
  {
    UserKeysAscend(f);
    UserKeysAscend(g);
  }

  lemma FlushKeepsLevelInvariant(v: Levels, level: nat, f: File, v': Levels)
    requires WellFormed(v) && NewestFile(v, f)
    requires SafeLevel(v, level, f.Smallest().userKey, f.Largest().userKey)
    requires Saves(v, [FlushEdit(level, f)], v')
    ensures WellFormed(v')
  {
    FlushMembers(v, level, f, v');
    FlushKeepsRecency(v, level, f, v');
    forall l | 1 <= l < NUM_LEVELS
      ensures Ordered(v'[l])
    {
      FlushKeepsOrder(v, level, f, v', l);
    }
  }

  lemma FlushKeepsRecency(v: Levels, level: nat, f: File, v': Levels)
    requires LevelInvariant(v) && NewestFile(v, f)
    requires SafeLevel(v, level, f.Smallest().userKey, f.Largest().userKey)
    requires forall l, g | 0 <= l < NUM_LEVELS :: g in v'[l] <==> g in v[l] || (l == level && g == f)
    ensures forall l, m, a, b | 0 <= l < m < NUM_LEVELS && a in v'[l] && b in v'[m] :: NewerThan(a, b)
  {
    forall l, m, a, b | 0 <= l < m < NUM_LEVELS && a in v'[l] && b in v'[m]
      ensures NewerThan(a, b)
    {
      if b !in v[m] {
        NoOverlapIsDisjoint(f, a);
      }
    }
  }

  lemma FlushKeepsOrder(v: Levels, level: nat, f: File, v': Levels, l: nat)
    requires LevelInvariant(v) && LevelsSorted(v') && 1 <= l < NUM_LEVELS
    requires SafeLevel(v, level, f.Smallest().userKey, f.Largest().userKey)
    requires forall g :: g in v'[l] <==> g in v[l] || (l == level && g == f)
    ensures Ordered(v'[l])
  {
    DisjointFromOrdered(v[l]);
    hide LevelInvariant, Disjoint, SafeLevel;
    forall a, b | a in v'[l] && b in v'[l]
      ensures Disjoint(a, b)
    {
      FlushPairDisjoint(v, level, f, l, a, b);
    }
    OrderedFromDisjoint(v'[l]);
  }

  lemma FlushPairDisjoint(v: Levels, level: nat, f: File, l: nat, a: File, b: File)
    requires 1 <= l < NUM_LEVELS && PairwiseDisjoint(v[l])
    requires SafeLevel(v, level, f.Smallest().userKey, f.Largest().userKey)
    requires a in v[l] || (l == level && a == f)
    requires b in v[l] || (l == level && b == f)
    ensures Disjoint(a, b)
  {
    if a in v[l] && b in v[l] {
    } else if a in v[l] {
      NoOverlapIsDisjoint(f, a);
    } else if b in v[l] {
      NoOverlapIsDisjoint(f, b);
    }
  }

  lemma FlushAddsContents(v: Levels, level: nat, f: File, v': Levels)
    requires level < NUM_LEVELS && Saves(v, [FlushEdit(level, f)], v')
    ensures Contents(v') == Contents(v) + EntriesOf(f.entries)
  {
    FlushMembers(v, level, f, v');
    forall e
      ensures e in Contents(v') <==> e in Contents(v) || e in f.entries
    {
      if e in f.entries {
        assert f in v'[level];
        assert InLevel(v'[level], e);
      }
      if e in Contents(v) {
        var l :| 0 <= l < |v| && InLevel(v[l], e);
        assert InLevel(v'[l], e);
      }
      if e in Contents(v') {
        var l :| 0 <= l < |v'| && InLevel(v'[l], e);
        var g :| g in v'[l] && e in g.entries;
        assert g in v[l] ==> InLevel(v[l], e);
      }
    }
  }

  // ----- compaction and trivial move -----

  ghost function InputNumbers(level: nat, in0: seq<File>, in1: seq<File>): set<(nat, nat)> {
    (set f | f in in0 :: (level, f.number)) + (set f | f in in1 :: (level + 1, f.number))
  }

  /** AddInputDeletions plus one addition per output. */
  ghost function CompactionEdit(level: nat, in0: seq<File>, in1: seq<File>, outputs: seq<File>): Edit {
    Edit(InputNumbers(level, in0, in1), LevelAdditions(outputs, level + 1))
  }

  /** Output numbers are new, or (for a moved file) belong to a level-L input. */
  ghost predicate FreeNumbers(v: Levels, level: nat, in0: seq<File>, outputs: seq<File>) {
    && (forall o, p | o in outputs && p in outputs && o.number == p.number :: o == p)
    && (forall o, l, g | o in outputs && 0 <= l < NUM_LEVELS && g in v[l] && g.number == o.number :: l == level
         && g in in0)
  }

  /** The outputs are sorted, disjoint and hold only entries of the inputs. */
  ghost predicate ValidOutputs(in0: seq<File>, in1: seq<File>, outputs: seq<File>) {
    Ordered(outputs) && forall e | InLevel(outputs, e) :: InLevel(in0, e) || InLevel(in1, e)
  }

  lemma CompactionAdditions(level: nat, in0: seq<File>, in1: seq<File>, outputs: seq<File>, l: nat)
    ensures forall g :: g in AddedFiles(CompactionEdit(level, in0, in1, outputs), l) <==> l == level + 1 && g in outputs
    ensures forall n :: n in DeletedNumbers(CompactionEdit(level, in0, in1, outputs), l) <==>
              (l == level && exists f :: f in in0 && f.number == n)
                  || (l == level + 1 && exists f :: f in in1 && f.number == n)
  {
    var e := CompactionEdit(level, in0, in1, outputs);
    forall g | l == level + 1 && g in outputs
      ensures g in AddedFiles(e, l)
    {
      var i :| 0 <= i < |outputs| && outputs[i] == g;
      assert e.added[i] == (l, g);
    }
    forall n
      ensures n in DeletedNumbers(e, l) <==> (l, n) in e.deleted
    {
      if (l, n) in e.deleted {
        var p := (l, n);
        assert p in e.deleted && p.0 == l && p.1 == n;
      }
    }
  }

  /** Which files each level holds after the edit. */
  ghost predicate AfterCompaction(v: Levels, level: nat, in0: seq<File>, in1: seq<File>, outputs: seq<File>, v': Levels)
    requires level + 1 < NUM_LEVELS
  {
    && (forall l | 0 <= l < NUM_LEVELS && l != level && l != level + 1 :: forall g :: g in v'[l] <==> g in v[l])
    && (forall g :: g in v'[level] <==> g in v[level] && g !in in0)
    && (forall g :: g in v'[level + 1] <==> (g in v[level + 1] && g !in in1) || g in outputs)
  }

  lemma CompactionMembers(v: Levels, level: nat, in0: seq<File>, in1: seq<File>, outputs: seq<File>, v': Levels)
    requires UniqueNumbers(v) && level + 1 < NUM_LEVELS && FreeNumbers(v, level, in0, outputs)
    requires (forall f | f in in0 :: f in v[level]) && (forall f | f in in1 :: f in v[level + 1])
    requires Saves(v, [CompactionEdit(level, in0, in1, outputs)], v')
    ensures AfterCompaction(v, level, in0, in1, outputs, v') && LevelsSorted(v')
  {
    var e := CompactionEdit(level, in0, in1, outputs);
    SavesChanges(v, e, v');
    forall l | 0 <= l < NUM_LEVELS
      ensures forall g :: g in AddedFiles(e, l) <==> l == level + 1 && g in outputs
      ensures forall n :: n in DeletedNumbers(e, l) <==>
                (l == level && exists f :: f in in0 && f.number == n)
                    || (l == level + 1 && exists f :: f in in1 && f.number == n)
    {
      CompactionAdditions(level, in0, in1, outputs, l);
    }
    forall g | g in v[level + 1]
      ensures g.number !in Numbers(AddedFiles(e, level + 1))
    {
    }
  }

  lemma InputsAreInLevels(v: Levels, level: nat, in0: seq<File>, in1: seq<File>)
    requires ValidInputs(v, level, in0, in1)
    ensures level + 1 < NUM_LEVELS
    ensures (forall f | f in in0 :: f in v[level]) && (forall f | f in in1 :: f in v[level + 1])
  {
  }

  lemma OutputEntriesInside(v: Levels, level: nat, in0: seq<File>, in1: seq<File>, outputs: seq<File>, o: File,
                            e: Entry)
    requires ValidInputs(v, level, in0, in1) && ValidOutputs(in0, in1, outputs)
    requires o in outputs && e in o.entries
    ensures (exists f :: f in in0 && e in f.entries) || (exists f :: f in in1 && f in v[level + 1] && e in f.entries)
  {
    assert InLevel(outputs, e);
  }

  /** A level-(L+1) file left behind stays clear of every output. */
  lemma LeftBehindIsDisjoint(v: Levels, level: nat, in0: seq<File>, in1: seq<File>, outputs: seq<File>, o: File,
                             h: File)
    requires LevelInvariant(v) && ValidInputs(v, level, in0, in1) && ValidOutputs(in0, in1, outputs)
    requires o in outputs && h in v[level + 1] && h !in in1
    ensures Disjoint(o, h)
  {
    var lo, hi :| IsRange(in0, lo, hi) && in1 == Overlapping(v[level + 1], Some(lo), Some(hi));
    assert !Overlaps(h, Some(lo), Some(hi));
    forall e, x | e in o.entries && x in h.entries
      ensures if hi < h.Smallest().userKey then Precedes(e, x) else Precedes(x, e)
    {
      OutputEntriesInside(v, level, in0, in1, outputs, o, e);
      EntryBesideLeftBehind(v[level + 1], in0, in1, lo, hi, e, h, x);
    }
  }

  lemma EntryBesideLeftBehind(files: seq<File>, in0: seq<File>, in1: seq<File>, lo: UserKey, hi: UserKey, e: Entry,
                              h: File, x: Entry)
    requires Ordered(files) && IsRange(in0, lo, hi) && in1 == Overlapping(files, Some(lo), Some(hi))
    requires (exists f :: f in in0 && e in f.entries) || (exists f :: f in in1 && e in f.entries)
    requires h in files && !Overlaps(h, Some(lo), Some(hi)) && x in h.entries
    ensures if hi < h.Smallest().userKey then Precedes(e, x) else Precedes(x, e)
  {
    hide Ordered;
    UserKeysAscend(h);
    if f :| f in in0 && e in f.entries {
      UserKeysAscend(f);
    } else {
      var f :| f in in1 && e in f.entries;
      RangeIsNonempty(in0, lo, hi);
      LeftBehindSide(files, lo, hi, f, h);
    }
  }

  lemma RangeIsNonempty(files: seq<File>, lo: UserKey, hi: UserKey)
    requires IsRange(files, lo, hi)
    ensures lo <= hi
  {
    var f :| f in files && f.Smallest().userKey == lo;
    UserKeysAscend(f);
    assert f.entries[0] in f.entries;
  }

  lemma LeftBehindSide(files: seq<File>, lo: UserKey, hi: UserKey, f: File, h: File)
    requires Ordered(files) && f in files && h in files
    requires Overlaps(f, Some(lo), Some(hi)) && !Overlaps(h, Some(lo), Some(hi)) && lo <= hi
    ensures if hi < h.Smallest().userKey then AllBefore(f, h) else AllBefore(h, f)
  {
    DisjointFromOrdered(files);
    UserKeysAscend(f);
    UserKeysAscend(h);
    assert Disjoint(f, h);
    assert AllBefore(f, h) ==>
             Precedes(f.entries[0], h.entries[|h.entries| - 1]) && Precedes(f.entries[|f.entries| - 1], h.entries[0]);
    assert AllBefore(h, f) ==>
             Precedes(h.entries[0], f.entries[|f.entries| - 1]) && Precedes(h.entries[|h.entries| - 1], f.entries[0]);
  }

  lemma CompactionLevelsOrdered(v: Levels, level: nat, in0: seq<File>, in1: seq<File>, outputs: seq<File>, v': Levels,
                                l: nat)
    requires LevelInvariant(v) && ValidInputs(v, level, in0, in1) && ValidOutputs(in0, in1, outputs)
    requires AfterCompaction(v, level, in0, in1, outputs, v') && LevelsSorted(v')
    requires 1 <= l < NUM_LEVELS
    ensures Ordered(v'[l])
  {
    DisjointFromOrdered(v[l]);
    DisjointFromOrdered(outputs);
    forall a, b | a in v'[l] && b in v'[l]
      ensures Disjoint(a, b)
    {
      if l == level + 1 {
        if a in outputs && b !in outputs {
          LeftBehindIsDisjoint(v, level, in0, in1, outputs, a, b);
        } else if b in outputs && a !in outputs {
          LeftBehindIsDisjoint(v, level, in0, in1, outputs, b, a);
        }
      }
    }
    OrderedFromDisjoint(v'[l]);
  }

  /** Data in shallower levels stays newer than an output; data in deeper levels stays older. */
  lemma OutputsKeepRecency(v: Levels, level: nat, in0: seq<File>, in1: seq<File>, outputs: seq<File>, o: File, l: nat,
                           g: File)
    requires LevelInvariant(v) && ValidInputs(v, level, in0, in1) && ValidOutputs(in0, in1, outputs)
    requires o in outputs && l < NUM_LEVELS && g in v[l]
    requires l == level ==> g !in in0
    ensures l <= level ==> NewerThan(g, o)
    ensures level + 1 < l ==> NewerThan(o, g)
  {
    forall e, x | e in o.entries && x in g.entries && e.key.userKey == x.key.userKey
      ensures l <= level ==> x.key.sequence > e.key.sequence
      ensures level + 1 < l ==> e.key.sequence > x.key.sequence
    {
      OutputEntriesInside(v, level, in0, in1, outputs, o, e);
      if f :| f in in0 && e in f.entries {
        assert l == level ==> NewerThan(g, f);
        assert l < level ==> NewerThan(g, f);
        assert level < l ==> NewerThan(f, g);
      } else {
        var f :| f in in1 && f in v[level + 1] && e in f.entries;
        assert l <= level ==> NewerThan(g, f);
        assert level + 1 < l ==> NewerThan(f, g);
      }
    }
  }

  lemma CompactionKeepsRecency(v: Levels, level: nat, in0: seq<File>, in1: seq<File>, outputs: seq<File>, v': Levels)
    requires LevelInvariant(v) && ValidInputs(v, level, in0, in1) && ValidOutputs(in0, in1, outputs)
    requires AfterCompaction(v, level, in0, in1, outputs, v')
    ensures forall l, m, f, g | 0 <= l < m < NUM_LEVELS && f in v'[l] && g in v'[m] :: NewerThan(f, g)
  {
    forall l, m, f, g | 0 <= l < m < NUM_LEVELS && f in v'[l] && g in v'[m]
      ensures NewerThan(f, g)
    {
      if l == level + 1 && f in outputs {
        OutputsKeepRecency(v, level, in0, in1, outputs, f, m, g);
      } else if m == level + 1 && g in outputs {
        OutputsKeepRecency(v, level, in0, in1, outputs, g, l, f);
      }
    }
  }

  lemma CompactionKeepsNumbers(v: Levels, level: nat, in0: seq<File>, in1: seq<File>, outputs: seq<File>, v': Levels)
    requires UniqueNumbers(v) && level + 1 < NUM_LEVELS && FreeNumbers(v, level, in0, outputs)
    requires AfterCompaction(v, level, in0, in1, outputs, v')
    ensures UniqueNumbers(v')
  {
    forall l, m, f, g | 0 <= l < NUM_LEVELS && 0 <= m < NUM_LEVELS && f in v'[l] && g in v'[m] && f.number == g.number
      ensures l == m && f == g
    {
      assert f in outputs && g in v[m] ==> m == level && g in in0;
      assert g in outputs && f in v[l] ==> l == level && f in in0;
      assert f in v[l] || (l == level + 1 && f in outputs);
      assert g in v[m] || (m == level + 1 && g in outputs);
    }
  }

  lemma CompactionKeepsLevelInvariant(v: Levels, level: nat, in0: seq<File>, in1: seq<File>, outputs: seq<File>,
                                      v': Levels)
    requires WellFormed(v)
    requires ValidInputs(v, level, in0, in1) && ValidOutputs(in0, in1, outputs) && FreeNumbers(v, level, in0, outputs)
    requires Saves(v, [CompactionEdit(level, in0, in1, outputs)], v')
    ensures WellFormed(v')
  {
    hide ValidInputs, ValidOutputs, FreeNumbers, Saves, NewerThan, Ordered;
    InputsAreInLevels(v, level, in0, in1);
    CompactionMembers(v, level, in0, in1, outputs, v');
    CompactionKeepsNumbers(v, level, in0, in1, outputs, v');
    CompactionKeepsRecency(v, level, in0, in1, outputs, v');
    forall l | 1 <= l < NUM_LEVELS
      ensures Ordered(v'[l])
    {
      CompactionLevelsOrdered(v, level, in0, in1, outputs, v', l);
    }
    assert NewestByNumber(v'[0]);
  }

  /** The contents after a compaction: input entries out, output entries in. */
  lemma CompactionContents(v: Levels, level: nat, in0: seq<File>, in1: seq<File>, outputs: seq<File>, v': Levels)
    requires LevelInvariant(v) && ValidInputs(v, level, in0, in1)
    requires AfterCompaction(v, level, in0, in1, outputs, v')
    ensures forall e :: e in Contents(v') <==> (e in Contents(v) && e !in InputEntries(in0, in1)) || InLevel(outputs, e)
  {
    forall e
      ensures e in Contents(v') <==> (e in Contents(v) && e !in InputEntries(in0, in1)) || InLevel(outputs, e)
    {
      if InLevel(outputs, e) {
        var o :| o in outputs && e in o.entries;
        assert o in v'[level + 1];
        assert InLevel(v'[level + 1], e);
      } else if e in Contents(v) && e !in InputEntries(in0, in1) {
        var l :| 0 <= l < |v| && InLevel(v[l], e);
        var g :| g in v[l] && e in g.entries;
        assert g !in in0 && g !in in1;
        assert g in v'[l];
        assert InLevel(v'[l], e);
      } else if e in Contents(v') {
        var l :| 0 <= l < |v'| && InLevel(v'[l], e);
        var g :| g in v'[l] && e in g.entries;
        RemainingHoldsNoInput(v, level, in0, in1, l, g, e);
      }
    }
  }

  lemma RemainingHoldsNoInput(v: Levels, level: nat, in0: seq<File>, in1: seq<File>, l: nat, g: File, e: Entry)
    requires LevelInvariant(v) && ValidInputs(v, level, in0, in1)
    requires l < NUM_LEVELS && g in v[l] && e in g.entries
    requires (l == level ==> g !in in0) && (l == level + 1 ==> g !in in1)
    ensures e in Contents(v) && e !in InputEntries(in0, in1)
  {
    assert InLevel(v[l], e);
    InputsAreInLevels(v, level, in0, in1);
    hide LevelInvariant, ValidInputs;
    if InLevel(in0, e) {
      var f :| f in in0 && e in f.entries;
      if l <= level { SameEntryFile(v, l, g, e, level, f, e); } else { SameEntryFile(v, level, f, e, l, g, e); }
    }
    if InLevel(in1, e) {
      var f :| f in in1 && e in f.entries;
      if l <= level + 1 { SameEntryFile(v, l, g, e, level + 1, f, e); }
          else { SameEntryFile(v, level + 1, f, e, l, g, e); }
    }
  }
}
