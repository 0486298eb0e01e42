/** A memtable flush in the middle of a compaction (db/db_impl.cc, the loop of DoCompactionWork). The flush chooses its
    level by the current version, which does not yet show the compaction's outputs. */
module NestedFlush {
  import opened InternalKeys
  import opened SnapshotReads
  import opened Versions
  import opened Selection
  import opened Manifest
  import opened LevelChanges

  /** Level l holds g once the flush and then the compaction are installed. */
  ghost predicate Stays(v: Levels, flushLevel: nat, f: File, level: nat, in0: seq<File>, in1: seq<File>,
                        outputs: seq<File>, l: nat, g: File)
    requires l < NUM_LEVELS
  {
    || (g in v[l] && !(l == level && g in in0) && !(l == level + 1 && g in in1))
    || (l == flushLevel && g == f)
    || (l == level + 1 && g in outputs)
  }

  ghost predicate AfterBoth(v: Levels, flushLevel: nat, f: File, level: nat, in0: seq<File>, in1: seq<File>,
                            outputs: seq<File>, v': Levels) {
    forall l: nat, g | l < NUM_LEVELS :: g in v'[l] <==> Stays(v, flushLevel, f, level, in0, in1, outputs, l, g)
  }

  /** Both installations, and the numbers the three kinds of files carry. */
  ghost predicate Installs(v: Levels, flushLevel: nat, f: File, v1: Levels,
                           level: nat, in0: seq<File>, in1: seq<File>, outputs: seq<File>, v': Levels)
  {
    && WellFormed(v) && NewestFile(v, f) && SafeLevel(v, flushLevel, f.Smallest().userKey, f.Largest().userKey)
    && ValidInputs(v, level, in0, in1) && ValidOutputs(in0, in1, outputs) && FreeNumbers(v, level, in0, outputs)
    && (forall o | o in outputs :: o.number != f.number)
    && Saves(v, [FlushEdit(flushLevel, f)], v1) && Saves(v1, [CompactionEdit(level, in0, in1, outputs)], v')
  }

  lemma BothMembers(v: Levels, flushLevel: nat, f: File, v1: Levels,
                    level: nat, in0: seq<File>, in1: seq<File>, outputs: seq<File>, v': Levels)
    requires Installs(v, flushLevel, f, v1, level, in0, in1, outputs, v')
    ensures AfterBoth(v, flushLevel, f, level, in0, in1, outputs, v') && LevelsSorted(v')
  {
    hide ValidInputs, ValidOutputs, SafeLevel, LevelInvariant, Saves, NewerThan, FreeNumbers, AfterCompaction,
         AfterBoth;
    InputsAreInLevels(v, level, in0, in1);
    FlushMembers(v, flushLevel, f, v1);
    FlushKeepsLevelInvariant(v, flushLevel, f, v1);
    NumbersStayFree(v, flushLevel, f, v1, level, in0, outputs);
    CompactionMembers(v1, level, in0, in1, outputs, v');
    FlushedIsNew(v, f);
    MembersCombine(v, flushLevel, f, v1, level, in0, in1, outputs, v');
  }

  lemma FlushedIsNew(v: Levels, f: File)
    requires NewestFile(v, f)
    ensures forall l | 0 <= l < NUM_LEVELS :: f !in v[l]
  {
    hide NewerThan;
  }

  lemma MembersCombine(v: Levels, flushLevel: nat, f: File, v1: Levels,
                       level: nat, in0: seq<File>, in1: seq<File>, outputs: seq<File>, v': Levels)
    requires level + 1 < NUM_LEVELS && f !in in0 && f !in in1
    requires forall l, g | 0 <= l < NUM_LEVELS :: g in v1[l] <==> g in v[l] || (l == flushLevel && g == f)
    requires AfterCompaction(v1, level, in0, in1, outputs, v')
    ensures AfterBoth(v, flushLevel, f, level, in0, in1, outputs, v')
  {
    forall l: nat, g | l < NUM_LEVELS
      ensures g in v'[l] <==> Stays(v, flushLevel, f, level, in0, in1, outputs, l, g)
    {
      assert g in v1[l] <==> g in v[l] || (l == flushLevel && g == f);
    }
  }

  lemma NumbersStayFree(v: Levels, flushLevel: nat, f: File, v1: Levels, level: nat, in0: seq<File>, outputs: seq<File>)
    requires FreeNumbers(v, level, in0, outputs) && forall o | o in outputs :: o.number != f.number
    requires forall l, g | 0 <= l < NUM_LEVELS :: g in v1[l] <==> g in v[l] || (l == flushLevel && g == f)
    ensures FreeNumbers(v1, level, in0, outputs)
  {
  }

  /** The flushed table shares no user key with a file it was placed at or below the level of. */
  lemma FlushedIsApart(v: Levels, flushLevel: nat, f: File, l: nat, g: File)
    requires SafeLevel(v, flushLevel, f.Smallest().userKey, f.Largest().userKey) && 0 < flushLevel
    requires l <= flushLevel && g in v[l]
    ensures Disjoint(f, g) && NewerThan(f, g) && NewerThan(g, f)
  {
    NoOverlapIsDisjoint(f, g);
  }

  /** An output entry against an entry of the flushed table with its user key. */
  lemma FlushedAgainstEntry(v: Levels, flushLevel: nat, f: File, level: nat, in0: seq<File>, in1: seq<File>,
                            outputs: seq<File>,
                            o: File, e: Entry, x: Entry)
    requires NewestFile(v, f) && SafeLevel(v, flushLevel, f.Smallest().userKey, f.Largest().userKey)
    requires ValidInputs(v, level, in0, in1) && ValidOutputs(in0, in1, outputs)
    requires o in outputs && e in o.entries && x in f.entries && e.key.userKey == x.key.userKey
    ensures x.key.sequence > e.key.sequence && flushLevel <= level + 1
  {
    InputsAreInLevels(v, level, in0, in1);
    OutputEntriesInside(v, level, in0, in1, outputs, o, e);
    hide ValidInputs, ValidOutputs, SafeLevel;
    if g :| g in in0 && e in g.entries {
      assert NewerThan(f, g);
      if level + 1 < flushLevel {
        FlushedIsApart(v, flushLevel, f, level, g);
      }
    } else {
      var g :| g in in1 && g in v[level + 1] && e in g.entries;
      assert NewerThan(f, g);
      if level + 1 < flushLevel {
        FlushedIsApart(v, flushLevel, f, level + 1, g);
      }
    }
  }

  /** Its entries are newer than every output's, and where it lies deeper it shares no user key with one. */
  lemma FlushedAgainstOutput(v: Levels, flushLevel: nat, f: File, v1: Levels,
                             level: nat, in0: seq<File>, in1: seq<File>, outputs: seq<File>, v': Levels, o: File)
    requires Installs(v, flushLevel, f, v1, level, in0, in1, outputs, v') && o in outputs
    ensures NewerThan(f, o)
    ensures level + 1 < flushLevel ==> NewerThan(o, f)
  {
    hide ValidInputs, ValidOutputs, SafeLevel, WellFormed, NewestFile, Saves, FreeNumbers;
    forall e, x | e in o.entries && x in f.entries && e.key.userKey == x.key.userKey
      ensures x.key.sequence > e.key.sequence && flushLevel <= level + 1
    {
      FlushedAgainstEntry(v, flushLevel, f, level, in0, in1, outputs, o, e, x);
    }
  }

  ghost predicate Outside(f: File, outputs: seq<File>) {
    forall o | o in outputs :: Disjoint(f, o)
  }

  lemma PairStaysRecent(v: Levels, flushLevel: nat, f: File, v1: Levels, level: nat, in0: seq<File>, in1: seq<File>,
                        outputs: seq<File>,
                        v': Levels, l: nat, m: nat, a: File, b: File)
    requires Installs(v, flushLevel, f, v1, level, in0, in1, outputs, v') && l < m < NUM_LEVELS
    requires Stays(v, flushLevel, f, level, in0, in1, outputs, l, a)
             && Stays(v, flushLevel, f, level, in0, in1, outputs, m, b)
    ensures NewerThan(a, b)
  {
    assert LevelInvariant(v) && NewestFile(v, f);
    if a in v[l] && b in v[m] {
      assert NewerThan(a, b);
      return;
    }
    hide NewerThan, LevelInvariant, SafeLevel, ValidInputs, ValidOutputs, Saves, FreeNumbers;
    if l == level + 1 && a in outputs {
      if b in v[m] {
        OutputsKeepRecency(v, level, in0, in1, outputs, a, m, b);
      } else {
        FlushedAgainstOutput(v, flushLevel, f, v1, level, in0, in1, outputs, v', a);
      }
    } else if m == level + 1 && b in outputs {
      if a in v[l] {
        OutputsKeepRecency(v, level, in0, in1, outputs, b, l, a);
      } else {
        FlushedAgainstOutput(v, flushLevel, f, v1, level, in0, in1, outputs, v', b);
      }
    } else if m == flushLevel && b == f {
      FlushedIsApart(v, flushLevel, f, l, a);
    }
  }

  lemma BothKeepRecency(v: Levels, flushLevel: nat, f: File, v1: Levels,
                        level: nat, in0: seq<File>, in1: seq<File>, outputs: seq<File>, v': Levels)
    requires Installs(v, flushLevel, f, v1, level, in0, in1, outputs, v')
    requires AfterBoth(v, flushLevel, f, level, in0, in1, outputs, v')
    ensures forall l, m, a, b | 0 <= l < m < NUM_LEVELS && a in v'[l] && b in v'[m] :: NewerThan(a, b)
  {
    hide Installs, NewerThan, Stays;
    forall l: nat, m: nat, a, b | l < m < NUM_LEVELS && a in v'[l] && b in v'[m]
      ensures NewerThan(a, b)
    {
      PairStaysRecent(v, flushLevel, f, v1, level, in0, in1, outputs, v', l, m, a, b);
    }
  }

  /** Two files of one level after both installations. */
  lemma PairStaysDisjoint(v: Levels, flushLevel: nat, f: File, level: nat, in0: seq<File>, in1: seq<File>,
                          outputs: seq<File>,
                          l: nat, a: File, b: File)
    requires LevelInvariant(v) && SafeLevel(v, flushLevel, f.Smallest().userKey, f.Largest().userKey)
    requires ValidInputs(v, level, in0, in1) && ValidOutputs(in0, in1, outputs)
    requires 1 <= l < NUM_LEVELS && (flushLevel == level + 1 ==> Outside(f, outputs))
    requires Stays(v, flushLevel, f, level, in0, in1, outputs, l, a)
             && Stays(v, flushLevel, f, level, in0, in1, outputs, l, b)
    ensures Disjoint(a, b)
  {
    DisjointFromOrdered(v[l]);
    DisjointFromOrdered(outputs);
    hide LevelInvariant, SafeLevel, ValidInputs, ValidOutputs, AllBefore;
    if l == level + 1 && a in outputs {
      if b in v[l] && b !in in1 {
        LeftBehindIsDisjoint(v, level, in0, in1, outputs, a, b);
      }
    } else if l == level + 1 && b in outputs {
      if a in v[l] && a !in in1 {
        LeftBehindIsDisjoint(v, level, in0, in1, outputs, b, a);
      }
    } else if a in v[l] && b !in v[l] {
      FlushedIsApart(v, flushLevel, f, l, a);
    } else if a !in v[l] && b in v[l] {
      FlushedIsApart(v, flushLevel, f, l, b);
    }
  }

  lemma BothKeepOrder(v: Levels, flushLevel: nat, f: File, v1: Levels,
                      level: nat, in0: seq<File>, in1: seq<File>, outputs: seq<File>, v': Levels, l: nat)
    requires Installs(v, flushLevel, f, v1, level, in0, in1, outputs, v')
    requires AfterBoth(v, flushLevel, f, level, in0, in1, outputs, v') && LevelsSorted(v')
    requires 1 <= l < NUM_LEVELS && (flushLevel == level + 1 ==> Outside(f, outputs))
    ensures Ordered(v'[l])
  {
    hide LevelInvariant, SafeLevel, ValidInputs, ValidOutputs, Disjoint, Saves, NewestFile, FreeNumbers, Outside;
    forall a, b | a in v'[l] && b in v'[l]
      ensures Disjoint(a, b)
    {
      PairStaysDisjoint(v, flushLevel, f, level, in0, in1, outputs, l, a, b);
    }
    OrderedFromDisjoint(v'[l]);
  }

  lemma TopLevel(v: Levels, flushLevel: nat, f: File, level: nat, in0: seq<File>, in1: seq<File>, outputs: seq<File>,
                 v': Levels)
    requires NewestByNumber(v[0]) && NewestFile(v, f)
    requires AfterBoth(v, flushLevel, f, level, in0, in1, outputs, v')
    ensures NewestByNumber(v'[0])
  {
    hide NewerThan;
    forall a | a in v'[0]
      ensures a in v[0] || a == f
    {
      assert Stays(v, flushLevel, f, level, in0, in1, outputs, 0, a);
    }
  }

  /** With given outputs the level invariant survives exactly when a table flushed to their level is clear of them. */
  lemma InstalledSoundIff(v: Levels, flushLevel: nat, f: File, v1: Levels,
                          level: nat, in0: seq<File>, in1: seq<File>, outputs: seq<File>, v': Levels)
    requires Installs(v, flushLevel, f, v1, level, in0, in1, outputs, v')
    ensures LevelInvariant(v') <==> (flushLevel == level + 1 ==> Outside(f, outputs))
  {
    assert NewestByNumber(v[0]) && NewestFile(v, f) && flushLevel < NUM_LEVELS;
    hide Installs, NewerThan, Ordered, NewestByNumber, NewestFile, AfterBoth, Disjoint;
    BothMembers(v, flushLevel, f, v1, level, in0, in1, outputs, v');
    if flushLevel == level + 1 ==> Outside(f, outputs) {
      BothKeepRecency(v, flushLevel, f, v1, level, in0, in1, outputs, v');
      forall l | 1 <= l < NUM_LEVELS
        ensures Ordered(v'[l])
      {
        BothKeepOrder(v, flushLevel, f, v1, level, in0, in1, outputs, v', l);
      }
      TopLevel(v, flushLevel, f, level, in0, in1, outputs, v');
    }
    if LevelInvariant(v') && flushLevel == level + 1 {
      DisjointFromOrdered(v'[flushLevel]);
      TogetherAtOutput(v, flushLevel, f, level, in0, in1, outputs, v');
    }
  }

  lemma TogetherAtOutput(v: Levels, flushLevel: nat, f: File, level: nat, in0: seq<File>, in1: seq<File>,
                         outputs: seq<File>, v': Levels)
    requires AfterBoth(v, flushLevel, f, level, in0, in1, outputs, v') && flushLevel == level + 1 < NUM_LEVELS
    ensures f in v'[flushLevel] && forall o | o in outputs :: o in v'[flushLevel]
  {
    assert Stays(v, flushLevel, f, level, in0, in1, outputs, flushLevel, f);
    forall o | o in outputs
      ensures o in v'[flushLevel]
    {
      assert Stays(v, flushLevel, f, level, in0, in1, outputs, flushLevel, o);
    }
  }

  // ----- when the flushed table stays clear -----

  /** An input keeps to one side of a table that meets neither it nor the range of the level-L inputs. */
  lemma InputKeepsAside(f: File, g: File, lo: UserKey, hi: UserKey, e: Entry)
    requires !Overlaps(f, Some(lo), Some(hi)) && lo <= hi && e in g.entries
    requires
      || (lo <= g.Smallest().userKey && g.Largest().userKey <= hi)
      || (Overlaps(g, Some(lo), Some(hi)) && !Overlaps(g, Some(f.Smallest().userKey), Some(f.Largest().userKey)))
    ensures if f.Largest().userKey < lo then f.Largest().userKey < e.key.userKey
            else e.key.userKey < f.Smallest().userKey
  {
    UserKeysAscend(f);
    UserKeysAscend(g);
    assert f.entries[0] in f.entries && g.entries[0] in g.entries;
  }

  lemma OutputEntryKeepsAside(v: Levels, f: File, level: nat, in0: seq<File>, in1: seq<File>, outputs: seq<File>,
                              lo: UserKey, hi: UserKey, o: File, e: Entry)
    requires ValidInputs(v, level, in0, in1) && ValidOutputs(in0, in1, outputs) && o in outputs && e in o.entries
    requires SafeLevel(v, level + 1, f.Smallest().userKey, f.Largest().userKey)
    requires IsRange(in0, lo, hi) && in1 == Overlapping(v[level + 1], Some(lo), Some(hi))
             && !Overlaps(f, Some(lo), Some(hi))
    ensures if f.Largest().userKey < lo then f.Largest().userKey < e.key.userKey
            else e.key.userKey < f.Smallest().userKey
  {
    OutputEntriesInside(v, level, in0, in1, outputs, o, e);
    RangeIsNonempty(in0, lo, hi);
    hide ValidInputs, ValidOutputs, Overlaps;
    if g :| g in in0 && e in g.entries {
      InputKeepsAside(f, g, lo, hi, e);
    } else {
      var g :| g in in1 && g in v[level + 1] && e in g.entries;
      InputKeepsAside(f, g, lo, hi, e);
    }
  }

  /** Outside the user keys of the level-L inputs the flushed table is clear of the outputs. */
  lemma OnlyGapsHarm(v: Levels, f: File, level: nat, in0: seq<File>, in1: seq<File>, outputs: seq<File>, lo: UserKey,
                     hi: UserKey)
    requires ValidInputs(v, level, in0, in1) && ValidOutputs(in0, in1, outputs)
    requires SafeLevel(v, level + 1, f.Smallest().userKey, f.Largest().userKey)
    requires IsRange(in0, lo, hi) && in1 == Overlapping(v[level + 1], Some(lo), Some(hi))
             && !Overlaps(f, Some(lo), Some(hi))
    ensures Outside(f, outputs)
  {
    UserKeysAscend(f);
    hide ValidInputs, ValidOutputs, SafeLevel, IsRange, Overlaps;
    forall o | o in outputs
      ensures Disjoint(f, o)
    {
      forall e, x | e in o.entries && x in f.entries
        ensures if f.Largest().userKey < lo then Precedes(x, e) else Precedes(e, x)
      {
        OutputEntryKeepsAside(v, f, level, in0, in1, outputs, lo, hi, o, e);
      }
    }
  }

  /** The table lies below all of the files or above all of them. */
  ghost predicate OneSide(f: File, files: seq<File>) {
    || (forall g | g in files :: f.Largest().userKey < g.Smallest().userKey)
    || (forall g | g in files :: g.Largest().userKey < f.Smallest().userKey)
  }

  /** In the code's terms: it does not overlap the range that GetRange gives. */
  lemma OneSideIsOutsideRange(f: File, files: seq<File>, lo: UserKey, hi: UserKey)
    requires IsRange(files, lo, hi)
    ensures OneSide(f, files) <==> !Overlaps(f, Some(lo), Some(hi))
  {
  }

  /** A file of a level searched for the flush lies on one side of the flushed table. */
  lemma SafeFileSide(v: Levels, level: nat, f: File, g: File)
    requires SafeLevel(v, level + 1, f.Smallest().userKey, f.Largest().userKey) && g in v[level]
    ensures f.Largest().userKey < g.Smallest().userKey || g.Largest().userKey < f.Smallest().userKey
  {
    assert !Overlaps(g, Some(f.Smallest().userKey), Some(f.Largest().userKey));
  }

  /** Between two level-L inputs the flushed table meets the output that carries an entry of each. */
  lemma StraddledIsHit(v: Levels, f: File, level: nat, in0: seq<File>, in1: seq<File>, number: nat)
    returns (outputs: seq<File>)
    requires ValidInputs(v, level, in0, in1) && SafeLevel(v, level + 1, f.Smallest().userKey, f.Largest().userKey)
    requires !OneSide(f, in0)
    ensures ValidOutputs(in0, in1, outputs) && !Outside(f, outputs) && |outputs| == 1 && outputs[0].number == number
  {
    InputsAreInLevels(v, level, in0, in1);
    var g :| g in in0 && !(f.Largest().userKey < g.Smallest().userKey);
    var h :| h in in0 && !(h.Largest().userKey < f.Smallest().userKey);
    SafeFileSide(v, level, f, g);
    SafeFileSide(v, level, f, h);
    hide ValidInputs, SafeLevel, OneSide;
    outputs := Straddling(f, g, h, number);
    forall e | InLevel(outputs, e)
      ensures InLevel(in0, e)
    {
      assert e in g.entries || e in h.entries;
    }
  }

  /** The file with the first entries of g and h, below and above f. */
  lemma Straddling(f: File, g: File, h: File, number: nat) returns (outputs: seq<File>)
    requires g.Largest().userKey < f.Smallest().userKey && f.Largest().userKey < h.Smallest().userKey
    ensures Ordered(outputs) && !Outside(f, outputs) && |outputs| == 1 && outputs[0].number == number
    ensures forall e | InLevel(outputs, e) :: e in g.entries || e in h.entries
  {
    UserKeysAscend(f);
    UserKeysAscend(g);
    UserKeysAscend(h);
    var a, b, x := g.entries[0], h.entries[0], f.entries[0];
    assert a in g.entries && b in h.entries && x in f.entries;
    assert Precedes(a, x) && Precedes(x, b) && Precedes(a, b);
    assert !Precedes(x, a) && !Precedes(b, x);
    var o: File := Table(number, 0, [a, b]);
    outputs := [o];
    assert o.entries[0] == a && o.entries[1] == b;
    assert a in o.entries && b in o.entries && o in outputs;
    assert x !in o.entries;
    assert !Disjoint(f, o);
  }

  /** Whatever a compaction writes of its inputs, the flushed table is clear of it if and only if it does not lie
      between level-L inputs. */
  lemma OutsideIff(v: Levels, f: File, level: nat, in0: seq<File>, in1: seq<File>)
    requires ValidInputs(v, level, in0, in1) && SafeLevel(v, level + 1, f.Smallest().userKey, f.Largest().userKey)
    ensures (forall outputs | ValidOutputs(in0, in1, outputs) :: Outside(f, outputs)) <==> OneSide(f, in0)
  {
    if OneSide(f, in0) {
      var lo, hi :| IsRange(in0, lo, hi) && in1 == Overlapping(v[level + 1], Some(lo), Some(hi));
      OneSideIsOutsideRange(f, in0, lo, hi);
      hide ValidInputs, ValidOutputs, SafeLevel, IsRange, OneSide, Outside;
      forall outputs | ValidOutputs(in0, in1, outputs)
        ensures Outside(f, outputs)
      {
        OnlyGapsHarm(v, f, level, in0, in1, outputs, lo, hi);
      }
    } else {
      var outputs := StraddledIsHit(v, f, level, in0, in1, 0);
    }
  }

  // ----- whatever the compaction writes -----

  lemma FlushCanBeSaved(v: Levels, level: nat, f: File) returns (v1: Levels)
    requires WellFormed(v) && NewestFile(v, f)
    ensures Saves(v, [FlushEdit(level, f)], v1)
  {
    var e := FlushEdit(level, f);
    assert UniqueNumbers(v);
    hide WellFormed, NewerThan;
    forall l: nat, g, h | l < NUM_LEVELS && g in Kept(v, [e], l) && h in Kept(v, [e], l) && g.number == h.number
      ensures g == h
    {
      OneEdit(e, l);
      assert g in v[l] || g == f;
      assert h in v[l] || h == f;
    }
    v1 := SavesExists(v, [e]);
  }

  lemma CompactionCanBeSaved(v: Levels, level: nat, in0: seq<File>, in1: seq<File>, outputs: seq<File>)
    returns (v': Levels)
    requires UniqueNumbers(v) && FreeNumbers(v, level, in0, outputs)
    ensures Saves(v, [CompactionEdit(level, in0, in1, outputs)], v')
  {
    var e := CompactionEdit(level, in0, in1, outputs);
    forall l: nat, g, h | l < NUM_LEVELS && g in Kept(v, [e], l) && h in Kept(v, [e], l) && g.number == h.number
      ensures g == h
    {
      OneEdit(e, l);
      CompactionAdditions(level, in0, in1, outputs, l);
      assert g in v[l] || (l == level + 1 && g in outputs);
      assert h in v[l] || (l == level + 1 && h in outputs);
    }
    v' := SavesExists(v, [e]);
  }

  /** A compaction around the flushed table that ends in overlapping files. */
  lemma GapBreaksLevels(v: Levels, f: File, level: nat, in0: seq<File>, in1: seq<File>)
    returns (v1: Levels, outputs: seq<File>, v': Levels)
    requires WellFormed(v) && NewestFile(v, f) && ValidInputs(v, level, in0, in1)
    requires SafeLevel(v, level + 1, f.Smallest().userKey, f.Largest().userKey) && !OneSide(f, in0)
    ensures Installs(v, level + 1, f, v1, level, in0, in1, outputs, v') && !LevelInvariant(v')
  {
    hide LevelInvariant, ValidInputs, ValidOutputs, SafeLevel, OneSide, Outside, Saves, NewerThan, InputNumbers;
    outputs := StraddledIsHit(v, f, level, in0, in1, f.number + 1);
    v1 := FlushCanBeSaved(v, level + 1, f);
    FlushMembers(v, level + 1, f, v1);
    FlushKeepsLevelInvariant(v, level + 1, f, v1);
    assert forall o | o in outputs :: o == outputs[0];
    assert FreeNumbers(v, level, in0, outputs);
    NumbersStayFree(v, level + 1, f, v1, level, in0, outputs);
    v' := CompactionCanBeSaved(v1, level, in0, in1, outputs);
    assert Installs(v, level + 1, f, v1, level, in0, in1, outputs, v');
    InstalledSoundIff(v, level + 1, f, v1, level, in0, in1, outputs, v');
  }

  /** However the compaction cuts its outputs, the level invariant survives a flush inside it if and only if a table
      flushed to the output level does not lie between level-L inputs. */
  lemma NestedFlushIff(v: Levels, flushLevel: nat, f: File, level: nat, in0: seq<File>, in1: seq<File>)
    requires WellFormed(v) && NewestFile(v, f) && ValidInputs(v, level, in0, in1)
    requires SafeLevel(v, flushLevel, f.Smallest().userKey, f.Largest().userKey)
    ensures (forall v1, outputs, v' | Installs(v, flushLevel, f, v1, level, in0, in1, outputs, v') ::
            LevelInvariant(v')) <==>
            (flushLevel == level + 1 ==> OneSide(f, in0))
  {
    hide WellFormed, NewestFile, ValidInputs, SafeLevel, LevelInvariant, OneSide, Outside;
    if flushLevel == level + 1 && !OneSide(f, in0) {
      var v1, outputs, v' := GapBreaksLevels(v, f, level, in0, in1);
    } else {
      forall v1, outputs, v' | Installs(v, flushLevel, f, v1, level, in0, in1, outputs, v')
        ensures LevelInvariant(v')
      {
        if flushLevel == level + 1 {
          OutsideIff(v, f, level, in0, in1);
        }
        InstalledSoundIff(v, flushLevel, f, v1, level, in0, in1, outputs, v');
      }
    }
  }

  /** A compaction with one level-L input has no gap for the flushed table to fall into. */
  lemma OneInputIsSafe(v: Levels, flushLevel: nat, f: File, v1: Levels,
                       level: nat, g: File, in1: seq<File>, outputs: seq<File>, v': Levels)
    requires Installs(v, flushLevel, f, v1, level, [g], in1, outputs, v')
    ensures LevelInvariant(v')
  {
    hide WellFormed, NewestFile, ValidInputs, ValidOutputs, FreeNumbers, Saves, SafeLevel, LevelInvariant;
    if flushLevel == level + 1 {
      InputsAreInLevels(v, level, [g], in1);
      assert g in [g];
      SafeFileSide(v, level, f, g);
    }
    NestedFlushIff(v, flushLevel, f, level, [g], in1);
  }

  // ----- a table flushed into the gap between two inputs -----

  const FIRST := Entry(InternalKey(1.0, 2, Value), [])
  const MIDDLE := Entry(InternalKey(3.0, 9, Value), [])
  const LAST := Entry(InternalKey(5.0, 4, Value), [])

  const LEFT: File := Table(3, 1, [FIRST])
  const RIGHT: File := Table(4, 1, [LAST])
  const FLUSHED: File := Table(6, 1, [MIDDLE])
  const MERGED: File := Table(5, 2, [FIRST, LAST])
  const GAP: Levels := [[], [LEFT, RIGHT], [], [], [], [], []]

  lemma GapMembers(l: nat, g: File)
    requires l < NUM_LEVELS && g in GAP[l]
    ensures l == 1 && (g == LEFT || g == RIGHT)
  {
    assert forall m | 0 <= m < NUM_LEVELS && m != 1 :: GAP[m] == [];
  }

  lemma GapFiles()
    ensures AllBefore(LEFT, RIGHT) && BySmallestKey(LEFT, RIGHT) && NewerThan(FLUSHED, LEFT)
            && NewerThan(FLUSHED, RIGHT)
    ensures !Disjoint(FLUSHED, MERGED)
    ensures LEFT.Smallest().userKey == LEFT.Largest().userKey == 1.0
            && RIGHT.Smallest().userKey == RIGHT.Largest().userKey == 5.0
    ensures FLUSHED.Smallest().userKey == FLUSHED.Largest().userKey == 3.0
  {
    assert forall x :: x in LEFT.entries <==> x == FIRST;
    assert forall x :: x in RIGHT.entries <==> x == LAST;
    assert FLUSHED.entries[0] == MIDDLE && MERGED.entries[0] == FIRST && MERGED.entries[1] == LAST;
    assert forall x :: x in FLUSHED.entries <==> x == MIDDLE;
    assert !Precedes(MIDDLE, FIRST) && !Precedes(LAST, MIDDLE);
    assert MIDDLE in FLUSHED.entries && FIRST in MERGED.entries && LAST in MERGED.entries;
  }

  lemma GapIsWellFormed()
    ensures WellFormed(GAP) && NewestFile(GAP, FLUSHED)
  {
    hide AllBefore, NewerThan, BySmallestKey;
    GapFiles();
    forall l: nat, g | l < NUM_LEVELS && g in GAP[l]
      ensures l == 1 && (g == LEFT || g == RIGHT)
    {
      GapMembers(l, g);
    }
    forall l: nat | l < NUM_LEVELS
      ensures Ordered(GAP[l]) && SortedFiles(GAP[l])
    {
      assert l != 1 ==> GAP[l] == [];
    }
    assert NewestByNumber(GAP[0]) by { assert GAP[0] == []; }
  }

  lemma GapIsSafe()
    ensures SafeLevel(GAP, 2, FLUSHED.Smallest().userKey, FLUSHED.Largest().userKey)
  {
    hide AllBefore, NewerThan, BySmallestKey;
    GapFiles();
    forall l, g | 0 <= l <= 2 && g in GAP[l]
      ensures !Overlaps(g, Some(3.0), Some(3.0))
    {
      GapMembers(l, g);
    }
  }

  lemma GapInputs()
    ensures ValidInputs(GAP, 1, [LEFT, RIGHT], [])
    ensures ValidOutputs([LEFT, RIGHT], [], [MERGED]) && FreeNumbers(GAP, 1, [LEFT, RIGHT], [MERGED])
  {
    hide AllBefore, NewerThan, BySmallestKey;
    GapFiles();
    var in0 := [LEFT, RIGHT];
    assert LEFT in in0 && RIGHT in in0;
    assert GAP[1] == in0 && GAP[2] == [];
    assert IsRange(in0, 1.0, 5.0);
    assert Overlapping(GAP[2], Some(1.0), Some(5.0)) == [];
    assert OlderThanTheRest(GAP[1], in0);
    forall e | InLevel([MERGED], e)
      ensures InLevel(in0, e)
    {
      assert e in MERGED.entries;
      assert e == FIRST || e == LAST;
      assert FIRST in LEFT.entries && LAST in RIGHT.entries;
    }
    forall o, l: nat, g | o in [MERGED] && l < NUM_LEVELS && g in GAP[l] && g.number == o.number
      ensures false
    {
      GapMembers(l, g);
    }
  }

  const GAP_FLUSHED: Levels := [[], [LEFT, RIGHT], [FLUSHED], [], [], [], []]
  const GAP_MERGED: Levels := [[], [], [MERGED, FLUSHED], [], [], [], []]

  /** Membership in the levels of GAP, GAP_FLUSHED and GAP_MERGED. */
  lemma GapLevels(l: nat, g: File)
    requires l < NUM_LEVELS
    ensures g in GAP[l] <==> l == 1 && (g == LEFT || g == RIGHT)
    ensures g in GAP_FLUSHED[l] <==> (l == 1 && (g == LEFT || g == RIGHT)) || (l == 2 && g == FLUSHED)
    ensures g in GAP_MERGED[l] <==> l == 2 && (g == MERGED || g == FLUSHED)
  {
    assert forall m | 0 <= m < NUM_LEVELS && m != 1 :: GAP[m] == [];
    assert forall m | 0 <= m < NUM_LEVELS && m != 1 && m != 2 :: GAP_FLUSHED[m] == [];
    assert forall m | 0 <= m < NUM_LEVELS && m != 2 :: GAP_MERGED[m] == [];
    assert LEFT in [LEFT, RIGHT] && RIGHT in [LEFT, RIGHT] && FLUSHED in [FLUSHED];
    assert MERGED in [MERGED, FLUSHED] && FLUSHED in [MERGED, FLUSHED];
  }

  lemma GapFlushIsSaved()
    ensures Saves(GAP, [FlushEdit(2, FLUSHED)], GAP_FLUSHED)
  {
    hide AllBefore, NewerThan, BySmallestKey;
    GapFiles();
    var e := FlushEdit(2, FLUSHED);
    forall l: nat | l < NUM_LEVELS
      ensures SortedFiles(GAP_FLUSHED[l])
      ensures forall g :: g in GAP_FLUSHED[l] <==>
                (g in GAP[l] || g in AllAdded([e], l)) && g.number !in AllDeleted([e], l)
    {
      OneEdit(e, l);
      assert e.added[0] == (2, FLUSHED) && DeletedNumbers(e, l) == {};
      forall g
        ensures g in GAP_FLUSHED[l] <==> (g in GAP[l] || g in AllAdded([e], l)) && g.number !in AllDeleted([e], l)
      {
        GapLevels(l, g);
      }
      assert l != 1 && l != 2 ==> GAP_FLUSHED[l] == [];
    }
  }

  lemma GapMergeIsSaved()
    ensures Saves(GAP_FLUSHED, [CompactionEdit(1, [LEFT, RIGHT], [], [MERGED])], GAP_MERGED)
  {
    hide AllBefore, NewerThan;
    var e := CompactionEdit(1, [LEFT, RIGHT], [], [MERGED]);
    assert BySmallestKey(MERGED, FLUSHED);
    hide BySmallestKey;
    forall l: nat | l < NUM_LEVELS
      ensures SortedFiles(GAP_MERGED[l])
      ensures forall g :: g in GAP_MERGED[l] <==>
                (g in GAP_FLUSHED[l] || g in AllAdded([e], l)) && g.number !in AllDeleted([e], l)
    {
      OneEdit(e, l);
      CompactionAdditions(1, [LEFT, RIGHT], [], [MERGED], l);
      assert LEFT in [LEFT, RIGHT] && RIGHT in [LEFT, RIGHT] && MERGED in [MERGED];
      forall g
        ensures g in GAP_MERGED[l] <==>
                  (g in GAP_FLUSHED[l] || g in AllAdded([e], l)) && g.number !in AllDeleted([e], l)
      {
        GapLevels(l, g);
      }
      assert l != 2 ==> GAP_MERGED[l] == [];
    }
  }

  /** The memtable is flushed between the two inputs, to the level the merged output goes to: the levels end up
      overlapping. */
  lemma FlushIntoGap()
    ensures Installs(GAP, 2, FLUSHED, GAP_FLUSHED, 1, [LEFT, RIGHT], [], [MERGED], GAP_MERGED)
    ensures !LevelInvariant(GAP_MERGED)
  {
    GapIsWellFormed();
    GapIsSafe();
    GapInputs();
    GapFiles();
    GapFlushIsSaved();
    GapMergeIsSaved();
    hide WellFormed, NewestFile, SafeLevel, ValidInputs, ValidOutputs, FreeNumbers, Saves, LevelInvariant, Disjoint,
         AllBefore;
    hide NewerThan;
    assert forall o | o in [MERGED] :: o == MERGED;
    assert Installs(GAP, 2, FLUSHED, GAP_FLUSHED, 1, [LEFT, RIGHT], [], [MERGED], GAP_MERGED);
    InstalledSoundIff(GAP, 2, FLUSHED, GAP_FLUSHED, 1, [LEFT, RIGHT], [], [MERGED], GAP_MERGED);
    assert MERGED in [MERGED];
  }

  lemma GapCanPush(level: nat, maxGrandParentOverlap: nat)
    requires level < 2
    ensures CanPush(GAP, level, 3.0, 3.0, maxGrandParentOverlap)
    ensures forall g | g in GAP[0] :: !Overlaps(g, Some(3.0), Some(3.0))
  {
    hide AllBefore, NewerThan, BySmallestKey;
    GapFiles();
    assert GAP[0] == GAP[2] == GAP[3] == [];
    forall g | g in GAP[level + 1]
      ensures !Overlaps(g, Some(3.0), Some(3.0))
    {
      GapMembers(level + 1, g);
    }
  }

  lemma GapIsNotCut(limit: nat, cut: seq<File>)
    requires 2 < limit && IsCut([LEFT, RIGHT], limit, cut)
    ensures cut == [LEFT, RIGHT]
  {
    var files := [LEFT, RIGHT];
    assert files[1..] == [RIGHT] && files[1..][1..] == [] && [LEFT][1..] == [];
    assert TotalFileSize([RIGHT]) == 1 && TotalFileSize([LEFT]) == 1 && TotalFileSize(files) == 2;
    assert |cut| == 1 ==> cut == [LEFT];
  }

  lemma GapIsOverlapping()
    ensures Overlapping(GAP[1], None, None) == [LEFT, RIGHT]
  {
    var files := [LEFT, RIGHT];
    assert files[..1] == [LEFT] && [LEFT][..0] == [];
    assert Overlapping([LEFT], None, None) == [LEFT];
  }

  lemma SliceOfTwo(in0: seq<File>)
    requires IsSlice([LEFT, RIGHT], in0) && LEFT in in0 && RIGHT in in0
    ensures in0 == [LEFT, RIGHT]
  {
    assert LEFT != RIGHT;
    var i, j :| SliceAt([LEFT, RIGHT], in0, i, j);
    assert |in0| == 2;
  }

  lemma BothInGap(limit: nat, in0: seq<File>, cut: seq<File>)
    requires 2 < limit && IsSlice(GAP[1], in0) && IsCut(Overlapping(GAP[1], None, None), limit, cut)
    requires forall f | f in cut :: f in in0
    ensures in0 == [LEFT, RIGHT]
  {
    hide IsSlice, IsCut, Overlapping;
    GapIsOverlapping();
    GapIsNotCut(limit, cut);
    assert LEFT in cut && RIGHT in cut;
    SliceOfTwo(in0);
  }

  /** The code itself flushes to level 2, whatever the limit on the grandparents. */
  method GapLevelIsChosen(maxGrandParentOverlap: nat) returns (flushLevel: nat)
    ensures flushLevel == 2
  {
    GapIsWellFormed();
    GapCanPush(0, maxGrandParentOverlap);
    GapCanPush(1, maxGrandParentOverlap);
    hide LevelInvariant, CanPush, SafeLevel, Overlaps;
    flushLevel := PickLevelForMemTableOutput(GAP, 3.0, 3.0, maxGrandParentOverlap);
  }

  lemma FirstIsIn(files: seq<File>)
    ensures files == [] || files[0] in files
  {
  }

  lemma GapIsMet()
    ensures LEFT in GAP[1] && Overlaps(LEFT, None, None)
    ensures forall in0, in1 | ValidInputs(GAP, 1, in0, in1) :: in1 == []
  {
    forall in0, in1 | ValidInputs(GAP, 1, in0, in1)
      ensures in1 == []
    {
      InputsAreInLevels(GAP, 1, in0, in1);
      FirstIsIn(in1);
      assert GAP[2] == [];
    }
  }

  /** The code itself picks both files for a manual compaction of the whole level. */
  method GapInputsAreChosen(limit: nat, expandedLimit: nat) returns (in0: seq<File>, in1: seq<File>)
    requires 2 < limit
    ensures in0 == [LEFT, RIGHT] && in1 == []
  {
    GapIsWellFormed();
    GapIsMet();
    hide LevelInvariant, ValidInputs, IsCut, IsSlice, Overlaps;
    var r := CompactRange(GAP, 1, None, None, limit, expandedLimit);
    in0, in1 := r.value.0, r.value.1;
    ghost var cut :| IsCut(Overlapping(GAP[1], None, None), limit, cut) && forall f | f in cut :: f in in0;
    BothInGap(limit, in0, cut);
  }
}
