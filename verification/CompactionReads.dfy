/** A whole compaction, from its merged input to the installed version: the level invariant holds again, and
    reads are unchanged exactly when no dropped deletion marker was hiding a value left in level L+1. */
module CompactionReads {
  import opened InternalKeys
  import opened SnapshotReads
  import opened Versions
  import opened Selection
  import opened DropRules
  import opened Compaction
  import opened Manifest
  import opened LevelChanges

  lemma {:induction false} SurvivorsAre(input: seq<Entry>, n: nat, smallest: SequenceNumber, base: iset<UserKey>)
    requires n <= |input| && Sorted(input)
    ensures Sorted(Survivors(input, n, smallest, base))
    ensures forall e :: e in Survivors(input, n, smallest, base) <==>
              e in input[..n] && Survives(EntriesOf(input), e, smallest, base)
  {
    if n > 0 {
      SurvivorsAre(input, n - 1, smallest, base);
      assert input[..n] == input[..n - 1] + [input[n - 1]];
      var front := Survivors(input, n - 1, smallest, base);
      forall i | 0 <= i < |front|
        ensures Precedes(front[i], input[n - 1])
      {
        assert front[i] in front;
        var j :| 0 <= j < n - 1 && input[j] == front[i];
      }
    }
  }

  lemma {:induction false} FlattenMembers(outs: seq<seq<Entry>>)
    ensures forall e :: e in Flatten(outs) <==> exists i :: 0 <= i < |outs| && e in outs[i]
  {
    if outs != [] {
      FlattenMembers(outs[..|outs| - 1]);
    }
  }

  /** Cutting a sorted run into pieces gives sorted pieces that follow one another. */
  lemma {:induction false} FlattenSorted(outs: seq<seq<Entry>>)
    requires Sorted(Flatten(outs))
    ensures forall i | 0 <= i < |outs| :: Sorted(outs[i])
    ensures forall i, j, a, b | 0 <= i < j < |outs| && a in outs[i] && b in outs[j] :: Precedes(a, b)
  {
    if outs != [] {
      var front, last := outs[..|outs| - 1], outs[|outs| - 1];
      var flat := Flatten(front);
      assert Sorted(flat) by {
        assert forall i | 0 <= i < |flat| :: Flatten(outs)[i] == flat[i];
      }
      assert Sorted(last) by {
        assert forall i | 0 <= i < |last| :: Flatten(outs)[|flat| + i] == last[i];
      }
      FlattenSorted(front);
      FlattenMembers(front);
      forall i, a, b | 0 <= i < |front| && a in front[i] && b in last
        ensures Precedes(a, b)
      {
        assert a in flat;
        var p :| 0 <= p < |flat| && flat[p] == a;
        var q :| 0 <= q < |last| && last[q] == b;
        assert Flatten(outs)[p] == a && Flatten(outs)[|flat| + q] == b;
      }
    }
  }

  /** The output files carry the loop's outputs. */
  ghost predicate Carry(outputs: seq<File>, outs: seq<seq<Entry>>) {
    |outputs| == |outs| && forall i | 0 <= i < |outs| :: outputs[i].entries == outs[i]
  }

  lemma CarriedEntries(outputs: seq<File>, outs: seq<seq<Entry>>)
    requires Carry(outputs, outs)
    ensures forall e :: InLevel(outputs, e) <==> e in Flatten(outs)
  {
    FlattenMembers(outs);
    forall e | e in Flatten(outs)
      ensures InLevel(outputs, e)
    {
      var i :| 0 <= i < |outs| && e in outs[i];
      assert outputs[i] in outputs;
    }
  }

  /** The merged input of a compaction, and what its loop wrote. */
  ghost predicate Merges(input: seq<Entry>, in0: seq<File>, in1: seq<File>) {
    Sorted(input) && EntriesOf(input) == InputEntries(in0, in1)
  }

  lemma OutputsAreValid(in0: seq<File>, in1: seq<File>, input: seq<Entry>, outs: seq<seq<Entry>>, outputs: seq<File>,
                        smallest: SequenceNumber, base: iset<UserKey>)
    requires Merges(input, in0, in1) && Carry(outputs, outs)
    requires Flatten(outs) == Survivors(input, |input|, smallest, base)
    ensures ValidOutputs(in0, in1, outputs)
    ensures forall e :: InLevel(outputs, e) <==> Survives(InputEntries(in0, in1), e, smallest, base)
  {
    SurvivorsAre(input, |input|, smallest, base);
    assert input[..|input|] == input;
    FlattenSorted(outs);
    CarriedEntries(outputs, outs);
    forall e
      ensures InLevel(outputs, e) <==> Survives(InputEntries(in0, in1), e, smallest, base)
    {
      assert e in EntriesOf(input) <==> e in input;
    }
    assert forall e | InLevel(outputs, e) :: e in InputEntries(in0, in1);
  }

  lemma CompactedContents(v: Levels, level: nat, in0: seq<File>, in1: seq<File>, outputs: seq<File>, v': Levels,
                          smallest: SequenceNumber, base: iset<UserKey>)
    requires LevelInvariant(v) && ValidInputs(v, level, in0, in1)
    requires AfterCompaction(v, level, in0, in1, outputs, v')
    requires forall e :: InLevel(outputs, e) <==> Survives(InputEntries(in0, in1), e, smallest, base)
    ensures InputEntries(in0, in1) <= Contents(v)
    ensures Contents(v') == Compacted(Contents(v), InputEntries(in0, in1), smallest, base)
  {
    forall e | e in InputEntries(in0, in1)
      ensures e in Contents(v)
    {
      if InLevel(in0, e) {
        var f :| f in in0 && e in f.entries;
        assert InLevel(v[level], e);
      } else {
        var f :| f in in1 && e in f.entries;
        assert InLevel(v[level + 1], e);
      }
    }
    CompactionContents(v, level, in0, in1, outputs, v');
  }

  ghost predicate NoExposedMarker(v: Levels, level: nat, in0: seq<File>, in1: seq<File>, smallest: SequenceNumber) {
    forall t :: !Exposes(Contents(v), InputEntries(in0, in1), smallest, BaseKeys(v, level), t)
  }

  /** Installing the results of DoCompactionWork: the invariant is kept, the contents are the survivors, and
      every read from the oldest snapshot on is unchanged if and only if no dropped marker is exposed. */
  lemma CompactionIsCorrect(v: Levels, level: nat, in0: seq<File>, in1: seq<File>, input: seq<Entry>,
                            outs: seq<seq<Entry>>, outputs: seq<File>, smallest: SequenceNumber, v': Levels)
    requires WellFormed(v) && ValidInputs(v, level, in0, in1) && Merges(input, in0, in1)
    requires Flatten(outs) == Survivors(input, |input|, smallest, BaseKeys(v, level))
    requires Carry(outputs, outs) && FreeNumbers(v, level, in0, outputs)
    requires Saves(v, [CompactionEdit(level, in0, in1, outputs)], v')
    ensures WellFormed(v')
    ensures Contents(v') == Compacted(Contents(v), InputEntries(in0, in1), smallest, BaseKeys(v, level))
    ensures SameReadsFrom(Contents(v), Contents(v'), smallest) <==> NoExposedMarker(v, level, in0, in1, smallest)
  {
    OutputsAreValid(in0, in1, input, outs, outputs, smallest, BaseKeys(v, level));
    CompactionKeepsLevelInvariant(v, level, in0, in1, outputs, v');
    InputsAreInLevels(v, level, in0, in1);
    CompactionMembers(v, level, in0, in1, outputs, v');
    CompactedContents(v, level, in0, in1, outputs, v', smallest, BaseKeys(v, level));
    ContentsDistinct(v);
    CompactionPreservesReadsIff(Contents(v), InputEntries(in0, in1), smallest, BaseKeys(v, level));
  }

  // ----- when no marker is exposed -----

  /** No level-(L+1) file left behind shares a boundary user key with a level-(L+1) input. */
  ghost predicate NextLevelClosed(v: Levels, level: nat, in1: seq<File>)
    requires level + 1 < NUM_LEVELS
  {
    forall f, g | f in in1 && g in v[level + 1] && g !in in1 ::
      f.Largest().userKey != g.Smallest().userKey && g.Largest().userKey != f.Smallest().userKey
  }

  lemma SharedKeyIsBoundary(files: seq<File>, f: File, g: File, a: Entry, b: Entry)
    requires Ordered(files) && f in files && g in files && f != g
    requires a in f.entries && b in g.entries && a.key.userKey == b.key.userKey
    ensures f.Largest().userKey == g.Smallest().userKey || g.Largest().userKey == f.Smallest().userKey
  {
    DisjointFromOrdered(files);
    assert Disjoint(f, g);
    UserKeysAscend(f);
    UserKeysAscend(g);
    assert AllBefore(f, g) ==> Precedes(f.entries[|f.entries| - 1], g.entries[0]);
    assert AllBefore(g, f) ==> Precedes(g.entries[|g.entries| - 1], f.entries[0]);
  }

  /** Beside an entry of a level-L input, nothing left behind is older. */
  lemma NothingOlderBesideInput(v: Levels, level: nat, in0: seq<File>, in1: seq<File>, f: File, t: Entry, m: nat,
                                g: File, x: Entry)
    requires LevelInvariant(v) && ValidInputs(v, level, in0, in1) && BaseLevel(v, level, t.key.userKey)
    requires f in in0 && t in f.entries
    requires m < NUM_LEVELS && g in v[m] && g !in in0 && g !in in1 && x in g.entries && x.key.userKey == t.key.userKey
    ensures x.key.sequence > t.key.sequence
  {
    UserKeysAscend(f);
    UserKeysAscend(g);
    var lo, hi :| IsRange(in0, lo, hi) && in1 == Overlapping(v[level + 1], Some(lo), Some(hi));
    assert lo <= f.Smallest().userKey && f.Largest().userKey <= hi;
    assert m <= level ==> NewerThan(g, f);
    hide LevelInvariant, ValidInputs, IsRange;
    assert m == level + 1 ==> !Overlaps(g, Some(lo), Some(hi));
    assert level + 2 <= m ==> !InRange(g, t.key.userKey);
  }

  /** Beside an entry of a level-(L+1) input, only a file touching that input can be older. */
  lemma OnlyTouchingIsOlder(v: Levels, level: nat, in1: seq<File>, f: File, t: Entry, m: nat, g: File, x: Entry)
    requires LevelInvariant(v) && level + 1 < NUM_LEVELS && BaseLevel(v, level, t.key.userKey)
    requires f in in1 && f in v[level + 1] && t in f.entries
    requires m < NUM_LEVELS && g in v[m] && g !in in1 && x in g.entries && x.key.userKey == t.key.userKey
    requires x.key.sequence <= t.key.sequence
    ensures m == level + 1
    ensures f.Largest().userKey == g.Smallest().userKey || g.Largest().userKey == f.Smallest().userKey
  {
    UserKeysAscend(g);
    assert m <= level ==> NewerThan(g, f);
    assert level + 2 <= m ==> !InRange(g, t.key.userKey);
    SharedKeyIsBoundary(v[level + 1], f, g, t, x);
  }

  lemma FileOf(v: Levels, e: Entry) returns (m: nat, g: File)
    requires e in Contents(v)
    ensures m < NUM_LEVELS && g in v[m] && e in g.entries
  {
    m :| 0 <= m < NUM_LEVELS && InLevel(v[m], e);
    g :| g in v[m] && e in g.entries;
  }

  /** Whatever an exposed marker was hiding lies in a level-(L+1) file that touches an input. */
  lemma OlderLeftoverTouchesInput(v: Levels, level: nat, in0: seq<File>, in1: seq<File>, t: Entry, x: Entry)
    returns (f: File, g: File)
    requires LevelInvariant(v) && ValidInputs(v, level, in0, in1) && BaseLevel(v, level, t.key.userKey)
    requires t in InputEntries(in0, in1) && x in Contents(v) && x !in InputEntries(in0, in1)
    requires x.key.userKey == t.key.userKey && x.key.sequence <= t.key.sequence
    ensures f in in1 && g in v[level + 1] && g !in in1
    ensures f.Largest().userKey == g.Smallest().userKey || g.Largest().userKey == f.Smallest().userKey
  {
    InputsAreInLevels(v, level, in0, in1);
    var m;
    m, g := FileOf(v, x);
    assert g !in in0 && g !in in1;
    if InLevel(in0, t) {
      f :| f in in0 && t in f.entries;
      NothingOlderBesideInput(v, level, in0, in1, f, t, m, g, x);
    } else {
      f :| f in in1 && t in f.entries;
      OnlyTouchingIsOlder(v, level, in1, f, t, m, g, x);
    }
  }

  /** With the next level closed under shared boundary keys, every read survives the compaction. */
  lemma ClosedInputsExposeNothing(v: Levels, level: nat, in0: seq<File>, in1: seq<File>, smallest: SequenceNumber)
    requires LevelInvariant(v) && ValidInputs(v, level, in0, in1) && NextLevelClosed(v, level, in1)
    ensures NoExposedMarker(v, level, in0, in1, smallest)
  {
    forall t
      ensures !Exposes(Contents(v), InputEntries(in0, in1), smallest, BaseKeys(v, level), t)
    {
      hide LevelInvariant, ValidInputs, BaseLevel, InputEntries, Contents, InLevel;
      if Exposes(Contents(v), InputEntries(in0, in1), smallest, BaseKeys(v, level), t) {
        var rest := Without(Contents(v), InputEntries(in0, in1));
        var x :| IsNewest(rest, t.key.userKey, t.key.sequence, x);
        var f, g := OlderLeftoverTouchesInput(v, level, in0, in1, t, x);
      }
    }
  }

  // ----- the level-(L+1) inputs are not closed: a deleted key comes back -----

  const NEW_APPLE := Entry(InternalKey(1.0, 10, Value), [])
  const OLD_APPLE := Entry(InternalKey(1.0, 2, Value), [])
  const PEAR_DELETED := Entry(InternalKey(3.0, 9, Deletion), [])
  const OLD_PEAR := Entry(InternalKey(3.0, 4, Value), [7])

  const UPPER: File := Table(5, 1, [NEW_APPLE])
  const LOWER_LEFT: File := Table(3, 1, [OLD_APPLE, PEAR_DELETED])
  const LOWER_RIGHT: File := Table(4, 1, [OLD_PEAR])
  const SPLIT_PEAR: Levels := [[], [UPPER], [LOWER_LEFT, LOWER_RIGHT], [], [], [], []]

  lemma SplitPearContents(e: Entry)
    ensures e in Contents(SPLIT_PEAR) <==> e in {NEW_APPLE, OLD_APPLE, PEAR_DELETED, OLD_PEAR}
    ensures e in InputEntries([UPPER], [LOWER_LEFT]) <==> e in {NEW_APPLE, OLD_APPLE, PEAR_DELETED}
  {
    var v := SPLIT_PEAR;
    assert v[1][0] == UPPER && v[2][0] == LOWER_LEFT && v[2][1] == LOWER_RIGHT;
    assert UPPER.entries[0] == NEW_APPLE && LOWER_LEFT.entries[0] == OLD_APPLE && LOWER_LEFT.entries[1] == PEAR_DELETED
           && LOWER_RIGHT.entries[0] == OLD_PEAR;
    assert forall x :: x in UPPER.entries <==> x == NEW_APPLE;
    assert forall x :: x in LOWER_LEFT.entries <==> x == OLD_APPLE || x == PEAR_DELETED;
    assert forall x :: x in LOWER_RIGHT.entries <==> x == OLD_PEAR;
    assert InLevel(v[1], e) <==> e in UPPER.entries by { assert UPPER in v[1]; }
    assert InLevel(v[2], e) <==>
             e in LOWER_LEFT.entries
             || e in LOWER_RIGHT.entries by { assert LOWER_LEFT in v[2] && LOWER_RIGHT in v[2]; }
    assert forall l | 0 <= l < NUM_LEVELS && l != 1 && l != 2 :: v[l] == [];
    assert UPPER in [UPPER] && LOWER_LEFT in [LOWER_LEFT];
  }

  lemma SplitPearFiles()
    ensures AllBefore(LOWER_LEFT, LOWER_RIGHT) && NewerThan(UPPER, LOWER_LEFT) && NewerThan(UPPER, LOWER_RIGHT)
    ensures BySmallestKey(LOWER_LEFT, LOWER_RIGHT)
  {
    assert forall x :: x in UPPER.entries <==> x == NEW_APPLE;
    assert forall x :: x in LOWER_LEFT.entries <==> x == OLD_APPLE || x == PEAR_DELETED;
    assert forall x :: x in LOWER_RIGHT.entries <==> x == OLD_PEAR;
  }

  lemma SplitPearMembers(l: nat, f: File)
    requires l < NUM_LEVELS && f in SPLIT_PEAR[l]
    ensures (l == 1 && f == UPPER) || (l == 2 && (f == LOWER_LEFT || f == LOWER_RIGHT))
  {
    assert forall m | 0 <= m < NUM_LEVELS && m != 1 && m != 2 :: SPLIT_PEAR[m] == [];
  }

  lemma SplitPearRelations()
    ensures forall l, m, f, g | 0 <= l < NUM_LEVELS && 0 <= m < NUM_LEVELS && f in SPLIT_PEAR[l]
              && g in SPLIT_PEAR[m] ::
              (l < m ==> NewerThan(f, g)) && (f.number == g.number ==> l == m && f == g)
  {
    SplitPearFiles();
    hide AllBefore, NewerThan, BySmallestKey;
    forall l, m, f, g | 0 <= l < NUM_LEVELS && 0 <= m < NUM_LEVELS && f in SPLIT_PEAR[l] && g in SPLIT_PEAR[m]
      ensures (l < m ==> NewerThan(f, g)) && (f.number == g.number ==> l == m && f == g)
    {
      SplitPearMembers(l, f);
      SplitPearMembers(m, g);
    }
  }

  lemma SplitPearSorted(l: nat)
    requires l < NUM_LEVELS
    ensures Ordered(SPLIT_PEAR[l]) && SortedFiles(SPLIT_PEAR[l])
  {
    SplitPearFiles();
    hide AllBefore, BySmallestKey;
    assert l != 1 && l != 2 ==> SPLIT_PEAR[l] == [];
  }

  lemma SplitPearIsWellFormed()
    ensures WellFormed(SPLIT_PEAR)
  {
    hide NewerThan, Ordered, SortedFiles;
    SplitPearRelations();
    forall l | 0 <= l < NUM_LEVELS
      ensures Ordered(SPLIT_PEAR[l]) && SortedFiles(SPLIT_PEAR[l])
    {
      SplitPearSorted(l);
    }
    assert NewestByNumber(SPLIT_PEAR[0]) by { assert SPLIT_PEAR[0] == []; }
  }

  lemma SplitPearInputs()
    ensures ValidInputs(SPLIT_PEAR, 1, [UPPER], [LOWER_LEFT])
  {
    var lower := SPLIT_PEAR[2];
    assert lower[..1] == [LOWER_LEFT] && lower[..1][..0] == [];
    assert Overlapping(lower[..1], Some(1.0), Some(1.0)) == [LOWER_LEFT];
    assert Overlapping(lower, Some(1.0), Some(1.0)) == [LOWER_LEFT];
    assert UPPER in [UPPER];
    assert IsRange([UPPER], 1.0, 1.0);
  }

  lemma SplitPearExposes()
    ensures var es, ins := Contents(SPLIT_PEAR), InputEntries([UPPER], [LOWER_LEFT]);
            && PEAR_DELETED in ins && ins <= es
            && IsNewest(es, 3.0, 20, PEAR_DELETED)
            && IsNewest(Without(es, ins), 3.0, 9, OLD_PEAR)
  {
    var es, ins := Contents(SPLIT_PEAR), InputEntries([UPPER], [LOWER_LEFT]);
    forall e
      ensures e in es <==> e in {NEW_APPLE, OLD_APPLE, PEAR_DELETED, OLD_PEAR}
      ensures e in ins <==> e in {NEW_APPLE, OLD_APPLE, PEAR_DELETED}
    {
      SplitPearContents(e);
    }
    hide Contents, InputEntries;
    assert OLD_PEAR in Without(es, ins);
  }

  lemma SplitPearIsBase()
    ensures 3.0 in BaseKeys(SPLIT_PEAR, 1)
  {
    assert forall l | 3 <= l < NUM_LEVELS :: SPLIT_PEAR[l] == [];
  }

  lemma PearReads(es: iset<Entry>, ins: iset<Entry>, base: iset<UserKey>)
    requires Distinct(es) && ins <= es && 3.0 in base
    requires PEAR_DELETED in ins && IsNewest(es, 3.0, 20, PEAR_DELETED) && IsNewest(Without(es, ins), 3.0, 9, OLD_PEAR)
    ensures Read(es, 3.0, 20) == None && Read(Compacted(es, ins, 20, base), 3.0, 20) == Some([7])
  {
    NewestIs(es, 3.0, 20, PEAR_DELETED);
    ReadBelowMarker(es, ins, 20, base, 20, PEAR_DELETED);
    NewestIs(Without(es, ins), 3.0, 9, OLD_PEAR);
  }

  const PEAR_OUTPUT: File := Table(6, 1, [NEW_APPLE])
  const PEAR_INSTALLED: Levels := [[], [], [PEAR_OUTPUT, LOWER_RIGHT], [], [], [], []]
  const PEAR_INPUT: seq<Entry> := [NEW_APPLE, OLD_APPLE, PEAR_DELETED]

  /** The size- or seek-triggered compaction of level 1 picks these inputs. */
  method SplitPearIsPicked(expandedLimit: nat) returns (in0: seq<File>, in1: seq<File>)
    ensures in0 == [UPPER] && in1 == [LOWER_LEFT]
  {
    SplitPearIsWellFormed();
    assert LevelInvariant(SPLIT_PEAR);
    hide LevelInvariant, ValidInputs, IsSlice;
    in0, in1 := PickCompaction(SPLIT_PEAR, 1, 0, expandedLimit);
    SplitPearIsOnlyChoice(in0, in1);
  }

  lemma SplitPearIsOnlyChoice(in0: seq<File>, in1: seq<File>)
    requires ValidInputs(SPLIT_PEAR, 1, in0, in1) && IsSlice(SPLIT_PEAR[1], in0)
    ensures in0 == [UPPER] && in1 == [LOWER_LEFT]
  {
    hide IsSlice, IsRange, Overlapping, LevelInvariant, OlderThanTheRest;
    SplitPearSlice(in0);
    var lo, hi :| IsRange(in0, lo, hi) && in1 == Overlapping(SPLIT_PEAR[2], Some(lo), Some(hi));
    SplitPearRange(lo, hi);
    SplitPearOverlapping();
  }

  lemma SplitPearSlice(in0: seq<File>)
    requires IsSlice(SPLIT_PEAR[1], in0)
    ensures in0 == [UPPER]
  {
    var i, j :| SliceAt(SPLIT_PEAR[1], in0, i, j);
    assert i == 0 && j == 1;
  }

  lemma SplitPearRange(lo: UserKey, hi: UserKey)
    requires IsRange([UPPER], lo, hi)
    ensures lo == hi == 1.0
  {
    assert UPPER in [UPPER];
  }

  lemma SplitPearOverlapping()
    ensures Overlapping(SPLIT_PEAR[2], Some(1.0), Some(1.0)) == [LOWER_LEFT]
  {
    var lower := SPLIT_PEAR[2];
    assert lower[..1] == [LOWER_LEFT] && lower[..1][..0] == [];
    assert Overlapping(lower[..1], Some(1.0), Some(1.0)) == [LOWER_LEFT];
  }

  /** The loop writes the new apple alone: the old one is hidden and the marker obsolete. */
  lemma PearSurvivors()
    ensures Merges(PEAR_INPUT, [UPPER], [LOWER_LEFT])
    ensures Flatten([[NEW_APPLE]]) == Survivors(PEAR_INPUT, 3, 20, BaseKeys(SPLIT_PEAR, 1))
  {
    var base := BaseKeys(SPLIT_PEAR, 1);
    SplitPearIsBase();
    forall e
      ensures e in EntriesOf(PEAR_INPUT) <==> e in InputEntries([UPPER], [LOWER_LEFT])
    {
      SplitPearContents(e);
    }
    hide BaseKeys, InputEntries;
    var es := EntriesOf(PEAR_INPUT);
    assert PEAR_INPUT[0] == NEW_APPLE && PEAR_INPUT[1] == OLD_APPLE && PEAR_INPUT[2] == PEAR_DELETED;
    assert forall e :: e in es <==> e == NEW_APPLE || e == OLD_APPLE || e == PEAR_DELETED;
    assert Survives(es, NEW_APPLE, 20, base);
    assert !Survives(es, OLD_APPLE, 20, base) by {
      assert NEW_APPLE in es;
    }
    assert !Survives(es, PEAR_DELETED, 20, base);
    hide Survives;
    assert Survivors(PEAR_INPUT, 0, 20, base) == [];
    assert Survivors(PEAR_INPUT, 1, 20, base) == [NEW_APPLE];
    assert Survivors(PEAR_INPUT, 2, 20, base) == [NEW_APPLE];
    assert [[NEW_APPLE]][..0] == [] && Flatten([]) == [];
  }

  lemma PearIsSaved()
    ensures Saves(SPLIT_PEAR, [CompactionEdit(1, [UPPER], [LOWER_LEFT], [PEAR_OUTPUT])], PEAR_INSTALLED)
    ensures FreeNumbers(SPLIT_PEAR, 1, [UPPER], [PEAR_OUTPUT])
  {
    var e := CompactionEdit(1, [UPPER], [LOWER_LEFT], [PEAR_OUTPUT]);
    assert BySmallestKey(PEAR_OUTPUT, LOWER_RIGHT);
    hide BySmallestKey;
    forall l: nat | l < NUM_LEVELS
      ensures SortedFiles(PEAR_INSTALLED[l])
      ensures forall g :: g in PEAR_INSTALLED[l] <==>
                (g in SPLIT_PEAR[l] || g in AllAdded([e], l)) && g.number !in AllDeleted([e], l)
    {
      OneEdit(e, l);
      CompactionAdditions(1, [UPPER], [LOWER_LEFT], [PEAR_OUTPUT], l);
      assert UPPER in [UPPER] && LOWER_LEFT in [LOWER_LEFT] && PEAR_OUTPUT in [PEAR_OUTPUT];
      forall g
        ensures g in PEAR_INSTALLED[l] <==>
                  (g in SPLIT_PEAR[l] || g in AllAdded([e], l)) && g.number !in AllDeleted([e], l)
      {
        PearLevels(l, g);
      }
      assert l != 2 ==> PEAR_INSTALLED[l] == [];
    }
    forall o, l: nat, g | o in [PEAR_OUTPUT] && l < NUM_LEVELS && g in SPLIT_PEAR[l]
      ensures g.number != o.number
    {
      SplitPearMembers(l, g);
    }
  }

  lemma PearLevels(l: nat, g: File)
    requires l < NUM_LEVELS
    ensures g in SPLIT_PEAR[l] <==> (l == 1 && g == UPPER) || (l == 2 && (g == LOWER_LEFT || g == LOWER_RIGHT))
    ensures g in PEAR_INSTALLED[l] <==> l == 2 && (g == PEAR_OUTPUT || g == LOWER_RIGHT)
  {
    assert forall m | 0 <= m < NUM_LEVELS && m != 1 && m != 2 :: SPLIT_PEAR[m] == [];
    assert forall m | 0 <= m < NUM_LEVELS && m != 2 :: PEAR_INSTALLED[m] == [];
    assert UPPER in [UPPER] && LOWER_LEFT in [LOWER_LEFT, LOWER_RIGHT] && LOWER_RIGHT in [LOWER_LEFT, LOWER_RIGHT];
    assert PEAR_OUTPUT in [PEAR_OUTPUT, LOWER_RIGHT] && LOWER_RIGHT in [PEAR_OUTPUT, LOWER_RIGHT];
  }

  /** The compaction of these inputs, installed: a deleted key is readable again. */
  lemma DeletedKeyComesBack()
    ensures WellFormed(SPLIT_PEAR) && ValidInputs(SPLIT_PEAR, 1, [UPPER], [LOWER_LEFT])
    ensures Merges(PEAR_INPUT, [UPPER], [LOWER_LEFT]) && Carry([PEAR_OUTPUT], [[NEW_APPLE]])
    ensures Flatten([[NEW_APPLE]]) == Survivors(PEAR_INPUT, 3, 20, BaseKeys(SPLIT_PEAR, 1))
    ensures Saves(SPLIT_PEAR, [CompactionEdit(1, [UPPER], [LOWER_LEFT], [PEAR_OUTPUT])], PEAR_INSTALLED)
    ensures Read(Contents(SPLIT_PEAR), 3.0, 20) == None && Read(Contents(PEAR_INSTALLED), 3.0, 20) == Some([7])
  {
    assert |PEAR_INPUT| == 3 && PEAR_OUTPUT.entries == [NEW_APPLE] && Carry([PEAR_OUTPUT], [[NEW_APPLE]]);
    hide *;
    SplitPearIsWellFormed();
    SplitPearInputs();
    SplitPearExposes();
    SplitPearIsBase();
    SplitPearDistinct();
    PearSurvivors();
    PearIsSaved();
    CompactionIsCorrect(SPLIT_PEAR, 1, [UPPER], [LOWER_LEFT], PEAR_INPUT, [[NEW_APPLE]], [PEAR_OUTPUT], 20,
                        PEAR_INSTALLED);
    PearReads(Contents(SPLIT_PEAR), InputEntries([UPPER], [LOWER_LEFT]), BaseKeys(SPLIT_PEAR, 1));
  }

  lemma SplitPearDistinct()
    ensures Distinct(Contents(SPLIT_PEAR))
  {
    SplitPearIsWellFormed();
    ContentsDistinct(SPLIT_PEAR);
  }
}
