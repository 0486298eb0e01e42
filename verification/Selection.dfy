/** Choosing where a flushed table goes and which files a compaction merges (db/version_set.cc). */
module Selection {
  import opened InternalKeys
  import opened SnapshotReads
  import opened Versions

  type Bound = Option<UserKey>

  predicate AtMost(lo: Bound, k: UserKey) {
    lo.None? || lo.value <= k
  }

  predicate AtLeast(hi: Bound, k: UserKey) {
    hi.None? || k <= hi.value
  }

  /** The user keys of `f` all lie in [lo, hi]. */
  predicate Within(f: File, lo: Bound, hi: Bound) {
    AtMost(lo, f.Smallest().userKey) && AtLeast(hi, f.Largest().userKey)
  }

  /** [lo, hi] covers [lo', hi']. */
  predicate Covers(lo: Bound, hi: Bound, lo': Bound, hi': Bound) {
    && (lo.None? || (lo'.Some? && lo.value <= lo'.value))
    && (hi.None? || (hi'.Some? && hi'.value <= hi.value))
  }

  /** No file sticks out of [lo, hi]: a file meeting the range lies inside it. */
  ghost predicate ClosedUnderOverlap(files: seq<File>, lo: Bound, hi: Bound) {
    forall f | f in files && Overlaps(f, lo, hi) :: Within(f, lo, hi)
  }

  function Overlapping(files: seq<File>, lo: Bound, hi: Bound): (r: seq<File>)
    ensures forall f :: f in r <==> f in files && Overlaps(f, lo, hi)
  {
    if files == [] then []
    else
      var rest := Overlapping(files[..|files| - 1], lo, hi);
      if Overlaps(files[|files| - 1], lo, hi) then rest + [files[|files| - 1]] else rest
  }

  lemma UserKeysAscend(f: File)
    ensures forall e | e in f.entries :: f.Smallest().userKey <= e.key.userKey <= f.Largest().userKey
  {
    forall e | e in f.entries
      ensures f.Smallest().userKey <= e.key.userKey <= f.Largest().userKey
    {
      var i :| 0 <= i < |f.entries| && f.entries[i] == e;
      assert i == 0 || Precedes(f.entries[0], f.entries[i]);
      assert i == |f.entries| - 1 || Precedes(f.entries[i], f.entries[|f.entries| - 1]);
    }
  }

  /** Files that could still push the lower bound down or the upper bound up; restarting shrinks this. */
  ghost function Protruding(files: seq<File>, lo: Bound, hi: Bound): set<(int, bool)> {
    (set i | 0 <= i < |files| && !AtMost(lo, files[i].Smallest().userKey) :: (i, false)) +
    (set i | 0 <= i < |files| && !AtLeast(hi, files[i].Largest().userKey) :: (i, true))
  }

  lemma WideningShrinks(files: seq<File>, i: nat, lo: Bound, hi: Bound, lo': Bound, hi': Bound)
    requires i < |files| && Covers(lo', hi', lo, hi)
    requires
      || (!AtMost(lo, files[i].Smallest().userKey) && AtMost(lo', files[i].Smallest().userKey))
      || (!AtLeast(hi, files[i].Largest().userKey) && AtLeast(hi', files[i].Largest().userKey))
    ensures Protruding(files, lo', hi') < Protruding(files, lo, hi)
  {
    var covered := if !AtMost(lo, files[i].Smallest().userKey)
        && AtMost(lo', files[i].Smallest().userKey) then (i, false) else (i, true);
    assert covered in Protruding(files, lo, hi) && covered !in Protruding(files, lo', hi');
  }

  /** Every closed range around [begin, end] covers [lo, hi]. */
  ghost predicate Least(files: seq<File>, begin: Bound, end: Bound, lo: Bound, hi: Bound) {
    forall lo', hi' | Covers(lo', hi', begin, end) && ClosedUnderOverlap(files, lo', hi') :: Covers(lo', hi', lo, hi)
  }

  /** Widening a least range by a bound of a file that meets it leaves it least. */
  lemma ClosedRangesHold(files: seq<File>, f: File, begin: Bound, end: Bound, lo: Bound, hi: Bound)
    requires f in files && Overlaps(f, lo, hi) && Least(files, begin, end, lo, hi)
    ensures lo.Some? ==> Least(files, begin, end, Some(f.Smallest().userKey), hi)
    ensures hi.Some? ==> Least(files, begin, end, lo, Some(f.Largest().userKey))
  {
    forall lo', hi' | Covers(lo', hi', begin, end) && ClosedUnderOverlap(files, lo', hi')
      ensures Covers(lo', hi', lo, hi) && Within(f, lo', hi')
    {
      assert Overlaps(f, lo', hi');
    }
  }

  /** The files seen so far stay inside the range. */
  ghost predicate NoneProtrudes(files: seq<File>, n: nat, lo: Bound, hi: Bound) {
    n <= |files| && forall j | 0 <= j < n && Overlaps(files[j], lo, hi) :: Within(files[j], lo, hi)
  }

  lemma AllSeenIsClosed(files: seq<File>, lo: Bound, hi: Bound)
    ensures NoneProtrudes(files, |files|, lo, hi) <==> ClosedUnderOverlap(files, lo, hi)
  {
    hide Overlaps, Within;
  }

  lemma SeenNext(files: seq<File>, n: nat, lo: Bound, hi: Bound)
    requires n < |files|
    ensures Overlapping(files[..n + 1], lo, hi) == Overlapping(files[..n], lo, hi) + if Overlaps(files[n], lo,
            hi) then [files[n]] else []
    ensures NoneProtrudes(files, n + 1, lo, hi) <==>
              NoneProtrudes(files, n, lo, hi) && (Overlaps(files[n], lo, hi) ==> Within(files[n], lo, hi))
  {
    assert files[..n + 1][..n] == files[..n];
    hide Overlaps, Within;
  }

  /** GetOverlappingInputs. Above level 0 the result is the files meeting [begin, end]; at level 0 the range
      is widened to the least one closed under overlap, restarting the scan at every widening. */
  method GetOverlappingInputs(v: Levels, level: nat, begin: Bound, end: Bound)
    returns (inputs: seq<File>, ghost lo: Bound, ghost hi: Bound)
    requires level < NUM_LEVELS
    ensures inputs == Overlapping(v[level], lo, hi)
    ensures level > 0 ==> inputs == Overlapping(v[level], begin, end)
    ensures level > 0 ==> lo == begin && hi == end
    ensures level == 0 ==> Covers(lo, hi, begin, end) && ClosedUnderOverlap(v[0], lo, hi)
    ensures level == 0 ==> Least(v[0], begin, end, lo, hi)
  {
    hide Least, NoneProtrudes, Overlapping, Protruding, ClosedUnderOverlap;
    var files := v[level];
    inputs := [];
    var userBegin, userEnd := begin, end;
    var i := 0;
    RangeItselfIsLeast(files, begin, end);
    while i < |files|
      invariant 0 <= i <= |files|
      invariant inputs == Overlapping(files[..i], userBegin, userEnd)
      invariant level > 0 ==> userBegin == begin && userEnd == end
      invariant Covers(userBegin, userEnd, begin, end)
      invariant begin.Some? == userBegin.Some? && end.Some? == userEnd.Some?
      invariant level == 0 ==>
                  NoneProtrudes(files, i, userBegin, userEnd) && Least(files, begin, end, userBegin, userEnd)
      decreases Protruding(files, userBegin, userEnd), |files| - i
    {
      var f := files[i];
      SeenNext(files, i, userBegin, userEnd);
      i := i + 1;
      var fileStart, fileLimit := f.Smallest().userKey, f.Largest().userKey;
      UserKeysAscend(f);
      if begin.Some? && fileLimit < userBegin.value {
        // completely before the range
      } else if end.Some? && fileStart > userEnd.value {
        // completely after the range
      } else {
        inputs := inputs + [f];
        if level == 0 {
          ClosedRangesHold(files, f, begin, end, userBegin, userEnd);
          if begin.Some? && fileStart < userBegin.value {
            WideningShrinks(files, i - 1, userBegin, userEnd, Some(fileStart), userEnd);
            userBegin := Some(fileStart);
            inputs := [];
            i := 0;
            RangeItselfIsLeast(files, userBegin, userEnd);
          } else if end.Some? && fileLimit > userEnd.value {
            WideningShrinks(files, i - 1, userBegin, userEnd, userBegin, Some(fileLimit));
            userEnd := Some(fileLimit);
            inputs := [];
            i := 0;
            RangeItselfIsLeast(files, userBegin, userEnd);
          }
        }
      }
    }
    assert files[..|files|] == files;
    AllSeenIsClosed(files, userBegin, userEnd);
    lo, hi := userBegin, userEnd;
  }

  lemma RangeItselfIsLeast(files: seq<File>, begin: Bound, end: Bound)
    ensures Least(files, begin, end, begin, end) && NoneProtrudes(files, 0, begin, end)
            && Overlapping(files[..0], begin, end) == []
  {
  }

  function TotalFileSize(files: seq<File>): nat {
    if files == [] then 0 else files[0].fileSize + TotalFileSize(files[1..])
  }

  method OverlapInLevel(v: Levels, level: nat, lo: Bound, hi: Bound) returns (overlap: bool)
    requires LevelInvariant(v) && level < NUM_LEVELS
    ensures overlap <==> exists f :: f in v[level] && Overlaps(f, lo, hi)
  {
    overlap := SomeFileOverlapsRange(level > 0, v[level], lo, hi);
  }

  const MAX_MEM_COMPACT_LEVEL: nat := 2

  /** Placing a table with user keys in [lo, hi] at `level` skips no file it overlaps. */
  ghost predicate SafeLevel(v: Levels, level: nat, lo: UserKey, hi: UserKey) {
    && level < NUM_LEVELS
    && (level > 0 ==> forall l, f | 0 <= l <= level && f in v[l] :: !Overlaps(f, Some(lo), Some(hi)))
  }

  /** One more level down there is no overlap, and the level after that overlaps in few enough bytes. */
  ghost predicate CanPush(v: Levels, level: nat, lo: UserKey, hi: UserKey, maxGrandParentOverlap: nat)
    requires level + 2 < NUM_LEVELS
  {
    && (forall f | f in v[level + 1] :: !Overlaps(f, Some(lo), Some(hi)))
    && TotalFileSize(Overlapping(v[level + 2], Some(lo), Some(hi))) <= maxGrandParentOverlap
  }

  method PickLevelForMemTableOutput(v: Levels, lo: UserKey, hi: UserKey, maxGrandParentOverlap: nat)
    returns (level: nat)
    requires LevelInvariant(v)
    ensures level <= MAX_MEM_COMPACT_LEVEL && SafeLevel(v, level, lo, hi)
    ensures forall l | 0 <= l < level :: CanPush(v, l, lo, hi, maxGrandParentOverlap)
    ensures level < MAX_MEM_COMPACT_LEVEL ==>
              || (level == 0 && exists f :: f in v[0] && Overlaps(f, Some(lo), Some(hi)))
              || !CanPush(v, level, lo, hi, maxGrandParentOverlap)
  {
    level := 0;
    var overlap := OverlapInLevel(v, 0, Some(lo), Some(hi));
    if !overlap {
      while level < MAX_MEM_COMPACT_LEVEL
        invariant level <= MAX_MEM_COMPACT_LEVEL
        invariant forall l, f | 0 <= l <= level && f in v[l] :: !Overlaps(f, Some(lo), Some(hi))
        invariant forall l | 0 <= l < level :: CanPush(v, l, lo, hi, maxGrandParentOverlap)
      {
        overlap := OverlapInLevel(v, level + 1, Some(lo), Some(hi));
        if overlap {
          break;
        }
        var overlaps, _, _ := GetOverlappingInputs(v, level + 2, Some(lo), Some(hi));
        if TotalFileSize(overlaps) > maxGrandParentOverlap {
          break;
        }
        level := level + 1;
      }
    }
  }

  // ----- boundary files -----

  ghost predicate IsLargestKey(files: seq<File>, key: InternalKey) {
    && (exists f :: f in files && f.Largest() == key)
    && (forall f | f in files :: !Less(key, f.Largest()))
  }

  method FindLargestKey(files: seq<File>) returns (key: Option<InternalKey>)
    ensures files == [] <==> key.None?
    ensures files != [] ==> IsLargestKey(files, key.value)
  {
    if files == [] {
      return None;
    }
    var largest := files[0].Largest();
    for i := 1 to |files|
      invariant exists j :: 0 <= j < i && files[j].Largest() == largest
      invariant forall j | 0 <= j < i :: !Less(largest, files[j].Largest())
    {
      if Less(largest, files[i].Largest()) {
        largest := files[i].Largest();
      }
    }
    key := Some(largest);
  }

  /** `f` starts after `key` with the same user key, so it holds older entries of that user key. */
  predicate Continues(f: File, key: InternalKey) {
    Less(key, f.Smallest()) && f.Smallest().userKey == key.userKey
  }

  method FindSmallestBoundaryFile(levelFiles: seq<File>, key: InternalKey) returns (r: Option<File>)
    ensures r.None? ==> forall f | f in levelFiles :: !Continues(f, key)
    ensures r.Some? ==> r.value in levelFiles && Continues(r.value, key)
    ensures r.Some? ==> forall f | f in levelFiles && Continues(f, key) :: !Less(f.Smallest(), r.value.Smallest())
  {
    r := None;
    for i := 0 to |levelFiles|
      invariant r.None? ==> forall j | 0 <= j < i :: !Continues(levelFiles[j], key)
      invariant r.Some? ==> r.value in levelFiles && Continues(r.value, key)
      invariant r.Some? ==> forall j | 0 <= j < i && Continues(levelFiles[j], key) ::
                !Less(levelFiles[j].Smallest(), r.value.Smallest())
    {
      var f := levelFiles[i];
      if Continues(f, key) {
        if r.None? || Less(f.Smallest(), r.value.Smallest()) {
          r := Some(f);
        }
      }
    }
  }

  ghost predicate SliceAt(files: seq<File>, part: seq<File>, i: int, j: int) {
    0 <= i < j <= |files| && part == files[i..j]
  }

  /** The chosen files are consecutive files of a level. */
  ghost predicate IsSlice(files: seq<File>, chosen: seq<File>) {
    exists i, j :: SliceAt(files, chosen, i, j)
  }

  /** No file of the level continues the last user key of the chosen ones. */
  ghost predicate BoundaryClosed(files: seq<File>, chosen: seq<File>) {
    exists key :: IsLargestKey(chosen, key) && forall f | f in files :: !Continues(f, key)
  }

  ghost function StartingAfter(files: seq<File>, key: InternalKey): set<int> {
    set i | 0 <= i < |files| && Less(key, files[i].Smallest())
  }

  lemma SmallestNotAboveLargest(f: File)
    ensures !Less(f.Largest(), f.Smallest())
  {
    assert |f.entries| == 1 || Precedes(f.entries[0], f.entries[|f.entries| - 1]);
  }

  lemma MiddleContinues(f: File, g: File, b: File)
    requires AllBefore(f, g) && AllBefore(g, b) && Continues(b, f.Largest())
    ensures Continues(g, f.Largest()) && Less(g.Smallest(), b.Smallest())
  {
    assert Precedes(f.entries[|f.entries| - 1], g.entries[0]);
    assert Precedes(g.entries[0], b.entries[0]);
  }

  lemma LastOfSlice(files: seq<File>, chosen: seq<File>, key: InternalKey, i: nat, j: nat)
    requires Ordered(files) && SliceAt(files, chosen, i, j) && IsLargestKey(chosen, key)
    ensures key == files[j - 1].Largest()
  {
    assert files[j - 1] == chosen[|chosen| - 1];
    var f :| f in chosen && f.Largest() == key;
    var c :| 0 <= c < |chosen| && chosen[c] == f;
    assert f == files[i + c];
    LargestAscends(files, j - 1);
  }

  /** In a sorted level the boundary file is the one right after the chosen ones. */
  lemma BoundaryIsNext(files: seq<File>, chosen: seq<File>, key: InternalKey, b: File)
    requires Ordered(files) && IsSlice(files, chosen) && IsLargestKey(chosen, key)
    requires b in files && Continues(b, key)
    requires forall f | f in files && Continues(f, key) :: !Less(f.Smallest(), b.Smallest())
    ensures IsSlice(files, chosen + [b])
  {
    var i, j :| SliceAt(files, chosen, i, j);
    LastOfSlice(files, chosen, key, i, j);
    hide Ordered, Continues, IsLargestKey;
    var c :| 0 <= c < |files| && files[c] == b;
    BoundaryAfter(files, c, j - 1);
    BoundaryAt(files, j, c);
    SliceExtends(files, chosen, i, j);
  }

  lemma BoundaryAt(files: seq<File>, j: nat, c: nat)
    requires Ordered(files) && 0 < j <= c < |files| && Continues(files[c], files[j - 1].Largest())
    requires forall f | f in files && Continues(f, files[j - 1].Largest()) :: !Less(f.Smallest(), files[c].Smallest())
    ensures c == j
  {
    if j < c {
      assert AllBefore(files[j - 1], files[j]) && AllBefore(files[j], files[c]);
      MiddleContinues(files[j - 1], files[j], files[c]);
    }
  }

  lemma SliceExtends(files: seq<File>, chosen: seq<File>, i: nat, j: nat)
    requires SliceAt(files, chosen, i, j) && j < |files|
    ensures IsSlice(files, chosen + [files[j]])
  {
    assert SliceAt(files, chosen + [files[j]], i, j + 1);
  }

  lemma SliceTruncated(files: seq<File>, chosen: seq<File>, n: nat)
    requires IsSlice(files, chosen) && 0 < n <= |chosen|
    ensures IsSlice(files, chosen[..n])
  {
    var i, j :| SliceAt(files, chosen, i, j);
    assert SliceAt(files, chosen[..n], i, i + n);
  }

  lemma BoundaryAfter(files: seq<File>, c: nat, last: nat)
    requires Ordered(files) && c < |files| && last < |files|
    requires Continues(files[c], files[last].Largest())
    ensures last < c
  {
    SmallestNotAboveLargest(files[c]);
    LargestAscends(files, last);
  }

  lemma BoundaryIsLargest(chosen: seq<File>, key: InternalKey, b: File)
    requires IsLargestKey(chosen, key) && Continues(b, key)
    ensures IsLargestKey(chosen + [b], b.Largest())
    ensures Less(key, b.Largest())
  {
    SmallestNotAboveLargest(b);
    assert b in chosen + [b];
  }

  lemma BoundaryProgress(files: seq<File>, key: InternalKey, b: File)
    requires b in files && Continues(b, key)
    ensures StartingAfter(files, b.Largest()) < StartingAfter(files, key)
  {
    SmallestNotAboveLargest(b);
    var i :| 0 <= i < |files| && files[i] == b;
    assert i in StartingAfter(files, key) && i !in StartingAfter(files, b.Largest());
  }

  /** `f` is the first file of the level that continues the last user key of the files in front of it. */
  ghost predicate NextBoundary(levelFiles: seq<File>, front: seq<File>, f: File) {
    exists key ::
      && IsLargestKey(front, key) && Continues(f, key)
      && forall g | g in levelFiles && Continues(g, key) :: !Less(g.Smallest(), f.Smallest())
  }

  ghost predicate AddedBoundaries(levelFiles: seq<File>, chosen: seq<File>, r: seq<File>) {
    && chosen <= r && (forall f | f in r :: f in levelFiles)
    && forall k | |chosen| <= k < |r| :: NextBoundary(levelFiles, r[..k], r[k])
  }

  lemma BoundaryAdded(levelFiles: seq<File>, chosen: seq<File>, r: seq<File>, key: InternalKey, b: File)
    requires AddedBoundaries(levelFiles, chosen, r) && IsLargestKey(r, key) && b in levelFiles && Continues(b, key)
    requires forall f | f in levelFiles && Continues(f, key) :: !Less(f.Smallest(), b.Smallest())
    ensures AddedBoundaries(levelFiles, chosen, r + [b])
  {
    assert (r + [b])[..|r|] == r;
    assert NextBoundary(levelFiles, r, b);
    hide NextBoundary;
    forall k | |chosen| <= k < |r|
      ensures NextBoundary(levelFiles, (r + [b])[..k], (r + [b])[k])
    {
      assert (r + [b])[..k] == r[..k] && NextBoundary(levelFiles, r[..k], r[k]);
    }
  }

  lemma ClosedAt(files: seq<File>, chosen: seq<File>, key: InternalKey)
    requires IsLargestKey(chosen, key)
    ensures BoundaryClosed(files, chosen) <==> forall f | f in files :: !Continues(f, key)
  {
    hide Continues;
    forall key' | IsLargestKey(chosen, key')
      ensures key' == key
    {
      LargestIsUnique(chosen, key, key');
    }
  }

  lemma LargestIsUnique(chosen: seq<File>, key: InternalKey, key': InternalKey)
    requires IsLargestKey(chosen, key) && IsLargestKey(chosen, key')
    ensures key' == key
  {
  }

  /** AddBoundaryInputs: extends the chosen files until no file of the level continues their last user key. */
  method AddBoundaryInputs(levelFiles: seq<File>, chosen: seq<File>) returns (r: seq<File>)
    requires forall f | f in chosen :: f in levelFiles
    ensures AddedBoundaries(levelFiles, chosen, r) && (chosen != [] ==> BoundaryClosed(levelFiles, r))
    ensures (chosen == [] || BoundaryClosed(levelFiles, chosen)) ==> r == chosen
    ensures Ordered(levelFiles) && IsSlice(levelFiles, chosen) ==> IsSlice(levelFiles, r)
  {
    hide NextBoundary, BoundaryClosed, IsLargestKey, Continues, Ordered, IsSlice, StartingAfter;
    r := chosen;
    var largest := FindLargestKey(chosen);
    if largest.None? {
      return;
    }
    var key := largest.value;
    ClosedAt(levelFiles, chosen, key);
    var continueSearching := true;
    while continueSearching
      invariant AddedBoundaries(levelFiles, chosen, r) && IsLargestKey(r, key)
      invariant r == chosen || (exists f :: f in levelFiles && Continues(f, largest.value))
      invariant r == chosen ==> key == largest.value
      invariant !continueSearching ==> forall f | f in levelFiles :: !Continues(f, key)
      invariant Ordered(levelFiles) && IsSlice(levelFiles, chosen) ==> IsSlice(levelFiles, r)
      decreases continueSearching, StartingAfter(levelFiles, key)
    {
      var b := FindSmallestBoundaryFile(levelFiles, key);
      if b.Some? {
        if Ordered(levelFiles) && IsSlice(levelFiles, chosen) {
          BoundaryIsNext(levelFiles, r, key, b.value);
        }
        BoundaryProgress(levelFiles, key, b.value);
        BoundaryIsLargest(r, key, b.value);
        BoundaryAdded(levelFiles, chosen, r, key, b.value);
        r := r + [b.value];
        key := b.value.Largest();
      } else {
        continueSearching := false;
      }
    }
    ClosedAt(levelFiles, r, key);
  }

  // ----- the inputs of a compaction -----

  ghost predicate IsRange(files: seq<File>, lo: UserKey, hi: UserKey) {
    && (exists f :: f in files && f.Smallest().userKey == lo)
    && (exists f :: f in files && f.Largest().userKey == hi)
    && (forall f | f in files :: lo <= f.Smallest().userKey && f.Largest().userKey <= hi)
  }

  /** GetRange; only the user keys of the bounds are used by its callers. */
  method GetRange(files: seq<File>) returns (lo: UserKey, hi: UserKey)
    requires files != []
    ensures IsRange(files, lo, hi)
  {
    var smallest, largest := files[0].Smallest(), files[0].Largest();
    for i := 1 to |files|
      invariant exists j :: 0 <= j < i && files[j].Smallest() == smallest
      invariant exists j :: 0 <= j < i && files[j].Largest() == largest
      invariant forall j | 0 <= j < i :: smallest.userKey <= files[j].Smallest().userKey
                  && files[j].Largest().userKey <= largest.userKey
    {
      if Less(files[i].Smallest(), smallest) {
        smallest := files[i].Smallest();
      }
      if Less(largest, files[i].Largest()) {
        largest := files[i].Largest();
      }
    }
    lo, hi := smallest.userKey, largest.userKey;
  }

  /** Every file left behind is newer, key by key, than the chosen ones. */
  ghost predicate OlderThanTheRest(files: seq<File>, chosen: seq<File>) {
    forall f, g | f in chosen && g in files && g !in chosen :: NewerThan(g, f)
  }

  /** What the rest of a compaction relies on: the level-L inputs are older than the level-L files left
      behind, and the level-(L+1) inputs are the files meeting their user-key range. */
  ghost predicate ValidInputs(v: Levels, level: nat, in0: seq<File>, in1: seq<File>) {
    && level + 1 < NUM_LEVELS
    && in0 != []
    && (forall f | f in in0 :: f in v[level])
    && OlderThanTheRest(v[level], in0)
    && exists lo, hi :: IsRange(in0, lo, hi) && in1 == Overlapping(v[level + 1], Some(lo), Some(hi))
  }

  /** How a caller may pick the first inputs: a closed range at level 0, consecutive files elsewhere. */
  ghost predicate ValidSeed(v: Levels, level: nat, seed: seq<File>) {
    && level + 1 < NUM_LEVELS
    && seed != []
    && (level == 0 ==> ClosedSelection(v[0], seed))
    && (level > 0 ==> IsSlice(v[level], seed))
  }

  ghost predicate ClosedSelection(files: seq<File>, chosen: seq<File>) {
    exists lo, hi :: ClosedUnderOverlap(files, lo, hi) && chosen == Overlapping(files, lo, hi)
  }

  lemma ClosedHasNoContinuation(files: seq<File>, lo: Bound, hi: Bound, m: File, g: File)
    requires ClosedUnderOverlap(files, lo, hi)
    requires m in files && Overlaps(m, lo, hi) && g in files && Continues(g, m.Largest())
    ensures Overlaps(g, lo, hi) && Less(m.Largest(), g.Largest())
  {
    SmallestNotAboveLargest(g);
    assert Within(m, lo, hi);
  }

  lemma ClosedIsBoundaryClosed(files: seq<File>, chosen: seq<File>)
    requires chosen != [] && ClosedSelection(files, chosen)
    ensures BoundaryClosed(files, chosen)
  {
    var lo, hi :| ClosedUnderOverlap(files, lo, hi) && chosen == Overlapping(files, lo, hi);
    var key := LargestOf(chosen);
    var m :| m in chosen && m.Largest() == key;
    forall g | g in files
      ensures !Continues(g, key)
    {
      assert Overlaps(g, lo, hi) ==> g in chosen;
      if Continues(g, key) {
        ClosedHasNoContinuation(files, lo, hi, m, g);
      }
    }
  }

  lemma ClosedSharesNoKey(files: seq<File>, lo: Bound, hi: Bound, f: File, g: File)
    requires ClosedUnderOverlap(files, lo, hi)
    requires f in files && Overlaps(f, lo, hi) && g in files && !Overlaps(g, lo, hi)
    ensures NewerThan(g, f)
  {
    UserKeysAscend(f);
    UserKeysAscend(g);
    assert Within(f, lo, hi);
  }

  lemma ClosedOutsideIsNewer(files: seq<File>, chosen: seq<File>)
    requires ClosedSelection(files, chosen)
    ensures OlderThanTheRest(files, chosen)
  {
    var lo, hi :| ClosedUnderOverlap(files, lo, hi) && chosen == Overlapping(files, lo, hi);
    forall f, g | f in chosen && g in files && g !in chosen
      ensures NewerThan(g, f)
    {
      ClosedSharesNoKey(files, lo, hi, f, g);
    }
  }

  ghost function LargestOf(files: seq<File>): (key: InternalKey)
    requires files != []
    ensures IsLargestKey(files, key)
  {
    if |files| == 1 then files[0].Largest()
    else
      var rest := LargestOf(files[1..]);
      if Less(rest, files[0].Largest()) then files[0].Largest() else rest
  }

  lemma SliceMember(files: seq<File>, chosen: seq<File>, i: nat, j: nat, c: nat)
    requires SliceAt(files, chosen, i, j) && i <= c < j
    ensures files[c] in chosen
  {
    assert chosen[c - i] == files[c];
  }

  lemma OutsideIsNewerAt(files: seq<File>, i: nat, j: nat, c: nat, d: nat)
    requires Ordered(files) && i <= d < j <= |files| && c < |files| && !(i <= c < j)
    requires !Continues(files[c], files[j - 1].Largest())
    ensures NewerThan(files[c], files[d])
  {
    if c < i {
      assert AllBefore(files[c], files[d]);
    } else {
      OutsideAfter(files, d, j - 1, c);
    }
  }

  lemma SliceOutsideIsNewerFor(files: seq<File>, chosen: seq<File>, i: nat, j: nat, f: File, g: File)
    requires Ordered(files) && SliceAt(files, chosen, i, j)
    requires forall h | h in files :: !Continues(h, files[j - 1].Largest())
    requires f in chosen && g in files && g !in chosen
    ensures NewerThan(g, f)
  {
    hide Ordered, NewerThan, Continues;
    var c :| 0 <= c < |files| && files[c] == g;
    var d :| 0 <= d < |chosen| && chosen[d] == f;
    assert f == files[i + d];
    assert !(i <= c < j) by {
      if i <= c < j {
        SliceMember(files, chosen, i, j, c);
      }
    }
    OutsideIsNewerAt(files, i, j, c, i + d);
  }

  lemma SliceOutsideIsNewer(files: seq<File>, chosen: seq<File>)
    requires Ordered(files) && IsSlice(files, chosen) && BoundaryClosed(files, chosen)
    ensures OlderThanTheRest(files, chosen)
  {
    hide Ordered, NewerThan, Continues;
    var i, j :| SliceAt(files, chosen, i, j);
    var key :| IsLargestKey(chosen, key) && forall f | f in files :: !Continues(f, key);
    LastOfSlice(files, chosen, key, i, j);
    forall f, g | f in chosen && g in files && g !in chosen
      ensures NewerThan(g, f)
    {
      SliceOutsideIsNewerFor(files, chosen, i, j, f, g);
    }
  }

  lemma OutsideAfter(files: seq<File>, d: nat, last: nat, c: nat)
    requires Ordered(files) && d <= last < c < |files|
    requires !Continues(files[c], files[last].Largest())
    ensures NewerThan(files[c], files[d])
  {
    var f, m, g := files[d], files[last], files[c];
    assert d == last || AllBefore(f, m);
    assert AllBefore(m, g);
    UserKeysAscend(f);
    UserKeysAscend(m);
    UserKeysAscend(g);
    assert Precedes(m.entries[|m.entries| - 1], g.entries[0]);
    assert d == last || Precedes(f.entries[|f.entries| - 1], m.entries[|m.entries| - 1]);
  }

  lemma OverlappingGrows(files: seq<File>, lo: Bound, hi: Bound, lo': Bound, hi': Bound)
    requires Covers(lo', hi', lo, hi)
    ensures |Overlapping(files, lo, hi)| <= |Overlapping(files, lo', hi')|
    ensures |Overlapping(files, lo, hi)| == |Overlapping(files, lo', hi')| ==>
            Overlapping(files, lo, hi) == Overlapping(files, lo', hi')
  {
    if files != [] {
      OverlappingGrows(files[..|files| - 1], lo, hi, lo', hi');
    }
  }

  lemma OrderedPrefix(files: seq<File>, n: nat)
    requires Ordered(files) && n <= |files|
    ensures Ordered(files[..n])
  {
  }

  lemma SliceOfPrefix(files: seq<File>, n: nat, part: seq<File>, i: int, j: int)
    requires n <= |files| && SliceAt(files[..n], part, i, j)
    ensures SliceAt(files, part, i, j)
    ensures files[j - 1] in part
  {
    assert part[|part| - 1] == files[j - 1];
  }

  /** In a sorted level the files meeting a range are consecutive. */
  lemma OverlappingIsSlice(files: seq<File>, lo: Bound, hi: Bound)
    requires Ordered(files) && Overlapping(files, lo, hi) != []
    ensures IsSlice(files, Overlapping(files, lo, hi))
  {
    hide Ordered, Overlaps;
    var last := |files| - 1;
    var front, r := files[..last], Overlapping(files, lo, hi);
    var rest := Overlapping(front, lo, hi);
    if rest == [] {
      assert SliceAt(files, r, last, last + 1);
    } else {
      OrderedPrefix(files, last);
      OverlappingIsSlice(front, lo, hi);
      var i, j :| SliceAt(front, rest, i, j);
      SliceOfPrefix(files, last, rest, i, j);
      if r != rest {
        NoGap(files, lo, hi, i, j);
        SliceExtends(files, rest, i, j);
      }
    }
  }

  lemma NotBeforeItself(f: File)
    ensures !AllBefore(f, f)
  {
    assert !Precedes(f.entries[0], f.entries[0]);
  }

  /** Nothing that meets the range lies between the slice found so far and a last file that meets it. */
  lemma NoGap(files: seq<File>, lo: Bound, hi: Bound, i: nat, j: nat)
    requires Ordered(files) && 0 < |files|
    requires SliceAt(files[..|files| - 1], Overlapping(files[..|files| - 1], lo, hi), i, j)
    requires Overlaps(files[j - 1], lo, hi) && Overlaps(files[|files| - 1], lo, hi)
    ensures j == |files| - 1
  {
    var last := |files| - 1;
    var front := files[..last];
    var rest := Overlapping(front, lo, hi);
    if j < last {
      assert AllBefore(files[j - 1], files[j]) && AllBefore(files[j], files[last]);
      MiddleOverlaps(files[j - 1], files[j], files[last], lo, hi);
      assert front[j] in rest;
      var d :| 0 <= d < |rest| && rest[d] == front[j];
      assert rest[d] == files[i + d];
      NotBeforeItself(files[j]);
    }
  }

  lemma MiddleOverlaps(f: File, g: File, h: File, lo: Bound, hi: Bound)
    requires AllBefore(f, g) && AllBefore(g, h) && Overlaps(f, lo, hi) && Overlaps(h, lo, hi)
    ensures Overlaps(g, lo, hi)
  {
    assert Precedes(f.entries[|f.entries| - 1], g.entries[|g.entries| - 1]);
    assert Precedes(g.entries[0], h.entries[0]);
  }

  lemma SeedIsInLevel(v: Levels, level: nat, seed: seq<File>)
    requires LevelInvariant(v) && ValidSeed(v, level, seed)
    ensures level + 1 < NUM_LEVELS && seed != [] && forall f | f in seed :: f in v[level]
    ensures level > 0 ==> Ordered(v[level]) && IsSlice(v[level], seed)
  {
  }

  lemma BoundaryClosedSeed(v: Levels, level: nat, seed: seq<File>, closed: seq<File>)
    requires LevelInvariant(v) && ValidSeed(v, level, seed) && BoundaryClosed(v[level], closed)
    requires BoundaryClosed(v[level], seed) ==> closed == seed
    requires Ordered(v[level]) && IsSlice(v[level], seed) ==> IsSlice(v[level], closed)
    ensures OlderThanTheRest(v[level], closed)
  {
    hide Ordered, NewerThan, Continues;
    if level == 0 {
      ClosedIsBoundaryClosed(v[0], seed);
      ClosedOutsideIsNewer(v[0], seed);
    } else {
      SliceOutsideIsNewer(v[level], closed);
    }
  }

  lemma RangeCovered(files: seq<File>, more: seq<File>, lo: UserKey, hi: UserKey, lo': UserKey, hi': UserKey)
    requires IsRange(files, lo, hi) && IsRange(more, lo', hi') && forall f | f in files :: f in more
    ensures Covers(Some(lo'), Some(hi'), Some(lo), Some(hi))
  {
  }

  lemma InsideRangeOverlaps(files: seq<File>, lo: UserKey, hi: UserKey, f: File)
    requires IsRange(files, lo, hi) && f in files
    ensures Overlaps(f, Some(lo), Some(hi))
  {
    UserKeysAscend(f);
  }

  lemma WiderOverlaps(f: File, lo: Bound, hi: Bound, lo': Bound, hi': Bound)
    requires Overlaps(f, lo, hi) && Covers(lo', hi', lo, hi)
    ensures Overlaps(f, lo', hi')
  {
  }

  /** What GetOverlappingInputs finds: the files that meet the range, at level 0 the least closed one around it. */
  ghost predicate MeetRange(v: Levels, level: nat, begin: Bound, end: Bound, inputs: seq<File>)
    requires level < NUM_LEVELS
  {
    exists lo, hi ::
      && inputs == Overlapping(v[level], lo, hi)
      && if level > 0 then lo == begin && hi == end
         else Covers(lo, hi, begin, end) && ClosedUnderOverlap(v[0], lo, hi) && Least(v[0], begin, end, lo, hi)
  }

  /** The level-L files that meet the range of all inputs, with their boundary files. */
  ghost predicate IsExpanded(v: Levels, level: nat, in0: seq<File>, in1: seq<File>, expanded: seq<File>)
    requires level < NUM_LEVELS
  {
    exists begin, end, met ::
      && IsRange(in0 + in1, begin, end) && MeetRange(v, level, Some(begin), Some(end), met)
      && AddedBoundaries(v[level], met, expanded) && BoundaryClosed(v[level], expanded)
  }

  /** When SetupOtherInputs takes the expanded level-L files: they are more, the sizes stay within the limit, and they
      meet no more files of level L+1. */
  ghost predicate Grows(v: Levels, level: nat, in0: seq<File>, in1: seq<File>, expanded: seq<File>, limit: nat)
    requires level + 1 < NUM_LEVELS
  {
    && |expanded| > |in0| && TotalFileSize(in1) + TotalFileSize(expanded) < limit
    && exists lo, hi :: IsRange(expanded, lo, hi) && |Overlapping(v[level + 1], Some(lo), Some(hi))| == |in1|
  }

  /** The level-L inputs of SetupOtherInputs, from the closed ones. */
  ghost predicate IsGrown(v: Levels, level: nat, closed: seq<File>, in1: seq<File>, limit: nat, in0: seq<File>)
    requires level + 1 < NUM_LEVELS
  {
    if in1 == [] then in0 == closed
    else exists expanded ::
      && IsExpanded(v, level, closed, in1, expanded)
      && in0 == if Grows(v, level, closed, in1, expanded, limit) then expanded else closed
  }

  /** What SetupOtherInputs makes of the files first picked. */
  ghost predicate InputsFrom(v: Levels, level: nat, seed: seq<File>, limit: nat, in0: seq<File>, in1: seq<File>)
    requires level + 1 < NUM_LEVELS
  {
    exists closed ::
      && AddedBoundaries(v[level], seed, closed) && BoundaryClosed(v[level], closed)
      && (exists lo, hi :: IsRange(closed, lo, hi) && in1 == Overlapping(v[level + 1], Some(lo), Some(hi)))
      && IsGrown(v, level, closed, in1, limit, in0)
  }

  lemma RangeIsUnique(files: seq<File>, lo: UserKey, hi: UserKey, lo': UserKey, hi': UserKey)
    requires IsRange(files, lo, hi) && IsRange(files, lo', hi')
    ensures lo == lo' && hi == hi'
  {
  }

  lemma GrowsIff(v: Levels, level: nat, in0: seq<File>, in1: seq<File>, expanded: seq<File>, limit: nat, lo: UserKey,
                 hi: UserKey)
    requires level + 1 < NUM_LEVELS && IsRange(expanded, lo, hi)
    ensures Grows(v, level, in0, in1, expanded, limit) <==>
              && |expanded| > |in0| && TotalFileSize(in1) + TotalFileSize(expanded) < limit
              && |Overlapping(v[level + 1], Some(lo), Some(hi))| == |in1|
  {
    forall lo', hi' | IsRange(expanded, lo', hi')
      ensures lo' == lo && hi' == hi
    {
      RangeIsUnique(expanded, lo, hi, lo', hi');
    }
    hide IsRange, Overlapping, TotalFileSize;
  }

  lemma TooLargeToGrow(v: Levels, level: nat, in0: seq<File>, in1: seq<File>, expanded: seq<File>, limit: nat)
    requires level + 1 < NUM_LEVELS
    requires |expanded| <= |in0| || limit <= TotalFileSize(in1) + TotalFileSize(expanded)
    ensures !Grows(v, level, in0, in1, expanded, limit)
  {
  }

  /** The level-L files meeting the whole compaction's range, closed under boundary files. */
  method ExpandedInputs(v: Levels, level: nat, in0: seq<File>, in1: seq<File>) returns (expanded0: seq<File>)
    requires LevelInvariant(v) && level + 1 < NUM_LEVELS
    requires in0 != [] && forall f | f in in0 :: f in v[level]
    ensures forall f | f in in0 :: f in expanded0
    ensures forall f | f in expanded0 :: f in v[level]
    ensures OlderThanTheRest(v[level], expanded0) && (level > 0 ==> IsSlice(v[level], expanded0))
    ensures IsExpanded(v, level, in0, in1, expanded0)
  {
    hide NewerThan, Overlaps, Continues, BoundaryClosed;
    var allStart, allLimit := GetRange(in0 + in1);
    var overlapping, lo, hi := GetOverlappingInputs(v, level, Some(allStart), Some(allLimit));
    assert MeetRange(v, level, Some(allStart), Some(allLimit), overlapping);
    forall f | f in in0
      ensures f in overlapping
    {
      InsideRangeOverlaps(in0 + in1, allStart, allLimit, f);
      WiderOverlaps(f, Some(allStart), Some(allLimit), lo, hi);
    }
    assert in0[0] in overlapping;
    if level > 0 {
      OverlappingIsSlice(v[level], lo, hi);
    }
    assert ValidSeed(v, level, overlapping);
    expanded0 := AddBoundaryInputs(v[level], overlapping);
    BoundaryClosedSeed(v, level, overlapping, expanded0);
    forall f | f in in0
      ensures f in expanded0
    {
      assert f in overlapping;
    }
  }

  lemma InputsAreValid(v: Levels, level: nat, in0: seq<File>, in1: seq<File>, lo: UserKey, hi: UserKey)
    requires level + 1 < NUM_LEVELS
    requires in0 != [] && (forall f | f in in0 :: f in v[level]) && OlderThanTheRest(v[level], in0)
    requires IsRange(in0, lo, hi) && in1 == Overlapping(v[level + 1], Some(lo), Some(hi))
    ensures ValidInputs(v, level, in0, in1)
  {
  }

  /** SetupOtherInputs. The optional growth of the level-L inputs leaves the level-(L+1) inputs unchanged. */
  method SetupOtherInputs(v: Levels, level: nat, seed: seq<File>, expandedLimit: nat)
    returns (in0: seq<File>, in1: seq<File>, ghost closed: seq<File>)
    requires LevelInvariant(v) && ValidSeed(v, level, seed)
    ensures seed <= closed && BoundaryClosed(v[level], closed)
    ensures (forall f | f in closed :: f in in0) && (level > 0 ==> IsSlice(v[level], in0))
    ensures exists lo, hi :: IsRange(closed, lo, hi) && in1 == Overlapping(v[level + 1], Some(lo), Some(hi))
    ensures ValidInputs(v, level, in0, in1) && InputsFrom(v, level, seed, expandedLimit, in0, in1)
  {
    hide NewerThan, Overlaps, Continues, BoundaryClosed, LevelInvariant, ValidInputs, IsSlice, Ordered, ValidSeed,
         IsRange, Grows, IsExpanded, NextBoundary;
    SeedIsInLevel(v, level, seed);
    in0 := AddBoundaryInputs(v[level], seed);
    closed := in0;
    BoundaryClosedSeed(v, level, seed, closed);
    var smallest, largest := GetRange(in0);
    var inputs1, _, _ := GetOverlappingInputs(v, level + 1, Some(smallest), Some(largest));
    in1 := inputs1;
    InputsAreValid(v, level, in0, in1, smallest, largest);
    if in1 != [] {
      var grown, expanded := GrownInputs(v, level, in0, in1, smallest, largest, expandedLimit);
      if grown.Some? {
        in0 := grown.value;
      }
    }
  }

  /** The larger level-L inputs, if they are within the limit and change nothing in level L+1. */
  method GrownInputs(v: Levels, level: nat, in0: seq<File>, in1: seq<File>, smallest: UserKey, largest: UserKey,
                     expandedLimit: nat)
    returns (r: Option<seq<File>>, ghost expanded: seq<File>)
    requires LevelInvariant(v) && level + 1 < NUM_LEVELS && IsRange(in0, smallest, largest)
    requires in0 != [] && forall f | f in in0 :: f in v[level]
    requires in1 == Overlapping(v[level + 1], Some(smallest), Some(largest))
    ensures IsExpanded(v, level, in0, in1, expanded)
    ensures r == if Grows(v, level, in0, in1, expanded, expandedLimit) then Some(expanded) else None
    ensures r.Some? ==>
              && (forall f | f in in0 :: f in r.value) && (level > 0 ==> IsSlice(v[level], r.value))
              && ValidInputs(v, level, r.value, in1)
  {
    hide NewerThan, Overlaps, Continues, BoundaryClosed, LevelInvariant, ValidInputs, IsSlice, Ordered, Grows,
         IsExpanded;
    var expanded0 := ExpandedInputs(v, level, in0, in1);
    expanded := expanded0;
    var inputs1Size, expanded0Size := TotalFileSize(in1), TotalFileSize(expanded0);
    if |expanded0| > |in0| && inputs1Size + expanded0Size < expandedLimit {
      var newStart, newLimit := GetRange(expanded0);
      var expanded1, _, _ := GetOverlappingInputs(v, level + 1, Some(newStart), Some(newLimit));
      GrowsIff(v, level, in0, in1, expanded0, expandedLimit, newStart, newLimit);
      if |expanded1| == |in1| {
        RangeCovered(in0, expanded0, smallest, largest, newStart, newLimit);
        OverlappingGrows(v[level + 1], Some(smallest), Some(largest), Some(newStart), Some(newLimit));
        InputsAreValid(v, level, expanded0, expanded1, newStart, newLimit);
        return Some(expanded0), expanded0;
      }
    } else {
      TooLargeToGrow(v, level, in0, in1, expanded0, expandedLimit);
    }
    return None, expanded0;
  }

  /** The inputs come from one file, with the least closed range around it at level 0. */
  ghost predicate PickedFrom(v: Levels, level: nat, f: File, expandedLimit: nat, in0: seq<File>, in1: seq<File>)
    requires level + 1 < NUM_LEVELS
  {
    exists seed ::
      && (if level > 0 then seed == [f]
          else MeetRange(v, 0, Some(f.Smallest().userKey), Some(f.Largest().userKey), seed))
      && InputsFrom(v, level, seed, expandedLimit, in0, in1)
  }

  /** PickCompaction, from the file chosen by size or by seeks. */
  method PickCompaction(v: Levels, level: nat, index: nat, expandedLimit: nat) returns (in0: seq<File>, in1: seq<File>)
    requires LevelInvariant(v) && level + 1 < NUM_LEVELS && index < |v[level]|
    ensures ValidInputs(v, level, in0, in1) && v[level][index] in in0
    ensures level > 0 ==> IsSlice(v[level], in0)
    ensures PickedFrom(v, level, v[level][index], expandedLimit, in0, in1)
  {
    var f := v[level][index];
    var seed := [f];
    if level == 0 {
      var smallest, largest := GetRange(seed);
      ghost var lo, hi;
      seed, lo, hi := GetOverlappingInputs(v, 0, Some(smallest), Some(largest));
      assert MeetRange(v, 0, Some(f.Smallest().userKey), Some(f.Largest().userKey), seed);
      assert Overlaps(f, lo, hi) by { UserKeysAscend(f); }
      assert f in seed;
    } else {
      assert SliceAt(v[level], seed, index, index + 1);
    }
    ghost var closed;
    in0, in1, closed := SetupOtherInputs(v, level, seed, expandedLimit);
    assert f in seed && f in closed;
    assert level > 0 ==> seed == [f];
  }

  lemma NothingMeetsIsClosed(files: seq<File>, lo: Bound, hi: Bound)
    requires forall f | f in files :: !Overlaps(f, lo, hi)
    ensures ClosedUnderOverlap(files, lo, hi)
  {
  }

  /** The shortest non-empty beginning of the files whose sizes reach the limit, or all of them. */
  ghost predicate IsCut(files: seq<File>, limit: nat, r: seq<File>) {
    && r <= files
    && (r != [] ==> |r| == 1 || TotalFileSize(r[..|r| - 1]) < limit)
    && (r == files || (r != [] && limit <= TotalFileSize(r)))
  }

  lemma {:induction false} TotalGrows(files: seq<File>, n: nat)
    requires n < |files|
    ensures TotalFileSize(files[..n + 1]) == TotalFileSize(files[..n]) + files[n].fileSize
  {
    if n > 0 {
      TotalGrows(files[1..], n - 1);
      assert files[..n + 1][1..] == files[1..][..n] && files[..n][1..] == files[1..][..n - 1];
    }
  }

  method CutAtLimit(files: seq<File>, limit: nat) returns (r: seq<File>)
    ensures IsCut(files, limit, r) && (files != [] ==> r != [])
  {
    var total := 0;
    for i := 0 to |files|
      invariant total == TotalFileSize(files[..i]) && (i > 0 ==> total < limit)
    {
      TotalGrows(files, i);
      total := total + files[i].fileSize;
      if total >= limit {
        assert files[..i + 1][..i] == files[..i];
        return files[..i + 1];
      }
    }
    assert files[..|files|] == files;
    assert files != [] ==> TotalFileSize(files[..|files| - 1]) < limit by {
      if files != [] {
        TotalGrows(files, |files| - 1);
      }
    }
    return files;
  }

  /** What a manual compaction above level 0 takes of its level: consecutive files, those meeting the range up to the
      size limit among them. */
  ghost predicate ManualInputs(files: seq<File>, begin: Bound, end: Bound, limit: nat, in0: seq<File>) {
    && IsSlice(files, in0)
    && exists cut :: IsCut(Overlapping(files, begin, end), limit, cut) && forall f | f in cut :: f in in0
  }

  /** The inputs come from the files meeting the range, cut short by size above level 0. */
  ghost predicate ManualFrom(v: Levels, level: nat, begin: Bound, end: Bound, limit: nat, expandedLimit: nat,
                             in0: seq<File>, in1: seq<File>)
    requires level + 1 < NUM_LEVELS
  {
    exists seed ::
      && (if level > 0 then IsCut(Overlapping(v[level], begin, end), limit, seed)
          else MeetRange(v, 0, begin, end, seed))
      && InputsFrom(v, level, seed, expandedLimit, in0, in1)
  }

  lemma NoneMeets(v: Levels, level: nat, begin: Bound, end: Bound, inputs: seq<File>)
    requires level < NUM_LEVELS && MeetRange(v, level, begin, end, inputs)
    ensures inputs == [] <==> forall f | f in v[level] :: !Overlaps(f, begin, end)
  {
    hide Overlaps, ClosedUnderOverlap;
    var lo, hi :| inputs == Overlapping(v[level], lo, hi) && Covers(lo, hi, begin, end)
      && ((lo == begin && hi == end) || Least(v[level], begin, end, lo, hi));
    if f :| f in v[level] && Overlaps(f, begin, end) {
      WiderOverlaps(f, begin, end, lo, hi);
      assert f in inputs;
    }
    assert inputs != [] ==> inputs[0] in inputs;
    if forall f | f in v[level] :: !Overlaps(f, begin, end) {
      NothingMeetsIsClosed(v[level], begin, end);
      LeastIsInside(v[level], begin, end, lo, hi);
      MembersMeet(v[level], begin, end, lo, hi);
    }
  }

  lemma LeastIsInside(files: seq<File>, begin: Bound, end: Bound, lo: Bound, hi: Bound)
    requires (lo == begin && hi == end) || Least(files, begin, end, lo, hi)
    requires ClosedUnderOverlap(files, begin, end)
    ensures Covers(begin, end, lo, hi)
  {
    hide ClosedUnderOverlap;
    assert Covers(begin, end, begin, end);
  }

  lemma MembersMeet(files: seq<File>, lo: Bound, hi: Bound, lo': Bound, hi': Bound)
    requires Covers(lo, hi, lo', hi')
    ensures forall f | f in Overlapping(files, lo', hi') :: f in files && Overlaps(f, lo, hi)
  {
  }

  /** CompactRange: a manual compaction of [begin, end], cut short by size above level 0. */
  method CompactRange(v: Levels, level: nat, begin: Bound, end: Bound, limit: nat, expandedLimit: nat)
    returns (r: Option<(seq<File>, seq<File>)>)
    requires LevelInvariant(v) && level + 1 < NUM_LEVELS
    ensures r.None? <==> forall f | f in v[level] :: !Overlaps(f, begin, end)
    ensures r.Some? ==> ValidInputs(v, level, r.value.0, r.value.1)
    ensures r.Some? && level > 0 ==> ManualInputs(v[level], begin, end, limit, r.value.0)
    ensures r.Some? ==> ManualFrom(v, level, begin, end, limit, expandedLimit, r.value.0, r.value.1)
  {
    var inputs, lo, hi := GetOverlappingInputs(v, level, begin, end);
    assert MeetRange(v, level, begin, end, inputs);
    NoneMeets(v, level, begin, end, inputs);
    if inputs == [] {
      return None;
    }
    hide NewerThan, Ordered, BoundaryClosed, LevelInvariant, ValidInputs, Overlaps, IsCut, IsSlice, InputsFrom,
         MeetRange, Least;
    var seed := inputs;
    if level > 0 {
      OverlappingIsSlice(v[level], begin, end);
      seed := CutAtLimit(inputs, limit);
      CutIsPrefix(inputs, limit, seed);
      SliceTruncated(v[level], inputs, |seed|);
    }
    var in0, in1, closed := SetupOtherInputs(v, level, seed, expandedLimit);
    r := Some((in0, in1));
    assert forall f | f in seed :: f in closed;
  }

  lemma CutIsPrefix(files: seq<File>, limit: nat, r: seq<File>)
    requires IsCut(files, limit, r)
    ensures |r| <= |files| && r == files[..|r|]
  {
  }
}
