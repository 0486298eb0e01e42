/** One compaction: the base-level test, the output split and the merge loop
    (db/version_set.cc, class Compaction; db/db_impl.cc, DoCompactionWork). */
module Compaction {
  import opened InternalKeys
  import opened SnapshotReads
  import opened Versions
  import opened Selection
  import opened DropRules

  predicate InRange(f: File, k: UserKey) {
    f.Smallest().userKey <= k <= f.Largest().userKey
  }

  /** No file two or more levels below `level` has a range holding `k`. */
  ghost predicate BaseLevel(v: Levels, level: nat, k: UserKey) {
    forall l, f | level + 2 <= l < NUM_LEVELS && f in v[l] :: !InRange(f, k)
  }

  ghost function BaseKeys(v: Levels, level: nat): iset<UserKey> {
    iset k | BaseLevel(v, level, k)
  }

  ghost function InputEntries(in0: seq<File>, in1: seq<File>): iset<Entry> {
    iset e | InLevel(in0, e) || InLevel(in1, e)
  }

  ghost function Flatten(outputs: seq<seq<Entry>>): seq<Entry> {
    if outputs == [] then [] else Flatten(outputs[..|outputs| - 1]) + outputs[|outputs| - 1]
  }

  /** The surviving entries among the first n of the merged input, in order. */
  ghost function Survivors(input: seq<Entry>, n: nat, smallest: SequenceNumber, base: iset<UserKey>): seq<Entry>
    requires n <= |input|
  {
    if n == 0 then []
    else if Survives(EntriesOf(input), input[n - 1], smallest, base) then
      Survivors(input, n - 1, smallest, base) + [input[n - 1]]
    else
      Survivors(input, n - 1, smallest, base)
  }

  /** In a sorted run an entry is hidden exactly when its predecessor is for the same key and old enough. */
  lemma HiddenByPredecessor(input: seq<Entry>, i: nat, smallest: SequenceNumber)
    requires Sorted(input) && i < |input|
    ensures Hidden(EntriesOf(input), input[i], smallest)
            <==> 0 < i && Visible(input[i - 1], input[i].key.userKey, smallest)
  {
    assert forall j | i < j < |input| :: Precedes(input[i], input[j]);
    if Hidden(EntriesOf(input), input[i], smallest) {
      var x :| x in EntriesOf(input) && Visible(x, input[i].key.userKey, smallest)
          && x.key.sequence > input[i].key.sequence;
      var j :| 0 <= j < |input| && input[j] == x;
      assert j == i - 1 || (Precedes(input[j], input[i - 1]) && Precedes(input[i - 1], input[i]));
    } else if 0 < i {
      assert Precedes(input[i - 1], input[i]);
      assert input[i - 1] in EntriesOf(input);
    }
  }

  // ----- where outputs end -----

  /** How many of the leading files end before the key. */
  ghost function EndBefore(files: seq<File>, key: InternalKey): (n: nat)
    ensures n <= |files|
  {
    if files == [] || !Less(files[0].Largest(), key) then 0 else 1 + EndBefore(files[1..], key)
  }

  lemma {:induction false} EndBeforeIs(files: seq<File>, key: InternalKey, n: nat)
    requires n <= |files| && (forall i | 0 <= i < n :: Less(files[i].Largest(), key))
    requires n < |files| ==> !Less(files[n].Largest(), key)
    ensures EndBefore(files, key) == n
  {
    if n > 0 {
      EndBeforeIs(files[1..], key, n - 1);
    }
  }

  /** What limits an output: the grandparent files it may pass over, and its size. */
  datatype Limits = Limits(grandparents: seq<File>, overlap: nat, fileSize: nat, encodedSize: seq<Entry> -> nat)

  /** The bytes of the grandparent files that end between two keys. */
  ghost function Spanned(lim: Limits, lo: InternalKey, hi: InternalKey): nat {
    var files := lim.grandparents;
    if EndBefore(files, lo) <= EndBefore(files, hi)
    then TotalFileSize(files[EndBefore(files, lo)..EndBefore(files, hi)]) else 0
  }

  /** Without its last entry the output is below the size limit, and it passes over few enough grandparent bytes. */
  ghost predicate Limited(lim: Limits, o: seq<Entry>) {
    && o != [] && (forall k | 0 < k < |o| :: lim.encodedSize(o[..k]) < lim.fileSize)
    && Spanned(lim, o[0].key, o[|o| - 1].key) <= lim.overlap
  }

  /** Why an output ended before the key: it was large enough, or too many grandparent bytes had been passed. */
  ghost predicate Ended(lim: Limits, o: seq<Entry>, passed: nat)
    requires passed <= |lim.grandparents|
  {
    lim.fileSize <= lim.encodedSize(o) || lim.overlap < TotalFileSize(lim.grandparents[..passed])
  }

  ghost predicate EndedBeforeNext(lim: Limits, o: seq<Entry>, next: seq<Entry>) {
    next != [] && Ended(lim, o, EndBefore(lim.grandparents, next[0].key))
  }

  /** Every output is within the limits, and none but the last ended early. */
  ghost predicate WellSplit(lim: Limits, outputs: seq<seq<Entry>>) {
    && (forall o | o in outputs :: Limited(lim, o))
    && forall j | 0 < j < |outputs| :: EndedBeforeNext(lim, outputs[j - 1], outputs[j])
  }

  /** The same with an open output, `passed` grandparents scanned and `overlapped` bytes counted. */
  ghost predicate Splitting(lim: Limits, outputs: seq<seq<Entry>>, builder: seq<Entry>, passed: nat, overlapped: nat) {
    && WellSplit(lim, outputs) && passed <= |lim.grandparents| && overlapped <= lim.overlap
    && overlapped <= TotalFileSize(lim.grandparents[..passed])
    && if builder == [] then outputs != [] ==> Ended(lim, outputs[|outputs| - 1], passed)
       else
         && Limited(lim, builder) && lim.encodedSize(builder) < lim.fileSize
         && var from := EndBefore(lim.grandparents, builder[0].key);
            && from <= passed && TotalFileSize(lim.grandparents[from..passed]) <= overlapped
            && (outputs != [] ==> Ended(lim, outputs[|outputs| - 1], from))
  }

  lemma {:induction false} TotalSizeConcat(a: seq<File>, b: seq<File>)
    ensures TotalFileSize(a + b) == TotalFileSize(a) + TotalFileSize(b)
  {
    if a == [] {
      assert a + b == b;
    } else {
      assert (a + b)[1..] == a[1..] + b;
      TotalSizeConcat(a[1..], b);
    }
  }

  lemma TotalSizeBetween(files: seq<File>, i: nat, j: nat, k: nat)
    requires i <= j <= k <= |files|
    ensures TotalFileSize(files[i..k]) == TotalFileSize(files[i..j]) + TotalFileSize(files[j..k])
    ensures TotalFileSize(files[..k]) == TotalFileSize(files[..j]) + TotalFileSize(files[j..k])
  {
    assert files[i..k] == files[i..j] + files[j..k] && files[..k] == files[..j] + files[j..k];
    TotalSizeConcat(files[i..j], files[j..k]);
    TotalSizeConcat(files[..j], files[j..k]);
  }

  /** The scan goes on to a key; the output has to end there if too many bytes have been counted. */
  lemma Scanned(lim: Limits, outputs: seq<seq<Entry>>, builder: seq<Entry>, passed: nat, overlapped: nat, now: nat,
                counted: nat)
    requires Splitting(lim, outputs, builder, passed, overlapped) && passed <= now <= |lim.grandparents|
    requires overlapped <= counted <= overlapped + TotalFileSize(lim.grandparents[passed..now])
    requires builder != [] ==> counted == overlapped + TotalFileSize(lim.grandparents[passed..now])
    ensures counted <= lim.overlap ==> Splitting(lim, outputs, builder, now, counted)
    ensures lim.overlap < counted && builder == [] ==> Splitting(lim, outputs, [], now, 0)
    ensures lim.overlap < counted && builder != [] ==> Splitting(lim, outputs + [builder], [], now, 0)
  {
    var files := lim.grandparents;
    TotalSizeBetween(files, 0, passed, now);
    if builder == [] {
      hide EndBefore, TotalFileSize, Limited, WellSplit;
      assert outputs != [] && Ended(lim, outputs[|outputs| - 1], passed) ==> Ended(lim, outputs[|outputs| - 1], now);
    } else {
      var from := EndBefore(files, builder[0].key);
      TotalSizeBetween(files, from, passed, now);
      hide EndBefore, TotalFileSize, Limited;
      Closed(lim, outputs, builder);
    }
  }

  lemma ScannedTo(files: seq<File>, input: seq<Entry>, i: nat, passed: nat, now: nat)
    requires Sorted(input) && i < |input| && passed <= now <= |files|
    requires passed == if i == 0 then 0 else EndBefore(files, input[i - 1].key)
    requires forall k | passed <= k < now :: Less(files[k].Largest(), input[i].key)
    requires now < |files| ==> !Less(files[now].Largest(), input[i].key)
    ensures EndBefore(files, input[i].key) == now
  {
    if 0 < i {
      assert Precedes(input[i - 1], input[i]);
      EndBeforeCounts(files, input[i - 1].key);
    }
    EndBeforeIs(files, input[i].key, now);
  }

  lemma {:induction false} EndBeforeCounts(files: seq<File>, key: InternalKey)
    ensures forall k | 0 <= k < EndBefore(files, key) :: Less(files[k].Largest(), key)
  {
    if files != [] && Less(files[0].Largest(), key) {
      EndBeforeCounts(files[1..], key);
      assert forall k | 1 <= k < EndBefore(files, key) :: files[k] == files[1..][k - 1];
    }
  }

  lemma NothingSplit(lim: Limits)
    ensures Splitting(lim, [], [], 0, 0)
  {
  }

  lemma LastOutput(lim: Limits, outputs: seq<seq<Entry>>, builder: seq<Entry>, passed: nat, overlapped: nat)
    requires Splitting(lim, outputs, builder, passed, overlapped)
    ensures WellSplit(lim, if builder == [] then outputs else outputs + [builder])
  {
    hide WellSplit, Limited, EndBefore, TotalFileSize;
    if builder != [] {
      Closed(lim, outputs, builder);
    }
  }

  lemma Closed(lim: Limits, outputs: seq<seq<Entry>>, builder: seq<Entry>)
    requires WellSplit(lim, outputs) && Limited(lim, builder)
    requires outputs != [] ==> Ended(lim, outputs[|outputs| - 1], EndBefore(lim.grandparents, builder[0].key))
    ensures WellSplit(lim, outputs + [builder])
  {
    assert outputs != [] ==> EndedBeforeNext(lim, outputs[|outputs| - 1], builder);
    hide Limited, EndedBeforeNext;
  }

  /** A surviving entry is added, and the output ends if it is large enough. */
  lemma Added(lim: Limits, outputs: seq<seq<Entry>>, builder: seq<Entry>, passed: nat, overlapped: nat, e: Entry)
    requires Splitting(lim, outputs, builder, passed, overlapped) && passed == EndBefore(lim.grandparents, e.key)
    ensures var b := builder + [e];
            if lim.fileSize <= lim.encodedSize(b) then Splitting(lim, outputs + [b], [], passed, overlapped)
            else Splitting(lim, outputs, b, passed, overlapped)
  {
    var b := builder + [e];
    assert b[|b| - 1] == e && b[0] == if builder == [] then e else builder[0];
    assert lim.grandparents[passed..passed] == [];
    assert Limited(lim, b) by {
      forall k | 0 < k < |b|
        ensures lim.encodedSize(b[..k]) < lim.fileSize
      {
        assert b[..k] == if k < |builder| then builder[..k] else builder;
      }
    }
    hide Limited, EndBefore, TotalFileSize;
    Closed(lim, outputs, b);
  }

  class CompactionState {
    const version: Levels
    const level: nat
    const grandparents: seq<File>
    const maxGrandParentOverlap: nat
    const maxOutputFileSize: nat
    const levelPtrs: array<nat>
    var grandparentIndex: nat
    var seenKey: bool
    var overlappedBytes: nat

    constructor (version: Levels, level: nat, grandparents: seq<File>, maxGrandParentOverlap: nat,
        maxOutputFileSize: nat)
      requires LevelInvariant(version) && level + 1 < NUM_LEVELS
      ensures this.version == version && this.level == level && this.grandparents == grandparents
      ensures fresh(levelPtrs)
      ensures Valid() && AtStart()
    {
      this.version, this.level, this.grandparents := version, level, grandparents;
      this.maxGrandParentOverlap, this.maxOutputFileSize := maxGrandParentOverlap, maxOutputFileSize;
      levelPtrs := new nat[NUM_LEVELS](_ => 0);
      grandparentIndex, seenKey, overlappedBytes := 0, false, 0;
    }

    ghost predicate PtrsValid()
      reads levelPtrs
    {
      && LevelInvariant(version) && level + 1 < NUM_LEVELS
      && levelPtrs.Length == NUM_LEVELS
      && (forall l | 0 <= l < NUM_LEVELS :: levelPtrs[l] <= |version[l]|)
    }

    ghost predicate Valid()
      reads this, levelPtrs
    {
      PtrsValid() && grandparentIndex <= |grandparents|
    }

    ghost predicate AtStart()
      requires levelPtrs.Length == NUM_LEVELS
      reads this, levelPtrs
    {
      && (forall l | 0 <= l < NUM_LEVELS :: levelPtrs[l] == 0)
      && grandparentIndex == 0 && !seenKey && overlappedBytes == 0
    }

    /** Every file a level pointer has moved past ends before `k`. */
    ghost predicate PassedBelow(k: UserKey)
      requires PtrsValid()
      reads levelPtrs
    {
      forall l, i | level + 2 <= l < NUM_LEVELS && 0 <= i < levelPtrs[l] :: version[l][i].Largest().userKey < k
    }

    /** The stateful scan answers like the stateless test, as long as keys do not decrease. */
    method IsBaseLevelForKey(k: UserKey) returns (isBase: bool)
      requires PtrsValid() && PassedBelow(k)
      modifies levelPtrs
      ensures PtrsValid() && PassedBelow(k)
      ensures isBase <==> BaseLevel(version, level, k)
    {
      for lvl := level + 2 to NUM_LEVELS
        invariant PtrsValid() && PassedBelow(k)
        invariant forall l, f | level + 2 <= l < lvl && f in version[l] :: !InRange(f, k)
      {
        var files := version[lvl];
        while levelPtrs[lvl] < |files|
          invariant PtrsValid() && PassedBelow(k)
          decreases |files| - levelPtrs[lvl]
        {
          var f := files[levelPtrs[lvl]];
          if k <= f.Largest().userKey {
            if k >= f.Smallest().userKey {
              assert InRange(f, k);
              return false;
            }
            break;
          }
          levelPtrs[lvl] := levelPtrs[lvl] + 1;
        }
        OutsideEveryFile(files, levelPtrs[lvl], k);
      }
      isBase := true;
    }

    /** ShouldStopBefore: closes the output once it overlaps too many grandparent bytes. */
    method ShouldStopBefore(key: InternalKey) returns (stop: bool)
      requires Valid()
      modifies this`grandparentIndex, this`seenKey, this`overlappedBytes
      ensures Valid() && seenKey
      ensures old(grandparentIndex) <= grandparentIndex
      ensures forall i | old(grandparentIndex) <= i < grandparentIndex :: Less(grandparents[i].Largest(), key)
      ensures grandparentIndex < |grandparents| ==> !Less(grandparents[grandparentIndex].Largest(), key)
      ensures var passed := old(overlappedBytes) +
                if old(seenKey) then TotalFileSize(grandparents[old(grandparentIndex)..grandparentIndex]) else 0;
              stop == (passed > maxGrandParentOverlap) && overlappedBytes == if stop then 0 else passed
    {
      ghost var start := grandparentIndex;
      assert grandparents[start..start] == [];
      while grandparentIndex < |grandparents| && Less(grandparents[grandparentIndex].Largest(), key)
        invariant Valid() && start <= grandparentIndex && seenKey == old(seenKey)
        invariant forall i | start <= i < grandparentIndex :: Less(grandparents[i].Largest(), key)
        invariant overlappedBytes == old(overlappedBytes) +
                    if seenKey then TotalFileSize(grandparents[start..grandparentIndex]) else 0
        decreases |grandparents| - grandparentIndex
      {
        TotalSizeAppend(grandparents[start..grandparentIndex], grandparents[grandparentIndex]);
        assert grandparents[start..grandparentIndex + 1] == grandparents[start..grandparentIndex]
               + [grandparents[grandparentIndex]];
        if seenKey {
          overlappedBytes := overlappedBytes + grandparents[grandparentIndex].fileSize;
        }
        grandparentIndex := grandparentIndex + 1;
      }
      seenKey := true;
      if overlappedBytes > maxGrandParentOverlap {
        overlappedBytes := 0;
        stop := true;
      } else {
        stop := false;
      }
    }

    /** The drop decision for one entry, given the previous entry of the merged input. */
    method ShouldDrop(ikey: InternalKey, lastSequenceForKey: SequenceNumber, smallestSnapshot: SequenceNumber)
      returns (drop: bool)
      requires PtrsValid() && PassedBelow(ikey.userKey)
      modifies levelPtrs
      ensures PtrsValid() && PassedBelow(ikey.userKey)
      ensures drop <==>
                || lastSequenceForKey <= smallestSnapshot
                || (ikey.valueType.Deletion? && ikey.sequence <= smallestSnapshot
                     && BaseLevel(version, level, ikey.userKey))
    {
      drop := false;
      if lastSequenceForKey <= smallestSnapshot {
        drop := true;
      } else if ikey.valueType.Deletion? && ikey.sequence <= smallestSnapshot {
        drop := IsBaseLevelForKey(ikey.userKey);
      }
    }

    /** DoCompactionWork's merge loop: the outputs, laid end to end, are the surviving entries in order. */
    method DoCompactionWork(input: seq<Entry>, smallestSnapshot: SequenceNumber, encodedSize: seq<Entry> -> nat)
      returns (outputs: seq<seq<Entry>>)
      requires Valid() && AtStart() && Sorted(input) && smallestSnapshot < MAX_SEQUENCE
      modifies this`grandparentIndex, this`seenKey, this`overlappedBytes, levelPtrs
      ensures Flatten(outputs) == Survivors(input, |input|, smallestSnapshot, BaseKeys(version, level))
      ensures WellSplit(Limits(grandparents, maxGrandParentOverlap, maxOutputFileSize, encodedSize), outputs)
    {
      hide LevelInvariant, Survives, Hidden, Flatten, Written, Splitting, WellSplit, EndBefore, TotalFileSize;
      ghost var lim := Limits(grandparents, maxGrandParentOverlap, maxOutputFileSize, encodedSize);
      NothingSplit(lim);
      ghost var base := BaseKeys(version, level);
      outputs := [];
      var builder: seq<Entry>, builderOpen := [], false;
      NothingWritten();
      var currentUserKey: UserKey, hasCurrentUserKey := 0.0, false;
      var lastSequenceForKey: SequenceNumber := MAX_SEQUENCE;
      var i := 0;
      while i < |input|
        invariant Valid() && i <= |input|
        invariant i < |input| ==> PassedBelow(input[i].key.userKey)
        invariant hasCurrentUserKey == (0 < i)
        invariant 0 < i ==>
                    currentUserKey == input[i - 1].key.userKey && lastSequenceForKey == input[i - 1].key.sequence
        invariant builderOpen <==> builder != []
        invariant Written(outputs, builder) == Survivors(input, i, smallestSnapshot, base)
        invariant Splitting(lim, outputs, builder, grandparentIndex, overlappedBytes)
        invariant seenKey == (0 < i) && (builder != [] ==> 0 < i)
        invariant grandparentIndex == if i == 0 then 0 else EndBefore(grandparents, input[i - 1].key)
      {
        var ikey := input[i].key;
        assert 0 < i ==> Precedes(input[i - 1], input[i]);
        ghost var passed, overlapped, seen := grandparentIndex, overlappedBytes, seenKey;
        var stop := ShouldStopBefore(ikey);
        ScannedTo(grandparents, input, i, passed, grandparentIndex);
        Scanned(lim, outputs, builder, passed, overlapped, grandparentIndex,
          overlapped + if seen then TotalFileSize(grandparents[passed..grandparentIndex]) else 0);
        if stop && builderOpen {
          FlattenAppend(outputs, builder);
          outputs, builder, builderOpen := outputs + [builder], [], false;
        }
        if !hasCurrentUserKey || ikey.userKey != currentUserKey {
          currentUserKey, hasCurrentUserKey := ikey.userKey, true;
          lastSequenceForKey := MAX_SEQUENCE;
        }
        var drop := ShouldDrop(ikey, lastSequenceForKey, smallestSnapshot);
        DropsWhatDies(input, i, smallestSnapshot, lastSequenceForKey, base);
        lastSequenceForKey := ikey.sequence;
        if !drop {
          builderOpen := true;
          WrittenGrows(outputs, builder, input[i]);
          Added(lim, outputs, builder, grandparentIndex, overlappedBytes, input[i]);
          builder := builder + [input[i]];
          if encodedSize(builder) >= maxOutputFileSize {
            FlattenAppend(outputs, builder);
            outputs, builder, builderOpen := outputs + [builder], [], false;
          }
        }
        assert i + 1 < |input| ==> Precedes(input[i], input[i + 1]);
        i := i + 1;
      }
      LastOutput(lim, outputs, builder, grandparentIndex, overlappedBytes);
      if builderOpen {
        FlattenAppend(outputs, builder);
        outputs := outputs + [builder];
      }
      AllWritten(outputs);
    }
  }

  lemma NothingWritten()
    ensures Written([], []) == []
  {
  }

  lemma AllWritten(outputs: seq<seq<Entry>>)
    ensures Written(outputs, []) == Flatten(outputs)
  {
  }

  /** The loop's one remembered sequence number decides rule (A). */
  lemma DropsWhatDies(input: seq<Entry>, i: nat, smallest: SequenceNumber, last: SequenceNumber, base: iset<UserKey>)
    requires Sorted(input) && i < |input| && smallest < MAX_SEQUENCE
    requires last == if 0 < i && input[i - 1].key.userKey == input[i].key.userKey then input[i - 1].key.sequence
             else MAX_SEQUENCE
    ensures Survives(EntriesOf(input), input[i], smallest, base)
            <==> !(last <= smallest) && !Obsolete(input[i], smallest, base)
  {
    HiddenByPredecessor(input, i, smallest);
  }

  /** The entries written so far, those of the open output included. */
  ghost function Written(outputs: seq<seq<Entry>>, builder: seq<Entry>): seq<Entry> {
    Flatten(outputs) + builder
  }

  lemma WrittenGrows(outputs: seq<seq<Entry>>, builder: seq<Entry>, e: Entry)
    ensures Written(outputs, builder + [e]) == Written(outputs, builder) + [e]
  {
  }

  lemma FlattenAppend(outputs: seq<seq<Entry>>, last: seq<Entry>)
    ensures Flatten(outputs + [last]) == Flatten(outputs) + last
    ensures Written(outputs + [last], []) == Written(outputs, last)
  {
    assert (outputs + [last])[..|outputs|] == outputs;
  }

  lemma TotalSizeAppend(files: seq<File>, f: File)
    ensures TotalFileSize(files + [f]) == TotalFileSize(files) + f.fileSize
  {
    if files != [] {
      TotalSizeAppend(files[1..], f);
      assert (files + [f])[1..] == files[1..] + [f];
    }
  }

  /** Once the pointed-at file of a sorted level starts after `k`, no file of the level holds `k`. */
  lemma OutsideEveryFile(files: seq<File>, p: nat, k: UserKey)
    requires p <= |files|
    requires forall i | 0 <= i < p :: files[i].Largest().userKey < k
    requires p < |files| ==> k < files[p].Smallest().userKey
    requires Ordered(files) || p == |files|
    ensures forall f | f in files :: !InRange(f, k)
  {
    forall f | f in files
      ensures !InRange(f, k)
    {
      var i :| 0 <= i < |files| && files[i] == f;
      if p < i {
        assert AllBefore(files[p], files[i]);
        assert Precedes(files[p].entries[0], files[i].entries[0]);
      }
    }
  }
}
