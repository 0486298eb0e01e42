/** The cursor over blocks found through an index (table/two_level_iterator.cc), for the blocks of a table and the
    files of a level (db/version_set.cc). Status is left out. */
module TwoLevelIterator {
  import opened InternalKeys
  import opened Versions
  import opened DbIterator
  import Coding

  type Store = map<Bytes, seq<Entry>>

  /** Block i of the index: what the block function opens for its handle. */
  function Block(index: seq<Entry>, store: Store, i: nat): seq<Entry>
    requires i < |index|
  {
    if index[i].value in store then store[index[i].value] else []
  }

  /** Blocks a to n - 1, one after the other. */
  function Span(index: seq<Entry>, store: Store, a: nat, n: nat): seq<Entry>
    requires a <= n <= |index|
  {
    if a == n then [] else Span(index, store, a, n - 1) + Block(index, store, n - 1)
  }

  function Upto(index: seq<Entry>, store: Store, n: nat): seq<Entry>
    requires n <= |index|
  {
    Span(index, store, 0, n)
  }

  function Flat(index: seq<Entry>, store: Store): seq<Entry> {
    Upto(index, store, |index|)
  }

  /** Index key i is not before any entry of block i, and before every entry of the later blocks. */
  ghost predicate SeparatesAt(index: seq<Entry>, store: Store, i: nat)
    requires i < |index|
  {
    && (forall e | e in Block(index, store, i) :: !Less(index[i].key, e.key))
    && (forall j, e | i < j < |index| && e in Block(index, store, j) :: Less(index[i].key, e.key))
  }

  ghost predicate IsLayout(index: seq<Entry>, store: Store) {
    && Sorted(index) && Sorted(Flat(index, store))
    && forall i: nat | i < |index| :: Sorted(Block(index, store, i)) && SeparatesAt(index, store, i)
  }

  lemma {:induction false} SpanSplits(index: seq<Entry>, store: Store, a: nat, m: nat, n: nat)
    requires a <= m <= n <= |index|
    ensures Span(index, store, a, n) == Span(index, store, a, m) + Span(index, store, m, n)
  {
    if m < n {
      SpanSplits(index, store, a, m, n - 1);
      hide Block;
    }
  }

  /** Block i lies in the flat list between the blocks before it and those behind it. */
  lemma BlockInFlat(index: seq<Entry>, store: Store, i: nat)
    requires i < |index|
    ensures Flat(index, store) == Upto(index, store, i) + Block(index, store, i) + Span(index, store, i + 1, |index|)
    ensures Upto(index, store, i + 1) == Upto(index, store, i) + Block(index, store, i)
  {
    SpanSplits(index, store, 0, i + 1, |index|);
    hide Block;
  }

  lemma EntryInFlat(index: seq<Entry>, store: Store, i: nat, k: nat)
    requires i < |index| && k < |Block(index, store, i)|
    ensures var at := |Upto(index, store, i)| + k;
            at < |Flat(index, store)| && Flat(index, store)[at] == Block(index, store, i)[k]
  {
    BlockInFlat(index, store, i);
    hide Flat, Upto, Block, Span;
  }

  lemma {:induction false} SpanHolds(index: seq<Entry>, store: Store, a: nat, n: nat, k: nat) returns (j: nat)
    requires a <= n <= |index| && k < |Span(index, store, a, n)|
    ensures a <= j < n && Span(index, store, a, n)[k] in Block(index, store, j)
  {
    hide Block;
    if k < |Span(index, store, a, n - 1)| {
      j := SpanHolds(index, store, a, n - 1, k);
    } else {
      j := n - 1;
    }
  }

  /** The index and the block agree on the place of a target in the flat list. */
  lemma SeekAgrees(index: seq<Entry>, store: Store, target: InternalKey, i: nat, k: nat)
    requires IsLayout(index, store) && IsLowerBound(index, target, i) && i < |index|
    requires IsLowerBound(Block(index, store, i), target, k)
    ensures IsLowerBound(Flat(index, store), target, |Upto(index, store, i)| + k)
  {
    BlockInFlat(index, store, i);
    EarlierAreLess(index, store, target, i);
    LaterAreNot(index, store, target, i);
    hide IsLayout, Flat, Upto, Block, Span;
    Around(Upto(index, store, i), Block(index, store, i), Span(index, store, i + 1, |index|), target, k);
  }

  lemma EarlierAreLess(index: seq<Entry>, store: Store, target: InternalKey, i: nat)
    requires IsLayout(index, store) && i <= |index| && (forall j | 0 <= j < i :: Less(index[j].key, target))
    ensures forall p | 0 <= p < |Upto(index, store, i)| :: Less(Upto(index, store, i)[p].key, target)
  {
    forall p | 0 <= p < |Upto(index, store, i)|
      ensures Less(Upto(index, store, i)[p].key, target)
    {
      var j := SpanHolds(index, store, 0, i, p);
      assert SeparatesAt(index, store, j);
    }
  }

  lemma LaterAreNot(index: seq<Entry>, store: Store, target: InternalKey, i: nat)
    requires IsLayout(index, store) && i < |index| && !Less(index[i].key, target)
    ensures var later := Span(index, store, i + 1, |index|); forall p | 0 <= p < |later| :: !Less(later[p].key, target)
  {
    var later := Span(index, store, i + 1, |index|);
    forall p | 0 <= p < |later|
      ensures !Less(later[p].key, target)
    {
      var j := SpanHolds(index, store, i + 1, |index|, p);
      assert SeparatesAt(index, store, i);
    }
  }

  lemma Around(before: seq<Entry>, b: seq<Entry>, after: seq<Entry>, target: InternalKey, k: nat)
    requires IsLowerBound(b, target, k)
    requires forall p | 0 <= p < |before| :: Less(before[p].key, target)
    requires forall p | 0 <= p < |after| :: !Less(after[p].key, target)
    ensures IsLowerBound(before + b + after, target, |before| + k)
  {
    hide Less;
  }

  /** The flat list ends behind the last block and grows by one block at a time. */
  lemma UptoGrows(index: seq<Entry>, store: Store, i: nat)
    requires i < |index|
    ensures |Upto(index, store, i + 1)| == |Upto(index, store, i)| + |Block(index, store, i)| <= |Flat(index, store)|
  {
    BlockInFlat(index, store, i);
    hide Flat, Upto, Block, Span;
  }

  lemma UptoEnds(index: seq<Entry>, store: Store)
    ensures |Upto(index, store, 0)| == 0 && Upto(index, store, |index|) == Flat(index, store)
  {
  }

  lemma LayoutIsSorted(index: seq<Entry>, store: Store)
    requires IsLayout(index, store)
    ensures Sorted(index) && forall i: nat | i < |index| :: Sorted(Block(index, store, i))
  {
  }

  class TwoLevelIter {
    const store: Store
    const indexIter: InternalIterator
    var dataIter: InternalIterator?
    var handle: Bytes
    /** The place in the flat list, its length when the cursor is not valid. */
    ghost var at: nat

    constructor (indexIter: InternalIterator, store: Store)
      requires IsLayout(indexIter.entries, store) && indexIter.Positioned()
      ensures this.indexIter == indexIter && this.store == store && dataIter == null
      ensures Refines() && !Valid()
    {
      this.indexIter, this.store := indexIter, store;
      dataIter, handle := null, [];
      at := |Flat(indexIter.entries, store)|;
    }

    predicate Valid()
      reads this, dataIter
    {
      dataIter != null && dataIter.Valid()
    }

    ghost predicate Ready()
      reads this, indexIter, dataIter
    {
      && IsLayout(indexIter.entries, store) && indexIter.Positioned()
      && (dataIter != null ==>
            && dataIter != indexIter && dataIter.Positioned()
            && dataIter.entries == if handle in store then store[handle] else [])
    }

    /** The data cursor is on the block of the index cursor, or both are off. */
    ghost predicate Matched()
      reads this, indexIter, dataIter
    {
      && Ready() && (dataIter != null <==> indexIter.Valid())
      && (dataIter != null ==> handle == indexIter.entries[indexIter.pos].value)
    }

    /** The fields stand for place `at` of the flat list. */
    ghost predicate Refines()
      reads this, indexIter, dataIter
    {
      && Ready()
      && var flat := Flat(indexIter.entries, store);
      && at <= |flat| && (Valid() <==> at < |flat|)
      && (Valid() ==> Matched() && at == |Upto(indexIter.entries, store, indexIter.pos)| + dataIter.pos
                      && dataIter.entries[dataIter.pos] == flat[at])
    }

    ghost function Data(): set<object>
      reads this
    {
      if dataIter == null then {} else {dataIter}
    }

    method InitDataBlock()
      requires Ready()
      modifies this`dataIter, this`handle
      ensures Matched() && (dataIter != null && dataIter != old(dataIter) ==> fresh(dataIter))
      ensures dataIter != null ==> dataIter.entries == Block(indexIter.entries, store, indexIter.pos)
    {
      hide IsLayout;
      if !indexIter.Valid() {
        dataIter := null;
      } else {
        var h := indexIter.entries[indexIter.pos].value;
        if dataIter == null || h != handle {
          dataIter := new InternalIterator(if h in store then store[h] else []);
          handle := h;
        }
      }
    }

    /** The data cursor stands before entry k of the flat list, perhaps at the end of an earlier block. */
    ghost predicate AheadIs(k: nat)
      reads this, indexIter, dataIter
    {
      && Matched()
      && if dataIter == null then k == |Flat(indexIter.entries, store)|
         else k == |Upto(indexIter.entries, store, indexIter.pos)| + dataIter.pos
    }

    /** The data cursor stands on entry k - 1 of the flat list, or off the front of the block behind it. */
    ghost predicate BehindIs(k: nat)
      reads this, indexIter, dataIter
    {
      && Matched()
      && if dataIter == null then k == 0
         else k == |Upto(indexIter.entries, store, indexIter.pos)| + if dataIter.Valid() then dataIter.pos + 1 else 0
    }

    lemma Found(k: nat)
      requires Valid() && Matched() && k == |Upto(indexIter.entries, store, indexIter.pos)| + dataIter.pos
      ensures k < |Flat(indexIter.entries, store)| && Flat(indexIter.entries, store)[k] ==
              dataIter.entries[dataIter.pos]
    {
      EntryInFlat(indexIter.entries, store, indexIter.pos, dataIter.pos);
    }

    lemma MatchedBlock()
      requires Matched() && dataIter != null
      ensures dataIter.entries == Block(indexIter.entries, store, indexIter.pos)
    {
    }

    method FirstOfNextBlock(ghost k: nat)
      requires AheadIs(k) && !Valid() && indexIter.Valid()
      modifies this`dataIter, this`handle, indexIter, Data()
      ensures AheadIs(k) && indexIter.pos == old(indexIter.pos) + 1
      ensures dataIter != null && dataIter != old(dataIter) ==> fresh(dataIter)
    {
      hide IsLayout, Upto, Flat, Block, Span;
      UptoEnds(indexIter.entries, store);
      UptoGrows(indexIter.entries, store, indexIter.pos);
      MatchedBlock();
      indexIter.Next();
      InitDataBlock();
      if dataIter != null {
        dataIter.SeekToFirst();
      }
    }

    method LastOfPrevBlock(ghost k: nat)
      requires BehindIs(k) && !Valid() && indexIter.Valid()
      modifies this`dataIter, this`handle, indexIter, Data()
      ensures BehindIs(k)
      ensures if old(indexIter.pos) == 0 then !indexIter.Valid()
              else indexIter.Valid() && indexIter.pos == old(indexIter.pos) - 1
      ensures dataIter != null && dataIter != old(dataIter) ==> fresh(dataIter)
    {
      hide IsLayout, Upto, Flat, Block, Span;
      UptoEnds(indexIter.entries, store);
      if indexIter.pos > 0 {
        UptoGrows(indexIter.entries, store, indexIter.pos - 1);
      }
      indexIter.Prev();
      InitDataBlock();
      if dataIter != null {
        dataIter.SeekToLast();
      }
    }

    /** From a data cursor that may have run off the end of its block to entry k of the flat list. */
    method SkipEmptyDataBlocksForward(ghost k: nat)
      requires AheadIs(k)
      modifies this, indexIter, Data()
      ensures Refines() && at == k && (dataIter != null && dataIter != old(dataIter) ==> fresh(dataIter))
    {
      hide IsLayout, Upto, Flat, Block, Span;
      while dataIter == null || !dataIter.Valid()
        invariant AheadIs(k) && (dataIter != null && dataIter != old(dataIter) ==> fresh(dataIter))
        decreases |indexIter.entries| - indexIter.pos, dataIter != null
      {
        if !indexIter.Valid() {
          dataIter := null;
          at := k;
          return;
        }
        FirstOfNextBlock(k);
      }
      at := k;
      Found(k);
    }

    /** From a data cursor that may have run off the front of its block to entry k - 1 of the flat list. */
    method SkipEmptyDataBlocksBackward(ghost k: nat)
      requires BehindIs(k)
      modifies this, indexIter, Data()
      ensures Refines() && at == (if k == 0 then |Flat(indexIter.entries, store)| else k - 1)
      ensures dataIter != null && dataIter != old(dataIter) ==> fresh(dataIter)
    {
      hide IsLayout, Upto, Flat, Block, Span;
      while dataIter == null || !dataIter.Valid()
        invariant BehindIs(k) && (dataIter != null && dataIter != old(dataIter) ==> fresh(dataIter))
        decreases if indexIter.Valid() then indexIter.pos + 1 else 0
      {
        if !indexIter.Valid() {
          dataIter := null;
          at := |Flat(indexIter.entries, store)|;
          return;
        }
        LastOfPrevBlock(k);
      }
      at := k - 1;
      Found(k - 1);
    }

    method Seek(target: InternalKey)
      requires Ready()
      modifies this, indexIter, Data()
      ensures Refines() && IsLowerBound(Flat(indexIter.entries, store), target, at)
      ensures dataIter != null && dataIter != old(dataIter) ==> fresh(dataIter)
    {
      hide IsLayout, Upto, Flat, Block, Sorted;
      ghost var index := indexIter.entries;
      ghost var k := |Flat(index, store)|;
      LayoutIsSorted(index, store);
      UptoEnds(index, store);
      indexIter.Seek(target);
      InitDataBlock();
      if dataIter != null {
        dataIter.Seek(target);
        SeekAgrees(index, store, target, indexIter.pos, dataIter.pos);
        UptoGrows(index, store, indexIter.pos);
        k := |Upto(index, store, indexIter.pos)| + dataIter.pos;
      } else {
        EarlierAreLess(index, store, target, |index|);
      }
      SkipEmptyDataBlocksForward(k);
    }

    method SeekToFirst()
      requires Ready()
      modifies this, indexIter, Data()
      ensures Refines() && at == 0
      ensures dataIter != null && dataIter != old(dataIter) ==> fresh(dataIter)
    {
      indexIter.SeekToFirst();
      InitDataBlock();
      if dataIter != null {
        dataIter.SeekToFirst();
      }
      SkipEmptyDataBlocksForward(0);
    }

    method SeekToLast()
      requires Ready()
      modifies this, indexIter, Data()
      ensures Refines()
      ensures var n := |Flat(indexIter.entries, store)|; at == if n == 0 then 0 else n - 1
      ensures dataIter != null && dataIter != old(dataIter) ==> fresh(dataIter)
    {
      hide IsLayout, Upto, Flat, Block, Span;
      ghost var index := indexIter.entries;
      UptoEnds(index, store);
      if index != [] {
        UptoGrows(index, store, |index| - 1);
      }
      indexIter.SeekToLast();
      InitDataBlock();
      if dataIter != null {
        dataIter.SeekToLast();
      }
      SkipEmptyDataBlocksBackward(|Flat(index, store)|);
    }

    method Next()
      requires Refines() && Valid()
      modifies this, indexIter, Data()
      ensures Refines() && at == old(at) + 1
      ensures dataIter != null && dataIter != old(dataIter) ==> fresh(dataIter)
    {
      dataIter.Next();
      SkipEmptyDataBlocksForward(at + 1);
    }

    method Prev()
      requires Refines() && Valid()
      modifies this, indexIter, Data()
      ensures Refines() && at == if old(at) == 0 then |Flat(indexIter.entries, store)| else old(at) - 1
      ensures dataIter != null && dataIter != old(dataIter) ==> fresh(dataIter)
    {
      dataIter.Prev();
      SkipEmptyDataBlocksBackward(at);
    }
  }

  // ----- the files of a level -----

  predicate Fits(f: File) {
    f.number < Coding.TWO_TO_64 && f.fileSize < Coding.TWO_TO_64
  }

  function FileHandle(f: File): Bytes
    requires Fits(f)
  {
    Coding.EncodeFixed64(f.number) + Coding.EncodeFixed64(f.fileSize)
  }

  /** LevelFileNumIterator: the largest key of each file with the file's handle. */
  function LevelIndex(files: seq<File>): seq<Entry>
    requires forall f | f in files :: Fits(f)
  {
    seq(|files|, i requires 0 <= i < |files| => Entry(files[i].Largest(), FileHandle(files[i])))
  }

  ghost predicate Opens(store: Store, files: seq<File>)
    requires forall f | f in files :: Fits(f)
  {
    forall f | f in files :: FileHandle(f) in store && store[FileHandle(f)] == f.entries
  }

  lemma LevelBlock(files: seq<File>, store: Store, i: nat)
    requires (forall f | f in files :: Fits(f)) && Opens(store, files) && i < |files|
    ensures LevelIndex(files)[i].key == files[i].Largest() && Block(LevelIndex(files), store, i) == files[i].entries
  {
    assert files[i] in files;
  }

  lemma LargestIsLast(f: File, e: Entry)
    requires e in f.entries
    ensures !Less(f.Largest(), e.key)
  {
    var last := f.entries[|f.entries| - 1];
    assert e == last || Precedes(e, last);
  }

  lemma LevelSeparates(files: seq<File>, store: Store, i: nat)
    requires (forall f | f in files :: Fits(f)) && Opens(store, files) && Ordered(files) && i < |files|
    ensures SeparatesAt(LevelIndex(files), store, i)
  {
    var index := LevelIndex(files);
    LevelBlock(files, store, i);
    forall e | e in Block(index, store, i)
      ensures !Less(index[i].key, e.key)
    {
      LargestIsLast(files[i], e);
    }
    forall j, e | i < j < |index| && e in Block(index, store, j)
      ensures Less(index[i].key, e.key)
    {
      LevelBlock(files, store, j);
      var last := files[i].entries[|files[i].entries| - 1];
      assert AllBefore(files[i], files[j]) && last in files[i].entries;
      assert Precedes(last, e);
    }
  }

  lemma {:induction false} LevelSpan(files: seq<File>, store: Store, n: nat)
    requires (forall f | f in files :: Fits(f)) && Opens(store, files) && Ordered(files) && n <= |files|
    ensures Sorted(Upto(LevelIndex(files), store, n))
    ensures forall e | e in Upto(LevelIndex(files), store, n) :: exists i :: 0 <= i < n && e in files[i].entries
    ensures forall i, e | 0 <= i < n && e in files[i].entries :: e in Upto(LevelIndex(files), store, n)
  {
    if n > 0 {
      LevelSpan(files, store, n - 1);
      LevelBlock(files, store, n - 1);
      var front, last := Upto(LevelIndex(files), store, n - 1), files[n - 1];
      forall a, b | a in front && b in last.entries
        ensures Precedes(a, b)
      {
        var i :| 0 <= i < n - 1 && a in files[i].entries;
        assert AllBefore(files[i], last);
      }
      assert Upto(LevelIndex(files), store, n) == front + last.entries;
    }
  }

  /** NewConcatenatingIterator walks exactly the entries of a sorted level, in order. */
  lemma LevelIsLayout(files: seq<File>, store: Store)
    requires (forall f | f in files :: Fits(f)) && Opens(store, files) && Ordered(files)
    ensures IsLayout(LevelIndex(files), store)
    ensures forall e :: e in Flat(LevelIndex(files), store) <==> InLevel(files, e)
  {
    var index := LevelIndex(files);
    LevelSpan(files, store, |files|);
    forall i: nat | i < |index|
      ensures Sorted(Block(index, store, i)) && SeparatesAt(index, store, i)
    {
      LevelBlock(files, store, i);
      LevelSeparates(files, store, i);
    }
    forall i, j | 0 <= i < j < |index|
      ensures Precedes(index[i], index[j])
    {
      assert AllBefore(files[i], files[j]);
      assert files[i].entries[|files[i].entries| - 1] in files[i].entries
             && files[j].entries[|files[j].entries| - 1] in files[j].entries;
    }
  }
}
