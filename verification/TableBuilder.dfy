/** Building a sorted table (table/table_builder.cc): data blocks are cut when they reach the block size, and the
    index entry of a block waits for the first key of the next. */
module TableBuilder {
  import opened InternalKeys
  import opened SnapshotReads
  import opened Comparator
  import opened Bloom
  import opened Table
  import FilterBlock

  datatype Rep = Rep(
    offset: nat,
    dataBlock: seq<TableEntry>,
    index: seq<IndexEntry>,
    file: map<nat, seq<TableEntry>>,
    lastKey: TableKey,
    numEntries: nat,
    pendingIndexEntry: bool,
    pendingHandle: nat)

  /** `r` has flushed `blocks` and is filling its data block. */
  ghost predicate Building(r: Rep, blocks: seq<DataBlock>) {
    && Ordered(blocks) && Stored(r.file, blocks) && (forall i | 0 <= i < |blocks| :: blocks[i].offset < r.offset)
    && Increasing(r.dataBlock) && (forall i | 0 <= i < |blocks| :: AllBefore(blocks[i].entries, r.dataBlock))
    && (r.numEntries == 0 <==> blocks == [] && r.dataBlock == [])
    && (if r.pendingIndexEntry then
          && r.dataBlock == [] && blocks != [] && |r.index| == |blocks| - 1
               && Indexed(r.index, blocks, |blocks| - 1, [])
          && r.pendingHandle == blocks[|blocks| - 1].offset && r.lastKey == LastKey(blocks[|blocks| - 1].entries)
        else
          && |r.index| == |blocks| && Indexed(r.index, blocks, |blocks|, r.dataBlock)
          && if r.dataBlock == [] then blocks == [] else r.lastKey == LastKey(r.dataBlock))
  }

  /** Everything added so far is at or before the last key. */
  lemma LastKeyIsLast(r: Rep, blocks: seq<DataBlock>, x: TableEntry)
    requires Building(r, blocks) && (InBlocks(blocks, x) || x in r.dataBlock)
    ensures x.key == r.lastKey || KeyBefore(x.key, r.lastKey)
  {
    hide KeyBefore, Indexed, Stored;
    if x in r.dataBlock {
    } else {
      var i :| 0 <= i < |blocks| && x in blocks[i].entries;
      if r.dataBlock != [] {
        assert AllBefore(blocks[i].entries, r.dataBlock);
        assert r.dataBlock[|r.dataBlock| - 1] in r.dataBlock;
      } else {
        var n := |blocks| - 1;
        assert blocks[n].entries[|blocks[n].entries| - 1] in blocks[n].entries;
        if i < n {
          LaterBlock(blocks, i, n, x, blocks[n].entries[|blocks[n].entries| - 1]);
        }
      }
    }
  }

  /** The state after adding an entry whose key comes after the last. */
  function Added(r: Rep, e: TableEntry, separator: TableKey): Rep {
    r.(dataBlock := r.dataBlock + [e],
       index := if r.pendingIndexEntry then r.index + [IndexEntry(separator, r.pendingHandle)] else r.index,
       lastKey := e.key, numEntries := r.numEntries + 1, pendingIndexEntry := false)
  }

  lemma AddedIsBuilding(r: Rep, blocks: seq<DataBlock>, e: TableEntry, separator: TableKey)
    requires Building(r, blocks) && (r.numEntries > 0 ==> KeyBefore(r.lastKey, e.key))
    requires r.pendingIndexEntry ==> Separates(r.lastKey, e.key, separator)
    ensures Building(Added(r, e, separator), blocks)
  {
    hide KeyBefore, Separates, Stored;
    var r' := Added(r, e, separator);
    forall x | InBlocks(blocks, x) || x in r.dataBlock
      ensures KeyBefore(x.key, e.key)
    {
      LastKeyIsLast(r, blocks, x);
      if x.key != r.lastKey {
        KeyBeforeIsTransitive(x.key, r.lastKey, e.key);
      }
    }
    assert forall i | 0 <= i < |r.dataBlock| :: r.dataBlock[i] in r.dataBlock;
    AddedIsBefore(blocks, r.dataBlock, e);
    AddedIsIndexed(r, blocks, e, separator);
    hide Ordered, Indexed;
  }

  lemma AddedIsBefore(blocks: seq<DataBlock>, es: seq<TableEntry>, e: TableEntry)
    requires forall i | 0 <= i < |blocks| :: AllBefore(blocks[i].entries, es)
    requires forall x | InBlocks(blocks, x) :: KeyBefore(x.key, e.key)
    ensures forall i | 0 <= i < |blocks| :: AllBefore(blocks[i].entries, es + [e])
  {
    hide KeyBefore;
    forall i, a | 0 <= i < |blocks| && a in blocks[i].entries
      ensures InBlocks(blocks, a)
    {
    }
  }

  lemma AddedIsIndexed(r: Rep, blocks: seq<DataBlock>, e: TableEntry, separator: TableKey)
    requires Building(r, blocks) && (r.pendingIndexEntry ==> Separates(r.lastKey, e.key, separator))
    ensures var r' := Added(r, e, separator);
            |r'.index| == |blocks| && Indexed(r'.index, blocks, |blocks|, r'.dataBlock)
  {
    hide KeyBefore, Separates, Stored, Ordered, AllBefore, Increasing;
    var r' := Added(r, e, separator);
    assert r.dataBlock != [] ==> r'.dataBlock[0] == r.dataBlock[0];
    assert r.dataBlock == [] ==> r'.dataBlock[0] == e;
    forall i: nat | i < |blocks|
      ensures IndexedAt(r'.index, blocks, r'.dataBlock, i)
    {
      NonEmptyBlock(r, blocks, i);
      assert i < |r.index| ==> r'.index[i] == r.index[i];
      assert i < |r.index| ==> IndexedAt(r.index, blocks, r.dataBlock, i);
    }
  }

  lemma NonEmptyBlock(r: Rep, blocks: seq<DataBlock>, i: nat)
    requires Building(r, blocks) && i < |blocks|
    ensures blocks[i].entries != []
  {
  }

  /** The state after writing out the data block. */
  function Flushed(r: Rep): Rep {
    r.(offset := r.offset + ENCODED_SIZE(r.dataBlock) + BLOCK_TRAILER_SIZE, dataBlock := [],
       file := r.file[r.offset := r.dataBlock],
       pendingIndexEntry := true, pendingHandle := r.offset)
  }

  lemma FlushedIsBuilding(r: Rep, blocks: seq<DataBlock>)
    requires Building(r, blocks) && r.dataBlock != []
    ensures Building(Flushed(r), blocks + [DataBlock(r.offset, r.dataBlock)])
  {
    hide KeyBefore, Separates, Increasing, AllBefore;
    var blocks' := blocks + [DataBlock(r.offset, r.dataBlock)];
    assert forall i | 0 <= i < |blocks| :: blocks'[i] == blocks[i];
    forall i: nat | i < |blocks|
      ensures IndexedAt(r.index, blocks', [], i)
    {
      assert IndexedAt(r.index, blocks, r.dataBlock, i);
      assert i + 1 < |blocks| ==> blocks'[i + 1] == blocks[i + 1];
    }
    assert Indexed(r.index, blocks', |blocks|, []);
    assert Ordered(blocks');
    assert Stored(Flushed(r).file, blocks');
    hide Ordered, Indexed, Stored;
    EmptyRun(blocks');
  }

  lemma EmptyRun(blocks: seq<DataBlock>)
    ensures Increasing([]) && forall i | 0 <= i < |blocks| :: AllBefore(blocks[i].entries, [])
  {
  }

  /** The filter builder has the keys of every block in the group of its offset, and those of the data block. */
  ghost predicate Filtered(groups: seq<seq<Bytes>>, keys: seq<Bytes>, r: Rep, blocks: seq<DataBlock>) {
    && |groups| == r.offset / FilterBlock.FILTER_BASE
    && Grouped(groups + [keys], blocks) && forall e | e in r.dataBlock :: e.key.user in keys
  }

  lemma FlushedIsFiltered(groups: seq<seq<Bytes>>, keys: seq<Bytes>, r: Rep, blocks: seq<DataBlock>,
                          groups': seq<seq<Bytes>>, keys': seq<Bytes>)
    requires Filtered(groups, keys, r, blocks) && (forall i | 0 <= i < |blocks| :: blocks[i].offset <= r.offset)
    requires |groups'| == Flushed(r).offset / FilterBlock.FILTER_BASE && groups <= groups'
    requires if |groups| == |groups'| then keys' == keys else keys' == [] && groups'[|groups|] == keys
    ensures Filtered(groups', keys', Flushed(r), blocks + [DataBlock(r.offset, r.dataBlock)])
  {
    var all, all' := groups + [keys], groups' + [keys'];
    assert forall g | 0 <= g < |all| :: all'[g] == all[g];
  }

  lemma MoreKeysFiltered(groups: seq<seq<Bytes>>, keys: seq<Bytes>, r: Rep, blocks: seq<DataBlock>, e: TableEntry,
                         separator: TableKey)
    requires Filtered(groups, keys, r, blocks)
    ensures Filtered(groups, keys + [e.key.user], Added(r, e, separator), blocks)
  {
    var all, all' := groups + [keys], groups + [keys + [e.key.user]];
    assert forall g | 0 <= g < |all| :: forall key | key in all[g] :: key in all'[g];
  }

  class TableBuilder {
    const blockSize: nat
    const filterBlock: FilterBlock.FilterBlockBuilder?
    var r: Rep
    ghost var blocks: seq<DataBlock>

    ghost predicate Valid()
      reads this, filterBlock
    {
      && Building(r, blocks)
      && (filterBlock != null ==> filterBlock.Valid() && Filtered(filterBlock.groups, filterBlock.keys, r, blocks))
    }

    /** What has been added so far. */
    ghost predicate Holds(x: TableEntry)
      reads this
    {
      InBlocks(blocks, x) || x in r.dataBlock
    }

    constructor (blockSize: nat, filterBlock: FilterBlock.FilterBlockBuilder?)
      requires filterBlock != null ==>
                 filterBlock.Valid() && filterBlock.keys == [] && filterBlock.groups == [] && filterBlock.filters == []
      ensures Valid() && this.filterBlock == filterBlock && this.blockSize == blockSize && forall x :: !Holds(x)
    {
      this.blockSize := blockSize;
      this.filterBlock := filterBlock;
      r := Rep(0, [], [], map[], TableKey([], 0), 0, false, 0);
      blocks := [];
    }

    /** One entry more; a data block ends with the entry that brings it to the block size. */
    method Add(key: TableKey, value: Bytes)
      requires Valid() && (r.numEntries > 0 ==> KeyBefore(r.lastKey, key))
      modifies this, filterBlock
      ensures Valid() && forall x :: Holds(x) <==> old(Holds(x)) || x == TableEntry(key, value)
      ensures var block := old(r.dataBlock) + [TableEntry(key, value)];
              if ENCODED_SIZE(block) >= blockSize
              then r.dataBlock == [] && blocks == old(blocks) + [DataBlock(old(r.offset), block)]
              else r.dataBlock == block && blocks == old(blocks)
    {
      hide Building, Filtered, KeyBefore, Separates, InBlocks;
      var e, separator := TableEntry(key, value), key;
      if r.pendingIndexEntry {
        separator := InternalSeparator(r.lastKey, key);
      }
      AddedIsBuilding(r, blocks, e, separator);
      if filterBlock != null {
        MoreKeysFiltered(filterBlock.groups, filterBlock.keys, r, blocks, e, separator);
        filterBlock.AddKey(key.user);
      }
      r := Added(r, e, separator);
      if ENCODED_SIZE(r.dataBlock) >= blockSize {
        Flush();
      }
    }

    method Flush()
      requires Valid()
      modifies this, filterBlock
      ensures Valid() && r.dataBlock == [] && forall x :: Holds(x) <==> old(Holds(x))
      ensures blocks == old(blocks) +
                if old(r.dataBlock) == [] then [] else [DataBlock(old(r.offset), old(r.dataBlock))]
    {
      if r.dataBlock == [] {
        return;
      }
      hide Filtered, KeyBefore, Separates, Ordered, Indexed, Stored, Increasing, AllBefore;
      ghost var block := DataBlock(r.offset, r.dataBlock);
      FlushedIsBuilding(r, blocks);
      MoreInBlocks(blocks, block);
      hide Building, InBlocks;
      if filterBlock != null {
        ghost var groups, keys := filterBlock.groups, filterBlock.keys;
        OffsetGrows(groups, keys, r, blocks);
        filterBlock.StartBlock(Flushed(r).offset);
        FlushedIsFiltered(groups, keys, r, blocks, filterBlock.groups, filterBlock.keys);
      }
      r := Flushed(r);
      blocks := blocks + [block];
    }

    /** The finished table holds everything added and nothing else. */
    method Finish() returns (t: Table)
      requires Valid()
      modifies this, filterBlock
      ensures IsTable(t, blocks) && forall x :: InBlocks(blocks, x) <==> old(Holds(x))
      ensures blocks == old(blocks) +
                if old(r.dataBlock) == [] then [] else [DataBlock(old(r.offset), old(r.dataBlock))]
    {
      Flush();
      var filters := None;
      ghost var groups := [];
      if filterBlock != null {
        ghost var before, keys := filterBlock.groups, filterBlock.keys;
        var result := filterBlock.Finish();
        filters, groups := Some(result), filterBlock.groups;
        FinishedGroups(before, keys, r, blocks, groups);
      }
      var index := r.index;
      if r.pendingIndexEntry {
        var successor := InternalSuccessor(r.lastKey);
        index := index + [IndexEntry(successor, r.pendingHandle)];
        FinishedIsTable(r, blocks, successor, filters, groups);
      } else {
        assert filters.Some? ==> Grouped(groups, blocks);
      }
      t := Table(index, r.file, filters);
    }
  }

  lemma FinishedGroups(before: seq<seq<Bytes>>, keys: seq<Bytes>, r: Rep, blocks: seq<DataBlock>,
                       groups: seq<seq<Bytes>>)
    requires Filtered(before, keys, r, blocks) && groups == (if keys == [] then before else before + [keys])
    requires forall i | 0 <= i < |blocks| :: blocks[i].entries != []
    ensures Grouped(groups, blocks)
  {
    var all := before + [keys];
    forall i | 0 <= i < |blocks|
      ensures blocks[i].offset / FilterBlock.FILTER_BASE < |groups|
      ensures forall e | e in blocks[i].entries :: e.key.user in groups[blocks[i].offset / FilterBlock.FILTER_BASE]
    {
      var g := blocks[i].offset / FilterBlock.FILTER_BASE;
      assert blocks[i].entries[0] in blocks[i].entries;
      assert blocks[i].entries[0].key.user in all[g];
      assert g < |groups| && groups[g] == all[g];
    }
  }

  lemma FinishedIsTable(r: Rep, blocks: seq<DataBlock>, successor: TableKey, filters: Option<seq<Filter>>,
                        groups: seq<seq<Bytes>>)
    requires Building(r, blocks) && r.pendingIndexEntry
    requires successor == r.lastKey || Before(r.lastKey.user, successor.user)
    requires filters.Some? ==> FilterBlock.Covers(filters.value, groups) && Grouped(groups, blocks)
    ensures IsTable(Table(r.index + [IndexEntry(successor, r.pendingHandle)], r.file, filters), blocks)
  {
    hide KeyBefore, Separates, Ordered, Stored, FilterBlock.Covers, Grouped;
    var index, n := r.index + [IndexEntry(successor, r.pendingHandle)], |blocks| - 1;
    forall i: nat | i < n
      ensures IndexedAt(index, blocks, [], i)
    {
      assert index[i] == r.index[i];
      assert IndexedAt(r.index, blocks, [], i);
    }
    assert index[n] == IndexEntry(successor, r.pendingHandle);
  }

  lemma MoreInBlocks(blocks: seq<DataBlock>, block: DataBlock)
    ensures forall x :: InBlocks(blocks + [block], x) <==> InBlocks(blocks, x) || x in block.entries
  {
    var blocks' := blocks + [block];
    assert blocks'[|blocks|] == block;
    assert forall i | 0 <= i < |blocks| :: blocks'[i] == blocks[i];
  }

  lemma OffsetGrows(groups: seq<seq<Bytes>>, keys: seq<Bytes>, r: Rep, blocks: seq<DataBlock>)
    requires Filtered(groups, keys, r, blocks)
    ensures |groups| <= Flushed(r).offset / FilterBlock.FILTER_BASE
  {
  }
}
