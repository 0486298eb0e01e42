/** Writing a block and reading it back. */
module BlockRoundTrip {
  import opened InternalKeys
  import opened Coding
  import opened BlockFormat
  import BlockBuilder
  import BlockReader

  method Build(entries: seq<Pair>, interval: nat) returns (block: Bytes, ghost layout: BlockReader.Layout)
    requires 1 <= interval
    ensures layout.entries == entries
    ensures |block| < TWO_TO_32 ==> IsBlock(block, entries, layout.shared, layout.marks)
  {
    hide IsBlock, BlockBuilder.BlockBuilder.Valid;
    var builder := new BlockBuilder.BlockBuilder(interval);
    for i := 0 to |entries|
      invariant builder.Valid() && fresh(builder) && builder.entries == entries[..i]
    {
      AddNext(builder, entries, i);
    }
    assert entries[..|entries|] == entries;
    layout := BlockReader.Layout(builder.entries, builder.shared, builder.marks);
    block := builder.Finish();
  }

  method AddNext(builder: BlockBuilder.BlockBuilder, entries: seq<Pair>, i: nat)
    requires builder.Valid() && i < |entries| && builder.entries == entries[..i]
    modifies builder
    ensures builder.Valid() && builder.entries == entries[..i + 1]
  {
    hide BlockBuilder.BlockBuilder.Valid;
    builder.Add(entries[i].key, entries[i].value);
    assert entries[..i + 1] == entries[..i] + [entries[i]];
  }

  /** Whatever the restart interval, iterating over a finished block that fits in 32 bits yields the entries added. */
  method RoundTrip(entries: seq<Pair>, interval: nat, less: (Bytes, Bytes) -> bool)
    returns (block: Bytes, found: seq<Pair>)
    requires 1 <= interval
    ensures |block| < TWO_TO_32 ==> found == entries
  {
    hide IsBlock;
    ghost var layout;
    block, layout := Build(entries, interval);
    found := [];
    var iter := BlockReader.NewIterator(block, less, layout);
    if iter == null {
      return;
    }
    found := ReadForward(iter);
  }

  method ReadForward(iter: BlockReader.BlockIter) returns (found: seq<Pair>)
    requires iter.Refines()
    modifies iter
    ensures iter.IsLaid() ==> found == iter.Entries()
  {
    hide IsBlock, Data, Compresses, IsMarks;
    found := [];
    iter.SeekToFirst();
    while iter.Valid()
      invariant iter.Refines() && (iter.IsLaid() ==> iter.at <= |iter.Entries()| && found == iter.Entries()[..iter.at])
      decreases if iter.Valid() then iter.restarts - iter.current else 0
    {
      if iter.IsLaid() {
        iter.RefinesMeans();
      }
      found := found + [Pair(iter.key, iter.data[iter.valueAt..iter.valueAt + iter.valueSize])];
      iter.Next();
    }
    if iter.IsLaid() {
      iter.RefinesMeans();
    }
  }
}
