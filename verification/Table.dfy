/** Sorted tables: data blocks, an index of separators, filters, and the lookup through them
    (table/table_builder.cc, table/table.cc). Blocks are lists of entries, a handle is the offset of its block,
    and compression, checksums, footer and the block cache are left out. */
module Table {
  import opened InternalKeys
  import opened SnapshotReads
  import opened Comparator
  import opened Bloom
  import FilterBlock

  datatype TableEntry = TableEntry(key: TableKey, value: Bytes)

  datatype DataBlock = DataBlock(offset: nat, entries: seq<TableEntry>)

  datatype IndexEntry = IndexEntry(key: TableKey, handle: nat)

  /** `file` gives the block at each handle's offset. */
  datatype Table = Table(index: seq<IndexEntry>, file: map<nat, seq<TableEntry>>, filters: Option<seq<Filter>>)

  /** The size of a finished block with these entries. */
  const ENCODED_SIZE: seq<TableEntry> -> nat

  const BLOCK_TRAILER_SIZE: int := 5

  ghost predicate Increasing(es: seq<TableEntry>) {
    forall i, j | 0 <= i < j < |es| :: KeyBefore(es[i].key, es[j].key)
  }

  function LastKey(es: seq<TableEntry>): TableKey
    requires es != []
  {
    es[|es| - 1].key
  }

  /** Everything in the first run comes before everything in the second. */
  ghost predicate AllBefore(es: seq<TableEntry>, fs: seq<TableEntry>) {
    forall a, b | a in es && b in fs :: KeyBefore(a.key, b.key)
  }

  ghost predicate Ordered(blocks: seq<DataBlock>) {
    && (forall i | 0 <= i < |blocks| :: blocks[i].entries != [] && Increasing(blocks[i].entries))
    && (forall i, j | 0 <= i < j < |blocks| :: AllBefore(blocks[i].entries, blocks[j].entries)
         && blocks[i].offset < blocks[j].offset)
  }

  /** Index entry i points to block i and separates it from what follows. */
  ghost predicate IndexedAt(index: seq<IndexEntry>, blocks: seq<DataBlock>, next: seq<TableEntry>, i: nat)
    requires i < |index| && i < |blocks|
  {
    var following := if i + 1 < |blocks| then blocks[i + 1].entries else next;
    && blocks[i].entries != [] && index[i].handle == blocks[i].offset
    && following != [] && Separates(LastKey(blocks[i].entries), following[0].key, index[i].key)
  }

  ghost predicate Indexed(index: seq<IndexEntry>, blocks: seq<DataBlock>, n: nat, next: seq<TableEntry>) {
    n <= |index| && n <= |blocks| && forall i: nat | i < n :: IndexedAt(index, blocks, next, i)
  }

  ghost predicate Stored(file: map<nat, seq<TableEntry>>, blocks: seq<DataBlock>) {
    forall i | 0 <= i < |blocks| :: blocks[i].offset in file && file[blocks[i].offset] == blocks[i].entries
  }

  /** Every user key of a block is in the filter group of the block's offset. */
  ghost predicate Grouped(groups: seq<seq<Bytes>>, blocks: seq<DataBlock>) {
    forall i | 0 <= i < |blocks| ::
      && blocks[i].offset / FilterBlock.FILTER_BASE < |groups|
      && forall e | e in blocks[i].entries :: e.key.user in groups[blocks[i].offset / FilterBlock.FILTER_BASE]
  }

  /** A finished table of these blocks. */
  ghost predicate IsTable(t: Table, blocks: seq<DataBlock>) {
    && Ordered(blocks) && Stored(t.file, blocks) && |t.index| == |blocks|
    && (blocks != [] ==>
          var n := |blocks| - 1;
          && Indexed(t.index, blocks, n, []) && t.index[n].handle == blocks[n].offset
          && var last := LastKey(blocks[n].entries); t.index[n].key == last || Before(last.user, t.index[n].key.user))
    && (t.filters.Some? ==> exists groups :: FilterBlock.Covers(t.filters.value, groups) && Grouped(groups, blocks))
  }

  // ----- lookup -----

  /** The table holds `e`, the first entry of k's user key that is not before k. */
  ghost predicate IsMatch(blocks: seq<DataBlock>, k: TableKey, e: TableEntry) {
    InBlocks(blocks, e) && e.key.user == k.user && !KeyBefore(e.key, k)
  }

  ghost predicate InBlocks(blocks: seq<DataBlock>, e: TableEntry) {
    exists i :: 0 <= i < |blocks| && e in blocks[i].entries
  }

  ghost predicate IsNewestMatch(blocks: seq<DataBlock>, k: TableKey, e: TableEntry) {
    IsMatch(blocks, k, e) && forall x | IsMatch(blocks, k, x) :: x == e || KeyBefore(e.key, x.key)
  }

  /** Block::Iter::Seek: the first key not before the target. */
  function SeekKey(keys: seq<TableKey>, k: TableKey): (p: nat)
    ensures p <= |keys| && (p < |keys| ==> !KeyBefore(keys[p], k)) && forall i | 0 <= i < p :: KeyBefore(keys[i], k)
  {
    if keys == [] || !KeyBefore(keys[0], k) then 0
    else
      var p := SeekKey(keys[1..], k);
      assert forall i | 1 <= i < p + 1 :: keys[i] == keys[1..][i - 1];
      1 + p
  }

  function KeysOf(es: seq<TableEntry>): (ks: seq<TableKey>)
    ensures |ks| == |es| && forall i | 0 <= i < |es| :: ks[i] == es[i].key
  {
    seq(|es|, i requires 0 <= i < |es| => es[i].key)
  }

  function IndexKeys(index: seq<IndexEntry>): (ks: seq<TableKey>)
    ensures |ks| == |index| && forall i | 0 <= i < |index| :: ks[i] == index[i].key
  {
    seq(|index|, i requires 0 <= i < |index| => index[i].key)
  }

  /** Everything in a block whose index key is before k is before k. */
  lemma BlockBelow(t: Table, blocks: seq<DataBlock>, k: TableKey, j: nat, e: TableEntry)
    requires IsTable(t, blocks) && j < |blocks| && KeyBefore(t.index[j].key, k) && e in blocks[j].entries
    ensures KeyBefore(e.key, k)
  {
    var es, sep := blocks[j].entries, t.index[j].key;
    var last := LastKey(es);
    assert e.key == last || KeyBefore(e.key, last);
    TableShape(t, blocks);
    if j + 1 < |blocks| {
      NextAfter(blocks, j);
      SeparatorIsBetween(last, blocks[j + 1].entries[0].key, sep);
    }
    assert sep == last || KeyBefore(last, sep);
    hide IsTable;
    if sep != last {
      KeyBeforeIsTransitive(last, sep, k);
    }
    if e.key != last {
      KeyBeforeIsTransitive(e.key, last, k);
    }
  }

  lemma NextAfter(blocks: seq<DataBlock>, j: nat)
    requires Ordered(blocks) && j + 1 < |blocks|
    ensures blocks[j].entries != [] && blocks[j + 1].entries != []
    ensures KeyBefore(LastKey(blocks[j].entries), blocks[j + 1].entries[0].key)
  {
    assert AllBefore(blocks[j].entries, blocks[j + 1].entries);
    assert blocks[j].entries[|blocks[j].entries| - 1] in blocks[j].entries;
    assert blocks[j + 1].entries[0] in blocks[j + 1].entries;
  }

  /** With matches only beyond the block the index seek chose, the block's separator would carry k's user key, so
      it would be the block's own last key: a match in the block after all. */
  lemma MatchInChosenBlock(t: Table, blocks: seq<DataBlock>, k: TableKey, i: nat, e: TableEntry) returns (m: TableEntry)
    requires IsTable(t, blocks) && IsMatch(blocks, k, e)
    requires i <= |t.index| && (forall j | 0 <= j < i :: KeyBefore(t.index[j].key, k))
    requires i < |t.index| ==> !KeyBefore(t.index[i].key, k)
    ensures i < |blocks| && IsMatch(blocks, k, m) && m in blocks[i].entries
  {
    hide IsTable, Ordered, KeyBefore, Separates;
    var j :| 0 <= j < |blocks| && e in blocks[j].entries;
    TableShape(t, blocks);
    if j < i {
      BlockBelow(t, blocks, k, j, e);
    } else if j == i {
      m := e;
    } else {
      m := blocks[i].entries[|blocks[i].entries| - 1];
      FirstNotAfter(blocks, i + 1, j, e);
      SeparatorIsLast(t, blocks, k, i, e);
      assert m in blocks[i].entries;
    }
  }

  lemma TableShape(t: Table, blocks: seq<DataBlock>)
    requires IsTable(t, blocks)
    ensures Ordered(blocks) && |t.index| == |blocks|
    ensures forall i | 0 <= i < |blocks| :: blocks[i].entries != [] && Increasing(blocks[i].entries)
    ensures forall i | 0 <= i < |blocks| - 1 :: Separates(LastKey(blocks[i].entries), blocks[i + 1].entries[0].key,
              t.index[i].key)
  {
    hide Separates, Stored, Grouped, FilterBlock.Covers;
    forall i | 0 <= i < |blocks| - 1
      ensures Separates(LastKey(blocks[i].entries), blocks[i + 1].entries[0].key, t.index[i].key)
    {
      assert IndexedAt(t.index, blocks, [], i);
    }
  }

  /** A separator between k and a later entry of k's user key is its block's last key. */
  lemma SeparatorIsLast(t: Table, blocks: seq<DataBlock>, k: TableKey, i: nat, e: TableEntry)
    requires IsTable(t, blocks) && i + 1 < |blocks| && i < |t.index| && !KeyBefore(t.index[i].key, k)
             && e.key.user == k.user
    requires blocks[i + 1].entries != [] && (blocks[i + 1].entries[0].key == e.key
             || KeyBefore(blocks[i + 1].entries[0].key, e.key))
    ensures blocks[i].entries != [] && t.index[i].key == LastKey(blocks[i].entries)
            && LastKey(blocks[i].entries).user == k.user
  {
    TableShape(t, blocks);
    hide IsTable;
    var sep, first, es := t.index[i].key, blocks[i + 1].entries[0].key, blocks[i].entries;
    NextAfter(blocks, i);
    hide Ordered;
    SeparatorIsBetween(LastKey(es), first, sep);
    KeyBeforeIsStrict(sep, k);
    UserSqueezed(k, sep, first, e.key);
    BeforeIsStrict(sep.user, first.user);
  }

  lemma FirstNotAfter(blocks: seq<DataBlock>, i: nat, j: nat, e: TableEntry)
    requires Ordered(blocks) && i <= j < |blocks| && e in blocks[j].entries
    ensures blocks[i].entries != [] && (blocks[i].entries[0].key == e.key || KeyBefore(blocks[i].entries[0].key, e.key))
  {
    if i < j {
      assert AllBefore(blocks[i].entries, blocks[j].entries);
      assert blocks[i].entries[0] in blocks[i].entries;
    }
  }

  /** Keys between two keys of one user key have that user key. */
  lemma UserSqueezed(k: TableKey, sep: TableKey, first: TableKey, e: TableKey)
    requires k.user == e.user && (sep == k || KeyBefore(k, sep)) && KeyBefore(sep, first)
             && (first == e || KeyBefore(first, e))
    ensures sep.user == first.user == k.user
  {
    BeforeIsStrict(k.user, sep.user);
    BeforeIsStrict(k.user, first.user);
    if Before(k.user, sep.user) && Before(sep.user, first.user) {
      BeforeIsTransitive(k.user, sep.user, first.user);
    }
    BeforeIsStrict(sep.user, first.user);
  }

  /** The first entry of the chosen block not before k is the newest match, if there is any match. */
  lemma SeekFindsNewest(t: Table, blocks: seq<DataBlock>, k: TableKey, i: nat, p: nat, m: TableEntry)
    requires IsTable(t, blocks) && i < |blocks| && i < |t.index|
             && (forall j | 0 <= j < i :: KeyBefore(t.index[j].key, k))
    requires p <= |blocks[i].entries| && (p < |blocks[i].entries| ==> !KeyBefore(blocks[i].entries[p].key, k))
    requires forall q | 0 <= q < p :: KeyBefore(blocks[i].entries[q].key, k)
    requires IsMatch(blocks, k, m) && m in blocks[i].entries
    ensures p < |blocks[i].entries| && IsNewestMatch(blocks, k, blocks[i].entries[p])
  {
    hide IsTable, Ordered, KeyBefore;
    TableShape(t, blocks);
    var es := blocks[i].entries;
    var q :| 0 <= q < |es| && es[q] == m;
    assert p <= q;
    var e := es[p];
    assert e in blocks[i].entries;
    assert p < q ==> KeyBefore(e.key, m.key);
    KeyBeforeIsStrict(e.key, k);
    Sandwiched(k, e.key, m.key);
    assert IsMatch(blocks, k, e);
    forall x | IsMatch(blocks, k, x)
      ensures x == e || KeyBefore(e.key, x.key)
    {
      NewestAgainst(t, blocks, k, i, p, x);
    }
  }

  lemma NewestAgainst(t: Table, blocks: seq<DataBlock>, k: TableKey, i: nat, p: nat, x: TableEntry)
    requires IsTable(t, blocks) && i < |blocks| && (forall j | 0 <= j < i
             && j < |t.index| :: KeyBefore(t.index[j].key, k))
    requires p < |blocks[i].entries| && forall q | 0 <= q < p :: KeyBefore(blocks[i].entries[q].key, k)
    requires IsMatch(blocks, k, x)
    ensures x == blocks[i].entries[p] || KeyBefore(blocks[i].entries[p].key, x.key)
  {
    hide IsTable, KeyBefore, Ordered;
    TableShape(t, blocks);
    var es := blocks[i].entries;
    var j :| 0 <= j < |blocks| && x in blocks[j].entries;
    if j < i {
      BlockBelow(t, blocks, k, j, x);
    } else if i < j {
      LaterBlock(blocks, i, j, es[p], x);
    } else {
      var r :| 0 <= r < |es| && es[r] == x;
      assert p <= r;
    }
  }

  lemma LaterBlock(blocks: seq<DataBlock>, i: nat, j: nat, a: TableEntry, b: TableEntry)
    requires Ordered(blocks) && i < j < |blocks| && a in blocks[i].entries && b in blocks[j].entries
    ensures KeyBefore(a.key, b.key)
  {
    assert AllBefore(blocks[i].entries, blocks[j].entries);
  }

  lemma Sandwiched(k: TableKey, e: TableKey, m: TableKey)
    requires k.user == m.user && !KeyBefore(e, k) && (e == m || KeyBefore(e, m))
    ensures e.user == k.user
  {
    BeforeIsStrict(k.user, e.user);
  }

  lemma NewestIsUnique(blocks: seq<DataBlock>, k: TableKey, a: TableEntry, b: TableEntry)
    requires IsNewestMatch(blocks, k, a) && IsNewestMatch(blocks, k, b)
    ensures a == b
  {
    KeyBeforeIsStrict(a.key, b.key);
  }

  /** What a lookup may report. */
  ghost predicate Answers(blocks: seq<DataBlock>, k: TableKey, r: Option<TableEntry>) {
    && (forall e | IsNewestMatch(blocks, k, e) :: r == Some(e))
    && (r.Some? && r.value.key.user == k.user ==> IsNewestMatch(blocks, k, r.value))
  }

  lemma NoMatchAnswers(blocks: seq<DataBlock>, k: TableKey)
    requires forall e :: !IsMatch(blocks, k, e)
    ensures Answers(blocks, k, None)
  {
  }

  lemma BlockAnswers(t: Table, blocks: seq<DataBlock>, k: TableKey, i: nat, p: nat)
    requires IsTable(t, blocks) && i < |blocks| && i < |t.index|
    requires (forall j | 0 <= j < i :: KeyBefore(t.index[j].key, k)) && !KeyBefore(t.index[i].key, k)
    requires p <= |blocks[i].entries| && (p < |blocks[i].entries| ==> !KeyBefore(blocks[i].entries[p].key, k))
    requires forall q | 0 <= q < p :: KeyBefore(blocks[i].entries[q].key, k)
    ensures Answers(blocks, k, if p < |blocks[i].entries| then Some(blocks[i].entries[p]) else None)
  {
    hide IsTable, IsNewestMatch, KeyBefore;
    var es := blocks[i].entries;
    forall e | IsNewestMatch(blocks, k, e)
      ensures p < |es| && e == es[p]
    {
      NewestIsMatch(blocks, k, e);
      var m := MatchInChosenBlock(t, blocks, k, i, e);
      SeekFindsNewest(t, blocks, k, i, p, m);
      NewestIsUnique(blocks, k, e, es[p]);
    }
    if p < |es| && es[p].key.user == k.user {
      assert es[p] in blocks[i].entries;
      SeekFindsNewest(t, blocks, k, i, p, es[p]);
    }
  }

  lemma NewestIsMatch(blocks: seq<DataBlock>, k: TableKey, e: TableEntry)
    requires IsNewestMatch(blocks, k, e)
    ensures IsMatch(blocks, k, e)
  {
  }

  /** Table::InternalGet: one index seek, the filter, one block seek. It reports the newest match whenever the
      table holds a match, and no other entry of the user key. */
  method InternalGet(t: Table, policy: BloomFilterPolicy, k: TableKey, ghost blocks: seq<DataBlock>)
    returns (r: Option<TableEntry>)
    ensures IsTable(t, blocks) ==> Answers(blocks, k, r)
  {
    hide IsTable, Answers, KeyBefore;
    var i := SeekKey(IndexKeys(t.index), k);
    if i == |t.index| {
      if IsTable(t, blocks) {
        PastLastBlock(t, blocks, k);
      }
      return None;
    }
    var handle := t.index[i].handle;
    if t.filters.Some? {
      ghost var groups := GroupsOf(t, blocks);
      var may := FilterBlock.KeyMayMatch(policy, t.filters.value, handle, k.user, groups);
      if !may {
        if IsTable(t, blocks) {
          FilteredOut(t, blocks, k, i, groups);
        }
        return None;
      }
    }
    if IsTable(t, blocks) {
      HandleStored(t, blocks, i);
    }
    if handle !in t.file {
      return None;
    }
    var found := t.file[handle];
    var p := SeekKey(KeysOf(found), k);
    r := if p < |found| then Some(found[p]) else None;
    if IsTable(t, blocks) {
      BlockAnswers(t, blocks, k, i, p);
    }
  }

  lemma PastLastBlock(t: Table, blocks: seq<DataBlock>, k: TableKey)
    requires IsTable(t, blocks) && forall j | 0 <= j < |t.index| :: KeyBefore(t.index[j].key, k)
    ensures Answers(blocks, k, None)
  {
    forall e
      ensures !IsMatch(blocks, k, e)
    {
      if IsMatch(blocks, k, e) {
        var m := MatchInChosenBlock(t, blocks, k, |t.index|, e);
      }
    }
    NoMatchAnswers(blocks, k);
  }

  lemma HandleStored(t: Table, blocks: seq<DataBlock>, i: nat)
    requires IsTable(t, blocks) && i < |t.index|
    ensures i < |blocks| && t.index[i].handle == blocks[i].offset && blocks[i].offset in t.file
            && t.file[blocks[i].offset] == blocks[i].entries
  {
    assert i < |blocks| - 1 ==> IndexedAt(t.index, blocks, [], i);
  }

  /** The filter groups of a table with filters. */
  ghost function GroupsOf(t: Table, blocks: seq<DataBlock>): (groups: seq<seq<Bytes>>)
    ensures IsTable(t, blocks) && t.filters.Some? ==>
              FilterBlock.Covers(t.filters.value, groups) && Grouped(groups, blocks)
  {
    if IsTable(t, blocks) && t.filters.Some? then
      var groups :| FilterBlock.Covers(t.filters.value, groups) && Grouped(groups, blocks);
      groups
    else
      []
  }

  /** A filter rules a block out only when no match is in it. */
  lemma FilteredOut(t: Table, blocks: seq<DataBlock>, k: TableKey, i: nat, groups: seq<seq<Bytes>>)
    requires IsTable(t, blocks) && i < |t.index| && (forall j | 0 <= j < i :: KeyBefore(t.index[j].key, k))
             && !KeyBefore(t.index[i].key, k)
    requires t.filters.Some? && FilterBlock.Covers(t.filters.value, groups) && Grouped(groups, blocks)
    requires var g := t.index[i].handle / FilterBlock.FILTER_BASE; !(g < |groups| && k.user in groups[g])
    ensures Answers(blocks, k, None)
  {
    HandleStored(t, blocks, i);
    forall e
      ensures !IsMatch(blocks, k, e)
    {
      if IsMatch(blocks, k, e) {
        var m := MatchInChosenBlock(t, blocks, k, i, e);
      }
    }
    NoMatchAnswers(blocks, k);
  }
}
