/** Point reads through memtable, immutable memtable and current version (db/db_impl.cc, Get; db/memtable.cc, Get). */
module Database {
  import opened InternalKeys
  import opened SnapshotReads
  import opened Versions

  /** A memtable's entries in the order its skip list keeps them. */
  type MemTable = seq<Entry>

  /** MemTable::Get: seek to the lookup key and check the user key of the entry found there. */
  method MemTableGet(table: MemTable, k: UserKey, s: SequenceNumber) returns (found: bool, r: Option<Bytes>)
    requires Sorted(table)
    ensures found <==> Newest(EntriesOf(table), k, s).Some?
    ensures found ==> r == Read(EntriesOf(table), k, s)
  {
    var hit := SeekEntry(table, LookupKey(k, s));
    ghost var p :| IsLowerBound(table, LookupKey(k, s), p) && hit == if p < |table| then Some(table[p]) else None;
    SeekFindsNewest(table, k, s, p);
    SortedIsDistinct(table);
    if hit.Some? && hit.value.key.userKey == k {
      NewestIs(EntriesOf(table), k, s, hit.value);
      match hit.value.key.valueType {
        case Value => return true, Some(hit.value.value);
        case Deletion => return true, None;
      }
    }
    NewestIsNone(EntriesOf(table), k, s);
    return false, None;
  }

  /** What a database holds, newest part first. */
  ghost function Everything(mem: MemTable, imm: Option<MemTable>, current: Levels): iset<Entry> {
    Contents(current) + (if imm.Some? then EntriesOf(imm.value) else iset{}) + EntriesOf(mem)
  }

  /** Each part holds newer writes than the parts searched after it. */
  ghost predicate NewestFirst(mem: MemTable, imm: Option<MemTable>, current: Levels) {
    && Sorted(mem) && (imm.Some? ==> Sorted(imm.value)) && LevelInvariant(current)
    && AllNewer(EntriesOf(mem), Contents(current))
    && (imm.Some? ==>
        AllNewer(EntriesOf(mem), EntriesOf(imm.value)) && AllNewer(EntriesOf(imm.value), Contents(current)))
  }

  /** DBImpl::Get returns what the reference read of everything together returns. */
  method Get(mem: MemTable, imm: Option<MemTable>, current: Levels, k: UserKey, snapshot: SequenceNumber)
    returns (r: Option<Bytes>)
    requires NewestFirst(mem, imm, current)
    ensures r == Read(Everything(mem, imm, current), k, snapshot)
  {
    ghost var below := Contents(current) + if imm.Some? then EntriesOf(imm.value) else iset{};
    ContentsDistinct(current);
    SortedIsDistinct(mem);
    if imm.Some? {
      SortedIsDistinct(imm.value);
      NewestOnTop(Contents(current), EntriesOf(imm.value), k, snapshot);
    } else {
      assert below == Contents(current);
    }
    assert Distinct(below);
    NewestOnTop(below, EntriesOf(mem), k, snapshot);
    var found;
    found, r := MemTableGet(mem, k, snapshot);
    if found {
      return;
    }
    if imm.Some? {
      found, r := MemTableGet(imm.value, k, snapshot);
      if found {
        return;
      }
    }
    found, r := Versions.Get(current, k, snapshot);
  }
}
