/** What a user's cursor walks over (db/db_iter.cc over db/write_batch.cc): the map that the operations leave, in the
    order of its keys. */
module UserCursors {
  import opened InternalKeys
  import opened SnapshotReads
  import opened Versions
  import opened Comparator
  import opened DbIterator
  import opened Operations
  import Database
  import Durability
  import DurabilityProofs
  import Runs
  import Cursors
  import CommitPath

  /** The user entries of `merged` at the snapshot are the map's keys in the comparator's order, with their values. */
  ghost predicate WalksMap(merged: seq<Entry>, snapshot: SequenceNumber, m: map<Bytes, Bytes>, keys: seq<Bytes>) {
    var ys := Yields(merged, snapshot);
    && |keys| == |ys|
    && (forall p | 0 <= p < |ys| ::
          && 0 <= ys[p] < |merged| && merged[ys[p]].key.userKey == Rank(keys[p])
          && keys[p] in m && merged[ys[p]].value == m[keys[p]])
    && (forall p, q | 0 <= p < q < |keys| :: Before(keys[p], keys[q]))
    && (forall key | key in m :: key in keys)
  }

  ghost predicate IsRank(ops: seq<Op>, u: UserKey) {
    exists i :: 0 <= i < |ops| && Rank(ops[i].key) == u
  }

  ghost function KeyWithRank(ops: seq<Op>, u: UserKey): (key: Bytes)
    requires IsRank(ops, u)
    ensures Rank(key) == u
  {
    var i :| 0 <= i < |ops| && Rank(ops[i].key) == u;
    ops[i].key
  }

  /** What can be read is the key of an operation. */
  lemma OnlyOpsAreRead(ops: seq<Op>, u: UserKey, s: int)
    requires 1 + |ops| <= MAX_SEQUENCE && Read(EntriesOf(EntriesFrom(1, ops)), u, s).Some?
    ensures IsRank(ops, u)
  {
    var es := EntriesFrom(1, ops);
    var e := Newest(EntriesOf(es), u, s).value;
    var i :| 0 <= i < |es| && es[i] == e;
    assert es[i] == EntryOf(ops[i], 1 + i);
  }

  lemma WalkOfOps(merged: seq<Entry>, snapshot: SequenceNumber, ops: seq<Op>) returns (keys: seq<Bytes>)
    requires 1 + |ops| <= MAX_SEQUENCE && snapshot == |ops|
    requires Cursors.Walks(merged, snapshot, EntriesOf(EntriesFrom(1, ops)))
    ensures WalksMap(merged, snapshot, Replay(ops), keys)
  {
    hide Read, EntriesFrom, EntriesOf, Yields, Rank, Replay, Before;
    var ys, es := Yields(merged, snapshot), EntriesOf(EntriesFrom(1, ops));
    forall p | 0 <= p < |ys|
      ensures 0 <= ys[p] < |merged| && IsRank(ops, merged[ys[p]].key.userKey)
    {
      OnlyOpsAreRead(ops, merged[ys[p]].key.userKey, snapshot);
    }
    keys := seq(|ys|, p requires 0 <= p < |ys| => KeyWithRank(ops, merged[ys[p]].key.userKey));
    forall p | 0 <= p < |ys|
      ensures keys[p] in Replay(ops) && merged[ys[p]].value == Replay(ops)[keys[p]]
    {
      ReadsReplay(ops, keys[p], snapshot);
    }
    forall p, q | 0 <= p < q < |keys|
      ensures Before(keys[p], keys[q])
    {
      RankEmbeds(keys[p], keys[q]);
    }
    forall key | key in Replay(ops)
      ensures key in keys
    {
      var p := KeyPlace(merged, snapshot, ops, key);
      RankEmbeds(keys[p], key);
    }
  }

  lemma KeyPlace(merged: seq<Entry>, snapshot: SequenceNumber, ops: seq<Op>, key: Bytes) returns (p: nat)
    requires 1 + |ops| <= MAX_SEQUENCE && snapshot == |ops| && key in Replay(ops)
    requires Cursors.Walks(merged, snapshot, EntriesOf(EntriesFrom(1, ops)))
    ensures p < |Yields(merged, snapshot)| && 0 <= Yields(merged, snapshot)[p] < |merged|
    ensures merged[Yields(merged, snapshot)[p]].key.userKey == Rank(key)
  {
    hide Read, EntriesFrom, EntriesOf, Yields, Rank, Replay;
    ReadsReplay(ops, key, snapshot);
    var ys := Yields(merged, snapshot);
    p :| 0 <= p < |ys| && 0 <= ys[p] < |merged| && merged[ys[p]].key.userKey == Rank(key);
  }

  /** In every running state, at every live snapshot, a cursor over all the database holds walks exactly the map that
      the operations logged up to the snapshot leave, in key order. */
  lemma CursorWalksTheMap(states: seq<Durability.State>, actions: seq<Durability.Action>, n: nat,
                          mem: Database.MemTable,
                          imm: Option<Database.MemTable>, merged: seq<Entry>, snapshot: SequenceNumber)
    returns (ops: seq<Op>, keys: seq<Bytes>)
    requires DurabilityProofs.Run(states, actions) && CommitPath.LogsOps(actions)
    requires n < |states| && states[n].memory.Some?
    requires var m := states[n].memory.value;
             && Runs.SkipLists(m, mem, imm) && Runs.IsLiveSnapshot(m, snapshot)
             && Sorted(merged) && forall e :: e in merged <==> e in Database.Everything(mem, imm, m.current)
    ensures 1 + |ops| <= MAX_SEQUENCE && states[n].history == EntriesFrom(1, ops) && snapshot <= |ops|
    ensures WalksMap(merged, snapshot, Replay(ops[..snapshot]), keys)
  {
    hide DurabilityProofs.Run, CommitPath.LogsOps, Runs.SkipLists, Database.Everything, Sorted, EntriesFrom, Replay;
    hide Cursors.Walks, WalksMap, Runs.IsLiveSnapshot;
    ops := CommitPath.HistoryIsOps(states, actions, n);
    Cursors.CursorWalksHistory(states, actions, n, mem, imm, merged, snapshot);
    CommitPath.PrefixOfOps(ops, snapshot);
    keys := WalkOfOps(merged, snapshot, ops[..snapshot]);
  }
}
