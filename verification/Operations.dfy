/** What a user means by a list of operations, and that reading its entries says the same (db/write_batch.cc,
    MemTableInserter). The reference is a map: Put sets a key, Delete removes it. */
module Operations {
  import opened InternalKeys
  import opened SnapshotReads
  import opened Versions
  import opened HistoryReads
  import opened Comparator
  import WriteBatch
  import Runs

  type Op = WriteBatch.Op

  // ----- byte strings as ranks -----

  /** A user key's place among the reals under the bytewise comparator: its bytes plus one as digits to base 257. */
  function Rank(key: Bytes): (r: UserKey)
    ensures 0.0 <= r < 1.0
  {
    if key == [] then 0.0 else (key[0] as real + 1.0 + Rank(key[1..])) / 257.0
  }

  /** Ranks are ordered as the comparator orders keys. */
  lemma {:induction false} RankEmbeds(a: Bytes, b: Bytes)
    ensures Before(a, b) <==> Rank(a) < Rank(b)
    ensures a == b <==> Rank(a) == Rank(b)
  {
    BeforeIsStrict(a, b);
    if a != [] && b != [] {
      RankEmbeds(a[1..], b[1..]);
      DigitsDecide(a[0], b[0], Rank(a[1..]), Rank(b[1..]));
      assert a == [a[0]] + a[1..] && b == [b[0]] + b[1..];
    }
  }

  lemma DigitsDecide(a: Byte, b: Byte, x: real, y: real)
    requires 0.0 <= x < 1.0 && 0.0 <= y < 1.0
    ensures (a as real + 1.0 + x) / 257.0 < (b as real + 1.0 + y) / 257.0 <==> a < b || (a == b && x < y)
    ensures (a as real + 1.0 + x) / 257.0 == (b as real + 1.0 + y) / 257.0 <==> a == b && x == y
  {
    var p, q := a as real + 1.0 + x, b as real + 1.0 + y;
    assert p < q <==> a < b || (a == b && x < y);
    assert p / 257.0 < q / 257.0 <==> p < q;
  }

  // ----- the reference -----

  function Replay(ops: seq<Op>): map<Bytes, Bytes> {
    if ops == [] then map[]
    else
      var before := Replay(ops[..|ops| - 1]);
      match ops[|ops| - 1]
      case Put(key, value) => before[key := value]
      case Delete(key) => before - {key}
  }

  function ValueIn(m: map<Bytes, Bytes>, key: Bytes): Option<Bytes> {
    if key in m then Some(m[key]) else None
  }

  // ----- the entries of operations -----

  /** The memtable entry of an operation under its sequence number. */
  function EntryOf(op: Op, sequence: SequenceNumber): Entry {
    match op
    case Put(key, value) => Entry(InternalKey(Rank(key), sequence, Value), value)
    case Delete(key) => Entry(InternalKey(Rank(key), sequence, Deletion), [])
  }

  function EntriesFrom(first: nat, ops: seq<Op>): (r: seq<Entry>)
    requires first + |ops| <= MAX_SEQUENCE
    ensures |r| == |ops| && forall i | 0 <= i < |ops| :: r[i] == EntryOf(ops[i], first + i)
  {
    seq(|ops|, i requires 0 <= i < |ops| => EntryOf(ops[i], first + i))
  }

  lemma EntriesConcat(first: nat, a: seq<Op>, b: seq<Op>)
    requires first + |a| + |b| <= MAX_SEQUENCE
    ensures EntriesFrom(first, a + b) == EntriesFrom(first, a) + EntriesFrom(first + |a|, b)
  {
  }

  /** An entry tells its operation. */
  lemma EntryTellsOp(a: Op, b: Op, s: SequenceNumber)
    requires EntryOf(a, s) == EntryOf(b, s)
    ensures a == b
  {
    RankEmbeds(a.key, b.key);
  }

  lemma EntriesTellOps(first: nat, a: seq<Op>, b: seq<Op>)
    requires first + |a| <= MAX_SEQUENCE && first + |b| <= MAX_SEQUENCE
             && EntriesFrom(first, a) <= EntriesFrom(first, b)
    ensures a <= b
  {
    forall i | 0 <= i < |a|
      ensures a[i] == b[i]
    {
      assert EntriesFrom(first, a)[i] == EntriesFrom(first, b)[i];
      EntryTellsOp(a[i], b[i], first + i);
    }
  }

  // ----- reading them -----

  lemma NumberedEntries(ops: seq<Op>)
    requires 1 + |ops| <= MAX_SEQUENCE
    ensures Numbered(EntriesFrom(1, ops))
  {
  }

  /** A later entry of another key changes no read. */
  lemma OtherKeyUnread(es: seq<Entry>, e: Entry, k: UserKey, s: int)
    requires e.key.userKey != k && Distinct(EntriesOf(es)) && Distinct(EntriesOf(es + [e]))
    ensures Read(EntriesOf(es + [e]), k, s) == Read(EntriesOf(es), k, s)
  {
    var all, front := EntriesOf(es + [e]), EntriesOf(es);
    assert forall x :: IsNewest(all, k, s, x) <==> IsNewest(front, k, s, x);
    if x :| IsNewest(all, k, s, x) {
      NewestIs(all, k, s, x);
      NewestIs(front, k, s, x);
    }
  }

  /** A later entry of the key decides its read. */
  lemma LastEntryRead(es: seq<Entry>, e: Entry, s: int)
    requires Numbered(es + [e]) && |es| < s
    ensures Read(EntriesOf(es + [e]), e.key.userKey, s) == if e.key.valueType.Value? then Some(e.value) else None
  {
    var all := es + [e];
    NumberedIsDistinct(all);
    assert all[|es|] == e;
    forall x | x in EntriesOf(all) && Visible(x, e.key.userKey, s)
      ensures x.key.sequence <= e.key.sequence
    {
      var i :| 0 <= i < |all| && all[i] == x;
    }
    assert IsNewest(EntriesOf(all), e.key.userKey, s, e);
    NewestIs(EntriesOf(all), e.key.userKey, s, e);
  }

  lemma OneMore(ops: seq<Op>)
    requires ops != [] && 1 + |ops| <= MAX_SEQUENCE
    ensures EntriesFrom(1, ops) == EntriesFrom(1, ops[..|ops| - 1]) + [EntryOf(ops[|ops| - 1], |ops|)]
  {
  }

  lemma NothingToRead(k: UserKey, s: int)
    ensures Read(EntriesOf(EntriesFrom(1, [])), k, s) == None
  {
    NewestIsNone(EntriesOf(EntriesFrom(1, [])), k, s);
  }

  lemma OneMoreRead(es: seq<Entry>, op: Op, key: Bytes, s: int)
    requires |es| < MAX_SEQUENCE && |es| < s && Numbered(es) && Numbered(es + [EntryOf(op, |es| + 1)])
    ensures Read(EntriesOf(es + [EntryOf(op, |es| + 1)]), Rank(key), s) ==
            if op.key != key then Read(EntriesOf(es), Rank(key), s)
            else if op.Put? then Some(op.value) else None
  {
    var e := EntryOf(op, |es| + 1);
    RankEmbeds(key, op.key);
    hide Rank, Read, Numbered, Distinct, EntriesOf;
    if op.key == key {
      LastEntryRead(es, e, s);
    } else {
      NumberedIsDistinct(es);
      NumberedIsDistinct(es + [e]);
      OtherKeyUnread(es, e, Rank(key), s);
    }
  }

  /** Reading the entries of operations is looking into the map they leave. */
  lemma {:induction false} ReadsReplay(ops: seq<Op>, key: Bytes, s: int)
    requires 1 + |ops| <= MAX_SEQUENCE && |ops| <= s
    ensures Read(EntriesOf(EntriesFrom(1, ops)), Rank(key), s) == ValueIn(Replay(ops), key)
  {
    hide Rank, Read, Numbered, EntriesFrom, EntriesOf, EntryOf;
    if ops == [] {
      NothingToRead(Rank(key), s);
    } else {
      var front, op := ops[..|ops| - 1], ops[|ops| - 1];
      ReadsReplay(front, key, s);
      OneMore(ops);
      NumberedEntries(front);
      NumberedEntries(ops);
      OneMoreRead(EntriesFrom(1, front), op, key, s);
    }
  }

  /** At every snapshot a read sees the map that the operations up to the snapshot leave. */
  lemma SnapshotReadsReplay(ops: seq<Op>, key: Bytes, n: nat)
    requires 1 + |ops| <= MAX_SEQUENCE && n <= |ops|
    ensures Read(EntriesOf(EntriesFrom(1, ops)), Rank(key), n) == ValueIn(Replay(ops[..n]), key)
  {
    NumberedEntries(ops);
    Runs.LaterWritesInvisible(EntriesFrom(1, ops), n, Rank(key), n);
    assert EntriesFrom(1, ops)[..n] == EntriesFrom(1, ops[..n]);
    ReadsReplay(ops[..n], key, n);
  }
}
