/** Write batches: a header with sequence number and count, then one record per operation (db/write_batch.cc). */
module WriteBatch {
  import opened InternalKeys
  import opened SnapshotReads
  import opened Coding

  datatype Op = Put(key: Bytes, value: Bytes) | Delete(key: Bytes)

  const HEADER: int := 12
  const TYPE_DELETION: Byte := 0
  const TYPE_VALUE: Byte := 1

  function Record(op: Op): (b: Bytes)
    ensures 1 <= |b|
  {
    match op
    case Put(key, value) => [TYPE_VALUE] + LengthPrefixed(key) + LengthPrefixed(value)
    case Delete(key) => [TYPE_DELETION] + LengthPrefixed(key)
  }

  function Records(ops: seq<Op>): Bytes {
    if ops == [] then [] else Records(ops[..|ops| - 1]) + Record(ops[|ops| - 1])
  }

  lemma {:induction false} RecordsConcat(a: seq<Op>, b: seq<Op>)
    ensures Records(a + b) == Records(a) + Records(b)
  {
    hide Record;
    if b == [] {
      assert a + b == a;
    } else {
      assert (a + b)[..|a + b| - 1] == a + b[..|b| - 1];
      RecordsConcat(a, b[..|b| - 1]);
    }
  }

  /** Lengths are stored in 32 bits. */
  predicate Fits(op: Op) {
    |op.key| < TWO_TO_32 && (op.Put? ==> |op.value| < TWO_TO_32)
  }

  /** The bytes of a batch of these operations. */
  ghost predicate Encodes(rep: Bytes, ops: seq<Op>) {
    && HEADER <= |rep| && rep[HEADER..] == Records(ops)
    && |ops| < TWO_TO_32 && DecodeFixed32(rep[8..]) == |ops| && forall op | op in ops :: Fits(op)
  }

  datatype Status = OK | Corruption(reason: string)

  /** One decoded record and where the next one starts. */
  datatype Step = Step(op: Op, next: nat)

  /** Decodes the record at p; the reason of a failure is the source's. */
  method DecodeRecord(rep: Bytes, p: nat, ghost want: Op, ghost tail: Bytes) returns (status: Status, op: Op, next: nat)
    requires p < |rep|
    ensures status.OK? ==> p < next <= |rep|
    ensures rep[p..] == Record(want) + tail && Fits(want) ==> status.OK? && op == want && rep[next..] == tail
  {
    hide Record, LengthPrefixed, LengthPrefixedAt;
    if rep[p..] == Record(want) + tail && Fits(want) {
      RecordDecodes(rep, p, want, tail);
    }
    var tag := rep[p];
    op, next := Delete([]), p;
    if tag == TYPE_VALUE {
      var key := LengthPrefixedAt(rep, p + 1);
      status := Corruption("bad WriteBatch Put");
      if key.Some? {
        var value := LengthPrefixedAt(rep, key.value.next);
        if value.Some? {
          status, op, next := OK, Put(key.value.bytes, value.value.bytes), value.value.next;
        }
      }
    } else if tag == TYPE_DELETION {
      var key := LengthPrefixedAt(rep, p + 1);
      status := Corruption("bad WriteBatch Delete");
      if key.Some? {
        status, op, next := OK, Delete(key.value.bytes), key.value.next;
      }
    } else {
      status := Corruption("unknown WriteBatch tag");
    }
  }

  lemma RecordDecodes(rep: Bytes, p: nat, op: Op, tail: Bytes)
    requires p < |rep| && rep[p..] == Record(op) + tail && Fits(op)
    ensures op.Put? ==> rep[p] == TYPE_VALUE && LengthPrefixedAt(rep, p + 1).Some?
                        && var key := LengthPrefixedAt(rep, p + 1).value;
                           key.bytes == op.key && LengthPrefixedAt(rep, key.next).Some?
                           && var value := LengthPrefixedAt(rep, key.next).value;
                              value.bytes == op.value && rep[value.next..] == tail
    ensures op.Delete? ==> rep[p] == TYPE_DELETION && LengthPrefixedAt(rep, p + 1).Some?
                           && var key := LengthPrefixedAt(rep, p + 1).value;
                              key.bytes == op.key && rep[key.next..] == tail
  {
    hide LengthPrefixed, LengthPrefixedAt;
    assert rep[p] == Record(op)[0];
    var k := LengthPrefixed(op.key);
    match op {
      case Put(key, value) =>
        var v := LengthPrefixed(value);
        PrefixedThere(rep, p, [TYPE_VALUE], key, v + tail);
        PrefixedThere(rep, p, [TYPE_VALUE] + k, value, tail);
      case Delete(key) =>
        PrefixedThere(rep, p, [TYPE_DELETION], key, tail);
    }
  }

  lemma PrefixedThere(rep: Bytes, p: nat, front: Bytes, s: Bytes, tail: Bytes)
    requires p <= |rep| && rep[p..] == front + LengthPrefixed(s) + tail && |s| < TWO_TO_32
    ensures var next := p + |front| + |LengthPrefixed(s)|;
            next <= |rep| && LengthPrefixedAt(rep, p + |front|) == Some(Slice(s, next)) && rep[next..] == tail
  {
    hide LengthPrefixed, LengthPrefixedAt;
    assert rep[p..] == front + (LengthPrefixed(s) + tail);
    FrontHeld(rep, p, front, LengthPrefixed(s) + tail);
    LengthPrefixedFront(rep, p + |front|, s, tail);
  }

  /** The operations, numbered from `first` on, as the memtable receives them. */
  datatype Numbered = Numbered(sequence: nat, op: Op)

  function NumberFrom(first: nat, ops: seq<Op>): (r: seq<Numbered>)
    ensures |r| == |ops| && forall i | 0 <= i < |ops| :: r[i] == Numbered(first + i, ops[i])
  {
    seq(|ops|, i requires 0 <= i < |ops| => Numbered(first + i, ops[i]))
  }

  class WriteBatch {
    var rep: Bytes

    constructor ()
      ensures Encodes(rep, [])
    {
      rep := EncodeFixed64(0) + EncodeFixed32(0);
      new;
      Fixed32RoundTrip(0, []);
      assert rep[8..] == EncodeFixed32(0) + [];
    }

    predicate WellFormed()
      reads this
    {
      HEADER <= |rep|
    }

    function Count(): nat
      requires WellFormed()
      reads this
    {
      DecodeFixed32(rep[8..])
    }

    method SetCount(n: Word)
      requires WellFormed()
      modifies this
      ensures WellFormed() && Count() == n && rep[..8] == old(rep[..8]) && rep[HEADER..] == old(rep[HEADER..])
    {
      rep := rep[..8] + EncodeFixed32(n) + rep[HEADER..];
      Fixed32RoundTrip(n, rep[HEADER..]);
      assert rep[8..] == EncodeFixed32(n) + rep[HEADER..];
    }

    function Sequence(): nat
      requires WellFormed()
      reads this
    {
      DecodeFixed64(rep)
    }

    method SetSequence(s: DoubleWord)
      requires WellFormed()
      modifies this
      ensures WellFormed() && Sequence() == s && Count() == old(Count()) && rep[HEADER..] == old(rep[HEADER..])
    {
      rep := EncodeFixed64(s) + rep[8..];
      Fixed64RoundTrip(s, rep[8..]);
      assert rep[8..] == old(rep[8..]);
    }

    method PutOp(op: Op, ghost ops: seq<Op>)
      requires Encodes(rep, ops) && Fits(op) && |ops| + 1 < TWO_TO_32
      modifies this
      ensures Encodes(rep, ops + [op]) && rep[..8] == old(rep[..8])
    {
      hide Record, DecodeFixed32;
      SetCount(Count() + 1);
      HeaderKept(rep, Record(op));
      rep := rep + Record(op);
      assert (ops + [op])[..|ops|] == ops;
    }

    /** WriteBatchInternal::Append: the operations of `src` after those already there. */
    method Append(src: WriteBatch, ghost ops: seq<Op>, ghost more: seq<Op>)
      requires Encodes(rep, ops) && Encodes(src.rep, more) && |ops| + |more| < TWO_TO_32
      modifies this
      ensures Encodes(rep, ops + more)
    {
      hide Record, DecodeFixed32, Records;
      var appended := src.rep[HEADER..];
      SetCount(Count() + src.Count());
      HeaderKept(rep, appended);
      rep := rep + appended;
      RecordsConcat(ops, more);
    }

    /** Drives a handler over the records; on a batch it sees exactly the batch's operations, in order. */
    method Iterate(ghost ops: seq<Op>) returns (status: Status, seen: seq<Op>)
      ensures Encodes(rep, ops) ==> status == OK && seen == ops
    {
      hide Record, DecodeFixed32, Records;
      if |rep| < HEADER {
        return Corruption("malformed WriteBatch (too small)"), [];
      }
      ghost var expected := Encodes(rep, ops);
      var p: nat := HEADER;
      seen := [];
      RecordsFirst(ops);
      while p < |rep|
        invariant HEADER <= p <= |rep|
        invariant expected ==> |seen| <= |ops| && seen == ops[..|seen|] && rep[p..] == Records(ops[|seen|..])
      {
        ghost var rest := if expected then ops[|seen|..] else [];
        RecordsFirst(rest);
        ghost var want, tail := if rest == [] then Delete([]) else rest[0], if rest == [] then []
            else Records(rest[1..]);
        var step, op, next := DecodeRecord(rep, p, want, tail);
        if !step.OK? {
          return step, seen;
        }
        seen, p := seen + [op], next;
      }
      if expected {
        RecordsFirst(ops[|seen|..]);
      }
      if |seen| != Count() {
        return Corruption("WriteBatch has wrong count"), seen;
      }
      return OK, seen;
    }

    /** WriteBatchInternal::InsertInto: the memtable receives the operations under consecutive sequence numbers. */
    method InsertInto(ghost ops: seq<Op>) returns (status: Status, added: seq<Numbered>)
      requires WellFormed()
      ensures Encodes(rep, ops) ==> status == OK && added == NumberFrom(Sequence(), ops)
    {
      var seen;
      status, seen := Iterate(ops);
      added := NumberFrom(Sequence(), seen);
    }
  }

  lemma HeaderKept(a: Bytes, b: Bytes)
    requires HEADER <= |a|
    ensures DecodeFixed32((a + b)[8..]) == DecodeFixed32(a[8..])
    ensures (a + b)[HEADER..] == a[HEADER..] + b && (a + b)[..8] == a[..8]
  {
    assert (a + b)[8..] == a[8..] + b;
  }

  lemma {:induction false} RecordsFirst(ops: seq<Op>)
    ensures ops == [] ==> Records(ops) == []
    ensures ops != [] ==> Records(ops) == Record(ops[0]) + Records(ops[1..]) && Records(ops) != []
  {
    hide Record;
    if ops != [] {
      assert ops == [ops[0]] + ops[1..];
      RecordsConcat([ops[0]], ops[1..]);
      assert [ops[0]][..0] == [];
    }
  }
}
