/** Building a block: prefix compression with a restart every `interval` entries (table/block_builder.cc). */
module BlockBuilder {
  import opened InternalKeys
  import opened Coding
  import opened BlockFormat

  class BlockBuilder {
    const interval: nat
    var buffer: Bytes
    var restarts: seq<nat>
    var counter: nat
    var lastKey: Bytes
    ghost var entries: seq<Pair>
    ghost var shared: seq<nat>
    ghost var marks: seq<nat>

    ghost predicate Valid()
      reads this
    {
      1 <= interval && counter <= interval && Built(interval, buffer, restarts, counter, lastKey, entries, shared,
          marks)
    }

    constructor (interval: nat)
      requires 1 <= interval
      ensures Valid() && entries == [] && this.interval == interval
    {
      this.interval := interval;
      buffer, restarts, counter, lastKey := [], [0], 0, [];
      entries, shared, marks := [], [], [0];
    }

    /** A restart point is left exactly after every `interval` entries; otherwise the longest common prefix is
        dropped. */
    method Add(key: Bytes, value: Bytes)
      requires Valid()
      modifies this
      ensures Valid() && entries == old(entries) + [Pair(key, value)]
      ensures |marks| == old(|marks|) + if old(counter) == interval then 1 else 0
      ensures shared[|shared| - 1] == if old(counter) == interval then 0 else |CommonPrefix(old(lastKey), key)|
    {
      hide Built, EntryBytes, Varint, Truncated, CommonPrefix;
      ghost var e := Pair(key, value);
      var n := 0;
      if counter < interval {
        n := SharedLength(lastKey, key);
        AddsToRun(interval, buffer, restarts, counter, lastKey, entries, shared, marks, e, n);
      } else {
        AddsRestart(interval, buffer, restarts, counter, lastKey, entries, shared, marks, e);
        restarts := restarts + [|buffer|];
        marks := marks + [|entries|];
        counter := 0;
      }
      var nonShared := |key| - n;
      var shared32 := EncodeVarint32(Truncated(n));
      var nonShared32 := EncodeVarint32(Truncated(nonShared));
      var valueSize32 := EncodeVarint32(Truncated(|value|));
      EntryIs(shared32, nonShared32, valueSize32, e, n);
      buffer := buffer + (shared32 + nonShared32 + valueSize32 + key[n..] + value);
      lastKey := lastKey[..n] + key[n..];
      counter := counter + 1;
      entries, shared := entries + [e], shared + [n];
    }

    /** How much sharing to do with the previous key. */
    static method SharedLength(lastKey: Bytes, key: Bytes) returns (n: nat)
      ensures n == |CommonPrefix(lastKey, key)| && n <= |key| && n <= |lastKey| && key[..n] == lastKey[..n]
    {
      n := 0;
      var minLength := if |lastKey| < |key| then |lastKey| else |key|;
      while n < minLength && lastKey[n] == key[n]
        invariant n <= minLength && lastKey[..n] == key[..n]
        invariant |CommonPrefix(lastKey, key)| == n + |CommonPrefix(lastKey[n..], key[n..])|
      {
        n := n + 1;
      }
    }

    /** The finished block holds the entries and the restart points, as long as its size fits in 32 bits. */
    method Finish() returns (block: Bytes)
      requires Valid()
      modifies this`buffer
      ensures block == buffer && (|block| < TWO_TO_32 ==> IsBlock(block, entries, shared, marks))
    {
      hide Built, IsBlock, EncodeFixed32, Truncated;
      var i := 0;
      while i < |restarts|
        invariant i <= |restarts| && buffer == old(buffer) + RestartArray(restarts[..i])
      {
        buffer := buffer + EncodeFixed32(Truncated(restarts[i]));
        i := i + 1;
        assert restarts[..i][..i - 1] == restarts[..i - 1];
      }
      assert restarts[..i] == restarts;
      buffer := buffer + EncodeFixed32(Truncated(|restarts|));
      block := buffer;
      FinishedIsBlock(interval, old(buffer), restarts, counter, lastKey, entries, shared, marks, block);
    }
  }

  lemma FinishedIsBlock(interval: nat, buffer: Bytes, restarts: seq<nat>, counter: nat, lastKey: Bytes,
                        es: seq<Pair>, shared: seq<nat>, marks: seq<nat>, block: Bytes)
    requires Built(interval, buffer, restarts, counter, lastKey, es, shared, marks)
    requires block == buffer + RestartArray(restarts) + EncodeFixed32(Truncated(|restarts|))
    ensures |block| < TWO_TO_32 ==> IsBlock(block, es, shared, marks)
  {
  }

  lemma EntryIs(a: Bytes, b: Bytes, c: Bytes, e: Pair, n: nat)
    requires n <= |e.key| && a == Varint(Truncated(n)) && b == Varint(Truncated(|e.key| - n))
             && c == Varint(Truncated(|e.value|))
    ensures a + b + c + e.key[n..] + e.value == EntryBytes(n, e)
  {
  }

  /** The builder's fields stand for these entries. */
  ghost predicate Built(interval: nat, buffer: Bytes, restarts: seq<nat>, counter: nat, lastKey: Bytes,
                        es: seq<Pair>, shared: seq<nat>, marks: seq<nat>) {
    && Compresses(es, shared) && IsMarks(es, shared, marks)
    && buffer == Data(es, shared, |es|) && RestartsAt(es, shared, marks, restarts)
    && lastKey == (if es == [] then [] else es[|es| - 1].key)
    && counter == |es| - marks[|marks| - 1] <= interval
  }

  lemma AddsToRun(interval: nat, buffer: Bytes, restarts: seq<nat>, counter: nat, lastKey: Bytes,
                  es: seq<Pair>, shared: seq<nat>, marks: seq<nat>, e: Pair, n: nat)
    requires Built(interval, buffer, restarts, counter, lastKey, es, shared, marks) && counter < interval
    requires n <= |e.key| && n <= |lastKey| && e.key[..n] == lastKey[..n]
    ensures Built(interval, buffer + EntryBytes(n, e), restarts, counter + 1, lastKey[..n] + e.key[n..], es + [e],
            shared + [n], marks)
  {
    hide EntryBytes;
    assert lastKey[..n] + e.key[n..] == e.key;
    AddedData(es, shared, e, n);
    KeepMarks(es, shared, marks, restarts, e, n);
    hide Data, Compresses, IsMarks, RestartsAt;
  }

  lemma AddsRestart(interval: nat, buffer: Bytes, restarts: seq<nat>, counter: nat, lastKey: Bytes,
                    es: seq<Pair>, shared: seq<nat>, marks: seq<nat>, e: Pair)
    requires Built(interval, buffer, restarts, counter, lastKey, es, shared, marks) && counter == interval >= 1
    ensures Built(interval, buffer + EntryBytes(0, e), restarts + [|buffer|], 1, lastKey[..0] + e.key[0..], es + [e],
            shared + [0], marks + [|es|])
  {
    hide EntryBytes;
    assert marks[|marks| - 1] >= 0;
    assert lastKey[..0] + e.key[0..] == e.key;
    AddedData(es, shared, e, 0);
    NewMark(es, shared, marks, restarts, e);
    hide Data, Compresses, IsMarks, RestartsAt;
  }

  lemma KeepMarks(es: seq<Pair>, shared: seq<nat>, marks: seq<nat>, restarts: seq<nat>, e: Pair, n: nat)
    requires Compresses(es, shared) && IsMarks(es, shared, marks) && RestartsAt(es, shared, marks, restarts)
    requires Compresses(es + [e], shared + [n]) && (es == [] ==> n == 0)
    ensures IsMarks(es + [e], shared + [n], marks) && RestartsAt(es + [e], shared + [n], marks, restarts)
  {
    assert forall k | 0 <= k < |marks| :: marks[k] <= |es|;
    forall k | 0 <= k < |marks|
      ensures Offset(es + [e], shared + [n], marks[k]) == Offset(es, shared, marks[k])
    {
      SameData(es, shared, es + [e], shared + [n], marks[k]);
    }
  }

  lemma NewMark(es: seq<Pair>, shared: seq<nat>, marks: seq<nat>, restarts: seq<nat>, e: Pair)
    requires Compresses(es, shared) && IsMarks(es, shared, marks) && RestartsAt(es, shared, marks, restarts)
    requires Compresses(es + [e], shared + [0]) && es != []
    ensures IsMarks(es + [e], shared + [0], marks + [|es|])
    ensures RestartsAt(es + [e], shared + [0], marks + [|es|], restarts + [Offset(es, shared, |es|)])
  {
    KeepMarks(es, shared, marks, restarts, e, 0);
    SameData(es, shared, es + [e], shared + [0], |es|);
  }

  function CommonPrefix(a: Bytes, b: Bytes): Bytes {
    if a == [] || b == [] || a[0] != b[0] then [] else [a[0]] + CommonPrefix(a[1..], b[1..])
  }

  lemma AddedData(es: seq<Pair>, shared: seq<nat>, e: Pair, n: nat)
    requires Compresses(es, shared)
    requires n <= |e.key| && (es == [] ==> n == 0)
    requires es != [] ==> n <= |es[|es| - 1].key| && e.key[..n] == es[|es| - 1].key[..n]
    ensures Compresses(es + [e], shared + [n])
    ensures Data(es + [e], shared + [n], |es| + 1) == Data(es, shared, |es|) + EntryBytes(n, e)
  {
    var es', shared' := es + [e], shared + [n];
    assert forall i | 0 <= i < |es| :: es'[i] == es[i] && shared'[i] == shared[i];
    assert Compresses(es', shared');
    SameData(es, shared, es', shared', |es|);
  }

  lemma {:induction false} SameData(es: seq<Pair>, shared: seq<nat>, es': seq<Pair>, shared': seq<nat>, i: nat)
    requires Compresses(es, shared) && Compresses(es', shared') && i <= |es| && es <= es' && shared <= shared'
    ensures Data(es', shared', i) == Data(es, shared, i)
  {
    if i > 0 {
      SameData(es, shared, es', shared', i - 1);
    }
  }
}
