/** The contents of a sorted-table block: prefix-compressed entries, then the offsets of the restart points
    (format described in table/block_builder.cc). */
module BlockFormat {
  import opened InternalKeys
  import opened Coding

  datatype Pair = Pair(key: Bytes, value: Bytes)

  /** Sizes are stored in 32 bits. */
  function Truncated(n: nat): Word {
    n % TWO_TO_32
  }

  function EntryHead(shared: nat, e: Pair): Bytes
    requires shared <= |e.key|
  {
    Varint(Truncated(shared)) + Varint(Truncated(|e.key| - shared)) + Varint(Truncated(|e.value|))
  }

  /** An entry that repeats the first `shared` bytes of the key before it. */
  function EntryBytes(shared: nat, e: Pair): Bytes
    requires shared <= |e.key|
  {
    EntryHead(shared, e) + e.key[shared..] + e.value
  }

  /** shared[i] bytes of key i are those of key i - 1. */
  ghost predicate Compresses(es: seq<Pair>, shared: seq<nat>) {
    && |shared| == |es|
    && (es != [] ==> shared[0] == 0)
    && (forall i | 0 <= i < |es| :: shared[i] <= |es[i].key|)
    && (forall i | 0 < i < |es| :: shared[i] <= |es[i - 1].key| && es[i].key[..shared[i]] == es[i - 1].key[..shared[i]])
  }

  /** The bytes of the first n entries. */
  ghost function Data(es: seq<Pair>, shared: seq<nat>, n: nat): Bytes
    requires Compresses(es, shared) && n <= |es|
  {
    if n == 0 then [] else Data(es, shared, n - 1) + EntryBytes(shared[n - 1], es[n - 1])
  }

  ghost function Offset(es: seq<Pair>, shared: seq<nat>, n: nat): nat
    requires Compresses(es, shared) && n <= |es|
  {
    |Data(es, shared, n)|
  }

  lemma {:induction false} EntryAt(es: seq<Pair>, shared: seq<nat>, i: nat, n: nat)
    requires Compresses(es, shared) && i < n <= |es|
    ensures Offset(es, shared, i) + 3 <= Offset(es, shared, i + 1) <= Offset(es, shared, n)
    ensures Data(es, shared, n)[Offset(es, shared, i)..Offset(es, shared, i + 1)] == EntryBytes(shared[i], es[i])
  {
    EntryIsLong(shared[i], es[i]);
    DataGrows(es, shared, n);
    hide EntryBytes, Compresses, Data;
    var front, last := Data(es, shared, n - 1), EntryBytes(shared[n - 1], es[n - 1]);
    if i < n - 1 {
      EntryAt(es, shared, i, n - 1);
      SliceOfFront(front, last, Offset(es, shared, i), Offset(es, shared, i + 1));
    } else {
      SliceOfBack(front, last);
    }
  }

  lemma SliceOfBack(front: Bytes, back: Bytes)
    ensures (front + back)[|front|..|front + back|] == back
  {
  }

  lemma DataGrows(es: seq<Pair>, shared: seq<nat>, n: nat)
    requires Compresses(es, shared) && 0 < n <= |es|
    ensures Data(es, shared, n) == Data(es, shared, n - 1) + EntryBytes(shared[n - 1], es[n - 1])
  {
  }

  lemma SliceOfFront(front: Bytes, back: Bytes, lo: nat, hi: nat)
    requires lo <= hi <= |front|
    ensures (front + back)[lo..hi] == front[lo..hi]
  {
  }

  lemma EntryIsLong(shared: nat, e: Pair)
    requires shared <= |e.key|
    ensures 3 <= |EntryBytes(shared, e)|
  {
  }

  /** Every byte of a key stands somewhere before the end of its entry. */
  lemma {:induction false} KeyFits(es: seq<Pair>, shared: seq<nat>, i: nat)
    requires Compresses(es, shared) && i < |es|
    ensures |es[i].key| <= Offset(es, shared, i + 1)
  {
    if i > 0 {
      KeyFits(es, shared, i - 1);
    }
  }

  lemma {:induction false} OffsetsAscend(es: seq<Pair>, shared: seq<nat>, i: nat, j: nat)
    requires Compresses(es, shared) && i <= j <= |es|
    ensures i < j ==> Offset(es, shared, i) < Offset(es, shared, j)
  {
    if i < j {
      OffsetsAscend(es, shared, i, j - 1);
      EntryAt(es, shared, j - 1, j);
    }
  }

  /** The entries at which compression starts afresh, the first one always among them. */
  ghost predicate IsMarks(es: seq<Pair>, shared: seq<nat>, marks: seq<nat>) {
    && marks != [] && marks[0] == 0 && |shared| == |es|
    && (forall i, j | 0 <= i < j < |marks| :: marks[i] < marks[j])
    && (forall k | 0 <= k < |marks| :: marks[k] < |es| || (es == [] && marks == [0]))
    && (forall k | 0 <= k < |marks| && marks[k] < |es| :: shared[marks[k]] == 0)
  }

  function RestartArray(restarts: seq<nat>): (b: Bytes)
    ensures |b| == 4 * |restarts|
  {
    if restarts == [] then []
    else RestartArray(restarts[..|restarts| - 1]) + EncodeFixed32(Truncated(restarts[|restarts| - 1]))
  }

  lemma {:induction false} RestartAt(restarts: seq<nat>, k: nat)
    requires k < |restarts| && restarts[k] < TWO_TO_32
    ensures RestartArray(restarts)[4 * k..4 * k + 4] == EncodeFixed32(restarts[k])
  {
    if k < |restarts| - 1 {
      RestartAt(restarts[..|restarts| - 1], k);
      var front := RestartArray(restarts[..|restarts| - 1]);
      SliceOfFront(front, EncodeFixed32(Truncated(restarts[|restarts| - 1])), 4 * k, 4 * k + 4);
    }
  }

  ghost predicate RestartsAt(es: seq<Pair>, shared: seq<nat>, marks: seq<nat>, restarts: seq<nat>)
    requires Compresses(es, shared) && IsMarks(es, shared, marks)
  {
    |restarts| == |marks| && forall k | 0 <= k < |marks| :: restarts[k] == Offset(es, shared, marks[k])
  }

  /** `data` is a finished block of these entries. */
  ghost predicate IsBlock(data: Bytes, es: seq<Pair>, shared: seq<nat>, marks: seq<nat>) {
    && Compresses(es, shared) && IsMarks(es, shared, marks) && |data| < TWO_TO_32
    && exists restarts :: RestartsAt(es, shared, marks, restarts) &&
         data == Data(es, shared, |es|) + RestartArray(restarts) + EncodeFixed32(Truncated(|restarts|))
  }
}
