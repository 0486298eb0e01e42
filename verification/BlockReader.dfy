/** Reading a block: the cursor over prefix-compressed entries (table/block.cc). On bytes that are not a block
    the cursor may report corruption; every operation still ends. */
module BlockReader {
  import opened InternalKeys
  import opened SnapshotReads
  import opened Coding
  import opened BlockFormat

  datatype Decoded = Decoded(shared: nat, nonShared: nat, valueSize: nat, next: nat)

  /** Three varints, then that many bytes of key and value before `limit`. */
  function DecodedAt(data: Bytes, p: nat, limit: nat): (r: Option<Decoded>)
    requires limit <= |data|
    ensures r.Some? ==> p + 3 <= r.value.next && r.value.next + r.value.nonShared + r.value.valueSize <= limit
  {
    if limit < p + 3 then None
    else
      var shared := Varint32At(data, p, limit);
      if shared.None? then None else
      var nonShared := Varint32At(data, shared.value.next, limit);
      if nonShared.None? then None else
      var valueSize := Varint32At(data, nonShared.value.next, limit);
      if valueSize.None? || limit - valueSize.value.next < nonShared.value.value + valueSize.value.value then None
      else Some(Decoded(shared.value.value, nonShared.value.value, valueSize.value.value, valueSize.value.next))
  }

  /** Three one-byte numbers, the common case, need no varint decoding. */
  method DecodeEntry(data: Bytes, p: nat, limit: nat) returns (r: Option<Decoded>)
    requires limit <= |data|
    ensures r == DecodedAt(data, p, limit)
  {
    if limit < p + 3 {
      return None;
    }
    var next: nat, shared: int, nonShared: int, valueSize: int := p + 3, data[p], data[p + 1], data[p + 2];
    if !(shared < 128 && nonShared < 128 && valueSize < 128) {
      var first := GetVarint32Ptr(data, p, limit);
      if first.None? {
        return None;
      }
      var second := GetVarint32Ptr(data, first.value.next, limit);
      if second.None? {
        return None;
      }
      var third := GetVarint32Ptr(data, second.value.next, limit);
      if third.None? {
        return None;
      }
      shared, nonShared, valueSize, next := first.value.value, second.value.value, third.value.value, third.value.next;
    }
    if limit - next < nonShared + valueSize {
      return None;
    }
    return Some(Decoded(shared, nonShared, valueSize, next));
  }

  // ----- the layout of a block -----

  datatype Layout = Layout(entries: seq<Pair>, shared: seq<nat>, marks: seq<nat>)

  /** `data` is a block of `layout` whose restart array starts at `restarts`. */
  ghost predicate Laid(data: Bytes, restarts: nat, numRestarts: nat, layout: Layout) {
    && IsBlock(data, layout.entries, layout.shared, layout.marks)
    && numRestarts == |layout.marks| && restarts == Offset(layout.entries, layout.shared, |layout.entries|)
  }

  function RestartPoint(data: Bytes, restarts: nat, index: nat): nat
    requires restarts + 4 * index + 4 <= |data|
  {
    DecodeFixed32(data[restarts + 4 * index..])
  }

  lemma RestartPointIs(data: Bytes, restarts: nat, numRestarts: nat, layout: Layout, k: nat)
    requires Laid(data, restarts, numRestarts, layout) && k < numRestarts
    ensures layout.marks[k] <= |layout.entries| && restarts + 4 * numRestarts + 4 == |data|
    ensures RestartPoint(data, restarts, k) == Offset(layout.entries, layout.shared, layout.marks[k])
  {
    var es, shared, marks := layout.entries, layout.shared, layout.marks;
    var starts: seq<nat> :| RestartsAt(es, shared, marks, starts) &&
                            data == Data(es, shared, |es|) + RestartArray(starts) + EncodeFixed32(Truncated(|starts|));
    assert marks[k] <= |es|;
    OffsetsAscend(es, shared, marks[k], |es|);
    assert starts[k] == Offset(es, shared, marks[k]) && starts[k] < TWO_TO_32;
    hide IsBlock, Data, RestartArray, EncodeFixed32, IsMarks, Compresses;
    RestartAt(starts, k);
    RestartPointAt(data, Data(es, shared, |es|), RestartArray(starts), EncodeFixed32(Truncated(|starts|)), k,
                   starts[k]);
  }

  lemma RestartPointAt(data: Bytes, front: Bytes, points: Bytes, back: Bytes, k: nat, start: Word)
    requires data == front + points + back && 4 * k + 4 <= |points| && points[4 * k..4 * k + 4] == EncodeFixed32(start)
    ensures RestartPoint(data, |front|, k) == start
  {
    var at := |front| + 4 * k;
    assert data[at..] == data[at..at + 4] + data[at + 4..];
    assert data[at..at + 4] == points[4 * k..4 * k + 4];
    Fixed32RoundTrip(start, data[at + 4..]);
  }

  lemma LaidEntries(data: Bytes, restarts: nat, numRestarts: nat, layout: Layout)
    requires Laid(data, restarts, numRestarts, layout)
    ensures restarts <= |data| < TWO_TO_32 && Compresses(layout.entries, layout.shared)
    ensures HoldsAt(data, 0, restarts, Data(layout.entries, layout.shared, |layout.entries|))
    ensures |layout.shared| == |layout.entries| && forall i | 0 <= i < |layout.entries| ::
            layout.shared[i] <= |layout.entries[i].key|
  {
    hide Data, IsMarks;
  }

  /** The bytes from `start` to `end` decode to an entry sharing `shared` bytes. */
  ghost predicate EntryDecodes(data: Bytes, limit: nat, start: nat, end: nat, shared: nat, e: Pair) {
    && start + 3 <= end <= limit <= |data| && shared <= |e.key| && |e.key| - shared + |e.value| <= end
    && DecodedAt(data, start, limit) == Some(Decoded(shared, |e.key| - shared, |e.value|,
         end - |e.value| - (|e.key| - shared)))
    && data[end - |e.value| - (|e.key| - shared)..end - |e.value|] == e.key[shared..]
    && data[end - |e.value|..end] == e.value
  }

  lemma DecodedIs(data: Bytes, restarts: nat, numRestarts: nat, layout: Layout, i: nat)
    requires Laid(data, restarts, numRestarts, layout) && i < |layout.entries|
    ensures EntryDecodes(data, restarts, Offset(layout.entries, layout.shared, i),
            Offset(layout.entries, layout.shared, i + 1),
                         layout.shared[i], layout.entries[i])
  {
    hide EntryBytes, DecodedAt, EntryDecodes, Data, IsBlock, HoldsAt, Compresses;
    LaidEntries(data, restarts, numRestarts, layout);
    var es, shared := layout.entries, layout.shared;
    var lo, hi, all := Offset(es, shared, i), Offset(es, shared, i + 1), Data(es, shared, |es|);
    EntryAt(es, shared, i, |es|);
    HoldsSlice(data, 0, restarts, all, lo, hi);
    KeyFits(es, shared, i);
    DecodesHeld(data, lo, restarts, shared[i], es[i], hi);
  }

  lemma DecodesHeld(data: Bytes, p: nat, limit: nat, shared: nat, e: Pair, end: nat)
    requires shared <= |e.key| && HoldsAt(data, p, limit, EntryBytes(shared, e)) && |data| < TWO_TO_32
             && shared < TWO_TO_32
    requires end == p + |EntryBytes(shared, e)|
    ensures EntryDecodes(data, limit, p, end, shared, e)
  {
    hide EntryBytes, EntryHead, DecodedAt, HoldsAt;
    EntryTail(data, p, limit, shared, e);
    DecodedEntry(data, p, limit, shared, e);
  }

  /** The end of an entry holds the key's own bytes and the value. */
  lemma EntryTail(data: Bytes, p: nat, limit: nat, shared: nat, e: Pair)
    requires shared <= |e.key| && HoldsAt(data, p, limit, EntryBytes(shared, e))
    ensures var end := p + |EntryBytes(shared, e)|;
            && 3 <= |EntryHead(shared, e)|
            && p + |EntryHead(shared, e)| + (|e.key| - shared) + |e.value| == end <= limit <= |data|
            && data[end - |e.value| - (|e.key| - shared)..end - |e.value|] == e.key[shared..]
            && data[end - |e.value|..end] == e.value
  {
    var head, d := EntryHead(shared, e), e.key[shared..];
    assert EntryBytes(shared, e) == head + (d + e.value);
    hide EntryBytes, EntryHead, HoldsAt;
    HoldsParts(data, p, limit, head, d + e.value);
    HoldsParts(data, p + |head|, limit, d, e.value);
    HeldBytes(data, p + |head|, limit, d);
    HeldBytes(data, p + |head| + |d|, limit, e.value);
  }

  lemma DecodedEntry(data: Bytes, p: nat, limit: nat, shared: nat, e: Pair)
    requires shared <= |e.key| && HoldsAt(data, p, limit, EntryBytes(shared, e)) && |data| < TWO_TO_32
             && shared < TWO_TO_32
    ensures limit <= |data|
    ensures DecodedAt(data, p, limit) == Some(Decoded(shared, |e.key| - shared, |e.value|, p + |EntryHead(shared, e)|))
  {
    hide EntryBytes, EntryHead, Varint, Truncated, HoldsAt, DecodedAt, Varint32At;
    EntryTail(data, p, limit, shared, e);
    HeadHeld(data, p, limit, shared, e);
    var a, b := Varint(shared), Varint(|e.key| - shared);
    Varint32RoundTrip(shared, data, p, limit);
    Varint32RoundTrip(|e.key| - shared, data, p + |a|, limit);
    Varint32RoundTrip(|e.value|, data, p + |a| + |b|, limit);
    DecodedFrom(data, p, limit, Parsed(shared, p + |a|), Parsed(|e.key| - shared, p + |a| + |b|),
                Parsed(|e.value|, p + |EntryHead(shared, e)|));
  }

  lemma DecodedFrom(data: Bytes, p: nat, limit: nat, shared: Parsed, nonShared: Parsed, valueSize: Parsed)
    requires p + 3 <= limit <= |data| && Varint32At(data, p, limit) == Some(shared)
    requires Varint32At(data, shared.next, limit) == Some(nonShared)
             && Varint32At(data, nonShared.next, limit) == Some(valueSize)
    requires valueSize.next + nonShared.value + valueSize.value <= limit
    ensures DecodedAt(data, p, limit) == Some(Decoded(shared.value, nonShared.value, valueSize.value, valueSize.next))
  {
    hide Varint32At;
  }

  lemma HeadHeld(data: Bytes, p: nat, limit: nat, shared: nat, e: Pair)
    requires shared <= |e.key| && HoldsAt(data, p, limit, EntryBytes(shared, e))
    requires shared < TWO_TO_32 && |e.key| - shared < TWO_TO_32 && |e.value| < TWO_TO_32
    ensures var a, b, c := Varint(shared), Varint(|e.key| - shared), Varint(|e.value|);
            && HoldsAt(data, p, limit, a) && HoldsAt(data, p + |a|, limit, b) && HoldsAt(data, p + |a| + |b|, limit, c)
            && |EntryHead(shared, e)| == |a| + |b| + |c| >= 3
  {
    hide EntryBytes, EntryHead, Varint, HoldsAt;
    var a, b, c := Varint(shared), Varint(|e.key| - shared), Varint(|e.value|);
    var head, rest := EntryHead(shared, e), e.key[shared..] + e.value;
    HeadIs(shared, e);
    HoldsParts(data, p, limit, head, rest);
    HoldsParts(data, p, limit, a + b, c);
    HoldsParts(data, p, limit, a, b);
  }

  lemma HeadIs(shared: nat, e: Pair)
    requires shared <= |e.key| && shared < TWO_TO_32 && |e.key| - shared < TWO_TO_32 && |e.value| < TWO_TO_32
    ensures EntryHead(shared, e) == Varint(shared) + Varint(|e.key| - shared) + Varint(|e.value|)
    ensures EntryBytes(shared, e) == EntryHead(shared, e) + (e.key[shared..] + e.value)
  {
    hide Varint;
  }

  // ----- the cursor -----

  /** A strict order on keys: the comparator's sign. */
  ghost predicate IsStrictOrder(less: (Bytes, Bytes) -> bool) {
    && (forall a, b, c :: less(a, b) && less(b, c) ==> less(a, c))
    && (forall a, b :: !(less(a, b) && less(b, a)))
  }

  ghost predicate Increasing(es: seq<Pair>, less: (Bytes, Bytes) -> bool) {
    forall i, j | 0 <= i < j < |es| :: less(es[i].key, es[j].key)
  }

  lemma RejoinKey(previous: Bytes, key: Bytes, n: nat)
    requires n <= |previous| && n <= |key| && previous[..n] == key[..n]
    ensures previous[..n] + key[n..] == key
  {
  }

  class BlockIter {
    const data: Bytes
    const less: (Bytes, Bytes) -> bool
    const restarts: nat
    const numRestarts: nat
    ghost const layout: Layout
    var current: nat
    var restartIndex: nat
    var key: Bytes
    var valueAt: nat
    var valueSize: nat
    var corrupt: bool
    /** On a block: the index of the current entry, the number of entries when not valid. */
    ghost var at: nat

    constructor (data: Bytes, less: (Bytes, Bytes) -> bool, restarts: nat, numRestarts: nat, ghost layout: Layout)
      requires 0 < numRestarts && restarts + 4 * numRestarts <= |data|
      ensures this.data == data && this.less == less && this.restarts == restarts && this.numRestarts == numRestarts
      ensures this.layout == layout && Refines() && !Valid() && !corrupt
    {
      this.data, this.less, this.restarts, this.numRestarts, this.layout := data, less, restarts, numRestarts, layout;
      current, restartIndex, key, valueAt, valueSize, corrupt := restarts, numRestarts, [], 0, 0, false;
      at := |layout.entries|;
    }

    /** On a block the fields stand for entry `at`. */
    ghost predicate Refines()
      reads this
    {
      Safe() && (IsLaid() ==> at <= |Entries()| && At(at))
    }

    /** On a block the cursor is valid exactly at an entry, and key and value are the entry's. */
    lemma RefinesMeans()
      requires Refines() && IsLaid()
      ensures Valid() <==> at < |Entries()|
      ensures Valid() ==>
                key == Entries()[at].key && NextEntryOffset() <= |data|
                && data[valueAt..valueAt + valueSize] == Entries()[at].value
    {
      ParsesEntry(at);
    }

    predicate Valid()
      reads this
    {
      current < restarts
    }

    /** What holds on any bytes. */
    ghost predicate Safe()
      reads this
    {
      && 0 < numRestarts && restarts + 4 * numRestarts <= |data|
      && (Valid() ==> restartIndex < numRestarts && current < NextEntryOffset() <= restarts)
    }

    /** The bytes are a block of `layout`. */
    ghost predicate IsLaid() {
      Laid(data, restarts, numRestarts, layout)
    }

    function NextEntryOffset(): nat
      reads this
    {
      valueAt + valueSize
    }

    ghost function Entries(): seq<Pair> {
      layout.entries
    }

    ghost function OffsetOf(i: nat): nat
      requires IsLaid() && i <= |Entries()|
    {
      Offset(layout.entries, layout.shared, i)
    }

    /** `restartIndex` is a restart at or before entry i, and no restart lies strictly between. */
    ghost predicate Indexed(i: nat)
      requires IsLaid()
      reads this
    {
      && restartIndex < numRestarts && layout.marks[restartIndex] <= i
      && (restartIndex + 1 < numRestarts ==> i <= layout.marks[restartIndex + 1])
    }

    /** The cursor stands at entry i; past the last entry it is not valid. */
    ghost predicate At(i: nat)
      requires IsLaid() && i <= |Entries()|
      reads this
    {
      && current == OffsetOf(i)
      && (i < |Entries()| ==>
            && key == Entries()[i].key && NextEntryOffset() == OffsetOf(i + 1) <= |data|
            && data[valueAt..valueAt + valueSize] == Entries()[i].value
            && Indexed(i))
    }

    /** ParseNextKey will read entry i. */
    ghost predicate Before(i: nat)
      requires IsLaid() && i <= |Entries()|
      reads this
    {
      && NextEntryOffset() == OffsetOf(i)
      && (i < |Entries()| ==>
            && restartIndex < numRestarts && layout.marks[restartIndex] <= i
            && layout.shared[i] <= |key| && layout.shared[i] <= |Entries()[i].key|
            && key[..layout.shared[i]] == Entries()[i].key[..layout.shared[i]])
    }

    function GetRestartPoint(index: nat): nat
      requires index < numRestarts && restarts + 4 * numRestarts <= |data|
    {
      RestartPoint(data, restarts, index)
    }

    method CorruptionError()
      modifies this
      ensures !Valid() && corrupt && (old(Safe()) ==> Safe())
    {
      current, restartIndex, key, valueAt, valueSize, corrupt := restarts, numRestarts, [], 0, 0, true;
    }

    lemma MarkPoints(k: nat, i: nat)
      requires IsLaid() && k < numRestarts && i <= |Entries()| && restarts + 4 * numRestarts <= |data|
      ensures layout.marks[k] <= |Entries()| && GetRestartPoint(k) == OffsetOf(layout.marks[k])
      ensures GetRestartPoint(k) < OffsetOf(i) <==> layout.marks[k] < i
    {
      RestartPointIs(data, restarts, numRestarts, layout, k);
      if layout.marks[k] < i {
        OffsetsAscend(layout.entries, layout.shared, layout.marks[k], i);
      } else {
        OffsetsAscend(layout.entries, layout.shared, i, layout.marks[k]);
      }
    }

    /** What ParseNextKey finds when it is about to read entry i. */
    lemma ParsesEntry(i: nat)
      requires IsLaid() && i <= |Entries()|
      ensures restarts <= |data| && OffsetOf(i) <= restarts && (i == |Entries()| <==> OffsetOf(i) == restarts)
      ensures i < |Entries()| ==> EntryDecodes(data, restarts, OffsetOf(i), OffsetOf(i + 1), layout.shared[i],
              Entries()[i])
    {
      hide IsBlock, EntryDecodes, Data, Compresses, HoldsAt;
      LaidEntries(data, restarts, numRestarts, layout);
      OffsetsAscend(layout.entries, layout.shared, i, |Entries()|);
      if i < |Entries()| {
        DecodedIs(data, restarts, numRestarts, layout, i);
      }
    }

    lemma JoinsKey(i: nat)
      requires IsLaid() && i < |Entries()| && Before(i)
      ensures i < |layout.shared| && layout.shared[i] <= |Entries()[i].key| && layout.shared[i] <= |key|
      ensures key[..layout.shared[i]] + Entries()[i].key[layout.shared[i]..] == Entries()[i].key
    {
      RejoinKey(key, Entries()[i].key, layout.shared[i]);
    }

    method ParseNextKey(ghost i: nat) returns (more: bool)
      requires 0 < numRestarts && restarts + 4 * numRestarts <= |data| && restartIndex < numRestarts
      modifies this
      ensures Safe() && (more <==> Valid())
      ensures more ==> current == old(NextEntryOffset()) < NextEntryOffset() && old(NextEntryOffset()) < restarts
      ensures IsLaid() && i <= |Entries()| && old(Before(i)) ==> corrupt == old(corrupt) && At(i)
    {
      hide IsBlock, DecodedAt, Compresses, Data, IsMarks, RestartPoint;
      ghost var expected := IsLaid() && i <= |Entries()| && Before(i);
      if expected {
        ParsesEntry(i);
        if i < |Entries()| {
          JoinsKey(i);
        }
      }
      current := NextEntryOffset();
      if restarts <= current {
        current, restartIndex := restarts, numRestarts;
        return false;
      }
      var r := DecodeEntry(data, current, restarts);
      if r.None? || |key| < r.value.shared {
        CorruptionError();
        return false;
      }
      key := key[..r.value.shared] + data[r.value.next..r.value.next + r.value.nonShared];
      valueAt, valueSize := r.value.next + r.value.nonShared, r.value.valueSize;
      AdvanceRestart(i, expected);
      return true;
    }

    /** Moves `restartIndex` on while the next restart point lies before the current entry. */
    method AdvanceRestart(ghost i: nat, ghost expected: bool)
      requires restarts + 4 * numRestarts <= |data| && restartIndex < numRestarts
      requires expected ==> IsLaid() && i < |Entries()| && current == OffsetOf(i) && layout.marks[restartIndex] <= i
      modifies this`restartIndex
      ensures restartIndex < numRestarts && (expected ==> Indexed(i))
    {
      hide IsBlock;
      while restartIndex + 1 < numRestarts && GetRestartPoint(restartIndex + 1) < current
        invariant restartIndex < numRestarts && (expected ==> layout.marks[restartIndex] <= i)
      {
        if expected {
          MarkPoints(restartIndex + 1, i);
        }
        restartIndex := restartIndex + 1;
      }
      if expected && restartIndex + 1 < numRestarts {
        MarkPoints(restartIndex + 1, i);
      }
    }

    method SeekToRestartPoint(index: nat)
      requires restarts + 4 * numRestarts <= |data| && index < numRestarts
      modifies this
      ensures restartIndex == index && current == old(current) && corrupt == old(corrupt)
      ensures IsLaid() ==> layout.marks[index] <= |Entries()| && Before(layout.marks[index])
    {
      hide IsBlock, Compresses, Data, RestartPoint, IsMarks;
      key := [];
      restartIndex := index;
      valueAt, valueSize := GetRestartPoint(index), 0;
      if IsLaid() {
        MarkPoints(index, 0);
        MarkIs(index);
      }
    }

    method Next()
      requires Refines() && Valid()
      modifies this
      ensures Refines() && (Valid() ==> old(current) < current)
      ensures IsLaid() ==> at == old(at) + 1 && corrupt == old(corrupt)
    {
      hide IsBlock, Compresses, Data, RestartPoint, IsMarks;
      if IsLaid() {
        RefinesMeans();
        NextIsBefore(at);
      }
      ghost var i := at + 1;
      var _ := ParseNextKey(i);
      at := i;
    }

    lemma NextIsBefore(i: nat)
      requires IsLaid() && i < |Entries()| && At(i)
      ensures Before(i + 1)
    {
    }

    /** Back to a restart point before the current entry, then forward to the entry before it. */
    method Prev()
      requires Refines() && Valid()
      modifies this
      ensures Refines() && (IsLaid() ==>
                at == (if old(at) == 0 then |Entries()| else old(at) - 1) && corrupt == old(corrupt))
    {
      hide IsBlock, Compresses, Data, RestartPoint, IsMarks;
      var original := current;
      ghost var laid := IsLaid();
      if laid {
        RefinesMeans();
        MarkIs(0);
      }
      while GetRestartPoint(restartIndex) >= original
        invariant Safe() && restartIndex < numRestarts && at == old(at) && corrupt == old(corrupt)
                  && current == original
        invariant laid ==> at < |Entries()| && original == OffsetOf(at)
        decreases restartIndex
      {
        if laid {
          MarkPoints(restartIndex, at);
        }
        if restartIndex == 0 {
          current, restartIndex := restarts, numRestarts;
          at := |layout.entries|;
          return;
        }
        restartIndex := restartIndex - 1;
      }
      ScanTo(original);
    }

    /** Steps forward from restart point `restartIndex` to the entry that ends at or after offset `original`. */
    method ScanTo(original: nat)
      requires Safe() && restartIndex < numRestarts && GetRestartPoint(restartIndex) < original
      requires IsLaid() ==> at < |Entries()| && original == OffsetOf(at)
      modifies this
      ensures Refines() && (IsLaid() ==> at == old(at) - 1 && corrupt == old(corrupt))
    {
      hide IsBlock, Compresses, Data, RestartPoint, IsMarks, EntryDecodes;
      ghost var laid, target := IsLaid(), at;
      if laid {
        MarkPoints(restartIndex, at);
      }
      SeekToRestartPoint(restartIndex);
      ghost var i: nat := if laid then layout.marks[restartIndex] else 0;
      while true
        invariant restartIndex < numRestarts
        invariant laid ==> i < target && Before(i) && corrupt == old(corrupt)
        decreases if NextEntryOffset() < restarts then restarts - NextEntryOffset() else 0
      {
        var more := ParseNextKey(i);
        if laid {
          ParsesEntry(i);
          OffsetOrder(i + 1, target);
        }
        if !(more && NextEntryOffset() < original) {
          break;
        }
        if laid {
          NextIsBefore(i);
        }
        i := i + 1;
      }
      at := i;
    }

    method SeekToFirst()
      requires Refines()
      modifies this
      ensures Refines() && (IsLaid() ==> at == 0 && corrupt == old(corrupt))
    {
      hide IsBlock, Compresses, Data, RestartPoint, IsMarks;
      if IsLaid() {
        MarkIs(0);
      }
      SeekToRestartPoint(0);
      var _ := ParseNextKey(0);
      at := 0;
    }

    method SeekToLast()
      requires Refines()
      modifies this
      ensures Refines() && (IsLaid() ==>
                at == (if Entries() == [] then 0 else |Entries()| - 1) && corrupt == old(corrupt))
    {
      hide IsBlock, Compresses, Data, RestartPoint, IsMarks, EntryDecodes;
      ghost var laid := IsLaid();
      if laid {
        MarkIs(numRestarts - 1);
      }
      SeekToRestartPoint(numRestarts - 1);
      ghost var i: nat := if laid then layout.marks[numRestarts - 1] else 0;
      while true
        invariant restartIndex < numRestarts
        invariant laid ==>
                    i <= |Entries()| && (Entries() != [] ==> i < |Entries()|) && Before(i) && corrupt == old(corrupt)
        decreases if NextEntryOffset() < restarts then restarts - NextEntryOffset() else 0
      {
        var more := ParseNextKey(i);
        if laid && i < |Entries()| {
          ParsesEntry(i);
          ParsesEntry(i + 1);
        }
        if !(more && NextEntryOffset() < restarts) {
          break;
        }
        if laid {
          ParsesEntry(i);
          NextIsBefore(i);
        }
        i := i + 1;
      }
      at := i;
    }

    ghost predicate IsOrdered() {
      IsLaid() && IsStrictOrder(less) && Increasing(Entries(), less)
    }

    /** Binary search in the restart array for the last restart point with a key before the target. */
    method FindRestart(target: Bytes) returns (left: nat, ok: bool)
      requires Safe()
      modifies this
      ensures left < numRestarts && corrupt == (old(corrupt) || !ok) && (!ok ==> Safe() && !Valid())
      ensures IsLaid() ==> ok
      ensures IsOrdered() ==> SmallerUpTo(target, layout.marks[left])
    {
      hide IsBlock, Compresses, Data, RestartPoint, IsMarks, EntryDecodes, IsStrictOrder, Increasing;
      ghost var laid, ordered := IsLaid(), IsOrdered();
      var right;
      left, right, ok := 0, numRestarts - 1, true;
      if laid {
        MarkIs(0);
      }
      while left < right
        invariant 0 <= left <= right < numRestarts && corrupt == old(corrupt) && restarts + 4 * numRestarts <= |data|
        invariant ordered ==> SmallerUpTo(target, layout.marks[left])
        decreases right - left
      {
        var mid := (left + right + 1) / 2;
        var regionOffset := GetRestartPoint(mid);
        var r := DecodeEntry(data, regionOffset, restarts);
        if laid {
          MarkDecodes(mid);
        }
        if r.None? || r.value.shared != 0 {
          CorruptionError();
          return left, false;
        }
        var midKey := data[r.value.next..r.value.next + r.value.nonShared];
        if less(midKey, target) {
          left := mid;
          if ordered {
            SmallerBefore(target, layout.marks[mid]);
          }
        } else {
          right := mid - 1;
        }
      }
    }

    /** From the restart point found, entries are scanned for the first key not before the target. */
    method Seek(target: Bytes)
      requires Refines()
      modifies this
      ensures Refines() && (IsLaid() ==> corrupt == old(corrupt))
      ensures IsOrdered() ==>
                && (forall i | 0 <= i < at :: less(Entries()[i].key, target))
                && (forall i | at <= i < |Entries()| :: !less(Entries()[i].key, target))
    {
      hide IsBlock, Compresses, Data, RestartPoint, IsMarks, EntryDecodes, IsStrictOrder, Increasing;
      ghost var laid, ordered := IsLaid(), IsOrdered();
      var left, ok := FindRestart(target);
      if !ok {
        at := |layout.entries|;
        return;
      }
      SeekToRestartPoint(left);
      ghost var i: nat := if laid then layout.marks[left] else 0;
      while true
        invariant restartIndex < numRestarts
        invariant laid ==> i <= |Entries()| && Before(i) && corrupt == old(corrupt)
        invariant ordered ==> SmallerUpTo(target, i)
        decreases if NextEntryOffset() < restarts then restarts - NextEntryOffset() else 0
      {
        var more := ParseNextKey(i);
        if laid {
          ParsesEntry(i);
        }
        if !more || !less(key, target) {
          break;
        }
        if laid {
          NextIsBefore(i);
        }
        i := i + 1;
      }
      if ordered {
        LandsAt(target, i);
      }
      at := i;
    }

    /** Every key before entry n is smaller than the target. */
    ghost predicate SmallerUpTo(target: Bytes, n: nat) {
      forall i | 0 <= i < n && i < |Entries()| :: less(Entries()[i].key, target)
    }

    lemma SmallerBefore(target: Bytes, n: nat)
      requires IsStrictOrder(less) && Increasing(Entries(), less) && n < |Entries()| && less(Entries()[n].key, target)
      ensures SmallerUpTo(target, n)
    {
    }

    lemma LandsAt(target: Bytes, n: nat)
      requires IsStrictOrder(less) && Increasing(Entries(), less) && n <= |Entries()|
      requires n < |Entries()| ==> !less(Entries()[n].key, target)
      ensures forall i | n <= i < |Entries()| :: !less(Entries()[i].key, target)
    {
    }

    /** A restart point stores its whole key. */
    lemma MarkDecodes(k: nat)
      requires IsLaid() && k < numRestarts && restarts + 4 * numRestarts <= |data| && 0 < k
      ensures layout.marks[k] < |Entries()|
      ensures var r := DecodedAt(data, GetRestartPoint(k), restarts);
              && r.Some? && r.value.shared == 0
              && data[r.value.next..r.value.next + r.value.nonShared] == Entries()[layout.marks[k]].key
    {
      hide IsBlock, Compresses, Data, RestartPoint, IsMarks, DecodedAt;
      MarkIs(k);
      MarkPoints(k, 0);
      MarkNotEmpty(k);
      ParsesEntry(layout.marks[k]);
      assert Entries()[layout.marks[k]].key[0..] == Entries()[layout.marks[k]].key;
    }

    lemma MarkNotEmpty(k: nat)
      requires IsLaid() && 0 < k < numRestarts
      ensures Entries() != []
    {
      hide Compresses, Data, RestartsAt, RestartArray, EncodeFixed32;
    }

    lemma MarkIs(k: nat)
      requires IsLaid() && k < numRestarts
      ensures 0 <= layout.marks[k] <= |Entries()| && layout.marks[0] == 0
              && (Entries() != [] ==> layout.marks[k] < |Entries()|)
      ensures layout.marks[k] < |Entries()| ==> layout.marks[k] < |layout.shared| && layout.shared[layout.marks[k]] == 0
    {
      hide Compresses, Data, RestartsAt, RestartArray, EncodeFixed32;
    }

    lemma OffsetOrder(i: nat, j: nat)
      requires IsLaid() && i <= |Entries()| && j <= |Entries()|
      ensures OffsetOf(i) < OffsetOf(j) <==> i < j
    {
      hide IsBlock, Data, Compresses, IsMarks, HoldsAt;
      LaidEntries(data, restarts, numRestarts, layout);
      OffsetsAscend(layout.entries, layout.shared, if i < j then i else j, if i < j then j else i);
    }
  }

  /** Block::NewIterator: no cursor for bytes too short for their restart count, or without restart points. */
  method NewIterator(data: Bytes, less: (Bytes, Bytes) -> bool, ghost layout: Layout) returns (iter: BlockIter?)
    ensures iter != null ==>
              fresh(iter) && iter.Refines() && !iter.Valid() && !iter.corrupt && iter.less == less
              && iter.layout == layout
    ensures IsBlock(data, layout.entries, layout.shared, layout.marks) ==> iter != null && iter.IsLaid()
  {
    hide Compresses, Data, DecodeFixed32;
    if |data| < 4 {
      return null;
    }
    var numRestarts := DecodeFixed32(data[|data| - 4..]);
    if IsBlock(data, layout.entries, layout.shared, layout.marks) {
      CountIs(data, layout);
    }
    if numRestarts == 0 || numRestarts > (|data| - 4) / 4 {
      return null;
    }
    iter := new BlockIter(data, less, |data| - (1 + numRestarts) * 4, numRestarts, layout);
  }

  lemma CountIs(data: Bytes, layout: Layout)
    requires IsBlock(data, layout.entries, layout.shared, layout.marks)
    ensures |data| >= 4 && 0 < |layout.marks| == DecodeFixed32(data[|data| - 4..])
    ensures |data| == Offset(layout.entries, layout.shared, |layout.entries|) + 4 * |layout.marks| + 4
  {
    hide Compresses, Data, DecodeFixed32, EncodeFixed32, RestartArray;
    var es, shared, marks := layout.entries, layout.shared, layout.marks;
    var starts: seq<nat> :| RestartsAt(es, shared, marks, starts) &&
                            data == Data(es, shared, |es|) + RestartArray(starts) + EncodeFixed32(Truncated(|starts|));
    var front, back := Data(es, shared, |es|) + RestartArray(starts), EncodeFixed32(Truncated(|starts|));
    assert |data| == |front| + 4 && |starts| < TWO_TO_32;
    hide *;
    assert data == front + back;
    LastFour(front, back);
    Fixed32RoundTrip(|starts|, []);
  }

  lemma LastFour(front: Bytes, back: Bytes)
    requires |back| == 4
    ensures (front + back)[|front + back| - 4..] == back + []
  {
  }
}
