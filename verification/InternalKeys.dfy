/** Internal keys, entries and the order on them (db/dbformat.h, db/dbformat.cc).

    User keys reach the storage engine only through the user comparator, a total order on a countable
    set of byte strings. Such an order embeds in the reals, so a user key is modelled by its rank. */
module InternalKeys {

  type UserKey = real

  type Byte = b: int | 0 <= b < 256

  type Bytes = seq<Byte>

  /** kMaxSequenceNumber: 56 bits, so that a sequence number and a type share 64 bits. */
  const MAX_SEQUENCE: int := 0xFF_FFFF_FFFF_FFFF

  type SequenceNumber = s: int | 0 <= s <= MAX_SEQUENCE

  datatype ValueType = Deletion | Value

  /** kValueTypeForSeek: the highest-numbered type, since packed numbers sort in decreasing order. */
  const SEEK_TYPE: ValueType := Value

  datatype InternalKey = InternalKey(userKey: UserKey, sequence: SequenceNumber, valueType: ValueType)

  datatype Entry = Entry(key: InternalKey, value: Bytes)

  function PackSequenceAndType(s: SequenceNumber, t: ValueType): nat {
    s * 256 + if t.Value? then 1 else 0
  }

  /** InternalKeyComparator::Compare: increasing user key, then decreasing packed number. */
  function Compare(a: InternalKey, b: InternalKey): int {
    if a.userKey < b.userKey then -1
    else if a.userKey > b.userKey then 1
    else
      var anum := PackSequenceAndType(a.sequence, a.valueType);
      var bnum := PackSequenceAndType(b.sequence, b.valueType);
      if anum > bnum then -1 else if anum < bnum then 1 else 0
  }

  predicate Less(a: InternalKey, b: InternalKey) {
    Compare(a, b) < 0
  }

  /** Strict order on entries whose sequence numbers are distinct per user key, which is how the writer
      numbers them. */
  predicate Precedes(a: Entry, b: Entry) {
    || a.key.userKey < b.key.userKey
    || (a.key.userKey == b.key.userKey && a.key.sequence > b.key.sequence)
  }

  ghost predicate Sorted(es: seq<Entry>) {
    forall i, j | 0 <= i < j < |es| :: Precedes(es[i], es[j])
  }

  /** The key that DBImpl::Get and DBIter::Seek look for: nothing for `userKey` that is visible at
      `snapshot` sorts before it. */
  function LookupKey(userKey: UserKey, snapshot: SequenceNumber): InternalKey {
    InternalKey(userKey, snapshot, SEEK_TYPE)
  }

  /** Position of the first key >= target in a sorted run; |es| when there is none. */
  ghost predicate IsLowerBound(es: seq<Entry>, target: InternalKey, pos: int) {
    && 0 <= pos <= |es|
    && (forall i | 0 <= i < pos :: Less(es[i].key, target))
    && (forall i | pos <= i < |es| :: !Less(es[i].key, target))
  }
}
