/** The user-level cursor over internal entries (db/db_iter.cc). Read sampling and corrupted keys are left out. */
module DbIterator {
  import opened InternalKeys
  import opened SnapshotReads
  import opened Versions

  /** The cursor DBIter drives: a position in a sorted run, or none. */
  class InternalIterator {
    const entries: seq<Entry>
    var pos: nat

    constructor (entries: seq<Entry>)
      ensures this.entries == entries && !Valid() && Positioned()
    {
      this.entries := entries;
      pos := |entries|;
    }

    predicate Valid()
      reads this
    {
      pos < |entries|
    }

    /** An exhausted cursor is always at |entries|, whichever end it ran off. */
    predicate Positioned()
      reads this
    {
      pos <= |entries|
    }

    function Key(): InternalKey
      requires Valid()
      reads this
    {
      entries[pos].key
    }

    method Next()
      requires Valid()
      modifies this
      ensures Positioned() && pos == old(pos) + 1
    {
      pos := pos + 1;
    }

    method Prev()
      requires Valid()
      modifies this
      ensures Positioned() && pos == if old(pos) == 0 then |entries| else old(pos) - 1
    {
      pos := if pos == 0 then |entries| else pos - 1;
    }

    method SeekToFirst()
      modifies this
      ensures Positioned() && pos == 0
    {
      pos := 0;
    }

    method SeekToLast()
      modifies this
      ensures Positioned() && pos == if entries == [] then 0 else |entries| - 1
    {
      pos := if entries == [] then 0 else |entries| - 1;
    }

    method Seek(target: InternalKey)
      requires Sorted(entries)
      modifies this
      ensures Positioned() && IsLowerBound(entries, target, pos)
    {
      var lo, hi := 0, |entries|;
      while lo < hi
        invariant 0 <= lo <= hi <= |entries|
        invariant forall i | 0 <= i < lo :: Less(entries[i].key, target)
        invariant forall i | hi <= i < |entries| :: !Less(entries[i].key, target)
      {
        var mid := (lo + hi) / 2;
        if Less(entries[mid].key, target) {
          assert forall i | 0 <= i < mid :: Precedes(entries[i], entries[mid]);
          lo := mid + 1;
        } else {
          assert forall i | mid < i < |entries| :: Precedes(entries[mid], entries[i]);
          hi := mid;
        }
      }
      pos := lo;
    }
  }

  // ----- the reference: the list of user entries a sequence number sees -----

  ghost predicate Seen(es: seq<Entry>, s: SequenceNumber, i: int)
    requires 0 <= i < |es|
  {
    es[i].key.sequence <= s
  }

  /** Some seen entry before position `c` has the user key of entry i. */
  ghost predicate SeenBefore(es: seq<Entry>, s: SequenceNumber, c: int, i: int)
    requires 0 <= c <= |es| && 0 <= i < |es|
  {
    exists j :: 0 <= j < c && Seen(es, s, j) && es[j].key.userKey == es[i].key.userKey
  }

  /** Entry i is what a user sees for its key: the newest seen one, and not a deletion. */
  ghost predicate IsYield(es: seq<Entry>, s: SequenceNumber, i: int)
    requires 0 <= i < |es|
  {
    Seen(es, s, i) && es[i].key.valueType.Value? && !SeenBefore(es, s, i, i)
  }

  /** The positions of the user entries among the first n, in order. */
  ghost function YieldsUpTo(es: seq<Entry>, s: SequenceNumber, n: nat): (ys: seq<int>)
    requires n <= |es|
  {
    if n == 0 then []
    else if IsYield(es, s, n - 1) then YieldsUpTo(es, s, n - 1) + [n - 1]
    else YieldsUpTo(es, s, n - 1)
  }

  ghost function Yields(es: seq<Entry>, s: SequenceNumber): seq<int> {
    YieldsUpTo(es, s, |es|)
  }

  lemma {:induction false} YieldsUpToAre(es: seq<Entry>, s: SequenceNumber, n: nat)
    requires n <= |es|
    ensures forall p | 0 <= p < |YieldsUpTo(es, s, n)| :: 0 <= YieldsUpTo(es, s, n)[p] < n
              && IsYield(es, s, YieldsUpTo(es, s, n)[p])
    ensures forall p, q | 0 <= p < q < |YieldsUpTo(es, s, n)| :: YieldsUpTo(es, s, n)[p] < YieldsUpTo(es, s, n)[q]
    ensures forall i | 0 <= i < n && IsYield(es, s, i) :: i in YieldsUpTo(es, s, n)
  {
    if n > 0 {
      YieldsUpToAre(es, s, n - 1);
    }
  }

  /** The user list holds exactly the keys with a value at s, each once, in key order. */
  lemma YieldsAreReads(es: seq<Entry>, s: SequenceNumber)
    requires Sorted(es)
    ensures var ys := Yields(es, s);
            && (forall p | 0 <= p < |ys| :: 0 <= ys[p] < |es|
                 && Read(EntriesOf(es), es[ys[p]].key.userKey, s) == Some(es[ys[p]].value))
            && (forall p, q | 0 <= p < q < |ys| :: es[ys[p]].key.userKey < es[ys[q]].key.userKey)
            && (forall k | Read(EntriesOf(es), k, s).Some? :: exists p :: 0 <= p < |ys| && es[ys[p]].key.userKey == k)
  {
    YieldsUpToAre(es, s, |es|);
    var ys := Yields(es, s);
    SortedIsDistinct(es);
    forall p | 0 <= p < |ys|
      ensures Read(EntriesOf(es), es[ys[p]].key.userKey, s) == Some(es[ys[p]].value)
    {
      YieldIsNewest(es, s, ys[p]);
      NewestIs(EntriesOf(es), es[ys[p]].key.userKey, s, es[ys[p]]);
    }
    forall p, q | 0 <= p < q < |ys|
      ensures es[ys[p]].key.userKey < es[ys[q]].key.userKey
    {
      assert Precedes(es[ys[p]], es[ys[q]]);
      assert Seen(es, s, ys[p]);
    }
    forall k | Read(EntriesOf(es), k, s).Some?
      ensures exists p :: 0 <= p < |ys| && es[ys[p]].key.userKey == k
    {
      var e := Newest(EntriesOf(es), k, s).value;
      assert IsNewest(EntriesOf(es), k, s, e);
      var i :| 0 <= i < |es| && es[i] == e;
      NewestIsYield(es, s, i);
      var p :| 0 <= p < |ys| && ys[p] == i;
    }
  }

  lemma YieldIsNewest(es: seq<Entry>, s: SequenceNumber, y: int)
    requires Sorted(es) && 0 <= y < |es| && IsYield(es, s, y)
    ensures IsNewest(EntriesOf(es), es[y].key.userKey, s, es[y])
  {
    forall x | x in es && Visible(x, es[y].key.userKey, s)
      ensures x.key.sequence <= es[y].key.sequence
    {
      var i :| 0 <= i < |es| && es[i] == x;
      assert i < y ==> Seen(es, s, i);
      assert y < i ==> Precedes(es[y], es[i]);
    }
  }

  lemma NewestIsYield(es: seq<Entry>, s: SequenceNumber, i: int)
    requires Sorted(es) && 0 <= i < |es| && es[i].key.valueType.Value?
    requires IsNewest(EntriesOf(es), es[i].key.userKey, s, es[i])
    ensures IsYield(es, s, i)
  {
    forall j | 0 <= j < i && Seen(es, s, j)
      ensures es[j].key.userKey != es[i].key.userKey
    {
      assert Precedes(es[j], es[i]);
      assert es[j] in EntriesOf(es);
    }
  }

  ghost predicate NoYields(es: seq<Entry>, s: SequenceNumber, lo: int, hi: int) {
    forall i | lo <= i < hi && 0 <= i < |es| :: !IsYield(es, s, i)
  }

  /** A yield with p yields before it is number p of the list. */
  lemma PlaceInList(es: seq<Entry>, s: SequenceNumber, y: int, p: int)
    requires 0 <= y < |es| && IsYield(es, s, y)
    requires 0 <= p <= |Yields(es, s)|
    requires 0 < p ==> Yields(es, s)[p - 1] < y && NoYields(es, s, Yields(es, s)[p - 1] + 1, y)
    requires p == 0 ==> NoYields(es, s, 0, y)
    ensures p < |Yields(es, s)| && Yields(es, s)[p] == y
  {
    YieldsUpToAre(es, s, |es|);
    var ys := Yields(es, s);
    var q :| 0 <= q < |ys| && ys[q] == y;
  }

  lemma YieldAt(es: seq<Entry>, s: SequenceNumber, p: int)
    requires 0 <= p < |Yields(es, s)|
    ensures 0 <= Yields(es, s)[p] < |es| && IsYield(es, s, Yields(es, s)[p])
    ensures 0 < p ==> Yields(es, s)[p - 1] < Yields(es, s)[p]
    ensures p + 1 < |Yields(es, s)| ==> Yields(es, s)[p] < Yields(es, s)[p + 1]
  {
    YieldsUpToAre(es, s, |es|);
  }

  /** Past a yield with none after it the list is at its end. */
  lemma EndOfList(es: seq<Entry>, s: SequenceNumber, p: int)
    requires 0 <= p <= |Yields(es, s)|
    requires 0 < p ==> 0 <= Yields(es, s)[p - 1] < |es| && NoYields(es, s, Yields(es, s)[p - 1] + 1, |es|)
    requires p == 0 ==> NoYields(es, s, 0, |es|)
    ensures p == |Yields(es, s)|
  {
    if p < |Yields(es, s)| {
      YieldAt(es, s, p);
    }
  }

  /** A yield with p yields after it is number |list|-1-p from the end; here for the next one to the left. */
  lemma PlaceBefore(es: seq<Entry>, s: SequenceNumber, y: int, p: int)
    requires 0 <= y < |es| && IsYield(es, s, y)
    requires 0 <= p <= |Yields(es, s)|
    requires p < |Yields(es, s)| ==> y < Yields(es, s)[p] && NoYields(es, s, y + 1, Yields(es, s)[p])
    requires p == |Yields(es, s)| ==> NoYields(es, s, y + 1, |es|)
    ensures 0 < p && Yields(es, s)[p - 1] == y
  {
    YieldsUpToAre(es, s, |es|);
    var ys := Yields(es, s);
    var q :| 0 <= q < |ys| && ys[q] == y;
  }

  lemma StartOfList(es: seq<Entry>, s: SequenceNumber, p: int)
    requires 0 <= p <= |Yields(es, s)|
    requires p < |Yields(es, s)| ==> 0 <= Yields(es, s)[p] <= |es| && NoYields(es, s, 0, Yields(es, s)[p])
    requires p == |Yields(es, s)| ==> NoYields(es, s, 0, |es|)
    ensures p == 0
  {
    if 0 < p {
      YieldAt(es, s, p - 1);
    }
  }

  // ----- the forward scan -----

  type Limit = Option<UserKey>

  ghost predicate UpTo(limit: Limit, k: UserKey) {
    limit.Some? && k <= limit.value
  }

  /** `skipping` and `skip` single out, among the seen entries from c on, those hidden by a seen entry before
      c and those of keys up to `limit`. */
  ghost predicate SkipState(es: seq<Entry>, s: SequenceNumber, c: int, skipping: bool, skip: UserKey, limit: Limit)
    requires 0 <= c <= |es|
  {
    && (forall i | c <= i < |es| && Seen(es, s, i) :: limit.Some? ==> limit.value <= es[i].key.userKey)
    && (forall i | c <= i < |es| && Seen(es, s, i) ::
          (skipping && es[i].key.userKey <= skip) <==> (SeenBefore(es, s, c, i) || UpTo(limit, es[i].key.userKey)))
  }

  lemma SeenBeforeStep(es: seq<Entry>, s: SequenceNumber, c: int, i: int)
    requires 0 <= c < |es| && 0 <= i < |es|
    ensures SeenBefore(es, s, c + 1, i) <==>
              SeenBefore(es, s, c, i) || (Seen(es, s, c) && es[c].key.userKey == es[i].key.userKey)
  {
    if SeenBefore(es, s, c, i) {
      var j :| 0 <= j < c && Seen(es, s, j) && es[j].key.userKey == es[i].key.userKey;
      assert 0 <= j < c + 1 && Seen(es, s, j);
    }
    if Seen(es, s, c) && es[c].key.userKey == es[i].key.userKey {
      assert 0 <= c < c + 1 && Seen(es, s, c);
    }
  }

  lemma SkipUnseen(es: seq<Entry>, s: SequenceNumber, c: int, skipping: bool, skip: UserKey, limit: Limit)
    requires 0 <= c < |es| && SkipState(es, s, c, skipping, skip, limit) && !Seen(es, s, c)
    ensures SkipState(es, s, c + 1, skipping, skip, limit)
  {
    forall i | c + 1 <= i < |es| && Seen(es, s, i)
      ensures SeenBefore(es, s, c + 1, i) <==> SeenBefore(es, s, c, i)
    {
      SeenBeforeStep(es, s, c, i);
    }
  }

  /** After a deletion every remaining entry of its key is to be skipped. */
  lemma SkipDeletion(es: seq<Entry>, s: SequenceNumber, c: int, skipping: bool, skip: UserKey, limit: Limit)
    requires Sorted(es) && 0 <= c < |es| && SkipState(es, s, c, skipping, skip, limit) && Seen(es, s, c)
    ensures SkipState(es, s, c + 1, true, es[c].key.userKey, limit)
  {
    forall i | c + 1 <= i < |es| && Seen(es, s, i)
      ensures es[i].key.userKey <= es[c].key.userKey <==> SeenBefore(es, s, c + 1, i) || UpTo(limit, es[i].key.userKey)
    {
      assert Precedes(es[c], es[i]);
      SeenBeforeStep(es, s, c, i);
      if SeenBefore(es, s, c, i) {
        var j :| 0 <= j < c && Seen(es, s, j) && es[j].key.userKey == es[i].key.userKey;
        assert Precedes(es[j], es[c]);
      }
    }
  }

  lemma SkipHidden(es: seq<Entry>, s: SequenceNumber, c: int, skip: UserKey, limit: Limit)
    requires Sorted(es) && 0 <= c < |es| && SkipState(es, s, c, true, skip, limit) && Seen(es, s, c)
    requires es[c].key.userKey <= skip
    ensures SkipState(es, s, c + 1, true, skip, limit)
    ensures !IsYield(es, s, c) || UpTo(limit, es[c].key.userKey)
  {
    forall i | c + 1 <= i < |es| && Seen(es, s, i)
      ensures SeenBefore(es, s, c + 1, i) || UpTo(limit, es[i].key.userKey) <==>
                SeenBefore(es, s, c, i) || UpTo(limit, es[i].key.userKey)
    {
      SeenBeforeStep(es, s, c, i);
    }
  }

  lemma NotSkippedIsYield(es: seq<Entry>, s: SequenceNumber, c: int, skipping: bool, skip: UserKey, limit: Limit)
    requires 0 <= c < |es| && SkipState(es, s, c, skipping, skip, limit) && Seen(es, s, c) && es[c].key.valueType.Value?
    requires !(skipping && es[c].key.userKey <= skip)
    ensures IsYield(es, s, c) && !UpTo(limit, es[c].key.userKey)
  {
  }

  // ----- the reverse scan -----

  /** Where the inner cursor may stand while the current entry is y and the direction is reverse: at the last
      seen entry of a smaller key, or run off the front when there is none. */
  ghost predicate ReversePos(es: seq<Entry>, s: SequenceNumber, q: int, y: int)
    requires 0 <= y < |es|
  {
    && 0 <= q <= |es|
    && (q < |es| ==> q < y && es[q].key.userKey < es[y].key.userKey)
    && (forall j | (if q < |es| then q else -1) < j < |es| && es[j].key.userKey < es[y].key.userKey :: !Seen(es, s, j))
  }

  /** State of the scan with b entries left: either everything scanned yields nothing, or d is the candidate. */
  ghost predicate PrevState(es: seq<Entry>, s: SequenceNumber, b: int, start: int, t: ValueType, key: UserKey,
                            value: Bytes, d: int)
    requires 0 <= b <= start <= |es|
  {
    if t.Deletion? then NoYields(es, s, b, start)
    else
      && b <= d < start && Seen(es, s, d) && es[d].key.valueType.Value?
      && key == es[d].key.userKey && value == es[d].value
      && (forall j | b <= j < d :: !Seen(es, s, j))
      && NoYields(es, s, d + 1, start)
  }

  /** A candidate with no seen entry of its key further left is the yield. */
  lemma CandidateIsYield(es: seq<Entry>, s: SequenceNumber, b: int, start: int, key: UserKey, value: Bytes, d: int)
    requires Sorted(es) && 0 <= b <= start <= |es| && PrevState(es, s, b, start, Value, key, value, d)
    requires b == 0 || (Seen(es, s, b - 1) && es[b - 1].key.userKey < key)
    ensures IsYield(es, s, d)
    ensures ReversePos(es, s, if b == 0 then |es| else b - 1, d)
  {
    forall j | 0 <= j < b
      ensures es[j].key.userKey < key
    {
      assert j == b - 1 || Precedes(es[j], es[b - 1]);
    }
    assert forall j | d < j < |es| :: Precedes(es[d], es[j]);
  }

  lemma OlderHidden(es: seq<Entry>, s: SequenceNumber, c: int, start: int, key: UserKey, value: Bytes, d: int)
    requires Sorted(es) && 0 <= c < start <= |es| && PrevState(es, s, c + 1, start, Value, key, value, d)
    requires Seen(es, s, c) && !(es[c].key.userKey < key)
    ensures NoYields(es, s, c + 1, start)
  {
    assert Precedes(es[c], es[d]);
    assert SeenBefore(es, s, d, d);
  }

  // ----- the cursor -----

  datatype Direction = Forward | Reverse

  /** Any key will do for a cleared saved_key_; it is never compared. */
  const CLEARED_KEY: UserKey := 0.0

  class DbIter {
    const iter: InternalIterator
    const sequence: SequenceNumber
    var savedKey: UserKey
    var savedValue: Bytes
    var direction: Direction
    var valid: bool
    /** The place in the user list; |list| when the cursor is not valid. */
    ghost var at: nat

    constructor (iter: InternalIterator, sequence: SequenceNumber)
      requires Sorted(iter.entries) && iter.Positioned()
      ensures this.iter == iter && this.sequence == sequence && !valid && Refines()
    {
      this.iter, this.sequence := iter, sequence;
      savedKey, savedValue := CLEARED_KEY, [];
      direction, valid := Forward, false;
      at := |Yields(iter.entries, sequence)|;
    }

    ghost function List(): seq<int> {
      Yields(iter.entries, sequence)
    }

    /** The fields stand for place `at` of the list. */
    ghost predicate Refines()
      reads this, iter
    {
      var es := iter.entries;
      && Sorted(es) && iter.Positioned()
      && at <= |List()| && (valid <==> at < |List()|)
      && (valid && direction.Forward? ==> iter.pos == List()[at])
      && (valid && direction.Reverse? ==>
            && 0 <= List()[at] < |es|
            && savedKey == es[List()[at]].key.userKey && savedValue == es[List()[at]].value
            && ReversePos(es, sequence, iter.pos, List()[at]))
    }

    method Key() returns (k: UserKey)
      requires Refines() && valid
      ensures 0 <= List()[at] < |iter.entries| && k == iter.entries[List()[at]].key.userKey
    {
      YieldAt(iter.entries, sequence, at);
      k := if direction.Forward? then iter.Key().userKey else savedKey;
    }

    method Value() returns (v: Bytes)
      requires Refines() && valid
      ensures 0 <= List()[at] < |iter.entries| && v == iter.entries[List()[at]].value
    {
      YieldAt(iter.entries, sequence, at);
      v := if direction.Forward? then iter.entries[iter.pos].value else savedValue;
    }

    /** Moves forward to the first yield past `limit`. */
    method FindNextUserEntry(skipping0: bool, ghost limit: Limit)
      requires Sorted(iter.entries) && iter.Valid() && direction.Forward?
      requires SkipState(iter.entries, sequence, iter.pos, skipping0, savedKey, limit)
      modifies this`savedKey, this`valid, iter
      ensures iter.Positioned() && old(iter.pos) <= iter.pos && (valid <==> iter.Valid())
      ensures valid ==> IsYield(iter.entries, sequence, iter.pos) && !UpTo(limit, iter.entries[iter.pos].key.userKey)
      ensures forall i | old(iter.pos) <= i < iter.pos :: IsYield(iter.entries, sequence, i) ==>
                UpTo(limit, iter.entries[i].key.userKey)
    {
      var skipping := skipping0;
      while iter.Valid()
        invariant iter.Positioned() && old(iter.pos) <= iter.pos
        invariant SkipState(iter.entries, sequence, iter.pos, skipping, savedKey, limit)
        invariant forall i | old(iter.pos) <= i < iter.pos :: IsYield(iter.entries, sequence, i) ==>
                    UpTo(limit, iter.entries[i].key.userKey)
        decreases |iter.entries| - iter.pos
      {
        var ikey := iter.Key();
        if ikey.sequence <= sequence {
          match ikey.valueType {
            case Deletion =>
              SkipDeletion(iter.entries, sequence, iter.pos, skipping, savedKey, limit);
              savedKey := ikey.userKey;
              skipping := true;
            case Value =>
              if skipping && ikey.userKey <= savedKey {
                SkipHidden(iter.entries, sequence, iter.pos, savedKey, limit);
              } else {
                NotSkippedIsYield(iter.entries, sequence, iter.pos, skipping, savedKey, limit);
                valid := true;
                savedKey := CLEARED_KEY;
                return;
              }
          }
        } else {
          SkipUnseen(iter.entries, sequence, iter.pos, skipping, savedKey, limit);
        }
        iter.Next();
      }
      savedKey := CLEARED_KEY;
      valid := false;
    }

    method Next()
      requires Refines() && valid
      modifies this, iter
      ensures Refines() && at == old(at) + 1
    {
      ghost var es, y := iter.entries, List()[at];
      YieldAt(es, sequence, at);
      ghost var limit := Some(es[y].key.userKey);
      if direction.Reverse? {
        direction := Forward;
        if !iter.Valid() {
          iter.SeekToFirst();
        } else {
          iter.Next();
        }
        NextAfterReverse(es, sequence, old(iter.pos), iter.pos, y);
      } else {
        savedKey := iter.Key().userKey;
        NextAfterForward(es, sequence, y);
      }
      FindNextUserEntry(true, limit);
      at := at + 1;
      NextPlace(es, sequence, old(at), iter.pos);
    }

    /** Moves backward to the last yield among the entries up to the inner cursor. */
    method FindPrevUserEntry()
      requires Sorted(iter.entries) && iter.Positioned() && direction.Reverse?
      modifies this`savedKey, this`savedValue, this`valid, this`direction, iter
      ensures iter.Positioned()
      ensures var start := if old(iter.pos) < |iter.entries| then old(iter.pos) + 1 else 0;
              if valid then
                direction.Reverse? && exists d :: (
                  && LastYield(iter.entries, sequence, d, start) && savedKey == iter.entries[d].key.userKey
                  && savedValue == iter.entries[d].value && ReversePos(iter.entries, sequence, iter.pos, d))
              else
                NoYields(iter.entries, sequence, 0, start)
    {
      ghost var es, start := iter.entries, if iter.pos < |iter.entries| then iter.pos + 1 else 0;
      ghost var b: int, d: int := start, -1;
      var valueType := Deletion;
      while iter.Valid()
        invariant iter.Positioned() && direction.Reverse?
        invariant b == (if iter.Valid() then iter.pos + 1 else 0) && b <= start
        invariant PrevState(es, sequence, b, start, valueType, savedKey, savedValue, d)
        decreases b
      {
        var ikey := iter.Key();
        if ikey.sequence <= sequence {
          if valueType.Value? && ikey.userKey < savedKey {
            break;
          }
          if valueType.Value? {
            OlderHidden(es, sequence, iter.pos, start, savedKey, savedValue, d);
          }
          valueType := ikey.valueType;
          if valueType.Deletion? {
            savedKey := CLEARED_KEY;
            savedValue := [];
          } else {
            savedKey := ikey.userKey;
            savedValue := iter.entries[iter.pos].value;
            d := iter.pos;
          }
        }
        iter.Prev();
        b := b - 1;
      }
      if valueType.Deletion? {
        valid := false;
        savedKey := CLEARED_KEY;
        savedValue := [];
        direction := Forward;
      } else {
        CandidateIsYield(es, sequence, b, start, savedKey, savedValue, d);
        assert LastYield(es, sequence, d, start);
        valid := true;
      }
    }

    method Prev()
      requires Refines() && valid
      modifies this, iter
      ensures Refines() && at == if old(at) == 0 then |List()| else old(at) - 1
    {
      ghost var es, y := iter.entries, List()[at];
      YieldAt(es, sequence, at);
      if direction.Forward? {
        savedKey := iter.Key().userKey;
        while true
          invariant at == old(at) && direction.Forward?
          invariant iter.Valid() && iter.pos <= y && savedKey == es[y].key.userKey
          invariant forall j | iter.pos <= j <= y :: es[j].key.userKey == savedKey
          decreases iter.pos
        {
          iter.Prev();
          if !iter.Valid() {
            valid := false;
            savedKey, savedValue := CLEARED_KEY, [];
            OneKeyBefore(es, sequence, 0, y);
            StartOfList(es, sequence, at);
            at := |List()|;
            return;
          }
          assert Precedes(es[iter.pos], es[iter.pos + 1]);
          if iter.Key().userKey < savedKey {
            break;
          }
        }
        direction := Reverse;
        OneKeyBefore(es, sequence, iter.pos + 1, y);
      } else {
        BeforeReversePos(es, sequence, iter.pos, y);
      }
      ghost var start := if iter.pos < |es| then iter.pos + 1 else 0;
      FindPrevUserEntry();
      PrevPlace(es, sequence, at, start, valid);
      at := if at == 0 then |List()| else at - 1;
    }

    method Seek(target: UserKey)
      requires Sorted(iter.entries) && iter.Positioned()
      modifies this, iter
      ensures Refines()
      ensures forall p | 0 <= p < |List()| :: 0 <= List()[p] < |iter.entries|
                && (p < at <==> iter.entries[List()[p]].key.userKey < target)
    {
      direction := Forward;
      savedValue := [];
      savedKey := target;
      iter.Seek(LookupKey(target, sequence));
      ghost var start := iter.pos;
      SeekSkipsNothing(iter.entries, sequence, target, start, savedKey);
      if iter.Valid() {
        FindNextUserEntry(false, None);
      } else {
        valid := false;
      }
      at := PlaceOf(iter.entries, sequence, target, start, iter.pos);
    }

    method SeekToFirst()
      requires Sorted(iter.entries) && iter.Positioned()
      modifies this, iter
      ensures Refines() && at == 0
    {
      direction := Forward;
      savedValue := [];
      iter.SeekToFirst();
      if iter.Valid() {
        FindNextUserEntry(false, None);
      } else {
        valid := false;
      }
      at := 0;
      if valid {
        PlaceInList(iter.entries, sequence, iter.pos, 0);
      } else {
        EndOfList(iter.entries, sequence, 0);
      }
    }

    method SeekToLast()
      requires Sorted(iter.entries) && iter.Positioned()
      modifies this, iter
      ensures Refines() && at == if List() == [] then 0 else |List()| - 1
    {
      direction := Reverse;
      savedValue := [];
      iter.SeekToLast();
      FindPrevUserEntry();
      PrevPlace(iter.entries, sequence, |List()|, |iter.entries|, valid);
      at := if List() == [] then 0 else |List()| - 1;
    }
  }

  ghost predicate LastYield(es: seq<Entry>, s: SequenceNumber, d: int, start: int) {
    0 <= d < start <= |es| && IsYield(es, s, d) && NoYields(es, s, d + 1, start)
  }

  lemma NextAfterForward(es: seq<Entry>, s: SequenceNumber, y: int)
    requires Sorted(es) && 0 <= y < |es| && IsYield(es, s, y)
    ensures SkipState(es, s, y, true, es[y].key.userKey, Some(es[y].key.userKey))
  {
    assert forall i | y < i < |es| :: Precedes(es[y], es[i]);
    forall i | y <= i < |es| && SeenBefore(es, s, y, i)
      ensures es[i].key.userKey <= es[y].key.userKey
    {
      var j :| 0 <= j < y && Seen(es, s, j) && es[j].key.userKey == es[i].key.userKey;
      assert Precedes(es[j], es[y]);
    }
  }

  /** Stepping off the reverse position lands before every entry of the current key, with nothing seen between. */
  lemma NextAfterReverse(es: seq<Entry>, s: SequenceNumber, q: nat, c: nat, y: int)
    requires Sorted(es) && 0 <= y < |es| && IsYield(es, s, y) && ReversePos(es, s, q, y)
    requires c == if q < |es| then q + 1 else 0
    ensures c <= y
    ensures SkipState(es, s, c, true, es[y].key.userKey, Some(es[y].key.userKey))
    ensures NoYields(es, s, c, y)
  {
    forall j | 0 <= j < c
      ensures es[j].key.userKey < es[y].key.userKey
    {
      assert j == q || Precedes(es[j], es[q]);
    }
    forall i | c <= i < y
      ensures !IsYield(es, s, i)
    {
      assert Precedes(es[i], es[y]);
    }
  }

  /** From yield number p, the first yield of a larger key is number p + 1. */
  lemma NextPlace(es: seq<Entry>, s: SequenceNumber, p: nat, c: nat)
    requires Sorted(es) && p < |Yields(es, s)| && c <= |es|
    requires 0 <= Yields(es, s)[p] < |es|
    requires c < |es| ==> IsYield(es, s, c) && !UpTo(Some(es[Yields(es, s)[p]].key.userKey), es[c].key.userKey)
    requires forall i | Yields(es, s)[p] < i < c && IsYield(es, s, i) ::
               UpTo(Some(es[Yields(es, s)[p]].key.userKey), es[i].key.userKey)
    ensures c < |es| ==> p + 1 < |Yields(es, s)| && Yields(es, s)[p + 1] == c
    ensures c == |es| ==> p + 1 == |Yields(es, s)|
  {
    var y := Yields(es, s)[p];
    YieldAt(es, s, p);
    forall i | y < i < c && 0 <= i < |es|
      ensures !IsYield(es, s, i)
    {
      assert Precedes(es[y], es[i]);
      assert Seen(es, s, y);
    }
    assert NoYields(es, s, y + 1, c);
    if c < |es| {
      assert c < y ==> Precedes(es[c], es[y]);
      PlaceInList(es, s, c, p + 1);
    } else {
      EndOfList(es, s, p + 1);
    }
  }

  /** Entries of the yield's own key before it are not seen. */
  lemma OneKeyBefore(es: seq<Entry>, s: SequenceNumber, lo: int, y: int)
    requires 0 <= lo <= y < |es| && IsYield(es, s, y)
    requires forall j | lo <= j <= y :: es[j].key.userKey == es[y].key.userKey
    ensures NoYields(es, s, lo, y)
  {
  }

  lemma BeforeReversePos(es: seq<Entry>, s: SequenceNumber, q: nat, y: int)
    requires Sorted(es) && 0 <= y < |es| && IsYield(es, s, y) && ReversePos(es, s, q, y)
    ensures (if q < |es| then q + 1 else 0) <= y
    ensures NoYields(es, s, if q < |es| then q + 1 else 0, y)
  {
    NextAfterReverse(es, s, q, if q < |es| then q + 1 else 0, y);
  }

  /** The last yield before yield number p is number p - 1. */
  lemma PrevPlace(es: seq<Entry>, s: SequenceNumber, p: nat, start: nat, found: bool)
    requires p <= |Yields(es, s)| && start <= |es|
    requires p < |Yields(es, s)| ==> start <= Yields(es, s)[p] && NoYields(es, s, start, Yields(es, s)[p])
    requires p == |Yields(es, s)| ==> NoYields(es, s, start, |es|)
    requires if found then exists d :: LastYield(es, s, d, start) else NoYields(es, s, 0, start)
    ensures found <==> 0 < p
    ensures forall d | LastYield(es, s, d, start) :: 0 < p && Yields(es, s)[p - 1] == d
  {
    if p < |Yields(es, s)| {
      YieldAt(es, s, p);
    }
    if !found {
      StartOfList(es, s, p);
    }
    forall d | LastYield(es, s, d, start)
      ensures 0 < p && Yields(es, s)[p - 1] == d
    {
      PlaceBefore(es, s, d, p);
    }
  }

  /** Before the lookup position nothing of the target's key is seen. */
  lemma SeekSkipsNothing(es: seq<Entry>, s: SequenceNumber, target: UserKey, start: nat, skip: UserKey)
    requires Sorted(es) && IsLowerBound(es, LookupKey(target, s), start)
    ensures SkipState(es, s, start, false, skip, None)
  {
    assert forall j | 0 <= j < start && Seen(es, s, j) :: es[j].key.userKey < target;
    assert forall i | start <= i < |es| && Seen(es, s, i) :: target <= es[i].key.userKey;
  }

  /** Seek's place in the list: after the yields of smaller keys. */
  ghost function PlaceOf(es: seq<Entry>, s: SequenceNumber, target: UserKey, start: nat, c: nat): (p: nat)
    requires Sorted(es) && IsLowerBound(es, LookupKey(target, s), start) && start <= c <= |es|
    requires c < |es| ==> IsYield(es, s, c)
    requires NoYields(es, s, start, c)
    ensures p <= |Yields(es, s)| && (p < |Yields(es, s)| <==> c < |es|) && (c < |es| ==> Yields(es, s)[p] == c)
    ensures forall q | 0 <= q < |Yields(es, s)| :: 0 <= Yields(es, s)[q] < |es|
              && (q < p <==> es[Yields(es, s)[q]].key.userKey < target)
  {
    YieldsUpToAre(es, s, |es|);
    SeekPlace(es, s, target, start, c);
    if c == |es| then |Yields(es, s)|
    else
      var p :| 0 <= p < |Yields(es, s)| && Yields(es, s)[p] == c;
      p
  }

  lemma SeekPlace(es: seq<Entry>, s: SequenceNumber, target: UserKey, start: nat, c: nat)
    requires Sorted(es) && IsLowerBound(es, LookupKey(target, s), start) && start <= c <= |es|
    requires NoYields(es, s, start, c)
    ensures forall q | 0 <= q < |Yields(es, s)| :: 0 <= Yields(es, s)[q] < |es| &&
              (Yields(es, s)[q] < c <==> es[Yields(es, s)[q]].key.userKey < target)
  {
    YieldsUpToAre(es, s, |es|);
    forall q | 0 <= q < |Yields(es, s)|
      ensures Yields(es, s)[q] < c <==> es[Yields(es, s)[q]].key.userKey < target
    {
      var y := Yields(es, s)[q];
      assert Seen(es, s, y);
    }
  }
}
