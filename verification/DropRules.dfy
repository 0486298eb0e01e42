/** Which entries a compaction drops, and exactly when dropping them leaves every read unchanged
    (the comments (A), (1), (2), (3) of db/db_impl.cc, DoCompactionWork). */
module DropRules {
  import opened InternalKeys
  import opened SnapshotReads

  /** Rule (A): hidden by a newer input entry for the same user key that every snapshot can see. */
  ghost predicate Hidden(inputs: iset<Entry>, e: Entry, smallest: SequenceNumber) {
    exists x :: x in inputs && Visible(x, e.key.userKey, smallest) && x.key.sequence > e.key.sequence
  }

  /** A deletion marker every snapshot can see, for a user key with no data below the output level. */
  ghost predicate Obsolete(e: Entry, smallest: SequenceNumber, base: iset<UserKey>) {
    e.key.valueType.Deletion? && e.key.sequence <= smallest && e.key.userKey in base
  }

  ghost predicate Survives(inputs: iset<Entry>, e: Entry, smallest: SequenceNumber, base: iset<UserKey>) {
    e in inputs && !Hidden(inputs, e, smallest) && !Obsolete(e, smallest, base)
  }

  /** The database after its entries `inputs` were replaced by the survivors. */
  ghost function Compacted(es: iset<Entry>, inputs: iset<Entry>, smallest: SequenceNumber,
                           base: iset<UserKey>): iset<Entry> {
    iset e | e in es && (e in inputs ==> Survives(inputs, e, smallest, base))
  }

  ghost function Without(es: iset<Entry>, inputs: iset<Entry>): iset<Entry> {
    iset e | e in es && e !in inputs
  }

  /** The dropped marker `t` was the only thing hiding an older value that the compaction does not read. */
  ghost predicate Exposes(es: iset<Entry>, inputs: iset<Entry>, smallest: SequenceNumber, base: iset<UserKey>,
                          t: Entry) {
    && t in inputs && Obsolete(t, smallest, base)
    && IsNewest(es, t.key.userKey, smallest, t)
    && Read(Without(es, inputs), t.key.userKey, t.key.sequence).Some?
  }

  lemma NewestUnique(es: iset<Entry>, k: UserKey, s: int, e: Entry)
    requires Distinct(es) && Newest(es, k, s) == Some(e)
    ensures IsNewest(es, k, s, e)
  {
  }

  /** A surviving newest entry stays the newest. */
  lemma SurvivorStaysNewest(es: iset<Entry>, es': iset<Entry>, k: UserKey, s: int, e: Entry)
    requires Distinct(es) && es' <= es && IsNewest(es, k, s, e) && e in es'
    ensures Newest(es', k, s) == Some(e)
  {
    assert IsNewest(es', k, s, e);
    NewestIs(es', k, s, e);
  }

  /** Only a marker dropped as obsolete can be the newest entry of a read and be gone afterwards. */
  lemma DroppedNewestIsObsolete(es: iset<Entry>, inputs: iset<Entry>, smallest: SequenceNumber, base: iset<UserKey>,
                                k: UserKey, s: int, e: Entry)
    requires inputs <= es && smallest <= s
    requires IsNewest(es, k, s, e) && e !in Compacted(es, inputs, smallest, base)
    ensures e in inputs && Obsolete(e, smallest, base) && IsNewest(es, k, smallest, e)
  {
    forall x | x in inputs && Visible(x, k, smallest)
      ensures x.key.sequence <= e.key.sequence
    {
      assert Visible(x, k, s);
    }
  }

  /** With the marker gone, a read of its key falls through to what the inputs did not hold. */
  lemma ReadBelowMarker(es: iset<Entry>, inputs: iset<Entry>, smallest: SequenceNumber, base: iset<UserKey>, s: int,
                        t: Entry)
    requires Distinct(es) && inputs <= es && smallest <= s
    requires t in inputs && Obsolete(t, smallest, base) && IsNewest(es, t.key.userKey, s, t)
    ensures Newest(Compacted(es, inputs, smallest, base), t.key.userKey, s) == Newest(Without(es, inputs),
            t.key.userKey, t.key.sequence)
  {
    var k := t.key.userKey;
    var after, rest := Compacted(es, inputs, smallest, base), Without(es, inputs);
    assert Visible(t, k, smallest);
    forall x | x in after && Visible(x, k, s)
      ensures x in rest && Visible(x, k, t.key.sequence)
    {
      assert x.key.sequence <= t.key.sequence;
      assert x in inputs && x.key.sequence < t.key.sequence ==> Hidden(inputs, x, smallest);
    }
    assert forall x | x in rest && Visible(x, k, t.key.sequence) :: x in after && Visible(x, k, s);
    assert forall x :: IsNewest(after, k, s, x) <==> IsNewest(rest, k, t.key.sequence, x);
    match Newest(rest, k, t.key.sequence) {
      case None =>
      case Some(x) =>
        NewestIs(rest, k, t.key.sequence, x);
        NewestIs(after, k, s, x);
    }
  }

  lemma ReadAfterCompaction(es: iset<Entry>, inputs: iset<Entry>, smallest: SequenceNumber, base: iset<UserKey>,
                            k: UserKey, s: int)
    requires Distinct(es) && inputs <= es && smallest <= s
    requires forall t :: !Exposes(es, inputs, smallest, base, t)
    ensures Read(es, k, s) == Read(Compacted(es, inputs, smallest, base), k, s)
  {
    var after := Compacted(es, inputs, smallest, base);
    match Newest(es, k, s) {
      case None =>
        forall x | x in after
          ensures !Visible(x, k, s)
        {
          if Visible(x, k, s) {
            NewestExists(es, k, s, x);
          }
        }
        NewestIsNone(after, k, s);
      case Some(e) =>
        NewestUnique(es, k, s, e);
        if e in after {
          SurvivorStaysNewest(es, after, k, s, e);
        } else {
          DroppedNewestIsObsolete(es, inputs, smallest, base, k, s, e);
          ReadBelowMarker(es, inputs, smallest, base, s, e);
          assert !Exposes(es, inputs, smallest, base, e);
        }
    }
  }

  /** Compaction preserves every read at the oldest live snapshot and later exactly when no dropped
      deletion marker exposes an older value outside the inputs. */
  lemma CompactionPreservesReadsIff(es: iset<Entry>, inputs: iset<Entry>, smallest: SequenceNumber, base: iset<UserKey>)
    requires Distinct(es) && inputs <= es
    ensures SameReadsFrom(es, Compacted(es, inputs, smallest, base), smallest)
            <==> forall t :: !Exposes(es, inputs, smallest, base, t)
  {
    if forall t :: !Exposes(es, inputs, smallest, base, t) {
      forall k, s | smallest <= s
        ensures Read(es, k, s) == Read(Compacted(es, inputs, smallest, base), k, s)
      {
        ReadAfterCompaction(es, inputs, smallest, base, k, s);
      }
    } else {
      var t :| Exposes(es, inputs, smallest, base, t);
      NewestIs(es, t.key.userKey, smallest, t);
      ReadBelowMarker(es, inputs, smallest, base, smallest, t);
      assert Read(es, t.key.userKey, smallest) == None;
      assert Read(Compacted(es, inputs, smallest, base), t.key.userKey, smallest).Some?;
    }
  }
}
