/** The reference: a database is a collection of entries, and a read at a snapshot returns the newest
    entry for the key whose sequence number does not exceed the snapshot. */
module SnapshotReads {
  import opened InternalKeys

  datatype Option<+T> = None | Some(value: T)

  ghost predicate Visible(e: Entry, k: UserKey, s: int) {
    e.key.userKey == k && e.key.sequence <= s
  }

  ghost predicate IsNewest(es: iset<Entry>, k: UserKey, s: int, e: Entry) {
    && e in es
    && Visible(e, k, s)
    && forall x | x in es && Visible(x, k, s) :: x.key.sequence <= e.key.sequence
  }

  /** A user key never has two entries with one sequence number. */
  ghost predicate Distinct(es: iset<Entry>) {
    forall a, b | a in es && b in es && a.key.userKey == b.key.userKey && a.key.sequence == b.key.sequence :: a == b
  }

  ghost function Newest(es: iset<Entry>, k: UserKey, s: int): Option<Entry> {
    if exists e :: IsNewest(es, k, s, e) then
      var e :| IsNewest(es, k, s, e);
      Some(e)
    else
      None
  }

  ghost function ReadOf(e: Option<Entry>): Option<Bytes> {
    if e.Some? && e.value.key.valueType.Value? then Some(e.value.value) else None
  }

  /** What a user sees for key `k` at snapshot `s`. */
  ghost function Read(es: iset<Entry>, k: UserKey, s: int): Option<Bytes> {
    ReadOf(Newest(es, k, s))
  }

  lemma NewestExists(es: iset<Entry>, k: UserKey, s: int, e: Entry)
    requires e in es && Visible(e, k, s)
    ensures Newest(es, k, s).Some?
    decreases s - e.key.sequence
  {
    if x :| x in es && Visible(x, k, s) && x.key.sequence > e.key.sequence {
      NewestExists(es, k, s, x);
    } else {
      assert IsNewest(es, k, s, e);
    }
  }

  lemma NewestIs(es: iset<Entry>, k: UserKey, s: int, e: Entry)
    requires Distinct(es) && IsNewest(es, k, s, e)
    ensures Newest(es, k, s) == Some(e)
  {
  }

  lemma NewestIsNone(es: iset<Entry>, k: UserKey, s: int)
    requires forall x | x in es :: !Visible(x, k, s)
    ensures Newest(es, k, s) == None
  {
  }

  /** Reads agree at every snapshot from `smallest` on. */
  ghost predicate SameReadsFrom(es: iset<Entry>, es': iset<Entry>, smallest: int) {
    forall k, s | smallest <= s :: Read(es, k, s) == Read(es', k, s)
  }

  ghost predicate AllNewer(newer: iset<Entry>, older: iset<Entry>) {
    forall x, y | x in newer && y in older :: x.key.sequence > y.key.sequence
  }

  /** Newer entries on top decide a read whenever they hold the key; otherwise the read falls through. */
  lemma NewestOnTop(older: iset<Entry>, newer: iset<Entry>, k: UserKey, s: int)
    requires Distinct(older) && Distinct(newer) && AllNewer(newer, older)
    ensures Newest(older + newer, k, s) == if Newest(newer, k, s).Some? then Newest(newer, k, s)
            else Newest(older, k, s)
  {
    var all := older + newer;
    assert Distinct(all);
    if Newest(newer, k, s).Some? {
      var e := Newest(newer, k, s).value;
      assert IsNewest(newer, k, s, e);
      assert IsNewest(all, k, s, e);
    } else {
      forall x | x in newer
        ensures !Visible(x, k, s)
      {
        if Visible(x, k, s) {
          NewestExists(newer, k, s, x);
        }
      }
      assert forall x :: IsNewest(all, k, s, x) <==> IsNewest(older, k, s, x);
      if x :| IsNewest(older, k, s, x) {
        NewestIs(older, k, s, x);
        NewestIs(all, k, s, x);
      }
    }
  }

  lemma SameReadsUnderNewer(a: iset<Entry>, b: iset<Entry>, newer: iset<Entry>, smallest: int)
    requires SameReadsFrom(a, b, smallest)
    requires Distinct(a) && Distinct(b) && Distinct(newer) && AllNewer(newer, a) && AllNewer(newer, b)
    ensures SameReadsFrom(a + newer, b + newer, smallest)
  {
    forall k, s | smallest <= s
      ensures Read(a + newer, k, s) == Read(b + newer, k, s)
    {
      NewestOnTop(a, newer, k, s);
      NewestOnTop(b, newer, k, s);
      assert Read(a, k, s) == Read(b, k, s);
    }
  }
}
