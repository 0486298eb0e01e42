/** The bytewise comparator and the keys that separate table blocks (util/comparator.cc, db/dbformat.cc). */
module Comparator {
  import opened InternalKeys

  /** Lexicographic order; a proper prefix comes first. */
  predicate Before(a: Bytes, b: Bytes) {
    b != [] && (a == [] || a[0] < b[0] || (a[0] == b[0] && Before(a[1..], b[1..])))
  }

  lemma {:induction false} BeforeIsStrict(a: Bytes, b: Bytes)
    ensures !(Before(a, b) && Before(b, a)) && !Before(a, a)
    ensures a == b || Before(a, b) || Before(b, a)
    decreases |a|
  {
    if a != [] {
      BeforeIsStrict(a[1..], a[1..]);
    }
    if a != [] && b != [] {
      BeforeIsStrict(a[1..], b[1..]);
      if a[0] == b[0] && a[1..] == b[1..] {
        assert a == [a[0]] + a[1..] && b == [b[0]] + b[1..];
      }
    }
  }

  lemma {:induction false} BeforeIsTransitive(a: Bytes, b: Bytes, c: Bytes)
    requires Before(a, b) && Before(b, c)
    ensures Before(a, c)
  {
    if a != [] && a[0] == b[0] == c[0] {
      BeforeIsTransitive(a[1..], b[1..], c[1..]);
    }
  }

  /** Order decided at the first difference. */
  lemma {:induction false} BeforeAt(a: Bytes, b: Bytes, d: nat)
    requires d < |b| && d <= |a| && a[..d] == b[..d] && (d < |a| ==> a[d] < b[d])
    ensures Before(a, b)
  {
    if d > 0 {
      assert a[0] == a[..d][0] == b[..d][0] == b[0];
      assert a[1..][..d - 1] == a[..d][1..] == b[..d][1..] == b[1..][..d - 1];
      BeforeAt(a[1..], b[1..], d - 1);
    }
  }

  /** The strings part at d. */
  predicate Part(a: Bytes, b: Bytes, d: nat) {
    d < |a| && d < |b| && a[..d] == b[..d] && a[d] != b[d]
  }

  /** Where they part there is room for a byte in between. */
  predicate RoomBetween(a: Bytes, b: Bytes, d: nat) {
    Part(a, b, d) && a[d] < 0xff && a[d] + 1 < b[d]
  }

  ghost predicate Separable(start: Bytes, limit: Bytes) {
    exists d: nat :: RoomBetween(start, limit, d)
  }

  /** What comes after `a` and is no longer than d agrees with it before it parts. */
  lemma {:induction false} AfterPartsEarly(a: Bytes, s: Bytes, d: nat)
    requires Before(a, s) && |s| <= d <= |a|
    ensures exists e: nat :: e < |s| && Part(a, s, e) && a[e] < s[e]
  {
    if a[0] < s[0] {
      assert Part(a, s, 0);
    } else {
      AfterPartsEarly(a[1..], s[1..], d - 1);
      var e: nat :| e < |s[1..]| && Part(a[1..], s[1..], e) && a[1..][e] < s[1..][e];
      assert a[..e + 1] == [a[0]] + a[1..][..e] && s[..e + 1] == [s[0]] + s[1..][..e];
      assert Part(a, s, e + 1);
    }
  }

  /** Nothing between two strings is shorter than where they part. */
  lemma NothingShorterBetween(start: Bytes, limit: Bytes, d: nat, s: Bytes)
    requires d <= |start| && d <= |limit| && start[..d] == limit[..d] && Before(start, s) && Before(s, limit)
    ensures d < |s|
  {
    if |s| <= d {
      AfterPartsEarly(start, s, d);
      var e: nat :| e < |s| && Part(start, s, e) && start[e] < s[e];
      assert limit[..e] == limit[..d][..e] == start[..d][..e] == start[..e] == s[..e];
      assert limit[e] == limit[..d][e] == start[..d][e] == start[e];
      BeforeAt(limit, s, e);
      BeforeIsStrict(s, limit);
    }
  }

  /** BytewiseComparator's FindShortestSeparator: where the keys part with a byte in between, the shortest string
      strictly between them, and otherwise the start itself. */
  method FindShortestSeparator(start: Bytes, limit: Bytes) returns (r: Bytes)
    ensures r == start || (Before(start, r) && Before(r, limit))
    ensures |r| <= |start|
    ensures r != start <==> Separable(start, limit)
    ensures r != start ==> forall s | Before(start, s) && Before(s, limit) :: |r| <= |s|
    ensures |r| < |start| <==> exists d: nat :: RoomBetween(start, limit, d) && d + 1 < |start|
  {
    var minLength := if |start| < |limit| then |start| else |limit|;
    var diff := 0;
    while diff < minLength && start[diff] == limit[diff]
      invariant diff <= minLength && start[..diff] == limit[..diff]
    {
      diff := diff + 1;
    }
    r := start;
    forall d: nat | Part(start, limit, d)
      ensures diff < minLength && d == diff
    {
      PartedAt(start, limit, diff, d);
    }
    if diff < minLength {
      var byte: int := start[diff];
      if byte < 0xff && byte + 1 < limit[diff] {
        r := start[..diff] + [byte + 1];
        assert r[..diff] == start[..diff] && r[diff] != start[diff];
        assert RoomBetween(start, limit, diff);
        BeforeAt(start, r, diff);
        BeforeAt(r, limit, diff);
        forall s | Before(start, s) && Before(s, limit)
          ensures |r| <= |s|
        {
          NothingShorterBetween(start, limit, diff, s);
        }
      }
    }
  }

  lemma PartedAt(a: Bytes, b: Bytes, diff: nat, d: nat)
    requires diff <= |a| && diff <= |b| && a[..diff] == b[..diff] && Part(a, b, d)
    requires diff < |a| && diff < |b| ==> a[diff] != b[diff]
    ensures diff < |a| && diff < |b| && d == diff
  {
  }

  /** After a string with nothing but 0xff bytes in front of d comes nothing of d bytes. */
  lemma NothingShorterAfter(key: Bytes, d: nat, s: Bytes)
    requires d <= |key| && (forall k | 0 <= k < d :: key[k] == 0xff) && Before(key, s)
    ensures d < |s|
  {
    if |s| <= d {
      AfterPartsEarly(key, s, d);
    }
  }

  /** FindShortSuccessor: the shortest string after the key, if a byte of it can grow, and otherwise the key itself. */
  method FindShortSuccessor(key: Bytes) returns (r: Bytes)
    ensures r == key || Before(key, r)
    ensures |r| <= |key|
    ensures r == key <==> forall k | 0 <= k < |key| :: key[k] == 0xff
    ensures r != key ==> forall s | Before(key, s) :: |r| <= |s|
    ensures |r| < |key| <==> exists k | 0 <= k < |key| - 1 :: key[k] != 0xff
  {
    for i := 0 to |key|
      invariant forall k | 0 <= k < i :: key[k] == 0xff
    {
      var byte: int := key[i];
      if byte != 0xff {
        r := key[..i] + [byte + 1];
        assert r[..i] == key[..i] && r[i] != key[i];
        BeforeAt(key, r, i);
        forall s | Before(key, s)
          ensures |r| <= |s|
        {
          NothingShorterAfter(key, i, s);
        }
        return;
      }
    }
    return key;
  }

  // ----- internal keys over byte strings -----

  /** A user key with its packed sequence number and type. */
  datatype TableKey = TableKey(user: Bytes, packed: nat)

  const MAX_PACKED: nat := PackSequenceAndType(MAX_SEQUENCE, SEEK_TYPE)

  predicate KeyBefore(a: TableKey, b: TableKey) {
    Before(a.user, b.user) || (a.user == b.user && a.packed > b.packed)
  }

  lemma KeyBeforeIsStrict(a: TableKey, b: TableKey)
    ensures !(KeyBefore(a, b) && KeyBefore(b, a)) && !KeyBefore(a, a)
    ensures a == b || KeyBefore(a, b) || KeyBefore(b, a)
  {
    BeforeIsStrict(a.user, b.user);
    BeforeIsStrict(a.user, a.user);
  }

  lemma KeyBeforeIsTransitive(a: TableKey, b: TableKey, c: TableKey)
    requires KeyBefore(a, b) && KeyBefore(b, c)
    ensures KeyBefore(a, c)
  {
    if Before(a.user, b.user) && Before(b.user, c.user) {
      BeforeIsTransitive(a.user, b.user, c.user);
    }
  }

  /** What separators rest on: a separator either is the start or carries a user key strictly between. */
  ghost predicate Separates(start: TableKey, limit: TableKey, r: TableKey) {
    r == start || (Before(start.user, r.user) && Before(r.user, limit.user) && r.packed == MAX_PACKED)
  }

  /** The start itself, unless a shorter user key separates. */
  method InternalSeparator(start: TableKey, limit: TableKey) returns (r: TableKey)
    ensures Separates(start, limit, r)
    ensures |r.user| < |start.user| <==>
              exists d: nat :: RoomBetween(start.user, limit.user, d) && d + 1 < |start.user|
    ensures r != start ==>
              |r.user| < |start.user| && forall s | Before(start.user, s) && Before(s, limit.user) :: |r.user| <= |s|
  {
    var tmp := FindShortestSeparator(start.user, limit.user);
    r := start;
    if |tmp| < |start.user| && Before(start.user, tmp) {
      BeforeIsStrict(start.user, start.user);
      r := TableKey(tmp, MAX_PACKED);
    }
  }

  /** The start comes no later than its separator, which comes before the limit if the start does. */
  lemma SeparatorIsBetween(start: TableKey, limit: TableKey, r: TableKey)
    requires Separates(start, limit, r) && KeyBefore(start, limit)
    ensures (r == start || KeyBefore(start, r)) && KeyBefore(r, limit)
  {
  }

  /** The key itself, unless a shorter user key comes after it. */
  method InternalSuccessor(key: TableKey) returns (r: TableKey)
    ensures r == key || (Before(key.user, r.user) && r.packed == MAX_PACKED)
    ensures |r.user| < |key.user| <==> exists k | 0 <= k < |key.user| - 1 :: key.user[k] != 0xff
    ensures r != key ==> |r.user| < |key.user| && forall s | Before(key.user, s) :: |r.user| <= |s|
  {
    var tmp := FindShortSuccessor(key.user);
    r := key;
    if |tmp| < |key.user| && Before(key.user, tmp) {
      r := TableKey(tmp, MAX_PACKED);
    }
  }
}
