/** Table files, levelled versions and point lookups (db/version_set.cc, table/table.cc). */
module Versions {
  import opened InternalKeys
  import opened SnapshotReads

  const NUM_LEVELS: nat := 7

  datatype Table = Table(number: nat, fileSize: nat, entries: seq<Entry>) {
    function Smallest(): InternalKey
      requires entries != []
    {
      entries[0].key
    }

    function Largest(): InternalKey
      requires entries != []
    {
      entries[|entries| - 1].key
    }
  }

  ghost predicate ValidTable(t: Table) {
    t.entries != [] && Sorted(t.entries)
  }

  const SomeEntry := Entry(InternalKey(0.0, 0, Value), [])

  /** FileMetaData together with the table's contents. A table without entries is never installed, and the
      recorded bounds are the first and last keys added. */
  type File = t: Table | ValidTable(t) witness Table(0, 0, [SomeEntry])

  type Levels = v: seq<seq<File>> | |v| == NUM_LEVELS witness [[], [], [], [], [], [], []]

  /** Every entry of `f` sorts before every entry of `g`. */
  ghost predicate AllBefore(f: File, g: File) {
    forall a, b | a in f.entries && b in g.entries :: Precedes(a, b)
  }

  /** Every entry of `f` is newer than every entry of `g` with the same user key. */
  ghost predicate NewerThan(f: File, g: File) {
    forall a, b | a in f.entries && b in g.entries && a.key.userKey == b.key.userKey :: a.key.sequence > b.key.sequence
  }

  ghost predicate NewerAt(f: File, g: File, k: UserKey) {
    forall a, b | a in f.entries && b in g.entries && a.key.userKey == k == b.key.userKey ::
        a.key.sequence > b.key.sequence
  }

  ghost predicate Ordered(files: seq<File>) {
    forall i, j | 0 <= i < j < |files| :: AllBefore(files[i], files[j])
  }

  /** Level-0 files may overlap; the higher file number holds the newer entries. */
  ghost predicate NewestByNumber(files: seq<File>) {
    && (forall f, g | f in files && g in files && f.number == g.number :: f == g)
    && (forall f, g | f in files && g in files && f.number > g.number :: NewerThan(f, g))
  }

  /** The level invariant: levels >= 1 are sorted and disjoint, and a shallower level is newer. */
  ghost predicate LevelInvariant(v: Levels) {
    && NewestByNumber(v[0])
    && (forall l | 1 <= l < NUM_LEVELS :: Ordered(v[l]))
    && (forall l, m, f, g | 0 <= l < m < NUM_LEVELS && f in v[l] && g in v[m] :: NewerThan(f, g))
  }

  ghost predicate InLevel(files: seq<File>, e: Entry) {
    exists f :: f in files && e in f.entries
  }

  ghost predicate InVersion(v: Levels, e: Entry) {
    exists l :: 0 <= l < |v| && InLevel(v[l], e)
  }

  ghost function Contents(v: Levels): iset<Entry> {
    iset e | InVersion(v, e)
  }

  // ----- searching one level -----

  lemma LargestAscends(files: seq<File>, mid: nat)
    requires Ordered(files) && mid < |files|
    ensures forall i | 0 <= i < mid :: Less(files[i].Largest(), files[mid].Largest())
    ensures forall i | mid < i < |files| :: Less(files[mid].Largest(), files[i].Largest())
  {
    forall i, j | 0 <= i < j < |files|
      ensures Less(files[i].Largest(), files[j].Largest())
    {
      var a, b := files[i].entries, files[j].entries;
      assert AllBefore(files[i], files[j]);
      assert Precedes(a[|a| - 1], b[|b| - 1]);
    }
  }

  /** FindFile: binary search for the first file whose largest key is >= key. */
  method FindFile(files: seq<File>, key: InternalKey) returns (index: nat)
    requires Ordered(files)
    ensures index <= |files|
    ensures forall i | 0 <= i < index :: Less(files[i].Largest(), key)
    ensures forall i | index <= i < |files| :: !Less(files[i].Largest(), key)
  {
    var left, right := 0, |files|;
    while left < right
      invariant 0 <= left <= right <= |files|
      invariant forall i | 0 <= i < left :: Less(files[i].Largest(), key)
      invariant forall i | right <= i < |files| :: !Less(files[i].Largest(), key)
    {
      var mid := (left + right) / 2;
      LargestAscends(files, mid);
      if Less(files[mid].Largest(), key) {
        left := mid + 1;
      } else {
        right := mid;
      }
    }
    index := right;
  }

  predicate AfterFile(userKey: Option<UserKey>, f: File)
  {
    userKey.Some? && userKey.value > f.Largest().userKey
  }

  predicate BeforeFile(userKey: Option<UserKey>, f: File)
  {
    userKey.Some? && userKey.value < f.Smallest().userKey
  }

  /** The user-key range of `f` meets [lo, hi]; an absent bound is unbounded. */
  predicate Overlaps(f: File, lo: Option<UserKey>, hi: Option<UserKey>)
  {
    !AfterFile(lo, f) && !BeforeFile(hi, f)
  }

  /** SomeFileOverlapsRange: a scan for level 0, a binary search for the sorted levels. */
  method SomeFileOverlapsRange(disjointSortedFiles: bool, files: seq<File>, lo: Option<UserKey>, hi: Option<UserKey>)
    returns (overlap: bool)
    requires disjointSortedFiles ==> Ordered(files)
    ensures overlap <==> exists f :: f in files && Overlaps(f, lo, hi)
  {
    if !disjointSortedFiles {
      for i := 0 to |files|
        invariant forall j | 0 <= j < i :: !Overlaps(files[j], lo, hi)
      {
        if AfterFile(lo, files[i]) || BeforeFile(hi, files[i]) {
        } else {
          assert Overlaps(files[i], lo, hi);
          return true;
        }
      }
      return false;
    }
    var index: nat := 0;
    if lo.Some? {
      index := FindFile(files, InternalKey(lo.value, MAX_SEQUENCE, SEEK_TYPE));
      assert forall i | 0 <= i < index :: AfterFile(lo, files[i]);
    }
    if index >= |files| {
      return false;
    }
    overlap := !BeforeFile(hi, files[index]);
    forall i | index < i < |files|
      ensures files[index].Smallest().userKey <= files[i].Smallest().userKey
    {
      assert AllBefore(files[index], files[i]);
      assert Precedes(files[index].entries[0], files[i].entries[0]);
    }
    if overlap {
      assert Overlaps(files[index], lo, hi);
    }
  }

  // ----- point lookups -----

  /** What Table::InternalGet hands to SaveValue: the first entry >= the lookup key, if any. */
  method SeekEntry(es: seq<Entry>, key: InternalKey) returns (r: Option<Entry>)
    requires Sorted(es)
    ensures exists p :: IsLowerBound(es, key, p) && r == if p < |es| then Some(es[p]) else None
  {
    var lo, hi := 0, |es|;
    while lo < hi
      invariant 0 <= lo <= hi <= |es|
      invariant forall i | 0 <= i < lo :: Less(es[i].key, key)
      invariant forall i | hi <= i < |es| :: !Less(es[i].key, key)
    {
      var mid := (lo + hi) / 2;
      if Less(es[mid].key, key) {
        assert forall i | 0 <= i < mid :: Precedes(es[i], es[mid]);
        lo := mid + 1;
      } else {
        assert forall i | mid < i < |es| :: Precedes(es[mid], es[i]);
        hi := mid;
      }
    }
    assert IsLowerBound(es, key, lo);
    r := if lo < |es| then Some(es[lo]) else None;
  }

  ghost function EntriesOf(es: seq<Entry>): iset<Entry> {
    iset e | e in es
  }

  lemma SortedIsDistinct(es: seq<Entry>)
    requires Sorted(es)
    ensures Distinct(EntriesOf(es))
  {
  }

  /** A sorted run answers a read with its first entry >= the lookup key, provided the user key agrees. */
  lemma SeekFindsNewest(es: seq<Entry>, k: UserKey, s: SequenceNumber, p: nat)
    requires Sorted(es) && IsLowerBound(es, LookupKey(k, s), p)
    ensures p < |es| && es[p].key.userKey == k ==> IsNewest(EntriesOf(es), k, s, es[p])
    ensures p == |es| || es[p].key.userKey != k ==> forall e | e in es :: !Visible(e, k, s)
  {
    forall i | 0 <= i < |es| && Visible(es[i], k, s)
      ensures p <= i && (p < i ==> Precedes(es[p], es[i]))
    {
    }
  }

  method InsertByNumber(f: File, sorted: seq<File>) returns (r: seq<File>)
    requires forall i, j | 0 <= i < j < |sorted| :: sorted[i].number >= sorted[j].number
    ensures forall g :: g in r <==> g == f || g in sorted
    ensures forall i, j | 0 <= i < j < |r| :: r[i].number >= r[j].number
  {
    var i := 0;
    while i < |sorted| && sorted[i].number > f.number
      invariant 0 <= i <= |sorted|
      invariant forall j | 0 <= j < i :: sorted[j].number > f.number
    {
      i := i + 1;
    }
    r := sorted[..i] + [f] + sorted[i..];
    assert forall g :: g in sorted <==> g in sorted[..i] || g in sorted[i..] by {
      assert sorted == sorted[..i] + sorted[i..];
    }
  }

  /** The level-0 files whose range holds the user key, newest first. */
  method OverlappingNewestFirst(files: seq<File>, k: UserKey) returns (tmp: seq<File>)
    ensures forall f :: f in tmp <==> f in files && f.Smallest().userKey <= k <= f.Largest().userKey
    ensures forall i, j | 0 <= i < j < |tmp| :: tmp[i].number >= tmp[j].number
  {
    tmp := [];
    for n := 0 to |files|
      invariant forall f :: f in tmp <==> f in files[..n] && f.Smallest().userKey <= k <= f.Largest().userKey
      invariant forall i, j | 0 <= i < j < |tmp| :: tmp[i].number >= tmp[j].number
    {
      assert files[..n + 1] == files[..n] + [files[n]];
      if k >= files[n].Smallest().userKey && k <= files[n].Largest().userKey {
        tmp := InsertByNumber(files[n], tmp);
      }
    }
    assert files[..|files|] == files;
  }

  lemma OutsideRangeInvisible(f: File, k: UserKey)
    requires k < f.Smallest().userKey || f.Largest().userKey < k
    ensures forall e | e in f.entries :: e.key.userKey != k
  {
    forall e | e in f.entries
      ensures f.Smallest().userKey <= e.key.userKey <= f.Largest().userKey
    {
      var i :| 0 <= i < |f.entries| && f.entries[i] == e;
      assert i == 0 || Precedes(f.entries[0], f.entries[i]);
      assert i == |f.entries| - 1 || Precedes(f.entries[i], f.entries[|f.entries| - 1]);
    }
  }

  ghost predicate HasVisible(f: File, k: UserKey, s: int) {
    exists e :: e in f.entries && Visible(e, k, s)
  }

  /** In a sorted level only the first file reaching the lookup key can hold the newest visible entry. */
  lemma OnlyFirstReaching(files: seq<File>, index: nat, i: nat, k: UserKey, s: SequenceNumber)
    requires Ordered(files)
    requires i < |files| && HasVisible(files[i], k, s)
    requires index <= |files|
    requires forall j | 0 <= j < index :: Less(files[j].Largest(), LookupKey(k, s))
    requires forall j | index <= j < |files| :: !Less(files[j].Largest(), LookupKey(k, s))
    ensures index <= i
    ensures files[index].Smallest().userKey <= k
    ensures index == i || (HasVisible(files[index], k, s) && NewerThan(files[index], files[i]))
  {
    var f := files[i];
    var e :| e in f.entries && Visible(e, k, s);
    var last := f.entries[|f.entries| - 1];
    assert e == last || Precedes(e, last);
    assert e == f.entries[0] || Precedes(f.entries[0], e);
    if index < i {
      var g := files[index];
      var glast := g.entries[|g.entries| - 1];
      assert AllBefore(g, f);
      assert Precedes(glast, e);
      assert Visible(glast, k, s);
      assert g.entries[0] == glast || Precedes(g.entries[0], glast);
    }
  }

  /** The files of one level that Version::Get searches, in order. */
  method FilesToSearch(v: Levels, level: nat, k: UserKey, s: SequenceNumber) returns (files: seq<File>)
    requires LevelInvariant(v) && level < NUM_LEVELS
    ensures SearchList(v, level, k, s, files)
  {
    if level == 0 {
      files := OverlappingNewestFirst(v[0], k);
      forall f | f in v[0] && HasVisible(f, k, s)
        ensures f in files
      {
        if f !in files {
          OutsideRangeInvisible(f, k);
        }
      }
    } else {
      var index := FindFile(v[level], LookupKey(k, s));
      forall i | 0 <= i < |v[level]| && HasVisible(v[level][i], k, s)
        ensures index <= i
        ensures v[level][index].Smallest().userKey <= k
        ensures index == i || (HasVisible(v[level][index], k, s) && NewerThan(v[level][index], v[level][i]))
      {
        OnlyFirstReaching(v[level], index, i, k, s);
      }
      if index >= |v[level]| {
        files := [];
      } else if k < v[level][index].Smallest().userKey {
        files := [];
      } else {
        files := [v[level][index]];
      }
    }
  }

  /** No file of `files` shows anything for k at s. */
  ghost predicate NothingVisible(files: seq<File>, k: UserKey, s: int) {
    forall f | f in files :: !HasVisible(f, k, s)
  }

  /** An entry found in file `f` of a level is the newest of the version when nothing newer was passed over. */
  lemma HitIsNewest(v: Levels, level: nat, f: File, e: Entry, k: UserKey, s: SequenceNumber)
    requires LevelInvariant(v) && level < NUM_LEVELS && f in v[level]
    requires IsNewest(EntriesOf(f.entries), k, s, e)
    requires forall l | 0 <= l < level :: NothingVisible(v[l], k, s)
    requires forall g | g in v[level] && HasVisible(g, k, s) :: g == f || NewerAt(f, g, k)
    ensures IsNewest(Contents(v), k, s, e)
  {
    assert InLevel(v[level], e);
    forall x | x in Contents(v) && Visible(x, k, s)
      ensures x.key.sequence <= e.key.sequence
    {
      var l :| 0 <= l < |v| && InLevel(v[l], x);
      var g :| g in v[l] && x in g.entries;
      assert HasVisible(g, k, s);
      assert level <= l;
      if level < l {
        assert NewerThan(f, g);
      } else if g == f {
        assert x in EntriesOf(f.entries);
      } else {
        assert NewerAt(f, g, k);
      }
    }
  }

  lemma SameEntryFile(v: Levels, l: nat, f: File, a: Entry, m: nat, g: File, b: Entry)
    requires LevelInvariant(v) && l <= m < NUM_LEVELS
    requires f in v[l] && a in f.entries && g in v[m] && b in g.entries
    requires a.key.userKey == b.key.userKey && a.key.sequence == b.key.sequence
    ensures l == m && f == g
  {
    assert l < m ==> NewerThan(f, g);
    assert l == m == 0 && f.number > g.number ==> NewerThan(f, g);
    assert l == m == 0 && f.number < g.number ==> NewerThan(g, f);
    var i :| 0 <= i < |v[l]| && v[l][i] == f;
    var j :| 0 <= j < |v[m]| && v[m][j] == g;
    assert 0 < l == m && i < j ==> AllBefore(f, g);
    assert 0 < l == m && j < i ==> AllBefore(g, f);
  }

  lemma ContentsDistinct(v: Levels)
    requires LevelInvariant(v)
    ensures Distinct(Contents(v))
  {
    forall a, b | a in Contents(v) && b in Contents(v) && a.key.userKey == b.key.userKey
        && a.key.sequence == b.key.sequence
      ensures a == b
    {
      var l :| 0 <= l < |v| && InLevel(v[l], a);
      var f :| f in v[l] && a in f.entries;
      var m :| 0 <= m < |v| && InLevel(v[m], b);
      var g :| g in v[m] && b in g.entries;
      if l <= m {
        SameEntryFile(v, l, f, a, m, g, b);
      } else {
        SameEntryFile(v, m, g, b, l, f, a);
      }
    }
  }

  /** Searching these files of the level, in order, misses nothing newer. */
  ghost predicate SearchList(v: Levels, level: nat, k: UserKey, s: SequenceNumber, files: seq<File>)
    requires level < NUM_LEVELS
  {
    && (forall f | f in files :: f in v[level])
    && (forall f | f in v[level] && HasVisible(f, k, s) ::
          f in files || exists g :: g in files && HasVisible(g, k, s) && NewerThan(g, f))
    && (forall i, j | 0 <= i < j < |files| :: files[i] == files[j] || NewerThan(files[i], files[j]))
  }

  ghost predicate NothingBefore(files: seq<File>, i: nat, k: UserKey, s: int) {
    i <= |files| && forall j | 0 <= j < i :: !HasVisible(files[j], k, s)
  }

  lemma HitAnswers(v: Levels, level: nat, files: seq<File>, i: nat, e: Entry, k: UserKey, s: SequenceNumber)
    requires LevelInvariant(v) && level < NUM_LEVELS && SearchList(v, level, k, s, files)
    requires forall l | 0 <= l < level :: NothingVisible(v[l], k, s)
    requires i < |files| && NothingBefore(files, i, k, s) && IsNewest(EntriesOf(files[i].entries), k, s, e)
    ensures Newest(Contents(v), k, s) == Some(e)
  {
    var f := files[i];
    assert HasVisible(f, k, s);
    hide LevelInvariant, Contents, NewerThan, NewerAt, HasVisible, IsNewest, NothingVisible;
    forall g | g in v[level] && HasVisible(g, k, s)
      ensures g == f || NewerAt(f, g, k)
    {
      FirstHitIsNewest(files, i, f, g, k, s);
    }
    HitIsNewest(v, level, f, e, k, s);
    ContentsDistinct(v);
    NewestIs(Contents(v), k, s, e);
  }

  lemma LevelSearched(v: Levels, level: nat, files: seq<File>, k: UserKey, s: SequenceNumber)
    requires level < NUM_LEVELS && SearchList(v, level, k, s, files) && NothingBefore(files, |files|, k, s)
    ensures NothingVisible(v[level], k, s)
  {
    hide HasVisible, NewerThan;
  }

  lemma NothingAnywhere(v: Levels, k: UserKey, s: SequenceNumber)
    requires forall l | 0 <= l < NUM_LEVELS :: NothingVisible(v[l], k, s)
    ensures Newest(Contents(v), k, s) == None
  {
    forall x | x in Contents(v)
      ensures !Visible(x, k, s)
    {
      var l :| 0 <= l < |v| && InLevel(v[l], x);
      var f :| f in v[l] && x in f.entries;
      assert NothingVisible(v[l], k, s) && !HasVisible(f, k, s);
    }
    NewestIsNone(Contents(v), k, s);
  }

  /** The first entry at or after the lookup key decides about its file. */
  method LookInFile(f: File, k: UserKey, s: SequenceNumber) returns (hit: Option<Entry>)
    ensures hit.Some? ==> IsNewest(EntriesOf(f.entries), k, s, hit.value)
    ensures hit.None? ==> !HasVisible(f, k, s)
  {
    hit := SeekEntry(f.entries, LookupKey(k, s));
    ghost var p :| IsLowerBound(f.entries, LookupKey(k, s), p) && hit == if p < |f.entries| then Some(f.entries[p])
        else None;
    SeekFindsNewest(f.entries, k, s, p);
    if hit.Some? && hit.value.key.userKey != k {
      hit := None;
    }
  }

  /** Version::Get returns what the reference read of the whole version returns. */
  method Get(v: Levels, k: UserKey, s: SequenceNumber) returns (found: bool, r: Option<Bytes>)
    requires LevelInvariant(v)
    ensures found <==> Newest(Contents(v), k, s).Some?
    ensures r == Read(Contents(v), k, s)
  {
    hide LevelInvariant, Contents, Newest, HasVisible, IsNewest, SearchList, NothingVisible, NothingBefore;
    for level := 0 to NUM_LEVELS
      invariant forall l | 0 <= l < level :: NothingVisible(v[l], k, s)
    {
      var files := FilesToSearch(v, level, k, s);
      NothingYet(files, k, s);
      for i := 0 to |files|
        invariant NothingBefore(files, i, k, s)
      {
        var hit := LookInFile(files[i], k, s);
        if hit.Some? {
          HitAnswers(v, level, files, i, hit.value, k, s);
          return true, if hit.value.key.valueType.Value? then Some(hit.value.value) else None;
        }
        NothingInFile(files, i, k, s);
      }
      LevelSearched(v, level, files, k, s);
    }
    NothingAnywhere(v, k, s);
    return false, None;
  }

  lemma NothingYet(files: seq<File>, k: UserKey, s: int)
    ensures NothingBefore(files, 0, k, s)
  {
  }

  lemma NothingInFile(files: seq<File>, i: nat, k: UserKey, s: int)
    requires i < |files| && NothingBefore(files, i, k, s) && !HasVisible(files[i], k, s)
    ensures NothingBefore(files, i + 1, k, s)
  {
    hide HasVisible;
  }

  lemma FirstHitIsNewest(files: seq<File>, i: nat, f: File, g: File, k: UserKey, s: SequenceNumber)
    requires i < |files| && f == files[i]
    requires HasVisible(f, k, s) && HasVisible(g, k, s)
    requires forall j | 0 <= j < i :: !HasVisible(files[j], k, s)
    requires forall a, b | 0 <= a < b < |files| :: files[a] == files[b] || NewerThan(files[a], files[b])
    requires g in files || exists h :: h in files && HasVisible(h, k, s) && NewerThan(h, g)
    ensures g == f || NewerAt(f, g, k)
  {
    if g in files {
      var j :| 0 <= j < |files| && files[j] == g;
    } else {
      var h :| h in files && HasVisible(h, k, s) && NewerThan(h, g);
      var j :| 0 <= j < |files| && files[j] == h;
    }
  }
}
