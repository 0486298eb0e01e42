/** The chained hash table of the block cache (util/cache.cc, HandleTable). A bucket's chain is kept as the list
    of its handles. */
module HandleTable {
  import opened InternalKeys
  import opened SnapshotReads
  import opened Coding

  /** The immutable part of a cache entry; `id` stands for its address. */
  datatype LRUHandle = LRUHandle(id: nat, key: Bytes, hash: Word, charge: nat)

  datatype CacheKey = CacheKey(key: Bytes, hash: Word)

  function KeyOf(h: LRUHandle): CacheKey {
    CacheKey(h.key, h.hash)
  }

  ghost predicate NoDuplicates(chain: seq<LRUHandle>) {
    forall i, j | 0 <= i < j < |chain| :: chain[i] != chain[j]
  }

  predicate IsPowerOfTwo(n: nat) {
    n == 1 || (0 < n && n % 2 == 0 && IsPowerOfTwo(n / 2))
  }

  /** Bitwise and. */
  function And(a: nat, b: nat): nat {
    if a == 0 || b == 0 then 0 else (if a % 2 == 1 && b % 2 == 1 then 1 else 0) + 2 * And(a / 2, b / 2)
  }

  /** Masking with the length less one picks the bucket, since the length is a power of two. */
  lemma {:induction false} MaskIsRemainder(hash: nat, n: nat)
    requires IsPowerOfTwo(n)
    ensures 0 < n && And(hash, n - 1) == hash % n
  {
    if n > 1 {
      var half := n / 2;
      MaskIsRemainder(hash / 2, half);
      AndOdd(hash, half - 1);
      HalfRemainder(hash, half);
      hide And;
      assert n == 2 * half && n - 1 == 2 * (half - 1) + 1;
    }
  }

  lemma AndOdd(a: nat, b: nat)
    ensures And(a, 2 * b + 1) == a % 2 + 2 * And(a / 2, b)
  {
    assert (2 * b + 1) / 2 == b && (2 * b + 1) % 2 == 1;
  }

  lemma HalfRemainder(hash: nat, half: nat)
    requires 0 < half
    ensures hash % (2 * half) == hash % 2 + 2 * (hash / 2 % half)
  {
    var q, r := hash / 2 / half, hash / 2 % half;
    assert hash / 2 == half * q + r;
    assert 2 * (half * q) == 2 * half * q;
    RemainderIs(hash, 2 * half, q, hash % 2 + 2 * r);
  }

  lemma RemainderIs(a: nat, n: nat, q: nat, r: nat)
    requires 0 < n && a == n * q + r && r < n
    ensures a % n == r
  {
    var d := a / n - q;
    assert n * (a / n) == n * (d + q) == n * d + n * q;
    Multiples(n, d);
  }

  lemma Multiples(n: nat, d: int)
    ensures d >= 1 ==> n * d >= n
    ensures d <= -1 ==> n * d <= 0 - n
    ensures d == 0 ==> n * d == 0
  {
    if d >= 1 {
      assert n * d == n + n * (d - 1);
    } else if d <= -1 {
      assert n * d == n * (d + 1) - n;
    }
  }

  /** The bucket of a hash in a table of n buckets. */
  function Bucket(hash: Word, n: nat): (b: nat)
    requires 0 < n
    ensures b < n
  {
    hash % n
  }

  lemma MaskIsBucket(hash: Word, n: nat)
    requires IsPowerOfTwo(n)
    ensures 0 < n && And(hash, n - 1) == Bucket(hash, n)
  {
    MaskIsRemainder(hash, n);
  }

  /** A bucket's chain holds exactly the entries of `view` that belong there, each once. */
  ghost predicate Chain(chain: seq<LRUHandle>, view: map<CacheKey, LRUHandle>, b: nat, n: nat)
    requires 0 < n
  {
    && NoDuplicates(chain)
    && (forall h | h in chain :: Bucket(h.hash, n) == b && KeyOf(h) in view && view[KeyOf(h)] == h)
    && (forall k | k in view && Bucket(k.hash, n) == b :: view[k] in chain)
  }

  ghost predicate Chains(list: seq<seq<LRUHandle>>, view: map<CacheKey, LRUHandle>) {
    && list != []
    && (forall k | k in view :: KeyOf(view[k]) == k)
    && (forall b | 0 <= b < |list| :: Chain(list[b], view, b, |list|))
  }

  class HandleTable {
    var length: nat
    var elems: nat
    var list: seq<seq<LRUHandle>>
    ghost var view: map<CacheKey, LRUHandle>

    ghost predicate Valid()
      reads this
    {
      4 <= length == |list| && IsPowerOfTwo(length) && elems == |view| && Chains(list, view)
    }

    constructor ()
      ensures Valid() && view == map[]
    {
      length, elems, list, view := 4, 0, [[], [], [], []], map[];
      assert IsPowerOfTwo(2);
    }

    /** The bucket of the key and the place of its entry in the chain, or the end of the chain. */
    method FindPointer(key: Bytes, hash: Word) returns (b: nat, i: nat)
      requires Valid()
      ensures b == Bucket(hash, |list|) && i <= |list[b]|
      ensures if CacheKey(key, hash) in view then i < |list[b]| && list[b][i] == view[CacheKey(key, hash)]
              else i == |list[b]|
    {
      MaskIsBucket(hash, length);
      b := And(hash, length - 1);
      i := 0;
      while i < |list[b]| && (list[b][i].hash != hash || key != list[b][i].key)
        invariant i <= |list[b]|
        invariant forall j | 0 <= j < i :: KeyOf(list[b][j]) != CacheKey(key, hash)
      {
        i := i + 1;
      }
      assert i < |list[b]| ==> list[b][i] in list[b];
    }

    method Lookup(key: Bytes, hash: Word) returns (h: Option<LRUHandle>)
      requires Valid()
      ensures h == if CacheKey(key, hash) in view then Some(view[CacheKey(key, hash)]) else None
    {
      var b, i := FindPointer(key, hash);
      h := if i < |list[b]| then Some(list[b][i]) else None;
    }

    method Insert(h: LRUHandle) returns (previous: Option<LRUHandle>)
      requires Valid()
      modifies this
      ensures Valid() && view == old(view)[KeyOf(h) := h]
      ensures previous == if KeyOf(h) in old(view) then Some(old(view)[KeyOf(h)]) else None
    {
      hide Chains, Bucket;
      var b, i := FindPointer(h.key, h.hash);
      if i < |list[b]| {
        previous := Some(list[b][i]);
        ReplaceInChain(list, view, h, b, i);
        list := list[b := list[b][i := h]];
        view := view[KeyOf(h) := h];
      } else {
        previous := None;
        AddToChain(list, view, h, b);
        list := list[b := list[b] + [h]];
        view := view[KeyOf(h) := h];
        elems := elems + 1;
        if elems > length {
          Resize();
        }
      }
    }

    method Remove(key: Bytes, hash: Word) returns (h: Option<LRUHandle>)
      requires Valid()
      modifies this
      ensures Valid() && view == old(view) - {CacheKey(key, hash)}
      ensures h == if CacheKey(key, hash) in old(view) then Some(old(view)[CacheKey(key, hash)]) else None
    {
      hide Chains, Bucket;
      var b, i := FindPointer(key, hash);
      if i < |list[b]| {
        h := Some(list[b][i]);
        RemoveFromChain(list, view, CacheKey(key, hash), b, i);
        list := list[b := list[b][..i] + list[b][i + 1..]];
        view := view - {CacheKey(key, hash)};
        elems := elems - 1;
      } else {
        h := None;
        assert view - {CacheKey(key, hash)} == view;
      }
    }

    /** Doubles the table until it is at least as long as it has entries and moves every entry to its new bucket. */
    method Resize()
      requires Valid()
      modifies this
      ensures Valid() && view == old(view) && elems <= length && (length == 4 || length < 2 * elems)
    {
      var newLength: nat := 4;
      assert IsPowerOfTwo(2);
      while newLength < elems
        invariant 4 <= newLength && IsPowerOfTwo(newLength) && (newLength == 4 || newLength < 2 * elems)
      {
        newLength := newLength * 2;
      }
      var newList: seq<seq<LRUHandle>> := seq(newLength, _ => []);
      hide Bucket, WasMoved, Chains, NoDuplicates, And, IsPowerOfTwo;
      NothingMoved(list, newList);
      for b := 0 to length
        invariant list == old(list) && length == old(length) && elems == old(elems) && view == old(view)
        invariant |newList| == newLength && Moved(list, newList, b, 0)
      {
        for i := 0 to |list[b]|
          invariant list == old(list) && length == old(length) && elems == old(elems) && view == old(view)
          invariant |newList| == newLength && Moved(list, newList, b, i)
        {
          hide Moved;
          var h := list[b][i];
          MaskIsBucket(h.hash, newLength);
          var c := And(h.hash, newLength - 1);
          MoveOne(list, view, newList, b, i);
          newList := newList[c := [h] + newList[c]];
        }
        hide Moved;
        BucketDone(list, newList, b);
      }
      hide Moved;
      AllMoved(list, view, newList);
      list, length := newList, newLength;
    }
  }

  /** A change of one bucket's chain and one key of that bucket. */
  lemma OneBucketChanges(list: seq<seq<LRUHandle>>, view: map<CacheKey, LRUHandle>, k: CacheKey, b: nat,
                         chain': seq<LRUHandle>, view': map<CacheKey, LRUHandle>)
    requires Chains(list, view) && b == Bucket(k.hash, |list|) && Chain(chain', view', b, |list|)
    requires forall x | x in view' :: KeyOf(view'[x]) == x
    requires forall x | x != k :: (x in view <==> x in view') && (x in view ==> view'[x] == view[x])
    ensures Chains(list[b := chain'], view')
  {
    hide Bucket, NoDuplicates;
    forall c | 0 <= c < |list| && c != b
      ensures Chain(list[c], view', c, |list|)
    {
      assert Chain(list[c], view, c, |list|);
    }
  }

  lemma ReplaceInChain(list: seq<seq<LRUHandle>>, view: map<CacheKey, LRUHandle>, h: LRUHandle, b: nat, i: nat)
    requires Chains(list, view) && b == Bucket(h.hash, |list|) && i < |list[b]|
    requires KeyOf(h) in view && list[b][i] == view[KeyOf(h)]
    ensures Chains(list[b := list[b][i := h]], view[KeyOf(h) := h])
    ensures |view[KeyOf(h) := h]| == |view|
  {
    hide Bucket;
    var chain, view' := list[b], view[KeyOf(h) := h];
    assert Chain(chain, view, b, |list|);
    assert view'.Keys == view.Keys && |view'.Keys| == |view'| && |view.Keys| == |view|;
    assert forall j | 0 <= j < |chain| && j != i :: chain[j] in chain && KeyOf(chain[j]) != KeyOf(h);
    ReplacedChain(chain, view, h, b, |list|, i);
    OneBucketChanges(list, view, KeyOf(h), b, chain[i := h], view');
  }

  lemma ReplacedChain(chain: seq<LRUHandle>, view: map<CacheKey, LRUHandle>, h: LRUHandle, b: nat, n: nat, i: nat)
    requires 0 < n && Chain(chain, view, b, n) && b == Bucket(h.hash, n) && i < |chain|
    requires forall j | 0 <= j < |chain| && j != i :: KeyOf(chain[j]) != KeyOf(h)
    requires KeyOf(chain[i]) == KeyOf(h) && forall k | k in view :: KeyOf(view[k]) == k
    ensures Chain(chain[i := h], view[KeyOf(h) := h], b, n)
  {
    hide Bucket;
    var chain', view' := chain[i := h], view[KeyOf(h) := h];
    assert chain'[i] == h;
    forall k | k in view' && Bucket(k.hash, n) == b && k != KeyOf(h)
      ensures view'[k] in chain'
    {
      var j :| 0 <= j < |chain| && chain[j] == view[k];
      assert j != i;
      assert chain'[j] == view[k];
    }
  }

  lemma AddToChain(list: seq<seq<LRUHandle>>, view: map<CacheKey, LRUHandle>, h: LRUHandle, b: nat)
    requires Chains(list, view) && b == Bucket(h.hash, |list|) && KeyOf(h) !in view
    ensures Chains(list[b := list[b] + [h]], view[KeyOf(h) := h])
    ensures |view[KeyOf(h) := h]| == |view| + 1
  {
    hide Bucket;
    var chain, chain', view' := list[b], list[b] + [h], view[KeyOf(h) := h];
    assert Chain(chain, view, b, |list|);
    assert chain'[|chain|] == h;
    assert Chain(chain', view', b, |list|);
    OneBucketChanges(list, view, KeyOf(h), b, chain', view');
  }

  lemma RemoveFromChain(list: seq<seq<LRUHandle>>, view: map<CacheKey, LRUHandle>, k: CacheKey, b: nat, i: nat)
    requires Chains(list, view) && b == Bucket(k.hash, |list|) && i < |list[b]| && k in view && list[b][i] == view[k]
    ensures Chains(list[b := list[b][..i] + list[b][i + 1..]], view - {k})
    ensures |view - {k}| == |view| - 1
  {
    hide Bucket;
    var chain, view' := list[b], view - {k};
    assert view == view'[k := view[k]];
    assert Chain(chain, view, b, |list|);
    RemovedMembers(chain, i);
    assert Chain(chain[..i] + chain[i + 1..], view', b, |list|);
    OneBucketChanges(list, view, k, b, chain[..i] + chain[i + 1..], view');
  }

  lemma RemovedMembers(chain: seq<LRUHandle>, i: nat)
    requires NoDuplicates(chain) && i < |chain|
    ensures NoDuplicates(chain[..i] + chain[i + 1..])
    ensures forall x :: x in chain[..i] + chain[i + 1..] <==> x in chain && x != chain[i]
  {
    var chain' := chain[..i] + chain[i + 1..];
    assert forall j | 0 <= j < |chain'| :: chain'[j] == chain[if j < i then j else j + 1];
    forall x | x in chain && x != chain[i]
      ensures x in chain'
    {
      var j :| 0 <= j < |chain| && chain[j] == x;
      assert chain'[if j < i then j else j - 1] == x;
    }
  }

  // ----- moving entries to a longer table -----

  /** Entry j of bucket c comes before entry i of bucket b in the order of the move. */
  predicate Earlier(c: nat, j: nat, b: nat, i: nat) {
    c < b || (c == b && j < i)
  }

  ghost predicate WasMoved(list: seq<seq<LRUHandle>>, x: LRUHandle, b: nat, i: nat) {
    exists c, j :: 0 <= c < |list| && 0 <= j < |list[c]| && Earlier(c, j, b, i) && list[c][j] == x
  }

  /** The entries before entry i of bucket b have been moved, and nothing else is in the new table. */
  ghost predicate Moved(list: seq<seq<LRUHandle>>, newList: seq<seq<LRUHandle>>, b: nat, i: nat) {
    forall c | 0 <= c < |newList| ::
      && NoDuplicates(newList[c])
      && forall x :: x in newList[c] <==> WasMoved(list, x, b, i) && Bucket(x.hash, |newList|) == c
  }

  lemma NothingMoved(list: seq<seq<LRUHandle>>, newList: seq<seq<LRUHandle>>)
    requires forall c | 0 <= c < |newList| :: newList[c] == []
    ensures Moved(list, newList, 0, 0)
  {
  }

  lemma MovedStep(list: seq<seq<LRUHandle>>, b: nat, i: nat, x: LRUHandle)
    requires b < |list| && i < |list[b]|
    ensures WasMoved(list, x, b, i + 1) <==> WasMoved(list, x, b, i) || x == list[b][i]
  {
    assert Earlier(b, i, b, i + 1);
    if WasMoved(list, x, b, i) {
      var c, j :| 0 <= c < |list| && 0 <= j < |list[c]| && Earlier(c, j, b, i) && list[c][j] == x;
      assert Earlier(c, j, b, i + 1);
    }
  }

  lemma NotMovedYet(list: seq<seq<LRUHandle>>, view: map<CacheKey, LRUHandle>, b: nat, i: nat)
    requires Chains(list, view) && b < |list| && i < |list[b]|
    ensures !WasMoved(list, list[b][i], b, i)
  {
    hide Bucket;
    var h := list[b][i];
    assert Chain(list[b], view, b, |list|) && h in list[b];
    forall c, j | 0 <= c < |list| && 0 <= j < |list[c]| && Earlier(c, j, b, i)
      ensures list[c][j] != h
    {
      assert Chain(list[c], view, c, |list|) && list[c][j] in list[c];
    }
  }

  lemma MoveOne(list: seq<seq<LRUHandle>>, view: map<CacheKey, LRUHandle>, newList: seq<seq<LRUHandle>>, b: nat, i: nat)
    requires Chains(list, view) && newList != [] && Moved(list, newList, b, i) && b < |list| && i < |list[b]|
    ensures var h := list[b][i];
            var c := Bucket(h.hash, |newList|);
            Moved(list, newList[c := [h] + newList[c]], b, i + 1)
  {
    NotMovedYet(list, view, b, i);
    hide Bucket, WasMoved, Chains;
    var h := list[b][i];
    var d := Bucket(h.hash, |newList|);
    var newList' := newList[d := [h] + newList[d]];
    forall c | 0 <= c < |newList|
      ensures NoDuplicates(newList'[c])
      ensures forall x :: x in newList'[c] <==> WasMoved(list, x, b, i + 1) && Bucket(x.hash, |newList|) == c
    {
      assert h !in newList[d];
      forall x
        ensures x in newList'[c] <==> WasMoved(list, x, b, i + 1) && Bucket(x.hash, |newList|) == c
      {
        MovedStep(list, b, i, x);
      }
    }
  }

  lemma BucketDone(list: seq<seq<LRUHandle>>, newList: seq<seq<LRUHandle>>, b: nat)
    requires b < |list| && Moved(list, newList, b, |list[b]|)
    ensures Moved(list, newList, b + 1, 0)
  {
    hide Bucket;
    forall x
      ensures WasMoved(list, x, b + 1, 0) <==> WasMoved(list, x, b, |list[b]|)
    {
      assert forall c, j | 0 <= c < |list| && 0 <= j < |list[c]| :: Earlier(c, j, b + 1, 0) <==>
               Earlier(c, j, b, |list[b]|);
    }
  }

  lemma AllMoved(list: seq<seq<LRUHandle>>, view: map<CacheKey, LRUHandle>, newList: seq<seq<LRUHandle>>)
    requires Chains(list, view) && newList != [] && Moved(list, newList, |list|, 0)
    ensures Chains(newList, view)
  {
    hide Bucket;
    forall x
      ensures WasMoved(list, x, |list|, 0) <==> KeyOf(x) in view && view[KeyOf(x)] == x
    {
      if WasMoved(list, x, |list|, 0) {
        var d, j :| 0 <= d < |list| && 0 <= j < |list[d]| && Earlier(d, j, |list|, 0) && list[d][j] == x;
        assert Chain(list[d], view, d, |list|) && list[d][j] in list[d];
      }
      if KeyOf(x) in view && view[KeyOf(x)] == x {
        var b := Bucket(x.hash, |list|);
        assert Chain(list[b], view, b, |list|) && x in list[b];
        var j :| 0 <= j < |list[b]| && list[b][j] == x;
        assert Earlier(b, j, |list|, 0);
      }
    }
    hide WasMoved;
    forall c | 0 <= c < |newList|
      ensures Chain(newList[c], view, c, |newList|)
    {
      assert forall k | k in view :: KeyOf(view[k]) == k && view[k].hash == k.hash;
    }
  }
}
