/** One shard of the block cache (util/cache.cc, LRUCache). The circular lists are kept as sequences, oldest entry
    first, and the reference counts and in-cache marks of handles as fields of the cache. */
module LruCache {
  import opened InternalKeys
  import opened SnapshotReads
  import opened Coding
  import opened HandleTable

  function Without(s: seq<LRUHandle>, h: LRUHandle): seq<LRUHandle> {
    if s == [] then [] else if s[0] == h then s[1..] else [s[0]] + Without(s[1..], h)
  }

  function Charges(s: seq<LRUHandle>): nat {
    if s == [] then 0 else s[0].charge + Charges(s[1..])
  }

  lemma {:induction false} WithoutIs(s: seq<LRUHandle>, h: LRUHandle)
    requires NoDuplicates(s)
    ensures NoDuplicates(Without(s, h)) && forall x :: x in Without(s, h) <==> x in s && x != h
    ensures Charges(s) == Charges(Without(s, h)) + if h in s then h.charge else 0
    ensures h !in s ==> Without(s, h) == s
  {
    if s != [] {
      assert s == [s[0]] + s[1..];
      assert s[0] !in s[1..];
      WithoutIs(s[1..], h);
      if s[0] != h {
        assert ([s[0]] + Without(s[1..], h))[1..] == Without(s[1..], h);
      }
    }
  }

  lemma {:induction false} AppendIs(s: seq<LRUHandle>, h: LRUHandle)
    requires NoDuplicates(s) && h !in s
    ensures NoDuplicates(s + [h]) && Charges(s + [h]) == Charges(s) + h.charge
    ensures forall x :: x in s + [h] <==> x in s || x == h
  {
    if s == [] {
      assert s + [h] == [h];
    } else {
      assert (s + [h])[1..] == s[1..] + [h];
      AppendIs(s[1..], h);
    }
  }

  /** What the cache holds at one moment. `clients` counts the handles given out and not yet released. */
  datatype Snap = Snap(
    view: map<CacheKey, LRUHandle>,
    inCache: set<LRUHandle>,
    refs: map<LRUHandle, nat>,
    clients: map<LRUHandle, nat>,
    lru: seq<LRUHandle>,
    inUse: seq<LRUHandle>,
    usage: nat,
    freed: set<LRUHandle>,
    nextId: nat)

  ghost function Clients(s: Snap, h: LRUHandle): nat {
    if h in s.clients then s.clients[h] else 0
  }

  /** Each reference is a client's or the cache's, and an entry lives as long as it has one. */
  ghost predicate Counted(s: Snap) {
    && s.inCache <= s.refs.Keys && s.clients.Keys <= s.refs.Keys && s.refs.Keys !! s.freed
    && (forall h | h in s.refs :: 0 < s.refs[h] == Clients(s, h) + if h in s.inCache then 1 else 0)
    && (forall h | h in s.clients :: 0 < s.clients[h])
    && (forall h | h in s.refs || h in s.freed :: h.id < s.nextId)
  }

  /** Every cached entry is on exactly one list: the LRU list when only the cache refers to it. */
  ghost predicate Listed(s: Snap) {
    && NoDuplicates(s.lru) && NoDuplicates(s.inUse)
    && (forall h :: h in s.lru <==> h in s.inCache && h in s.refs && s.refs[h] == 1)
    && (forall h :: h in s.inUse <==> h in s.inCache && h in s.refs && s.refs[h] != 1)
    && s.usage == Charges(s.lru) + Charges(s.inUse)
  }

  /** The table finds exactly the cached entries, but for those of `removed`, which are on their way out. */
  ghost predicate Found(s: Snap, removed: set<LRUHandle>) {
    && removed <= s.inCache
    && (forall k | k in s.view :: KeyOf(s.view[k]) == k && s.view[k] in s.inCache && s.view[k] !in removed)
    && (forall h | h in s.inCache && h !in removed :: KeyOf(h) in s.view && s.view[KeyOf(h)] == h)
  }

  ghost predicate Sound(s: Snap, removed: set<LRUHandle>) {
    Counted(s) && Listed(s) && Found(s, removed)
  }

  /** A client takes one more handle on a cached entry. */
  ghost function Taken(s: Snap, h: LRUHandle): Snap
    requires h in s.refs
  {
    var idle := s.refs[h] == 1 && h in s.inCache;
    s.(refs := s.refs[h := s.refs[h] + 1], clients := s.clients[h := Clients(s, h) + 1],
       lru := if idle then Without(s.lru, h) else s.lru, inUse := if idle then s.inUse + [h] else s.inUse)
  }

  lemma TakenCounted(s: Snap, h: LRUHandle)
    requires Counted(s) && Listed(s) && h in s.inCache
    ensures Counted(Taken(s, h))
  {
    hide Without, Charges, NoDuplicates;
  }

  lemma TakenListed(s: Snap, h: LRUHandle)
    requires Counted(s) && Listed(s) && h in s.inCache
    ensures Listed(Taken(s, h))
  {
    hide Without, Charges, NoDuplicates;
    WithoutIs(s.lru, h);
    if s.refs[h] == 1 {
      AppendIs(s.inUse, h);
    }
  }

  lemma TakenIsSound(s: Snap, h: LRUHandle)
    requires Sound(s, {}) && h in s.inCache
    ensures Sound(Taken(s, h), {})
  {
    TakenCounted(s, h);
    TakenListed(s, h);
    hide Counted, Listed;
  }

  /** One reference to h goes: with the last one h is freed, and with the last but one a cached entry is idle. */
  ghost function Unreferenced(s: Snap, h: LRUHandle): Snap
    requires h in s.refs && 0 < s.refs[h]
  {
    if s.refs[h] == 1 then s.(refs := s.refs - {h}, freed := s.freed + {h})
    else
      var idle := s.refs[h] == 2 && h in s.inCache;
      s.(refs := s.refs[h := s.refs[h] - 1],
         lru := if idle then s.lru + [h] else s.lru, inUse := if idle then Without(s.inUse, h) else s.inUse)
  }

  ghost function Released(s: Snap, h: LRUHandle): Snap
    requires h in s.refs && 0 < s.refs[h] && h in s.clients && 0 < s.clients[h]
  {
    var s' := Unreferenced(s, h);
    s'.(clients := if s.clients[h] == 1 then s.clients - {h} else s.clients[h := s.clients[h] - 1])
  }

  lemma ReleasedCounted(s: Snap, h: LRUHandle)
    requires Counted(s) && Listed(s) && h in s.clients
    ensures Counted(Released(s, h))
  {
    hide Without, Charges, NoDuplicates;
  }

  lemma ReleasedListed(s: Snap, h: LRUHandle)
    requires Counted(s) && Listed(s) && h in s.clients
    ensures Listed(Released(s, h))
  {
    hide Without, Charges, NoDuplicates;
    WithoutIs(s.inUse, h);
    if h !in s.lru {
      AppendIs(s.lru, h);
    }
  }

  lemma ReleasedIsSound(s: Snap, h: LRUHandle)
    requires Sound(s, {}) && h in s.clients
    ensures Sound(Released(s, h), {})
  {
    ReleasedCounted(s, h);
    ReleasedListed(s, h);
    hide Listed, Without;
  }

  /** FinishErase: off its list, out of the cache, and the cache's reference dropped. */
  ghost function Dropped(s: Snap, h: LRUHandle): Snap
    requires h in s.refs && 0 < s.refs[h] && h.charge <= s.usage
  {
    Unreferenced(s.(lru := Without(s.lru, h), inUse := Without(s.inUse, h), inCache := s.inCache - {h},
                 usage := s.usage - h.charge), h)
  }

  lemma CanDrop(s: Snap, h: LRUHandle)
    requires Counted(s) && Listed(s) && h in s.inCache
    ensures h in s.refs && 0 < s.refs[h] && h.charge <= s.usage
  {
    WithoutIs(s.lru, h);
    WithoutIs(s.inUse, h);
  }

  lemma DroppedCounted(s: Snap, h: LRUHandle)
    requires Counted(s) && h in s.inCache && h in s.refs && 0 < s.refs[h] && h.charge <= s.usage
    ensures Counted(Dropped(s, h))
  {
    hide Without;
  }

  lemma DroppedListed(s: Snap, h: LRUHandle)
    requires Counted(s) && Listed(s) && h in s.inCache && h in s.refs && 0 < s.refs[h] && h.charge <= s.usage
    ensures Listed(Dropped(s, h))
  {
    hide Without, Charges, NoDuplicates;
    WithoutIs(s.lru, h);
    WithoutIs(s.inUse, h);
  }

  lemma DroppedIsSound(s: Snap, h: LRUHandle)
    requires Sound(s, {h})
    ensures h in s.refs && 0 < s.refs[h] && h.charge <= s.usage
    ensures Sound(Dropped(s, h), {})
  {
    CanDrop(s, h);
    DroppedCounted(s, h);
    DroppedListed(s, h);
    hide Listed, Without;
  }

  /** A new entry with a client's and the cache's reference enters the table and the in-use list. */
  ghost function Entered(s: Snap, h: LRUHandle): Snap {
    s.(view := s.view[KeyOf(h) := h], inCache := s.inCache + {h}, refs := s.refs[h := 2], clients := s.clients[h := 1],
       inUse := s.inUse + [h], usage := s.usage + h.charge, nextId := h.id + 1)
  }

  lemma EnteredIsSound(s: Snap, h: LRUHandle)
    requires Sound(s, {}) && h.id == s.nextId
    ensures Sound(Entered(s, h), if KeyOf(h) in s.view then {s.view[KeyOf(h)]} else {}) && h !in s.refs && h !in s.freed
  {
    hide Listed;
    EnteredCounted(s, h);
    hide Counted;
    EnteredListed(s, h);
  }

  lemma EnteredCounted(s: Snap, h: LRUHandle)
    requires Counted(s) && h.id == s.nextId
    ensures Counted(Entered(s, h)) && h !in s.refs && h !in s.freed
  {
  }

  lemma EnteredListed(s: Snap, h: LRUHandle)
    requires Counted(s) && Listed(s) && h.id == s.nextId
    ensures Listed(Entered(s, h))
  {
    hide Charges, NoDuplicates;
    AppendIs(s.inUse, h);
  }

  lemma RemovedIsSound(s: Snap, k: CacheKey)
    requires Sound(s, {}) && k in s.view
    ensures Sound(s.(view := s.view - {k}), {s.view[k]})
  {
  }

  /** Taking a key out of the table leaves its entry, if any, on its way out. */
  lemma MaybeRemoved(s: Snap, k: CacheKey)
    requires Sound(s, {})
    ensures Sound(s.(view := s.view - {k}), if k in s.view then {s.view[k]} else {})
  {
    if k in s.view {
      RemovedIsSound(s, k);
    } else {
      assert s.view - {k} == s.view;
    }
  }

  /** Dropping an entry touches neither the table nor the clients. */
  lemma DroppedKeeps(s: Snap, h: Option<LRUHandle>)
    requires h.Some? ==> h.value in s.refs && 0 < s.refs[h.value] && h.value.charge <= s.usage
    ensures h.Some? ==>
              Dropped(s, h.value).view == s.view && Dropped(s, h.value).clients == s.clients
              && Dropped(s, h.value).nextId == s.nextId
  {
  }

  /** With caching turned off an entry belongs to its client alone. */
  ghost function Uncached(s: Snap, h: LRUHandle): Snap {
    s.(refs := s.refs[h := 1], clients := s.clients[h := 1], nextId := h.id + 1)
  }

  lemma UncachedIsSound(s: Snap, h: LRUHandle)
    requires Sound(s, {}) && h.id == s.nextId
    ensures Sound(Uncached(s, h), {}) && h !in s.refs && h !in s.freed
  {
    hide Charges, NoDuplicates;
  }

  ghost function KeysOf(s: seq<LRUHandle>): set<CacheKey> {
    set h | h in s :: KeyOf(h)
  }

  /** Evicting the oldest idle entry frees it and nothing else. */
  lemma OldestDropped(s: Snap)
    requires Sound(s, {}) && s.lru != []
    ensures var h := s.lru[0];
            && KeyOf(h) in s.view && s.view[KeyOf(h)] == h && h in s.refs && s.refs[h] == 1 && h.charge <= s.usage
            && Dropped(s.(view := s.view - {KeyOf(h)}), h)
               == s.(view := s.view - {KeyOf(h)}, lru := s.lru[1..], inCache := s.inCache - {h},
                   usage := s.usage - h.charge,
                     refs := s.refs - {h}, freed := s.freed + {h})
  {
    var h := s.lru[0];
    assert h in s.lru;
    assert h !in s.inUse;
    WithoutIs(s.inUse, h);
  }

  lemma KeysOfNone(view: map<CacheKey, LRUHandle>, queue: seq<LRUHandle>)
    ensures view - KeysOf(queue[..0]) == view && queue[0..] == queue
  {
    assert KeysOf(queue[..0]) == {};
  }

  lemma KeysOfNext(view: map<CacheKey, LRUHandle>, queue: seq<LRUHandle>, n: nat)
    requires n < |queue|
    ensures view - KeysOf(queue[..n]) - {KeyOf(queue[n])} == view - KeysOf(queue[..n + 1])
  {
    assert queue[..n + 1] == queue[..n] + [queue[n]];
    assert KeysOf(queue[..n + 1]) == KeysOf(queue[..n]) + {KeyOf(queue[n])};
  }

  /** The idle entries once `e` has replaced an older entry of its key. */
  ghost function Idle(s: Snap, e: LRUHandle): seq<LRUHandle> {
    if KeyOf(e) in s.view then Without(s.lru, s.view[KeyOf(e)]) else s.lru
  }

  /** What entering `e` comes to once the entry it replaces, if any, has been dropped. */
  ghost function Replaced(s: Snap, e: LRUHandle): Snap
    requires Sound(s, {}) && e.id == s.nextId
  {
    EnteredIsSound(s, e);
    if KeyOf(e) in s.view then
      CanDrop(Entered(s, e), s.view[KeyOf(e)]);
      Dropped(Entered(s, e), s.view[KeyOf(e)])
    else
      Entered(s, e)
  }

  lemma ReplacedIs(s: Snap, e: LRUHandle)
    requires Sound(s, {}) && e.id == s.nextId
    ensures var s' := Replaced(s, e);
            s'.lru == Idle(s, e) && s'.view == s.view[KeyOf(e) := e] && s'.clients == s.clients[e := 1]
  {
    EnteredIsSound(s, e);
    if KeyOf(e) in s.view {
      CanDrop(Entered(s, e), s.view[KeyOf(e)]);
    }
    hide Sound, Without;
  }

  /** A handle a client still holds is never a freed one. */
  lemma ClientIsLive(s: Snap, h: LRUHandle)
    requires Sound(s, {}) && h in s.clients
    ensures h in s.refs && 0 < s.refs[h] && 0 < s.clients[h] && h !in s.freed
  {
    hide Listed, Found;
  }

  lemma CachedIsLive(s: Snap, k: CacheKey)
    requires Sound(s, {}) && k in s.view
    ensures s.view[k] in s.inCache && s.view[k] in s.refs
  {
    hide Listed;
  }

  lemma FreshId(s: Snap, e: LRUHandle)
    requires Sound(s, {}) && e.id == s.nextId
    ensures e !in s.refs && e !in s.freed
  {
    hide Listed, Found;
  }

  /** The list is in the order in which its entries lost their last clients, all before `clock`. */
  ghost predicate Timed(lru: seq<LRUHandle>, idleSince: map<LRUHandle, nat>, clock: nat) {
    && (forall h | h in lru :: h in idleSince && idleSince[h] < clock)
    && (forall i, j | 0 <= i < j < |lru| :: idleSince[lru[i]] < idleSince[lru[j]])
  }

  lemma {:induction false} TimedWithout(lru: seq<LRUHandle>, h: LRUHandle, idleSince: map<LRUHandle, nat>, clock: nat)
    requires Timed(lru, idleSince, clock)
    ensures Timed(Without(lru, h), idleSince, clock)
    ensures forall x | x in Without(lru, h) :: x in lru
  {
    hide Timed;
    if lru != [] {
      TimedRest(lru, 1, idleSince, clock);
      TimedWithout(lru[1..], h, idleSince, clock);
      if lru[0] != h {
        FirstIsEarliest(lru, idleSince, clock);
        TimedBefore(lru[0], Without(lru[1..], h), idleSince, clock);
      }
    }
  }

  lemma FirstIsEarliest(lru: seq<LRUHandle>, idleSince: map<LRUHandle, nat>, clock: nat)
    requires Timed(lru, idleSince, clock) && lru != []
    ensures lru[0] in idleSince && idleSince[lru[0]] < clock
    ensures forall x | x in lru[1..] :: x in idleSince && idleSince[lru[0]] < idleSince[x]
  {
  }

  lemma TimedBefore(first: LRUHandle, rest: seq<LRUHandle>, idleSince: map<LRUHandle, nat>, clock: nat)
    requires Timed(rest, idleSince, clock) && first in idleSince && idleSince[first] < clock
    requires forall x | x in rest :: x in idleSince && idleSince[first] < idleSince[x]
    ensures Timed([first] + rest, idleSince, clock)
  {
    var lru := [first] + rest;
    forall i, j | 0 <= i < j < |lru|
      ensures idleSince[lru[i]] < idleSince[lru[j]]
    {
      assert lru[j] == rest[j - 1] && rest[j - 1] in rest;
    }
  }

  lemma TimedRest(lru: seq<LRUHandle>, n: nat, idleSince: map<LRUHandle, nat>, clock: nat)
    requires Timed(lru, idleSince, clock) && n <= |lru|
    ensures Timed(lru[n..], idleSince, clock)
  {
  }

  /** An entry that loses its last client now is idle for less long than every other. */
  lemma TimedReleased(s: Snap, h: LRUHandle, idleSince: map<LRUHandle, nat>, clock: nat)
    requires Sound(s, {}) && h in s.clients && Timed(s.lru, idleSince, clock)
    ensures h in s.refs && 0 < s.refs[h] && 0 < s.clients[h]
    ensures Timed(Released(s, h).lru, if s.clients[h] == 1 then idleSince[h := clock] else idleSince, clock + 1)
  {
    hide Without, Charges, NoDuplicates;
    assert h !in s.lru;
  }

  /** What left the front of the list has been idle longer than what is left. */
  lemma FrontIsIdleLonger(queue: seq<LRUHandle>, n: nat, idleSince: map<LRUHandle, nat>, clock: nat)
    requires Timed(queue, idleSince, clock) && n <= |queue|
    ensures IdleLonger(queue, queue[n..], idleSince)
  {
  }

  /** Everything `queue` has and `kept` has not became idle before everything in `kept`. */
  ghost predicate IdleLonger(queue: seq<LRUHandle>, kept: seq<LRUHandle>, idleSince: map<LRUHandle, nat>) {
    forall x, y | x in queue && x !in kept && y in kept ::
      x in idleSince && y in idleSince && idleSince[x] < idleSince[y]
  }

  /** The list an insertion evicts from: all idle entries but the one of the key inserted. */
  lemma IdleOthers(s: Snap, e: LRUHandle, x: LRUHandle)
    requires Sound(s, {})
    ensures x in Idle(s, e) <==> x in s.lru && KeyOf(x) != KeyOf(e)
  {
    WithoutIs(s.lru, if KeyOf(e) in s.view then s.view[KeyOf(e)] else e);
  }

  lemma TimedIdle(s: Snap, e: LRUHandle, idleSince: map<LRUHandle, nat>, clock: nat)
    requires Timed(s.lru, idleSince, clock)
    ensures Timed(Idle(s, e), idleSince, clock)
  {
    TimedWithout(s.lru, if KeyOf(e) in s.view then s.view[KeyOf(e)] else e, idleSince, clock);
  }

  /** An entry the table no longer finds has a client or leaves the list. */
  lemma TimedDropped(s: Snap, h: LRUHandle, idleSince: map<LRUHandle, nat>, clock: nat)
    requires Sound(s, {h}) && Timed(s.lru, idleSince, clock)
    ensures h in s.refs && 0 < s.refs[h] && h.charge <= s.usage && Timed(Dropped(s, h).lru, idleSince, clock)
  {
    CanDrop(s, h);
    TimedWithout(s.lru, h, idleSince, clock);
  }

  lemma NoneIsSound()
    ensures Sound(Snap(map[], {}, map[], map[], [], [], 0, {}, 0), {})
  {
  }

  class LruCache {
    const capacity: nat
    const table: HandleTable
    var usage: nat
    var lru: seq<LRUHandle>
    var inUse: seq<LRUHandle>
    var refs: map<LRUHandle, nat>
    var inCache: set<LRUHandle>
    var nextId: nat
    ghost var clients: map<LRUHandle, nat>
    ghost var freed: set<LRUHandle>
    ghost var clock: nat // counts the calls of Release
    ghost var idleSince: map<LRUHandle, nat> // when an entry last lost its last client

    ghost function Now(): Snap
      reads this, table
    {
      Snap(table.view, inCache, refs, clients, lru, inUse, usage, freed, nextId)
    }

    ghost predicate Valid()
      reads this, table
    {
      table.Valid() && Sound(Now(), {}) && Timed(lru, idleSince, clock)
    }

    constructor (capacity: nat)
      ensures Valid() && fresh(table) && this.capacity == capacity && table.view == map[] && clients == map[]
      ensures clock == 0 && idleSince == map[]
    {
      hide Sound;
      this.capacity := capacity;
      table := new HandleTable();
      usage, lru, inUse, refs, inCache, nextId, clients, freed := 0, [], [], map[], {}, 0, map[], {};
      clock, idleSince := 0, map[];
      NoneIsSound();
      new;
      assert Now() == Snap(map[], {}, map[], map[], [], [], 0, {}, 0);
    }

    method Ref(e: LRUHandle)
      requires e in refs
      modifies this`refs, this`lru, this`inUse
      ensures Now() == Taken(old(Now()), e).(clients := clients)
    {
      if refs[e] == 1 && e in inCache {
        lru := Without(lru, e);
        inUse := inUse + [e];
      }
      refs := refs[e := refs[e] + 1];
    }

    method Unref(e: LRUHandle)
      requires e in refs && 0 < refs[e]
      modifies this`refs, this`lru, this`inUse, this`freed
      ensures Now() == Unreferenced(old(Now()), e)
    {
      refs := refs[e := refs[e] - 1];
      if refs[e] == 0 {
        refs := refs - {e};
        freed := freed + {e};
        assert refs == old(refs) - {e};
      } else if e in inCache && refs[e] == 1 {
        inUse := Without(inUse, e);
        lru := lru + [e];
      }
    }

    /** Finishes removing an entry that the table no longer finds. */
    method FinishErase(e: Option<LRUHandle>) returns (erased: bool)
      requires Sound(Now(), if e.Some? then {e.value} else {})
      modifies this`refs, this`lru, this`inUse, this`freed, this`inCache, this`usage
      ensures erased == e.Some? && Sound(Now(), {})
      ensures e.Some? ==> e.value in old(refs) && 0 < old(refs[e.value]) && e.value.charge <= old(usage)
      ensures Now() == if e.Some? then Dropped(old(Now()), e.value) else old(Now())
    {
      hide Sound, Without;
      if e.Some? {
        DroppedIsSound(Now(), e.value);
        lru, inUse := Without(lru, e.value), Without(inUse, e.value);
        inCache := inCache - {e.value};
        usage := usage - e.value.charge;
        Unref(e.value);
      }
      return e.Some?;
    }

    method Lookup(key: Bytes, hash: Word) returns (e: Option<LRUHandle>)
      requires Valid()
      modifies this
      ensures Valid() && e == if CacheKey(key, hash) in table.view then Some(table.view[CacheKey(key, hash)]) else None
      ensures e.Some? ==> e.value in old(refs)
      ensures Now() == if e.Some? then Taken(old(Now()), e.value) else old(Now())
      ensures clock == old(clock) && idleSince == old(idleSince)
    {
      hide Sound, Without, Timed;
      e := table.Lookup(key, hash);
      if e.Some? {
        CachedIsLive(Now(), CacheKey(key, hash));
        TakenIsSound(Now(), e.value);
        TimedWithout(lru, e.value, idleSince, clock);
        Ref(e.value);
        clients := clients[e.value := (if e.value in clients then clients[e.value] else 0) + 1];
      }
    }

    /** A client gives a handle back; an entry that loses its last client is idle from this moment. */
    method Release(h: LRUHandle)
      requires Valid() && h in clients
      modifies this
      ensures Valid() && h in old(refs) && 0 < old(refs[h]) && 0 < old(clients[h]) && Now() == Released(old(Now()), h)
      ensures clock == old(clock) + 1
      ensures idleSince == if old(clients[h]) == 1 then old(idleSince)[h := old(clock)] else old(idleSince)
    {
      hide Sound, Unreferenced, Timed;
      ReleasedIsSound(Now(), h);
      ClientIsLive(Now(), h);
      TimedReleased(Now(), h, idleSince, clock);
      Unref(h);
      idleSince := if clients[h] == 1 then idleSince[h := clock] else idleSince;
      clock := clock + 1;
      clients := if clients[h] == 1 then clients - {h} else clients[h := clients[h] - 1];
    }

    method Erase(key: Bytes, hash: Word)
      requires Valid()
      modifies this, table
      ensures Valid() && table.view == old(table.view) - {CacheKey(key, hash)} && clients == old(clients)
      ensures clock == old(clock) && idleSince == old(idleSince)
    {
      hide Sound, Dropped, Timed;
      ghost var s, k := Now(), CacheKey(key, hash);
      MaybeRemoved(s, k);
      if k in s.view {
        TimedDropped(s.(view := s.view - {k}), s.view[k], idleSince, clock);
      }
      var h := table.Remove(key, hash);
      assert Now() == s.(view := s.view - {k});
      var _ := FinishErase(h);
      DroppedKeeps(s.(view := s.view - {k}), h);
    }

    /** Takes the oldest idle entry out of the cache. */
    method EvictOldest()
      requires Valid() && lru != []
      modifies this, table
      ensures Valid() && clients == old(clients) && inUse == old(inUse) && nextId == old(nextId)
      ensures table.view == old(table.view) - {KeyOf(old(lru)[0])} && lru == old(lru)[1..]
      ensures old(lru)[0].charge <= old(usage) && usage == old(usage) - old(lru)[0].charge
              && freed == old(freed) + {old(lru)[0]}
      ensures clock == old(clock) && idleSince == old(idleSince)
    {
      hide Sound, Dropped, Timed;
      ghost var s := Now();
      var e := lru[0];
      TimedRest(lru, 1, idleSince, clock);
      OldestDropped(s);
      MaybeRemoved(s, KeyOf(e));
      var h := table.Remove(e.key, e.hash);
      assert Now() == s.(view := s.view - {KeyOf(e)});
      var _ := FinishErase(h);
    }

    /** An entry of the key replaces an older one, and idle entries go, oldest first and no more than needed. */
    method Insert(key: Bytes, hash: Word, charge: nat) returns (e: LRUHandle)
      requires Valid()
      modifies this, table
      ensures Valid() && e.key == key && e.hash == hash && e.charge == charge
      ensures e !in old(refs) && e !in old(freed) && clients == old(clients)[e := 1]
      ensures usage <= capacity || lru == []
      ensures capacity == 0 ==> Evicted(old(lru), old(table.view), lru, table.view, usage, capacity)
      ensures 0 < capacity ==> Evicted(Idle(old(Now()), e), old(table.view)[CacheKey(key, hash) := e], lru, table.view,
              usage, capacity)
      ensures clock == old(clock) && idleSince == old(idleSince)
      ensures IdleLonger(if capacity == 0 then old(lru) else Idle(old(Now()), e), lru, idleSince)
    {
      hide Sound, KeysOf, Idle, Evicted, Timed, IdleLonger;
      e := LRUHandle(nextId, key, hash, charge);
      Enter(e);
      EvictUntilFits();
    }

    /** The second half of Insert: idle entries go, oldest first. */
    method EvictUntilFits()
      requires Valid()
      modifies this, table
      ensures Valid() && clients == old(clients) && (usage <= capacity || lru == [])
      ensures Evicted(old(lru), old(table.view), lru, table.view, usage, capacity)
      ensures clock == old(clock) && idleSince == old(idleSince) && IdleLonger(old(lru), lru, idleSince)
    {
      hide Sound, KeysOf, Idle, Timed, IdleLonger;
      ghost var queue, view := lru, table.view;
      KeysOfNone(view, queue);
      ghost var n := 0;
      while usage > capacity && lru != []
        invariant Valid() && clients == old(clients) && clock == old(clock) && idleSince == old(idleSince)
        invariant n <= |queue| && lru == queue[n..] && table.view == view - KeysOf(queue[..n])
        invariant n > 0 ==> usage + queue[n - 1].charge > capacity
        decreases |lru|
      {
        KeysOfNext(view, queue, n);
        EvictOldest();
        n := n + 1;
      }
      FrontIsIdleLonger(queue, n, idleSince, clock);
      assert Evicted(queue, view, lru, table.view, usage, capacity);
    }

    /** The first half of Insert: the new entry and its two references, or one when nothing is cached. */
    method Enter(e: LRUHandle)
      requires Valid() && e.id == nextId
      modifies this, table
      ensures Valid() && e !in old(refs) && e !in old(freed) && clients == old(clients)[e := 1]
      ensures capacity == 0 ==> lru == old(lru) && table.view == old(table.view)
      ensures 0 < capacity ==> lru == Idle(old(Now()), e) && table.view == old(table.view)[KeyOf(e) := e]
      ensures clock == old(clock) && idleSince == old(idleSince)
    {
      hide Sound, Idle, Replaced, Timed;
      ghost var s := Now();
      if 0 < capacity {
        ReplacedIs(s, e);
        FreshId(s, e);
        TimedIdle(s, e, idleSince, clock);
        EnterTable(e);
      } else {
        UncachedIsSound(s, e);
        nextId := nextId + 1;
        refs := refs[e := 1];
        clients := clients[e := 1];
        assert Now() == Uncached(s, e);
      }
    }

    method EnterTable(e: LRUHandle)
      requires table.Valid() && Sound(Now(), {}) && e.id == nextId
      modifies table, this`usage, this`lru, this`inUse, this`refs, this`inCache, this`nextId, this`clients, this`freed
      ensures table.Valid() && Sound(Now(), {}) && Now() == Replaced(old(Now()), e)
    {
      hide Sound, Dropped;
      ghost var s := Now();
      EnteredIsSound(s, e);
      nextId := nextId + 1;
      refs := refs[e := 2];
      clients := clients[e := 1];
      inCache := inCache + {e};
      inUse := inUse + [e];
      usage := usage + e.charge;
      var previous := table.Insert(e);
      assert Now() == Entered(s, e);
      hide Entered;
      var _ := FinishErase(previous);
    }

    method Prune()
      requires Valid()
      modifies this, table
      ensures Valid() && clients == old(clients) && lru == [] && table.view == old(table.view) - KeysOf(old(lru))
      ensures clock == old(clock) && idleSince == old(idleSince)
    {
      hide Sound, KeysOf, Timed;
      KeysOfNone(table.view, lru);
      ghost var n := 0;
      while lru != []
        invariant Valid() && clients == old(clients) && clock == old(clock) && idleSince == old(idleSince)
        invariant n <= |old(lru)| && lru == old(lru)[n..] && table.view == old(table.view) - KeysOf(old(lru)[..n])
        decreases |lru|
      {
        KeysOfNext(old(table.view), old(lru), n);
        EvictOldest();
        n := n + 1;
      }
      assert old(lru)[..n] == old(lru);
    }
  }

  /** The first n idle entries are gone, and the last of them had to go. */
  ghost predicate Evicted(queue: seq<LRUHandle>, view: map<CacheKey, LRUHandle>, lru: seq<LRUHandle>,
                          view': map<CacheKey, LRUHandle>,
                          usage: nat, capacity: nat) {
    exists n: nat ::
      && n <= |queue| && lru == queue[n..] && view' == view - KeysOf(queue[..n])
      && (n > 0 ==> usage + queue[n - 1].charge > capacity)
  }
}
