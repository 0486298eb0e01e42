/** The memtable's skip list (db/skiplist.h): linked nodes, insertion one published link at a time, and readers
    that take no lock. Random heights are parameters; memory ordering beyond the order of the stores is left out. */
module SkipList {
  import opened InternalKeys

  const MAX_HEIGHT: int := 12

  /** A key's rank under the list's comparator. */
  type Key = UserKey

  class Node {
    const key: Key
    var next: seq<Node?>

    constructor (key: Key, height: nat)
      ensures this.key == key && next == Nulls(height)
    {
      this.key := key;
      next := Nulls(height);
    }
  }

  function Nulls(n: nat): (s: seq<Node?>)
    ensures |s| == n && forall i | 0 <= i < n :: s[i] == null
  {
    seq(n, _ => null)
  }

  function At(nodes: seq<Node>, i: nat): Node? {
    if i < |nodes| then nodes[i] else null
  }

  ghost predicate Ascending(nodes: seq<Node>) {
    forall i, j | 0 <= i < j < |nodes| :: nodes[i].key < nodes[j].key
  }

  /** p splits an ascending list into the keys before `key` and the rest. */
  ghost predicate Splits(nodes: seq<Node>, p: nat, key: Key) {
    && p <= |nodes|
    && (forall i | 0 <= i < p :: nodes[i].key < key)
    && (forall i | p <= i < |nodes| :: key <= nodes[i].key)
  }

  ghost predicate FirstAtLeast(nodes: seq<Node>, key: Key, x: Node?) {
    exists p: nat :: Splits(nodes, p, key) && x == At(nodes, p)
  }

  function Inserted(nodes: seq<Node>, p: nat, x: Node): (r: seq<Node>)
    requires p <= |nodes|
    ensures |r| == |nodes| + 1
  {
    nodes[..p] + [x] + nodes[p..]
  }

  ghost predicate Nested(lists: seq<seq<Node>>) {
    forall l | 0 < l < |lists| :: forall n | n in lists[l] :: n in lists[l - 1]
  }

  /** Following level-l pointers from `head` visits exactly `nodes`. */
  ghost predicate LinkedBy(pointers: map<Node, seq<Node?>>, head: Node, nodes: seq<Node>, l: nat) {
    && head in pointers && head !in nodes && l < |pointers[head]| && pointers[head][l] == At(nodes, 0)
    && forall i | 0 <= i < |nodes| ::
         nodes[i] in pointers && l < |pointers[nodes[i]]| && pointers[nodes[i]][l] == At(nodes, i + 1)
  }

  /** Every level is an ascending sublist of the level below. */
  ghost predicate Sound(pointers: map<Node, seq<Node?>>, head: Node, lists: seq<seq<Node>>) {
    && |lists| == MAX_HEIGHT && Nested(lists)
    && forall l | 0 <= l < MAX_HEIGHT :: LinkedBy(pointers, head, lists[l], l) && Ascending(lists[l])
  }

  ghost predicate ReadingIn(lists: seq<seq<Node>>, head: Node, x: Node, level: nat, key: Key) {
    level < |lists| && (x == head || (x in lists[level] && x.key < key))
  }

  ghost predicate PrevAt(nodes: seq<Node>, head: Node, x: Node, key: Key, p: nat) {
    Splits(nodes, p, key) && x == if p == 0 then head else nodes[p - 1]
  }

  ghost predicate IsPrevIn(nodes: seq<Node>, head: Node, x: Node, key: Key) {
    exists p: nat :: PrevAt(nodes, head, x, key, p)
  }

  class SkipList {
    const head: Node
    var maxHeight: nat
    /** The nodes linked at each level, in order. */
    ghost var lists: seq<seq<Node>>
    ghost var repr: set<Node>

    constructor ()
      ensures Valid() && fresh(repr) && lists == seq(MAX_HEIGHT, _ => [])
    {
      var h := new Node(0.0, MAX_HEIGHT);
      head := h;
      maxHeight := 1;
      lists := seq(MAX_HEIGHT, _ => []);
      repr := {h};
    }

    /** Every node's pointers. */
    ghost function Pointers(): map<Node, seq<Node?>>
      reads this, repr
    {
      map n | n in repr :: n.next
    }

    ghost predicate Valid()
      reads this, repr
    {
      && 1 <= maxHeight <= MAX_HEIGHT && head in repr && Sound(Pointers(), head, lists)
      && forall l | maxHeight <= l < MAX_HEIGHT :: lists[l] == []
    }

    ghost predicate HasKey(key: Key)
      requires |lists| == MAX_HEIGHT
      reads this
    {
      exists i :: 0 <= i < |lists[0]| && lists[0][i].key == key
    }

    // ----- readers -----

    /** A search for `key` may stand at `x` on this level. */
    ghost predicate Reading(x: Node, level: nat, key: Key)
      reads this
    {
      ReadingIn(lists, head, x, level, key)
    }

    ghost predicate StandsAt(x: Node, level: nat, p: nat)
      reads this
    {
      level < |lists| && p <= |lists[level]| && x == if p == 0 then head else lists[level][p - 1]
    }

    /** The index at which a reader's next load finds its node. */
    ghost function Place(x: Node, level: nat, key: Key): (p: nat)
      requires Valid() && Reading(x, level, key)
      reads this, repr
      ensures x in repr && StandsAt(x, level, p) && level < |x.next| && x.next[level] == At(lists[level], p)
      ensures forall i | 0 <= i < p :: lists[level][i].key < key
    {
      assert LinkedBy(Pointers(), head, lists[level], level) && Ascending(lists[level]);
      if x == head then 0
      else
        var i :| 0 <= i < |lists[level]| && lists[level][i] == x;
        i + 1
    }

    lemma PlaceIs(x: Node, level: nat, key: Key, p: nat)
      requires Valid() && Reading(x, level, key) && StandsAt(x, level, p)
      ensures Place(x, level, key) == p
    {
      assert LinkedBy(Pointers(), head, lists[level], level) && Ascending(lists[level]);
    }

    /** `x` is the last node before `key` on its level. */
    ghost predicate IsPrev(x: Node, level: nat, key: Key)
      reads this
    {
      level < |lists| && IsPrevIn(lists[level], head, x, key)
    }

    /** One load by a reader: step along the level, drop to the next, or finish. */
    method ReadStep(x: Node, level: nat, key: Key) returns (done: bool, next: Node?, level': nat)
      requires Valid() && Reading(x, level, key)
      ensures if done then level == level' == 0 && FirstAtLeast(lists[0], key, next)
              else next != null && next in repr && Reading(next, level', key)
      ensures !done && level' == level ==> Place(x, level, key) < Place(next, level, key)
      ensures !done && level' != level ==> level' == level - 1 && next == x
      ensures done || level' != level ==> IsPrev(x, level, key)
    {
      hide LinkedBy;
      ghost var p := Place(x, level, key);
      assert Ascending(lists[level]);
      var n := x.next[level];
      if n != null && n.key < key {
        assert lists[level][p] == n;
        PlaceIs(n, level, key, p + 1);
        return false, n, level;
      }
      assert PrevAt(lists[level], head, x, key, p);
      if level == 0 {
        return true, n, 0;
      } else {
        return false, x, level - 1;
      }
    }

    /** A search from level height - 1: a reader may have seen a stale maximum height, so any height will do. */
    method FindGreaterOrEqual(key: Key, height: nat) returns (x: Node?, prev: seq<Node>)
      requires Valid() && 1 <= height <= MAX_HEIGHT
      ensures FirstAtLeast(lists[0], key, x)
      ensures |prev| == MAX_HEIGHT && forall l | 0 <= l < height :: IsPrev(prev[l], l, key) && prev[l] in repr
    {
      assert Reading(head, height - 1, key);
      hide Sound, ReadingIn, IsPrevIn, FirstAtLeast;
      prev := seq(MAX_HEIGHT, _ => head);
      var n: Node, level: nat := head, height - 1;
      while true
        invariant Reading(n, level, key) && n in repr && level < height && |prev| == MAX_HEIGHT
        invariant forall l | level < l < height :: IsPrev(prev[l], l, key) && prev[l] in repr
        decreases level, |lists[level]| - Place(n, level, key)
      {
        var done, next, level' := ReadStep(n, level, key);
        if done || level' != level {
          prev := prev[level := n];
        }
        if done {
          return next, prev;
        }
        n, level := next, level';
      }
    }

    method FindLessThan(key: Key, height: nat) returns (x: Node)
      requires Valid() && 1 <= height <= MAX_HEIGHT
      ensures IsPrev(x, 0, key)
    {
      var level: nat := height - 1;
      x := head;
      while true
        invariant Reading(x, level, key)
        decreases level, |lists[level]| - Place(x, level, key)
      {
        var done, next, level' := ReadStep(x, level, key);
        if done {
          return;
        }
        x, level := next, level';
      }
    }

    method FindLast(height: nat) returns (x: Node)
      requires Valid() && 1 <= height <= MAX_HEIGHT
      ensures x == if lists[0] == [] then head else lists[0][|lists[0]| - 1]
    {
      var level: nat := height - 1;
      x := head;
      ghost var p := 0;
      while true
        invariant StandsAt(x, level, p)
        decreases level, |lists[level]| - p
      {
        assert LinkedBy(Pointers(), head, lists[level], level);
        PrevPoints(Pointers(), head, lists[level], level, x, p);
        hide LinkedBy, Ascending, Nested;
        var next := x.next[level];
        if next != null {
          x := next;
          p := p + 1;
        } else if level == 0 {
          return;
        } else {
          level := level - 1;
          p := LowerPlace(lists, head, x, level + 1, p);
        }
      }
    }

    method Contains(key: Key) returns (found: bool)
      requires Valid()
      ensures found <==> HasKey(key)
    {
      var x, _ := FindGreaterOrEqual(key, maxHeight);
      assert Ascending(lists[0]);
      found := x != null && x.key == key;
    }

    // ----- the writer -----

    /** The first store of a link: the new node's own pointer, which no reader can see yet. */
    method Prepare(x: Node, level: nat, prev: Node)
      requires Valid() && x in repr && prev in repr && level < |x.next| && level < |prev.next| && level < MAX_HEIGHT
      requires x != head && x !in lists[level]
      modifies x
      ensures Valid() && x.next == old(x.next)[level := old(prev.next)[level]]
    {
      ghost var pointers := Pointers();
      x.next := x.next[level := prev.next[level]];
      assert Pointers() == pointers[x := x.next];
      forall l | 0 <= l < MAX_HEIGHT
        ensures LinkedBy(Pointers(), head, lists[l], l)
      {
        assert LinkedBy(pointers, head, lists[l], l);
      }
    }

    /** The second store publishes the node on one level. */
    method Publish(x: Node, level: nat, prev: Node, ghost p: nat)
      requires Valid() && x in repr && level < |x.next| && level < maxHeight
      requires PrevAt(lists[level], head, prev, x.key, p)
      requires x != head && x !in lists[level] && (forall n | n in lists[level] :: n.key != x.key)
      requires level > 0 ==> x in lists[level - 1]
      requires level < |prev.next| && x.next[level] == prev.next[level]
      modifies prev, this`lists
      ensures Valid()
      ensures lists == old(lists)[level := Inserted(old(lists)[level], p, x)]
    {
      ghost var pointers := Pointers();
      ghost var pointers' := pointers[prev := prev.next[level := x]];
      ghost var lists' := lists[level := Inserted(lists[level], p, x)];
      PublishKeepsSound(pointers, head, lists, level, prev, p, x, pointers', lists');
      hide Sound, Splits, Inserted;
      prev.next := prev.next[level := x];
      lists := lists';
      assert Pointers() == pointers';
    }

    /** Both stores for one level. */
    method Link(x: Node, level: nat, prev: Node)
      requires Valid() && x in repr && level < |x.next| && level < maxHeight
      requires IsPrev(prev, level, x.key)
      requires x != head && x !in lists[level] && (forall n | n in lists[level] :: n.key != x.key)
      requires level > 0 ==> x in lists[level - 1]
      modifies x, prev, this`lists
      ensures Valid() && |x.next| == old(|x.next|)
      ensures lists == old(lists)[level := lists[level]]
      ensures IsInsertion(old(lists)[level], x, lists[level]) && x in lists[level]
    {
      hide Inserted, Splits, LinkedBy;
      ghost var p: nat :| PrevAt(lists[level], head, prev, x.key, p);
      PrevPointsIn(Pointers(), head, lists, level, prev, x.key, p);
      MembersInserted(lists[level], p, x);
      Prepare(x, level, prev);
      Publish(x, level, prev, p);
    }

    /** The predecessors of `key` on the lowest levels: above the list's height that is the head. */
    method FindPrevious(key: Key, height: nat) returns (prev: seq<Node>)
      requires Valid() && 1 <= height <= MAX_HEIGHT
      ensures |prev| == MAX_HEIGHT && forall l | 0 <= l < height :: IsPrev(prev[l], l, key) && prev[l] in repr
    {
      var atLeast;
      atLeast, prev := FindGreaterOrEqual(key, maxHeight);
      var i := maxHeight;
      while i < height
        invariant maxHeight <= i <= MAX_HEIGHT && |prev| == MAX_HEIGHT
        invariant forall l | 0 <= l < i :: IsPrev(prev[l], l, key) && prev[l] in repr
      {
        prev := prev[i := head];
        assert PrevAt(lists[i], head, head, key, 0);
        i := i + 1;
      }
    }

    /** Links a new node bottom-up, one published level at a time; the list is sound after every single store. */
    method Insert(key: Key, height: nat) returns (x: Node)
      requires Valid() && !HasKey(key) && 1 <= height <= MAX_HEIGHT
      modifies this, repr
      ensures Valid() && fresh(repr - old(repr)) && old(repr) <= repr
      ensures x.key == key && x !in old(repr)
      ensures forall l | 0 <= l < MAX_HEIGHT ::
                if l < height then IsInsertion(old(lists)[l], x, lists[l]) else lists[l] == old(lists)[l]
    {
      hide LinkedBy, IsInsertion;
      ghost var before, pointers := lists, Pointers();
      var prev := FindPrevious(key, height);
      if height > maxHeight {
        maxHeight := height;
      }
      x := new Node(key, height);
      repr := repr + {x};
      FreshNodeKeepsSound(pointers, head, lists, x, Pointers(), key);
      for level := 0 to height
        invariant Valid() && repr == old(repr) + {x} && |x.next| == height <= maxHeight
        invariant forall l | 0 <= l < level :: IsInsertion(before[l], x, lists[l]) && x in lists[l]
        invariant forall l | level <= l < MAX_HEIGHT :: lists[l] == before[l]
      {
        Link(x, level, prev[level]);
      }
    }
  }

  /** Where a node of one level stands on the level below. */
  lemma LowerPlace(lists: seq<seq<Node>>, head: Node, x: Node, level: nat, p: nat) returns (q: nat)
    requires Nested(lists) && 0 < level < |lists| && p <= |lists[level]| && x == if p == 0 then head
             else lists[level][p - 1]
    ensures q <= |lists[level - 1]| && x == if q == 0 then head else lists[level - 1][q - 1]
  {
    if p == 0 {
      q := 0;
    } else {
      assert x in lists[level];
      var i :| 0 <= i < |lists[level - 1]| && lists[level - 1][i] == x;
      q := i + 1;
    }
  }

  // ----- readers beside the writer -----

  /** The lists over time: each publication adds one node to one level. */
  ghost predicate Publications(history: seq<seq<seq<Node>>>) {
    forall i | 0 <= i < |history| - 1 ::
      |history[i]| == |history[i + 1]| && forall l | 0 <= l < |history[i]| :: Grows(history[i][l], history[i + 1][l])
  }

  ghost predicate Grows(nodes: seq<Node>, nodes': seq<Node>) {
    nodes' == nodes || exists p :: 0 <= p < |nodes'| && IsInsertion(nodes, nodes'[p], nodes')
  }

  lemma GrowsKeeps(nodes: seq<Node>, nodes': seq<Node>)
    requires Grows(nodes, nodes')
    ensures forall n | n in nodes :: n in nodes'
  {
    if q :| 0 <= q < |nodes'| && IsInsertion(nodes, nodes'[q], nodes') {
      var p: nat :| Splits(nodes, p, nodes'[q].key) && nodes' == Inserted(nodes, p, nodes'[q]);
      MembersInserted(nodes, p, nodes'[q]);
    }
  }

  /** However many links are published between two of its loads, a search keeps its place; and no key that was
      in the list is ever lost. */
  lemma {:induction false} ReaderSurvives(history: seq<seq<seq<Node>>>, head: Node, x: Node, level: nat, key: Key,
                                          i: nat, j: nat)
    requires Publications(history) && i <= j < |history|
    requires ReadingIn(history[i], head, x, level, key)
    ensures ReadingIn(history[j], head, x, level, key)
    ensures |history[i]| == |history[j]| && forall l | 0 <= l < |history[i]| :: forall n | n in history[i][l] ::
            n in history[j][l]
    decreases j
  {
    if i < j {
      ReaderSurvives(history, head, x, level, key, i, j - 1);
      assert |history[j - 1]| == |history[(j - 1) + 1]|;
      forall l | 0 <= l < |history[j - 1]|
        ensures forall n | n in history[j - 1][l] :: n in history[j][l]
      {
        assert Grows(history[j - 1][l], history[(j - 1) + 1][l]);
        GrowsKeeps(history[j - 1][l], history[j][l]);
      }
    }
  }

  lemma FreshNodeKeepsSound(pointers: map<Node, seq<Node?>>, head: Node, lists: seq<seq<Node>>, x: Node,
                            pointers': map<Node, seq<Node?>>, key: Key)
    requires Sound(pointers, head, lists) && x !in pointers && x in pointers'
             && pointers' == pointers[x := pointers'[x]]
    requires forall n | n in lists[0] :: n.key != key
    ensures Sound(pointers', head, lists)
    ensures forall l | 0 <= l < MAX_HEIGHT :: x !in lists[l] && forall n | n in lists[l] :: n.key != key
  {
    forall l | 0 <= l < MAX_HEIGHT
      ensures LinkedBy(pointers', head, lists[l], l) && x !in lists[l] && forall n | n in lists[l] :: n.key != key
    {
      assert LinkedBy(pointers, head, lists[l], l);
      NestedDown(lists, l);
    }
  }

  lemma {:induction false} NestedDown(lists: seq<seq<Node>>, l: nat)
    requires Nested(lists) && l < |lists|
    ensures forall n | n in lists[l] :: n in lists[0]
  {
    if l > 0 {
      NestedDown(lists, l - 1);
    }
  }

  lemma PrevPointsIn(pointers: map<Node, seq<Node?>>, head: Node, lists: seq<seq<Node>>, level: nat, prev: Node,
                     key: Key, p: nat)
    requires Sound(pointers, head, lists) && level < MAX_HEIGHT && PrevAt(lists[level], head, prev, key, p)
    ensures p <= |lists[level]| && prev in pointers && level < |pointers[prev]|
    ensures prev == head || prev in lists[level]
  {
    assert LinkedBy(pointers, head, lists[level], level);
    PrevPoints(pointers, head, lists[level], level, prev, p);
  }

  /** `nodes'` is `nodes` with `x` added in its place. */
  ghost predicate IsInsertion(nodes: seq<Node>, x: Node, nodes': seq<Node>) {
    exists p: nat :: Splits(nodes, p, x.key) && nodes' == Inserted(nodes, p, x)
  }

  lemma PublishKeepsSound(pointers: map<Node, seq<Node?>>, head: Node, lists: seq<seq<Node>>, level: nat, prev: Node,
                          p: nat, x: Node,
                          pointers': map<Node, seq<Node?>>, lists': seq<seq<Node>>)
    requires Sound(pointers, head, lists) && level < MAX_HEIGHT
    requires p <= |lists[level]| && prev == (if p == 0 then head else lists[level][p - 1])
             && Splits(lists[level], p, x.key)
    requires x in pointers && x != head && x !in lists[level] && (forall n | n in lists[level] :: n.key != x.key)
    requires level > 0 ==> x in lists[level - 1]
    requires prev in pointers && level < |pointers[prev]| && level < |pointers[x]|
             && pointers[x][level] == pointers[prev][level]
    requires pointers' == pointers[prev := pointers[prev][level := x]]
    requires lists' == lists[level := Inserted(lists[level], p, x)]
    ensures Sound(pointers', head, lists')
  {
    hide Inserted, Nested, Ascending, Splits;
    forall l | 0 <= l < MAX_HEIGHT
      ensures LinkedBy(pointers', head, lists'[l], l) && Ascending(lists'[l])
    {
      assert LinkedBy(pointers, head, lists[l], l) && Ascending(lists[l]);
      if l == level {
        AscendingInsert(lists[level], p, x);
        PrevPoints(pointers, head, lists[level], level, prev, p);
        hide LinkedBy;
        PublishedLinked(pointers, head, lists[level], level, prev, p, x);
      } else {
        hide LinkedBy;
        OtherLevelLinked(pointers, head, lists[l], l, level, prev, x);
      }
    }
    hide LinkedBy;
    NestedInsert(lists, level, p, x);
  }

  lemma PrevPoints(pointers: map<Node, seq<Node?>>, head: Node, nodes: seq<Node>, level: nat, prev: Node, p: nat)
    requires LinkedBy(pointers, head, nodes, level) && p <= |nodes| && prev == if p == 0 then head else nodes[p - 1]
    ensures prev in pointers && level < |pointers[prev]| && pointers[prev][level] == At(nodes, p)
  {
  }

  lemma OtherLevelLinked(pointers: map<Node, seq<Node?>>, head: Node, nodes: seq<Node>, l: nat, level: nat, prev: Node,
                         x: Node)
    requires LinkedBy(pointers, head, nodes, l) && l != level && prev in pointers && level < |pointers[prev]|
    ensures LinkedBy(pointers[prev := pointers[prev][level := x]], head, nodes, l)
  {
  }

  lemma NestedInsert(lists: seq<seq<Node>>, level: nat, p: nat, x: Node)
    requires Nested(lists) && level < |lists| && p <= |lists[level]|
    requires level > 0 ==> x in lists[level - 1]
    ensures Nested(lists[level := Inserted(lists[level], p, x)])
  {
    var lists' := lists[level := Inserted(lists[level], p, x)];
    MembersInserted(lists[level], p, x);
    hide Inserted;
    assert forall l | 0 < l < |lists| :: forall n | n in lists'[l] :: n in lists'[l - 1];
  }

  lemma PublishedLinked(pointers: map<Node, seq<Node?>>, head: Node, nodes: seq<Node>, level: nat, prev: Node, p: nat,
                        x: Node)
    requires LinkedBy(pointers, head, nodes, level) && Ascending(nodes)
    requires p <= |nodes| && prev == if p == 0 then head else nodes[p - 1]
    requires x in pointers && x != head && x !in nodes && level < |pointers[x]| && pointers[x][level] == At(nodes, p)
    ensures LinkedBy(pointers[prev := pointers[prev][level := x]], head, Inserted(nodes, p, x), level)
  {
    var nodes', pointers' := Inserted(nodes, p, x), pointers[prev := pointers[prev][level := x]];
    AtInserted(nodes, p, x, 0);
    MembersInserted(nodes, p, x);
    forall i | 0 <= i < |nodes'|
      ensures nodes'[i] in pointers' && level < |pointers'[nodes'[i]]|
              && pointers'[nodes'[i]][level] == At(nodes', i + 1)
    {
      PublishedAt(pointers, head, nodes, level, prev, p, x, i);
    }
    hide Inserted, Ascending;
  }

  lemma PublishedAt(pointers: map<Node, seq<Node?>>, head: Node, nodes: seq<Node>, level: nat, prev: Node, p: nat,
                    x: Node, i: nat)
    requires LinkedBy(pointers, head, nodes, level) && Ascending(nodes)
    requires p <= |nodes| && prev == if p == 0 then head else nodes[p - 1]
    requires x in pointers && x != head && x !in nodes && level < |pointers[x]| && pointers[x][level] == At(nodes, p)
    requires i <= |nodes|
    ensures var n, pointers' := At(Inserted(nodes, p, x), i), pointers[prev := pointers[prev][level := x]];
            n in pointers' && level < |pointers'[n]| && pointers'[n][level] == At(Inserted(nodes, p, x), i + 1)
  {
    AtInserted(nodes, p, x, i);
    AtInserted(nodes, p, x, i + 1);
    OnlyOnce(nodes, p, i);
    OnlyOnce(nodes, p, i - 1);
    hide Inserted, Ascending;
    assert i < p ==> pointers[nodes[i]][level] == At(nodes, i + 1);
    assert i > p ==> pointers[nodes[i - 1]][level] == At(nodes, i);
  }

  lemma AtInserted(nodes: seq<Node>, p: nat, x: Node, i: nat)
    requires p <= |nodes|
    ensures At(Inserted(nodes, p, x), i) == if i < p then At(nodes, i) else if i == p then x else At(nodes, i - 1)
  {
  }

  lemma MembersInserted(nodes: seq<Node>, p: nat, x: Node)
    requires p <= |nodes|
    ensures forall n :: n in Inserted(nodes, p, x) <==> n == x || n in nodes
  {
  }

  lemma OnlyOnce(nodes: seq<Node>, p: nat, i: int)
    requires Ascending(nodes)
    ensures 0 <= i < |nodes| && 0 < p <= |nodes| && nodes[i] == nodes[p - 1] ==> i == p - 1
  {
  }

  lemma AscendingInsert(nodes: seq<Node>, p: nat, x: Node)
    requires Ascending(nodes) && Splits(nodes, p, x.key) && forall n | n in nodes :: n.key != x.key
    ensures Ascending(Inserted(nodes, p, x))
  {
  }
}
