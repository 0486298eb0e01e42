/** A lock-free search beside an insertion (db/skiplist.h): between any two stores of the writer the reader may make any
    number of loads. */
module SkipListReaders {
  import opened SkipList

  /** A search in progress. */
  class Reader {
    const target: Key
    var at: Node
    var level: nat
    var done: bool
    var result: Node?
    /** The bottom list at the moment of the last load. */
    ghost var seen: seq<Node>

    /** Starts at the head, from whatever height the reader has seen. */
    constructor (list: SkipList, height: nat, target: Key)
      requires list.Valid() && 1 <= height <= MAX_HEIGHT
      ensures Follows(list) && !done && this.target == target
    {
      this.target := target;
      at, level, done, result := list.head, height - 1, false, null;
      seen := [];
    }

    /** A search stands where it may, or has found the first node not before its target. */
    ghost predicate Follows(list: SkipList)
      reads this, list
    {
      if done then FirstAtLeast(seen, target, result) else at in list.repr && list.Reading(at, level, target)
    }

    /** One load, or none once the search is done. */
    method Load(list: SkipList)
      requires list.Valid() && Follows(list)
      modifies this
      ensures Follows(list) && (old(done) ==> done && seen == old(seen) && result == old(result))
      ensures |list.lists| == MAX_HEIGHT && (done && !old(done) ==> seen == list.lists[0])
    {
      assert |list.lists| == MAX_HEIGHT;
      hide Sound, ReadingIn, IsPrevIn, FirstAtLeast;
      if !done {
        var finished, next, level' := list.ReadStep(at, level, target);
        if finished {
          done, result, seen := true, next, list.lists[0];
        } else {
          at, level := next, level';
        }
      }
    }

    /** Some loads, while nothing is stored. */
    method Run(list: SkipList, loads: nat)
      requires list.Valid() && Follows(list)
      modifies this
      ensures Follows(list) && (old(done) ==> done && seen == old(seen) && result == old(result))
      ensures |list.lists| == MAX_HEIGHT && (done && !old(done) ==> seen == list.lists[0])
    {
      assert |list.lists| == MAX_HEIGHT;
      hide Sound, ReadingIn, FirstAtLeast, SkipList.Valid, Reader.Follows;
      for i := 0 to loads
        invariant list.Valid() && Follows(list) && (old(done) ==> done && seen == old(seen) && result == old(result))
        invariant done && !old(done) ==> seen == list.lists[0]
      {
        Load(list);
      }
    }
  }

  /** A place in the lists stays one when a node is added to one of them. */
  lemma PlaceStays(lists: seq<seq<Node>>, lists': seq<seq<Node>>, l: nat, x: Node, head: Node, at: Node, level: nat,
                   target: Key)
    requires ReadingIn(lists, head, at, level, target) && l < |lists| && |lists'| == |lists|
    requires lists' == lists[l := lists'[l]] && IsInsertion(lists[l], x, lists'[l])
    ensures ReadingIn(lists', head, at, level, target)
  {
    var p: nat :| Splits(lists[l], p, x.key) && lists'[l] == Inserted(lists[l], p, x);
    MembersInserted(lists[l], p, x);
  }

  /** Both stores for one level, with loads after each. */
  method LinkBeside(list: SkipList, reader: Reader, x: Node, level: nat, prev: Node, loads: nat, moreLoads: nat)
    requires list.Valid() && x in list.repr && level < |x.next| && level < list.maxHeight
    requires list.IsPrev(prev, level, x.key)
    requires x != list.head && x !in list.lists[level] && (forall n | n in list.lists[level] :: n.key != x.key)
    requires level > 0 ==> x in list.lists[level - 1]
    requires reader.Follows(list)
    modifies x, prev, list`lists, reader
    ensures list.Valid() && |x.next| == old(|x.next|)
    ensures list.lists == old(list.lists)[level := list.lists[level]]
    ensures IsInsertion(old(list.lists)[level], x, list.lists[level]) && x in list.lists[level]
    ensures reader.Follows(list) && (old(reader.done) ==> reader.done && reader.seen == old(reader.seen))
    ensures reader.done && !old(reader.done) ==> reader.seen == old(list.lists)[0] || reader.seen == list.lists[0]
  {
    hide Inserted, Splits, LinkedBy, FirstAtLeast, ReadingIn;
    ghost var before := list.lists;
    ghost var p: nat :| PrevAt(list.lists[level], list.head, prev, x.key, p);
    PrevPointsIn(list.Pointers(), list.head, list.lists, level, prev, x.key, p);
    MembersInserted(list.lists[level], p, x);
    list.Prepare(x, level, prev);
    reader.Run(list, loads);
    list.Publish(x, level, prev, p);
    if !reader.done {
      PlaceStays(before, list.lists, level, x, list.head, reader.at, reader.level, reader.target);
    }
    reader.Run(list, moreLoads);
  }

  method RaiseHeight(list: SkipList, height: nat)
    requires list.Valid() && height <= MAX_HEIGHT
    modifies list`maxHeight
    ensures list.Valid() && height <= list.maxHeight
  {
    hide Sound;
    ghost var pointers := list.Pointers();
    if height > list.maxHeight {
      list.maxHeight := height;
    }
    assert list.Pointers() == pointers;
  }

  /** The new node, which no list holds yet. */
  method Enter(list: SkipList, key: Key, height: nat) returns (x: Node)
    requires list.Valid() && !list.HasKey(key)
    modifies list`repr
    ensures fresh(x) && list.Valid() && list.repr == old(list.repr) + {x} && x.key == key && |x.next| == height
    ensures x != list.head && x !in old(list.repr)
    ensures forall l | 0 <= l < MAX_HEIGHT :: x !in list.lists[l] && forall n | n in list.lists[l] :: n.key != key
  {
    ghost var pointers := list.Pointers();
    x := new Node(key, height);
    list.repr := list.repr + {x};
    FreshNodeKeepsSound(pointers, list.head, list.lists, x, list.Pointers(), key);
  }

  /** SkipList::Insert beside a search: whenever the search ends, it ends at the first node not before its target in the
      list as it then is. */
  method InsertBeside(list: SkipList, reader: Reader, key: Key, height: nat, schedule: nat -> nat) returns (x: Node)
    requires list.Valid() && !list.HasKey(key) && 1 <= height <= MAX_HEIGHT && reader.Follows(list)
    modifies list, list.repr, reader
    ensures list.Valid() && x.key == key && x !in old(list.repr)
    ensures forall l | 0 <= l < MAX_HEIGHT ::
              if l < height then IsInsertion(old(list.lists)[l], x, list.lists[l])
                  else list.lists[l] == old(list.lists)[l]
    ensures reader.Follows(list) && (old(reader.done) ==> reader.done && reader.seen == old(reader.seen))
    ensures reader.done && !old(reader.done) ==> reader.seen == old(list.lists)[0] || reader.seen == list.lists[0]
  {
    hide LinkedBy, IsInsertion, FirstAtLeast, ReadingIn;
    ghost var before := list.lists;
    var prev := list.FindPrevious(key, height);
    RaiseHeight(list, height);
    reader.Run(list, schedule(0));
    x := Enter(list, key, height);
    for level := 0 to height
      invariant list.Valid() && list.repr == old(list.repr) + {x} && |x.next| == height <= list.maxHeight
      invariant forall l | 0 <= l < level :: IsInsertion(before[l], x, list.lists[l]) && x in list.lists[l]
      invariant forall l | level <= l < MAX_HEIGHT :: list.lists[l] == before[l]
      invariant reader.Follows(list) && (old(reader.done) ==> reader.done && reader.seen == old(reader.seen))
      invariant reader.done && !old(reader.done) ==> reader.seen == before[0] || reader.seen == list.lists[0]
    {
      LinkBeside(list, reader, x, level, prev[level], schedule(2 * level + 1), schedule(2 * level + 2));
    }
  }
}
