/** The k-way merge of internal cursors (table/merger.cc). The children's own implementations are in the
    iterator module; child status is left out. */
module MergingIterator {
  import opened InternalKeys
  import opened DbIterator

  /** `merged` is the sorted union of the children, which are distinct cursors and never hold two entries with
      one user key and sequence number. */
  ghost predicate IsMerge(children: seq<InternalIterator>, merged: seq<Entry>) {
    && Sorted(merged)
    && (forall c | c in children :: Sorted(c.entries))
    && (forall i, j | 0 <= i < j < |children| :: children[i] != children[j])
    && (forall e :: e in merged <==> exists c :: c in children && e in c.entries)
    && (forall c, d | c in children && d in children && c != d :: Apart(c.entries, d.entries))
  }

  ghost predicate Apart(es: seq<Entry>, fs: seq<Entry>) {
    forall a, b | a in es && b in fs :: Precedes(a, b) || Precedes(b, a)
  }

  lemma {:induction false} MergeTwo(es: seq<Entry>, fs: seq<Entry>) returns (merged: seq<Entry>)
    requires Sorted(es) && Sorted(fs) && Apart(es, fs)
    ensures Sorted(merged) && forall e :: e in merged <==> e in es || e in fs
    decreases |es| + |fs|
  {
    if es == [] || fs == [] {
      merged := es + fs;
    } else if Precedes(es[0], fs[0]) {
      var rest := MergeTwo(es[1..], fs);
      assert forall e | e in fs :: e == fs[0] || Precedes(fs[0], e);
      assert forall e | e in rest :: Precedes(es[0], e);
      merged := [es[0]] + rest;
      assert es == [es[0]] + es[1..];
    } else {
      assert Precedes(fs[0], es[0]);
      var rest := MergeTwo(es, fs[1..]);
      assert forall e | e in es :: e == es[0] || Precedes(es[0], e);
      assert forall e | e in rest :: Precedes(fs[0], e);
      merged := [fs[0]] + rest;
      assert fs == [fs[0]] + fs[1..];
    }
  }

  /** Distinct sorted cursors over keys that stand apart always have a merge. */
  lemma {:induction false} MergeExists(children: seq<InternalIterator>) returns (merged: seq<Entry>)
    requires forall c | c in children :: Sorted(c.entries)
    requires forall i, j | 0 <= i < j < |children| :: children[i] != children[j]
    requires forall c, d | c in children && d in children && c != d :: Apart(c.entries, d.entries)
    ensures IsMerge(children, merged)
  {
    if children == [] {
      merged := [];
    } else {
      var front, last := children[..|children| - 1], children[|children| - 1];
      assert children == front + [last];
      var rest := MergeExists(front);
      assert Apart(rest, last.entries);
      merged := MergeTwo(rest, last.entries);
    }
  }

  /** The comparator agrees with the entry order on entries of one merge. */
  lemma LessIsPrecedes(a: Entry, b: Entry)
    ensures Precedes(a, b) ==> Less(a.key, b.key)
    ensures Less(a.key, b.key) ==>
              Precedes(a, b) || (a.key.userKey == b.key.userKey && a.key.sequence == b.key.sequence)
  {
  }

  /** In a sorted run an entry is among the first k exactly when it precedes entry k. */
  lemma AmongFirst(es: seq<Entry>, k: nat, e: Entry)
    requires Sorted(es) && k < |es| && e in es
    ensures e in es[..k] <==> Precedes(e, es[k])
    ensures e in es[..k] <==> Less(e.key, es[k].key)
    ensures e in es[..k + 1] <==> e in es[..k] || e == es[k]
    ensures es[k] !in es[..k]
  {
    var j :| 0 <= j < |es| && es[j] == e;
    if j < k {
      assert e == es[..k][j];
    }
    if e in es[..k] {
      var i :| 0 <= i < k && es[i] == e;
    }
    LessIsPrecedes(e, es[k]);
    assert es[..k + 1] == es[..k] + [es[k]];
  }

  /** The entries of one child that are among the first k of the merge are those before position `pos`. */
  ghost predicate CutsAt(es: seq<Entry>, merged: seq<Entry>, k: nat, pos: int) {
    k <= |merged| && forall i | 0 <= i < |es| :: i < pos <==> es[i] in merged[..k]
  }

  /** Moving the cut past an entry the child does not hold leaves its position alone. */
  lemma CutMoves(es: seq<Entry>, merged: seq<Entry>, k: nat, pos: int)
    requires Sorted(merged) && k < |merged| && (forall e | e in es :: e in merged)
    ensures merged[k] !in es ==> (CutsAt(es, merged, k, pos) <==> CutsAt(es, merged, k + 1, pos))
    ensures 0 <= pos < |es| && es[pos] == merged[k] && Sorted(es) ==>
            (CutsAt(es, merged, k, pos) <==> CutsAt(es, merged, k + 1, pos + 1))
  {
    forall i | 0 <= i < |es|
      ensures es[i] in merged[..k + 1] <==> es[i] in merged[..k] || es[i] == merged[k]
      ensures merged[k] !in merged[..k]
    {
      AmongFirst(merged, k, es[i]);
    }
    assert Sorted(es) ==> forall i | 0 <= i < |es| && i != pos && 0 <= pos < |es| :: es[i] != es[pos] by {
      if Sorted(es) {
        assert forall i | 0 <= i < |es| && i != pos && 0 <= pos < |es| :: Precedes(es[i], es[pos])
                 || Precedes(es[pos], es[i]);
      }
    }
  }

  /** A lower bound for an entry of the merge cuts every other child at that entry. */
  lemma LowerBoundCuts(es: seq<Entry>, merged: seq<Entry>, k: nat, pos: int)
    requires Sorted(merged) && k < |merged| && (forall e | e in es :: e in merged)
    requires IsLowerBound(es, merged[k].key, pos)
    ensures CutsAt(es, merged, k, pos)
  {
    forall i | 0 <= i < |es|
      ensures i < pos <==> es[i] in merged[..k]
    {
      AmongFirst(merged, k, es[i]);
    }
  }

  lemma TargetCuts(es: seq<Entry>, merged: seq<Entry>, target: InternalKey, k: nat, pos: int)
    requires Sorted(merged) && (forall e | e in es :: e in merged)
    requires IsLowerBound(merged, target, k) && IsLowerBound(es, target, pos)
    ensures CutsAt(es, merged, k, pos)
  {
    forall i | 0 <= i < |es|
      ensures i < pos <==> es[i] in merged[..k]
    {
      assert es[i] in merged;
      var j :| 0 <= j < |merged| && merged[j] == es[i];
      if j < k {
        assert merged[..k][j] == es[i];
      }
    }
  }

  /** The child that holds entry k stands on it. */
  lemma FirstPastCut(es: seq<Entry>, merged: seq<Entry>, k: nat, pos: nat)
    requires Sorted(es) && Sorted(merged) && CutsAt(es, merged, k, pos) && (forall e | e in es :: e in merged)
    requires k < |merged| && merged[k] in es
    ensures pos < |es| && es[pos] == merged[k]
  {
    var i :| 0 <= i < |es| && es[i] == merged[k];
    AmongFirst(merged, k, es[i]);
    AmongFirst(merged, k, es[pos]);
    assert forall a | 0 <= a < i :: Precedes(es[a], es[i]);
  }

  lemma LeastPastCut(merged: seq<Entry>, k: nat, e: Entry)
    requires Sorted(merged) && k < |merged| && e in merged && e !in merged[..k] && !Less(merged[k].key, e.key)
    ensures e == merged[k]
  {
    var j :| 0 <= j < |merged| && merged[j] == e;
    assert forall i | 0 <= i < k :: merged[i] == merged[..k][i];
    LessIsPrecedes(merged[k], e);
  }

  /** The child that holds entry k - 1 stands on it. */
  lemma LastBeforeCut(es: seq<Entry>, merged: seq<Entry>, k: nat, pos: nat)
    requires Sorted(es) && Sorted(merged) && CutsAt(es, merged, k, pos) && pos <= |es|
    requires 0 < k <= |merged| && merged[k - 1] in es
    ensures 0 < pos && es[pos - 1] == merged[k - 1]
  {
    var i :| 0 <= i < |es| && es[i] == merged[k - 1];
    assert merged[..k][k - 1] == es[i];
    assert es[pos - 1] in merged[..k];
    assert forall m | 0 <= m < k - 1 :: Precedes(merged[m], merged[k - 1]);
    assert forall a | i < a < |es| :: Precedes(es[i], es[a]);
  }

  lemma GreatestBeforeCut(merged: seq<Entry>, k: nat, e: Entry)
    requires Sorted(merged) && 0 < k <= |merged| && e in merged[..k] && !Less(e.key, merged[k - 1].key)
    ensures e == merged[k - 1]
  {
    var j :| 0 <= j < k && merged[j] == e;
    LessIsPrecedes(e, merged[k - 1]);
  }

  ghost function LowerBound(es: seq<Entry>, target: InternalKey): (k: nat)
    requires Sorted(es)
    ensures IsLowerBound(es, target, k)
  {
    if es == [] || Less(es[|es| - 1].key, target) then
      assert forall i | 0 <= i < |es| - 1 :: Precedes(es[i], es[|es| - 1]);
      |es|
    else
      LowerBound(es[..|es| - 1], target)
  }

  class MergingIter {
    const children: seq<InternalIterator>
    ghost const merged: seq<Entry>
    var current: InternalIterator?
    var direction: Direction
    /** The place in the merged list; |merged| when the cursor is not valid. */
    ghost var at: nat

    constructor (children: seq<InternalIterator>, ghost merged: seq<Entry>)
      requires IsMerge(children, merged) && forall c | c in children :: c.Positioned()
      ensures this.children == children && this.merged == merged && Refines() && !Valid()
    {
      this.children := children;
      this.merged := merged;
      current := null;
      direction := Forward;
      at := |merged|;
    }

    predicate Valid()
      reads this
    {
      current != null
    }

    ghost predicate Ready()
      reads this, children
    {
      IsMerge(children, merged) && forall c | c in children :: c.Positioned()
    }

    /** Every child stands at its first entry that is not among the first k of the merge. */
    ghost predicate ForwardCut(k: nat)
      reads this, children
    {
      forall c | c in children :: CutsAt(c.entries, merged, k, c.pos)
    }

    /** Every child stands at its last entry among the first k of the merge, or off the front. */
    ghost predicate ReverseCut(k: nat)
      reads this, children
    {
      forall c | c in children :: CutsAt(c.entries, merged, k, if c.Valid() then c.pos + 1 else 0)
    }

    /** The fields stand for place `at` of the merged list. */
    ghost predicate Refines()
      reads this, children
    {
      && Ready()
      && at <= |merged| && (Valid() <==> at < |merged|)
      && (current != null ==>
            && current in children && current.Valid() && current.entries[current.pos] == merged[at]
            && if direction.Forward? then ForwardCut(at) else ReverseCut(at + 1))
    }

    lemma ChildEntriesAreMerged(c: InternalIterator)
      requires IsMerge(children, merged) && c in children
      ensures Sorted(merged) && Sorted(c.entries) && forall e | e in c.entries :: e in merged
    {
    }

    lemma OnlyInCurrent(c: InternalIterator, d: InternalIterator, e: Entry)
      requires IsMerge(children, merged) && c in children && d in children && c != d && e in c.entries
      ensures e !in d.entries
    {
      assert Apart(c.entries, d.entries);
      assert !Precedes(e, e);
    }

    lemma KeysDiffer(c: InternalIterator, d: InternalIterator, a: Entry, b: Entry)
      requires IsMerge(children, merged) && c in children && d in children && c != d && a in c.entries && b in d.entries
      ensures Compare(a.key, b.key) != 0
    {
      assert Apart(c.entries, d.entries);
      LessIsPrecedes(a, b);
      LessIsPrecedes(b, a);
    }

    /** With every child cut at k, the smallest child entry is entry k of the merge. */
    method FindSmallest(ghost k: nat)
      requires Ready() && k <= |merged| && ForwardCut(k)
      modifies this`current
      ensures current == null <==> k == |merged|
      ensures current != null ==> current in children && current.Valid() && current.entries[current.pos] == merged[k]
    {
      var smallest: InternalIterator? := null;
      for i := 0 to |children|
        invariant smallest != null ==> smallest in children && smallest.Valid()
        invariant smallest == null ==> forall j | 0 <= j < i :: !children[j].Valid()
        invariant smallest != null ==> forall j | 0 <= j < i
                  && children[j].Valid() :: !Less(children[j].Key(), smallest.Key())
      {
        var child := children[i];
        if child.Valid() {
          if smallest == null {
            smallest := child;
          } else if Less(child.Key(), smallest.Key()) {
            smallest := child;
          }
        }
      }
      current := smallest;
      SmallestIs(k, smallest);
    }

    lemma SmallestIs(k: nat, smallest: InternalIterator?)
      requires Ready() && k <= |merged| && ForwardCut(k)
      requires smallest == null ==> forall c | c in children :: !c.Valid()
      requires smallest != null ==> smallest in children && smallest.Valid()
      requires smallest != null ==> forall c | c in children && c.Valid() :: !Less(c.Key(), smallest.Key())
      ensures smallest == null <==> k == |merged|
      ensures smallest != null ==> smallest.entries[smallest.pos] == merged[k]
    {
      assert merged[..|merged|] == merged;
      assert smallest != null ==>
               smallest.entries[smallest.pos] !in merged[..k] && smallest.entries[smallest.pos] in merged;
      if k < |merged| {
        assert merged[k] in merged;
        var c :| c in children && merged[k] in c.entries;
        ChildEntriesAreMerged(c);
        FirstPastCut(c.entries, merged, k, c.pos);
        LeastPastCut(merged, k, smallest.entries[smallest.pos]);
      }
    }

    /** With every child at its last entry among the first k, the largest child entry is entry k - 1. */
    method FindLargest(ghost k: nat)
      requires Ready() && k <= |merged| && ReverseCut(k)
      modifies this`current
      ensures current == null <==> k == 0
      ensures current != null ==>
                current in children && current.Valid() && current.entries[current.pos] == merged[k - 1]
    {
      var largest: InternalIterator? := null;
      for i := |children| downto 0
        invariant largest != null ==> largest in children && largest.Valid()
        invariant largest == null ==> forall j | i <= j < |children| :: !children[j].Valid()
        invariant largest != null ==> forall j | i <= j < |children|
                  && children[j].Valid() :: !Less(largest.Key(), children[j].Key())
      {
        var child := children[i];
        if child.Valid() {
          if largest == null {
            largest := child;
          } else if Compare(child.Key(), largest.Key()) > 0 {
            largest := child;
          }
        }
      }
      current := largest;
      LargestIs(k, largest);
    }

    lemma LargestIs(k: nat, largest: InternalIterator?)
      requires Ready() && k <= |merged| && ReverseCut(k)
      requires largest == null ==> forall c | c in children :: !c.Valid()
      requires largest != null ==> largest in children && largest.Valid()
      requires largest != null ==> forall c | c in children && c.Valid() :: !Less(largest.Key(), c.Key())
      ensures largest == null <==> k == 0
      ensures largest != null ==> largest.entries[largest.pos] == merged[k - 1]
    {
      assert largest != null ==> largest.entries[largest.pos] in merged[..k];
      if 0 < k {
        assert merged[k - 1] in merged;
        var c :| c in children && merged[k - 1] in c.entries;
        ChildEntriesAreMerged(c);
        LastBeforeCut(c.entries, merged, k, if c.Valid() then c.pos + 1 else 0);
        GreatestBeforeCut(merged, k, largest.entries[largest.pos]);
      }
    }

    method SeekToFirst()
      requires Ready()
      modifies this, children
      ensures Refines() && at == 0
    {
      for i := 0 to |children|
        invariant Ready() && forall j | 0 <= j < i :: children[j].pos == 0
      {
        children[i].SeekToFirst();
      }
      assert merged[..0] == [];
      FindSmallest(0);
      direction := Forward;
      at := 0;
    }

    method SeekToLast()
      requires Ready()
      modifies this, children
      ensures Refines() && at == if merged == [] then 0 else |merged| - 1
    {
      for i := 0 to |children|
        invariant Ready() && forall j | 0 <= j < i :: children[j].pos == if children[j].entries == [] then 0
                  else |children[j].entries| - 1
      {
        children[i].SeekToLast();
      }
      assert merged[..|merged|] == merged;
      forall c | c in children
        ensures CutsAt(c.entries, merged, |merged|, if c.Valid() then c.pos + 1 else 0)
      {
        ChildEntriesAreMerged(c);
      }
      FindLargest(|merged|);
      direction := Reverse;
      at := if merged == [] then 0 else |merged| - 1;
    }

    method Seek(target: InternalKey)
      requires Ready()
      modifies this, children
      ensures Refines() && IsLowerBound(merged, target, at)
    {
      for i := 0 to |children|
        invariant Ready() && forall j | 0 <= j < i :: IsLowerBound(children[j].entries, target, children[j].pos)
      {
        children[i].Seek(target);
      }
      ghost var k := LowerBound(merged, target);
      forall c | c in children
        ensures CutsAt(c.entries, merged, k, c.pos)
      {
        ChildEntriesAreMerged(c);
        TargetCuts(c.entries, merged, target, k, c.pos);
      }
      FindSmallest(k);
      direction := Forward;
      at := k;
    }

    /** Puts every child but the current one at its first entry after the current key. */
    method TurnForward()
      requires Refines() && Valid() && direction.Reverse?
      modifies this`direction, set c | c in children && c != current
      ensures Refines() && direction.Forward?
    {
      ChildEntriesAreMerged(current);
      hide IsMerge, Apart;
      hide CutsAt, IsLowerBound, Sorted, Apart;
      for i := 0 to |children|
        invariant Ready()
        invariant forall j | 0 <= j < i && children[j] != current ::
                    CutsAt(children[j].entries, merged, at, children[j].pos)
      {
        var child := children[i];
        if child != current {
          ChildEntriesAreMerged(child);
          child.Seek(current.Key());
          LowerBoundCuts(child.entries, merged, at, child.pos);
          OnlyInCurrent(current, child, merged[at]);
          if child.Valid() && Compare(current.Key(), child.Key()) == 0 {
            ghost var e := child.entries[child.pos];
            child.Next();
            KeysDiffer(current, child, merged[at], e);
          }
        }
      }
      ChildEntriesAreMerged(current);
      CutMoves(current.entries, merged, at, current.pos);
      direction := Forward;
    }

    /** Puts every child but the current one at its last entry before the current key. */
    method TurnReverse()
      requires Refines() && Valid() && direction.Forward?
      modifies this`direction, set c | c in children && c != current
      ensures Refines() && direction.Reverse?
    {
      hide CutsAt, IsLowerBound, Sorted, Apart;
      for i := 0 to |children|
        invariant Ready()
        invariant forall j | 0 <= j < i && children[j] != current ::
                    CutsAt(children[j].entries, merged, at + 1, if children[j].Valid() then children[j].pos + 1 else 0)
      {
        var child := children[i];
        if child != current {
          ChildEntriesAreMerged(child);
          child.Seek(current.Key());
          LowerBoundCuts(child.entries, merged, at, child.pos);
          OnlyInCurrent(current, child, merged[at]);
          CutMoves(child.entries, merged, at, child.pos);
          if child.Valid() {
            child.Prev();
          } else {
            child.SeekToLast();
          }
        }
      }
      ChildEntriesAreMerged(current);
      CutMoves(current.entries, merged, at, current.pos);
      direction := Reverse;
    }

    method Next()
      requires Refines() && Valid()
      modifies this, children
      ensures Refines() && at == old(at) + 1
    {
      if direction.Reverse? {
        TurnForward();
      }
      ghost var c0, p0 := current, current.pos;
      current.Next();
      forall c | c in children
        ensures CutsAt(c.entries, merged, at + 1, c.pos)
      {
        ChildEntriesAreMerged(c);
        if c != c0 {
          OnlyInCurrent(c0, c, merged[at]);
          CutMoves(c.entries, merged, at, c.pos);
        } else {
          CutMoves(c.entries, merged, at, p0);
        }
      }
      FindSmallest(at + 1);
      at := at + 1;
    }

    method Prev()
      requires Refines() && Valid()
      modifies this, children
      ensures Refines() && at == if old(at) == 0 then |merged| else old(at) - 1
    {
      hide IsMerge, Sorted, CutsAt;
      if direction.Forward? {
        TurnReverse();
      }
      ghost var c0, p0 := current, current.pos;
      current.Prev();
      forall c | c in children
        ensures CutsAt(c.entries, merged, at, if c.Valid() then c.pos + 1 else 0)
      {
        ChildEntriesAreMerged(c);
        if c != c0 {
          OnlyInCurrent(c0, c, merged[at]);
          CutMoves(c.entries, merged, at, if c.Valid() then c.pos + 1 else 0);
        } else {
          CutMoves(c.entries, merged, at, p0);
        }
      }
      FindLargest(at);
      at := if at == 0 then |merged| else at - 1;
    }
  }
}
