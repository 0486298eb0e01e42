/** The circular iterator over the fields of a message type (pb_common.c). */
module NanopbIterator {
  import opened NanopbMessages

  ghost predicate DistinctTags(fields: seq<Field>) {
    forall i, j | 0 <= i < j < |fields| :: fields[i].tag != fields[j].tag
  }

  /** Steps from one position to another, around the end. */
  function Distance(start: nat, i: nat, n: nat): int {
    if start <= i then i - start else i + n - start
  }

  /** pb_field_iter_t; position |fields| of an empty type is the terminator of the field array. */
  class FieldIter {
    const fields: seq<Field>
    var pos: nat
    var requiredIndex: nat

    ghost predicate Valid()
      reads this
    {
      && (if fields == [] then pos == 0 else pos < |fields|)
      && requiredIndex == RequiredBefore(fields, pos)
    }

    constructor (fields: seq<Field>)
      ensures Valid() && this.fields == fields && pos == 0
    {
      this.fields := fields;
      pos, requiredIndex := 0, 0;
    }

    /** False when it wraps back to the first field. */
    method Next() returns (more: bool)
      requires Valid()
      modifies this
      ensures Valid()
      ensures more == (old(pos) + 1 < |fields|)
      ensures pos == if more then old(pos) + 1 else 0
    {
      if fields == [] {
        return false;
      }
      if pos + 1 == |fields| {
        pos, requiredIndex := 0, 0;
        return false;
      }
      if fields[pos].rule.Required? {
        requiredIndex := requiredIndex + 1;
      }
      pos := pos + 1;
      return true;
    }

    /** From any position, finds the field of the number if there is one. On an empty type number 0 matches the
        terminator. */
    method Find(tag: nat) returns (found: bool)
      requires Valid() && DistinctTags(fields)
      modifies this
      ensures Valid()
      ensures fields != [] ==> (found <==> exists i | 0 <= i < |fields| :: fields[i].tag == tag)
      ensures fields != [] && found ==> fields[pos].tag == tag
      ensures fields == [] ==> (found <==> tag == 0)
    {
      if fields == [] {
        return tag == 0;
      }
      var start := pos;
      if fields[pos].tag == tag {
        return true;
      }
      var more := Next();
      ghost var steps := 1;
      while pos != start
        invariant Valid() && 1 <= steps <= |fields|
        invariant pos == (if start + steps < |fields| then start + steps else start + steps - |fields|)
        invariant forall i | 0 <= i < |fields| && Distance(start, i, |fields|) < steps :: fields[i].tag != tag
        decreases |fields| - steps
      {
        if fields[pos].tag == tag {
          return true;
        }
        more := Next();
        steps := steps + 1;
      }
      assert forall i | 0 <= i < |fields| :: Distance(start, i, |fields|) < |fields|;
      return false;
    }
  }
}
