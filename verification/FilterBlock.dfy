/** One filter for every 2 KB of block offsets (table/filter_block.cc). The offsets of filters within the
    finished filter block are left out: the block is the list of its filters. */
module FilterBlock {
  import opened InternalKeys
  import opened Bloom

  const FILTER_BASE: int := 2048

  /** The filter of a range without keys; it matches nothing. */
  const EMPTY_FILTER: Filter := Filter([], 0)

  class FilterBlockBuilder {
    const policy: BloomFilterPolicy
    var keys: seq<Bytes>
    var filters: seq<Filter>
    /** The keys each finished filter was made for. */
    ghost var groups: seq<seq<Bytes>>

    ghost predicate Valid()
      reads this
    {
      policy.k <= 30 && Covers(filters, groups) && NothingElse(filters, groups, policy.k, policy.bitsPerKey)
    }

    constructor (policy: BloomFilterPolicy)
      requires policy.k <= 30
      ensures Valid() && keys == [] && groups == [] && filters == [] && this.policy == policy
    {
      this.policy := policy;
      keys, filters, groups := [], [], [];
    }

    /** Closes the filters of all ranges before the one of `blockOffset`. */
    method StartBlock(blockOffset: nat)
      requires Valid() && |filters| <= blockOffset / FILTER_BASE
      modifies this
      ensures Valid() && |filters| == blockOffset / FILTER_BASE && old(groups) <= groups
      ensures if |old(filters)| == |filters| then keys == old(keys) && groups == old(groups)
              else keys == [] && groups[|old(groups)|] == old(keys)
    {
      while blockOffset / FILTER_BASE > |filters|
        invariant Valid() && |filters| <= blockOffset / FILTER_BASE && old(groups) <= groups
                  && |old(filters)| <= |filters|
        invariant if |old(filters)| == |filters| then keys == old(keys) && groups == old(groups)
                  else keys == [] && groups[|old(groups)|] == old(keys)
      {
        GenerateFilter();
      }
    }

    method AddKey(key: Bytes)
      modifies this`keys
      ensures keys == old(keys) + [key]
    {
      keys := keys + [key];
    }

    method Finish() returns (result: seq<Filter>)
      requires Valid()
      modifies this
      ensures Valid() && result == filters
      ensures groups == if old(keys) == [] then old(groups) else old(groups) + [old(keys)]
    {
      if keys != [] {
        GenerateFilter();
      }
      result := filters;
    }

    method GenerateFilter()
      requires Valid()
      modifies this
      ensures Valid() && keys == [] && groups == old(groups) + [old(keys)] && |filters| == |old(filters)| + 1
    {
      var f := EMPTY_FILTER;
      if keys != [] {
        f := policy.CreateFilter(keys);
      }
      filters := filters + [f];
      groups := groups + [keys];
      keys := [];
    }
  }

  /** Each filter may match every key of its group. */
  ghost predicate Covers(filters: seq<Filter>, groups: seq<seq<Bytes>>) {
    |filters| == |groups| && forall g | 0 <= g < |groups| :: forall key | key in groups[g] :: MayMatch(filters[g], key)
  }

  /** The filter of a range without keys matches nothing; the others have no bit set but for their keys. */
  ghost predicate NothingElse(filters: seq<Filter>, groups: seq<seq<Bytes>>, k: nat, bitsPerKey: nat) {
    && |filters| == |groups|
    && forall g | 0 <= g < |groups| ::
         if groups[g] == [] then forall key :: !MayMatch(filters[g], key)
         else MadeFor(filters[g], groups[g], k, bitsPerKey)
  }

  /** A key of the group of a block's offset is never ruled out; a range beyond the last filter rules nothing out. */
  method KeyMayMatch(policy: BloomFilterPolicy, filters: seq<Filter>, blockOffset: nat, key: Bytes,
                     ghost groups: seq<seq<Bytes>>)
    returns (r: bool)
    ensures var g := blockOffset / FILTER_BASE;
            r <==> |filters| <= g || MayMatch(filters[g], key)
    ensures Covers(filters, groups) && blockOffset / FILTER_BASE < |groups|
            && key in groups[blockOffset / FILTER_BASE] ==>
                r
  {
    var index := blockOffset / FILTER_BASE;
    if index < |filters| {
      r := policy.KeyMayMatch(key, filters[index]);
    } else {
      r := true;
    }
  }
}
