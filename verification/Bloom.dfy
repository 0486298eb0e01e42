/** The bloom filter policy (util/bloom.cc). A filter is its bits and the number of probes; the packing of bits
    into bytes, and the hash itself, are left open. */
module Bloom {
  import opened InternalKeys
  import opened Coding

  const HASH: Bytes -> Word

  datatype Filter = Filter(bits: seq<bool>, probes: nat)

  function Rotated(h: Word): Word {
    h / 0x2_0000 + h % 0x2_0000 * 0x8000
  }

  /** The hash of probe j: double hashing, in 32 bits. */
  function Probe(key: Bytes, j: nat): Word {
    if j == 0 then HASH(key) else (Probe(key, j - 1) + Rotated(HASH(key))) % TWO_TO_32
  }

  ghost predicate AllSet(bits: seq<bool>, key: Bytes, k: nat) {
    bits != [] && forall j | 0 <= j < k :: bits[Probe(key, j) % |bits|]
  }

  /** KeyMayMatch: filters with more than 30 probes are reserved and match everything. */
  ghost predicate MayMatch(f: Filter, key: Bytes) {
    f.bits != [] && (f.probes > 30 || AllSet(f.bits, key, f.probes))
  }

  /** Bit b is a probe of one of the first n keys. */
  ghost predicate Probed(keys: seq<Bytes>, n: nat, k: nat, size: nat, b: nat)
    requires n <= |keys| && 0 < size
  {
    exists i, j | 0 <= i < n && 0 <= j < k :: IsProbe(keys[i], j, size, b)
  }

  ghost predicate IsProbe(key: Bytes, j: nat, size: nat, b: nat)
    requires 0 < size
  {
    Probe(key, j) % size == b
  }

  /** A filter for these keys and no others: exactly their probes are set, of at least so many bits a key. */
  ghost predicate MadeFor(f: Filter, keys: seq<Bytes>, k: nat, bitsPerKey: nat) {
    && f.probes == k && 64 <= |f.bits| && |keys| * bitsPerKey <= |f.bits| && |f.bits| % 8 == 0
    && (|f.bits| < |keys| * bitsPerKey + 8 || |f.bits| == 64)
    && forall b | 0 <= b < |f.bits| :: f.bits[b] <==> Probed(keys, |keys|, k, |f.bits|, b)
  }

  /** Probe j of the key is a probe of one of the keys. */
  ghost predicate Collides(keys: seq<Bytes>, k: nat, size: nat, key: Bytes, j: nat)
    requires 0 < size
  {
    Probed(keys, |keys|, k, size, Probe(key, j) % size)
  }

  /** Which keys a filter may match: those all of whose probes are probes of its keys. */
  lemma MatchIff(f: Filter, keys: seq<Bytes>, k: nat, bitsPerKey: nat, key: Bytes)
    requires MadeFor(f, keys, k, bitsPerKey) && k <= 30
    ensures MayMatch(f, key) <==> forall j | 0 <= j < k :: Collides(keys, k, |f.bits|, key, j)
    ensures key in keys ==> MayMatch(f, key)
  {
    hide Probe;
    if i :| 0 <= i < |keys| && keys[i] == key {
      forall j | 0 <= j < k
        ensures Collides(keys, k, |f.bits|, key, j)
      {
        assert IsProbe(keys[i], j, |f.bits|, Probe(key, j) % |f.bits|);
      }
    }
    hide Probed;
    forall j | 0 <= j < k
      ensures Collides(keys, k, |f.bits|, key, j) <==> f.bits[Probe(key, j) % |f.bits|]
    {
      var b := Probe(key, j) % |f.bits|;
      assert 0 <= b < |f.bits|;
    }
  }

  class BloomFilterPolicy {
    const bitsPerKey: nat
    const k: nat

    /** 0.69 is close to ln 2; between 1 and 30 probes. */
    constructor (bitsPerKey: nat)
      ensures this.bitsPerKey == bitsPerKey && 1 <= k <= 30
    {
      this.bitsPerKey := bitsPerKey;
      var probes: nat := bitsPerKey * 69 / 100;
      k := if probes < 1 then 1 else if probes > 30 then 30 else probes;
    }

    /** A filter of exactly the keys' probes, which every one of the keys may match. */
    method CreateFilter(keys: seq<Bytes>) returns (f: Filter)
      ensures MadeFor(f, keys, k, bitsPerKey) && forall i | 0 <= i < |keys| :: k <= 30 ==> MayMatch(f, keys[i])
    {
      var size := |keys| * bitsPerKey;
      if size < 64 {
        size := 64;
      }
      size := (size + 7) / 8 * 8;
      var bits: seq<bool> := seq(size, _ => false);
      for i := 0 to |keys|
        invariant |bits| == size
        invariant forall b | 0 <= b < size :: bits[b] <==> Probed(keys, i, k, size, b)
      {
        var h, delta := HASH(keys[i]), Rotated(HASH(keys[i]));
        for j := 0 to k
          invariant |bits| == size && h == Probe(keys[i], j)
          invariant forall b | 0 <= b < size :: bits[b] <==>
                      Probed(keys, i, k, size, b) || exists q | 0 <= q < j :: IsProbe(keys[i], q, size, b)
        {
          assert IsProbe(keys[i], j, size, h % size);
          bits := bits[h % size := true];
          h := (h + delta) % TWO_TO_32;
        }
      }
      f := Filter(bits, k);
      forall i | 0 <= i < |keys|
        ensures k <= 30 ==> MayMatch(f, keys[i])
      {
        if k <= 30 {
          MatchIff(f, keys, k, bitsPerKey, keys[i]);
        }
      }
    }

    method KeyMayMatch(key: Bytes, f: Filter) returns (r: bool)
      ensures r <==> MayMatch(f, key)
    {
      if f.bits == [] {
        return false;
      }
      if f.probes > 30 {
        return true;
      }
      var h, delta := HASH(key), Rotated(HASH(key));
      for j := 0 to f.probes
        invariant h == Probe(key, j) && AllSet(f.bits, key, j)
      {
        if !f.bits[h % |f.bits|] {
          return false;
        }
        h := (h + delta) % TWO_TO_32;
      }
      return true;
    }
  }
}
