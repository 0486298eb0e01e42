/** Byte encodings of numbers and strings (util/coding.h, util/coding.cc). */
module Coding {
  import opened InternalKeys
  import opened SnapshotReads

  const TWO_TO_32: int := 0x1_0000_0000
  const TWO_TO_64: int := 0x1_0000_0000_0000_0000

  type Word = w: int | 0 <= w < TWO_TO_32
  type DoubleWord = w: int | 0 <= w < TWO_TO_64

  // ----- fixed width -----

  function EncodeFixed32(w: Word): (b: Bytes)
    ensures |b| == 4
  {
    [w % 0x100, w / 0x100 % 0x100, w / 0x1_0000 % 0x100, w / 0x100_0000]
  }

  function DecodeFixed32(b: Bytes): Word
    requires |b| >= 4
  {
    var b0: int, b1: int, b2: int, b3: int := b[0], b[1], b[2], b[3];
    b0 + b1 * 0x100 + b2 * 0x1_0000 + b3 * 0x100_0000
  }

  lemma Fixed32RoundTrip(w: Word, tail: Bytes)
    ensures DecodeFixed32(EncodeFixed32(w) + tail) == w
  {
    var b, e := EncodeFixed32(w) + tail, EncodeFixed32(w);
    assert b[0] == e[0] && b[1] == e[1] && b[2] == e[2] && b[3] == e[3];
    ByteParts(w);
  }

  lemma ByteParts(w: Word)
    ensures w % 0x100 + w / 0x100 % 0x100 * 0x100 + w / 0x1_0000 % 0x100 * 0x1_0000 + w / 0x100_0000 * 0x100_0000 == w
  {
    assert w / 0x1_0000 == w / 0x100 / 0x100 && w / 0x100_0000 == w / 0x1_0000 / 0x100;
  }

  function EncodeFixed64(w: DoubleWord): (b: Bytes)
    ensures |b| == 8
  {
    EncodeFixed32(w % TWO_TO_32) + EncodeFixed32(w / TWO_TO_32)
  }

  function DecodeFixed64(b: Bytes): DoubleWord
    requires |b| >= 8
  {
    DecodeFixed32(b) + DecodeFixed32(b[4..]) * TWO_TO_32
  }

  lemma Fixed64RoundTrip(w: DoubleWord, tail: Bytes)
    ensures DecodeFixed64(EncodeFixed64(w) + tail) == w
  {
    var lo, hi := EncodeFixed32(w % TWO_TO_32), EncodeFixed32(w / TWO_TO_32);
    assert EncodeFixed64(w) + tail == lo + (hi + tail);
    assert (EncodeFixed64(w) + tail)[4..] == hi + tail;
    Fixed32RoundTrip(w % TWO_TO_32, hi + tail);
    Fixed32RoundTrip(w / TWO_TO_32, tail);
  }

  // ----- varints -----

  /** Seven bits a byte, lowest first; a set high bit says that more bytes follow. */
  function Varint(v: nat): (b: Bytes)
    ensures 1 <= |b|
  {
    if v < 128 then [v] else [v % 128 + 128] + Varint(v / 128)
  }

  method EncodeVarint32(v: Word) returns (b: Bytes)
    ensures b == Varint(v) && |b| <= 5
  {
    if v < 0x80 {
      b := [v];
    } else if v < 0x4000 {
      b := [v % 128 + 128, v / 0x80];
    } else if v < 0x20_0000 {
      b := [v % 128 + 128, v / 0x80 % 128 + 128, v / 0x4000];
    } else if v < 0x1000_0000 {
      b := [v % 128 + 128, v / 0x80 % 128 + 128, v / 0x4000 % 128 + 128, v / 0x20_0000];
    } else {
      b := [v % 128 + 128, v / 0x80 % 128 + 128, v / 0x4000 % 128 + 128, v / 0x20_0000 % 128 + 128, v / 0x1000_0000];
    }
    FiveSteps(v);
  }

  lemma FiveSteps(v: Word)
    ensures v >= 0x80 ==> Varint(v) == [v % 128 + 128] + Varint(v / 0x80)
    ensures v >= 0x4000 ==> Varint(v / 0x80) == [v / 0x80 % 128 + 128] + Varint(v / 0x4000)
    ensures v >= 0x20_0000 ==> Varint(v / 0x4000) == [v / 0x4000 % 128 + 128] + Varint(v / 0x20_0000)
    ensures v >= 0x1000_0000 ==> Varint(v / 0x20_0000) == [v / 0x20_0000 % 128 + 128] + Varint(v / 0x1000_0000)
  {
    VarintStep(v);
    VarintStep(v / 0x80);
    VarintStep(v / 0x4000);
    VarintStep(v / 0x20_0000);
    hide Varint;
  }

  lemma VarintStep(v: nat)
    ensures v >= 128 ==> Varint(v) == [v % 128 + 128] + Varint(v / 128)
  {
  }

  method EncodeVarint64(value: DoubleWord) returns (b: Bytes)
    ensures b == Varint(value)
  {
    var v: nat := value;
    b := [];
    while v >= 128
      invariant b + Varint(v) == Varint(value)
    {
      b := b + [v % 128 + 128];
      v := v / 128;
    }
    b := b + [v];
  }

  datatype Parsed = Parsed(value: nat, next: nat)

  /** The number whose varint starts at p, if it ends before `limit` and within `count` bytes. */
  function VarintAt(b: Bytes, p: nat, limit: nat, count: nat): (r: Option<Parsed>)
    requires limit <= |b|
    ensures r.Some? ==> p < r.value.next <= limit
    decreases count
  {
    if count == 0 || limit <= p then None
    else if b[p] < 128 then Some(Parsed(b[p], p + 1))
    else
      var rest := VarintAt(b, p + 1, limit, count - 1);
      if rest.None? then None else Some(Parsed(b[p] % 128 + 128 * rest.value.value, rest.value.next))
  }

  function Power128(n: nat): nat {
    if n == 0 then 1 else 128 * Power128(n - 1)
  }

  ghost predicate HoldsAt(b: Bytes, p: nat, limit: nat, part: Bytes) {
    p + |part| <= limit <= |b| && b[p..p + |part|] == part
  }

  lemma HoldsParts(b: Bytes, p: nat, limit: nat, front: Bytes, back: Bytes)
    requires HoldsAt(b, p, limit, front + back)
    ensures HoldsAt(b, p, limit, front) && HoldsAt(b, p + |front|, limit, back)
  {
    HoldsSlice(b, p, limit, front + back, 0, |front|);
    HoldsSlice(b, p, limit, front + back, |front|, |front + back|);
    assert (front + back)[0..|front|] == front && (front + back)[|front|..|front + back|] == back;
  }

  lemma HeldBytes(b: Bytes, p: nat, limit: nat, part: Bytes)
    requires HoldsAt(b, p, limit, part)
    ensures p + |part| <= limit <= |b| && b[p..p + |part|] == part
  {
  }

  lemma HoldsSlice(b: Bytes, p: nat, limit: nat, part: Bytes, lo: nat, hi: nat)
    requires HoldsAt(b, p, limit, part) && lo <= hi <= |part|
    ensures HoldsAt(b, p + lo, limit, part[lo..hi])
  {
    forall i | 0 <= i < hi - lo
      ensures b[p + lo..p + hi][i] == part[lo..hi][i]
    {
      assert b[p..p + |part|][lo + i] == part[lo + i];
    }
  }

  /** Decoding a varint gives back the number, wherever it stands. */
  lemma {:induction false} VarintRoundTrip(v: nat, b: Bytes, p: nat, limit: nat, count: nat)
    requires HoldsAt(b, p, limit, Varint(v)) && v < Power128(count) && 0 < count
    ensures VarintAt(b, p, limit, count) == Some(Parsed(v, p + |Varint(v)|))
  {
    assert b[p] == Varint(v)[0];
    if v >= 128 {
      assert b[p + 1..p + |Varint(v)|] == Varint(v)[1..];
      VarintRoundTrip(v / 128, b, p + 1, limit, count - 1);
    }
  }

  /** GetVarint32Ptr: five bytes at most, 32 bits kept. */
  function Varint32At(b: Bytes, p: nat, limit: nat): (r: Option<Parsed>)
    requires limit <= |b|
    ensures r.Some? ==> p < r.value.next <= limit && r.value.value < TWO_TO_32
  {
    var r := VarintAt(b, p, limit, 5);
    if r.None? then None else Some(Parsed(r.value.value % TWO_TO_32, r.value.next))
  }

  lemma Power128Of5()
    ensures Power128(5) == 0x8_0000_0000
  {
    assert Power128(2) == 0x4000;
    assert Power128(4) == 0x1000_0000;
  }

  lemma Varint32RoundTrip(v: Word, b: Bytes, p: nat, limit: nat)
    requires HoldsAt(b, p, limit, Varint(v))
    ensures Varint32At(b, p, limit) == Some(Parsed(v, p + |Varint(v)|))
  {
    Power128Of5();
    VarintRoundTrip(v, b, p, limit, 5);
    hide VarintAt, Varint, Power128;
  }

  method GetVarint32Ptr(b: Bytes, start: nat, limit: nat) returns (r: Option<Parsed>)
    requires limit <= |b|
    ensures r == Varint32At(b, start, limit)
  {
    if start < limit && b[start] < 128 {
      return Some(Parsed(b[start], start + 1));
    }
    var p: nat, result: Word, shift: nat, weight: nat := start, 0, 0, 1;
    ghost var whole: nat := 0;
    while shift < 5 && p < limit
      invariant 0 <= shift <= 5
      invariant result == whole % TWO_TO_32
      invariant Continued(VarintAt(b, start, limit, 5), whole, weight, VarintAt(b, p, limit, 5 - shift))
      decreases 5 - shift
    {
      hide VarintAt, Continued;
      var byte: int := b[p];
      var bits := byte % 128 * weight;
      OneMoreByte(VarintAt(b, start, limit, 5), whole, weight, b, p, limit, 5 - shift);
      AddModulo(whole, bits);
      whole := whole + bits;
      result := (result + bits) % TWO_TO_32;
      p := p + 1;
      if byte < 128 {
        return Some(Parsed(result, p));
      }
      shift, weight := shift + 1, weight * 128;
    }
    return None;
  }

  lemma OneMoreByte(all: Option<Parsed>, sofar: nat, weight: nat, b: Bytes, p: nat, limit: nat, count: nat)
    requires 0 < count && p < limit <= |b| && Continued(all, sofar, weight, VarintAt(b, p, limit, count))
    ensures b[p] < 128 ==> all == Some(Parsed(sofar + b[p] % 128 * weight, p + 1))
    ensures b[p] >= 128 ==> Continued(all, sofar + b[p] % 128 * weight, weight * 128,
            VarintAt(b, p + 1, limit, count - 1))
  {
    var rest := VarintAt(b, p + 1, limit, count - 1);
    if b[p] >= 128 && rest.Some? {
      var low: int, high: int := b[p] % 128, rest.value.value;
      assert sofar + weight * (low + 128 * high) == (sofar + low * weight) + weight * 128 * high;
    }
  }

  lemma AddModulo(a: nat, b: nat)
    ensures (a % TWO_TO_32 + b) % TWO_TO_32 == (a + b) % TWO_TO_32
  {
  }

  /** `all` is what the low part `sofar` and the remaining varint `rest` make together. */
  ghost predicate Continued(all: Option<Parsed>, sofar: nat, weight: nat, rest: Option<Parsed>) {
    if rest.None? then all.None? else all == Some(Parsed(sofar + weight * rest.value.value, rest.value.next))
  }

  /** GetVarint64Ptr: ten bytes at most, 64 bits kept. */
  function Varint64At(b: Bytes, p: nat, limit: nat): (r: Option<Parsed>)
    requires limit <= |b|
    ensures r.Some? ==> p < r.value.next <= limit && r.value.value < TWO_TO_64
  {
    var r := VarintAt(b, p, limit, 10);
    if r.None? then None else Some(Parsed(r.value.value % TWO_TO_64, r.value.next))
  }

  lemma Power128Of10()
    ensures Power128(10) >= TWO_TO_64
  {
    Power128Of5();
    assert Power128(6) == 128 * Power128(5);
    assert Power128(7) == 128 * Power128(6);
    assert Power128(8) == 128 * Power128(7);
    assert Power128(9) == 128 * Power128(8);
    assert Power128(10) == 128 * Power128(9);
  }

  lemma Varint64RoundTrip(v: DoubleWord, b: Bytes, p: nat, limit: nat)
    requires HoldsAt(b, p, limit, Varint(v))
    ensures Varint64At(b, p, limit) == Some(Parsed(v, p + |Varint(v)|))
  {
    Power128Of10();
    VarintRoundTrip(v, b, p, limit, 10);
    hide VarintAt, Varint, Power128;
  }

  // ----- length-prefixed strings -----

  function LengthPrefixed(s: Bytes): Bytes {
    Varint(|s|) + s
  }

  datatype Slice = Slice(bytes: Bytes, next: nat)

  function LengthPrefixedAt(b: Bytes, p: nat): (r: Option<Slice>)
    ensures r.Some? ==> p < r.value.next <= |b|
  {
    var len := Varint32At(b, p, |b|);
    if len.None? || |b| - len.value.next < len.value.value then None
    else Some(Slice(b[len.value.next..len.value.next + len.value.value], len.value.next + len.value.value))
  }

  lemma LengthPrefixedRoundTrip(s: Bytes, b: Bytes, p: nat)
    requires |s| < TWO_TO_32 && HoldsAt(b, p, |b|, LengthPrefixed(s))
    ensures LengthPrefixedAt(b, p) == Some(Slice(s, p + |LengthPrefixed(s)|))
  {
    var head := Varint(|s|);
    assert b[p..p + |head|] == b[p..p + |LengthPrefixed(s)|][..|head|];
    assert b[p + |head|..p + |head| + |s|] == b[p..p + |LengthPrefixed(s)|][|head|..];
    Varint32RoundTrip(|s|, b, p, |b|);
  }

  // ----- consuming an input from the front -----

  lemma FrontHeld(b: Bytes, p: nat, part: Bytes, tail: Bytes)
    requires p <= |b| && b[p..] == part + tail
    ensures p + |part| <= |b| && HoldsAt(b, p, |b|, part) && b[p + |part|..] == tail
  {
    assert |b| == p + |part| + |tail| && b[p..|b|] == b[p..];
    HoldsParts(b, p, |b|, part, tail);
    HeldBytes(b, p + |part|, |b|, tail);
    assert b[p + |part|..|b|] == b[p + |part|..];
  }

  lemma Varint32Front(b: Bytes, p: nat, v: Word, tail: Bytes)
    requires p <= |b| && b[p..] == Varint(v) + tail
    ensures p + |Varint(v)| <= |b| && Varint32At(b, p, |b|) == Some(Parsed(v, p + |Varint(v)|))
            && b[p + |Varint(v)|..] == tail
  {
    hide Varint, Varint32At, HoldsAt;
    FrontHeld(b, p, Varint(v), tail);
    Varint32RoundTrip(v, b, p, |b|);
  }

  lemma Varint64Front(b: Bytes, p: nat, v: DoubleWord, tail: Bytes)
    requires p <= |b| && b[p..] == Varint(v) + tail
    ensures p + |Varint(v)| <= |b| && Varint64At(b, p, |b|) == Some(Parsed(v, p + |Varint(v)|))
            && b[p + |Varint(v)|..] == tail
  {
    hide Varint, Varint64At, HoldsAt;
    FrontHeld(b, p, Varint(v), tail);
    Varint64RoundTrip(v, b, p, |b|);
  }

  lemma LengthPrefixedFront(b: Bytes, p: nat, s: Bytes, tail: Bytes)
    requires p <= |b| && b[p..] == LengthPrefixed(s) + tail && |s| < TWO_TO_32
    ensures var next := p + |LengthPrefixed(s)|;
            next <= |b| && LengthPrefixedAt(b, p) == Some(Slice(s, next)) && b[next..] == tail
  {
    hide LengthPrefixed, LengthPrefixedAt, HoldsAt;
    FrontHeld(b, p, LengthPrefixed(s), tail);
    LengthPrefixedRoundTrip(s, b, p);
  }
}
