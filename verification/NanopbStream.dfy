/** Input streams of the decoder, and the numbers read from them (pb_decode.c). */
module NanopbStream {
  import opened InternalKeys
  import opened SnapshotReads
  import opened Coding
  import opened NanopbMessages

  /** pb_istream_t on a buffer: `left` bytes may be read from `pos` on. */
  class IStream {
    const data: Bytes
    var pos: nat
    var left: nat

    ghost predicate Valid()
      reads this
    {
      pos + left <= |data|
    }

    function Rest(): Bytes
      reads this
      requires Valid()
    {
      data[pos..pos + left]
    }

    /** pb_istream_from_buffer, and the copy that pb_make_string_substream limits. */
    constructor (data: Bytes, pos: nat, left: nat)
      requires pos + left <= |data|
      ensures Valid() && fresh(this) && this.data == data && this.pos == pos && this.left == left
    {
      this.data, this.pos, this.left := data, pos, left;
    }

    method ReadByte() returns (ok: bool, b: Byte)
      requires Valid()
      modifies this
      ensures Valid() && left <= old(left) && pos + left == old(pos + left) && (ok <==> old(left) != 0)
      ensures ok ==> left + 1 == old(left)
      ensures ok ==> old(Rest()) == [b] + Rest()
    {
      if left == 0 {
        return false, 0;
      }
      ok, b := true, data[pos];
      pos, left := pos + 1, left - 1;
    }

    /** pb_read. */
    method Read(count: nat) returns (ok: bool, bytes: Bytes)
      requires Valid()
      modifies this
      ensures Valid() && left <= old(left) && pos + left == old(pos + left) && (ok <==> count <= old(left))
      ensures ok ==> |bytes| == count && left + count == old(left)
      ensures ok ==> old(Rest()) == bytes + Rest()
    {
      if count == 0 {
        return true, [];
      }
      if left < count {
        return false, [];
      }
      ok, bytes := true, data[pos..pos + count];
      pos, left := pos + count, left - count;
    }
  }

  // ----- bits -----

  function Pow2(k: nat): (p: nat)
    ensures 0 < p
  {
    if k == 0 then 1 else 2 * Pow2(k - 1)
  }

  /** Bitwise or. */
  function Or(a: nat, b: nat): nat {
    if a == 0 then b else if b == 0 then a
    else (if a % 2 == 1 || b % 2 == 1 then 1 else 0) + 2 * Or(a / 2, b / 2)
  }

  /** Bits that do not meet add up. */
  lemma {:induction false} OrAdds(a: nat, b: nat, k: nat)
    requires a < Pow2(k)
    ensures Or(a, Pow2(k) * b) == a + Pow2(k) * b
  {
    if k == 0 || a == 0 || b == 0 {
      assert Pow2(0) == 1;
    } else {
      assert Pow2(k) * b == 2 * (Pow2(k - 1) * b);
      OrAdds(a / 2, b, k - 1);
    }
  }

  lemma {:induction false} OrFits(a: nat, b: nat, k: nat)
    requires a < Pow2(k) && b < Pow2(k)
    ensures Or(a, b) < Pow2(k)
  {
    if k != 0 && a != 0 && b != 0 {
      OrFits(a / 2, b / 2, k - 1);
    }
  }

  lemma {:induction false} PowAdds(a: nat, b: nat)
    ensures Pow2(a + b) == Pow2(a) * Pow2(b)
  {
    if b != 0 {
      PowAdds(a, b - 1);
      assert Pow2(a) * (2 * Pow2(b - 1)) == 2 * (Pow2(a) * Pow2(b - 1));
    }
  }

  lemma Powers()
    ensures Pow2(7) == 128 && Pow2(32) == TWO_TO_32 && Pow2(64) == TWO_TO_64
  {
    assert Pow2(7) == 128;
    PowAdds(7, 7);
    PowAdds(14, 14);
    assert Pow2(4) == 16;
    PowAdds(28, 4);
    PowAdds(32, 32);
  }

  lemma {:induction false} PowGrows(a: nat, b: nat)
    requires a <= b
    ensures Pow2(a) <= Pow2(b)
  {
    if a < b {
      PowGrows(a, b - 1);
    }
  }

  // ----- varints -----

  lemma Dominates(p: nat, n: nat, m: nat)
    requires n <= m
    ensures p * n <= p * m
  {
    assert p * m == p * n + p * (m - n);
  }

  /** value |= bits << bitpos in `width` bits. */
  function OrShifted(value: nat, bits: nat, bitpos: nat, width: nat): (r: nat)
    requires value < Pow2(width)
    ensures r < Pow2(width)
  {
    OrFits(value, Pow2(bitpos) * bits % Pow2(width), width);
    Or(value, Pow2(bitpos) * bits % Pow2(width))
  }

  lemma Modest(a: nat, b: nat)
    requires a < b
    ensures a % b == a
  {
  }

  /** The bytes of a varint: all but the last have their high bits set. */
  predicate VarintBytes(b: Bytes) {
    b != [] && b[|b| - 1] < 128 && forall k | 0 <= k < |b| - 1 :: b[k] >= 128
  }

  lemma {:induction false} VarintIsVarintBytes(v: nat)
    ensures VarintBytes(Varint(v))
  {
    if v >= 128 {
      VarintIsVarintBytes(v / 128);
      var rest := Varint(v / 128);
      forall k | 0 <= k < |rest|
        ensures Varint(v)[k] >= 128
      {
        assert k > 0 ==> Varint(v)[k] == rest[k - 1];
      }
    }
  }

  /** The number that the low seven bits of the bytes make, lowest first. */
  function Bits(b: Bytes): nat {
    if b == [] then 0 else b[0] % 128 + 128 * Bits(b[1..])
  }

  lemma {:induction false} BitsOfVarint(v: nat)
    ensures Bits(Varint(v)) == v
  {
    if v >= 128 {
      BitsOfVarint(v / 128);
      assert Varint(v)[1..] == Varint(v / 128);
    }
  }

  lemma {:induction false} BitsAppend(b: Bytes, x: Byte)
    ensures Bits(b + [x]) == Bits(b) + Pow2(7 * |b|) * (x % 128)
  {
    if b == [] {
      assert [] + [x] == [x];
    } else {
      assert (b + [x])[1..] == b[1..] + [x];
      BitsAppend(b[1..], x);
      SevenUp(|b| - 1, x % 128);
    }
  }

  lemma SevenUp(n: nat, digit: nat)
    ensures 128 * (Pow2(7 * n) * digit) == Pow2(7 * (n + 1)) * digit
  {
    PowAdds(7 * n, 7);
    Powers();
    var p := Pow2(7 * n);
    hide Pow2;
    assert 128 * (p * digit) == p * 128 * digit;
  }

  lemma {:induction false} BitsBelow(b: Bytes)
    ensures Bits(b) < Pow2(7 * |b|)
  {
    if b != [] {
      BitsBelow(b[1..]);
      SevenUp(|b| - 1, 1);
      assert Pow2(7 * |b|) == 128 * Pow2(7 * (|b| - 1));
    }
  }

  lemma {:induction false} VarintLength(v: nat, n: nat)
    requires v < Pow2(7 * n) && 0 < n
    ensures |Varint(v)| <= n
  {
    SevenUp(n - 1, 1);
    if v >= 128 {
      assert v / 128 < Pow2(7 * (n - 1)) && n > 1;
      VarintLength(v / 128, n - 1);
    }
  }

  lemma DigitBelow(low: nat, p: nat, digit: nat, base: nat)
    requires low < p && digit < base
    ensures low + p * digit < p * base
  {
    Dominates(p, digit + 1, base);
    assert p * (digit + 1) == p * digit + p;
  }

  /** There is a varint of k bytes at the front. */
  ghost predicate IsFront(rest: Bytes, k: nat) {
    0 < k <= |rest| && VarintBytes(rest[..k])
  }

  lemma FrontEnds(rest: Bytes, n: nat, k: nat)
    requires n <= |rest| && (forall i | 0 <= i < n :: rest[i] >= 128) && IsFront(rest, k)
    ensures n < k
  {
    assert rest[..k][k - 1] == rest[k - 1];
  }

  lemma FrontIs(rest: Bytes, n: nat, k: nat)
    requires 0 < n <= |rest| && (forall i | 0 <= i < n - 1 :: rest[i] >= 128) && rest[n - 1] < 128
    ensures IsFront(rest, k) <==> k == n
  {
    if IsFront(rest, k) {
      FrontEnds(rest, n - 1, k);
    }
  }

  lemma NoFront(rest: Bytes, k: nat)
    requires forall i | 0 <= i < |rest| :: rest[i] >= 128
    ensures !IsFront(rest, k)
  {
    if IsFront(rest, k) {
      FrontEnds(rest, |rest|, k);
    }
  }

  /** Exactly a varint of at most ten bytes is taken, and 64 bits of it are kept. */
  ghost predicate Decided64(rest: Bytes, ok: bool, value: nat, after: Bytes) {
    && (ok ==> exists k: nat :: IsFront(rest, k))
    && forall k: nat | IsFront(rest, k) ::
         (ok <==> k <= 10) && (ok ==> value == Bits(rest[..k]) % TWO_TO_64 && after == rest[k..])
  }

  /** The first n bytes read, all of them with more to come but perhaps the last. */
  ghost predicate Gathered(rest: Bytes, n: nat, value: nat, more: bool) {
    && n <= |rest| && n <= 10 && value == Bits(rest[..n]) % Pow2(64)
    && (forall k | 0 <= k < n - 1 :: rest[k] >= 128) && (more <==> n == 0 || rest[n - 1] >= 128)
  }

  lemma GatheredStart(rest: Bytes)
    ensures Gathered(rest, 0, 0, true)
  {
    assert Bits(rest[..0]) == 0;
    hide Pow2;
    Modest(0, Pow2(64));
  }

  lemma KeepsLow(value: nat, p: nat, q: nat, bits: nat)
    requires value < p && 0 < q
    ensures p * bits % (p * q) == p * (bits % q)
    ensures (value + p * bits) % (p * q) == value + p * (bits % q)
  {
    var h, l := bits / q, bits % q;
    Regrouped(p, q, h, l);
    DigitBelow(value, p, l, q);
    QuotientRemainder(p * bits, p * q, h, p * l);
    QuotientRemainder(value + p * bits, p * q, h, value + p * l);
  }

  lemma Regrouped(p: nat, q: nat, h: nat, l: nat)
    ensures p * (q * h + l) == p * q * h + p * l
  {
    assert p * (q * h + l) == p * (q * h) + p * l && p * (q * h) == p * q * h;
  }

  lemma QuotientRemainder(a: nat, n: nat, h: nat, r: nat)
    requires r < n && a == n * h + r
    ensures a % n == r
  {
    var d := a / n - h;
    assert n * (a / n) == n * h + n * d;
    if d >= 1 {
      Dominates(n, 1, d);
    } else if d <= -1 {
      Dominates(n, 1, -d);
    }
  }

  lemma ShiftedIn(value: nat, digit: nat, bitpos: nat, width: nat)
    requires value < Pow2(bitpos) && bitpos <= width
    ensures value < Pow2(width)
    ensures OrShifted(value, digit, bitpos, width) == (value + Pow2(bitpos) * digit) % Pow2(width)
  {
    var p, q := Pow2(bitpos), Pow2(width - bitpos);
    PowAdds(bitpos, width - bitpos);
    PowGrows(bitpos, width);
    hide Pow2, Or;
    KeepsLow(value, p, q, digit);
    OrAdds(value, digit % q, bitpos);
  }

  lemma GatheredMore(rest: Bytes, n: nat, value: nat)
    requires Gathered(rest, n, value, true) && n < 10 && n < |rest|
    ensures value < Pow2(64) && Gathered(rest, n + 1, OrShifted(value, rest[n] % 128, 7 * n, 64), rest[n] >= 128)
  {
    BitsBelow(rest[..n]);
    PowGrows(7 * n, 64);
    hide Pow2, Or, Bits;
    Modest(Bits(rest[..n]), Pow2(64));
    ShiftedIn(value, rest[n] % 128, 7 * n, 64);
    hide OrShifted;
    assert rest[..n + 1] == rest[..n] + [rest[n]];
    BitsAppend(rest[..n], rest[n]);
  }

  lemma VarintEnds(rest: Bytes, n: nat, value: nat)
    requires Gathered(rest, n, value, false)
    ensures Decided64(rest, true, value, rest[n..])
  {
    Powers();
    hide Pow2, Bits;
    FrontIs(rest, n, n);
    forall k: nat | IsFront(rest, k)
      ensures k == n
    {
      FrontIs(rest, n, k);
    }
  }

  lemma NoVarint(rest: Bytes, n: nat, value: nat, after: Bytes)
    requires Gathered(rest, n, value, true) && (n == 10 || n == |rest|)
    ensures Decided64(rest, false, 0, after)
  {
    hide Pow2, Bits;
    forall k: nat | IsFront(rest, k)
      ensures n < k
    {
      FrontEnds(rest, n, k);
    }
  }

  /** What is read of an encoded number. */
  lemma EncodedRead(rest: Bytes, ok: bool, value: nat, now: Bytes, want: DoubleWord, after: Bytes)
    requires Decided64(rest, ok, value, now)
    ensures rest == Varint(want) + after ==> ok && value == want && now == after
  {
    if rest == Varint(want) + after {
      var n := |Varint(want)|;
      assert rest[..n] == Varint(want) && rest[n..] == after;
      VarintIsVarintBytes(want);
      assert IsFront(rest, n);
      BitsOfVarint(want);
      Powers();
      PowGrows(64, 70);
      VarintLength(want, 10);
    }
  }

  lemma NextByte(rest: Bytes, n: nat, byte: Byte, next: Bytes)
    requires n <= |rest| && rest[n..] == [byte] + next
    ensures n < |rest| && rest[n] == byte && next == rest[n + 1..]
  {
    assert rest[n..][0] == byte && rest[n..][1..] == next;
  }

  /** pb_decode_varint. */
  method DecodeVarint(s: IStream, ghost want: DoubleWord, ghost after: Bytes) returns (ok: bool, value: DoubleWord)
    requires s.Valid()
    modifies s
    ensures s.Valid() && s.left <= old(s.left) && s.pos + s.left == old(s.pos + s.left) && (ok ==> s.left < old(s.left))
    ensures Decided64(old(s.Rest()), ok, value, s.Rest())
    ensures old(s.Rest()) == Varint(want) + after ==> ok && value == want && s.Rest() == after
  {
    ghost var rest, n := s.Rest(), 0;
    Powers();
    GatheredStart(rest);
    hide Pow2, Or, Varint, OrShifted, Gathered, Decided64, Bits;
    value, ok := 0, true;
    var bitpos: nat, more: bool := 0, true;
    while more
      invariant s.Valid() && s.left + n == old(s.left) && s.pos + s.left == old(s.pos + s.left)
      invariant bitpos == 7 * n && n <= 10 && (more || bitpos != 0) && s.Rest() == rest[n..]
      invariant Gathered(rest, n, value, more)
      decreases s.left, more
    {
      if bitpos >= 64 {
        NoVarint(rest, n, value, s.Rest());
        EncodedRead(rest, false, 0, s.Rest(), want, after);
        return false, 0;
      }
      var read, byte := s.ReadByte();
      if !read {
        NoVarint(rest, n, value, s.Rest());
        EncodedRead(rest, false, 0, s.Rest(), want, after);
        return false, 0;
      }
      NextByte(rest, n, byte, s.Rest());
      GatheredMore(rest, n, value);
      value := OrShifted(value, byte % 128, bitpos, 64);
      bitpos := bitpos + 7;
      more := byte >= 128;
      n := n + 1;
    }
    VarintEnds(rest, n, value);
    EncodedRead(rest, true, value, s.Rest(), want, after);
  }

  // ----- 32-bit varints -----

  /** The 32 bits that pb_decode_varint32_eof keeps: those of the first five bytes. */
  function Low(b: Bytes): nat {
    Bits(if |b| <= 5 then b else b[..5]) % Pow2(32)
  }

  /** A byte after the fifth adds nothing or extends the sign to 64 bits. */
  predicate Pads(b: Bytes, j: nat)
    requires j < |b|
  {
    b[j] % 128 == 0 || (0x8000_0000 <= Low(b) && b[j] == if j < 9 then 0xff else 0x01)
  }

  /** The varints taken for a 32-bit number. */
  ghost predicate Accepted(b: Bytes) {
    VarintBytes(b) && (|b| <= 5 ==> Bits(b) < TWO_TO_32) && forall j | 5 <= j < |b| :: Pads(b, j)
  }

  /** Of the varint in front of `rest`, if it is not so long that the 8-bit bit position wraps around, exactly an
      accepted one is taken. */
  ghost predicate Decided32(rest: Bytes, ok: bool, value: nat, after: Bytes) {
    && (ok ==> exists k: nat :: IsFront(rest, k))
    && forall k: nat | k <= 36 && IsFront(rest, k) ::
      (ok <==> Accepted(rest[..k])) && (ok ==> value == Low(rest[..k]) && after == rest[k..])
  }

  /** The first n bytes have been read. */
  ghost predicate Gathered32(rest: Bytes, n: nat, value: nat, bitpos: nat) {
    && 0 < n <= |rest| && (forall k | 0 <= k < n - 1 :: rest[k] >= 128)
    && (n <= 36 ==> bitpos == 7 * n && value == Low(rest[..n]) && forall j | 5 <= j < n :: Pads(rest[..n], j))
  }

  /** Of five bytes those below 2^32 have nothing above the fourth bit of the last. */
  lemma FifthByte(b: Bytes)
    requires |b| == 5
    ensures Bits(b) < TWO_TO_32 <==> b[4] % 128 < 16
  {
    var low, d: nat := b[..4], b[4] % 128;
    assert b == low + [b[4]];
    BitsAppend(low, b[4]);
    BitsBelow(low);
    PowAdds(28, 4);
    Powers();
    assert Pow2(4) == 16;
    var p := Pow2(28);
    hide Pow2, Bits;
    if d < 16 {
      DigitBelow(Bits(low), p, d, 16);
    } else {
      Dominates(p, 16, d);
    }
  }

  lemma LowIs(b: Bytes)
    requires |b| <= 4
    ensures Bits(b) < Pow2(28) < TWO_TO_32 && Low(b) == Bits(b)
  {
    BitsBelow(b);
    PowGrows(7 * |b|, 28);
    PowAdds(28, 4);
    Powers();
    assert Pow2(4) == 16;
    hide Pow2, Bits;
    Modest(Bits(b), Pow2(32));
  }

  lemma FirstByte(rest: Bytes)
    requires rest != []
    ensures Gathered32(rest, 1, rest[0] % 128, 7)
  {
    LowIs(rest[..1]);
    assert rest[..1][0] == rest[0] && rest[..1][1..] == [] && Bits([]) == 0;
    hide Pow2;
  }

  lemma LowAppend(b: Bytes, x: Byte)
    requires |b| <= 4
    ensures Low(b) < Pow2(7 * |b|) && Low(b + [x]) == (Low(b) + Pow2(7 * |b|) * (x % 128)) % Pow2(32)
  {
    LowIs(b);
    BitsBelow(b);
    BitsAppend(b, x);
    hide Pow2, Bits;
  }

  /** Bytes two to five bring seven bits each, as far as 32 bits go. */
  lemma NextBits(rest: Bytes, n: nat, value: nat, bitpos: nat)
    requires Gathered32(rest, n, value, bitpos) && rest[n - 1] >= 128 && n < 5 && n < |rest|
    ensures value < Pow2(32)
    ensures Gathered32(rest, n + 1, OrShifted(value, rest[n] % 128, bitpos, 32), bitpos + 7)
  {
    hide Pow2, OrShifted, Low, Pads;
    assert rest[..n + 1] == rest[..n] + [rest[n]];
    LowAppend(rest[..n], rest[n]);
    ShiftedIn(value, rest[n] % 128, bitpos, 32);
  }

  lemma LowStays(rest: Bytes, n: nat, k: nat)
    requires 5 <= n <= k <= |rest|
    ensures Low(rest[..n]) == Low(rest[..k])
    ensures forall j | 0 <= j < n :: Pads(rest[..n], j) == Pads(rest[..k], j)
  {
    assert rest[..n][..5] == rest[..k][..5] == rest[..5];
    assert rest[..5][..5] == rest[..5];
    hide Pow2, Bits;
  }

  /** A byte after the fifth is taken if it pads. */
  lemma NextPad(rest: Bytes, n: nat, value: nat, bitpos: nat)
    requires Gathered32(rest, n, value, bitpos) && rest[n - 1] >= 128 && 5 <= n < |rest|
    requires n < 36 ==> Pads(rest[..n + 1], n)
    ensures Gathered32(rest, n + 1, value, bitpos + 7)
  {
    hide Pads, Low;
    if n < 36 {
      LowStays(rest, n, n + 1);
    }
  }

  /** Beyond the wrap-around nothing is promised. */
  lemma NextBeyond(rest: Bytes, n: nat, value: nat, bitpos: nat, value': nat, bitpos': nat)
    requires Gathered32(rest, n, value, bitpos) && rest[n - 1] >= 128 && 36 <= n < |rest|
    ensures Gathered32(rest, n + 1, value', bitpos')
  {
    hide Pads, Low;
  }

  lemma NoPad(rest: Bytes, n: nat, value: nat, bitpos: nat, value': nat, after: Bytes)
    requires Gathered32(rest, n, value, bitpos) && rest[n - 1] >= 128 && 5 <= n < |rest|
    requires n < 36 ==> !Pads(rest[..n + 1], n)
    ensures Decided32(rest, false, value', after)
  {
    hide Pads, Low, Accepted;
    forall k: nat | k <= 36 && IsFront(rest, k)
      ensures !Accepted(rest[..k])
    {
      FrontEnds(rest, n, k);
      LowStays(rest, n + 1, k);
      NotPadded(rest[..k], n);
    }
  }

  lemma NotPadded(b: Bytes, j: nat)
    requires 5 <= j < |b| && !Pads(b, j)
    ensures !Accepted(b)
  {
    hide Pads, Bits;
  }

  lemma CutShort(rest: Bytes, value': nat, after: Bytes)
    requires forall i | 0 <= i < |rest| :: rest[i] >= 128
    ensures Decided32(rest, false, value', after)
  {
    hide Low, Accepted;
    forall k: nat
      ensures !IsFront(rest, k)
    {
      NoFront(rest, k);
    }
  }

  /** The test at the end is that five bytes stay below 2^32. */
  lemma LastByte(rest: Bytes, n: nat, value: nat, bitpos: nat, value': nat)
    requires Gathered32(rest, n, value, bitpos) && rest[n - 1] < 128
    ensures if bitpos == 35 && rest[n - 1] % 128 >= 16 then Decided32(rest, false, value', rest[n..])
            else Decided32(rest, true, value, rest[n..])
  {
    hide Pads, Low, Bits;
    if n <= 4 {
      LowIs(rest[..n]);
    } else if n == 5 {
      FifthByte(rest[..5]);
    }
    hide Pow2;
    forall k: nat | k <= 36 && IsFront(rest, k)
      ensures k == n
    {
      FrontIs(rest, n, k);
    }
    FrontIs(rest, n, n);
  }

  /** The bytes after the first of pb_decode_varint32_eof, with trailing sign extension bytes tolerated. The bit
      position is an 8-bit number. */
  method DecodeMoreBytes(s: IStream, low: Word, ghost rest: Bytes) returns (ok: bool, value: Word)
    requires s.Valid() && rest != [] && rest[0] >= 128 && low == rest[0] % 128 && s.Rest() == rest[1..]
    modifies s
    ensures s.Valid() && s.left <= old(s.left) && s.pos + s.left == old(s.pos + s.left)
    ensures Decided32(rest, ok, value, s.Rest())
  {
    hide Pow2, Or, OrShifted, Gathered32, Decided32, Bits, Low, Pads;
    Powers();
    FirstByte(rest);
    var result: Word, bitpos: nat, byte: Byte := low, 7, 0x80;
    ghost var n := 1;
    while byte >= 128
      invariant s.Valid() && s.left <= old(s.left) && s.pos + s.left == old(s.pos + s.left)
      invariant 0 < n <= |rest| && s.Rest() == rest[n..] && Gathered32(rest, n, result, bitpos)
      invariant if n == 1 then byte == 0x80 else byte == rest[n - 1]
      decreases s.left, byte >= 128
    {
      NoMoreBytes(rest, n, result, bitpos, s.Rest());
      var read;
      read, byte := s.ReadByte();
      if !read {
        return false, 0;
      }
      MoreByte(rest, n, result, bitpos, byte, s.Rest());
      if bitpos >= 32 {
        var signExtension := if bitpos < 63 then 0xff else 0x01;
        if byte % 128 != 0 && (result < 0x8000_0000 || byte != signExtension) {
          return false, 0;
        }
      } else {
        result := OrShifted(result, byte % 128, bitpos, 32);
      }
      bitpos := (bitpos + 7) % 256;
      n := n + 1;
    }
    LastByte(rest, n, result, bitpos, 0);
    if bitpos == 35 && byte % 128 >= 16 {
      return false, 0;
    }
    return true, result;
  }

  /** pb_decode_varint32_eof. */
  method DecodeVarint32(s: IStream, ghost want: Word, ghost after: Bytes) returns (ok: bool, value: Word, eof: bool)
    requires s.Valid()
    modifies s
    ensures s.Valid() && s.left <= old(s.left) && s.pos + s.left == old(s.pos + s.left) && (ok ==> s.left < old(s.left))
    ensures Decided32(old(s.Rest()), ok, value, s.Rest())
    ensures old(s.Rest()) == Varint(want) + after ==> ok && value == want && s.Rest() == after
  {
    ghost var rest := s.Rest();
    if rest == Varint(want) + after {
      WordRead(rest, want, after);
    }
    hide Pow2, Varint, Decided32;
    var read, byte := s.ReadByte();
    if !read {
      CutShort(rest, 0, s.Rest());
      return false, 0, true;
    }
    NextByte(rest, 0, byte, s.Rest());
    if byte < 128 {
      FirstByte(rest);
      LastByte(rest, 1, byte, 7, 0);
      DecidedWord(rest, true, byte, s.Rest(), want, after);
      return true, byte, false;
    }
    eof := false;
    ok, value := DecodeMoreBytes(s, byte % 128, rest);
    DecidedWord(rest, ok, value, s.Rest(), want, after);
  }

  /** What is read of an encoded 32-bit number. */
  lemma WordRead(rest: Bytes, want: Word, after: Bytes)
    requires rest == Varint(want) + after
    ensures var k := |Varint(want)|;
            && k <= 5 && IsFront(rest, k) && Accepted(rest[..k]) && Low(rest[..k]) == want && rest[k..] == after
  {
    var k := |Varint(want)|;
    assert rest[..k] == Varint(want) && rest[k..] == after;
    VarintIsVarintBytes(want);
    BitsOfVarint(want);
    Powers();
    PowGrows(32, 35);
    VarintLength(want, 5);
    hide Pow2, Bits, Varint;
    Modest(want, Pow2(32));
  }

  lemma DecidedWord(rest: Bytes, ok: bool, value: nat, now: Bytes, want: Word, after: Bytes)
    requires Decided32(rest, ok, value, now)
    ensures rest == Varint(want) + after ==> ok && value == want && now == after
  {
    hide Low, Accepted, Varint;
    if rest == Varint(want) + after {
      WordRead(rest, want, after);
    }
  }

  lemma NoMoreBytes(rest: Bytes, n: nat, value: nat, bitpos: nat, next: Bytes)
    requires Gathered32(rest, n, value, bitpos) && rest[n - 1] >= 128
    ensures n == |rest| ==> Decided32(rest, false, 0, next)
  {
    hide Pads, Low, Decided32;
    if n == |rest| {
      CutShort(rest, 0, next);
    }
  }

  /** One more byte: an error, or taken in. */
  lemma MoreByte(rest: Bytes, n: nat, value: nat, bitpos: nat, byte: Byte, next: Bytes)
    requires Gathered32(rest, n, value, bitpos) && rest[n - 1] >= 128 && value < Pow2(32) && rest[n..] == [byte] + next
    ensures n < |rest| && rest[n] == byte && next == rest[n + 1..]
    ensures if bitpos < 32 then
              Gathered32(rest, n + 1, OrShifted(value, byte % 128, bitpos, 32), (bitpos + 7) % 256)
            else if byte % 128 != 0 && (value < 0x8000_0000 || byte != if bitpos < 63 then 0xff else 0x01) then
              Decided32(rest, false, 0, next)
            else Gathered32(rest, n + 1, value, (bitpos + 7) % 256)
  {
    NextByte(rest, n, byte, next);
    GatheredPlace(rest, n, value, bitpos);
    hide Pads, Low, OrShifted, Pow2, Gathered32, Decided32;
    if bitpos < 32 {
      NextGathered(rest, n, value, bitpos, OrShifted(value, byte % 128, bitpos, 32), (bitpos + 7) % 256);
    } else {
      PadsIff(rest, n, value, bitpos, if bitpos < 63 then 0xff else 0x01);
      if byte % 128 != 0 && (value < 0x8000_0000 || byte != if bitpos < 63 then 0xff else 0x01) {
        NoPad(rest, n, value, bitpos, 0, next);
      } else {
        NextGathered(rest, n, value, bitpos, value, (bitpos + 7) % 256);
      }
    }
  }

  lemma GatheredPlace(rest: Bytes, n: nat, value: nat, bitpos: nat)
    requires Gathered32(rest, n, value, bitpos)
    ensures n < 36 ==> bitpos == 7 * n
  {
    hide Pads, Low;
  }

  lemma PadsIff(rest: Bytes, n: nat, value: nat, bitpos: nat, signExtension: int)
    requires Gathered32(rest, n, value, bitpos) && rest[n - 1] >= 128 && n < |rest| && 32 <= bitpos
    requires signExtension == if bitpos < 63 then 0xff else 0x01
    ensures n < 36 ==>
              5 <= n && (Pads(rest[..n + 1], n) <==>
                !(rest[n] % 128 != 0 && (value < 0x8000_0000 || rest[n] != signExtension)))
    ensures 5 <= n
  {
    if n < 36 {
      LowStays(rest, n, n + 1);
    }
    hide Low;
  }

  lemma NextGathered(rest: Bytes, n: nat, value: nat, bitpos: nat, value': nat, bitpos': nat)
    requires Gathered32(rest, n, value, bitpos) && rest[n - 1] >= 128 && n < |rest| && value < Pow2(32)
    requires bitpos' == (bitpos + 7) % 256
    requires if 32 <= bitpos then value' == value && (n < 36 ==> 5 <= n && Pads(rest[..n + 1], n))
             else value' == OrShifted(value, rest[n] % 128, bitpos, 32)
    ensures Gathered32(rest, n + 1, value', bitpos')
  {
    hide Pads, Low, OrShifted, Pow2;
    if 36 <= n {
      NextBeyond(rest, n, value, bitpos, value', bitpos');
    } else if 5 <= n {
      NextPad(rest, n, value, bitpos);
    } else {
      NextBits(rest, n, value, bitpos);
    }
  }

  // ----- substreams -----

  /** pb_make_string_substream: the next bytes under a length, split off the stream. */
  method MakeSubstream(s: IStream, ghost body: Bytes, ghost after: Bytes) returns (ok: bool, sub: IStream)
    requires s.Valid()
    modifies s
    ensures s.Valid() && s.left <= old(s.left) && s.pos + s.left <= old(s.pos + s.left) && sub.Valid() && fresh(sub)
    ensures ok ==> sub.data == s.data && sub.pos == s.pos && sub.left + s.left < old(s.left)
    ensures ok ==> sub.pos + sub.left + s.left == old(s.pos + s.left)
    ensures |body| < TWO_TO_32 && old(s.Rest()) == LengthPrefixed(body) + after ==>
              ok && sub.Rest() == body && s.data[sub.pos + sub.left..sub.pos + sub.left + s.left] == after
  {
    hide Varint, Decided32;
    ghost var good := |body| < TWO_TO_32 && s.Rest() == LengthPrefixed(body) + after;
    assert good ==> s.Rest() == Varint(|body|) + (body + after);
    var size: nat, eof: bool;
    ok, size, eof := DecodeVarint32(s, if |body| < TWO_TO_32 then |body| else 0, body + after);
    if !ok {
      sub := new IStream([], 0, 0);
      return;
    }
    if s.left < size {
      ok := false;
      sub := new IStream([], 0, 0);
      return;
    }
    sub := new IStream(s.data, s.pos, size);
    s.left := s.left - size;
    if good {
      Cut(s.data, s.pos, s.pos + size, s.pos + size + s.left, body, after);
    }
  }

  lemma Cut(data: Bytes, lo: nat, mid: nat, hi: nat, a: Bytes, b: Bytes)
    requires lo <= mid <= hi <= |data| && data[lo..hi] == a + b && |a| == mid - lo
    ensures data[lo..mid] == a && data[mid..hi] == b
  {
    assert data[lo..mid] == data[lo..hi][..mid - lo] && data[mid..hi] == data[lo..hi][mid - lo..];
  }

  /** pb_close_string_substream: the stream goes on behind the substream. */
  method CloseSubstream(s: IStream, sub: IStream)
    requires s != sub && s.data == sub.data && sub.Valid() && sub.pos + sub.left + s.left <= |s.data|
    modifies s, sub
    ensures s.Valid() && s.pos == old(sub.pos + sub.left) && s.left == old(s.left)
  {
    var ok, skipped := sub.Read(sub.left);
    s.pos := sub.pos;
  }

  // ----- numbers of a field -----

  /** The signed number with the low bits of v. */
  function Signed(v: int, w: Width): (n: int)
    ensures -Half(w) <= n < Half(w)
    ensures -Half(w) <= v < Half(w) ==> n == v
  {
    var m := v % (2 * Half(w));
    if m < Half(w) then m else m - 2 * Half(w)
  }

  /** The number on the wire, as 64 bits. */
  function WireNumber(t: LType, n: int): DoubleWord {
    if t.SintType? then ZigZag(n) % TWO_TO_64 else n % TWO_TO_64
  }

  /** pb_dec_varint, pb_dec_uvarint and pb_dec_svarint: cast to the field's size, and refused if that changes it. */
  function FieldNumber(t: LType, value: DoubleWord): (r: Option<int>)
    requires t.IntType? || t.UintType? || t.SintType?
    ensures r.Some? ==> InRange(t, Num(r.value))
  {
    var number :=
      if t.UintType? then value
      else if t.IntType? then Signed(value, if t.size == 8 then 8 else 4)
      else if value % 2 == 1 then -(value / 2) - 1 else value / 2;
    var clamped := if t.UintType? then number % (2 * Half(t.size)) else Signed(number, t.size);
    if clamped == number then Some(clamped) else None
  }

  lemma FieldNumberBack(t: LType, n: int)
    requires (t.IntType? || t.UintType? || t.SintType?) && InRange(t, Num(n))
    ensures FieldNumber(t, WireNumber(t, n)) == Some(n)
  {
    match t
    case IntType(w) => SignedBack(n, w);
    case UintType(w) => UintBack(n, w);
    case SintType(w) => ZigZagBack(n, w);
  }

  lemma UintBack(n: int, w: Width)
    requires 0 <= n < 2 * Half(w)
    ensures FieldNumber(UintType(w), WireNumber(UintType(w), n)) == Some(n)
  {
    hide Signed;
    assert n % TWO_TO_64 == n && n % (2 * Half(w)) == n;
  }

  lemma ZigZagBack(n: int, w: Width)
    requires -Half(w) <= n < Half(w)
    ensures FieldNumber(SintType(w), WireNumber(SintType(w), n)) == Some(n)
  {
    hide Signed;
    var z := ZigZag(n);
    assert z < TWO_TO_64 && z % TWO_TO_64 == z;
    assert n < 0 ==> z == 2 * (-n - 1) + 1 && z / 2 == -n - 1;
    assert n >= 0 ==> z == 2 * n;
  }

  lemma SignedBack(n: int, w: Width)
    requires -Half(w) <= n < Half(w)
    ensures Signed(n % TWO_TO_64, if w == 8 then 8 else 4) == n
  {
    if w == 8 {
      assert Signed(n % TWO_TO_64, 8) == n;
    } else {
      SignedLow(n);
    }
  }

  lemma SignedLow(n: int)
    requires -Half(4) <= n < Half(4)
    ensures Signed(n % TWO_TO_64, 4) == n
  {
    if 0 <= n {
      assert n % TWO_TO_64 == n;
    } else {
      assert n % TWO_TO_64 == n + TWO_TO_64;
      assert (n + TWO_TO_64) % TWO_TO_32 == n + TWO_TO_32;
    }
  }

  /** What the decoder promises of any bytes, and of the encoding of n. */
  twostate predicate NumberRead(s: IStream, t: LType, n: int, after: Bytes, ok: bool, r: int)
    requires old(s.Valid()) && Packable(t)
    reads s
  {
    && s.Valid() && s.left <= old(s.left) && s.pos + s.left == old(s.pos + s.left)
    && (ok ==> s.left < old(s.left) && InRange(t, Num(r)))
    && (InRange(t, Num(n)) && old(s.Rest()) == NumberBytes(t, n) + after ==> ok && r == n && s.Rest() == after)
  }

  /** A number on the wire is accepted exactly if it stands for one in the range of the field. Signed fields below 64
      bits take the low 32 bits only. */
  lemma FieldNumberIff(t: LType, value: DoubleWord, n: int)
    requires t.IntType? || t.UintType? || t.SintType?
    ensures FieldNumber(t, value) == Some(n) <==>
              && InRange(t, Num(n))
              && (t.UintType? ==> n == value)
              && (t.SintType? ==> ZigZag(n) == value)
              && (t.IntType? ==> if t.size == 8 then n % TWO_TO_64 == value else n % TWO_TO_32 == value % TWO_TO_32)
  {
    match t
    case IntType(w) => IntIff(w, value, n);
    case UintType(w) => UintIff(w, value, n);
    case SintType(w) => SintIff(w, value, n);
  }

  lemma IntIff(w: Width, value: DoubleWord, n: int)
    ensures FieldNumber(IntType(w), value) == Some(n) <==>
              && -Half(w) <= n < Half(w)
              && if w == 8 then n % TWO_TO_64 == value else n % TWO_TO_32 == value % TWO_TO_32
  {
    SignedIff(value, if w == 8 then 8 else 4, n);
    assert value % TWO_TO_64 == value;
    hide Signed;
  }

  lemma UintIff(w: Width, value: DoubleWord, n: int)
    ensures FieldNumber(UintType(w), value) == Some(n) <==> 0 <= n < 2 * Half(w) && n == value
  {
    hide Signed;
    assert value % (2 * Half(w)) == value <==> value < 2 * Half(w);
  }

  lemma SintIff(w: Width, value: DoubleWord, n: int)
    ensures FieldNumber(SintType(w), value) == Some(n) <==> -Half(w) <= n < Half(w) && ZigZag(n) == value
  {
    hide Signed;
    var number := if value % 2 == 1 then -(value / 2) - 1 else value / 2;
    assert ZigZag(number) == value;
    assert ZigZag(n) == value ==> n == number;
  }

  lemma SignedIff(value: DoubleWord, w: Width, n: int)
    requires w == 4 || w == 8
    ensures Signed(value, w) == n <==> -Half(w) <= n < Half(w) && n % (2 * Half(w)) == value % (2 * Half(w))
  {
    var m := value % (2 * Half(w));
    if -Half(w) <= n < Half(w) {
      assert 0 <= n ==> n % (2 * Half(w)) == n;
      assert n < 0 ==> n % (2 * Half(w)) == n + 2 * Half(w);
    }
    var r := Signed(value, w);
    assert 0 <= r ==> r % (2 * Half(w)) == r;
    assert r < 0 ==> r % (2 * Half(w)) == r + 2 * Half(w);
  }

  /** pb_dec_varint, pb_dec_uvarint and pb_dec_svarint on any number. */
  method DecodeSized(s: IStream, t: LType, ghost want: DoubleWord, ghost after: Bytes) returns (ok: bool, r: int)
    requires s.Valid() && (t.IntType? || t.UintType? || t.SintType?)
    modifies s
    ensures s.Valid() && s.left <= old(s.left) && s.pos + s.left == old(s.pos + s.left)
    ensures ok ==> s.left < old(s.left) && InRange(t, Num(r))
    ensures old(s.Rest()) == Varint(want) + after ==>
              && (ok <==> FieldNumber(t, want).Some?)
              && (ok ==> Some(r) == FieldNumber(t, want) && s.Rest() == after)
  {
    hide Varint, FieldNumber;
    var value: DoubleWord;
    ok, value := DecodeVarint(s, want, after);
    var number := FieldNumber(t, value);
    if !ok || number.None? {
      return false, 0;
    }
    r := number.value;
  }

  /** The same on the encoding of a number in range. */
  method DecodeInRange(s: IStream, t: LType, ghost n: int, ghost after: Bytes) returns (ok: bool, r: int)
    requires s.Valid() && (t.IntType? || t.UintType? || t.SintType?)
    modifies s
    ensures NumberRead(s, t, n, after, ok, r)
  {
    assert NumberBytes(t, n) == Varint(WireNumber(t, n));
    if InRange(t, Num(n)) {
      FieldNumberBack(t, n);
    }
    hide Varint, FieldNumber, WireNumber, NumberBytes;
    ok, r := DecodeSized(s, t, WireNumber(t, n), after);
  }

  method DecodeFixed(s: IStream, t: LType, ghost n: int, ghost after: Bytes) returns (ok: bool, r: int)
    requires s.Valid() && (t.Fixed32Type? || t.Fixed64Type?)
    modifies s
    ensures NumberRead(s, t, n, after, ok, r)
  {
    hide EncodeFixed32, EncodeFixed64, DecodeFixed32, DecodeFixed64;
    ghost var rest := s.Rest();
    var b: Bytes;
    ok, b := s.Read(if t.Fixed32Type? then 4 else 8);
    if !ok {
      return false, 0;
    }
    r := if t.Fixed32Type? then DecodeFixed32(b) else DecodeFixed64(b);
    if InRange(t, Num(n)) && rest == NumberBytes(t, n) + after {
      if t.Fixed32Type? {
        Fixed32Back(b, s.Rest(), n, after);
      } else {
        Fixed64Back(b, s.Rest(), n, after);
      }
    }
  }

  /** The number of a field, sign and width as the field's type has it. */
  method DecodeNumber(s: IStream, t: LType, ghost n: int, ghost after: Bytes) returns (ok: bool, r: int)
    requires s.Valid() && Packable(t)
    modifies s
    ensures NumberRead(s, t, n, after, ok, r)
  {
    match t
    case BoolType =>
      hide Varint;
      var value: Word, eof: bool;
      ok, value, eof := DecodeVarint32(s, if n != 0 then 1 else 0, after);
      r := if value != 0 then 1 else 0;
    case Fixed32Type => ok, r := DecodeFixed(s, t, n, after);
    case Fixed64Type => ok, r := DecodeFixed(s, t, n, after);
    case IntType(_) => ok, r := DecodeInRange(s, t, n, after);
    case UintType(_) => ok, r := DecodeInRange(s, t, n, after);
    case SintType(_) => ok, r := DecodeInRange(s, t, n, after);
  }

  lemma Fixed32Back(b: Bytes, rest: Bytes, n: Word, after: Bytes)
    requires |b| == 4 && b + rest == EncodeFixed32(n) + after
    ensures DecodeFixed32(b) == n && rest == after
  {
    hide EncodeFixed32, DecodeFixed32;
    assert b == (b + rest)[..4] && rest == (b + rest)[4..];
    Fixed32RoundTrip(n, []);
    assert EncodeFixed32(n) + [] == EncodeFixed32(n);
  }

  lemma Fixed64Back(b: Bytes, rest: Bytes, n: DoubleWord, after: Bytes)
    requires |b| == 8 && b + rest == EncodeFixed64(n) + after
    ensures DecodeFixed64(b) == n && rest == after
  {
    hide EncodeFixed64, DecodeFixed64;
    assert b == (b + rest)[..8] && rest == (b + rest)[8..];
    Fixed64RoundTrip(n, []);
    assert EncodeFixed64(n) + [] == EncodeFixed64(n);
  }
}
