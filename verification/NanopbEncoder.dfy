/** Encoding of messages (pb_encode.c). */
module NanopbEncoder {
  import opened InternalKeys
  import opened SnapshotReads
  import opened Coding
  import opened NanopbMessages
  import opened NanopbIterator

  // ----- output streams -----

  /** What a stream has done: the bytes counted, and those written unless it only measures. */
  datatype Sink = Sink(sizing: bool, maxSize: nat, written: nat, out: Bytes)

  function Plus(k: Sink, e: Bytes): Sink {
    k.(written := k.written + |e|, out := if k.sizing then k.out else k.out + e)
  }

  predicate Fits(k: Sink, n: nat) {
    k.sizing || k.written + n <= k.maxSize
  }

  /** An encoding step succeeds exactly when it is allowed and fits, and then puts out e. */
  ghost predicate Outcome(before: Sink, ok: bool, after: Sink, allowed: bool, e: Bytes) {
    (ok <==> allowed && Fits(before, |e|)) && (ok ==> after == Plus(before, e))
  }

  lemma PlusPlus(k: Sink, a: Bytes, b: Bytes)
    ensures Plus(Plus(k, a), b) == Plus(k, a + b)
  {
    assert (k.out + a) + b == k.out + (a + b);
  }

  /** Two steps one after the other, the second only if the first succeeds. */
  lemma InSequence(a: Sink, ok1: bool, b: Sink, allowed1: bool, e1: Bytes, ok2: bool, c: Sink, allowed2: bool,
                   e2: Bytes)
    requires Outcome(a, ok1, b, allowed1, e1)
    requires if ok1 then Outcome(b, ok2, c, allowed2, e2) else !ok2
    ensures Outcome(a, ok2, c, allowed1 && allowed2, e1 + e2)
  {
    PlusPlus(a, e1, e2);
  }

  lemma Nothing(k: Sink)
    ensures Plus(k, []) == k
  {
    assert k.out + [] == k.out;
  }

  /** pb_ostream_t: without a callback it only counts. */
  class OStream {
    const sizing: bool
    const maxSize: nat
    var bytesWritten: nat
    var out: Bytes

    ghost predicate Valid()
      reads this
    {
      !sizing ==> bytesWritten <= maxSize
    }

    function Now(): Sink
      reads this
    {
      Sink(sizing, maxSize, bytesWritten, out)
    }

    /** PB_OSTREAM_SIZING. */
    constructor Sizing()
      ensures Valid() && fresh(this) && Now() == Sink(true, 0, 0, [])
    {
      sizing, maxSize, bytesWritten, out := true, 0, 0, [];
    }

    /** A writing stream that goes on behind `out`. */
    constructor Writing(out: Bytes, maxSize: nat)
      ensures Valid() && fresh(this) && Now() == Sink(false, maxSize, 0, out)
    {
      sizing, this.maxSize, bytesWritten, this.out := false, maxSize, 0, out;
    }

    /** pb_write; a measuring stream needs only the count. */
    method Write(buf: Bytes, count: nat, ghost e: Bytes) returns (ok: bool)
      requires Valid() && |e| == count && (sizing || e == buf)
      modifies this
      ensures Valid() && Outcome(old(Now()), ok, Now(), true, e)
    {
      if count > 0 && !sizing {
        if bytesWritten + count > maxSize {
          return false;
        }
        out := out + buf;
      }
      bytesWritten := bytesWritten + count;
      return true;
    }
  }

  // ----- numbers -----

  /** Seven bits a byte, every byte marked as followed by another. */
  function Marked(v: nat): Bytes {
    if v == 0 then [] else [v % 128 + 128] + Marked(v / 128)
  }

  /** Unmarking the last byte gives the varint. */
  lemma {:induction false} UnmarkLast(v: nat)
    requires 0 < v
    ensures var m := Marked(v); m != [] && m[|m| - 1] >= 128 && m[..|m| - 1] + [m[|m| - 1] % 128] == Varint(v)
  {
    var m := Marked(v);
    assert Marked(0) == [];
    if v >= 128 {
      UnmarkLast(v / 128);
      var rest := Marked(v / 128);
      assert m == [v % 128 + 128] + rest;
      assert m[..|m| - 1] == [v % 128 + 128] + rest[..|rest| - 1];
      assert m[..|m| - 1] + [m[|m| - 1] % 128] == [v % 128 + 128] + (rest[..|rest| - 1] + [rest[|rest| - 1] % 128]);
    } else {
      assert m == [v % 128 + 128];
    }
  }

  lemma MarkedStep(buffer: Bytes, v: nat)
    requires v != 0
    ensures buffer + [v % 128 + 128] + Marked(v / 128) == buffer + Marked(v)
  {
  }

  method EncodeVarint(s: OStream, v: nat) returns (ok: bool)
    requires s.Valid()
    modifies s
    ensures s.Valid() && Outcome(old(s.Now()), ok, s.Now(), true, Varint(v))
  {
    if v <= 0x7f {
      ok := s.Write([v], 1, [v]);
      return;
    }
    UnmarkLast(v);
    hide Outcome, Varint, OStream.Now;
    var buffer: Bytes, value: nat := [], v;
    while value != 0
      invariant s.Valid() && s.Now() == old(s.Now()) && buffer + Marked(value) == Marked(v)
    {
      MarkedStep(buffer, value);
      buffer := buffer + [value % 128 + 128];
      value := value / 128;
    }
    assert buffer + [] == buffer;
    buffer := buffer[..|buffer| - 1] + [buffer[|buffer| - 1] % 128];
    ok := s.Write(buffer, |buffer|, buffer);
  }

  /** Sign bit shifted out, and all bits turned over for a negative number. */
  method EncodeSvarint(s: OStream, n: int) returns (ok: bool)
    requires s.Valid() && -Half(8) <= n < Half(8)
    modifies s
    ensures s.Valid() && Outcome(old(s.Now()), ok, s.Now(), true, Varint(ZigZag(n)))
  {
    var shifted: DoubleWord := n % TWO_TO_64 * 2 % TWO_TO_64;
    var zigzagged: DoubleWord := if n < 0 then TWO_TO_64 - 1 - shifted else shifted;
    assert zigzagged == ZigZag(n);
    ok := EncodeVarint(s, zigzagged);
  }

  // ----- values -----

  method EncNumber(s: OStream, t: LType, n: int) returns (ok: bool)
    requires s.Valid() && Packable(t) && InRange(t, Num(n))
    modifies s
    ensures s.Valid() && Outcome(old(s.Now()), ok, s.Now(), true, NumberBytes(t, n))
  {
    hide Outcome, Varint, EncodeFixed32, EncodeFixed64;
    match t
    case BoolType => ok := EncodeVarint(s, if n != 0 then 1 else 0);
    case IntType(_) => ok := EncodeVarint(s, n % TWO_TO_64);
    case UintType(_) => ok := EncodeVarint(s, n % TWO_TO_64);
    case SintType(w) => ok := EncodeSvarint(s, n);
    case Fixed32Type =>
      var b := EncodeFixed32(n % TWO_TO_32);
      ok := s.Write(b, 4, b);
    case Fixed64Type =>
      var b := EncodeFixed64(n % TWO_TO_64);
      ok := s.Write(b, 8, b);
  }

  /** The entries before k are encoded, as `done`. */
  ghost predicate NumbersUpTo(before: Sink, now: Sink, t: LType, ds: seq<Datum>, k: nat, done: Bytes) {
    k <= |ds| && Outcome(before, true, now, true, done) && done + DataBytes(t, ds[k..]) == DataBytes(t, ds)
  }

  lemma NumbersNext(before: Sink, here: Sink, t: LType, ds: seq<Datum>, k: nat, done: Bytes, ok: bool, after: Sink)
    requires k < |ds| && ds[k].Num? && NumbersUpTo(before, here, t, ds, k, done)
    requires Outcome(here, ok, after, true, NumberBytes(t, ds[k].n))
    ensures ok ==> NumbersUpTo(before, after, t, ds, k + 1, done + NumberBytes(t, ds[k].n))
    ensures !ok ==> Outcome(before, false, after, true, DataBytes(t, ds))
  {
    hide NumberBytes, Outcome;
    var next, rest := NumberBytes(t, ds[k].n), DataBytes(t, ds[k + 1..]);
    assert ds[k..][1..] == ds[k + 1..];
    assert DataBytes(t, ds[k..]) == next + rest;
    hide DataBytes;
    assert done + (next + rest) == done + next + rest;
    InSequence(before, true, here, true, done, ok, after, true, next);
    if !ok {
      GiveUp(before, after, true, done + next, rest, after, true);
    }
  }

  lemma NumbersStart(k: Sink, t: LType, ds: seq<Datum>)
    requires k.sizing || k.written <= k.maxSize
    ensures NumbersUpTo(k, k, t, ds, 0, [])
  {
    hide DataBytes;
    StartSequence(k);
    assert ds[0..] == ds && [] + DataBytes(t, ds) == DataBytes(t, ds);
  }

  lemma NumbersEnd(before: Sink, now: Sink, t: LType, ds: seq<Datum>, done: Bytes)
    requires NumbersUpTo(before, now, t, ds, |ds|, done)
    ensures Outcome(before, true, now, true, DataBytes(t, ds))
  {
    hide Outcome;
    assert ds[|ds|..] == [] && DataBytes(t, []) == [];
    hide DataBytes;
    assert done + [] == done;
  }

  method EncNumbers(s: OStream, t: LType, ds: seq<Datum>) returns (ok: bool)
    requires s.Valid() && Packable(t) && forall k | 0 <= k < |ds| :: Passes(Shape, t, ds[k])
    modifies s
    ensures s.Valid() && Outcome(old(s.Now()), ok, s.Now(), true, DataBytes(t, ds))
  {
    ghost var before, done := s.Now(), [];
    NumbersStart(before, t, ds);
    hide NumberBytes, DataBytes, Outcome, NumbersUpTo;
    for k := 0 to |ds|
      invariant s.Valid() && NumbersUpTo(before, s.Now(), t, ds, k, done)
    {
      assert Passes(Shape, t, ds[k]);
      ghost var here := s.Now();
      ok := EncNumber(s, t, ds[k].n);
      NumbersNext(before, here, t, ds, k, done, ok, s.Now());
      if !ok {
        return;
      }
      done := done + NumberBytes(t, ds[k].n);
    }
    NumbersEnd(before, s.Now(), t, ds, done);
    ok := true;
  }

  method EncodeTag(s: OStream, wireType: nat, fieldNumber: nat) returns (ok: bool)
    requires s.Valid() && wireType < 8
    modifies s
    ensures s.Valid() && Outcome(old(s.Now()), ok, s.Now(), true, Varint(fieldNumber * 8 + wireType))
  {
    ok := EncodeVarint(s, fieldNumber * 8 + wireType);
  }

  method EncodeString(s: OStream, bytes: Bytes) returns (ok: bool)
    requires s.Valid()
    modifies s
    ensures s.Valid() && Outcome(old(s.Now()), ok, s.Now(), true, LengthPrefixed(bytes))
  {
    hide Varint;
    ghost var before := s.Now();
    var ok1 := EncodeVarint(s, |bytes|);
    ghost var between := s.Now();
    ok := ok1;
    if ok1 {
      ok := s.Write(bytes, |bytes|, bytes);
    }
    InSequence(before, ok1, between, true, Varint(|bytes|), ok, s.Now(), true, bytes);
  }

  // ----- fields and messages -----

  /** pb_check_proto3_default_value. */
  method CheckDefault(f: Field, c: Cell) returns (isDefault: bool)
    requires CellPasses(Shape, f, c)
    ensures isDefault == CellIsDefault(f, c)
    decreases f
  {
    match f.rule
    case Required => return false;
    case Repeated(_) => return |c.ds| == 0;
    case FixedCount(_) => return false;
    case OneOf(_) => return c.o.None?;
    case Optional => return c.o.None?;
    case Singular =>
      match f.ltype
      case BytesType(_) => return |c.d.bytes| == 0;
      case StringType(_) => return |c.d.bytes| == 0;
      case FixedBytesType(n) => return n == 0;
      case MessageType(fields) =>
        for i := 0 to |fields|
          invariant forall k | 0 <= k < i :: CellIsDefault(fields[k], c.d.cells[k])
        {
          var sub := CheckDefault(fields[i], c.d.cells[i]);
          if !sub {
            return false;
          }
        }
        return true;
      case _ => return c.d.n == 0;
  }

  method EncDatum(s: OStream, t: LType, d: Datum) returns (ok: bool)
    requires s.Valid() && Passes(Shape, t, d)
    modifies s
    ensures s.Valid() && Outcome(old(s.Now()), ok, s.Now(), Passes(Capacity, t, d), DatumBytes(t, d))
    decreases t, 4
  {
    match t
    case MessageType(_) => ok := EncodeSubmessage(s, t, d.cells);
    case BytesType(capacity) =>
      if BYTES_OFFSET + |d.bytes| > capacity {
        return false;
      }
      ok := EncodeString(s, d.bytes);
    case StringType(_) => ok := EncodeString(s, d.bytes);
    case FixedBytesType(_) => ok := EncodeString(s, d.bytes);
    case _ => ok := EncNumber(s, t, d.n);
  }

  /** Measures first, writes the length, then the message through a stream that holds no more than was measured. */
  method EncodeSubmessage(s: OStream, t: LType, cells: seq<Cell>) returns (ok: bool)
    requires s.Valid() && t.MessageType? && Passes(Shape, t, Msg(cells))
    modifies s
    ensures s.Valid()
    ensures Outcome(old(s.Now()), ok, s.Now(), Passes(Capacity, t, Msg(cells)), LengthPrefixed(MessageBytes(t, cells)))
    decreases t, 3
  {
    hide Passes, MessageBytes, Varint;
    ghost var before, bytes := s.Now(), MessageBytes(t, cells);
    var substream := new OStream.Sizing();
    ok := EncodeMessage(substream, t, cells);
    if !ok {
      return;
    }
    var size := substream.bytesWritten;
    assert size == |bytes|;
    var ok1 := EncodeVarint(s, size);
    ghost var between := s.Now();
    ok := ok1;
    if ok1 {
      if s.sizing {
        ok := s.Write([], size, bytes);
      } else if s.bytesWritten + size > s.maxSize {
        ok := false;
      } else {
        substream := new OStream.Writing(s.out, size);
        var status := EncodeMessage(substream, t, cells);
        s.bytesWritten := s.bytesWritten + substream.bytesWritten;
        s.out := substream.out;
        ok := substream.bytesWritten == size && status;
      }
    }
    InSequence(before, ok1, between, true, Varint(|bytes|), ok, s.Now(), true, bytes);
  }

  lemma OneItemBytes(t: LType, item: Item)
    requires t.MessageType? && item.i < |t.fields|
    ensures var f := t.fields[item.i];
            ItemsBytes(t, [item]) == Varint(f.tag * 8 + FieldWireType(f)) + Payload(f, item.ds)
  {
    hide Varint, Payload;
    assert [item][1..] == [] && ItemsBytes(t, []) == [];
    assert ItemBytes(t, item) + [] == ItemBytes(t, item);
  }

  /** The bytes of an unpacked value: its tag, then the value. */
  lemma SingleBytes(t: LType, i: nat, d: Datum)
    requires t.MessageType? && i < |t.fields| && !Packed(t.fields[i])
    ensures ItemsBytes(t, [Item(i, [d])]) == Varint(t.fields[i].tag * 8 + WireType(t.fields[i].ltype))
            + DatumBytes(t.fields[i].ltype, d)
  {
    hide Varint, DatumBytes;
    OneItemBytes(t, Item(i, [d]));
    assert [d][1..] == [] && DataBytes(t.fields[i].ltype, []) == [];
    assert DatumBytes(t.fields[i].ltype, d) + [] == DatumBytes(t.fields[i].ltype, d);
  }

  method EncSingle(s: OStream, t: LType, i: nat, d: Datum) returns (ok: bool)
    requires s.Valid() && t.MessageType? && i < |t.fields| && !Packed(t.fields[i])
             && Passes(Shape, t.fields[i].ltype, d)
    modifies s
    ensures s.Valid()
    ensures Outcome(old(s.Now()), ok, s.Now(), Passes(Capacity, t.fields[i].ltype, d), ItemsBytes(t, [Item(i, [d])]))
    decreases t, 0
  {
    hide Passes, DatumBytes, Varint, ItemsBytes;
    ghost var before := s.Now();
    var f := t.fields[i];
    var ok1 := EncodeTag(s, WireType(f.ltype), f.tag);
    ghost var between := s.Now();
    ok := ok1;
    if ok1 {
      ok := EncDatum(s, f.ltype, d);
    }
    InSequence(before, ok1, between, true, Varint(f.tag * 8 + WireType(f.ltype)), ok, s.Now(),
               Passes(Capacity, f.ltype, d),
               DatumBytes(f.ltype, d));
    SingleBytes(t, i, d);
  }

  lemma FixedSizes(t: LType, ds: seq<Datum>)
    requires forall k | 0 <= k < |ds| :: Passes(Shape, t, ds[k])
    ensures t.Fixed32Type? ==> |DataBytes(t, ds)| == 4 * |ds|
    ensures t.Fixed64Type? ==> |DataBytes(t, ds)| == 8 * |ds|
  {
    if ds != [] {
      FixedSizes(t, ds[1..]);
    }
  }

  /** A packed array: its tag, its size in bytes, its entries. */
  method EncodePacked(s: OStream, f: Field, ds: seq<Datum>) returns (ok: bool)
    requires s.Valid() && Packed(f) && forall k | 0 <= k < |ds| :: Passes(Shape, f.ltype, ds[k])
    modifies s
    ensures s.Valid() && Outcome(old(s.Now()), ok, s.Now(), true, Varint(f.tag * 8 + WT_STRING) + Payload(f, ds))
  {
    hide Passes, DataBytes, Varint;
    ghost var before, tag, bytes := s.Now(), Varint(f.tag * 8 + WT_STRING), DataBytes(f.ltype, ds);
    var ok1 := EncodeTag(s, WT_STRING, f.tag);
    ghost var between := s.Now();
    ok := ok1;
    if ok1 {
      var size: nat;
      if f.ltype.Fixed32Type? {
        FixedSizes(f.ltype, ds);
        size := 4 * |ds|;
      } else if f.ltype.Fixed64Type? {
        FixedSizes(f.ltype, ds);
        size := 8 * |ds|;
      } else {
        var substream := new OStream.Sizing();
        var sized := EncNumbers(substream, f.ltype, ds);
        size := substream.bytesWritten;
      }
      assert size == |bytes|;
      var ok2 := EncodeVarint(s, size);
      ghost var then_ := s.Now();
      ok := ok2;
      if ok2 {
        if s.sizing {
          ok := s.Write([], size, bytes);
        } else {
          ok := EncNumbers(s, f.ltype, ds);
        }
      }
      InSequence(between, ok2, then_, true, Varint(|bytes|), ok, s.Now(), true, bytes);
    }
    InSequence(before, ok1, between, true, tag, ok, s.Now(), true, LengthPrefixed(bytes));
  }

  ghost predicate AllPass(c: Check, t: LType, ds: seq<Datum>, n: nat) {
    n <= |ds| && forall k | 0 <= k < n :: Passes(c, t, ds[k])
  }

  /** One more entry of an unpacked array. */
  lemma EntryBytes(t: LType, i: nat, ds: seq<Datum>, k: nat)
    requires t.MessageType? && k < |ds|
    ensures ItemsBytes(t, Singles(i, ds[k..])) == ItemsBytes(t, [Item(i, [ds[k]])]) + ItemsBytes(t,
            Singles(i, ds[k + 1..]))
  {
    hide ItemBytes;
    assert ds[k..][1..] == ds[k + 1..];
    ItemsBytesConcat(t, [Item(i, [ds[k]])], Singles(i, ds[k + 1..]));
  }

  /** Stopping early means that the whole is not allowed or does not fit. */
  lemma GiveUp(before: Sink, after: Sink, allowed: bool, done: Bytes, rest: Bytes, final: Sink, allAllowed: bool)
    requires Outcome(before, false, after, allowed, done) && (allAllowed ==> allowed)
    ensures Outcome(before, false, final, allAllowed, done + rest)
  {
  }

  method EncodeUnpacked(s: OStream, t: LType, i: nat, ds: seq<Datum>) returns (ok: bool)
    requires s.Valid() && t.MessageType? && i < |t.fields| && !Packed(t.fields[i])
             && AllPass(Shape, t.fields[i].ltype, ds, |ds|)
    modifies s
    ensures s.Valid()
    ensures Outcome(old(s.Now()), ok, s.Now(), AllPass(Capacity, t.fields[i].ltype, ds, |ds|),
            ItemsBytes(t, Singles(i, ds)))
    decreases t, 1
  {
    hide Passes, ItemsBytes, Singles, Outcome;
    ghost var ty, all := t.fields[i].ltype, ItemsBytes(t, Singles(i, ds));
    ghost var before, done := s.Now(), [];
    StartSequence(before);
    assert ds[0..] == ds && done + all == all;
    for k := 0 to |ds|
      invariant s.Valid() && Outcome(before, true, s.Now(), AllPass(Capacity, ty, ds, k), done)
      invariant done + ItemsBytes(t, Singles(i, ds[k..])) == all
    {
      EntryBytes(t, i, ds, k);
      ghost var next, rest := ItemsBytes(t, [Item(i, [ds[k]])]), ItemsBytes(t, Singles(i, ds[k + 1..]));
      ghost var here := s.Now();
      assert done + (next + rest) == done + next + rest;
      ok := EncSingle(s, t, i, ds[k]);
      InSequence(before, true, here, AllPass(Capacity, ty, ds, k), done, ok, s.Now(), Passes(Capacity, ty, ds[k]),
                 next);
      if !ok {
        GiveUp(before, s.Now(), AllPass(Capacity, ty, ds, k) && Passes(Capacity, ty, ds[k]), done + next, rest, s.Now(),
               AllPass(Capacity, ty, ds, |ds|));
        return;
      }
      done := done + next;
    }
    ok := true;
    NoItems(t, i);
    assert ds[|ds|..] == [] && done + [] == done;
  }

  lemma NoItems(t: LType, i: nat)
    requires t.MessageType?
    ensures ItemsBytes(t, Singles(i, [])) == []
  {
  }

  lemma StartSequence(k: Sink)
    ensures k.sizing || k.written <= k.maxSize ==> Outcome(k, true, k, true, [])
  {
    Nothing(k);
  }

  method EncodeArray(s: OStream, t: LType, i: nat, ds: seq<Datum>) returns (ok: bool)
    requires s.Valid() && t.MessageType? && i < |t.fields|
    requires t.fields[i].rule.Repeated? || t.fields[i].rule.FixedCount?
    requires CellPasses(Shape, t.fields[i], Many(ds))
    modifies s
    ensures s.Valid()
    ensures Outcome(old(s.Now()), ok, s.Now(), CellPasses(Capacity, t.fields[i], Many(ds)),
                    ItemsBytes(t, CellItems(i, t.fields[i], Many(ds))))
    decreases t, 2, 0
  {
    hide Passes, ItemsBytes, Outcome, Payload, Singles;
    var f := t.fields[i];
    ArrayAllowed(f, ds);
    ArrayBytes(t, i, ds);
    hide CellPasses;
    if |ds| == 0 {
      StartSequence(s.Now());
      return true;
    }
    if |ds| > f.rule.max {
      NotAllowed(s.Now(), s.Now(), ItemsBytes(t, CellItems(i, f, Many(ds))));
      return false;
    }
    if Packed(f) {
      NumbersAllowed(f.ltype, ds);
      ok := EncodePacked(s, f, ds);
    } else {
      ok := EncodeUnpacked(s, t, i, ds);
    }
  }

  lemma NotAllowed(before: Sink, after: Sink, e: Bytes)
    ensures Outcome(before, false, after, false, e)
  {
  }

  lemma ArrayAllowed(f: Field, ds: seq<Datum>)
    requires f.rule.Repeated? || f.rule.FixedCount?
    ensures forall c: Check | !c.Filled? ::
              CellPasses(c, f, Many(ds)) <==> (c.Capacity? ==> |ds| <= f.rule.max) && AllPass(c, f.ltype, ds, |ds|)
  {
  }

  lemma NumbersAllowed(t: LType, ds: seq<Datum>)
    requires Packable(t) && AllPass(Shape, t, ds, |ds|)
    ensures AllPass(Capacity, t, ds, |ds|)
  {
  }

  lemma ArrayBytes(t: LType, i: nat, ds: seq<Datum>)
    requires t.MessageType? && i < |t.fields|
    ensures var f, e := t.fields[i], ItemsBytes(t, CellItems(i, t.fields[i], Many(ds)));
            && (ds == [] ==> e == [])
            && (ds != [] && Packed(f) ==> e == Varint(f.tag * 8 + WT_STRING) + Payload(f, ds))
            && (!Packed(f) ==> e == ItemsBytes(t, Singles(i, ds)))
  {
    hide ItemBytes, Payload;
    if ds != [] && Packed(t.fields[i]) {
      OneItemBytes(t, Item(i, ds));
    }
  }

  /** encode_basic_field. */
  method EncodeField(s: OStream, t: LType, i: nat, cell: Cell) returns (ok: bool)
    requires s.Valid() && t.MessageType? && i < |t.fields| && CellPasses(Shape, t.fields[i], cell)
    modifies s
    ensures s.Valid()
    ensures Outcome(old(s.Now()), ok, s.Now(), CellPasses(Capacity, t.fields[i], cell),
                    ItemsBytes(t, CellItems(i, t.fields[i], cell)))
    decreases t, 2, 1
  {
    hide Passes, Outcome, ItemBytes, IsDefault;
    StartSequence(s.Now());
    var f := t.fields[i];
    match f.rule
    case Required => ok := EncSingle(s, t, i, cell.d);
    case Singular =>
      var isDefault := CheckDefault(f, cell);
      if isDefault {
        return true;
      }
      ok := EncSingle(s, t, i, cell.d);
    case Repeated(_) => ok := EncodeArray(s, t, i, cell.ds);
    case FixedCount(_) => ok := EncodeArray(s, t, i, cell.ds);
    case _ =>
      if cell.o.None? {
        return true;
      }
      ok := EncSingle(s, t, i, cell.o.value);
  }

  ghost predicate CellsPass(c: Check, fields: seq<Field>, cells: seq<Cell>, n: nat) {
    n <= |fields| == |cells| && forall k | 0 <= k < n :: CellPasses(c, fields[k], cells[k])
  }

  lemma MessageAllowed(t: LType, cells: seq<Cell>)
    requires t.MessageType? && Passes(Shape, t, Msg(cells))
    ensures CellsPass(Shape, t.fields, cells, |t.fields|)
    ensures Passes(Capacity, t, Msg(cells)) <==> CellsPass(Capacity, t.fields, cells, |t.fields|)
  {
  }

  /** One more field of a message. */
  lemma FieldBytes(t: LType, cells: seq<Cell>, i: nat)
    requires t.MessageType? && |cells| == |t.fields| && i < |t.fields|
    ensures ItemsBytes(t, ItemsFrom(t.fields, cells, i)) ==
            ItemsBytes(t, CellItems(i, t.fields[i], cells[i])) + ItemsBytes(t, ItemsFrom(t.fields, cells, i + 1))
  {
    hide ItemBytes;
    ItemsBytesConcat(t, CellItems(i, t.fields[i], cells[i]), ItemsFrom(t.fields, cells, i + 1));
  }

  lemma LastField(t: LType, cells: seq<Cell>)
    requires t.MessageType?
    ensures ItemsBytes(t, ItemsFrom(t.fields, cells, |t.fields|)) == []
  {
  }

  /** The first k fields are encoded, as `done`. */
  ghost predicate EncodedUpTo(before: Sink, now: Sink, t: LType, cells: seq<Cell>, k: nat, done: Bytes)
    requires t.MessageType?
  {
    && Outcome(before, true, now, CellsPass(Capacity, t.fields, cells, k), done)
    && done + ItemsBytes(t, ItemsFrom(t.fields, cells, k)) == MessageBytes(t, cells)
  }

  lemma NextAllowed(fields: seq<Field>, cells: seq<Cell>, k: nat)
    requires |cells| == |fields| && k < |fields|
    ensures CellsPass(Capacity, fields, cells, k + 1) <==>
              CellsPass(Capacity, fields, cells, k) && CellPasses(Capacity, fields[k], cells[k])
    ensures CellsPass(Capacity, fields, cells, |fields|) ==> CellsPass(Capacity, fields, cells, k + 1)
  {
    hide CellPasses;
  }

  lemma EncodeNext(before: Sink, here: Sink, t: LType, cells: seq<Cell>, k: nat, done: Bytes, ok: bool, after: Sink)
    requires t.MessageType? && |cells| == |t.fields| && k < |t.fields| && EncodedUpTo(before, here, t, cells, k, done)
    requires Outcome(here, ok, after, CellPasses(Capacity, t.fields[k], cells[k]),
             ItemsBytes(t, CellItems(k, t.fields[k], cells[k])))
    ensures ok ==> EncodedUpTo(before, after, t, cells, k + 1,
            done + ItemsBytes(t, CellItems(k, t.fields[k], cells[k])))
    ensures !ok ==> Outcome(before, false, after, CellsPass(Capacity, t.fields, cells, |t.fields|),
              MessageBytes(t, cells))
  {
    FieldBytes(t, cells, k);
    NextAllowed(t.fields, cells, k);
    hide CellPasses, ItemsBytes, ItemsFrom, CellItems, Outcome, MessageBytes, CellsPass;
    var next, rest := ItemsBytes(t, CellItems(k, t.fields[k], cells[k])),
                                 ItemsBytes(t, ItemsFrom(t.fields, cells, k + 1));
    var allowed := CellsPass(Capacity, t.fields, cells, k) && CellPasses(Capacity, t.fields[k], cells[k]);
    assert done + (next + rest) == done + next + rest;
    InSequence(before, true, here, CellsPass(Capacity, t.fields, cells, k), done, ok, after,
               CellPasses(Capacity, t.fields[k], cells[k]), next);
    if !ok {
      GiveUp(before, after, allowed, done + next, rest, after, CellsPass(Capacity, t.fields, cells, |t.fields|));
    }
  }

  lemma EncodeStart(before: Sink, t: LType, cells: seq<Cell>)
    requires t.MessageType? && |cells| == |t.fields| && (before.sizing || before.written <= before.maxSize)
    ensures EncodedUpTo(before, before, t, cells, 0, [])
  {
    hide ItemsBytes, ItemsFrom, CellPasses;
    StartSequence(before);
    assert [] + MessageBytes(t, cells) == MessageBytes(t, cells);
  }

  lemma EncodeEnd(before: Sink, now: Sink, t: LType, cells: seq<Cell>, done: Bytes)
    requires t.MessageType? && |cells| == |t.fields| && EncodedUpTo(before, now, t, cells, |t.fields|, done)
    ensures Outcome(before, true, now, CellsPass(Capacity, t.fields, cells, |t.fields|), MessageBytes(t, cells))
  {
    hide MessageBytes, CellPasses, Outcome;
    LastField(t, cells);
    assert done + [] == done;
  }

  /** Encodes field k behind the fields before it. */
  method EncodeNextField(s: OStream, t: LType, k: nat, cells: seq<Cell>, ghost before: Sink, ghost done: Bytes)
    returns (ok: bool, ghost done': Bytes)
    requires s.Valid() && t.MessageType? && k < |t.fields| && CellsPass(Shape, t.fields, cells, |t.fields|)
    requires EncodedUpTo(before, s.Now(), t, cells, k, done)
    modifies s
    ensures s.Valid()
    ensures ok ==> EncodedUpTo(before, s.Now(), t, cells, k + 1, done')
    ensures !ok ==> Outcome(before, false, s.Now(), CellsPass(Capacity, t.fields, cells, |t.fields|),
              MessageBytes(t, cells))
    decreases t, 2, 2
  {
    assert CellPasses(Shape, t.fields[k], cells[k]);
    hide CellPasses, ItemsBytes, ItemsFrom, CellItems, Outcome, MessageBytes, EncodedUpTo, OStream.Now;
    ghost var here := s.Now();
    ok := EncodeField(s, t, k, cells[k]);
    EncodeNext(before, here, t, cells, k, done, ok, s.Now());
    done' := done + ItemsBytes(t, CellItems(k, t.fields[k], cells[k]));
  }

  /** pb_encode. A measuring stream counts exactly the bytes a writing stream writes. */
  method EncodeMessage(s: OStream, t: LType, cells: seq<Cell>) returns (ok: bool)
    requires s.Valid() && t.MessageType? && Passes(Shape, t, Msg(cells))
    modifies s
    ensures s.Valid()
    ensures Outcome(old(s.Now()), ok, s.Now(), Passes(Capacity, t, Msg(cells)), MessageBytes(t, cells))
    decreases t, 2, 3
  {
    hide Passes, CellPasses, ItemsBytes, ItemsFrom, CellItems, Outcome, MessageBytes, EncodedUpTo, RequiredBefore;
    MessageAllowed(t, cells);
    ghost var before, done := s.Now(), [];
    EncodeStart(before, t, cells);
    if t.fields == [] {
      EncodeEnd(before, s.Now(), t, cells, done);
      return true;
    }
    hide CellsPass, OStream.Now, OStream.Valid;
    var iter := new FieldIter(t.fields);
    var more := true;
    while more
      invariant s.Valid() && iter.Valid() && iter.fields == t.fields && fresh(iter)
      invariant EncodedUpTo(before, s.Now(), t, cells, if more then iter.pos else |t.fields|, done)
      decreases if more then |t.fields| - iter.pos else 0
    {
      ok, done := EncodeNextField(s, t, iter.pos, cells, before, done);
      if !ok {
        return;
      }
      more := iter.Next();
    }
    EncodeEnd(before, s.Now(), t, cells, done);
    ok := true;
  }

  method GetEncodedSize(t: LType, cells: seq<Cell>) returns (ok: bool, size: nat)
    requires t.MessageType? && Passes(Shape, t, Msg(cells))
    ensures ok <==> Passes(Capacity, t, Msg(cells))
    ensures ok ==> size == |MessageBytes(t, cells)|
  {
    var s := new OStream.Sizing();
    ok := EncodeMessage(s, t, cells);
    size := s.bytesWritten;
  }
}
