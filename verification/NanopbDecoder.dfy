/** Decoding of messages (pb_decode.c): on any bytes what comes out stays within the schema, and on the bytes of any
    well-formed pieces, what the pieces mean. */
module NanopbDecoder {
  import opened InternalKeys
  import opened SnapshotReads
  import opened Coding
  import opened NanopbMessages
  import opened NanopbIterator
  import opened NanopbStream
  import opened NanopbDecoded
  import opened NanopbWire

  /** Reading moves on within the stream and never past its end; success consumes something. */
  twostate predicate Consumed(s: IStream, ok: bool)
    requires old(s.Valid())
    reads s
  {
    && s.Valid() && s.left <= old(s.left) && s.pos + s.left <= old(s.pos + s.left)
    && (ok ==> s.left < old(s.left) && s.pos + s.left == old(s.pos + s.left))
  }

  // ----- byte strings -----

  lemma PrefixedParts(body: Bytes, after: Bytes)
    ensures LengthPrefixed(body) + after == Varint(|body|) + (body + after)
  {
    hide Varint;
  }

  lemma SameFront(a: Bytes, b: Bytes, c: Bytes, d: Bytes)
    requires a + b == c + d && |a| == |c|
    ensures a == c && b == d
  {
    assert (a + b)[..|a|] == a && (a + b)[|a|..] == b && (c + d)[..|c|] == c && (c + d)[|c|..] == d;
  }

  lemma NothingInFront(a: Bytes, b: Bytes)
    ensures |a| == 0 ==> a == [] && a + b == b
  {
  }

  ghost predicate BlobAhead(want: Bytes, rest: Bytes, after: Bytes) {
    |want| < TWO_TO_32 && rest == LengthPrefixed(want) + after
  }

  lemma BlobDecoded(t: LType, b: Bytes)
    requires t.BytesType? || t.StringType? || t.FixedBytesType?
    requires t.BytesType? ==> BYTES_OFFSET + |b| <= t.capacity
    requires t.StringType? ==> 0 !in b && |b| + 1 <= t.capacity
    requires t.FixedBytesType? ==> |b| == t.length
    ensures Decoded(t, Blob(b))
  {
  }

  /** The bytes behind the length, if the field has room for them. */
  method ReadBlob(s: IStream, t: LType, size: Word, ghost want: Bytes, ghost after: Bytes) returns (ok: bool, b: Bytes)
    requires s.Valid() && (t.BytesType? || t.StringType? || t.FixedBytesType?)
    modifies s
    ensures s.Valid() && s.left <= old(s.left) && s.pos + s.left == old(s.pos + s.left)
    ensures ok ==> Decoded(t, Blob(b))
    ensures |want| == size && old(s.Rest()) == want + after ==>
              (ok <==> BlobValue(t, want).Some?) && (ok ==> Some(b) == BlobValue(t, want) && s.Rest() == after)
  {
    ghost var good := |want| == size && s.Rest() == want + after;
    hide Decoded, UpToNull;
    NothingInFront(want, after);
    b := [];
    var bytes: Bytes;
    if t.FixedBytesType? {
      if size == 0 {
        ok, bytes := true, seq(t.length, _ => 0);
      } else if size != t.length {
        return false, [];
      } else {
        ok, bytes := s.Read(t.length);
      }
    } else {
      if (if t.BytesType? then BYTES_OFFSET + size else size + 1) > t.capacity {
        return false, [];
      }
      ok, bytes := s.Read(size);
    }
    if !ok {
      return;
    }
    b := if t.StringType? then UpToNull(bytes) else bytes;
    BlobDecoded(t, b);
    if good && size != 0 {
      SameFront(bytes, s.Rest(), want, after);
    }
  }

  /** pb_dec_bytes, pb_dec_string and pb_dec_fixed_length_bytes. */
  method DecodeBlob(s: IStream, t: LType, ghost want: Bytes, ghost after: Bytes) returns (ok: bool, b: Bytes)
    requires s.Valid() && (t.BytesType? || t.StringType? || t.FixedBytesType?)
    modifies s
    ensures Consumed(s, ok)
    ensures ok ==> Decoded(t, Blob(b))
    ensures BlobAhead(want, old(s.Rest()), after) ==>
              (ok <==> BlobValue(t, want).Some?) && (ok ==> Some(b) == BlobValue(t, want) && s.Rest() == after)
  {
    PrefixedParts(want, after);
    hide Varint, LengthPrefixed, Decoded, BlobValue, Decided32;
    var size: Word, eof: bool;
    ok, size, eof := DecodeVarint32(s, if |want| < TWO_TO_32 then |want| else 0, want + after);
    if !ok {
      return false, [];
    }
    ok, b := ReadBlob(s, t, size, want, after);
  }

  // ----- values -----

  lemma NumberDecoded(t: LType, n: int)
    requires Packable(t) && InRange(t, Num(n))
    ensures Decoded(t, Num(n))
  {
  }

  ghost predicate ValueAhead(t: LType, v: Value, rest: Bytes, after: Bytes) {
    ValueOk(t, v) && rest == ValueBytes(t, v) + after
  }

  lemma NumberAhead(t: LType, existing: Datum, v: Value, rest: Bytes, after: Bytes)
    requires Packable(t)
    ensures ValueAhead(t, v, rest, after) ==>
              && v.Number? && InRange(t, Num(v.n)) && rest == NumberBytes(t, v.n) + after
              && ReadValue(t, existing, v) == Some(Num(v.n))
  {
    hide NumberBytes;
  }

  lemma RawAhead(t: LType, existing: Datum, v: Value, rest: Bytes, after: Bytes)
    requires !Packable(t) && !t.MessageType?
    ensures ValueAhead(t, v, rest, after) ==>
              && v.Raw? && BlobAhead(v.bytes, rest, after)
              && (BlobValue(t, v.bytes).None? ==> ReadValue(t, existing, v).None?)
              && (BlobValue(t, v.bytes).Some? ==> ReadValue(t, existing, v) == Some(Blob(BlobValue(t, v.bytes).value)))
  {
    hide LengthPrefixed, BlobValue;
  }

  lemma MessageValueAhead(t: LType, existing: Datum, v: Value, rest: Bytes, after: Bytes)
    requires t.MessageType?
    ensures ValueAhead(t, v, rest, after) ==>
              && v.Nested? && PiecesOk(t, v.pieces) && TailOk(v.tail)
              && |PiecesBytes(t, v.pieces) + v.tail| < TWO_TO_32
              && rest == LengthPrefixed(PiecesBytes(t, v.pieces) + v.tail) + after
              && (existing.Msg? ==> ReadValue(t, existing, v) == Finished(t, Run(t, Begin(existing.cells), v.pieces)))
  {
    hide LengthPrefixed, PiecesBytes, PiecesOk, TailOk, Run, Finished;
  }

  /** PB_DECODERS: a value of the type; a submessage is merged into the one there is. */
  method DecodeDatum(s: IStream, t: LType, existing: Datum, ghost v: Value, ghost after: Bytes)
    returns (ok: bool, d: Datum)
    requires s.Valid() && SchemaOk(t) && (t.MessageType? ==> Decoded(t, existing))
    modifies s
    ensures Consumed(s, ok)
    ensures ok ==> Decoded(t, d)
    ensures ValueAhead(t, v, old(s.Rest()), after) ==>
              && (ok <==> ReadValue(t, existing, v).Some?)
              && (ok ==> Some(d) == ReadValue(t, existing, v) && s.Rest() == after)
    decreases t, 3
  {
    ghost var good := ValueAhead(t, v, s.Rest(), after);
    if Packable(t) {
      NumberAhead(t, existing, v, s.Rest(), after);
      hide ValueAhead, ReadValue, NumberBytes;
      var n: int;
      ok, n := DecodeNumber(s, t, if v.Number? then v.n else 0, after);
      d := Num(n);
      if ok {
        NumberDecoded(t, n);
      }
    } else if t.MessageType? {
      MessageValueAhead(t, existing, v, s.Rest(), after);
      hide ValueAhead, ReadValue, Run, PiecesBytes, PiecesOk, Finished, TailOk;
      var cells: seq<Cell>;
      assert existing.Msg? by {
        assert Passes(Shape, t, existing);
      }
      hide Decoded;
      ok, cells := DecodeSubmessage(s, t, existing.cells, if v.Nested? then v.pieces else [],
        if v.Nested? then v.tail else [], after);
      d := Msg(cells);
    } else {
      RawAhead(t, existing, v, s.Rest(), after);
      hide ValueAhead, ReadValue, BlobAhead, BlobValue;
      var b: Bytes;
      ok, b := DecodeBlob(s, t, if v.Raw? then v.bytes else [], after);
      d := Blob(b);
    }
  }

  /** pb_dec_submessage. */
  method DecodeSubmessage(s: IStream, t: LType, initial: seq<Cell>, ghost pieces: seq<Piece>, ghost tail: Bytes,
                          ghost after: Bytes)
    returns (ok: bool, cells: seq<Cell>)
    requires s.Valid() && t.MessageType? && SchemaOk(t) && Decoded(t, Msg(initial))
    modifies s
    ensures Consumed(s, ok)
    ensures ok ==> Decoded(t, Msg(cells))
    ensures PiecesOk(t, pieces) && TailOk(tail) && |PiecesBytes(t, pieces) + tail| < TWO_TO_32
            && old(s.Rest()) == LengthPrefixed(PiecesBytes(t, pieces) + tail) + after ==>
              && (ok <==> Finished(t, Run(t, Begin(initial), pieces)).Some?)
              && (ok ==> Some(Msg(cells)) == Finished(t, Run(t, Begin(initial), pieces)) && s.Rest() == after)
    decreases t, 2
  {
    hide Decoded, SchemaOk, LengthPrefixed, PiecesBytes, PiecesOk, TailOk, Run, Finished;
    var sub: IStream;
    ok, sub := MakeSubstream(s, PiecesBytes(t, pieces) + tail, after);
    if !ok {
      return false, [];
    }
    var status: bool;
    status, cells := DecodeMessage(sub, t, initial, pieces, tail);
    CloseSubstream(s, sub);
    ok := status;
  }

  // ----- fields -----

  lemma PackedEntry(t: LType, ds: seq<Datum>, k: nat, rest: Bytes)
    requires NumbersOk(t, ds) && k <= |ds| && rest == DataBytes(t, ds[k..])
    ensures rest == [] <==> k == |ds|
    ensures k < |ds| ==> ds[k].Num? && InRange(t, ds[k]) && rest == NumberBytes(t, ds[k].n) + DataBytes(t, ds[k + 1..])
  {
    if k < |ds| {
      assert ds[k..][1..] == ds[k + 1..];
      hide Varint;
    }
  }

  /** Of the packed entries `want` the first |ds| are read. */
  ghost predicate PackedUpTo(t: LType, want: seq<Datum>, ds: seq<Datum>, rest: Bytes) {
    |ds| <= |want| && ds == want[..|ds|] && rest == DataBytes(t, want[|ds|..])
  }

  lemma PackedNext(t: LType, want: seq<Datum>, ds: seq<Datum>, rest: Bytes)
    requires NumbersOk(t, want) && PackedUpTo(t, want, ds, rest)
    ensures rest == [] <==> ds == want
    ensures |want| <= |ds| ==> ds == want
    ensures ds != want ==>
              && |ds| < |want| && want[|ds|].Num? && InRange(t, want[|ds|])
              && var after := DataBytes(t, want[|ds| + 1..]);
                 rest == NumberBytes(t, want[|ds|].n) + after && PackedUpTo(t, want, ds + [want[|ds|]], after)
  {
    hide NumberBytes;
    PackedEntry(t, want, |ds|, rest);
    hide DataBytes;
    if |ds| < |want| {
      assert want[..|ds| + 1] == ds + [want[|ds|]];
    }
  }

  lemma PackedStart(t: LType, want: seq<Datum>)
    ensures PackedUpTo(t, want, [], DataBytes(t, want))
  {
    hide DataBytes;
    assert want[0..] == want;
  }

  /** Entries until the stream ends, all places are taken or an entry is refused. */
  method DecodeEntries(sub: IStream, f: Field, places: nat, ghost want: seq<Datum>)
    returns (status: bool, ds: seq<Datum>)
    requires sub.Valid() && Packable(f.ltype)
    modifies sub
    ensures sub.Valid() && sub.pos + sub.left == old(sub.pos + sub.left)
    ensures |ds| <= places && AllDecoded(f.ltype, ds)
    ensures NumbersOk(f.ltype, want) && old(sub.Rest()) == DataBytes(f.ltype, want) ==>
              status && (sub.left == 0 <==> |want| <= places) && (sub.left == 0 ==> ds == want)
  {
    ghost var good := NumbersOk(f.ltype, want) && sub.Rest() == DataBytes(f.ltype, want);
    PackedStart(f.ltype, want);
    hide NumbersOk, DataBytes, NumberBytes, Decoded, InRange, PackedUpTo;
    status, ds := true, [];
    while sub.left > 0 && |ds| < places && status
      invariant sub.Valid() && sub.pos + sub.left == old(sub.pos + sub.left)
      invariant |ds| <= places && AllDecoded(f.ltype, ds)
      invariant good ==> status && PackedUpTo(f.ltype, want, ds, sub.Rest())
      decreases sub.left, status
    {
      if good {
        PackedNext(f.ltype, want, ds, sub.Rest());
      }
      var n: int;
      status, n := DecodeNumber(sub, f.ltype, if good then want[|ds|].n
                                else 0, if good then DataBytes(f.ltype, want[|ds| + 1..]) else []);
      if status {
        NumberDecoded(f.ltype, n);
        ds := ds + [Num(n)];
      }
    }
    if good {
      PackedNext(f.ltype, want, ds, sub.Rest());
    }
  }

  /** The entries of a packed array, as many as have a place. */
  method DecodePacked(s: IStream, f: Field, places: nat, ghost want: seq<Datum>, ghost after: Bytes)
    returns (ok: bool, ds: seq<Datum>)
    requires s.Valid() && Packable(f.ltype)
    modifies s
    ensures Consumed(s, ok)
    ensures ok ==> |ds| <= places && AllDecoded(f.ltype, ds)
    ensures NumbersOk(f.ltype, want) && |DataBytes(f.ltype, want)| < TWO_TO_32 &&
            old(s.Rest()) == LengthPrefixed(DataBytes(f.ltype, want)) + after ==>
              (ok <==> |want| <= places) && (ok ==> ds == want && s.Rest() == after)
  {
    hide NumbersOk, DataBytes, LengthPrefixed, Decoded;
    var sub: IStream;
    ds := [];
    ok, sub := MakeSubstream(s, DataBytes(f.ltype, want), after);
    if !ok {
      return;
    }
    var status: bool;
    status, ds := DecodeEntries(sub, f, places, want);
    if sub.left != 0 {
      return false, ds;
    }
    CloseSubstream(s, sub);
    ok := status;
  }

  lemma ExistingDecoded(f: Field, c: Cell)
    requires FieldOk(f) && CellDecoded(f, c)
    ensures SchemaOk(f.ltype) && Decoded(f.ltype, Existing(f, c))
  {
    InitialDecoded(f.ltype, None);
    if Single(f.rule) {
      SingleDecoded(f, c);
    } else if Optionally(f.rule) {
      CellOfMaybe(f, c);
    } else {
      CellOfMany(f, c);
    }
  }

  lemma FieldOfSchema(t: LType, st: Progress, i: nat)
    requires t.MessageType? && SchemaOk(t) && StateOk(t, st) && i < |t.fields|
    ensures FieldOk(t.fields[i]) && CellDecoded(t.fields[i], st.cells[i])
  {
  }

  /** The piece without its tag. */
  ghost predicate BodyAhead(t: LType, i: nat, wire: nat, p: Piece, rest: Bytes, after: Bytes)
    requires t.MessageType?
  {
    PieceOk(t, p) && !p.Foreign? && p.i == i && wire == PieceWire(t, p) && rest == PieceBody(t, p) + after
  }

  lemma SingleBody(t: LType, st: Progress, i: nat, wire: nat, p: Piece, rest: Bytes, after: Bytes)
    requires t.MessageType? && |st.cells| == |t.fields| && BodyAhead(t, i, wire, p, rest, after)
    requires !(wire == WT_STRING && Packed(t.fields[i]))
    ensures i < |t.fields| && p.OneValue? && p.i == i && ValueAhead(t.fields[i].ltype, p.value, rest, after)
  {
    hide ValueBytes, ValueOk;
  }

  lemma PackedBody(t: LType, i: nat, wire: nat, p: Piece, rest: Bytes, after: Bytes)
    requires t.MessageType? && BodyAhead(t, i, wire, p, rest, after) && wire == WT_STRING && Packed(t.fields[i])
    ensures p.PackedValues? && p.i == i < |t.fields| && NumbersOk(t.fields[i].ltype, p.ds)
    ensures |DataBytes(t.fields[i].ltype, p.ds)| < TWO_TO_32
    ensures rest == LengthPrefixed(DataBytes(t.fields[i].ltype, p.ds)) + after
  {
    hide DataBytes, LengthPrefixed, NumbersOk;
  }

  lemma StoredOk(t: LType, st: Progress, i: nat, d: Datum)
    requires t.MessageType? && StateOk(t, st) && i < |t.fields| && !Array(t.fields[i].rule)
             && Decoded(t.fields[i].ltype, d)
    ensures StateOk(t, Stored(t, st, i, d))
  {
    var f := t.fields[i];
    if Single(f.rule) {
      StoreOne(t.fields, st.cells, i, d);
    } else if f.rule.Optional? {
      StoreMaybe(t.fields, st.cells, i, d);
    } else {
      StoreMember(t.fields, st.cells, i, d);
    }
    hide CellsDecoded, Decoded;
  }

  lemma ArrayRange(t: LType, st: Progress, i: nat)
    requires t.MessageType? && StateOk(t, st) && i < |t.fields| && Array(t.fields[i].rule) && Ready(t, st, i)
    ensures HasEntries(t, st, i) && |st.cells[i].ds| <= t.fields[i].rule.max
    ensures AllDecoded(t.fields[i].ltype, st.cells[i].ds)
  {
    CellOfMany(t.fields[i], st.cells[i]);
    hide Decoded;
  }

  lemma StoredManyOk(t: LType, st: Progress, i: nat, ds: seq<Datum>)
    requires t.MessageType? && StateOk(t, st) && i < |t.fields| && Array(t.fields[i].rule) && Ready(t, st, i)
    requires AllDecoded(t.fields[i].ltype, ds) && SizeSoFar(t, st, i) + |ds| <= t.fields[i].rule.max
    ensures HasEntries(t, st, i) && AddEntries(t, st, i, ds) == Some(StoredMany(t, st, i, ds))
    ensures StateOk(t, StoredMany(t, st, i, ds))
  {
    ArrayRange(t, st, i);
    var size := SizeSoFar(t, st, i);
    OverwrittenDecoded(t.fields[i].ltype, st.cells[i].ds, size, ds, t.fields[i].rule.max);
    StoreMany(t.fields, st.cells, i, Overwritten(st.cells[i].ds, size, ds));
    hide CellsDecoded, Decoded, AllDecoded;
  }

  /** decode_static_field. */
  method DecodeField(s: IStream, t: LType, st: Progress, i: nat, wire: nat, ghost p: Piece, ghost after: Bytes)
    returns (ok: bool, next: Progress)
    requires s.Valid() && t.MessageType? && SchemaOk(t) && StateOk(t, st) && i < |t.fields| && Ready(t, st, i)
    modifies s
    ensures Consumed(s, ok)
    ensures ok ==> StateOk(t, next)
    ensures BodyAhead(t, i, wire, p, old(s.Rest()), after) ==>
              (ok <==> StorePiece(t, st, p).Some?) && (ok ==> Some(next) == StorePiece(t, st, p) && s.Rest() == after)
    decreases t, 0, 1
  {
    ghost var good := BodyAhead(t, i, wire, p, s.Rest(), after);
    var f := t.fields[i];
    FieldOfSchema(t, st, i);
    ExistingDecoded(f, st.cells[i]);
    next := st;
    if Array(f.rule) {
      ok, next := DecodeArray(s, t, st, i, wire, p, after);
    } else {
      if good {
        SingleBody(t, st, i, wire, p, s.Rest(), after);
      }
      hide BodyAhead, ValueAhead, ReadValue, StateOk, Decoded, SchemaOk, FieldOk, CellDecoded, Stored, Existing;
      var d: Datum;
      ok, d := DecodeDatum(s, f.ltype, Existing(f, st.cells[i]), if good then p.value else Number(0), after);
      if ok {
        StoredOk(t, st, i, d);
        next := Stored(t, st, i, d);
      }
    }
  }

  /** The array cases of decode_static_field: all entries of a packed array, or one entry. */
  method DecodeArray(s: IStream, t: LType, st: Progress, i: nat, wire: nat, ghost p: Piece, ghost after: Bytes)
    returns (ok: bool, next: Progress)
    requires s.Valid() && t.MessageType? && SchemaOk(t) && StateOk(t, st) && i < |t.fields| && Ready(t, st, i)
    requires Array(t.fields[i].rule)
    modifies s
    ensures Consumed(s, ok)
    ensures ok ==> StateOk(t, next)
    ensures BodyAhead(t, i, wire, p, old(s.Rest()), after) ==>
              (ok <==> StorePiece(t, st, p).Some?) && (ok ==> Some(next) == StorePiece(t, st, p) && s.Rest() == after)
    decreases t, 0, 0
  {
    ghost var good := BodyAhead(t, i, wire, p, s.Rest(), after);
    var f := t.fields[i];
    FieldOfSchema(t, st, i);
    InitialDecoded(f.ltype, None);
    ArrayRange(t, st, i);
    var size := SizeSoFar(t, st, i);
    next := st;
    var ds: seq<Datum>;
    if wire == WT_STRING && Packable(f.ltype) {
      if good {
        PackedBody(t, i, wire, p, s.Rest(), after);
      }
      hide BodyAhead, StateOk, Decoded, SchemaOk, FieldOk, CellDecoded, NumbersOk, DataBytes, LengthPrefixed, Ready;
      hide StoredMany;
      ok, ds := DecodePacked(s, f, f.rule.max - size, if good then p.ds else [], after);
    } else {
      if good {
        SingleBody(t, st, i, wire, p, s.Rest(), after);
      }
      hide BodyAhead, StateOk, Decoded, SchemaOk, FieldOk, CellDecoded, ValueAhead, ReadValue, Ready, InitialDatum;
      hide StoredMany;
      if size >= f.rule.max {
        return false, st;
      }
      var d: Datum;
      ok, d := DecodeDatum(s, f.ltype, InitialDatum(f.ltype, None), if good then p.value else Number(0), after);
      ds := [d];
    }
    if ok {
      StoredManyOk(t, st, i, ds);
      next := StoredMany(t, st, i, ds);
    }
  }

  // ----- tags -----

  lemma ZeroTag(rest: Bytes)
    ensures rest != [] && rest[0] == 0 ==> rest == Varint(0) + rest[1..]
    ensures forall v, after | 0 < v && rest == Varint(v) + after :: rest[0] != 0
  {
  }

  lemma TagSplits(tag: nat, wire: nat)
    requires wire < 8
    ensures (tag * 8 + wire) % 8 == wire && (tag * 8 + wire) / 8 == tag
  {
  }

  /** pb_decode_tag; a zero tag ends the message. */
  method DecodeTag(s: IStream, ghost wire: nat, ghost tag: nat, ghost after: Bytes)
    returns (ok: bool, wireType: nat, fieldNumber: nat, eof: bool)
    requires s.Valid()
    modifies s
    ensures Consumed(s, ok) && s.pos + s.left == old(s.pos + s.left)
    ensures 0 < tag < 0x2000_0000 && wire < 8 && old(s.Rest()) == Varint(tag * 8 + wire) + after ==>
              ok && wireType == wire && fieldNumber == tag && s.Rest() == after
    ensures old(s.Rest()) != [] && old(s.Rest())[0] == 0 ==> !ok && eof
  {
    ghost var want, rest := 0, if s.Rest() != [] then s.Rest()[1..] else [];
    ZeroTag(s.Rest());
    if 0 < tag < 0x2000_0000 && wire < 8 && s.Rest() == Varint(tag * 8 + wire) + after {
      want, rest := tag * 8 + wire, after;
      TagSplits(tag, wire);
    }
    hide Varint, Decided32;
    var temp: Word;
    ok, temp, eof := DecodeVarint32(s, want, rest);
    wireType, fieldNumber := 0, 0;
    if !ok {
      return;
    }
    if temp == 0 {
      return false, 0, 0, true;
    }
    wireType, fieldNumber := temp % 8, temp / 8;
  }

  /** Of the varint `body` the first k bytes, the last of them `last`, have been skipped. */
  ghost predicate Skipping(body: Bytes, k: nat, last: Bytes, rest: Bytes, after: Bytes) {
    0 < k <= |body| && last == [body[k - 1]] && rest == body[k..] + after
  }

  lemma SkipNext(body: Bytes, k: nat, bytes: Bytes, rest: Bytes, next: Bytes, after: Bytes)
    requires k < |body| && rest == body[k..] + after && rest == bytes + next && |bytes| == 1
    ensures Skipping(body, k + 1, bytes, next, after)
  {
    assert rest[0] == body[k] && rest[1..] == body[k + 1..] + after && rest[1..] == next;
  }

  method SkipVarint(s: IStream, ghost body: Bytes, ghost after: Bytes) returns (ok: bool)
    requires s.Valid()
    modifies s
    ensures Consumed(s, ok)
    ensures VarintBytes(body) && old(s.Rest()) == body + after ==> ok && s.Rest() == after
  {
    ghost var good := VarintBytes(body) && s.Rest() == body + after;
    ghost var k := 1;
    ghost var rest := s.Rest();
    assert body[0..] == body && (body[|body|..] + after == after);
    var bytes: Bytes;
    ok, bytes := s.Read(1);
    if good {
      SkipNext(body, 0, bytes, rest, s.Rest(), after);
    }
    while ok && bytes[0] >= 128
      invariant Consumed(s, ok) && (ok ==> |bytes| == 1)
      invariant good ==> ok && Skipping(body, k, bytes, s.Rest(), after)
      decreases s.left, ok
    {
      rest := s.Rest();
      ok, bytes := s.Read(1);
      if good {
        SkipNext(body, k, bytes, rest, s.Rest(), after);
        k := k + 1;
      }
    }
  }

  /** pb_skip_field: past a whole value of the wire type, and an error for a wire type there is not. */
  method SkipField(s: IStream, wireType: nat, ghost body: Bytes, ghost after: Bytes) returns (ok: bool)
    requires s.Valid()
    modifies s
    ensures Consumed(s, ok)
    ensures ForeignOk(wireType, body) && old(s.Rest()) == ForeignBytes(wireType, body) + after ==>
              ok && s.Rest() == after
    ensures ok ==> wireType == WT_VARINT || wireType == WT_64BIT || wireType == WT_STRING || wireType == WT_32BIT
  {
    ghost var good := ForeignOk(wireType, body) && s.Rest() == ForeignBytes(wireType, body) + after;
    PrefixedParts(body, after);
    hide LengthPrefixed, Varint, VarintBytes, Decided32;
    var bytes: Bytes;
    if wireType == WT_VARINT {
      ok := SkipVarint(s, body, after);
    } else if wireType == WT_64BIT {
      ok, bytes := s.Read(8);
      if good {
        SameFront(bytes, s.Rest(), body, after);
      }
    } else if wireType == WT_STRING {
      var length: Word, eof: bool;
      ok, length, eof := DecodeVarint32(s, if |body| < TWO_TO_32 then |body| else 0, body + after);
      if ok {
        ok, bytes := s.Read(length);
        if good {
          SameFront(bytes, s.Rest(), body, after);
        }
      }
    } else if wireType == WT_32BIT {
      ok, bytes := s.Read(4);
      if good {
        SameFront(bytes, s.Rest(), body, after);
      }
    } else {
      ok := false;
    }
  }

  // ----- messages -----

  /** The stream holds the pieces still to come. */
  ghost predicate Ahead(t: LType, pieces: seq<Piece>, tail: Bytes, rest: Bytes)
    requires t.MessageType?
  {
    PiecesOk(t, pieces) && TailOk(tail) && rest == PiecesBytes(t, pieces) + tail
  }

  lemma AheadNone(t: LType, tail: Bytes, rest: Bytes)
    requires t.MessageType? && Ahead(t, [], tail, rest)
    ensures rest == [] || rest[0] == 0
  {
  }

  /** The first piece, split into its tag and what follows. */
  lemma AheadNext(t: LType, pieces: seq<Piece>, tail: Bytes, rest: Bytes)
    requires t.MessageType? && Ahead(t, pieces, tail, rest) && pieces != []
    ensures var p, after := pieces[0], PiecesBytes(t, pieces[1..]) + tail;
            && rest != [] && TagAhead(t, p, rest, PieceBody(t, p) + after, after)
            && Ahead(t, pieces[1..], tail, after)
  {
    hide PieceOk, PieceBody, Varint;
    var p, after := pieces[0], PiecesBytes(t, pieces[1..]) + tail;
    assert TagBytes(t, p) + PieceBody(t, p) + PiecesBytes(t, pieces[1..]) + tail
        == TagBytes(t, p) + (PieceBody(t, p) + after);
    assert |TagBytes(t, p)| > 0;
  }

  /** A piece, split into its tag and what follows. */
  ghost predicate TagAhead(t: LType, p: Piece, rest: Bytes, body: Bytes, after: Bytes)
    requires t.MessageType?
  {
    PieceOk(t, p) && rest == TagBytes(t, p) + body && body == PieceBody(t, p) + after
  }

  lemma TagParts(t: LType, p: Piece, rest: Bytes, body: Bytes, after: Bytes)
    requires t.MessageType? && SchemaOk(t) && TagAhead(t, p, rest, body, after)
    ensures 0 < PieceTag(t, p) < 0x2000_0000 && PieceWire(t, p) < 8
    ensures rest == Varint(PieceTag(t, p) * 8 + PieceWire(t, p)) + body
    ensures p.Foreign? ==>
              && (forall i | 0 <= i < |t.fields| :: t.fields[i].tag != p.tag)
              && p.tag == PieceTag(t, p) && p.wire == PieceWire(t, p)
              && ForeignOk(p.wire, p.body) && body == ForeignBytes(p.wire, p.body) + after
    ensures !p.Foreign? ==>
              && p.i < |t.fields| && t.fields[p.i].tag == PieceTag(t, p)
              && BodyAhead(t, p.i, PieceWire(t, p), p, body, after)
  {
    hide Varint, ValueBytes, ValueOk, DataBytes, NumbersOk, LengthPrefixed, VarintBytes;
    assert !p.Foreign? ==> FieldOk(t.fields[p.i]);
  }

  lemma NoteIsReady(t: LType, st: Progress, i: nat)
    requires t.MessageType? && i < |t.fields| && StateOk(t, st)
    ensures var r := Note(t, st, i, RequiredBefore(t.fields, i));
            r.Some? ==> StateOk(t, r.value) && Ready(t, r.value, i)
  {
    FieldCells(t, st, i);
    hide CellsDecoded;
  }

  lemma FieldCells(t: LType, st: Progress, i: nat)
    requires t.MessageType? && i < |t.fields| && StateOk(t, st)
    ensures t.fields[i].rule.FixedCount? ==> st.cells[i].Many?
  {
    if t.fields[i].rule.FixedCount? {
      CellOfMany(t.fields[i], st.cells[i]);
    }
  }

  /** A field of the schema is noted and decoded. */
  method DecodeKnown(s: IStream, t: LType, st: Progress, i: nat, requiredIndex: nat, wire: nat, ghost p: Piece,
                     ghost after: Bytes)
    returns (ok: bool, next: Progress)
    requires s.Valid() && t.MessageType? && SchemaOk(t) && StateOk(t, st)
    requires i < |t.fields| && requiredIndex == RequiredBefore(t.fields, i)
    modifies s
    ensures Consumed(s, ok)
    ensures ok ==> StateOk(t, next)
    ensures BodyAhead(t, i, wire, p, old(s.Rest()), after) ==>
              (ok <==> Step(t, st, p).Some?) && (ok ==> Some(next) == Step(t, st, p) && s.Rest() == after)
    decreases t, 0, 2
  {
    NoteIsReady(t, st, i);
    if BodyAhead(t, i, wire, p, s.Rest(), after) {
      StepOf(t, st, i, wire, p, s.Rest(), after);
    }
    hide BodyAhead, StorePiece, Step, Note, StateOk, SchemaOk, RequiredBefore, Ready;
    var noted := Note(t, st, i, requiredIndex);
    if noted.None? {
      return false, st;
    }
    ok, next := DecodeField(s, t, noted.value, i, wire, p, after);
  }

  lemma StepOf(t: LType, st: Progress, i: nat, wire: nat, p: Piece, rest: Bytes, after: Bytes)
    requires t.MessageType? && i < |t.fields| == |st.cells| && BodyAhead(t, i, wire, p, rest, after)
    ensures p.i == i && !p.Foreign?
    ensures var noted := Note(t, st, i, RequiredBefore(t.fields, i));
            && (noted.None? ==> Step(t, st, p).None?)
            && (noted.Some? ==> |noted.value.cells| == |t.fields| && Step(t, st, p) == StorePiece(t, noted.value, p))
  {
    hide PieceOk, PieceBody, RequiredBefore, FixedDone;
  }

  lemma SchemaFields(t: LType)
    requires t.MessageType? && SchemaOk(t)
    ensures DistinctTags(t.fields) && forall i | 0 <= i < |t.fields| :: 0 < t.fields[i].tag < 0x2000_0000
  {
  }

  lemma TheField(fields: seq<Field>, i: nat, j: nat)
    requires DistinctTags(fields) && i < |fields| && j < |fields| && fields[i].tag == fields[j].tag
    ensures i == j
  {
  }

  /** One turn of the loop of pb_decode_noinit: a tag, and the field or what has to be skipped. */
  method DecodeOne(s: IStream, t: LType, iter: FieldIter, st: Progress, ghost p: Piece, ghost body: Bytes,
                   ghost after: Bytes)
    returns (ok: bool, stop: bool, next: Progress)
    requires s.Valid() && t.MessageType? && SchemaOk(t) && StateOk(t, st) && iter.Valid() && iter.fields == t.fields
    modifies s, iter
    ensures iter.Valid() && Consumed(s, ok && !stop) && (ok ==> s.pos + s.left == old(s.pos + s.left))
    ensures ok ==> StateOk(t, next)
    ensures TagAhead(t, p, old(s.Rest()), body, after) ==>
              && (ok <==> Step(t, st, p).Some?)
              && (ok ==> !stop && Some(next) == Step(t, st, p) && s.Rest() == after)
    ensures old(s.Rest()) != [] && old(s.Rest())[0] == 0 ==> ok && stop && next == st
    decreases t, 0, 3
  {
    SchemaFields(t);
    ghost var good := TagAhead(t, p, s.Rest(), body, after);
    if good {
      TagParts(t, p, s.Rest(), body, after);
      ForeignStep(t, st, p);
    }
    hide SchemaOk, StateOk, TagAhead, BodyAhead, Step, RequiredBefore, DistinctTags, Varint, ForeignOk, ForeignBytes;
    hide PieceTag, PieceWire, PieceBody, Decided32;
    next, stop := st, false;
    var wire: nat, tag: nat, eof: bool;
    ok, wire, tag, eof := DecodeTag(s, if good then PieceWire(t, p) else 0, if good then PieceTag(t, p) else 0, body);
    if !ok {
      return eof, eof, st;
    }
    var found := iter.Find(tag);
    if !found {
      ok := SkipField(s, wire, if good && p.Foreign? then p.body else [], after);
      return;
    }
    if t.fields == [] {
      var value: Word;
      ok, value, eof := DecodeVarint32(s, 0, []);
      return;
    }
    if good && !p.Foreign? {
      TheField(t.fields, iter.pos, p.i);
    }
    ok, next := DecodeKnown(s, t, st, iter.pos, iter.requiredIndex, wire, p, after);
  }

  lemma ForeignStep(t: LType, st: Progress, p: Piece)
    requires t.MessageType?
    ensures p.Foreign? ==> Step(t, st, p) == Some(st)
  {
  }

  method CountRequired(iter: FieldIter) returns (n: nat)
    requires iter.Valid()
    modifies iter
    ensures iter.Valid() && n == RequiredBefore(iter.fields, |iter.fields|)
  {
    if iter.fields == [] {
      return 0;
    }
    var more := true;
    n := 0;
    while more
      invariant iter.Valid()
      invariant !more ==> n == RequiredBefore(iter.fields, |iter.fields|)
      decreases if more then |iter.fields| - iter.pos else 0
    {
      n := iter.requiredIndex + if iter.fields[iter.pos].rule.Required? then 1 else 0;
      more := iter.Next();
    }
  }

  method AllSeen(seen: set<nat>, count: nat) returns (all: bool)
    ensures all <==> forall r: nat | r < count && r < MAX_REQUIRED :: r in seen
  {
    var n := if count > MAX_REQUIRED then MAX_REQUIRED else count;
    for r := 0 to n
      invariant forall k: nat | k < r :: k in seen
    {
      if r !in seen {
        return false;
      }
    }
    return true;
  }

  /** The loop of pb_decode_noinit, to the end of the stream or a zero tag. */
  method DecodeFields(s: IStream, t: LType, iter: FieldIter, st0: Progress, ghost pieces: seq<Piece>, ghost tail: Bytes)
    returns (ok: bool, st: Progress)
    requires s.Valid() && t.MessageType? && SchemaOk(t) && StateOk(t, st0) && iter.Valid() && iter.fields == t.fields
    modifies s, iter
    ensures iter.Valid() && s.Valid() && s.left <= old(s.left) && s.pos + s.left <= old(s.pos + s.left)
    ensures ok ==> s.pos + s.left == old(s.pos + s.left) && StateOk(t, st)
    ensures Ahead(t, pieces, tail, old(s.Rest())) ==>
              (ok <==> Run(t, st0, pieces).Some?) && (ok ==> Some(st) == Run(t, st0, pieces))
    decreases t, 0, 4
  {
    hide Ahead, SchemaOk, StateOk, Step, TagAhead, PieceBody, PiecesBytes, RequiredBefore;
    ghost var good := Ahead(t, pieces, tail, s.Rest());
    ghost var todo := pieces;
    st := st0;
    var stop := false;
    while s.left > 0 && !stop
      invariant s.Valid() && s.left <= old(s.left) && s.pos + s.left == old(s.pos + s.left)
      invariant iter.Valid() && StateOk(t, st)
      invariant good ==> Run(t, st0, pieces) == Run(t, st, todo)
      invariant good ==> if stop then todo == [] else Ahead(t, todo, tail, s.Rest())
      decreases s.left, !stop
    {
      ghost var p, body, after := Foreign(0, 0, []), [], [];
      if good {
        if todo == [] {
          AheadNone(t, tail, s.Rest());
        } else {
          AheadNext(t, todo, tail, s.Rest());
          p, after := todo[0], PiecesBytes(t, todo[1..]) + tail;
          body := PieceBody(t, p) + after;
        }
      }
      ok, stop, st := DecodeOne(s, t, iter, st, p, body, after);
      if !ok {
        return;
      }
      if good && todo != [] {
        todo := todo[1..];
      }
    }
    if good && !stop && todo != [] {
      AheadNext(t, todo, tail, s.Rest());
    }
    ok := true;
  }

  /** pb_decode_noinit. */
  method DecodeMessage(s: IStream, t: LType, initial: seq<Cell>, ghost pieces: seq<Piece>, ghost tail: Bytes)
    returns (ok: bool, cells: seq<Cell>)
    requires s.Valid() && t.MessageType? && SchemaOk(t) && Decoded(t, Msg(initial))
    modifies s
    ensures s.Valid() && s.left <= old(s.left) && s.pos + s.left <= old(s.pos + s.left)
    ensures ok ==> s.pos + s.left == old(s.pos + s.left)
    ensures ok ==> Decoded(t, Msg(cells))
    ensures PiecesOk(t, pieces) && TailOk(tail) && old(s.Rest()) == PiecesBytes(t, pieces) + tail ==>
              && (ok <==> Finished(t, Run(t, Begin(initial), pieces)).Some?)
              && (ok ==> Some(Msg(cells)) == Finished(t, Run(t, Begin(initial), pieces)))
    decreases t, 1
  {
    MessageDecoded(t, initial);
    hide SchemaOk, Decoded, CellsDecoded, Complete, PiecesBytes, PiecesOk, TailOk, Run, RequiredBefore;
    var st := Begin(initial);
    var iter := new FieldIter(t.fields);
    ok, st := DecodeFields(s, t, iter, st, pieces, tail);
    cells := st.cells;
    if !ok {
      return;
    }
    MessageDecoded(t, cells);
    if st.fixed.Some? && st.received != t.fields[st.fixed.value].rule.max {
      ok := false;
    } else {
      var n := CountRequired(iter);
      ok := AllSeen(st.seen, n);
    }
    CompleteIs(t, st);
  }

  lemma CompleteIs(t: LType, st: Progress)
    requires t.MessageType? && StateOk(t, st)
    ensures Complete(t.fields, st) <==>
              && (st.fixed.Some? ==> st.received == t.fields[st.fixed.value].rule.max)
              && (forall r: nat | r < RequiredBefore(t.fields, |t.fields|) && r < MAX_REQUIRED :: r in st.seen)
  {
    hide RequiredBefore, CellsDecoded;
  }
}
