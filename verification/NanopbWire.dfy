/** What bytes mean to the decoder: messages as they may stand on the wire, with fields in any order and number, both
    forms of arrays and fields of other schemas in between, and the message that comes out. */
module NanopbWire {
  import opened InternalKeys
  import opened SnapshotReads
  import opened Coding
  import opened NanopbMessages
  import opened NanopbItems
  import opened NanopbDecoded
  import opened NanopbStream

  /** `tail` is what a zero tag cuts off. */
  datatype Value = Number(n: int) | Raw(bytes: Bytes) | Nested(pieces: seq<Piece>, tail: Bytes)

  /** A field's tag and what stands behind it: one value, all entries of a packed array, or a field that the schema
      does not have. */
  datatype Piece =
    | OneValue(i: nat, value: Value)
    | PackedValues(i: nat, ds: seq<Datum>)
    | Foreign(tag: nat, wire: nat, body: Bytes)

  // ----- the bytes -----

  function ForeignBytes(wire: nat, body: Bytes): Bytes {
    if wire == WT_STRING then LengthPrefixed(body) else body
  }

  function ValueBytes(t: LType, v: Value): Bytes
    decreases t, 2, 0
  {
    match v
    case Number(n) => NumberBytes(t, n)
    case Raw(b) => LengthPrefixed(b)
    case Nested(pieces, tail) => if t.MessageType? then LengthPrefixed(PiecesBytes(t, pieces) + tail) else []
  }

  function PiecesBytes(t: LType, pieces: seq<Piece>): Bytes
    requires t.MessageType?
    decreases t, 1, |pieces|
  {
    if pieces == [] then [] else TagBytes(t, pieces[0]) + PieceBody(t, pieces[0]) + PiecesBytes(t, pieces[1..])
  }

  function PieceTag(t: LType, p: Piece): nat
    requires t.MessageType?
  {
    if p.Foreign? then p.tag else if p.i < |t.fields| then t.fields[p.i].tag else 0
  }

  function PieceWire(t: LType, p: Piece): nat
    requires t.MessageType?
  {
    match p
    case Foreign(_, wire, _) => wire
    case PackedValues(_, _) => WT_STRING
    case OneValue(i, _) => if i < |t.fields| then WireType(t.fields[i].ltype) else 0
  }

  function TagBytes(t: LType, p: Piece): Bytes
    requires t.MessageType?
  {
    Varint(PieceTag(t, p) * 8 + PieceWire(t, p))
  }

  function PieceBody(t: LType, p: Piece): Bytes
    requires t.MessageType?
    decreases t, 0, 0
  {
    match p
    case Foreign(_, wire, body) => ForeignBytes(wire, body)
    case PackedValues(i, ds) => if i < |t.fields| then LengthPrefixed(DataBytes(t.fields[i].ltype, ds)) else []
    case OneValue(i, v) => if i < |t.fields| then ValueBytes(t.fields[i].ltype, v) else []
  }

  predicate ForeignOk(wire: nat, body: Bytes) {
    if wire == WT_VARINT then VarintBytes(body)
    else if wire == WT_64BIT then |body| == 8
    else if wire == WT_STRING then |body| < TWO_TO_32
    else wire == WT_32BIT && |body| == 4
  }

  predicate TailOk(tail: Bytes) {
    tail == [] || tail[0] == 0
  }

  predicate NumbersOk(t: LType, ds: seq<Datum>) {
    Packable(t) && forall k | 0 <= k < |ds| :: ds[k].Num? && InRange(t, ds[k])
  }

  predicate ValueOk(t: LType, v: Value)
    decreases t, 2
  {
    match v
    case Number(n) => Packable(t) && InRange(t, Num(n))
    case Raw(b) => !Packable(t) && !t.MessageType? && |b| < TWO_TO_32
    case Nested(pieces, tail) =>
      && t.MessageType? && PiecesOk(t, pieces) && TailOk(tail)
      && |PiecesBytes(t, pieces) + tail| < TWO_TO_32
  }

  predicate PiecesOk(t: LType, pieces: seq<Piece>)
    requires t.MessageType?
    decreases t, 1
  {
    forall k | 0 <= k < |pieces| :: PieceOk(t, pieces[k])
  }

  predicate PieceOk(t: LType, p: Piece)
    requires t.MessageType?
    decreases t, 0
  {
    match p
    case OneValue(i, v) => i < |t.fields| && ValueOk(t.fields[i].ltype, v)
    case PackedValues(i, ds) =>
      && i < |t.fields| && Packed(t.fields[i]) && NumbersOk(t.fields[i].ltype, ds)
      && |DataBytes(t.fields[i].ltype, ds)| < TWO_TO_32
    case Foreign(tag, wire, body) =>
      0 < tag < 0x2000_0000 && ForeignOk(wire, body) && forall i | 0 <= i < |t.fields| :: t.fields[i].tag != tag
  }

  // ----- the meaning -----

  /** The string that C sees in a buffer. */
  function UpToNull(b: Bytes): (r: Bytes)
    ensures |r| <= |b| && 0 !in r && (0 !in b ==> r == b)
  {
    if b == [] || b[0] == 0 then [] else [b[0]] + UpToNull(b[1..])
  }

  /** What a field holds after receiving the bytes, if they fit: a string needs room for its null, and no bytes at all
      clear a field of fixed length. */
  function BlobValue(t: LType, b: Bytes): Option<Bytes> {
    match t
    case BytesType(capacity) => if BYTES_OFFSET + |b| <= capacity then Some(b) else None
    case StringType(capacity) => if |b| + 1 <= capacity then Some(UpToNull(b)) else None
    case FixedBytesType(n) => if b == [] then Some(seq(n, _ => 0)) else if |b| == n then Some(b) else None
    case _ => None
  }

  /** What pb_decode_noinit notes of a field before it decodes it: required fields seen, fixed-count arrays begun. */
  function Note(t: LType, st: Progress, i: nat, requiredIndex: nat): (r: Option<Progress>)
    requires t.MessageType? && i < |t.fields|
  {
    var f := t.fields[i];
    if f.rule.FixedCount? && st.fixed != Some(i) then
      if FixedDone(t.fields, st) then Some(st.(fixed := Some(i), received := 0)) else None
    else if f.rule.Required? then Some(st.(seen := Noted(st.seen, requiredIndex)))
    else Some(st)
  }

  /** What a value of the field is merged into. */
  function Existing(f: Field, c: Cell): Datum {
    match c
    case One(d) => d
    case Maybe(Some(d)) => d
    case _ => InitialDatum(f.ltype, None)
  }

  function Stored(t: LType, st: Progress, i: nat, d: Datum): Progress
    requires t.MessageType? && |st.cells| == |t.fields| && i < |t.fields|
  {
    match t.fields[i].rule
    case Optional => st.(cells := st.cells[i := Maybe(Some(d))])
    case OneOf(u) => st.(cells := Cleared(t.fields, st.cells, u)[i := Maybe(Some(d))])
    case _ => st.(cells := st.cells[i := One(d)])
  }

  function SizeSoFar(t: LType, st: Progress, i: nat): nat
    requires t.MessageType? && |st.cells| == |t.fields| && i < |t.fields|
  {
    if t.fields[i].rule.FixedCount? then st.received else if st.cells[i].Many? then |st.cells[i].ds| else 0
  }

  predicate HasEntries(t: LType, st: Progress, i: nat)
    requires t.MessageType? && |st.cells| == |t.fields| && i < |t.fields|
  {
    st.cells[i].Many? && SizeSoFar(t, st, i) <= |st.cells[i].ds|
  }

  function StoredMany(t: LType, st: Progress, i: nat, ds: seq<Datum>): Progress
    requires t.MessageType? && |st.cells| == |t.fields| && i < |t.fields| && HasEntries(t, st, i)
  {
    var size := SizeSoFar(t, st, i);
    st.(cells := st.cells[i := Many(Overwritten(st.cells[i].ds, size, ds))],
        received := if t.fields[i].rule.FixedCount? then size + |ds| else st.received)
  }

  /** Entries go behind those already received, as many as have a place. */
  function AddEntries(t: LType, st: Progress, i: nat, ds: seq<Datum>): Option<Progress>
    requires t.MessageType? && |st.cells| == |t.fields| && i < |t.fields| && Array(t.fields[i].rule)
  {
    if HasEntries(t, st, i) && SizeSoFar(t, st, i) + |ds| <= t.fields[i].rule.max then Some(StoredMany(t, st, i, ds))
    else None
  }

  /** The value a field has once `v` is received, if it is accepted. */
  function ReadValue(t: LType, existing: Datum, v: Value): Option<Datum>
    decreases t, 2, 0
  {
    match v
    case Number(n) => Some(Num(n))
    case Raw(b) => var r := BlobValue(t, b); if r.Some? then Some(Blob(r.value)) else None
    case Nested(pieces, _) =>
      if t.MessageType? && existing.Msg? then Finished(t, Run(t, Begin(existing.cells), pieces)) else None
  }

  function Begin(cells: seq<Cell>): Progress {
    Progress(cells, {}, None, 0)
  }

  /** The tests at the end of a message. */
  function Finished(t: LType, r: Option<Progress>): Option<Datum>
    requires t.MessageType?
  {
    if r.Some? && Complete(t.fields, r.value) then Some(Msg(r.value.cells)) else None
  }

  function Run(t: LType, st: Progress, pieces: seq<Piece>): Option<Progress>
    requires t.MessageType?
    decreases t, 1, |pieces|
  {
    if pieces == [] then Some(st) else
    var next := Step(t, st, pieces[0]);
    if next.None? then None else Run(t, next.value, pieces[1..])
  }

  function Step(t: LType, st: Progress, p: Piece): Option<Progress>
    requires t.MessageType?
    decreases t, 0, 1
  {
    if p.Foreign? then Some(st)
    else if p.i >= |t.fields| || |st.cells| != |t.fields| then None else
    var noted := Note(t, st, p.i, RequiredBefore(t.fields, p.i));
    if noted.None? then None else StorePiece(t, noted.value, p)
  }

  function StorePiece(t: LType, st: Progress, p: Piece): Option<Progress>
    requires t.MessageType? && !p.Foreign? && p.i < |t.fields| && |st.cells| == |t.fields|
    decreases t, 0, 0
  {
    var f := t.fields[p.i];
    if p.PackedValues? then if Array(f.rule) then AddEntries(t, st, p.i, p.ds) else None else
    var d := ReadValue(f.ltype, Existing(f, st.cells[p.i]), p.value);
    if d.None? then None
    else if Array(f.rule) then AddEntries(t, st, p.i, [d.value]) else Some(Stored(t, st, p.i, d.value))
  }

  // ----- the wire form of a message -----

  function ValueOf(t: LType, d: Datum): Value
    decreases t, 2, 0
  {
    match d
    case Num(n) => Number(n)
    case Blob(b) => Raw(b)
    case Msg(cells) => if t.MessageType? then Nested(PiecesOf(t, ItemsFrom(t.fields, cells, 0)), []) else Raw([])
  }

  function PiecesOf(t: LType, items: seq<Item>): seq<Piece>
    requires t.MessageType?
    decreases t, 1, |items|
  {
    if items == [] then [] else [PieceOf(t, items[0])] + PiecesOf(t, items[1..])
  }

  function PieceOf(t: LType, item: Item): Piece
    requires t.MessageType?
    decreases t, 0, 0
  {
    if item.i < |t.fields| && item.ds != [] && !Packed(t.fields[item.i]) then
      OneValue(item.i, ValueOf(t.fields[item.i].ltype, item.ds[0]))
    else PackedValues(item.i, item.ds)
  }

  // ----- what the encoder writes, read back -----

  lemma LeafRead(t: LType, d: Datum)
    requires !t.MessageType? && SoundDatum(t, d) && |DatumBytes(t, d)| < TWO_TO_32
    ensures ValueBytes(t, ValueOf(t, d)) == DatumBytes(t, d) && ValueOk(t, ValueOf(t, d))
    ensures ReadValue(t, d, ValueOf(t, d)) == if Passes(Room, t, d) then Some(d) else None
  {
    hide Varint, NumberBytes;
    assert Passes(Shape, t, d) && Passes(Capacity, t, d);
  }

  lemma {:induction false} ValueRead(t: LType, existing: Datum, d: Datum)
    requires SoundDatum(t, d) && |DatumBytes(t, d)| < TWO_TO_32
    requires t.MessageType? ==> existing == InitialDatum(t, None)
    ensures ValueBytes(t, ValueOf(t, d)) == DatumBytes(t, d) && ValueOk(t, ValueOf(t, d))
    ensures ReadValue(t, existing, ValueOf(t, d)) == if Passes(Room, t, d) then Some(d) else None
    decreases t, 2, 0
  {
    if t.MessageType? {
      assert Passes(Shape, t, d);
      var items := ItemsFrom(t.fields, d.cells, 0);
      ItemsRebuild(t, d.cells);
      MessageData(t, d.cells);
      hide Varint, ItemsBytes, Passes, SoundDatum, Chain, ItemsHaveRoom, SoundItems, ItemsFrom, InitialCells;
      assert |ItemsBytes(t, items)| < TWO_TO_32;
      ItemsRead(t, Start(t), items, d.cells);
      assert PiecesBytes(t, PiecesOf(t, items)) + [] == PiecesBytes(t, PiecesOf(t, items));
    } else {
      LeafRead(t, d);
    }
  }

  /** The items of a chain are received one by one, as long as their strings have room. */
  lemma {:induction false} ItemsRead(t: LType, st: Progress, items: seq<Item>, want: seq<Cell>)
    requires t.MessageType? && Chain(t, st, items, want) && SoundItems(t, items) && |ItemsBytes(t, items)| < TWO_TO_32
    ensures PiecesBytes(t, PiecesOf(t, items)) == ItemsBytes(t, items) && PiecesOk(t, PiecesOf(t, items))
    ensures Finished(t, Run(t, st, PiecesOf(t, items))) == if ItemsHaveRoom(t, items) then Some(Msg(want)) else None
    decreases t, 1, |items|
  {
    hide Applies, Apply, Complete, ItemHasRoom, ItemBytes, PieceBody, PieceOk, Step, PieceOf, SoundData;
    if items != [] {
      var item, rest := items[0], items[1..];
      assert [item] + rest == items;
      RoomSplits(t, item, rest);
      ItemRead(t, st, item);
      ItemsRead(t, Apply(t, st, item), rest, want);
      var pieces := PiecesOf(t, items);
      assert pieces[0] == PieceOf(t, item) && pieces[1..] == PiecesOf(t, rest);
    }
  }

  /** What pb_decode_noinit notes first is part of the item's effect. */
  lemma NoteChangesNothing(t: LType, st: Progress, item: Item)
    requires t.MessageType? && Applies(t, st, item)
    ensures var r := Note(t, st, item.i, RequiredBefore(t.fields, item.i));
            r.Some? && Applies(t, r.value, item) && Apply(t, r.value, item) == Apply(t, st, item)
            && Ready(t, r.value, item.i)
  {
    hide RequiredBefore, InitialCell;
  }

  /** pb_decode_noinit has noted the field before it decodes it. */
  ghost predicate Ready(t: LType, st: Progress, i: nat)
    requires t.MessageType? && i < |t.fields|
  {
    && (t.fields[i].rule.FixedCount? ==> st.fixed == Some(i))
    && (t.fields[i].rule.Required? ==> st.seen == Noted(st.seen, RequiredBefore(t.fields, i)))
  }

  lemma StoredIsApply(t: LType, st: Progress, item: Item)
    requires t.MessageType? && Applies(t, st, item) && Ready(t, st, item.i)
    requires !Array(t.fields[item.i].rule) && |item.ds| == 1
    ensures Stored(t, st, item.i, item.ds[0]) == Apply(t, st, item)
  {
  }

  lemma AddEntriesIsApply(t: LType, st: Progress, item: Item)
    requires t.MessageType? && Applies(t, st, item) && Ready(t, st, item.i) && Array(t.fields[item.i].rule)
    ensures AddEntries(t, st, item.i, item.ds) == Some(Apply(t, st, item))
  {
    var entries := st.cells[item.i].ds;
    assert entries[..|entries|] == entries;
    assert Overwritten(entries, |entries|, item.ds) == entries + item.ds;
  }

  lemma PackedAhead(t: LType, item: Item)
    requires t.MessageType? && item.i < |t.fields| && Packed(t.fields[item.i])
    requires SoundData(t.fields[item.i].ltype, item.ds)
    ensures NumbersOk(t.fields[item.i].ltype, item.ds) && ItemHasRoom(t, item)
  {
    forall k | 0 <= k < |item.ds|
      ensures item.ds[k].Num? && InRange(t.fields[item.i].ltype, item.ds[k])
      ensures Passes(Room, t.fields[item.i].ltype, item.ds[k])
    {
      assert SoundDatum(t.fields[item.i].ltype, item.ds[k]);
      assert Passes(Shape, t.fields[item.i].ltype, item.ds[k]);
    }
  }

  lemma SingleAhead(t: LType, st: Progress, item: Item)
    requires t.MessageType? && Applies(t, st, item) && !Packed(t.fields[item.i])
    requires SoundData(t.fields[item.i].ltype, item.ds)
    ensures var f := t.fields[item.i];
            && |item.ds| == 1 && SoundDatum(f.ltype, item.ds[0])
            && (f.ltype.MessageType? ==> Existing(f, st.cells[item.i]) == InitialDatum(f.ltype, None))
            && (ItemHasRoom(t, item) <==> Passes(Room, f.ltype, item.ds[0]))
            && Payload(f, item.ds) == DatumBytes(f.ltype, item.ds[0])
  {
    var ty := t.fields[item.i].ltype;
    assert ty.MessageType? ==> InitialDatum(ty, t.fields[item.i].initial) == InitialDatum(ty, None);
    hide DatumBytes, Passes, SoundDatum, InitialDatum;
    assert SoundDatum(ty, item.ds[0]);
    assert item.ds[1..] == [] && DataBytes(ty, []) == [];
    assert DatumBytes(ty, item.ds[0]) + [] == DatumBytes(ty, item.ds[0]);
  }

  lemma SingleApplies(t: LType, st: Progress, item: Item)
    requires t.MessageType? && Applies(t, st, item) && Ready(t, st, item.i) && |item.ds| == 1
    ensures item.i < |t.fields| == |st.cells|
    ensures (if Array(t.fields[item.i].rule) then AddEntries(t, st, item.i, item.ds)
             else Some(Stored(t, st, item.i, item.ds[0]))) == Some(Apply(t, st, item))
  {
    hide Apply, Ready, AddEntries, Stored;
    if Array(t.fields[item.i].rule) {
      AddEntriesIsApply(t, st, item);
    } else {
      StoredIsApply(t, st, item);
    }
  }

  lemma {:induction false} ItemRead(t: LType, st: Progress, item: Item)
    requires t.MessageType? && Applies(t, st, item) && SoundData(t.fields[item.i].ltype, item.ds)
    requires |ItemBytes(t, item)| < TWO_TO_32
    ensures TagBytes(t, PieceOf(t, item)) + PieceBody(t, PieceOf(t, item)) == ItemBytes(t, item)
    ensures PieceOk(t, PieceOf(t, item))
    ensures Step(t, st, PieceOf(t, item)) == if ItemHasRoom(t, item) then Some(Apply(t, st, item)) else None
    decreases t, 0, 0
  {
    var f, p := t.fields[item.i], PieceOf(t, item);
    var noted := Note(t, st, item.i, RequiredBefore(t.fields, item.i));
    NoteChangesNothing(t, st, item);
    assert item.ds != [] && |st.cells| == |t.fields|;
    if Packed(f) {
      PackedAhead(t, item);
      AddEntriesIsApply(t, noted.value, item);
    } else {
      SingleAhead(t, noted.value, item);
      hide Applies, Apply, Varint, Passes, SoundDatum, ItemHasRoom, AddEntries, Stored, Note, Ready, Existing;
      assert item.ds == [item.ds[0]];
      assert |DatumBytes(f.ltype, item.ds[0])| < TWO_TO_32;
      ValueRead(f.ltype, Existing(f, noted.value.cells[item.i]), item.ds[0]);
      SingleApplies(t, noted.value, item);
    }
  }

  // ----- fields of other schemas -----

  function StrippedValue(v: Value): Value
    decreases v
  {
    if v.Nested? then Nested(Stripped(v.pieces), []) else v
  }

  /** Without the fields the schema does not have, at any depth, and without what zero tags cut off. */
  function Stripped(pieces: seq<Piece>): seq<Piece>
    decreases pieces
  {
    if pieces == [] then [] else StrippedPiece(pieces[0]) + Stripped(pieces[1..])
  }

  function StrippedPiece(p: Piece): seq<Piece>
    decreases p
  {
    match p
    case Foreign(_, _, _) => []
    case PackedValues(_, _) => [p]
    case OneValue(i, v) => [OneValue(i, StrippedValue(v))]
  }

  lemma {:induction false} StrippedReads(t: LType, existing: Datum, v: Value)
    ensures ReadValue(t, existing, StrippedValue(v)) == ReadValue(t, existing, v)
    decreases t, 1, 0
  {
    hide Run, Finished;
    if v.Nested? && t.MessageType? && existing.Msg? {
      StrippedRuns(t, Begin(existing.cells), v.pieces);
    }
  }

  /** Other schemas' fields leave no trace. */
  lemma {:induction false} StrippedRuns(t: LType, st: Progress, pieces: seq<Piece>)
    requires t.MessageType?
    ensures Run(t, st, Stripped(pieces)) == Run(t, st, pieces)
    decreases t, 0, |pieces|
  {
    if pieces == [] {
      return;
    }
    var p, rest := pieces[0], Stripped(pieces[1..]);
    var next := Step(t, st, p);
    if p.OneValue? {
      StrippedStep(t, st, p, OneValue(p.i, StrippedValue(p.value)));
    }
    hide ReadValue, StorePiece, Note;
    assert p.Foreign? ==> next == Some(st);
    hide Step;
    assert Stripped(pieces) == StrippedPiece(p) + rest;
    assert p.Foreign? ==> Stripped(pieces) == rest;
    if next.Some? {
      StrippedRuns(t, next.value, pieces[1..]);
    }
    if !p.Foreign? {
      FirstStep(t, st, StrippedPiece(p), rest);
    }
  }

  lemma FirstStep(t: LType, st: Progress, first: seq<Piece>, rest: seq<Piece>)
    requires t.MessageType? && |first| == 1
    ensures Run(t, st, first + rest) ==
            if Step(t, st, first[0]).None? then None else Run(t, Step(t, st, first[0]).value, rest)
  {
    hide Step;
    assert (first + rest)[1..] == rest;
  }

  lemma NoteKeepsCells(t: LType, st: Progress, i: nat)
    requires t.MessageType? && i < |t.fields|
    ensures var noted := Note(t, st, i, RequiredBefore(t.fields, i)); noted.Some? ==> noted.value.cells == st.cells
  {
    hide RequiredBefore, FixedDone;
  }

  lemma {:induction false} StrippedStep(t: LType, st: Progress, p: Piece, q: Piece)
    requires t.MessageType? && p.OneValue? && q == OneValue(p.i, StrippedValue(p.value))
    ensures Step(t, st, q) == Step(t, st, p)
    decreases t, 0, 0
  {
    hide Note, AddEntries, Stored, ReadValue, Existing, RequiredBefore;
    if p.i < |t.fields| == |st.cells| {
      var noted := Note(t, st, p.i, RequiredBefore(t.fields, p.i));
      NoteKeepsCells(t, st, p.i);
      if noted.Some? {
        StrippedReads(t.fields[p.i].ltype, Existing(t.fields[p.i], noted.value.cells[p.i]), p.value);
      }
    }
  }

  lemma {:induction false} StrippedValueOf(t: LType, d: Datum)
    ensures StrippedValue(ValueOf(t, d)) == ValueOf(t, d)
    decreases t, 1, 0
  {
    if d.Msg? && t.MessageType? {
      StrippedPiecesOf(t, ItemsFrom(t.fields, d.cells, 0));
    }
  }

  /** The encoder writes no others. */
  lemma {:induction false} StrippedPiecesOf(t: LType, items: seq<Item>)
    requires t.MessageType?
    ensures Stripped(PiecesOf(t, items)) == PiecesOf(t, items)
    decreases t, 0, |items|
  {
    if items != [] {
      var item, pieces := items[0], PiecesOf(t, items);
      assert pieces[1..] == PiecesOf(t, items[1..]);
      StrippedPiecesOf(t, items[1..]);
      if item.i < |t.fields| && item.ds != [] && !Packed(t.fields[item.i]) {
        StrippedValueOf(t.fields[item.i].ltype, item.ds[0]);
      }
    }
  }

  function MessagePieces(t: LType, cells: seq<Cell>): seq<Piece>
    requires t.MessageType?
  {
    PiecesOf(t, ItemsFrom(t.fields, cells, 0))
  }

  /** A message that differs from an encoded one only by fields of other schemas, at any depth, means the same. */
  lemma ForeignFieldsAreSkipped(t: LType, want: seq<Cell>, pieces: seq<Piece>)
    requires t.MessageType? && Sound(t, want) && |MessageBytes(t, want)| < TWO_TO_32
    requires Stripped(pieces) == MessagePieces(t, want)
    ensures Finished(t, Run(t, Start(t), pieces)) == if Passes(Room, t, Msg(want)) then Some(Msg(want)) else None
  {
    ItemsRebuild(t, want);
    MessageData(t, want);
    hide Chain, ItemsBytes, SoundItems, ItemsHaveRoom, Passes, Sound, ItemsFrom, Run, Finished, Stripped;
    ItemsRead(t, Start(t), ItemsFrom(t.fields, want, 0), want);
    StrippedRuns(t, Start(t), pieces);
  }

  lemma MessagePiecesAre(t: LType, want: seq<Cell>)
    requires t.MessageType? && Sound(t, want) && |MessageBytes(t, want)| < TWO_TO_32
    ensures var pieces := MessagePieces(t, want);
            && PiecesOk(t, pieces) && PiecesBytes(t, pieces) == MessageBytes(t, want)
            && Stripped(pieces) == pieces
  {
    ItemsRebuild(t, want);
    MessageData(t, want);
    hide Chain, ItemsBytes, SoundItems, ItemsHaveRoom, Passes, Sound, ItemsFrom, Run, Finished, Stripped, PiecesOk;
    ItemsRead(t, Start(t), ItemsFrom(t.fields, want, 0), want);
    StrippedPiecesOf(t, ItemsFrom(t.fields, want, 0));
  }

  // ----- fields missing, and fields received again -----

  predicate Of(p: Piece, i: nat) {
    !p.Foreign? && p.i == i
  }

  lemma {:induction false} RequiredAt(fields: seq<Field>, n: nat, r: nat)
    requires n <= |fields| && r < RequiredBefore(fields, n)
    ensures exists i | 0 <= i < n :: fields[i].rule.Required? && RequiredBefore(fields, i) == r
  {
    if fields[n - 1].rule.Required? && RequiredBefore(fields, n - 1) == r {
    } else {
      RequiredAt(fields, n - 1, r);
    }
  }

  lemma {:induction false} RequiredGrows(fields: seq<Field>, i: nat, n: nat)
    requires i <= n <= |fields|
    ensures RequiredBefore(fields, i) <= RequiredBefore(fields, n)
    ensures i < n && fields[i].rule.Required? ==> RequiredBefore(fields, i) < RequiredBefore(fields, n)
  {
    if i < n {
      RequiredGrows(fields, i, n - 1);
    }
  }

  /** A required field is noted by its own pieces alone. */
  lemma StepSeen(t: LType, st: Progress, p: Piece, i: nat)
    requires t.MessageType? && i < |t.fields| && t.fields[i].rule.Required?
             && RequiredBefore(t.fields, i) < MAX_REQUIRED
    requires Step(t, st, p).Some?
    ensures var r := RequiredBefore(t.fields, i);
            r in Step(t, st, p).value.seen <==> r in st.seen || Of(p, i)
  {
    hide RequiredBefore, ReadValue, Existing, FixedDone, Cleared, Overwritten;
    if !p.Foreign? && t.fields[p.i].rule.Required? {
      RequiredGrows(t.fields, p.i, if p.i < i then i else p.i);
      RequiredGrows(t.fields, i, if p.i < i then i else p.i);
    }
  }

  lemma {:induction false} RunSeen(t: LType, st: Progress, pieces: seq<Piece>, i: nat)
    requires t.MessageType? && i < |t.fields| && t.fields[i].rule.Required?
             && RequiredBefore(t.fields, i) < MAX_REQUIRED
    requires Run(t, st, pieces).Some?
    ensures var r := RequiredBefore(t.fields, i);
            r in Run(t, st, pieces).value.seen <==> r in st.seen || exists k | 0 <= k < |pieces| :: Of(pieces[k], i)
    decreases |pieces|
  {
    hide Step, RequiredBefore;
    if pieces != [] {
      var next, rest := Step(t, st, pieces[0]).value, pieces[1..];
      StepSeen(t, st, pieces[0], i);
      RunSeen(t, next, rest, i);
      assert forall k | 0 <= k < |rest| :: rest[k] == pieces[k + 1];
      if k :| 0 <= k < |pieces| && Of(pieces[k], i) {
        assert k > 0 ==> Of(rest[k - 1], i);
      }
    }
  }

  /** Of the required fields, as far as they are counted, none is missing. */
  ghost predicate NoneMissing(t: LType, pieces: seq<Piece>)
    requires t.MessageType?
  {
    forall i | 0 <= i < |t.fields| && t.fields[i].rule.Required? && RequiredBefore(t.fields, i) < MAX_REQUIRED ::
      exists k | 0 <= k < |pieces| :: Of(pieces[k], i)
  }

  /** A message is accepted if every piece is, the last array of fixed count is full, and no required field is
      missing. */
  lemma FinishedIff(t: LType, cells: seq<Cell>, pieces: seq<Piece>)
    requires t.MessageType?
    ensures var r := Run(t, Begin(cells), pieces);
            Finished(t, r).Some? <==> r.Some? && FixedDone(t.fields, r.value) && NoneMissing(t, pieces)
  {
    var r := Run(t, Begin(cells), pieces);
    hide Run, FixedDone, RequiredBefore, Of;
    if r.Some? {
      forall i | 0 <= i < |t.fields| && t.fields[i].rule.Required? && RequiredBefore(t.fields, i) < MAX_REQUIRED
        ensures RequiredBefore(t.fields, i) in r.value.seen <==> exists k | 0 <= k < |pieces| :: Of(pieces[k], i)
        ensures RequiredBefore(t.fields, i) < RequiredBefore(t.fields, |t.fields|)
      {
        RunSeen(t, Begin(cells), pieces, i);
        RequiredGrows(t.fields, i, |t.fields|);
      }
      forall q: nat | q < RequiredBefore(t.fields, |t.fields|) && q < MAX_REQUIRED
        ensures NoneMissing(t, pieces) ==> q in r.value.seen
      {
        RequiredAt(t.fields, |t.fields|, q);
      }
    }
  }

  /** Receiving the piece may change field i. */
  predicate Touches(t: LType, p: Piece, i: nat)
    requires t.MessageType? && i < |t.fields|
  {
    !p.Foreign? && p.i < |t.fields| && (p.i == i || SameUnion(t.fields[p.i], t.fields[i]))
  }

  lemma StepKeeps(t: LType, st: Progress, p: Piece, i: nat)
    requires t.MessageType? && i < |t.fields| && |st.cells| == |t.fields| && Step(t, st, p).Some?
    ensures |Step(t, st, p).value.cells| == |t.fields|
    ensures !Touches(t, p, i) ==> Step(t, st, p).value.cells[i] == st.cells[i]
  {
    hide RequiredBefore, ReadValue, Existing, FixedDone, Overwritten;
  }

  lemma {:induction false} RunKeeps(t: LType, st: Progress, pieces: seq<Piece>, i: nat)
    requires t.MessageType? && i < |t.fields| && |st.cells| == |t.fields| && Run(t, st, pieces).Some?
    ensures |Run(t, st, pieces).value.cells| == |t.fields|
    ensures (forall k | 0 <= k < |pieces| :: !Touches(t, pieces[k], i)) ==>
              Run(t, st, pieces).value.cells[i] == st.cells[i]
    decreases |pieces|
  {
    hide Step, Touches;
    if pieces != [] {
      StepKeeps(t, st, pieces[0], i);
      RunKeeps(t, Step(t, st, pieces[0]).value, pieces[1..], i);
    }
  }

  lemma {:induction false} RunConcat(t: LType, st: Progress, a: seq<Piece>, b: seq<Piece>)
    requires t.MessageType?
    ensures Run(t, st, a + b) ==
            if Run(t, st, a).None? then None else Run(t, Run(t, st, a).value, b)
    decreases |a|
  {
    hide Step;
    if a == [] {
      assert a + b == b;
    } else {
      assert (a + b)[0] == a[0] && (a + b)[1..] == a[1..] + b;
      if Step(t, st, a[0]).Some? {
        RunConcat(t, Step(t, st, a[0]).value, a[1..], b);
      }
    }
  }

  /** What field i holds at the end is its last value, merged into what there was if it is a message. */
  lemma LastValueWins(t: LType, st: Progress, before: seq<Piece>, i: nat, v: Value, after: seq<Piece>)
    requires t.MessageType? && i < |t.fields| && !Array(t.fields[i].rule) && |st.cells| == |t.fields|
    requires Run(t, st, before + [OneValue(i, v)] + after).Some?
    requires forall k | 0 <= k < |after| :: !Touches(t, after[k], i)
    ensures Run(t, st, before).Some? && |Run(t, st, before).value.cells| == |t.fields|
    ensures |Run(t, st, before + [OneValue(i, v)] + after).value.cells| == |t.fields|
    ensures var f := t.fields[i];
            var d := ReadValue(f.ltype, Existing(f, Run(t, st, before).value.cells[i]), v);
            && d.Some?
            && Run(t, st, before + [OneValue(i, v)] + after).value.cells[i]
               == if f.rule.Required? || f.rule.Singular? then One(d.value) else Maybe(d)
  {
    hide Run;
    var p := OneValue(i, v);
    RunConcat(t, st, before + [p], after);
    RunConcat(t, st, before, [p]);
    var mid := Run(t, st, before).value;
    RunOne(t, mid, p);
    RunKeeps(t, st, before, i);
    RunKeeps(t, Step(t, mid, p).value, after, i);
    StepStores(t, mid, i, v);
  }

  lemma RunOne(t: LType, st: Progress, p: Piece)
    requires t.MessageType?
    ensures Run(t, st, [p]) == Step(t, st, p)
  {
    hide Step;
    assert [p][1..] == [];
  }

  lemma StepStores(t: LType, st: Progress, i: nat, v: Value)
    requires t.MessageType? && i < |t.fields| && !Array(t.fields[i].rule) && |st.cells| == |t.fields|
    requires Step(t, st, OneValue(i, v)).Some?
    ensures var f := t.fields[i];
            var d := ReadValue(f.ltype, Existing(f, st.cells[i]), v);
            && d.Some? && |Step(t, st, OneValue(i, v)).value.cells| == |t.fields|
            && Step(t, st, OneValue(i, v)).value.cells[i]
               == if f.rule.Required? || f.rule.Singular? then One(d.value) else Maybe(d)
  {
    hide RequiredBefore, ReadValue, Existing, FixedDone, Overwritten;
  }

  /** A submessage received twice is merged: what the second part does not touch stays as the first part left it. */
  lemma SubmessagesMerge(t: LType, st: Progress, i: nat, first: Value, second: Value, j: nat)
    requires t.MessageType? && i < |t.fields| == |st.cells| && !Array(t.fields[i].rule)
    requires first.Nested? && second.Nested? && Run(t, st, [OneValue(i, first), OneValue(i, second)]).Some?
    requires var sub := t.fields[i].ltype;
             && sub.MessageType? && j < |sub.fields| && (forall k | 0 <= k < |second.pieces| ::
                  !Touches(sub, second.pieces[k], j))
             && var d := Existing(t.fields[i], st.cells[i]); d.Msg? && |d.cells| == |sub.fields|
    ensures var sub, one := t.fields[i].ltype, Run(t, st, [OneValue(i, first)]);
            && one.Some? && |one.value.cells| == |t.fields|
            && var both := Run(t, st, [OneValue(i, first), OneValue(i, second)]).value;
            && |both.cells| == |t.fields|
            && var d, e := Existing(t.fields[i], one.value.cells[i]), Existing(t.fields[i], both.cells[i]);
            && d.Msg? && e.Msg? && |d.cells| == |e.cells| == |sub.fields| && e.cells[j] == d.cells[j]
  {
    hide Step, Run, ReadValue, Existing, Touches, Array;
    var p, q := OneValue(i, first), OneValue(i, second);
    assert [p, q] == [p] + [q];
    RunConcat(t, st, [p], [q]);
    RunOne(t, st, p);
    var one := Run(t, st, [p]).value;
    RunOne(t, one, q);
    StepStores(t, st, i, first);
    StepStores(t, one, i, second);
    var sub, d0 := t.fields[i].ltype, Existing(t.fields[i], st.cells[i]);
    var d := ReadValue(sub, d0, first).value;
    ExistingIs(t.fields[i], d);
    ReadKeeps(sub, d0, first, j);
    ReadKeeps(sub, d, second, j);
    ExistingIs(t.fields[i], ReadValue(sub, d, second).value);
  }

  lemma ExistingIs(f: Field, d: Datum)
    ensures Existing(f, One(d)) == d && Existing(f, Maybe(Some(d))) == d
  {
  }

  lemma ReadKeeps(sub: LType, d: Datum, v: Value, j: nat)
    requires sub.MessageType? && j < |sub.fields| && v.Nested? && d.Msg? && |d.cells| == |sub.fields|
    requires ReadValue(sub, d, v).Some?
    ensures var e := ReadValue(sub, d, v).value;
            && e.Msg? && |e.cells| == |sub.fields|
            && ((forall k | 0 <= k < |v.pieces| :: !Touches(sub, v.pieces[k], j)) ==> e.cells[j] == d.cells[j])
  {
    hide Run, Complete, Touches;
    RunKeeps(sub, Begin(d.cells), v.pieces, j);
  }
}
