/** Messages of a newer schema, read with an older one that lacks the last of its fields. */
module NanopbOlderReader {
  import opened InternalKeys
  import opened SnapshotReads
  import opened Coding
  import opened NanopbMessages
  import opened NanopbStream
  import opened NanopbWire
  import opened NanopbEncoder
  import opened NanopbRoundTrip

  ghost predicate Extends(newer: LType, older: LType) {
    newer.MessageType? && older.MessageType? && older.fields <= newer.fields
  }

  // ----- any field can be skipped -----

  function ValueInside(t: LType, v: Value): Bytes {
    match v
    case Number(n) => NumberBytes(t, n)
    case Raw(b) => b
    case Nested(pieces, tail) => if t.MessageType? then PiecesBytes(t, pieces) + tail else []
  }

  /** A piece as a reader sees it whose schema does not have the field. */
  function AsForeign(t: LType, p: Piece): (q: Piece)
    requires t.MessageType? && !p.Foreign? && p.i < |t.fields|
    ensures q.Foreign?
  {
    var ty := t.fields[p.i].ltype;
    Foreign(PieceTag(t, p), PieceWire(t, p), if p.PackedValues? then DataBytes(ty, p.ds) else ValueInside(ty, p.value))
  }

  lemma NumberIsForeign(t: LType, n: int)
    requires Packable(t)
    ensures ForeignOk(WireType(t), NumberBytes(t, n)) && WireType(t) != WT_STRING
  {
    VarintIsVarintBytes(if n != 0 then 1 else 0);
    VarintIsVarintBytes(n % TWO_TO_64);
    VarintIsVarintBytes(ZigZag(n) % TWO_TO_64);
    hide Varint, VarintBytes;
  }

  lemma ValueIsForeign(t: LType, v: Value)
    requires ValueOk(t, v)
    ensures ForeignOk(WireType(t), ValueInside(t, v))
    ensures ForeignBytes(WireType(t), ValueInside(t, v)) == ValueBytes(t, v)
  {
    hide NumberBytes, Varint, PiecesBytes, PiecesOk, VarintBytes;
    if v.Number? {
      NumberIsForeign(t, v.n);
    }
  }

  /** Every field is written so that a reader who does not know it can skip it. */
  lemma PieceIsForeign(t: LType, p: Piece)
    requires t.MessageType? && SchemaOk(t) && PieceOk(t, p) && !p.Foreign?
    ensures p.i < |t.fields|
    ensures var q := AsForeign(t, p);
            && 0 < q.tag < 0x2000_0000 && ForeignOk(q.wire, q.body)
            && q.tag == PieceTag(t, p) && q.wire == PieceWire(t, p) && ForeignBytes(q.wire, q.body) == PieceBody(t, p)
  {
    hide ValueBytes, ValueOk, DataBytes, LengthPrefixed, NumbersOk, ValueInside;
    assert FieldOk(t.fields[p.i]);
    if p.OneValue? {
      ValueIsForeign(t.fields[p.i].ltype, p.value);
    }
  }

  // ----- the older reader's view -----

  function Seen(newer: LType, n: nat, pieces: seq<Piece>): seq<Piece>
    requires newer.MessageType? && PiecesOk(newer, pieces)
  {
    if pieces == [] then [] else
    var p := pieces[0];
    assert PieceOk(newer, p);
    [if !p.Foreign? && n <= p.i then AsForeign(newer, p) else p] + Seen(newer, n, pieces[1..])
  }

  lemma SeenPiece(newer: LType, older: LType, p: Piece)
    requires Extends(newer, older) && SchemaOk(newer) && PieceOk(newer, p)
    ensures !p.Foreign? ==> p.i < |newer.fields|
    ensures var q := if !p.Foreign? && |older.fields| <= p.i then AsForeign(newer, p) else p;
            PieceOk(older, q) && TagBytes(older, q) == TagBytes(newer, p) && PieceBody(older, q) == PieceBody(newer, p)
  {
    hide ValueBytes, ValueOk, DataBytes, LengthPrefixed, NumbersOk, ValueInside, ForeignOk, Varint;
    if !p.Foreign? && |older.fields| <= p.i {
      PieceIsForeign(newer, p);
    }
  }

  /** The same bytes, in other pieces. */
  lemma {:induction false} SeenIsSame(newer: LType, older: LType, pieces: seq<Piece>)
    requires Extends(newer, older) && SchemaOk(newer) && PiecesOk(newer, pieces)
    ensures var seen := Seen(newer, |older.fields|, pieces);
            PiecesOk(older, seen) && PiecesBytes(older, seen) == PiecesBytes(newer, pieces)
  {
    hide PieceOk, AsForeign, TagBytes, PieceBody;
    if pieces != [] {
      var p, seen := pieces[0], Seen(newer, |older.fields|, pieces);
      assert PieceOk(newer, p);
      SeenPiece(newer, older, p);
      SeenIsSame(newer, older, pieces[1..]);
      assert seen[1..] == Seen(newer, |older.fields|, pieces[1..]);
    }
  }

  /** Without what the older schema lacks. */
  function Kept(n: nat, items: seq<Item>): seq<Item> {
    if items == [] then [] else (if items[0].i < n then [items[0]] else []) + Kept(n, items[1..])
  }

  lemma {:induction false} StrippedSeen(newer: LType, older: LType, items: seq<Item>)
    requires Extends(newer, older) && PiecesOk(newer, PiecesOf(newer, items))
    ensures Stripped(Seen(newer, |older.fields|, PiecesOf(newer, items)))
            == PiecesOf(older, Kept(|older.fields|, items))
  {
    hide PieceOk, AsForeign;
    if items != [] {
      var n, item, rest, pieces := |older.fields|, items[0], items[1..], PiecesOf(newer, items);
      var p := PieceOf(newer, item);
      assert pieces[0] == p && pieces[1..] == PiecesOf(newer, rest) && PieceOk(newer, p);
      StrippedSeen(newer, older, rest);
      StrippedPieceOf(newer, item);
      SeenItem(newer, older, item);
      var seen := Seen(newer, n, pieces);
      assert seen[1..] == Seen(newer, n, PiecesOf(newer, rest));
      assert Stripped(seen) == StrippedPiece(seen[0]) + Stripped(seen[1..]);
      if item.i < n {
        assert Kept(n, items)[0] == item && Kept(n, items)[1..] == Kept(n, rest);
      } else {
        assert StrippedPiece(seen[0]) == [];
        assert Stripped(seen) == Stripped(seen[1..]) && Kept(n, items) == Kept(n, rest);
      }
    }
  }

  lemma StrippedPieceOf(t: LType, item: Item)
    requires t.MessageType?
    ensures StrippedPiece(PieceOf(t, item)) == [PieceOf(t, item)]
  {
    hide ValueOf, StrippedValue;
    if item.i < |t.fields| && item.ds != [] && !Packed(t.fields[item.i]) {
      StrippedValueOf(t.fields[item.i].ltype, item.ds[0]);
    }
  }

  lemma SeenItem(newer: LType, older: LType, item: Item)
    requires Extends(newer, older)
    ensures PieceOf(newer, item).i == item.i
    ensures item.i < |older.fields| ==> PieceOf(older, item) == PieceOf(newer, item)
  {
    hide ValueOf;
  }

  lemma {:induction false} KeptItems(newer: LType, older: LType, cells: seq<Cell>, i: nat)
    requires Extends(newer, older) && |cells| == |newer.fields| && i <= |newer.fields|
    ensures Kept(|older.fields|, ItemsFrom(newer.fields, cells, i))
            == ItemsFrom(older.fields, cells[..|older.fields|], i)
    decreases |newer.fields| - i
  {
    hide CellItems;
    var n := |older.fields|;
    if i < |newer.fields| {
      var items, rest := CellItems(i, newer.fields[i], cells[i]), ItemsFrom(newer.fields, cells, i + 1);
      KeptItems(newer, older, cells, i + 1);
      CellItemsAre(i, newer.fields[i], cells[i]);
      KeptConcat(n, items, rest);
      KeptSame(n, items, i);
    }
  }

  lemma CellItemsAre(i: nat, f: Field, c: Cell)
    ensures forall k | 0 <= k < |CellItems(i, f, c)| :: CellItems(i, f, c)[k].i == i
  {
    if c.Many? {
      SinglesAre(i, c.ds);
    }
  }

  lemma {:induction false} SinglesAre(i: nat, ds: seq<Datum>)
    ensures forall k | 0 <= k < |Singles(i, ds)| :: Singles(i, ds)[k].i == i
  {
    if ds != [] {
      SinglesAre(i, ds[1..]);
    }
  }

  lemma {:induction false} KeptConcat(n: nat, a: seq<Item>, b: seq<Item>)
    ensures Kept(n, a + b) == Kept(n, a) + Kept(n, b)
  {
    if a == [] {
      assert a + b == b;
    } else {
      assert (a + b)[0] == a[0] && (a + b)[1..] == a[1..] + b;
      KeptConcat(n, a[1..], b);
    }
  }

  lemma {:induction false} KeptSame(n: nat, items: seq<Item>, i: nat)
    requires forall k | 0 <= k < |items| :: items[k].i == i
    ensures Kept(n, items) == if i < n then items else []
  {
    if items != [] {
      assert forall k | 0 <= k < |items[1..]| :: items[1..][k] == items[k + 1];
      KeptSame(n, items[1..], i);
      assert [items[0]] + items[1..] == items;
    }
  }

  // ----- what the older reader gets -----

  lemma OlderIsSound(newer: LType, older: LType, cells: seq<Cell>)
    requires Extends(newer, older) && Sound(newer, cells)
    ensures |cells| == |newer.fields| && SchemaOk(newer) && SchemaOk(older) && Sound(older, cells[..|older.fields|])
  {
    assert Passes(Shape, newer, Msg(cells));
    forall c: Check | !c.Room?
      ensures Passes(c, older, Msg(cells[..|older.fields|]))
    {
      assert Passes(c, newer, Msg(cells));
      forall i | 0 <= i < |older.fields|
        ensures CellPasses(c, older.fields[i], cells[..|older.fields|][i])
      {
        assert CellPasses(c, newer.fields[i], cells[i]);
      }
    }
  }

  /** The older reader's pieces are those of the fields it has, with the others in between. */
  lemma OlderPieces(newer: LType, older: LType, cells: seq<Cell>)
    requires Extends(newer, older) && Sound(newer, cells) && |MessageBytes(newer, cells)| < TWO_TO_32
    ensures |cells| == |newer.fields| && PiecesOk(newer, MessagePieces(newer, cells))
    ensures var pieces, kept := Seen(newer, |older.fields|, MessagePieces(newer, cells)), cells[..|older.fields|];
            && PiecesOk(older, pieces) && PiecesBytes(older, pieces) == MessageBytes(newer, cells)
            && Stripped(pieces) == MessagePieces(older, kept)
  {
    hide PiecesOk, PiecesBytes, Sound, MessageBytes, Stripped, ItemsFrom, PiecesOf, Seen;
    OlderIsSound(newer, older, cells);
    MessagePiecesAre(newer, cells);
    SeenIsSame(newer, older, MessagePieces(newer, cells));
    StrippedSeen(newer, older, ItemsFrom(newer.fields, cells, 0));
    KeptItems(newer, older, cells, 0);
  }

  lemma {:induction false} KeptIsShorter(newer: LType, older: LType, items: seq<Item>)
    requires Extends(newer, older)
    ensures |ItemsBytes(older, Kept(|older.fields|, items))| <= |ItemsBytes(newer, items)|
  {
    hide Varint, Payload;
    if items != [] {
      KeptIsShorter(newer, older, items[1..]);
      if items[0].i < |older.fields| {
        assert Kept(|older.fields|, items)[1..] == Kept(|older.fields|, items[1..]);
        assert ItemBytes(older, items[0]) == ItemBytes(newer, items[0]);
      } else {
        assert Kept(|older.fields|, items) == Kept(|older.fields|, items[1..]);
      }
    }
  }

  lemma OlderIsShorter(newer: LType, older: LType, cells: seq<Cell>)
    requires Extends(newer, older) && |cells| == |newer.fields|
    ensures |MessageBytes(older, cells[..|older.fields|])| <= |MessageBytes(newer, cells)|
  {
    hide ItemsBytes, ItemsFrom;
    KeptItems(newer, older, cells, 0);
    KeptIsShorter(newer, older, ItemsFrom(newer.fields, cells, 0));
  }

  /** Of a message encoded with the newer schema the older one decodes exactly the fields it has. */
  method ReadOlder(newer: LType, older: LType, cells: seq<Cell>, bufferSize: nat)
    returns (encoded: bool, decoded: bool, back: seq<Cell>)
    requires Extends(newer, older) && Sound(newer, cells) && |MessageBytes(newer, cells)| < TWO_TO_32
    ensures |cells| == |newer.fields|
    ensures encoded <==> |MessageBytes(newer, cells)| <= bufferSize
    ensures decoded <==> encoded && Passes(Room, older, Msg(cells[..|older.fields|]))
    ensures decoded ==> back == cells[..|older.fields|]
  {
    OlderPieces(newer, older, cells);
    OlderIsSound(newer, older, cells);
    OlderIsShorter(newer, older, cells);
    assert Passes(Shape, newer, Msg(cells)) && Passes(Capacity, newer, Msg(cells));
    hide Sound, SchemaOk, Passes, MessageBytes, PiecesBytes, PiecesOk, Stripped, MessagePieces, Seen;
    back := [];
    var out := new OStream.Writing([], bufferSize);
    encoded := EncodeMessage(out, newer, cells);
    if !encoded {
      return false, false, [];
    }
    assert [] + MessageBytes(newer, cells) == MessageBytes(newer, cells) + [];
    decoded, back := FromNewer(older, cells[..|older.fields|], out.out,
      Seen(newer, |older.fields|, MessagePieces(newer, cells)), []);
  }
}
