/** pb_encode and pb_decode together. */
module NanopbRoundTrip {
  import opened InternalKeys
  import opened SnapshotReads
  import opened Coding
  import opened NanopbMessages
  import opened NanopbEncoder
  import opened NanopbStream
  import opened NanopbDecoded
  import opened NanopbWire
  import opened NanopbDecoder

  /** pb_decode: set to defaults, then decode. */
  method Decode(s: IStream, t: LType, ghost pieces: seq<Piece>, ghost tail: Bytes) returns (ok: bool, cells: seq<Cell>)
    requires s.Valid() && t.MessageType? && SchemaOk(t)
    modifies s
    ensures s.Valid()
    ensures ok ==> Decoded(t, Msg(cells))
    ensures PiecesOk(t, pieces) && TailOk(tail) && old(s.Rest()) == PiecesBytes(t, pieces) + tail ==>
              && (ok <==> Finished(t, Run(t, Start(t), pieces)).Some?)
              && (ok ==> Some(Msg(cells)) == Finished(t, Run(t, Start(t), pieces)))
  {
    InitialDecoded(t, None);
    hide SchemaOk, Decoded, PiecesBytes, PiecesOk, TailOk, Run, Finished;
    ok, cells := DecodeMessage(s, t, InitialCells(t), pieces, tail);
  }

  /** What a newer schema's encoder has added to a message, at any depth, changes nothing of what is decoded. */
  method FromNewer(t: LType, cells: seq<Cell>, bytes: Bytes, ghost pieces: seq<Piece>, ghost tail: Bytes)
    returns (decoded: bool, back: seq<Cell>)
    requires t.MessageType? && Sound(t, cells) && |MessageBytes(t, cells)| < TWO_TO_32
    requires PiecesOk(t, pieces) && TailOk(tail) && bytes == PiecesBytes(t, pieces) + tail
    requires Stripped(pieces) == MessagePieces(t, cells)
    ensures decoded <==> Passes(Room, t, Msg(cells))
    ensures decoded ==> back == cells
  {
    ForeignFieldsAreSkipped(t, cells, pieces);
    assert SchemaOk(t);
    hide Sound, SchemaOk, Passes, MessageBytes, PiecesBytes, PiecesOk, TailOk, Run, Finished, Stripped, MessagePieces;
    var in_ := new IStream(bytes, 0, |bytes|);
    assert in_.Rest() == bytes;
    decoded, back := Decode(in_, t, pieces, tail);
  }

  /** A message goes through a buffer unchanged, if it fits and every string leaves room for its null. */
  method ThroughBuffer(t: LType, cells: seq<Cell>, bufferSize: nat)
    returns (encoded: bool, decoded: bool, back: seq<Cell>)
    requires t.MessageType? && Sound(t, cells) && |MessageBytes(t, cells)| < TWO_TO_32
    ensures encoded <==> |MessageBytes(t, cells)| <= bufferSize
    ensures decoded <==> encoded && Passes(Room, t, Msg(cells))
    ensures decoded ==> back == cells
  {
    assert SchemaOk(t) && Passes(Shape, t, Msg(cells)) && Passes(Capacity, t, Msg(cells));
    hide Sound, SchemaOk, Passes, MessageBytes, PiecesBytes, PiecesOk, Stripped, MessagePieces;
    MessagePiecesAre(t, cells);
    back := [];
    var out := new OStream.Writing([], bufferSize);
    encoded := EncodeMessage(out, t, cells);
    if !encoded {
      return false, false, [];
    }
    assert [] + MessageBytes(t, cells) == MessageBytes(t, cells) + [];
    decoded, back := FromNewer(t, cells, out.out, MessagePieces(t, cells), []);
  }

  const NAME: LType := MessageType([Field(1, StringType(1), Required, None)])

  /** A string that fills its array is encoded, but never decoded. */
  lemma FullStringIsRefused()
    ensures Sound(NAME, [One(Blob([65]))]) && !Passes(Room, NAME, Msg([One(Blob([65]))]))
  {
    var d := Msg([One(Blob([65]))]);
    assert FieldOk(NAME.fields[0]);
    forall c: Check | !c.Room?
      ensures Passes(c, NAME, d)
    {
      assert CellPasses(c, NAME.fields[0], d.cells[0]);
    }
    assert !CellPasses(Room, NAME.fields[0], d.cells[0]);
  }
}
