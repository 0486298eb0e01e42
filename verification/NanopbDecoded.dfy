/** What the decoder keeps of a message on any bytes: every cell stays within its type and its arrays. */
module NanopbDecoded {
  import opened SnapshotReads
  import opened NanopbMessages

  ghost predicate CellDecoded(f: Field, c: Cell) {
    forall k: Check | !k.Filled? :: CellPasses(k, f, c)
  }

  ghost predicate CellsDecoded(fields: seq<Field>, cells: seq<Cell>) {
    |cells| == |fields| && OneChosen(fields, cells) && forall i | 0 <= i < |fields| :: CellDecoded(fields[i], cells[i])
  }

  lemma MessageDecoded(t: LType, cells: seq<Cell>)
    requires t.MessageType?
    ensures Decoded(t, Msg(cells)) <==> CellsDecoded(t.fields, cells)
  {
    if Decoded(t, Msg(cells)) {
      assert Passes(Shape, t, Msg(cells));
      forall i, k: Check | 0 <= i < |t.fields| && !k.Filled?
        ensures CellPasses(k, t.fields[i], cells[i])
      {
        assert Passes(k, t, Msg(cells));
      }
    }
    if CellsDecoded(t.fields, cells) {
      forall k: Check | !k.Filled?
        ensures Passes(k, t, Msg(cells))
      {
        forall i | 0 <= i < |t.fields|
          ensures CellPasses(k, t.fields[i], cells[i])
        {
          assert CellDecoded(t.fields[i], cells[i]);
        }
      }
    }
  }

  ghost predicate AllDecoded(t: LType, ds: seq<Datum>) {
    forall k | 0 <= k < |ds| :: Decoded(t, ds[k])
  }

  predicate Single(r: Rule) {
    r.Required? || r.Singular?
  }

  predicate Optionally(r: Rule) {
    r.Optional? || r.OneOf?
  }

  predicate Array(r: Rule) {
    r.Repeated? || r.FixedCount?
  }

  lemma CellOfOne(f: Field, c: Cell)
    requires Single(f.rule) && c.One? && Decoded(f.ltype, c.d)
    ensures CellDecoded(f, c)
  {
    hide Passes, IsDefault;
  }

  lemma CellOfMaybe(f: Field, c: Cell)
    requires Optionally(f.rule)
    ensures CellDecoded(f, c) <==> c.Maybe? && (c.o.Some? ==> Decoded(f.ltype, c.o.value))
  {
    hide Passes, IsDefault;
    if CellDecoded(f, c) {
      assert CellPasses(Shape, f, c);
      if c.o.Some? {
        forall k: Check | !k.Filled?
          ensures Passes(k, f.ltype, c.o.value)
        {
          assert CellPasses(k, f, c);
        }
      }
    }
  }

  lemma CellOfMany(f: Field, c: Cell)
    requires Array(f.rule)
    ensures CellDecoded(f, c) <==> c.Many? && |c.ds| <= f.rule.max && AllDecoded(f.ltype, c.ds)
  {
    hide Passes, IsDefault;
    if CellDecoded(f, c) {
      assert CellPasses(Capacity, f, c);
      forall i, k: Check | 0 <= i < |c.ds| && !k.Filled?
        ensures Passes(k, f.ltype, c.ds[i])
      {
        assert CellPasses(k, f, c);
      }
    }
  }

  /** The struct the decoder starts from. */
  lemma {:induction false} InitialDecoded(t: LType, initial: Option<Datum>)
    requires SchemaOk(t) && (initial.Some? ==> !t.MessageType? && Decoded(t, initial.value))
    ensures Decoded(t, InitialDatum(t, initial))
    decreases t
  {
    if t.MessageType? {
      var cells := InitialCells(t);
      forall i | 0 <= i < |t.fields|
        ensures CellDecoded(t.fields[i], cells[i])
      {
        var f := t.fields[i];
        assert FieldOk(f) && cells[i] == InitialCell(f);
        if Single(f.rule) {
          InitialDecoded(f.ltype, f.initial);
          CellOfOne(f, cells[i]);
        } else if Optionally(f.rule) {
          CellOfMaybe(f, cells[i]);
        } else {
          CellOfMany(f, cells[i]);
        }
      }
      assert forall i | 0 <= i < |t.fields| :: cells[i] == InitialCell(t.fields[i]);
      MessageDecoded(t, cells);
    } else if initial.None? {
      ZeroDecoded(t);
    }
  }

  lemma ZeroDecoded(t: LType)
    requires SchemaOk(t) && !t.MessageType?
    ensures Decoded(t, Zero(t))
  {
    forall k: Check | !k.Filled?
      ensures LeafPasses(k, t, Zero(t))
    {
    }
  }

  /** What a message holds already is what the decoder may merge into. */
  lemma SingleDecoded(f: Field, c: Cell)
    requires FieldOk(f) && Single(f.rule) && CellDecoded(f, c)
    ensures c.One? && Decoded(f.ltype, c.d)
  {
    assert CellPasses(Shape, f, c);
    if f.rule.Singular? && IsDefault(f.ltype, c.d) {
      DefaultIsInitial(f.ltype, None, c.d);
      InitialDecoded(f.ltype, None);
    } else {
      forall k: Check | !k.Filled?
        ensures Passes(k, f.ltype, c.d)
      {
        assert CellPasses(k, f, c);
      }
    }
  }

  // ----- storing what was decoded -----

  /** The state of pb_decode_noinit on any bytes. */
  ghost predicate StateOk(t: LType, st: Progress)
    requires t.MessageType?
  {
    && CellsDecoded(t.fields, st.cells)
    && (st.fixed.Some? ==>
         && st.fixed.value < |t.fields| && t.fields[st.fixed.value].rule.FixedCount?
         && st.cells[st.fixed.value].Many? && st.received <= |st.cells[st.fixed.value].ds|)
  }

  lemma StoreOne(fields: seq<Field>, cells: seq<Cell>, i: nat, d: Datum)
    requires CellsDecoded(fields, cells) && i < |fields| && Single(fields[i].rule) && Decoded(fields[i].ltype, d)
    ensures CellsDecoded(fields, cells[i := One(d)])
  {
    CellOfOne(fields[i], One(d));
    hide CellDecoded, Decoded;
  }

  lemma StoreMaybe(fields: seq<Field>, cells: seq<Cell>, i: nat, d: Datum)
    requires CellsDecoded(fields, cells) && i < |fields| && fields[i].rule.Optional? && Decoded(fields[i].ltype, d)
    ensures CellsDecoded(fields, cells[i := Maybe(Some(d))])
  {
    CellOfMaybe(fields[i], Maybe(Some(d)));
    hide CellDecoded, Decoded;
  }

  lemma StoreMany(fields: seq<Field>, cells: seq<Cell>, i: nat, ds: seq<Datum>)
    requires CellsDecoded(fields, cells) && i < |fields| && Array(fields[i].rule)
    requires |ds| <= fields[i].rule.max && AllDecoded(fields[i].ltype, ds)
    ensures CellsDecoded(fields, cells[i := Many(ds)])
  {
    CellOfMany(fields[i], Many(ds));
    hide CellDecoded, Decoded;
  }

  /** A oneof member overlays the others, so still only one is set. */
  lemma StoreMember(fields: seq<Field>, cells: seq<Cell>, i: nat, d: Datum)
    requires CellsDecoded(fields, cells) && i < |fields| && fields[i].rule.OneOf? && Decoded(fields[i].ltype, d)
    ensures CellsDecoded(fields, Cleared(fields, cells, fields[i].rule.union)[i := Maybe(Some(d))])
  {
    var u := fields[i].rule.union;
    var r := Cleared(fields, cells, u)[i := Maybe(Some(d))];
    forall k | 0 <= k < |fields|
      ensures CellDecoded(fields[k], r[k])
    {
      if k == i || fields[k].rule == OneOf(u) {
        CellOfMaybe(fields[k], r[k]);
      }
    }
    hide CellDecoded, Decoded;
    forall a, b | 0 <= a < b < |fields| && SameUnion(fields[a], fields[b])
      ensures r[a] == Maybe(None) || r[b] == Maybe(None)
    {
      assert cells[a] == Maybe(None) || cells[b] == Maybe(None);
    }
  }

  lemma OverwrittenDecoded(t: LType, entries: seq<Datum>, at: nat, ds: seq<Datum>, max: nat)
    requires at <= |entries| <= max && at + |ds| <= max && AllDecoded(t, entries) && AllDecoded(t, ds)
    ensures AllDecoded(t, Overwritten(entries, at, ds)) && |Overwritten(entries, at, ds)| <= max
    ensures at + |ds| <= |Overwritten(entries, at, ds)|
  {
    hide Decoded;
  }
}
