/** The items of a message, applied in order to a fresh message, rebuild it. */
module NanopbItems {
  import opened SnapshotReads
  import opened NanopbMessages

  lemma SoundCell(t: LType, want: seq<Cell>, i: nat)
    requires t.MessageType? && Sound(t, want) && i < |t.fields|
    ensures |want| == |t.fields| && FieldOk(t.fields[i])
    ensures forall c: Check | !c.Room? :: CellPasses(c, t.fields[i], want[i])
    ensures OneChosen(t.fields, want)
  {
    assert Passes(Shape, t, Msg(want));
    forall c: Check | !c.Room?
      ensures CellPasses(c, t.fields[i], want[i])
    {
      assert Passes(c, t, Msg(want));
    }
  }

  /** What a sound cell looks like, by the rule of its field. */
  lemma SoundCellShape(t: LType, want: seq<Cell>, i: nat)
    requires t.MessageType? && Sound(t, want) && i < |t.fields|
    ensures |want| == |t.fields|
    ensures t.fields[i].rule.Required? || t.fields[i].rule.Singular? ==> want[i].One?
    ensures t.fields[i].rule.Optional? || t.fields[i].rule.OneOf? ==> want[i].Maybe?
    ensures t.fields[i].rule.Repeated? ==> want[i].Many? && |want[i].ds| <= t.fields[i].rule.max
    ensures t.fields[i].rule.FixedCount? ==> want[i].Many? && |want[i].ds| == t.fields[i].rule.max
    ensures t.fields[i].rule.Singular? && IsDefault(t.fields[i].ltype, want[i].d) ==>
            want[i] == InitialCell(t.fields[i])
  {
    var f := t.fields[i];
    SoundCell(t, want, i);
    assert CellPasses(Shape, f, want[i]) && CellPasses(Capacity, f, want[i]) && CellPasses(Filled, f, want[i]);
    if f.rule.Singular? && IsDefault(f.ltype, want[i].d) {
      DefaultIsInitial(f.ltype, f.initial, want[i].d);
    }
  }

  /** A set oneof member finds the others unset. */
  lemma NothingToClear(t: LType, want: seq<Cell>, i: nat, st: Progress)
    requires t.MessageType? && |want| == |t.fields| && OneChosen(t.fields, want)
    requires i < |t.fields| && At(t, want, i, st) && t.fields[i].rule.OneOf? && want[i] != Maybe(None)
    ensures Cleared(t.fields, st.cells, t.fields[i].rule.union) == st.cells
  {
    var u := t.fields[i].rule.union;
    var r := Cleared(t.fields, st.cells, u);
    forall k | 0 <= k < |r|
      ensures r[k] == st.cells[k]
    {
      if t.fields[k].rule == OneOf(u) && k < i {
        assert SameUnion(t.fields[k], t.fields[i]);
      }
    }
  }

  lemma ChainStep(t: LType, st: Progress, item: Item, rest: seq<Item>, want: seq<Cell>)
    requires t.MessageType? && Applies(t, st, item) && Chain(t, Apply(t, st, item), rest, want)
    ensures Chain(t, st, [item] + rest, want)
  {
    hide Applies, Apply;
    assert ([item] + rest)[1..] == rest;
  }

  /** Field i holds at most one item. */
  lemma OneItem(t: LType, want: seq<Cell>, i: nat, st: Progress)
    requires t.MessageType? && Sound(t, want) && i < |t.fields| && |want| == |t.fields| && At(t, want, i, st)
    requires !want[i].Many? || Packed(t.fields[i])
    ensures var items := CellItems(i, t.fields[i], want[i]);
            || (items == [] && At(t, want, i + 1, st))
            || (|items| == 1 && Applies(t, st, items[0]) && At(t, want, i + 1, Apply(t, st, items[0])))
  {
    hide Sound, IsDefault, InitialDatum;
    SoundCellShape(t, want, i);
    SoundCell(t, want, i);
    hide SchemaOk, FieldOk, OneChosen, CellPasses;
    var f, items := t.fields[i], CellItems(i, t.fields[i], want[i]);
    assert RequiredBefore(t.fields, i + 1) == RequiredBefore(t.fields, i) + if f.rule.Required? then 1 else 0;
    if items != [] {
      if f.rule.OneOf? {
        NothingToClear(t, want, i, st);
      }
      if want[i].Many? {
        assert [] + want[i].ds == want[i].ds;
      }
    }
  }

  /** The state once the fields below i and the first j entries of array i have been received. */
  ghost predicate AtEntry(t: LType, want: seq<Cell>, i: nat, j: nat, st: Progress)
    requires t.MessageType? && |want| == |t.fields|
  {
    && i < |t.fields| && want[i].Many? && j <= |want[i].ds|
    && |st.cells| == |t.fields|
    && (forall k | 0 <= k < i :: st.cells[k] == want[k])
    && (forall k | i < k < |t.fields| :: st.cells[k] == InitialCell(t.fields[k]))
    && st.cells[i] == Many(want[i].ds[..j])
    && (forall r: nat | r < RequiredBefore(t.fields, i) && r < MAX_REQUIRED :: r in st.seen)
    && if t.fields[i].rule.FixedCount? && 0 < j then st.fixed == Some(i) && st.received == j
       else FixedDone(t.fields, st) && (st.fixed.Some? ==> st.fixed.value < i)
  }

  lemma NextEntry(t: LType, want: seq<Cell>, i: nat, j: nat, st: Progress)
    requires t.MessageType? && |want| == |t.fields| && AtEntry(t, want, i, j, st) && j < |want[i].ds|
    requires t.fields[i].rule.Repeated? || t.fields[i].rule.FixedCount?
    requires |want[i].ds| <= t.fields[i].rule.max
    ensures Applies(t, st, Item(i, [want[i].ds[j]]))
    ensures AtEntry(t, want, i, j + 1, Apply(t, st, Item(i, [want[i].ds[j]])))
  {
    assert want[i].ds[..j] + [want[i].ds[j]] == want[i].ds[..j + 1];
  }

  lemma Regroup(a: seq<Item>, b: seq<Item>, c: seq<Item>)
    ensures a + b + c == a + (b + c) && [] + c == c
  {
  }

  lemma SinglesStep(i: nat, ds: seq<Datum>, j: nat)
    requires j <= |ds|
    ensures j == |ds| ==> Singles(i, ds[j..]) == []
    ensures j < |ds| ==> Singles(i, ds[j..]) == [Item(i, [ds[j]])] + Singles(i, ds[j + 1..])
  {
    if j < |ds| {
      assert ds[j..][1..] == ds[j + 1..];
    }
  }

  lemma {:induction false} FromEntry(t: LType, want: seq<Cell>, i: nat, j: nat, st: Progress)
    requires t.MessageType? && Sound(t, want) && |want| == |t.fields| && AtEntry(t, want, i, j, st)
    ensures Chain(t, st, Singles(i, want[i].ds[j..]) + ItemsFrom(t.fields, want, i + 1), want)
    decreases |t.fields| - i, 1 + |want[i].ds| - j
  {
    EntryRange(t, want, i, j, st);
    SinglesStep(i, want[i].ds, j);
    hide Sound, AtEntry, Applies, Apply, Chain, Singles, ItemsFrom, RequiredBefore, InitialCell, At, FixedDone;
    var rest := ItemsFrom(t.fields, want, i + 1);
    if j == |want[i].ds| {
      Regroup([], [], rest);
      FromAt(t, want, i + 1, st);
    } else {
      var item := Item(i, [want[i].ds[j]]);
      NextEntry(t, want, i, j, st);
      FromEntry(t, want, i, j + 1, Apply(t, st, item));
      ChainStep(t, st, item, Singles(i, want[i].ds[j + 1..]) + rest, want);
      Regroup([item], Singles(i, want[i].ds[j + 1..]), rest);
    }
  }

  lemma EntryRange(t: LType, want: seq<Cell>, i: nat, j: nat, st: Progress)
    requires t.MessageType? && Sound(t, want) && |want| == |t.fields| && AtEntry(t, want, i, j, st)
    ensures i < |t.fields| && want[i].Many? && j <= |want[i].ds|
    ensures t.fields[i].rule.Repeated? || t.fields[i].rule.FixedCount?
    ensures |want[i].ds| <= t.fields[i].rule.max
    ensures j == |want[i].ds| ==> At(t, want, i + 1, st)
  {
    SoundCellShape(t, want, i);
    hide Sound, IsDefault;
    assert want[i].ds[..|want[i].ds|] == want[i].ds;
    assert RequiredBefore(t.fields, i + 1) == RequiredBefore(t.fields, i) + if t.fields[i].rule.Required? then 1 else 0;
  }

  lemma AtIsEntry(t: LType, want: seq<Cell>, i: nat, st: Progress)
    requires t.MessageType? && |want| == |t.fields| && i < |t.fields| && At(t, want, i, st)
    requires want[i].Many? && (t.fields[i].rule.Repeated? || t.fields[i].rule.FixedCount?)
    ensures AtEntry(t, want, i, 0, st)
  {
  }

  lemma {:induction false} FromAt(t: LType, want: seq<Cell>, i: nat, st: Progress)
    requires t.MessageType? && Sound(t, want) && |want| == |t.fields| && At(t, want, i, st)
    ensures Chain(t, st, ItemsFrom(t.fields, want, i), want)
    decreases |t.fields| - i + 1, 0
  {
    hide Sound, At, Applies, Apply, CellItems, RequiredBefore, FixedDone;
    if i >= |t.fields| {
      AllReceived(t, want, i, st);
      return;
    }
    var f, rest := t.fields[i], ItemsFrom(t.fields, want, i + 1);
    var items := CellItems(i, f, want[i]);
    SoundCellShape(t, want, i);
    if want[i].Many? && !Packed(f) {
      AtIsEntry(t, want, i, st);
      FromEntry(t, want, i, 0, st);
      assert want[i].ds[0..] == want[i].ds;
      ManyItems(i, f, want[i]);
    } else {
      OneItem(t, want, i, st);
      if items == [] {
        FromAt(t, want, i + 1, st);
        assert items + rest == rest;
      } else {
        FromAt(t, want, i + 1, Apply(t, st, items[0]));
        ChainStep(t, st, items[0], rest, want);
        assert items == [items[0]];
      }
    }
  }

  lemma ManyItems(i: nat, f: Field, c: Cell)
    requires c.Many? && !Packed(f)
    ensures CellItems(i, f, c) == Singles(i, c.ds)
  {
  }

  lemma AllReceived(t: LType, want: seq<Cell>, i: nat, st: Progress)
    requires t.MessageType? && |want| == |t.fields| && At(t, want, i, st) && i >= |t.fields|
    ensures Chain(t, st, ItemsFrom(t.fields, want, i), want)
  {
    assert st.cells == want;
  }

  /** The decoder's effect on the items of a message is the message. */
  lemma ItemsRebuild(t: LType, want: seq<Cell>)
    requires t.MessageType? && Sound(t, want)
    ensures Chain(t, Start(t), ItemsFrom(t.fields, want, 0), want)
  {
    assert Passes(Shape, t, Msg(want));
    StartIsAt(t, want);
    FromAt(t, want, 0, Start(t));
  }

  // ----- what holds of every datum on the wire -----

  ghost predicate SoundData(t: LType, ds: seq<Datum>) {
    forall k | 0 <= k < |ds| :: SoundDatum(t, ds[k])
  }

  predicate DataHaveRoom(t: LType, ds: seq<Datum>) {
    forall k | 0 <= k < |ds| :: Passes(Room, t, ds[k])
  }

  ghost predicate SoundItems(t: LType, items: seq<Item>)
    requires t.MessageType?
  {
    forall k | 0 <= k < |items| :: items[k].i < |t.fields| && SoundData(t.fields[items[k].i].ltype, items[k].ds)
  }

  predicate ItemHasRoom(t: LType, item: Item)
    requires t.MessageType?
  {
    item.i < |t.fields| && DataHaveRoom(t.fields[item.i].ltype, item.ds)
  }

  predicate ItemsHaveRoom(t: LType, items: seq<Item>)
    requires t.MessageType?
  {
    forall k | 0 <= k < |items| :: ItemHasRoom(t, items[k])
  }

  lemma {:induction false} SinglesData(t: LType, i: nat, ds: seq<Datum>)
    requires t.MessageType? && i < |t.fields|
    ensures SoundData(t.fields[i].ltype, ds) ==> SoundItems(t, Singles(i, ds))
    ensures ItemsHaveRoom(t, Singles(i, ds)) <==> DataHaveRoom(t.fields[i].ltype, ds)
  {
    hide SoundDatum, Passes;
    var ty, items := t.fields[i].ltype, Singles(i, ds);
    if ds != [] {
      var first, rest := Item(i, [ds[0]]), Singles(i, ds[1..]);
      SinglesData(t, i, ds[1..]);
      assert items == [first] + rest;
      assert SoundData(ty, ds) ==> SoundData(ty, ds[1..]);
      RoomSplits(t, first, rest);
      assert [ds[0]] + ds[1..] == ds;
      assert DataHaveRoom(ty, ds) <==> DataHaveRoom(ty, [ds[0]]) && DataHaveRoom(ty, ds[1..]) by {
        DataRoomSplits(ty, [ds[0]], ds[1..]);
      }
    }
  }

  lemma DataRoomSplits(ty: LType, a: seq<Datum>, b: seq<Datum>)
    ensures DataHaveRoom(ty, a + b) <==> DataHaveRoom(ty, a) && DataHaveRoom(ty, b)
  {
    hide Passes;
    if DataHaveRoom(ty, a + b) {
      forall k | 0 <= k < |a|
        ensures Passes(Room, ty, a[k])
      {
        assert (a + b)[k] == a[k];
      }
      forall k | 0 <= k < |b|
        ensures Passes(Room, ty, b[k])
      {
        assert (a + b)[|a| + k] == b[k];
      }
    }
  }

  lemma RoomSplits(t: LType, first: Item, rest: seq<Item>)
    requires t.MessageType?
    ensures ItemsHaveRoom(t, [first] + rest) <==> ItemHasRoom(t, first) && ItemsHaveRoom(t, rest)
  {
    RoomConcat(t, [first], rest);
    assert [first][0] == first;
  }

  lemma RoomConcat(t: LType, a: seq<Item>, b: seq<Item>)
    requires t.MessageType?
    ensures ItemsHaveRoom(t, a + b) <==> ItemsHaveRoom(t, a) && ItemsHaveRoom(t, b)
  {
    hide ItemHasRoom;
    if ItemsHaveRoom(t, a + b) {
      forall k | 0 <= k < |a|
        ensures ItemHasRoom(t, a[k])
      {
        assert (a + b)[k] == a[k];
      }
      forall k | 0 <= k < |b|
        ensures ItemHasRoom(t, b[k])
      {
        assert (a + b)[|a| + k] == b[k];
      }
    }
  }

  lemma CellData(t: LType, want: seq<Cell>, i: nat)
    requires t.MessageType? && Sound(t, want) && i < |t.fields| && |want| == |t.fields|
    ensures SoundItems(t, CellItems(i, t.fields[i], want[i]))
    ensures ItemsHaveRoom(t, CellItems(i, t.fields[i], want[i])) <==> CellPasses(Room, t.fields[i], want[i])
  {
    var f := t.fields[i];
    SoundCellShape(t, want, i);
    SoundCell(t, want, i);
    hide Sound, Passes, SchemaOk;
    assert forall c: Check | !c.Room? :: CellPasses(c, f, want[i]);
    if want[i].Many? {
      SinglesData(t, i, want[i].ds);
      OneItemData(t, Item(i, want[i].ds));
    } else {
      var d := if want[i].One? then want[i].d else if want[i].o.Some? then want[i].o.value else Num(0);
      OneItemData(t, Item(i, [d]));
      assert DataHaveRoom(f.ltype, [d]) <==> Passes(Room, f.ltype, [d][0]);
    }
  }

  lemma OneItemData(t: LType, item: Item)
    requires t.MessageType? && item.i < |t.fields|
    ensures SoundItems(t, [item]) <==> SoundData(t.fields[item.i].ltype, item.ds)
    ensures ItemsHaveRoom(t, [item]) <==> DataHaveRoom(t.fields[item.i].ltype, item.ds)
  {
    hide SoundData, DataHaveRoom;
    assert [item][0] == item;
  }

  lemma {:induction false} WireData(t: LType, want: seq<Cell>, i: nat)
    requires t.MessageType? && Sound(t, want) && i <= |t.fields| && |want| == |t.fields|
    ensures var items := ItemsFrom(t.fields, want, i);
            && SoundItems(t, items)
            && (ItemsHaveRoom(t, items) <==> forall k | i <= k < |t.fields| :: CellPasses(Room, t.fields[k], want[k]))
    decreases |t.fields| - i
  {
    hide Sound, ItemHasRoom, CellItems, CellPasses, SoundData;
    if i < |t.fields| {
      CellData(t, want, i);
      WireData(t, want, i + 1);
      RoomConcat(t, CellItems(i, t.fields[i], want[i]), ItemsFrom(t.fields, want, i + 1));
    }
  }

  /** Everything a sound message puts on the wire is sound; it has room if and only if the message has. */
  lemma MessageData(t: LType, want: seq<Cell>)
    requires t.MessageType? && Sound(t, want)
    ensures var items := ItemsFrom(t.fields, want, 0);
            SoundItems(t, items) && (ItemsHaveRoom(t, items) <==> Passes(Room, t, Msg(want)))
  {
    assert Passes(Shape, t, Msg(want));
    WireData(t, want, 0);
  }
}
