/** Schemas, message values and their wire form (pb.h, and what pb_encode.c and pb_decode.c agree on).

    A message is a value typed by its schema. The wire form is a list of items, each naming a field and carrying
    one value, or all values of a packed array; the decoder's effect is one step per item. */
module NanopbMessages {
  import opened InternalKeys
  import opened SnapshotReads
  import opened Coding

  const WT_VARINT: nat := 0
  const WT_64BIT: nat := 1
  const WT_STRING: nat := 2
  const WT_32BIT: nat := 5

  /** PB_MAX_REQUIRED_FIELDS. */
  const MAX_REQUIRED: nat := 64

  /** Offset of the bytes in pb_bytes_array_t with PB_FIELD_32BIT: behind a 32-bit size. */
  const BYTES_OFFSET: nat := 4

  type Width = w: nat | w == 1 || w == 2 || w == 4 || w == 8 witness 1

  /** PB_LTYPE: what a field holds, with data_size. */
  datatype LType =
    | BoolType
    | IntType(size: Width)
    | UintType(size: Width)
    | SintType(size: Width)
    | Fixed32Type
    | Fixed64Type
    | BytesType(capacity: Word)
    | StringType(capacity: Word)
    | MessageType(fields: seq<Field>)
    | FixedBytesType(length: Word)

  /** PB_HTYPE: `Singular` is an optional field without has_, `FixedCount` a repeated one without _count, and the
      members of a oneof share the number of their which_ variable. */
  datatype Rule = Required | Optional | Singular | Repeated(max: Word) | FixedCount(max: Word) | OneOf(union: nat)

  datatype Field = Field(tag: Word, ltype: LType, rule: Rule, initial: Option<Datum>)

  datatype Datum = Num(n: int) | Blob(bytes: Bytes) | Msg(cells: seq<Cell>)

  /** The part of the message struct that belongs to a field: unset optional fields and members have no datum. */
  datatype Cell = One(d: Datum) | Maybe(o: Option<Datum>) | Many(ds: seq<Datum>)

  // ----- numbers -----

  function Half(w: Width): int {
    if w == 1 then 0x80 else if w == 2 then 0x8000 else if w == 4 then 0x8000_0000 else 0x8000_0000_0000_0000
  }

  predicate Packable(t: LType) {
    t.BoolType? || t.IntType? || t.UintType? || t.SintType? || t.Fixed32Type? || t.Fixed64Type?
  }

  predicate Packed(f: Field) {
    (f.rule.Repeated? || f.rule.FixedCount?) && Packable(f.ltype)
  }

  function ZigZag(n: int): nat {
    if n < 0 then -2 * n - 1 else 2 * n
  }

  function NumberBytes(t: LType, n: int): Bytes {
    match t
    case BoolType => Varint(if n != 0 then 1 else 0)
    case IntType(_) => Varint(n % TWO_TO_64)
    case UintType(_) => Varint(n % TWO_TO_64)
    case SintType(_) => Varint(ZigZag(n) % TWO_TO_64)
    case Fixed32Type => EncodeFixed32(n % TWO_TO_32)
    case Fixed64Type => EncodeFixed64(n % TWO_TO_64)
    case _ => []
  }

  // ----- the wire form -----

  function WireType(t: LType): nat {
    match t
    case Fixed32Type => WT_32BIT
    case Fixed64Type => WT_64BIT
    case BytesType(_) => WT_STRING
    case StringType(_) => WT_STRING
    case MessageType(_) => WT_STRING
    case FixedBytesType(_) => WT_STRING
    case _ => WT_VARINT
  }

  function FieldWireType(f: Field): nat {
    if Packed(f) then WT_STRING else WireType(f.ltype)
  }

  datatype Item = Item(i: nat, ds: seq<Datum>)

  function Singles(i: nat, ds: seq<Datum>): seq<Item> {
    if ds == [] then [] else [Item(i, [ds[0]])] + Singles(i, ds[1..])
  }

  function OptionItems(i: nat, o: Option<Datum>): seq<Item> {
    if o.Some? then [Item(i, [o.value])] else []
  }

  /** The items of field i. */
  function CellItems(i: nat, f: Field, c: Cell): seq<Item> {
    match c
    case One(d) => if f.rule.Singular? && IsDefault(f.ltype, d) then [] else [Item(i, [d])]
    case Maybe(o) => OptionItems(i, o)
    case Many(ds) => if !Packed(f) then Singles(i, ds) else if ds == [] then [] else [Item(i, ds)]
  }

  function ItemsFrom(fields: seq<Field>, cells: seq<Cell>, i: nat): seq<Item>
    decreases |fields| - i
  {
    if i >= |fields| || i >= |cells| then []
    else CellItems(i, fields[i], cells[i]) + ItemsFrom(fields, cells, i + 1)
  }

  function DatumBytes(t: LType, d: Datum): Bytes
    decreases t, 2, 0
  {
    match d
    case Num(n) => NumberBytes(t, n)
    case Blob(b) => LengthPrefixed(b)
    case Msg(cells) => if t.MessageType? then LengthPrefixed(MessageBytes(t, cells)) else []
  }

  function MessageBytes(t: LType, cells: seq<Cell>): Bytes
    requires t.MessageType?
    decreases t, 1, 0
  {
    ItemsBytes(t, ItemsFrom(t.fields, cells, 0))
  }

  function ItemsBytes(t: LType, items: seq<Item>): Bytes
    requires t.MessageType?
    decreases t, 0, |items|
  {
    if items == [] then [] else ItemBytes(t, items[0]) + ItemsBytes(t, items[1..])
  }

  function ItemBytes(t: LType, item: Item): Bytes
    requires t.MessageType?
    decreases t, 0, 0
  {
    if item.i >= |t.fields| then []
    else Varint(t.fields[item.i].tag * 8 + FieldWireType(t.fields[item.i])) + Payload(t.fields[item.i], item.ds)
  }

  function Payload(f: Field, ds: seq<Datum>): Bytes
    decreases f.ltype, 4, 0
  {
    if Packed(f) then LengthPrefixed(DataBytes(f.ltype, ds)) else DataBytes(f.ltype, ds)
  }

  function DataBytes(t: LType, ds: seq<Datum>): Bytes
    decreases t, 3, |ds|
  {
    if ds == [] then [] else DatumBytes(t, ds[0]) + DataBytes(t, ds[1..])
  }

  lemma {:induction false} ItemsBytesConcat(t: LType, a: seq<Item>, b: seq<Item>)
    requires t.MessageType?
    ensures ItemsBytes(t, a + b) == ItemsBytes(t, a) + ItemsBytes(t, b)
  {
    hide ItemBytes;
    if a == [] {
      assert a + b == b;
    } else {
      assert (a + b)[0] == a[0] && (a + b)[1..] == a[1..] + b;
      ItemsBytesConcat(t, a[1..], b);
    }
  }

  // ----- default and initial values -----

  /** pb_check_proto3_default_value of a field without has_: it stays off the wire. */
  predicate IsDefault(t: LType, d: Datum)
    decreases t
  {
    match t
    case BytesType(_) => d.Blob? && d.bytes == []
    case StringType(_) => d.Blob? && d.bytes == []
    case FixedBytesType(n) => n == 0
    case MessageType(fields) =>
      && d.Msg? && |d.cells| == |fields|
      && forall i | 0 <= i < |fields| :: CellIsDefault(fields[i], d.cells[i])
    case _ => d == Num(0)
  }

  predicate CellIsDefault(f: Field, c: Cell)
    decreases f
  {
    match f.rule
    case Required => false
    case Repeated(_) => c == Many([])
    case FixedCount(_) => false
    case OneOf(_) => c == Maybe(None)
    case Optional => c == Maybe(None)
    case Singular => c.One? && IsDefault(f.ltype, c.d)
  }

  function Zero(t: LType): Datum {
    match t
    case BytesType(_) => Blob([])
    case StringType(_) => Blob([])
    case FixedBytesType(n) => Blob(seq(n, _ => 0))
    case _ => Num(0)
  }

  /** pb_field_set_to_default on the data of a field. */
  function InitialDatum(t: LType, initial: Option<Datum>): Datum
    decreases t, 1
  {
    if t.MessageType? then Msg(InitialCells(t)) else if initial.Some? then initial.value else Zero(t)
  }

  /** pb_message_set_to_defaults. */
  function InitialCells(t: LType): (cells: seq<Cell>)
    requires t.MessageType?
    ensures |cells| == |t.fields|
    decreases t, 0
  {
    seq(|t.fields|, i requires 0 <= i < |t.fields| => InitialCell(t.fields[i]))
  }

  function InitialCell(f: Field): Cell
    decreases f.ltype, 2
  {
    match f.rule
    case Required => One(InitialDatum(f.ltype, f.initial))
    case Singular => One(InitialDatum(f.ltype, f.initial))
    case Optional => Maybe(None)
    case OneOf(_) => Maybe(None)
    case Repeated(_) => Many([])
    case FixedCount(_) => Many([])
  }

  // ----- what a message must satisfy -----

  /** Shape: of the schema's type, as any struct is. Capacity: within its arrays. Filled: with all entries of the
      fixed-count arrays, as any struct is that was not just decoded. Room: every string leaves room for its null. */
  datatype Check = Shape | Capacity | Filled | Room

  predicate RightKind(t: LType, d: Datum) {
    if t.MessageType? then d.Msg? else if Packable(t) then d.Num? else d.Blob?
  }

  predicate InRange(t: LType, d: Datum)
    requires RightKind(t, d)
  {
    match t
    case BoolType => d.n == 0 || d.n == 1
    case IntType(w) => -Half(w) <= d.n < Half(w)
    case SintType(w) => -Half(w) <= d.n < Half(w)
    case UintType(w) => 0 <= d.n < 2 * Half(w)
    case Fixed32Type => 0 <= d.n < TWO_TO_32
    case Fixed64Type => 0 <= d.n < TWO_TO_64
    case BytesType(_) => true
    case StringType(size) => |d.bytes| <= size && 0 !in d.bytes
    case FixedBytesType(n) => |d.bytes| == n
    case MessageType(_) => true
  }

  predicate LeafPasses(c: Check, t: LType, d: Datum) {
    && RightKind(t, d)
    && (c.Shape? ==> InRange(t, d))
    && (c.Capacity? && t.BytesType? ==> BYTES_OFFSET + |d.bytes| <= t.capacity)
    && (c.Room? && t.StringType? ==> |d.bytes| < t.capacity)
  }

  predicate SameUnion(f: Field, g: Field) {
    f.rule.OneOf? && f.rule == g.rule
  }

  /** The members of a oneof share their memory: at most one is set. */
  predicate OneChosen(fields: seq<Field>, cells: seq<Cell>)
    requires |cells| == |fields|
  {
    forall i, j | 0 <= i < j < |fields| && SameUnion(fields[i], fields[j]) :: cells[i] == Maybe(None)
        || cells[j] == Maybe(None)
  }

  predicate Passes(c: Check, t: LType, d: Datum)
    decreases t
  {
    match t
    case MessageType(fields) =>
      && d.Msg? && |d.cells| == |fields|
      && (c.Shape? ==> OneChosen(fields, d.cells))
      && forall i | 0 <= i < |fields| :: CellPasses(c, fields[i], d.cells[i])
    case _ => LeafPasses(c, t, d)
  }

  predicate CellPasses(c: Check, f: Field, cell: Cell)
    decreases f
  {
    match f.rule
    case Required => cell.One? && Passes(c, f.ltype, cell.d)
    case Singular => cell.One? && ((!c.Shape? && IsDefault(f.ltype, cell.d)) || Passes(c, f.ltype, cell.d))
    case Optional => cell.Maybe? && (cell.o.Some? ==> Passes(c, f.ltype, cell.o.value))
    case OneOf(_) => cell.Maybe? && (cell.o.Some? ==> Passes(c, f.ltype, cell.o.value))
    case Repeated(max) =>
      && cell.Many? && (c.Capacity? ==> |cell.ds| <= max)
      && forall k | 0 <= k < |cell.ds| :: Passes(c, f.ltype, cell.ds[k])
    case FixedCount(max) =>
      && cell.Many? && (c.Capacity? ==> |cell.ds| <= max) && (c.Filled? ==> |cell.ds| == max)
      && forall k | 0 <= k < |cell.ds| :: Passes(c, f.ltype, cell.ds[k])
  }

  /** What a decoder gives back. */
  ghost predicate Decoded(t: LType, d: Datum) {
    forall c: Check | !c.Filled? :: Passes(c, t, d)
  }

  /** What the generator of schemas ensures: distinct field numbers below 2^29, arrays that hold an empty string, no
      default for fields without has_. */
  ghost predicate SchemaOk(t: LType)
    decreases t
  {
    match t
    case MessageType(fields) =>
      && (forall i | 0 <= i < |fields| :: FieldOk(fields[i]))
      && (forall i, j | 0 <= i < j < |fields| :: fields[i].tag != fields[j].tag)
    case BytesType(capacity) => BYTES_OFFSET <= capacity
    case StringType(capacity) => 0 < capacity
    case _ => true
  }

  ghost predicate FieldOk(f: Field)
    decreases f
  {
    && 0 < f.tag < 0x2000_0000
    && (f.rule.Singular? ==> f.initial.None?)
    && (f.initial.Some? ==> !f.ltype.MessageType? && Decoded(f.ltype, f.initial.value))
    && SchemaOk(f.ltype)
  }

  /** What stays off the wire is what the decoder starts from. */
  lemma {:induction false} DefaultIsInitial(t: LType, initial: Option<Datum>, d: Datum)
    requires SchemaOk(t) && initial.None? && Passes(Shape, t, d) && IsDefault(t, d)
    ensures d == InitialDatum(t, initial)
    decreases t
  {
    if t.MessageType? {
      forall i | 0 <= i < |t.fields|
        ensures d.cells[i] == InitialCells(t)[i]
      {
        var f := t.fields[i];
        assert FieldOk(f) && CellIsDefault(f, d.cells[i]) && CellPasses(Shape, f, d.cells[i]);
        if f.rule.Singular? {
          DefaultIsInitial(f.ltype, f.initial, d.cells[i].d);
        }
      }
      assert d.cells == InitialCells(t);
    }
  }

  /** Nothing inside that is always sent, or that has no empty value. */
  predicate LeavesInitialOff(t: LType)
    decreases t
  {
    match t
    case FixedBytesType(n) => n == 0
    case MessageType(fields) => forall i | 0 <= i < |fields| :: FieldLeavesInitialOff(fields[i])
    case _ => true
  }

  predicate FieldLeavesInitialOff(f: Field)
    decreases f
  {
    !f.rule.Required? && !f.rule.FixedCount? && (f.rule.Singular? ==> LeavesInitialOff(f.ltype))
  }

  /** Such a type's value stays off the wire when the decoder starts from it. */
  lemma {:induction false} InitialIsDefault(t: LType)
    requires SchemaOk(t) && LeavesInitialOff(t)
    ensures IsDefault(t, InitialDatum(t, None))
    decreases t
  {
    if t.MessageType? {
      forall i | 0 <= i < |t.fields|
        ensures CellIsDefault(t.fields[i], InitialCells(t)[i])
      {
        var f := t.fields[i];
        assert FieldOk(f) && FieldLeavesInitialOff(f);
        if f.rule.Singular? {
          InitialIsDefault(f.ltype);
        }
      }
    }
  }

  lemma {:induction false} DefaultLeavesOff(t: LType, d: Datum)
    requires IsDefault(t, d)
    ensures LeavesInitialOff(t)
    decreases t
  {
    if t.MessageType? {
      forall i | 0 <= i < |t.fields|
        ensures FieldLeavesInitialOff(t.fields[i])
      {
        assert CellIsDefault(t.fields[i], d.cells[i]);
        if t.fields[i].rule.Singular? {
          DefaultLeavesOff(t.fields[i].ltype, d.cells[i].d);
        }
      }
    }
  }

  /** The test for staying off the wire, exactly. */
  lemma DefaultIff(t: LType, d: Datum)
    requires SchemaOk(t) && Passes(Shape, t, d)
    ensures IsDefault(t, d) <==> LeavesInitialOff(t) && d == InitialDatum(t, None)
  {
    hide SchemaOk, IsDefault, Passes, LeavesInitialOff, InitialDatum;
    if IsDefault(t, d) {
      DefaultIsInitial(t, None, d);
      DefaultLeavesOff(t, d);
    }
    if LeavesInitialOff(t) {
      InitialIsDefault(t);
    }
  }

  /** The fields that put an initial value on the wire: required ones, and those without has_ whose value cannot
      be left off. */
  predicate SendsInitial(f: Field) {
    f.rule.Required? || (f.rule.Singular? && !LeavesInitialOff(f.ltype))
  }

  lemma InitialCellItems(f: Field, i: nat)
    requires FieldOk(f)
    ensures CellItems(i, f, InitialCell(f)) ==
            if SendsInitial(f) then [Item(i, [InitialDatum(f.ltype, f.initial)])] else []
  {
    if f.rule.Singular? {
      if LeavesInitialOff(f.ltype) {
        InitialIsDefault(f.ltype);
      } else if IsDefault(f.ltype, InitialDatum(f.ltype, None)) {
        DefaultLeavesOff(f.ltype, InitialDatum(f.ltype, None));
      }
    }
  }

  lemma {:induction false} InitialItems(t: LType, i: nat)
    requires t.MessageType? && SchemaOk(t) && i <= |t.fields|
    ensures ItemsBytes(t, ItemsFrom(t.fields, InitialCells(t), i)) == [] <==>
            forall k | i <= k < |t.fields| :: !SendsInitial(t.fields[k])
    decreases |t.fields| - i
  {
    hide CellItems, InitialDatum, SendsInitial, LeavesInitialOff, Payload, WireType, Packed;
    if i < |t.fields| {
      var f, cells := t.fields[i], InitialCells(t);
      assert FieldOk(f);
      InitialCellItems(f, i);
      hide FieldOk, InitialCell;
      InitialItems(t, i + 1);
      var items := CellItems(i, f, cells[i]);
      ItemsBytesConcat(t, items, ItemsFrom(t.fields, cells, i + 1));
      if SendsInitial(f) {
        assert items[0].i == i && |Varint(f.tag * 8 + FieldWireType(f))| > 0;
        assert |ItemBytes(t, items[0])| > 0;
      }
    }
  }

  /** A message as the decoder starts from takes no bytes, unless a field sends its initial value. */
  lemma InitialIsEmpty(t: LType)
    requires t.MessageType? && SchemaOk(t)
    ensures MessageBytes(t, InitialCells(t)) == [] <==>
            forall k | 0 <= k < |t.fields| :: !SendsInitial(t.fields[k])
  {
    InitialItems(t, 0);
  }

  // ----- the decoder's effect, one item at a time -----

  /** The message so far, the required fields seen, and the fixed-count array being received. */
  datatype Progress = Progress(cells: seq<Cell>, seen: set<nat>, fixed: Option<nat>, received: nat)

  function Start(t: LType): Progress
    requires t.MessageType?
  {
    Progress(InitialCells(t), {}, None, 0)
  }

  function RequiredBefore(fields: seq<Field>, i: nat): nat
    requires i <= |fields|
  {
    if i == 0 then 0 else RequiredBefore(fields, i - 1) + if fields[i - 1].rule.Required? then 1 else 0
  }

  /** A oneof member overlays the others. */
  function Cleared(fields: seq<Field>, cells: seq<Cell>, union: nat): (r: seq<Cell>)
    requires |cells| == |fields|
    ensures |r| == |cells|
  {
    seq(|cells|, k requires 0 <= k < |cells| => if fields[k].rule == OneOf(union) then Maybe(None) else cells[k])
  }

  /** Entries from `at` on replaced by ds. */
  function Overwritten(entries: seq<Datum>, at: nat, ds: seq<Datum>): seq<Datum>
    requires at <= |entries|
  {
    entries[..at] + ds + if at + |ds| <= |entries| then entries[at + |ds|..] else []
  }

  function Counter(st: Progress, i: nat): nat {
    if st.fixed == Some(i) then st.received else 0
  }

  ghost predicate Applies(t: LType, st: Progress, item: Item)
    requires t.MessageType?
  {
    && |st.cells| == |t.fields| && item.i < |t.fields|
    && var f := t.fields[item.i];
    && var cell := st.cells[item.i];
    && (!Packed(f) ==> |item.ds| == 1) && item.ds != []
    && match f.rule
       case Required => cell == InitialCell(f)
       case Singular => cell == InitialCell(f)
       case Optional => cell == InitialCell(f)
       case OneOf(_) => cell == InitialCell(f)
       case Repeated(max) => cell.Many? && |cell.ds| + |item.ds| <= max
       case FixedCount(max) =>
         && cell.Many? && |cell.ds| == Counter(st, item.i) && |cell.ds| + |item.ds| <= max
         && (st.fixed == Some(item.i) || FixedDone(t.fields, st))
  }

  predicate FixedDone(fields: seq<Field>, st: Progress) {
    st.fixed.Some? ==>
      st.fixed.value < |fields| && fields[st.fixed.value].rule.FixedCount?
          && st.received == fields[st.fixed.value].rule.max
  }

  ghost function Apply(t: LType, st: Progress, item: Item): Progress
    requires t.MessageType? && Applies(t, st, item)
  {
    var f, i := t.fields[item.i], item.i;
    match f.rule
    case Required => st.(cells := st.cells[i := One(item.ds[0])], seen := Noted(st.seen, RequiredBefore(t.fields, i)))
    case Singular => st.(cells := st.cells[i := One(item.ds[0])])
    case Optional => st.(cells := st.cells[i := Maybe(Some(item.ds[0]))])
    case OneOf(u) => st.(cells := Cleared(t.fields, st.cells, u)[i := Maybe(Some(item.ds[0]))])
    case Repeated(_) => st.(cells := st.cells[i := Many(st.cells[i].ds + item.ds)])
    case FixedCount(_) =>
      Progress(st.cells[i := Many(st.cells[i].ds + item.ds)], st.seen, Some(i), |st.cells[i].ds| + |item.ds|)
  }

  function Noted(seen: set<nat>, index: nat): set<nat> {
    if index < MAX_REQUIRED then seen + {index} else seen
  }

  /** The tests at the end of pb_decode_noinit. */
  predicate Complete(fields: seq<Field>, st: Progress) {
    && FixedDone(fields, st)
    && forall r: nat | r < RequiredBefore(fields, |fields|) && r < MAX_REQUIRED :: r in st.seen
  }

  /** The items can be applied one after the other, and end in the complete message `want`. */
  ghost predicate Chain(t: LType, st: Progress, items: seq<Item>, want: seq<Cell>)
    requires t.MessageType?
    decreases |items|
  {
    if items == [] then st.cells == want && Complete(t.fields, st)
    else Applies(t, st, items[0]) && Chain(t, Apply(t, st, items[0]), items[1..], want)
  }

  /** The state once the fields below i have been received. */
  ghost predicate At(t: LType, want: seq<Cell>, i: nat, st: Progress)
    requires t.MessageType? && |want| == |t.fields|
  {
    && i <= |t.fields|
    && |st.cells| == |t.fields|
    && (forall k | 0 <= k < i :: st.cells[k] == want[k])
    && (forall k | i <= k < |t.fields| :: st.cells[k] == InitialCell(t.fields[k]))
    && (forall r: nat | r < RequiredBefore(t.fields, i) && r < MAX_REQUIRED :: r in st.seen)
    && FixedDone(t.fields, st) && (st.fixed.Some? ==> st.fixed.value < i)
  }

  lemma StartIsAt(t: LType, want: seq<Cell>)
    requires t.MessageType? && |want| == |t.fields|
    ensures At(t, want, 0, Start(t))
  {
  }

  /** All but room for the nulls. */
  ghost predicate SoundDatum(t: LType, d: Datum) {
    SchemaOk(t) && forall c: Check | !c.Room? :: Passes(c, t, d)
  }

  ghost predicate Sound(t: LType, want: seq<Cell>) {
    SoundDatum(t, Msg(want))
  }
}
