/** The formats byte by byte: what numbers, write batches, manifest records, logs and messages look like on disk and
    on the wire. */
module Formats {
  import opened InternalKeys
  import opened SnapshotReads
  import opened Coding
  import WriteBatch
  import VersionEditCodec
  import LogFormat
  import Crc32c
  import opened NanopbMessages

  // ----- numbers -----

  /** Fixed-width numbers have their lowest byte first. */
  lemma Fixed32IsLittleEndian(b0: Byte, b1: Byte, b2: Byte, b3: Byte)
    ensures EncodeFixed32(b0 + b1 * 0x100 + b2 * 0x1_0000 + b3 * 0x100_0000) == [b0, b1, b2, b3]
  {
    var h3: int := b3;
    var h2 := b2 + h3 * 0x100;
    var h1 := b1 + h2 * 0x100;
    var w := b0 + h1 * 0x100;
    assert w / 0x100 == h1 && w / 0x1_0000 == h2 && w / 0x100_0000 == h3;
  }

  lemma Fixed64IsLittleEndian(lo: Word, hi: Word)
    ensures EncodeFixed64(lo + hi * TWO_TO_32) == EncodeFixed32(lo) + EncodeFixed32(hi)
  {
    hide EncodeFixed32;
    assert (lo + hi * TWO_TO_32) % TWO_TO_32 == lo && (lo + hi * TWO_TO_32) / TWO_TO_32 == hi;
  }

  /** Varints have their lowest seven bits first. */
  lemma VarintDigits(d0: nat, d1: nat, d2: nat)
    requires d0 < 128 && d1 < 128 && 0 < d2 < 128
    ensures Varint(d0) == [d0]
    ensures Varint(d0 + 128 * d2) == [128 + d0, d2]
    ensures Varint(d0 + 128 * d1 + 128 * 128 * d2) == [128 + d0, 128 + d1, d2]
  {
    var v := d1 + 128 * d2;
    assert (d0 + 128 * v) / 128 == v && (d0 + 128 * v) % 128 == d0;
    assert v / 128 == d2 && v % 128 == d1;
    assert (d0 + 128 * d2) / 128 == d2;
  }

  // ----- leveldb -----

  /** Put("k", "vv") and Delete("k") in a batch. */
  lemma BatchRecords()
    ensures WriteBatch.Record(WriteBatch.Put([107], [118, 118])) == [1, 1, 107, 2, 118, 118]
    ensures WriteBatch.Record(WriteBatch.Delete([107])) == [0, 1, 107]
  {
  }

  /** One item of each kind in a manifest record. */
  lemma ManifestItems()
    ensures VersionEditCodec.ItemBytes(VersionEditCodec.Comparator([99])) == [1, 1, 99]
    ensures VersionEditCodec.ItemBytes(VersionEditCodec.LogNumber(10)) == [2, 10]
    ensures VersionEditCodec.ItemBytes(VersionEditCodec.NextFileNumber(11)) == [3, 11]
    ensures VersionEditCodec.ItemBytes(VersionEditCodec.LastSequence(12)) == [4, 12]
    ensures VersionEditCodec.ItemBytes(VersionEditCodec.CompactPointer(1, [99])) == [5, 1, 1, 99]
    ensures VersionEditCodec.ItemBytes(VersionEditCodec.DeletedFile(2, 13)) == [6, 2, 13]
    ensures VersionEditCodec.ItemBytes(VersionEditCodec.NewFile(3, VersionEditCodec.FileMeta(14, 100, [97], [98])))
            == [7, 3, 14, 100, 1, 97, 1, 98]
    ensures VersionEditCodec.ItemBytes(VersionEditCodec.PrevLogNumber(9)) == [9, 9]
  {
  }

  /** A fragment's header: checksum of type and payload, length, type. */
  lemma HeaderBytes(t: Byte, payload: Bytes)
    requires |payload| <= 0xffff
    ensures var h := LogFormat.Header(t, payload);
            && h[..4] == EncodeFixed32(Crc32c.Mask(Crc32c.Value([t] + payload)))
            && h[4] as int + 0x100 * h[5] as int == |payload| && h[6] == t
  {
    hide EncodeFixed32, Crc32c.Mask, Crc32c.Extend;
    Crc32c.ExtendComposes(0, [t], payload);
    var sum := EncodeFixed32(Crc32c.Mask(Crc32c.Extend(Crc32c.Value([t]), payload)));
    var h := LogFormat.Header(t, payload);
    assert h[..4] == sum && h[4] == |payload| % 0x100 && h[5] == |payload| / 0x100;
  }

  function Fragment(t: Byte, payload: Bytes): Bytes
    requires |payload| <= 0xffff
  {
    LogFormat.Header(t, payload) + payload
  }

  /** Data that fits behind a header stays whole. */
  lemma WholeFragment(offset: nat, data: Bytes, begin: bool)
    requires |data| <= LogFormat.Available(offset) && |data| <= 0xffff
    ensures LogFormat.Framed(offset, data, begin) ==
            LogFormat.Zeros(LogFormat.Pad(offset)) + Fragment(if begin then 1 else 4, data)
  {
    hide LogFormat.Header;
    assert data[..|data|] == data;
    var pad, h := LogFormat.Zeros(LogFormat.Pad(offset)), LogFormat.Header(if begin then 1 else 4, data);
    assert pad + h + data == pad + (h + data);
  }

  /** Data that does not fills the block, and the rest goes to the next. */
  lemma CutFragment(offset: nat, data: Bytes, begin: bool, n: nat)
    requires n == LogFormat.Available(offset) < |data| && n <= 0xffff && LogFormat.Pad(offset) == 0
    ensures LogFormat.Framed(offset, data, begin) ==
            Fragment(if begin then 2 else 3, data[..n]) + LogFormat.Framed(offset + 7 + n, data[n..], false)
  {
    hide LogFormat.Header;
    var pad, h := LogFormat.Zeros(LogFormat.Pad(offset)), LogFormat.Header(if begin then 2 else 3, data[..n]);
    assert pad + h + data[..n] == h + data[..n];
  }

  /** Three records of 1000, 97270 and 8000 bytes: the first is whole, the second takes what is left of the first block,
      the whole second block and the third up to its last six bytes, which are padding. */
  lemma LogExample(a: Bytes, b: Bytes, c: Bytes)
    requires |a| == 1000 && |b| == 97270 && |c| == 8000
    ensures LogFormat.Log(0, [a, b, c]) ==
            Fragment(1, a) + (Fragment(2, b[..31754]) + (Fragment(3, b[31754..64515]) + Fragment(4, b[64515..])))
            + ([0, 0, 0, 0, 0, 0] + Fragment(1, c))
  {
    hide LogFormat.Header, LogFormat.Framed, LogFormat.Fragment;
    var b2, b3 := b[31754..], b[64515..];
    assert b2[..32761] == b[31754..64515] && b2[32761..] == b3;
    WholeFragment(0, a, true);
    CutFragment(1007, b, true, 31754);
    CutFragment(32768, b2, false, 32761);
    WholeFragment(65536, b3, false);
    WholeFragment(98298, c, true);
    assert LogFormat.Zeros(6) == [0, 0, 0, 0, 0, 0] && LogFormat.Zeros(0) == [];
    var fa, fb, fc := LogFormat.Framed(0, a, true), LogFormat.Framed(1007, b, true), LogFormat.Framed(98298, c, true);
    assert |fa| == 1007 && |fb| == 97291;
    ThreeRecords(a, b, c);
  }

  lemma ThreeRecords(a: Bytes, b: Bytes, c: Bytes)
    ensures var fa := LogFormat.Framed(0, a, true);
            var fb := LogFormat.Framed(|fa|, b, true);
            LogFormat.Log(0, [a, b, c]) == fa + fb + LogFormat.Framed(|fa| + |fb|, c, true)
  {
    hide LogFormat.Framed;
    assert [a, b, c] == [a, b] + [c] && [a, b] == [a] + [b] && [a] == [] + [a];
    LogFormat.LogAppends(0, [a, b], c);
    LogFormat.LogAppends(0, [a], b);
    LogFormat.LogAppends(0, [], a);
  }

  // ----- nanopb -----

  /** The bytes of a message with one field. */
  function OneField(f: Field, c: Cell): Bytes {
    MessageBytes(MessageType([f]), [c])
  }

  lemma OneFieldBytes(f: Field, c: Cell, d: Datum)
    requires CellItems(0, f, c) == [Item(0, [d])] && !Packed(f)
    ensures OneField(f, c) == Varint(f.tag * 8 + WireType(f.ltype)) + DatumBytes(f.ltype, d)
  {
    hide CellItems, Varint, DatumBytes, WireType, Packed;
    var t, item := MessageType([f]), Item(0, [d]);
    assert t.fields == [f];
    assert ItemsFrom(t.fields, [c], 0) == [item] + ItemsFrom(t.fields, [c], 1);
    assert ItemsFrom(t.fields, [c], 1) == [];
    ItemsBytesConcat(t, [item], []);
    assert item.ds[1..] == [] && DataBytes(f.ltype, item.ds) == DatumBytes(f.ltype, d) + [];
    assert ItemsBytes(t, [item]) == ItemBytes(t, item) + ItemsBytes(t, [item][1..]);
  }

  lemma SmallVarints()
    ensures Varint(150) == [150, 1] && Varint(3) == [3]
  {
  }

  /** A number, a negative number in zigzag form and a false that is set. */
  lemma NumberMessages()
    ensures OneField(Field(1, IntType(4), Singular, None), One(Num(150))) == [0x08, 0x96, 0x01]
    ensures OneField(Field(3, SintType(4), Singular, None), One(Num(-2))) == [0x18, 0x03]
    ensures OneField(Field(6, BoolType, Optional, None), Maybe(Some(Num(0)))) == [0x30, 0]
  {
    SmallVarints();
    OneFieldBytes(Field(1, IntType(4), Singular, None), One(Num(150)), Num(150));
    OneFieldBytes(Field(3, SintType(4), Singular, None), One(Num(-2)), Num(-2));
    OneFieldBytes(Field(6, BoolType, Optional, None), Maybe(Some(Num(0))), Num(0));
    hide OneField;
  }

  /** A string and both fixed widths. */
  lemma WideMessages()
    ensures OneField(Field(2, StringType(8), Singular, None), One(Blob([116, 101]))) == [0x12, 0x02, 116, 101]
    ensures OneField(Field(4, Fixed32Type, Singular, None), One(Num(1))) == [0x25, 1, 0, 0, 0]
    ensures OneField(Field(5, Fixed64Type, Singular, None), One(Num(1))) == [0x29, 1, 0, 0, 0, 0, 0, 0, 0]
  {
    OneFieldBytes(Field(2, StringType(8), Singular, None), One(Blob([116, 101])), Blob([116, 101]));
    OneFieldBytes(Field(4, Fixed32Type, Singular, None), One(Num(1)), Num(1));
    OneFieldBytes(Field(5, Fixed64Type, Singular, None), One(Num(1)), Num(1));
    Fixed64IsLittleEndian(1, 0);
    hide OneField;
  }
}
