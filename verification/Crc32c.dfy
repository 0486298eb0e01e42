/** CRC-32C checksums (section 12.1 of RFC 3720) as a fold over bytes, and the masking of stored checksums
    (util/crc32c.h). What the tables of util/crc32c.cc do with one byte is left open: nothing here depends on it. */
module Crc32c {
  import opened InternalKeys
  import opened Coding

  const MASK_DELTA: Word := 0xa282ead8

  /** The state after one more byte. */
  const STEP: (Word, Byte) -> Word

  /** Exclusive or with all ones. */
  function Invert(w: Word): Word {
    0xffff_ffff - w
  }

  function Fold(state: Word, data: Bytes): Word {
    if data == [] then state else STEP(Fold(state, data[..|data| - 1]), data[|data| - 1])
  }

  /** crc32c::Extend: the checksum of A ++ data, given that of A. */
  function Extend(crc: Word, data: Bytes): Word {
    Invert(Fold(Invert(crc), data))
  }

  function Value(data: Bytes): Word {
    Extend(0, data)
  }

  lemma {:induction false} FoldConcat(state: Word, a: Bytes, b: Bytes)
    ensures Fold(state, a + b) == Fold(Fold(state, a), b)
  {
    if b == [] {
      assert a + b == a;
    } else {
      assert (a + b)[..|a + b| - 1] == a + b[..|b| - 1];
      FoldConcat(state, a, b[..|b| - 1]);
    }
  }

  /** The writer extends the checksum of the type byte; the reader takes the checksum of type and payload. */
  lemma ExtendComposes(crc: Word, a: Bytes, b: Bytes)
    ensures Extend(Extend(crc, a), b) == Extend(crc, a + b)
  {
    FoldConcat(Invert(crc), a, b);
  }

  /** Rotates right by 15 bits and adds a constant. */
  function Mask(crc: Word): Word {
    (crc / 0x8000 + crc % 0x8000 * 0x2_0000 + MASK_DELTA) % TWO_TO_32
  }

  function Unmask(masked: Word): Word {
    var rot := (masked - MASK_DELTA) % TWO_TO_32;
    rot / 0x2_0000 + rot % 0x2_0000 * 0x8000
  }

  lemma UnmaskMask(crc: Word)
    ensures Unmask(Mask(crc)) == crc
  {
    var rot := crc / 0x8000 + crc % 0x8000 * 0x2_0000;
    assert rot < TWO_TO_32;
    assert (Mask(crc) - MASK_DELTA) % TWO_TO_32 == rot;
    assert rot / 0x2_0000 == crc % 0x8000;
  }
}
