/** The log file format shared by writer and reader (db/log_format.h): records cut into fragments that never
    cross a 32 KB block boundary. */
module LogFormat {
  import opened InternalKeys
  import opened Coding
  import Crc32c

  const BLOCK_SIZE: int := 32768
  const HEADER_SIZE: int := 7

  const ZERO_TYPE: Byte := 0
  const FULL_TYPE: Byte := 1
  const FIRST_TYPE: Byte := 2
  const MIDDLE_TYPE: Byte := 3
  const LAST_TYPE: Byte := 4

  function Zeros(n: nat): (z: Bytes)
    ensures |z| == n
  {
    seq(n, _ => 0)
  }

  /** The unused rest of a block that is too short for a header. */
  function Pad(offset: nat): (p: nat)
    ensures p < HEADER_SIZE && (offset + p) % BLOCK_SIZE + HEADER_SIZE <= BLOCK_SIZE
    ensures 0 < p ==> (offset + p) % BLOCK_SIZE == 0
  {
    var leftover := BLOCK_SIZE - offset % BLOCK_SIZE;
    if leftover < HEADER_SIZE then leftover else 0
  }

  /** How many payload bytes fit behind a header written at `offset`. */
  function Available(offset: nat): nat {
    BLOCK_SIZE - (offset + Pad(offset)) % BLOCK_SIZE - HEADER_SIZE
  }

  function TypeOf(begin: bool, end: bool): Byte {
    if begin && end then FULL_TYPE else if begin then FIRST_TYPE else if end then LAST_TYPE else MIDDLE_TYPE
  }

  function Header(t: Byte, payload: Bytes): (h: Bytes)
    requires |payload| <= 0xffff
    ensures |h| == HEADER_SIZE
  {
    EncodeFixed32(Crc32c.Mask(Crc32c.Extend(Crc32c.Value([t]), payload))) + [|payload| % 0x100, |payload| / 0x100, t]
  }

  function FragmentLength(offset: nat, data: Bytes): (n: nat)
    ensures n <= |data| && n <= Available(offset)
  {
    if |data| < Available(offset) then |data| else Available(offset)
  }

  /** The padding and the first fragment of `data` at file offset `offset`. */
  function Fragment(offset: nat, data: Bytes, begin: bool): (b: Bytes)
    ensures |b| == Pad(offset) + HEADER_SIZE + FragmentLength(offset, data)
  {
    var n := FragmentLength(offset, data);
    Zeros(Pad(offset)) + Header(TypeOf(begin, n == |data|), data[..n]) + data[..n]
  }

  /** What a record, or the rest of one, looks like at file offset `offset`. A fragment may be empty when only
      a header fits, so the length of the data alone does not decrease. */
  function Framed(offset: nat, data: Bytes, begin: bool): Bytes
    decreases |data|, if Available(offset) == 0 then 1 else 0
  {
    var n, first := FragmentLength(offset, data), Fragment(offset, data, begin);
    if n == |data| then first else first + Framed(offset + |first|, data[n..], false)
  }

  /** The bytes of a whole log that starts at `offset`. */
  function Log(offset: nat, records: seq<Bytes>): Bytes
    decreases |records|
  {
    if records == [] then []
    else
      var first := Framed(offset, records[0], true);
      first + Log(offset + |first|, records[1..])
  }

  lemma {:induction false} LogAppends(offset: nat, records: seq<Bytes>, r: Bytes)
    ensures Log(offset, records + [r]) == Log(offset, records) + Framed(offset + |Log(offset, records)|, r, true)
    decreases |records|
  {
    hide Framed;
    if records == [] {
      assert records + [r] == [r];
      assert Log(offset, [r]) == Framed(offset, r, true) + [];
    } else {
      var first := Framed(offset, records[0], true);
      assert (records + [r])[1..] == records[1..] + [r];
      LogAppends(offset + |first|, records[1..], r);
    }
  }

  /** How many records end within the first n bytes of the file. */
  function Complete(offset: nat, records: seq<Bytes>, n: nat): (k: nat)
    ensures k <= |records|
    decreases |records|
  {
    if records == [] || n < offset + |Framed(offset, records[0], true)| then 0
    else 1 + Complete(offset + |Framed(offset, records[0], true)|, records[1..], n)
  }

  /** Record i is among them exactly when its last byte is. */
  lemma {:induction false} CompleteEndsInside(offset: nat, records: seq<Bytes>, n: nat, i: nat)
    requires i < |records|
    ensures i < Complete(offset, records, n) <==> offset + |Log(offset, records[..i + 1])| <= n
    decreases |records|
  {
    hide Framed;
    var front, first := records[..i + 1], Framed(offset, records[0], true);
    assert Log(offset, front) == first + Log(offset + |first|, front[1..]);
    if i == 0 {
      assert front[1..] == [];
    } else {
      assert front[1..] == records[1..][..i];
      CompleteEndsInside(offset + |first|, records[1..], n, i - 1);
    }
  }
}
