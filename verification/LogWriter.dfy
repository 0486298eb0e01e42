/** Appending records to a log file (db/log_writer.cc). Writes to the file do not fail. */
module LogWriter {
  import opened InternalKeys
  import opened Coding
  import Crc32c
  import opened LogFormat

  class Writer {
    var dest: Bytes
    var blockOffset: nat

    /** A block offset of BLOCK_SIZE stands for the start of the next block. */
    predicate Valid()
      reads this
    {
      blockOffset <= BLOCK_SIZE && blockOffset % BLOCK_SIZE == |dest| % BLOCK_SIZE
    }

    /** Opens a log whose file already holds `dest`. */
    constructor (dest: Bytes)
      ensures Valid() && this.dest == dest
    {
      this.dest := dest;
      blockOffset := |dest| % BLOCK_SIZE;
    }

    method AddRecord(slice: Bytes)
      requires Valid()
      modifies this
      ensures Valid() && dest == old(dest) + Framed(|old(dest)|, slice, true)
    {
      hide Framed, Header, Zeros;
      var left, begin := slice, true;
      ghost var target := old(dest) + Framed(|old(dest)|, slice, true);
      while true
        invariant Valid() && target == dest + Framed(|dest|, left, begin)
        decreases |left|, if BLOCK_SIZE - blockOffset == HEADER_SIZE then 1 else 0
      {
        ghost var before := dest;
        var leftover := BLOCK_SIZE - blockOffset;
        if leftover < HEADER_SIZE {
          dest := dest + Zeros(leftover);
          blockOffset := 0;
        }
        assert dest == before + Zeros(Pad(|before|));
        var avail := BLOCK_SIZE - blockOffset - HEADER_SIZE;
        var fragmentLength := if |left| < avail then |left| else avail;
        assert fragmentLength == FragmentLength(|before|, left);
        var end := |left| == fragmentLength;
        var recordType := TypeOf(begin, end);
        EmitPhysicalRecord(recordType, left[..fragmentLength]);
        assert dest == before + Fragment(|before|, left, begin);
        FramedSplits(before, left, begin);
        left := left[fragmentLength..];
        begin := false;
        if left == [] {
          break;
        }
      }
    }

    method EmitPhysicalRecord(t: Byte, payload: Bytes)
      requires Valid() && blockOffset + HEADER_SIZE + |payload| <= BLOCK_SIZE
      modifies this
      ensures Valid() && dest == old(dest) + Header(t, payload) + payload
      ensures blockOffset == old(blockOffset) + HEADER_SIZE + |payload|
    {
      var length := |payload|;
      var crc := Crc32c.Extend(Crc32c.Value([t]), payload);
      var header := EncodeFixed32(Crc32c.Mask(crc)) + [length % 0x100, length / 0x100, t];
      assert header == Header(t, payload);
      hide EncodeFixed32, Header, Crc32c.Mask, Crc32c.Extend, Crc32c.Value;
      SameOffset(blockOffset, |dest|, HEADER_SIZE + length);
      dest := dest + header + payload;
      blockOffset := blockOffset + HEADER_SIZE + length;
    }
  }

  lemma SameOffset(a: nat, b: nat, k: nat)
    requires a % BLOCK_SIZE == b % BLOCK_SIZE
    ensures (a + k) % BLOCK_SIZE == (b + k) % BLOCK_SIZE
  {
  }

  lemma FramedSplits(before: Bytes, data: Bytes, begin: bool)
    ensures var n, first := FragmentLength(|before|, data), Fragment(|before|, data, begin);
            before + Framed(|before|, data, begin) ==
            if n == |data| then before + first else (before + first) + Framed(|before + first|, data[n..], false)
  {
  }

  /** A log written record by record holds exactly the framed records. */
  method WriteAll(records: seq<Bytes>) returns (file: Bytes)
    ensures file == Log(0, records)
  {
    var writer := new Writer([]);
    for i := 0 to |records|
      invariant writer.Valid() && writer.dest == Log(0, records[..i])
    {
      LogAppends(0, records[..i], records[i]);
      assert records[..i + 1] == records[..i] + [records[i]];
      writer.AddRecord(records[i]);
    }
    assert records[..|records|] == records;
    file := writer.dest;
  }
}
