/** Reading records back from a log file (db/log_reader.cc), from the start of the file as recovery does. */
module LogReader {
  import opened InternalKeys
  import opened Coding
  import Crc32c
  import opened LogFormat

  /** Results of ReadPhysicalRecord beside the record types. */
  const EOF: int := 5
  const BAD_RECORD: int := 6

  function DecodeLength(header: Bytes): nat
    requires |header| >= HEADER_SIZE
  {
    var lo: int, hi: int := header[4], header[5];
    lo + hi * 0x100
  }

  // ----- what the log holds at an offset -----

  /** `log` holds `data`, or the rest of a record, framed at `offset`. */
  ghost predicate Holds(log: Bytes, offset: nat, data: Bytes, begin: bool) {
    offset <= |log| && Framed(offset, data, begin) <= log[offset..]
  }

  ghost predicate HoldsFragment(log: Bytes, offset: nat, t: Byte, payload: Bytes) {
    && offset <= |log| && FULL_TYPE <= t <= LAST_TYPE && |payload| <= Available(offset)
    && Zeros(Pad(offset)) + Header(t, payload) + payload <= log[offset..]
  }

  function FragmentEnd(offset: nat, payload: Bytes): nat {
    offset + Pad(offset) + HEADER_SIZE + |payload|
  }

  lemma EndPastHeader(offset: nat, payload: Bytes)
    ensures offset + Pad(offset) + HEADER_SIZE <= FragmentEnd(offset, payload)
  {
  }

  function RecordEnd(offset: nat, data: Bytes, begin: bool): nat {
    offset + |Framed(offset, data, begin)|
  }

  lemma HoldsFirst(log: Bytes, offset: nat, data: Bytes, begin: bool)
    requires Holds(log, offset, data, begin)
    ensures var n := FragmentLength(offset, data);
            && HoldsFragment(log, offset, TypeOf(begin, n == |data|), data[..n])
            && FragmentEnd(offset, data[..n]) <= RecordEnd(offset, data, begin)
            && if n == |data| then RecordEnd(offset, data, begin) == FragmentEnd(offset, data[..n])
               else
                 && Holds(log, FragmentEnd(offset, data[..n]), data[n..], false)
                 && RecordEnd(FragmentEnd(offset, data[..n]), data[n..], false) == RecordEnd(offset, data, begin)
  {
    hide Header, Zeros;
    var n, first := FragmentLength(offset, data), Fragment(offset, data, begin);
    if n < |data| {
      var rest := Framed(offset + |first|, data[n..], false);
      assert log[offset..][..|first + rest|] == first + rest;
      assert log[offset + |first|..][..|rest|] == rest;
    }
  }

  /** Behind the padding the fragment reads the same. */
  lemma SkipPad(log: Bytes, offset: nat, t: Byte, payload: Bytes)
    requires HoldsFragment(log, offset, t, payload)
    ensures HoldsFragment(log, offset + Pad(offset), t, payload)
    ensures Pad(offset + Pad(offset)) == 0 && FragmentEnd(offset + Pad(offset), payload) == FragmentEnd(offset, payload)
  {
    hide Header, Zeros;
    var s := offset + Pad(offset);
    assert Pad(s) == 0 && Zeros(0) == [];
    var frame := Header(t, payload) + payload;
    assert Zeros(Pad(offset)) + Header(t, payload) + payload == Zeros(Pad(offset)) + frame;
    assert log[offset..][..Pad(offset) + |frame|] == Zeros(Pad(offset)) + frame;
    assert log[s..][..|frame|] == frame;
    assert Zeros(Pad(s)) + Header(t, payload) + payload == frame;
  }

  /** What the reader makes of the bytes of a fragment. */
  lemma ParseFragment(bytes: Bytes, t: Byte, payload: Bytes)
    requires |payload| <= 0xffff && HEADER_SIZE + |payload| <= |bytes| && Header(t, payload) + payload <= bytes
    ensures DecodeLength(bytes) == |payload| && bytes[6] == t
    ensures bytes[HEADER_SIZE..HEADER_SIZE + |payload|] == payload
    ensures Crc32c.Unmask(DecodeFixed32(bytes)) == Crc32c.Value(bytes[6..7 + |payload|])
  {
    HeaderParses(bytes, t, payload);
    var n := |payload|;
    assert bytes[..HEADER_SIZE + n] == Header(t, payload) + payload;
    assert bytes[HEADER_SIZE..HEADER_SIZE + n] == payload;
    assert bytes[6..7 + n] == [t] + payload;
    Crc32c.ExtendComposes(0, [t], payload);
    Crc32c.UnmaskMask(Crc32c.Extend(Crc32c.Value([t]), payload));
  }

  lemma HeaderParses(bytes: Bytes, t: Byte, payload: Bytes)
    requires |payload| <= 0xffff && HEADER_SIZE <= |bytes| && Header(t, payload) <= bytes
    ensures DecodeLength(bytes) == |payload| && bytes[6] == t
    ensures DecodeFixed32(bytes) == Crc32c.Mask(Crc32c.Extend(Crc32c.Value([t]), payload))
  {
    hide Crc32c.Mask, Crc32c.Extend, Crc32c.Value;
    var crc := Crc32c.Mask(Crc32c.Extend(Crc32c.Value([t]), payload));
    var header := Header(t, payload);
    assert forall i | 0 <= i < HEADER_SIZE :: bytes[i] == header[i];
    Fixed32RoundTrip(crc, bytes[4..]);
    assert EncodeFixed32(crc) + bytes[4..] == bytes;
  }

  /** The unread `left` bytes before `filePos` are the end of one block, a short one once `eof` is set. */
  ghost predicate BlockEnds(filePos: nat, left: nat, eof: bool) {
    && left <= filePos
    && (!eof ==> filePos % BLOCK_SIZE == 0 && left <= BLOCK_SIZE)
    && (eof ==> (filePos - left) % BLOCK_SIZE + left < BLOCK_SIZE)
  }

  ghost predicate Window(file: Bytes, buffer: Bytes, filePos: nat) {
    |buffer| <= filePos <= |file| && buffer == file[filePos - |buffer|..filePos]
  }

  lemma StaysInBlock(filePos: nat, left: nat, left': nat, eof: bool)
    requires BlockEnds(filePos, left, eof) && left' <= left
    ensures BlockEnds(filePos, left', eof)
  {
  }

  class Reader {
    const file: Bytes
    const checksum: bool
    var filePos: nat
    var buffer: Bytes
    var eof: bool
    /** The byte counts reported as dropped. */
    var drops: seq<nat>

    constructor (file: Bytes, checksum: bool)
      ensures this.file == file && Valid() && Consumed() == 0 && drops == []
    {
      this.file := file;
      this.checksum := checksum;
      filePos := 0;
      buffer := [];
      eof := false;
      drops := [];
    }

    /** The buffer is the unread end of the block read last; only the last block of the file can be short. */
    ghost predicate Valid()
      reads this
    {
      && Window(file, buffer, filePos)
      && BlockEnds(filePos, |buffer|, eof) && (eof ==> filePos == |file|)
    }

    ghost function Consumed(): nat
      requires |buffer| <= filePos
      reads this
    {
      filePos - |buffer|
    }

    /** How many more reads from the file can change anything. */
    ghost function Unread(): nat
      requires filePos <= |file|
      reads this
    {
      |file| - filePos + if eof then 0 else 1
    }

    /** file_->Read(kBlockSize, &buffer_): one block, or what is left of the file. */
    method ReadBlock()
      requires Valid() && !eof && |buffer| < HEADER_SIZE
      modifies this`filePos, this`buffer, this`eof
      ensures Valid() && Unread() < old(Unread())
      ensures Consumed() == old(filePos)
      ensures eof <==> |buffer| < BLOCK_SIZE
    {
      var n := if |file| - filePos < BLOCK_SIZE then |file| - filePos else BLOCK_SIZE;
      buffer := file[filePos..filePos + n];
      filePos := filePos + n;
      if |buffer| < BLOCK_SIZE {
        eof := true;
      }
    }

    /** Steps over a trailer too short for a header and reads on, until the buffer holds a whole header or the file
        has no more to give. */
    method FillBuffer() returns (full: bool)
      requires Valid()
      modifies this`filePos, this`buffer, this`eof
      ensures Valid() && (full <==> HEADER_SIZE <= |buffer|)
      ensures full ==> Consumed() == old(Consumed()) + Pad(old(Consumed()))
      ensures !full ==> Consumed() == |file| && |file| < old(Consumed()) + Pad(old(Consumed())) + HEADER_SIZE
    {
      ghost var start := Consumed();
      while |buffer| < HEADER_SIZE
        invariant Valid() && start <= Consumed()
        invariant Consumed() == start || Consumed() == start + Pad(start)
        invariant !eof && |buffer| < HEADER_SIZE ==> Consumed() == start
        decreases Unread()
      {
        if eof {
          buffer := [];
          return false;
        }
        ReadBlock();
      }
      return true;
    }

    /** Reads the fragment at the current offset: if the file, a prefix of a log holding `payload` there, holds
        all of it, that fragment, and otherwise the end of the file; either way nothing is reported. */
    method ReadPhysicalRecord(ghost log: Bytes, ghost t: Byte, ghost payload: Bytes)
      returns (recordType: int, fragment: Bytes)
      requires Valid()
      modifies this
      ensures Valid() && old(Consumed()) <= Consumed()
      ensures recordType != EOF ==> old(Consumed()) < Consumed()
      ensures file <= log && HoldsFragment(log, old(Consumed()), t, payload) ==>
                var end := FragmentEnd(old(Consumed()), payload);
                && drops == old(drops)
                && if end <= |file| then recordType == t && fragment == payload && Consumed() == end
                   else recordType == EOF && Consumed() == |file|
      ensures old(Consumed()) == |file| ==> recordType == EOF && drops == old(drops) && Consumed() == |file|
    {
      hide Header, Zeros, DecodeFixed32, Crc32c.Unmask, Crc32c.Value, HoldsFragment, Pad, Available, DecodeLength,
           FragmentEnd, BlockEnds;
      ghost var start := Consumed();
      ghost var expected := file <= log && HoldsFragment(log, start, t, payload);
      EndPastHeader(start, payload);
      var full := FillBuffer();
      if !full {
        return EOF, [];
      }
      ghost var c := Consumed();
      if expected {
        SkipPad(log, start, t, payload);
        BufferHolds(log, file, buffer, c, t, payload);
        FragmentFits(log, c, filePos, |buffer|, eof, t, payload);
      }
      StaysInBlock(filePos, |buffer|, 0, eof);
      var length := DecodeLength(buffer);
      if HEADER_SIZE + length > |buffer| {
        var dropped := |buffer|;
        buffer := [];
        if !eof {
          drops := drops + [dropped];
          return BAD_RECORD, [];
        }
        return EOF, [];
      }
      if buffer[6] == ZERO_TYPE && length == 0 {
        buffer := [];
        return BAD_RECORD, [];
      }
      if checksum && Crc32c.Unmask(DecodeFixed32(buffer)) != Crc32c.Value(buffer[6..7 + length]) {
        drops := drops + [|buffer|];
        buffer := [];
        return BAD_RECORD, [];
      }
      recordType, fragment := buffer[6], buffer[HEADER_SIZE..HEADER_SIZE + length];
      StaysInBlock(filePos, |buffer|, |buffer| - HEADER_SIZE - length, eof);
      buffer := buffer[HEADER_SIZE + length..];
    }

    /** Reads the next record: if the file, a prefix of a log holding `data` at the current offset, holds all of
        it, that record, and otherwise nothing; either way nothing is reported. */
    method ReadRecord(ghost log: Bytes, ghost data: Bytes) returns (ok: bool, record: Bytes)
      requires Valid()
      modifies this
      ensures Valid() && (ok ==> old(Consumed()) < Consumed())
      ensures file <= log && Holds(log, old(Consumed()), data, true) ==>
                var end := RecordEnd(old(Consumed()), data, true);
                && drops == old(drops)
                && if end <= |file| then ok && record == data && Consumed() == end else !ok && Consumed() == |file|
      ensures old(Consumed()) == |file| ==> !ok && drops == old(drops) && Consumed() == |file|
    {
      hide Framed, Header, HoldsFragment, Holds, RecordEnd, FragmentEnd, FragmentLength, Available, Pad, Zeros,
           BlockEnds;
      var scratch: Bytes, inFragmentedRecord := [], false;
      ghost var rest, start := data, Consumed();
      ghost var expected := file <= log && Holds(log, start, data, true);
      while true
        invariant Valid() && start <= Consumed()
        invariant start == |file| ==> Consumed() == |file| && drops == old(drops)
        invariant expected ==>
                    && drops == old(drops) && scratch + rest == data && (!inFragmentedRecord ==> scratch == [])
                    && Holds(log, Consumed(), rest, !inFragmentedRecord)
                    && RecordEnd(Consumed(), rest, !inFragmentedRecord) == RecordEnd(start, data, true)
        decreases |file| - Consumed()
      {
        ghost var n := FragmentLength(Consumed(), rest);
        ghost var t := TypeOf(!inFragmentedRecord, n == |rest|);
        if expected {
          HoldsFirst(log, Consumed(), rest, !inFragmentedRecord);
        }
        var recordType, fragment := ReadPhysicalRecord(log, t, rest[..n]);
        if recordType == FULL_TYPE {
          if inFragmentedRecord && scratch != [] {
            drops := drops + [|scratch|];
          }
          return true, fragment;
        } else if recordType == FIRST_TYPE {
          if inFragmentedRecord && scratch != [] {
            drops := drops + [|scratch|];
          }
          scratch, inFragmentedRecord := fragment, true;
        } else if recordType == MIDDLE_TYPE {
          if !inFragmentedRecord {
            drops := drops + [|fragment|];
          } else {
            scratch := scratch + fragment;
          }
        } else if recordType == LAST_TYPE {
          if !inFragmentedRecord {
            drops := drops + [|fragment|];
          } else {
            return true, scratch + fragment;
          }
        } else if recordType == EOF {
          return false, [];
        } else if recordType == BAD_RECORD {
          if inFragmentedRecord {
            drops := drops + [|scratch|];
            scratch, inFragmentedRecord := [], false;
          }
        } else {
          drops := drops + [|fragment| + if inFragmentedRecord then |scratch| else 0];
          scratch, inFragmentedRecord := [], false;
        }
        rest := rest[n..];
      }
    }
  }

  /** A fragment never crosses the end of its block. */
  lemma FragmentFits(log: Bytes, c: nat, filePos: nat, left: nat, eof: bool, t: Byte, payload: Bytes)
    requires HoldsFragment(log, c, t, payload) && Pad(c) == 0 && BlockEnds(filePos, left, eof) && c + left == filePos
    ensures FragmentEnd(c, payload) == c + HEADER_SIZE + |payload| && FULL_TYPE <= t <= LAST_TYPE
    ensures !eof && 0 < left ==> FragmentEnd(c, payload) <= filePos
  {
    hide Header, Zeros;
  }

  lemma PrefixOfWindow(tail: Bytes, frame: Bytes, window: Bytes)
    requires frame <= tail && window <= tail
    ensures if |frame| <= |window| then frame <= window else window <= frame
  {
    assert |frame| <= |window| ==> frame == window[..|frame|];
    assert |window| < |frame| ==> window == frame[..|window|];
  }

  lemma BufferHolds(log: Bytes, file: Bytes, buffer: Bytes, c: nat, t: Byte, payload: Bytes)
    requires file <= log && HoldsFragment(log, c, t, payload) && Pad(c) == 0
    requires c + |buffer| <= |file| && buffer == file[c..c + |buffer|] && HEADER_SIZE <= |buffer|
    ensures |payload| <= 0xffff
    ensures DecodeLength(buffer) == |payload| && buffer[6] == t
    ensures HEADER_SIZE + |payload| <= |buffer| ==>
              && buffer[HEADER_SIZE..HEADER_SIZE + |payload|] == payload
              && Crc32c.Unmask(DecodeFixed32(buffer)) == Crc32c.Value(buffer[6..7 + |payload|])
  {
    var frame := Header(t, payload) + payload;
    assert Zeros(0) == [];
    assert Zeros(Pad(c)) + Header(t, payload) + payload == frame;
    assert frame <= log[c..];
    assert buffer == log[c..][..|buffer|];
    PrefixOfWindow(log[c..], frame, buffer);
    hide *;
    assert Header(t, payload) == frame[..HEADER_SIZE];
    HeaderParses(buffer, t, payload);
    if HEADER_SIZE + |payload| <= |buffer| {
      ParseFragment(buffer, t, payload);
    }
  }

  /** Replaying a log as recovery does: from any byte prefix of a written log come exactly the records whose last
      byte the prefix holds, in order, and nothing is reported as dropped. */
  method ReadAll(file: Bytes, ghost records: seq<Bytes>) returns (found: seq<Bytes>, drops: seq<nat>)
    ensures file <= Log(0, records) ==> found == records[..Complete(0, records, |file|)] && drops == []
  {
    var reader := new Reader(file, true);
    ghost var log, rest := Log(0, records), records;
    ghost var expected := file <= log;
    found := [];
    while true
      invariant reader.Valid() && reader.file == file && fresh(reader)
      invariant expected ==> LeftToRead(log, reader.Consumed(), rest, records, found, |file|) && reader.drops == []
      decreases |file| - reader.Consumed()
    {
      ghost var c := reader.Consumed();
      if expected && rest != [] {
        NextRecord(log, c, rest, records, found, |file|);
      }
      var ok, record := reader.ReadRecord(log, if rest == [] then [] else rest[0]);
      if !ok {
        return found, reader.drops;
      }
      found := found + [record];
      rest := if rest == [] then [] else rest[1..];
    }
  }

  /** `rest` is what the log holds from `offset` on, and reading it completes `found`. */
  ghost predicate LeftToRead(log: Bytes, offset: nat, rest: seq<Bytes>, records: seq<Bytes>, found: seq<Bytes>,
                             n: nat) {
    && offset <= |log| && log[offset..] == Log(offset, rest)
    && found + rest[..Complete(offset, rest, n)] == records[..Complete(0, records, n)]
  }

  lemma NextRecord(log: Bytes, offset: nat, rest: seq<Bytes>, records: seq<Bytes>, found: seq<Bytes>, n: nat)
    requires LeftToRead(log, offset, rest, records, found, n) && rest != []
    ensures Holds(log, offset, rest[0], true)
    ensures var end := RecordEnd(offset, rest[0], true);
            if end <= n then LeftToRead(log, end, rest[1..], records, found + [rest[0]], n)
            else found == records[..Complete(0, records, n)]
  {
    hide Framed;
    var first, end := Framed(offset, rest[0], true), RecordEnd(offset, rest[0], true);
    assert log[offset..] == first + Log(end, rest[1..]);
    assert log[end..] == log[offset..][|first|..];
    if end <= n {
      var k := Complete(end, rest[1..], n);
      assert rest[..k + 1] == [rest[0]] + rest[1..][..k];
    }
  }
}
