// The record log (db/log_format.h): what a log of whole records looks like, and
// what a reader makes of any bytes.

module LogFormat {
  import opened Coding

  const BLOCK_SIZE: nat := 32768
  const HEADER_SIZE: nat := 7

  // Record types
  const ZERO_TYPE: byte := 0
  const FULL_TYPE: byte := 1
  const FIRST_TYPE: byte := 2
  const MIDDLE_TYPE: byte := 3
  const LAST_TYPE: byte := 4

  // crc32c::Value, Mask and Unmask.  All that matters is that Unmask undoes Mask.
  datatype Checksum = Checksum(value: seq<byte> -> uint32, mask: uint32 -> uint32, unmask: uint32 -> uint32)
  {
    ghost predicate Unmasks() {
      forall x :: unmask(mask(x)) == x
    }
  }

  // The checksum the log uses, for any crc function.
  function MaskedCrc(value: seq<byte> -> uint32): Checksum {
    Checksum(value, Mask, Unmask)
  }

  lemma MaskedCrcUnmasks(value: seq<byte> -> uint32)
    ensures MaskedCrc(value).Unmasks()
  {
    forall x: uint32 ensures Unmask(Mask(x)) == x { UnmaskInvertsMask(x); }
  }

  /* Writing. */

  function TypeOf(begin: bool, end: bool): byte {
    if begin && end then FULL_TYPE else if begin then FIRST_TYPE else if end then LAST_TYPE else MIDDLE_TYPE
  }

  function PhysicalRecord(crc: Checksum, t: byte, payload: seq<byte>): (r: seq<byte>)
    requires |payload| <= 0xffff
    ensures |r| == HEADER_SIZE + |payload|
  {
    EncodeFixed32(crc.mask(crc.value([t] + payload))) + [|payload| % 256, |payload| / 256, t] + payload
  }

  // Bytes left in the block that holds file position `pos`.
  function Leftover(pos: nat): (n: nat)
    ensures 1 <= n <= BLOCK_SIZE
  {
    if pos < BLOCK_SIZE then BLOCK_SIZE - pos else Leftover(pos - BLOCK_SIZE)
  }

  lemma {:induction false} LeftoverAfter(pos: nat, n: nat)
    requires n <= Leftover(pos)
    ensures Leftover(pos + n) == if n < Leftover(pos) then Leftover(pos) - n else BLOCK_SIZE
  {
    if pos >= BLOCK_SIZE { LeftoverAfter(pos - BLOCK_SIZE, n); }
  }

  // The block offset kept by the writer is the file length modulo the block size.
  lemma {:induction false} LeftoverIsModulo(pos: nat)
    ensures Leftover(pos) == 32768 - pos % 32768
  {
    if pos >= BLOCK_SIZE {
      LeftoverIsModulo(pos - BLOCK_SIZE);
      assert (pos - BLOCK_SIZE) % BLOCK_SIZE == pos % BLOCK_SIZE;
    }
  }

  function Min(a: nat, b: nat): nat { if a < b then a else b }

  // The payload length of the fragment written at `pos` when `left` bytes remain.
  function FragmentLength(pos: nat, left: nat): (n: nat)
    requires Leftover(pos) >= HEADER_SIZE
    ensures n <= left && HEADER_SIZE + n <= Leftover(pos)
    ensures n < left ==> HEADER_SIZE + n == Leftover(pos)
  {
    Min(left, Leftover(pos) - HEADER_SIZE)
  }

  // The bytes a record adds to a file of length `pos`: trailers of at most six
  // zeros where a header does not fit, and one physical record a fragment.
  function Fragments(crc: Checksum, pos: nat, data: seq<byte>, begin: bool): seq<byte>
    decreases |data|, Leftover(pos) < HEADER_SIZE, Leftover(pos) == HEADER_SIZE
  {
    var leftover := Leftover(pos);
    LeftoverAfter(pos, leftover);
    if leftover < HEADER_SIZE then
      Zeros(leftover) + Fragments(crc, pos + leftover, data, begin)
    else
      var n := FragmentLength(pos, |data|);
      var end := n == |data|;
      LeftoverAfter(pos, HEADER_SIZE + n);
      PhysicalRecord(crc, TypeOf(begin, end), data[..n])
        + if end then [] else Fragments(crc, pos + HEADER_SIZE + n, data[n..], false)
  }

  lemma FragmentsAfterTrailer(crc: Checksum, pos: nat, data: seq<byte>, begin: bool)
    requires Leftover(pos) < HEADER_SIZE
    ensures Fragments(crc, pos, data, begin)
         == Zeros(Leftover(pos)) + Fragments(crc, pos + Leftover(pos), data, begin)
  {
  }

  lemma FragmentsUnfold(crc: Checksum, pos: nat, data: seq<byte>, begin: bool)
    requires Leftover(pos) >= HEADER_SIZE
    ensures var n := FragmentLength(pos, |data|);
      var end := n == |data|;
      Fragments(crc, pos, data, begin)
         == PhysicalRecord(crc, TypeOf(begin, end), data[..n])
            + if end then [] else Fragments(crc, pos + HEADER_SIZE + n, data[n..], false)
  {
  }

  // A log of the given records, started when the file has length `pos`.
  function Log(crc: Checksum, pos: nat, records: seq<seq<byte>>): seq<byte>
    decreases |records|
  {
    if records == [] then []
    else
      var first := Fragments(crc, pos, records[0], true);
      first + Log(crc, pos + |first|, records[1..])
  }

  /* Reading: what ReadPhysicalRecord finds at a file position. */

  datatype Physical =
    | Fragment(kind: byte, payload: seq<byte>, next: nat)
    | BadRecord(dropped: nat, next: nat)   // reported if dropped > 0
    | EndOfFile

  function ReadPhysical(crc: Checksum, file: seq<byte>, pos: nat): (r: Physical)
    requires pos <= |file|
    ensures r.Fragment? ==> pos < r.next <= |file|
    ensures r.BadRecord? ==> pos < r.next <= |file|
  {
    LeftoverAfter(pos, Leftover(pos));
    if Leftover(pos) < HEADER_SIZE then
      // A trailer to skip, unless the file ends in it.
      if pos + Leftover(pos) <= |file| then ParseHeader(crc, file, pos + Leftover(pos)) else EndOfFile
    else
      ParseHeader(crc, file, pos)
  }

  // A physical record at a position with room for a header in its block.
  function ParseHeader(crc: Checksum, file: seq<byte>, pos: nat): (r: Physical)
    requires pos <= |file| && Leftover(pos) >= HEADER_SIZE
    ensures r.Fragment? ==> pos < r.next <= |file|
    ensures r.BadRecord? ==> pos < r.next <= |file|
  {
    var blockEnd := pos + Leftover(pos);
    ParseBuffer(crc, file[pos..Min(|file|, blockEnd)], pos, blockEnd <= |file|)
  }

  // The first physical record of a buffer read at `pos`; `full` says that the
  // buffer reaches the end of its block.
  function ParseBuffer(crc: Checksum, buffer: seq<byte>, pos: nat, full: bool): (r: Physical)
    ensures r.Fragment? ==> pos < r.next <= pos + |buffer|
    ensures r.BadRecord? ==> pos < r.next <= pos + |buffer|
  {
    if |buffer| < HEADER_SIZE then
      EndOfFile
    else
      var kind := buffer[6];
      var length := buffer[4] as int + buffer[5] as int * 256;
      if HEADER_SIZE + length > |buffer| then
        // A full block was read, so the length is wrong; otherwise the writer
        // died in the middle of the record.
        if full then BadRecord(|buffer|, pos + |buffer|) else EndOfFile
      else if kind == ZERO_TYPE && length == 0 then
        // Preallocated file regions look like this.
        BadRecord(0, pos + |buffer|)
      else if crc.unmask(DecodeFixed32(buffer)) != crc.value(buffer[6..7 + length]) then
        BadRecord(|buffer|, pos + |buffer|)
      else
        Fragment(kind, buffer[7..7 + length], pos + HEADER_SIZE + length)
  }

  /* Reading: what ReadRecord assembles. */

  datatype Logical =
    | Record(data: seq<byte>, next: nat, reports: nat)
    | NoMore(reports: nat)
  {
    function Plus(n: nat): (l: Logical)
      ensures l.Record? <==> Record?
      ensures Record? ==> l.next == next && l.data == data
    {
      if Record? then Record(data, next, n + reports) else NoMore(n + reports)
    }
  }

  // What ReadRecord does with one physical record: return, or go on with a new
  // scratch after making some reports.
  datatype Assembly =
    | Return(result: Logical)
    | GoOn(next: nat, inFragmented: bool, scratch: seq<byte>, reports: nat)

  function One(b: bool): nat { if b then 1 else 0 }

  function Assemble(p: Physical, inFragmented: bool, scratch: seq<byte>): (a: Assembly)
    ensures a.GoOn? ==> !p.EndOfFile? && a.next == p.next
    ensures a.Return? && a.result.Record? ==> p.Fragment? && a.result.next == p.next
  {
    match p
    case EndOfFile => Return(NoMore(0))
    case BadRecord(dropped, next) =>
      GoOn(next, false, if inFragmented then [] else scratch, One(dropped > 0) + One(inFragmented))
    case Fragment(kind, payload, next) =>
      if kind == FULL_TYPE then Return(Record(payload, next, One(inFragmented && scratch != [])))
      else if kind == FIRST_TYPE then GoOn(next, true, payload, One(inFragmented && scratch != []))
      else if kind == MIDDLE_TYPE then
        if inFragmented then GoOn(next, true, scratch + payload, 0) else GoOn(next, false, scratch, 1)
      else if kind == LAST_TYPE then
        if inFragmented then Return(Record(scratch + payload, next, 0)) else GoOn(next, false, scratch, 1)
      else GoOn(next, false, [], 1)
  }

  function ReadLogical(crc: Checksum, file: seq<byte>, pos: nat, inFragmented: bool, scratch: seq<byte>): (r: Logical)
    requires pos <= |file|
    ensures r.Record? ==> pos < r.next <= |file|
    decreases |file| - pos
  {
    match Assemble(ReadPhysical(crc, file, pos), inFragmented, scratch)
    case Return(result) => result
    case GoOn(next, f, s, reports) => ReadLogical(crc, file, next, f, s).Plus(reports)
  }

  // Reading until ReadRecord returns false: all records, and how many reports were made.
  function ReadAll(crc: Checksum, file: seq<byte>, pos: nat): (seq<seq<byte>>, nat)
    requires pos <= |file|
    decreases |file| - pos
  {
    match ReadLogical(crc, file, pos, false, [])
    case NoMore(reports) => ([], reports)
    case Record(data, next, reports) =>
      var (more, moreReports) := ReadAll(crc, file, next);
      ([data] + more, reports + moreReports)
  }

  /* Reading back what was written. */

  // From `pos` on, the file agrees with `bytes` for as long as both last.
  ghost predicate Agrees(file: seq<byte>, pos: nat, bytes: seq<byte>)
    decreases |bytes|
  {
    && pos <= |file|
    && (bytes != [] && pos < |file| ==> file[pos] == bytes[0] && Agrees(file, pos + 1, bytes[1..]))
  }

  lemma {:induction false} AgreesWithParts(file: seq<byte>, pos: nat, a: seq<byte>, b: seq<byte>)
    requires Agrees(file, pos, a + b)
    ensures Agrees(file, pos, a)
    ensures pos + |a| <= |file| ==> Agrees(file, pos + |a|, b)
    decreases |a|
  {
    if a == [] {
      assert a + b == b;
    } else if pos < |file| {
      assert (a + b)[1..] == a[1..] + b;
      AgreesWithParts(file, pos + 1, a[1..], b);
    }
  }

  lemma {:induction false} AgreesAt(file: seq<byte>, pos: nat, bytes: seq<byte>)
    requires Agrees(file, pos, bytes)
    ensures forall i :: 0 <= i < |bytes| && pos + i < |file| ==> file[pos + i] == bytes[i]
    decreases |bytes|
  {
    if bytes != [] && pos < |file| {
      AgreesAt(file, pos + 1, bytes[1..]);
      forall i | 0 <= i < |bytes| && pos + i < |file| ensures file[pos + i] == bytes[i] {
        if i > 0 { assert file[pos + 1 + (i - 1)] == bytes[1..][i - 1]; }
      }
    }
  }

  lemma {:induction false} AgreesWithSelf(file: seq<byte>, pos: nat, bytes: seq<byte>)
    requires pos <= |file|
    requires forall i :: 0 <= i < |bytes| && pos + i < |file| ==> file[pos + i] == bytes[i]
    ensures Agrees(file, pos, bytes)
    decreases |bytes|
  {
    if bytes != [] && pos < |file| {
      AgreesWithSelf(file, pos + 1, bytes[1..]);
    }
  }

  // Where the parts of a physical record are.
  lemma PhysicalRecordParts(crc: Checksum, t: byte, payload: seq<byte>, r: seq<byte>)
    requires |payload| <= 0xffff && r == PhysicalRecord(crc, t, payload)
    ensures DecodeFixed32(r) == crc.mask(crc.value([t] + payload))
    ensures r[4] as int + r[5] as int * 256 == |payload| && r[6] == t
    ensures r[6..] == [t] + payload && r[7..] == payload
  {
    var sum := crc.mask(crc.value([t] + payload));
    var header: seq<byte> := [|payload| % 256, |payload| / 256, t];
    Fixed32RoundTrip(sum, header + payload);
    assert r == EncodeFixed32(sum) + (header + payload);
  }

  lemma SameHeader(a: seq<byte>, b: seq<byte>)
    requires |a| >= 4 && |b| >= 4 && a[..4] == b[..4]
    ensures DecodeFixed32(a) == DecodeFixed32(b)
  {
    assert forall i :: 0 <= i < 4 ==> a[i] == a[..4][i] == b[..4][i] == b[i];
  }

  lemma ReadWhole(crc: Checksum, file: seq<byte>, pos: nat, t: byte, payload: seq<byte>)
    requires crc.Unmasks() && t != ZERO_TYPE
    requires |payload| <= 0xffff && HEADER_SIZE + |payload| <= Leftover(pos)
    requires Agrees(file, pos, PhysicalRecord(crc, t, payload)) && pos + HEADER_SIZE + |payload| <= |file|
    ensures ReadPhysical(crc, file, pos) == Fragment(t, payload, pos + HEADER_SIZE + |payload|)
  {
    hide PhysicalRecord, Agrees, DecodeFixed32, ParseBuffer;
    var r := PhysicalRecord(crc, t, payload);
    AgreesAt(file, pos, r);
    ParseWhole(crc, file[pos..Min(|file|, pos + Leftover(pos))], pos, t, payload, pos + Leftover(pos) <= |file|);
  }

  lemma ParseWhole(crc: Checksum, buffer: seq<byte>, pos: nat, t: byte, payload: seq<byte>, full: bool)
    requires crc.Unmasks() && t != ZERO_TYPE && |payload| <= 0xffff
    requires HEADER_SIZE + |payload| <= |buffer|
    requires forall i :: 0 <= i < HEADER_SIZE + |payload| ==> buffer[i] == PhysicalRecord(crc, t, payload)[i]
    ensures ParseBuffer(crc, buffer, pos, full) == Fragment(t, payload, pos + HEADER_SIZE + |payload|)
  {
    hide PhysicalRecord, DecodeFixed32;
    var r := PhysicalRecord(crc, t, payload);
    var n := |payload|;
    PhysicalRecordParts(crc, t, payload, r);
    assert buffer[..7 + n] == r;
    assert buffer[6..7 + n] == buffer[..7 + n][6..];
    assert buffer[7..7 + n] == buffer[..7 + n][7..];
    assert buffer[..4] == r[..4];
    SameHeader(buffer, r);
  }

  lemma ReadTruncated(crc: Checksum, file: seq<byte>, pos: nat, t: byte, payload: seq<byte>)
    requires |payload| <= 0xffff && HEADER_SIZE + |payload| <= Leftover(pos)
    requires Agrees(file, pos, PhysicalRecord(crc, t, payload)) && |file| < pos + HEADER_SIZE + |payload|
    ensures ReadPhysical(crc, file, pos) == EndOfFile
  {
    var r := PhysicalRecord(crc, t, payload);
    if |file| - pos >= HEADER_SIZE {
      AgreesAt(file, pos, r);
      assert file[pos + 4] == r[4] == |payload| % 256 && file[pos + 5] == r[5] == |payload| / 256;
    }
  }

  lemma ReadTrailer(crc: Checksum, file: seq<byte>, pos: nat)
    requires pos <= |file| && Leftover(pos) < HEADER_SIZE
    ensures ReadPhysical(crc, file, pos)
         == if pos + Leftover(pos) <= |file| then ReadPhysical(crc, file, pos + Leftover(pos)) else EndOfFile
  {
    LeftoverAfter(pos, Leftover(pos));
  }

  // Reading the fragments of one record yields the record if all its bytes are
  // there, and the end of the file without a report if they are not.
  lemma {:induction false} ReadFragments(crc: Checksum, file: seq<byte>, pos: nat, data: seq<byte>, begin: bool, scratch: seq<byte>,
                                         bytes: seq<byte>, r: Logical)
    requires crc.Unmasks()
    requires bytes == Fragments(crc, pos, data, begin) && Agrees(file, pos, bytes)
    requires r == ReadLogical(crc, file, pos, !begin, scratch) && (begin ==> scratch == [])
    ensures r == RecordOrEnd(file, scratch + data, pos + |bytes|)
    decreases |data|, Leftover(pos) < HEADER_SIZE, Leftover(pos) == HEADER_SIZE
  {
    hide Fragments, ReadLogical;
    LeftoverAfter(pos, Leftover(pos));
    if Leftover(pos) < HEADER_SIZE {
      ReadPastTrailer(crc, file, pos, data, begin, scratch, bytes, r);
      var next := pos + Leftover(pos);
      var rest := Fragments(crc, next, data, begin);
      assert pos + |bytes| == next + |rest|;
      if next <= |file| {
        ReadFragments(crc, file, next, data, begin, scratch, rest, r);
      }
    } else {
      ReadFirstFragment(crc, file, pos, data, begin, scratch, bytes, r);
      var n := FragmentLength(pos, |data|);
      var next := pos + HEADER_SIZE + n;
      LeftoverAfter(pos, HEADER_SIZE + n);
      if next <= |file| && n < |data| {
        var rest := Fragments(crc, next, data[n..], false);
        ReadFragments(crc, file, next, data[n..], false, scratch + data[..n], rest, r);
        SplitData(scratch, data, n);
        assert pos + |bytes| == next + |rest|;
        assert r == RecordOrEnd(file, scratch + data, pos + |bytes|);
      }
    }
  }

  lemma ReadPastTrailer(crc: Checksum, file: seq<byte>, pos: nat, data: seq<byte>, begin: bool, scratch: seq<byte>,
                        bytes: seq<byte>, r: Logical)
    requires Leftover(pos) < HEADER_SIZE
    requires bytes == Fragments(crc, pos, data, begin) && Agrees(file, pos, bytes)
    requires r == ReadLogical(crc, file, pos, !begin, scratch)
    ensures var next := pos + Leftover(pos);
      var rest := Fragments(crc, next, data, begin);
      && Leftover(next) >= HEADER_SIZE && pos + |bytes| == next + |rest|
      && if next <= |file| then
           Agrees(file, next, rest) && r == ReadLogical(crc, file, next, !begin, scratch)
         else r == NoMore(0)
  {
    hide Fragments, ReadLogical, ReadPhysical, Agrees;
    var next := pos + Leftover(pos);
    LeftoverAfter(pos, Leftover(pos));
    FragmentsAfterTrailer(crc, pos, data, begin);
    AgreesWithParts(file, pos, Zeros(Leftover(pos)), Fragments(crc, next, data, begin));
    ReadTrailer(crc, file, pos);
    if next <= |file| {
      SameStart(crc, file, pos, next, !begin, scratch);
    } else {
      AssembleEnd(crc, file, pos, !begin, scratch);
    }
  }

  // One physical record of a written record: the reader stops at the end of the
  // file, completes the record, or goes on after it with a longer scratch.
  lemma ReadFirstFragment(crc: Checksum, file: seq<byte>, pos: nat, data: seq<byte>, begin: bool, scratch: seq<byte>,
                          bytes: seq<byte>, r: Logical)
    requires crc.Unmasks()
    requires Leftover(pos) >= HEADER_SIZE
    requires bytes == Fragments(crc, pos, data, begin) && Agrees(file, pos, bytes)
    requires r == ReadLogical(crc, file, pos, !begin, scratch) && (begin ==> scratch == [])
    ensures var n := FragmentLength(pos, |data|);
      var next := pos + HEADER_SIZE + n;
      if next > |file| then
        r == NoMore(0) && |file| < pos + |bytes|
      else if n == |data| then
        r == Record(scratch + data, next, 0) && pos + |bytes| == next
      else
        var rest := Fragments(crc, next, data[n..], false);
        && Agrees(file, next, rest) && pos + |bytes| == next + |rest|
        && r == ReadLogical(crc, file, next, true, scratch + data[..n])
  {
    hide Fragments, ReadLogical, ReadPhysical, Agrees;
    FragmentsUnfold(crc, pos, data, begin);
    var n := FragmentLength(pos, |data|);
    var next := pos + HEADER_SIZE + n;
    var end := n == |data|;
    var kind := TypeOf(begin, end);
    var first := PhysicalRecord(crc, kind, data[..n]);
    var rest := if end then [] else Fragments(crc, next, data[n..], false);
    AgreesWithParts(file, pos, first, rest);
    if next > |file| {
      ReadTruncated(crc, file, pos, kind, data[..n]);
      AssembleEnd(crc, file, pos, !begin, scratch);
    } else {
      ReadWhole(crc, file, pos, kind, data[..n]);
      AssembleStep(crc, file, pos, begin, end, scratch, data[..n], next);
      if end { assert data[..n] == data; }
    }
  }

  lemma AssembleStep(crc: Checksum, file: seq<byte>, pos: nat, begin: bool, end: bool, scratch: seq<byte>,
                     payload: seq<byte>, next: nat)
    requires pos <= |file| && ReadPhysical(crc, file, pos) == Fragment(TypeOf(begin, end), payload, next)
    requires begin ==> scratch == []
    ensures ReadLogical(crc, file, pos, !begin, scratch)
         == if end then Record(scratch + payload, next, 0) else ReadLogical(crc, file, next, true, scratch + payload)
  {
    if begin { assert scratch + payload == payload; }
  }

  lemma AssembleEnd(crc: Checksum, file: seq<byte>, pos: nat, inFragmented: bool, scratch: seq<byte>)
    requires pos <= |file| && ReadPhysical(crc, file, pos) == EndOfFile
    ensures ReadLogical(crc, file, pos, inFragmented, scratch) == NoMore(0)
  {
  }

  lemma SplitData(scratch: seq<byte>, data: seq<byte>, n: nat)
    requires n <= |data|
    ensures scratch + data[..n] + data[n..] == scratch + data
  {
  }

  function RecordOrEnd(file: seq<byte>, data: seq<byte>, end: nat): Logical {
    if end <= |file| then Record(data, end, 0) else NoMore(0)
  }

  // What is assembled depends on the position only through the next physical record.
  lemma SameStart(crc: Checksum, file: seq<byte>, p: nat, q: nat, inFragmented: bool, scratch: seq<byte>)
    requires p <= |file| && q <= |file| && ReadPhysical(crc, file, p) == ReadPhysical(crc, file, q)
    ensures ReadLogical(crc, file, p, inFragmented, scratch) == ReadLogical(crc, file, q, inFragmented, scratch)
  {
  }

  // How many of the records lie entirely within the first `size` bytes.
  function WholeRecords(crc: Checksum, pos: nat, records: seq<seq<byte>>, size: nat): (k: nat)
    ensures k <= |records|
    decreases |records|
  {
    if records == [] then 0
    else
      var next := pos + |Fragments(crc, pos, records[0], true)|;
      if next > size then 0 else 1 + WholeRecords(crc, next, records[1..], size)
  }

  lemma {:induction false} ReadLog(crc: Checksum, file: seq<byte>, pos: nat, records: seq<seq<byte>>)
    requires crc.Unmasks()
    requires Agrees(file, pos, Log(crc, pos, records)) && |file| <= pos + |Log(crc, pos, records)|
    ensures ReadAll(crc, file, pos) == (records[..WholeRecords(crc, pos, records, |file|)], 0)
    ensures |file| == pos + |Log(crc, pos, records)| ==> WholeRecords(crc, pos, records, |file|) == |records|
    decreases |records|
  {
    hide Fragments, ReadLogical;
    if records == [] {
      ReadNothing(crc, file, pos);
    } else {
      var next := pos + |Fragments(crc, pos, records[0], true)|;
      ReadFirstRecord(crc, file, pos, records);
      if next <= |file| {
        ReadLog(crc, file, next, records[1..]);
        var k := WholeRecords(crc, next, records[1..], |file|);
        assert [records[0]] + records[1..][..k] == records[..1 + k];
      }
    }
  }

  lemma ReadNothing(crc: Checksum, file: seq<byte>, pos: nat)
    requires pos == |file|
    ensures ReadLogical(crc, file, pos, false, []) == NoMore(0)
  {
    AssembleEnd(crc, file, pos, false, []);
  }

  lemma ReadFirstRecord(crc: Checksum, file: seq<byte>, pos: nat, records: seq<seq<byte>>)
    requires crc.Unmasks()
    requires records != [] && Agrees(file, pos, Log(crc, pos, records))
    ensures var next := pos + |Fragments(crc, pos, records[0], true)|;
      && |Log(crc, pos, records)| == next - pos + |Log(crc, next, records[1..])|
      && ReadLogical(crc, file, pos, false, []) == RecordOrEnd(file, records[0], next)
      && (next <= |file| ==> Agrees(file, next, Log(crc, next, records[1..])))
  {
    hide Fragments, ReadLogical, Agrees;
    var first := Fragments(crc, pos, records[0], true);
    AgreesWithParts(file, pos, first, Log(crc, pos + |first|, records[1..]));
    ReadFragments(crc, file, pos, records[0], true, [], first, ReadLogical(crc, file, pos, false, []));
    assert [] + records[0] == records[0];
  }

  // Round trip: reading a log from its start returns exactly its records.
  lemma LogRoundTrip(value: seq<byte> -> uint32, records: seq<seq<byte>>)
    ensures var crc := MaskedCrc(value); ReadAll(crc, Log(crc, 0, records), 0) == (records, 0)
  {
    var crc := MaskedCrc(value);
    var file := Log(crc, 0, records);
    MaskedCrcUnmasks(value);
    AgreesWithSelf(file, 0, file);
    ReadLog(crc, file, 0, records);
    assert records[..|records|] == records;
  }

  // A crash that leaves any prefix of the file loses only a suffix of the
  // records, and the reader reports no corruption.
  lemma LogCrashSafety(value: seq<byte> -> uint32, records: seq<seq<byte>>, size: nat)
    requires size <= |Log(MaskedCrc(value), 0, records)|
    ensures var crc := MaskedCrc(value);
      ReadAll(crc, Log(crc, 0, records)[..size], 0) == (records[..WholeRecords(crc, 0, records, size)], 0)
  {
    var crc := MaskedCrc(value);
    var whole := Log(crc, 0, records);
    MaskedCrcUnmasks(value);
    AgreesWithSelf(whole[..size], 0, whole);
    ReadLog(crc, whole[..size], 0, records);
  }
}
