// What the log reader makes of files no writer produced: damaged, overwritten
// or preallocated ones (db/log_reader.cc:56-271).

module LogDamage {
  import opened Coding
  import opened LogFormat

  // Where the next header is: a block's last six bytes have room for none.
  function HeaderAt(pos: nat): (q: nat) {
    if Leftover(pos) < 7 then pos + Leftover(pos) else pos
  }

  // The end of the block that holds a position, or of the file.
  function BufferEnd(file: seq<byte>, q: nat): nat {
    if q + Leftover(q) <= |file| then q + Leftover(q) else |file|
  }

  function LengthAt(file: seq<byte>, q: nat): nat
    requires q + 7 <= |file|
  {
    file[q + 4] as int + 256 * file[q + 5] as int
  }

  // All bytes of a record are in its block and in the file.
  ghost predicate Complete(file: seq<byte>, q: nat) {
    q + 7 <= |file| && q + 7 + LengthAt(file, q) <= BufferEnd(file, q)
  }

  // The header and payload of a preallocated region.
  ghost predicate Blank(file: seq<byte>, q: nat) {
    q + 7 <= |file| && LengthAt(file, q) == 0 && file[q + 6] == 0
  }

  // The sum of type and payload is the one stored in front of them.
  ghost predicate SumMatches(crc: Checksum, file: seq<byte>, q: nat)
    requires Complete(file, q)
  {
    crc.value([file[q + 6]] + file[q + 7..q + 7 + LengthAt(file, q)])
      == crc.unmask(file[q] as int + 0x100 * file[q + 1] as int + 0x1_0000 * file[q + 2] as int + 0x100_0000 * file[q + 3] as int)
  }

  ghost predicate Intact(crc: Checksum, file: seq<byte>, q: nat) {
    Complete(file, q) && !Blank(file, q) && SumMatches(crc, file, q)
  }

  // The header's length runs over the end of its block, all of which was read.
  ghost predicate Overlong(file: seq<byte>, q: nat) {
    && q + 7 <= |file| && q + Leftover(q) <= |file|
    && 7 + LengthAt(file, q) > Leftover(q)
  }

  ghost function PhysicalAt(crc: Checksum, file: seq<byte>, q: nat): Physical {
    if Intact(crc, file, q) then
      var n := LengthAt(file, q);
      Fragment(file[q + 6], file[q + 7..q + 7 + n], q + 7 + n)
    else if Complete(file, q) && Blank(file, q) then
      BadRecord(0, BufferEnd(file, q))
    else if Complete(file, q) || Overlong(file, q) then
      BadRecord(BufferEnd(file, q) - q, BufferEnd(file, q))
    else
      EndOfFile
  }

  // What is read at a position of any file: an intact record; nothing, with
  // the rest of the block dropped, if the record is blank, its sum is wrong or
  // it is too long for its block; or the end, if the file ends within it.
  lemma PhysicalIs(crc: Checksum, file: seq<byte>, pos: nat)
    requires pos <= |file|
    ensures ReadPhysical(crc, file, pos) == PhysicalAt(crc, file, HeaderAt(pos))
  {
    var q := HeaderAt(pos);
    LeftoverAfter(pos, Leftover(pos));
    if q <= |file| {
      ParseIs(crc, file, q);
    }
  }

  lemma ParseIs(crc: Checksum, file: seq<byte>, q: nat)
    requires q <= |file| && Leftover(q) >= 7
    ensures ParseHeader(crc, file, q) == PhysicalAt(crc, file, q)
  {
    hide Leftover;
    var end := BufferEnd(file, q);
    var buffer := file[q..end];
    if |buffer| >= 7 {
      var n := LengthAt(file, q);
      if 7 + n <= |buffer| {
        SliceOf(file, q, end, 6, 7 + n);
        SliceOf(file, q, end, 7, 7 + n);
        assert file[q + 6..q + 7 + n] == [file[q + 6]] + file[q + 7..q + 7 + n];
      }
    }
  }

  lemma SliceOf(file: seq<byte>, p: nat, end: nat, i: nat, j: nat)
    requires p <= end <= |file| && i <= j <= end - p
    ensures file[p..end][i..j] == file[p + i..p + j]
  {
    assert forall k :: 0 <= k < j - i ==> file[p..end][i..j][k] == file[p + i..p + j][k];
  }

  /* Whole records. */

  // The payloads of consecutive intact records, from the one whose header is
  // at q on, in which nothing else lies: one of type FULL, or a FIRST, any
  // number of MIDDLEs and a LAST.
  datatype Piece = Piece(at: nat, kind: byte, payload: seq<byte>)

  ghost predicate IsPiece(crc: Checksum, file: seq<byte>, p: Piece) {
    && Intact(crc, file, p.at) && p.kind == file[p.at + 6]
    && p.payload == file[p.at + 7..p.at + 7 + LengthAt(file, p.at)]
  }

  ghost predicate Consecutive(crc: Checksum, file: seq<byte>, parts: seq<Piece>) {
    && (forall i :: 0 <= i < |parts| ==> IsPiece(crc, file, parts[i]))
    && forall i :: 0 <= i < |parts| - 1 ==> parts[i + 1].at == HeaderAt(parts[i].at + 7 + |parts[i].payload|)
  }

  function Joined(parts: seq<Piece>): seq<byte> {
    if parts == [] then [] else Joined(parts[..|parts| - 1]) + parts[|parts| - 1].payload
  }

  // A record begun and not yet ended.
  ghost predicate Begun(parts: seq<Piece>) {
    && parts != [] && parts[0].kind == 2
    && forall i :: 1 <= i < |parts| ==> parts[i].kind == 3
  }

  ghost predicate IsRecord(parts: seq<Piece>) {
    && parts != []
    && var n := |parts| - 1; if n == 0 then parts[0].kind == 1 else Begun(parts[..n]) && parts[n].kind == 4
  }

  ghost predicate Holds(crc: Checksum, file: seq<byte>, data: seq<byte>, next: nat, parts: seq<Piece>) {
    && Consecutive(crc, file, parts) && IsRecord(parts) && data == Joined(parts)
    && next == parts[|parts| - 1].at + 7 + |parts[|parts| - 1].payload|
  }

  // The scratch of a record being read is what its pieces so far hold.
  ghost predicate ScratchIs(crc: Checksum, file: seq<byte>, pos: nat, scratch: seq<byte>, parts: seq<Piece>) {
    && Consecutive(crc, file, parts) && Begun(parts) && scratch == Joined(parts)
    && pos == parts[|parts| - 1].at + 7 + |parts[|parts| - 1].payload|
  }

  lemma JoinOne(crc: Checksum, file: seq<byte>, pos: nat, scratch: seq<byte>, parts: seq<Piece>, p: Piece)
    requires IsPiece(crc, file, p) && p.at == HeaderAt(pos)
    requires parts == [] || ScratchIs(crc, file, pos, scratch, parts)
    ensures var next, data := p.at + 7 + |p.payload|, if parts == [] then p.payload else scratch + p.payload;
      && ((if parts == [] then p.kind == 2 else p.kind == 3) ==> ScratchIs(crc, file, next, data, parts + [p]))
      && ((if parts == [] then p.kind == 1 else p.kind == 4) ==> Holds(crc, file, data, next, parts + [p]))
  {
    hide IsPiece, HeaderAt;
    var all := parts + [p];
    assert all[..|parts|] == parts;
    assert Joined(all) == if parts == [] then p.payload else scratch + p.payload;
    forall i | 0 <= i < |all| - 1 ensures all[i + 1].at == HeaderAt(all[i].at + 7 + |all[i].payload|) {
      if i + 1 < |parts| { assert all[i + 1] == parts[i + 1]; }
    }
  }

  // Whatever ReadRecord returns, from whatever file, is made of consecutive
  // intact records of the right types, and of all of them.
  lemma {:induction false} ReturnedIsStored(crc: Checksum, file: seq<byte>, pos: nat, inFragmented: bool, scratch: seq<byte>,
                                            parts: seq<Piece>)
      returns (whole: seq<Piece>)
    requires pos <= |file| && if inFragmented then parts != [] && ScratchIs(crc, file, pos, scratch, parts) else parts == []
    ensures var r := ReadLogical(crc, file, pos, inFragmented, scratch);
      r.Record? ==> Holds(crc, file, r.data, r.next, whole)
    decreases |file| - pos
  {
    hide SumMatches, HeaderAt, ReadPhysical, ScratchIs, Holds;
    var p := ReadPhysical(crc, file, pos);
    PhysicalIs(crc, file, pos);
    whole := [];
    match Assemble(p, inFragmented, scratch)
    case Return(result) =>
      if result.Record? {
        var piece := Piece(HeaderAt(pos), p.kind, p.payload);
        var before := if p.kind == 1 then [] else parts;
        JoinOne(crc, file, pos, scratch, before, piece);
        whole := before + [piece];
      }
    case GoOn(next, f, s, _) =>
      var now := [];
      if f {
        var piece := Piece(HeaderAt(pos), p.kind, p.payload);
        var before := if p.kind == 2 then [] else parts;
        JoinOne(crc, file, pos, scratch, before, piece);
        now := before + [piece];
      }
      whole := ReturnedIsStored(crc, file, next, f, s, now);
  }

  lemma RecordIsStored(crc: Checksum, file: seq<byte>, pos: nat)
    requires pos <= |file|
    ensures var r := ReadLogical(crc, file, pos, false, []);
      r.Record? ==> exists parts :: Holds(crc, file, r.data, r.next, parts)
  {
    var parts := ReturnedIsStored(crc, file, pos, false, [], []);
  }

  // A complete record whose sum is wrong is reported, never returned, and the
  // rest of its block is not looked at; a record in progress is given up.
  lemma DamageIsReported(crc: Checksum, file: seq<byte>, pos: nat, inFragmented: bool, scratch: seq<byte>)
    requires pos <= |file| && (inFragmented || scratch == [])
    requires var q := HeaderAt(pos); Complete(file, q) && !Blank(file, q) && !SumMatches(crc, file, q)
    ensures var end := BufferEnd(file, HeaderAt(pos));
      && end <= |file|
      && ReadLogical(crc, file, pos, inFragmented, scratch)
         == ReadLogical(crc, file, end, false, []).Plus(if inFragmented then 2 else 1)
  {
    hide HeaderAt, SumMatches;
    PhysicalIs(crc, file, pos);
  }
}
