// The log writer and reader as code (db/log_writer.cc, db/log_reader.cc), for a
// reader that starts at offset 0 and files whose operations succeed.

module LogCode {
  import opened Wrappers
  import opened Coding
  import opened LogFormat

  class Writer {
    const crc: Checksum
    var dest: seq<byte>      // the file, from its start
    var blockOffset: nat

    // Writer(dest, dest_length)
    constructor (crc: Checksum, dest: seq<byte>)
      ensures Valid() && this.dest == dest && this.crc == crc
    {
      this.crc, this.dest := crc, dest;
      blockOffset := |dest| % BLOCK_SIZE;
      new;
      LeftoverIsModulo(|dest|);
    }

    // A block just filled and a block just begun are the same file position.
    ghost predicate Valid()
      reads this
    {
      && blockOffset <= BLOCK_SIZE
      && Leftover(|dest|) == if blockOffset == BLOCK_SIZE then BLOCK_SIZE else BLOCK_SIZE - blockOffset
    }

    method EmitPhysicalRecord(t: byte, payload: seq<byte>)
      requires Valid() && blockOffset + HEADER_SIZE + |payload| <= BLOCK_SIZE
      modifies this
      ensures Valid() && dest == old(dest) + PhysicalRecord(crc, t, payload)
      ensures blockOffset == old(blockOffset) + HEADER_SIZE + |payload|
    {
      LeftoverAfter(|dest|, HEADER_SIZE + |payload|);
      var length := |payload|;
      var sum := crc.mask(crc.value([t] + payload));
      var header: seq<byte> := EncodeFixed32(sum) + [length % 256, length / 256, t];
      dest := dest + header;
      dest := dest + payload;
      blockOffset := blockOffset + HEADER_SIZE + length;
      assert dest == old(dest) + (header + payload);
    }

    // Make room for a header, filling the trailer of a block that has none.
    method SwitchBlock(ghost left: seq<byte>, ghost begin: bool)
      requires Valid()
      modifies this
      ensures Valid() && blockOffset + HEADER_SIZE <= BLOCK_SIZE
      ensures if Leftover(|old(dest)|) >= HEADER_SIZE then dest == old(dest) else Leftover(|dest|) == BLOCK_SIZE
      ensures dest + Fragments(crc, |dest|, left, begin) == old(dest) + Fragments(crc, |old(dest)|, left, begin)
    {
      hide Fragments;
      var leftover := BLOCK_SIZE - blockOffset;
      if leftover < HEADER_SIZE {
        if leftover > 0 {
          FragmentsAfterTrailer(crc, |dest|, left, begin);
          LeftoverAfter(|dest|, leftover);
          dest := dest + Zeros(leftover);
        }
        blockOffset := 0;
      }
    }

    // Emit the next fragment of what is left of a record.
    method EmitFragment(left: seq<byte>, begin: bool) returns (n: nat)
      requires Valid() && blockOffset + HEADER_SIZE <= BLOCK_SIZE
      modifies this
      ensures Valid() && n <= |left| && n == FragmentLength(|old(dest)|, |left|)
      ensures blockOffset == old(blockOffset) + HEADER_SIZE + n
      ensures dest + (if n == |left| then [] else Fragments(crc, |dest|, left[n..], false))
           == old(dest) + Fragments(crc, |old(dest)|, left, begin)
    {
      hide Fragments, PhysicalRecord;
      FragmentsUnfold(crc, |dest|, left, begin);
      var avail := BLOCK_SIZE - blockOffset - HEADER_SIZE;
      n := if |left| < avail then |left| else avail;
      var end := |left| == n;
      var t: byte;
      if begin && end {
        t := FULL_TYPE;
      } else if begin {
        t := FIRST_TYPE;
      } else if end {
        t := LAST_TYPE;
      } else {
        t := MIDDLE_TYPE;
      }
      EmitPhysicalRecord(t, left[..n]);
    }

    method AddRecord(data: seq<byte>)
      requires Valid()
      modifies this
      ensures Valid() && dest == old(dest) + Fragments(crc, |old(dest)|, data, true)
    {
      hide Fragments;
      var left := data;
      var begin := true;
      while true
        invariant Valid()
        invariant dest + Fragments(crc, |dest|, left, begin) == old(dest) + Fragments(crc, |old(dest)|, data, true)
        decreases |left|, Leftover(|dest|) == HEADER_SIZE
      {
        SwitchBlock(left, begin);
        var n := EmitFragment(left, begin);
        left := left[n..];
        begin := false;
        if left == [] {
          break;
        }
      }
    }
  }

  class Reader {
    const crc: Checksum
    const file: seq<byte>
    var filePos: nat           // how far the file has been read
    var buffer: seq<byte>
    var eof: bool              // last Read() indicated EOF by returning < BLOCK_SIZE
    var corruptions: nat       // calls of reporter->Corruption

    constructor (crc: Checksum, file: seq<byte>)
      ensures Valid() && Pos() == 0 && corruptions == 0
      ensures this.crc == crc && this.file == file
    {
      this.crc, this.file := crc, file;
      filePos, buffer, eof, corruptions := 0, [], false, 0;
    }

    // The buffer is what is left of the block last read.
    ghost predicate Valid()
      reads this
    {
      && |buffer| <= filePos <= |file| && buffer == file[filePos - |buffer|..filePos]
      && if eof then filePos == |file| && filePos < Pos() + Leftover(Pos())
         else if buffer == [] then Leftover(filePos) == BLOCK_SIZE
         else filePos == Pos() + Leftover(Pos())
    }

    ghost function Pos(): nat
      requires |buffer| <= filePos
      reads this
    {
      filePos - |buffer|
    }

    // file_->Read(kBlockSize, &buffer_)
    method ReadBlock()
      requires Valid() && !eof && |buffer| < HEADER_SIZE
      modifies this`filePos, this`buffer, this`eof
      ensures Valid() && Pos() == old(filePos) && (eof || |buffer| == BLOCK_SIZE)
    {
      LeftoverAfter(filePos - |buffer|, |buffer|);
      var end := if filePos + BLOCK_SIZE <= |file| then filePos + BLOCK_SIZE else |file|;
      buffer := file[filePos..end];
      filePos := end;
      if |buffer| < BLOCK_SIZE {
        eof := true;
      }
    }

    method ReadPhysicalRecord() returns (r: Physical)
      requires Valid()
      modifies this
      ensures Valid() && r == ReadPhysical(crc, file, old(Pos()))
      ensures if r.EndOfFile? then eof && buffer == [] else Pos() == r.next
      ensures corruptions == old(corruptions) + One(r.BadRecord? && r.dropped > 0)
    {
      hide ParseBuffer, ReadPhysical, Leftover;
      ghost var p := Pos();
      LeftoverAfter(p, Leftover(p));
      while |buffer| < HEADER_SIZE
        invariant Valid() && corruptions == old(corruptions)
        invariant Pos() == p || (Pos() == p + Leftover(p) && Leftover(p) < HEADER_SIZE)
        decreases if eof then 0 else 1, if |buffer| < HEADER_SIZE then 1 else 0
      {
        if !eof {
          // Last read was a full read, so this is a trailer to skip.
          ReadBlock();
        } else {
          // A truncated header at the end of the file is not an error.
          EndIsEnd(crc, file, p, Pos());
          buffer := [];
          return EndOfFile;
        }
      }

      ParsedHere(crc, file, p, Pos());
      r := ParseBufferedRecord();
    }

    // buffer_.clear()
    method ClearBuffer()
      requires Valid()
      modifies this`buffer
      ensures Valid() && buffer == [] && Pos() == filePos
    {
      LeftoverAfter(Pos(), Leftover(Pos()));
      buffer := [];
    }

    // buffer_.remove_prefix(n)
    method RemovePrefix(n: nat)
      requires Valid() && n <= |buffer|
      modifies this`buffer
      ensures Valid() && Pos() == old(Pos()) + n
    {
      if n < Leftover(Pos()) {
        LeftoverAfter(Pos(), n);
      } else {
        LeftoverAfter(Pos(), Leftover(Pos()));
      }
      SliceInFile(file, Pos(), filePos, n, |buffer|);
      buffer := buffer[n..];
    }

    // ReadPhysicalRecord from "Parse the header" on.
    method ParseBufferedRecord() returns (r: Physical)
      requires Valid() && |buffer| >= HEADER_SIZE
      modifies this`buffer, this`corruptions
      ensures Valid() && r == ParseBuffer(crc, old(buffer), old(Pos()), !eof)
      ensures if r.EndOfFile? then eof && buffer == [] else Pos() == r.next
      ensures corruptions == old(corruptions) + One(r.BadRecord? && r.dropped > 0)
    {
      hide DecodeFixed32, Leftover;
      var header := buffer;
      var dropSize := |buffer|;
      var length := header[4] as int + header[5] as int * 256;
      var kind := header[6];
      if HEADER_SIZE + length > |buffer| {
        ClearBuffer();
        if !eof {
          corruptions := corruptions + 1;
          return BadRecord(dropSize, filePos);
        }
        return EndOfFile;
      }
      if kind == ZERO_TYPE && length == 0 {
        // Skip without reporting: preallocated file regions look like this.
        ClearBuffer();
        return BadRecord(0, filePos);
      }
      var expectedCrc := crc.unmask(DecodeFixed32(header));
      var actualCrc := crc.value(header[6..7 + length]);
      if actualCrc != expectedCrc {
        ClearBuffer();
        corruptions := corruptions + 1;
        return BadRecord(dropSize, filePos);
      }
      RemovePrefix(HEADER_SIZE + length);
      return Fragment(kind, header[7..7 + length], filePos - |buffer|);
    }

    method ReadRecord() returns (record: Option<seq<byte>>)
      requires Valid()
      modifies this
      ensures Valid()
      ensures var r := ReadLogical(crc, file, old(Pos()), false, []);
        && record == (if r.Record? then Some(r.data) else None)
        && corruptions == old(corruptions) + r.reports
        && (r.Record? ==> Pos() == r.next)
    {
      hide ReadPhysical, Leftover;
      ghost var r := ReadLogical(crc, file, Pos(), false, []);
      var scratch := [];
      var inFragmentedRecord := false;
      while true
        invariant Valid() && corruptions >= old(corruptions)
        invariant r == ReadLogical(crc, file, Pos(), inFragmentedRecord, scratch).Plus(corruptions - old(corruptions))
        decreases |file| - Pos()
      {
        var p := ReadPhysicalRecord();
        match p
        case EndOfFile =>
          return None;
        case BadRecord(_, _) =>
          if inFragmentedRecord {
            corruptions := corruptions + 1;
            inFragmentedRecord := false;
            scratch := [];
          }
        case Fragment(kind, fragment, _) =>
          if kind == FULL_TYPE {
            if inFragmentedRecord && scratch != [] {
              corruptions := corruptions + 1;
            }
            return Some(fragment);
          } else if kind == FIRST_TYPE {
            if inFragmentedRecord && scratch != [] {
              corruptions := corruptions + 1;
            }
            scratch := fragment;
            inFragmentedRecord := true;
          } else if kind == MIDDLE_TYPE {
            if !inFragmentedRecord {
              corruptions := corruptions + 1;
            } else {
              scratch := scratch + fragment;
            }
          } else if kind == LAST_TYPE {
            if !inFragmentedRecord {
              corruptions := corruptions + 1;
            } else {
              scratch := scratch + fragment;
              return Some(scratch);
            }
          } else {
            corruptions := corruptions + 1;
            inFragmentedRecord := false;
            scratch := [];
          }
      }
    }
  }

  // Skipping a trailer does not change what is read next.
  lemma ParsedHere(crc: Checksum, file: seq<byte>, p: nat, q: nat)
    requires q <= |file| && Leftover(q) >= HEADER_SIZE
    requires q == p || (q == p + Leftover(p) && Leftover(p) < HEADER_SIZE)
    ensures p <= |file| && ReadPhysical(crc, file, p) == ParseHeader(crc, file, q)
  {
    LeftoverAfter(p, Leftover(p));
  }

  lemma EndIsEnd(crc: Checksum, file: seq<byte>, p: nat, q: nat)
    requires q <= |file| < q + HEADER_SIZE && |file| < q + Leftover(q)
    requires q == p || (q == p + Leftover(p) && Leftover(p) < HEADER_SIZE)
    ensures p <= |file| && ReadPhysical(crc, file, p) == EndOfFile
  {
    LeftoverAfter(p, Leftover(p));
  }

  lemma SliceInFile(file: seq<byte>, p: nat, end: nat, i: nat, j: nat)
    requires p <= end <= |file| && i <= j <= end - p
    ensures file[p..end][i..j] == file[p + i..p + j]
  {
    assert forall k :: 0 <= k < j - i ==> file[p..end][i..j][k] == file[p + i..p + j][k];
  }
}
