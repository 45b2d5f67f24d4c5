// The decoder over input streams (nanopb, pb_decode.c and the field cursor of
// pb_common.c), against the functions that say what the bytes mean.  An `or`
// into bits that are still clear is written as a sum.

module MessageReader {
  import opened Wrappers
  import opened Coding
  import opened Varint
  import opened Messages
  import opened MessageRoundTrip

  // pb_istream_t over a buffer
  class IStream {
    const source: seq<byte>
    var pos: nat
    var bytesLeft: nat

    constructor (source: seq<byte>, pos: nat, bytesLeft: nat)
      requires pos + bytesLeft <= |source|
      ensures Valid() && this.source == source && this.pos == pos && this.bytesLeft == bytesLeft
    {
      this.source, this.pos, this.bytesLeft := source, pos, bytesLeft;
    }

    ghost predicate Valid()
      reads this
    {
      pos + bytesLeft <= |source|
    }

    ghost function Rest(): (r: seq<byte>)
      requires Valid()
      reads this
      ensures |r| == bytesLeft
    {
      source[pos..pos + bytesLeft]
    }

    // Where the stream ends: substreams give back exactly what they were given.
    ghost function End(): nat
      reads this
    {
      pos + bytesLeft
    }

    // pb_read
    method Read(count: nat) returns (ok: bool, data: seq<byte>)
      requires Valid()
      modifies this
      ensures Valid() && End() == old(End()) && ok == Take(old(Rest()), count).Got?
      ensures ok ==> Take(old(Rest()), count) == Got(data, Rest())
    {
      if count == 0 {
        return true, [];
      }
      if bytesLeft < count {
        return false, [];
      }
      data := source[pos..pos + count];
      assert Rest()[..count] == data && Rest()[count..] == source[pos + count..pos + bytesLeft];
      pos, bytesLeft := pos + count, bytesLeft - count;
      return true, data;
    }

    // pb_readbyte
    method ReadByte() returns (ok: bool, b: byte)
      requires Valid()
      modifies this
      ensures Valid() && End() == old(End()) && ok == (old(Rest()) != [])
      ensures ok ==> b == old(Rest())[0] && Rest() == old(Rest())[1..]
    {
      if bytesLeft == 0 {
        return false, 0;
      }
      b := source[pos];
      pos, bytesLeft := pos + 1, bytesLeft - 1;
      return true, b;
    }

    // pb_decode_varint32
    method DecodeVarint32() returns (ok: bool, dest: nat)
      requires Valid()
      modifies this
      ensures Valid() && End() == old(End()) && ok == Varint.DecodeVarint32(old(Rest())).Got?
      ensures ok ==> Varint.DecodeVarint32(old(Rest())) == Got(dest, Rest())
    {
      var byte_;
      ok, byte_ := ReadByte();
      dest := 0;
      if !ok || byte_ < 0x80 {
        dest := byte_;
        return;
      }
      ghost var all := DecodeMore32(Rest(), 7, byte_ - 0x80);
      var bitpos, result := 7, byte_ - 0x80;
      while true
        invariant Valid() && End() == old(End()) && bitpos >= 7 && result >= 0 && DecodeMore32(Rest(), bitpos, result) == all
        decreases bytesLeft
      {
        ok, byte_ := ReadByte();
        if !ok {
          return;
        }
        if bitpos >= 32 {
          var signExtension := if bitpos < 63 then 0xFF else 0x01;
          if byte_ % 0x80 != 0 && (result / TWO_31 == 0 || byte_ != signExtension) {
            return false, 0;
          }
        } else {
          result := result + (byte_ % 0x80 * Pow2(bitpos)) % TWO_32;
        }
        bitpos := bitpos + 7;
        if byte_ < 0x80 {
          break;
        }
      }
      if bitpos == 35 && byte_ / 0x10 % 8 != 0 {
        return false, 0;
      }
      dest := result;
    }

    // pb_decode_varint
    method DecodeVarint() returns (ok: bool, dest: nat)
      requires Valid()
      modifies this
      ensures Valid() && End() == old(End()) && ok == Varint.DecodeVarint(old(Rest())).Got?
      ensures ok ==> Varint.DecodeVarint(old(Rest())) == Got(dest, Rest())
    {
      hide DecodeSeptets, Pow2, Prepended;
      ghost var all := DecodeSeptets(Rest(), 0);
      ghost var sum := 0;
      NothingRead(all);
      var bitpos, result := 0, 0;
      while true
        invariant Valid() && End() == old(End()) && bitpos >= 0 && sum >= 0 && result == sum % TWO_64
        invariant all == Prepended(sum, Pow2(bitpos), DecodeSeptets(Rest(), bitpos))
        decreases bytesLeft
      {
        NothingLeft(Rest(), bitpos, sum, all);
        if bitpos >= 64 {
          return false, 0;
        }
        ghost var rest := Rest();
        var byte_;
        ok, byte_ := ReadByte();
        if !ok {
          return false, 0;
        }
        SeptetStep(rest, bitpos, sum, all);
        ModStep(sum, byte_ % 0x80 * Pow2(bitpos));
        result := (result + byte_ % 0x80 * Pow2(bitpos) % TWO_64) % TWO_64;
        sum := sum + byte_ % 0x80 * Pow2(bitpos);
        bitpos := bitpos + 7;
        if byte_ < 0x80 {
          break;
        }
      }
      return true, result;
    }

    // pb_make_string_substream, pb_close_string_substream around what is done
    // with the substream: `data` is what the substream holds.
    method OpenSubstream() returns (ok: bool, sub: IStream?, ghost data: seq<byte>)
      requires Valid()
      modifies this
      ensures Valid() && End() <= old(End())
      ensures ok ==> sub != null && fresh(sub) && sub.Valid() && sub.Rest() == data && sub.source == source
      ensures match Varint.DecodeVarint32(old(Rest()))
              case Fail => !ok
              case Got(size, rest) =>
                && ok == (size <= |rest|)
                && (ok ==> data == rest[..size] && sub.End() + bytesLeft == old(End())
                           && source[sub.End()..sub.End() + bytesLeft] == rest[size..])
    {
      hide Varint.DecodeVarint32;
      var size;
      ok, size := DecodeVarint32();
      sub, data := null, [];
      if !ok {
        return;
      }
      if bytesLeft < size {
        return false, null, [];
      }
      ghost var rest := Rest();
      sub := new IStream(source, pos, size);
      bytesLeft := bytesLeft - size;
      data := sub.Rest();
      assert data == rest[..size];
      assert source[pos + size..pos + size + bytesLeft] == rest[size..];
    }

    method CloseSubstream(sub: IStream)
      requires sub != this && sub.Valid() && sub.source == source && sub.End() + bytesLeft <= |source|
      modifies this, sub
      ensures Valid() && End() == old(sub.End() + bytesLeft) && Rest() == old(source[sub.End()..sub.End() + bytesLeft])
    {
      if sub.bytesLeft > 0 {
        var _, _ := sub.Read(sub.bytesLeft);
      }
      pos := sub.pos;
    }

    // pb_decode_tag
    method DecodeTag() returns (ok: bool, wireType: nat, tag: nat, eof: bool)
      requires Valid() && bytesLeft > 0
      modifies this
      ensures Valid() && End() == old(End()) && wireType < 8
      ensures match Varint.DecodeVarint32(old(Rest()))
              case Fail => !ok && !eof
              case Got(key, rest) => if key == 0 then !ok && eof else ok && tag == key / 8 && wireType == key % 8 && Rest() == rest
    {
      eof, wireType, tag := false, 0, 0;
      var temp;
      ok, temp := DecodeVarint32();
      if !ok {
        return;
      }
      if temp == 0 {
        return false, 0, 0, true;
      }
      return true, temp % 8, temp / 8, false;
    }

    // pb_skip_varint
    method SkipVarint() returns (ok: bool)
      requires Valid()
      modifies this
      ensures Valid() && End() == old(End()) && ok == Messages.SkipVarint(old(Rest())).Got?
      ensures ok ==> Messages.SkipVarint(old(Rest())).rest == Rest()
    {
      ghost var all := Messages.SkipVarint(Rest());
      while true
        invariant Valid() && End() == old(End()) && all == Messages.SkipVarint(Rest())
        decreases bytesLeft
      {
        var byte_;
        ghost var rest := Rest();
        ok, byte_ := ReadByte();
        if !ok || byte_ < 0x80 {
          return;
        }
      }
    }

    // pb_skip_field
    method SkipField(wireType: nat) returns (ok: bool)
      requires Valid()
      modifies this
      ensures Valid() && End() == old(End()) && ok == Messages.SkipField(wireType, old(Rest())).Got?
      ensures ok ==> Messages.SkipField(wireType, old(Rest())).rest == Rest()
    {
      hide Varint.DecodeVarint32, Messages.SkipVarint;
      var data;
      match wireType {
        case 0 => ok := SkipVarint();
        case 1 => ok, data := Read(8);
        case 2 =>
          var length;
          ok, length := DecodeVarint32();
          if ok {
            ok, data := Read(length);
          }
        case 5 => ok, data := Read(4);
        case _ => ok := false;
      }
    }

    // The field decoders, into a field that held `cur`.
    method DecodeValue(kind: Kind, cur: Value) returns (ok: bool, v: Value)
      requires Valid() && KindOk(kind) && Decodable(kind)
      modifies this
      ensures Valid() && End() <= old(End()) && (ok ==> End() == old(End()))
      ensures ok == Messages.DecodeValue(kind, old(Rest()), cur).Got?
      ensures ok ==> Messages.DecodeValue(kind, old(Rest()), cur) == Got(v, Rest())
      decreases kind, 0, 0
    {
      hide Varint.DecodeVarint32, Varint.DecodeVarint, ToSigned, UnZigZag, DecodeFixed32, DecodeFixed64, Messages.DecodeNoInit;
      v := Num(0);
      var n;
      match kind {
        case Bool =>
          ok, n := DecodeVarint32();
          v := Num(if n != 0 then 1 else 0);
        case Varint(bits) =>
          ok, n := DecodeVarint();
          if ok {
            var signed := if bits == 64 then ToSigned(64, n) else ToSigned(32, n);
            v := Num(signed);
            ok := ToSigned(bits, signed) == signed;
          }
        case UVarint(bits) =>
          ok, n := DecodeVarint();
          if ok {
            v := Num(n);
            ok := n % Modulus(bits) == n;
          }
        case SVarint(bits) =>
          ok, n := DecodeVarint();
          if ok {
            var signed := UnZigZag(n);
            v := Num(signed);
            ok := ToSigned(bits, signed) == signed;
          }
        case Fixed32 =>
          var data;
          ghost var rest := Rest();
          ok, data := Read(4);
          if ok {
            Fixed32Prefix(data, rest);
            v := Num(DecodeFixed32(data));
          }
        case Fixed64 =>
          var data;
          ghost var rest := Rest();
          ok, data := Read(8);
          if ok {
            Fixed64Prefix(data, rest);
            v := Num(DecodeFixed64(data));
          }
        case Bytes(max) => ok, v := DecodeBytes(max);
        case String(dataSize) => ok, v := DecodeString(dataSize);
        case FixedBytes(size) => ok, v := DecodeFixedBytes(size);
        case Sub(desc) => ok, v := DecodeSubmessage(desc, cur);
      }
    }

    // pb_dec_bytes
    method DecodeBytes(max: nat) returns (ok: bool, v: Value)
      requires Valid()
      modifies this
      ensures Valid() && End() == old(End())
      ensures var r := DecodeBlob(old(Rest()), (size: nat) => size <= max); ok == r.Got? && (ok ==> r == Got(v, Rest()))
    {
      hide Varint.DecodeVarint32;
      v := Blob([]);
      var size;
      ok, size := DecodeVarint32();
      if !ok {
        return;
      }
      if size > max {
        return false, v;
      }
      var data;
      ok, data := Read(size);
      v := Blob(data);
    }

    // pb_dec_string
    method DecodeString(dataSize: nat) returns (ok: bool, v: Value)
      requires Valid()
      modifies this
      ensures Valid() && End() == old(End())
      ensures var r := DecodeBlob(old(Rest()), (size: nat) => size + 1 <= dataSize); ok == r.Got? && (ok ==> r == Got(v, Rest()))
    {
      hide Varint.DecodeVarint32;
      v := Blob([]);
      var size;
      ok, size := DecodeVarint32();
      if !ok {
        return;
      }
      var allocSize := size + 1;   // space for the terminator
      if allocSize > dataSize {
        return false, v;
      }
      var data;
      ok, data := Read(size);
      v := Blob(data);
    }

    // pb_dec_fixed_length_bytes
    method DecodeFixedBytes(n: nat) returns (ok: bool, v: Value)
      requires Valid()
      modifies this
      ensures Valid() && End() == old(End())
      ensures var r := Messages.DecodeValue(FixedBytes(n), old(Rest()), Num(0)); ok == r.Got? && (ok ==> r == Got(v, Rest()))
    {
      hide Varint.DecodeVarint32;
      v := Blob([]);
      var size;
      ok, size := DecodeVarint32();
      if !ok {
        return;
      }
      if size == 0 {
        return true, Blob(Zeros(n));
      }
      if size != n {
        return false, v;
      }
      var data;
      ok, data := Read(size);
      v := Blob(data);
    }

    // pb_dec_submessage.  An array's new entries are given as their defaults.
    method DecodeSubmessage(desc: Desc, cur: Value) returns (ok: bool, v: Value)
      requires Valid() && WellFormed(desc) && AllDecodable(desc)
      modifies this
      ensures Valid() && End() <= old(End()) && (ok ==> End() == old(End()))
      ensures var r := Messages.DecodeValue(Sub(desc), old(Rest()), cur); ok == r.Got? && (ok ==> r == Got(v, Rest()))
      decreases desc, 2, 0
    {
      hide Varint.DecodeVarint32, Messages.DecodeNoInit, WellFormed, AllDecodable, DefaultMessage;
      v := Msg([]);
      var sub;
      ghost var data;
      ok, sub, data := OpenSubstream();
      if !ok {
        return;
      }
      var slots := if cur.Msg? && |cur.slots| == |desc.fields| then cur.slots else DefaultMessage(desc);
      ok, slots := sub.DecodeNoInit(desc, slots);
      CloseSubstream(sub);
      v := Msg(slots);
    }

    // pb_decode_noinit
    method DecodeNoInit(desc: Desc, initial: seq<Slot>) returns (ok: bool, slots: seq<Slot>)
      requires Valid() && WellFormed(desc) && AllDecodable(desc) && |initial| == |desc.fields|
      modifies this
      ensures Valid() && End() <= old(End()) && (ok ==> End() == old(End()))
      ensures var r := Messages.DecodeNoInit(desc, old(Rest()), initial, {}); ok == r.Some? && (ok ==> r == Some(slots))
      decreases desc, 1, 0
    {
      hide Varint.DecodeVarint32, Messages.DecodeField, Messages.SkipField, WellFormed, AllDecodable, FindTag, AllRequiredSeen;
      slots := initial;
      ghost var all := Messages.DecodeNoInit(desc, Rest(), initial, {});
      ghost var seen: set<nat> := {};
      var fieldsSeen: set<nat> := {};
      var iter := new FieldCursor(desc.fields);
      SeenNothing(desc.fields);
      while bytesLeft > 0
        invariant Valid() && End() == old(End()) && iter.Valid() && fresh(iter) && iter.fields == desc.fields && |slots| == |desc.fields|
        invariant all == Messages.DecodeNoInit(desc, Rest(), slots, seen)
        invariant Records(desc.fields, fieldsSeen, seen)
        decreases bytesLeft
      {
        ghost var rest := Rest();
        var wireType, tag, eof;
        ok, wireType, tag, eof := DecodeTag();
        if !ok {
          if eof {
            break;
          }
          return;
        }
        var found := false;
        if |desc.fields| > 0 {
          found := iter.Find(tag);
          TagIsAt(desc, tag, iter.pos, found);
        }
        if !found {
          ok := SkipField(wireType);
          if !ok {
            return;
          }
          continue;
        }
        SeenOne(desc.fields, fieldsSeen, seen, iter.pos);
        if desc.fields[iter.pos].rule.Required? && iter.requiredIndex < PB_MAX_REQUIRED_FIELDS {
          fieldsSeen := fieldsSeen + {iter.requiredIndex};
        }
        seen := seen + {iter.pos};
        ok, slots := DecodeField(desc, iter.pos, wireType, slots);
        if !ok {
          return;
        }
      }
      ok := CheckRequired(desc.fields, iter, fieldsSeen, seen);
    }

    // decode_static_field
    method DecodeField(desc: Desc, i: nat, wireType: nat, before: seq<Slot>) returns (ok: bool, slots: seq<Slot>)
      requires Valid() && WellFormed(desc) && AllDecodable(desc) && i < |desc.fields| == |before|
      modifies this
      ensures Valid() && End() <= old(End()) && (ok ==> End() == old(End()) && bytesLeft <= old(bytesLeft))
      ensures var r := Messages.DecodeField(desc, i, wireType, old(Rest()), before); ok == r.Got? && (ok ==> r == Got(slots, Rest()))
      decreases desc, 0, 0
    {
      hide Messages.DecodeValue, DecodePacked, Varint.DecodeVarint32, Choose, WellFormed, AllDecodable, DefaultValue;
      slots := before;
      var field, slot := desc.fields[i], before[i];
      FieldOk(desc, i);
      var initial := DefaultValue(field.kind);
      var v;
      match field.rule {
        case Required =>
          ok, v := DecodeValue(field.kind, if slot.One? then slot.v else initial);
          slots := before[i := One(v)];
        case Optional =>
          ok, v := DecodeValue(field.kind, if slot.Maybe? && slot.o.Some? then slot.o.value else initial);
          slots := before[i := Maybe(Some(v))];
        case OneOf(union) =>
          ok, v := DecodeValue(field.kind, if slot.Picked? && slot.o.Some? then slot.o.value else initial);
          slots := Choose(desc, before, i, v);
        case Repeated(max) =>
          var vs := if slot.Many? then slot.vs else [];
          if wireType == 2 && Packable(field.kind) {
            var items;
            ok, items := ReadPacked(field.kind, vs, max);
            slots := before[i := Many(items)];
          } else {
            if |vs| >= max {
              return false, before;
            }
            ok, v := DecodeValue(field.kind, initial);
            slots := before[i := Many(vs + [v])];
          }
      }
    }

    // decode_static_field, a packed array.
    method ReadPacked(kind: Kind, before: seq<Value>, max: nat) returns (ok: bool, vs: seq<Value>)
      requires Valid() && KindOk(kind) && Decodable(kind)
      modifies this
      ensures Valid() && End() <= old(End()) && (ok ==> End() == old(End()))
      ensures match Varint.DecodeVarint32(old(Rest()))
              case Fail => !ok
              case Got(size, rest) =>
                if size > |rest| then !ok
                else ok == DecodePacked(kind, rest[..size], before, max).Some?
                     && (ok ==> DecodePacked(kind, rest[..size], before, max) == Some(vs) && Rest() == rest[size..])
      decreases kind, 1, 0
    {
      hide Messages.DecodeValue, Varint.DecodeVarint32, DefaultValue;
      vs := before;
      var sub;
      ghost var data;
      ok, sub, data := OpenSubstream();
      if !ok {
        return;
      }
      ghost var end := sub.End();
      while sub.bytesLeft > 0 && |vs| < max
        invariant sub.Valid() && sub.End() == end && ok
        invariant DecodePacked(kind, sub.Rest(), vs, max) == DecodePacked(kind, data, before, max)
        decreases max - |vs|
        modifies sub
      {
        PackedStep(kind, sub.Rest(), vs, max);
        var v;
        ok, v := sub.DecodeValue(kind, DefaultValue(kind));
        if !ok {
          break;
        }
        vs := vs + [v];
      }
      if ok { PackedEnd(kind, sub.Rest(), vs, max); }
      if sub.bytesLeft != 0 {
        return false, vs;   // array overflow
      }
      CloseSubstream(sub);
    }
  }

  // A number whose low part, below p, has been read already.
  ghost function Prepended(low: nat, p: nat, r: Parsed<nat>): Parsed<nat> {
    match r
    case Fail => Fail
    case Got(v, rest) => Got(low + p * v, rest)
  }

  lemma NothingRead(all: Parsed<nat>)
    ensures Prepended(0, Pow2(0), all) == all
  {
  }

  lemma NothingLeft(s: seq<byte>, bitpos: nat, sum: nat, all: Parsed<nat>)
    requires all == Prepended(sum, Pow2(bitpos), DecodeSeptets(s, bitpos))
    ensures bitpos >= 64 || s == [] ==> all == Fail
  {
  }

  lemma SeptetStep(s: seq<byte>, bitpos: nat, sum: nat, all: Parsed<nat>)
    requires s != [] && bitpos < 64 && all == Prepended(sum, Pow2(bitpos), DecodeSeptets(s, bitpos))
    ensures var sum' := sum + s[0] % 0x80 * Pow2(bitpos);
      if s[0] >= 0x80 then all == Prepended(sum', Pow2(bitpos + 7), DecodeSeptets(s[1..], bitpos + 7))
      else all == Got(sum', s[1..])
  {
    hide Pow2;
    var p, x := Pow2(bitpos), s[0] % 0x80;
    SevenMoreBits(bitpos);
    match DecodeSeptets(s[1..], bitpos + 7) {
      case Fail =>
      case Got(v, rest) => Distribute(sum, p, x, v);
    }
  }

  lemma Distribute(sum: nat, p: nat, x: nat, v: nat)
    ensures sum + p * (x + 128 * v) == sum + x * p + 128 * p * v
  {
  }

  lemma ModStep(sum: nat, more: nat)
    ensures (sum % TWO_64 + more % TWO_64) % TWO_64 == (sum + more) % TWO_64
  {
    assert sum + more == sum % TWO_64 + more % TWO_64 + TWO_64 * (sum / TWO_64 + more / TWO_64);
  }

  lemma PackedStep(kind: Kind, s: seq<byte>, vs: seq<Value>, max: nat)
    requires Decodable(kind) && s != [] && |vs| < max
    ensures DecodePacked(kind, s, vs, max)
         == match DecodeValue(kind, s, DefaultValue(kind))
            case Fail => None
            case Got(v, rest) => DecodePacked(kind, rest, vs + [v], max)
  {
    hide DecodeValue, DefaultValue;
  }

  lemma PackedEnd(kind: Kind, s: seq<byte>, vs: seq<Value>, max: nat)
    requires Decodable(kind) && (s == [] || |vs| >= max)
    ensures DecodePacked(kind, s, vs, max) == if s == [] then Some(vs) else None
  {
    hide DecodeValue, DefaultValue;
  }

  lemma Fixed32Prefix(data: seq<byte>, s: seq<byte>)
    requires |data| == 4 && |s| >= 4 && data == s[..4]
    ensures DecodeFixed32(data) == DecodeFixed32(s)
  {
  }

  lemma Fixed64Prefix(data: seq<byte>, s: seq<byte>)
    requires |data| == 8 && |s| >= 8 && data == s[..8]
    ensures DecodeFixed64(data) == DecodeFixed64(s)
  {
    Fixed32Prefix(data[..4], data);
    Fixed32Prefix(s[..4], s);
    assert data[4..][..4] == s[4..][..4];
    Fixed32Prefix(data[4..][..4], data[4..]);
    Fixed32Prefix(s[4..][..4], s[4..]);
  }

  lemma FieldOk(desc: Desc, i: nat)
    requires WellFormed(desc) && AllDecodable(desc) && i < |desc.fields|
    ensures KindOk(desc.fields[i].kind) && Decodable(desc.fields[i].kind)
  {
  }

  /* The field cursor (pb_common.c).  It goes round the table. */

  class FieldCursor {
    const fields: seq<Field>
    var pos: nat
    var requiredIndex: nat

    // pb_field_iter_begin
    constructor (fields: seq<Field>)
      ensures Valid() && this.fields == fields && pos == 0
    {
      this.fields, pos, requiredIndex := fields, 0, 0;
    }

    ghost predicate Valid()
      reads this
    {
      && (if fields == [] then pos == 0 else pos < |fields|)
      && requiredIndex == RequiredIndex(fields, pos)
    }

    // pb_field_iter_next: false where it wraps round.
    method Next() returns (more: bool)
      requires Valid()
      modifies this
      ensures Valid() && more == (old(pos) + 1 < |fields|) && pos == if more then old(pos) + 1 else 0
    {
      if |fields| == 0 {
        return false;
      }
      var wasRequired := fields[pos].rule.Required?;
      pos := pos + 1;
      if pos == |fields| {
        pos, requiredIndex := 0, 0;
        return false;
      }
      if wasRequired {
        requiredIndex := requiredIndex + 1;
      }
      return true;
    }

    // pb_field_iter_find: search on from where the cursor stands, all the way round.
    method Find(tag: nat) returns (found: bool)
      requires Valid() && fields != []
      modifies this
      ensures Valid() && (found ==> fields[pos].tag == tag)
      ensures !found ==> pos == old(pos) && forall i :: 0 <= i < |fields| ==> fields[i].tag != tag
    {
      var start := pos;
      ghost var wrapped := false;
      while true
        invariant Valid() && (wrapped ==> pos < start) && (!wrapped ==> pos >= start)
        invariant forall i :: start <= i < (if wrapped then |fields| else pos) ==> fields[i].tag != tag
        invariant wrapped ==> forall i :: 0 <= i < pos ==> fields[i].tag != tag
        decreases if wrapped then 0 else 1, |fields| - pos
      {
        if fields[pos].tag == tag {
          return true;
        }
        var more := Next();
        if !more { wrapped := true; }
        if pos == start {
          break;
        }
      }
      return false;
    }
  }

  lemma TagIsAt(desc: Desc, tag: nat, i: nat, found: bool)
    requires WellFormed(desc) && i < |desc.fields|
    requires if found then desc.fields[i].tag == tag else forall j :: 0 <= j < |desc.fields| ==> desc.fields[j].tag != tag
    ensures FindTag(desc.fields, tag) == if found then Some(i) else None
  {
  }

  /* Required fields. */

  // `bits` are the fields_seen bits for the fields seen.
  ghost predicate Records(fields: seq<Field>, bits: set<nat>, seen: set<nat>) {
    && (forall i :: i in seen && i < |fields| && Counted(fields, i) ==> RequiredIndex(fields, i) in bits)
    && forall r :: r in bits ==> exists i :: i in seen && i < |fields| && Counted(fields, i) && RequiredIndex(fields, i) == r
  }

  // The decoder keeps a bit for this field.
  ghost predicate Counted(fields: seq<Field>, i: nat)
    requires i < |fields|
  {
    fields[i].rule.Required? && RequiredIndex(fields, i) < PB_MAX_REQUIRED_FIELDS
  }

  lemma SeenNothing(fields: seq<Field>)
    ensures Records(fields, {}, {})
  {
  }

  lemma SeenOne(fields: seq<Field>, bits: set<nat>, seen: set<nat>, i: nat)
    requires Records(fields, bits, seen) && i < |fields|
    ensures Records(fields, if Counted(fields, i) then bits + {RequiredIndex(fields, i)} else bits, seen + {i})
  {
    hide RequiredIndex;
    var bits' := if Counted(fields, i) then bits + {RequiredIndex(fields, i)} else bits;
    forall r | r in bits'
      ensures exists j :: j in seen + {i} && j < |fields| && Counted(fields, j) && RequiredIndex(fields, j) == r
    {
      if r in bits {
        var j :| j in seen && j < |fields| && Counted(fields, j) && RequiredIndex(fields, j) == r;
        assert j in seen + {i};
      } else {
        assert i in seen + {i};
      }
    }
  }

  lemma {:induction false} IndexGrows(fields: seq<Field>, i: nat, j: nat)
    requires i < j <= |fields|
    ensures RequiredIndex(fields, i) + (if fields[i].rule.Required? then 1 else 0) <= RequiredIndex(fields, j)
    decreases j
  {
    if i + 1 < j { IndexGrows(fields, i, j - 1); }
  }

  lemma {:induction false} FieldWithIndex(fields: seq<Field>, r: nat, n: nat) returns (i: nat)
    requires n <= |fields| && r < RequiredIndex(fields, n)
    ensures i < n && fields[i].rule.Required? && RequiredIndex(fields, i) == r
    decreases n
  {
    if r < RequiredIndex(fields, n - 1) {
      i := FieldWithIndex(fields, r, n - 1);
    } else {
      i := n - 1;
    }
  }

  // All bits are set exactly if all counted fields have been seen.
  lemma BitsTell(fields: seq<Field>, bits: set<nat>, seen: set<nat>)
    requires Records(fields, bits, seen)
    ensures AllRequiredSeen(fields, seen)
       <==> forall r: nat :: r < RequiredIndex(fields, |fields|) && r < PB_MAX_REQUIRED_FIELDS ==> r in bits
  {
    hide RequiredIndex;
    if AllRequiredSeen(fields, seen) {
      forall r: nat | r < RequiredIndex(fields, |fields|) && r < PB_MAX_REQUIRED_FIELDS ensures r in bits {
        var i := FieldWithIndex(fields, r, |fields|);
        assert Counted(fields, i) && i in seen;
      }
    } else {
      var i :| 0 <= i < |fields| && fields[i].rule.Required? && RequiredIndex(fields, i) < PB_MAX_REQUIRED_FIELDS && i !in seen;
      IndexGrows(fields, i, |fields|);
      var r := RequiredIndex(fields, i);
      if r in bits {
        var j :| j in seen && j < |fields| && Counted(fields, j) && RequiredIndex(fields, j) == r;
        if i < j { IndexGrows(fields, i, j); }
        if j < i { IndexGrows(fields, j, i); }
      }
    }
  }

  // The end of pb_decode_noinit: count the required fields by taking the cursor
  // to the end, and look at their bits.
  method CheckRequired(fields: seq<Field>, iter: FieldCursor, bits: set<nat>, ghost seen: set<nat>) returns (ok: bool)
    requires iter.Valid() && iter.fields == fields && Records(fields, bits, seen)
    modifies iter
    ensures ok == AllRequiredSeen(fields, seen)
  {
    hide AllRequiredSeen, Records;
    var reqFieldCount, lastRequired := 0, false;
    while true
      invariant iter.Valid()
      decreases |fields| - iter.pos
    {
      reqFieldCount := iter.requiredIndex;
      lastRequired := iter.pos < |fields| && fields[iter.pos].rule.Required?;
      ghost var last := iter.pos;
      var more := iter.Next();
      if !more {
        assert fields != [] ==> last + 1 == |fields|;
        break;
      }
    }
    if lastRequired {
      reqFieldCount := reqFieldCount + 1;
    }
    assert reqFieldCount == RequiredIndex(fields, |fields|);
    if reqFieldCount > PB_MAX_REQUIRED_FIELDS {
      reqFieldCount := PB_MAX_REQUIRED_FIELDS;
    }
    BitsTell(fields, bits, seen);
    for i := 0 to reqFieldCount
      invariant forall r: nat :: r < i ==> r in bits
    {
      if i !in bits {
        return false;
      }
    }
    return true;
  }

  // pb_decode, from a buffer.
  method DecodeFrom(desc: Desc, buffer: seq<byte>) returns (ok: bool, slots: seq<Slot>)
    requires WellFormed(desc)
    ensures AllDecodable(desc)
    ensures var r := Decode(desc, buffer); ok == r.Some? && (ok ==> r == Some(slots))
  {
    hide Messages.DecodeNoInit, WellFormed, AllDecodable;
    WellFormedIsDecodable(desc);
    var stream := new IStream(buffer, 0, |buffer|);
    assert stream.Rest() == buffer;
    slots := DefaultMessage(desc);
    ok, slots := stream.DecodeNoInit(desc, slots);
  }
}
