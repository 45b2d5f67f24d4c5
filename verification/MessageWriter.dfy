// The encoder over output streams (nanopb, pb_encode.c).  A stream that only
// sizes counts the bytes it is given; every other one writes them to its buffer.

module MessageWriter {
  import opened Wrappers
  import opened Coding
  import opened Varint
  import opened Messages

  datatype Mark = Mark(count: nat, data: seq<byte>)

  // pb_ostream_t.  `pos` is where `state` points to in the buffer.
  class OStream {
    const writes: bool
    const dest: array<byte>
    const maxSize: nat
    var pos: nat
    var bytesWritten: nat

    // pb_ostream_from_buffer, and the substreams of pb_encode_submessage.
    constructor Into(dest: array<byte>, pos: nat, maxSize: nat)
      requires pos + maxSize <= dest.Length
      ensures Valid() && writes && this.dest == dest && this.maxSize == maxSize && this.pos == pos && bytesWritten == 0
    {
      writes, this.dest, this.maxSize, this.pos, bytesWritten := true, dest, maxSize, pos, 0;
    }

    // PB_OSTREAM_SIZING
    constructor Sizing()
      ensures Valid() && !writes && fresh(dest) && bytesWritten == 0
    {
      writes, dest, maxSize, pos, bytesWritten := false, new byte[0], 0, 0, 0;
    }

    ghost predicate Valid()
      reads this
    {
      writes ==> bytesWritten <= maxSize && pos + (maxSize - bytesWritten) <= dest.Length
    }

    ghost function Written(): seq<byte>
      requires Valid()
      reads this, dest
    {
      if writes then dest[..pos] else []
    }

    ghost function Now(): Mark
      requires Valid()
      reads this, dest
    {
      Mark(bytesWritten, Written())
    }

    // Since mark m the stream took the bytes e, or it had no room for them all.
    ghost predicate Took(m: Mark, e: seq<byte>, ok: bool)
      reads this, dest
    {
      && Valid() && (ok <==> (writes ==> m.count + |e| <= maxSize))
      && (ok ==> bytesWritten == m.count + |e| && Written() == m.data + (if writes then e else []))
    }

    // pb_write
    method Write(buf: seq<byte>) returns (ok: bool)
      requires Valid()
      modifies this, dest
      ensures Took(old(Now()), buf, ok)
    {
      if |buf| > 0 && writes {
        if bytesWritten + |buf| > maxSize {
          return false;
        }
        BufWrite(buf);
      }
      bytesWritten := bytesWritten + |buf|;
      return true;
    }

    // buf_write
    method BufWrite(buf: seq<byte>)
      requires writes && pos + |buf| <= dest.Length
      modifies this`pos, dest
      ensures pos == old(pos) + |buf| && dest[..pos] == old(dest[..pos]) + buf
    {
      var i := 0;
      while i < |buf|
        invariant 0 <= i <= |buf| && pos == old(pos)
        invariant dest[..pos + i] == old(dest[..pos]) + buf[..i]
      {
        dest[pos + i] := buf[i];
        i := i + 1;
      }
      pos := pos + |buf|;
    }

    // pb_encode_varint
    method EncodeVarint(value: nat) returns (ok: bool)
      requires Valid() && value < TWO_64
      modifies this, dest
      ensures Took(old(Now()), Varint.EncodeVarint(value), ok)
    {
      if value <= 0x7F {
        ok := Write([value]);
        return;
      }
      var buffer := VarintBytes(value);
      ok := Write(buffer);
    }

    // pb_encode_tag
    method EncodeTag(wireType: nat, fieldNumber: nat) returns (ok: bool)
      requires Valid() && wireType < 8 && fieldNumber < 0x2000_0000
      modifies this, dest
      ensures Took(old(Now()), Messages.EncodeTag(fieldNumber, wireType), ok)
    {
      ok := EncodeVarint(fieldNumber * 8 + wireType);
    }

    // pb_encode_string
    method EncodeString(data: seq<byte>) returns (ok: bool)
      requires Valid() && |data| < TWO_64
      modifies this, dest
      ensures Took(old(Now()), Messages.EncodeString(data), ok)
    {
      ghost var m := Now();
      ok := EncodeVarint(|data|);
      if !ok {
        return;
      }
      ghost var m' := Now();
      ok := Write(data);
      Joined(m, m', Varint.EncodeVarint(|data|), data, ok);
    }

    ghost function After(m: Mark, e: seq<byte>): Mark {
      Mark(m.count + |e|, m.data + if writes then e else [])
    }

    // The bytes e since mark m, all taken.
    ghost predicate Since(m: Mark, e: seq<byte>)
      reads this, dest
    {
      Valid() && (writes ==> m.count + |e| <= maxSize) && Now() == After(m, e)
    }

    // Two pieces taken one after the other.
    lemma Joined(m: Mark, m': Mark, e: seq<byte>, e': seq<byte>, ok: bool)
      requires (writes ==> m.count + |e| <= maxSize) && m' == After(m, e) && Took(m', e', ok)
      ensures Took(m, e + e', ok) && (ok ==> Since(m, e + e'))
    {
      assert m.data + e + e' == m.data + (e + e');
      assert m.data + [] + [] == m.data + [];
    }

    // The field encoders, and pb_encode_submessage.
    method EncodeValue(kind: Kind, v: Value) returns (ok: bool)
      requires Valid() && KindOk(kind) && Fits(kind, v) && |Messages.EncodeValue(kind, v)| < TWO_64
      modifies this, dest
      ensures Took(old(Now()), Messages.EncodeValue(kind, v), ok)
      decreases kind, 0, 0
    {
      match kind {
        case Bool => ok := EncodeVarint(if v.n != 0 then 1 else 0);
        case Varint(bits) => ok := EncodeVarint(ToUnsigned(64, v.n));
        case UVarint(bits) => ok := EncodeVarint(v.n);
        case SVarint(bits) =>
          ZigZagRoundTrip(v.n);
          ok := EncodeVarint(ZigZag(v.n));
        case Fixed32 => ok := Write(EncodeFixed32(v.n));
        case Fixed64 => ok := Write(EncodeFixed64(v.n));
        case Bytes(max) => ok := EncodeString(v.bytes);
        case String(size) => ok := EncodeString(v.bytes);
        case FixedBytes(size) => ok := EncodeString(v.bytes);
        case Sub(desc) => ok := EncodeSubmessage(desc, v.slots);
      }
    }

    // pb_encode_submessage.  The length comes from a sizing pass, and the
    // writing pass writes exactly that much: "submsg size changed" cannot happen.
    method EncodeSubmessage(desc: Desc, slots: seq<Slot>) returns (ok: bool)
      requires Valid() && WellFormed(desc) && FitsMessage(desc, slots) && |EncodeFrom(desc, slots, 0)| < TWO_64
      modifies this, dest
      ensures Took(old(Now()), Messages.EncodeString(EncodeFrom(desc, slots, 0)), ok)
      decreases desc, 2, 0
    {
      hide FitsMessage, WellFormed, EncodeFrom, Varint.EncodeVarint;
      ghost var e := EncodeFrom(desc, slots, 0);
      ghost var m := Now();
      var sizer := new OStream.Sizing();
      ok := sizer.EncodeMessage(desc, slots);
      assert ok;
      var size := sizer.bytesWritten;
      assert size == |e|;
      ok := EncodeVarint(size);
      if !ok {
        return;
      }
      ghost var m' := Now();
      if !writes {
        bytesWritten := bytesWritten + size;   // just sizing
        Joined(m, m', Varint.EncodeVarint(size), e, true);
        return true;
      }
      if bytesWritten + size > maxSize {
        return false;
      }
      var sub := new OStream.Into(dest, pos, size);
      ok := sub.EncodeMessage(desc, slots);
      bytesWritten := bytesWritten + sub.bytesWritten;
      pos := sub.pos;
      assert ok && sub.bytesWritten == size;
      Joined(m, m', Varint.EncodeVarint(size), e, true);
    }

    // pb_encode
    method EncodeMessage(desc: Desc, slots: seq<Slot>) returns (ok: bool)
      requires Valid() && WellFormed(desc) && FitsMessage(desc, slots) && |EncodeFrom(desc, slots, 0)| < TWO_64
      modifies this, dest
      ensures Took(old(Now()), EncodeFrom(desc, slots, 0), ok)
      decreases desc, 1, 0
    {
      hide Took, Fits, EncodeSlot;
      ghost var m := Now();
      ghost var done: seq<byte> := [];
      NothingTaken();
      for i := 0 to |desc.fields|
        invariant Since(m, done)
        invariant done + EncodeFrom(desc, slots, i) == EncodeFrom(desc, slots, 0)
      {
        ghost var piece, tail := EncodeSlot(desc.fields[i], slots[i]), EncodeFrom(desc, slots, i + 1);
        assert KindOk(desc.fields[i].kind) && FitsSlot(desc.fields[i], slots[i]);
        ghost var m' := Now();
        ok := EncodeField(desc.fields[i], slots[i]);
        assert done + (piece + tail) == done + piece + tail;
        if !ok {
          Stopped(m, m', done, piece, tail);
          return;
        }
        Joined(m, m', done, piece, true);
        done := done + piece;
      }
      assert done + [] == done;
      AllTaken(m, done);
      ok := true;
    }

    lemma NothingTaken()
      requires Valid()
      ensures Since(Now(), [])
    {
      assert Written() + [] == Written();
    }

    lemma AllTaken(m: Mark, e: seq<byte>)
      requires Since(m, e)
      ensures Took(m, e, true)
    {
    }

    // Nothing that follows makes a piece fit that did not.
    lemma Stopped(m: Mark, m': Mark, e: seq<byte>, piece: seq<byte>, tail: seq<byte>)
      requires m' == After(m, e) && Took(m', piece, false)
      ensures Took(m, e + piece + tail, false)
    {
    }

    // encode_basic_field
    method EncodeField(field: Field, slot: Slot) returns (ok: bool)
      requires Valid() && field.tag < 0x2000_0000 && KindOk(field.kind) && FitsSlot(field, slot)
      requires |EncodeSlot(field, slot)| < TWO_64
      modifies this, dest
      ensures Took(old(Now()), EncodeSlot(field, slot), ok)
      decreases field, 3, 0
    {
      hide Messages.EncodeValue, Messages.EncodeTag, Fits, KindOk;
      match slot {
        case One(v) => ok := EncodeTagged(field, [v]);
        case Maybe(o) =>
          if o == None {
            return true;
          }
          ok := EncodeTagged(field, [o.value]);
        case Picked(o) =>
          if o == None {
            return true;
          }
          ok := EncodeTagged(field, [o.value]);
        case Many(vs) =>
          if |vs| == 0 {
            return true;
          }
          if Packable(field.kind) {
            ok := EncodePacked(field, vs);
          } else {
            ok := EncodeTagged(field, vs);
          }
      }
    }

    // encode_array without packing; with one value, any field that is not an array.
    method EncodeTagged(field: Field, vs: seq<Value>) returns (ok: bool)
      requires Valid() && field.tag < 0x2000_0000 && KindOk(field.kind) && forall k :: 0 <= k < |vs| ==> Fits(field.kind, vs[k])
      requires |Messages.EncodeTagged(field.tag, field.kind, vs)| < TWO_64
      modifies this, dest
      ensures Took(old(Now()), Messages.EncodeTagged(field.tag, field.kind, vs), ok)
      decreases field.kind, 2, 0
    {
      hide Messages.EncodeValue, Messages.EncodeTag, Fits, KindOk, Took;
      ghost var m := Now();
      ghost var done: seq<byte> := [];
      NothingTaken();
      for i := 0 to |vs|
        invariant Since(m, done)
        invariant done + Messages.EncodeTagged(field.tag, field.kind, vs[i..]) == Messages.EncodeTagged(field.tag, field.kind, vs)
      {
        assert vs[i..][1..] == vs[i + 1..];
        ghost var piece := Messages.EncodeTag(field.tag, WireType(field.kind)) + Messages.EncodeValue(field.kind, vs[i]);
        ghost var tail := Messages.EncodeTagged(field.tag, field.kind, vs[i + 1..]);
        assert done + (piece + tail) == done + piece + tail;
        ghost var m' := Now();
        ok := EncodeOne(field, vs[i]);
        if !ok {
          Stopped(m, m', done, piece, tail);
          return;
        }
        Joined(m, m', done, piece, true);
        done := done + piece;
      }
      assert vs[|vs|..] == [] && done + [] == done;
      AllTaken(m, done);
      ok := true;
    }

    method EncodeOne(field: Field, v: Value) returns (ok: bool)
      requires Valid() && field.tag < 0x2000_0000 && KindOk(field.kind) && Fits(field.kind, v)
      requires |Messages.EncodeValue(field.kind, v)| < TWO_64
      modifies this, dest
      ensures Took(old(Now()), Messages.EncodeTag(field.tag, WireType(field.kind)) + Messages.EncodeValue(field.kind, v), ok)
      decreases field.kind, 1, 0
    {
      hide Messages.EncodeValue, Messages.EncodeTag, Fits, KindOk;
      ghost var tag, body := Messages.EncodeTag(field.tag, WireType(field.kind)), Messages.EncodeValue(field.kind, v);
      ghost var m := Now();
      ok := EncodeTag(WireType(field.kind), field.tag);
      if !ok {
        return;
      }
      ghost var m' := Now();
      ok := EncodeValue(field.kind, v);
      Joined(m, m', tag, body, ok);
    }

    // encode_array with packing.
    method EncodePacked(field: Field, vs: seq<Value>) returns (ok: bool)
      requires Valid() && field.tag < 0x2000_0000 && KindOk(field.kind) && Packable(field.kind)
      requires forall k :: 0 <= k < |vs| ==> Fits(field.kind, vs[k])
      requires |EncodeItems(field.kind, vs)| < TWO_64
      modifies this, dest
      ensures Took(old(Now()), Messages.EncodeTag(field.tag, 2) + Messages.EncodeString(EncodeItems(field.kind, vs)), ok)
      decreases field.kind, 2, 1
    {
      hide Messages.EncodeTag, EncodeItems, Fits, KindOk, Varint.EncodeVarint;
      ghost var m, tag, items := Now(), Messages.EncodeTag(field.tag, 2), EncodeItems(field.kind, vs);
      ghost var length := Varint.EncodeVarint(|items|);
      assert tag + (length + items) == tag + length + items;
      ghost var m' := Now();
      assert m.data + [] == m.data;
      ok := EncodeTag(2, field.tag);
      if !ok {
        Stopped(m, m', [], tag, length + items);
        assert [] + tag + (length + items) == tag + (length + items);
        return;
      }
      var size := PackedSize(field, vs);
      m' := Now();
      ok := EncodeVarint(size);
      if !ok {
        Stopped(m, m', tag, length, items);
        return;
      }
      Joined(m, m', tag, length, true);
      m' := Now();
      if !writes {
        bytesWritten := bytesWritten + size;   // just sizing
        ok := true;
      } else {
        ok := EncodeAll(field, vs);
      }
      Joined(m, m', tag + length, items, ok);
    }

    method EncodeAll(field: Field, vs: seq<Value>) returns (ok: bool)
      requires Valid() && KindOk(field.kind) && forall k :: 0 <= k < |vs| ==> Fits(field.kind, vs[k])
      requires |EncodeItems(field.kind, vs)| < TWO_64
      modifies this, dest
      ensures Took(old(Now()), EncodeItems(field.kind, vs), ok)
      decreases field.kind, 1, 0
    {
      hide Messages.EncodeValue, Fits, KindOk, Took;
      ghost var m := Now();
      ghost var done: seq<byte> := [];
      NothingTaken();
      for i := 0 to |vs|
        invariant Since(m, done)
        invariant done + EncodeItems(field.kind, vs[i..]) == EncodeItems(field.kind, vs)
      {
        assert vs[i..][1..] == vs[i + 1..];
        ghost var body, tail := Messages.EncodeValue(field.kind, vs[i]), EncodeItems(field.kind, vs[i + 1..]);
        assert done + (body + tail) == done + body + tail;
        ghost var m' := Now();
        ok := EncodeValue(field.kind, vs[i]);
        if !ok {
          Stopped(m, m', done, body, tail);
          return;
        }
        Joined(m, m', done, body, true);
        done := done + body;
      }
      assert vs[|vs|..] == [] && done + [] == done;
      AllTaken(m, done);
      ok := true;
    }

    // encode_array, the total size of a packed array.
    static method PackedSize(field: Field, vs: seq<Value>) returns (size: nat)
      requires KindOk(field.kind) && Packable(field.kind) && forall k :: 0 <= k < |vs| ==> Fits(field.kind, vs[k])
      requires |EncodeItems(field.kind, vs)| < TWO_64
      ensures size == |EncodeItems(field.kind, vs)|
      decreases field.kind, 2, 0
    {
      if field.kind.Fixed32? {
        size := 4 * |vs|;
        FixedItems(field.kind, vs, 4);
      } else if field.kind.Fixed64? {
        size := 8 * |vs|;
        FixedItems(field.kind, vs, 8);
      } else {
        var sizer := new OStream.Sizing();
        var ok := sizer.EncodeAll(field, vs);
        assert ok;
        size := sizer.bytesWritten;
      }
    }
  }

  lemma {:induction false} FixedItems(kind: Kind, vs: seq<Value>, n: nat)
    requires (kind.Fixed32? && n == 4) || (kind.Fixed64? && n == 8)
    requires forall k :: 0 <= k < |vs| ==> Fits(kind, vs[k])
    ensures |EncodeItems(kind, vs)| == n * |vs|
  {
    if vs != [] {
      FixedItems(kind, vs[1..], n);
      assert |EncodeValue(kind, vs[0])| == n;
    }
  }

  // The loop of pb_encode_varint: septets with the top bit set, and then the
  // last one's cleared.
  method VarintBytes(value: nat) returns (buffer: seq<byte>)
    requires value > 0x7F
    ensures buffer == EncodeVarint(value)
  {
    hide EncodeVarint;
    buffer := [];
    var v := value;
    assert [] + EncodeVarint(value) == EncodeVarint(value);
    while v != 0
      invariant v >= 0 && (v == 0 ==> buffer != [] && buffer[|buffer| - 1] >= 128)
      invariant EncodeVarint(value) == if v > 0 then buffer + EncodeVarint(v) else ClearTop(buffer)
      decreases v
    {
      Septet(buffer, v);
      buffer := buffer + [v % 128 + 128];
      v := v / 128;
    }
    buffer := ClearTop(buffer);
  }

  // buffer[i-1] &= 0x7F
  function ClearTop(s: seq<byte>): seq<byte>
    requires s != [] && s[|s| - 1] >= 128
  {
    s[|s| - 1 := s[|s| - 1] - 128]
  }

  lemma Septet(buffer: seq<byte>, v: nat)
    requires v > 0
    ensures var next := buffer + [v % 128 + 128];
      buffer + EncodeVarint(v) == if v / 128 > 0 then next + EncodeVarint(v / 128) else ClearTop(next)
  {
    hide EncodeVarint;
    EncodeUnfold(v, []);
    assert EncodeVarint(v) + [] == EncodeVarint(v);
    if v < 128 {
      assert v / 128 == 0 && v % 128 == v;
      ClearTopOf(buffer, v);
    } else {
      var more := EncodeVarint(v / 128);
      assert more + [] == more && [v] + [] == [v];
      Shift(buffer, v % 128 + 128, more);
    }
  }

  lemma ClearTopOf(buffer: seq<byte>, v: byte)
    requires v < 128
    ensures ClearTop(buffer + [v + 128]) == buffer + [v] == buffer + ([v] + [])
  {
  }

  lemma Shift(buffer: seq<byte>, b: byte, more: seq<byte>)
    ensures buffer + ([b] + more) == buffer + [b] + more
  {
  }

  // pb_get_encoded_size: the sizing pass counts exactly the bytes of the encoding.
  method GetEncodedSize(desc: Desc, slots: seq<Slot>) returns (size: nat)
    requires WellFormed(desc) && FitsMessage(desc, slots) && |Encode(desc, slots)| < TWO_64
    ensures size == |Encode(desc, slots)|
  {
    var stream := new OStream.Sizing();
    var ok := stream.EncodeMessage(desc, slots);
    assert ok;
    size := stream.bytesWritten;
  }

  // pb_encode into a buffer: it succeeds exactly if the encoding fits, and is
  // then what the buffer starts with.
  method EncodeInto(desc: Desc, slots: seq<Slot>, buffer: array<byte>) returns (ok: bool, size: nat)
    requires WellFormed(desc) && FitsMessage(desc, slots) && |Encode(desc, slots)| < TWO_64
    modifies buffer
    ensures ok <==> |Encode(desc, slots)| <= buffer.Length
    ensures ok ==> size == |Encode(desc, slots)| && buffer[..size] == Encode(desc, slots)
  {
    hide FitsMessage, WellFormed, EncodeFrom;
    var stream := new OStream.Into(buffer, 0, buffer.Length);
    ok := stream.EncodeMessage(desc, slots);
    size := stream.bytesWritten;
    if ok {
      assert [] + Encode(desc, slots) == Encode(desc, slots);
      assert stream.pos == |stream.Written()|;
    }
  }
}
