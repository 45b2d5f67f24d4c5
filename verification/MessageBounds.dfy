// Whatever bytes are decoded, the message stays within its description (nanopb,
// pb_decode.c:406-483 and 1345-1520).

module MessageBounds {
  import opened Wrappers
  import opened Coding
  import opened Varint
  import opened Messages

  // A value that fits its field's storage.  A string may hold any bytes.
  ghost predicate Within(kind: Kind, v: Value) {
    match kind
    case Bool => v == Num(0) || v == Num(1)
    case Varint(bits) => IsWidth(bits) && v.Num? && FitsSigned(bits, v.n)
    case UVarint(bits) => IsWidth(bits) && v.Num? && 0 <= v.n < Modulus(bits)
    case SVarint(bits) => IsWidth(bits) && v.Num? && FitsSigned(bits, v.n)
    case Fixed32 => v.Num? && 0 <= v.n < TWO_32
    case Fixed64 => v.Num? && 0 <= v.n < TWO_64
    case Bytes(max) => v.Blob? && |v.bytes| <= max
    case String(dataSize) => v.Blob? && (v.bytes == [] || |v.bytes| < dataSize)
    case FixedBytes(size) => v.Blob? && |v.bytes| == size
    case Sub(desc) => v.Msg? && WithinMessage(desc, v.slots)
  }

  ghost predicate WithinSlot(field: Field, slot: Slot) {
    match field.rule
    case Required => slot.One? && Within(field.kind, slot.v)
    case Optional => slot.Maybe? && (slot.o.Some? ==> Within(field.kind, slot.o.value))
    case Repeated(max) => slot.Many? && |slot.vs| <= max && forall k :: 0 <= k < |slot.vs| ==> Within(field.kind, slot.vs[k])
    case OneOf(union) => slot.Picked? && (slot.o.Some? ==> Within(field.kind, slot.o.value))
  }

  // At most one member of a union is set.
  ghost predicate OneChosen(desc: Desc, slots: seq<Slot>)
    requires |slots| == |desc.fields|
  {
    forall i, j :: 0 <= i < j < |slots| && InOneUnion(desc, i, j) && slots[i].Picked? && slots[j].Picked? ==>
      slots[i].o == None || slots[j].o == None
  }

  ghost predicate WithinMessage(desc: Desc, slots: seq<Slot>) {
    && |slots| == |desc.fields|
    && (forall i :: 0 <= i < |slots| ==> WithinSlot(desc.fields[i], slots[i]))
    && OneChosen(desc, slots)
  }

  lemma DefaultsAreZero(kind: Kind)
    ensures Packable(kind) ==> DefaultValue(kind) == Num(0)
    ensures kind.Bytes? || kind.String? ==> DefaultValue(kind) == Blob([])
    ensures kind.FixedBytes? ==> DefaultValue(kind) == Blob(seq(kind.size, _ => 0))
  {
  }

  lemma {:induction false} DefaultIsWithin(kind: Kind)
    requires Decodable(kind)
    ensures Within(kind, DefaultValue(kind))
    decreases kind
  {
    if kind.Sub? { DefaultMessageIsWithin(kind.desc); }
  }

  lemma {:induction false} DefaultMessageIsWithin(desc: Desc)
    requires AllDecodable(desc)
    ensures WithinMessage(desc, DefaultMessage(desc))
    decreases desc
  {
    hide Within;
    forall i | 0 <= i < |desc.fields| ensures WithinSlot(desc.fields[i], DefaultMessage(desc)[i]) {
      DefaultIsWithin(desc.fields[i].kind);
    }
  }

  lemma CastFits(bits: nat, v: int)
    requires IsWidth(bits) && ToSigned(bits, v) == v
    ensures FitsSigned(bits, v)
  {
    var m := Modulus(bits);
    assert 0 <= v % m < m;
  }

  lemma NumberIsWithin(kind: Kind, s: seq<byte>, cur: Value)
    requires Packable(kind) && Decodable(kind) && DecodeValue(kind, s, cur).Got?
    ensures Within(kind, DecodeValue(kind, s, cur).value)
  {
    hide DecodeVarint, DecodeVarint32, ToSigned, UnZigZag, DecodeFixed32, DecodeFixed64, FitsSigned;
    var v := DecodeValue(kind, s, cur).value;
    if kind.Varint? || kind.SVarint? { CastFits(kind.bits, v.n); }
  }

  lemma {:induction false} DecodedValueIsWithin(kind: Kind, s: seq<byte>, cur: Value)
    requires Decodable(kind) && DecodeValue(kind, s, cur).Got? && Within(kind, cur)
    ensures Within(kind, DecodeValue(kind, s, cur).value)
    decreases kind, |s|, 0
  {
    hide DecodeVarint, DecodeVarint32, DecodeNoInit, WithinMessage;
    if Packable(kind) {
      NumberIsWithin(kind, s, cur);
    } else if kind.Sub? {
      HasAllSlots(kind.desc, cur.slots);
      var rest := DecodeVarint32(s).rest;
      var data := Take(rest, DecodeVarint32(s).value).value;
      DecodedMessageIsWithin(kind.desc, data, cur.slots, {});
    }
  }

  lemma HasAllSlots(desc: Desc, slots: seq<Slot>)
    requires WithinMessage(desc, slots)
    ensures |slots| == |desc.fields|
  {
  }

  lemma {:induction false} PackedIsWithin(kind: Kind, s: seq<byte>, vs: seq<Value>, max: nat)
    requires Decodable(kind) && Packable(kind) && DecodePacked(kind, s, vs, max).Some?
    requires |vs| <= max && forall k :: 0 <= k < |vs| ==> Within(kind, vs[k])
    ensures var r := DecodePacked(kind, s, vs, max).value;
      |r| <= max && forall k :: 0 <= k < |r| ==> Within(kind, r[k])
    decreases |s|, max - |vs|
  {
    hide DecodeValue, Within;
    if s != [] {
      NumberIsWithin(kind, s, DefaultValue(kind));
      var r := DecodeValue(kind, s, DefaultValue(kind));
      PackedIsWithin(kind, r.rest, vs + [r.value], max);
    }
  }

  lemma SlotIsWithin(desc: Desc, slots: seq<Slot>, i: nat)
    requires WithinMessage(desc, slots) && i < |slots|
    ensures i < |desc.fields| == |slots| && WithinSlot(desc.fields[i], slots[i])
  {
  }

  // Setting one slot keeps the message within bounds; setting a union member
  // unsets the others.
  lemma SetSlot(desc: Desc, slots: seq<Slot>, i: nat, slot: Slot)
    requires WithinMessage(desc, slots) && i < |slots| && WithinSlot(desc.fields[i], slot) && !desc.fields[i].rule.OneOf?
    ensures WithinMessage(desc, slots[i := slot])
  {
    hide Within;
    forall a, b | 0 <= a < b < |slots| && InOneUnion(desc, a, b) ensures a != i && b != i {}
  }

  lemma ChooseIsWithin(desc: Desc, slots: seq<Slot>, i: nat, v: Value)
    requires WithinMessage(desc, slots) && i < |slots| && desc.fields[i].rule.OneOf? && Within(desc.fields[i].kind, v)
    ensures WithinMessage(desc, Choose(desc, slots, i, v))
  {
    hide Within;
    var r := Choose(desc, slots, i, v);
    forall a | 0 <= a < |r| ensures WithinSlot(desc.fields[a], r[a]) {
      SlotIsWithin(desc, slots, a);
    }
  }

  lemma {:induction false} DecodedFieldIsWithin(desc: Desc, i: nat, wireType: nat, s: seq<byte>, slots: seq<Slot>)
    requires AllDecodable(desc) && WithinMessage(desc, slots) && i < |desc.fields| == |slots|
    requires DecodeField(desc, i, wireType, s, slots).Got?
    ensures WithinMessage(desc, DecodeField(desc, i, wireType, s, slots).value)
    decreases desc.fields[i].kind, |s|, 1
  {
    hide DecodeValue, DecodePacked, DecodeVarint32, Within, WithinMessage, AllDecodable, DefaultValue, Choose;
    var field := desc.fields[i];
    KindIsDecodable(desc, i);
    SlotIsWithin(desc, slots, i);
    DefaultIsWithin(field.kind);
    var slot, initial := slots[i], DefaultValue(field.kind);
    match field.rule
    case Required =>
      DecodedValueIsWithin(field.kind, s, slot.v);
      SetSlot(desc, slots, i, One(DecodeValue(field.kind, s, slot.v).value));
    case Optional =>
      var cur := if slot.o.Some? then slot.o.value else initial;
      DecodedValueIsWithin(field.kind, s, cur);
      SetSlot(desc, slots, i, Maybe(Some(DecodeValue(field.kind, s, cur).value)));
    case OneOf(_) =>
      var cur := if slot.o.Some? then slot.o.value else initial;
      DecodedValueIsWithin(field.kind, s, cur);
      ChooseIsWithin(desc, slots, i, DecodeValue(field.kind, s, cur).value);
    case Repeated(max) =>
      if wireType == 2 && Packable(field.kind) {
        var data := Take(DecodeVarint32(s).rest, DecodeVarint32(s).value).value;
        PackedIsWithin(field.kind, data, slot.vs, max);
        SetSlot(desc, slots, i, Many(DecodePacked(field.kind, data, slot.vs, max).value));
      } else {
        DecodedValueIsWithin(field.kind, s, initial);
        SetSlot(desc, slots, i, Many(slot.vs + [DecodeValue(field.kind, s, initial).value]));
      }
  }

  lemma KindIsDecodable(desc: Desc, i: nat)
    requires AllDecodable(desc) && i < |desc.fields|
    ensures Decodable(desc.fields[i].kind)
  {
  }

  lemma {:induction false} DecodedMessageIsWithin(desc: Desc, s: seq<byte>, slots: seq<Slot>, seen: set<nat>)
    requires AllDecodable(desc) && |slots| == |desc.fields| && WithinMessage(desc, slots)
    requires DecodeNoInit(desc, s, slots, seen).Some?
    ensures WithinMessage(desc, DecodeNoInit(desc, s, slots, seen).value)
    decreases desc, |s|, 1
  {
    hide DecodeVarint32, DecodeField, SkipField, AllDecodable, WithinMessage, AllRequiredSeen, FindTag;
    if s != [] && DecodeVarint32(s).value != 0 {
      var key, rest := DecodeVarint32(s).value, DecodeVarint32(s).rest;
      var i := FindTag(desc.fields, key / 8);
      if i == None {
        DecodedMessageIsWithin(desc, SkipField(key % 8, rest).rest, slots, seen);
      } else {
        DecodedFieldIsWithin(desc, i.value, key % 8, rest, slots);
        var r := DecodeField(desc, i.value, key % 8, rest, slots);
        DecodedMessageIsWithin(desc, r.rest, r.value, seen + {i.value});
      }
    }
  }

  // No input makes the decoder exceed a field's storage, or set two members of a union.
  lemma DecodedIsWithin(desc: Desc, s: seq<byte>)
    requires AllDecodable(desc) && Decode(desc, s).Some?
    ensures WithinMessage(desc, Decode(desc, s).value)
  {
    hide DecodeNoInit, WithinMessage, AllDecodable;
    DefaultMessageIsWithin(desc);
    DecodedMessageIsWithin(desc, s, DefaultMessage(desc), {});
  }

  /* What does not fit is refused. */

  // The last `bits` bits of a 64-bit number, as a signed number.
  function LowBits(bits: nat, v: nat): int
    requires IsWidth(bits)
  {
    var low := v % Modulus(bits);
    if low < Modulus(bits) / 2 then low else low - Modulus(bits)
  }

  // For every number on the wire, what a numeric field makes of it: a signed
  // field of up to 32 bits looks at the low 32 bits only, and no other field
  // takes a number it cannot hold.
  lemma NumbersAre(v: nat, rest: seq<byte>, cur: Value)
    requires v < 0x1_0000_0000_0000_0000
    ensures var s := EncodeVarint(v) + rest;
      && DecodeValue(Varint(64), s, cur) == Got(Num(LowBits(64, v)), rest)
      && DecodeValue(Varint(32), s, cur) == Got(Num(LowBits(32, v)), rest)
      && DecodeValue(Varint(16), s, cur) == (if -0x8000 <= LowBits(32, v) < 0x8000 then Got(Num(LowBits(32, v)), rest) else Fail)
      && DecodeValue(Varint(8), s, cur) == (if -0x80 <= LowBits(32, v) < 0x80 then Got(Num(LowBits(32, v)), rest) else Fail)
      && DecodeValue(UVarint(64), s, cur) == Got(Num(v), rest)
      && DecodeValue(UVarint(32), s, cur) == (if v < 0x1_0000_0000 then Got(Num(v), rest) else Fail)
      && DecodeValue(UVarint(16), s, cur) == (if v < 0x1_0000 then Got(Num(v), rest) else Fail)
      && DecodeValue(UVarint(8), s, cur) == (if v < 0x100 then Got(Num(v), rest) else Fail)
      && (v < 0x1_0000_0000 ==> DecodeValue(Bool, s, cur) == Got(Num(if v == 0 then 0 else 1), rest))
  {
    hide EncodeVarint, DecodeVarint, DecodeVarint32, ToSigned, LowBits;
    VarintRoundTrip(v, rest);
    if v < 0x1_0000_0000 { Varint32RoundTrip(v, rest); }
    CastIsLowBits(64, v);
    CastIsLowBits(32, v);
    LowBitsFit(v);
    CastFitsIff(8, LowBits(32, v));
    CastFitsIff(16, LowBits(32, v));
    CastFitsIff(32, LowBits(32, v));
    CastFitsIff(64, LowBits(64, v));
  }

  lemma LowBitsFit(v: nat)
    ensures -0x8000_0000 <= LowBits(32, v) < 0x8000_0000
    ensures -0x8000_0000_0000_0000 <= LowBits(64, v) < 0x8000_0000_0000_0000
  {
  }

  lemma CastIsLowBits(bits: nat, v: nat)
    requires IsWidth(bits)
    ensures ToSigned(bits, v) == LowBits(bits, v)
  {
  }

  lemma CastFitsIff(bits: nat, v: int)
    requires IsWidth(bits)
    ensures ToSigned(bits, v) == v <==> FitsSigned(bits, v)
    ensures FitsSigned(bits, v) <==> -(Modulus(bits) / 2) <= v < Modulus(bits) / 2
  {
    var m := Modulus(bits);
    assert 0 <= v % m < m;
    if FitsSigned(bits, v) { Wraps(v, m); }
  }

  // Signed fields in zigzag form, by the number meant.
  lemma ZigZagsAre(v: int, rest: seq<byte>, cur: Value)
    requires -0x8000_0000_0000_0000 <= v < 0x8000_0000_0000_0000
    ensures var s := EncodeVarint(if v >= 0 then 2 * v else -2 * v - 1) + rest;
      && DecodeValue(SVarint(64), s, cur) == Got(Num(v), rest)
      && DecodeValue(SVarint(32), s, cur) == (if -0x8000_0000 <= v < 0x8000_0000 then Got(Num(v), rest) else Fail)
      && DecodeValue(SVarint(16), s, cur) == (if -0x8000 <= v < 0x8000 then Got(Num(v), rest) else Fail)
      && DecodeValue(SVarint(8), s, cur) == (if -0x80 <= v < 0x80 then Got(Num(v), rest) else Fail)
  {
    hide EncodeVarint, DecodeVarint, ToSigned, ZigZag, UnZigZag;
    ZigZagIs(v);
    ZigZagRoundTrip(v);
    VarintRoundTrip(ZigZag(v), rest);
    CastFitsIff(8, v);
    CastFitsIff(16, v);
    CastFitsIff(32, v);
    CastFitsIff(64, v);
  }

  // Bytes, strings and byte arrays of any length: a string needs room for its
  // terminator, and a fixed array takes its own length or none.
  lemma BlobsAre(data: seq<byte>, rest: seq<byte>, cur: Value, n: nat)
    requires |data| < 0x1_0000_0000
    ensures var s := EncodeVarint(|data|) + data + rest;
      && DecodeValue(Bytes(n), s, cur) == (if |data| <= n then Got(Blob(data), rest) else Fail)
      && DecodeValue(String(n), s, cur) == (if |data| < n then Got(Blob(data), rest) else Fail)
      && DecodeValue(FixedBytes(n), s, cur) == (if data == [] then Got(Blob(Zeros(n)), rest) else if |data| == n then Got(Blob(data), rest) else Fail)
  {
    hide EncodeVarint, DecodeVarint32, Zeros;
    Varint32RoundTrip(|data|, data + rest);
    assert EncodeVarint(|data|) + data + rest == EncodeVarint(|data|) + (data + rest);
    assert (data + rest)[..|data|] == data && (data + rest)[|data|..] == rest;
    if data == [] { assert data + rest == rest; }
  }

  // A length beyond the end of the input is an error for every such field.
  lemma ShortInputFails(length: nat, data: seq<byte>, cur: Value, n: nat, desc: Desc)
    requires |data| < length < 0x1_0000_0000 && AllDecodable(desc)
    ensures var s := EncodeVarint(length) + data;
      && DecodeValue(Bytes(n), s, cur) == Fail && DecodeValue(String(n), s, cur) == Fail
      && DecodeValue(FixedBytes(n), s, cur) == Fail && DecodeValue(Sub(desc), s, cur) == Fail
      && SkipField(2, s) == Fail
  {
    hide EncodeVarint, DecodeVarint32, DecodeNoInit;
    Varint32RoundTrip(length, data);
  }

  // An array takes no value beyond its capacity.
  lemma FullArrayFails(desc: Desc, i: nat, wireType: nat, s: seq<byte>, slots: seq<Slot>)
    requires AllDecodable(desc) && i < |desc.fields| == |slots| && desc.fields[i].rule.Repeated?
    requires slots[i].Many? && |slots[i].vs| >= desc.fields[i].rule.max
    requires wireType == 2 && Packable(desc.fields[i].kind) ==>
      match DecodeVarint32(s) case Fail => true case Got(size, _) => size > 0
    ensures DecodeField(desc, i, wireType, s, slots) == Fail
  {
    hide DecodeValue, DecodeVarint32;
  }

  // A zero tag ends the message, whatever follows.
  lemma ZeroTagEnds(desc: Desc, rest: seq<byte>, slots: seq<Slot>, seen: set<nat>)
    requires AllDecodable(desc) && |slots| == |desc.fields|
    ensures DecodeNoInit(desc, [0] + rest, slots, seen) == DecodeNoInit(desc, [], slots, seen)
  {
  }
}
