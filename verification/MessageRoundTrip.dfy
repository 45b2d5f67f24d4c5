// Decoding what was encoded gives the message back (nanopb, pb_encode.c and pb_decode.c).

module MessageRoundTrip {
  import opened Wrappers
  import opened Coding
  import opened Varint
  import opened Messages

  lemma {:induction false} WellFormedIsDecodable(desc: Desc)
    requires WellFormed(desc)
    ensures AllDecodable(desc)
  {
    forall i | 0 <= i < |desc.fields| ensures Decodable(desc.fields[i].kind) {
      var kind := desc.fields[i].kind;
      assert KindOk(kind);
      if kind.Sub? { WellFormedIsDecodable(kind.desc); }
    }
  }

  lemma KindIsDecodable(kind: Kind)
    requires KindOk(kind)
    ensures Decodable(kind)
  {
    if kind.Sub? { WellFormedIsDecodable(kind.desc); }
  }

  /* Values. */

  lemma StringRoundTrip(data: seq<byte>, rest: seq<byte>)
    requires |data| < TWO_32
    ensures var s := EncodeString(data) + rest;
      DecodeVarint32(s) == Got(|data|, data + rest) && Take(data + rest, |data|) == Got(data, rest)
  {
    hide EncodeVarint, DecodeVarint32;
    Varint32RoundTrip(|data|, data + rest);
    assert EncodeString(data) + rest == EncodeVarint(|data|) + (data + rest);
  }

  lemma NumberRoundTrip(kind: Kind, v: Value, rest: seq<byte>, cur: Value)
    requires Packable(kind) && KindOk(kind) && Fits(kind, v)
    ensures DecodeValue(kind, EncodeValue(kind, v) + rest, cur) == Got(v, rest)
  {
    hide EncodeVarint, DecodeVarint, DecodeVarint32, EncodeFixed32, DecodeFixed32, EncodeFixed64, DecodeFixed64, ToSigned, ToUnsigned, ZigZag, UnZigZag;
    match kind {
      case Bool =>
        Varint32RoundTrip(v.n, rest);
      case Varint(bits) =>
        VarintRoundTrip(ToUnsigned(64, v.n), rest);
        SignedRoundTrip(bits, v.n);
      case UVarint(bits) =>
        VarintRoundTrip(v.n, rest);
      case SVarint(bits) =>
        SignedRoundTrip(bits, v.n);
        ZigZagRoundTrip(v.n);
        VarintRoundTrip(ZigZag(v.n), rest);
      case Fixed32 =>
        Fixed32RoundTrip(v.n, rest);
        assert (EncodeFixed32(v.n) + rest)[4..] == rest;
      case Fixed64 =>
        Fixed64RoundTrip(v.n, rest);
        assert (EncodeFixed64(v.n) + rest)[8..] == rest;
    }
  }

  lemma BlobRoundTrip(kind: Kind, v: Value, rest: seq<byte>, cur: Value)
    requires kind.Bytes? || kind.String? || kind.FixedBytes?
    requires Fits(kind, v) && |v.bytes| < TWO_32
    ensures DecodeValue(kind, EncodeValue(kind, v) + rest, cur) == Got(v, rest)
  {
    hide EncodeString, DecodeVarint32;
    StringRoundTrip(v.bytes, rest);
    if kind.FixedBytes? && kind.size == 0 {
      assert v.bytes == [] && Zeros(0) == [] && v.bytes + rest == rest;
    }
  }

  lemma {:induction false} ValueRoundTrip(kind: Kind, v: Value, rest: seq<byte>)
    requires KindOk(kind) && Fits(kind, v) && |EncodeValue(kind, v)| < TWO_32
    ensures Decodable(kind) && DecodeValue(kind, EncodeValue(kind, v) + rest, DefaultValue(kind)) == Got(v, rest)
    decreases kind, 0, 0
  {
    hide EncodeVarint, DecodeVarint32, DefaultMessage, DecodeNoInit;
    KindIsDecodable(kind);
    if Packable(kind) {
      NumberRoundTrip(kind, v, rest, DefaultValue(kind));
    } else if kind.Sub? {
      var data := EncodeFrom(kind.desc, v.slots, 0);
      StringRoundTrip(data, rest);
      WholeRoundTrip(kind.desc, v.slots);
    } else {
      BlobRoundTrip(kind, v, rest, DefaultValue(kind));
    }
  }

  lemma EncodingIsNotEmpty(kind: Kind, v: Value)
    requires Fits(kind, v)
    ensures |EncodeValue(kind, v)| >= 1
  {
  }

  /* Packed arrays. */

  lemma {:induction false} PackedRoundTrip(kind: Kind, before: seq<Value>, vs: seq<Value>, max: nat)
    requires Packable(kind) && KindOk(kind) && forall k :: 0 <= k < |vs| ==> Fits(kind, vs[k])
    requires |before| + |vs| <= max
    ensures Decodable(kind) && DecodePacked(kind, EncodeItems(kind, vs), before, max) == Some(before + vs)
    decreases |vs|
  {
    hide EncodeValue, DecodeValue, KindOk;
    KindIsDecodable(kind);
    if vs != [] {
      NumberRoundTrip(kind, vs[0], EncodeItems(kind, vs[1..]), DefaultValue(kind));
      EncodingIsNotEmpty(kind, vs[0]);
      PackedRoundTrip(kind, before + [vs[0]], vs[1..], max);
      assert before + [vs[0]] + vs[1..] == before + vs;
    } else {
      assert before + vs == before;
    }
  }

  /* One field. */

  // The decoder reads a tag and goes to the field it belongs to.
  lemma KeyStep(desc: Desc, i: nat, wireType: nat, payload: seq<byte>, state: seq<Slot>, seen: set<nat>)
    requires WellFormed(desc) && AllDecodable(desc) && i < |desc.fields| == |state| && wireType < 8
    ensures DecodeNoInit(desc, EncodeTag(desc.fields[i].tag, wireType) + payload, state, seen)
         == match DecodeField(desc, i, wireType, payload, state)
            case Fail => None
            case Got(state', rest) => DecodeNoInit(desc, rest, state', seen + {i})
  {
    hide EncodeVarint, DecodeVarint32, FindTag, DecodeField;
    var tag := desc.fields[i].tag;
    Varint32RoundTrip(tag * 8 + wireType, payload);
    TagIsFound(desc, i);
  }

  lemma TagIsFound(desc: Desc, i: nat)
    requires WellFormed(desc) && i < |desc.fields|
    ensures FindTag(desc.fields, desc.fields[i].tag) == Some(i)
  {
    var j := FindTag(desc.fields, desc.fields[i].tag).value;
    assert desc.fields[j].tag == desc.fields[i].tag;
  }

  // The state of a field that has not been met, or of an array so far.
  ghost predicate Ready(field: Field, slot: Slot) {
    match field.rule
    case Required => slot == One(DefaultValue(field.kind))
    case Optional => slot == Maybe(None)
    case OneOf(union) => slot == Picked(None)
    case Repeated(max) => slot.Many? && !Packable(field.kind) && |slot.vs| < max
  }

  ghost function Filled(slot: Slot, v: Value): Slot {
    match slot
    case One(_) => One(v)
    case Maybe(_) => Maybe(Some(v))
    case Picked(_) => Picked(Some(v))
    case Many(vs) => Many(vs + [v])
  }

  ghost predicate NoRival(desc: Desc, i: nat, state: seq<Slot>)
    requires i < |desc.fields| == |state|
  {
    forall j :: 0 <= j < |state| && j != i && InOneUnion(desc, i, j) ==> state[j] == Picked(None)
  }

  lemma TaggedStep(desc: Desc, i: nat, v: Value, tail: seq<byte>, state: seq<Slot>, seen: set<nat>)
    requires WellFormed(desc) && AllDecodable(desc) && i < |desc.fields| == |state|
    requires Ready(desc.fields[i], state[i]) && NoRival(desc, i, state)
    requires Fits(desc.fields[i].kind, v) && |EncodeValue(desc.fields[i].kind, v)| < TWO_32
    ensures var f := desc.fields[i];
      DecodeNoInit(desc, EncodeTag(f.tag, WireType(f.kind)) + EncodeValue(f.kind, v) + tail, state, seen)
      == DecodeNoInit(desc, tail, state[i := Filled(state[i], v)], seen + {i})
    decreases desc.fields[i].kind, 1, 0
  {
    hide EncodeValue, DecodeValue, EncodeTag, DecodeNoInit, WellFormed, Fits;
    var f := desc.fields[i];
    FieldKindOk(desc, i);
    ValueRoundTrip(f.kind, v, tail);
    var tagBytes, body := EncodeTag(f.tag, WireType(f.kind)), EncodeValue(f.kind, v);
    assert tagBytes + body + tail == tagBytes + (body + tail);
    KeyStep(desc, i, WireType(f.kind), body + tail, state, seen);
    ChoosesAlone(desc, i, state, v);
  }

  lemma FieldKindOk(desc: Desc, i: nat)
    requires WellFormed(desc) && i < |desc.fields|
    ensures KindOk(desc.fields[i].kind)
  {
  }

  lemma ChoosesAlone(desc: Desc, i: nat, state: seq<Slot>, v: Value)
    requires i < |desc.fields| == |state| && NoRival(desc, i, state)
    ensures Choose(desc, state, i, v) == state[i := Picked(Some(v))]
  {
  }

  // A repeated field whose items carry a tag each.
  lemma {:induction false} RepeatedRoundTrip(desc: Desc, i: nat, before: seq<Value>, vs: seq<Value>, tail: seq<byte>,
                                             state: seq<Slot>, seen: set<nat>)
    requires WellFormed(desc) && AllDecodable(desc) && i < |desc.fields| == |state| && vs != []
    requires desc.fields[i].rule.Repeated? && !Packable(desc.fields[i].kind) && state[i] == Many(before)
    requires |before| + |vs| <= desc.fields[i].rule.max
    requires forall k :: 0 <= k < |vs| ==> Fits(desc.fields[i].kind, vs[k])
    requires |EncodeTagged(desc.fields[i].tag, desc.fields[i].kind, vs)| < TWO_32
    ensures DecodeNoInit(desc, EncodeTagged(desc.fields[i].tag, desc.fields[i].kind, vs) + tail, state, seen)
         == DecodeNoInit(desc, tail, state[i := Many(before + vs)], seen + {i})
    decreases desc.fields[i].kind, 2, |vs|
  {
    hide EncodeValue, EncodeTag, DecodeNoInit, WellFormed, Fits, AllDecodable;
    var f := desc.fields[i];
    var more := EncodeTagged(f.tag, f.kind, vs[1..]);
    var head := EncodeTag(f.tag, WireType(f.kind)) + EncodeValue(f.kind, vs[0]);
    assert EncodeTagged(f.tag, f.kind, vs) + tail == head + (more + tail);
    TaggedStep(desc, i, vs[0], more + tail, state, seen);
    var state' := state[i := Many(before + [vs[0]])];
    if |vs| == 1 {
      assert vs == [vs[0]] && more + tail == tail;
    } else {
      RepeatedRoundTrip(desc, i, before + [vs[0]], vs[1..], tail, state', seen + {i});
      assert before + [vs[0]] + vs[1..] == before + vs;
      assert state'[i := Many(before + vs)] == state[i := Many(before + vs)];
      assert seen + {i} + {i} == seen + {i};
    }
  }

  lemma PackedFieldRoundTrip(desc: Desc, i: nat, vs: seq<Value>, tail: seq<byte>, state: seq<Slot>, seen: set<nat>)
    requires WellFormed(desc) && AllDecodable(desc) && i < |desc.fields| == |state|
    requires desc.fields[i].rule.Repeated? && Packable(desc.fields[i].kind) && state[i] == Many([])
    requires |vs| <= desc.fields[i].rule.max && forall k :: 0 <= k < |vs| ==> Fits(desc.fields[i].kind, vs[k])
    requires |EncodeItems(desc.fields[i].kind, vs)| < TWO_32
    ensures DecodeNoInit(desc, EncodeTag(desc.fields[i].tag, 2) + EncodeString(EncodeItems(desc.fields[i].kind, vs)) + tail, state, seen)
         == DecodeNoInit(desc, tail, state[i := Many(vs)], seen + {i})
  {
    hide EncodeItems, DecodePacked, EncodeTag, EncodeString, DecodeNoInit, DecodeVarint32, WellFormed, Fits, DecodeValue;
    var f := desc.fields[i];
    FieldKindOk(desc, i);
    var data := EncodeItems(f.kind, vs);
    var tagBytes := EncodeTag(f.tag, 2);
    assert tagBytes + EncodeString(data) + tail == tagBytes + (EncodeString(data) + tail);
    StringRoundTrip(data, tail);
    PackedRoundTrip(f.kind, [], vs, f.rule.max);
    assert [] + vs == vs;
    KeyStep(desc, i, 2, EncodeString(data) + tail, state, seen);
  }

  /* Whole messages. */

  // The decoder's state once the first i fields have been read.
  ghost function StateAt(desc: Desc, slots: seq<Slot>, i: nat): (r: seq<Slot>)
    requires i <= |slots| == |desc.fields|
    ensures |r| == |slots|
  {
    slots[..i] + DefaultMessage(desc)[i..]
  }

  ghost predicate Emits(slot: Slot) {
    match slot
    case One(_) => true
    case Maybe(o) => o.Some?
    case Picked(o) => o.Some?
    case Many(vs) => vs != []
  }

  ghost function SeenAt(slots: seq<Slot>, i: nat): set<nat>
    requires i <= |slots|
  {
    set j | 0 <= j < i && Emits(slots[j])
  }

  lemma {:induction false} WholeRoundTrip(desc: Desc, slots: seq<Slot>)
    requires WellFormed(desc) && FitsMessage(desc, slots) && |EncodeFrom(desc, slots, 0)| < TWO_32
    ensures AllDecodable(desc) && DecodeNoInit(desc, EncodeFrom(desc, slots, 0), DefaultMessage(desc), {}) == Some(slots)
    decreases desc, 1, 0
  {
    hide DecodeNoInit, EncodeFrom, WellFormed, FitsMessage, AllDecodable;
    WellFormedIsDecodable(desc);
    RestRoundTrip(desc, slots, 0);
    assert StateAt(desc, slots, 0) == DefaultMessage(desc);
    assert SeenAt(slots, 0) == {};
  }

  lemma {:induction false} RestRoundTrip(desc: Desc, slots: seq<Slot>, i: nat)
    requires WellFormed(desc) && AllDecodable(desc) && FitsMessage(desc, slots) && i <= |slots|
    requires |EncodeFrom(desc, slots, i)| < TWO_32
    ensures DecodeNoInit(desc, EncodeFrom(desc, slots, i), StateAt(desc, slots, i), SeenAt(slots, i)) == Some(slots)
    decreases desc, 0, |slots| - i
  {
    hide EncodeSlot, WellFormed, DefaultMessage;
    if i == |slots| {
      assert StateAt(desc, slots, i) == slots;
    } else {
      SlotRoundTrip(desc, slots, i, EncodeFrom(desc, slots, i + 1));
      RestRoundTrip(desc, slots, i + 1);
    }
  }

  lemma {:induction false} SlotRoundTrip(desc: Desc, slots: seq<Slot>, i: nat, tail: seq<byte>)
    requires WellFormed(desc) && AllDecodable(desc) && FitsMessage(desc, slots) && i < |slots|
    requires |EncodeSlot(desc.fields[i], slots[i])| < TWO_32
    ensures DecodeNoInit(desc, EncodeSlot(desc.fields[i], slots[i]) + tail, StateAt(desc, slots, i), SeenAt(slots, i))
         == DecodeNoInit(desc, tail, StateAt(desc, slots, i + 1), SeenAt(slots, i + 1))
    decreases desc.fields[i].kind, 3, 0
  {
    hide DecodeNoInit, WellFormed, EncodeTag, EncodeValue, Fits, AllDecodable, EncodeItems;
    var f, slot, state := desc.fields[i], slots[i], StateAt(desc, slots, i);
    NextState(desc, slots, i);
    if !Emits(slot) {
      assert [] + tail == tail;
    } else if slot.Many? {
      if Packable(f.kind) {
        PackedFieldRoundTrip(desc, i, slot.vs, tail, state, SeenAt(slots, i));
      } else {
        RepeatedRoundTrip(desc, i, [], slot.vs, tail, state, SeenAt(slots, i));
        assert [] + slot.vs == slot.vs;
      }
    } else {
      var v := if slot.One? then slot.v else slot.o.value;
      TaggedOnce(f.tag, f.kind, v);
      TaggedStep(desc, i, v, tail, state, SeenAt(slots, i));
    }
  }

  lemma TaggedOnce(tag: nat, kind: Kind, v: Value)
    requires Fits(kind, v)
    ensures EncodeTagged(tag, kind, [v]) == EncodeTag(tag, WireType(kind)) + EncodeValue(kind, v)
  {
    hide EncodeValue, EncodeTag;
    assert [v][1..] == [];
  }

  lemma NextState(desc: Desc, slots: seq<Slot>, i: nat)
    requires FitsMessage(desc, slots) && i < |slots|
    ensures var state := StateAt(desc, slots, i);
      && state[i] == DefaultSlot(desc.fields[i]) && state[i := slots[i]] == StateAt(desc, slots, i + 1)
      && (!Emits(slots[i]) ==> state == StateAt(desc, slots, i + 1))
      && (slots[i].Picked? && Emits(slots[i]) ==> NoRival(desc, i, state))
      && SeenAt(slots, i + 1) == (if Emits(slots[i]) then SeenAt(slots, i) + {i} else SeenAt(slots, i))
  {
    hide Fits, NoRival, InOneUnion;
    assert FitsSlot(desc.fields[i], slots[i]);
    if slots[i].Picked? && Emits(slots[i]) { RivalsAreUnset(desc, slots, i); }
  }

  lemma RivalsAreUnset(desc: Desc, slots: seq<Slot>, i: nat)
    requires FitsMessage(desc, slots) && i < |slots| && slots[i].Picked? && slots[i].o.Some?
    ensures NoRival(desc, i, StateAt(desc, slots, i))
  {
    hide Fits;
    assert FitsSlot(desc.fields[i], slots[i]);
    forall j | 0 <= j < |slots| && j != i && InOneUnion(desc, i, j) ensures StateAt(desc, slots, i)[j] == Picked(None) {
      assert FitsSlot(desc.fields[j], slots[j]);
    }
  }

  // For every description and every message that fits it, decoding the encoding
  // succeeds and restores the message: every present field, and no other.
  lemma MessagesRoundTrip(desc: Desc, slots: seq<Slot>)
    requires WellFormed(desc) && FitsMessage(desc, slots) && |Encode(desc, slots)| < TWO_32
    ensures AllDecodable(desc) && Decode(desc, Encode(desc, slots)) == Some(slots)
  {
    hide DecodeNoInit, EncodeFrom, WellFormed, FitsMessage, AllDecodable;
    WholeRoundTrip(desc, slots);
  }
}
