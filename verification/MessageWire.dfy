// What the decoder makes of any sequence of wire fields: fields a newer sender
// has added are passed over (nanopb, pb_decode.c:278-330 and 934-1082).

module MessageWire {
  import opened Wrappers
  import opened Coding
  import opened Varint
  import opened Messages
  import opened MessageRoundTrip

  /* The wire format. */

  // A tag and a payload of one of the four wire types.
  datatype WireField =
    | VarintField(tag: nat, septets: seq<byte>)   // 0
    | Fixed64Field(tag: nat, bytes: seq<byte>)    // 1
    | LengthField(tag: nat, bytes: seq<byte>)     // 2
    | Fixed32Field(tag: nat, bytes: seq<byte>)    // 5
  {
    ghost predicate Ok() {
      && 1 <= tag < 0x2000_0000
      && match this
         case VarintField(_, septets) => IsVarint(septets)
         case Fixed64Field(_, bytes) => |bytes| == 8
         case LengthField(_, bytes) => |bytes| < 0x1_0000_0000
         case Fixed32Field(_, bytes) => |bytes| == 4
    }

    function Type(): nat {
      match this
      case VarintField(_, _) => 0
      case Fixed64Field(_, _) => 1
      case LengthField(_, _) => 2
      case Fixed32Field(_, _) => 5
    }

    function Body(): seq<byte> {
      match this
      case VarintField(_, septets) => septets
      case Fixed64Field(_, bytes) => bytes
      case LengthField(_, bytes) => EncodeVarint(|bytes|) + bytes
      case Fixed32Field(_, bytes) => bytes
    }
  }

  function Serialized(f: WireField): seq<byte> {
    EncodeVarint(8 * f.tag + f.Type()) + f.Body()
  }

  function Wire(fs: seq<WireField>): seq<byte> {
    if fs == [] then [] else Serialized(fs[0]) + Wire(fs[1..])
  }

  /* Skipping. */

  lemma {:induction false} VarintIsSkipped(s: seq<byte>, rest: seq<byte>)
    requires IsVarint(s)
    ensures SkipVarint(s + rest) == Got([], rest)
  {
    if |s| == 1 {
      assert (s + rest)[1..] == rest;
    } else {
      assert (s + rest)[1..] == s[1..] + rest;
      VarintIsSkipped(s[1..], rest);
    }
  }

  // Skipping takes exactly the payload: a whole varint, eight bytes, a length
  // and as many bytes, or four bytes.
  lemma BodyIsSkipped(f: WireField, rest: seq<byte>)
    requires f.Ok()
    ensures var r := SkipField(f.Type(), f.Body() + rest); r.Got? && r.rest == rest
  {
    hide EncodeVarint, DecodeVarint32, SkipVarint;
    match f
    case VarintField(_, septets) => VarintIsSkipped(septets, rest);
    case LengthField(_, bytes) =>
      Varint32RoundTrip(|bytes|, bytes + rest);
      assert f.Body() + rest == EncodeVarint(|bytes|) + (bytes + rest);
    case _ =>
  }

  // What skipping takes of any bytes, by wire type; there are no other types.
  lemma SkipIs(wireType: nat, s: seq<byte>)
    ensures wireType == 1 ==> SkipField(wireType, s) == if |s| < 8 then Fail else Got(s[..8], s[8..])
    ensures wireType == 5 ==> SkipField(wireType, s) == if |s| < 4 then Fail else Got(s[..4], s[4..])
    ensures wireType !in {0, 1, 2, 5} ==> SkipField(wireType, s) == Fail
  {
  }

  predicate Has(desc: Desc, tag: nat) {
    exists i :: 0 <= i < |desc.fields| && desc.fields[i].tag == tag
  }

  // The decoder passes over a field it does not know.
  lemma UnknownIsSkipped(desc: Desc, f: WireField, rest: seq<byte>, slots: seq<Slot>, seen: set<nat>)
    requires AllDecodable(desc) && |slots| == |desc.fields| && f.Ok() && !Has(desc, f.tag)
    ensures DecodeNoInit(desc, Serialized(f) + rest, slots, seen) == DecodeNoInit(desc, rest, slots, seen)
  {
    hide EncodeVarint, DecodeVarint32, SkipField, DecodeField, AllDecodable;
    var key := 8 * f.tag + f.Type();
    Varint32RoundTrip(key, f.Body() + rest);
    BodyIsSkipped(f, rest);
    assert Serialized(f) + rest == EncodeVarint(key) + (f.Body() + rest);
    assert key / 8 == f.tag && key % 8 == f.Type();
  }

  /* A known field takes exactly its payload. */

  ghost function Then<T>(p: Parsed<T>, rest: seq<byte>): Parsed<T> {
    match p case Fail => Fail case Got(v, more) => Got(v, more + rest)
  }

  // All the bytes were read.
  ghost predicate Spent<T>(p: Parsed<T>) {
    p.Got? ==> p.rest == []
  }

  lemma {:induction false} SeptetsTakeBody(s: seq<byte>, bitpos: nat, rest: seq<byte>)
    requires IsVarint(s)
    ensures Spent(DecodeSeptets(s, bitpos)) && DecodeSeptets(s + rest, bitpos) == Then(DecodeSeptets(s, bitpos), rest)
    decreases |s|
  {
    if |s| == 1 {
      assert (s + rest)[1..] == rest && s[1..] == [] && [] + rest == rest;
    } else {
      assert (s + rest)[1..] == s[1..] + rest;
      SeptetsTakeBody(s[1..], bitpos + 7, rest);
    }
  }

  lemma {:induction false} More32TakesBody(s: seq<byte>, bitpos: nat, result: nat, rest: seq<byte>)
    requires IsVarint(s)
    ensures Spent(DecodeMore32(s, bitpos, result))
    ensures DecodeMore32(s + rest, bitpos, result) == Then(DecodeMore32(s, bitpos, result), rest)
    decreases |s|
  {
    hide Pow2;
    if |s| == 1 {
      assert (s + rest)[1..] == rest && s[1..] == [] && [] + rest == rest;
    } else {
      assert (s + rest)[1..] == s[1..] + rest;
      var r := if bitpos >= 32 then result else result + (s[0] % 128 * Pow2(bitpos)) % TWO_32;
      More32TakesBody(s[1..], bitpos + 7, r, rest);
    }
  }

  lemma VarintsTakeBody(s: seq<byte>, rest: seq<byte>)
    requires IsVarint(s)
    ensures Spent(DecodeVarint(s)) && DecodeVarint(s + rest) == Then(DecodeVarint(s), rest)
    ensures Spent(DecodeVarint32(s)) && DecodeVarint32(s + rest) == Then(DecodeVarint32(s), rest)
  {
    hide DecodeMore32, DecodeSeptets;
    SeptetsTakeBody(s, 0, rest);
    if |s| == 1 {
      assert (s + rest)[1..] == rest && s[1..] == [] && [] + rest == rest;
    } else {
      assert (s + rest)[1..] == s[1..] + rest;
      More32TakesBody(s[1..], 7, s[0] - 128, rest);
    }
  }

  ghost predicate TakesBody(kind: Kind, f: WireField, rest: seq<byte>, cur: Value)
    requires Decodable(kind)
  {
    && Spent(DecodeValue(kind, f.Body(), cur))
    && DecodeValue(kind, f.Body() + rest, cur) == Then(DecodeValue(kind, f.Body(), cur), rest)
  }

  lemma NumberTakesBody(kind: Kind, f: WireField, rest: seq<byte>, cur: Value)
    requires Packable(kind) && Decodable(kind) && f.Ok() && f.Type() == WireType(kind)
    ensures TakesBody(kind, f, rest, cur)
  {
    hide DecodeVarint, DecodeVarint32, ToSigned, UnZigZag, DecodeFixed32, DecodeFixed64;
    match f
    case VarintField(_, septets) => VarintsTakeBody(septets, rest);
    case Fixed64Field(_, bytes) =>
      Word64At(bytes, rest);
      assert (bytes + rest)[8..] == rest && bytes[8..] == [] && [] + rest == rest;
    case Fixed32Field(_, bytes) =>
      Word32At(bytes, rest);
      assert (bytes + rest)[4..] == rest && bytes[4..] == [] && [] + rest == rest;
  }

  // A length and as many bytes.
  lemma LengthTakesBody(bytes: seq<byte>, rest: seq<byte>)
    requires |bytes| < 0x1_0000_0000
    ensures var s := EncodeVarint(|bytes|) + bytes;
      && DecodeVarint32(s) == Got(|bytes|, bytes) && DecodeVarint32(s + rest) == Got(|bytes|, bytes + rest)
      && Take(bytes, |bytes|) == Got(bytes, []) && Take(bytes + rest, |bytes|) == Got(bytes, rest)
  {
    hide EncodeVarint, DecodeVarint32;
    StringRoundTrip(bytes, rest);
    StringRoundTrip(bytes, []);
    assert bytes + [] == bytes && EncodeString(bytes) + [] == EncodeString(bytes);
  }

  lemma ValueTakesBody(kind: Kind, f: WireField, rest: seq<byte>, cur: Value)
    requires Decodable(kind) && f.Ok() && f.Type() == WireType(kind)
    ensures TakesBody(kind, f, rest, cur)
  {
    hide DecodeVarint32, EncodeVarint, DecodeNoInit, DefaultMessage;
    if Packable(kind) {
      NumberTakesBody(kind, f, rest, cur);
    } else {
      LengthTakesBody(f.bytes, rest);
      assert [] + rest == rest;
    }
  }

  lemma Word32At(bytes: seq<byte>, rest: seq<byte>)
    requires |bytes| == 4
    ensures DecodeFixed32(bytes + rest) == DecodeFixed32(bytes)
  {
  }

  lemma Word64At(bytes: seq<byte>, rest: seq<byte>)
    requires |bytes| == 8
    ensures DecodeFixed64(bytes + rest) == DecodeFixed64(bytes)
  {
    assert (bytes + rest)[4..8] == bytes[4..8];
  }

  /* Sequences of fields. */

  // The payload is of the type the field's kind is written as, or is a packed array.
  predicate Matches(field: Field, f: WireField) {
    f.Type() == WireType(field.kind) || (field.rule.Repeated? && Packable(field.kind) && f.LengthField?)
  }

  ghost predicate WireOk(desc: Desc, fs: seq<WireField>) {
    && (forall k :: 0 <= k < |fs| ==> fs[k].Ok())
    && forall k, i :: 0 <= k < |fs| && 0 <= i < |desc.fields| && desc.fields[i].tag == fs[k].tag ==> Matches(desc.fields[i], fs[k])
  }

  ghost predicate FieldTakes(desc: Desc, i: nat, f: WireField, rest: seq<byte>, slots: seq<Slot>)
    requires AllDecodable(desc) && i < |desc.fields| == |slots|
  {
    && Spent(DecodeField(desc, i, f.Type(), f.Body(), slots))
    && DecodeField(desc, i, f.Type(), f.Body() + rest, slots) == Then(DecodeField(desc, i, f.Type(), f.Body(), slots), rest)
  }

  lemma PackedTakesBody(desc: Desc, i: nat, f: WireField, rest: seq<byte>, slots: seq<Slot>)
    requires AllDecodable(desc) && i < |desc.fields| == |slots| && f.Ok()
    requires desc.fields[i].rule.Repeated? && Packable(desc.fields[i].kind) && f.LengthField?
    ensures FieldTakes(desc, i, f, rest, slots)
  {
    hide DecodeValue, DecodeVarint32, EncodeVarint, AllDecodable, DecodePacked, Choose, DefaultValue, Take;
    LengthTakesBody(f.bytes, rest);
    assert [] + rest == rest;
  }

  // What a field held before, for a submessage to be merged into.
  function Held(field: Field, slot: Slot): Value {
    match slot
    case One(v) => if field.rule.Required? then v else DefaultValue(field.kind)
    case Maybe(o) => if field.rule.Optional? && o.Some? then o.value else DefaultValue(field.kind)
    case Picked(o) => if field.rule.OneOf? && o.Some? then o.value else DefaultValue(field.kind)
    case Many(_) => DefaultValue(field.kind)
  }

  // The message after one value has been read into its i-th field; None for a full array.
  function Stored(desc: Desc, i: nat, slots: seq<Slot>, v: Value): (r: Option<seq<Slot>>)
    requires i < |desc.fields| == |slots|
    ensures r.Some? ==> |r.value| == |slots|
  {
    match desc.fields[i].rule
    case Required => Some(slots[i := One(v)])
    case Optional => Some(slots[i := Maybe(Some(v))])
    case OneOf(_) => Some(Choose(desc, slots, i, v))
    case Repeated(max) =>
      var vs := if slots[i].Many? then slots[i].vs else [];
      if |vs| >= max then None else Some(slots[i := Many(vs + [v])])
  }

  lemma SingleField(desc: Desc, i: nat, wireType: nat, s: seq<byte>, slots: seq<Slot>)
    requires AllDecodable(desc) && i < |desc.fields| == |slots| && Decodable(desc.fields[i].kind)
    requires wireType == 2 && Packable(desc.fields[i].kind) ==> !desc.fields[i].rule.Repeated?
    ensures DecodeField(desc, i, wireType, s, slots)
         == match DecodeValue(desc.fields[i].kind, s, Held(desc.fields[i], slots[i]))
            case Fail => Fail
            case Got(v, rest) => match Stored(desc, i, slots, v) case None => Fail case Some(slots') => Got(slots', rest)
  {
    hide DecodeValue, AllDecodable, Choose, DefaultValue, Decodable;
  }

  lemma SingleTakesBody(desc: Desc, i: nat, f: WireField, rest: seq<byte>, slots: seq<Slot>)
    requires AllDecodable(desc) && i < |desc.fields| == |slots| && f.Ok() && f.Type() == WireType(desc.fields[i].kind)
    ensures FieldTakes(desc, i, f, rest, slots)
  {
    hide DecodeValue, DecodeField, AllDecodable, Stored, Held, WireType, WireField.Body, WireField.Ok;
    var kind := desc.fields[i].kind;
    FieldIsDecodable(desc, i);
    TypeOfPackable(kind);
    ValueTakesBody(kind, f, rest, Held(desc.fields[i], slots[i]));
    SingleField(desc, i, f.Type(), f.Body(), slots);
    SingleField(desc, i, f.Type(), f.Body() + rest, slots);
  }

  lemma TypeOfPackable(kind: Kind)
    ensures Packable(kind) <==> WireType(kind) != 2
  {
  }

  lemma FieldTakesBody(desc: Desc, i: nat, f: WireField, rest: seq<byte>, slots: seq<Slot>)
    requires AllDecodable(desc) && i < |desc.fields| == |slots| && f.Ok() && Matches(desc.fields[i], f)
    ensures FieldTakes(desc, i, f, rest, slots)
  {
    hide FieldTakes, AllDecodable;
    if f.Type() == WireType(desc.fields[i].kind) {
      SingleTakesBody(desc, i, f, rest, slots);
    } else {
      PackedTakesBody(desc, i, f, rest, slots);
    }
  }

  lemma FieldIsDecodable(desc: Desc, i: nat)
    requires AllDecodable(desc) && i < |desc.fields|
    ensures Decodable(desc.fields[i].kind)
  {
  }

  // The fields the receiver knows.
  function Known(desc: Desc, fs: seq<WireField>): seq<WireField> {
    if fs == [] then []
    else if Has(desc, fs[0].tag) then [fs[0]] + Known(desc, fs[1..])
    else Known(desc, fs[1..])
  }

  lemma KnownStep(desc: Desc, f: WireField, rest: seq<byte>, slots: seq<Slot>, seen: set<nat>)
    requires WellFormed(desc) && AllDecodable(desc) && |slots| == |desc.fields|
    requires WireOk(desc, [f]) && Has(desc, f.tag)
    ensures FindTag(desc.fields, f.tag).Some?
    ensures var i := FindTag(desc.fields, f.tag).value;
      DecodeNoInit(desc, Serialized(f) + rest, slots, seen)
      == match DecodeField(desc, i, f.Type(), f.Body(), slots)
         case Fail => None
         case Got(slots', _) => DecodeNoInit(desc, rest, slots', seen + {i})
  {
    hide DecodeNoInit, DecodeField, EncodeVarint, WellFormed, AllDecodable, WireField.Ok, WireField.Body, WireField.Type, Matches, FindTag, WireOk, Has;
    var i := FoundMatches(desc, f);
    FieldTakesBody(desc, i, f, rest, slots);
    TypeIsSmall(f);
    KeyStep(desc, i, f.Type(), f.Body() + rest, slots, seen);
    assert [] + rest == rest;
    assert Serialized(f) + rest == EncodeTag(f.tag, f.Type()) + (f.Body() + rest);
  }

  lemma TypeIsSmall(f: WireField)
    ensures f.Type() < 8
  {
  }

  lemma FoundMatches(desc: Desc, f: WireField) returns (i: nat)
    requires WireOk(desc, [f]) && Has(desc, f.tag)
    ensures FindTag(desc.fields, f.tag) == Some(i) && i < |desc.fields| && desc.fields[i].tag == f.tag
    ensures f.Ok() && Matches(desc.fields[i], f)
  {
    hide WireField.Ok, Matches;
    i := FindTag(desc.fields, f.tag).value;
    assert [f][0] == f;
  }

  // For any sequence of wire fields, in any order and number, the decoder does
  // as if those with unknown tags were not there.
  lemma {:induction false} UnknownFieldsAreIgnored(desc: Desc, fs: seq<WireField>, slots: seq<Slot>, seen: set<nat>)
    requires WellFormed(desc) && AllDecodable(desc) && |slots| == |desc.fields| && WireOk(desc, fs)
    ensures DecodeNoInit(desc, Wire(fs), slots, seen) == DecodeNoInit(desc, Wire(Known(desc, fs)), slots, seen)
    decreases |fs|
  {
    hide DecodeNoInit, DecodeField, WellFormed, AllDecodable, WireField.Ok, Matches, Has, Serialized;
    if fs != [] {
      var f, more := fs[0], fs[1..];
      if Has(desc, f.tag) {
        assert WireOk(desc, [f]);
        KnownStep(desc, f, Wire(more), slots, seen);
        KnownStep(desc, f, Wire(Known(desc, more)), slots, seen);
        var i := FindTag(desc.fields, f.tag).value;
        var r := DecodeField(desc, i, f.Type(), f.Body(), slots);
        if r.Got? { UnknownFieldsAreIgnored(desc, more, r.value, seen + {i}); }
        assert Known(desc, fs)[1..] == Known(desc, more);
      } else {
        UnknownIsSkipped(desc, f, Wire(more), slots, seen);
        UnknownFieldsAreIgnored(desc, more, slots, seen);
      }
    }
  }

  /* Submessages in pieces. */

  // What has been met before only helps the check for required fields.
  lemma {:induction false} SeenMore(desc: Desc, s: seq<byte>, slots: seq<Slot>, seen: set<nat>, more: set<nat>)
    requires AllDecodable(desc) && |slots| == |desc.fields| && seen <= more
    requires DecodeNoInit(desc, s, slots, seen).Some?
    ensures DecodeNoInit(desc, s, slots, more) == DecodeNoInit(desc, s, slots, seen)
    decreases |s|
  {
    hide DecodeVarint32, DecodeField, SkipField, AllDecodable, FindTag, RequiredIndex;
    if s != [] && DecodeVarint32(s).value != 0 {
      var key, rest := DecodeVarint32(s).value, DecodeVarint32(s).rest;
      var i := FindTag(desc.fields, key / 8);
      if i == None {
        SeenMore(desc, SkipField(key % 8, rest).rest, slots, seen, more);
      } else {
        var r := DecodeField(desc, i.value, key % 8, rest, slots);
        SeenMore(desc, r.rest, r.value, seen + {i.value}, more + {i.value});
      }
    }
  }

  // Decoding whole fields and then, into the result, other bytes is decoding both at once.
  lemma {:induction false} DecodeBoth(desc: Desc, fs: seq<WireField>, b: seq<byte>, slots: seq<Slot>, seen: set<nat>,
                                      s1: seq<Slot>, s2: seq<Slot>)
    requires WellFormed(desc) && AllDecodable(desc) && |slots| == |s1| == |desc.fields| && WireOk(desc, fs)
    requires DecodeNoInit(desc, Wire(fs), slots, seen) == Some(s1) && DecodeNoInit(desc, b, s1, {}) == Some(s2)
    ensures DecodeNoInit(desc, Wire(fs) + b, slots, seen) == Some(s2)
    decreases |fs|
  {
    hide DecodeField, WellFormed, AllDecodable, WireField.Ok, Matches, Has, Serialized, AllRequiredSeen, DecodeVarint32;
    if fs == [] {
      assert Wire(fs) + b == b;
      SeenMore(desc, b, s1, {}, seen);
    } else {
      var f, more := fs[0], fs[1..];
      assert WireOk(desc, [f]) && Wire(fs) + b == Serialized(f) + (Wire(more) + b);
      if Has(desc, f.tag) {
        KnownStep(desc, f, Wire(more), slots, seen);
        KnownStep(desc, f, Wire(more) + b, slots, seen);
        var i := FindTag(desc.fields, f.tag).value;
        var r := DecodeField(desc, i, f.Type(), f.Body(), slots);
        DecodeBoth(desc, more, b, r.value, seen + {i}, s1, s2);
      } else {
        UnknownIsSkipped(desc, f, Wire(more), slots, seen);
        UnknownIsSkipped(desc, f, Wire(more) + b, slots, seen);
        DecodeBoth(desc, more, b, slots, seen, s1, s2);
      }
    }
  }

  lemma SubValue(desc: Desc, data: seq<byte>, cur: seq<Slot>, rest: seq<byte>)
    requires AllDecodable(desc) && |cur| == |desc.fields| && |data| < 0x1_0000_0000
    ensures DecodeValue(Sub(desc), EncodeVarint(|data|) + data + rest, Msg(cur))
         == match DecodeNoInit(desc, data, cur, {}) case None => Fail case Some(slots) => Got(Msg(slots), rest)
  {
    hide EncodeVarint, DecodeVarint32, DecodeNoInit, DefaultMessage;
    LengthTakesBody(data, rest);
  }

  // A submessage that arrives in two pieces, each decodable after the other,
  // is decoded like one that arrives whole.
  lemma SubmessagesMerge(desc: Desc, fs: seq<WireField>, b: seq<byte>, cur: seq<Slot>, s1: seq<Slot>, s2: seq<Slot>, rest: seq<byte>)
    requires WellFormed(desc) && AllDecodable(desc) && |cur| == |s1| == |desc.fields| && WireOk(desc, fs)
    requires |Wire(fs)| + |b| < 0x1_0000_0000
    requires DecodeNoInit(desc, Wire(fs), cur, {}) == Some(s1) && DecodeNoInit(desc, b, s1, {}) == Some(s2)
    ensures var a := Wire(fs);
      && DecodeValue(Sub(desc), EncodeVarint(|a|) + a + rest, Msg(cur)) == Got(Msg(s1), rest)
      && DecodeValue(Sub(desc), EncodeVarint(|b|) + b + rest, Msg(s1)) == Got(Msg(s2), rest)
      && DecodeValue(Sub(desc), EncodeVarint(|a + b|) + (a + b) + rest, Msg(cur)) == Got(Msg(s2), rest)
  {
    hide EncodeVarint, DecodeValue, DecodeNoInit, WellFormed, AllDecodable, WireOk;
    SubValue(desc, Wire(fs), cur, rest);
    SubValue(desc, b, s1, rest);
    SubValue(desc, Wire(fs) + b, cur, rest);
    DecodeBoth(desc, fs, b, cur, {}, s1, s2);
  }

  /* Required fields. */

  // Without a field of its tag among the wire fields, a required field is
  // missed, if fewer than 64 required ones come before it in the description.
  lemma {:induction false} RequiredIsThere(desc: Desc, fs: seq<WireField>, slots: seq<Slot>, seen: set<nat>, i: nat)
    requires WellFormed(desc) && AllDecodable(desc) && |slots| == |desc.fields| && WireOk(desc, fs)
    requires i < |desc.fields| && desc.fields[i].rule.Required? && RequiredIndex(desc.fields, i) < 64
    requires DecodeNoInit(desc, Wire(fs), slots, seen).Some?
    ensures i in seen || exists k :: 0 <= k < |fs| && fs[k].tag == desc.fields[i].tag
    decreases |fs|
  {
    hide DecodeField, WellFormed, AllDecodable, WireField.Ok, Matches, Has, Serialized, DecodeVarint32, RequiredIndex;
    if fs != [] {
      var f, more := fs[0], fs[1..];
      assert WireOk(desc, [f]);
      if Has(desc, f.tag) {
        KnownStep(desc, f, Wire(more), slots, seen);
        var j := FindTag(desc.fields, f.tag).value;
        var r := DecodeField(desc, j, f.Type(), f.Body(), slots);
        RequiredIsThere(desc, more, r.value, seen + {j}, i);
      } else {
        UnknownIsSkipped(desc, f, Wire(more), slots, seen);
        RequiredIsThere(desc, more, slots, seen, i);
      }
      if i !in seen && f.tag != desc.fields[i].tag {
        var k :| 0 <= k < |more| && more[k].tag == desc.fields[i].tag;
        assert fs[k + 1] == more[k];
      }
    }
  }

  // At the end of the input nothing else is asked for.
  lemma RequiredIsEnough(desc: Desc, slots: seq<Slot>, seen: set<nat>)
    requires AllDecodable(desc) && |slots| == |desc.fields|
    requires forall i :: 0 <= i < |desc.fields| && desc.fields[i].rule.Required? && RequiredIndex(desc.fields, i) < 64 ==> i in seen
    ensures DecodeNoInit(desc, [], slots, seen) == Some(slots)
  {
  }
}
