// Messages between programs with different descriptions, and messages in
// pieces (nanopb, pb_encode.c:210-370, pb_decode.c:934-1082).

module MessageEvolution {
  import opened Wrappers
  import opened Coding
  import opened Varint
  import opened Messages
  import opened MessageRoundTrip
  import opened MessageWire

  /* The wire fields of an encoding. */

  ghost function ValueField(tag: nat, kind: Kind, v: Value): WireField
    requires Fits(kind, v)
  {
    match kind
    case Fixed32 => Fixed32Field(tag, EncodeFixed32(v.n))
    case Fixed64 => Fixed64Field(tag, EncodeFixed64(v.n))
    case Bytes(_) => LengthField(tag, v.bytes)
    case String(_) => LengthField(tag, v.bytes)
    case FixedBytes(_) => LengthField(tag, v.bytes)
    case Sub(desc) => LengthField(tag, EncodeFrom(desc, v.slots, 0))
    case _ => VarintField(tag, EncodeValue(kind, v))
  }

  ghost function ValueFields(tag: nat, kind: Kind, vs: seq<Value>): seq<WireField>
    requires forall k :: 0 <= k < |vs| ==> Fits(kind, vs[k])
  {
    if vs == [] then [] else [ValueField(tag, kind, vs[0])] + ValueFields(tag, kind, vs[1..])
  }

  ghost function SlotFields(field: Field, slot: Slot): seq<WireField>
    requires FitsSlot(field, slot)
  {
    match slot
    case One(v) => ValueFields(field.tag, field.kind, [v])
    case Maybe(o) => if o == None then [] else ValueFields(field.tag, field.kind, [o.value])
    case Picked(o) => if o == None then [] else ValueFields(field.tag, field.kind, [o.value])
    case Many(vs) =>
      if vs == [] then []
      else if Packable(field.kind) then [LengthField(field.tag, EncodeItems(field.kind, vs))]
      else ValueFields(field.tag, field.kind, vs)
  }

  ghost predicate AllFit(fields: seq<Field>, slots: seq<Slot>) {
    |fields| == |slots| && forall i :: 0 <= i < |fields| ==> FitsSlot(fields[i], slots[i])
  }

  ghost function Fields(fields: seq<Field>, slots: seq<Slot>): seq<WireField>
    requires AllFit(fields, slots)
  {
    if fields == [] then [] else SlotFields(fields[0], slots[0]) + Fields(fields[1..], slots[1..])
  }

  lemma ValueIsField(tag: nat, kind: Kind, v: Value)
    requires Fits(kind, v) && 1 <= tag < 0x2000_0000
    ensures var f := ValueField(tag, kind, v);
      && (|EncodeValue(kind, v)| < TWO_32 ==> f.Ok()) && f.tag == tag && f.Type() == WireType(kind)
      && Serialized(f) == EncodeTag(tag, WireType(kind)) + EncodeValue(kind, v)
  {
    hide EncodeVarint, EncodeFrom, EncodeFixed32, EncodeFixed64, ZigZag, ToUnsigned, FitsMessage, IsVarint;
    match kind
    case Bool => VarintIsVarint(v.n);
    case Varint(bits) => VarintIsVarint(ToUnsigned(64, v.n));
    case UVarint(bits) => VarintIsVarint(v.n);
    case SVarint(bits) => VarintIsVarint(ZigZag(v.n));
    case Fixed64 => Fixed64RoundTrip(v.n, []);
    case _ =>
  }

  // All fields have the tag and a payload that fits its length.
  ghost predicate AllTagged(fs: seq<WireField>, tag: nat) {
    forall k :: 0 <= k < |fs| ==> fs[k].Ok() && fs[k].tag == tag
  }

  lemma {:induction false} ValuesAreFields(tag: nat, kind: Kind, vs: seq<Value>)
    requires (forall k :: 0 <= k < |vs| ==> Fits(kind, vs[k])) && 1 <= tag < 0x2000_0000
    ensures var fs := ValueFields(tag, kind, vs);
      && Wire(fs) == EncodeTagged(tag, kind, vs)
      && (|EncodeTagged(tag, kind, vs)| < TWO_32 ==> AllTagged(fs, tag))
  {
    hide EncodeValue, ValueField, Fits, EncodeTag, Serialized, WireField.Ok;
    if vs != [] {
      ValueIsField(tag, kind, vs[0]);
      ValuesAreFields(tag, kind, vs[1..]);
      var f, more := ValueField(tag, kind, vs[0]), ValueFields(tag, kind, vs[1..]);
      assert ([f] + more)[1..] == more;
    }
  }

  lemma SlotIsFields(field: Field, slot: Slot)
    requires FitsSlot(field, slot) && 1 <= field.tag < 0x2000_0000
    ensures var fs := SlotFields(field, slot);
      && Wire(fs) == EncodeSlot(field, slot)
      && (|EncodeSlot(field, slot)| < TWO_32 ==> AllTagged(fs, field.tag))
  {
    hide EncodeTagged, EncodeItems, ValueFields, Fits, EncodeVarint;
    match slot
    case One(v) => ValuesAreFields(field.tag, field.kind, [v]);
    case Maybe(o) => if o != None { ValuesAreFields(field.tag, field.kind, [o.value]); }
    case Picked(o) => if o != None { ValuesAreFields(field.tag, field.kind, [o.value]); }
    case Many(vs) =>
      if vs != [] {
        if Packable(field.kind) {
          var f := LengthField(field.tag, EncodeItems(field.kind, vs));
          assert Wire([f]) == Serialized(f) by { assert [f][1..] == []; }
        } else {
          ValuesAreFields(field.tag, field.kind, vs);
        }
      }
  }

  lemma {:induction false} WireOfBoth(a: seq<WireField>, b: seq<WireField>)
    ensures Wire(a + b) == Wire(a) + Wire(b)
  {
    if a == [] {
      assert a + b == b;
    } else {
      assert (a + b)[1..] == a[1..] + b;
      WireOfBoth(a[1..], b);
    }
  }

  // An encoding is its wire fields one after the other.
  lemma {:induction false} EncodingIsFields(desc: Desc, slots: seq<Slot>, i: nat)
    requires FitsMessage(desc, slots) && i <= |slots|
    requires forall j :: 0 <= j < |desc.fields| ==> 1 <= desc.fields[j].tag < 0x2000_0000
    ensures AllFit(desc.fields[i..], slots[i..])
    ensures var fs := Fields(desc.fields[i..], slots[i..]);
      && Wire(fs) == EncodeFrom(desc, slots, i)
      && (|EncodeFrom(desc, slots, i)| < TWO_32 ==> forall k :: 0 <= k < |fs| ==> fs[k].Ok())
    decreases |slots| - i
  {
    hide EncodeSlot, SlotFields, FitsSlot, Serialized, WireField.Ok;
    if i < |slots| {
      SlotIsFields(desc.fields[i], slots[i]);
      EncodingIsFields(desc, slots, i + 1);
      var first, more := SlotFields(desc.fields[i], slots[i]), Fields(desc.fields[i + 1..], slots[i + 1..]);
      assert desc.fields[i..][1..] == desc.fields[i + 1..] && slots[i..][1..] == slots[i + 1..];
      WireOfBoth(first, more);
    }
  }

  /* A receiver that knows only some of the sender's fields. */

  function Selected<T>(s: seq<T>, keep: seq<bool>): (r: seq<T>)
    requires |s| == |keep|
  {
    if s == [] then []
    else if keep[0] then [s[0]] + Selected(s[1..], keep[1..])
    else Selected(s[1..], keep[1..])
  }

  // Two selected places come from two places in the same order.
  lemma {:induction false} SelectedFrom<S, T>(s: seq<S>, t: seq<T>, keep: seq<bool>, a: nat, b: nat) returns (i: nat, j: nat)
    requires |s| == |t| == |keep| && a <= b < |Selected(s, keep)|
    ensures |Selected(t, keep)| == |Selected(s, keep)| && i <= j < |s| && (a < b ==> i < j) && keep[i] && keep[j]
    ensures Selected(s, keep)[a] == s[i] && Selected(t, keep)[a] == t[i]
    ensures Selected(s, keep)[b] == s[j] && Selected(t, keep)[b] == t[j]
  {
    SameLength(s, t, keep);
    if !keep[0] {
      i, j := SelectedFrom(s[1..], t[1..], keep[1..], a, b);
      i, j := i + 1, j + 1;
    } else if b == 0 {
      i, j := 0, 0;
    } else {
      SameLength(s[1..], t[1..], keep[1..]);
      i, j := SelectedFrom(s[1..], t[1..], keep[1..], if a == 0 then 0 else a - 1, b - 1);
      i, j := if a == 0 then 0 else i + 1, j + 1;
    }
  }

  lemma {:induction false} SameLength<S, T>(s: seq<S>, t: seq<T>, keep: seq<bool>)
    requires |s| == |t| == |keep|
    ensures |Selected(s, keep)| == |Selected(t, keep)| <= |s|
  {
    if s != [] { SameLength(s[1..], t[1..], keep[1..]); }
  }

  lemma {:induction false} IsSelected<T>(s: seq<T>, keep: seq<bool>, i: nat) returns (a: nat)
    requires |s| == |keep| && i < |s| && keep[i]
    ensures a < |Selected(s, keep)| && Selected(s, keep)[a] == s[i]
  {
    if i == 0 {
      a := 0;
    } else {
      a := IsSelected(s[1..], keep[1..], i - 1);
      a := if keep[0] then a + 1 else a;
    }
  }

  lemma SelectionIsWellFormed(sender: Desc, keep: seq<bool>, receiver: Desc)
    requires WellFormed(sender) && |keep| == |sender.fields| && receiver.fields == Selected(sender.fields, keep)
    ensures WellFormed(receiver)
  {
    hide KindOk;
    var fields := receiver.fields;
    forall a | 0 <= a < |fields| ensures 1 <= fields[a].tag < 0x2000_0000 && KindOk(fields[a].kind) {
      var i, _ := SelectedFrom(sender.fields, sender.fields, keep, a, a);
    }
    forall a, b | 0 <= a < b < |fields| ensures fields[a].tag != fields[b].tag {
      var i, j := SelectedFrom(sender.fields, sender.fields, keep, a, b);
    }
  }

  lemma SelectionFits(sender: Desc, slots: seq<Slot>, keep: seq<bool>, receiver: Desc)
    requires FitsMessage(sender, slots) && |keep| == |slots| && receiver.fields == Selected(sender.fields, keep)
    ensures FitsMessage(receiver, Selected(slots, keep)) && AllFit(receiver.fields, Selected(slots, keep))
  {
    hide FitsSlot;
    var kept := Selected(slots, keep);
    SameLength(sender.fields, slots, keep);
    forall a | 0 <= a < |kept| ensures FitsSlot(receiver.fields[a], kept[a]) {
      var i, _ := SelectedFrom(sender.fields, slots, keep, a, a);
    }
    forall a, b | 0 <= a < b < |kept| && InOneUnion(receiver, a, b) && kept[a].Picked? && kept[b].Picked?
      ensures kept[a].o == None || kept[b].o == None
    {
      var i, j := SelectedFrom(sender.fields, slots, keep, a, b);
      assert InOneUnion(sender, i, j);
    }
  }

  lemma SelectionHas(sender: Desc, keep: seq<bool>, receiver: Desc, i: nat)
    requires WellFormed(sender) && |keep| == |sender.fields| && receiver.fields == Selected(sender.fields, keep)
    requires i < |keep|
    ensures Has(receiver, sender.fields[i].tag) <==> keep[i]
  {
    hide KindOk;
    if keep[i] {
      var a := IsSelected(sender.fields, keep, i);
    }
    if Has(receiver, sender.fields[i].tag) {
      var a :| 0 <= a < |receiver.fields| && receiver.fields[a].tag == sender.fields[i].tag;
      var j, _ := SelectedFrom(sender.fields, sender.fields, keep, a, a);
      assert !(j < i) && !(j > i);
    }
  }

  lemma {:induction false} KnownOfTag(desc: Desc, fs: seq<WireField>, tag: nat, more: seq<WireField>)
    requires AllTagged(fs, tag)
    ensures Known(desc, fs + more) == (if Has(desc, tag) then fs else []) + Known(desc, more)
  {
    hide Has, WireField.Ok;
    if fs == [] {
      assert fs + more == more;
    } else {
      assert (fs + more)[1..] == fs[1..] + more;
      KnownOfTag(desc, fs[1..], tag, more);
    }
  }

  // What the receiver knows of the sender's wire fields.
  lemma {:induction false} KnownOfFields(receiver: Desc, fields: seq<Field>, slots: seq<Slot>, keep: seq<bool>)
    requires AllFit(fields, slots) && |keep| == |slots| && AllFit(Selected(fields, keep), Selected(slots, keep))
    requires forall i :: 0 <= i < |fields| ==> (Has(receiver, fields[i].tag) <==> keep[i])
    requires forall i :: 0 <= i < |fields| ==> AllTagged(SlotFields(fields[i], slots[i]), fields[i].tag)
    ensures Known(receiver, Fields(fields, slots)) == Fields(Selected(fields, keep), Selected(slots, keep))
  {
    hide Has, SlotFields, FitsSlot, AllTagged;
    if fields != [] {
      var first, more := SlotFields(fields[0], slots[0]), Fields(fields[1..], slots[1..]);
      KnownOfTag(receiver, first, fields[0].tag, more);
      var restF, restS := Selected(fields[1..], keep[1..]), Selected(slots[1..], keep[1..]);
      if keep[0] {
        assert Selected(fields, keep) == [fields[0]] + restF && Selected(slots, keep) == [slots[0]] + restS;
        assert Selected(fields, keep)[1..] == restF && Selected(slots, keep)[1..] == restS;
        forall i | 0 <= i < |restF| ensures |restS| == |restF| && FitsSlot(restF[i], restS[i]) {
          assert restF[i] == Selected(fields, keep)[i + 1] && restS[i] == Selected(slots, keep)[i + 1];
        }
      }
      KnownOfFields(receiver, fields[1..], slots[1..], keep[1..]);
    }
  }

  lemma {:induction false} PartsAreShort(desc: Desc, slots: seq<Slot>, i: nat, j: nat)
    requires FitsMessage(desc, slots) && i <= j < |slots|
    ensures |EncodeSlot(desc.fields[j], slots[j])| <= |EncodeFrom(desc, slots, i)|
    decreases j - i
  {
    hide EncodeSlot, FitsMessage;
    if i < j { PartsAreShort(desc, slots, i + 1, j); }
  }

  lemma {:induction false} KnownIsShorter(desc: Desc, fs: seq<WireField>)
    ensures |Wire(Known(desc, fs))| <= |Wire(fs)|
    ensures (forall k :: 0 <= k < |fs| ==> fs[k].Ok()) ==> forall k :: 0 <= k < |Known(desc, fs)| ==> Known(desc, fs)[k].Ok()
  {
    hide Has, Serialized, WireField.Ok;
    if fs != [] {
      KnownIsShorter(desc, fs[1..]);
      assert ([fs[0]] + Known(desc, fs[1..]))[1..] == Known(desc, fs[1..]);
    }
  }

  // A field that carries the tag of the receiver's i-th field has the payload of its kind.
  lemma {:induction false} FieldsMatch(receiver: Desc, fields: seq<Field>, slots: seq<Slot>)
    requires AllFit(fields, slots) && forall i :: 0 <= i < |fields| ==> 1 <= fields[i].tag < 0x2000_0000
    requires forall i :: 0 <= i < |fields| ==> |EncodeSlot(fields[i], slots[i])| < TWO_32
    requires forall i, j :: 0 <= i < |fields| && 0 <= j < |receiver.fields| && fields[i].tag == receiver.fields[j].tag ==> fields[i] == receiver.fields[j]
    ensures WireOk(receiver, Fields(fields, slots))
  {
    hide SlotFields, FitsSlot, WireField.Ok, Matches, EncodeSlot;
    if fields != [] {
      FieldsMatch(receiver, fields[1..], slots[1..]);
      SlotMatches(fields[0], slots[0]);
    }
  }

  lemma SlotMatches(field: Field, slot: Slot)
    requires FitsSlot(field, slot) && 1 <= field.tag < 0x2000_0000 && |EncodeSlot(field, slot)| < TWO_32
    ensures forall k :: 0 <= k < |SlotFields(field, slot)| ==>
      var f := SlotFields(field, slot)[k]; f.Ok() && f.tag == field.tag && Matches(field, f)
  {
    hide EncodeTagged, EncodeItems, Fits, EncodeVarint;
    SlotIsFields(field, slot);
    if slot.Many? && Packable(field.kind) {
    } else {
      var vs := if slot.One? then [slot.v] else if slot.Many? then slot.vs else if slot.o == None then [] else [slot.o.value];
      ValueTypes(field.tag, field.kind, vs);
    }
  }

  lemma {:induction false} ValueTypes(tag: nat, kind: Kind, vs: seq<Value>)
    requires forall k :: 0 <= k < |vs| ==> Fits(kind, vs[k])
    ensures forall k :: 0 <= k < |ValueFields(tag, kind, vs)| ==> ValueFields(tag, kind, vs)[k].Type() == WireType(kind)
  {
    if vs != [] { ValueTypes(tag, kind, vs[1..]); }
  }

  // A receiver that knows any subset of the sender's fields reads exactly
  // those, whatever else the sender has written.
  lemma NewerSenderIsRead(sender: Desc, slots: seq<Slot>, keep: seq<bool>, receiver: Desc)
    requires WellFormed(sender) && FitsMessage(sender, slots) && |Encode(sender, slots)| < TWO_32
    requires |keep| == |slots| && receiver.fields == Selected(sender.fields, keep)
    ensures AllDecodable(receiver) && Decode(receiver, Encode(sender, slots)) == Some(Selected(slots, keep))
  {
    hide DecodeNoInit, EncodeFrom, FitsSlot, AllDecodable, EncodeSlot, SlotFields, Fields, Has, WireField.Ok, Selected, KindOk;
    var kept := Selected(slots, keep);
    SelectionIsWellFormed(sender, keep, receiver);
    SelectionFits(sender, slots, keep, receiver);
    WellFormedIsDecodable(receiver);
    var fs := Fields(sender.fields, slots);
    EncodingIsFields(sender, slots, 0);
    assert sender.fields[0..] == sender.fields && slots[0..] == slots;
    forall i | 0 <= i < |slots|
      ensures |EncodeSlot(sender.fields[i], slots[i])| < TWO_32
      ensures AllTagged(SlotFields(sender.fields[i], slots[i]), sender.fields[i].tag)
      ensures Has(receiver, sender.fields[i].tag) <==> keep[i]
    {
      PartsAreShort(sender, slots, 0, i);
      SlotIsFields(sender.fields[i], slots[i]);
      SelectionHas(sender, keep, receiver, i);
    }
    SameFieldForTag(sender, keep, receiver);
    FieldsMatch(receiver, sender.fields, slots);
    UnknownFieldsAreIgnored(receiver, fs, DefaultMessage(receiver), {});
    KnownOfFields(receiver, sender.fields, slots, keep);
    KnownIsShorter(receiver, fs);
    EncodingIsFields(receiver, kept, 0);
    assert receiver.fields[0..] == receiver.fields && kept[0..] == kept;
    MessagesRoundTrip(receiver, kept);
  }

  lemma SameFieldForTag(sender: Desc, keep: seq<bool>, receiver: Desc)
    requires WellFormed(sender) && |keep| == |sender.fields| && receiver.fields == Selected(sender.fields, keep)
    ensures forall i, j :: 0 <= i < |sender.fields| && 0 <= j < |receiver.fields| && sender.fields[i].tag == receiver.fields[j].tag
                       ==> sender.fields[i] == receiver.fields[j]
  {
    hide KindOk;
    forall i, j | 0 <= i < |sender.fields| && 0 <= j < |receiver.fields| && sender.fields[i].tag == receiver.fields[j].tag
      ensures sender.fields[i] == receiver.fields[j]
    {
      var k, _ := SelectedFrom(sender.fields, sender.fields, keep, j, j);
      assert k < i || k == i || k > i;
    }
  }

  /* The examples of the encoding's documentation ("A Simple Message",
     "Submessages", "Packed Repeated Fields"). */

  const TEST1 := Desc([Field(1, Varint(32), Required)])
  const TEST3 := Desc([Field(3, Sub(TEST1), Optional)])
  const TEST4 := Desc([Field(6, Varint(32), Repeated(3))])

  lemma SimpleMessage()
    ensures FitsMessage(TEST1, [One(Num(150))]) && Encode(TEST1, [One(Num(150))]) == [0x08, 0x96, 0x01]
  {
    var slots := [One(Num(150))];
    assert FitsSlot(TEST1.fields[0], slots[0]);
    assert EncodeFrom(TEST1, slots, 1) == [];
    assert [Num(150)][1..] == [];
    assert EncodeVarint(150) == [0x96, 0x01] && EncodeTag(1, 0) == [0x08];
    assert EncodeValue(Varint(32), Num(150)) == [0x96, 0x01];
    assert EncodeSlot(TEST1.fields[0], slots[0]) == [0x08, 0x96, 0x01];
  }

  lemma NestedMessage()
    ensures var slots := [Maybe(Some(Msg([One(Num(150))])))];
      FitsMessage(TEST3, slots) && Encode(TEST3, slots) == [0x1a, 0x03, 0x08, 0x96, 0x01]
  {
    hide FitsMessage;
    SimpleMessage();
    var inner := Msg([One(Num(150))]);
    var slots := [Maybe(Some(inner))];
    assert FitsSlot(TEST3.fields[0], slots[0]);
    assert FitsMessage(TEST3, slots) by { OneSlotFits(TEST3, slots[0]); }
    assert EncodeFrom(TEST3, slots, 1) == [];
    assert [inner][1..] == [];
    assert EncodeTag(3, 2) == [0x1a];
    assert EncodeValue(Sub(TEST1), inner) == [0x03, 0x08, 0x96, 0x01];
    assert EncodeSlot(TEST3.fields[0], slots[0]) == [0x1a, 0x03, 0x08, 0x96, 0x01];
  }

  lemma OneSlotFits(desc: Desc, slot: Slot)
    requires |desc.fields| == 1 && FitsSlot(desc.fields[0], slot)
    ensures FitsMessage(desc, [slot])
  {
  }

  lemma PackedMessage()
    ensures var slots := [Many([Num(3), Num(270), Num(86942)])];
      FitsMessage(TEST4, slots) && Encode(TEST4, slots) == [0x32, 0x06, 0x03, 0x8e, 0x02, 0x9e, 0xa7, 0x05]
  {
    hide FitsMessage, EncodeVarint, ToUnsigned, EncodeTag;
    var vs := [Num(3), Num(270), Num(86942)];
    var slots := [Many(vs)];
    assert FitsSlot(TEST4.fields[0], slots[0]);
    OneSlotFits(TEST4, slots[0]);
    assert EncodeFrom(TEST4, slots, 1) == [];
    SmallVarints();
    assert EncodeItems(Varint(32), vs[2..]) == [0x9e, 0xa7, 0x05] by { assert vs[2..][1..] == []; }
    assert EncodeItems(Varint(32), vs[1..]) == [0x8e, 0x02, 0x9e, 0xa7, 0x05] by { assert vs[1..][1..] == vs[2..]; }
    assert EncodeItems(Varint(32), vs) == [0x03, 0x8e, 0x02, 0x9e, 0xa7, 0x05];
    assert EncodeSlot(TEST4.fields[0], slots[0]) == [0x32, 0x06, 0x03, 0x8e, 0x02, 0x9e, 0xa7, 0x05];
  }

  lemma SmallVarints()
    ensures EncodeVarint(ToUnsigned(64, 3)) == [0x03] && EncodeVarint(6) == [0x06] && EncodeTag(6, 2) == [0x32]
    ensures EncodeVarint(ToUnsigned(64, 270)) == [0x8e, 0x02] && EncodeVarint(ToUnsigned(64, 86942)) == [0x9e, 0xa7, 0x05]
  {
    assert EncodeVarint(270 / 128) == [0x02];
    assert EncodeVarint(86942 / 128 / 128) == [0x05];
    assert EncodeVarint(86942 / 128) == [0xa7, 0x05];
  }
}
