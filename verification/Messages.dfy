// Messages described by field tables, and their wire form (nanopb, pb_encode.c,
// pb_decode.c).  Strings are bytes up to the terminator.

module Messages {
  import opened Wrappers
  import opened Coding
  import opened Varint

  const PB_MAX_REQUIRED_FIELDS := 64

  // PB_LTYPE, with the sizes the table declares.  Integer widths are in bits.
  datatype Kind =
    | Bool | Varint(bits: nat) | UVarint(bits: nat) | SVarint(bits: nat) | Fixed32 | Fixed64
    | Bytes(max: nat) | String(dataSize: nat) | FixedBytes(size: nat) | Sub(desc: Desc)

  // PB_HTYPE: a has_ flag, an array with a count, or a member of a union.
  datatype Rule = Required | Optional | Repeated(max: nat) | OneOf(union: nat)

  datatype Field = Field(tag: nat, kind: Kind, rule: Rule)

  datatype Desc = Desc(fields: seq<Field>)

  datatype Value = Num(n: int) | Blob(bytes: seq<byte>) | Msg(slots: seq<Slot>)

  // What a message holds for one field, according to its rule.
  datatype Slot = One(v: Value) | Maybe(o: Option<Value>) | Many(vs: seq<Value>) | Picked(o: Option<Value>)

  predicate Packable(kind: Kind) {
    kind.Bool? || kind.Varint? || kind.UVarint? || kind.SVarint? || kind.Fixed32? || kind.Fixed64?
  }

  /* Messages that fit their description. */

  ghost predicate WellFormed(desc: Desc) {
    && (forall i :: 0 <= i < |desc.fields| ==> 1 <= desc.fields[i].tag < 0x2000_0000 && KindOk(desc.fields[i].kind))
    && forall i, j :: 0 <= i < j < |desc.fields| ==> desc.fields[i].tag != desc.fields[j].tag
  }

  ghost predicate KindOk(kind: Kind) {
    match kind
    case Varint(bits) => IsWidth(bits)
    case UVarint(bits) => IsWidth(bits)
    case SVarint(bits) => IsWidth(bits)
    case Sub(desc) => WellFormed(desc)
    case _ => true
  }

  ghost predicate Fits(kind: Kind, v: Value) {
    match kind
    case Bool => v.Num? && (v.n == 0 || v.n == 1)
    case Varint(bits) => IsWidth(bits) && v.Num? && FitsSigned(bits, v.n)
    case UVarint(bits) => IsWidth(bits) && v.Num? && 0 <= v.n < Modulus(bits)
    case SVarint(bits) => IsWidth(bits) && v.Num? && FitsSigned(bits, v.n)
    case Fixed32 => v.Num? && 0 <= v.n < TWO_32
    case Fixed64 => v.Num? && 0 <= v.n < TWO_64
    case Bytes(max) => v.Blob? && |v.bytes| <= max
    case String(dataSize) => v.Blob? && |v.bytes| < dataSize && 0 !in v.bytes
    case FixedBytes(size) => v.Blob? && |v.bytes| == size
    case Sub(desc) => v.Msg? && FitsMessage(desc, v.slots)
  }

  ghost predicate FitsSlot(field: Field, slot: Slot) {
    match field.rule
    case Required => slot.One? && Fits(field.kind, slot.v)
    case Optional => slot.Maybe? && (slot.o.Some? ==> Fits(field.kind, slot.o.value))
    case Repeated(max) => slot.Many? && |slot.vs| <= max && forall k :: 0 <= k < |slot.vs| ==> Fits(field.kind, slot.vs[k])
    case OneOf(union) => slot.Picked? && (slot.o.Some? ==> Fits(field.kind, slot.o.value))
  }

  // At most one member of a union is chosen.
  ghost predicate FitsMessage(desc: Desc, slots: seq<Slot>) {
    && |slots| == |desc.fields|
    && (forall i :: 0 <= i < |slots| ==> FitsSlot(desc.fields[i], slots[i]))
    && forall i, j :: 0 <= i < j < |slots| && InOneUnion(desc, i, j) && slots[i].Picked? && slots[j].Picked? ==>
         slots[i].o == None || slots[j].o == None
  }

  predicate InOneUnion(desc: Desc, i: nat, j: nat)
    requires i < |desc.fields| && j < |desc.fields|
  {
    desc.fields[i].rule.OneOf? && desc.fields[i].rule == desc.fields[j].rule
  }

  /* pb_message_set_to_defaults, all defaults being zero. */

  function DefaultValue(kind: Kind): Value {
    match kind
    case Bytes(max) => Blob([])
    case String(size) => Blob([])
    case FixedBytes(size) => Blob(Zeros(size))
    case Sub(desc) => Msg(DefaultMessage(desc))
    case _ => Num(0)
  }

  function DefaultSlot(field: Field): Slot {
    match field.rule
    case Required => One(DefaultValue(field.kind))
    case Optional => Maybe(None)
    case Repeated(max) => Many([])
    case OneOf(union) => Picked(None)
  }

  function DefaultMessage(desc: Desc): (r: seq<Slot>)
    ensures |r| == |desc.fields|
    ensures forall i :: 0 <= i < |r| ==> r[i] == DefaultSlot(desc.fields[i])
  {
    seq(|desc.fields|, i requires 0 <= i < |desc.fields| => DefaultSlot(desc.fields[i]))
  }

  /* Encoding. */

  // pb_encode_tag_for_field: VARINT, 64BIT, STRING or 32BIT.
  function WireType(kind: Kind): (w: nat)
    ensures w < 8
  {
    match kind
    case Fixed32 => 5
    case Fixed64 => 1
    case Bytes(max) => 2
    case String(size) => 2
    case FixedBytes(size) => 2
    case Sub(desc) => 2
    case _ => 0
  }

  function EncodeTag(tag: nat, wireType: nat): seq<byte> {
    EncodeVarint(tag * 8 + wireType)
  }

  // pb_encode_string
  function EncodeString(data: seq<byte>): seq<byte> {
    EncodeVarint(|data|) + data
  }

  ghost function EncodeValue(kind: Kind, v: Value): seq<byte>
    requires Fits(kind, v)
    decreases kind, 0, 0
  {
    match kind
    case Bool => EncodeVarint(v.n)
    case Varint(bits) => EncodeVarint(ToUnsigned(64, v.n))
    case UVarint(bits) => EncodeVarint(v.n)
    case SVarint(bits) => EncodeVarint(ZigZag(v.n))
    case Fixed32 => EncodeFixed32(v.n)
    case Fixed64 => EncodeFixed64(v.n)
    case Bytes(max) => EncodeString(v.bytes)
    case String(size) => EncodeString(v.bytes)
    case FixedBytes(size) => EncodeString(v.bytes)
    case Sub(desc) => EncodeString(EncodeFrom(desc, v.slots, 0))
  }

  // encode_array's items, without tags and with a tag each.
  ghost function EncodeItems(kind: Kind, vs: seq<Value>): seq<byte>
    requires forall k :: 0 <= k < |vs| ==> Fits(kind, vs[k])
    decreases kind, 1, |vs|
  {
    if vs == [] then [] else EncodeValue(kind, vs[0]) + EncodeItems(kind, vs[1..])
  }

  ghost function EncodeTagged(tag: nat, kind: Kind, vs: seq<Value>): seq<byte>
    requires forall k :: 0 <= k < |vs| ==> Fits(kind, vs[k])
    decreases kind, 1, |vs|
  {
    if vs == [] then [] else EncodeTag(tag, WireType(kind)) + EncodeValue(kind, vs[0]) + EncodeTagged(tag, kind, vs[1..])
  }

  // encode_basic_field
  ghost function EncodeSlot(field: Field, slot: Slot): seq<byte>
    requires FitsSlot(field, slot)
    decreases field, 0, 0
  {
    match slot
    case One(v) => EncodeTagged(field.tag, field.kind, [v])
    case Maybe(o) => if o == None then [] else EncodeTagged(field.tag, field.kind, [o.value])
    case Picked(o) => if o == None then [] else EncodeTagged(field.tag, field.kind, [o.value])
    case Many(vs) =>
      if vs == [] then []
      else if Packable(field.kind) then EncodeTag(field.tag, 2) + EncodeString(EncodeItems(field.kind, vs))
      else EncodeTagged(field.tag, field.kind, vs)
  }

  // pb_encode, from the i-th field on.
  ghost function EncodeFrom(desc: Desc, slots: seq<Slot>, i: nat): seq<byte>
    requires FitsMessage(desc, slots) && i <= |slots|
    decreases desc, 0, |slots| - i
  {
    if i == |slots| then [] else EncodeSlot(desc.fields[i], slots[i]) + EncodeFrom(desc, slots, i + 1)
  }

  ghost function Encode(desc: Desc, slots: seq<Slot>): seq<byte>
    requires FitsMessage(desc, slots)
  {
    EncodeFrom(desc, slots, 0)
  }

  /* Decoding. */

  function Take(s: seq<byte>, n: nat): (r: Parsed<seq<byte>>)
    ensures r.Got? <==> n <= |s|
    ensures r.Got? ==> |r.value| == n && s == r.value + r.rest
  {
    if |s| < n then Fail else Got(s[..n], s[n..])
  }

  function AsNum(v: int, rest: seq<byte>, fits: bool): Parsed<Value> {
    if fits then Got(Num(v), rest) else Fail
  }

  // The field decoders.  `cur` is what the field held before.
  function DecodeValue(kind: Kind, s: seq<byte>, cur: Value): (r: Parsed<Value>)
    requires Decodable(kind)
    ensures r.Got? ==> |r.rest| <= |s|
    decreases kind, |s|, 0
  {
    match kind
    case Bool =>
      (match DecodeVarint32(s)
       case Fail => Fail
       case Got(v, rest) => Got(Num(if v != 0 then 1 else 0), rest))
    case Varint(bits) =>
      (match DecodeVarint(s)
       case Fail => Fail
       case Got(v, rest) =>
         // Fields of at most 32 bits take the value as an int32 first.
         var signed := if bits == 64 then ToSigned(64, v) else ToSigned(32, v);
         AsNum(signed, rest, ToSigned(bits, signed) == signed))
    case UVarint(bits) =>
      (match DecodeVarint(s)
       case Fail => Fail
       case Got(v, rest) => AsNum(v, rest, v % Modulus(bits) == v))
    case SVarint(bits) =>
      (match DecodeVarint(s)
       case Fail => Fail
       case Got(v, rest) => var signed := UnZigZag(v); AsNum(signed, rest, ToSigned(bits, signed) == signed))
    case Fixed32 => if |s| < 4 then Fail else Got(Num(DecodeFixed32(s)), s[4..])
    case Fixed64 => if |s| < 8 then Fail else Got(Num(DecodeFixed64(s)), s[8..])
    case Bytes(max) => DecodeBlob(s, (size: nat) => size <= max)
    case String(dataSize) => DecodeBlob(s, (size: nat) => size + 1 <= dataSize)
    case FixedBytes(n) =>
      (match DecodeVarint32(s)
       case Fail => Fail
       case Got(size, rest) =>
         if size == 0 then Got(Blob(Zeros(n)), rest)
         else if size != n then Fail
         else
           match Take(rest, n)
           case Fail => Fail
           case Got(data, rest') => Got(Blob(data), rest'))
    case Sub(desc) =>
      // A substream of the announced length; whatever it leaves unread is skipped.
      (match DecodeVarint32(s)
       case Fail => Fail
       case Got(size, rest) =>
         match Take(rest, size)
         case Fail => Fail
         case Got(data, rest') =>
           var old_ := if cur.Msg? && |cur.slots| == |desc.fields| then cur.slots else DefaultMessage(desc);
           match DecodeNoInit(desc, data, old_, {})
           case None => Fail
           case Some(slots) => Got(Msg(slots), rest'))
  }

  predicate Decodable(kind: Kind) {
    match kind
    case Varint(bits) => IsWidth(bits)
    case UVarint(bits) => IsWidth(bits)
    case SVarint(bits) => IsWidth(bits)
    case Sub(desc) => AllDecodable(desc)
    case _ => true
  }

  predicate AllDecodable(desc: Desc) {
    forall i :: 0 <= i < |desc.fields| ==> Decodable(desc.fields[i].kind)
  }

  // pb_dec_bytes and pb_dec_string
  function DecodeBlob(s: seq<byte>, fits: nat -> bool): (r: Parsed<Value>)
    ensures r.Got? ==> |r.rest| <= |s|
  {
    match DecodeVarint32(s)
    case Fail => Fail
    case Got(size, rest) =>
      if !fits(size) then Fail
      else
        match Take(rest, size)
        case Fail => Fail
        case Got(data, rest') => Got(Blob(data), rest')
  }

  // decode_static_field's loop over a packed array.
  function DecodePacked(kind: Kind, s: seq<byte>, vs: seq<Value>, max: nat): Option<seq<Value>>
    requires Decodable(kind)
    decreases kind, |s|, 1, max - |vs|
  {
    if s == [] then Some(vs)
    else if |vs| >= max then None
    else
      match DecodeValue(kind, s, DefaultValue(kind))
      case Fail => None
      case Got(v, rest) => DecodePacked(kind, rest, vs + [v], max)
  }

  // Other members of the union give way.
  function Choose(desc: Desc, slots: seq<Slot>, i: nat, v: Value): (r: seq<Slot>)
    requires i < |slots| == |desc.fields|
    ensures |r| == |slots|
  {
    seq(|slots|, j requires 0 <= j < |slots| =>
      if j == i then Picked(Some(v)) else if InOneUnion(desc, i, j) then Picked(None) else slots[j])
  }

  // decode_static_field
  function DecodeField(desc: Desc, i: nat, wireType: nat, s: seq<byte>, slots: seq<Slot>): (r: Parsed<seq<Slot>>)
    requires AllDecodable(desc) && i < |desc.fields| == |slots|
    ensures r.Got? ==> |r.rest| <= |s| && |r.value| == |slots|
    decreases desc, |s|, 0
  {
    var field, slot := desc.fields[i], slots[i];
    var initial := DefaultValue(field.kind);
    match field.rule
    case Required =>
      (match DecodeValue(field.kind, s, if slot.One? then slot.v else initial)
       case Fail => Fail
       case Got(v, rest) => Got(slots[i := One(v)], rest))
    case Optional =>
      (match DecodeValue(field.kind, s, if slot.Maybe? && slot.o.Some? then slot.o.value else initial)
       case Fail => Fail
       case Got(v, rest) => Got(slots[i := Maybe(Some(v))], rest))
    case OneOf(union) =>
      (match DecodeValue(field.kind, s, if slot.Picked? && slot.o.Some? then slot.o.value else initial)
       case Fail => Fail
       case Got(v, rest) => Got(Choose(desc, slots, i, v), rest))
    case Repeated(max) =>
      var vs := if slot.Many? then slot.vs else [];
      if wireType == 2 && Packable(field.kind) then
        (match DecodeVarint32(s)
         case Fail => Fail
         case Got(size, rest) =>
           match Take(rest, size)
           case Fail => Fail
           case Got(data, rest') =>
             match DecodePacked(field.kind, data, vs, max)
             case None => Fail
             case Some(all) => Got(slots[i := Many(all)], rest'))
      else if |vs| >= max then Fail
      else
        (match DecodeValue(field.kind, s, initial)
         case Fail => Fail
         case Got(v, rest) => Got(slots[i := Many(vs + [v])], rest))
  }

  // pb_skip_varint
  function SkipVarint(s: seq<byte>): (r: Parsed<seq<byte>>)
    ensures r.Got? ==> |r.rest| < |s|
  {
    if s == [] then Fail else if s[0] < 128 then Got([], s[1..]) else SkipVarint(s[1..])
  }

  // pb_skip_field
  function SkipField(wireType: nat, s: seq<byte>): (r: Parsed<seq<byte>>)
    ensures r.Got? ==> |r.rest| <= |s|
  {
    match wireType
    case 0 => SkipVarint(s)
    case 1 => Take(s, 8)
    case 2 =>
      (match DecodeVarint32(s)
       case Fail => Fail
       case Got(size, rest) => Take(rest, size))
    case 5 => Take(s, 4)
    case _ => Fail
  }

  // pb_field_iter_find
  function FindTag(fields: seq<Field>, tag: nat): (r: Option<nat>)
    ensures r.Some? ==> r.value < |fields| && fields[r.value].tag == tag
    ensures r == None ==> forall i :: 0 <= i < |fields| ==> fields[i].tag != tag
  {
    if fields == [] then None
    else if fields[0].tag == tag then Some(0)
    else
      match FindTag(fields[1..], tag)
      case None => None
      case Some(i) => Some(i + 1)
  }

  // How many required fields come before the i-th field.
  function RequiredIndex(fields: seq<Field>, i: nat): nat
    requires i <= |fields|
  {
    if i == 0 then 0 else RequiredIndex(fields, i - 1) + if fields[i - 1].rule.Required? then 1 else 0
  }

  // The check at the end of pb_decode_noinit; it covers the first 64 required fields.
  predicate AllRequiredSeen(fields: seq<Field>, seen: set<nat>) {
    forall i :: 0 <= i < |fields| && fields[i].rule.Required? && RequiredIndex(fields, i) < PB_MAX_REQUIRED_FIELDS ==> i in seen
  }

  // pb_decode_noinit.  `seen` holds the fields met so far.
  function DecodeNoInit(desc: Desc, s: seq<byte>, slots: seq<Slot>, seen: set<nat>): (r: Option<seq<Slot>>)
    requires AllDecodable(desc) && |slots| == |desc.fields|
    ensures r.Some? ==> |r.value| == |slots|
    decreases desc, |s|, 1
  {
    if s == [] then (if AllRequiredSeen(desc.fields, seen) then Some(slots) else None)
    else
      match DecodeVarint32(s)
      case Fail => None
      case Got(key, rest) =>
        if key == 0 then
          // Special feature: allow 0-terminated messages.
          (if AllRequiredSeen(desc.fields, seen) then Some(slots) else None)
        else
          match FindTag(desc.fields, key / 8)
          case None =>
            (match SkipField(key % 8, rest)
             case Fail => None
             case Got(_, rest') => DecodeNoInit(desc, rest', slots, seen))
          case Some(i) =>
            match DecodeField(desc, i, key % 8, rest, slots)
            case Fail => None
            case Got(slots', rest') => DecodeNoInit(desc, rest', slots', seen + {i})
  }

  // pb_decode
  function Decode(desc: Desc, s: seq<byte>): (r: Option<seq<Slot>>)
    requires AllDecodable(desc)
  {
    DecodeNoInit(desc, s, DefaultMessage(desc), {})
  }
}
