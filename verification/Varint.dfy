// The integers of the Protocol Buffers wire format (nanopb, pb_encode.c and
// pb_decode.c): base-128 varints, zigzag and little-endian words.  LevelDB
// (util/coding.cc) writes the same varints.

module Varint {
  import opened Coding

  const TWO_31: nat := 0x8000_0000
  const TWO_32: nat := 0x1_0000_0000
  const TWO_64: nat := 0x1_0000_0000_0000_0000

  // What a decoder makes of a byte string: a value and what is left, or an error.
  datatype Parsed<+T> = Fail | Got(value: T, rest: seq<byte>)

  function Pow2(n: nat): (r: nat)
    ensures r >= 1
  {
    if n == 0 then 1 else 2 * Pow2(n - 1)
  }

  /* Varints. */

  function EncodeVarint(v: nat): (r: seq<byte>)
    ensures |r| >= 1
  {
    if v < 128 then [v] else [v % 128 + 128] + EncodeVarint(v / 128)
  }

  // Bytes of which exactly the last has a clear top bit.
  ghost predicate IsVarint(s: seq<byte>) {
    s != [] && s[|s| - 1] < 128 && forall i :: 0 <= i < |s| - 1 ==> s[i] >= 128
  }

  lemma {:induction false} VarintIsVarint(n: nat)
    ensures IsVarint(EncodeVarint(n))
  {
    if n >= 128 {
      VarintIsVarint(n / 128);
      var s := EncodeVarint(n);
      assert s == [n % 128 + 128] + EncodeVarint(n / 128);
    }
  }

  // pb_decode_varint before the shifts drop bits beyond the 64th.
  function DecodeSeptets(s: seq<byte>, bitpos: nat): (r: Parsed<nat>)
    ensures r.Got? ==> |r.rest| < |s|
    decreases |s|
  {
    if bitpos >= 64 || s == [] then Fail
    else if s[0] < 128 then Got(s[0], s[1..])
    else
      match DecodeSeptets(s[1..], bitpos + 7)
      case Fail => Fail
      case Got(v, rest) => Got(s[0] - 128 + 128 * v, rest)
  }

  // pb_decode_varint
  function DecodeVarint(s: seq<byte>): (r: Parsed<nat>)
    ensures r.Got? ==> |r.rest| < |s| && r.value < TWO_64
  {
    match DecodeSeptets(s, 0)
    case Fail => Fail
    case Got(v, rest) => Got(v % TWO_64, rest)
  }

  // pb_decode_varint32 after the first byte.  uint_fast8_t is taken to be wide
  // enough for bitpos.
  function DecodeMore32(s: seq<byte>, bitpos: nat, result: nat): (r: Parsed<nat>)
    ensures r.Got? ==> |r.rest| < |s|
    decreases |s|
  {
    if s == [] then Fail
    else
      var b := s[0];
      if bitpos >= 32 && b % 128 != 0 && (result < TWO_31 || b != if bitpos < 63 then 0xFF else 0x01) then Fail
      else
        var r := if bitpos >= 32 then result else result + (b % 128 * Pow2(bitpos)) % TWO_32;
        if b >= 128 then DecodeMore32(s[1..], bitpos + 7, r)
        else if bitpos == 28 && b / 16 % 8 != 0 then Fail
        else Got(r, s[1..])
  }

  // pb_decode_varint32
  function DecodeVarint32(s: seq<byte>): (r: Parsed<nat>)
    ensures r.Got? ==> |r.rest| < |s|
  {
    if s == [] then Fail
    else if s[0] < 128 then Got(s[0], s[1..])
    else DecodeMore32(s[1..], 7, s[0] - 128)
  }

  lemma {:induction false} SeptetsRoundTrip(v: nat, k: nat, rest: seq<byte>)
    requires 1 <= k <= 10 && v < Pow2(7 * k)
    ensures DecodeSeptets(EncodeVarint(v) + rest, 7 * (10 - k)) == Got(v, rest)
  {
    var e := EncodeVarint(v) + rest;
    if v < 128 {
      assert e[1..] == rest;
    } else {
      SevenMore(k - 1);
      SeptetsRoundTrip(v / 128, k - 1, rest);
      assert e[1..] == EncodeVarint(v / 128) + rest;
    }
  }

  lemma SevenMoreBits(n: nat)
    ensures Pow2(n + 7) == 128 * Pow2(n)
  {
    assert Pow2(n + 7) == 2 * Pow2(n + 6) == 4 * Pow2(n + 5) == 8 * Pow2(n + 4) == 16 * Pow2(n + 3);
    assert Pow2(n + 3) == 2 * Pow2(n + 2) == 4 * Pow2(n + 1) == 8 * Pow2(n);
  }

  lemma SevenMore(k: nat)
    ensures Pow2(7 * k + 7) == 128 * Pow2(7 * k) && Pow2(7) == 128
  {
    SevenMoreBits(7 * k);
    SevenMoreBits(0);
  }

  // Any 64-bit number survives the wire.
  lemma VarintRoundTrip(v: nat, rest: seq<byte>)
    requires v < TWO_64
    ensures DecodeVarint(EncodeVarint(v) + rest) == Got(v, rest)
  {
    hide EncodeVarint, DecodeSeptets, Pow2;
    PowersOf128();
    SeptetsRoundTrip(v, 10, rest);
  }

  lemma PowersOf128()
    ensures Pow2(7) == 128 && Pow2(14) == 0x4000 && Pow2(21) == 0x20_0000 && Pow2(28) == 0x1000_0000
    ensures Pow2(70) > TWO_64
  {
    hide Pow2;
    SevenMore(1);
    SevenMore(2);
    SevenMore(3);
    SevenMore(4);
    SevenMore(5);
    SevenMore(6);
    SevenMore(7);
    SevenMore(8);
    SevenMore(9);
  }

  lemma EncodeUnfold(v: nat, rest: seq<byte>)
    ensures v < 128 ==> EncodeVarint(v) + rest == [v] + rest
    ensures v >= 128 ==> EncodeVarint(v) + rest == [v % 128 + 128] + (EncodeVarint(v / 128) + rest)
  {
  }

  // The 32-bit decoder reads back any 32-bit number, whatever path it takes
  // through its overflow checks.
  lemma Varint32RoundTrip(v: nat, rest: seq<byte>)
    requires v < TWO_32
    ensures DecodeVarint32(EncodeVarint(v) + rest) == Got(v, rest)
  {
    hide EncodeVarint, DecodeMore32, Pow2;
    PowersOf128();
    EncodeUnfold(v, rest);
    if v >= 128 {
      More32RoundTrip(v / 128, 1, v % 128, rest);
    }
  }

  lemma {:induction false} More32RoundTrip(w: nat, j: nat, r: nat, rest: seq<byte>)
    requires 1 <= j <= 4 && r < Pow2(7 * j) && r + w * Pow2(7 * j) < TWO_32
    ensures DecodeMore32(EncodeVarint(w) + rest, 7 * j, r) == Got(r + w * Pow2(7 * j), rest)
    decreases 4 - j
  {
    hide EncodeVarint, Pow2, DecodeMore32;
    PowersOf128();
    EncodeUnfold(w, rest);
    var p := Pow2(7 * j);
    TimesAtLeast(w, p);
    if w < 128 {
      More32Step(w, w, rest, j, r);
    } else {
      var a, b := w % 128, w / 128;
      SevenMore(j);
      SplitProduct(w, a, b, p);
      More32Step(a + 128, a, EncodeVarint(b) + rest, j, r);
      More32RoundTrip(b, j + 1, r + a * p, rest);
    }
  }

  // One byte with payload x, within the low 32 bits.
  lemma More32Step(byte_: byte, x: nat, t: seq<byte>, j: nat, r: nat)
    requires 1 <= j <= 4 && x < 128 && (byte_ == x || byte_ == x + 128) && r + x * Pow2(7 * j) < TWO_32
    ensures var r' := r + x * Pow2(7 * j);
      DecodeMore32([byte_] + t, 7 * j, r) ==
      if byte_ >= 128 then DecodeMore32(t, 7 * j + 7, r')
      else if j == 4 && x >= 16 then Fail
      else Got(r', t)
  {
    hide Pow2;
    SmallProduct(x, Pow2(7 * j), r);
    assert ([byte_] + t)[1..] == t;
  }

  lemma TimesAtLeast(w: nat, p: nat)
    ensures w >= 128 ==> w * p >= 128 * p
    ensures w >= 16 ==> w * p >= 16 * p
  {
  }

  lemma SmallProduct(w: nat, p: nat, r: nat)
    requires r + w * p < TWO_32
    ensures w * p % TWO_32 == w * p
  {
    assert w * p >= 0;
  }

  lemma SplitProduct(w: nat, a: nat, b: nat, p: nat)
    requires w == a + 128 * b && a <= 127
    ensures w * p == a * p + b * (128 * p)
    ensures 0 <= a * p <= 127 * p && b * (128 * p) >= 0
  {
    assert 128 * b * p == b * (128 * p);
  }

  /* LevelDB's readers (util/coding.cc).  Its 64-bit one is DecodeVarint. */

  // GetVarint32PtrFallback: at most five bytes.
  function GetVarint32(s: seq<byte>, shift: nat): (r: Parsed<nat>)
    ensures r.Got? ==> |r.rest| < |s|
    decreases |s|
  {
    if shift > 28 || s == [] then Fail
    else if s[0] >= 128 then
      match GetVarint32(s[1..], shift + 7)
      case Fail => Fail
      case Got(v, rest) => Got((s[0] - 128 + 128 * v) % TWO_32, rest)
    else Got(s[0], s[1..])
  }

  lemma {:induction false} Varint32Reads(v: nat, k: nat, rest: seq<byte>)
    requires 1 <= k <= 5 && v < TWO_32 && v < Pow2(7 * k)
    ensures GetVarint32(EncodeVarint(v) + rest, 7 * (5 - k)) == Got(v, rest)
  {
    hide EncodeVarint, Pow2;
    EncodeUnfold(v, rest);
    if v >= 128 {
      SevenMore(k - 1);
      Varint32Reads(v / 128, k - 1, rest);
    } else {
      assert ([v] + rest)[1..] == rest;
    }
  }

  // Five bytes hold any 32-bit number.
  lemma GetVarint32RoundTrip(v: nat, rest: seq<byte>)
    requires v < TWO_32
    ensures GetVarint32(EncodeVarint(v) + rest, 0) == Got(v, rest)
  {
    hide EncodeVarint, GetVarint32, Pow2;
    PowersOf128();
    SevenMore(4);
    Varint32Reads(v, 5, rest);
  }

  /* Zigzag and two's complement. */

  predicate IsWidth(bits: nat) {
    bits == 8 || bits == 16 || bits == 32 || bits == 64
  }

  function Modulus(bits: nat): (r: nat)
    requires IsWidth(bits)
    ensures r > 0
  {
    if bits == 8 then 0x100 else if bits == 16 then 0x1_0000 else if bits == 32 then TWO_32 else TWO_64
  }

  predicate FitsSigned(bits: nat, v: int)
    requires IsWidth(bits)
  {
    0 <= 2 * v + Modulus(bits) < 2 * Modulus(bits)
  }

  // A cast to an unsigned, and to a signed type.
  function ToUnsigned(bits: nat, v: int): (r: nat)
    requires IsWidth(bits)
    ensures r < Modulus(bits)
  {
    v % Modulus(bits)
  }

  function ToSigned(bits: nat, v: int): int
    requires IsWidth(bits)
  {
    var u := v % Modulus(bits);
    if 2 * u >= Modulus(bits) then u - Modulus(bits) else u
  }

  lemma SignedRoundTrip(bits: nat, v: int)
    requires IsWidth(bits) && FitsSigned(bits, v)
    ensures ToSigned(bits, ToUnsigned(bits, v)) == v && ToSigned(bits, v) == v
    ensures bits <= 32 ==> ToSigned(32, ToUnsigned(64, v)) == v
    ensures ToSigned(64, ToUnsigned(64, v)) == v
  {
    var m := Modulus(bits);
    Wraps(v, m);
    Wraps(v, TWO_64);
    Wraps(if v < 0 then v + m else v, m);
    Wraps(if v < 0 then v + TWO_64 else v, TWO_64);
    if bits <= 32 {
      Wraps(v, TWO_32);
      WholeTurns(if v < 0 then v + TWO_32 else v);
    }
  }

  lemma Wraps(v: int, m: nat)
    requires m > 0 && 0 <= v + m < 2 * m
    ensures v % m == if v < 0 then v + m else v
  {
    if v < 0 {
      assert v % m == (v + m) % m;
    }
  }

  // 2^64 is a multiple of 2^32.
  lemma WholeTurns(u: nat)
    requires u < TWO_32
    ensures (u + TWO_64 - TWO_32) % TWO_32 == u
  {
    assert u + TWO_64 - TWO_32 == u + TWO_32 * (TWO_32 - 1);
  }

  // pb_encode_svarint: (value << 1), complemented if value is negative.
  function ZigZag(v: int): nat
    requires FitsSigned(64, v)
  {
    var shifted := 2 * ToUnsigned(64, v) % TWO_64;
    if v < 0 then TWO_64 - 1 - shifted else shifted
  }

  // pb_decode_svarint
  function UnZigZag(z: nat): int
    requires z < TWO_64
  {
    if z % 2 == 1 then ToSigned(64, TWO_64 - 1 - z / 2) else ToSigned(64, z / 2)
  }

  // Small magnitudes get small codes: 0, -1, 1, -2, 2 and so on.
  lemma ZigZagIs(v: int)
    requires FitsSigned(64, v)
    ensures ZigZag(v) == if v >= 0 then 2 * v else -2 * v - 1
  {
    Wraps(v, TWO_64);
    if v < 0 {
      assert 2 * (v + TWO_64) % TWO_64 == 2 * v + TWO_64 by { Wraps(2 * v, TWO_64); assert (2 * v + 2 * TWO_64) % TWO_64 == 2 * v % TWO_64; }
    }
  }

  lemma ZigZagRoundTrip(v: int)
    requires FitsSigned(64, v)
    ensures ZigZag(v) < TWO_64 && UnZigZag(ZigZag(v)) == v
  {
    Wraps(v, TWO_64);
    assert ZigZag(v) == if v < 0 then -2 * v - 1 else 2 * v;
  }

  /* Little-endian words. */

  function EncodeFixed64(v: nat): seq<byte>
    requires v < TWO_64
  {
    EncodeFixed32(v % TWO_32) + EncodeFixed32(v / TWO_32)
  }

  function DecodeFixed64(s: seq<byte>): (r: nat)
    requires |s| >= 8
    ensures r < TWO_64
  {
    DecodeFixed32(s) + TWO_32 * DecodeFixed32(s[4..])
  }

  lemma Fixed64RoundTrip(v: nat, rest: seq<byte>)
    requires v < TWO_64
    ensures |EncodeFixed64(v)| == 8 && DecodeFixed64(EncodeFixed64(v) + rest) == v
  {
    hide EncodeFixed32, DecodeFixed32;
    var low, high := EncodeFixed32(v % TWO_32), EncodeFixed32(v / TWO_32);
    assert low + high + rest == low + (high + rest);
    assert (low + high + rest)[4..] == high + rest;
    Fixed32RoundTrip(v % TWO_32, high + rest);
    Fixed32RoundTrip(v / TWO_32, rest);
  }
}
