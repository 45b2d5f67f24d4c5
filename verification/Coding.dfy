// Bytes and fixed-width integers (util/coding.h) and the stored form of a
// checksum (util/crc32c.h).

module Coding {
  type byte = n: nat | n < 256
  type uint32 = n: nat | n < 0x1_0000_0000

  const UINT_MAX: uint32 := 0xFFFF_FFFF

  function EncodeFixed32(x: uint32): (r: seq<byte>)
    ensures |r| == 4
  {
    [x % 256, x / 256 % 256, x / 0x1_0000 % 256, x / 0x100_0000]
  }

  function DecodeFixed32(s: seq<byte>): uint32
    requires |s| >= 4
  {
    s[0] as int + s[1] as int * 256 + s[2] as int * 0x1_0000 + s[3] as int * 0x100_0000
  }

  lemma Fixed32RoundTrip(x: uint32, rest: seq<byte>)
    ensures DecodeFixed32(EncodeFixed32(x) + rest) == x
  {
    var a := x / 256;
    var b := a / 256;
    assert x / 0x1_0000 == b;
    assert x / 0x100_0000 == b / 256;
  }

  function Zeros(n: nat): (z: seq<byte>)
    ensures |z| == n
  {
    seq(n, _ => 0)
  }

  // An array of words.
  function Words(ns: seq<nat>): seq<byte>
    requires forall k :: 0 <= k < |ns| ==> ns[k] < 0x1_0000_0000
  {
    if ns == [] then [] else Words(ns[..|ns| - 1]) + EncodeFixed32(ns[|ns| - 1])
  }

  lemma TwoWords(a: uint32, b: uint32)
    ensures Words([a, b]) == EncodeFixed32(a) + EncodeFixed32(b)
  {
    hide EncodeFixed32;
    assert [a, b][..1] == [a] && [a][..0] == [];
    assert Words([a]) == EncodeFixed32(a);
  }

  lemma {:induction false} WordAt(ns: seq<nat>, i: nat, rest: seq<byte>)
    requires (forall k :: 0 <= k < |ns| ==> ns[k] < 0x1_0000_0000) && i < |ns|
    ensures |Words(ns)| == 4 * |ns| && DecodeFixed32((Words(ns) + rest)[4 * i..]) == ns[i]
    decreases |ns|
  {
    hide EncodeFixed32, DecodeFixed32;
    var k := |ns| - 1;
    var last := EncodeFixed32(ns[k]);
    assert Words(ns) + rest == Words(ns[..k]) + (last + rest);
    if i < k {
      WordAt(ns[..k], i, last + rest);
    } else {
      WordsLength(ns[..k]);
      Fixed32RoundTrip(ns[k], rest);
      assert (Words(ns) + rest)[4 * k..] == last + rest;
    }
  }

  lemma {:induction false} WordsLength(ns: seq<nat>)
    requires forall k :: 0 <= k < |ns| ==> ns[k] < 0x1_0000_0000
    ensures |Words(ns)| == 4 * |ns|
  {
    if ns != [] { WordsLength(ns[..|ns| - 1]); }
  }

  // Rotate right by 15 bits and add a constant, modulo 2^32.
  const MASK_DELTA: uint32 := 0xa282ead8

  function Mask(crc: uint32): uint32 {
    (crc / 0x8000 + crc % 0x8000 * 0x2_0000 + MASK_DELTA) % 0x1_0000_0000
  }

  function Unmask(masked: uint32): uint32 {
    var rot := (masked + 0x1_0000_0000 - MASK_DELTA) % 0x1_0000_0000;
    rot / 0x2_0000 + rot % 0x2_0000 * 0x8000
  }

  // In bits: the low 15 change places with the high 17.
  lemma MaskRotates(high: nat, low: nat)
    requires high < 0x2_0000 && low < 0x8000
    ensures Mask(high * 0x8000 + low) == (low * 0x2_0000 + high + 0xa282_ead8) % 0x1_0000_0000
  {
    var crc := high * 0x8000 + low;
    assert crc / 0x8000 == high;
    assert crc % 0x8000 == low;
  }

  lemma UnmaskInvertsMask(crc: uint32)
    ensures Unmask(Mask(crc)) == crc
  {
    var rot := crc / 0x8000 + crc % 0x8000 * 0x2_0000;
    assert rot < 0x1_0000_0000;
    assert (Mask(crc) + 0x1_0000_0000 - MASK_DELTA) % 0x1_0000_0000 == rot;
    assert rot / 0x2_0000 == crc % 0x8000 && rot % 0x2_0000 == crc / 0x8000;
  }
}
