// Bloom filters with double hashing (util/bloom.cc).  The hash of a key is a
// parameter.

module Bloom {
  import opened Coding
  import opened Varint

  type Hash = seq<byte> -> uint32

  /* Bits of an array of bytes. */

  predicate BitOf(b: nat, i: nat) {
    if i == 0 then b % 2 == 1 else BitOf(b / 2, i - 1)
  }

  // b | (1 << i)
  function OrBit(b: nat, i: nat): nat {
    if i == 0 then b / 2 * 2 + 1 else OrBit(b / 2, i - 1) * 2 + b % 2
  }

  lemma {:induction false} OrSetsOneBit(b: nat, i: nat, j: nat)
    ensures BitOf(OrBit(b, i), j) <==> i == j || BitOf(b, j)
  {
    if i > 0 && j > 0 {
      OrSetsOneBit(b / 2, i - 1, j - 1);
    }
  }

  lemma {:induction false} OrFits(b: nat, i: nat, width: nat)
    requires i < width && b < Pow2(width)
    ensures OrBit(b, i) < Pow2(width)
  {
    hide Pow2, BitOf;
    Pow2Doubles(width - 1);
    if i > 0 {
      OrFits(b / 2, i - 1, width - 1);
    }
  }

  lemma Pow2Doubles(n: nat)
    ensures Pow2(n + 1) == 2 * Pow2(n)
  {
  }

  function OrByte(b: byte, i: nat): (r: byte)
    requires i < 8
    ensures r == OrBit(b, i)
  {
    SevenMoreBits(1);
    OrFits(b, i, 8);
    OrBit(b, i)
  }

  predicate Bit(a: seq<byte>, pos: nat)
    requires pos < 8 * |a|
  {
    BitOf(a[pos / 8], pos % 8)
  }

  function SetBit(a: seq<byte>, pos: nat): (r: seq<byte>)
    requires pos < 8 * |a|
    ensures |r| == |a|
  {
    a[pos / 8 := OrByte(a[pos / 8], pos % 8)]
  }

  lemma SetBitSetsOne(a: seq<byte>, pos: nat, at: nat)
    requires pos < 8 * |a| && at < 8 * |a|
    ensures Bit(SetBit(a, pos), at) <==> at == pos || Bit(a, at)
  {
    hide BitOf, OrBit;
    if pos / 8 == at / 8 {
      OrSetsOneBit(a[pos / 8], pos % 8, at % 8);
    }
  }

  /* Probes. */

  // Rotate right by 17 bits.
  function Delta(h: uint32): uint32 {
    h / 0x2_0000 + h % 0x2_0000 * 0x8000
  }

  function Probe(h: uint32, j: nat): uint32 {
    if j == 0 then h else (Probe(h, j - 1) + Delta(h)) % 0x1_0000_0000
  }

  // In bits: the low 17 change places with the high 15.
  lemma DeltaRotates(high: nat, low: nat)
    requires high < 0x8000 && low < 0x2_0000
    ensures Delta(high * 0x2_0000 + low) == low * 0x8000 + high
  {
  }

  // The probes are equally spaced.
  lemma {:induction false} ProbeIs(h: uint32, j: nat)
    ensures j * Delta(h) >= 0 && Probe(h, j) == (h + j * Delta(h)) % 0x1_0000_0000
  {
    if j > 0 {
      ProbeIs(h, j - 1);
      var d := Delta(h);
      assert (j - 1) * d + d == j * d;
      SumWraps(h + (j - 1) * d, d);
    }
  }

  lemma SumWraps(a: nat, d: nat)
    ensures (a % 0x1_0000_0000 + d) % 0x1_0000_0000 == (a + d) % 0x1_0000_0000
  {
  }

  function SetProbes(a: seq<byte>, h: uint32, k: nat): (r: seq<byte>)
    requires |a| > 0
    ensures |r| == |a|
  {
    if k == 0 then a else SetBit(SetProbes(a, h, k - 1), Probe(h, k - 1) % (8 * |a|))
  }

  function SetKeys(a: seq<byte>, keys: seq<seq<byte>>, hash: Hash, k: nat): (r: seq<byte>)
    requires |a| > 0
    ensures |r| == |a|
  {
    if keys == [] then a
    else SetProbes(SetKeys(a, keys[..|keys| - 1], hash, k), hash(keys[|keys| - 1]), k)
  }

  function Bytes(n: nat, bitsPerKey: nat): (r: nat)
    ensures r >= 8
  {
    var bits := n * bitsPerKey;
    ((if bits < 64 then 64 else bits) + 7) / 8
  }

  // At least 64 bits and as many for each key as asked for, in whole bytes.
  lemma BytesIs(n: nat, bitsPerKey: nat)
    ensures n * bitsPerKey >= 0 && 8 * Bytes(n, bitsPerKey) >= 64 && 8 * Bytes(n, bitsPerKey) >= n * bitsPerKey
    ensures 8 * Bytes(n, bitsPerKey) < 64 + 8 || 8 * Bytes(n, bitsPerKey) < n * bitsPerKey + 8
  {
  }

  // The filter of a list of keys; its last byte is the number of probes.
  function Filter(keys: seq<seq<byte>>, bitsPerKey: nat, hash: Hash, k: nat): seq<byte>
    requires k <= 30
  {
    SetKeys(seq(Bytes(|keys|, bitsPerKey), _ => 0), keys, hash, k) + [k]
  }

  predicate ProbeSet(a: seq<byte>, h: uint32, j: nat)
    requires |a| > 0
  {
    Bit(a, Probe(h, j) % (8 * |a|))
  }

  predicate AllProbesSet(a: seq<byte>, h: uint32, k: nat) {
    |a| > 0 && forall j :: 0 <= j < k ==> ProbeSet(a, h, j)
  }

  predicate MayMatch(key: seq<byte>, filter: seq<byte>, hash: Hash) {
    var n := |filter|;
    n >= 2 && (filter[n - 1] > 30 || AllProbesSet(filter[..n - 1], hash(key), filter[n - 1]))
  }

  // Filters too short to hold a bit match nothing; those with more than 30
  // probes are of a later encoding and match everything.
  lemma OtherFilters(key: seq<byte>, filter: seq<byte>, hash: Hash)
    ensures |filter| < 2 ==> !MayMatch(key, filter, hash)
    ensures |filter| >= 2 && filter[|filter| - 1] > 30 ==> MayMatch(key, filter, hash)
  {
  }

  // Some probe of h falls on the bit.
  ghost predicate Hits(h: uint32, k: nat, bits: nat, pos: nat)
    requires bits > 0
  {
    exists j :: 0 <= j < k && Probe(h, j) % bits == pos
  }

  ghost predicate SomeKeyHits(keys: seq<seq<byte>>, hash: Hash, k: nat, bits: nat, pos: nat)
    requires bits > 0
  {
    exists i :: 0 <= i < |keys| && Hits(hash(keys[i]), k, bits, pos)
  }

  // The bit of the j-th probe of h was set by some key.
  ghost predicate Shared(keys: seq<seq<byte>>, hash: Hash, k: nat, bits: nat, h: uint32, j: nat)
    requires bits > 0
  {
    SomeKeyHits(keys, hash, k, bits, Probe(h, j) % bits)
  }

  lemma {:induction false} ProbesSetTheirBits(a: seq<byte>, h: uint32, k: nat, pos: nat)
    requires pos < 8 * |a|
    ensures Bit(SetProbes(a, h, k), pos) <==> Hits(h, k, 8 * |a|, pos) || Bit(a, pos)
  {
    hide Bit, SetBit, Probe;
    if k > 0 {
      ProbesSetTheirBits(a, h, k - 1, pos);
      SetBitSetsOne(SetProbes(a, h, k - 1), Probe(h, k - 1) % (8 * |a|), pos);
    }
  }

  lemma {:induction false} KeysSetTheirBits(a: seq<byte>, keys: seq<seq<byte>>, hash: Hash, k: nat, pos: nat)
    requires pos < 8 * |a|
    ensures Bit(SetKeys(a, keys, hash, k), pos) <==> SomeKeyHits(keys, hash, k, 8 * |a|, pos) || Bit(a, pos)
  {
    hide Bit, SetProbes, Hits;
    if keys != [] {
      var n := |keys| - 1;
      var fore := keys[..n];
      KeysSetTheirBits(a, fore, hash, k, pos);
      ProbesSetTheirBits(SetKeys(a, fore, hash, k), hash(keys[n]), k, pos);
      if SomeKeyHits(keys, hash, k, 8 * |a|, pos) && !Hits(hash(keys[n]), k, 8 * |a|, pos) {
        var i :| 0 <= i < |keys| && Hits(hash(keys[i]), k, 8 * |a|, pos);
        assert fore[i] == keys[i];
      }
      if SomeKeyHits(fore, hash, k, 8 * |a|, pos) {
        var i :| 0 <= i < n && Hits(hash(fore[i]), k, 8 * |a|, pos);
        assert fore[i] == keys[i];
      }
    }
  }

  // A key may match exactly when every bit it probes was set by some key.
  lemma MayMatchIff(key: seq<byte>, keys: seq<seq<byte>>, bitsPerKey: nat, hash: Hash, k: nat)
    requires k <= 30
    ensures var bits := 8 * Bytes(|keys|, bitsPerKey);
      MayMatch(key, Filter(keys, bitsPerKey, hash, k), hash)
      <==> forall j :: 0 <= j < k ==> Shared(keys, hash, k, bits, hash(key), j)
  {
    hide SomeKeyHits, SetKeys, Probe, Bit, Bytes;
    var zero := seq(Bytes(|keys|, bitsPerKey), _ => 0);
    var filter := Filter(keys, bitsPerKey, hash, k);
    var bits := 8 * |zero|;
    var a := SetKeys(zero, keys, hash, k);
    assert filter == a + [k] && filter[..|a|] == a;
    assert MayMatch(key, filter, hash) <==> AllProbesSet(a, hash(key), k);
    forall j | 0 <= j < k
      ensures ProbeSet(a, hash(key), j) <==> Shared(keys, hash, k, bits, hash(key), j)
    {
      KeysSetTheirBits(zero, keys, hash, k, Probe(hash(key), j) % bits);
      NoBitSet(zero, Probe(hash(key), j) % bits);
    }
  }

  lemma {:induction false} NoBitOfZero(i: nat)
    ensures !BitOf(0, i)
  {
    if i > 0 { NoBitOfZero(i - 1); }
  }

  lemma NoBitSet(a: seq<byte>, pos: nat)
    requires pos < 8 * |a| && forall i :: 0 <= i < |a| ==> a[i] == 0
    ensures !Bit(a, pos)
  {
    NoBitOfZero(pos % 8);
  }

  // No false negatives, whatever the hash function.
  lemma KeysMatch(keys: seq<seq<byte>>, i: nat, bitsPerKey: nat, hash: Hash, k: nat)
    requires k <= 30 && i < |keys|
    ensures MayMatch(keys[i], Filter(keys, bitsPerKey, hash, k), hash)
  {
    hide MayMatch, Filter, Probe;
    MayMatchIff(keys[i], keys, bitsPerKey, hash, k);
    var bits := 8 * Bytes(|keys|, bitsPerKey);
    forall j | 0 <= j < k ensures Shared(keys, hash, k, bits, hash(keys[i]), j) {
      assert Hits(hash(keys[i]), k, bits, Probe(hash(keys[i]), j) % bits);
    }
  }

  /* The policy's methods. */

  class BloomFilterPolicy {
    const bitsPerKey: nat
    const k: nat
    const hash: Hash

    // k is bits_per_key * 0.69 rounded down, brought into 1 to 30.
    constructor (bitsPerKey: nat, hash: Hash)
      ensures this.bitsPerKey == bitsPerKey && this.hash == hash
      ensures 1 <= k <= 30
      ensures 1 <= bitsPerKey * 69 / 100 <= 30 ==> k == bitsPerKey * 69 / 100
    {
      var k := bitsPerKey * 69 / 100;
      if k < 1 { k := 1; }
      if k > 30 { k := 30; }
      this.bitsPerKey, this.k, this.hash := bitsPerKey, k, hash;
    }

    method CreateFilter(keys: seq<seq<byte>>, dst: seq<byte>) returns (r: seq<byte>)
      requires k <= 30
      ensures r == dst + Filter(keys, bitsPerKey, hash, k)
    {
      hide SetBit, Probe;
      var bytes := Bytes(|keys|, bitsPerKey);
      var bits := bytes * 8;
      var a := new byte[bytes](_ => 0);
      ghost var zero: seq<byte> := a[..];
      assert zero == seq(bytes, _ => 0);
      var i := 0;
      while i < |keys|
        invariant 0 <= i <= |keys|
        invariant a[..] == SetKeys(zero, keys[..i], hash, k)
      {
        ghost var before := a[..];
        assert keys[..i + 1][..i] == keys[..i];
        AddProbes(a, hash(keys[i]));
        i := i + 1;
      }
      assert keys[..i] == keys;
      r := dst + (a[..] + [k]);
    }

    method AddProbes(a: array<byte>, hashed: uint32)
      requires a.Length > 0
      modifies a
      ensures a[..] == SetProbes(old(a[..]), hashed, k)
    {
      hide OrByte;
      var h := hashed;
      var delta := Delta(h);
      var j := 0;
      while j < k
        invariant 0 <= j <= k
        invariant h == Probe(hashed, j)
        invariant a[..] == SetProbes(old(a[..]), hashed, j)
      {
        var bitpos := h % (a.Length * 8);
        a[bitpos / 8] := OrByte(a[bitpos / 8], bitpos % 8);
        h := (h + delta) % 0x1_0000_0000;
        j := j + 1;
      }
    }

    method KeyMayMatch(key: seq<byte>, filter: seq<byte>) returns (may: bool)
      ensures may == MayMatch(key, filter, hash)
    {
      hide Bit;
      var len := |filter|;
      if len < 2 { return false; }
      var a, probes := filter[..len - 1], filter[len - 1];
      var bits := (len - 1) * 8;
      if probes > 30 { return true; }
      var h := hash(key);
      var delta := Delta(h);
      var j := 0;
      while j < probes
        invariant 0 <= j <= probes
        invariant h == Probe(hash(key), j)
        invariant forall i :: 0 <= i < j ==> ProbeSet(a, hash(key), i)
      {
        var bitpos := h % bits;
        assert ProbeSet(a, hash(key), j) == Bit(a, bitpos);
        if !Bit(a, bitpos) { return false; }
        h := (h + delta) % 0x1_0000_0000;
        j := j + 1;
      }
      return true;
    }
  }
}
