// The keys of the store as bytes: user keys under the bytewise comparator embed
// in the ordered keys of DbFormat, and internal keys are stored as the user key
// and eight bytes of tag (db/dbformat.h, db/dbformat.cc).

module StoredKeys {
  import opened Coding
  import opened Varint
  import opened Comparators
  import opened DbFormat
  import opened Files
  import opened VersionEdits

  // A byte string as a fraction to base 257, digits 1 to 256.
  function Rank(u: Bytes): (r: UserKey)
    ensures 0.0 <= r < 1.0 && (u != [] ==> r > 0.0)
  {
    if u == [] then 0.0 else ((u[0] as int + 1) as real + Rank(u[1..])) / 257.0
  }

  // The embedding keeps the order, so it is one-to-one.
  lemma {:induction false} RankKeepsOrder(a: Bytes, b: Bytes)
    ensures Below(a, b) <==> Rank(a) < Rank(b)
    ensures Rank(a) == Rank(b) <==> a == b
    decreases |a| + |b|
  {
    if a != [] && b != [] {
      RankKeepsOrder(a[1..], b[1..]);
      if a[0] == b[0] && a[1..] == b[1..] {
        assert a == [a[0]] + a[1..] && b == [b[0]] + b[1..];
      }
    }
  }

  // An internal key whose user key is a byte string, and its packed form.
  function KeyOf(u: Bytes, sequence: SequenceNumber, kind: ValueType): InternalKey {
    InternalKey(Rank(u), sequence, kind)
  }

  function Packed(u: Bytes, sequence: SequenceNumber, kind: ValueType): ByteKey {
    ByteKey(u, PackSequenceAndType(KeyOf(u, sequence, kind)))
  }

  // The order of packed keys is InternalKeyComparator's.
  lemma PackedKeepsOrder(u: Bytes, s: SequenceNumber, k: ValueType, v: Bytes, t: SequenceNumber, l: ValueType)
    ensures KeyLess(Packed(u, s, k), Packed(v, t, l)) <==> Less(KeyOf(u, s, k), KeyOf(v, t, l))
    ensures Packed(u, s, k) == Packed(v, t, l) <==> KeyOf(u, s, k) == KeyOf(v, t, l)
  {
    hide Rank, Below;
    RankKeepsOrder(u, v);
    RankKeepsOrder(v, u);
  }

  /* The bytes of an internal key. */

  function KeyBytes(k: ByteKey): seq<byte>
    requires k.tag < TWO_64
  {
    k.user + EncodeFixed64(k.tag)
  }

  lemma TagIs64Bits(u: Bytes, sequence: SequenceNumber, kind: ValueType)
    ensures Packed(u, sequence, kind).tag < TWO_64
  {
  }

  // The user key of a rank, where there is one.
  ghost function Unrank(r: UserKey): Bytes {
    if u: Bytes :| Rank(u) == r then u else []
  }

  lemma UnrankInverts(u: Bytes)
    ensures Unrank(Rank(u)) == u
  {
    RankKeepsOrder(u, Unrank(Rank(u)));
  }

  ghost function EncodeKey(k: InternalKey): seq<byte> {
    TagIs64Bits(Unrank(k.user), k.sequence, k.kind);
    KeyBytes(Packed(Unrank(k.user), k.sequence, k.kind))
  }

  function DecodeKey(s: seq<byte>): InternalKey {
    if |s| < 8 then KeyOf([], 0, Deletion)
    else
      var tag := DecodeFixed64(s[|s| - 8..]);
      KeyOf(s[..|s| - 8], tag / 256, if tag % 256 == 1 then Value else Deletion)
  }

  ghost function ByteCodec(): KeyCodec {
    KeyCodec(k => EncodeKey(k), s => DecodeKey(s))
  }

  lemma KeyRoundTrip(u: Bytes, sequence: SequenceNumber, kind: ValueType)
    ensures DecodeKey(EncodeKey(KeyOf(u, sequence, kind))) == KeyOf(u, sequence, kind)
    ensures |EncodeKey(KeyOf(u, sequence, kind))| == |u| + 8
  {
    hide Rank, EncodeFixed64, DecodeFixed64, Unrank;
    UnrankInverts(u);
    TagIs64Bits(u, sequence, kind);
    var tag := Packed(u, sequence, kind).tag;
    var s := u + EncodeFixed64(tag);
    Fixed64RoundTrip(tag, []);
    assert EncodeFixed64(tag) + [] == EncodeFixed64(tag);
    assert s[..|u|] == u && s[|u|..] == EncodeFixed64(tag);
  }

  // Every user key short enough for its internal key's length to fit 32 bits
  // is stored.
  lemma ByteCodecStores(u: Bytes, sequence: SequenceNumber, kind: ValueType)
    ensures ByteCodec().Stores(KeyOf(u, sequence, kind)) <==> |u| + 8 < TWO_32
  {
    hide Rank, EncodeKey, DecodeKey;
    KeyRoundTrip(u, sequence, kind);
  }

  // A new file between two such keys can be written to the descriptor log.
  lemma ByteKeyedFileFits(level: nat, number: nat, size: nat, u: Bytes, s: SequenceNumber, k: ValueType,
                          v: Bytes, t: SequenceNumber, l: ValueType)
    requires level < NUM_LEVELS && number < TWO_64 && size < TWO_64 && |u| + 8 < TWO_32 && |v| + 8 < TWO_32
    ensures EMPTY.(newFiles := [(level, FileMeta(number, size, KeyOf(u, s, k), KeyOf(v, t, l)))]).Fits(ByteCodec())
  {
    hide Rank, KeyOf, ByteCodec;
    ByteCodecStores(u, s, k);
    ByteCodecStores(v, t, l);
  }
}
