// The bytes of version edits, and records that are no version edits
// (db/version_edit.cc).

module EditFormat {
  import opened Wrappers
  import opened Coding
  import opened Varint
  import opened DbFormat
  import opened Files
  import opened VersionEdits

  /* Sample records. */

  lemma NumbersOnDisk(codec: KeyCodec)
    ensures EncodeItem(codec, Comparator([0x61, 0x62])) == [1, 2, 0x61, 0x62]
    ensures EncodeItem(codec, LogNumber(5)) == [2, 5]
    ensures EncodeItem(codec, NextFileNumber(300)) == [3, 0xac, 2]
    ensures EncodeItem(codec, LastSequence(127)) == [4, 127]
    ensures EncodeItem(codec, DeletedFile(2, 128)) == [6, 2, 0x80, 1]
    ensures EncodeItem(codec, PrevLogNumber(0)) == [9, 0]
  {
    assert EncodeVarint(300) == [0xac, 2] && EncodeVarint(128) == [0x80, 1];
  }

  lemma ShortString(s: seq<byte>)
    requires |s| < 128
    ensures PutString(s) == [|s|] + s
  {
  }

  lemma SmallVarints()
    ensures EncodeVarint(1) == [1] && EncodeVarint(3) == [3] && EncodeVarint(5) == [5] && EncodeVarint(7) == [7]
    ensures EncodeVarint(9) == [9] && EncodeVarint(1000) == [0xe8, 7]
  {
    assert EncodeVarint(1000 / 128) == [7];
  }

  lemma PointerOnDisk(codec: KeyCodec, a: InternalKey)
    requires |codec.encode(a)| < 128
    ensures EncodeItem(codec, CompactPointer(3, a)) == [5, 3, |codec.encode(a)|] + codec.encode(a)
  {
    hide EncodeVarint, PutString;
    SmallVarints();
    ShortString(codec.encode(a));
  }

  lemma NewFileOnDisk(codec: KeyCodec, a: InternalKey, b: InternalKey)
    requires |codec.encode(a)| < 128 && |codec.encode(b)| < 128
    ensures EncodeItem(codec, NewFile(1, FileMeta(9, 1000, a, b)))
         == [7, 1, 9, 0xe8, 7, |codec.encode(a)|] + codec.encode(a) + [|codec.encode(b)|] + codec.encode(b)
  {
    hide EncodeVarint, PutString;
    SmallVarints();
    ShortString(codec.encode(a));
    ShortString(codec.encode(b));
    var x, y := codec.encode(a), codec.encode(b);
    assert [7] + ([1] + [9] + [0xe8, 7] + ([|x|] + x) + ([|y|] + y)) == [7, 1, 9, 0xe8, 7, |x|] + x + [|y|] + y;
  }

  /* Corruption. */

  // After any number of good entries, an unknown tag or a level that does not
  // exist makes the record corrupt, whatever follows.
  lemma UnknownTagFails(codec: KeyCodec, items: seq<Item>, tag: nat, rest: seq<byte>, e: Edit)
    requires (forall i :: 0 <= i < |items| ==> items[i].Fits(codec)) && tag < 0x1_0000_0000 && tag !in {1, 2, 3, 4, 5, 6, 7, 9}
    ensures Decode(codec, EncodeItems(codec, items) + (EncodeVarint(tag) + rest), e) == None
  {
    hide EncodeVarint, GetVarint32, EncodeItems;
    ItemsRead(codec, items, EncodeVarint(tag) + rest, e);
    GetVarint32RoundTrip(tag, rest);
  }

  lemma WrongLevelFails(codec: KeyCodec, items: seq<Item>, tag: nat, level: nat, rest: seq<byte>, e: Edit)
    requires (forall i :: 0 <= i < |items| ==> items[i].Fits(codec)) && tag in {5, 6, 7} && 7 <= level < 0x1_0000_0000
    ensures Decode(codec, EncodeItems(codec, items) + (EncodeVarint(tag) + (EncodeVarint(level) + rest)), e) == None
  {
    hide EncodeVarint, GetVarint32, EncodeItems;
    ItemsRead(codec, items, EncodeVarint(tag) + (EncodeVarint(level) + rest), e);
    GetVarint32RoundTrip(tag, EncodeVarint(level) + rest);
    GetVarint32RoundTrip(level, rest);
  }

  // p is the beginning of s, cut off before its end.
  ghost predicate Torn(p: seq<byte>, s: seq<byte>) {
    |p| < |s| && p == s[..|p|]
  }

  lemma TornParts(p: seq<byte>, a: seq<byte>, b: seq<byte>)
    requires Torn(p, a + b)
    ensures |p| < |a| ==> Torn(p, a)
    ensures |p| >= |a| ==> p == a + p[|a|..] && Torn(p[|a|..], b)
  {
    if |p| < |a| {
      assert (a + b)[..|p|] == a[..|p|];
    } else {
      assert (a + b)[..|p|] == a + b[..|p| - |a|];
    }
  }

  lemma {:induction false} NoEndFails(s: seq<byte>, shift: nat)
    requires forall i :: 0 <= i < |s| ==> s[i] >= 128
    ensures GetVarint32(s, shift) == Fail && DecodeSeptets(s, shift) == Fail
    decreases |s|
  {
    if s != [] { NoEndFails(s[1..], shift + 7); }
  }

  lemma TornVarint(p: seq<byte>, v: nat)
    requires Torn(p, EncodeVarint(v))
    ensures GetVarint32(p, 0) == Fail && DecodeVarint(p) == Fail
  {
    hide EncodeVarint;
    VarintIsVarint(v);
    NoEndFails(p, 0);
  }

  lemma TornString(p: seq<byte>, s: seq<byte>)
    requires Torn(p, PutString(s)) && |s| < 0x1_0000_0000
    ensures GetString(p) == Fail
  {
    hide EncodeVarint, GetVarint32;
    TornParts(p, EncodeVarint(|s|), s);
    if |p| < |EncodeVarint(|s|)| {
      TornVarint(p, |s|);
    } else {
      GetVarint32RoundTrip(|s|, p[|EncodeVarint(|s|)|..]);
    }
  }

  lemma TornPointer(codec: KeyCodec, p: seq<byte>, level: nat, key: InternalKey)
    requires Torn(p, Payload(codec, CompactPointer(level, key))) && codec.Stores(key) && level < 7
    ensures GetPointer(codec, p) == Fail
  {
    hide EncodeVarint, GetVarint32, PutString, GetString;
    var l := EncodeVarint(level);
    TornParts(p, l, PutString(codec.encode(key)));
    if |p| < |l| {
      TornVarint(p, level);
    } else {
      LevelReads(level, p[|l|..]);
      TornString(p[|l|..], codec.encode(key));
    }
  }

  lemma TornDeleted(p: seq<byte>, level: nat, number: nat)
    requires Torn(p, EncodeVarint(level) + EncodeVarint(number)) && level < 7
    ensures GetDeleted(p) == Fail
  {
    hide EncodeVarint, GetVarint32, DecodeVarint;
    var l := EncodeVarint(level);
    TornParts(p, l, EncodeVarint(number));
    if |p| < |l| {
      TornVarint(p, level);
    } else {
      LevelReads(level, p[|l|..]);
      TornVarint(p[|l|..], number);
    }
  }

  lemma TornKeys(codec: KeyCodec, p: seq<byte>, a: InternalKey, b: InternalKey)
    requires Torn(p, PutString(codec.encode(a)) + PutString(codec.encode(b))) && codec.Stores(a) && codec.Stores(b)
    ensures GetInternalKey(codec, p).Got? ==> GetInternalKey(codec, GetInternalKey(codec, p).rest) == Fail
  {
    hide PutString, GetString;
    var s := PutString(codec.encode(a));
    TornParts(p, s, PutString(codec.encode(b)));
    if |p| < |s| {
      TornString(p, codec.encode(a));
    } else {
      StringReads(codec.encode(a), p[|s|..]);
      TornString(p[|s|..], codec.encode(b));
    }
  }

  lemma TornNewFile(codec: KeyCodec, p: seq<byte>, level: nat, f: FileMeta)
    requires Torn(p, Payload(codec, NewFile(level, f))) && NewFile(level, f).Fits(codec)
    ensures GetNewFile(codec, p) == Fail
  {
    hide EncodeVarint, GetVarint32, DecodeVarint, PutString, GetString, GetInternalKey, Torn;
    var l, n, z := EncodeVarint(level), EncodeVarint(f.number), EncodeVarint(f.fileSize);
    var keys := PutString(codec.encode(f.smallest)) + PutString(codec.encode(f.largest));
    assert Payload(codec, NewFile(level, f)) == l + (n + (z + keys));
    TornParts(p, l, n + (z + keys));
    if |p| < |l| {
      TornVarint(p, level);
    } else {
      var q := p[|l|..];
      LevelReads(level, q);
      TornParts(q, n, z + keys);
      if |q| < |n| {
        TornVarint(q, f.number);
      } else {
        var r := q[|n|..];
        VarintRoundTrip(f.number, r);
        TornParts(r, z, keys);
        if |r| < |z| {
          TornVarint(r, f.fileSize);
        } else {
          VarintRoundTrip(f.fileSize, r[|z|..]);
          TornKeys(codec, r[|z|..], f.smallest, f.largest);
        }
      }
    }
  }

  lemma TornPayload(codec: KeyCodec, p: seq<byte>, item: Item)
    requires Torn(p, Payload(codec, item)) && item.Fits(codec)
    ensures GetItem(codec, item.Tag(), p) == Fail
  {
    hide EncodeVarint, DecodeVarint, PutString, GetString, GetPointer, GetDeleted, GetNewFile, Torn;
    match item {
      case Comparator(name) => TornString(p, name);
      case CompactPointer(level, key) => TornPointer(codec, p, level, key);
      case DeletedFile(level, number) => TornDeleted(p, level, number);
      case NewFile(level, f) => TornNewFile(codec, p, level, f);
      case LogNumber(n) => TornVarint(p, n);
      case PrevLogNumber(n) => TornVarint(p, n);
      case NextFileNumber(n) => TornVarint(p, n);
      case LastSequence(n) => TornVarint(p, n);
    }
  }

  // A record cut off within an entry is corrupt; cut off between two, it is
  // the record of the entries before.
  lemma TornRecordFails(codec: KeyCodec, items: seq<Item>, item: Item, p: seq<byte>, e: Edit)
    requires (forall i :: 0 <= i < |items| ==> items[i].Fits(codec)) && item.Fits(codec) && Torn(p, EncodeItem(codec, item))
    ensures Decode(codec, EncodeItems(codec, items) + p, e) == if p == [] then Some(AddAll(e, items)) else None
  {
    hide EncodeVarint, GetVarint32, EncodeItems, Payload, GetItem, Torn, AddAll;
    ItemsRead(codec, items, p, e);
    if p == [] {
      assert GetVarint32(p, 0) == Fail by { NoEndFails(p, 0); }
    } else {
      var t := EncodeVarint(item.Tag());
      TornParts(p, t, Payload(codec, item));
      if |p| < |t| {
        TornVarint(p, item.Tag());
      } else {
        GetVarint32RoundTrip(item.Tag(), p[|t|..]);
        TornPayload(codec, p[|t|..], item);
      }
    }
  }
}
