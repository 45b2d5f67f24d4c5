// The record of one change to the set of table files, and its encoding
// (db/version_edit.h, db/version_edit.cc).

module VersionEdits {
  import opened Wrappers
  import opened Coding
  import opened Varint
  import opened DbFormat
  import opened Files

  // Internal keys as the byte strings they are stored as.
  datatype KeyCodec = KeyCodec(encode: InternalKey -> seq<byte>, decode: seq<byte> -> InternalKey)
  {
    // The key is read back, and its length fits the 32 bits it is stored in.
    predicate Stores(k: InternalKey) {
      decode(encode(k)) == k && |encode(k)| < TWO_32
    }
  }

  datatype Edit = Edit(
    comparator: Option<seq<byte>>,
    logNumber: Option<nat>,
    prevLogNumber: Option<nat>,
    nextFile: Option<nat>,
    lastSequence: Option<nat>,
    compactPointers: seq<(nat, InternalKey)>,
    deleted: set<(nat, nat)>,
    newFiles: seq<(nat, FileMeta)>)
  {
    // The numbers and keys fit the widths they are stored in, and the levels
    // exist.
    predicate Fits(codec: KeyCodec) {
      && (comparator.Some? ==> |comparator.value| < TWO_32)
      && (logNumber.Some? ==> logNumber.value < TWO_64)
      && (prevLogNumber.Some? ==> prevLogNumber.value < TWO_64)
      && (nextFile.Some? ==> nextFile.value < TWO_64)
      && (lastSequence.Some? ==> lastSequence.value < TWO_64)
      && (forall p :: p in compactPointers ==> CompactPointer(p.0, p.1).Fits(codec))
      && (forall d :: d in deleted ==> DeletedFile(d.0, d.1).Fits(codec))
      && forall f :: f in newFiles ==> NewFile(f.0, f.1).Fits(codec)
    }
  }

  const EMPTY: Edit := Edit(None, None, None, None, None, [], {}, [])

  // One tagged entry of an encoded edit.
  datatype Item =
    | Comparator(name: seq<byte>)
    | LogNumber(n: nat)
    | PrevLogNumber(n: nat)
    | NextFileNumber(n: nat)
    | LastSequence(n: nat)
    | CompactPointer(level: nat, key: InternalKey)
    | DeletedFile(level: nat, number: nat)
    | NewFile(level: nat, file: FileMeta)
  {
    // The numbers on disk.  8 was used for large value refs.
    function Tag(): (t: nat)
      ensures t < 128
    {
      match this
      case Comparator(_) => 1
      case LogNumber(_) => 2
      case NextFileNumber(_) => 3
      case LastSequence(_) => 4
      case CompactPointer(_, _) => 5
      case DeletedFile(_, _) => 6
      case NewFile(_, _) => 7
      case PrevLogNumber(_) => 9
    }

    predicate Fits(codec: KeyCodec) {
      match this
      case Comparator(name) => |name| < TWO_32
      case CompactPointer(level, key) => level < NUM_LEVELS && codec.Stores(key)
      case DeletedFile(level, number) => level < NUM_LEVELS && number < TWO_64
      case NewFile(level, f) =>
        level < NUM_LEVELS && f.number < TWO_64 && f.fileSize < TWO_64 && codec.Stores(f.smallest) && codec.Stores(f.largest)
      case LogNumber(n) => n < TWO_64
      case PrevLogNumber(n) => n < TWO_64
      case NextFileNumber(n) => n < TWO_64
      case LastSequence(n) => n < TWO_64
    }

    // What reading the entry does to the edit being read.
    function AddTo(e: Edit): Edit {
      match this
      case Comparator(name) => e.(comparator := Some(name))
      case LogNumber(n) => e.(logNumber := Some(n))
      case PrevLogNumber(n) => e.(prevLogNumber := Some(n))
      case NextFileNumber(n) => e.(nextFile := Some(n))
      case LastSequence(n) => e.(lastSequence := Some(n))
      case CompactPointer(level, key) => e.(compactPointers := e.compactPointers + [(level, key)])
      case DeletedFile(level, number) => e.(deleted := e.deleted + {(level, number)})
      case NewFile(level, file) => e.(newFiles := e.newFiles + [(level, file)])
    }
  }

  /* Encoding. */

  // PutLengthPrefixedSlice
  function PutString(s: seq<byte>): seq<byte> {
    EncodeVarint(|s|) + s
  }

  function Payload(codec: KeyCodec, item: Item): seq<byte> {
    match item
    case Comparator(name) => PutString(name)
    case LogNumber(n) => EncodeVarint(n)
    case PrevLogNumber(n) => EncodeVarint(n)
    case NextFileNumber(n) => EncodeVarint(n)
    case LastSequence(n) => EncodeVarint(n)
    case CompactPointer(level, key) => EncodeVarint(level) + PutString(codec.encode(key))
    case DeletedFile(level, number) => EncodeVarint(level) + EncodeVarint(number)
    case NewFile(level, f) =>
      EncodeVarint(level) + EncodeVarint(f.number) + EncodeVarint(f.fileSize)
      + PutString(codec.encode(f.smallest)) + PutString(codec.encode(f.largest))
  }

  function EncodeItem(codec: KeyCodec, item: Item): seq<byte> {
    EncodeVarint(item.Tag()) + Payload(codec, item)
  }

  function EncodeItems(codec: KeyCodec, items: seq<Item>): seq<byte> {
    if items == [] then [] else EncodeItems(codec, items[..|items| - 1]) + EncodeItem(codec, items[|items| - 1])
  }

  lemma EncodeNothing(codec: KeyCodec)
    ensures EncodeItems(codec, []) == []
  {
  }

  function Scalars(e: Edit): seq<Item> {
    (if e.comparator.Some? then [Comparator(e.comparator.value)] else [])
    + (if e.logNumber.Some? then [LogNumber(e.logNumber.value)] else [])
    + (if e.prevLogNumber.Some? then [PrevLogNumber(e.prevLogNumber.value)] else [])
    + (if e.nextFile.Some? then [NextFileNumber(e.nextFile.value)] else [])
    + (if e.lastSequence.Some? then [LastSequence(e.lastSequence.value)] else [])
  }

  function Pointers(ps: seq<(nat, InternalKey)>): seq<Item> {
    seq(|ps|, i requires 0 <= i < |ps| => CompactPointer(ps[i].0, ps[i].1))
  }

  function Deletions(ds: seq<(nat, nat)>): seq<Item> {
    seq(|ds|, i requires 0 <= i < |ds| => DeletedFile(ds[i].0, ds[i].1))
  }

  function Additions(fs: seq<(nat, FileMeta)>): seq<Item> {
    seq(|fs|, i requires 0 <= i < |fs| => NewFile(fs[i].0, fs[i].1))
  }

  // The entries of an edit in the order they are written; `order` is the order
  // in which the set of deleted files is walked.
  function Items(e: Edit, order: seq<(nat, nat)>): seq<Item> {
    Scalars(e) + Pointers(e.compactPointers) + Deletions(order) + Additions(e.newFiles)
  }

  ghost predicate Lists(order: seq<(nat, nat)>, s: set<(nat, nat)>) {
    forall d :: d in order <==> d in s
  }

  /* Decoding. */

  // GetLengthPrefixedSlice
  function GetString(s: seq<byte>): (r: Parsed<seq<byte>>)
    ensures r.Got? ==> |r.rest| <= |s|
  {
    match GetVarint32(s, 0)
    case Fail => Fail
    case Got(n, rest) => if |rest| < n then Fail else Got(rest[..n], rest[n..])
  }

  function GetLevel(s: seq<byte>): (r: Parsed<nat>)
    ensures r.Got? ==> |r.rest| <= |s|
  {
    match GetVarint32(s, 0)
    case Fail => Fail
    case Got(n, rest) => if n < NUM_LEVELS then Got(n, rest) else Fail
  }

  function GetInternalKey(codec: KeyCodec, s: seq<byte>): (r: Parsed<InternalKey>)
    ensures r.Got? ==> |r.rest| <= |s|
  {
    match GetString(s)
    case Fail => Fail
    case Got(bytes, rest) => Got(codec.decode(bytes), rest)
  }

  function GetPointer(codec: KeyCodec, s: seq<byte>): (r: Parsed<Item>)
    ensures r.Got? ==> |r.rest| <= |s|
  {
    match GetLevel(s)
    case Fail => Fail
    case Got(level, s1) =>
      match GetInternalKey(codec, s1)
      case Fail => Fail
      case Got(key, s2) => Got(CompactPointer(level, key), s2)
  }

  function GetDeleted(s: seq<byte>): (r: Parsed<Item>)
    ensures r.Got? ==> |r.rest| <= |s|
  {
    match GetLevel(s)
    case Fail => Fail
    case Got(level, s1) =>
      match DecodeVarint(s1)
      case Fail => Fail
      case Got(number, s2) => Got(DeletedFile(level, number), s2)
  }

  function GetNewFile(codec: KeyCodec, s: seq<byte>): (r: Parsed<Item>)
    ensures r.Got? ==> |r.rest| <= |s|
  {
    match GetLevel(s)
    case Fail => Fail
    case Got(level, s0) =>
      match DecodeVarint(s0)
      case Fail => Fail
      case Got(number, s1) =>
        match DecodeVarint(s1)
        case Fail => Fail
        case Got(size, s2) =>
          match GetInternalKey(codec, s2)
          case Fail => Fail
          case Got(smallest, s3) =>
            match GetInternalKey(codec, s3)
            case Fail => Fail
            case Got(largest, s4) => Got(NewFile(level, FileMeta(number, size, smallest, largest)), s4)
  }

  // One case of the decoder's switch.
  function GetItem(codec: KeyCodec, tag: nat, s: seq<byte>): (r: Parsed<Item>)
    ensures r.Got? ==> |r.rest| <= |s|
  {
    match tag
    case 1 => (match GetString(s) case Fail => Fail case Got(name, rest) => Got(Comparator(name), rest))
    case 2 => (match DecodeVarint(s) case Fail => Fail case Got(n, rest) => Got(LogNumber(n), rest))
    case 9 => (match DecodeVarint(s) case Fail => Fail case Got(n, rest) => Got(PrevLogNumber(n), rest))
    case 3 => (match DecodeVarint(s) case Fail => Fail case Got(n, rest) => Got(NextFileNumber(n), rest))
    case 4 => (match DecodeVarint(s) case Fail => Fail case Got(n, rest) => Got(LastSequence(n), rest))
    case 5 => GetPointer(codec, s)
    case 6 => GetDeleted(s)
    case 7 => GetNewFile(codec, s)
    case _ => Fail
  }

  // What the bytes s make of the edit e; None is a corruption.
  function Decode(codec: KeyCodec, s: seq<byte>, e: Edit): Option<Edit>
    decreases |s|
  {
    match GetVarint32(s, 0)
    case Fail => if s == [] then Some(e) else None
    case Got(tag, rest) =>
      match GetItem(codec, tag, rest)
      case Fail => None
      case Got(item, rest') => Decode(codec, rest', item.AddTo(e))
  }

  /* The round trip. */

  lemma StringReads(s: seq<byte>, rest: seq<byte>)
    requires |s| < TWO_32
    ensures GetString(PutString(s) + rest) == Got(s, rest)
  {
    hide EncodeVarint, GetVarint32;
    assert PutString(s) + rest == EncodeVarint(|s|) + (s + rest);
    GetVarint32RoundTrip(|s|, s + rest);
  }

  lemma LevelReads(level: nat, rest: seq<byte>)
    requires level < NUM_LEVELS
    ensures GetLevel(EncodeVarint(level) + rest) == Got(level, rest)
  {
    hide EncodeVarint, GetVarint32;
    GetVarint32RoundTrip(level, rest);
  }

  lemma PointerReads(codec: KeyCodec, level: nat, key: InternalKey, rest: seq<byte>)
    requires codec.Stores(key) && level < NUM_LEVELS
    ensures GetPointer(codec, EncodeVarint(level) + PutString(codec.encode(key)) + rest) == Got(CompactPointer(level, key), rest)
  {
    hide EncodeVarint, GetString, PutString, GetLevel;
    var l, k := EncodeVarint(level), PutString(codec.encode(key));
    assert l + k + rest == l + (k + rest);
    LevelReads(level, k + rest);
    StringReads(codec.encode(key), rest);
  }

  lemma DeletedReads(level: nat, number: nat, rest: seq<byte>)
    requires level < NUM_LEVELS && number < TWO_64
    ensures GetDeleted(EncodeVarint(level) + EncodeVarint(number) + rest) == Got(DeletedFile(level, number), rest)
  {
    hide EncodeVarint, GetLevel, DecodeVarint;
    var l, n := EncodeVarint(level), EncodeVarint(number);
    assert l + n + rest == l + (n + rest);
    LevelReads(level, n + rest);
    VarintRoundTrip(number, rest);
  }

  lemma NewFileReads(codec: KeyCodec, level: nat, f: FileMeta, rest: seq<byte>)
    requires NewFile(level, f).Fits(codec)
    ensures GetNewFile(codec, Payload(codec, NewFile(level, f)) + rest) == Got(NewFile(level, f), rest)
  {
    hide EncodeVarint, GetString, PutString, GetLevel, DecodeVarint;
    var l, n, z := EncodeVarint(level), EncodeVarint(f.number), EncodeVarint(f.fileSize);
    var a, b := PutString(codec.encode(f.smallest)), PutString(codec.encode(f.largest));
    assert l + n + z + a + b + rest == l + (n + (z + (a + (b + rest))));
    LevelReads(level, n + (z + (a + (b + rest))));
    VarintRoundTrip(f.number, z + (a + (b + rest)));
    VarintRoundTrip(f.fileSize, a + (b + rest));
    StringReads(codec.encode(f.smallest), b + rest);
    StringReads(codec.encode(f.largest), rest);
  }

  lemma ItemReads(codec: KeyCodec, item: Item, rest: seq<byte>)
    requires item.Fits(codec)
    ensures GetItem(codec, item.Tag(), Payload(codec, item) + rest) == Got(item, rest)
  {
    hide EncodeVarint, DecodeVarint, PutString, GetString, GetPointer, GetDeleted, GetNewFile;
    match item {
      case Comparator(name) => StringReads(name, rest);
      case CompactPointer(level, key) => PointerReads(codec, level, key, rest);
      case DeletedFile(level, number) => DeletedReads(level, number, rest);
      case NewFile(level, f) => NewFileReads(codec, level, f, rest);
      case LogNumber(n) => VarintRoundTrip(n, rest);
      case PrevLogNumber(n) => VarintRoundTrip(n, rest);
      case NextFileNumber(n) => VarintRoundTrip(n, rest);
      case LastSequence(n) => VarintRoundTrip(n, rest);
    }
  }

  function AddAll(e: Edit, items: seq<Item>): Edit {
    if items == [] then e else items[|items| - 1].AddTo(AddAll(e, items[..|items| - 1]))
  }

  // Reading entries and then the rest is reading the rest into what they make.
  lemma {:induction false} ItemsRead(codec: KeyCodec, items: seq<Item>, rest: seq<byte>, e: Edit)
    requires forall i :: 0 <= i < |items| ==> items[i].Fits(codec)
    ensures Decode(codec, EncodeItems(codec, items) + rest, e) == Decode(codec, rest, AddAll(e, items))
    decreases |items|
  {
    hide EncodeVarint, GetVarint32, Payload, GetItem, Decode, EncodeItem;
    if items == [] {
      assert EncodeItems(codec, items) + rest == rest;
    } else {
      var n := |items| - 1;
      ItemsRead(codec, items[..n], EncodeItem(codec, items[n]) + rest, e);
      assert EncodeItems(codec, items) + rest == EncodeItems(codec, items[..n]) + (EncodeItem(codec, items[n]) + rest);
      OneRead(codec, items[n], rest, AddAll(e, items[..n]));
    }
  }

  lemma OneRead(codec: KeyCodec, item: Item, rest: seq<byte>, e: Edit)
    requires item.Fits(codec)
    ensures Decode(codec, EncodeItem(codec, item) + rest, e) == Decode(codec, rest, item.AddTo(e))
  {
    hide EncodeVarint, GetVarint32, Payload, GetItem;
    var body := Payload(codec, item) + rest;
    assert EncodeItem(codec, item) + rest == EncodeVarint(item.Tag()) + body;
    GetVarint32RoundTrip(item.Tag(), body);
    ItemReads(codec, item, rest);
  }

  lemma {:induction false} AddAllConcat(e: Edit, a: seq<Item>, b: seq<Item>)
    ensures AddAll(e, a + b) == AddAll(AddAll(e, a), b)
  {
    if b == [] {
      assert a + b == a;
    } else {
      AddAllConcat(e, a, b[..|b| - 1]);
      assert (a + b)[..|a + b| - 1] == a + b[..|b| - 1];
    }
  }

  lemma {:induction false} AddPointers(e: Edit, ps: seq<(nat, InternalKey)>)
    ensures AddAll(e, Pointers(ps)) == e.(compactPointers := e.compactPointers + ps)
  {
    if ps == [] {
    } else {
      var n := |ps| - 1;
      AddPointers(e, ps[..n]);
      assert Pointers(ps)[..n] == Pointers(ps[..n]);
      assert ps == ps[..n] + [(ps[n].0, ps[n].1)];
    }
  }

  lemma {:induction false} AddDeletions(e: Edit, ds: seq<(nat, nat)>)
    ensures AddAll(e, Deletions(ds)) == e.(deleted := e.deleted + set d | d in ds)
  {
    if ds == [] {
      assert (set d | d in ds) == {};
    } else {
      var n := |ds| - 1;
      AddDeletions(e, ds[..n]);
      assert Deletions(ds)[..n] == Deletions(ds[..n]);
      assert (set d | d in ds) == (set d | d in ds[..n]) + {(ds[n].0, ds[n].1)};
    }
  }

  lemma {:induction false} AddAdditions(e: Edit, fs: seq<(nat, FileMeta)>)
    ensures AddAll(e, Additions(fs)) == e.(newFiles := e.newFiles + fs)
  {
    if fs == [] {
    } else {
      var n := |fs| - 1;
      AddAdditions(e, fs[..n]);
      assert Additions(fs)[..n] == Additions(fs[..n]);
      assert fs == fs[..n] + [(fs[n].0, fs[n].1)];
    }
  }

  function Or<T>(a: Option<T>, b: Option<T>): Option<T> {
    if a.Some? then a else b
  }

  lemma AddOne(e: Edit, a: seq<Item>, b: seq<Item>)
    requires |b| <= 1
    ensures AddAll(e, a + b) == if b == [] then AddAll(e, a) else b[0].AddTo(AddAll(e, a))
  {
    AddAllConcat(e, a, b);
  }

  lemma AddScalars(e: Edit, d: Edit)
    ensures AddAll(e, Scalars(d)) == Edit(
              Or(d.comparator, e.comparator), Or(d.logNumber, e.logNumber), Or(d.prevLogNumber, e.prevLogNumber),
              Or(d.nextFile, e.nextFile), Or(d.lastSequence, e.lastSequence),
              e.compactPointers, e.deleted, e.newFiles)
  {
    var c := if d.comparator.Some? then [Comparator(d.comparator.value)] else [];
    var l := if d.logNumber.Some? then [LogNumber(d.logNumber.value)] else [];
    var p := if d.prevLogNumber.Some? then [PrevLogNumber(d.prevLogNumber.value)] else [];
    var f := if d.nextFile.Some? then [NextFileNumber(d.nextFile.value)] else [];
    var s := if d.lastSequence.Some? then [LastSequence(d.lastSequence.value)] else [];
    assert AddAll(e, []) == e;
    assert [] + c == c;
    AddOne(e, [], c);
    AddOne(e, c, l);
    AddOne(e, c + l, p);
    AddOne(e, c + l + p, f);
    AddOne(e, c + l + p + f, s);
  }

  // What reading the record of edit d makes of an edit that is not fresh.
  function Onto(e: Edit, d: Edit): Edit {
    Edit(Or(d.comparator, e.comparator), Or(d.logNumber, e.logNumber), Or(d.prevLogNumber, e.prevLogNumber),
         Or(d.nextFile, e.nextFile), Or(d.lastSequence, e.lastSequence),
         e.compactPointers + d.compactPointers, e.deleted + d.deleted, e.newFiles + d.newFiles)
  }

  lemma DecodeInvertsEncodeOnto(codec: KeyCodec, d: Edit, order: seq<(nat, nat)>, e: Edit)
    requires d.Fits(codec) && Lists(order, d.deleted)
    ensures Decode(codec, EncodeItems(codec, Items(d, order)), e) == Some(Onto(e, d))
  {
    hide EncodeItems, GetItem, AddAll, Scalars;
    var items := Items(d, order);
    var s, p, r, a := Scalars(d), Pointers(d.compactPointers), Deletions(order), Additions(d.newFiles);
    ItemsFit(codec, d, order);
    ItemsRead(codec, items, [], e);
    assert EncodeItems(codec, items) + [] == EncodeItems(codec, items);
    AddAllConcat(e, s + p + r, a);
    AddAllConcat(e, s + p, r);
    AddAllConcat(e, s, p);
    AddScalars(e, d);
    AddPointers(AddAll(e, s), d.compactPointers);
    AddDeletions(AddAll(e, s + p), order);
    AddAdditions(AddAll(e, s + p + r), d.newFiles);
    assert (set x | x in order) == d.deleted;
    assert GetVarint32([], 0) == Fail;
  }

  lemma ItemsFit(codec: KeyCodec, d: Edit, order: seq<(nat, nat)>)
    requires d.Fits(codec) && Lists(order, d.deleted)
    ensures forall i :: 0 <= i < |Items(d, order)| ==> Items(d, order)[i].Fits(codec)
  {
    ScalarsFit(codec, d);
    forall i | 0 <= i < |order| ensures Deletions(order)[i].Fits(codec) {
      assert order[i] in d.deleted;
    }
    forall i | 0 <= i < |d.newFiles| ensures Additions(d.newFiles)[i].Fits(codec) {
      assert d.newFiles[i] in d.newFiles;
    }
    forall i | 0 <= i < |d.compactPointers| ensures Pointers(d.compactPointers)[i].Fits(codec) {
      assert d.compactPointers[i] in d.compactPointers;
    }
  }

  lemma ScalarsFit(codec: KeyCodec, d: Edit)
    requires d.Fits(codec)
    ensures forall i :: 0 <= i < |Scalars(d)| ==> Scalars(d)[i].Fits(codec)
  {
  }

  // A fresh edit reads back what was written.
  lemma EditRoundTrip(codec: KeyCodec, d: Edit, order: seq<(nat, nat)>)
    requires d.Fits(codec) && Lists(order, d.deleted)
    ensures Decode(codec, EncodeItems(codec, Items(d, order)), EMPTY) == Some(d)
  {
    DecodeInvertsEncodeOnto(codec, d, order, EMPTY);
    assert Onto(EMPTY, d) == d;
  }

  // The compaction pointers are the one field the decoder does not clear: an
  // edit object reads a record back exactly when it holds none of them.
  lemma ReusedEditReadsBackIff(codec: KeyCodec, d: Edit, order: seq<(nat, nat)>, pointers: seq<(nat, InternalKey)>)
    requires d.Fits(codec) && Lists(order, d.deleted)
    ensures Decode(codec, EncodeItems(codec, Items(d, order)), EMPTY.(compactPointers := pointers)) == Some(d)
       <==> pointers == []
  {
    hide EncodeItems, Items, Decode, Edit.Fits, Lists;
    DecodeInvertsEncodeOnto(codec, d, order, EMPTY.(compactPointers := pointers));
    assert Onto(EMPTY.(compactPointers := pointers), d) == d.(compactPointers := pointers + d.compactPointers);
    assert [] + d.compactPointers == d.compactPointers;
    assert |pointers + d.compactPointers| == |pointers| + |d.compactPointers|;
  }

  /* The object. */

  class VersionEdit {
    var comparator: Option<seq<byte>>
    var logNumber: Option<nat>
    var prevLogNumber: Option<nat>
    var nextFile: Option<nat>
    var lastSequence: Option<nat>
    var compactPointers: seq<(nat, InternalKey)>
    var deletedFiles: set<(nat, nat)>
    var newFiles: seq<(nat, FileMeta)>

    function Contents(): Edit
      reads this
    {
      Edit(comparator, logNumber, prevLogNumber, nextFile, lastSequence, compactPointers, deletedFiles, newFiles)
    }

    constructor ()
      ensures Contents() == EMPTY
    {
      comparator, logNumber, prevLogNumber, nextFile, lastSequence := None, None, None, None, None;
      compactPointers, deletedFiles, newFiles := [], {}, [];
    }

    method Clear()
      modifies this
      ensures Contents() == EMPTY.(compactPointers := old(compactPointers))
    {
      comparator, logNumber, prevLogNumber, nextFile, lastSequence := None, None, None, None, None;
      deletedFiles, newFiles := {}, [];
    }

    static method Put(codec: KeyCodec, dst: seq<byte>, item: Item, ghost items: seq<Item>)
      returns (dst': seq<byte>, ghost items': seq<Item>)
      requires dst == EncodeItems(codec, items)
      ensures dst' == EncodeItems(codec, items') && items' == items + [item]
    {
      dst', items' := dst + EncodeItem(codec, item), items + [item];
      assert items'[..|items|] == items;
    }

    method EncodeScalars(codec: KeyCodec) returns (dst: seq<byte>, ghost items: seq<Item>)
      ensures items == Scalars(Contents()) && dst == EncodeItems(codec, items)
    {
      hide EncodeItems, EncodeItem;
      EncodeNothing(codec);
      dst, items := [], [];
      if comparator.Some? { dst, items := Put(codec, dst, Comparator(comparator.value), items); }
      if logNumber.Some? { dst, items := Put(codec, dst, LogNumber(logNumber.value), items); }
      if prevLogNumber.Some? { dst, items := Put(codec, dst, PrevLogNumber(prevLogNumber.value), items); }
      if nextFile.Some? { dst, items := Put(codec, dst, NextFileNumber(nextFile.value), items); }
      if lastSequence.Some? { dst, items := Put(codec, dst, LastSequence(lastSequence.value), items); }
    }

    // `order` is the order in which the set of deleted files was walked.
    method EncodeTo(codec: KeyCodec) returns (dst: seq<byte>, ghost order: seq<(nat, nat)>)
      ensures Lists(order, deletedFiles)
      ensures dst == EncodeItems(codec, Items(Contents(), order))
    {
      hide EncodeItems, EncodeItem;
      ghost var items: seq<Item>;
      dst, items := EncodeScalars(codec);
      order := [];
      ghost var head := items;
      var i := 0;
      while i < |compactPointers|
        invariant 0 <= i <= |compactPointers|
        invariant items == head + Pointers(compactPointers)[..i]
        invariant dst == EncodeItems(codec, items)
      {
        var item := CompactPointer(compactPointers[i].0, compactPointers[i].1);
        dst, items := Put(codec, dst, item, items);
        i := i + 1;
      }
      assert Pointers(compactPointers)[..i] == Pointers(compactPointers);
      head := items;
      var left := deletedFiles;
      while left != {}
        invariant left <= deletedFiles
        invariant forall d :: d in order <==> d in deletedFiles - left
        invariant items == head + Deletions(order)
        invariant dst == EncodeItems(codec, items)
        decreases |left|
      {
        var d :| d in left;
        var item := DeletedFile(d.0, d.1);
        dst, items := Put(codec, dst, item, items);
        left, order := left - {d}, order + [d];
      }
      head := items;
      i := 0;
      while i < |newFiles|
        invariant 0 <= i <= |newFiles|
        invariant items == head + Additions(newFiles)[..i]
        invariant dst == EncodeItems(codec, items)
      {
        var item := NewFile(newFiles[i].0, newFiles[i].1);
        dst, items := Put(codec, dst, item, items);
        i := i + 1;
      }
      assert Additions(newFiles)[..i] == Additions(newFiles);
      assert items == Items(Contents(), order);
    }

    method Add(item: Item)
      modifies this
      ensures Contents() == item.AddTo(old(Contents()))
    {
      match item {
        case Comparator(name) => comparator := Some(name);
        case LogNumber(n) => logNumber := Some(n);
        case PrevLogNumber(n) => prevLogNumber := Some(n);
        case NextFileNumber(n) => nextFile := Some(n);
        case LastSequence(n) => lastSequence := Some(n);
        case CompactPointer(level, key) => compactPointers := compactPointers + [(level, key)];
        case DeletedFile(level, number) => deletedFiles := deletedFiles + {(level, number)};
        case NewFile(level, file) => newFiles := newFiles + [(level, file)];
      }
    }

    method DecodeFrom(codec: KeyCodec, src: seq<byte>) returns (ok: bool)
      modifies this
      ensures var read := Decode(codec, src, EMPTY.(compactPointers := old(compactPointers)));
        ok == read.Some? && (ok ==> Contents() == read.value)
    {
      hide GetVarint32, GetItem;
      Clear();
      var input := src;
      var failed := false;
      while !failed && GetVarint32(input, 0).Got?
        invariant !failed ==> Decode(codec, input, Contents()) == Decode(codec, src, EMPTY.(compactPointers := old(compactPointers)))
        invariant failed ==> Decode(codec, src, EMPTY.(compactPointers := old(compactPointers))) == None
        decreases if failed then 0 else 1, |input|
      {
        var tag := GetVarint32(input, 0);
        var item := GetItem(codec, tag.value, tag.rest);
        if item.Got? {
          Add(item.value);
          input := item.rest;
        } else {
          failed := true;
        }
      }
      ok := !failed && input == [];
    }
  }
}
