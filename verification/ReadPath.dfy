// How the parts of a read fit together: bytes of a block, entries of a table,
// the search of the levels, and the iterators.  Each lemma lets the contract of
// one part stand for what the next part assumes.

module ReadPath {
  import opened Wrappers
  import opened Coding
  import opened Varint
  import opened Comparators
  import opened DbFormat
  import opened InternalIterator
  import opened StoredKeys
  import opened LevelLookup
  import FilterBlock
  import Tables
  import BlockFormat
  import BlockCode
  import Merger
  import TwoLevel

  /* From the bytes of a block to its entries. */

  function SplitKey(s: seq<byte>): ByteKey
    requires |s| >= 8
  {
    ByteKey(s[..|s| - 8], DecodeFixed64(s[|s| - 8..]))
  }

  // InternalKeyComparator on encoded keys; strings too short to be one, which
  // the store never holds, come first.
  predicate BytesLess(a: seq<byte>, b: seq<byte>) {
    if |a| < 8 || |b| < 8 then |a| < 8 && (|b| >= 8 || Below(a, b))
    else KeyLess(SplitKey(a), SplitKey(b))
  }

  lemma Fixed32Inverts(s: seq<byte>)
    requires |s| == 4
    ensures EncodeFixed32(DecodeFixed32(s)) == s
  {
    var a, b, c, d := s[0], s[1], s[2], s[3];
    var high := c as int + 256 * d as int;
    var middle := b as int + 256 * high;
    var v := DecodeFixed32(s);
    assert v == a as int + 256 * middle;
    assert v / 256 == middle && middle / 256 == high && high / 256 == d as int;
    assert v / 0x1_0000 == high && v / 0x100_0000 == d as int;
  }

  lemma Fixed64Inverts(s: seq<byte>)
    requires |s| == 8
    ensures EncodeFixed64(DecodeFixed64(s)) == s
  {
    hide EncodeFixed32, DecodeFixed32;
    Fixed32Inverts(s[..4]);
    Fixed32Inverts(s[4..]);
    FirstWord(s);
    assert s == s[..4] + s[4..];
  }

  lemma FirstWord(s: seq<byte>)
    requires |s| >= 4
    ensures DecodeFixed32(s) == DecodeFixed32(s[..4])
  {
  }

  lemma SplitIsOneToOne(a: seq<byte>, b: seq<byte>)
    requires |a| >= 8 && |b| >= 8 && SplitKey(a) == SplitKey(b)
    ensures a == b
  {
    hide EncodeFixed64, DecodeFixed64;
    Fixed64Inverts(a[|a| - 8..]);
    Fixed64Inverts(b[|b| - 8..]);
    assert a == a[..|a| - 8] + a[|a| - 8..] && b == b[..|b| - 8] + b[|b| - 8..];
  }

  lemma SplitInvertsKeyBytes(k: ByteKey)
    requires k.tag < TWO_64
    ensures |KeyBytes(k)| >= 8 && SplitKey(KeyBytes(k)) == k
  {
    hide EncodeFixed64, DecodeFixed64;
    Fixed64RoundTrip(k.tag, []);
    assert EncodeFixed64(k.tag) + [] == EncodeFixed64(k.tag);
    assert KeyBytes(k)[|k.user|..] == EncodeFixed64(k.tag);
  }

  lemma BytesLessIsOrder()
    ensures BlockFormat.IsOrder(BytesLess)
  {
    hide Below, KeyLess, SplitKey;
    forall a: seq<byte>, b: seq<byte>, c: seq<byte>
      ensures !BytesLess(a, a) && (BytesLess(a, b) && BytesLess(b, c) ==> BytesLess(a, c))
      ensures BytesLess(a, b) || BytesLess(b, a) || a == b
    {
      BelowIsOrder(a, b, c);
      if |a| >= 8 && |b| >= 8 {
        KeyLessIsOrder(SplitKey(a), SplitKey(b), if |c| >= 8 then SplitKey(c) else SplitKey(a));
        if SplitKey(a) == SplitKey(b) { SplitIsOneToOne(a, b); }
      } else if |a| >= 8 {
        KeyLessIsOrder(SplitKey(a), SplitKey(a), SplitKey(a));
      }
    }
  }

  function Stored(es: seq<Tables.TableEntry>): (r: seq<BlockFormat.KeyValue>)
    requires forall e :: e in es ==> e.key.tag < TWO_64
    ensures |r| == |es|
  {
    seq(|es|, i requires 0 <= i < |es| => BlockFormat.KeyValue(KeyBytes(es[i].key), es[i].value))
  }

  lemma StoredSorted(es: seq<Tables.TableEntry>)
    requires Tables.Sorted(es) && forall e :: e in es ==> e.key.tag < TWO_64
    ensures BlockFormat.Sorted(Stored(es), BytesLess)
  {
    hide KeyLess, KeyBytes, SplitKey;
    forall i, j | 0 <= i < j < |es| ensures BytesLess(Stored(es)[i].key, Stored(es)[j].key) {
      assert es[i] in es && es[j] in es;
      SplitInvertsKeyBytes(es[i].key);
      SplitInvertsKeyBytes(es[j].key);
    }
  }

  // Seeking in the bytes of a finished data block finds the entry that a lookup
  // in the decoded block finds.
  method SeekInBlock(contents: seq<byte>, ghost es: seq<Tables.TableEntry>, ghost interval: nat, target: ByteKey)
    returns (found: Option<Tables.TableEntry>)
    requires Tables.Sorted(es) && (forall e :: e in es ==> e.key.tag < TWO_64) && target.tag < TWO_64
    requires BlockFormat.IsBlock(Stored(es), interval, contents)
    ensures var p := Tables.FirstAtLeast(Tables.Keys(es), target);
      found == if p < |es| then Some(es[p]) else None
  {
    hide KeyLess, KeyBytes, SplitKey, BlockFormat.IsBlock, BlockFormat.Sorted, BlockFormat.IsOrder, Tables.Sorted, Tables.FirstAtLeast;
    BytesLessIsOrder();
    StoredSorted(es);
    var iter := new BlockCode.BlockIter(BytesLess, contents, Stored(es), interval);
    iter.Seek(KeyBytes(target));
    iter.ValidMeans();
    BlockSeekIsFirst(es, target, iter.pos);
    if iter.IsValid() {
      ghost var p := iter.pos;
      iter.KeyIs(p);
      assert es[p] in es;
      SplitInvertsKeyBytes(es[p].key);
      found := Some(Tables.TableEntry(SplitKey(iter.key), iter.Value()));
    } else {
      found := None;
    }
  }

  lemma BlockSeekIsFirst(es: seq<Tables.TableEntry>, target: ByteKey, pos: int)
    requires (forall e :: e in es ==> e.key.tag < TWO_64) && target.tag < TWO_64 && -1 <= pos < |es|
    requires forall i :: 0 <= i < (if pos >= 0 then pos else |es|) ==> BytesLess(Stored(es)[i].key, KeyBytes(target))
    requires pos >= 0 ==> !BytesLess(Stored(es)[pos].key, KeyBytes(target))
    ensures Tables.FirstAtLeast(Tables.Keys(es), target) == if pos >= 0 then pos else |es|
  {
    hide KeyLess, KeyBytes, SplitKey, Tables.FirstAtLeast;
    SplitInvertsKeyBytes(target);
    forall i | 0 <= i < |es| ensures BytesLess(Stored(es)[i].key, KeyBytes(target)) <==> KeyLess(Tables.Keys(es)[i], target) {
      assert es[i] in es;
      SplitInvertsKeyBytes(es[i].key);
    }
    if pos >= 0 { Tables.FirstIsThis(Tables.Keys(es), target, pos); } else { Tables.AllBelow(Tables.Keys(es), target); }
  }

  /* From a table of bytes to the ordered entries of a file. */

  predicate WellTagged(k: ByteKey) {
    k.tag / 256 <= MAX_SEQUENCE_NUMBER && k.tag % 256 <= 1
  }

  function LiftKey(k: ByteKey): InternalKey
    requires WellTagged(k)
  {
    KeyOf(k.user, k.tag / 256, if k.tag % 256 == 1 then Value else Deletion)
  }

  function Text(value: seq<byte>): string {
    seq(|value|, i requires 0 <= i < |value| => value[i] as char)
  }

  function Lift(e: Tables.TableEntry): Entry
    requires WellTagged(e.key)
  {
    Entry(LiftKey(e.key), Text(e.value))
  }

  ghost predicate AllTagged(es: seq<Tables.TableEntry>) {
    forall i :: 0 <= i < |es| ==> WellTagged(es[i].key)
  }

  function LiftAll(es: seq<Tables.TableEntry>): (r: seq<Entry>)
    requires AllTagged(es)
    ensures |r| == |es| && forall i :: 0 <= i < |es| ==> r[i] == Lift(es[i])
  {
    seq(|es|, i requires 0 <= i < |es| && AllTagged(es) => Lift(es[i]))
  }

  lemma LiftKeepsOrder(a: ByteKey, b: ByteKey)
    requires WellTagged(a) && WellTagged(b)
    ensures KeyLess(a, b) <==> Less(LiftKey(a), LiftKey(b))
    ensures a.user == b.user <==> LiftKey(a).user == LiftKey(b).user
  {
    hide KeyLess, Less, Rank, Below;
    var (s, k) := (a.tag / 256, if a.tag % 256 == 1 then Value else Deletion);
    var (t, l) := (b.tag / 256, if b.tag % 256 == 1 then Value else Deletion);
    assert Packed(a.user, s, k) == a && Packed(b.user, t, l) == b;
    PackedKeepsOrder(a.user, s, k, b.user, t, l);
    RankKeepsOrder(a.user, b.user);
  }

  lemma SameSearch(es: seq<Tables.TableEntry>, k: ByteKey)
    requires Tables.Sorted(es) && AllTagged(es) && WellTagged(k)
    ensures Sorted(LiftAll(es))
    ensures LowerBound(LiftAll(es), LiftKey(k)) == Tables.FirstAtLeast(Tables.Keys(es), k)
  {
    hide KeyLess, Less, LiftKey, Tables.FirstAtLeast, LowerBound, WellTagged;
    var s, p := LiftAll(es), Tables.FirstAtLeast(Tables.Keys(es), k);
    forall i, j | 0 <= i < j < |s| ensures Less(s[i].ikey, s[j].ikey) {
      assert WellTagged(es[i].key) && WellTagged(es[j].key);
      LiftKeepsOrder(es[i].key, es[j].key);
    }
    forall i | 0 <= i < |s| ensures Less(s[i].ikey, LiftKey(k)) <==> KeyLess(Tables.Keys(es)[i], k) {
      assert WellTagged(es[i].key);
      LiftKeepsOrder(es[i].key, k);
    }
    forall i | 0 <= i < p ensures Less(s[i].ikey, LiftKey(k)) { assert KeyLess(Tables.Keys(es)[i], k); }
    BoundIs(s, LiftKey(k), p);
  }

  lemma LookupKeyLifts(u: Bytes, snap: SequenceNumber)
    ensures WellTagged(Packed(u, snap, Value)) && LiftKey(Packed(u, snap, Value)) == SeekKey(Rank(u), snap)
  {
    hide Rank;
  }

  // TableCache::Get and SaveValue: a lookup in a table's index, filter and
  // blocks answers what the search of the levels assumes of a file's entries.
  method TableGet(t: Tables.Table, policy: FilterBlock.Policy, u: Bytes, snap: SequenceNumber,
                  ghost es: seq<Tables.TableEntry>, ghost bounds: seq<nat>)
    returns (r: Option<Tables.TableEntry>)
    requires Tables.IsTable(t, policy, es, bounds) && AllTagged(es)
    ensures Sorted(LiftAll(es))
    ensures match r
      case None => SeekIn(LiftAll(es), Rank(u), snap) == None
      case Some(e) => WellTagged(e.key) && SeekIn(LiftAll(es), Rank(u), snap) == Some(Lift(e))
  {
    hide Tables.IsTable, Tables.FirstAtLeast, LowerBound, Rank, LiftKey, WellTagged, Packed;
    var k := Packed(u, snap, Value);
    TableIsSorted(t, policy, es, bounds);
    LookupKeyLifts(u, snap);
    SameSearch(es, k);
    PackedUser(u, snap);
    var reported := Tables.InternalGet(t, policy, k, es, bounds);
    ghost var p := Tables.FirstAtLeast(Tables.Keys(es), k);
    if p < |es| {
      assert WellTagged(es[p].key);
      LiftKeepsOrder(es[p].key, k);
    }
    r := if reported.Some? && reported.value.key.user == u then reported else None;
  }

  lemma PackedUser(u: Bytes, snap: SequenceNumber)
    ensures Packed(u, snap, Value).user == u
  {
  }

  lemma TableIsSorted(t: Tables.Table, policy: FilterBlock.Policy, es: seq<Tables.TableEntry>, bounds: seq<nat>)
    requires Tables.IsTable(t, policy, es, bounds)
    ensures Tables.Sorted(es)
  {
  }

  /* From a table to the two-level iterator over it. */

  function LiftIndex(index: seq<Tables.IndexEntry>): (r: seq<TwoLevel.IndexEntry>)
    requires forall i :: 0 <= i < |index| ==> WellTagged(index[i].key)
    ensures |r| == |index|
  {
    seq(|index|, i requires 0 <= i < |index| => TwoLevel.IndexEntry(LiftKey(index[i].key), index[i].handle.offset))
  }

  // The entries of the block a handle names.
  function ReadBlock(t: Tables.Table): nat -> seq<Entry> {
    o => if o in t.blocks && forall i :: 0 <= i < |t.blocks[o]| ==> WellTagged(t.blocks[o][i].key) then LiftAll(t.blocks[o]) else []
  }

  ghost predicate Readable(t: Tables.Table, policy: FilterBlock.Policy, es: seq<Tables.TableEntry>, bounds: seq<nat>) {
    Tables.IsTable(t, policy, es, bounds) && AllTagged(es) && forall i :: 0 <= i < |t.index| ==> WellTagged(t.index[i].key)
  }

  lemma BlockLifts(t: Tables.Table, policy: FilterBlock.Policy, es: seq<Tables.TableEntry>, bounds: seq<nat>, i: nat)
    requires Readable(t, policy, es, bounds) && i < |t.index|
    ensures i + 1 < |bounds| && bounds[i] < bounds[i + 1] <= |es|
    ensures AllTagged(es[bounds[i]..bounds[i + 1]])
    ensures ReadBlock(t)(t.index[i].handle.offset) == LiftAll(es[bounds[i]..bounds[i + 1]])
    ensures LiftIndex(t.index)[i].handle == t.index[i].handle.offset
  {
    hide KeyLess, Separates, Tables.FilterHas, LiftKey, WellTagged;
    assert Tables.BlockOk(t.index, t.blocks, es, bounds, i);
    var block := es[bounds[i]..bounds[i + 1]];
    forall j | 0 <= j < |block| ensures WellTagged(block[j].key) { assert block[j] == es[bounds[i] + j]; }
  }

  lemma LiftConcat(a: seq<Tables.TableEntry>, b: seq<Tables.TableEntry>)
    requires AllTagged(a) && AllTagged(b)
    ensures AllTagged(a + b) && LiftAll(a + b) == LiftAll(a) + LiftAll(b)
  {
    hide Lift, WellTagged;
    forall i | 0 <= i < |a + b| ensures WellTagged((a + b)[i].key) {
      assert (a + b)[i] == if i < |a| then a[i] else b[i - |a|];
    }
  }

  lemma PartTagged(es: seq<Tables.TableEntry>, i: nat, j: nat)
    requires AllTagged(es) && i <= j <= |es|
    ensures AllTagged(es[i..j])
  {
    hide WellTagged;
    forall k | 0 <= k < j - i ensures WellTagged(es[i..j][k].key) { assert es[i..j][k] == es[i + k]; }
  }

  lemma BoundsOf(t: Tables.Table, policy: FilterBlock.Policy, es: seq<Tables.TableEntry>, bounds: seq<nat>)
    requires Readable(t, policy, es, bounds)
    ensures |bounds| == |t.index| + 1 && bounds[0] == 0 && bounds[|t.index|] == |es| && AllTagged(es)
  {
    hide Tables.BlockOk, Tables.FilterHas, Tables.Sorted;
  }

  lemma {:induction false} BlocksAreEntries(t: Tables.Table, policy: FilterBlock.Policy, es: seq<Tables.TableEntry>, bounds: seq<nat>, n: nat)
    requires Readable(t, policy, es, bounds) && n <= |t.index|
    ensures |bounds| == |t.index| + 1 && bounds[n] <= |es| && AllTagged(es[..bounds[n]])
    ensures TwoLevel.Concat(LiftIndex(t.index), ReadBlock(t), n) == LiftAll(es[..bounds[n]])
  {
    hide Readable, Lift, AllTagged, ReadBlock;
    BoundsOf(t, policy, es, bounds);
    if n > 0 {
      BlocksAreEntries(t, policy, es, bounds, n - 1);
      BlockLifts(t, policy, es, bounds, n - 1);
      var a, b := es[..bounds[n - 1]], es[bounds[n - 1]..bounds[n]];
      PartTagged(es, bounds[n - 1], bounds[n]);
      LiftConcat(a, b);
      assert es[..bounds[n]] == a + b;
    } else {
      PartTagged(es, 0, 0);
    }
  }

  // The iterator of a table is a cursor on the table's entries.
  lemma TableIsTwoLevel(t: Tables.Table, policy: FilterBlock.Policy, es: seq<Tables.TableEntry>, bounds: seq<nat>)
    requires Readable(t, policy, es, bounds)
    ensures TwoLevel.Concat(LiftIndex(t.index), ReadBlock(t), |t.index|) == LiftAll(es)
    ensures TwoLevel.Divides(LiftIndex(t.index), ReadBlock(t))
  {
    hide KeyLess, Less, LiftKey, WellTagged, Tables.BlockOk, Tables.FilterHas, ReadBlock, TwoLevel.Concat, Tables.FirstAtLeast, LowerBound;
    var index, read, all := LiftIndex(t.index), ReadBlock(t), LiftAll(es);
    var n := |t.index|;
    BlocksAreEntries(t, policy, es, bounds, n);
    assert es[..bounds[n]] == es;
    LookupKeyLifts([], 0);
    SameSearch(es, Packed([], 0, Value));
    forall i, p | 0 <= i < n && 0 <= p < |all|
      ensures if p < TwoLevel.Start(index, read, i + 1) then !Less(index[i].key, all[p].ikey) else Less(index[i].key, all[p].ikey)
    {
      BlocksAreEntries(t, policy, es, bounds, i + 1);
      assert WellTagged(es[p].key);
      LiftKeepsOrder(t.index[i].key, es[p].key);
      if p < bounds[i + 1] {
        Tables.IndexCovers(t, policy, es, bounds, i, p);
      } else {
        LaterIsAbove(t, policy, es, bounds, i, p);
      }
    }
  }

  lemma LaterIsAbove(t: Tables.Table, policy: FilterBlock.Policy, es: seq<Tables.TableEntry>, bounds: seq<nat>, i: nat, p: nat)
    requires Tables.IsTable(t, policy, es, bounds) && i < |t.index| && i + 1 < |bounds| && bounds[i + 1] <= p < |es|
    ensures KeyLess(t.index[i].key, es[p].key)
  {
    hide KeyLess, Tables.FilterHas;
    assert Tables.BlockOk(t.index, t.blocks, es, bounds, i);
    KeyLessIsOrder(t.index[i].key, es[bounds[i + 1]].key, es[p].key);
  }

  /* From merged children to one sorted list. */

  // An iterator at the position, or nowhere.
  function KeyAt(all: seq<Entry>, pos: int): Option<InternalKey> {
    if 0 <= pos < |all| then Some(all[pos].ikey) else None
  }

  lemma KeyOfEntry(all: seq<Entry>, i: nat)
    requires i < |all|
    ensures all[i].ikey in Merger.Keys(all)
  {
    assert all[i] in all;
  }

  lemma EntryOfKey(all: seq<Entry>, x: InternalKey) returns (i: nat)
    requires x in Merger.Keys(all)
    ensures i < |all| && all[i].ikey == x
  {
    var e :| e in all && e.ikey == x;
    i :| 0 <= i < |all| && all[i] == e;
  }

  // What the merging iterator promises of its moves is what an iterator over
  // the merged list does, so an iterator over users' keys may stand on either.
  lemma MergedSeek(all: seq<Entry>, t: InternalKey, c: Option<InternalKey>)
    requires Sorted(all)
    ensures Merger.IsAtOrAfter(Merger.Keys(all), t, c) <==> c == KeyAt(all, LowerBound(all, t))
  {
    hide Less, LowerBound, Merger.Keys;
    Merger.LowerBoundSplits(all, t);
    AtSplit(all, LowerBound(all, t), t, c);
  }

  lemma SortedAt(all: seq<Entry>, i: nat, j: nat)
    requires Sorted(all) && i < |all| && j < |all|
    ensures Less(all[i].ikey, all[j].ikey) <==> i < j
    ensures all[i].ikey == all[j].ikey <==> i == j
  {
    CompareIsTotalOrder(all[i].ikey, all[j].ikey, all[i].ikey);
  }

  // The least key of the later part of a list.
  lemma AtSplit(all: seq<Entry>, n: nat, t: InternalKey, c: Option<InternalKey>)
    requires Sorted(all) && Merger.SplitsAt(all, n, t)
    ensures Merger.IsAtOrAfter(Merger.Keys(all), t, c) <==> c == KeyAt(all, n)
  {
    hide Less, Merger.Keys, Sorted;
    forall x | x in Merger.Keys(all) ensures !Less(x, t) ==> n < |all| && !Less(x, all[n].ikey) {
      var i := EntryOfKey(all, x);
      if n <= i { SortedAt(all, i, n); }
    }
    if n < |all| { KeyOfEntry(all, n); }
    if c.Some? && c.value in Merger.Keys(all) && n < |all| {
      var j := EntryOfKey(all, c.value);
      SortedAt(all, n, j);
    }
  }

  lemma MergedNext(all: seq<Entry>, pos: nat, c: Option<InternalKey>)
    requires Sorted(all) && pos < |all|
    ensures Merger.IsAfter(Merger.Keys(all), all[pos].ikey, c) <==> c == KeyAt(all, pos + 1)
  {
    hide Less, Merger.Keys, Sorted;
    forall x | x in Merger.Keys(all) ensures Less(all[pos].ikey, x) ==> pos + 1 < |all| && !Less(x, all[pos + 1].ikey) {
      var i := EntryOfKey(all, x);
      SortedAt(all, pos, i);
      if pos + 1 < |all| { SortedAt(all, i, pos + 1); }
    }
    if pos + 1 < |all| {
      KeyOfEntry(all, pos + 1);
      SortedAt(all, pos, pos + 1);
    }
    if c.Some? && c.value in Merger.Keys(all) {
      var j := EntryOfKey(all, c.value);
      SortedAt(all, pos, j);
      if pos + 1 < |all| { SortedAt(all, pos + 1, j); }
    }
  }

  lemma MergedPrev(all: seq<Entry>, pos: nat, c: Option<InternalKey>)
    requires Sorted(all) && pos < |all|
    ensures Merger.IsBefore(Merger.Keys(all), all[pos].ikey, c) <==> c == KeyAt(all, pos - 1)
  {
    hide Less, Merger.Keys, Sorted;
    forall x | x in Merger.Keys(all) ensures Less(x, all[pos].ikey) ==> pos > 0 && !Less(all[pos - 1].ikey, x) {
      var i := EntryOfKey(all, x);
      SortedAt(all, i, pos);
      if pos > 0 { SortedAt(all, pos - 1, i); }
    }
    if pos > 0 {
      KeyOfEntry(all, pos - 1);
      SortedAt(all, pos - 1, pos);
    }
    if c.Some? && c.value in Merger.Keys(all) {
      var j := EntryOfKey(all, c.value);
      SortedAt(all, j, pos);
      if pos > 0 { SortedAt(all, j, pos - 1); }
    }
  }

  lemma MergedEnds(all: seq<Entry>, c: Option<InternalKey>)
    requires Sorted(all)
    ensures Merger.IsLeast(Merger.Keys(all), c) <==> c == KeyAt(all, 0)
    ensures Merger.IsGreatest(Merger.Keys(all), c) <==> c == KeyAt(all, |all| - 1)
  {
    hide Less, Merger.Keys, Sorted;
    var n := |all| - 1;
    forall x | x in Merger.Keys(all) ensures n >= 0 && !Less(x, all[0].ikey) && !Less(all[n].ikey, x) {
      var i := EntryOfKey(all, x);
      SortedAt(all, i, 0);
      SortedAt(all, n, i);
    }
    if n >= 0 {
      KeyOfEntry(all, 0);
      KeyOfEntry(all, n);
    }
    if c.Some? && c.value in Merger.Keys(all) {
      var j := EntryOfKey(all, c.value);
      SortedAt(all, 0, j);
      SortedAt(all, j, n);
    }
  }
}
