// Building a table and looking a key up in it (table/table_builder.cc,
// table/table.cc).  Blocks are kept decoded: that a finished block decodes to
// its entries, and that Seek in it finds the first key at or after a target,
// is BlockCode's subject.

module Tables {
  import opened Wrappers
  import opened Coding
  import opened Varint
  import opened Comparators
  import opened FilterBlock

  datatype TableEntry = TableEntry(key: ByteKey, value: seq<byte>)

  datatype Handle = Handle(offset: nat, size: nat)

  datatype IndexEntry = IndexEntry(key: ByteKey, handle: Handle)

  // The parts of a finished file that a lookup uses.
  datatype Table = Table(index: seq<IndexEntry>, blocks: map<nat, seq<TableEntry>>, filter: Option<seq<byte>>)

  const BLOCK_TRAILER_SIZE: nat := 5

  ghost predicate Sorted(es: seq<TableEntry>) {
    forall i, j :: 0 <= i < j < |es| ==> KeyLess(es[i].key, es[j].key)
  }

  /* How the index divides the entries. */

  // The i-th block holds the entries from bounds[i] to bounds[i + 1].
  ghost predicate BoundsOk(bounds: seq<nat>, n: nat) {
    && |bounds| > 0 && bounds[0] == 0 && bounds[|bounds| - 1] <= n
    && forall i, j :: 0 <= i < j < |bounds| ==> bounds[i] < bounds[j]
  }

  ghost predicate BlockOk(index: seq<IndexEntry>, blocks: map<nat, seq<TableEntry>>, es: seq<TableEntry>, bounds: seq<nat>, i: nat)
    requires BoundsOk(bounds, |es|) && i + 1 < |bounds| && i < |index|
  {
    && BoundsOk(bounds, |es|) && bounds[i] < bounds[i + 1] <= |es|
    && index[i].handle.offset in blocks && blocks[index[i].handle.offset] == es[bounds[i]..bounds[i + 1]]
    && !KeyLess(index[i].key, es[bounds[i + 1] - 1].key)
    && (bounds[i + 1] < |es| ==> Separates(index[i].key, es[bounds[i + 1] - 1].key, es[bounds[i + 1]].key))
  }

  // The keys of a block were given to the filter under the block's offset.
  ghost predicate Filtered(added: set<(nat, Bytes)>, offset: nat, es: seq<TableEntry>) {
    forall i :: 0 <= i < |es| ==> (offset, es[i].key.user) in added
  }

  ghost predicate FilterHas(policy: Policy, filter: seq<byte>, offset: nat, es: seq<TableEntry>) {
    forall i :: 0 <= i < |es| ==> MayMatch(policy, filter, offset, es[i].key.user)
  }

  // A table of the entries.
  ghost predicate IsTable(t: Table, policy: Policy, es: seq<TableEntry>, bounds: seq<nat>) {
    && Sorted(es) && BoundsOk(bounds, |es|) && bounds[|bounds| - 1] == |es| && |t.index| + 1 == |bounds|
    && (forall i :: 0 <= i < |t.index| ==> BlockOk(t.index, t.blocks, es, bounds, i))
    && (t.filter.Some? ==> forall i :: 0 <= i < |t.index| ==>
          FilterHas(policy, t.filter.value, t.index[i].handle.offset, es[bounds[i]..bounds[i + 1]]))
  }

  /* Lookup. */

  // Block::Iter::Seek: the first key at or after the target.
  function FirstAtLeast(keys: seq<ByteKey>, k: ByteKey): (r: nat)
    ensures r <= |keys|
    ensures forall i :: 0 <= i < r ==> KeyLess(keys[i], k)
    ensures r < |keys| ==> !KeyLess(keys[r], k)
  {
    if keys == [] || !KeyLess(keys[0], k) then 0 else 1 + FirstAtLeast(keys[1..], k)
  }

  function Keys(es: seq<TableEntry>): (r: seq<ByteKey>)
    ensures |r| == |es| && forall i :: 0 <= i < |es| ==> r[i] == es[i].key
  {
    seq(|es|, i requires 0 <= i < |es| => es[i].key)
  }

  function IndexKeys(index: seq<IndexEntry>): (r: seq<ByteKey>)
    ensures |r| == |index| && forall i :: 0 <= i < |index| ==> r[i] == index[i].key
  {
    seq(|index|, i requires 0 <= i < |index| => index[i].key)
  }

  // Table::InternalGet: the entry handed to handle_result, if any.
  method InternalGet(t: Table, policy: Policy, k: ByteKey, ghost es: seq<TableEntry>, ghost bounds: seq<nat>)
    returns (reported: Option<TableEntry>)
    requires IsTable(t, policy, es, bounds)
    ensures var p := FirstAtLeast(Keys(es), k);
      && (reported.Some? ==> p < |es| && reported.value == es[p])
      && (reported.None? ==> p == |es| || es[p].key.user != k.user)
  {
    hide KeyLess, MayMatch, FilterHas, BoundsOk, Sorted, Separates;
    var i := FirstAtLeast(IndexKeys(t.index), k);
    if i == |t.index| {
      NoBlockHas(t, policy, es, bounds, k);
      return None;
    }
    assert BlockOk(t.index, t.blocks, es, bounds, i);
    var handle := t.index[i].handle;
    var block := t.blocks[handle.offset];
    var j := FirstAtLeast(Keys(block), k);
    OnlyThisBlock(t, policy, es, bounds, k, i, j);
    if t.filter.Some? {
      var filter := new FilterBlockReader(policy, t.filter.value);
      var may := filter.KeyMayMatch(handle.offset, k.user);
      if !may {
        return None;
      }
    }
    return if j < |block| then Some(block[j]) else None;
  }

  lemma BoundsGrow(bounds: seq<nat>, n: nat, i: nat)
    requires BoundsOk(bounds, n) && i + 1 < |bounds|
    ensures bounds[i] < bounds[i + 1] <= n
  {
    if i + 1 < |bounds| - 1 { assert bounds[i + 1] < bounds[|bounds| - 1]; }
  }

  // Every key up to the end of a block is at or below the block's index key.
  lemma IndexCovers(t: Table, policy: Policy, es: seq<TableEntry>, bounds: seq<nat>, i: nat, p: nat)
    requires IsTable(t, policy, es, bounds) && i < |t.index| && p < bounds[i + 1]
    ensures p < |es| && !KeyLess(t.index[i].key, es[p].key)
  {
    hide KeyLess, Filtered, FilterHas, Separates;
    BoundsGrow(bounds, |es|, i);
    assert BlockOk(t.index, t.blocks, es, bounds, i);
    var last := bounds[i + 1] - 1;
    KeyLessIsOrder(t.index[i].key, es[p].key, es[last].key);
  }

  lemma PastEnd(t: Table, policy: Policy, es: seq<TableEntry>, bounds: seq<nat>, i: nat, p: nat, k: ByteKey)
    requires IsTable(t, policy, es, bounds) && i < |t.index| && p < bounds[i + 1] && KeyLess(t.index[i].key, k)
    ensures p < |es| && KeyLess(es[p].key, k)
  {
    hide KeyLess, IsTable;
    IndexCovers(t, policy, es, bounds, i, p);
    KeyLessIsOrder(t.index[i].key, k, es[p].key);
  }

  lemma NoBlockHas(t: Table, policy: Policy, es: seq<TableEntry>, bounds: seq<nat>, k: ByteKey)
    requires IsTable(t, policy, es, bounds) && FirstAtLeast(IndexKeys(t.index), k) == |t.index|
    ensures FirstAtLeast(Keys(es), k) == |es|
  {
    hide KeyLess, FirstAtLeast;
    var n := |t.index|;
    forall q | 0 <= q < |es| ensures KeyLess(Keys(es)[q], k) {
      assert IndexKeys(t.index)[n - 1] == t.index[n - 1].key;
      PastEnd(t, policy, es, bounds, n - 1, q, k);
    }
    AllBelow(Keys(es), k);
  }

  lemma AllBelow(keys: seq<ByteKey>, k: ByteKey)
    requires forall q :: 0 <= q < |keys| ==> KeyLess(keys[q], k)
    ensures FirstAtLeast(keys, k) == |keys|
  {
    hide FirstAtLeast, KeyLess;
    var r := FirstAtLeast(keys, k);
    assert |keys| <= r;
  }

  // The first block whose index key is at or after k: what seeking in it finds
  // is the first entry of the table at or after k, and what the search misses
  // has another user key.
  lemma OnlyThisBlock(t: Table, policy: Policy, es: seq<TableEntry>, bounds: seq<nat>, k: ByteKey, i: nat, j: nat)
    requires IsTable(t, policy, es, bounds) && i == FirstAtLeast(IndexKeys(t.index), k) < |t.index|
    requires BlockOk(t.index, t.blocks, es, bounds, i)
    requires j == FirstAtLeast(Keys(t.blocks[t.index[i].handle.offset]), k)
    ensures var p, block := FirstAtLeast(Keys(es), k), t.blocks[t.index[i].handle.offset];
      if j < |block| then
        && p < |es| && es[p] == block[j]
        && (t.filter.Some? && k.user == es[p].key.user ==> MayMatch(policy, t.filter.value, t.index[i].handle.offset, k.user))
      else p == |es| || es[p].key.user != k.user
  {
    hide KeyLess, FirstAtLeast, MayMatch, Separates;
    var block := t.blocks[t.index[i].handle.offset];
    var p := bounds[i] + j;
    forall q | 0 <= q < bounds[i] ensures KeyLess(es[q].key, k) {
      if i > 0 {
        assert IndexKeys(t.index)[i - 1] == t.index[i - 1].key;
        PastEnd(t, policy, es, bounds, i - 1, q, k);
      }
    }
    forall q | 0 <= q < p ensures KeyLess(Keys(es)[q], k) {
      if q >= bounds[i] {
        assert block[q - bounds[i]] == es[q];
        assert KeyLess(Keys(block)[q - bounds[i]], k);
      }
    }
    if j < |block| {
      assert block[j] == es[p];
      assert !KeyLess(Keys(block)[j], k);
      FirstIsThis(Keys(es), k, p);
      if t.filter.Some? {
        assert FilterHas(policy, t.filter.value, t.index[i].handle.offset, es[bounds[i]..bounds[i + 1]]);
      }
    } else {
      NextBlock(t, policy, es, bounds, k, i);
    }
  }

  lemma FirstIsThis(keys: seq<ByteKey>, k: ByteKey, p: nat)
    requires p < |keys| && !KeyLess(keys[p], k) && forall q :: 0 <= q < p ==> KeyLess(keys[q], k)
    ensures FirstAtLeast(keys, k) == p
  {
    hide FirstAtLeast, KeyLess;
    var r := FirstAtLeast(keys, k);
    assert r <= p;
    assert p <= r;
  }

  // k lies in the gap between the last key of a block and the block's index key.
  lemma NextBlock(t: Table, policy: Policy, es: seq<TableEntry>, bounds: seq<nat>, k: ByteKey, i: nat)
    requires IsTable(t, policy, es, bounds) && i < |t.index| && bounds[i + 1] <= |es|
    requires BlockOk(t.index, t.blocks, es, bounds, i) && !KeyLess(t.index[i].key, k)
    requires forall q :: 0 <= q < bounds[i + 1] ==> KeyLess(Keys(es)[q], k)
    ensures var p := FirstAtLeast(Keys(es), k); p == |es| || es[p].key.user != k.user
  {
    hide FirstAtLeast, Below, FilterHas;
    var p, next, sep := FirstAtLeast(Keys(es), k), bounds[i + 1], t.index[i].key;
    var last := es[next - 1].key;
    assert Keys(es)[next - 1] == last && KeyLess(last, k);
    if next < |es| {
      assert Separates(sep, last, es[next].key);
      var limit := es[next].key;
      assert sep != last;
      // k.user <= sep.user < limit.user
      BelowIsOrder(k.user, sep.user, limit.user);
      KeyLessIsOrder(sep, k, limit);
      assert !KeyLess(limit, k) by { GapEnds(k, sep, limit); }
      FirstIsThis(Keys(es), k, next);
    } else {
      assert p == |es|;
    }
  }

  lemma GapEnds(k: ByteKey, sep: ByteKey, limit: ByteKey)
    requires !KeyLess(sep, k) && KeyLess(sep, limit)
    ensures !KeyLess(limit, k)
  {
    hide KeyLess;
    KeyLessIsOrder(sep, limit, k);
  }

  /* Building, as values. */

  ghost function BlockAt(es: seq<TableEntry>, bounds: seq<nat>, i: nat): seq<TableEntry>
    requires BoundsOk(bounds, |es|) && i + 1 < |bounds|
  {
    BoundsGrow(bounds, |es|, i);
    es[bounds[i]..bounds[i + 1]]
  }

  function Last(bounds: seq<nat>): nat
    requires bounds != []
  {
    bounds[|bounds| - 1]
  }

  ghost predicate SameHandles(a: seq<IndexEntry>, b: seq<IndexEntry>) {
    |a| == |b| && forall i :: 0 <= i < |a| ==> a[i].handle == b[i].handle
  }

  // The blocks written so far, all below the file offset.
  ghost predicate Indexed(index: seq<IndexEntry>, blocks: map<nat, seq<TableEntry>>, es: seq<TableEntry>, bounds: seq<nat>, offset: nat) {
    && BoundsOk(bounds, |es|) && |index| + 1 == |bounds|
    && (forall o :: o in blocks ==> o < offset)
    && forall i :: 0 <= i < |index| ==> BlockOk(index, blocks, es, bounds, i)
  }

  ghost predicate AllFiltered(added: set<(nat, Bytes)>, index: seq<IndexEntry>, es: seq<TableEntry>, bounds: seq<nat>) {
    && BoundsOk(bounds, |es|) && |index| + 1 == |bounds|
    && forall i :: 0 <= i < |index| ==> Filtered(added, index[i].handle.offset, BlockAt(es, bounds, i))
  }

  // A block is written; its index key is still its last key.
  lemma FlushStep(index: seq<IndexEntry>, blocks: map<nat, seq<TableEntry>>, es: seq<TableEntry>, bounds: seq<nat>,
                  offset: nat, size: nat)
    requires Indexed(index, blocks, es, bounds, offset) && Last(bounds) < |es|
    ensures Indexed(index + [IndexEntry(es[|es| - 1].key, Handle(offset, size))], blocks[offset := es[Last(bounds)..]],
                    es, bounds + [|es|], offset + size + BLOCK_TRAILER_SIZE)
  {
    hide KeyLess, Separates;
    var index', bounds', blocks' := index + [IndexEntry(es[|es| - 1].key, Handle(offset, size))], bounds + [|es|], blocks[offset := es[Last(bounds)..]];
    var n := |index|;
    forall i | 0 <= i < n ensures BlockOk(index', blocks', es, bounds', i) {
      assert BlockOk(index, blocks, es, bounds, i);
      assert bounds'[i] == bounds[i] && bounds'[i + 1] == bounds[i + 1] && index'[i] == index[i];
    }
    KeyLessIsOrder(es[|es| - 1].key, es[|es| - 1].key, es[|es| - 1].key);
    assert BlockOk(index', blocks', es, bounds', n);
  }

  lemma FlushFiltered(added: set<(nat, Bytes)>, index: seq<IndexEntry>, es: seq<TableEntry>, bounds: seq<nat>, last: IndexEntry)
    requires AllFiltered(added, index, es, bounds) && Last(bounds) < |es|
    requires Filtered(added, last.handle.offset, es[Last(bounds)..])
    ensures AllFiltered(added, index + [last], es, bounds + [|es|])
  {
    hide Filtered;
    var index', bounds' := index + [last], bounds + [|es|];
    forall i | 0 <= i < |index'| ensures Filtered(added, index'[i].handle.offset, BlockAt(es, bounds', i)) {
      if i < |index| {
        assert Filtered(added, index[i].handle.offset, BlockAt(es, bounds, i));
        assert BlockAt(es, bounds', i) == BlockAt(es, bounds, i);
      } else {
        assert BlockAt(es, bounds', i) == es[Last(bounds)..];
      }
    }
  }

  // The first key of the next block settles the index key of the last.
  lemma SeparateStep(index: seq<IndexEntry>, blocks: map<nat, seq<TableEntry>>, es: seq<TableEntry>, bounds: seq<nat>,
                     offset: nat, e: TableEntry, sep: ByteKey)
    requires Indexed(index, blocks, es, bounds, offset) && Last(bounds) == |es| && es != [] && index != []
    requires Separates(sep, es[|es| - 1].key, e.key)
    ensures Indexed(index[|index| - 1 := IndexEntry(sep, index[|index| - 1].handle)], blocks, es + [e], bounds, offset)
  {
    hide KeyLess;
    var n := |index| - 1;
    var index', es' := index[n := IndexEntry(sep, index[n].handle)], es + [e];
    forall i | 0 <= i < |index'| ensures BlockOk(index', blocks, es', bounds, i) {
      assert BlockOk(index, blocks, es, bounds, i);
      assert es'[bounds[i]..bounds[i + 1]] == es[bounds[i]..bounds[i + 1]];
      if i < n { assert bounds[i + 1] < bounds[n + 1]; }
    }
  }

  lemma AddStep(index: seq<IndexEntry>, blocks: map<nat, seq<TableEntry>>, es: seq<TableEntry>, bounds: seq<nat>,
                offset: nat, e: TableEntry)
    requires Indexed(index, blocks, es, bounds, offset) && (index == [] || Last(bounds) < |es|)
    ensures Indexed(index, blocks, es + [e], bounds, offset)
  {
    hide KeyLess, Separates;
    var es' := es + [e];
    forall i | 0 <= i < |index| ensures BlockOk(index, blocks, es', bounds, i) {
      assert BlockOk(index, blocks, es, bounds, i);
      assert es'[bounds[i]..bounds[i + 1]] == es[bounds[i]..bounds[i + 1]];
      if i + 1 < |index| { assert bounds[i + 1] < Last(bounds); }
    }
  }

  lemma AddFiltered(added: set<(nat, Bytes)>, index: seq<IndexEntry>, index': seq<IndexEntry>, es: seq<TableEntry>, bounds: seq<nat>,
                    offset: nat, e: TableEntry)
    requires AllFiltered(added, index, es, bounds) && Filtered(added, offset, es[Last(bounds)..])
    requires SameHandles(index', index)
    ensures AllFiltered(added + {(offset, e.key.user)}, index', es + [e], bounds)
    ensures Filtered(added + {(offset, e.key.user)}, offset, (es + [e])[Last(bounds)..])
  {
    var more, es' := added + {(offset, e.key.user)}, es + [e];
    forall i | 0 <= i < |index'| ensures Filtered(more, index'[i].handle.offset, BlockAt(es', bounds, i)) {
      assert Filtered(added, index[i].handle.offset, BlockAt(es, bounds, i));
      assert BlockAt(es', bounds, i) == BlockAt(es, bounds, i);
    }
    assert es'[Last(bounds)..] == es[Last(bounds)..] + [e];
  }

  // Past the last block any index key at or after its last key will do.
  lemma SucceedStep(index: seq<IndexEntry>, blocks: map<nat, seq<TableEntry>>, es: seq<TableEntry>, bounds: seq<nat>,
                    offset: nat, key: ByteKey)
    requires Indexed(index, blocks, es, bounds, offset) && Last(bounds) == |es| && es != [] && index != []
    requires !KeyLess(key, es[|es| - 1].key)
    ensures Indexed(index[|index| - 1 := IndexEntry(key, index[|index| - 1].handle)], blocks, es, bounds, offset)
  {
    hide KeyLess, Separates;
    var n := |index| - 1;
    var index' := index[n := IndexEntry(key, index[n].handle)];
    forall i | 0 <= i < |index'| ensures BlockOk(index', blocks, es, bounds, i) {
      assert BlockOk(index, blocks, es, bounds, i);
    }
  }

  lemma FilterIsRead(policy: Policy, filter: seq<byte>, added: set<(nat, Bytes)>, index: seq<IndexEntry>, es: seq<TableEntry>, bounds: seq<nat>)
    requires AllFiltered(added, index, es, bounds)
    requires forall p :: p in added ==> MayMatch(policy, filter, p.0, p.1)
    ensures forall i :: 0 <= i < |index| ==> FilterHas(policy, filter, index[i].handle.offset, BlockAt(es, bounds, i))
  {
    hide MayMatch;
    forall i | 0 <= i < |index| ensures FilterHas(policy, filter, index[i].handle.offset, BlockAt(es, bounds, i)) {
      var block, o := BlockAt(es, bounds, i), index[i].handle.offset;
      assert Filtered(added, o, block);
      forall j | 0 <= j < |block| ensures MayMatch(policy, filter, o, block[j].key.user) {
        assert (o, block[j].key.user) in added;
      }
    }
  }

  /* The builder. */

  class TableBuilder {
    const policy: Policy
    const blockSize: nat
    // CurrentSizeEstimate of a data block, and the bytes it takes in the file.
    const estimate: seq<TableEntry> -> nat
    const rawSize: seq<TableEntry> -> nat
    const filterBlock: FilterBlockBuilder?
    var offset: nat
    var dataBlock: seq<TableEntry>
    var indexBlock: seq<IndexEntry>
    var lastKey: ByteKey
    var numEntries: nat
    var pendingIndexEntry: bool
    var pendingHandle: Handle
    var blocks: map<nat, seq<TableEntry>>
    // Every entry added, and where each block written starts in it; the last
    // bound is where the current data block starts.
    ghost var entries: seq<TableEntry>
    ghost var bounds: seq<nat>

    // The index entries, with the one that is still to come.
    ghost function Index(): seq<IndexEntry>
      reads this
    {
      if pendingIndexEntry then indexBlock + [IndexEntry(lastKey, pendingHandle)] else indexBlock
    }

    // The filter knows the keys of the indexed blocks and of the current one.
    ghost predicate FilterFor(index: seq<IndexEntry>, es: seq<TableEntry>)
      reads `bounds, `offset, filterBlock
    {
      BoundsOk(bounds, |es|) && (filterBlock != null ==>
        && filterBlock.policy == policy && filterBlock.Valid() && filterBlock.Started() && filterBlock.blockOffset == offset
        && Filtered(filterBlock.added, offset, es[Last(bounds)..])
        && AllFiltered(filterBlock.added, index, es, bounds))
    }

    ghost predicate Core()
      reads this
    {
      && Sorted(entries) && numEntries == |entries|
      && Indexed(Index(), blocks, entries, bounds, offset)
      && dataBlock == entries[Last(bounds)..]
      && (entries != [] ==> lastKey == entries[|entries| - 1].key)
      && (pendingIndexEntry <==> dataBlock == [] && entries != [])
    }

    ghost predicate Valid()
      reads this, filterBlock
    {
      Core() && FilterFor(Index(), entries)
    }

    constructor (policy: Policy, useFilter: bool, blockSize: nat, estimate: seq<TableEntry> -> nat, rawSize: seq<TableEntry> -> nat)
      requires policy.Ok()
      ensures Valid() && entries == [] && this.policy == policy && (filterBlock != null <==> useFilter)
      ensures filterBlock != null ==> fresh(filterBlock)
    {
      this.policy, this.blockSize, this.estimate, this.rawSize := policy, blockSize, estimate, rawSize;
      var f: FilterBlockBuilder? := null;
      if useFilter {
        f := new FilterBlockBuilder(policy);
        f.StartBlock(0);
      }
      filterBlock := f;
      offset, dataBlock, indexBlock, numEntries, pendingIndexEntry, blocks := 0, [], [], 0, false, map[];
      pendingHandle, lastKey := Handle(0, 0), ByteKey([], 0);
      entries, bounds := [], [0];
    }

    // Writes the current data block; its index entry waits for the next key.
    method Flush()
      requires Valid()
      modifies this, filterBlock
      ensures Valid() && entries == old(entries) && dataBlock == []
      ensures if old(dataBlock) == [] then offset == old(offset) else
        // The block is followed by its type and checksum.
        offset == old(offset) + rawSize(old(dataBlock)) + 5 && pendingHandle == Handle(old(offset), rawSize(old(dataBlock)))
    {
      hide KeyLess, Sorted, Indexed, AllFiltered, Filtered, BoundsOk, FilterBlockBuilder.Valid;
      if dataBlock == [] { return; }
      ghost var index := Index();
      BoundsOf(index, blocks, entries, bounds, offset);
      FlushStep(index, blocks, entries, bounds, offset, rawSize(dataBlock));
      if filterBlock != null {
        FlushFiltered(filterBlock.added, Index(), entries, bounds, IndexEntry(lastKey, Handle(offset, rawSize(dataBlock))));
      }
      pendingHandle := Handle(offset, rawSize(dataBlock));
      blocks := blocks[offset := dataBlock];
      offset := offset + rawSize(dataBlock) + BLOCK_TRAILER_SIZE;
      pendingIndexEntry := true;
      bounds := bounds + [|entries|];
      dataBlock := [];
      if filterBlock != null { filterBlock.StartBlock(offset); }
      assert Index() == index + [IndexEntry(entries[|entries| - 1].key, pendingHandle)];
      BoundsOf(Index(), blocks, entries, bounds, offset);
      assert entries[Last(bounds)..] == [];
      NothingFiltered(if filterBlock != null then filterBlock.added else {}, offset);
    }

    // The index is complete up to entry e, which is next.
    ghost predicate Ready(e: TableEntry)
      reads this
    {
      && Sorted(entries + [e]) && !pendingIndexEntry && numEntries == |entries|
      && Indexed(indexBlock, blocks, entries + [e], bounds, offset)
      && BoundsOk(bounds, |entries|) && dataBlock == entries[Last(bounds)..]
    }

    // Adds the index entry that waited for the key of entry e.
    method SettleIndex(key: ByteKey, ghost e: TableEntry)
      requires Core() && e.key == key && (entries != [] ==> KeyLess(entries[|entries| - 1].key, key))
      modifies `lastKey, `indexBlock, `pendingIndexEntry
      ensures Ready(e)
      ensures SameHandles(indexBlock, old(Index()))
    {
      hide KeyLess, Sorted, Indexed, AllFiltered, Filtered, Separates;
      ghost var index := Index();
      BoundsOf(index, blocks, entries, bounds, offset);
      SortedMore(entries, e);
      if pendingIndexEntry {
        LastOf(entries, bounds);
        lastKey := FindInternalSeparator(lastKey, key);
        SeparateStep(index, blocks, entries, bounds, offset, e, lastKey);
        indexBlock := indexBlock + [IndexEntry(lastKey, pendingHandle)];
        pendingIndexEntry := false;
        assert indexBlock == index[|index| - 1 := IndexEntry(lastKey, index[|index| - 1].handle)];
      } else {
        assert index == indexBlock;
        NoBlocksYet(entries, bounds);
        AddStep(index, blocks, entries, bounds, offset, e);
      }
    }

    method Add(key: ByteKey, value: seq<byte>)
      requires Valid() && (entries != [] ==> KeyLess(entries[|entries| - 1].key, key))
      modifies this, filterBlock
      ensures Valid() && entries == old(entries) + [TableEntry(key, value)]
    {
      hide Valid, KeyLess;
      AddToBlock(key, value);
      if estimate(dataBlock) >= blockSize {
        Flush();
      }
    }

    method AddToFilter(key: ByteKey, ghost index: seq<IndexEntry>, ghost e: TableEntry)
      requires FilterFor(index, entries) && e.key == key
      requires SameHandles(indexBlock, index)
      modifies filterBlock
      ensures FilterFor(indexBlock, entries + [e])
    {
      hide KeyLess, AllFiltered, Filtered, FilterBlockBuilder.Valid;
      if filterBlock != null {
        AddFiltered(filterBlock.added, index, indexBlock, entries, bounds, offset, e);
        filterBlock.AddKey(key.user);
      }
    }

    method AddToBlock(key: ByteKey, value: seq<byte>)
      requires Valid() && (entries != [] ==> KeyLess(entries[|entries| - 1].key, key))
      modifies this, filterBlock
      ensures Valid() && entries == old(entries) + [TableEntry(key, value)]
    {
      hide KeyLess, Core, Ready, FilterFor, SameHandles, Index;
      ghost var e, index := TableEntry(key, value), Index();
      SettleIndex(key, e);
      AddToFilter(key, index, e);
      Append(key, value);
    }

    method Append(key: ByteKey, value: seq<byte>)
      requires Ready(TableEntry(key, value))
      modifies `lastKey, `numEntries, `dataBlock, `entries
      ensures Core() && entries == old(entries) + [TableEntry(key, value)] && Index() == indexBlock
    {
      hide KeyLess, Sorted, Indexed;
      BoundsOf(indexBlock, blocks, entries + [TableEntry(key, value)], bounds, offset);
      lastKey := key;
      numEntries := numEntries + 1;
      assert (entries + [TableEntry(key, value)])[Last(bounds)..] == dataBlock + [TableEntry(key, value)];
      dataBlock := dataBlock + [TableEntry(key, value)];
      entries := entries + [TableEntry(key, value)];
    }

    // The index entry of the last block.
    method SettleLast()
      requires Core() && dataBlock == []
      modifies `lastKey, `indexBlock, `pendingIndexEntry
      ensures !pendingIndexEntry && Indexed(indexBlock, blocks, entries, bounds, offset) && Last(bounds) == |entries|
      ensures SameHandles(indexBlock, old(Index()))
    {
      hide KeyLess, Sorted, Indexed, AllFiltered, Filtered;
      ghost var index := Index();
      BoundsOf(index, blocks, entries, bounds, offset);
      LastOf(entries, bounds);
      if pendingIndexEntry {
        lastKey := FindInternalSuccessor(lastKey);
        SucceedStep(index, blocks, entries, bounds, offset, lastKey);
        indexBlock := indexBlock + [IndexEntry(lastKey, pendingHandle)];
        pendingIndexEntry := false;
        assert indexBlock == index[|index| - 1 := IndexEntry(lastKey, index[|index| - 1].handle)];
      } else {
        assert index == indexBlock;
      }
    }

    // The contents of the filter block, if there is one.
    method FinishFilter() returns (filter: Option<seq<byte>>)
      requires Valid()
      modifies filterBlock
      ensures filter.Some? <==> filterBlock != null
      ensures filterBlock == null || |filterBlock.result| < TWO_32 ==> FilterCovers(policy, filter, Index(), entries, bounds)
    {
      hide KeyLess, Sorted, AllFiltered, Filtered, FilterHas, Indexed, MayMatch, FilterBlockBuilder.Valid;
      BoundsOf(Index(), blocks, entries, bounds, offset);
      filter := None;
      if filterBlock != null {
        ghost var added := filterBlock.added;
        var contents := filterBlock.Finish();
        filter := Some(contents);
        if |filterBlock.result| < TWO_32 { FilterIsRead(policy, contents, added, Index(), entries, bounds); }
      }
    }

    // The table, and how its blocks divide the entries.
    method Finish() returns (t: Table, ghost at: seq<nat>)
      requires Valid()
      modifies this, filterBlock
      ensures t.filter.Some? <==> filterBlock != null
      ensures filterBlock == null || |filterBlock.result| < TWO_32 ==> IsTable(t, policy, old(entries), at)
    {
      hide KeyLess, Sorted, FilterHas, Indexed, BoundsOk, IsTable, FilterFor;
      Flush();
      ghost var index := Index();
      var filter := FinishFilter();
      SettleLast();
      t := Table(indexBlock, blocks, filter);
      at := bounds;
      TableIs(t, policy, entries, bounds, offset, index);
    }
  }

  ghost predicate FilterCovers(policy: Policy, filter: Option<seq<byte>>, index: seq<IndexEntry>, es: seq<TableEntry>, bounds: seq<nat>) {
    && BoundsOk(bounds, |es|) && |index| + 1 == |bounds|
    && (filter.Some? ==> forall i :: 0 <= i < |index| ==> FilterHas(policy, filter.value, index[i].handle.offset, BlockAt(es, bounds, i)))
  }

  lemma TableIs(t: Table, policy: Policy, es: seq<TableEntry>, bounds: seq<nat>, offset: nat, index: seq<IndexEntry>)
    requires Sorted(es) && Indexed(t.index, t.blocks, es, bounds, offset) && Last(bounds) == |es|
    requires SameHandles(t.index, index)
    ensures FilterCovers(policy, t.filter, index, es, bounds) ==> IsTable(t, policy, es, bounds)
  {
    hide FilterHas, KeyLess;
    if FilterCovers(policy, t.filter, index, es, bounds) {
      forall i | 0 <= i < |t.index| && t.filter.Some?
        ensures FilterHas(policy, t.filter.value, t.index[i].handle.offset, es[bounds[i]..bounds[i + 1]])
      {
        assert FilterHas(policy, t.filter.value, index[i].handle.offset, BlockAt(es, bounds, i));
        assert BlockAt(es, bounds, i) == es[bounds[i]..bounds[i + 1]];
      }
    }
  }

  lemma LastOf(es: seq<TableEntry>, bounds: seq<nat>)
    requires BoundsOk(bounds, |es|)
    ensures es[Last(bounds)..] == [] ==> Last(bounds) == |es|
  {
    assert |es[Last(bounds)..]| == |es| - Last(bounds);
  }

  lemma NoBlocksYet(es: seq<TableEntry>, bounds: seq<nat>)
    requires BoundsOk(bounds, |es|) && (es == [] || es[Last(bounds)..] != [])
    ensures |bounds| == 1 || Last(bounds) < |es|
  {
    if |bounds| > 1 { assert bounds[0] < Last(bounds); }
  }

  lemma BoundsOf(index: seq<IndexEntry>, blocks: map<nat, seq<TableEntry>>, es: seq<TableEntry>, bounds: seq<nat>, offset: nat)
    requires Indexed(index, blocks, es, bounds, offset)
    ensures BoundsOk(bounds, |es|) && |index| + 1 == |bounds|
  {
  }

  lemma NothingFiltered(added: set<(nat, Bytes)>, offset: nat)
    ensures Filtered(added, offset, [])
  {
  }

  lemma SortedMore(es: seq<TableEntry>, e: TableEntry)
    requires Sorted(es) && (es != [] ==> KeyLess(es[|es| - 1].key, e.key))
    ensures Sorted(es + [e])
  {
    hide KeyLess;
    forall i | 0 <= i < |es| ensures KeyLess(es[i].key, e.key) {
      KeyLessIsOrder(es[i].key, es[|es| - 1].key, e.key);
    }
  }
}
