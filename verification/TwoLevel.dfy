// The two-level iterator (table/two_level_iterator.cc): an index iterator
// whose values name blocks, and an iterator over the block it stands on.  It
// is a cursor on the concatenation of the blocks, empty blocks included.

module TwoLevel {
  import opened DbFormat
  import opened InternalIterator

  datatype IndexEntry = IndexEntry(key: InternalKey, handle: nat)

  // The entries of the first n blocks.
  function Concat(index: seq<IndexEntry>, read: nat -> seq<Entry>, n: nat): seq<Entry>
    requires n <= |index|
  {
    if n == 0 then [] else Concat(index, read, n - 1) + read(index[n - 1].handle)
  }

  function Start(index: seq<IndexEntry>, read: nat -> seq<Entry>, n: nat): nat
    requires n <= |index|
  {
    |Concat(index, read, n)|
  }

  // The position of the first index key at or after the target.
  function IndexBound(index: seq<IndexEntry>, target: InternalKey): (n: nat)
    ensures n <= |index|
    ensures forall i :: 0 <= i < n ==> Less(index[i].key, target)
    ensures n < |index| ==> !Less(index[n].key, target)
  {
    if index == [] || !Less(index[0].key, target) then 0 else 1 + IndexBound(index[1..], target)
  }

  // Index keys are at or after the keys of their blocks and before later ones.
  ghost predicate Divides(index: seq<IndexEntry>, read: nat -> seq<Entry>) {
    && Sorted(Concat(index, read, |index|))
    && forall i, p :: 0 <= i < |index| && 0 <= p < |Concat(index, read, |index|)| ==>
         if p < Start(index, read, i + 1) then !Less(index[i].key, Concat(index, read, |index|)[p].ikey)
         else Less(index[i].key, Concat(index, read, |index|)[p].ikey)
  }

  lemma {:induction false} ConcatGrows(index: seq<IndexEntry>, read: nat -> seq<Entry>, i: nat, n: nat)
    requires i < n <= |index|
    ensures Start(index, read, i + 1) == Start(index, read, i) + |read(index[i].handle)| <= Start(index, read, n)
    ensures Concat(index, read, n)[Start(index, read, i)..Start(index, read, i + 1)] == read(index[i].handle)
    decreases n
  {
    var whole, s, e := Concat(index, read, n), Start(index, read, i), Start(index, read, i + 1);
    if i + 1 < n {
      ConcatGrows(index, read, i, n - 1);
      assert whole[s..e] == Concat(index, read, n - 1)[s..e];
    }
  }

  // Seeking in the block the index points to, or else moving to the next one,
  // finds the first entry at or after the target.
  lemma SeekIsLowerBound(index: seq<IndexEntry>, read: nat -> seq<Entry>, target: InternalKey)
    requires Divides(index, read)
    ensures var all, i := Concat(index, read, |index|), IndexBound(index, target);
      LowerBound(all, target) ==
        if i == |index| then |all| else Start(index, read, i) + LowerBound(read(index[i].handle), target)
  {
    hide Less, Concat, LowerBound, IndexBound;
    var all, i := Concat(index, read, |index|), IndexBound(index, target);
    if i < |index| { ConcatGrows(index, read, i, |index|); }
    var block := if i < |index| then read(index[i].handle) else [];
    var start := if i < |index| then Start(index, read, i) else |all|;
    var j := if i < |index| then LowerBound(block, target) else 0;
    forall p | 0 <= p < start + j ensures Less(all[p].ikey, target) {
      if p < start {
        assert i > 0 && p < Start(index, read, i) by { FirstStart(index, read); }
        assert !Less(index[i - 1].key, all[p].ikey);
        CompareIsTotalOrder(index[i - 1].key, all[p].ikey, target);
        CompareIsTotalOrder(all[p].ikey, index[i - 1].key, target);
      } else {
        assert all[p] == block[p - start];
      }
    }
    if start + j < |all| {
      if j < |block| {
        assert all[start + j] == block[j];
      } else {
        assert Less(index[i].key, all[start + j].ikey);
        CompareIsTotalOrder(index[i].key, all[start + j].ikey, target);
        CompareIsTotalOrder(all[start + j].ikey, target, index[i].key);
        CompareIsTotalOrder(target, index[i].key, all[start + j].ikey);
      }
    }
    BoundIs(all, target, start + j);
  }

  lemma FirstStart(index: seq<IndexEntry>, read: nat -> seq<Entry>)
    ensures Start(index, read, 0) == 0
  {
  }

  class TwoLevelIterator {
    const index: seq<IndexEntry>
    const read: nat -> seq<Entry>
    var indexPos: int          // the index iterator, -1 when not valid
    var data: EntryIterator?
    var dataHandle: nat

    constructor (index: seq<IndexEntry>, read: nat -> seq<Entry>)
      ensures this.index == index && this.read == read && Ok() && Pos() == -1 && data == null
    {
      this.index, this.read := index, read;
      indexPos, data, dataHandle := -1, null, 0;
    }

    ghost predicate Ok()
      reads this, data
    {
      && -1 <= indexPos < |index|
      && (data != null ==> data.Ok() && data.entries == read(dataHandle))
      && (data != null && indexPos >= 0 ==> dataHandle == index[indexPos].handle)
      && (data != null && data.IsValid() ==> indexPos >= 0)
    }

    predicate IsValid()
      reads this, data
    {
      data != null && data.IsValid()
    }

    ghost function All(): seq<Entry> {
      Concat(index, read, |index|)
    }

    // The position in the concatenation, -1 when not valid.
    ghost function Pos(): int
      requires -1 <= indexPos < |index|
      reads this, data
    {
      if IsValid() && indexPos >= 0 then Start(index, read, indexPos) + data.pos else -1
    }

    function Current(): Entry
      requires IsValid()
      reads this, data
    {
      data.Current()
    }

    lemma CurrentIsAt()
      requires Ok() && IsValid()
      ensures 0 <= Pos() < |All()| && Current() == All()[Pos()]
    {
      hide Concat;
      ConcatGrows(index, read, indexPos, |index|);
      assert Current() == read(index[indexPos].handle)[data.pos];
    }

    // The iterator over the block the index stands on.
    method InitDataBlock()
      requires -1 <= indexPos < |index| && (data != null ==> data.Ok() && data.entries == read(dataHandle))
      modifies this`data, this`dataHandle
      ensures data == old(data) || data == null || fresh(data)
      ensures if indexPos == -1 then data == null
              else data != null && data.Ok() && dataHandle == index[indexPos].handle && data.entries == read(dataHandle)
    {
      if indexPos == -1 {
        data := null;
      } else {
        var handle := index[indexPos].handle;
        if data != null && handle == dataHandle {
          // The same block.
        } else {
          var iter := new EntryIterator(read(handle));
          dataHandle := handle;
          data := iter;
        }
      }
    }

    // Moves on to the first entry of the blocks after this one.
    method SkipEmptyDataBlocksForward()
      requires Ok() && (data == null ==> indexPos == -1)
      modifies this, data
      ensures Ok() && (data == old(data) || data == null || fresh(data))
      ensures Pos() == if old(IsValid()) then old(Pos())
                       else if old(indexPos) == -1 || Start(index, read, old(indexPos) + 1) == |All()| then -1
                       else Start(index, read, old(indexPos) + 1)
    {
      hide Concat;
      ghost var d := data;
      while data == null || !data.IsValid()
        invariant Ok() && (data == d || data == null || fresh(data)) && (data == null ==> indexPos == -1)
        invariant old(IsValid()) ==> data == d && unchanged(this) && unchanged(d)
        invariant old(indexPos) == -1 ==> indexPos == -1
        invariant !old(IsValid()) && !IsValid() && old(indexPos) >= 0 && indexPos >= 0 ==>
          Start(index, read, indexPos + 1) == Start(index, read, old(indexPos) + 1)
        invariant !old(IsValid()) && IsValid() ==> old(indexPos) >= 0 && Pos() == Start(index, read, old(indexPos) + 1) < |All()|
        invariant !old(IsValid()) && old(indexPos) >= 0 && indexPos == -1 ==> Start(index, read, old(indexPos) + 1) == |All()|
        decreases if indexPos == -1 then 0 else |index| - indexPos
      {
        if indexPos == -1 {
          data := null;
          return;
        }
        indexPos := if indexPos + 1 < |index| then indexPos + 1 else -1;
        InitDataBlock();
        if data != null {
          ConcatGrows(index, read, indexPos, |index|);
          data.SeekToFirst();
        }
      }
    }

    // Moves back to the last entry of the blocks before this one.
    method SkipEmptyDataBlocksBackward()
      requires Ok() && (data == null ==> indexPos == -1)
      modifies this, data
      ensures Ok() && (data == old(data) || data == null || fresh(data))
      ensures Pos() == if old(IsValid()) then old(Pos())
                       else if old(indexPos) == -1 then -1
                       else Start(index, read, old(indexPos)) - 1
    {
      hide Concat;
      ghost var d := data;
      FirstStart(index, read);
      while data == null || !data.IsValid()
        invariant Ok() && (data == d || data == null || fresh(data)) && (data == null ==> indexPos == -1)
        invariant old(IsValid()) ==> data == d && unchanged(this) && unchanged(d)
        invariant old(indexPos) == -1 ==> indexPos == -1
        invariant !old(IsValid()) && !IsValid() && old(indexPos) >= 0 && indexPos >= 0 ==>
          Start(index, read, indexPos) == Start(index, read, old(indexPos))
        invariant !old(IsValid()) && IsValid() ==> old(indexPos) >= 0 && Pos() == Start(index, read, old(indexPos)) - 1
        invariant !old(IsValid()) && old(indexPos) >= 0 && indexPos == -1 ==> Start(index, read, old(indexPos)) == 0
        decreases indexPos + 1
      {
        if indexPos == -1 {
          data := null;
          return;
        }
        indexPos := indexPos - 1;
        InitDataBlock();
        if data != null {
          ConcatGrows(index, read, indexPos, |index|);
          data.SeekToLast();
        }
      }
    }

    method Seek(target: InternalKey)
      requires Ok() && Divides(index, read)
      modifies this, data
      ensures Ok() && (data == old(data) || data == null || fresh(data))
      ensures var n := LowerBound(All(), target); Pos() == if n < |All()| then n else -1
    {
      hide Concat, Divides, Less;
      var i := IndexBound(index, target);
      SeekIsLowerBound(index, read, target);
      indexPos := if i < |index| then i else -1;
      InitDataBlock();
      if data != null {
        ConcatGrows(index, read, indexPos, |index|);
        data.Seek(target);
      }
      SkipEmptyDataBlocksForward();
    }

    method SeekToFirst()
      requires Ok()
      modifies this, data
      ensures Ok() && (data == old(data) || data == null || fresh(data))
      ensures Pos() == if All() == [] then -1 else 0
    {
      hide Concat;
      FirstStart(index, read);
      indexPos := if index == [] then -1 else 0;
      InitDataBlock();
      if data != null {
        ConcatGrows(index, read, indexPos, |index|);
        data.SeekToFirst();
      }
      SkipEmptyDataBlocksForward();
    }

    method SeekToLast()
      requires Ok()
      modifies this, data
      ensures Ok() && (data == old(data) || data == null || fresh(data))
      ensures Pos() == |All()| - 1
    {
      hide Concat;
      FirstStart(index, read);
      indexPos := |index| - 1;
      InitDataBlock();
      if data != null {
        ConcatGrows(index, read, indexPos, |index|);
        data.SeekToLast();
      }
      SkipEmptyDataBlocksBackward();
    }

    method Next()
      requires Ok() && IsValid()
      modifies this, data
      ensures Ok() && (data == old(data) || data == null || fresh(data))
      ensures Pos() == if old(Pos()) + 1 < |All()| then old(Pos()) + 1 else -1
    {
      hide Concat;
      ConcatGrows(index, read, indexPos, |index|);
      data.Next();
      SkipEmptyDataBlocksForward();
    }

    method Prev()
      requires Ok() && IsValid()
      modifies this, data
      ensures Ok() && (data == old(data) || data == null || fresh(data))
      ensures Pos() == old(Pos()) - 1
    {
      hide Concat;
      ConcatGrows(index, read, indexPos, |index|);
      data.Prev();
      SkipEmptyDataBlocksBackward();
    }
  }
}
