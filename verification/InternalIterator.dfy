// The iterator interface (include/leveldb/iterator.h) over a sorted run of
// internal entries, as its users rely on it.  An exhausted iterator has no
// memory of the end it fell off.

module InternalIterator {
  import opened DbFormat

  // The position of the first entry at or after the target: how many precede it.
  function LowerBound(s: seq<Entry>, target: InternalKey): (n: nat)
    ensures n <= |s|
    ensures forall i :: 0 <= i < n ==> Less(s[i].ikey, target)
    ensures n < |s| ==> !Less(s[n].ikey, target)
  {
    if s == [] || !Less(s[0].ikey, target) then 0 else 1 + LowerBound(s[1..], target)
  }

  lemma BoundIs(s: seq<Entry>, target: InternalKey, n: nat)
    requires n <= |s| && (forall p :: 0 <= p < n ==> Less(s[p].ikey, target))
    requires n < |s| ==> !Less(s[n].ikey, target)
    ensures LowerBound(s, target) == n
  {
    hide LowerBound, Less;
    assert LowerBound(s, target) >= n;
    assert n < |s| ==> LowerBound(s, target) <= n;
  }

  class EntryIterator {
    const entries: seq<Entry>
    var pos: int   // -1 when not valid

    constructor (entries: seq<Entry>)
      ensures this.entries == entries && pos == -1
    {
      this.entries := entries;
      pos := -1;
    }

    predicate IsValid()
      reads this`pos
    {
      0 <= pos < |entries|
    }

    ghost predicate Ok()
      reads this`pos
    {
      -1 <= pos < |entries|
    }

    function Current(): Entry
      requires IsValid()
      reads this`pos
    {
      entries[pos]
    }

    method SeekToFirst()
      modifies this`pos
      ensures Ok() && pos == if entries == [] then -1 else 0
    {
      pos := if entries == [] then -1 else 0;
    }

    method SeekToLast()
      modifies this`pos
      ensures Ok() && pos == |entries| - 1
    {
      pos := |entries| - 1;
    }

    method Seek(target: InternalKey)
      modifies this`pos
      ensures Ok()
      ensures pos == var n := LowerBound(entries, target); if n < |entries| then n else -1
    {
      var n := LowerBound(entries, target);
      pos := if n < |entries| then n else -1;
    }

    method Next()
      requires IsValid()
      modifies this`pos
      ensures Ok() && pos == if old(pos) + 1 < |entries| then old(pos) + 1 else -1
    {
      pos := if pos + 1 < |entries| then pos + 1 else -1;
    }

    method Prev()
      requires IsValid()
      modifies this`pos
      ensures Ok() && pos == old(pos) - 1
    {
      pos := pos - 1;
    }
  }
}
