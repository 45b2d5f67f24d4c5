// Merging several sorted iterators into one (table/merger.cc): a cursor on the
// sorted union of the children, in either direction.

module Merger {
  import opened Wrappers
  import opened DbFormat
  import opened InternalIterator

  /* Cursor moves on a set of internal keys. */

  ghost predicate IsAtOrAfter(s: set<InternalKey>, t: InternalKey, c: Option<InternalKey>) {
    match c
    case None => forall x :: x in s ==> Less(x, t)
    case Some(k) => k in s && !Less(k, t) && forall x :: x in s && !Less(x, t) ==> !Less(x, k)
  }

  ghost predicate IsAfter(s: set<InternalKey>, from: InternalKey, c: Option<InternalKey>) {
    match c
    case None => forall x :: x in s ==> !Less(from, x)
    case Some(k) => k in s && Less(from, k) && forall x :: x in s && Less(from, x) ==> !Less(x, k)
  }

  ghost predicate IsBefore(s: set<InternalKey>, from: InternalKey, c: Option<InternalKey>) {
    match c
    case None => forall x :: x in s ==> !Less(x, from)
    case Some(k) => k in s && Less(k, from) && forall x :: x in s && Less(x, from) ==> !Less(k, x)
  }

  ghost predicate IsLeast(s: set<InternalKey>, c: Option<InternalKey>) {
    match c
    case None => s == {}
    case Some(k) => k in s && forall x :: x in s ==> !Less(x, k)
  }

  ghost predicate IsGreatest(s: set<InternalKey>, c: Option<InternalKey>) {
    match c
    case None => s == {}
    case Some(k) => k in s && forall x :: x in s ==> !Less(k, x)
  }

  ghost function Keys(s: seq<Entry>): set<InternalKey> {
    set e | e in s :: e.ikey
  }

  // The index an iterator stands for: an invalid one is past the end.
  function Index(s: seq<Entry>, pos: int): int {
    if pos == -1 then |s| else pos
  }

  // Entries before n are below the key and the others are not.
  ghost predicate SplitsAt(s: seq<Entry>, n: int, k: InternalKey) {
    && 0 <= n <= |s|
    && (forall i :: 0 <= i < n ==> Less(s[i].ikey, k))
    && (forall i :: n <= i < |s| ==> !Less(s[i].ikey, k))
  }

  // Entries before n are at or below the key and the others are above it.
  ghost predicate SplitsAfter(s: seq<Entry>, n: int, k: InternalKey) {
    && 0 <= n <= |s|
    && (forall i :: 0 <= i < n ==> !Less(k, s[i].ikey))
    && (forall i :: n <= i < |s| ==> Less(k, s[i].ikey))
  }

  lemma LowerBoundSplits(s: seq<Entry>, k: InternalKey)
    requires Sorted(s)
    ensures SplitsAt(s, LowerBound(s, k), k)
  {
    var n := LowerBound(s, k);
    forall i | n <= i < |s| ensures !Less(s[i].ikey, k) {
      if i > n { assert Less(s[n].ikey, s[i].ikey); }
    }
  }

  datatype Direction = Forward | Reverse

  class MergingIterator {
    const children: seq<EntryIterator>
    var current: int             // -1 for none
    var direction: Direction

    constructor (children: seq<EntryIterator>)
      requires Mergeable(children)
      requires forall c :: c in children ==> c.Ok()
      ensures this.children == children && Ok() && At() == None
    {
      this.children := children;
      current, direction := -1, Forward;
    }

    // Distinct sorted iterators, no key in two of them.
    static ghost predicate Mergeable(children: seq<EntryIterator>) {
      && (forall c :: c in children ==> Sorted(c.entries))
      && (forall a, b :: 0 <= a < b < |children| ==> children[a] != children[b])
      && (forall a, b :: 0 <= a < |children| && 0 <= b < |children| && a != b ==> Keys(children[a].entries) !! Keys(children[b].entries))
    }

    ghost function Union(): set<InternalKey> {
      set c, e | c in children && e in c.entries :: e.ikey
    }

    predicate IsValid()
      reads this
    {
      0 <= current < |children|
    }

    ghost predicate ChildrenOk()
      reads children
    {
      forall c :: c in children ==> c.Ok()
    }

    // Moving forward, every child is at its first entry at or after the current
    // key.  Moving backward, every other child is at its last entry before it.
    ghost predicate Ok()
      reads this, children
    {
      && Mergeable(children) && ChildrenOk() && -1 <= current < |children|
      && (IsValid() ==> children[current].IsValid() && AllPlaced())
    }

    ghost predicate AllPlaced()
      requires IsValid() && children[current].IsValid()
      reads this, children
    {
      forall a :: 0 <= a < |children| ==>
        if direction == Forward || a == current then AtOrAfter(children[a], Key()) else JustBefore(children[a], Key())
    }

    // At the first entry at or after the key.
    static ghost predicate AtOrAfter(c: EntryIterator, k: InternalKey)
      reads c
    {
      SplitsAt(c.entries, Index(c.entries, c.pos), k)
    }

    // At the first entry after the key.
    static ghost predicate JustAfter(c: EntryIterator, k: InternalKey)
      reads c
    {
      SplitsAfter(c.entries, Index(c.entries, c.pos), k)
    }

    // At the last entry before the key.
    static ghost predicate JustBefore(c: EntryIterator, k: InternalKey)
      reads c
    {
      SplitsAt(c.entries, c.pos + 1, k)
    }

    function Current(): Entry
      requires IsValid() && children[current].IsValid()
      reads this, children
    {
      children[current].Current()
    }

    function Key(): InternalKey
      requires IsValid() && children[current].IsValid()
      reads this, children
    {
      Current().ikey
    }

    ghost function At(): Option<InternalKey>
      requires Ok()
      reads this, children
    {
      if IsValid() then Some(Key()) else None
    }

    // Child b is valid and no valid child among those from lo up to hi is below it.
    ghost predicate SmallestOf(lo: int, hi: int, b: int)
      requires 0 <= lo <= hi <= |children| && 0 <= b < |children|
      reads children
    {
      children[b].IsValid()
        && forall a :: lo <= a < hi && children[a].IsValid() ==> !Less(children[a].Current().ikey, children[b].Current().ikey)
    }

    ghost predicate LargestOf(lo: int, hi: int, b: int)
      requires 0 <= lo <= hi <= |children| && 0 <= b < |children|
      reads children
    {
      children[b].IsValid()
        && forall a :: lo <= a < hi && children[a].IsValid() ==> !Less(children[b].Current().ikey, children[a].Current().ikey)
    }

    ghost predicate NoneValid(lo: int, hi: int)
      requires 0 <= lo <= hi <= |children|
      reads children
    {
      forall a :: lo <= a < hi ==> !children[a].IsValid()
    }

    method FindSmallest()
      requires ChildrenOk()
      modifies this`current
      ensures -1 <= current < |children|
      ensures if current == -1 then NoneValid(0, |children|) else SmallestOf(0, |children|, current)
    {
      var smallest := -1;
      for i := 0 to |children|
        invariant -1 <= smallest < i
        invariant if smallest == -1 then NoneValid(0, i) else SmallestOf(0, i, smallest)
      {
        var child := children[i];
        if child.IsValid() {
          if smallest == -1 {
            smallest := i;
          } else if Compare(child.Current().ikey, children[smallest].Current().ikey) < 0 {
            smallest := i;
          }
        }
      }
      current := smallest;
    }

    method FindLargest()
      requires ChildrenOk()
      modifies this`current
      ensures -1 <= current < |children|
      ensures if current == -1 then NoneValid(0, |children|) else LargestOf(0, |children|, current)
    {
      var largest := -1;
      for i := |children| downto 0
        invariant largest == -1 || i <= largest < |children|
        invariant if largest == -1 then NoneValid(i, |children|) else LargestOf(i, |children|, largest)
      {
        var child := children[i];
        if child.IsValid() {
          if largest == -1 {
            largest := i;
          } else if Compare(child.Current().ikey, children[largest].Current().ikey) > 0 {
            largest := i;
          }
        }
      }
      current := largest;
    }

    lemma InUnion(k: InternalKey) returns (a: int, i: int)
      requires k in Union()
      ensures 0 <= a < |children| && 0 <= i < |children[a].entries| && children[a].entries[i].ikey == k
    {
      var c, e :| c in children && e in c.entries && e.ikey == k;
      a :| 0 <= a < |children| && children[a] == c;
      i :| 0 <= i < |c.entries| && c.entries[i] == e;
    }

    // With every child just after k, the smallest child is the successor of k.
    lemma SmallestIsNext(k: InternalKey)
      requires Mergeable(children) && ChildrenOk() && direction == Forward && -1 <= current < |children|
      requires forall a :: 0 <= a < |children| ==> JustAfter(children[a], k)
      requires if current == -1 then NoneValid(0, |children|) else SmallestOf(0, |children|, current)
      ensures Ok() && IsAfter(Union(), k, At())
    {
      if current >= 0 {
        forall a | 0 <= a < |children| ensures AtOrAfter(children[a], Key()) {
          assert JustAfter(children[a], k) && JustAfter(children[current], k);
          SmallestSplits(children[a].entries, Index(children[a].entries, children[a].pos), k, Key());
        }
      }
      forall x | x in Union() && Less(k, x) ensures current >= 0 && !Less(x, Key()) {
        var a, i := InUnion(x);
        assert JustAfter(children[a], k);
        assert children[a].IsValid() && children[a].pos <= i;
      }
      if current >= 0 { assert JustAfter(children[current], k); assert children[current].Current() in children[current].entries; }
    }

    // With every child at its first entry at or after t, the smallest child is the first of all.
    lemma SmallestIsAtOrAfter(t: InternalKey)
      requires Mergeable(children) && ChildrenOk() && direction == Forward && -1 <= current < |children|
      requires forall a :: 0 <= a < |children| ==> AtOrAfter(children[a], t)
      requires if current == -1 then NoneValid(0, |children|) else SmallestOf(0, |children|, current)
      ensures Ok() && IsAtOrAfter(Union(), t, At())
    {
      if current >= 0 {
        assert AtOrAfter(children[current], t);
        forall a | 0 <= a < |children| ensures AtOrAfter(children[a], Key()) {
          assert AtOrAfter(children[a], t);
          SeekSplits(children[a].entries, Index(children[a].entries, children[a].pos), t, Key());
        }
        assert children[current].Current() in children[current].entries;
      }
      forall x | x in Union() && !Less(x, t) ensures current >= 0 && !Less(x, Key()) {
        var a, i := InUnion(x);
        assert AtOrAfter(children[a], t);
        assert children[a].IsValid() && children[a].pos <= i;
        assert current >= 0 ==> AtOrAfter(children[a], Key());
      }
    }

    lemma SmallestIsLeast()
      requires Mergeable(children) && ChildrenOk() && direction == Forward && -1 <= current < |children|
      requires forall a :: 0 <= a < |children| ==> Index(children[a].entries, children[a].pos) == 0
      requires if current == -1 then NoneValid(0, |children|) else SmallestOf(0, |children|, current)
      ensures Ok() && IsLeast(Union(), At())
    {
      if current >= 0 {
        forall a | 0 <= a < |children| ensures AtOrAfter(children[a], Key()) {
          SeekSplits(children[a].entries, 0, Key(), Key());
        }
        assert children[current].Current() in children[current].entries;
      }
      forall x | x in Union() ensures current >= 0 && !Less(x, Key()) {
        var a, i := InUnion(x);
        assert children[a].IsValid();
        assert current >= 0 ==> AtOrAfter(children[a], Key());
      }
    }

    // With every child at its last entry before k, the largest child is the predecessor of k.
    lemma LargestIsPrev(k: InternalKey)
      requires Mergeable(children) && ChildrenOk() && direction == Reverse && -1 <= current < |children|
      requires forall a :: 0 <= a < |children| ==> JustBefore(children[a], k)
      requires if current == -1 then NoneValid(0, |children|) else LargestOf(0, |children|, current)
      ensures Ok() && IsBefore(Union(), k, At())
    {
      if current >= 0 {
        assert JustBefore(children[current], k);
        assert children[current].Current() in children[current].entries;
        LargestPlaced(k);
      }
      forall x | x in Union() && Less(x, k) ensures current >= 0 && !Less(Key(), x) {
        var a, i := InUnion(x);
        assert JustBefore(children[a], k);
        assert children[a].IsValid() && i <= children[a].pos;
        if i < children[a].pos { assert Less(children[a].entries[i].ikey, children[a].entries[children[a].pos].ikey); }
      }
    }

    lemma LargestPlaced(k: InternalKey)
      requires Mergeable(children) && ChildrenOk() && direction == Reverse && 0 <= current < |children|
      requires forall a :: 0 <= a < |children| ==> JustBefore(children[a], k)
      requires LargestOf(0, |children|, current) && Less(Key(), k)
      ensures AllPlaced()
    {
      forall a | 0 <= a < |children|
        ensures if a == current then AtOrAfter(children[a], Key()) else JustBefore(children[a], Key())
      {
        assert JustBefore(children[a], k);
        var c := children[a];
        if a == current {
          SeekSplits(c.entries, c.pos, Key(), Key());
        } else {
          assert Key() in Keys(children[current].entries);
          if c.pos >= 0 { assert c.entries[c.pos].ikey in Keys(c.entries); }
          LargestSplits(c.entries, c.pos, k, Key());
        }
      }
    }

    lemma LargestIsGreatest()
      requires Mergeable(children) && ChildrenOk() && direction == Reverse && -1 <= current < |children|
      requires forall a :: 0 <= a < |children| ==> children[a].pos == |children[a].entries| - 1
      requires if current == -1 then NoneValid(0, |children|) else LargestOf(0, |children|, current)
      ensures Ok() && IsGreatest(Union(), At())
    {
      if current >= 0 {
        forall a | 0 <= a < |children|
          ensures if a == current then AtOrAfter(children[a], Key()) else JustBefore(children[a], Key())
        {
          var c := children[a];
          if a == current {
            SeekSplits(c.entries, c.pos, Key(), Key());
          } else {
            assert Key() in Keys(children[current].entries);
            if c.pos >= 0 { assert c.entries[c.pos].ikey in Keys(c.entries); }
            EndSplits(c.entries, Key());
          }
        }
        assert children[current].Current() in children[current].entries;
      }
      forall x | x in Union() ensures current >= 0 && !Less(Key(), x) {
        var a, i := InUnion(x);
        assert children[a].IsValid();
        if i < children[a].pos { assert Less(children[a].entries[i].ikey, children[a].entries[children[a].pos].ikey); }
      }
    }

    lemma NotInChild(a: int)
      requires Ok() && IsValid() && direction == Forward && 0 <= a < |children| && a != current
      ensures JustAfter(children[a], Key())
    {
      var c := children[a];
      assert AtOrAfter(c, Key());
      assert Current() in children[current].entries && Key() in Keys(children[current].entries);
      forall i | 0 <= i < |c.entries| ensures c.entries[i].ikey != Key() {
        assert c.entries[i].ikey in Keys(c.entries);
      }
    }

    method SeekToFirst()
      requires Ok()
      modifies this, children
      ensures Ok() && IsLeast(Union(), At())
    {
      for i := 0 to |children|
        invariant ChildrenOk()
        invariant forall a :: 0 <= a < i ==> Index(children[a].entries, children[a].pos) == 0
      {
        children[i].SeekToFirst();
      }
      FindSmallest();
      direction := Forward;
      SmallestIsLeast();
    }

    method SeekToLast()
      requires Ok()
      modifies this, children
      ensures Ok() && IsGreatest(Union(), At())
    {
      for i := 0 to |children|
        invariant ChildrenOk()
        invariant forall a :: 0 <= a < i ==> children[a].pos == |children[a].entries| - 1
      {
        children[i].SeekToLast();
      }
      FindLargest();
      direction := Reverse;
      LargestIsGreatest();
    }

    method Seek(target: InternalKey)
      requires Ok()
      modifies this, children
      ensures Ok() && IsAtOrAfter(Union(), target, At())
    {
      for i := 0 to |children|
        invariant ChildrenOk()
        invariant forall a :: 0 <= a < i ==> AtOrAfter(children[a], target)
      {
        children[i].Seek(target);
        LowerBoundSplits(children[i].entries, target);
      }
      FindSmallest();
      direction := Forward;
      SmallestIsAtOrAfter(target);
    }

    // Position a child after the key.
    static method SeekPast(child: EntryIterator, k: InternalKey)
      requires Sorted(child.entries)
      modifies child
      ensures child.Ok() && JustAfter(child, k)
    {
      child.Seek(k);
      LowerBoundSplits(child.entries, k);
      if child.IsValid() && Compare(k, child.Current().ikey) == 0 {
        child.Next();
      }
    }

    // Position a child before the key.
    static method SeekShortOf(child: EntryIterator, k: InternalKey)
      requires Sorted(child.entries)
      modifies child
      ensures child.Ok() && JustBefore(child, k)
    {
      child.Seek(k);
      LowerBoundSplits(child.entries, k);
      if child.IsValid() {
        // Child is at the first entry at or after the key: step back one.
        child.Prev();
      } else {
        // Child has no entries at or after the key.
        child.SeekToLast();
      }
    }

    // The current child stands at the current key, in either direction.
    lemma CurrentSplits()
      requires Mergeable(children) && IsValid() && children[current].IsValid()
      ensures SplitsAt(children[current].entries, children[current].pos, Key())
      ensures SplitsAfter(children[current].entries, children[current].pos + 1, Key())
    {
      var s, p := children[current].entries, children[current].pos;
      forall i | 0 <= i < p ensures Less(s[i].ikey, s[p].ikey) {}
      forall i | p < i < |s| ensures Less(s[p].ikey, s[i].ikey) {}
    }

    method Next()
      requires Ok() && IsValid()
      modifies this, children
      ensures Ok() && IsAfter(Union(), old(Key()), At())
    {
      hide Less, Sorted;
      ghost var k := Key();
      if direction != Forward {
        for i := 0 to |children|
          invariant current == old(current) && children[current].pos == old(children[current].pos)
          invariant ChildrenOk()
          invariant forall a :: 0 <= a < i && a != current ==> JustAfter(children[a], k)
        {
          if i != current {
            SeekPast(children[i], Key());
          }
        }
        direction := Forward;
      } else {
        forall a | 0 <= a < |children| && a != current ensures JustAfter(children[a], k) {
          NotInChild(a);
        }
      }
      CurrentSplits();
      children[current].Next();
      FindSmallest();
      SmallestIsNext(k);
    }

    method Prev()
      requires Ok() && IsValid()
      modifies this, children
      ensures Ok() && IsBefore(Union(), old(Key()), At())
    {
      hide Less, Sorted;
      ghost var k := Key();
      if direction != Reverse {
        for i := 0 to |children|
          invariant current == old(current) && children[current].pos == old(children[current].pos)
          invariant ChildrenOk()
          invariant forall a :: 0 <= a < i && a != current ==> JustBefore(children[a], k)
        {
          if i != current {
            SeekShortOf(children[i], Key());
          }
        }
        direction := Reverse;
      }
      CurrentSplits();
      children[current].Prev();
      FindLargest();
      LargestIsPrev(k);
    }
  }

  lemma SeekSplits(s: seq<Entry>, n: int, t: InternalKey, m: InternalKey)
    requires Sorted(s) && 0 <= n <= |s| && !Less(m, t) && (forall i :: 0 <= i < n ==> Less(s[i].ikey, t))
    requires n < |s| ==> !Less(s[n].ikey, m)
    ensures SplitsAt(s, n, m)
  {
    forall i | n <= i < |s| ensures !Less(s[i].ikey, m) {
      if i > n { assert Less(s[n].ikey, s[i].ikey); }
    }
  }

  lemma LargestSplits(s: seq<Entry>, p: int, k: InternalKey, m: InternalKey)
    requires Sorted(s) && SplitsAt(s, p + 1, k) && Less(m, k)
    requires p >= 0 ==> Less(s[p].ikey, m)
    ensures SplitsAt(s, p + 1, m)
  {
    forall i | 0 <= i < p ensures Less(s[i].ikey, m) {
      assert Less(s[i].ikey, s[p].ikey);
    }
  }

  lemma EndSplits(s: seq<Entry>, m: InternalKey)
    requires Sorted(s) && (s != [] ==> Less(s[|s| - 1].ikey, m))
    ensures SplitsAt(s, |s|, m)
  {
    forall i | 0 <= i < |s| - 1 ensures Less(s[i].ikey, m) {
      assert Less(s[i].ikey, s[|s| - 1].ikey);
    }
  }

  lemma SmallestSplits(s: seq<Entry>, n: int, k: InternalKey, m: InternalKey)
    requires Sorted(s) && SplitsAfter(s, n, k) && Less(k, m) && (n < |s| ==> !Less(s[n].ikey, m))
    ensures SplitsAt(s, n, m)
  {
    forall i | n <= i < |s| ensures !Less(s[i].ikey, m) {
      if i > n { assert Less(s[n].ikey, s[i].ikey); }
    }
  }
}
