// One shard of the LRU cache (LRUCache in util/cache.cc): reference counts,
// the two lists, the charge, and eviction.

module LruCache {
  import opened Wrappers
  import opened Coding
  import opened LruList
  import opened HandleTables

  class LRUCache {
    var capacity: nat
    var usage: nat
    // Dummy heads of the two lists.
    const lru: LRUHandle
    const inUse: LRUHandle
    const table: HandleTable
    ghost var lruList: seq<LRUHandle>
    ghost var inUseList: seq<LRUHandle>
    ghost var lruSet: set<LRUHandle>
    ghost var inUseSet: set<LRUHandle>
    // Every entry ever made.
    ghost var all: set<LRUHandle>

    ghost predicate Lists()
      reads `lruList, `inUseList, `lruSet, `inUseSet, `all, ({lru, inUse} + lruSet + inUseSet)`next, ({lru, inUse} + lruSet + inUseSet)`prev
    {
      && Ring(lru, lruList, lruSet) && Ring(inUse, inUseList, inUseSet) && lru != inUse
      && lruSet !! inUseSet && lruSet + inUseSet <= all
      && lru !in all && inUse !in all
    }

    // One reference for each handle given out and one for the cache; the
    // deleter ran exactly if none is left.
    ghost predicate Counted(e: LRUHandle)
      reads `lruSet, `inUseSet, e`refs, e`clients, e`inCache, e`deletions
    {
      && (e.inCache <==> e in lruSet || e in inUseSet)
      && e.refs == e.clients + (if e.inCache then 1 else 0)
      && e.deletions == if e.refs == 0 then 1 else 0
    }

    // Entries nobody holds are on the one list, entries in use on the other.
    ghost predicate Placed()
      reads `lruSet, `inUseSet, (lruSet + inUseSet)`clients
    {
      && (forall e :: e in lruSet ==> e.clients == 0)
      && forall e :: e in inUseSet ==> e.clients > 0
    }

    ghost predicate Valid()
      reads this, table, table.list, all, lru, inUse
    {
      && lruSet + inUseSet <= all && Lists() && Placed()
      && (forall e :: e in all ==> Counted(e))
      && table.entries == lruSet + inUseSet && table.Valid()
      && usage == Charge(lruList) + Charge(inUseList)
    }

    constructor ()
      ensures Valid() && capacity == 0 && all == {} && fresh(lru) && fresh(inUse) && fresh(table) && fresh(table.list)
    {
      lru := new LRUHandle([], 0, 0);
      inUse := new LRUHandle([], 0, 0);
      table := new HandleTable();
      capacity, usage := 0, 0;
      lruList, inUseList, lruSet, inUseSet, all := [], [], {}, {}, {};
      new;
      lru.next, lru.prev, inUse.next, inUse.prev := lru, lru, inUse, inUse;
    }

    // The entry that nobody held is now in use.
    method MoveToInUse(e: LRUHandle)
      requires Lists() && e in lruSet
      modifies `lruList, `inUseList, `lruSet, `inUseSet
      modifies ({lru, inUse} + lruSet + inUseSet)`next, ({lru, inUse} + lruSet + inUseSet)`prev
      ensures Lists() && lruList == Minus(old(lruList), e) && inUseList == old(inUseList) + [e]
      ensures Charge(lruList) + Charge(inUseList) == old(Charge(lruList) + Charge(inUseList))
      ensures lruSet == old(lruSet) - {e} && inUseSet == old(inUseSet) + {e}
    {
      hide Ring, Charge, Without, Minus;
      RingIs(lru, lruList, lruSet);
      RingIs(inUse, inUseList, inUseSet);
      ghost var k :| 0 <= k < |lruList| && lruList[k] == e;
      ChargeWithout(lruList, k);
      MinusIsWithout(lruList, k);
      ChargeMore(inUseList, e);
      LruList.Remove(lru, lruList, lruSet, k, e);
      LruList.Append(inUse, inUseList, inUseSet, e);
      lruList, inUseList := Without(lruList, k), inUseList + [e];
      lruSet, inUseSet := lruSet - {e}, inUseSet + {e};
    }

    // The entry in use is held by nobody any more, and newest of those.
    method MoveToLru(e: LRUHandle)
      requires Lists() && e in inUseSet
      modifies `lruList, `inUseList, `lruSet, `inUseSet
      modifies ({lru, inUse} + lruSet + inUseSet)`next, ({lru, inUse} + lruSet + inUseSet)`prev
      ensures Lists() && lruList == old(lruList) + [e]
      ensures Charge(lruList) + Charge(inUseList) == old(Charge(lruList) + Charge(inUseList))
      ensures lruSet == old(lruSet) + {e} && inUseSet == old(inUseSet) - {e}
    {
      hide Ring, Charge, Without;
      RingIs(lru, lruList, lruSet);
      RingIs(inUse, inUseList, inUseSet);
      ghost var k :| 0 <= k < |inUseList| && inUseList[k] == e;
      ChargeWithout(inUseList, k);
      ChargeMore(lruList, e);
      LruList.Remove(inUse, inUseList, inUseSet, k, e);
      LruList.Append(lru, lruList, lruSet, e);
      lruList, inUseList := lruList + [e], Without(inUseList, k);
      lruSet, inUseSet := lruSet + {e}, inUseSet - {e};
    }

    // The entry leaves the list it is on.
    method Unlink(e: LRUHandle)
      requires Lists() && (e in lruSet || e in inUseSet)
      modifies `lruList, `inUseList, `lruSet, `inUseSet
      modifies ({lru, inUse} + lruSet + inUseSet)`next, ({lru, inUse} + lruSet + inUseSet)`prev
      ensures Lists() && lruList == Minus(old(lruList), e)
      ensures lruSet == old(lruSet) - {e} && inUseSet == old(inUseSet) - {e}
      ensures Charge(lruList) + Charge(inUseList) + e.charge == old(Charge(lruList) + Charge(inUseList))
    {
      hide Ring, Charge, Without, Minus;
      RingIs(lru, lruList, lruSet);
      RingIs(inUse, inUseList, inUseSet);
      ghost var oldest := e in lruSet;
      ghost var s := if oldest then lruList else inUseList;
      ghost var k :| 0 <= k < |s| && s[k] == e;
      ChargeWithout(s, k);
      MinusIsWithout(s, k);
      LruList.Remove(if oldest then lru else inUse, s, if oldest then lruSet else inUseSet, k, e);
      if oldest {
        lruList, lruSet := Without(s, k), lruSet - {e};
      } else {
        MinusAbsent(lruList, e);
        inUseList, inUseSet := Without(s, k), inUseSet - {e};
      }
    }

    // A new entry, in use from the start.
    method Link(e: LRUHandle)
      requires Lists() && e in all && e !in lruSet && e !in inUseSet
      modifies `inUseList, `inUseSet, ({inUse, e} + inUseSet)`next, ({inUse, e} + inUseSet)`prev
      ensures Lists() && inUseList == old(inUseList) + [e] && inUseSet == old(inUseSet) + {e}
      ensures Charge(inUseList) == old(Charge(inUseList)) + e.charge
    {
      hide Ring, Charge;
      ChargeMore(inUseList, e);
      LruList.Append(inUse, inUseList, inUseSet, e);
      inUseList, inUseSet := inUseList + [e], inUseSet + {e};
    }

    // The state before Unref: one reference too many on e.
    ghost predicate OneOver(e: LRUHandle)
      reads this, table, table.list, all, lru, inUse
    {
      && lruSet + inUseSet <= all && Lists()
      && e in all && e !in lruSet && (e.inCache <==> e in inUseSet)
      && e.refs == e.clients + (if e.inCache then 1 else 0) + 1 && e.deletions == 0
      && (forall f :: f in lruSet ==> f.clients == 0)
      && (forall f :: f in inUseSet && f != e ==> f.clients > 0)
      && (forall f :: f in all && f != e ==> Counted(f))
      && table.entries == lruSet + inUseSet && table.Valid()
      && usage == Charge(lruList) + Charge(inUseList)
    }

    method Unref(e: LRUHandle)
      requires OneOver(e)
      modifies `lruList, `inUseList, `lruSet, `inUseSet, all`next, all`prev, lru`next, lru`prev, inUse`next, inUse`prev, e`refs, e`deletions
      ensures Valid()
      ensures e.deletions == if e.refs == 0 then 1 else 0
      ensures lruList == old(lruList) + (if e.inCache && e.clients == 0 then [e] else [])
      ensures lruSet + inUseSet == old(lruSet + inUseSet)
    {
      hide Ring, Charge, Without, HandleTable.Valid;
      e.refs := e.refs - 1;
      if e.refs == 0 {
        e.deletions := e.deletions + 1;
      } else if e.inCache && e.refs == 1 {
        MoveToLru(e);
      }
    }

    lemma OnOneList(e: LRUHandle)
      requires Lists()
      ensures e in lruSet ==> e !in inUseSet
      ensures e !in lruSet ==> Minus(lruList, e) == lruList
      ensures lruSet + inUseSet <= all && lru !in all && inUse !in all
    {
      hide Ring, Minus;
      RingIs(lru, lruList, lruSet);
      if e !in lruSet { MinusAbsent(lruList, e); }
    }

    // One more handle on a cached entry.
    method Ref(e: LRUHandle)
      requires Valid() && e in table.entries
      modifies `lruList, `inUseList, `lruSet, `inUseSet, all`next, all`prev, lru`next, lru`prev, inUse`next, inUse`prev, e`refs, e`clients
      ensures Valid() && e.clients == old(e.clients) + 1
      ensures lruList == Minus(old(lruList), e) && lruSet + inUseSet == old(lruSet + inUseSet)
    {
      hide Lists, Charge, Minus, HandleTable.Valid;
      OnOneList(e);
      assert Counted(e);
      if e.refs == 1 && e.inCache {
        MoveToInUse(e);
      }
      e.refs := e.refs + 1;
      e.clients := e.clients + 1;
    }

    method Lookup(key: seq<byte>, hash: uint32) returns (e: LRUHandle?)
      requires Valid()
      modifies `lruList, `inUseList, `lruSet, `inUseSet, all`next, all`prev, lru`next, lru`prev, inUse`next, inUse`prev, all`refs, all`clients
      ensures Valid() && lruSet + inUseSet == old(lruSet + inUseSet) && lruList == Minus(old(lruList), e)
      ensures e == null ==> forall f :: f in table.entries ==> !Same(f, key, hash)
      ensures e != null ==> e in table.entries && Same(e, key, hash) && e.clients == old(e.clients) + 1
      ensures forall f :: f in all && f != e ==> f.clients == old(f.clients)
    {
      hide Lists, Counted, Placed, Minus, Charge, HandleTable.Valid;
      e := table.Lookup(key, hash);
      if e != null {
        Ref(e);
      } else {
        NullAbsent(lruList);
      }
    }

    // The client gives back a handle it holds.
    method Release(e: LRUHandle)
      requires Valid() && e in all && e.clients > 0
      modifies `lruList, `inUseList, `lruSet, `inUseSet, all`next, all`prev, lru`next, lru`prev, inUse`next, inUse`prev, e`refs, e`clients, e`deletions
      ensures Valid() && lruSet + inUseSet == old(lruSet + inUseSet) && e.clients == old(e.clients) - 1
      ensures e.deletions == if e.clients == 0 && e !in table.entries then 1 else 0
      ensures lruList == old(lruList) + if e.clients == 0 && e in table.entries then [e] else []
    {
      hide Ring, Charge, HandleTable.Valid;
      assert Counted(e);
      e.clients := e.clients - 1;
      Unref(e);
      assert Counted(e);
    }

    // The state before FinishErase: the table has let go of e.
    ghost predicate Removed(e: LRUHandle)
      reads this, table, table.list, all, lru, inUse
    {
      && lruSet + inUseSet <= all && Lists() && Placed()
      && (forall f :: f in all ==> Counted(f))
      && e in lruSet + inUseSet && table.entries == lruSet + inUseSet - {e} && table.Valid()
      && usage == Charge(lruList) + Charge(inUseList)
    }

    method FinishErase(e: LRUHandle?) returns (erased: bool)
      requires if e == null then Valid() else Removed(e)
      modifies `lruList, `inUseList, `lruSet, `inUseSet, `usage, all`next, all`prev, lru`next, lru`prev, inUse`next, inUse`prev
      modifies (if e == null then {} else {e})`inCache, (if e == null then {} else {e})`refs, (if e == null then {} else {e})`deletions
      ensures Valid() && erased == (e != null) && lruList == Minus(old(lruList), e)
      ensures if e == null then lruSet + inUseSet == old(lruSet + inUseSet) && usage == old(usage)
              else lruSet + inUseSet == old(lruSet + inUseSet) - {e} && usage + e.charge == old(usage)
      ensures e != null ==> e.deletions == if e.clients == 0 then 1 else old(e.deletions)
    {
      hide Ring, Charge, Minus, HandleTable.Valid;
      if e != null {
        assert Counted(e);
        Unlink(e);
        e.inCache := false;
        usage := usage - e.charge;
        Unref(e);
      } else {
        NullAbsent(lruList);
      }
      erased := e != null;
    }

    // The entry leaves the cache; its key and hash find it in the table.
    method EraseEntry(e: LRUHandle)
      requires Valid() && e in table.entries
      modifies `lruList, `inUseList, `lruSet, `inUseSet, `usage, all`next, all`prev, lru`next, lru`prev, inUse`next, inUse`prev
      modifies e`inCache, e`refs, e`deletions, table`elems, table`chains, table`entries, table.list, all`nextHash
      ensures Valid() && lruList == Minus(old(lruList), e) && table.entries == old(table.entries) - {e}
      ensures usage + e.charge == old(usage) && e.deletions == if e.clients == 0 then 1 else old(e.deletions)
    {
      hide Ring, Charge, Minus, Lists, Counted, Placed, Holds, Chained, PowerOf2;
      var removed := table.Remove(e.key, e.hash);
      assert removed == e;
      var erased := FinishErase(removed);
    }

    // The oldest entry that nobody holds goes.
    method EvictOldest()
      requires Valid() && lruList != []
      modifies `lruList, `inUseList, `lruSet, `inUseSet, `usage, all`next, all`prev, lru`next, lru`prev, inUse`next, inUse`prev
      modifies all`inCache, all`refs, all`deletions, table`elems, table`chains, table`entries, table.list, all`nextHash
      ensures Valid() && lruList == old(lruList)[1..] && usage + old(lruList)[0].charge == old(usage)
      ensures table.entries == old(table.entries) - {old(lruList)[0]}
      ensures forall f :: f in all ==> f.deletions == if f == old(lruList)[0] then 1 else old(f.deletions)
    {
      hide Ring, Charge, Minus, Lists, Counted, Placed, HandleTable.Valid;
      HeadIsFirst();
      var old_ := lru.next;
      assert old_ == lruList[0] && old_ in lruSet;
      EraseEntry(old_);
    }

    // The oldest entries go while there is too much charge.
    method EvictWhileOver() returns (ghost n: nat)
      requires Valid()
      modifies `lruList, `inUseList, `lruSet, `inUseSet, `usage, all`next, all`prev, lru`next, lru`prev, inUse`next, inUse`prev
      modifies all`inCache, all`refs, all`deletions, table`elems, table`chains, table`entries, table.list, all`nextHash
      ensures Valid() && (usage <= capacity || lruList == [])
      ensures n <= |old(lruList)| && lruList == old(lruList)[n..]
      ensures table.entries == old(table.entries) - Nodes(old(lruList)[..n])
      ensures n > 0 ==> usage + old(lruList)[n - 1].charge > capacity
      ensures forall f :: f in all ==> f.deletions == if f in old(lruList)[..n] then 1 else old(f.deletions)
    {
      hide Valid;
      n := 0;
      ghost var s := lruList;
      HeadIsFirst();
      while usage > capacity && lru.next != lru
        invariant Valid() && lru.next == (if lruList == [] then lru else lruList[0]) && (lruList != [] ==> lruList[0] != lru)
        invariant n <= |s| && lruList == s[n..]
        invariant table.entries == old(table.entries) - Nodes(s[..n])
        invariant n > 0 ==> usage + s[n - 1].charge > capacity
        invariant forall f :: f in all ==> f.deletions == if f in s[..n] then 1 else old(f.deletions)
        decreases |s| - n
      {
        assert s[..n + 1] == s[..n] + [s[n]];
        EvictOldest();
        n := n + 1;
        HeadIsFirst();
      }
    }

    // A handle that is not in the cache yet.
    method NewHandle(key: seq<byte>, hash: uint32, charge: nat) returns (e: LRUHandle)
      requires Valid()
      modifies `all
      ensures Valid() && fresh(e) && all == old(all) + {e}
      ensures Same(e, key, hash) && e.charge == charge && !e.inCache && e.refs == 1 && e.clients == 1
    {
      hide Ring, Charge, HandleTable.Valid;
      e := new LRUHandle(key, hash, charge);
      assert e !in lruSet + inUseSet;
      all := all + {e};
    }

    // The cache's own reference, before the table knows the entry.
    method CacheReference(e: LRUHandle)
      requires Valid() && e in all && !e.inCache && e.refs == 1 && e.clients == 1
      modifies `inUseList, `inUseSet, `usage, all`next, all`prev, inUse`next, inUse`prev, e`inCache, e`refs
      ensures Removed(e) && usage == old(usage) + e.charge
      ensures inUseSet == old(inUseSet) + {e}
    {
      hide Ring, Charge, HandleTable.Valid;
      assert Counted(e);
      e.refs := e.refs + 1;
      e.inCache := true;
      Link(e);
      usage := usage + e.charge;
    }

    // An entry under a new key, or in the place of `dup`.
    method Cache(e: LRUHandle) returns (ghost dup: LRUHandle?)
      requires Valid() && e in all && !e.inCache && e.refs == 1 && e.clients == 1
      modifies `lruList, `inUseList, `lruSet, `inUseSet, `usage, all`next, all`prev, lru`next, lru`prev, inUse`next, inUse`prev
      modifies all`inCache, all`refs, all`deletions, table, table.list, all`nextHash
      ensures Valid() && (table.list == old(table.list) || fresh(table.list))
      ensures if dup == null then forall f :: f in old(table.entries) ==> !Same(f, e.key, e.hash)
              else dup in old(table.entries) && Same(dup, e.key, e.hash)
      ensures table.entries == With(old(table.entries), dup, e) && lruList == Minus(old(lruList), dup)
      ensures usage == old(usage) + e.charge - if dup == null then 0 else dup.charge
      ensures forall f :: f in all ==> f.deletions == if f == dup && f.clients == 0 then 1 else old(f.deletions)
    {
      hide Charge, Minus, Lists, Counted, Placed, HandleTable.Valid;
      CacheReference(e);
      var replaced := table.Insert(e);
      dup := replaced;
      var erased := FinishErase(replaced);
    }

    method Insert(key: seq<byte>, hash: uint32, charge: nat) returns (e: LRUHandle, ghost dup: LRUHandle?, ghost n: nat)
      requires Valid()
      modifies this, all, lru, inUse, table, table.list
      ensures Valid() && capacity == old(capacity) && (table.list == old(table.list) || fresh(table.list))
      ensures fresh(e) && all == old(all) + {e} && Same(e, key, hash) && e.charge == charge && e.clients == 1
      ensures usage <= capacity || lruList == []
      // The cache holds the entry unless caching is off; another one with the
      // key leaves, and then the n oldest that nobody holds, no more than needed.
      ensures if capacity == 0 then dup == null
              else if dup == null then forall f :: f in old(table.entries) ==> !Same(f, key, hash)
              else dup in old(table.entries) && Same(dup, key, hash)
      ensures var idle := Minus(old(lruList), dup);
        && n <= |idle| && lruList == idle[n..] && (n > 0 ==> usage + idle[n - 1].charge > capacity)
        && table.entries == (if capacity == 0 then old(table.entries) else With(old(table.entries), dup, e)) - Nodes(idle[..n])
        && forall f :: f in old(all) ==> f.deletions == if f in idle[..n] || (f == dup && f.clients == 0) then 1 else old(f.deletions)
      ensures forall f :: f in old(all) ==> f.clients == old(f.clients)
    {
      hide Ring, Charge, Minus, Lists, HandleTable.Valid, With;
      e := NewHandle(key, hash, charge);
      dup := null;
      NullAbsent(lruList);
      if capacity > 0 {
        dup := Cache(e);
      }
      n := EvictWhileOver();
    }

    method Erase(key: seq<byte>, hash: uint32) returns (ghost gone: LRUHandle?)
      requires Valid()
      modifies `lruList, `inUseList, `lruSet, `inUseSet, `usage, all`next, all`prev, lru`next, lru`prev, inUse`next, inUse`prev
      modifies all`inCache, all`refs, all`deletions, table`elems, table`chains, table`entries, table.list, all`nextHash
      ensures Valid() && lruList == Minus(old(lruList), gone)
      ensures gone != null ==> gone in old(table.entries) && Same(gone, key, hash) && table.entries == old(table.entries) - {gone}
      ensures gone == null ==> table.entries == old(table.entries)
      ensures forall f :: f in table.entries ==> !Same(f, key, hash)
      ensures usage == old(usage) - if gone == null then 0 else gone.charge
      ensures forall f :: f in all ==> f.deletions == if f == gone && f.clients == 0 then 1 else old(f.deletions)
    {
      hide Ring, Charge, Minus, Lists, Counted, Placed, Holds, Chained, PowerOf2;
      var removed := table.Remove(key, hash);
      gone := removed;
      var erased := FinishErase(removed);
    }

    // Drops every entry that nobody holds.
    method Prune()
      requires Valid()
      modifies `lruList, `inUseList, `lruSet, `inUseSet, `usage, all`next, all`prev, lru`next, lru`prev, inUse`next, inUse`prev
      modifies all`inCache, all`refs, all`deletions, table`elems, table`chains, table`entries, table.list, all`nextHash
      ensures Valid() && lruList == [] && table.entries == old(table.entries) - Nodes(old(lruList))
      ensures forall f :: f in all ==> f.deletions == if f in old(lruList) then 1 else old(f.deletions)
    {
      hide Valid;
      ghost var n, s := 0, lruList;
      HeadIsFirst();
      while lru.next != lru
        invariant Valid() && lru.next == (if lruList == [] then lru else lruList[0]) && (lruList != [] ==> lruList[0] != lru)
        invariant n <= |s| && lruList == s[n..]
        invariant table.entries == old(table.entries) - Nodes(s[..n])
        invariant forall f :: f in all ==> f.deletions == if f in s[..n] then 1 else old(f.deletions)
        decreases |s| - n
      {
        assert s[..n + 1] == s[..n] + [s[n]];
        EvictOldest();
        n := n + 1;
        HeadIsFirst();
      }
      assert s[..n] == s;
    }

    method SetCapacity(capacity: nat)
      requires Valid()
      modifies `capacity
      ensures Valid() && this.capacity == capacity
    {
      hide Lists, Counted, Placed, HandleTable.Valid;
      this.capacity := capacity;
    }

    // Over any run, the deleter runs at most once for an entry, and has run
    // exactly when no handle on it is left and the cache has let it go.
    lemma DeletedOnceWhenUnused(e: LRUHandle)
      requires Valid() && e in all
      ensures e.deletions <= 1 && (e.deletions == 1 <==> e.clients == 0 && e !in table.entries)
      ensures e.inCache <==> e in table.entries
      ensures e in table.entries ==> (e in lruList <==> e.refs == 1) && (e in inUseList <==> e.refs >= 2)
    {
      hide Ring, Charge, HandleTable.Valid;
      assert Counted(e);
      RingIs(lru, lruList, lruSet);
      RingIs(inUse, inUseList, inUseSet);
    }

    lemma HeadIsFirst()
      requires Valid()
      ensures lru.next == (if lruList == [] then lru else lruList[0]) && (lruList != [] ==> lruList[0] != lru)
      ensures forall e :: e in lruList <==> e in lruSet
      ensures Distinct(lruList) && forall e :: e in lruList ==> e in table.entries && e.clients == 0 && Minus(lruList, lruList[0]) == lruList[1..]
    {
      hide Ring;
      RingIs(lru, lruList, lruSet);
    }
  }

  lemma NullAbsent(s: seq<LRUHandle>)
    ensures Minus(s, null) == s
  {
    MinusAbsent(s, null);
  }

  lemma ChargeMore(s: seq<LRUHandle>, e: LRUHandle)
    ensures Charge(s + [e]) == Charge(s) + e.charge
  {
    assert (s + [e])[..|s|] == s;
  }
}
