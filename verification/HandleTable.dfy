// The cache's hash table: an array of chains of entries, doubled as it fills
// (HandleTable in util/cache.cc).  The table's length is a power of two, so
// that masking a hash with length - 1 is taking the remainder.

module HandleTables {
  import opened Wrappers
  import opened Coding
  import opened Varint
  import opened LruList

  ghost predicate Hop(s: seq<LRUHandle>, i: nat)
    requires i < |s|
    reads Nodes(s)`nextHash
  {
    s[i].nextHash == if i + 1 < |s| then s[i + 1] else null
  }

  // The chain that starts with `first` is s.
  ghost predicate Chain(first: LRUHandle?, s: seq<LRUHandle>)
    reads Nodes(s)`nextHash
  {
    && first == (if s == [] then null else s[0])
    && Distinct(s)
    && forall i :: 0 <= i < |s| ==> Hop(s, i)
  }

  // hash & (n - 1)
  function BucketOf(hash: uint32, n: nat): (b: nat)
    requires n > 0
    ensures b < n
  {
    hash % n
  }

  ghost predicate Unique(es: set<LRUHandle>) {
    forall e, f :: e in es && f in es && Same(e, f.key, f.hash) ==> e == f
  }

  // Bucket b of n: entries of es that hash to it.
  ghost predicate InBucket(s: seq<LRUHandle>, b: nat, n: nat, es: set<LRUHandle>)
    requires n > 0
  {
    forall i :: 0 <= i < |s| ==> s[i] in es && BucketOf(s[i].hash, n) == b
  }

  // The buckets hold the entries, each once.
  ghost predicate Holds(chains: seq<seq<LRUHandle>>, es: set<LRUHandle>) {
    && |chains| > 0
    && (forall b :: 0 <= b < |chains| ==> InBucket(chains[b], b, |chains|, es))
    && forall e :: e in es ==> e in chains[BucketOf(e.hash, |chains|)]
  }

  // ... and are linked as the chains.
  ghost predicate Chained(list: seq<LRUHandle?>, chains: seq<seq<LRUHandle>>, es: set<LRUHandle>)
    requires Holds(chains, es)
    reads es`nextHash
  {
    |list| == |chains| && forall b :: 0 <= b < |chains| ==> Bucket(list, chains, es, b)
  }

  ghost predicate Bucket(list: seq<LRUHandle?>, chains: seq<seq<LRUHandle>>, es: set<LRUHandle>, b: nat)
    requires Holds(chains, es) && b < |chains| == |list|
    reads es`nextHash
  {
    assert InBucket(chains[b], b, |chains|, es);
    Chain(list[b], chains[b])
  }

  predicate PowerOf2(n: nat) {
    n == 1 || (n > 1 && n % 2 == 0 && PowerOf2(n / 2))
  }

  /* What changing one chain does to what the buckets hold. */

  lemma EntryAt(chains: seq<seq<LRUHandle>>, es: set<LRUHandle>, b: nat, i: nat)
    requires Holds(chains, es) && b < |chains| && i < |chains[b]|
    ensures chains[b][i] in es && BucketOf(chains[b][i].hash, |chains|) == b
  {
    assert InBucket(chains[b], b, |chains|, es);
  }

  lemma OtherBucket(chains: seq<seq<LRUHandle>>, es: set<LRUHandle>, b: nat, c: nat, i: nat, e: LRUHandle)
    requires Holds(chains, es) && b < |chains| && c < |chains| && b != c && i < |chains[c]| && BucketOf(e.hash, |chains|) == b
    ensures chains[c][i] != e
  {
    EntryAt(chains, es, c, i);
  }

  lemma HoldsReplaced(chains: seq<seq<LRUHandle>>, es: set<LRUHandle>, b: nat, k: nat, h: LRUHandle)
    requires Holds(chains, es) && b < |chains| && k < |chains[b]| && Distinct(chains[b])
    requires h !in es && BucketOf(h.hash, |chains|) == b
    ensures Holds(chains[b := chains[b][k := h]], es - {chains[b][k]} + {h})
  {
    var n, s := |chains|, chains[b];
    var t, es' := s[k := h], es - {s[k]} + {h};
    var chains' := chains[b := t];
    EntryAt(chains, es, b, k);
    forall c | 0 <= c < n ensures InBucket(chains'[c], c, n, es') {
      forall i | 0 <= i < |chains'[c]| ensures chains'[c][i] in es' && BucketOf(chains'[c][i].hash, n) == c {
        EntryAt(chains, es, c, i);
        if c != b { OtherBucket(chains, es, b, c, i, s[k]); }
      }
    }
    forall e | e in es' ensures e in chains'[BucketOf(e.hash, n)] {
      if e == h {
        assert t[k] == h;
      } else {
        assert e in chains[BucketOf(e.hash, n)];
        if BucketOf(e.hash, n) == b {
          var i :| 0 <= i < |s| && s[i] == e;
          assert t[i] == e;
        }
      }
    }
  }

  lemma HoldsAppended(chains: seq<seq<LRUHandle>>, es: set<LRUHandle>, b: nat, h: LRUHandle)
    requires Holds(chains, es) && b < |chains| && BucketOf(h.hash, |chains|) == b
    ensures Holds(chains[b := chains[b] + [h]], es + {h})
    ensures Holds(chains[b := [h] + chains[b]], es + {h})
  {
    var n, s, es' := |chains|, chains[b], es + {h};
    var after, before := chains[b := s + [h]], chains[b := [h] + s];
    forall c | 0 <= c < n ensures InBucket(after[c], c, n, es') && InBucket(before[c], c, n, es') {
      assert InBucket(chains[c], c, n, es);
    }
    forall e | e in es' ensures e in after[BucketOf(e.hash, n)] && e in before[BucketOf(e.hash, n)] {
      if e != h { assert e in chains[BucketOf(e.hash, n)]; }
    }
  }

  lemma HoldsPlaced(chains: seq<seq<LRUHandle>>, es: set<LRUHandle>, b: nat, k: nat, h: LRUHandle)
    requires Holds(chains, es) && b < |chains| && k <= |chains[b]| && Distinct(chains[b])
    requires h !in es && BucketOf(h.hash, |chains|) == b
    ensures Holds(chains[b := Placed(chains[b], k, h)], With(es, if k < |chains[b]| then chains[b][k] else null, h))
  {
    hide BucketOf, Holds;
    if k < |chains[b]| { HoldsReplaced(chains, es, b, k, h); } else { HoldsAppended(chains, es, b, h); }
  }

  lemma HoldsRemoved(chains: seq<seq<LRUHandle>>, es: set<LRUHandle>, b: nat, k: nat)
    requires Holds(chains, es) && b < |chains| && k < |chains[b]| && Distinct(chains[b])
    ensures Holds(chains[b := Without(chains[b], k)], es - {chains[b][k]})
  {
    var n, s := |chains|, chains[b];
    var t, es' := Without(s, k), es - {s[k]};
    var chains' := chains[b := t];
    WithoutNodes(s, k);
    EntryAt(chains, es, b, k);
    forall c | 0 <= c < n ensures InBucket(chains'[c], c, n, es') {
      forall i | 0 <= i < |chains'[c]| ensures chains'[c][i] in es' && BucketOf(chains'[c][i].hash, n) == c {
        if c != b {
          EntryAt(chains, es, c, i);
          OtherBucket(chains, es, b, c, i, s[k]);
        } else {
          assert t[i] in Nodes(t);
          EntryAt(chains, es, b, if i < k then i else i + 1);
        }
      }
    }
    forall e | e in es' ensures e in chains'[BucketOf(e.hash, n)] {
      assert e in chains[BucketOf(e.hash, n)];
      if BucketOf(e.hash, n) == b { assert e in Nodes(t); }
    }
  }

  lemma ChainedAfter(list: seq<LRUHandle?>, chains: seq<seq<LRUHandle>>, b: nat, t: seq<LRUHandle>, es: set<LRUHandle>)
    requires b < |chains| == |list| && Holds(chains[b := t], es)
    requires Chain(list[b], t) && forall c :: 0 <= c < |chains| && c != b ==> Chain(list[c], chains[c])
    ensures Chained(list, chains[b := t], es)
  {
    hide Chain;
    var chains' := chains[b := t];
    forall c | 0 <= c < |chains'| ensures Bucket(list, chains', es, c) { }
  }

  // h in the place of the k-th entry of a chain, or at its end.
  function Placed(s: seq<LRUHandle>, k: nat, h: LRUHandle): seq<LRUHandle>
    requires k <= |s|
  {
    if k < |s| then s[k := h] else s + [h]
  }

  lemma PlacedHops(first: LRUHandle?, s: seq<LRUHandle>, k: nat, h: LRUHandle)
    requires Chain(first, s) && k <= |s| && h !in s
    requires h.nextHash == if k < |s| then s[k].nextHash else null
    ensures var t := Placed(s, k, h);
      Distinct(t) && k < |t| && t[..k] == s[..k] && t[k] == h && forall i :: k <= i < |t| ==> Hop(t, i)
  {
    var t := Placed(s, k, h);
    forall i | k <= i < |t| ensures Hop(t, i) {
      if i < |s| { assert Hop(s, i); }
    }
  }

  lemma WithoutHops(first: LRUHandle?, s: seq<LRUHandle>, k: nat)
    requires Chain(first, s) && k < |s|
    ensures var t := Without(s, k);
      && k <= |t| && Distinct(t) && t[..k] == s[..k] && s[k].nextHash == (if k < |t| then t[k] else null)
      && forall i :: k <= i < |t| ==> Hop(t, i)
  {
    var t := Without(s, k);
    WithoutNodes(s, k);
    assert Hop(s, k);
    forall i | k <= i < |t| ensures Hop(t, i) { assert Hop(s, i + 1); }
  }

  lemma EntriesOf(chains: seq<seq<LRUHandle>>, es: set<LRUHandle>, b: nat)
    requires Holds(chains, es) && b < |chains|
    ensures forall e :: e in chains[b] ==> e in es
  {
    assert InBucket(chains[b], b, |chains|, es);
  }

  lemma ChainOf(list: seq<LRUHandle?>, chains: seq<seq<LRUHandle>>, es: set<LRUHandle>, b: nat)
    requires Holds(chains, es) && Chained(list, chains, es) && b < |chains|
    ensures |list| == |chains| && Chain(list[b], chains[b]) && Distinct(chains[b]) && forall e :: e in chains[b] ==> e in es
  {
    assert Bucket(list, chains, es, b) && InBucket(chains[b], b, |chains|, es);
  }

  function With(es: set<LRUHandle>, old_: LRUHandle?, h: LRUHandle): set<LRUHandle> {
    if old_ == null then es + {h} else es - {old_} + {h}
  }

  // An entry under a new key, or in place of the one with its key.
  lemma UniqueAfter(es: set<LRUHandle>, old_: LRUHandle?, h: LRUHandle)
    requires Unique(es) && h !in es
    requires if old_ == null then forall e :: e in es ==> !Same(e, h.key, h.hash) else old_ in es && Same(old_, h.key, h.hash)
    ensures Unique(With(es, old_, h)) && |With(es, old_, h)| == |es| + if old_ == null then 1 else 0
  {
  }

  lemma BucketIs(chains: seq<seq<LRUHandle>>, es: set<LRUHandle>, b: nat)
    requires Holds(chains, es) && b < |chains|
    ensures forall e :: e in chains[b] <==> e in es && BucketOf(e.hash, |chains|) == b
  {
    assert InBucket(chains[b], b, |chains|, es);
  }

  lemma SameLength(list: seq<LRUHandle?>, chains: seq<seq<LRUHandle>>, es: set<LRUHandle>)
    requires Holds(chains, es) && Chained(list, chains, es)
    ensures |list| == |chains| > 0
  {
  }

  lemma ChainDistinct(first: LRUHandle?, s: seq<LRUHandle>)
    requires Chain(first, s)
    ensures Distinct(s)
  {
  }

  lemma EmptyTable(list: seq<LRUHandle?>, chains: seq<seq<LRUHandle>>)
    requires |list| == |chains| > 0 && forall b :: 0 <= b < |chains| ==> list[b] == null && chains[b] == []
    ensures Holds(chains, {}) && Chained(list, chains, {})
  {
    forall b | 0 <= b < |chains| ensures InBucket(chains[b], b, |chains|, {}) { }
    forall b | 0 <= b < |chains| ensures Bucket(list, chains, {}, b) { }
  }

  lemma {:induction false} SizeOfUnion(es: set<LRUHandle>, s: seq<LRUHandle>)
    requires Distinct(s) && es !! Nodes(s)
    ensures |es + Nodes(s)| == |es| + |s|
  {
    if s == [] {
      assert es + Nodes(s) == es;
    } else {
      var n := |s| - 1;
      SizeOfUnion(es, s[..n]);
      assert es + Nodes(s) == es + Nodes(s[..n]) + {s[n]};
    }
  }

  class HandleTable {
    var length: nat
    var elems: nat
    var list: array<LRUHandle?>
    ghost var chains: seq<seq<LRUHandle>>
    ghost var entries: set<LRUHandle>

    constructor ()
      ensures Valid() && entries == {} && elems <= length && fresh(list)
    {
      length, elems := 4, 0;
      list := new LRUHandle?[4](_ => null);
      chains, entries := seq(4, _ => []), {};
      new;
      EmptyTable(list[..], chains);
      assert PowerOf2(1) && PowerOf2(2) && PowerOf2(4);
    }

    ghost predicate Valid()
      reads this, list, entries`nextHash
    {
      && Unique(entries) && Holds(chains, entries) && Chained(list[..], chains, entries)
      && length == list.Length == |chains| && length > 0 && elems == |entries| && PowerOf2(length)
    }

    // The slot for a key: the bucket's head or the link of `pred`, and what it
    // points to.
    method FindPointer(key: seq<byte>, hash: uint32) returns (pred: LRUHandle?, node: LRUHandle?, ghost k: nat)
      requires Valid()
      ensures var s := chains[BucketOf(hash, length)];
        && k <= |s| && node == (if k < |s| then s[k] else null) && pred == (if k > 0 then s[k - 1] else null)
        && (node != null ==> node in entries && Same(node, key, hash))
        && (node == null ==> forall e :: e in entries ==> !Same(e, key, hash))
    {
      var b := BucketOf(hash, length);
      ghost var s := chains[b];
      assert Bucket(list[..], chains, entries, b) && InBucket(s, b, length, entries);
      pred, node, k := null, list[b], 0;
      while node != null && !Same(node, key, hash)
        invariant k <= |s| && node == (if k < |s| then s[k] else null) && pred == (if k > 0 then s[k - 1] else null)
        invariant forall i :: 0 <= i < k ==> !Same(s[i], key, hash)
        decreases |s| - k
      {
        assert Hop(s, k);
        pred, node, k := node, node.nextHash, k + 1;
      }
      forall e | e in entries && node == null ensures !Same(e, key, hash) {
        assert e in chains[BucketOf(e.hash, |chains|)];
      }
    }

    method Lookup(key: seq<byte>, hash: uint32) returns (e: LRUHandle?)
      requires Valid()
      ensures e != null ==> e in entries && Same(e, key, hash)
      ensures e == null ==> forall f :: f in entries ==> !Same(f, key, hash)
    {
      var pred;
      ghost var k;
      pred, e, k := FindPointer(key, hash);
    }

    // Makes the slot point to h, which turns bucket b into t.
    method StoreSlot(b: nat, ghost k: nat, pred: LRUHandle?, h: LRUHandle?, ghost t: seq<LRUHandle>)
      requires Holds(chains, entries) && Chained(list[..], chains, entries) && b < |chains|
      requires k <= |chains[b]| && k <= |t| && t[..k] == chains[b][..k] && Distinct(t)
      requires pred == (if k > 0 then chains[b][k - 1] else null) && h == (if k < |t| then t[k] else null)
      requires forall i :: k <= i < |t| ==> Hop(t, i)
      modifies list, (if pred != null then {pred} else {})`nextHash
      ensures Chain(list[b], t)
      ensures forall c :: 0 <= c < |chains| && c != b ==> list[c] == old(list[c]) && Chain(list[c], chains[c])
    {
      ghost var s := chains[b];
      assert Bucket(list[..], chains, entries, b);
      if pred == null { list[b] := h; } else { pred.nextHash := h; }
      forall i | 0 <= i < |t| ensures Hop(t, i) {
        if i < k {
          assert t[i] == t[..k][i] == s[i] && old(Hop(s, i));
          if i + 1 < k { assert t[i + 1] == t[..k][i + 1] == s[i + 1]; }
        } else {
          assert k > 0 ==> t[k - 1] == t[..k][k - 1] == pred;
          assert old(Hop(t, i));
        }
      }
      forall c | 0 <= c < |chains| && c != b ensures Chain(list[c], chains[c]) {
        assert old(Bucket(list[..], chains, entries, c));
        forall i | 0 <= i < |chains[c]| ensures Hop(chains[c], i) {
          assert old(Hop(chains[c], i));
          if k > 0 {
            EntryAt(chains, entries, b, k - 1);
            OtherBucket(chains, entries, b, c, i, pred);
          }
        }
      }
    }

    // Links h in at the k-th place of bucket b.
    method PlaceAt(b: nat, ghost k: nat, pred: LRUHandle?, old_: LRUHandle?, h: LRUHandle)
      requires Holds(chains, entries) && Chained(list[..], chains, entries) && b < |chains| && h !in entries
      requires var s := chains[b];
        k <= |s| && pred == (if k > 0 then s[k - 1] else null) && old_ == (if k < |s| then s[k] else null)
      modifies list, entries`nextHash, h`nextHash
      ensures Chain(list[b], Placed(chains[b], k, h))
      ensures forall c :: 0 <= c < |chains| && c != b ==> Chain(list[c], chains[c])
    {
      hide BucketOf, Holds, Chained, Chain, Hop, Placed;
      ghost var s := chains[b];
      ChainOf(list[..], chains, entries, b);
      assert h !in Nodes(s) && h !in entries;
      h.nextHash := if old_ == null then null else old_.nextHash;
      assert Chain(list[b], s) && Chained(list[..], chains, entries);
      PlacedHops(list[b], s, k, h);
      EntriesOf(chains, entries, b);
      StoreSlot(b, k, pred, h, Placed(s, k, h));
    }

    // Adds h, in the place of the entry with the same key if there is one.
    method Insert(h: LRUHandle) returns (old_: LRUHandle?)
      requires Valid() && h !in entries
      modifies this, list, entries`nextHash, h`nextHash
      ensures Valid() && (list == old(list) || fresh(list))
      ensures old(elems) <= old(length) ==> elems <= length
      ensures if old_ == null then forall e :: e in old(entries) ==> !Same(e, h.key, h.hash)
              else old_ in old(entries) && Same(old_, h.key, h.hash)
      ensures entries == With(old(entries), old_, h)
    {
      hide BucketOf, Holds, Chained, Unique, PowerOf2;
      old_ := Put(h);
      if old_ == null {
        if elems > length {
          Resize();
        }
      }
    }

    // ... before the table grows.
    method Put(h: LRUHandle) returns (old_: LRUHandle?)
      requires Valid() && h !in entries
      modifies `elems, `chains, `entries, list, entries`nextHash, h`nextHash
      ensures Valid()
      ensures if old_ == null then forall e :: e in old(entries) ==> !Same(e, h.key, h.hash)
              else old_ in old(entries) && Same(old_, h.key, h.hash)
      ensures entries == With(old(entries), old_, h)
    {
      hide BucketOf, Holds, Chained, Chain, Unique, Hop, PowerOf2, Placed, With, Same, Distinct;
      var pred;
      ghost var k;
      pred, old_, k := FindPointer(h.key, h.hash);
      var b := BucketOf(h.hash, length);
      ghost var s, before := chains[b], entries;
      ChainOf(list[..], chains, before, b);
      UniqueAfter(before, old_, h);
      HoldsPlaced(chains, before, b, k, h);
      PlaceAt(b, k, pred, old_, h);
      entries := With(before, old_, h);
      ChainedAfter(list[..], chains, b, Placed(s, k, h), entries);
      chains := chains[b := Placed(s, k, h)];
      if old_ == null {
        elems := elems + 1;
      }
    }

    method Remove(key: seq<byte>, hash: uint32) returns (result: LRUHandle?)
      requires Valid()
      modifies `elems, `chains, `entries, list, entries`nextHash
      ensures Valid()
      ensures result != null ==> result in old(entries) && Same(result, key, hash) && entries == old(entries) - {result}
      ensures result == null ==> (forall e :: e in entries ==> !Same(e, key, hash)) && entries == old(entries)
    {
      hide BucketOf, Holds, Chained, Chain, Hop, PowerOf2, Without;
      var pred;
      ghost var k;
      pred, result, k := FindPointer(key, hash);
      if result != null {
        var b := BucketOf(hash, length);
        ghost var s := chains[b];
        ghost var t := Without(s, k);
        ChainOf(list[..], chains, entries, b);
        WithoutHops(list[b], s, k);
        StoreSlot(b, k, pred, result.nextHash, t);
        HoldsRemoved(chains, entries, b, k);
        entries := entries - {result};
        ChainedAfter(list[..], chains, b, t, entries);
        chains := chains[b := t];
        elems := elems - 1;
      }
    }

    // At least as many buckets as entries, every entry moved to its new one.
    method Resize()
      requires Unique(entries) && Holds(chains, entries) && Chained(list[..], chains, entries)
      requires length == list.Length && elems == |entries| && PowerOf2(length)
      modifies this, entries`nextHash
      ensures Valid() && entries == old(entries) && fresh(list) && elems <= length
    {
      hide BucketOf, Holds, Chained, Chain, Unique;
      var newLength := 4;
      assert PowerOf2(1) && PowerOf2(2) && PowerOf2(4);
      while newLength < elems
        invariant newLength > 0 && PowerOf2(newLength)
      {
        newLength := newLength * 2;
      }
      var newList := new LRUHandle?[newLength](_ => null);
      ghost var newChains: seq<seq<LRUHandle>> := seq(newLength, _ => []);
      EmptyTable(newList[..], newChains);
      newChains := MoveAll(newList, newChains);
      list, length, chains := newList, newLength, newChains;
    }

    // Moves every entry to another table, empty so far.
    method MoveAll(newList: array<LRUHandle?>, ghost newChains: seq<seq<LRUHandle>>) returns (ghost cs: seq<seq<LRUHandle>>)
      requires Holds(chains, entries) && Chained(list[..], chains, entries) && length == list.Length && elems == |entries|
      requires newList != list && newList.Length == |newChains| > 0
      requires Holds(newChains, {}) && Chained(newList[..], newChains, {})
      modifies newList, entries`nextHash
      ensures |cs| == |newChains| && Holds(cs, entries) && Chained(newList[..], cs, entries)
    {
      hide BucketOf, Holds, Chained, Chain;
      SameLength(list[..], chains, entries);
      forall c | 0 <= c < |chains| ensures Chain(list[c], chains[c]) { ChainOf(list[..], chains, entries, c); }
      cs := newChains;
      ghost var moved: set<LRUHandle> := {};
      var count := 0;
      var i := 0;
      while i < length
        invariant i <= length
        invariant newList.Length == |cs| == |newChains|
        invariant Holds(cs, moved) && Chained(newList[..], cs, moved) && count == |moved|
        invariant forall e :: e in moved <==> e in entries && BucketOf(e.hash, length) < i
        invariant forall c :: i <= c < length ==> Chain(list[c], chains[c])
      {
        var n;
        BucketIs(chains, entries, i);
        ghost var s := chains[i];
        ChainDistinct(list[i], s);
        forall c | i < c < length ensures Nodes(chains[c]) !! Nodes(s) + moved { BucketIs(chains, entries, c); }
        n, cs := MoveChain(i, newList, cs, moved);
        SizeOfUnion(moved, s);
        count, moved := count + n, moved + Nodes(s);
        i := i + 1;
      }
      assert moved == entries && count == elems;
    }

    // Moves the entries of bucket i to another table, which held `moved`.
    method MoveChain(i: nat, newList: array<LRUHandle?>, ghost newChains: seq<seq<LRUHandle>>, ghost moved: set<LRUHandle>)
      returns (count: nat, ghost cs: seq<seq<LRUHandle>>)
      requires i < |chains| == list.Length && Holds(chains, entries) && Chain(list[i], chains[i]) && newList != list
      requires newList.Length == |newChains| > 0 && Holds(newChains, moved) && Chained(newList[..], newChains, moved)
      requires forall e :: e in moved ==> e in entries && BucketOf(e.hash, |chains|) != i
      modifies newList, entries`nextHash
      ensures count == |chains[i]| && |cs| == |newChains|
      ensures Holds(cs, moved + Nodes(chains[i])) && Chained(newList[..], cs, moved + Nodes(chains[i]))
      ensures forall e :: e in entries && e !in moved && e !in chains[i] ==> e.nextHash == old(e.nextHash)
    {
      hide BucketOf, Holds, Chained, Unique;
      ghost var s := chains[i];
      BucketIs(chains, entries, i);
      cs, count := newChains, 0;
      ghost var now: set<LRUHandle> := moved;
      var h := list[i];
      while h != null
        invariant count <= |s| && h == (if count < |s| then s[count] else null)
        invariant newList.Length == |cs| == |newChains| && Holds(cs, now) && Chained(newList[..], cs, now)
        invariant now == moved + Nodes(s[..count])
        invariant forall e :: e in entries && e !in now ==> e.nextHash == old(e.nextHash)
        decreases |s| - count
      {
        assert old(Hop(s, count));
        var next := h.nextHash;
        PushFront(newList, h, cs, now);
        ghost var b := BucketOf(h.hash, |cs|);
        cs, now := cs[b := [h] + cs[b]], now + {h};
        assert s[..count + 1] == s[..count] + [h];
        h, count := next, count + 1;
      }
      assert s[..count] == s;
    }

    // Puts h at the front of its bucket in a table that holds es.
    static method PushFront(a: array<LRUHandle?>, h: LRUHandle, ghost cs: seq<seq<LRUHandle>>, ghost es: set<LRUHandle>)
      requires Holds(cs, es) && Chained(a[..], cs, es) && h !in es && a.Length == |cs| > 0
      modifies a, h`nextHash
      ensures var cs' := cs[BucketOf(h.hash, |cs|) := [h] + cs[BucketOf(h.hash, |cs|)]];
        Holds(cs', es + {h}) && Chained(a[..], cs', es + {h})
    {
      hide BucketOf, Holds, Chained, Chain;
      var b := BucketOf(h.hash, a.Length);
      ghost var s := cs[b];
      ChainOf(a[..], cs, es, b);
      assert h !in Nodes(s);
      h.nextHash := a[b];
      assert Chain(a[b], s) && Chained(a[..], cs, es);
      FrontChain(a[b], s, h);
      forall c | 0 <= c < |cs| ensures Chain(a[c], cs[c]) { ChainOf(a[..], cs, es, c); }
      a[b] := h;
      HoldsAppended(cs, es, b, h);
      ChainedAfter(a[..], cs, b, [h] + s, es + {h});
    }
  }

  lemma FrontChain(first: LRUHandle?, s: seq<LRUHandle>, h: LRUHandle)
    requires Chain(first, s) && h !in s && h.nextHash == first
    ensures Chain(h, [h] + s)
  {
    var t := [h] + s;
    forall i | 0 <= i < |t| ensures Hop(t, i) {
      if i > 0 { assert Hop(s, i - 1); }
    }
  }
}
