// Cache entries and the circular lists they are on (util/cache.cc).

module LruList {
  import opened Wrappers
  import opened Coding

  class LRUHandle {
    const key: seq<byte>
    const hash: uint32
    const charge: nat
    var nextHash: LRUHandle?
    var next: LRUHandle?
    var prev: LRUHandle?
    var inCache: bool
    var refs: nat
    // Handles given out and not yet released, and how often the deleter ran.
    ghost var clients: nat
    ghost var deletions: nat

    constructor (key: seq<byte>, hash: uint32, charge: nat)
      ensures this.key == key && this.hash == hash && this.charge == charge
      ensures !inCache && refs == 1 && clients == 1 && deletions == 0
    {
      this.key, this.hash, this.charge := key, hash, charge;
      nextHash, next, prev := null, null, null;
      inCache, refs, clients, deletions := false, 1, 1, 0;
    }
  }

  // Key and hash are the same.
  predicate Same(e: LRUHandle, key: seq<byte>, hash: uint32) {
    e.hash == hash && e.key == key
  }

  ghost function Nodes(s: seq<LRUHandle>): set<LRUHandle> {
    set e | e in s
  }

  ghost predicate Linked(head: LRUHandle, s: seq<LRUHandle>, i: nat)
    requires i < |s|
    reads (Nodes(s))`next, (Nodes(s))`prev
  {
    && s[i].next == (if i + 1 < |s| then s[i + 1] else head)
    && s[i].prev == (if i > 0 then s[i - 1] else head)
  }

  // The circular list of s, oldest first, around its dummy head; es is the
  // set of its entries.
  ghost predicate Ring(head: LRUHandle, s: seq<LRUHandle>, es: set<LRUHandle>)
    reads ({head} + es)`next, ({head} + es)`prev
  {
    && Distinct(s) && es == Nodes(s) && head !in es
    && head.next == (if s == [] then head else s[0])
    && head.prev == (if s == [] then head else s[|s| - 1])
    && forall i :: 0 <= i < |s| ==> Linked(head, s, i)
  }

  lemma RingIs(head: LRUHandle, s: seq<LRUHandle>, es: set<LRUHandle>)
    requires Ring(head, s, es)
    ensures Distinct(s) && head !in es && (forall e :: e in s <==> e in es)
    ensures head.next == if s == [] then head else s[0]
  {
  }

  function Without(s: seq<LRUHandle>, k: nat): seq<LRUHandle>
    requires k < |s|
  {
    s[..k] + s[k + 1..]
  }

  // LRU_Remove: the k-th entry leaves the list.
  method Remove(ghost head: LRUHandle, ghost s: seq<LRUHandle>, ghost es: set<LRUHandle>, ghost k: nat, e: LRUHandle)
    requires Ring(head, s, es) && k < |s| && s[k] == e
    modifies ({head} + es)`next, ({head} + es)`prev
    ensures Ring(head, Without(s, k), es - {e})
  {
    assert Linked(head, s, k);
    assert k > 0 ==> Linked(head, s, k - 1);
    assert k + 1 < |s| ==> Linked(head, s, k + 1);
    label L:
    e.next.prev := e.prev;
    e.prev.next := e.next;
    ghost var w := Without(s, k);
    WithoutNodes(s, k);
    forall i | 0 <= i < |w| ensures Linked(head, w, i) {
      ghost var j := if i < k then i else i + 1;
      assert w[i] == s[j] && s[j] != e;
      assert old@L(Linked(head, s, j));
    }
  }

  // LRU_Append: e becomes the newest entry.
  method Append(head: LRUHandle, ghost s: seq<LRUHandle>, ghost es: set<LRUHandle>, e: LRUHandle)
    requires Ring(head, s, es) && e !in es && e != head
    modifies ({head, e} + es)`next, ({head, e} + es)`prev
    ensures Ring(head, s + [e], es + {e})
  {
    label L:
    assert s != [] ==> Linked(head, s, |s| - 1);
    e.next := head;
    e.prev := head.prev;
    e.prev.next := e;
    e.next.prev := e;
    AppendNodes(s, e);
    ghost var t := s + [e];
    forall i | 0 <= i < |t| ensures Linked(head, t, i) {
      if i < |s| {
        assert t[i] == s[i] && old@L(Linked(head, s, i));
      }
    }
  }

  // s without e, if it is there.
  function Minus(s: seq<LRUHandle>, e: LRUHandle?): seq<LRUHandle> {
    if s == [] then [] else if s[0] == e then s[1..] else [s[0]] + Minus(s[1..], e)
  }

  lemma {:induction false} MinusIsWithout(s: seq<LRUHandle>, k: nat)
    requires Distinct(s) && k < |s|
    ensures Minus(s, s[k]) == Without(s, k)
  {
    if k > 0 {
      MinusIsWithout(s[1..], k - 1);
      assert Without(s, k) == [s[0]] + Without(s[1..], k - 1);
    }
  }

  lemma {:induction false} MinusAbsent(s: seq<LRUHandle>, e: LRUHandle?)
    requires e !in s
    ensures Minus(s, e) == s
  {
    if s != [] { MinusAbsent(s[1..], e); }
  }

  /* Charges. */

  ghost function Charge(s: seq<LRUHandle>): nat {
    if s == [] then 0 else Charge(s[..|s| - 1]) + s[|s| - 1].charge
  }

  lemma {:induction false} ChargeWithout(s: seq<LRUHandle>, k: nat)
    requires k < |s|
    ensures Charge(s) == Charge(Without(s, k)) + s[k].charge
  {
    var n := |s| - 1;
    if k < n {
      ChargeWithout(s[..n], k);
      var w := Without(s, k);
      assert w[..|w| - 1] == Without(s[..n], k) && w[|w| - 1] == s[n];
    } else {
      assert Without(s, k) == s[..n];
    }
  }

  lemma WithoutNodes(s: seq<LRUHandle>, k: nat)
    requires Distinct(s) && k < |s|
    ensures Distinct(Without(s, k)) && Nodes(Without(s, k)) == Nodes(s) - {s[k]}
  {
    var w := Without(s, k);
    forall e | e in Nodes(s) - {s[k]} ensures e in w {
      var i :| 0 <= i < |s| && s[i] == e;
      assert w[if i < k then i else i - 1] == e;
    }
    forall i | 0 <= i < |w| ensures w[i] in Nodes(s) - {s[k]} {
      assert w[i] == s[if i < k then i else i + 1];
    }
    forall i, j | 0 <= i < j < |w| ensures w[i] != w[j] {
      assert w[i] == s[if i < k then i else i + 1] && w[j] == s[if j < k then j else j + 1];
    }
  }

  lemma AppendNodes(s: seq<LRUHandle>, e: LRUHandle)
    requires Distinct(s) && e !in Nodes(s)
    ensures Distinct(s + [e]) && Nodes(s + [e]) == Nodes(s) + {e} && Charge(s + [e]) == Charge(s) + e.charge
  {
    assert (s + [e])[..|s|] == s;
  }
}
