// The pointer-linked binary heap of libuv (src/heap-inl.h) with the order of
// its timers (timer_less_than in src/timer.c).
//
// The ghost sequence `nodes` lists the tree in breadth-first order.  Position i
// (from 1) has its children at 2i and 2i + 1.

module TimerHeap {
  import opened Coding
  import opened Wrappers

  type uint64 = n: nat | n < 0x1_0000_0000_0000_0000

  type Callback = nat

  // uv_timer_t, with the heap node inside it.
  class Timer {
    var left: Timer?
    var right: Timer?
    var parent: Timer?
    var timeout: uint64
    var startId: uint64
    var repeat: uint64
    var timerCb: Option<Callback>
    var active: bool
    var closing: bool

    // uv_timer_init
    constructor ()
      ensures !active && !closing && timerCb == None && repeat == 0
    {
      left, right, parent := null, null, null;
      timeout, startId, repeat := 0, 0, 0;
      timerCb, active, closing := None, false, false;
    }

    function Key(): DueKey
      reads this`timeout, this`startId
    {
      DueKey(timeout, startId)
    }

    // timer_less_than
    predicate LessThan(b: Timer)
      reads this`timeout, this`startId, b`timeout, b`startId
      ensures LessThan(b) <==> Before(Key(), b.Key())
    {
      if timeout < b.timeout then true
      else if b.timeout < timeout then false
      else startId < b.startId
    }
  }

  // What timers are ordered by: when they are due, then the order they were started in.
  datatype DueKey = DueKey(timeout: nat, startId: nat)

  predicate Before(a: DueKey, b: DueKey) {
    a.timeout < b.timeout || (a.timeout == b.timeout && a.startId < b.startId)
  }

  ghost function Keys(s: seq<Timer>): (r: seq<DueKey>)
    reads s`timeout, s`startId
    ensures |r| == |s|
    ensures forall i :: 0 <= i < |s| ==> r[i] == s[i].Key()
  {
    if s == [] then [] else Keys(s[..|s| - 1]) + [s[|s| - 1].Key()]
  }

  ghost function Members(s: seq<Timer>): set<Timer> {
    set t | t in s
  }

  /* The tree as a value: nodes and links by position. */

  datatype Links = Links(left: Timer?, right: Timer?, parent: Timer?)

  // The node at a position, or null beyond the tree (and above the root).
  function Ref(s: seq<Timer>, i: nat): Timer? {
    if 1 <= i <= |s| then s[i - 1] else null
  }

  ghost predicate TreeAt(s: seq<Timer>, l: seq<Links>, i: nat)
    requires |l| == |s| && 1 <= i <= |s|
  {
    && l[i - 1].left == Ref(s, 2 * i) && l[i - 1].right == Ref(s, 2 * i + 1)
    && (2 * i <= |s| ==> l[2 * i - 1].parent == s[i - 1])
    && (2 * i + 1 <= |s| ==> l[2 * i].parent == s[i - 1])
  }

  // A complete binary tree with correct parent links.
  ghost predicate Tree(s: seq<Timer>, l: seq<Links>) {
    && |l| == |s|
    && (|s| > 0 ==> l[0].parent == null)
    && forall i :: 1 <= i <= |s| ==> TreeAt(s, l, i)
  }

  ghost function LinksOf(s: seq<Timer>): (r: seq<Links>)
    reads s`left, s`right, s`parent
    ensures |r| == |s|
    ensures forall i :: 0 <= i < |s| ==> r[i] == Links(s[i].left, s[i].right, s[i].parent)
  {
    if s == [] then [] else LinksOf(s[..|s| - 1]) + [Links(s[|s| - 1].left, s[|s| - 1].right, s[|s| - 1].parent)]
  }

  // The position of the parent.
  ghost function Up(i: nat): (u: nat)
    ensures i == 2 * u || i == 2 * u + 1
  {
    i / 2
  }

  ghost function Sibling(i: nat): nat {
    if i == 2 * Up(i) then i + 1 else 2 * Up(i)
  }

  // Position c is a child of position p, b is its sibling's position and g is
  // p's parent's position, or 0.
  ghost predicate Family(g: nat, p: nat, c: nat, b: nat) {
    && 1 <= p
    && ((c == 2 * p && b == 2 * p + 1) || (c == 2 * p + 1 && b == 2 * p))
    && (p == 2 * g || p == 2 * g + 1)
  }

  ghost function Swap<T>(s: seq<T>, p: nat, c: nat): (r: seq<T>)
    requires 1 <= p <= |s| && 1 <= c <= |s|
    ensures |r| == |s|
  {
    s[p - 1 := s[c - 1]][c - 1 := s[p - 1]]
  }

  // The links by position after nodes at p and c have changed places.
  ghost predicate Rewired(s: seq<Timer>, l: seq<Links>, m: seq<Links>, g: nat, p: nat, c: nat, b: nat)
    requires |l| == |m| == |s| && 1 <= p <= |s| && 1 <= c <= |s| && g <= p
  {
    && m[p - 1] == Links(if c < b then s[p - 1] else Ref(s, b), if c < b then Ref(s, b) else s[p - 1], Ref(s, g))
    && m[c - 1] == Links(Ref(s, 2 * c), Ref(s, 2 * c + 1), s[c - 1])
    && (1 <= b <= |s| ==> m[b - 1] == l[b - 1].(parent := s[c - 1]))
    && (2 * c <= |s| ==> m[2 * c - 1] == l[2 * c - 1].(parent := s[p - 1]))
    && (2 * c + 1 <= |s| ==> m[2 * c] == l[2 * c].(parent := s[p - 1]))
    && (g >= 1 ==> m[g - 1] == if p == 2 * g then l[g - 1].(left := s[c - 1]) else l[g - 1].(right := s[c - 1]))
    && (forall k :: 0 <= k < |s| && k + 1 != p && k + 1 != c && k + 1 != b && k + 1 != 2 * c && k != 2 * c && k + 1 != g
                    ==> m[k] == l[k])
  }

  lemma RewiredIsTree(s: seq<Timer>, l: seq<Links>, m: seq<Links>, g: nat, p: nat, c: nat, b: nat)
    requires |m| == |s| && Tree(s, l) && Family(g, p, c, b) && c <= |s| && Rewired(s, l, m, g, p, c, b)
    ensures Tree(Swap(s, p, c), m)
  {
    var r := Swap(s, p, c);
    forall i | 1 <= i <= |s| ensures TreeAt(r, m, i) {
      assert TreeAt(s, l, i);
    }
  }

  // A possibly null pointer as a set.
  ghost function One(t: Timer?): set<Timer> {
    if t == null then {} else {t}
  }

  // The nodes around a parent and child are as the tree says, and different from one another.
  lemma Around(s: seq<Timer>, l: seq<Links>, g: nat, p: nat, c: nat, b: nat)
    requires Distinct(s) && Tree(s, l) && Family(g, p, c, b) && c <= |s|
    ensures l[p - 1] == Links(if c < b then s[c - 1] else Ref(s, b), if c < b then Ref(s, b) else s[c - 1], Ref(s, g))
    ensures l[c - 1] == Links(Ref(s, 2 * c), Ref(s, 2 * c + 1), s[p - 1])
    ensures g >= 1 ==> (if p == 2 * g then l[g - 1].left else l[g - 1].right) == s[p - 1]
    ensures g >= 1 && p == 2 * g + 1 ==> l[g - 1].left != s[p - 1]
  {
    assert TreeAt(s, l, p) && TreeAt(s, l, c);
    if g >= 1 { assert TreeAt(s, l, g); }
  }

  /* Min order, on keys by position. */

  ghost predicate OrderedAt(k: seq<DueKey>, i: nat) {
    2 <= i <= |k| ==> !Before(k[i - 1], k[Up(i) - 1])
  }

  ghost predicate MinOrdered(k: seq<DueKey>) {
    forall i :: 2 <= i <= |k| ==> OrderedAt(k, i)
  }

  // The children of position c are in order with its parent.
  ghost predicate Bridged(k: seq<DueKey>, c: nat) {
    forall i :: 2 <= i <= |k| && Up(i) == c && 2 <= c ==> !Before(k[i - 1], k[Up(c) - 1])
  }

  // All is in order but position c may be less than its parent.
  ghost predicate UpLoose(k: seq<DueKey>, c: nat) {
    Bridged(k, c) && forall i :: 2 <= i <= |k| && i != c ==> OrderedAt(k, i)
  }

  // All is in order but position c may be less than its parent or greater than a child.
  ghost predicate DownLoose(k: seq<DueKey>, c: nat) {
    Bridged(k, c) && forall i :: 2 <= i <= |k| && i != c && Up(i) != c ==> OrderedAt(k, i)
  }

  lemma RaiseStep(k: seq<DueKey>, c: nat)
    requires 2 <= c <= |k| && UpLoose(k, c) && Before(k[c - 1], k[Up(c) - 1])
    ensures UpLoose(Swap(k, Up(c), c), Up(c))
  {
    hide Up;
    var p := Up(c);
    var r := Swap(k, p, c);
    assert p >= 2 ==> OrderedAt(k, p);
    forall i | 2 <= i <= |k| && i != p ensures OrderedAt(r, i) {
      assert i != c ==> OrderedAt(k, i);
    }
    forall i | 2 <= i <= |k| && Up(i) == p && 2 <= p ensures !Before(r[i - 1], r[Up(p) - 1]) {
      assert i != c ==> OrderedAt(k, i);
    }
  }

  lemma LowerStep(k: seq<DueKey>, c: nat, d: nat)
    requires 1 <= c && 2 <= d <= |k| && Up(d) == c && DownLoose(k, c) && Before(k[d - 1], k[c - 1])
    requires forall e :: 2 <= e <= |k| && Up(e) == c ==> !Before(k[e - 1], k[d - 1])
    ensures DownLoose(Swap(k, c, d), d)
  {
    hide Up;
    var r := Swap(k, c, d);
    forall i | 2 <= i <= |k| && i != d && Up(i) != d ensures OrderedAt(r, i) {
      assert i != c && Up(i) != c ==> OrderedAt(k, i);
    }
    forall i | 2 <= i <= |k| && Up(i) == d ensures !Before(r[i - 1], r[Up(d) - 1]) {
      assert OrderedAt(k, i);
    }
  }

  lemma {:induction false} RootIsLeast(k: seq<DueKey>, i: nat)
    requires MinOrdered(k) && 1 <= i <= |k|
    ensures !Before(k[i - 1], k[0])
  {
    if i >= 2 {
      assert OrderedAt(k, i);
      RootIsLeast(k, Up(i));
    }
  }

  lemma ReplacedIsLoose(k: seq<DueKey>, q: nat, t: DueKey)
    requires MinOrdered(k) && 1 <= q <= |k|
    ensures DownLoose(k[q - 1 := t], q)
  {
    hide Up;
    var r := k[q - 1 := t];
    forall i | 2 <= i <= |k| && i != q && Up(i) != q ensures OrderedAt(r, i) {
      assert OrderedAt(k, i);
    }
    forall i | 2 <= i <= |k| && Up(i) == q && 2 <= q ensures !Before(r[i - 1], r[Up(q) - 1]) {
      assert OrderedAt(k, i) && OrderedAt(k, q);
    }
  }

  /* The way from the root: one bit of the path a level. */

  ghost function Walk(c: nat, path: nat, k: nat): nat
    decreases k
  {
    if k == 0 then c else Walk(2 * c + path % 2, path / 2, k - 1)
  }

  lemma PathFits(path: nat, n: nat, size: nat)
    requires n >= 2 && (path + 1) * n <= size
    ensures (path * 2 + n % 2 + 1) * (n / 2) <= size
    ensures path * 2 + n % 2 < size
  {
    var h := n / 2;
    assert n % 2 == 0 ==> (path * 2 + 1) * h <= (path + 1) * (2 * h);
    assert n % 2 == 1 ==> (path * 2 + 2) * h <= (path + 1) * (2 * h + 1);
    assert (path + 1) * 2 <= (path + 1) * n;
  }

  lemma {:induction false} WalkGoesDown(c: nat, path: nat, k: nat)
    requires c >= 1
    ensures Walk(c, path, k) >= c && (k > 0 ==> Walk(c, path, k) >= 2 * c + path % 2)
    decreases k
  {
    if k > 0 { WalkGoesDown(2 * c + path % 2, path / 2, k - 1); }
  }

  // A place that holds a link: the struct heap_node** of the source.
  datatype Slot = RootSlot | LeftOf(node: Timer) | RightOf(node: Timer)
  {
    ghost function Node(): set<Timer> {
      if RootSlot? then {} else {node}
    }
  }

  // The slot holds the link from position p down to position c.
  ghost predicate Locates(x: Slot, s: seq<Timer>, p: nat, c: nat) {
    match x
    case RootSlot => p == 0 && c == 1
    case LeftOf(t) => 1 <= p <= |s| && t == s[p - 1] && c == 2 * p
    case RightOf(t) => 1 <= p <= |s| && t == s[p - 1] && c == 2 * p + 1
  }

  // The links with position p's link to c set to t.
  ghost function Linked(l: seq<Links>, p: nat, c: nat, t: Timer?): (r: seq<Links>)
    requires p <= |l|
    ensures |r| == |l|
  {
    if p == 0 then l
    else l[p - 1 := if c == 2 * p then l[p - 1].(left := t) else l[p - 1].(right := t)]
  }

  lemma AppendIsTree(s: seq<Timer>, l: seq<Links>, t: Timer, p: nat, c: nat)
    requires Tree(s, l) && c == |s| + 1 && p == Up(c)
    ensures Tree(s + [t], Linked(l, p, c, t) + [Links(null, null, Ref(s, p))])
  {
    var r, m := s + [t], Linked(l, p, c, t) + [Links(null, null, Ref(s, p))];
    forall i | 1 <= i <= |r| ensures TreeAt(r, m, i) {
      assert i < c ==> TreeAt(s, l, i);
    }
  }

  lemma CutIsTree(s: seq<Timer>, l: seq<Links>, p: nat, c: nat)
    requires Tree(s, l) && c == |s| >= 1 && p == Up(c)
    ensures Tree(s[..c - 1], Linked(l, p, c, null)[..c - 1])
  {
    var r, m := s[..c - 1], Linked(l, p, c, null)[..c - 1];
    forall i | 1 <= i <= |r| ensures TreeAt(r, m, i) {
      assert TreeAt(s, l, i);
    }
  }

  // The links by position after node t has taken over position q.
  ghost predicate Replaced(s: seq<Timer>, l: seq<Links>, m: seq<Links>, q: nat, t: Timer)
    requires |l| == |m| == |s| && 1 <= q <= |s|
  {
    && m[q - 1] == l[q - 1]
    && (2 * q <= |s| ==> m[2 * q - 1] == l[2 * q - 1].(parent := t))
    && (2 * q + 1 <= |s| ==> m[2 * q] == l[2 * q].(parent := t))
    && (q >= 2 ==> m[Up(q) - 1] == Linked(l, Up(q), q, t)[Up(q) - 1])
    && forall k :: 0 <= k < |s| && k + 1 != q && k + 1 != 2 * q && k != 2 * q && k + 1 != Up(q) ==> m[k] == l[k]
  }

  lemma ReplacedIsTree(s: seq<Timer>, l: seq<Links>, m: seq<Links>, q: nat, t: Timer)
    requires |m| == |s| && Tree(s, l) && 1 <= q <= |s| && Replaced(s, l, m, q, t)
    ensures Tree(s[q - 1 := t], m)
  {
    var r := s[q - 1 := t];
    forall i | 1 <= i <= |s| ensures TreeAt(r, m, i) {
      assert TreeAt(s, l, i);
    }
  }

  // What a swap does to the two nodes and those linked to them.
  ghost predicate FamilySwapped(s: seq<Timer>, l: seq<Links>, g: nat, p: nat, c: nat, b: nat)
    requires |l| == |s| && Family(g, p, c, b) && c <= |s|
    reads s
  {
    && s[p - 1].left == Ref(s, 2 * c) && s[p - 1].right == Ref(s, 2 * c + 1)
    && s[p - 1].parent == s[c - 1]
    && s[c - 1].left == (if c < b then s[p - 1] else Ref(s, b))
    && s[c - 1].right == (if c < b then Ref(s, b) else s[p - 1])
    && s[c - 1].parent == Ref(s, g)
    && (1 <= b <= |s| ==> s[b - 1].parent == s[c - 1])
    && (2 * c <= |s| ==> s[2 * c - 1].parent == s[p - 1])
    && (2 * c + 1 <= |s| ==> s[2 * c].parent == s[p - 1])
    && (g >= 1 && p == 2 * g ==> s[g - 1].left == s[c - 1] && s[g - 1].right == l[g - 1].right)
    && (g >= 1 && p != 2 * g ==> s[g - 1].right == s[c - 1] && s[g - 1].left == l[g - 1].left)
  }

  class Heap {
    var min: Timer?
    var nelts: uint32
    ghost var nodes: seq<Timer>

    constructor ()
      ensures Shape() && nodes == []
    {
      min, nelts, nodes := null, 0, [];
    }

    ghost predicate Shape()
      reads this, nodes`left, nodes`right, nodes`parent
    {
      Distinct(nodes) && Tree(nodes, LinksOf(nodes)) && nelts == |nodes| && min == Ref(nodes, 1)
    }

    ghost predicate Valid()
      reads this, nodes`left, nodes`right, nodes`parent, nodes`timeout, nodes`startId
    {
      Shape() && MinOrdered(Keys(nodes))
    }

    // The path from the root to the n-th position, its last step in the lowest
    // bit once the loop is done.
    static method PathTo(size: uint32) returns (path: uint32, k: uint32)
      requires size >= 1
      ensures Walk(1, path, k) == size
    {
      path, k := 0, 0;
      var n := size;
      while n >= 2
        invariant n >= 1 && Walk(n, path, k) == size
        invariant (path + 1) * n <= size && k + n <= size
      {
        PathFits(path, n, size);
        path := path * 2 + n % 2;
        k := k + 1;
        n := n / 2;
      }
    }

    // *slot
    function Deref(x: Slot): Timer?
      reads this`min, x.Node()`left, x.Node()`right
    {
      match x
      case RootSlot => min
      case LeftOf(t) => t.left
      case RightOf(t) => t.right
    }

    // *slot = t
    method Store(x: Slot, t: Timer?)
      modifies this`min, x.Node()`left, x.Node()`right
      ensures Deref(x) == t
      ensures !x.RootSlot? ==> min == old(min)
      ensures x.LeftOf? ==> x.node.right == old(x.node.right)
      ensures x.RightOf? ==> x.node.left == old(x.node.left)
    {
      match x {
        case RootSlot => min := t;
        case LeftOf(n) => n.left := t;
        case RightOf(n) => n.right := t;
      }
    }

    // Follow the path from the root: the slot of the last position and that of its parent.
    method Descend(path0: uint32, k0: uint32, ghost size: nat) returns (parent: Slot, child: Slot)
      requires Shape() && Walk(1, path0, k0) == size && 1 <= size <= nelts + 1
      ensures Locates(child, nodes, Up(size), size)
      ensures Deref(child) == Ref(nodes, size)
      ensures Deref(parent) == Ref(nodes, if size == 1 then 1 else Up(size))
    {
      hide Tree, TreeAt, Distinct, LinksOf, Up;
      var path, k := path0, k0;
      parent, child := RootSlot, RootSlot;
      ghost var c: nat, p: nat := 1, 0;
      while k > 0
        invariant Walk(c, path, k) == size
        invariant c >= 1 && p == Up(c) && Locates(child, nodes, p, c)
        invariant Deref(child) == Ref(nodes, c)
        invariant Deref(parent) == Ref(nodes, if c == 1 then 1 else p)
      {
        WalkGoesDown(c, path, k);
        LinksAt(nodes, LinksOf(nodes), c);
        parent := child;
        if path % 2 == 1 {
          child := RightOf(Deref(child));
        } else {
          child := LeftOf(Deref(child));
        }
        p, c := c, 2 * c + path % 2;
        path := path / 2;
        k := k - 1;
      }
    }

    // Exchange the links of two nodes, parent first.
    static method ExchangeLinks(parent: Timer, child: Timer)
      requires parent != child
      modifies parent`left, parent`right, parent`parent, child`left, child`right, child`parent
      ensures parent.left == old(child.left) && parent.right == old(child.right) && parent.parent == child
      ensures child.left == old(parent.left) && child.right == old(parent.right) && child.parent == old(parent.parent)
    {
      var l, r, up := parent.left, parent.right, parent.parent;
      parent.left, parent.right, parent.parent := child.left, child.right, child.parent;
      child.left, child.right, child.parent := l, r, up;
      parent.parent := child;
    }

    // The rest of heap_node_swap: the links of the nodes around.
    method RepairLinks(parent: Timer, child: Timer)
      requires parent != child
      requires child.left == child || child.right == child
      requires One(if child.left == child then child.right else child.left) !! One(child.parent) !! One(parent.left) !! One(parent.right) !! {parent, child}
      modifies this`min, child`left, child`right
      modifies One(child.left)`parent, One(child.right)`parent, One(parent.left)`parent, One(parent.right)`parent
      modifies One(child.parent)`left, One(child.parent)`right
      ensures child.left == (if old(child.left) == child then parent else old(child.left))
      ensures child.right == (if old(child.left) == child then old(child.right) else parent)
      ensures child.parent == old(child.parent)
      ensures forall x :: x in One(if old(child.left) == child then old(child.right) else old(child.left)) ==> x.parent == child
      ensures forall x :: x in One(parent.left) + One(parent.right) ==> x.parent == parent
      ensures min == if child.parent == null then child else old(min)
      ensures forall up :: up in One(child.parent) ==>
        && up.left == (if old(up.left) == parent then child else old(up.left))
        && up.right == (if old(up.left) == parent then old(up.right) else child)
    {
      var sibling: Timer?;
      if child.left == child {
        child.left := parent;
        sibling := child.right;
      } else {
        child.right := parent;
        sibling := child.left;
      }
      if sibling != null {
        sibling.parent := child;
      }
      if parent.left != null {
        parent.left.parent := parent;
      }
      if parent.right != null {
        parent.right.parent := parent;
      }
      if child.parent == null {
        min := child;
      } else if child.parent.left == parent {
        child.parent.left := child;
      } else {
        child.parent.right := child;
      }
    }

    // heap_node_swap.  Child moves closer to the root, parent moves away.
    method NodeSwap(parent: Timer, child: Timer, ghost g: nat, ghost p: nat, ghost c: nat, ghost b: nat)
      requires Shape() && Family(g, p, c, b) && c <= |nodes|
      requires parent == nodes[p - 1] && child == nodes[c - 1]
      modifies this, Members(nodes)`left, Members(nodes)`right, Members(nodes)`parent
      ensures Shape() && nodes == Swap(old(nodes), p, c) && nelts == old(nelts)
    {
      hide Tree, TreeAt, LinksOf, Rewired, Distinct, Swap;
      ghost var s, l := nodes, LinksOf(nodes);
      SwapOnly(parent, child, g, p, c, b);
      SwapIsTree(s, l, g, p, c, b);
      nodes := Swap(s, p, c);
    }

    // heap_node_swap around the two nodes.
    method SwapFamily(parent: Timer, child: Timer, ghost g: nat, ghost p: nat, ghost c: nat, ghost b: nat)
      requires Shape() && Family(g, p, c, b) && c <= |nodes|
      requires parent == nodes[p - 1] && child == nodes[c - 1]
      modifies this`min, parent`left, parent`right, parent`parent, child`left, child`right, child`parent
      modifies One(Ref(nodes, b))`parent, One(Ref(nodes, 2 * c))`parent, One(Ref(nodes, 2 * c + 1))`parent
      modifies One(Ref(nodes, g))`left, One(Ref(nodes, g))`right
      ensures min == if p == 1 then child else old(min)
      ensures FamilySwapped(nodes, old(LinksOf(nodes)), g, p, c, b)
    {
      ghost var s, l := nodes, LinksOf(nodes);
      Around(s, l, g, p, c, b);
      Apart(s, g, p, c, b);
      ghost var up, sibling, left, right := Ref(s, g), Ref(s, b), Ref(s, 2 * c), Ref(s, 2 * c + 1);
      RootIsOne(s, g, p, c, b);
      hide Tree, TreeAt, LinksOf, Distinct, Ref, FamilySwapped;
      assert parent.parent == up && child.left == left && child.right == right;
      assert parent.left == (if c < b then child else sibling) && parent.right == (if c < b then sibling else child);
      assert up != null ==> (up.left == parent <==> p == 2 * g);
      ExchangeLinks(parent, child);
      RepairLinks(parent, child);
      FamilyIsSwapped(s, l, g, p, c, b);
    }

    // heap_node_swap, and every other node as it was.
    method SwapOnly(parent: Timer, child: Timer, ghost g: nat, ghost p: nat, ghost c: nat, ghost b: nat)
      requires Shape() && Family(g, p, c, b) && c <= |nodes|
      requires parent == nodes[p - 1] && child == nodes[c - 1]
      modifies this`min, Members(nodes)`left, Members(nodes)`right, Members(nodes)`parent
      ensures min == if p == 1 then child else old(min)
      ensures FamilySwapped(nodes, old(LinksOf(nodes)), g, p, c, b)
      ensures Moved(nodes, old(LinksOf(nodes)), LinksOf(nodes), g, p, c, b)
    {
      hide Tree, TreeAt, LinksOf, FamilySwapped, Moved;
      ghost var l := LinksOf(nodes);
      SwapFamily(parent, child, g, p, c, b);
      forall k | 0 <= k < |nodes| && k + 1 != p && k + 1 != c
        ensures nodes[k] != parent && nodes[k] != child
        ensures k + 1 != g ==> nodes[k] !in One(Ref(nodes, g))
        ensures k + 1 != b ==> nodes[k] !in One(Ref(nodes, b))
        ensures k + 1 != 2 * c ==> nodes[k] !in One(Ref(nodes, 2 * c))
        ensures k != 2 * c ==> nodes[k] !in One(Ref(nodes, 2 * c + 1))
      {
        NotOne(nodes, k, g);
        NotOne(nodes, k, b);
        NotOne(nodes, k, 2 * c);
        NotOne(nodes, k, 2 * c + 1);
      }
      FamilyMoved(nodes, l, g, p, c, b);
    }

    // heap_node_swap at position c, with what it does to keys and members.
    method SwapUp(parent: Timer, child: Timer, ghost c: nat)
      requires Shape() && 2 <= c <= |nodes|
      requires parent == nodes[Up(c) - 1] && child == nodes[c - 1]
      modifies this, Members(nodes)`left, Members(nodes)`right, Members(nodes)`parent
      ensures Shape() && nelts == old(nelts) && Members(nodes) == old(Members(nodes))
      ensures nodes == Swap(old(nodes), Up(c), c) && Keys(nodes) == Swap(old(Keys(nodes)), Up(c), c)
    {
      hide Tree, TreeAt, LinksOf, Distinct, Swap, Keys;
      ghost var s, k := nodes, Keys(nodes);
      DistinctSwap(s, Up(c), c);
      NodeSwap(parent, child, Up(Up(c)), Up(c), c, Sibling(c));
      KeysOfSwap(s, Up(c), c);
      assert Keys(s) == k;
    }

    // Walk up the tree while the node is less than its parent.
    method SiftUp(t: Timer, ghost c0: nat)
      requires Shape() && 1 <= c0 <= |nodes| && nodes[c0 - 1] == t && UpLoose(Keys(nodes), c0)
      modifies this, Members(nodes)`left, Members(nodes)`right, Members(nodes)`parent
      ensures Valid() && nelts == old(nelts) && Members(nodes) == old(Members(nodes))
    {
      hide Tree, TreeAt, LinksOf, Distinct, Up, Swap, Keys, UpLoose, Members;
      ghost var c := c0;
      ParentAt(nodes, LinksOf(nodes), c);
      while t.parent != null && t.LessThan(t.parent)
        invariant Shape() && nelts == old(nelts) && Members(nodes) == old(Members(nodes))
        invariant 1 <= c <= |nodes| && nodes[c - 1] == t && UpLoose(Keys(nodes), c)
        invariant t.parent == Ref(nodes, Up(c))
        decreases c
      {
        RaiseStep(Keys(nodes), c);
        SwapAt(nodes, Up(c), c);
        SwapUp(t.parent, t, c);
        c := Up(c);
        ParentAt(nodes, LinksOf(nodes), c);
      }
      UpSettled(Keys(nodes), c);
    }

    // heap_insert
    method Insert(t: Timer)
      requires Valid() && t !in Members(nodes) && nelts < UINT_MAX
      modifies this, Members(nodes)`left, Members(nodes)`right, Members(nodes)`parent, t`left, t`right, t`parent
      ensures Valid() && nelts == old(nelts) + 1 && Members(nodes) == old(Members(nodes)) + {t}
    {
      Hang(t);
      SiftUp(t, nelts);
    }

    // heap_insert until the node is at the bottom of the tree.
    method Hang(t: Timer)
      requires Valid() && t !in Members(nodes) && nelts < UINT_MAX
      modifies this, Members(nodes)`left, Members(nodes)`right, t`left, t`right, t`parent
      ensures Shape() && nelts == old(nelts) + 1 && nodes == old(nodes) + [t]
      ensures UpLoose(Keys(nodes), nelts) && Members(nodes) == old(Members(nodes)) + {t}
    {
      hide Tree, TreeAt, LinksOf, Up, Keys, UpLoose, Distinct, Linked;
      ghost var s, l, k := nodes, LinksOf(nodes), Keys(nodes);
      HangLinks(t);
      nelts := nelts + 1;
      nodes := s + [t];
      HangIsTree(s, l, t, nelts);
      HangIsLoose(s, k, t);
    }

    // heap_insert, the links at the insertion point.
    method HangLinks(t: Timer)
      requires Shape() && t !in Members(nodes) && nelts < UINT_MAX
      modifies this`min, Members(nodes)`left, Members(nodes)`right, t`left, t`right, t`parent
      ensures LinksOf(nodes) == Linked(old(LinksOf(nodes)), Up(nelts + 1), nelts + 1, t)
      ensures Links(t.left, t.right, t.parent) == Links(null, null, Ref(nodes, Up(nelts + 1)))
      ensures min == if nelts == 0 then t else old(min)
      ensures Keys(nodes) == old(Keys(nodes))
    {
      hide Tree, TreeAt, LinksOf, Up, Keys, Distinct, Linked, Members;
      var child := FindPlace(t);
      StoreLink(child, t, Up(nelts + 1), nelts + 1);
    }

    // The insertion point, with the node's own links set.
    method FindPlace(t: Timer) returns (child: Slot)
      requires Shape() && t !in Members(nodes) && nelts < UINT_MAX
      modifies t`left, t`right, t`parent
      ensures Locates(child, nodes, Up(nelts + 1), nelts + 1)
      ensures Links(t.left, t.right, t.parent) == Links(null, null, Ref(nodes, Up(nelts + 1)))
      ensures LinksOf(nodes) == old(LinksOf(nodes))
    {
      hide Tree, TreeAt, LinksOf, Distinct, Up, Ref;
      ghost var l := LinksOf(nodes);
      t.left, t.right, t.parent := null, null, null;
      assert LinksOf(nodes) == l;
      var parent;
      parent, child := FindSlot(1 + nelts);
      t.parent := Deref(parent);
      assert LinksOf(nodes) == l;
    }

    // The slot of a position no further than the next free one, and that of its parent.
    method FindSlot(size: uint32) returns (parent: Slot, child: Slot)
      requires Shape() && 1 <= size <= nelts + 1
      ensures Locates(child, nodes, Up(size), size) && Deref(child) == Ref(nodes, size)
      ensures size > nelts ==> Deref(parent) == Ref(nodes, Up(size))
    {
      hide Tree, TreeAt, LinksOf, Distinct, Up, Walk;
      var path, k := PathTo(size);
      parent, child := Descend(path, k, size);
    }

    // *slot = t, as a change of the tree's links.
    method StoreLink(x: Slot, t: Timer?, ghost p: nat, ghost c: nat)
      requires Distinct(nodes) && Locates(x, nodes, p, c)
      modifies this`min, Members(nodes)`left, Members(nodes)`right
      ensures LinksOf(nodes) == Linked(old(LinksOf(nodes)), p, c, t)
      ensures min == if p == 0 then t else old(min)
    {
      hide Distinct, LinksOf, Linked;
      ghost var l := LinksOf(nodes);
      SlotElsewhere(nodes, x, p, c);
      Store(x, t);
      LinksAfterStore(nodes, l, x, p, c, t);
    }

    // heap_remove
    method Remove(node: Timer)
      requires Valid() && (nelts > 0 ==> node in Members(nodes))
      modifies this, Members(nodes)`left, Members(nodes)`right, Members(nodes)`parent
      ensures Valid() && Members(nodes) == old(Members(nodes)) - {node}
      ensures node in old(Members(nodes)) ==> nelts == old(nelts) - 1
    {
      hide Tree, TreeAt, LinksOf, Distinct, Up, Swap, Keys, UpLoose, DownLoose, MinOrdered, Members;
      NoMembers(nodes);
      if nelts == 0 {
        return;
      }
      ghost var q := PositionOf(nodes, node);
      ghost var s := nodes;
      CutMembers(s);
      var child := Unlink();
      if child == node {
        // The source also clears min if it is still this node: it never is,
        // the slot just emptied being min itself then.
        RootIsMember(nodes);
        assert child != min;
        return;
      }
      ReplaceMembers(nodes, q, child);
      ReplaceNode(node, child, q);
      ghost var c := SiftDown(child, q);
      SiftUp(child, c);
    }

    // heap_remove, the last node taken off the tree.
    method Unlink() returns (child: Timer)
      requires Valid() && nelts > 0
      modifies this, Members(nodes)`left, Members(nodes)`right
      ensures Valid() && nelts == old(nelts) - 1
      ensures nodes == old(nodes)[..nelts] && child == old(nodes)[nelts]
    {
      hide Tree, TreeAt, LinksOf, Distinct, Up, Keys, MinOrdered, Members, Linked;
      ghost var s, l, k, c := nodes, LinksOf(nodes), Keys(nodes), nelts;
      var parent, max := FindSlot(nelts);
      nelts := nelts - 1;
      child := Deref(max);
      StoreLink(max, null, Up(c), c);
      nodes := s[..c - 1];
      CutLeavesHeap(s, l, k, c);
    }

    // heap_remove, the last node put in place of the one removed.
    method ReplaceNode(node: Timer, child: Timer, ghost q: nat)
      requires Valid() && 1 <= q <= |nodes| && nodes[q - 1] == node && child !in Members(nodes)
      modifies this, Members(nodes)`left, Members(nodes)`right, Members(nodes)`parent, child`left, child`right, child`parent
      ensures Shape() && nodes == old(nodes)[q - 1 := child] && nelts == old(nelts)
      ensures DownLoose(Keys(nodes), q)
    {
      hide Tree, TreeAt, LinksOf, Distinct, Up, Keys, MinOrdered, DownLoose, Members, Replaced;
      ghost var s, l, k := nodes, LinksOf(nodes), Keys(nodes);
      ReplaceLinks(node, child, q);
      nodes := s[q - 1 := child];
      ReplacedIsHeap(s, l, k, q, child);
    }

    // heap_remove, the links of the replacement and of the nodes around it.
    method ReplaceLinks(node: Timer, child: Timer, ghost q: nat)
      requires Shape() && 1 <= q <= |nodes| && nodes[q - 1] == node && child !in Members(nodes)
      modifies this`min, Members(nodes)`left, Members(nodes)`right, Members(nodes)`parent, child`left, child`right, child`parent
      ensures Links(child.left, child.right, child.parent) == old(LinksOf(nodes))[q - 1]
      ensures Replaced(nodes, old(LinksOf(nodes)), LinksOf(nodes), q, child)
      ensures min == if q == 1 then child else old(min)
    {
      hide Tree, TreeAt, LinksOf, Distinct, Up, Replaced, Ref;
      ghost var s, l := nodes, LinksOf(nodes);
      Surroundings(s, l, q);
      RepairAround(node, child);
      ReplacedLinks(s, l, q, child);
    }

    method RepairAround(node: Timer, child: Timer)
      requires One(node.left) !! One(node.right) !! One(node.parent) !! {node, child}
      requires node != child
      modifies this`min, child`left, child`right, child`parent
      modifies One(node.left)`parent, One(node.right)`parent, One(node.parent)`left, One(node.parent)`right
      ensures child.left == node.left && child.right == node.right && child.parent == node.parent
      ensures forall x :: x in One(node.left) + One(node.right) ==> x.parent == child
      ensures min == if node.parent == null then child else old(min)
      ensures forall up :: up in One(node.parent) ==>
        && up.left == (if old(up.left) == node then child else old(up.left))
        && up.right == (if old(up.left) == node then old(up.right) else child)
    {
      child.left := node.left;
      child.right := node.right;
      child.parent := node.parent;
      if child.left != null {
        child.left.parent := child;
      }
      if child.right != null {
        child.right.parent := child;
      }
      if node.parent == null {
        min := child;
      } else if node.parent.left == node {
        node.parent.left := child;
      } else {
        node.parent.right := child;
      }
    }

    // The smallest of a node and its children, with its position.
    method Smallest(t: Timer, ghost c: nat) returns (smallest: Timer, ghost d: nat)
      requires Shape() && 1 <= c <= |nodes| && nodes[c - 1] == t
      ensures smallest == t <==> d == c
      ensures 1 <= d <= |nodes| && nodes[d - 1] == smallest
      ensures d != c ==> Up(d) == c && Before(Keys(nodes)[d - 1], Keys(nodes)[c - 1])
      ensures forall e :: 2 <= e <= |nodes| && Up(e) == c ==> !Before(Keys(nodes)[e - 1], Keys(nodes)[d - 1])
    {
      hide Tree, TreeAt, LinksOf, Distinct, Up, Keys;
      LinksAt(nodes, LinksOf(nodes), c);
      Apart3(nodes, c);
      smallest, d := t, c;
      if t.left != null && t.left.LessThan(smallest) {
        smallest, d := t.left, 2 * c;
      }
      if t.right != null && t.right.LessThan(smallest) {
        smallest, d := t.right, 2 * c + 1;
      }
    }

    // Walk down the subtree while a child is less than the node.
    method SiftDown(t: Timer, ghost c0: nat) returns (ghost c: nat)
      requires Shape() && 1 <= c0 <= |nodes| && nodes[c0 - 1] == t && DownLoose(Keys(nodes), c0)
      modifies this, Members(nodes)`left, Members(nodes)`right, Members(nodes)`parent
      ensures Shape() && nelts == old(nelts) && Members(nodes) == old(Members(nodes))
      ensures 1 <= c <= |nodes| && nodes[c - 1] == t && UpLoose(Keys(nodes), c)
    {
      hide Tree, TreeAt, LinksOf, Distinct, Up, Swap, Keys, DownLoose, UpLoose, Members;
      c := c0;
      while true
        invariant Shape() && nelts == old(nelts) && Members(nodes) == old(Members(nodes))
        invariant 1 <= c <= |nodes| && nodes[c - 1] == t && DownLoose(Keys(nodes), c)
        decreases |nodes| - c
      {
        ghost var d;
        var smallest;
        smallest, d := Smallest(t, c);
        if smallest == t {
          break;
        }
        LowerStep(Keys(nodes), c, d);
        SwapAt(nodes, c, d);
        SwapUp(t, smallest, d);
        c := d;
      }
      DownSettled(Keys(nodes), c);
    }
  }

  // FamilySwapped by position, with every other link as it was.
  ghost predicate Moved(s: seq<Timer>, l: seq<Links>, m: seq<Links>, g: nat, p: nat, c: nat, b: nat)
    requires |l| == |m| == |s| && Family(g, p, c, b) && c <= |s|
  {
    && m[p - 1] == Links(Ref(s, 2 * c), Ref(s, 2 * c + 1), s[c - 1])
    && m[c - 1] == Links(if c < b then s[p - 1] else Ref(s, b), if c < b then Ref(s, b) else s[p - 1], Ref(s, g))
    && (1 <= b <= |s| ==> m[b - 1].parent == s[c - 1])
    && (2 * c <= |s| ==> m[2 * c - 1].parent == s[p - 1])
    && (2 * c + 1 <= |s| ==> m[2 * c].parent == s[p - 1])
    && (g >= 1 && p == 2 * g ==> m[g - 1].left == s[c - 1] && m[g - 1].right == l[g - 1].right)
    && (g >= 1 && p != 2 * g ==> m[g - 1].right == s[c - 1] && m[g - 1].left == l[g - 1].left)
    && (forall k :: 0 <= k < |s| && k + 1 != p && k + 1 != c ==> SameLinks(l[k], m[k], k + 1 != g, k + 1 != b && k + 1 != 2 * c && k != 2 * c))
  }

  ghost predicate SameLinks(l: Links, m: Links, down: bool, up: bool) {
    (down ==> m.left == l.left && m.right == l.right) && (up ==> m.parent == l.parent)
  }

  lemma MovedIsRewired(s: seq<Timer>, l: seq<Links>, m: seq<Links>, g: nat, p: nat, c: nat, b: nat)
    requires |l| == |m| == |s| && Family(g, p, c, b) && c <= |s| && Moved(s, l, m, g, p, c, b)
    ensures Rewired(s, l, m[p - 1 := m[c - 1]][c - 1 := m[p - 1]], g, p, c, b)
  {
    hide Ref;
    if 1 <= b <= |s| { assert SameLinks(l[b - 1], m[b - 1], true, false); }
    if 2 * c <= |s| { assert SameLinks(l[2 * c - 1], m[2 * c - 1], true, false); }
    if 2 * c + 1 <= |s| { assert SameLinks(l[2 * c], m[2 * c], true, false); }
    if g >= 1 { assert SameLinks(l[g - 1], m[g - 1], false, true); }
  }

  lemma FamilyMoved(s: seq<Timer>, l: seq<Links>, g: nat, p: nat, c: nat, b: nat)
    requires |l| == |s| && Family(g, p, c, b) && c <= |s| && FamilySwapped(s, l, g, p, c, b)
    requires forall k :: 0 <= k < |s| && k + 1 != p && k + 1 != c && k + 1 != g ==> s[k].left == l[k].left && s[k].right == l[k].right
    requires forall k :: 0 <= k < |s| && k + 1 != p && k + 1 != c && k + 1 != b && k + 1 != 2 * c && k != 2 * c ==> s[k].parent == l[k].parent
    ensures Moved(s, l, LinksOf(s), g, p, c, b)
  {
    hide LinksOf, Ref;
  }

  lemma Apart(s: seq<Timer>, g: nat, p: nat, c: nat, b: nat)
    requires Distinct(s) && Family(g, p, c, b) && c <= |s|
    ensures One(Ref(s, b)) !! One(Ref(s, g)) !! One(Ref(s, 2 * c)) !! One(Ref(s, 2 * c + 1)) !! {s[p - 1], s[c - 1]}
    ensures s[p - 1] != s[c - 1]
  {
    NotOne(s, p - 1, b);
    NotOne(s, p - 1, g);
  }

  lemma RootIsOne(s: seq<Timer>, g: nat, p: nat, c: nat, b: nat)
    requires Family(g, p, c, b) && c <= |s|
    ensures Ref(s, g) == null <==> p == 1
    ensures g >= 1 ==> Ref(s, g) == s[g - 1]
  {
  }

  lemma FamilyIsSwapped(s: seq<Timer>, l: seq<Links>, g: nat, p: nat, c: nat, b: nat)
    requires |l| == |s| && Family(g, p, c, b) && c <= |s|
    requires s[p - 1].left == Ref(s, 2 * c) && s[p - 1].right == Ref(s, 2 * c + 1) && s[p - 1].parent == s[c - 1]
    requires s[c - 1].left == (if c < b then s[p - 1] else Ref(s, b))
    requires s[c - 1].right == (if c < b then Ref(s, b) else s[p - 1])
    requires s[c - 1].parent == Ref(s, g)
    requires forall x :: x in One(Ref(s, b)) ==> x.parent == s[c - 1]
    requires forall x :: x in One(Ref(s, 2 * c)) + One(Ref(s, 2 * c + 1)) ==> x.parent == s[p - 1]
    requires g >= 1 && p == 2 * g ==> s[g - 1].left == s[c - 1] && s[g - 1].right == l[g - 1].right
    requires g >= 1 && p != 2 * g ==> s[g - 1].right == s[c - 1] && s[g - 1].left == l[g - 1].left
    ensures FamilySwapped(s, l, g, p, c, b)
  {
  }

  lemma ParentAt(s: seq<Timer>, l: seq<Links>, c: nat)
    requires Tree(s, l) && 1 <= c <= |s|
    ensures l[c - 1].parent == Ref(s, Up(c))
  {
    if c >= 2 { assert TreeAt(s, l, Up(c)); }
  }

  lemma UpSettled(k: seq<DueKey>, c: nat)
    requires UpLoose(k, c) && OrderedAt(k, c)
    ensures MinOrdered(k)
  {
  }

  lemma SwapAt<T>(s: seq<T>, p: nat, c: nat)
    requires 1 <= p <= |s| && 1 <= c <= |s|
    ensures Swap(s, p, c)[p - 1] == s[c - 1] && Swap(s, p, c)[c - 1] == s[p - 1]
  {
  }

  lemma KeysOfSwap(s: seq<Timer>, p: nat, c: nat)
    requires 1 <= p <= |s| && 1 <= c <= |s|
    ensures Keys(Swap(s, p, c)) == Swap(Keys(s), p, c)
  {
    hide Keys;
    var r, k := Swap(s, p, c), Keys(s);
    forall i | 0 <= i < |s| ensures Keys(r)[i] == Swap(k, p, c)[i] {
      var j := if i == c - 1 then p - 1 else if i == p - 1 then c - 1 else i;
      assert r[i] == s[j] && Swap(k, p, c)[i] == k[j];
    }
  }

  lemma SlotElsewhere(s: seq<Timer>, x: Slot, p: nat, c: nat)
    requires Distinct(s) && Locates(x, s, p, c)
    ensures forall k :: 0 <= k < |s| && k + 1 != p ==> s[k] !in x.Node()
    ensures x.Node() <= Members(s)
  {
  }

  lemma LinksAfterStore(s: seq<Timer>, l: seq<Links>, x: Slot, p: nat, c: nat, t: Timer?)
    requires |l| == |s| && Locates(x, s, p, c)
    requires forall k :: 0 <= k < |s| && k + 1 != p ==> s[k].left == l[k].left && s[k].right == l[k].right
    requires forall k :: 0 <= k < |s| ==> s[k].parent == l[k].parent
    requires x.LeftOf? ==> x.node.left == t && x.node.right == l[p - 1].right
    requires x.RightOf? ==> x.node.right == t && x.node.left == l[p - 1].left
    ensures LinksOf(s) == Linked(l, p, c, t)
  {
    hide LinksOf;
    forall k | 0 <= k < |s| ensures LinksOf(s)[k] == Linked(l, p, c, t)[k] {
    }
  }

  lemma HangIsTree(s: seq<Timer>, l: seq<Links>, t: Timer, c: nat)
    requires Tree(s, l) && Distinct(s) && t !in Members(s) && c == |s| + 1 && LinksOf(s) == Linked(l, Up(c), c, t)
    requires Links(t.left, t.right, t.parent) == Links(null, null, Ref(s, Up(c)))
    ensures Tree(s + [t], LinksOf(s + [t])) && Distinct(s + [t]) && Members(s + [t]) == Members(s) + {t}
    ensures Ref(s + [t], 1) == if s == [] then t else Ref(s, 1)
  {
    hide Tree, TreeAt, LinksOf, Up, Linked;
    LinksOfAppend(s, t);
    AppendIsTree(s, l, t, Up(c), c);
  }

  lemma HangIsLoose(s: seq<Timer>, k: seq<DueKey>, t: Timer)
    requires k == Keys(s) && MinOrdered(k)
    ensures UpLoose(Keys(s + [t]), |s| + 1)
  {
    KeysOfAppend(s, t);
    AppendedIsLoose(k, t.Key());
  }

  lemma LinksOfAppend(s: seq<Timer>, t: Timer)
    ensures LinksOf(s + [t]) == LinksOf(s) + [Links(t.left, t.right, t.parent)]
  {
    assert (s + [t])[..|s|] == s;
  }

  lemma KeysOfAppend(s: seq<Timer>, t: Timer)
    ensures Keys(s + [t]) == Keys(s) + [t.Key()]
  {
    assert (s + [t])[..|s|] == s;
  }

  lemma AppendedIsLoose(k: seq<DueKey>, t: DueKey)
    requires MinOrdered(k)
    ensures UpLoose(k + [t], |k| + 1)
  {
    hide Up;
    var r := k + [t];
    forall i | 2 <= i <= |r| && i != |r| ensures OrderedAt(r, i) {
      assert OrderedAt(k, i);
    }
  }

  lemma SwapIsTree(s: seq<Timer>, l: seq<Links>, g: nat, p: nat, c: nat, b: nat)
    requires Distinct(s) && Tree(s, l) && Family(g, p, c, b) && c <= |s| && Moved(s, l, LinksOf(s), g, p, c, b)
    ensures Distinct(Swap(s, p, c)) && Tree(Swap(s, p, c), LinksOf(Swap(s, p, c)))
    ensures Ref(Swap(s, p, c), 1) == if p == 1 then s[c - 1] else Ref(s, 1)
  {
    assert |l| == |s|;
    hide Tree, TreeAt, LinksOf, Rewired, Distinct, Swap;
    MovedIsRewired(s, l, LinksOf(s), g, p, c, b);
    LinksOfSwap(s, p, c);
    DistinctSwap(s, p, c);
    RewiredIsTree(s, l, LinksOf(Swap(s, p, c)), g, p, c, b);
  }

  lemma LinksAt(s: seq<Timer>, l: seq<Links>, c: nat)
    requires Tree(s, l) && 1 <= c <= |s|
    ensures l[c - 1].left == Ref(s, 2 * c) && l[c - 1].right == Ref(s, 2 * c + 1)
  {
    assert TreeAt(s, l, c);
  }

  ghost function PositionOf(s: seq<Timer>, t: Timer): (q: nat)
    requires t in Members(s)
    ensures 1 <= q <= |s| && s[q - 1] == t
  {
    var i :| 0 <= i < |s| && s[i] == t; i + 1
  }

  lemma NoMembers(s: seq<Timer>)
    ensures s == [] ==> Members(s) == {}
  {
  }

  lemma RootIsMember(s: seq<Timer>)
    ensures Ref(s, 1) != null ==> Ref(s, 1) in Members(s)
  {
  }

  lemma CutMembers(s: seq<Timer>)
    requires Distinct(s) && |s| >= 1
    ensures Members(s[..|s| - 1]) == Members(s) - {s[|s| - 1]}
    ensures s[|s| - 1] in Members(s)
  {
    forall t | t in s && t != s[|s| - 1] ensures t in s[..|s| - 1] {
      var i :| 0 <= i < |s| && s[i] == t;
      assert s[..|s| - 1][i] == t;
    }
  }

  lemma ReplaceMembers(s: seq<Timer>, q: nat, t: Timer)
    requires Distinct(s) && 1 <= q <= |s| && t !in Members(s)
    ensures Members(s[q - 1 := t]) == Members(s) - {s[q - 1]} + {t}
  {
    var r := s[q - 1 := t];
    assert r[q - 1] == t;
    forall x | x in s && x != s[q - 1] ensures x in r {
      var i :| 0 <= i < |s| && s[i] == x;
      assert r[i] == x;
    }
  }

  lemma CutLeavesHeap(s: seq<Timer>, l: seq<Links>, k: seq<DueKey>, c: nat)
    requires Distinct(s) && Tree(s, l) && c == |s| >= 1 && LinksOf(s) == Linked(l, Up(c), c, null)
    requires k == Keys(s) && MinOrdered(k)
    ensures var r := s[..c - 1]; Distinct(r) && Tree(r, LinksOf(r)) && MinOrdered(Keys(r))
    ensures Ref(s[..c - 1], 1) == if c == 1 then null else Ref(s, 1)
  {
    hide Tree, TreeAt, Linked, LinksOf, Keys;
    var r := s[..c - 1];
    CutIsTree(s, l, Up(c), c);
    assert LinksOf(r) == LinksOf(s)[..c - 1];
    assert Keys(r) == k[..c - 1];
    forall i | 2 <= i <= |r| ensures OrderedAt(Keys(r), i) {
      assert OrderedAt(k, i);
    }
  }

  lemma ReplacedIsHeap(s: seq<Timer>, l: seq<Links>, k: seq<DueKey>, q: nat, t: Timer)
    requires Distinct(s) && |l| == |s| && Tree(s, l) && 1 <= q <= |s| && t !in Members(s) && MinOrdered(k) && k == Keys(s)
    requires Replaced(s, l, LinksOf(s), q, t) && Links(t.left, t.right, t.parent) == l[q - 1]
    ensures var r := s[q - 1 := t]; Distinct(r) && Tree(r, LinksOf(r)) && DownLoose(Keys(r), q)
    ensures Ref(s[q - 1 := t], 1) == if q == 1 then t else Ref(s, 1)
  {
    hide Tree, TreeAt, LinksOf, Keys, Replaced, DownLoose, MinOrdered;
    var r := s[q - 1 := t];
    ReplacedIsTree(s, l, LinksOf(s), q, t);
    ReplacedAt(s, l, LinksOf(s), q, t);
    assert LinksOf(r) == LinksOf(s);
    assert Keys(r) == k[q - 1 := t.Key()];
    ReplacedIsLoose(k, q, t.Key());
  }

  lemma ReplacedAt(s: seq<Timer>, l: seq<Links>, m: seq<Links>, q: nat, t: Timer)
    requires |l| == |m| == |s| && 1 <= q <= |s| && Replaced(s, l, m, q, t)
    ensures m[q - 1] == l[q - 1]
  {
  }

  lemma DownSettled(k: seq<DueKey>, c: nat)
    requires DownLoose(k, c) && forall e :: 2 <= e <= |k| && Up(e) == c ==> OrderedAt(k, e)
    ensures UpLoose(k, c)
  {
    hide Up, OrderedAt, Bridged;
  }

  lemma Apart3(s: seq<Timer>, c: nat)
    requires Distinct(s) && 1 <= c <= |s|
    ensures Ref(s, 2 * c) != s[c - 1] && Ref(s, 2 * c + 1) != s[c - 1]
    ensures 2 * c + 1 <= |s| ==> Ref(s, 2 * c) != Ref(s, 2 * c + 1)
  {
  }

  // The node at position q, the nodes linked to it and no others.
  lemma Surroundings(s: seq<Timer>, l: seq<Links>, q: nat)
    requires Distinct(s) && Tree(s, l) && 1 <= q <= |s|
    ensures l[q - 1] == Links(Ref(s, 2 * q), Ref(s, 2 * q + 1), Ref(s, Up(q)))
    ensures One(Ref(s, 2 * q)) !! One(Ref(s, 2 * q + 1)) !! One(Ref(s, Up(q))) !! {s[q - 1]}
    ensures One(Ref(s, 2 * q)) + One(Ref(s, 2 * q + 1)) + One(Ref(s, Up(q))) <= Members(s)
    ensures Ref(s, Up(q)) == null <==> q == 1
    ensures q >= 2 ==> (l[Up(q) - 1].left == s[q - 1] <==> q == 2 * Up(q))
    ensures forall k :: 0 <= k < |s| ==>
      && (k + 1 != 2 * q ==> s[k] !in One(Ref(s, 2 * q)))
      && (k != 2 * q ==> s[k] !in One(Ref(s, 2 * q + 1)))
      && (k + 1 != Up(q) ==> s[k] !in One(Ref(s, Up(q))))
  {
    hide Up;
    assert TreeAt(s, l, q);
    if q >= 2 { assert TreeAt(s, l, Up(q)); }
  }

  lemma ReplacedLinks(s: seq<Timer>, l: seq<Links>, q: nat, t: Timer)
    requires |l| == |s| && 1 <= q <= |s|
    requires forall x :: x in One(Ref(s, 2 * q)) + One(Ref(s, 2 * q + 1)) ==> x.parent == t
    requires q >= 2 ==> Ref(s, Up(q)) != null && Links(s[Up(q) - 1].left, s[Up(q) - 1].right, l[Up(q) - 1].parent) == Linked(l, Up(q), q, t)[Up(q) - 1]
    requires forall k :: 0 <= k < |s| && k + 1 != Up(q) ==> s[k].left == l[k].left && s[k].right == l[k].right
    requires forall k :: 0 <= k < |s| && k + 1 != 2 * q && k != 2 * q ==> s[k].parent == l[k].parent
    ensures Replaced(s, l, LinksOf(s), q, t)
  {
    hide LinksOf, Up;
  }

  lemma NotOne(s: seq<Timer>, k: nat, j: nat)
    requires Distinct(s) && k < |s|
    ensures k + 1 != j ==> s[k] !in One(Ref(s, j))
  {
  }

  lemma LinksOfSwap(s: seq<Timer>, p: nat, c: nat)
    requires 1 <= p <= |s| && 1 <= c <= |s| && p != c
    ensures var m := LinksOf(s);
      LinksOf(Swap(s, p, c)) == m[p - 1 := m[c - 1]][c - 1 := m[p - 1]]
  {
    hide LinksOf;
    var r, m := Swap(s, p, c), LinksOf(s);
    var q := m[p - 1 := m[c - 1]][c - 1 := m[p - 1]];
    forall k | 0 <= k < |s| ensures LinksOf(r)[k] == q[k] {
      var j := if k == p - 1 then c - 1 else if k == c - 1 then p - 1 else k;
      assert r[k] == s[j] && q[k] == m[j];
    }
  }

  lemma DistinctSwap(s: seq<Timer>, p: nat, c: nat)
    requires Distinct(s) && 1 <= p <= |s| && 1 <= c <= |s|
    ensures Distinct(Swap(s, p, c))
    ensures Members(Swap(s, p, c)) == Members(s)
    ensures Ref(Swap(s, p, c), 1) == if p == 1 then s[c - 1] else if c == 1 then s[p - 1] else Ref(s, 1)
  {
    var r := Swap(s, p, c);
    assert r[p - 1] == s[c - 1] && r[c - 1] == s[p - 1];
    forall x | x in s ensures x in r {
      var i :| 0 <= i < |s| && s[i] == x;
      assert i != p - 1 && i != c - 1 ==> r[i] == x;
    }
  }
}
