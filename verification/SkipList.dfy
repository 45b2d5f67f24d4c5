// The skip list under one writer and lock-free readers (db/skiplist.h), as
// single stores and single loads.  Stores take effect at once, in order.

module SkipListProtocol {
  import opened Wrappers

  type Key = real
  type Node = nat   // an address
  const HEAD: Node := 0
  const MAX_HEIGHT: nat := 12

  // next[i][x] is x's link at level i.
  datatype Memory = Memory(key: map<Node, Key>, next: seq<map<Node, Option<Node>>>, maxHeight: nat)

  // Insert, between its stores.  It has linked the node at the levels below
  // `level`; `armed` says that the node's own link at `level` is set.
  datatype Writer =
    | Idle
    | Searched(k: Key, height: nat, prev: seq<Node>)
    | Linking(node: Node, height: nat, prev: seq<Node>, level: nat, armed: bool)

  // A search, between its loads, for the place of a key, or for the end of the
  // list (None).  What FindGreaterOrEqual returns is `next`; FindLessThan and
  // FindLast return x.
  datatype Reader =
    | Resting
    | Searching(goal: Option<Key>, x: Node, level: nat)
    | Returned(goal: Option<Key>, x: Node, next: Option<Node>)

  // `linked` lists, level by level, the nodes published so far.
  datatype State = State(mem: Memory, linked: seq<set<Node>>, writer: Writer, reader: Reader)

  /* Positions in a level. */

  // Node m comes after x, which may be the head.
  ghost predicate Follows(mem: Memory, x: Node, m: Node)
    requires (x == HEAD || x in mem.key) && m in mem.key
  {
    x == HEAD || mem.key[x] < mem.key[m]
  }

  // KeyIsAfterNode: the search goes past a node with this key.
  predicate Passes(goal: Option<Key>, k: Key) {
    goal == None || k < goal.value
  }

  ghost predicate InLevel(level: set<Node>, x: Node) {
    x == HEAD || x in level
  }

  // r is the link of x in a sorted level: the least node after x.
  ghost predicate IsNext(mem: Memory, level: set<Node>, x: Node, r: Option<Node>)
    requires level <= mem.key.Keys && (x == HEAD || x in mem.key)
  {
    match r
    case None => forall m :: m in level ==> !Follows(mem, x, m)
    case Some(n) => n in level && Follows(mem, x, n) && forall m :: m in level && Follows(mem, x, m) ==> mem.key[n] <= mem.key[m]
  }

  // p is the last node of the level with a key less than k.
  ghost predicate IsPrev(mem: Memory, level: set<Node>, p: Node, k: Key)
    requires level <= mem.key.Keys
  {
    && InLevel(level, p) && (p != HEAD ==> mem.key[p] < k)
    && forall m :: m in level && mem.key[m] < k ==> p != HEAD && mem.key[m] <= mem.key[p]
  }

  /* The invariant. */

  ghost predicate Shape(s: State) {
    && |s.mem.next| == |s.linked| == MAX_HEIGHT && 1 <= s.mem.maxHeight <= MAX_HEIGHT
    && HEAD !in s.mem.key
    && (forall i :: 0 <= i < MAX_HEIGHT ==> s.linked[i] <= s.mem.key.Keys)
    && DistinctKeys(s.mem)
  }

  ghost predicate DistinctKeys(mem: Memory) {
    forall a, b :: a in mem.key && b in mem.key && mem.key[a] == mem.key[b] ==> a == b
  }

  // Every link of a level leads to the next node of that level.
  ghost predicate LevelOk(mem: Memory, next: map<Node, Option<Node>>, level: set<Node>)
    requires level <= mem.key.Keys
  {
    forall x :: InLevel(level, x) ==> x in next && IsNext(mem, level, x, next[x])
  }

  ghost predicate LevelsOk(s: State)
    requires Shape(s)
  {
    forall i :: 0 <= i < MAX_HEIGHT ==> LevelOk(s.mem, s.mem.next[i], s.linked[i])
  }

  // A level's nodes are among those of the level below; none reach the maximum height.
  ghost predicate Nested(s: State)
    requires |s.linked| == MAX_HEIGHT
  {
    && (forall i :: 0 <= i < MAX_HEIGHT - 1 ==> s.linked[i + 1] <= s.linked[i])
    && (forall i :: s.mem.maxHeight <= i < MAX_HEIGHT ==> s.linked[i] == {})
  }

  ghost predicate PrevsOk(s: State, k: Key, prev: seq<Node>, from: nat, height: nat)
    requires Shape(s)
  {
    height <= |prev| && height <= MAX_HEIGHT && forall i :: from <= i < height ==> IsPrev(s.mem, s.linked[i], prev[i], k)
  }

  ghost predicate WriterOk(s: State)
    requires Shape(s)
  {
    match s.writer
    case Idle => s.mem.key.Keys == s.linked[0]
    case Searched(k, height, prev) =>
      && s.mem.key.Keys == s.linked[0] && (forall a :: a in s.mem.key ==> s.mem.key[a] != k)
      && 1 <= height && PrevsOk(s, k, prev, 0, height)
    case Linking(node, height, prev, level, armed) =>
      && node in s.mem.key && s.mem.key.Keys == s.linked[0] + {node}
      && 1 <= height <= s.mem.maxHeight && level <= height
      && (forall i :: 0 <= i < MAX_HEIGHT ==> (node in s.linked[i] <==> i < level))
      && PrevsOk(s, s.mem.key[node], prev, level, height)
      && (armed ==> level < height && prev[level] in s.mem.next[level] && node in s.mem.next[level]
                    && s.mem.next[level][node] == s.mem.next[level][prev[level]])
  }

  ghost predicate ReaderOk(s: State)
    requires Shape(s)
  {
    match s.reader
    case Resting => true
    case Searching(goal, x, level) =>
      level < MAX_HEIGHT && InLevel(s.linked[level], x) && (x != HEAD ==> Passes(goal, s.mem.key[x]))
    case Returned(goal, x, next) => true
  }

  ghost predicate Inv(s: State) {
    Shape(s) && LevelsOk(s) && Nested(s) && WriterOk(s) && ReaderOk(s)
  }

  /* Steps: one store, or one load, or a change of local state alone. */

  datatype Step = BeginInsert | RaiseHeight | NewNode | SetOwnLink | PublishLink | EndInsert | BeginSearch | Load

  // Node::SetNext: one store.
  function SetNext(mem: Memory, level: nat, x: Node, n: Option<Node>): Memory
    requires level < |mem.next|
  {
    var links: map<Node, Option<Node>> := mem.next[level];
    mem.(next := mem.next[level := links[x := n]])
  }

  ghost predicate WriterOnly(s: State, t: State) {
    t == s.(writer := t.writer)
  }

  ghost predicate Next(s: State, t: State, step: Step) {
    |s.mem.next| == |s.linked| == MAX_HEIGHT &&
    match step
    // The writer's search: nothing is stored, so the predecessors are those of the levels.
    case BeginInsert =>
      && s.writer.Idle? && t.writer.Searched? && WriterOnly(s, t)
      && Shape(s) && (forall a :: a in s.linked[0] ==> s.mem.key[a] != t.writer.k)
      && 1 <= t.writer.height && PrevsOk(s, t.writer.k, t.writer.prev, 0, t.writer.height)
    case RaiseHeight =>
      && s.writer.Searched? && s.mem.maxHeight < s.writer.height <= MAX_HEIGHT
      && t == s.(mem := s.mem.(maxHeight := s.writer.height))
    case NewNode =>
      && s.writer.Searched? && s.writer.height <= s.mem.maxHeight && t.writer.Linking?
      && var n := t.writer.node;
      && n != HEAD && n !in s.mem.key
      && t == s.(mem := s.mem.(key := s.mem.key[n := s.writer.k]),
                 writer := Linking(n, s.writer.height, s.writer.prev, 0, false))
    case SetOwnLink =>
      && s.writer.Linking? && !s.writer.armed
      && var w := s.writer;
      && w.level < w.height <= |w.prev| && w.level < MAX_HEIGHT && w.prev[w.level] in s.mem.next[w.level]
      && t == s.(mem := SetNext(s.mem, w.level, w.node, s.mem.next[w.level][w.prev[w.level]]), writer := w.(armed := true))
    case PublishLink =>
      && s.writer.Linking? && s.writer.armed
      && var w := s.writer;
      && w.level < |w.prev| && w.level < MAX_HEIGHT
      && t == s.(mem := SetNext(s.mem, w.level, w.prev[w.level], Some(w.node)),
                 linked := s.linked[w.level := s.linked[w.level] + {w.node}],
                 writer := w.(level := w.level + 1, armed := false))
    case EndInsert =>
      s.writer.Linking? && s.writer.level == s.writer.height && t == s.(writer := Idle)
    case BeginSearch =>
      && t.reader.Searching? && 1 <= s.mem.maxHeight
      && t == s.(reader := Searching(t.reader.goal, HEAD, s.mem.maxHeight - 1))
    case Load =>
      && s.reader.Searching? && s.reader.level < MAX_HEIGHT && s.reader.x in s.mem.next[s.reader.level]
      && t == s.(reader := AfterLoad(s.mem, s.reader, s.mem.next[s.reader.level][s.reader.x]))
  }

  // What one turn of a search loop does with the link it loaded.
  function AfterLoad(mem: Memory, r: Reader, next: Option<Node>): Reader
    requires r.Searching?
  {
    if next.Some? && next.value in mem.key && Passes(r.goal, mem.key[next.value]) then Searching(r.goal, next.value, r.level)
    else if r.level == 0 then Returned(r.goal, r.x, next)
    else Searching(r.goal, r.x, r.level - 1)
  }

  /* Each step keeps the invariant. */

  lemma BeginInsertKeepsInv(s: State, t: State)
    requires Inv(s) && Next(s, t, BeginInsert)
    ensures Inv(t)
  {
    hide LevelOk;
    assert PrevsOk(t, t.writer.k, t.writer.prev, 0, t.writer.height);
  }

  lemma RaiseHeightKeepsInv(s: State, t: State)
    requires Inv(s) && Next(s, t, RaiseHeight)
    ensures Inv(t)
  {
    forall i | 0 <= i < MAX_HEIGHT ensures LevelOk(t.mem, t.mem.next[i], t.linked[i]) {
      assert LevelOk(s.mem, s.mem.next[i], s.linked[i]);
      SameKeys(s.mem, t.mem, t.mem.next[i], t.linked[i]);
    }
    forall i | 0 <= i < s.writer.height ensures IsPrev(t.mem, t.linked[i], s.writer.prev[i], s.writer.k) {
      assert IsPrev(s.mem, s.linked[i], s.writer.prev[i], s.writer.k);
    }
  }

  // A level is in order or not by its keys and links alone.
  lemma SameKeys(a: Memory, b: Memory, next: map<Node, Option<Node>>, level: set<Node>)
    requires level <= a.key.Keys && LevelOk(a, next, level)
    requires level <= b.key.Keys && forall m :: m in level ==> b.key[m] == a.key[m]
    ensures LevelOk(b, next, level)
  {
    forall x | InLevel(level, x) ensures x in next && IsNext(b, level, x, next[x]) {
      assert IsNext(a, level, x, next[x]);
      forall m | m in level ensures Follows(a, x, m) == Follows(b, x, m) {
      }
    }
  }

  lemma NewNodeKeepsInv(s: State, t: State)
    requires Inv(s) && Next(s, t, NewNode)
    ensures Inv(t)
  {
    var n := t.writer.node;
    forall i | 0 <= i < MAX_HEIGHT ensures LevelOk(t.mem, t.mem.next[i], t.linked[i]) {
      assert LevelOk(s.mem, s.mem.next[i], s.linked[i]);
      SameKeys(s.mem, t.mem, t.mem.next[i], t.linked[i]);
    }
    forall i | 0 <= i < s.writer.height ensures IsPrev(t.mem, t.linked[i], s.writer.prev[i], s.writer.k) {
      assert IsPrev(s.mem, s.linked[i], s.writer.prev[i], s.writer.k);
    }
    forall i | 0 <= i < MAX_HEIGHT ensures n !in t.linked[i] {
      assert s.linked[i] <= s.mem.key.Keys;
    }
    if t.reader.Searching? { assert InLevel(t.linked[t.reader.level], t.reader.x); }
  }

  // The node's own link is out of sight until the node is published at that level.
  lemma SetOwnLinkKeepsInv(s: State, t: State)
    requires Inv(s) && Next(s, t, SetOwnLink)
    ensures Inv(t)
  {
    var w := s.writer;
    forall i | 0 <= i < MAX_HEIGHT ensures LevelOk(t.mem, t.mem.next[i], t.linked[i]) {
      assert LevelOk(s.mem, s.mem.next[i], s.linked[i]);
      forall x | InLevel(t.linked[i], x) ensures x in t.mem.next[i] && IsNext(t.mem, t.linked[i], x, t.mem.next[i][x]) {
        assert IsNext(s.mem, s.linked[i], x, s.mem.next[i][x]);
      }
    }
    forall i | w.level <= i < w.height ensures IsPrev(t.mem, t.linked[i], w.prev[i], t.mem.key[w.node]) {
      assert IsPrev(s.mem, s.linked[i], w.prev[i], s.mem.key[w.node]);
    }
  }

  // One level with a node put in between p and what followed p.
  lemma PublishInLevel(mem: Memory, next: map<Node, Option<Node>>, next': map<Node, Option<Node>>, level: set<Node>, p: Node, n: Node)
    requires level <= mem.key.Keys && LevelOk(mem, next, level) && HEAD !in mem.key
    requires n in mem.key && n !in level && IsPrev(mem, level, p, mem.key[n])
    requires DistinctKeys(mem)
    requires n in next && p in next && next[n] == next[p] && next' == next[p := Some(n)]
    ensures LevelOk(mem, next', level + {n})
  {
    var level' := level + {n};
    assert forall m :: m in level && Follows(mem, p, m) ==> mem.key[n] < mem.key[m];
    forall x | InLevel(level', x) ensures x in next' && IsNext(mem, level', x, next'[x]) {
      assert IsNext(mem, level, p, next[p]);
      if x != n && x != p {
        assert IsNext(mem, level, x, next[x]);
        assert Follows(mem, x, n) ==> p != HEAD && Follows(mem, x, p);
      }
    }
  }

  lemma PublishLinkKeepsInv(s: State, t: State)
    requires Inv(s) && Next(s, t, PublishLink)
    ensures Inv(t)
  {
    var w := s.writer;
    forall i | 0 <= i < MAX_HEIGHT ensures LevelOk(t.mem, t.mem.next[i], t.linked[i]) {
      assert LevelOk(s.mem, s.mem.next[i], s.linked[i]);
      if i == w.level {
        assert IsPrev(s.mem, s.linked[i], w.prev[i], s.mem.key[w.node]);
        PublishInLevel(s.mem, s.mem.next[i], t.mem.next[i], s.linked[i], w.prev[i], w.node);
      }
      SameKeys(s.mem, t.mem, t.mem.next[i], t.linked[i]);
    }
    forall i | w.level + 1 <= i < w.height ensures IsPrev(t.mem, t.linked[i], w.prev[i], t.mem.key[w.node]) {
      assert IsPrev(s.mem, s.linked[i], w.prev[i], s.mem.key[w.node]);
    }
  }

  lemma LocalStepKeepsInv(s: State, t: State, step: Step)
    requires Inv(s) && Next(s, t, step) && (step.EndInsert? || step.BeginSearch?)
    ensures Inv(t)
  {
    hide LevelOk;
    if step.BeginSearch? && s.writer.Linking? {
      assert PrevsOk(t, t.mem.key[t.writer.node], t.writer.prev, t.writer.level, t.writer.height);
    } else if step.BeginSearch? && s.writer.Searched? {
      assert PrevsOk(t, t.writer.k, t.writer.prev, 0, t.writer.height);
    }
  }

  lemma LoadKeepsInv(s: State, t: State)
    requires Inv(s) && Next(s, t, Load)
    ensures Inv(t)
  {
    var r := s.reader;
    assert LevelOk(s.mem, s.mem.next[r.level], s.linked[r.level]);
    assert IsNext(s.mem, s.linked[r.level], r.x, s.mem.next[r.level][r.x]);
    if s.writer.Linking? {
      assert PrevsOk(t, t.mem.key[t.writer.node], t.writer.prev, t.writer.level, t.writer.height);
    } else if s.writer.Searched? {
      assert PrevsOk(t, t.writer.k, t.writer.prev, 0, t.writer.height);
    }
  }

  lemma StepKeepsInv(s: State, t: State, step: Step)
    requires Inv(s) && Next(s, t, step)
    ensures Inv(t)
  {
    hide Inv, Next;
    match step {
      case BeginInsert => BeginInsertKeepsInv(s, t);
      case RaiseHeight => RaiseHeightKeepsInv(s, t);
      case NewNode => NewNodeKeepsInv(s, t);
      case SetOwnLink => SetOwnLinkKeepsInv(s, t);
      case PublishLink => PublishLinkKeepsInv(s, t);
      case Load => LoadKeepsInv(s, t);
      case EndInsert => LocalStepKeepsInv(s, t, step);
      case BeginSearch => LocalStepKeepsInv(s, t, step);
    }
  }
}
