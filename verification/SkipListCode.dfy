// The skip list as a class (db/skiplist.h): its searches, its iterator, and
// Insert, each of whose stores is one step of the protocol.

module SkipListCode {
  import opened Wrappers
  import opened SkipListProtocol
  import opened SkipListRuns

  // A run of the protocol from a good state.
  datatype Run = Run(states: seq<State>, steps: seq<Step>)
  {
    ghost predicate Good() {
      IsRun(states, steps) && Inv(states[0]) && Inv(states[|steps|])
    }

    ghost function First(): State
      requires Good()
    {
      states[0]
    }

    ghost function Last(): State
      requires Good()
    {
      states[|steps|]
    }

    ghost function Then(t: State, step: Step): (r: Run)
      requires Good() && Next(Last(), t, step)
      ensures r.Good() && r.First() == First() && r.Last() == t
    {
      StepKeepsInv(Last(), t, step);
      var r := Run(states + [t], steps + [step]);
      assert forall i :: 0 <= i < |steps| ==> Next(states[i], states[i + 1], steps[i]);
      r
    }

    lemma LastIsGood()
      requires Good()
      ensures Inv(Last())
    {
    }
  }

  // What Insert relies on at each level.
  lemma LinkingIsOk(run: Run, i: nat)
    requires run.Good() && run.Last().writer.Linking? && run.Last().writer.level == i
    ensures var s, w := run.Last(), run.Last().writer;
      && |s.linked| == |s.mem.next| == MAX_HEIGHT && i <= w.height <= |w.prev| && w.height <= MAX_HEIGHT
      && (i < w.height ==> w.prev[i] in s.mem.next[i])
  {
    var s, w := run.Last(), run.Last().writer;
    if i < w.height {
      assert IsPrev(s.mem, s.linked[i], w.prev[i], s.mem.key[w.node]);
      assert LevelOk(s.mem, s.mem.next[i], s.linked[i]);
    }
  }

  ghost function Start(s: State): (r: Run)
    requires Inv(s)
    ensures r.Good() && r.First() == s && r.Last() == s
  {
    Run([s], [])
  }

  class SkipList {
    var mem: Memory
    ghost var linked: seq<set<Node>>

    constructor ()
      ensures Valid() && Nodes() == {}
    {
      var empty: map<Node, Option<Node>> := map[HEAD := None];
      mem := Memory(map[], seq(MAX_HEIGHT, _ => empty), 1);
      linked := seq(MAX_HEIGHT, _ => {});
      new;
      forall i | 0 <= i < MAX_HEIGHT ensures LevelOk(mem, mem.next[i], linked[i]) {
      }
    }

    // The list between calls: no insertion under way.
    ghost function Quiet(): State
      reads this
    {
      State(mem, linked, Idle, Resting)
    }

    ghost predicate Valid()
      reads this
    {
      Inv(Quiet())
    }

    ghost function Nodes(): set<Node>
      requires |linked| == MAX_HEIGHT
      reads this
    {
      linked[0]
    }

    // The link of a node, and where it leads.
    lemma LinkAt(level: nat, x: Node)
      requires Valid() && level < MAX_HEIGHT && InLevel(linked[level], x)
      ensures x in mem.next[level] && IsNext(mem, linked[level], x, mem.next[level][x])
      ensures mem.next[level][x].Some? ==> After(mem, linked[level], mem.next[level][x].value) < After(mem, linked[level], x)
    {
      assert LevelOk(mem, mem.next[level], linked[level]);
      if mem.next[level][x].Some? { AfterNext(mem, linked[level], x, mem.next[level][x].value); }
    }

    lemma HighLevelsAreEmpty(k: Key)
      requires Valid()
      ensures forall j :: mem.maxHeight <= j < MAX_HEIGHT ==> IsPrev(mem, linked[j], HEAD, k)
    {
    }

    method FindGreaterOrEqual(k: Key) returns (r: Option<Node>, prev: seq<Node>)
      requires Valid()
      ensures |prev| == MAX_HEIGHT && IsPlace(mem, linked[0], Some(k), prev[0], r)
      ensures forall i :: 0 <= i < mem.maxHeight ==> IsPrev(mem, linked[i], prev[i], k)
    {
      hide LevelOk, WriterOk, ReaderOk;
      prev := seq(MAX_HEIGHT, _ => HEAD);
      var x, level := HEAD, mem.maxHeight - 1;
      while true
        invariant 0 <= level < MAX_HEIGHT && |prev| == MAX_HEIGHT
        invariant InLevel(linked[level], x) && (x != HEAD ==> mem.key[x] < k)
        invariant forall i :: level < i < mem.maxHeight ==> IsPrev(mem, linked[i], prev[i], k)
        decreases level, After(mem, linked[level], x)
      {
        LinkAt(level, x);
        var next := mem.next[level][x];
        if next.Some? && mem.key[next.value] < k {
          x := next.value;
        } else {
          prev := prev[level := x];
          if level == 0 {
            return next, prev;
          }
          level := level - 1;
        }
      }
    }

    method FindLessThan(k: Key) returns (x: Node)
      requires Valid()
      ensures IsPrev(mem, linked[0], x, k)
    {
      hide LevelOk, WriterOk, ReaderOk;
      x := HEAD;
      var level := mem.maxHeight - 1;
      while true
        invariant 0 <= level < MAX_HEIGHT
        invariant InLevel(linked[level], x) && (x != HEAD ==> mem.key[x] < k)
        decreases level, After(mem, linked[level], x)
      {
        LinkAt(level, x);
        var next := mem.next[level][x];
        if next == None || mem.key[next.value] >= k {
          if level == 0 {
            return;
          }
          level := level - 1;
        } else {
          x := next.value;
        }
      }
    }

    method FindLast() returns (x: Node)
      requires Valid()
      ensures IsPlace(mem, linked[0], None, x, None)
    {
      hide LevelOk, WriterOk, ReaderOk;
      x := HEAD;
      var level := mem.maxHeight - 1;
      while true
        invariant 0 <= level < MAX_HEIGHT && InLevel(linked[level], x)
        decreases level, After(mem, linked[level], x)
      {
        LinkAt(level, x);
        var next := mem.next[level][x];
        if next == None {
          if level == 0 {
            return;
          }
          level := level - 1;
        } else {
          x := next.value;
        }
      }
    }

    // Insert.  `height` is what RandomHeight drew, `x` the address the arena
    // gave out.  The stores made, one by one, are a run of the protocol.
    method Insert(k: Key, height: nat, x: Node) returns (ghost run: Run)
      requires Valid() && forall m :: m in Nodes() ==> mem.key[m] != k
      requires 1 <= height <= MAX_HEIGHT && x != HEAD && x !in mem.key
      modifies this
      ensures Valid() && mem.key == old(mem.key)[x := k]
      ensures |linked| == |old(linked)| && forall i :: 0 <= i < |linked| ==>
        linked[i] == if i < height then old(linked)[i] + {x} else old(linked)[i]
      ensures run.Good() && run.First() == old(Quiet()) && run.Last() == Quiet()
    {
      hide LevelsOk, Nested, ReaderOk, Run.Good, PrevsOk, IsPrev;
      var prev := Predecessors(k, height);
      run := Start(Quiet());
      run := run.Then(State(mem, linked, Searched(k, height, prev), Resting), BeginInsert);
      if height > mem.maxHeight {
        mem := mem.(maxHeight := height);
        run := run.Then(State(mem, linked, Searched(k, height, prev), Resting), RaiseHeight);
      }
      mem := mem.(key := mem.key[x := k]);
      run := run.Then(State(mem, linked, Linking(x, height, prev, 0, false), Resting), NewNode);
      run := Link(x, height, prev, run);
      LinkingIsOk(run, height);
      run := run.Then(Quiet(), EndInsert);
      run.LastIsGood();
    }

    // Insert up to the choice of predecessors: the head where the list was not that high.
    method Predecessors(k: Key, height: nat) returns (prev: seq<Node>)
      requires Valid() && 1 <= height <= MAX_HEIGHT
      ensures |prev| == MAX_HEIGHT && PrevsOk(Quiet(), k, prev, 0, height)
    {
      hide LevelOk, WriterOk, ReaderOk, IsPrev;
      var x;
      x, prev := FindGreaterOrEqual(k);
      HighLevelsAreEmpty(k);
      if height > mem.maxHeight {
        for i := mem.maxHeight to height
          invariant |prev| == MAX_HEIGHT && forall j :: 0 <= j < i ==> IsPrev(mem, linked[j], prev[j], k)
        {
          prev := prev[i := HEAD];
        }
      }
    }

    // Insert, the node linked into its levels from the lowest up.
    method Link(x: Node, height: nat, prev: seq<Node>, ghost before: Run) returns (ghost run: Run)
      requires before.Good() && before.Last() == State(mem, linked, Linking(x, height, prev, 0, false), Resting)
      modifies this
      ensures run.Good() && run.First() == before.First()
      ensures run.Last() == State(mem, linked, Linking(x, height, prev, height, false), Resting)
      ensures mem.key == old(mem.key) && |linked| == |old(linked)| && height <= |linked|
      ensures forall i :: 0 <= i < |linked| ==> linked[i] == if i < height then old(linked)[i] + {x} else old(linked)[i]
    {
      hide Inv, Run.Good, LevelOk;
      run := before;
      LinkingIsOk(run, 0);
      for i := 0 to height
        invariant run.Good() && run.First() == before.First()
        invariant run.Last() == State(mem, linked, Linking(x, height, prev, i, false), Resting)
        invariant mem.key == old(mem.key) && |linked| == |old(linked)| == MAX_HEIGHT
        invariant forall j :: 0 <= j < |linked| ==> linked[j] == if j < i then old(linked)[j] + {x} else old(linked)[j]
      {
        LinkingIsOk(run, i);
        mem := SetNext(mem, i, x, mem.next[i][prev[i]]);
        run := run.Then(State(mem, linked, Linking(x, height, prev, i, true), Resting), SetOwnLink);
        mem := SetNext(mem, i, prev[i], Some(x));
        linked := linked[i := linked[i] + {x}];
        run := run.Then(State(mem, linked, Linking(x, height, prev, i + 1, false), Resting), PublishLink);
      }
    }

    method Contains(k: Key) returns (r: bool)
      requires Valid()
      ensures r <==> exists m :: m in Nodes() && mem.key[m] == k
    {
      var x, prev := FindGreaterOrEqual(k);
      r := x.Some? && mem.key[x.value] == k;
    }
  }

  class Iterator {
    const list: SkipList
    var node: Option<Node>

    constructor (list: SkipList)
      ensures this.list == list && node == None
    {
      this.list, node := list, None;
    }

    ghost predicate Ok()
      reads this, list
    {
      list.Valid() && (node.Some? ==> node.value in list.Nodes())
    }

    // On the first node at or after k, or past the end.
    ghost predicate AtFirst(k: Key)
      reads this, list
      requires Ok()
    {
      && (node.Some? ==> k <= list.mem.key[node.value])
      && forall m :: m in list.Nodes() && k <= list.mem.key[m] ==> node.Some? && list.mem.key[node.value] <= list.mem.key[m]
    }

    // On the last node before k, or before the start.
    ghost predicate AtLastBefore(k: Option<Key>)
      reads this, list
      requires Ok()
    {
      && (node.Some? ==> Passes(k, list.mem.key[node.value]))
      && forall m :: m in list.Nodes() && Passes(k, list.mem.key[m]) ==> node.Some? && list.mem.key[m] <= list.mem.key[node.value]
    }

    method Next()
      requires Ok() && node.Some?
      modifies this`node
      ensures Ok() && (node.Some? ==> list.mem.key[old(node).value] < list.mem.key[node.value])
      ensures forall m :: m in list.Nodes() && list.mem.key[old(node).value] < list.mem.key[m] ==>
        node.Some? && list.mem.key[node.value] <= list.mem.key[m]
    {
      list.LinkAt(0, node.value);
      node := list.mem.next[0][node.value];
    }

    method Prev()
      requires Ok() && node.Some?
      modifies this`node
      ensures Ok() && AtLastBefore(Some(list.mem.key[old(node).value]))
    {
      var x := list.FindLessThan(list.mem.key[node.value]);
      node := if x == HEAD then None else Some(x);
    }

    method Seek(k: Key)
      requires Ok()
      modifies this`node
      ensures Ok() && AtFirst(k)
    {
      var x, prev := list.FindGreaterOrEqual(k);
      node := x;
    }

    method SeekToFirst()
      requires Ok()
      modifies this`node
      ensures Ok() && (node == None <==> list.Nodes() == {})
      ensures node.Some? ==> AtFirst(list.mem.key[node.value]) && forall m :: m in list.Nodes() ==> list.mem.key[node.value] <= list.mem.key[m]
    {
      list.LinkAt(0, HEAD);
      node := list.mem.next[0][HEAD];
    }

    method SeekToLast()
      requires Ok()
      modifies this`node
      ensures Ok() && AtLastBefore(None)
    {
      var x := list.FindLast();
      node := if x == HEAD then None else Some(x);
    }
  }
}
