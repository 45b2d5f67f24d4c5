// What every run of the skip list gives its readers, and what its levels look
// like in every state (db/skiplist.h).

module SkipListRuns {
  import opened Wrappers
  import opened SkipListProtocol

  /* Every level is a strictly sorted list, and part of the one below. */

  ghost function After(mem: Memory, level: set<Node>, x: Node): set<Node>
    requires level <= mem.key.Keys && (x == HEAD || x in mem.key)
  {
    set m | m in level && Follows(mem, x, m)
  }

  ghost predicate Ascending(mem: Memory, s: seq<Node>) {
    forall i, j :: 0 <= i < j < |s| ==> s[i] in mem.key && s[j] in mem.key && mem.key[s[i]] < mem.key[s[j]]
  }

  // The nodes met by following a level's links from x.
  ghost function ListFrom(mem: Memory, next: map<Node, Option<Node>>, level: set<Node>, x: Node): (r: seq<Node>)
    requires HEAD !in mem.key && DistinctKeys(mem) && level <= mem.key.Keys && LevelOk(mem, next, level) && InLevel(level, x)
    ensures Ascending(mem, r) && forall m :: m in r <==> m in After(mem, level, x)
    decreases After(mem, level, x)
  {
    assert IsNext(mem, level, x, next[x]);
    match next[x]
    case None => []
    case Some(n) =>
      AfterNext(mem, level, x, n);
      var rest := ListFrom(mem, next, level, n);
      AscendingCons(mem, n, rest);
      [n] + rest
  }

  lemma AscendingCons(mem: Memory, n: Node, rest: seq<Node>)
    requires n in mem.key && Ascending(mem, rest)
    requires forall m :: m in rest ==> m in mem.key && mem.key[n] < mem.key[m]
    ensures Ascending(mem, [n] + rest)
  {
    forall j | 0 <= j < |rest| ensures rest[j] in mem.key && mem.key[n] < mem.key[rest[j]] {
      assert rest[j] in rest;
    }
  }

  lemma AfterNext(mem: Memory, level: set<Node>, x: Node, n: Node)
    requires level <= mem.key.Keys && (x == HEAD || x in mem.key) && IsNext(mem, level, x, Some(n))
    requires HEAD !in mem.key && DistinctKeys(mem)
    ensures n in After(mem, level, x) && n !in After(mem, level, n)
    ensures After(mem, level, x) == {n} + After(mem, level, n)
  {
  }

  ghost function LevelList(s: State, i: nat): seq<Node>
    requires Inv(s) && i < MAX_HEIGHT
  {
    assert LevelOk(s.mem, s.mem.next[i], s.linked[i]);
    ListFrom(s.mem, s.mem.next[i], s.linked[i], HEAD)
  }

  // Strictly sorted, and every node also in the list below: so, both being
  // sorted, a subsequence of it.  The lists hold the published nodes exactly.
  lemma LevelsAreSortedSublists(s: State, i: nat)
    requires Inv(s) && i < MAX_HEIGHT
    ensures Ascending(s.mem, LevelList(s, i))
    ensures forall m :: m in LevelList(s, i) <==> m in s.linked[i]
    ensures i > 0 ==> forall m :: m in LevelList(s, i) ==> m in LevelList(s, i - 1)
  {
    assert LevelOk(s.mem, s.mem.next[i], s.linked[i]);
    if i > 0 {
      assert LevelOk(s.mem, s.mem.next[i - 1], s.linked[i - 1]);
      assert s.linked[(i - 1) + 1] <= s.linked[i - 1];
    }
  }

  /* Searches. */

  // The place of a goal among the published nodes, as a linear search of level
  // 0 finds it: the last node the search passes, and the first it does not.
  ghost predicate IsPlace(mem: Memory, level: set<Node>, goal: Option<Key>, x: Node, next: Option<Node>)
    requires level <= mem.key.Keys
  {
    && InLevel(level, x) && (x != HEAD ==> Passes(goal, mem.key[x]))
    && (next.Some? ==> next.value in level && !Passes(goal, mem.key[next.value]))
    && forall m :: m in level ==>
      if Passes(goal, mem.key[m]) then x != HEAD && mem.key[m] <= mem.key[x]
      else next.Some? && mem.key[next.value] <= mem.key[m]
  }

  // Whatever the writer is in the middle of, a search returns exactly the place
  // of its goal among the nodes published by then.
  lemma ReturnIsExact(s: State, t: State)
    requires Inv(s) && Next(s, t, Load) && t.reader.Returned?
    ensures IsPlace(t.mem, t.linked[0], t.reader.goal, t.reader.x, t.reader.next)
    ensures t.reader.goal == s.reader.goal
  {
    var r := s.reader;
    assert LevelOk(s.mem, s.mem.next[0], s.linked[0]);
    assert IsNext(s.mem, s.linked[0], r.x, s.mem.next[0][r.x]);
  }

  // A load that does not return moves the search down, or on within its level:
  // without the writer's help a search ends.
  lemma LoadMoves(s: State, t: State)
    requires Inv(s) && Next(s, t, Load) && t.reader.Searching?
    ensures t.reader.goal == s.reader.goal
    ensures || (s.reader.level > 0 && t.reader == Searching(s.reader.goal, s.reader.x, s.reader.level - 1))
            || (t.reader.level == s.reader.level && t.reader.x in s.mem.key
                && After(t.mem, t.linked[t.reader.level], t.reader.x) < After(s.mem, s.linked[s.reader.level], s.reader.x))
  {
    var r := s.reader;
    assert LevelOk(s.mem, s.mem.next[r.level], s.linked[r.level]);
    assert IsNext(s.mem, s.linked[r.level], r.x, s.mem.next[r.level][r.x]);
    if t.reader.level == r.level {
      AfterNext(s.mem, s.linked[r.level], r.x, t.reader.x);
    }
  }

  /* Runs: any mix of the writer's steps and one reader's.  Readers store
     nothing, so one stands for all. */

  ghost predicate IsRun(states: seq<State>, steps: seq<Step>) {
    |states| == |steps| + 1 && forall i :: 0 <= i < |steps| ==> Next(states[i], states[i + 1], steps[i])
  }

  lemma {:induction false} RunKeepsInv(states: seq<State>, steps: seq<Step>, i: nat)
    requires IsRun(states, steps) && Inv(states[0]) && i < |states|
    ensures Inv(states[i])
  {
    hide Inv, Next;
    if i > 0 {
      RunKeepsInv(states, steps, i - 1);
      StepKeepsInv(states[i - 1], states[i], steps[i - 1]);
    }
  }

  // Nothing published is ever unlinked, and keys do not change.
  ghost predicate Grown(s: State, t: State)
    requires Shape(s) && Shape(t)
  {
    && (forall i :: 0 <= i < MAX_HEIGHT ==> s.linked[i] <= t.linked[i])
    && forall m :: m in s.mem.key ==> m in t.mem.key && t.mem.key[m] == s.mem.key[m]
  }

  lemma {:induction false} RunOnlyGrows(states: seq<State>, steps: seq<Step>, i: nat)
    requires IsRun(states, steps) && Inv(states[0]) && i < |states|
    ensures Inv(states[i]) && Grown(states[0], states[i])
  {
    hide LevelsOk, Nested, WriterOk, ReaderOk;
    RunKeepsInv(states, steps, i);
    if i > 0 {
      RunOnlyGrows(states, steps, i - 1);
      StepGrows(states[i - 1], states[i], steps[i - 1]);
    }
  }

  lemma StepGrows(s: State, t: State, step: Step)
    requires Inv(s) && Inv(t) && Next(s, t, step)
    ensures Grown(s, t)
  {
    hide LevelsOk, Nested, ReaderOk;
  }

  // The reader's goal stays what it was when its search began.
  lemma {:induction false} GoalStays(states: seq<State>, steps: seq<Step>, i: nat)
    requires IsRun(states, steps) && 1 <= i < |states| && steps[0] == BeginSearch
    requires forall j :: 1 <= j < |steps| ==> steps[j] != BeginSearch
    ensures !states[i].reader.Resting? && states[i].reader.goal == states[1].reader.goal
  {
    assert Next(states[i - 1], states[i], steps[i - 1]);
    if i > 1 { GoalStays(states, steps, i - 1); }
  }

  // A search interleaved with stores in any way never misses a key that was in
  // the list before it began, and never makes up a node.
  lemma SearchNeverMisses(states: seq<State>, steps: seq<Step>, m: Node)
    requires IsRun(states, steps) && Inv(states[0]) && |steps| >= 2 && steps[0] == BeginSearch && steps[|steps| - 1] == Load
    requires forall j :: 1 <= j < |steps| ==> steps[j] != BeginSearch
    requires states[|steps|].reader.Returned? && m in states[0].linked[0]
    ensures var first, last := states[0], states[|steps|];
      var r := last.reader;
      && Shape(last) && m in first.mem.key && r.goal == states[1].reader.goal
      && IsPlace(last.mem, last.linked[0], r.goal, r.x, r.next)
      && (if Passes(r.goal, first.mem.key[m]) then r.x != HEAD && first.mem.key[m] <= last.mem.key[r.x]
          else r.next.Some? && last.mem.key[r.next.value] <= first.mem.key[m])
      && (r.goal == Some(first.mem.key[m]) ==> r.next == Some(m))
  {
    hide LevelsOk, Nested, WriterOk, ReaderOk, Next;
    var n := |steps|;
    RunKeepsInv(states, steps, n - 1);
    RunOnlyGrows(states, steps, n);
    GoalStays(states, steps, n);
    assert Next(states[n - 1], states[n], steps[n - 1]);
    ReturnIsExact(states[n - 1], states[n]);
  }
}
