// What group commit promises over whole runs (DBImpl::Write in db/db_impl.cc).

module GroupCommitRuns {
  import opened Wrappers
  import opened GroupCommitProtocol

  ghost predicate Init(s: State) {
    && s.requests == map[] && s.joined == [] && s.queue == [] && s.leader == Nobody && s.done == map[] && s.returned == map[]
    && s.log == [] && s.fileStart == 0 && s.synced == {} && s.mem == map[] && s.lastSequence == s.firstSequence && s.bgError == Ok && s.history == []
  }

  lemma InitIsInv(s: State)
    requires Init(s)
    ensures Inv(s)
  {
  }

  ghost predicate IsRun(states: seq<State>, steps: seq<Step>) {
    |states| == |steps| + 1 && forall i :: 0 <= i < |steps| ==> Next(states[i], states[i + 1], steps[i])
  }

  lemma {:induction false} RunKeepsInv(states: seq<State>, steps: seq<Step>, i: nat)
    requires IsRun(states, steps) && Inv(states[0]) && i < |states|
    ensures Inv(states[i])
  {
    hide Inv, Next;
    if i > 0 {
      RunKeepsInv(states, steps, i - 1);
      StepKeepsInv(states[i - 1], states[i], steps[i - 1]);
    }
  }

  /* Numbers. */

  // The number before the first operation of the m-th member of the i-th group.
  ghost function Start(s: State, i: nat, m: nat): nat
    requires i < |s.history| && m <= |s.history[i].group| && forall id :: id in s.history[i].group ==> id in s.requests
  {
    s.history[i].base + |Concat(RequestsOf(s.requests, s.history[i].group)[..m])|
  }

  // The member is one whose operations were numbered.
  ghost predicate IsMember(s: State, i: nat, m: nat) {
    && i < |s.history| && s.history[i].written && m < |s.history[i].group|
    && forall id :: id in s.history[i].group ==> id in s.requests
  }

  ghost function Member(s: State, i: nat, m: nat): Request
    requires IsMember(s, i, m)
  {
    s.requests[s.history[i].group[m]]
  }

  lemma ConcatSplit(rs: seq<Request>, m: nat)
    requires m < |rs|
    ensures |Concat(rs[..m])| + |OpsOf(rs[m])| <= |Concat(rs)|
    ensures Concat(rs)[|Concat(rs[..m])|..|Concat(rs[..m])| + |OpsOf(rs[m])|] == OpsOf(rs[m])
    ensures Concat(rs[..m + 1]) == Concat(rs[..m]) + OpsOf(rs[m])
  {
    assert rs[..m + 1][..m] == rs[..m];
    ConcatPrefix(rs, m + 1);
  }

  lemma {:induction false} ConcatPrefix(rs: seq<Request>, m: nat)
    requires m <= |rs|
    ensures Concat(rs[..m]) <= Concat(rs)
    decreases |rs|
  {
    if m == |rs| {
      assert rs[..m] == rs;
    } else {
      assert rs[..|rs| - 1][..m] == rs[..m];
      ConcatPrefix(rs[..|rs| - 1], m);
    }
  }

  lemma {:induction false} NumberedSplit(h: seq<Commit>, i: nat)
    requires i < |h|
    ensures |Numbered(h[..i])| + |h[i].ops| <= |Numbered(h)|
    ensures Numbered(h)[|Numbered(h[..i])|..|Numbered(h[..i])| + |h[i].ops|] == h[i].ops
    ensures Numbered(h[..i + 1]) == Numbered(h[..i]) + h[i].ops
    decreases |h|
  {
    assert h[..i + 1][..i] == h[..i];
    var n := |h| - 1;
    if i < n {
      NumberedSplit(h[..n], i);
      assert h[..n][..i] == h[..i] && h[..n][..i + 1] == h[..i + 1];
    } else {
      assert h[..i + 1] == h;
    }
  }

  // The j-th operation of a member of a group has its own place among all the
  // operations numbered, and is in the memtable under that number exactly if
  // its group succeeded.
  lemma OperationHasItsNumber(s: State, i: nat, m: nat, j: nat)
    requires Inv(s) && IsMember(s, i, m) && j < |OpsOf(Member(s, i, m))|
    ensures var k := Start(s, i, m) + 1 + j;
      && s.firstSequence < k <= s.lastSequence
      && Numbered(s.history)[k - s.firstSequence - 1] == OpsOf(Member(s, i, m))[j]
      && (k in s.mem <==> s.history[i].status == Ok)
      && (k in s.mem ==> s.mem[k] == OpsOf(Member(s, i, m))[j])
  {
    hide QueueOk, LeaderOk, Concat, Numbered, MemOk, InMem, SyncRule, Logged;
    var c := s.history[i];
    CommitInMem(s, c);
    assert CommitOk(s, c);
    var rs := RequestsOf(s.requests, c.group);
    ConcatSplit(rs, m);
    NumberedSplit(s.history, i);
    var p := |Concat(rs[..m])| + j;
    assert c.ops[p] == OpsOf(rs[m])[j] by {
      assert c.ops[|Concat(rs[..m])|..|Concat(rs[..m])| + |OpsOf(rs[m])|][j] == c.ops[p];
    }
    var q := |Numbered(s.history[..i])|;
    assert Numbered(s.history)[q..q + |c.ops|][p] == Numbered(s.history)[q + p];
    InMemHasIt(s.mem, c.base, c.ops, if c.status == Ok then |c.ops| else 0, p);
  }

  lemma CommitInMem(s: State, c: Commit)
    requires MemOk(s) && c in s.history
    ensures c.base + |c.ops| <= s.lastSequence && InMem(s.mem, c.base, c.ops, if c.status == Ok then |c.ops| else 0)
  {
  }

  lemma InMemHasIt(mem: map<nat, Op>, base: nat, ops: seq<Op>, n: nat, p: nat)
    requires InMem(mem, base, ops, n) && p < |ops|
    ensures InMemAt(mem, base, p, ops[p], n)
  {
  }

  // Members that arrived earlier have the lower numbers: their positions in the
  // order of arrival, and in the order of numbers, agree.
  lemma NumbersFollowArrival(s: State, i: nat, m: nat, i': nat, m': nat)
    requires Inv(s) && IsMember(s, i, m) && IsMember(s, i', m') && (i < i' || (i == i' && m < m'))
    ensures Start(s, i, m) + |OpsOf(Member(s, i, m))| <= Start(s, i', m')
    ensures Arrival(s, i, m) < Arrival(s, i', m') < |s.joined|
    ensures s.joined[Arrival(s, i, m)] == s.history[i].group[m] && s.joined[Arrival(s, i', m')] == s.history[i'].group[m']
  {
    hide LeaderOk, MemOk, Concat, Numbered, Groups;
    assert CommitOk(s, s.history[i]);
    var rs := RequestsOf(s.requests, s.history[i].group);
    ConcatSplit(rs, m);
    if i < i' {
      NumberedGrows(s.history, i, i');
      GroupsGrow(s.history, i, i');
    } else {
      assert rs[..m'][..m + 1] == rs[..m + 1];
      ConcatPrefix(rs[..m'], m + 1);
    }
    ArrivedAt(s.history, i, m);
    ArrivedAt(s.history, i', m');
  }

  ghost function Arrival(s: State, i: nat, m: nat): nat
    requires i <= |s.history|
  {
    |Groups(s.history[..i])| + m
  }

  lemma {:induction false} ArrivedAt(h: seq<Commit>, i: nat, m: nat)
    requires i < |h| && m < |h[i].group|
    ensures |Groups(h[..i])| + m < |Groups(h)| && Groups(h)[|Groups(h[..i])| + m] == h[i].group[m]
    decreases |h|
  {
    var n := |h| - 1;
    if i < n {
      ArrivedAt(h[..n], i, m);
      assert h[..n][..i] == h[..i];
    } else {
      assert h[..i] == h[..n];
    }
  }

  lemma {:induction false} NumberedGrows(h: seq<Commit>, i: nat, i': nat)
    requires i < i' <= |h|
    ensures |Numbered(h[..i])| + |h[i].ops| <= |Numbered(h[..i'])|
    decreases i'
  {
    assert h[..i'][..i] == h[..i];
    NumberedSplit(h[..i'], i);
  }

  lemma GroupsGrow(h: seq<Commit>, i: nat, i': nat)
    requires i < i' < |h|
    ensures |Groups(h[..i])| + |h[i].group| <= |Groups(h[..i'])|
  {
    assert h[..i'][..i] == h[..i];
    if h[i].group != [] {
      ArrivedAt(h[..i'], i, |h[i].group| - 1);
    } else {
      GroupsPrefix(h[..i'], i);
    }
  }

  lemma {:induction false} GroupsPrefix(h: seq<Commit>, i: nat)
    requires i <= |h|
    ensures |Groups(h[..i])| <= |Groups(h)|
    decreases |h|
  {
    if i < |h| {
      GroupsPrefix(h[..|h| - 1], i);
      assert h[..|h| - 1][..i] == h[..i];
    } else {
      assert h[..i] == h;
    }
  }

  /* LastSequence and the memtable. */

  // The group whose operations hold a number.
  lemma {:induction false} NumberHasGroup(h: seq<Commit>, k: nat) returns (i: nat)
    requires k < |Numbered(h)|
    ensures i < |h| && |Numbered(h[..i])| <= k < |Numbered(h[..i])| + |h[i].ops|
    decreases |h|
  {
    var n := |h| - 1;
    if k < |Numbered(h[..n])| {
      i := NumberHasGroup(h[..n], k);
      assert h[..n][..i] == h[..i];
    } else {
      i := n;
    }
  }

  // While no group has failed, LastSequence covers nothing that is not in the
  // memtable; and whatever has failed, a number it covers is missing exactly if
  // its group failed.
  lemma CoveredIsInMemtable(s: State, k: nat) returns (i: nat)
    requires Inv(s) && s.firstSequence < k <= s.lastSequence
    ensures i < |s.history| && s.history[i].base < k <= s.history[i].base + |s.history[i].ops|
    ensures k in s.mem <==> s.history[i].status == Ok
    ensures k in s.mem ==> s.mem[k] == Numbered(s.history)[k - s.firstSequence - 1]
  {
    hide QueueOk, LeaderOk, Numbered, CommitOk;
    i := NumberHasGroup(s.history, k - s.firstSequence - 1);
    var c := s.history[i];
    NumberedSplit(s.history, i);
    var q, j := |Numbered(s.history[..i])|, k - c.base - 1;
    assert Numbered(s.history)[q..q + |c.ops|][j] == Numbered(s.history)[q + j];
    assert InMemAt(s.mem, c.base, j, c.ops[j], if c.status == Ok then |c.ops| else 0);
  }

  // A reader at LastSequence sees the same memtable entries ever after.
  lemma {:induction false} WhatReadersSeeStays(states: seq<State>, steps: seq<Step>, i: nat, j: nat, k: nat)
    requires IsRun(states, steps) && Inv(states[0]) && i <= j < |states| && k <= states[i].lastSequence
    ensures k <= states[j].lastSequence
    ensures k in states[i].mem <==> k in states[j].mem
    ensures k in states[i].mem ==> states[j].mem[k] == states[i].mem[k]
    decreases j
  {
    if i < j {
      WhatReadersSeeStays(states, steps, i, j - 1, k);
      assert Next(states[j - 1], states[j], steps[j - 1]);
    }
  }

  /* Completion. */

  // A writer is completed once, with the status of the one group it was in.
  lemma {:induction false} CompletedOnce(states: seq<State>, steps: seq<Step>, i: nat, j: nat, id: Id)
    requires IsRun(states, steps) && Inv(states[0]) && i <= j < |states| && id in states[i].done
    ensures id in states[j].done && states[j].done[id] == states[i].done[id]
    decreases j
  {
    hide Inv;
    if i < j {
      CompletedOnce(states, steps, i, j - 1, id);
      RunKeepsInv(states, steps, j - 1);
      StepKeepsDone(states[j - 1], states[j], steps[j - 1], id);
    }
  }

  lemma StepKeepsDone(s: State, t: State, step: Step, id: Id)
    requires Inv(s) && Next(s, t, step) && id in s.done
    ensures id in t.done && t.done[id] == s.done[id]
  {
    hide LeaderOk, HistoryOk, MemOk, QueueOk, Concat, Take, FindsNoRoom, FindsRoom, Finishes;
    DoneIsNotQueued(s, id);
    if step.Finish? {
      FinishKeepsDone(s, t, id);
    } else if step.NoRoom? || step.Room? {
      LeavingAloneKeepsDone(s, t, step, id);
    }
  }

  lemma FinishKeepsDone(s: State, t: State, id: Id)
    requires CanRead(s) && Finishes(s, t) && id in s.done && id !in s.queue
    ensures id in t.done && t.done[id] == s.done[id]
  {
    hide Concat, Take;
    assert forall x :: x in s.queue[..s.leader.size] ==> x in s.queue;
  }

  lemma LeavingAloneKeepsDone(s: State, t: State, step: Step, id: Id)
    requires Next(s, t, step) && (step.NoRoom? || step.Room?) && id in s.done && id !in s.queue
    ensures id in t.done && t.done[id] == s.done[id]
  {
    hide Concat, Take;
    assert s.queue != [] ==> s.queue[0] in s.queue;
  }

  lemma DoneIsNotQueued(s: State, id: Id)
    requires QueueOk(s) && id in s.done
    ensures id !in s.queue
  {
    var i :| 0 <= i < |Groups(s.history)| && Groups(s.history)[i] == id;
    assert s.joined[i] == id;
    forall j | 0 <= j < |s.queue| ensures s.queue[j] != id {
      assert s.joined[|Groups(s.history)| + j] == s.queue[j];
    }
  }

  lemma OneGroupEach(s: State, i: nat, m: nat, i': nat, m': nat)
    requires Inv(s) && i < |s.history| && i' < |s.history| && m < |s.history[i].group| && m' < |s.history[i'].group|
    requires s.history[i].group[m] == s.history[i'].group[m']
    ensures i == i' && m == m' && s.done[s.history[i].group[m]] == s.history[i].status
  {
    hide LeaderOk, HistoryOk, MemOk, Groups;
    ArrivedAt(s.history, i, m);
    ArrivedAt(s.history, i', m');
    if i < i' { GroupsGrow(s.history, i, i'); }
    if i' < i { GroupsGrow(s.history, i', i); }
    assert s.joined[Arrival(s, i, m)] == Groups(s.history)[Arrival(s, i, m)];
    assert s.joined[Arrival(s, i', m')] == Groups(s.history)[Arrival(s, i', m')];
    assert Settled(s.done, s.history[i]);
  }

  // A write that returned Ok is in the log (on disk, if it asked for that) and,
  // operation by operation, in the memtable.
  lemma AcknowledgedIsStored(s: State, id: Id) returns (i: nat, m: nat)
    requires Inv(s) && id in s.returned && s.returned[id] == Ok && s.requests[id].batch.Some?
    ensures IsMember(s, i, m) && s.history[i].group[m] == id && s.history[i].status == Ok
    ensures Logged(s.log, s.synced, Record(s.history[i].base, s.history[i].ops), s.requests[id].sync)
    ensures InMem(s.mem, Start(s, i, m), OpsOf(s.requests[id]), |OpsOf(s.requests[id])|)
  {
    hide LeaderOk, MemOk, Groups, Concat, Numbered, SyncRule;
    i, m := GroupOf(s.history, id);
    var c := s.history[i];
    assert Settled(s.done, c) && CommitOk(s, c);
    assert c.group[m] == id;
    RiderSyncs(s, c, m);
    var ops := OpsOf(s.requests[id]);
    forall j | 0 <= j < |ops| ensures InMemAt(s.mem, Start(s, i, m), j, ops[j], |ops|) {
      OperationHasItsNumber(s, i, m, j);
    }
  }

  lemma {:induction false} GroupOf(h: seq<Commit>, id: Id) returns (i: nat, m: nat)
    requires id in Groups(h)
    ensures i < |h| && m < |h[i].group| && h[i].group[m] == id
    decreases |h|
  {
    var n := |h| - 1;
    if id in h[n].group {
      i := n;
      m :| 0 <= m < |h[n].group| && h[n].group[m] == id;
    } else {
      i, m := GroupOf(h[..n], id);
    }
  }

  // No sync writer is completed by a group that did not sync.
  lemma RiderSyncs(s: State, c: Commit, m: nat)
    requires CommitOk(s, c) && c.written && m < |c.group| && c.group[m] in s.requests
    ensures s.requests[c.group[m]].sync ==> c.sync
  {
    var rs := RequestsOf(s.requests, c.group);
    assert rs[m] == s.requests[c.group[m]];
  }

  /* After an error has been recorded. */

  ghost predicate Halted(s: State) {
    s.bgError != Ok && !s.leader.Writing?
  }

  // No later write gets to the log.
  lemma {:induction false} HaltedStays(states: seq<State>, steps: seq<Step>, i: nat, j: nat)
    requires IsRun(states, steps) && i <= j < |states| && Halted(states[i])
    ensures Halted(states[j]) && states[j].log == states[i].log && states[j].bgError == states[i].bgError
    decreases j
  {
    hide Concat, Take;
    if i < j {
      HaltedStays(states, steps, i, j - 1);
      assert Next(states[j - 1], states[j], steps[j - 1]);
    }
  }

  lemma SyncFailureHalts(s: State, t: State)
    requires Next(s, t, Finish) && s.leader.phase.Failed? && s.leader.phase.syncError && s.leader.phase.status != Ok
    ensures Halted(t)
  {
  }

  // Nothing else does: not a failed write to the log, either.
  lemma ErrorsHaveACause(s: State, t: State, step: Step)
    requires Next(s, t, step) && t.bgError != s.bgError
    ensures s.bgError == Ok
    ensures step == BackgroundError(t.bgError)
         || (step == Finish && s.leader.Writing? && s.leader.phase == Failed(t.bgError, true))
  {
    hide Concat, Take;
  }

  lemma OnlySyncsFailSo(s: State, t: State, step: Step)
    requires Next(s, t, step) && t.leader.Writing? && t.leader.phase.Failed? && t.leader.phase.syncError
    ensures s.leader == t.leader || (step.SyncResult? && s.leader.Writing? && s.leader.phase.Sync? && step.result == t.leader.phase.status)
  {
    hide Concat, Take;
  }

  // A writer that gets to the front after an error is refused with that error.
  lemma HaltedWritersFail(s: State, t: State, step: Step)
    requires Next(s, t, step) && Halted(s) && |t.history| != |s.history|
    ensures |t.history| == |s.history| + 1 && s.queue != []
    ensures var c := t.history[|s.history|];
      && c.group == [s.queue[0]] && c.status == s.bgError && !c.written
      && s.queue[0] in t.done && t.done[s.queue[0]] == s.bgError
  {
    hide Concat, Take;
  }
}
