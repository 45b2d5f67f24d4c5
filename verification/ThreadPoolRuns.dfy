// What holds over every run of the thread pool.

module ThreadPoolRuns {
  import opened Wrappers
  import opened ThreadPoolProtocol

  ghost predicate IsRun(states: seq<Pool>, steps: seq<Step>) {
    && |states| == |steps| + 1 && Init(states[0])
    && forall t :: 0 <= t < |steps| ==> Enabled(states[t], steps[t]) && states[t + 1] == Apply(states[t], steps[t])
  }

  lemma {:induction false} RunKeepsInv(states: seq<Pool>, steps: seq<Step>, t: nat)
    requires IsRun(states, steps) && t < |states|
    ensures Inv(states[t])
  {
    if t == 0 {
      InitInv(states[0]);
    } else {
      RunKeepsInv(states, steps, t - 1);
      StepKeepsInv(states[t - 1], steps[t - 1]);
    }
  }

  /* Conservation: each request is in exactly one place. */

  function HeldCount(ws: seq<Worker>, id: Id): nat {
    if ws == [] then 0 else HeldCount(ws[..|ws| - 1], id) + if ws[|ws| - 1].Held() == Some(id) then 1 else 0
  }

  function LoopCount(loops: seq<Loop>, id: Id): nat {
    if loops == [] then 0
    else
      var l := loops[|loops| - 1];
      LoopCount(loops[..|loops| - 1], id)
        + multiset(l.queue)[id] + multiset(l.batch)[id] + if l.cancelling == Some(id) then 1 else 0
  }

  // How many times the request is linked, held or finished, counted over the
  // two pool queues, the workers, the loops and the finished requests.
  function Occurrences(p: Pool, id: Id): nat {
    multiset(p.wq)[Job(id)] + multiset(p.slow)[id] + HeldCount(p.workers, id) + LoopCount(p.loops, id)
      + if id in p.items && p.items[id].place == Finished then 1 else 0
  }

  lemma {:induction false} CountInDistinct<T>(s: seq<T>, x: T)
    requires Distinct(s)
    ensures multiset(s)[x] == if x in s then 1 else 0
  {
    if s != [] {
      var n := |s| - 1;
      CountInDistinct(s[..n], x);
      assert s == s[..n] + [s[n]];
    }
  }

  lemma {:induction false} HeldCountIs(ws: seq<Worker>, id: Id)
    requires forall i, j :: 0 <= i < j < |ws| ==> !(ws[i].Held() == ws[j].Held() == Some(id))
    ensures HeldCount(ws, id) == if exists i :: 0 <= i < |ws| && ws[i].Held() == Some(id) then 1 else 0
  {
    if ws != [] {
      var front := ws[..|ws| - 1];
      HeldCountIs(front, id);
      assert forall i :: 0 <= i < |front| ==> front[i] == ws[i];
    }
  }

  lemma {:induction false} LoopCountIs(loops: seq<Loop>, id: Id, home: nat)
    requires forall l: nat :: l < |loops| ==> Distinct(loops[l].queue) && Distinct(loops[l].batch)
    requires forall l: nat :: l < |loops| && l != home ==>
               id !in loops[l].queue && id !in loops[l].batch && loops[l].cancelling != Some(id)
    ensures LoopCount(loops, id) == if home >= |loops| then 0 else
              (if id in loops[home].queue then 1 else 0) + (if id in loops[home].batch then 1 else 0)
              + if loops[home].cancelling == Some(id) then 1 else 0
  {
    if loops != [] {
      var n := |loops| - 1;
      LoopCountIs(loops[..n], id, home);
      CountInDistinct(loops[n].queue, id);
      CountInDistinct(loops[n].batch, id);
    }
  }

  lemma OccursOnce(p: Pool, id: Id)
    requires Inv(p)
    ensures Occurrences(p, id) == if id in p.items then 1 else 0
  {
    assert ItemInv(p, id);
    CountInDistinct(p.wq, Job(id));
    CountInDistinct(p.slow, id);
    HeldCountIs(p.workers, id);
    LoopCountIs(p.loops, id, if id in p.items then p.items[id].loop else 0);
    if id in p.items && p.items[id].place.OnWorker? {
      assert p.workers[p.items[id].place.worker].Held() == Some(id);
    }
  }

  lemma SubmittedRequestIsInOnePlace(states: seq<Pool>, steps: seq<Step>, t: nat, id: Id)
    requires IsRun(states, steps) && t < |states|
    ensures Occurrences(states[t], id) == if id in states[t].items then 1 else 0
  {
    RunKeepsInv(states, steps, t);
    OccursOnce(states[t], id);
  }

  /* Callbacks and cancellation. */

  lemma HistoryGrows(p: Pool, s: Step, id: Id)
    requires Inv(p) && Enabled(p, s) && id in p.items
    ensures id in Apply(p, s).items
    ensures var was, is_ := p.items[id], Apply(p, s).items[id];
      && was.ran <= is_.ran && was.done <= is_.done && was.loop == is_.loop && was.kind == is_.kind
      && (was.cancelled ==> is_.cancelled)
      && (was.done == 1 ==> is_.status == was.status)
  {
    hide Counters, NoLostWakeup, Linear, WorkerSection, Signal, Distinct;
    assert ItemInv(p, id);
    if s.TakeWork? {
      var a := Acquired(p, s.worker);
      assert a.items == p.items;
    }
  }

  lemma {:induction false} HistoryGrowsOver(states: seq<Pool>, steps: seq<Step>, t: nat, u: nat, id: Id)
    requires IsRun(states, steps) && t <= u < |states| && id in states[t].items
    ensures id in states[u].items
    ensures var was, is_ := states[t].items[id], states[u].items[id];
      && was.ran <= is_.ran && was.done <= is_.done && was.loop == is_.loop && was.kind == is_.kind
      && (was.cancelled ==> is_.cancelled)
      && (was.done == 1 ==> is_.status == was.status)
  {
    hide Located, Counters, NoLostWakeup, Linear, Apply, Enabled;
    if t < u {
      HistoryGrowsOver(states, steps, t, u - 1, id);
      RunKeepsInv(states, steps, u - 1);
      assert ItemInv(states[u - 1], id);
      HistoryGrows(states[u - 1], steps[u - 1], id);
    }
  }

  // From the moment a cancel succeeds the work callback has not run and never
  // will; each callback runs at most once; and the done callback reports
  // UV_ECANCELED exactly for the cancelled requests.
  lemma CallbacksOverRuns(states: seq<Pool>, steps: seq<Step>, t: nat, u: nat, id: Id)
    requires IsRun(states, steps) && t <= u < |states| && id in states[t].items
    ensures id in states[u].items
    ensures var was, is_ := states[t].items[id], states[u].items[id];
      && is_.ran <= 1 && is_.done <= 1
      && (was.cancelled ==> is_.ran == 0)
      && (is_.done == 1 ==> (is_.status == UV_ECANCELED <==> is_.cancelled) && (is_.status == 0 <==> is_.ran == 1))
      && (was.done == 1 ==> is_.status == was.status && is_.ran == was.ran)
  {
    HistoryGrowsOver(states, steps, t, u, id);
    RunKeepsInv(states, steps, t);
    RunKeepsInv(states, steps, u);
    assert ItemInv(states[t], id) && ItemInv(states[u], id);
  }

  // uv__work_cancel returns 0 exactly when the request is still queued for a
  // worker, or was already cancelled; a running or completed one is busy.
  lemma CancelSucceedsIff(p: Pool, id: Id)
    requires Inv(p) && id in p.items && p.items[id].place != Finished && p.items[id].place != OnCanceller
    ensures Cancellable(p.items[id]) <==>
              || p.items[id].place == InWq || p.items[id].place == InSlow
              || p.items[id].cancelled
    ensures p.items[id].ran == 1 || p.items[id].place.OnWorker? ==> !Cancellable(p.items[id])
  {
    assert ItemInv(p, id);
  }

  /* Throttling and progress. */

  // Slow work never holds more than half of the threads, rounded up, so with
  // two or more threads one is always left for other work.
  lemma ThrottleOverRuns(states: seq<Pool>, steps: seq<Step>, t: nat)
    requires IsRun(states, steps) && t < |states|
    ensures var p := states[t];
      && p.slowRunning == SlowCount(p.workers) && 2 * p.slowRunning <= |p.workers| + 1
      && multiset(p.wq)[RunSlowWork] <= 1
      && (p.slow != [] ==> multiset(p.wq)[RunSlowWork] == 1)
  {
    RunKeepsInv(states, steps, t);
    CountInDistinct(states[t].wq, RunSlowWork);
  }

  // Nor is the limit lower: a worker goes to wait beside pending slow work only
  // if half of the threads run slow work, and never beside other work.
  lemma WaitsOnlyAtTheLimit(states: seq<Pool>, steps: seq<Step>, t: nat)
    requires IsRun(states, steps) && t < |steps| && steps[t].TakeWork?
    requires states[t + 1].workers[steps[t].worker] == Waiting(false)
    ensures var p := states[t + 1]; Jobs(p.wq) == [] && (p.slow != [] ==> 2 * p.slowRunning >= |p.workers|)
  {
    RunKeepsInv(states, steps, t);
    RunKeepsInv(states, steps, t + 1);
    var p, i := states[t], steps[t].worker;
    AcquireKeeps(p, i, steps[t].wake);
    var a := Acquired(p, i);
    SectionChoice(a.wq, a.slow, a.slowRunning, Threshold(|a.workers|));
    assert states[t + 1] == Take(a, i, steps[t].wake);
  }

  // Queued work is never stranded: while any request waits in either queue,
  // some worker thread is awake and will come back to the queue.
  lemma QueuedWorkHasAWorker(states: seq<Pool>, steps: seq<Step>, t: nat, id: Id)
    requires IsRun(states, steps) && t < |states|
    requires At(states[t], id, InWq) || At(states[t], id, InSlow)
    ensures SomeoneAwake(states[t].workers)
  {
    var p := states[t];
    RunKeepsInv(states, steps, t);
    assert ItemInv(p, id);
    if MustWait(p.wq, p.slowRunning, Threshold(|p.workers|)) {
      assert Job(id) !in p.wq;
      CountsBound(p.workers);
      var i :| 0 <= i < |p.workers| && p.workers[i].RunsSlow();
      assert p.workers[i] != Waiting(false);
    }
  }

  // A worker outside its callbacks can always take the mutex.
  lemma WorkerCanProceed(p: Pool, i: nat)
    requires Inv(p) && i < |p.workers| && p.workers[i].Held() == None
    ensures exists wake: nat :: Enabled(p, TakeWork(i, wake))
  {
    CountsAfter(p.workers, i, Start);
    forall id: Id ensures Job(id) in p.wq || id in p.slow ==> id in p.items { assert ItemInv(p, id); }
    var ws := p.workers[i := Start];
    if exists j: nat :: j < |ws| && ws[j] == Waiting(false) {
      var j: nat :| j < |ws| && ws[j] == Waiting(false);
      assert Enabled(p, TakeWork(i, j));
    } else {
      assert Enabled(p, TakeWork(i, 0));
    }
  }

  /* Order: first come, first served. */

  // The requests linked in `wq`, without the sentinel.
  function Jobs(wq: seq<Message>): seq<Id> {
    if wq == [] then []
    else if wq[0].Job? then [wq[0].id] + Jobs(wq[1..])
    else Jobs(wq[1..])
  }

  function Without(s: seq<Id>, id: Id): seq<Id> {
    if s == [] then []
    else if s[0] == id then Without(s[1..], id)
    else [s[0]] + Without(s[1..], id)
  }

  lemma {:induction false} JobsAppend(wq: seq<Message>, m: Message)
    ensures Jobs(wq + [m]) == Jobs(wq) + if m.Job? then [m.id] else []
  {
    if wq == [] {
      assert [m][1..] == [];
    } else {
      assert (wq + [m])[1..] == wq[1..] + [m];
      JobsAppend(wq[1..], m);
    }
  }

  lemma {:induction false} JobsUnlink(wq: seq<Message>, id: Id)
    requires Distinct(wq)
    ensures Jobs(Unlink(wq, Job(id))) == Without(Jobs(wq), id)
  {
    if wq != [] {
      var rest := wq[1..];
      JobsUnlink(rest, id);
      assert ([wq[0]] + Unlink(rest, Job(id)))[1..] == Unlink(rest, Job(id));
      if wq[0] == Job(id) {
        NotLinked(rest, id);
        assert ([id] + Jobs(rest))[1..] == Jobs(rest);
      } else if wq[0].Job? {
        assert ([wq[0].id] + Jobs(rest))[1..] == Jobs(rest);
      }
    }
  }

  lemma {:induction false} NotLinked(wq: seq<Message>, id: Id)
    requires Job(id) !in wq
    ensures Without(Jobs(wq), id) == Jobs(wq)
  {
    if wq != [] {
      NotLinked(wq[1..], id);
      if wq[0].Job? { assert ([wq[0].id] + Jobs(wq[1..]))[1..] == Jobs(wq[1..]); }
    }
  }

  lemma {:induction false} UnlinkKeepsOrder(s: seq<Id>, id: Id)
    requires Distinct(s)
    ensures Unlink(s, id) == Without(s, id)
    ensures id !in s ==> Without(s, id) == s
  {
    if s != [] {
      UnlinkKeepsOrder(s[1..], id);
      assert s[0] !in s[1..];
    }
  }

  // What a worker takes: the oldest request in the queue, or, if the sentinel
  // is in front and the limit allows, the oldest slow one; nothing only if it
  // finds neither.
  ghost predicate IsChoice(wq: seq<Message>, slow: seq<Id>, slowRunning: nat, threshold: nat, s: Section) {
    match s.taken
    case None =>
      && Jobs(wq) == Jobs(s.wq) == [] && s.slow == slow && s.slowRunning == slowRunning && !s.signal
      && (RunSlowWork in wq ==> slow == [] || slowRunning >= threshold)
    case Some((id, isSlow)) =>
      wq != [] &&
      if isSlow then
        && Jobs(s.wq) == Jobs(wq) && slow == [id] + s.slow && s.slowRunning == slowRunning + 1
        && wq[0] == RunSlowWork && slowRunning < threshold
        && (s.signal <==> s.slow != []) && (s.slow != [] ==> s.wq != [] && s.wq[|s.wq| - 1] == RunSlowWork)
      else
        && Jobs(wq) == [id] + Jobs(s.wq) && s.slow == slow && s.slowRunning == slowRunning && !s.signal
        && (wq[0].Job? || slow == [] || slowRunning >= threshold)
  }

  lemma {:induction false} SectionChoice(wq: seq<Message>, slow: seq<Id>, slowRunning: nat, threshold: nat)
    requires Distinct(wq)
    ensures IsChoice(wq, slow, slowRunning, threshold, WorkerSection(wq, slow, slowRunning, threshold))
    decreases |wq|, if wq != [] && wq[0] == RunSlowWork then 1 else 0
  {
    if MustWait(wq, slowRunning, threshold) {
      assert wq != [] ==> wq[1..] == [];
    } else if wq[0].Job? {
    } else if slowRunning >= threshold {
      var rotated := wq[1..] + [RunSlowWork];
      JobsAppend(wq[1..], RunSlowWork);
      assert rotated[0] == wq[1] != wq[0] && RunSlowWork in rotated;
      SectionChoice(rotated, slow, slowRunning, threshold);
    } else if slow == [] {
      SectionChoice(wq[1..], slow, slowRunning, threshold);
    } else {
      JobsAppend(wq[1..], RunSlowWork);
      assert slow == [slow[0]] + slow[1..];
    }
  }

  // Requests enter the queues at the back and are taken from the front; a
  // cancelled one goes from anywhere, and the others keep their order.
  lemma QueuesAreFifo(p: Pool, s: Step)
    requires Inv(p) && Enabled(p, s)
    ensures var q := Apply(p, s);
      match s
      case Submit(_, id, kind, _) =>
        && Jobs(q.wq) == Jobs(p.wq) + (if kind == SlowIo then [] else [id])
        && q.slow == p.slow + if kind == SlowIo then [id] else []
      case TakeWork(i, _) =>
        if q.workers[i].Executing? then
          var id, slow := q.workers[i].id, q.workers[i].slow;
          && Jobs(p.wq) == (if slow then [] else [id]) + Jobs(q.wq)
          && p.slow == (if slow then [id] else []) + q.slow
        else
          Jobs(q.wq) == Jobs(p.wq) && q.slow == p.slow
      case TryCancel(_, id) =>
        if Cancellable(p.items[id]) then Jobs(q.wq) == Without(Jobs(p.wq), id) && q.slow == Without(p.slow, id)
        else Jobs(q.wq) == Jobs(p.wq) && q.slow == p.slow
      case _ => Jobs(q.wq) == Jobs(p.wq) && q.slow == p.slow
  {
    match s
    case Submit(_, id, kind, _) =>
      JobsAppend(p.wq, if kind == SlowIo then RunSlowWork else Job(id));
    case TakeWork(i, wake) =>
      AcquireKeeps(p, i, wake);
      var a := Acquired(p, i);
      SectionChoice(a.wq, a.slow, a.slowRunning, Threshold(|a.workers|));
      assert Apply(p, s) == Take(a, i, wake);
    case TryCancel(l, id) =>
      assert ItemInv(p, id);
      JobsUnlink(p.wq, id);
      UnlinkKeepsOrder(p.slow, id);
      if Job(id) !in p.wq { NotLinked(p.wq, id); }
    case _ =>
  }

  // The requests of a loop that wait for their done callbacks.
  function Completed(p: Pool, l: nat): seq<Id>
    requires l < |p.loops|
  {
    p.loops[l].batch + p.loops[l].queue
  }

  // Done callbacks run in the order in which the requests were completed.
  lemma CompletionsAreFifo(p: Pool, s: Step, l: nat)
    requires Inv(p) && Enabled(p, s) && l < |p.loops|
    ensures |Apply(p, s).loops| == |p.loops|
    ensures var q := Apply(p, s);
      match s
      case PostResult(i) =>
        var id := p.workers[i].id;
        Completed(q, l) == Completed(p, l) + if p.items[id].loop == l then [id] else []
      case PostCancelled(at) =>
        Completed(q, l) == Completed(p, l) + if at == l then [p.loops[l].cancelling.value] else []
      case RunDone(at) =>
        var id := p.loops[at].batch[0];
        && q.items[id].done == p.items[id].done + 1
        && Completed(p, l) == (if at == l then [id] else []) + Completed(q, l)
      case TryCancel(at, id) =>
        Completed(q, l) == if at == l && Cancellable(p.items[id]) then Without(Completed(p, l), id) else Completed(p, l)
      case _ => Completed(q, l) == Completed(p, l)
  {
    hide Counters, NoLostWakeup, WorkerSection, Signal, ItemInv, Without;
    match s
    case TryCancel(at, id) => CancelledLeavesLine(p, at, id, l);
    case TakeWork(i, wake) =>
      assert Apply(p, s) == Take(Acquired(p, i), i, wake);
    case _ =>
  }

  lemma CancelledLeavesLine(p: Pool, at: nat, id: Id, l: nat)
    requires Inv(p) && Enabled(p, TryCancel(at, id)) && l < |p.loops|
    ensures var q := Apply(p, TryCancel(at, id));
      && |q.loops| == |p.loops|
      && Completed(q, l) == if at == l && Cancellable(p.items[id]) then Without(Completed(p, l), id) else Completed(p, l)
  {
    hide Counters, NoLostWakeup;
    assert ItemInv(p, id);
    UnlinkKeepsOrder(p.loops[l].batch, id);
    UnlinkKeepsOrder(p.loops[l].queue, id);
    WithoutSplits(p.loops[l].batch, p.loops[l].queue, id);
  }

  lemma {:induction false} WithoutSplits(a: seq<Id>, b: seq<Id>, id: Id)
    ensures Without(a + b, id) == Without(a, id) + Without(b, id)
  {
    if a == [] {
      assert a + b == b;
    } else {
      assert (a + b)[1..] == a[1..] + b;
      WithoutSplits(a[1..], b, id);
    }
  }
}
