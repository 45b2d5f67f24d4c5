// The thread pool's code: fields rewritten under the mutexes, one method for
// each critical section.  Each method is proved to be one step of the protocol.

module ThreadPoolCode {
  import opened Wrappers
  import opened ThreadPoolProtocol

  class ThreadPool {
    var wq: seq<Message>
    var slowIoPendingWq: seq<Id>
    var runSlowWorkLinked: bool        // !QUEUE_EMPTY(&run_slow_work_message)
    var slowIoWorkRunning: nat
    var idleThreads: nat
    var workers: seq<Worker>
    var loops: seq<Loop>
    var items: map<Id, Item>

    ghost function View(): Pool
      reads this
    {
      Pool(wq, slowIoPendingWq, slowIoWorkRunning, idleThreads, workers, loops, items)
    }

    ghost predicate Valid()
      reads this
    {
      Inv(View()) && (runSlowWorkLinked <==> RunSlowWork in wq)
    }

    constructor (nthreads: nat, nloops: nat)
      requires 1 <= nthreads
      ensures Valid() && Init(View()) && |workers| == nthreads && |loops| == nloops
    {
      wq, slowIoPendingWq, runSlowWorkLinked := [], [], false;
      slowIoWorkRunning, idleThreads := 0, 0;
      workers := seq(nthreads, _ => Start);
      loops := seq(nloops, _ => Loop([], [], None));
      items := map[];
      new;
      InitInv(View());
    }

    // uv_cond_signal(&cond); `wake` is the thread the system picks.
    method CondSignal(wake: nat)
      modifies this`workers
      ensures workers == Signal(old(workers), idleThreads, wake)
    {
      if idleThreads > 0 {
        if wake < |workers| && workers[wake] == Waiting(false) {
          workers := workers[wake := Waiting(true)];
        }
      }
    }

    // uv__work_submit and post
    method Submit(l: nat, id: Id, kind: Kind, wake: nat)
      requires Valid() && Enabled(View(), Step.Submit(l, id, kind, wake))
      modifies this
      ensures Valid() && View() == Apply(old(View()), Step.Submit(l, id, kind, wake))
    {
      SubmitKeeps(View(), l, id, kind, wake);
      items := items[id := NewItem(l, kind)];
      if kind == SlowIo {
        slowIoPendingWq := slowIoPendingWq + [id];
        if runSlowWorkLinked {
          return;
        }
        wq := wq + [RunSlowWork];
        runSlowWorkLinked := true;
      } else {
        wq := wq + [Job(id)];
      }
      CondSignal(wake);
    }

    // worker(): the part of the loop under `mutex` that looks for something to
    // run; None means that the thread goes to wait.
    method NextJob(wake: nat) returns (taken: Option<(Id, bool)>)
      requires Distinct(wq) && (runSlowWorkLinked <==> RunSlowWork in wq)
      modifies this`wq, this`slowIoPendingWq, this`runSlowWorkLinked, this`slowIoWorkRunning, this`workers
      ensures var s := WorkerSection(old(wq), old(slowIoPendingWq), old(slowIoWorkRunning), Threshold(|old(workers)|));
        && wq == s.wq && slowIoPendingWq == s.slow && slowIoWorkRunning == s.slowRunning && taken == s.taken
        && workers == if s.signal then Signal(old(workers), idleThreads, wake) else old(workers)
      ensures |workers| == |old(workers)| && (runSlowWorkLinked <==> RunSlowWork in wq)
    {
      ghost var section := WorkerSection(wq, slowIoPendingWq, slowIoWorkRunning, Threshold(|workers|));
      while true
        invariant Distinct(wq) && (runSlowWorkLinked <==> RunSlowWork in wq)
        invariant workers == old(workers)
        invariant WorkerSection(wq, slowIoPendingWq, slowIoWorkRunning, Threshold(|workers|)) == section
        decreases |wq|, if wq != [] && wq[0] == RunSlowWork then 1 else 0
      {
        if wq == [] || (wq[0] == RunSlowWork && |wq| == 1 && slowIoWorkRunning >= (|workers| + 1) / 2) {
          return None;
        }
        var q := wq[0];
        assert q !in wq[1..];
        wq := wq[1..];
        if q.Job? {
          return Some((q.id, false));
        }
        runSlowWorkLinked := false;
        if slowIoWorkRunning >= (|workers| + 1) / 2 {
          assert wq[0] != q;
          wq := wq + [q];
          runSlowWorkLinked := true;
          continue;
        }
        if slowIoPendingWq == [] {
          continue;
        }
        slowIoWorkRunning := slowIoWorkRunning + 1;
        taken := Some((slowIoPendingWq[0], true));
        slowIoPendingWq := slowIoPendingWq[1..];
        if slowIoPendingWq != [] {
          wq := wq + [RunSlowWork];
          runSlowWorkLinked := true;
          CondSignal(wake);
        }
        return;
      }
    }

    // worker(): `mutex` is locked again, after a wait or after posting a result.
    method Reacquire(i: nat)
      requires i < |workers|
      requires workers[i].Waiting? ==> idleThreads > 0
      requires workers[i] == Posted(true) ==> slowIoWorkRunning > 0
      modifies this`workers, this`idleThreads, this`slowIoWorkRunning
      ensures View() == Acquired(old(View()), i)
    {
      if workers[i] == Posted(true) {
        slowIoWorkRunning := slowIoWorkRunning - 1;
      } else if workers[i].Waiting? {
        idleThreads := idleThreads - 1;
      }
      workers := workers[i := Start];
    }

    // worker(): from retaking `mutex` to releasing it, either to wait or to run w->work.
    method TakeWork(i: nat, wake: nat)
      requires Valid() && Enabled(View(), Step.TakeWork(i, wake))
      modifies this
      ensures Valid() && View() == Apply(old(View()), Step.TakeWork(i, wake))
    {
      hide Inv;
      ghost var before := View();
      Reacquire(i);
      ghost var a := View();
      var taken := NextJob(wake);
      if taken.None? {
        idleThreads := idleThreads + 1;
        workers := workers[i := Waiting(false)];
      } else {
        var (q, isSlowWork) := taken.value;
        items := items[q := items[q].(linked := false, place := OnWorker(i))];
        workers := workers[i := Executing(q, isSlowWork)];
      }
      assert View() == Take(a, i, wake);
      TakeWorkKeeps(before, i, wake);
    }

    // w->work(w), outside every mutex
    method RunWork(i: nat)
      requires Valid() && Enabled(View(), Step.RunWork(i))
      modifies this
      ensures Valid() && View() == Apply(old(View()), Step.RunWork(i))
    {
      RunWorkKeeps(View(), i);
      var id := workers[i].id;
      items := items[id := items[id].(ran := items[id].ran + 1)];
      workers := workers[i := Ran(id, workers[i].slow)];
    }

    // worker(): the section under the loop's wq_mutex
    method PostResult(i: nat)
      requires Valid() && Enabled(View(), Step.PostResult(i))
      modifies this
      ensures Valid() && View() == Apply(old(View()), Step.PostResult(i))
    {
      PostResultKeeps(View(), i);
      var id := workers[i].id;
      var l := items[id].loop;
      items := items[id := items[id].(work := Null, linked := true, place := InLoopQueue)];
      loops := loops[l := loops[l].(queue := loops[l].queue + [id])];
      workers := workers[i := Posted(workers[i].slow)];
    }

    // uv__work_cancel: the section under both mutexes
    method TryCancel(l: nat, id: Id) returns (status: int)
      requires Valid() && Enabled(View(), Step.TryCancel(l, id))
      modifies this
      ensures Valid() && View() == Apply(old(View()), Step.TryCancel(l, id))
      ensures status == if Cancellable(old(items)[id]) then 0 else UV_EBUSY
    {
      hide Counters, NoLostWakeup, Linear, Unlink;
      TryCancelKeeps(View(), l, id);
      assert ItemInv(View(), id);
      var w := items[id];
      if !(w.linked && w.work != Null) {
        return UV_EBUSY;
      }
      UnlinkFromEffect(View(), l, id);
      if w.place == InWq {
        wq := Unlink(wq, Job(id));
      } else if w.place == InSlow {
        slowIoPendingWq := Unlink(slowIoPendingWq, id);
      } else if w.place == InLoopQueue {
        loops := loops[l := loops[l].(queue := Unlink(loops[l].queue, id))];
      } else {
        loops := loops[l := loops[l].(batch := Unlink(loops[l].batch, id))];
      }
      items := items[id := w.(place := OnCanceller, cancelled := true)];
      loops := loops[l := loops[l].(cancelling := Some(id))];
      return 0;
    }

    // uv__work_cancel: the rest, after a successful first section
    method PostCancelled(l: nat)
      requires Valid() && Enabled(View(), Step.PostCancelled(l))
      modifies this
      ensures Valid() && View() == Apply(old(View()), Step.PostCancelled(l))
    {
      PostCancelledKeeps(View(), l);
      var id := loops[l].cancelling.value;
      items := items[id := items[id].(work := Cancelled, linked := true, place := InLoopQueue)];
      loops := loops[l := loops[l].(queue := loops[l].queue + [id], cancelling := None)];
    }

    // uv__work_done: QUEUE_MOVE under the loop's wq_mutex
    method TakeBatch(l: nat)
      requires Valid() && Enabled(View(), Step.TakeBatch(l))
      modifies this
      ensures Valid() && View() == Apply(old(View()), Step.TakeBatch(l))
    {
      TakeBatchKeeps(View(), l);
      items := map id | id in items ::
        if items[id].place == InLoopQueue && items[id].loop == l then items[id].(place := InBatch) else items[id];
      loops := loops[l := loops[l].(queue := [], batch := loops[l].queue)];
    }

    // uv__work_done: one turn of its loop
    method RunDone(l: nat) returns (err: int)
      requires Valid() && Enabled(View(), Step.RunDone(l))
      modifies this
      ensures Valid() && View() == Apply(old(View()), Step.RunDone(l))
      ensures var id := old(loops)[l].batch[0]; id in items && err == items[id].status
    {
      RunDoneKeeps(View(), l);
      var id := loops[l].batch[0];
      var w := items[id];
      err := if w.work == Cancelled then UV_ECANCELED else 0;
      items := items[id := w.(place := Finished, done := w.done + 1, status := err)];
      loops := loops[l := loops[l].(batch := loops[l].batch[1..])];
    }
  }
}
