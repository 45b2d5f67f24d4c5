// The libuv thread pool as a protocol of atomic steps (src/threadpool.c).
//
// A step is what one thread does between taking and releasing a mutex, or one
// call of a work or done callback.  `mutex` guards the two queues and the
// counters, each loop's `wq_mutex` guards that loop's completion queue.

module ThreadPoolProtocol {
  import opened Wrappers

  type Id = nat

  // What may be linked in `wq`: a request, or the sentinel run_slow_work_message.
  datatype Message = Job(id: Id) | RunSlowWork

  datatype Kind = Cpu | FastIo | SlowIo

  // The values of w->work that the pool distinguishes.
  datatype WorkPointer = Callback | Null | Cancelled

  datatype Place = InWq | InSlow | OnWorker(worker: nat) | InLoopQueue | InBatch | OnCanceller | Finished

  // `linked` is !QUEUE_EMPTY(&w->wq).  The remaining fields record what has
  // happened to the request: where it is, how often its callbacks ran, whether
  // a cancel of it returned 0, and the status given to the done callback.
  datatype Item = Item(loop: nat, kind: Kind, work: WorkPointer, linked: bool,
                       place: Place, ran: nat, cancelled: bool, done: nat, status: int)

  const UV_ECANCELED: int := -125
  const UV_EBUSY: int := -16

  // Where a worker thread is.  A waiting worker may have been signalled but not
  // yet have retaken the mutex.
  datatype Worker =
    | Start
    | Waiting(signalled: bool)
    | Executing(id: Id, slow: bool)
    | Ran(id: Id, slow: bool)
    | Posted(slow: bool)
  {
    function Held(): Option<Id> {
      match this
      case Executing(id, _) => Some(id)
      case Ran(id, _) => Some(id)
      case _ => None
    }
    // Counted in slow_io_work_running.
    predicate RunsSlow() {
      match this
      case Executing(_, slow) => slow
      case Ran(_, slow) => slow
      case Posted(slow) => slow
      case _ => false
    }
  }

  // A loop's completion queue, the batch uv__work_done has taken off it, and
  // the request its thread has unlinked in uv__work_cancel but not yet posted.
  datatype Loop = Loop(queue: seq<Id>, batch: seq<Id>, cancelling: Option<Id>)

  datatype Pool = Pool(wq: seq<Message>, slow: seq<Id>, slowRunning: nat, idle: nat,
                       workers: seq<Worker>, loops: seq<Loop>, items: map<Id, Item>)

  function Threshold(nthreads: nat): nat { (nthreads + 1) / 2 }

  /* Lists. */

  // QUEUE_REMOVE of a linked node.
  function Unlink<T(==)>(s: seq<T>, x: T): (r: seq<T>)
    ensures forall y :: y in r ==> y in s
    ensures |r| <= |s|
  {
    if s == [] then []
    else if s[0] == x then s[1..]
    else [s[0]] + Unlink(s[1..], x)
  }

  lemma {:induction false} UnlinkRemoves<T>(s: seq<T>, x: T)
    requires Distinct(s)
    ensures Distinct(Unlink(s, x))
    ensures forall y :: y in Unlink(s, x) <==> y in s && y != x
  {
    if s != [] && s[0] != x {
      UnlinkRemoves(s[1..], x);
      assert s[0] !in s[1..];
    }
  }

  /* Workers. */

  function SlowCount(ws: seq<Worker>): nat {
    if ws == [] then 0 else SlowCount(ws[..|ws| - 1]) + if ws[|ws| - 1].RunsSlow() then 1 else 0
  }

  function WaitingCount(ws: seq<Worker>): nat {
    if ws == [] then 0 else WaitingCount(ws[..|ws| - 1]) + if ws[|ws| - 1].Waiting? then 1 else 0
  }

  lemma {:induction false} CountsAfter(ws: seq<Worker>, i: nat, w: Worker)
    requires i < |ws|
    ensures SlowCount(ws[i := w]) + (if ws[i].RunsSlow() then 1 else 0) == SlowCount(ws) + if w.RunsSlow() then 1 else 0
    ensures WaitingCount(ws[i := w]) + (if ws[i].Waiting? then 1 else 0) == WaitingCount(ws) + if w.Waiting? then 1 else 0
  {
    var n := |ws| - 1;
    if i < n {
      CountsAfter(ws[..n], i, w);
      assert ws[i := w][..n] == ws[..n][i := w];
    } else {
      assert ws[i := w][..n] == ws[..n];
    }
  }

  lemma {:induction false} CountsBound(ws: seq<Worker>)
    ensures SlowCount(ws) + WaitingCount(ws) <= |ws|
    ensures SlowCount(ws) > 0 ==> exists i :: 0 <= i < |ws| && ws[i].RunsSlow()
    ensures WaitingCount(ws) == 0 ==> forall i :: 0 <= i < |ws| ==> !ws[i].Waiting?
  {
    if ws != [] {
      var front := ws[..|ws| - 1];
      CountsBound(front);
      if SlowCount(front) > 0 {
        var i :| 0 <= i < |front| && front[i].RunsSlow();
        assert ws[i].RunsSlow();
      }
      forall i | 0 <= i < |ws| && WaitingCount(ws) == 0 ensures !ws[i].Waiting? {
        if i < |front| { assert front[i] == ws[i]; }
      }
    }
  }

  // uv_cond_signal wakes one of the threads that wait unsignalled, if there is one.
  ghost predicate WakeChoice(ws: seq<Worker>, wake: nat) {
    (exists j :: 0 <= j < |ws| && ws[j] == Waiting(false)) ==> wake < |ws| && ws[wake] == Waiting(false)
  }

  function Signal(ws: seq<Worker>, idle: nat, wake: nat): (r: seq<Worker>)
    ensures |r| == |ws|
  {
    if idle > 0 && wake < |ws| && ws[wake] == Waiting(false) then ws[wake := Waiting(true)] else ws
  }

  /* What a worker does while it holds the mutex. */

  predicate MustWait(wq: seq<Message>, slowRunning: nat, threshold: nat) {
    wq == [] || (wq[0] == RunSlowWork && |wq| == 1 && slowRunning >= threshold)
  }

  datatype Section = Section(wq: seq<Message>, slow: seq<Id>, slowRunning: nat,
                             taken: Option<(Id, bool)>, signal: bool)

  ghost function WorkerSection(wq: seq<Message>, slow: seq<Id>, slowRunning: nat, threshold: nat): (s: Section)
    requires Distinct(wq)
    ensures s.taken.Some? ==> if s.taken.value.1 then s.taken.value.0 in slow else Job(s.taken.value.0) in wq
    decreases |wq|, if wq != [] && wq[0] == RunSlowWork then 1 else 0
  {
    if MustWait(wq, slowRunning, threshold) then
      Section(wq, slow, slowRunning, None, false)
    else if wq[0].Job? then
      Section(wq[1..], slow, slowRunning, Some((wq[0].id, false)), false)
    else if slowRunning >= threshold then
      // Re-schedule until after all other work in the queue is done.
      assert wq[1] == (wq[1..] + [RunSlowWork])[0] != wq[0];
      WorkerSection(wq[1..] + [RunSlowWork], slow, slowRunning, threshold)
    else if slow == [] then
      // All slow requests were cancelled: start over.
      WorkerSection(wq[1..], slow, slowRunning, threshold)
    else
      var more := slow[1..] != [];
      Section(if more then wq[1..] + [RunSlowWork] else wq[1..], slow[1..], slowRunning + 1,
              Some((slow[0], true)), more)
  }

  // The worker has the mutex again: it no longer waits, and slow work it had finished is uncounted.
  function Acquired(p: Pool, i: nat): Pool
    requires i < |p.workers|
    requires p.workers[i].Waiting? ==> p.idle > 0
    requires p.workers[i] == Posted(true) ==> p.slowRunning > 0
  {
    var w := p.workers[i];
    p.(workers := p.workers[i := Start],
       idle := if w.Waiting? then p.idle - 1 else p.idle,
       slowRunning := if w == Posted(true) then p.slowRunning - 1 else p.slowRunning)
  }

  // Whatever is queued was submitted.
  ghost predicate QueuesKnown(p: Pool) {
    (forall id :: Job(id) in p.wq ==> id in p.items) && (forall id :: id in p.slow ==> id in p.items)
  }

  /* Steps. */

  datatype Step =
    | Submit(loop: nat, id: Id, kind: Kind, wake: nat)
    | TakeWork(worker: nat, wake: nat)
    | RunWork(worker: nat)
    | PostResult(worker: nat)
    | TryCancel(loop: nat, id: Id)
    | PostCancelled(loop: nat)
    | TakeBatch(loop: nat)
    | RunDone(loop: nat)

  // QUEUE_EMPTY(&w->wq) is false and w->work is not null.
  predicate Cancellable(it: Item) {
    it.linked && it.work != Null
  }

  ghost predicate Enabled(p: Pool, s: Step) {
    match s
    case Submit(l, id, _, wake) => l < |p.loops| && id !in p.items && WakeChoice(p.workers, wake)
    case TakeWork(i, wake) =>
      && i < |p.workers| && (p.workers[i].Start? || p.workers[i].Waiting? || p.workers[i].Posted?)
      && (p.workers[i].Waiting? ==> p.idle > 0) && (p.workers[i] == Posted(true) ==> p.slowRunning > 0)
      && Distinct(p.wq) && QueuesKnown(p)
      && WakeChoice(p.workers[i := Start], wake)
    case RunWork(i) => i < |p.workers| && p.workers[i].Executing? && p.workers[i].id in p.items
    case PostResult(i) =>
      && i < |p.workers| && p.workers[i].Ran? && p.workers[i].id in p.items
      && p.items[p.workers[i].id].loop < |p.loops|
    // uv_cancel is called on the thread of the request's loop, before its done callback.
    case TryCancel(l, id) =>
      && l < |p.loops| && p.loops[l].cancelling.None?
      && id in p.items && p.items[id].loop == l && p.items[id].place != Finished
    case PostCancelled(l) => l < |p.loops| && p.loops[l].cancelling.Some? && p.loops[l].cancelling.value in p.items
    case TakeBatch(l) => l < |p.loops| && p.loops[l].cancelling.None? && p.loops[l].batch == []
    case RunDone(l) =>
      && l < |p.loops| && p.loops[l].cancelling.None? && p.loops[l].batch != []
      && p.loops[l].batch[0] in p.items
  }

  function NewItem(l: nat, kind: Kind): Item {
    Item(l, kind, Callback, true, if kind == SlowIo then InSlow else InWq, 0, false, 0, 0)
  }

  // post()
  function Post(p: Pool, id: Id, kind: Kind, wake: nat): Pool {
    if kind == SlowIo && RunSlowWork in p.wq then
      p.(slow := p.slow + [id])
    else if kind == SlowIo then
      p.(slow := p.slow + [id], wq := p.wq + [RunSlowWork], workers := Signal(p.workers, p.idle, wake))
    else
      p.(wq := p.wq + [Job(id)], workers := Signal(p.workers, p.idle, wake))
  }

  ghost function Take(p: Pool, i: nat, wake: nat): Pool
    requires i < |p.workers| && Distinct(p.wq) && QueuesKnown(p)
  {
    var s := WorkerSection(p.wq, p.slow, p.slowRunning, Threshold(|p.workers|));
    var q := p.(wq := s.wq, slow := s.slow, slowRunning := s.slowRunning);
    match s.taken
    case None => q.(workers := q.workers[i := Waiting(false)], idle := q.idle + 1)
    case Some((id, slow)) =>
      var ws := if s.signal then Signal(q.workers, q.idle, wake) else q.workers;
      q.(workers := ws[i := Executing(id, slow)],
         items := q.items[id := q.items[id].(linked := false, place := OnWorker(i))])
  }

  function UnlinkFrom(p: Pool, l: nat, id: Id): (q: Pool)
    requires l < |p.loops| && id in p.items
    ensures |q.loops| == |p.loops| && q.items == p.items
  {
    match p.items[id].place
    case InWq => p.(wq := Unlink(p.wq, Job(id)))
    case InSlow => p.(slow := Unlink(p.slow, id))
    case InLoopQueue => p.(loops := p.loops[l := p.loops[l].(queue := Unlink(p.loops[l].queue, id))])
    case InBatch => p.(loops := p.loops[l := p.loops[l].(batch := Unlink(p.loops[l].batch, id))])
    case _ => p
  }

  // The cancelling thread now has the request to itself.
  function Detach(p: Pool, l: nat, id: Id): Pool
    requires l < |p.loops| && id in p.items
  {
    p.(items := p.items[id := p.items[id].(place := OnCanceller, cancelled := true)],
       loops := p.loops[l := p.loops[l].(cancelling := Some(id))])
  }

  function DoneStatus(it: Item): int {
    if it.work == Cancelled then UV_ECANCELED else 0
  }

  ghost function Apply(p: Pool, s: Step): Pool
    requires Enabled(p, s)
  {
    match s
    case Submit(l, id, kind, wake) => Post(p.(items := p.items[id := NewItem(l, kind)]), id, kind, wake)
    case TakeWork(i, wake) => Take(Acquired(p, i), i, wake)
    case RunWork(i) =>
      var w := p.workers[i];
      p.(workers := p.workers[i := Ran(w.id, w.slow)],
         items := p.items[w.id := p.items[w.id].(ran := p.items[w.id].ran + 1)])
    case PostResult(i) =>
      var w := p.workers[i];
      var it := p.items[w.id];
      var loop := p.loops[it.loop];
      p.(workers := p.workers[i := Posted(w.slow)],
         items := p.items[w.id := it.(work := Null, linked := true, place := InLoopQueue)],
         loops := p.loops[it.loop := loop.(queue := loop.queue + [w.id])])
    case TryCancel(l, id) =>
      if Cancellable(p.items[id]) then Detach(UnlinkFrom(p, l, id), l, id) else p
    case PostCancelled(l) =>
      var id := p.loops[l].cancelling.value;
      p.(items := p.items[id := p.items[id].(work := Cancelled, linked := true, place := InLoopQueue)],
         loops := p.loops[l := p.loops[l].(queue := p.loops[l].queue + [id], cancelling := None)])
    case TakeBatch(l) =>
      p.(items := map id | id in p.items ::
           if p.items[id].place == InLoopQueue && p.items[id].loop == l then p.items[id].(place := InBatch) else p.items[id],
         loops := p.loops[l := p.loops[l].(queue := [], batch := p.loops[l].queue)])
    case RunDone(l) =>
      var id := p.loops[l].batch[0];
      p.(items := p.items[id := p.items[id].(place := Finished, done := p.items[id].done + 1,
                                             status := DoneStatus(p.items[id]))],
         loops := p.loops[l := p.loops[l].(batch := p.loops[l].batch[1..])])
  }

  ghost predicate Init(p: Pool) {
    && p.wq == [] && p.slow == [] && p.slowRunning == 0 && p.idle == 0 && p.items == map[]
    && |p.workers| >= 1 && (forall i :: 0 <= i < |p.workers| ==> p.workers[i] == Start)
    && forall l :: 0 <= l < |p.loops| ==> p.loops[l] == Loop([], [], None)
  }

  /* The invariant. */

  ghost predicate At(p: Pool, id: Id, place: Place) {
    id in p.items && p.items[id].place == place
  }

  ghost predicate AtLoop(p: Pool, id: Id, place: Place, l: nat) {
    At(p, id, place) && p.items[id].loop == l
  }

  // A request's recorded place is where it is linked or held, and nowhere else is.
  ghost predicate Located(p: Pool, id: Id) {
    && (Job(id) in p.wq <==> At(p, id, InWq))
    && (id in p.slow <==> At(p, id, InSlow))
    && (forall i: nat :: i < |p.workers| ==> (p.workers[i].Held() == Some(id) <==> At(p, id, OnWorker(i))))
    && (forall l: nat :: l < |p.loops| ==> (id in p.loops[l].queue <==> AtLoop(p, id, InLoopQueue, l)))
    && (forall l: nat :: l < |p.loops| ==> (id in p.loops[l].batch <==> AtLoop(p, id, InBatch, l)))
    && (forall l: nat :: l < |p.loops| ==> (p.loops[l].cancelling == Some(id) <==> AtLoop(p, id, OnCanceller, l)))
    && (id in p.items ==> p.items[id].loop < |p.loops|)
    && (id in p.items && p.items[id].place.OnWorker? ==> p.items[id].place.worker < |p.workers|)
  }

  ghost predicate Linear(p: Pool) {
    && Distinct(p.wq) && Distinct(p.slow)
    && forall l :: 0 <= l < |p.loops| ==> Distinct(p.loops[l].queue) && Distinct(p.loops[l].batch)
  }

  // What may have happened to a request, by place.
  ghost predicate Phase(it: Item, workers: seq<Worker>) {
    match it.place
    case InWq => it.work == Callback && it.linked && it.ran == 0 && !it.cancelled && it.done == 0
    case InSlow => it.work == Callback && it.linked && it.ran == 0 && !it.cancelled && it.done == 0
    case OnWorker(i) =>
      && i < |workers| && it.work == Callback && !it.linked && !it.cancelled && it.done == 0
      && it.ran == if workers[i].Ran? then 1 else 0
    case OnCanceller => it.work != Null && it.ran == 0 && it.cancelled && it.done == 0
    case Finished =>
      && it.done == 1 && it.ran == (if it.cancelled then 0 else 1)
      && it.status == if it.cancelled then UV_ECANCELED else 0
    case _ =>
      && it.linked && it.done == 0
      && it.work == (if it.cancelled then Cancelled else Null) && it.ran == (if it.cancelled then 0 else 1)
  }

  ghost predicate ItemInv(p: Pool, id: Id) {
    Located(p, id) && (id in p.items ==> Phase(p.items[id], p.workers))
  }

  ghost predicate Counters(p: Pool) {
    && |p.workers| >= 1
    && p.slowRunning == SlowCount(p.workers) && p.slowRunning <= Threshold(|p.workers|)
    && p.idle == WaitingCount(p.workers)
    && (p.slow != [] ==> RunSlowWork in p.wq)
  }

  // A worker that is not asleep: it will look at the queue again.
  ghost predicate SomeoneAwake(ws: seq<Worker>) {
    exists i :: 0 <= i < |ws| && ws[i] != Waiting(false)
  }

  ghost predicate NoLostWakeup(p: Pool) {
    !MustWait(p.wq, p.slowRunning, Threshold(|p.workers|)) ==> SomeoneAwake(p.workers)
  }

  ghost predicate Inv(p: Pool) {
    (forall id :: ItemInv(p, id)) && Linear(p) && Counters(p) && NoLostWakeup(p)
  }

  lemma InitInv(p: Pool)
    requires Init(p)
    ensures Inv(p)
  {
    InitCounts(p.workers);
    assert p.workers[0] == Start;
  }

  lemma {:induction false} InitCounts(ws: seq<Worker>)
    requires forall i :: 0 <= i < |ws| ==> ws[i] == Start
    ensures SlowCount(ws) == 0 && WaitingCount(ws) == 0
  {
    if ws != [] { InitCounts(ws[..|ws| - 1]); }
  }

  /* Every step keeps the invariant. */

  lemma SignalKeeps(ws: seq<Worker>, idle: nat, wake: nat)
    requires WakeChoice(ws, wake) && idle == WaitingCount(ws) && |ws| >= 1
    ensures var r := Signal(ws, idle, wake);
      && |r| == |ws| && SlowCount(r) == SlowCount(ws) && WaitingCount(r) == idle && SomeoneAwake(r)
      && forall i :: 0 <= i < |ws| ==>
           r[i].Held() == ws[i].Held() && r[i].Ran? == ws[i].Ran? && (r[i] == Waiting(false) ==> ws[i] == Waiting(false))
  {
    CountsBound(ws);
    var r := Signal(ws, idle, wake);
    if exists j :: 0 <= j < |ws| && ws[j] == Waiting(false) {
      CountsAfter(ws, wake, Waiting(true));
      assert r[wake] == Waiting(true);
    } else {
      assert ws[0] != Waiting(false);
      assert r == ws;
    }
  }

  lemma SignalKeepsItem(p: Pool, wake: nat, x: Id)
    requires ItemInv(p, x)
    ensures ItemInv(p.(workers := Signal(p.workers, p.idle, wake)), x)
  {
  }

  lemma LinkSlowKeepsItem(p: Pool, l: nat, id: Id, x: Id)
    requires ItemInv(p, x) && l < |p.loops| && id !in p.items
    ensures ItemInv(p.(items := p.items[id := NewItem(l, SlowIo)], slow := p.slow + [id]), x)
  {
  }

  lemma LinkJobKeepsItem(p: Pool, l: nat, id: Id, kind: Kind, x: Id)
    requires ItemInv(p, x) && l < |p.loops| && id !in p.items && kind != SlowIo
    ensures ItemInv(p.(items := p.items[id := NewItem(l, kind)], wq := p.wq + [Job(id)]), x)
  {
  }

  lemma LinkSentinelKeepsItem(p: Pool, x: Id)
    requires ItemInv(p, x)
    ensures ItemInv(p.(wq := p.wq + [RunSlowWork]), x)
  {
  }

  lemma PostKeepsItem(p: Pool, l: nat, id: Id, kind: Kind, wake: nat, x: Id)
    requires ItemInv(p, x) && l < |p.loops| && id !in p.items
    ensures ItemInv(Post(p.(items := p.items[id := NewItem(l, kind)]), id, kind, wake), x)
  {
    var submitted := p.(items := p.items[id := NewItem(l, kind)]);
    if kind == SlowIo {
      var linked := submitted.(slow := p.slow + [id]);
      LinkSlowKeepsItem(p, l, id, x);
      LinkSentinelKeepsItem(linked, x);
      SignalKeepsItem(linked.(wq := p.wq + [RunSlowWork]), wake, x);
    } else {
      LinkJobKeepsItem(p, l, id, kind, x);
      SignalKeepsItem(submitted.(wq := p.wq + [Job(id)]), wake, x);
    }
  }

  lemma SubmitKeeps(p: Pool, l: nat, id: Id, kind: Kind, wake: nat)
    requires Inv(p) && Enabled(p, Submit(l, id, kind, wake))
    ensures Inv(Apply(p, Submit(l, id, kind, wake)))
  {
    var q := Apply(p, Submit(l, id, kind, wake));
    forall x ensures ItemInv(q, x) {
      PostKeepsItem(p, l, id, kind, wake, x);
    }
    SignalKeeps(p.workers, p.idle, wake);
    assert ItemInv(p, id);
  }

  // The worker's own loop under the mutex: what it leaves in the queues and what it takes.
  lemma {:induction false} SectionEffect(wq: seq<Message>, slow: seq<Id>, slowRunning: nat, threshold: nat)
    requires Distinct(wq) && Distinct(slow) && (slow != [] ==> RunSlowWork in wq) && slowRunning <= threshold
    ensures var s := WorkerSection(wq, slow, slowRunning, threshold);
      && Distinct(s.wq) && Distinct(s.slow) && (s.slow != [] ==> RunSlowWork in s.wq)
      && (forall id: Id :: Job(id) in s.wq <==> Job(id) in wq && s.taken != Some((id, false)))
      && (forall id: Id :: id in s.slow <==> id in slow && s.taken != Some((id, true)))
      && s.slowRunning == slowRunning + (if s.taken.Some? && s.taken.value.1 then 1 else 0)
      && s.slowRunning <= threshold
      && (s.taken.None? ==> MustWait(s.wq, s.slowRunning, threshold))
    decreases |wq|, if wq != [] && wq[0] == RunSlowWork then 1 else 0
  {
    if MustWait(wq, slowRunning, threshold) {
    } else if wq[0].Job? {
      assert wq == [wq[0]] + wq[1..];
    } else if slowRunning >= threshold {
      var rotated := wq[1..] + [RunSlowWork];
      assert rotated[0] == wq[1] != wq[0];
      assert forall m :: m in rotated <==> m in wq;
      SectionEffect(rotated, slow, slowRunning, threshold);
    } else if slow == [] {
      assert forall id: Id :: Job(id) in wq[1..] <==> Job(id) in wq;
      SectionEffect(wq[1..], slow, slowRunning, threshold);
    } else {
      assert forall id: Id :: Job(id) in wq[1..] <==> Job(id) in wq;
      assert slow == [slow[0]] + slow[1..];
    }
  }

  // Just before the worker's section: worker i holds the mutex and nothing else.
  lemma AcquireKeepsItem(p: Pool, i: nat, x: Id)
    requires i < |p.workers| && p.workers[i].Held() == None && ItemInv(p, x)
    requires (p.workers[i].Waiting? ==> p.idle > 0) && (p.workers[i] == Posted(true) ==> p.slowRunning > 0)
    ensures ItemInv(Acquired(p, i), x)
  {
  }

  lemma AcquireKeeps(p: Pool, i: nat, wake: nat)
    requires Inv(p) && Enabled(p, TakeWork(i, wake))
    ensures var a := Acquired(p, i);
      && (forall x :: ItemInv(a, x)) && Linear(a) && Counters(a)
      && a.workers[i] == Start
  {
    var a := Acquired(p, i);
    CountsAfter(p.workers, i, Start);
    forall x ensures ItemInv(a, x) {
      AcquireKeepsItem(p, i, x);
    }
  }

  lemma TakeKeepsItem(a: Pool, i: nat, wake: nat, x: Id)
    requires i < |a.workers| && a.workers[i] == Start
    requires ItemInv(a, x) && QueuesKnown(a) && Linear(a) && Counters(a)
    ensures ItemInv(Take(a, i, wake), x)
  {
    var s := WorkerSection(a.wq, a.slow, a.slowRunning, Threshold(|a.workers|));
    SectionEffect(a.wq, a.slow, a.slowRunning, Threshold(|a.workers|));
    if s.taken.Some? {
      var (id, slow) := s.taken.value;
      var signalled := if s.signal then a.(workers := Signal(a.workers, a.idle, wake)) else a;
      SignalKeepsItem(a, wake, x);
      TakenItem(signalled, s, i, id, slow, x);
    }
  }

  lemma TakenItem(a: Pool, s: Section, i: nat, id: Id, slow: bool, x: Id)
    requires i < |a.workers| && a.workers[i].Held() == None && ItemInv(a, x) && id in a.items
    requires if slow then id in a.slow else Job(id) in a.wq
    requires Job(x) in s.wq <==> Job(x) in a.wq && !(x == id && !slow)
    requires x in s.slow <==> x in a.slow && !(x == id && slow)
    ensures ItemInv(a.(wq := s.wq, slow := s.slow, slowRunning := s.slowRunning,
                       workers := a.workers[i := Executing(id, slow)],
                       items := a.items[id := a.items[id].(linked := false, place := OnWorker(i))]), x)
  {
  }

  lemma TakeKeepsCounters(a: Pool, i: nat, wake: nat)
    requires i < |a.workers| && a.workers[i] == Start && WakeChoice(a.workers, wake)
    requires QueuesKnown(a) && Linear(a) && Counters(a)
    ensures var q := Take(a, i, wake); Linear(q) && Counters(q) && NoLostWakeup(q)
  {
    var q := Take(a, i, wake);
    var s := WorkerSection(a.wq, a.slow, a.slowRunning, Threshold(|a.workers|));
    SectionEffect(a.wq, a.slow, a.slowRunning, Threshold(|a.workers|));
    if s.taken.None? {
      CountsAfter(a.workers, i, Waiting(false));
    } else {
      SignalKeeps(a.workers, a.idle, wake);
      var ws := if s.signal then Signal(a.workers, a.idle, wake) else a.workers;
      CountsAfter(ws, i, Executing(s.taken.value.0, s.taken.value.1));
      assert ws[i].Held() == None;
      assert q.workers[i] != Waiting(false);
    }
  }

  lemma TakeWorkKeeps(p: Pool, i: nat, wake: nat)
    requires Inv(p) && Enabled(p, TakeWork(i, wake))
    ensures Inv(Apply(p, TakeWork(i, wake)))
  {
    AcquireKeeps(p, i, wake);
    var a := Acquired(p, i);
    forall x ensures ItemInv(Take(a, i, wake), x) {
      TakeKeepsItem(a, i, wake, x);
    }
    TakeKeepsCounters(a, i, wake);
  }

  lemma RunWorkKeepsItem(p: Pool, i: nat, x: Id)
    requires Enabled(p, RunWork(i)) && ItemInv(p, p.workers[i].id) && ItemInv(p, x)
    ensures ItemInv(Apply(p, RunWork(i)), x)
  {
  }

  lemma RunWorkKeeps(p: Pool, i: nat)
    requires Inv(p) && Enabled(p, RunWork(i))
    ensures Inv(Apply(p, RunWork(i)))
  {
    var q := Apply(p, RunWork(i));
    var w := p.workers[i];
    CountsAfter(p.workers, i, Ran(w.id, w.slow));
    assert ItemInv(p, w.id);
    forall x ensures ItemInv(q, x) {
      RunWorkKeepsItem(p, i, x);
    }
    assert q.workers[i] != Waiting(false);
  }

  lemma PostResultKeepsItem(p: Pool, i: nat, x: Id)
    requires Enabled(p, PostResult(i)) && ItemInv(p, p.workers[i].id) && ItemInv(p, x)
    ensures ItemInv(Apply(p, PostResult(i)), x)
  {
  }

  lemma PostResultKeeps(p: Pool, i: nat)
    requires Inv(p) && Enabled(p, PostResult(i))
    ensures Inv(Apply(p, PostResult(i)))
  {
    var q := Apply(p, PostResult(i));
    var w := p.workers[i];
    CountsAfter(p.workers, i, Posted(w.slow));
    assert ItemInv(p, w.id);
    forall x ensures ItemInv(q, x) {
      PostResultKeepsItem(p, i, x);
    }
    assert q.workers[i] != Waiting(false);
    assert Linear(q) by {
      var l := p.items[w.id].loop;
      assert w.id !in p.loops[l].queue;
    }
  }

  lemma UnlinkFromEffect(p: Pool, l: nat, id: Id)
    requires Linear(p) && ItemInv(p, id) && l < |p.loops| && id in p.items && p.items[id].loop == l
    requires !p.items[id].place.Finished? && !p.items[id].place.OnWorker? && !p.items[id].place.OnCanceller?
    ensures var q := UnlinkFrom(p, l, id);
      && Linear(q) && q == p.(wq := q.wq, slow := q.slow, loops := q.loops) && |q.loops| == |p.loops|
      && (forall m :: m in q.wq <==> m in p.wq && m != Job(id))
      && (forall x :: x in q.slow <==> x in p.slow && x != id)
      && (forall k, x :: 0 <= k < |p.loops| ==> (x in q.loops[k].queue <==> x in p.loops[k].queue && x != id))
      && (forall k, x :: 0 <= k < |p.loops| ==> (x in q.loops[k].batch <==> x in p.loops[k].batch && x != id))
      && (forall k :: 0 <= k < |p.loops| ==> q.loops[k].cancelling == p.loops[k].cancelling)
  {
    UnlinkRemoves(p.wq, Job(id));
    UnlinkRemoves(p.slow, id);
    UnlinkRemoves(p.loops[l].queue, id);
    UnlinkRemoves(p.loops[l].batch, id);
  }

  // Unlinked and not yet detached, the request is nowhere; every other one is where it was.
  lemma DetachKeepsItem(p: Pool, q: Pool, l: nat, id: Id, x: Id)
    requires l < |p.loops| && p.loops[l].cancelling.None?
    requires id in p.items && p.items[id].loop == l && Cancellable(p.items[id])
    requires !p.items[id].place.Finished? && !p.items[id].place.OnWorker? && !p.items[id].place.OnCanceller?
    requires ItemInv(p, id) && ItemInv(p, x)
    requires q == p.(wq := q.wq, slow := q.slow, loops := q.loops) && |q.loops| == |p.loops|
    requires forall m :: m in q.wq <==> m in p.wq && m != Job(id)
    requires forall y :: y in q.slow <==> y in p.slow && y != id
    requires forall k, y :: 0 <= k < |p.loops| ==> (y in q.loops[k].queue <==> y in p.loops[k].queue && y != id)
    requires forall k, y :: 0 <= k < |p.loops| ==> (y in q.loops[k].batch <==> y in p.loops[k].batch && y != id)
    requires forall k :: 0 <= k < |p.loops| ==> q.loops[k].cancelling == p.loops[k].cancelling
    ensures ItemInv(Detach(q, l, id), x)
  {
  }

  lemma TryCancelKeeps(p: Pool, l: nat, id: Id)
    requires Inv(p) && Enabled(p, TryCancel(l, id))
    ensures Inv(Apply(p, TryCancel(l, id)))
  {
    var q := Apply(p, TryCancel(l, id));
    assert ItemInv(p, id);
    if Cancellable(p.items[id]) {
      assert p.items[id].place != OnCanceller;
      UnlinkFromEffect(p, l, id);
      UnlinkFewer(p.wq, Job(id));
      forall x ensures ItemInv(q, x) {
        DetachKeepsItem(p, UnlinkFrom(p, l, id), l, id, x);
      }
    }
  }

  // Taking a request out of the queue never gives the sleeping workers anything new to do.
  lemma {:induction false} UnlinkFewer(wq: seq<Message>, m: Message)
    ensures |Unlink(wq, m)| <= |wq|
    ensures m.Job? && wq != [] && wq[0] == RunSlowWork ==> Unlink(wq, m) != [] && Unlink(wq, m)[0] == RunSlowWork
    ensures Unlink(wq, m) != [] ==> wq != []
  {
  }

  lemma PostCancelledKeepsItem(p: Pool, l: nat, x: Id)
    requires Enabled(p, PostCancelled(l)) && ItemInv(p, p.loops[l].cancelling.value) && ItemInv(p, x)
    ensures ItemInv(Apply(p, PostCancelled(l)), x)
  {
  }

  lemma PostCancelledKeeps(p: Pool, l: nat)
    requires Inv(p) && Enabled(p, PostCancelled(l))
    ensures Inv(Apply(p, PostCancelled(l)))
  {
    var q := Apply(p, PostCancelled(l));
    var id := p.loops[l].cancelling.value;
    assert ItemInv(p, id);
    forall x ensures ItemInv(q, x) {
      PostCancelledKeepsItem(p, l, x);
    }
    assert id !in p.loops[l].queue;
    assert Linear(q);
  }

  lemma TakeBatchKeeps(p: Pool, l: nat)
    requires Inv(p) && Enabled(p, TakeBatch(l))
    ensures Inv(Apply(p, TakeBatch(l)))
  {
    var q := Apply(p, TakeBatch(l));
    forall x ensures ItemInv(q, x) {
      assert ItemInv(p, x);
    }
    assert Linear(q);
  }

  lemma RunDoneKeepsItem(p: Pool, l: nat, x: Id)
    requires l < |p.loops| && p.loops[l].batch != [] && Distinct(p.loops[l].batch) && p.loops[l].cancelling.None?
    requires ItemInv(p, p.loops[l].batch[0]) && ItemInv(p, x) && p.loops[l].batch[0] in p.items
    ensures ItemInv(Apply(p, RunDone(l)), x)
  {
    assert p.loops[l].batch == [p.loops[l].batch[0]] + p.loops[l].batch[1..];
  }

  lemma RunDoneKeeps(p: Pool, l: nat)
    requires Inv(p) && Enabled(p, RunDone(l))
    ensures Inv(Apply(p, RunDone(l)))
  {
    var q := Apply(p, RunDone(l));
    assert ItemInv(p, p.loops[l].batch[0]);
    forall x ensures ItemInv(q, x) {
      RunDoneKeepsItem(p, l, x);
    }
    assert Linear(q);
  }

  lemma StepKeepsInv(p: Pool, s: Step)
    requires Inv(p) && Enabled(p, s)
    ensures Inv(Apply(p, s))
  {
    match s
    case Submit(l, id, kind, wake) => SubmitKeeps(p, l, id, kind, wake);
    case TakeWork(i, wake) => TakeWorkKeeps(p, i, wake);
    case RunWork(i) => RunWorkKeeps(p, i);
    case PostResult(i) => PostResultKeeps(p, i);
    case TryCancel(l, id) => TryCancelKeeps(p, l, id);
    case PostCancelled(l) => PostCancelledKeeps(p, l);
    case TakeBatch(l) => TakeBatchKeeps(p, l);
    case RunDone(l) => RunDoneKeeps(p, l);
  }
}
