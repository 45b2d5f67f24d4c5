// The timers of an event loop (libuv, src/timer.c) over their heap.

module Timers {
  import opened Coding
  import opened Wrappers
  import opened TimerHeap

  const UV_EINVAL := -22
  const INT_MAX := 0x7FFF_FFFF
  const UINT64_MAX: uint64 := 0xFFFF_FFFF_FFFF_FFFF

  // When a timer started now is due: the end of time if the sum does not fit.
  function Deadline(time: uint64, timeout: uint64): uint64 {
    if time + timeout > UINT64_MAX then UINT64_MAX else time + timeout
  }

  // It is the exact sum unless that does not fit in 64 bits, and a longer
  // timeout is never due earlier.
  lemma DeadlineIs(time: uint64, timeout: uint64, longer: uint64)
    requires timeout <= longer
    ensures time <= Deadline(time, timeout) <= time + timeout
    ensures time + timeout < 0x1_0000_0000_0000_0000 ==> Deadline(time, timeout) == time + timeout
    ensures Deadline(time, timeout) <= Deadline(time, longer)
  {
  }

  // The timers that stand in the heap and may fire.
  ghost predicate Pending(t: Timer)
    reads t`active, t`closing, t`timerCb
  {
    t.active && !t.closing && t.timerCb.Some?
  }

  // Due earlier, or at the same time and started earlier.
  ghost predicate NotAfter(a: DueKey, b: DueKey) {
    a.timeout < b.timeout || (a.timeout == b.timeout && a.startId <= b.startId)
  }

  // No timer twice, and none after one it is to fire before.
  ghost predicate InOrder(fired: seq<Timer>, key: map<Timer, DueKey>) {
    && (forall t :: t in fired ==> t in key)
    && (forall i, j :: 0 <= i < j < |fired| ==> fired[i] != fired[j] && NotAfter(key[fired[i]], key[fired[j]]))
  }

  class Loop {
    const heap: Heap
    var time: uint64
    var timerCounter: uint64

    constructor ()
      ensures Valid() && fresh(heap) && heap.nodes == []
    {
      heap := new Heap();
      time, timerCounter := 0, 0;
    }

    ghost predicate Valid()
      reads this, heap, Timers()
    {
      heap.Valid() && forall t :: t in Timers() ==> Pending(t)
    }

    ghost function Timers(): set<Timer>
      reads heap
    {
      Members(heap.nodes)
    }

    // uv_timer_stop
    method Stop(handle: Timer) returns (err: int)
      requires Valid() && (handle.active <==> handle in Timers())
      modifies heap, Timers()`left, Timers()`right, Timers()`parent, handle`active
      ensures err == 0 && Valid() && !handle.active && Timers() == old(Timers()) - {handle}
      ensures heap.nelts == if old(handle.active) then old(heap.nelts) - 1 else old(heap.nelts)
    {
      hide Heap.Valid;
      if !handle.active {
        return 0;
      }
      heap.Remove(handle);
      handle.active := false;
      return 0;
    }

    // uv_timer_start
    method Start(handle: Timer, cb: Option<Callback>, timeout: uint64, repeat: uint64) returns (err: int)
      requires Valid() && (handle.active <==> handle in Timers()) && heap.nelts < UINT_MAX
      modifies this`timerCounter, heap, handle, Timers()`left, Timers()`right, Timers()`parent
      ensures Valid() && (handle.active <==> handle in Timers())
      ensures err == if old(handle.closing) || cb.None? then UV_EINVAL else 0
      ensures err != 0 ==>
        && Timers() == old(Timers()) && timerCounter == old(timerCounter) && handle.Key() == old(handle.Key())
        && handle.active == old(handle.active) && handle.repeat == old(handle.repeat) && handle.timerCb == old(handle.timerCb)
      ensures err == 0 ==>
        && Timers() == old(Timers()) + {handle} && handle.timerCb == cb && handle.repeat == repeat
        && handle.Key() == DueKey(Deadline(time, timeout), old(timerCounter))
        && timerCounter == (old(timerCounter) + 1) % (UINT64_MAX + 1)
      ensures handle.closing == old(handle.closing)
    {
      hide Heap.Valid;
      if handle.closing || cb == None {
        return UV_EINVAL;
      }
      if handle.active {
        var _ := Stop(handle);
      }
      Arm(handle, cb, timeout, repeat);
      return 0;
    }

    // uv_timer_start once the timer is known to be startable and stopped.
    method Arm(handle: Timer, cb: Option<Callback>, timeout: uint64, repeat: uint64)
      requires Valid() && handle !in Timers() && heap.nelts < UINT_MAX && cb.Some? && !handle.closing
      modifies this`timerCounter, heap, handle, Timers()`left, Timers()`right, Timers()`parent
      ensures Valid() && handle.active && handle.closing == old(handle.closing)
      ensures Timers() == old(Timers()) + {handle} && handle.timerCb == cb && handle.repeat == repeat
      ensures handle.Key() == DueKey(Deadline(time, timeout), old(timerCounter))
      ensures timerCounter == (old(timerCounter) + 1) % (UINT64_MAX + 1)
    {
      hide Heap.Valid, Deadline;
      SetUp(handle, cb, timeout, repeat);
      heap.Insert(handle);
      handle.active := true;
    }

    // uv_timer_start, the fields of the timer.
    method SetUp(handle: Timer, cb: Option<Callback>, timeout: uint64, repeat: uint64)
      modifies this`timerCounter, handle`timerCb, handle`timeout, handle`repeat, handle`startId
      ensures handle.timerCb == cb && handle.repeat == repeat
      ensures handle.Key() == DueKey(Deadline(time, timeout), old(timerCounter))
      ensures timerCounter == (old(timerCounter) + 1) % (UINT64_MAX + 1)
    {
      var clampedTimeout: uint64 := (time + timeout) % (UINT64_MAX + 1);
      if clampedTimeout < timeout {
        clampedTimeout := UINT64_MAX;
      }
      handle.timerCb := cb;
      handle.timeout := clampedTimeout;
      handle.repeat := repeat;
      handle.startId := timerCounter;
      timerCounter := (timerCounter + 1) % (UINT64_MAX + 1);
    }

    // uv_timer_again
    method Again(handle: Timer) returns (err: int)
      requires Valid() && (handle.active <==> handle in Timers()) && (heap.nelts < UINT_MAX || handle.active)
      modifies this`timerCounter, heap, handle, Timers()`left, Timers()`right, Timers()`parent
      ensures Valid() && (handle.active <==> handle in Timers())
      ensures err == if old(handle.timerCb) == None then UV_EINVAL else 0
      ensures handle.closing == old(handle.closing) && handle.repeat == old(handle.repeat) && handle.timerCb == old(handle.timerCb)
      ensures var repeats := old(handle.timerCb.Some? && handle.repeat > 0);
        && (repeats && !handle.closing ==> Timers() == old(Timers()) + {handle} && handle.timeout == Deadline(time, handle.repeat))
        && (!repeats || handle.closing ==> handle.Key() == old(handle.Key()))
        && (!repeats ==> Timers() == old(Timers()))
        && (repeats && handle.closing ==> Timers() == old(Timers()) - {handle})
    {
      hide Heap.Valid;
      if handle.timerCb == None {
        return UV_EINVAL;
      }
      if handle.repeat > 0 {
        var _ := Stop(handle);
        var _ := Start(handle, handle.timerCb, handle.repeat, handle.repeat);
      }
      return 0;
    }

    // uv__next_timeout
    method NextTimeout() returns (r: int)
      requires Valid()
      ensures r == -1 <==> Timers() == {}
      ensures r == 0 <==> exists t :: t in Timers() && t.timeout <= time
      ensures r > 0 ==> r <= 0x7FFF_FFFF && forall t :: t in Timers() ==> time + r <= t.timeout
      ensures 0 < r < 0x7FFF_FFFF ==> exists t :: t in Timers() && t.timeout == time + r
    {
      hide Heap.Valid;
      MinIsLeast(heap);
      var handle := heap.min;
      if handle == null {
        return -1;
      }
      if handle.timeout <= time {
        return 0;
      }
      var diff := handle.timeout - time;
      if diff > INT_MAX {
        diff := INT_MAX;
      }
      return diff;
    }

    // One turn of uv__run_timers: stop the timer, start it again if it repeats.
    method Expire(handle: Timer)
      requires Valid() && handle in Timers() && time < UINT64_MAX
      modifies this`timerCounter, heap, handle, Timers()`left, Timers()`right, Timers()`parent
      ensures Valid() && handle.repeat == old(handle.repeat) && handle.timerCb == old(handle.timerCb)
      ensures Timers() == if handle.repeat > 0 then old(Timers()) else old(Timers()) - {handle}
      ensures handle.repeat > 0 ==> handle.timeout == Deadline(time, handle.repeat) && handle.timeout > time
    {
      hide Heap.Valid;
      assert Pending(handle);
      var _ := Stop(handle);
      var _ := Again(handle);
    }

    // uv__run_timers.  The callbacks are called in the order of `fired`, and
    // leave timers alone.
    method RunTimers() returns (fired: seq<Timer>)
      requires Valid() && time < UINT64_MAX
      modifies this`timerCounter, heap, Timers()
      ensures Valid() && Timers() <= old(Timers())
      ensures forall t :: t in fired <==> t in old(Timers()) && old(t.timeout) <= time
      ensures InOrder(fired, old(KeyMap(Timers())))
      ensures forall t :: t in old(Timers()) ==> Turned(t, old(SettingsOf(t)), t in fired, t in Timers(), time)
    {
      hide Heap.Valid, InOrder;
      ghost var all: set<Timer>, key: map<Timer, DueKey> := Timers(), KeyMap(Timers());
      fired := [];
      NoneFired(key);
      ghost var left: set<Timer> := all;
      while true
        invariant Valid() && Timers() <= all
        invariant forall t :: t in left <==> t in all && t !in fired
        invariant forall t :: t in all ==> Turned(t, old(SettingsOf(t)), t in fired, t in Timers(), time)
        invariant forall t :: t in fired ==> t in all && key[t].timeout <= time
        invariant InOrder(fired, key)
        invariant forall f, t :: f in fired && t in left ==> !Before(key[t], key[f])
        decreases left
      {
        MinIsLeast(heap);
        var handle := heap.min;
        if handle == null || handle.timeout > time {
          break;
        }
        FiresNext(fired, handle, key);
        Expire(handle);
        fired := fired + [handle];
        left := left - {handle};
      }
    }
  }

  datatype Settings = Settings(key: DueKey, repeat: uint64, timerCb: Option<Callback>)

  ghost function SettingsOf(t: Timer): Settings
    reads t
  {
    Settings(t.Key(), t.repeat, t.timerCb)
  }

  // What running the timers makes of one with settings b: it fires and is gone
  // or due again later, or it stays as it was.
  ghost predicate Turned(t: Timer, b: Settings, fired: bool, pending: bool, time: uint64)
    reads t
  {
    if fired then
      && t.repeat == b.repeat && t.timerCb == b.timerCb && (pending <==> b.repeat > 0)
      && (pending ==> t.timeout == Deadline(time, b.repeat) && t.timeout > time)
    else
      pending && SettingsOf(t) == b
  }

  ghost function KeyMap(s: set<Timer>): (r: map<Timer, DueKey>)
    reads s
    ensures r.Keys == s && forall t :: t in s ==> r[t] == t.Key()
  {
    map t | t in s :: t.Key()
  }

  // The heap's minimum: no timer before it, and none at all without it.
  lemma MinIsLeast(heap: Heap)
    requires heap.Valid()
    ensures heap.min == null <==> Members(heap.nodes) == {}
    ensures heap.min != null ==> heap.min in Members(heap.nodes)
    ensures heap.min != null ==> forall t :: t in Members(heap.nodes) ==> !Before(t.Key(), heap.min.Key())
  {
    var s := heap.nodes;
    if s != [] {
      assert s[0] in Members(s);
      forall t | t in Members(s) ensures !Before(t.Key(), heap.min.Key()) {
        RootIsLeast(Keys(s), PositionOf(s, t));
      }
    }
  }

  lemma NoneFired(key: map<Timer, DueKey>)
    ensures InOrder([], key)
  {
  }

  lemma FiresNext(fired: seq<Timer>, next: Timer, key: map<Timer, DueKey>)
    requires InOrder(fired, key) && next !in fired && next in key
    requires forall f :: f in fired ==> !Before(key[next], key[f])
    ensures InOrder(fired + [next], key)
  {
  }
}
