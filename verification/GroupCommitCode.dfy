// The loops of DBImpl::Write and BuildBatchGroup over the queue of writers
// (db/db_impl.cc), against the functions the protocol is stated with.

module GroupCommitCode {
  import opened Wrappers
  import opened GroupCommitProtocol

  class Writer {
    const batch: Option<Batch>
    const sync: bool
    var status: Status
    var done: bool

    constructor (batch: Option<Batch>, sync: bool)
      ensures this.batch == batch && this.sync == sync && !done
    {
      this.batch, this.sync, status, done := batch, sync, Ok, false;
    }

    function Asks(): Request {
      Request(batch, sync)
    }
  }

  class DBImpl {
    var writers: seq<Writer>

    constructor ()
      ensures Valid() && writers == []
    {
      writers := [];
    }

    ghost predicate Valid()
      reads this, writers
    {
      && (forall i, j :: 0 <= i < j < |writers| ==> writers[i] != writers[j])
      && forall w :: w in writers ==> !w.done
    }

    ghost function Requests(): (r: seq<Request>)
      reads this
      ensures |r| == |writers| && forall i :: 0 <= i < |r| ==> r[i] == writers[i].Asks()
    {
      seq(|writers|, i requires 0 <= i < |writers| reads this => writers[i].Asks())
    }

    // Write, on entry.
    method Enqueue(w: Writer)
      requires Valid() && w !in writers && !w.done
      modifies this
      ensures Valid() && writers == old(writers) + [w] && Requests() == old(Requests()) + [w.Asks()]
    {
      writers := writers + [w];
    }

    // BuildBatchGroup.  The group is the one the protocol's leader takes: the
    // result holds its operations in order, and leaves the first batch alone.
    method BuildBatchGroup() returns (result: seq<Op>, lastWriter: Writer, ghost n: nat)
      requires writers != [] && writers[0].batch.Some?
      ensures var rs := Requests(); n == Take(rs, 1, BytesOf(rs[0])) && result == Concat(rs[..n]) && lastWriter == writers[n - 1]
    {
      hide Concat;
      var first := writers[0];
      result := first.batch.value.ops;
      var size: nat := first.batch.value.bytes;
      var maxSize := LARGE;
      if size <= SMALL {
        maxSize := size + SMALL;
      }
      lastWriter := first;
      ghost var rs := Requests();
      FirstOnly(rs);
      var i := 1;
      while i < |writers|
        invariant 1 <= i <= |writers| && Requests() == rs
        invariant Take(rs, 1, BytesOf(rs[0])) == Take(rs, i, size) && maxSize == MaxSize(BytesOf(rs[0]))
        invariant result == Concat(rs[..i]) && lastWriter == writers[i - 1]
      {
        var w := writers[i];
        OneMore(rs, i);
        if w.sync && !first.sync {
          break;
        }
        if w.batch.Some? {
          if size + w.batch.value.bytes > maxSize {
            break;
          }
          size := size + w.batch.value.bytes;
          result := result + w.batch.value.ops;
        }
        lastWriter := w;
        i := i + 1;
      }
      n := i;
    }

    // The loop at the end of Write: everyone up to the last writer leaves the
    // queue, and all but the leader are told the leader's status.
    method CompleteGroup(leader: Writer, lastWriter: Writer, status: Status, ghost n: nat)
      requires Valid() && 1 <= n <= |writers| && leader == writers[0] && lastWriter == writers[n - 1]
      modifies this, writers
      ensures Valid() && writers == old(writers)[n..]
      ensures forall i :: 1 <= i < n ==> old(writers)[i].done && old(writers)[i].status == status
      ensures leader.done == old(leader.done) && leader.status == old(leader.status)
      ensures forall i :: n <= i < |old(writers)| ==> old(writers)[i].status == old(writers[i].status)
    {
      ghost var all := writers;
      ghost var k := 0;
      while true
        invariant 0 <= k < n && writers == all[k..]
        invariant forall i :: 1 <= i < k ==> all[i].done && all[i].status == status
        invariant forall i :: 0 <= i < |all| && (i == 0 || i >= k) ==> all[i].done == old(all[i].done) && all[i].status == old(all[i].status)
        decreases n - k
      {
        var ready := writers[0];
        writers := writers[1..];
        if ready != leader {
          ready.status := status;
          ready.done := true;
        }
        k := k + 1;
        if ready == lastWriter {
          break;
        }
      }
      assert k == n;
    }
  }

  lemma FirstOnly(rs: seq<Request>)
    requires rs != []
    ensures Concat(rs[..1]) == OpsOf(rs[0])
  {
    assert rs[..1] == [rs[0]];
    assert Concat([rs[0]]) == Concat([rs[0]][..0]) + OpsOf(rs[0]);
  }

  lemma OneMore(rs: seq<Request>, i: nat)
    requires i < |rs|
    ensures Concat(rs[..i + 1]) == Concat(rs[..i]) + OpsOf(rs[i])
  {
    assert rs[..i + 1][..i] == rs[..i];
  }
}
