// Group commit (DBImpl::Write and BuildBatchGroup in db/db_impl.cc) as a state
// machine.  Every step is what happens between two points at which the mutex
// may change hands, or one action of the leader while it has let go of it.

module GroupCommitProtocol {
  import opened Wrappers

  type Id = nat   // one call of Write
  type Op = nat   // one put or delete

  datatype Status = Ok | Error(code: nat)

  datatype Batch = Batch(ops: seq<Op>, bytes: nat)

  // A null batch (None) only asks for room to be made.
  datatype Request = Request(batch: Option<Batch>, sync: bool)

  datatype Phase = AddRecord | Sync | Insert(n: nat) | Failed(status: Status, syncError: bool)

  // The thread at the front of the queue, once it has found itself there.
  datatype Leader =
    | Nobody
    | MakingRoom
    | Writing(size: nat, ops: seq<Op>, phase: Phase)   // of the first `size` writers

  datatype Record = Record(base: nat, ops: seq<Op>)

  // A group that left the queue: its operations got the numbers after `base`.
  datatype Commit = Commit(group: seq<Id>, base: nat, ops: seq<Op>, written: bool, sync: bool, status: Status)

  datatype State = State(
    requests: map<Id, Request>,
    joined: seq<Id>,             // in order of arrival
    queue: seq<Id>,
    leader: Leader,
    done: map<Id, Status>,
    returned: map<Id, Status>,
    log: seq<Record>,
    fileStart: nat,              // the first record of the current log file
    synced: set<nat>,            // the records safe on disk
    mem: map<nat, Op>,           // what readers find, in whichever memtable
    firstSequence: nat,
    lastSequence: nat,
    bgError: Status,
    history: seq<Commit>)

  /* BuildBatchGroup. */

  const SMALL: nat := 0x2_0000       // 128 << 10
  const LARGE: nat := 0x10_0000      // 1 << 20

  function MaxSize(size: nat): nat {
    if size <= SMALL then size + SMALL else LARGE
  }

  function BytesOf(r: Request): nat {
    if r.batch.Some? then r.batch.value.bytes else 0
  }

  function OpsOf(r: Request): seq<Op> {
    if r.batch.Some? then r.batch.value.ops else []
  }

  // How many writers the leader takes along, the first n being taken already.
  function Take(rs: seq<Request>, n: nat, size: nat): (r: nat)
    requires 1 <= n <= |rs|
    ensures n <= r <= |rs|
    decreases |rs| - n
  {
    if n == |rs| then n
    else if rs[n].sync && !rs[0].sync then n
    else if rs[n].batch.Some? && size + BytesOf(rs[n]) > MaxSize(BytesOf(rs[0])) then n
    else Take(rs, n + 1, size + BytesOf(rs[n]))
  }

  function Concat(rs: seq<Request>): seq<Op> {
    if rs == [] then [] else Concat(rs[..|rs| - 1]) + OpsOf(rs[|rs| - 1])
  }

  function RequestsOf(m: map<Id, Request>, ids: seq<Id>): (r: seq<Request>)
    requires forall id :: id in ids ==> id in m
    ensures |r| == |ids| && forall i :: 0 <= i < |ids| ==> r[i] == m[ids[i]]
  {
    seq(|ids|, i requires 0 <= i < |ids| => assert ids[i] in ids; m[ids[i]])
  }

  // No sync writer rides with a leader that does not sync.
  ghost predicate SyncRule(rs: seq<Request>) {
    forall i :: 0 <= i < |rs| && rs[i].sync ==> rs[0].sync
  }

  lemma {:induction false} TakeKeepsSyncRule(rs: seq<Request>, n: nat, size: nat)
    requires 1 <= n <= |rs| && SyncRule(rs[..n])
    ensures SyncRule(rs[..Take(rs, n, size)])
    decreases |rs| - n
  {
    if Take(rs, n, size) != n {
      assert rs[..n + 1] == rs[..n] + [rs[n]];
      TakeKeepsSyncRule(rs, n + 1, size + BytesOf(rs[n]));
    }
  }

  function TotalBytes(rs: seq<Request>): nat {
    if rs == [] then 0 else TotalBytes(rs[..|rs| - 1]) + BytesOf(rs[|rs| - 1])
  }

  // The limit of a group by its first batch: a megabyte, or 128 KB more than a small one.
  ghost predicate WithinLimit(first: nat, total: nat) {
    total <= if first <= 131072 then first + 131072 else 1048576
  }

  // A group never grows past its limit, and stops only where the next writer
  // would break a rule.
  lemma {:induction false} TakeIsLimited(rs: seq<Request>, n: nat, size: nat)
    requires 1 <= n <= |rs| && size == TotalBytes(rs[..n])
    requires size <= BytesOf(rs[0]) || WithinLimit(BytesOf(rs[0]), size)
    ensures var t := Take(rs, n, size);
      && (TotalBytes(rs[..t]) <= BytesOf(rs[0]) || WithinLimit(BytesOf(rs[0]), TotalBytes(rs[..t])))
      && (t < |rs| ==> || (rs[t].sync && !rs[0].sync)
                       || (rs[t].batch.Some? && !WithinLimit(BytesOf(rs[0]), TotalBytes(rs[..t + 1]))))
    decreases |rs| - n
  {
    if n < |rs| {
      assert rs[..n + 1][..n] == rs[..n];
      if Take(rs, n, size) != n {
        TakeIsLimited(rs, n + 1, size + BytesOf(rs[n]));
      }
    }
  }

  /* Steps. */

  datatype Step =
    | Join(id: Id, request: Request)
    | Lead
    | NoRoom(error: Status)
    | SwitchFile
    | Room
    | LogResult(result: Status)
    | SyncResult(result: Status)
    | InsertOne
    | Finish
    | Return(id: Id)
    | BackgroundError(error: Status)

  ghost predicate CanRead(s: State) {
    forall id :: id in s.queue ==> id in s.requests
  }

  // The loop at the end of Write: pop the group, complete everyone else, return.
  function Complete(s: State, c: Commit): State {
    var n := |c.group|;
    s.(queue := if n <= |s.queue| then s.queue[n..] else [],
       leader := Nobody,
       done := s.done + map id | id in c.group :: c.status,
       returned := if n > 0 then s.returned[c.group[0] := c.status] else s.returned,
       history := s.history + [c])
  }

  ghost predicate Joins(s: State, t: State, id: Id, request: Request) {
    && id !in s.requests
    && t == s.(requests := s.requests[id := request], joined := s.joined + [id], queue := s.queue + [id])
  }

  ghost predicate Leads(s: State, t: State) {
    s.queue != [] && s.leader.Nobody? && t == s.(leader := MakingRoom)
  }

  // MakeRoomForWrite failed: on an earlier error, or for want of a new log file.
  ghost predicate FindsNoRoom(s: State, t: State, error: Status) {
    && s.leader.MakingRoom? && s.queue != [] && error != Ok && (s.bgError != Ok ==> error == s.bgError)
    && t == Complete(s, Commit([s.queue[0]], s.lastSequence, [], false, false, error))
  }

  // MakeRoomForWrite starts a new log file along with a new memtable.  Nothing
  // syncs the old file any more.
  ghost predicate SwitchesFile(s: State, t: State) {
    s.leader.MakingRoom? && s.bgError == Ok && t == s.(fileStart := |s.log|)
  }

  // There is room: a null batch is done, any other makes up a group.
  ghost predicate FindsRoom(s: State, t: State)
    requires CanRead(s)
  {
    && s.leader.MakingRoom? && s.queue != [] && s.bgError == Ok
    && var rs := RequestsOf(s.requests, s.queue);
    && if rs[0].batch == None then
         t == Complete(s, Commit([s.queue[0]], s.lastSequence, [], false, false, Ok))
       else
         var n := Take(rs, 1, BytesOf(rs[0]));
         t == s.(leader := Writing(n, Concat(rs[..n]), AddRecord))
  }

  ghost predicate Logs(s: State, t: State, result: Status)
    requires CanRead(s)
  {
    && s.leader.Writing? && s.leader.phase.AddRecord? && s.queue != []
    && t == (if result == Ok then
               s.(log := s.log + [Record(s.lastSequence, s.leader.ops)],
                  leader := s.leader.(phase := if s.requests[s.queue[0]].sync then Sync else Insert(0)))
             else s.(leader := s.leader.(phase := Failed(result, false))))
  }

  predicate InFile(start: nat, i: int) {
    start <= i
  }

  ghost function CurrentFile(s: State): set<nat> {
    set i: nat | i < |s.log| && InFile(s.fileStart, i)
  }

  // A sync reaches the current log file only.
  ghost predicate Syncs(s: State, t: State, result: Status) {
    && s.leader.Writing? && s.leader.phase.Sync?
    && t == (if result == Ok then s.(synced := s.synced + CurrentFile(s), leader := s.leader.(phase := Insert(0)))
             else s.(leader := s.leader.(phase := Failed(result, true))))
  }

  ghost predicate InsertsOne(s: State, t: State) {
    && s.leader.Writing? && s.leader.phase.Insert? && s.leader.phase.n < |s.leader.ops|
    && var n := s.leader.phase.n;
    && t == s.(mem := s.mem[s.lastSequence + 1 + n := s.leader.ops[n]], leader := s.leader.(phase := Insert(n + 1)))
  }

  // The group of a leader that is through, as it leaves the queue.
  ghost function Outcome(s: State): Commit
    requires CanRead(s) && s.leader.Writing? && 1 <= s.leader.size <= |s.queue|
  {
    Commit(s.queue[..s.leader.size], s.lastSequence, s.leader.ops, true, s.requests[s.queue[0]].sync,
           if s.leader.phase.Failed? then s.leader.phase.status else Ok)
  }

  ghost predicate Finishes(s: State, t: State)
    requires CanRead(s)
  {
    && s.leader.Writing? && 1 <= s.leader.size <= |s.queue|
    && (s.leader.phase == Insert(|s.leader.ops|) || s.leader.phase.Failed?)
    && var phase, c := s.leader.phase, Outcome(s);
    && t == Complete(s, c).(lastSequence := s.lastSequence + |c.ops|,
                            bgError := if phase.Failed? && phase.syncError && s.bgError == Ok then c.status else s.bgError)
  }

  ghost predicate Returns(s: State, t: State, id: Id) {
    id in s.done && id !in s.returned && t == s.(returned := s.returned[id := s.done[id]])
  }

  // RecordBackgroundError, from a compaction.
  ghost predicate FailsInBackground(s: State, t: State, error: Status) {
    error != Ok && s.bgError == Ok && t == s.(bgError := error)
  }

  ghost predicate Next(s: State, t: State, step: Step) {
    CanRead(s) &&
    match step
    case Join(id, request) => Joins(s, t, id, request)
    case Lead => Leads(s, t)
    case NoRoom(error) => FindsNoRoom(s, t, error)
    case SwitchFile => SwitchesFile(s, t)
    case Room => FindsRoom(s, t)
    case LogResult(result) => Logs(s, t, result)
    case SyncResult(result) => Syncs(s, t, result)
    case InsertOne => InsertsOne(s, t)
    case Finish => Finishes(s, t)
    case Return(id) => Returns(s, t, id)
    case BackgroundError(error) => FailsInBackground(s, t, error)
  }

  /* The invariant. */

  ghost function Groups(h: seq<Commit>): seq<Id> {
    if h == [] then [] else Groups(h[..|h| - 1]) + h[|h| - 1].group
  }

  ghost function Numbered(h: seq<Commit>): seq<Op> {
    if h == [] then [] else Numbered(h[..|h| - 1]) + h[|h| - 1].ops
  }

  // Writers leave in order of arrival, each in one group, with that group's status.
  ghost predicate QueueOk(s: State) {
    && Distinct(s.joined) && s.joined == Groups(s.history) + s.queue
    && (forall id :: id in s.joined <==> id in s.requests)
    && DoneOk(s) && CanRead(s)
  }

  ghost predicate Settled(done: map<Id, Status>, c: Commit) {
    forall id :: id in c.group ==> id in done && done[id] == c.status
  }

  ghost predicate DoneOk(s: State) {
    && (forall id :: id in Groups(s.history) <==> id in s.done)
    && (forall c :: c in s.history ==> Settled(s.done, c))
    && (forall id :: id in s.returned ==> id in s.done && s.returned[id] == s.done[id])
  }

  // The leader's group is a prefix of the queue, its operations those of the
  // group in order, and the log runs ahead of the memtable.
  ghost predicate LeaderOk(s: State)
    requires CanRead(s)
  {
    match s.leader
    case Nobody => true
    case MakingRoom => s.queue != []
    case Writing(size, ops, phase) =>
      && 1 <= size <= |s.queue|
      && var rs := RequestsOf(s.requests, s.queue[..size]);
      && ops == Concat(rs) && rs[0].batch.Some? && SyncRule(rs)
      && (phase.Sync? ==> rs[0].sync)
      && (phase.Sync? || phase.Insert? ==> s.log != [] && s.log[|s.log| - 1] == Record(s.lastSequence, ops) && s.fileStart < |s.log|)
      && (phase.Insert? ==> phase.n <= |ops| && (rs[0].sync ==> |s.log| - 1 in s.synced))
      && (phase.Failed? ==> phase.status != Ok)
  }

  // A record is in the log, and safe on disk if it has to be.
  ghost predicate Logged(log: seq<Record>, synced: set<nat>, r: Record, sync: bool) {
    exists i :: 0 <= i < |log| && log[i] == r && (sync ==> i in synced)
  }

  ghost predicate CommitOk(s: State, c: Commit) {
    && c.group != [] && (forall id :: id in c.group ==> id in s.requests)
    && var rs := RequestsOf(s.requests, c.group);
    && (c.written ==> c.ops == Concat(rs) && rs[0].batch.Some? && SyncRule(rs) && c.sync == rs[0].sync)
    && (!c.written ==> |c.group| == 1 && c.ops == [] && (c.status == Ok ==> rs[0].batch == None))
    && (c.written && c.status == Ok ==> Logged(s.log, s.synced, Record(c.base, c.ops), c.sync))
  }

  // The numbers after c.base are those of c's operations; the memtable has all
  // of them if the commit succeeded, and none otherwise.
  ghost predicate InMem(mem: map<nat, Op>, base: nat, ops: seq<Op>, n: nat) {
    forall j :: 0 <= j < |ops| ==> InMemAt(mem, base, j, ops[j], n)
  }

  ghost predicate InMemAt(mem: map<nat, Op>, base: nat, j: nat, op: Op, n: nat) {
    (base + 1 + j in mem <==> j < n) && (j < n ==> mem[base + 1 + j] == op)
  }

  ghost function Inserted(s: State): nat {
    if s.leader.Writing? && s.leader.phase.Insert? then s.leader.phase.n else 0
  }

  ghost predicate HistoryOk(s: State) {
    && s.lastSequence == s.firstSequence + |Numbered(s.history)| && s.fileStart <= |s.log|
    && forall i :: 0 <= i < |s.history| ==>
      && CommitOk(s, s.history[i]) && s.history[i].base == s.firstSequence + |Numbered(s.history[..i])|
  }

  ghost predicate MemOk(s: State) {
    && (forall c :: c in s.history ==>
          c.base + |c.ops| <= s.lastSequence && InMem(s.mem, c.base, c.ops, if c.status == Ok then |c.ops| else 0))
    && (s.leader.Writing? ==> InMem(s.mem, s.lastSequence, s.leader.ops, Inserted(s)))
    && (forall k :: k in s.mem ==> s.firstSequence < k <= s.lastSequence + Inserted(s))
  }

  ghost predicate Inv(s: State) {
    QueueOk(s) && LeaderOk(s) && HistoryOk(s) && MemOk(s)
  }

  /* Each step keeps it. */

  lemma CommitOkStays(s: State, t: State, c: Commit)
    requires CommitOk(s, c)
    requires forall id :: id in s.requests ==> id in t.requests && t.requests[id] == s.requests[id]
    requires s.log <= t.log && s.synced <= t.synced
    ensures CommitOk(t, c)
  {
    assert RequestsOf(t.requests, c.group) == RequestsOf(s.requests, c.group);
    if c.written && c.status == Ok {
      var i :| 0 <= i < |s.log| && s.log[i] == Record(c.base, c.ops) && (c.sync ==> i in s.synced);
      assert t.log[i] == s.log[i];
    }
  }

  // Steps that leave the history alone.
  lemma HistoryStays(s: State, t: State)
    requires HistoryOk(s) && t.history == s.history && t.firstSequence == s.firstSequence && t.lastSequence == s.lastSequence
    requires forall id :: id in s.requests ==> id in t.requests && t.requests[id] == s.requests[id]
    requires s.log <= t.log && s.synced <= t.synced && t.fileStart <= |t.log|
    ensures HistoryOk(t)
  {
    hide CommitOk;
    forall i | 0 <= i < |t.history| ensures CommitOk(t, t.history[i]) {
      CommitOkStays(s, t, s.history[i]);
    }
  }

  lemma JoinKeepsInv(s: State, t: State, id: Id, request: Request)
    requires Inv(s) && Joins(s, t, id, request)
    ensures Inv(t)
  {
    hide CommitOk, InMem, MemOk, HistoryOk, Concat, SyncRule, Groups;
    HistoryIsBounded(s);
    HistoryStays(s, t);
    MemStays(s, t);
    assert forall i :: 0 <= i < |s.joined| ==> s.joined[i] in s.joined;
    if s.leader.Writing? {
      var n := s.leader.size;
      assert t.queue[..n] == s.queue[..n];
      assert forall i :: 0 <= i < n ==> s.queue[..n][i] in s.queue;
      assert RequestsOf(t.requests, t.queue[..n]) == RequestsOf(s.requests, s.queue[..n]);
    }
  }

  lemma MemStays(s: State, t: State)
    requires MemOk(s) && t.mem == s.mem && t.history == s.history && Inserted(t) == Inserted(s)
    requires t.lastSequence == s.lastSequence && t.firstSequence == s.firstSequence
    requires t.leader.Writing? ==> s.leader.Writing? && t.leader.ops == s.leader.ops
    ensures MemOk(t)
  {
    hide InMem;
  }

  lemma LeadKeepsInv(s: State, t: State)
    requires Inv(s) && Leads(s, t)
    ensures Inv(t)
  {
    hide CommitOk, InMem, MemOk, HistoryOk, QueueOk;
    QueueStays(s, t);
    HistoryIsBounded(s);
    HistoryStays(s, t);
    MemStays(s, t);
  }

  lemma SwitchKeepsInv(s: State, t: State)
    requires Inv(s) && SwitchesFile(s, t)
    ensures Inv(t)
  {
    hide CommitOk, InMem, MemOk, HistoryOk, QueueOk;
    QueueStays(s, t);
    HistoryIsBounded(s);
    HistoryStays(s, t);
    MemStays(s, t);
  }

  lemma ReturnKeepsInv(s: State, t: State, id: Id)
    requires Inv(s) && Returns(s, t, id)
    ensures Inv(t)
  {
    hide CommitOk, InMem, MemOk, HistoryOk, LeaderOk;
    HistoryIsBounded(s);
    HistoryStays(s, t);
    MemStays(s, t);
    LeaderStays(s, t);
  }

  lemma LeaderStays(s: State, t: State)
    requires CanRead(s) && CanRead(t) && LeaderOk(s) && t.leader == s.leader && t.queue == s.queue && t.requests == s.requests
    requires t.log == s.log && t.synced == s.synced && t.fileStart == s.fileStart && t.lastSequence == s.lastSequence
    ensures LeaderOk(t)
  {
  }

  lemma BackgroundErrorKeepsInv(s: State, t: State, error: Status)
    requires Inv(s) && FailsInBackground(s, t, error)
    ensures Inv(t)
  {
    hide CommitOk, InMem, MemOk, HistoryOk, QueueOk, LeaderOk;
    QueueStays(s, t);
    HistoryIsBounded(s);
    HistoryStays(s, t);
    MemStays(s, t);
    LeaderStays(s, t);
  }

  lemma LogKeepsInv(s: State, t: State, result: Status)
    requires Inv(s) && Logs(s, t, result)
    ensures Inv(t)
  {
    hide CommitOk, InMem, MemOk, HistoryOk, QueueOk, Concat, SyncRule;
    QueueStays(s, t);
    HistoryIsBounded(s);
    HistoryStays(s, t);
    MemStays(s, t);
    assert s.queue[..s.leader.size][0] == s.queue[0];
  }

  lemma HistoryIsBounded(s: State)
    requires HistoryOk(s)
    ensures s.fileStart <= |s.log| && s.firstSequence <= s.lastSequence
  {
  }

  lemma QueueStays(s: State, t: State)
    requires QueueOk(s) && t.requests == s.requests && t.joined == s.joined && t.queue == s.queue
    requires t.done == s.done && t.returned == s.returned && t.history == s.history
    ensures QueueOk(t) && CanRead(s)
  {
  }

  lemma SyncKeepsInv(s: State, t: State, result: Status)
    requires Inv(s) && Syncs(s, t, result)
    ensures Inv(t)
  {
    hide CommitOk, InMem, MemOk, HistoryOk, QueueOk, Concat, SyncRule;
    QueueStays(s, t);
    HistoryIsBounded(s);
    HistoryStays(s, t);
    MemStays(s, t);
  }

  lemma InsertKeepsInv(s: State, t: State)
    requires Inv(s) && InsertsOne(s, t)
    ensures Inv(t)
  {
    hide CommitOk, HistoryOk, QueueOk, Concat, SyncRule, InMem, MemOk;
    QueueStays(s, t);
    HistoryIsBounded(s);
    HistoryStays(s, t);
    InsertKeepsMem(s, t);
  }

  // The number inserted is beyond those of every earlier commit.
  lemma InsertKeepsMem(s: State, t: State)
    requires MemOk(s) && s.firstSequence <= s.lastSequence && InsertsOne(s, t)
    ensures MemOk(t)
  {
    hide InMem;
    var n := s.leader.phase.n;
    var k, v := s.lastSequence + 1 + n, s.leader.ops[n];
    forall c | c in t.history ensures InMem(t.mem, c.base, c.ops, if c.status == Ok then |c.ops| else 0) {
      InMemStays(s.mem, c.base, c.ops, if c.status == Ok then |c.ops| else 0, k, v);
    }
    InMemGrows(s.mem, s.lastSequence, s.leader.ops, n);
  }

  lemma InMemStays(mem: map<nat, Op>, base: nat, ops: seq<Op>, n: nat, k: nat, v: Op)
    requires InMem(mem, base, ops, n) && k > base + |ops|
    ensures InMem(mem[k := v], base, ops, n)
  {
    forall j | 0 <= j < |ops| ensures InMemAt(mem[k := v], base, j, ops[j], n) {
      assert InMemAt(mem, base, j, ops[j], n);
    }
  }

  lemma InMemGrows(mem: map<nat, Op>, base: nat, ops: seq<Op>, n: nat)
    requires InMem(mem, base, ops, n) && n < |ops|
    ensures InMem(mem[base + 1 + n := ops[n]], base, ops, n + 1)
  {
    forall j | 0 <= j < |ops| ensures InMemAt(mem[base + 1 + n := ops[n]], base, j, ops[j], n + 1) {
      assert InMemAt(mem, base, j, ops[j], n);
    }
  }

  /* A group leaves the queue. */

  lemma GroupsAppend(h: seq<Commit>, c: Commit)
    ensures Groups(h + [c]) == Groups(h) + c.group
    ensures Numbered(h + [c]) == Numbered(h) + c.ops
  {
    assert (h + [c])[..|h|] == h;
  }

  // Popping the group and completing its members.
  lemma CompleteKeepsQueue(s: State, t: State, c: Commit)
    requires QueueOk(s) && 1 <= |c.group| <= |s.queue| && c.group == s.queue[..|c.group|]
    requires var u := Complete(s, c); t.requests == u.requests && t.joined == u.joined && t.queue == u.queue
                                      && t.done == u.done && t.returned == u.returned && t.history == u.history
    ensures QueueOk(t)
  {
    hide Distinct, Groups, DoneOk;
    var n := |c.group|;
    GroupsAppend(s.history, c);
    assert s.queue == c.group + s.queue[n..];
    assert t.joined == Groups(t.history) + t.queue;
    assert forall id :: id in t.queue ==> id in s.queue;
    Fresh(s.joined, Groups(s.history), s.queue, n);
    DoneAgrees(s, t, c);
  }

  lemma DoneAgrees(s: State, t: State, c: Commit)
    requires DoneOk(s) && c.group != [] && forall id :: id in c.group ==> id !in Groups(s.history)
    requires t.done == s.done + (map id | id in c.group :: c.status) && t.history == s.history + [c]
    requires t.returned == s.returned[c.group[0] := c.status]
    ensures DoneOk(t)
  {
    hide Groups, Settled;
    GroupsAppend(s.history, c);
    assert forall id :: id in Groups(t.history) <==> id in Groups(s.history) || id in c.group;
    forall d | d in t.history ensures Settled(t.done, d) {
      if d in s.history {
        StillSettled(s.done, t.done, c, d);
      } else {
        NowSettled(t.done, s.done, c);
      }
    }
    assert c.group[0] in c.group;
  }

  lemma StillSettled(before: map<Id, Status>, after: map<Id, Status>, c: Commit, d: Commit)
    requires Settled(before, d) && after == before + (map id | id in c.group :: c.status)
    requires forall id :: id in c.group ==> id !in before
    ensures Settled(after, d)
  {
  }

  lemma NowSettled(after: map<Id, Status>, before: map<Id, Status>, c: Commit)
    requires after == before + (map id | id in c.group :: c.status)
    ensures Settled(after, c)
  {
  }

  // The members of the group were not done before.
  lemma Fresh(joined: seq<Id>, before: seq<Id>, queue: seq<Id>, n: nat)
    requires Distinct(joined) && joined == before + queue && n <= |queue|
    ensures forall id :: id in queue[..n] ==> id !in before
  {
    forall i, j | 0 <= i < |before| && 0 <= j < n ensures before[i] != queue[..n][j] {
      assert joined[i] == before[i] && joined[|before| + j] == queue[j];
    }
  }

  lemma CompleteKeepsHistory(s: State, t: State, c: Commit)
    requires HistoryOk(s) && CommitOk(s, c) && c.base == s.lastSequence
    requires t.history == s.history + [c] && t.requests == s.requests && t.log == s.log && t.synced == s.synced && t.fileStart == s.fileStart
    requires t.firstSequence == s.firstSequence && t.lastSequence == s.lastSequence + |c.ops|
    ensures HistoryOk(t)
  {
    hide CommitOk;
    GroupsAppend(s.history, c);
    forall i | 0 <= i < |t.history|
      ensures CommitOk(t, t.history[i]) && t.history[i].base == t.firstSequence + |Numbered(t.history[..i])|
    {
      CommitOkStays(s, t, t.history[i]);
      assert t.history[..i] == s.history[..i];
      assert i == |s.history| ==> s.history[..i] == s.history;
    }
  }

  lemma CompleteKeepsMem(s: State, t: State, c: Commit)
    requires MemOk(s) && c.base == s.lastSequence && InMem(s.mem, c.base, c.ops, if c.status == Ok then |c.ops| else 0)
    requires t.history == s.history + [c] && t.mem == s.mem && t.leader.Nobody? && t.firstSequence == s.firstSequence
    requires t.lastSequence == s.lastSequence + |c.ops| && Inserted(s) <= |c.ops|
    ensures MemOk(t)
  {
    hide InMem;
  }

  lemma NoRoomKeepsInv(s: State, t: State, error: Status)
    requires Inv(s) && FindsNoRoom(s, t, error)
    ensures Inv(t)
  {
    AloneKeepsInv(s, t, error);
  }

  // A leader that leaves alone, with nothing written.
  lemma AloneKeepsInv(s: State, t: State, status: Status)
    requires Inv(s) && s.leader.MakingRoom? && s.queue != []
    requires status == Ok ==> s.requests[s.queue[0]].batch == None
    requires t == Complete(s, Commit([s.queue[0]], s.lastSequence, [], false, false, status))
    ensures Inv(t)
  {
    hide HistoryOk, MemOk, QueueOk, SyncRule, Concat;
    var c := Commit([s.queue[0]], s.lastSequence, [], false, false, status);
    assert s.queue[..1] == [s.queue[0]] && s.queue[0] in s.queue;
    QueueIsKnown(s);
    assert CommitOk(s, c);
    CompleteKeepsQueue(s, t, c);
    CompleteKeepsHistory(s, t, c);
    CompleteKeepsMem(s, t, c);
  }

  lemma FinishKeepsInv(s: State, t: State)
    requires Inv(s) && Finishes(s, t)
    ensures Inv(t)
  {
    hide HistoryOk, MemOk, QueueOk, SyncRule, Concat, InMem;
    QueueIsKnown(s);
    var c := Outcome(s);
    assert c.group[0] == s.queue[0];
    OutcomeIsOk(s);
    FinishedIsInMem(s);
    CompleteKeepsQueue(s, t, c);
    CompleteKeepsHistory(s, t, c);
    CompleteKeepsMem(s, t, c);
  }

  lemma QueueIsKnown(s: State)
    requires QueueOk(s)
    ensures CanRead(s)
  {
  }

  lemma OutcomeIsOk(s: State)
    requires CanRead(s) && LeaderOk(s) && s.leader.Writing?
    requires s.leader.phase == Insert(|s.leader.ops|) || s.leader.phase.Failed?
    ensures CommitOk(s, Outcome(s))
  {
    hide SyncRule, Concat;
    var c := Outcome(s);
    assert forall id :: id in c.group ==> id in s.queue;
    assert c.group[0] == s.queue[0];
    if s.leader.phase.Insert? {
      assert s.log[|s.log| - 1] == Record(c.base, c.ops) && (c.sync ==> |s.log| - 1 in s.synced);
    }
  }

  lemma FinishedIsInMem(s: State)
    requires MemOk(s) && s.leader.Writing?
    ensures InMem(s.mem, s.lastSequence, s.leader.ops, Inserted(s))
  {
  }

  lemma RoomKeepsInv(s: State, t: State)
    requires Inv(s) && FindsRoom(s, t)
    ensures Inv(t)
  {
    hide HistoryOk, MemOk, QueueOk, SyncRule, Concat, Take, CommitOk;
    QueueIsKnown(s);
    var rs := RequestsOf(s.requests, s.queue);
    if rs[0].batch == None {
      AloneKeepsInv(s, t, Ok);
    } else {
      var n := Take(rs, 1, BytesOf(rs[0]));
      assert RequestsOf(s.requests, s.queue[..n]) == rs[..n] by {
        assert forall id :: id in s.queue[..n] ==> id in s.queue;
      }
      OneKeepsSyncRule(rs);
      TakeKeepsSyncRule(rs, 1, BytesOf(rs[0]));
      QueueStays(s, t);
      HistoryIsBounded(s);
      HistoryStays(s, t);
      NothingYetInMem(s, t);
    }
  }

  lemma OneKeepsSyncRule(rs: seq<Request>)
    requires rs != []
    ensures SyncRule(rs[..1])
  {
  }

  lemma NothingYetInMem(s: State, t: State)
    requires MemOk(s) && s.leader.MakingRoom? && t == s.(leader := t.leader) && t.leader.Writing? && t.leader.phase.AddRecord?
    ensures MemOk(t)
  {
    hide InMem;
    NotInMem(s.mem, s.lastSequence, t.leader.ops);
  }

  lemma NotInMem(mem: map<nat, Op>, base: nat, ops: seq<Op>)
    requires forall k :: k in mem ==> k <= base
    ensures InMem(mem, base, ops, 0)
  {
  }

  lemma StepKeepsInv(s: State, t: State, step: Step)
    requires Inv(s) && Next(s, t, step)
    ensures Inv(t)
  {
    hide Inv, Joins, Leads, FindsNoRoom, SwitchesFile, FindsRoom, Logs, Syncs, InsertsOne, Finishes, Returns, FailsInBackground;
    match step {
      case Join(id, request) => JoinKeepsInv(s, t, id, request);
      case Lead => LeadKeepsInv(s, t);
      case NoRoom(error) => NoRoomKeepsInv(s, t, error);
      case SwitchFile => SwitchKeepsInv(s, t);
      case Room => RoomKeepsInv(s, t);
      case LogResult(result) => LogKeepsInv(s, t, result);
      case SyncResult(result) => SyncKeepsInv(s, t, result);
      case InsertOne => InsertKeepsInv(s, t);
      case Finish => FinishKeepsInv(s, t);
      case Return(id) => ReturnKeepsInv(s, t, id);
      case BackgroundError(error) => BackgroundErrorKeepsInv(s, t, error);
    }
  }
}
