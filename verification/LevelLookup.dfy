// A point read: memtables, then the table files level by level
// (DBImpl::Get in db/db_impl.cc, Version::Get in db/version_set.cc).

module LevelLookup {
  import opened Wrappers
  import opened DbFormat
  import opened Files
  import opened InternalIterator

  // What the table files hold, in table order.
  type Tables = FileMeta -> seq<Entry>

  ghost predicate TableOk(f: FileMeta, data: Tables) {
    && data(f) != [] && Sorted(data(f))
    && f.smallest == data(f)[0].ikey && f.largest == data(f)[|data(f)| - 1].ikey
  }

  ghost predicate TablesOk(files: seq<FileMeta>, data: Tables) {
    forall f :: f in files ==> TableOk(f, data)
  }

  ghost function Stored(files: seq<FileMeta>, data: Tables): set<Entry> {
    set f, e | f in files && e in data(f) :: e
  }

  // Level-0 file numbers follow recency.
  ghost predicate NumbersFollowRecency(files: seq<FileMeta>, data: Tables) {
    && (forall i, j :: 0 <= i < j < |files| ==> files[i].number != files[j].number)
    && forall f, g :: f in files && g in files && f.number > g.number ==> NewerThan(Elements(data(f)), Elements(data(g)))
  }

  // What a search for the newest entry at a snapshot must answer.
  ghost predicate Answers(all: set<Entry>, k: UserKey, snap: SequenceNumber, r: Option<Entry>) {
    match r
    case None => !HasVisible(all, k, snap)
    case Some(e) => IsNewest(all, k, snap, e)
  }

  // Seek to the lookup key, and check the user key found there: MemTable::Get,
  // and SaveValue on what a table's Get reports.
  function SeekIn(s: seq<Entry>, k: UserKey, snap: SequenceNumber): (r: Option<Entry>)
    requires Sorted(s)
    ensures Answers(Elements(s), k, snap, r)
  {
    var n := LowerBound(s, SeekKey(k, snap));
    SeekFinds(s, k, snap, n);
    if n < |s| && s[n].Key() == k then Some(s[n]) else None
  }

  lemma SeekFinds(s: seq<Entry>, k: UserKey, snap: SequenceNumber, n: nat)
    requires Sorted(s) && n == LowerBound(s, SeekKey(k, snap))
    ensures Answers(Elements(s), k, snap, if n < |s| && s[n].Key() == k then Some(s[n]) else None)
  {
    hide Less, SeekKey;
    forall e: Entry | e.Key() == k && !Less(e.ikey, SeekKey(k, snap)) ensures e.Seq() <= snap {
      SortsAtOrAfter(e, k, snap);
    }
    forall d | d in s && d.Key() == k && d.Seq() <= snap
      ensures n < |s| && s[n].Key() == k && d.Seq() <= s[n].Seq()
    {
      var i :| 0 <= i < |s| && s[i] == d;
      SortsAtOrAfter(d, k, snap);
      assert i > n ==> Less(s[n].ikey, s[i].ikey);
      OlderSortsLater(s[n], d, k, snap);
    }
  }

  lemma SortsAtOrAfter(d: Entry, k: UserKey, snap: SequenceNumber)
    requires d.Key() == k
    ensures !Less(d.ikey, SeekKey(k, snap)) <==> d.Seq() <= snap
  {
  }

  lemma OlderSortsLater(e: Entry, d: Entry, k: UserKey, snap: SequenceNumber)
    requires !Less(e.ikey, SeekKey(k, snap)) && d.Key() == k && (d == e || Less(e.ikey, d.ikey))
    ensures e.Key() == k && d.Seq() <= e.Seq()
  {
  }

  // FindFile: the first file that ends at or after the key.
  method FindFile(files: seq<FileMeta>, key: InternalKey) returns (r: nat)
    requires DisjointLevel(files)
    ensures r <= |files|
    ensures forall i :: 0 <= i < r ==> Less(files[i].largest, key)
    ensures forall i :: r <= i < |files| ==> !Less(files[i].largest, key)
  {
    var left, right := 0, |files|;
    while left < right
      invariant 0 <= left <= right <= |files|
      invariant forall i :: 0 <= i < left ==> Less(files[i].largest, key)
      invariant forall i :: right <= i < |files| ==> !Less(files[i].largest, key)
    {
      var mid := (left + right) / 2;
      LargestKeysAscend(files, mid);
      if Less(files[mid].largest, key) {
        left := mid + 1;
      } else {
        right := mid;
      }
    }
    r := right;
  }

  lemma LargestKeysAscend(files: seq<FileMeta>, m: nat)
    requires DisjointLevel(files) && m < |files|
    ensures forall i :: 0 <= i < m ==> Less(files[i].largest, files[m].largest)
    ensures forall i :: m < i < |files| ==> Less(files[m].largest, files[i].largest)
  {
    forall i, j | 0 <= i < j < |files| ensures Less(files[i].largest, files[j].largest) {
      assert Less(files[i].largest, files[j].smallest) && files[j].Ordered();
    }
  }

  // A sorted level holds the key in one file, or at the end of one and the
  // start of the next; the file FindFile picks decides.
  method SearchSorted(files: seq<FileMeta>, data: Tables, k: UserKey, snap: SequenceNumber) returns (r: Option<Entry>)
    requires DisjointLevel(files) && TablesOk(files, data)
    ensures Answers(Stored(files, data), k, snap, r)
  {
    hide DisjointLevel, TablesOk, Answers, Stored;
    var index := FindFile(files, SeekKey(k, snap));
    if index >= |files| {
      BeforeAreInvisible(files, data, k, snap, index);
      return None;
    }
    var f := files[index];
    OkAt(files, data, index);
    r := if k < f.smallest.user then None else SeekIn(data(f), k, snap);
    BeforeAreInvisible(files, data, k, snap, index);
    FileDecides(files, data, k, snap, index, r);
  }

  lemma OkAt(files: seq<FileMeta>, data: Tables, i: nat)
    requires TablesOk(files, data) && i < |files|
    ensures TableOk(files[i], data)
  {
  }

  ghost predicate Invisible(files: seq<FileMeta>, data: Tables, k: UserKey, snap: SequenceNumber, n: nat)
    requires n <= |files|
  {
    forall i, e :: 0 <= i < n && e in data(files[i]) && e.Key() == k ==> e.Seq() > snap
  }

  lemma BeforeAreInvisible(files: seq<FileMeta>, data: Tables, k: UserKey, snap: SequenceNumber, n: nat)
    requires TablesOk(files, data) && n <= |files|
    requires forall i :: 0 <= i < n ==> Less(files[i].largest, SeekKey(k, snap))
    ensures Invisible(files, data, k, snap, n)
    ensures n == |files| ==> Answers(Stored(files, data), k, snap, None)
  {
    forall i, e | 0 <= i < n && e in data(files[i]) && e.Key() == k ensures e.Seq() > snap {
      OkAt(files, data, i);
      WithinBounds(files[i], data, e);
    }
    if n == |files| {
      forall e | e in Stored(files, data) && e.Key() == k ensures e.Seq() > snap {
        var i :| 0 <= i < |files| && e in data(files[i]);
      }
    }
  }

  lemma WithinBounds(f: FileMeta, data: Tables, e: Entry)
    requires TableOk(f, data) && e in data(f)
    ensures !Less(e.ikey, f.smallest) && !Less(f.largest, e.ikey)
  {
    var s := data(f);
    var i :| 0 <= i < |s| && s[i] == e;
    assert i > 0 ==> Less(s[0].ikey, s[i].ikey);
    assert i < |s| - 1 ==> Less(s[i].ikey, s[|s| - 1].ikey);
  }

  lemma FileDecides(files: seq<FileMeta>, data: Tables, k: UserKey, snap: SequenceNumber, n: nat, r: Option<Entry>)
    requires DisjointLevel(files) && TablesOk(files, data) && n < |files| && Invisible(files, data, k, snap, n)
    requires !Less(files[n].largest, SeekKey(k, snap))
    requires TableOk(files[n], data)
    requires r == if k < files[n].smallest.user then None else SeekIn(data(files[n]), k, snap)
    ensures Answers(Stored(files, data), k, snap, r)
  {
    hide DisjointLevel, Invisible, TablesOk;
    var here := Elements(data(files[n]));
    if k < files[n].smallest.user {
      forall e | e in here ensures e.Key() > k { WithinBounds(files[n], data, e); }
    }
    assert Answers(here, k, snap, r);
    assert r.Some? ==> r.value in Stored(files, data);
    forall e | e in Stored(files, data) && e.Key() == k && e.Seq() <= snap
      ensures r.Some? && e.Seq() <= r.value.Seq()
    {
      var i :| 0 <= i < |files| && e in data(files[i]);
      NotEarlier(files, data, k, snap, n, i, e);
      if i == n {
        assert e in here;
      } else {
        LaterIsOlder(files, data, k, snap, n, i, e);
        var last := data(files[n])[|data(files[n])| - 1];
        assert last in here;
      }
    }
  }

  lemma NotEarlier(files: seq<FileMeta>, data: Tables, k: UserKey, snap: SequenceNumber, n: nat, i: nat, e: Entry)
    requires n < |files| && i < |files| && Invisible(files, data, k, snap, n)
    requires e in data(files[i]) && e.Key() == k && e.Seq() <= snap
    ensures i >= n
  {
  }

  // An entry of the key in a later file: then file n ends with a newer visible one.
  lemma LaterIsOlder(files: seq<FileMeta>, data: Tables, k: UserKey, snap: SequenceNumber, n: nat, i: nat, e: Entry)
    requires DisjointLevel(files) && TablesOk(files, data) && n < i < |files|
    requires !Less(files[n].largest, SeekKey(k, snap)) && e in data(files[i]) && e.Key() == k
    ensures files[n].largest.user == k && files[n].largest.sequence <= snap && e.Seq() <= files[n].largest.sequence
  {
    OkAt(files, data, i);
    WithinBounds(files[i], data, e);
    assert Less(files[n].largest, files[i].smallest);
  }

  /* Level 0: files may overlap; newer files have higher numbers. */

  // The files whose range holds the key, in file order.
  function Candidates(files: seq<FileMeta>, k: UserKey): (r: seq<FileMeta>)
    ensures forall f :: f in r <==> f in files && f.Covers(k)
  {
    if files == [] then []
    else
      var r, f := Candidates(files[..|files| - 1], k), files[|files| - 1];
      if k >= f.smallest.user && k <= f.largest.user then r + [f] else r
  }

  // Put a file in its place among files sorted by NewestFirst.
  function Insert(files: seq<FileMeta>, f: FileMeta): (r: seq<FileMeta>)
    ensures multiset(r) == multiset(files) + multiset{f}
  {
    if files == [] || f.number > files[0].number then [f] + files
    else
      assert files == [files[0]] + files[1..];
      [files[0]] + Insert(files[1..], f)
  }

  // std::sort with NewestFirst.
  function NewestFirst(files: seq<FileMeta>): (r: seq<FileMeta>)
    ensures multiset(r) == multiset(files)
  {
    if files == [] then []
    else
      assert files == files[..|files| - 1] + [files[|files| - 1]];
      Insert(NewestFirst(files[..|files| - 1]), files[|files| - 1])
  }

  ghost predicate Descending(files: seq<FileMeta>) {
    forall i, j :: 0 <= i < j < |files| ==> files[i].number >= files[j].number
  }

  lemma {:induction false} InsertKeepsOrder(files: seq<FileMeta>, f: FileMeta)
    requires Descending(files)
    ensures Descending(Insert(files, f))
  {
    if files != [] && f.number <= files[0].number {
      InsertKeepsOrder(files[1..], f);
      var r := Insert(files[1..], f);
      forall g | g in r ensures g.number <= files[0].number {
        assert g in multiset(r) && (g == f || g in multiset(files[1..]));
      }
    }
  }

  lemma {:induction false} NewestFirstIsSorted(files: seq<FileMeta>)
    ensures Descending(NewestFirst(files))
    ensures forall f :: f in NewestFirst(files) <==> f in files
  {
    if files != [] {
      NewestFirstIsSorted(files[..|files| - 1]);
      InsertKeepsOrder(NewestFirst(files[..|files| - 1]), files[|files| - 1]);
    }
    forall f ensures f in NewestFirst(files) <==> f in files {
      assert f in multiset(files) <==> f in files;
      assert f in multiset(NewestFirst(files)) <==> f in NewestFirst(files);
    }
  }

  method SearchLevel0(files: seq<FileMeta>, data: Tables, k: UserKey, snap: SequenceNumber) returns (r: Option<Entry>)
    requires TablesOk(files, data) && NumbersFollowRecency(files, data)
    ensures Answers(Stored(files, data), k, snap, r)
  {
    hide TablesOk, NumbersFollowRecency, Answers, Stored, Descending, Invisible, Candidates, FileMeta.Covers, NewestFirst, SeekIn, Elements, Sorted;
    NoneInvisible(data, k, snap);
    var tmp := NewestFirst(Candidates(files, k));
    NewestFirstIsSorted(Candidates(files, k));
    var i := 0;
    while i < |tmp|
      invariant 0 <= i <= |tmp| && Invisible(tmp, data, k, snap, i)
    {
      FileOk(files, data, tmp[i]);
      r := SeekIn(data(tmp[i]), k, snap);
      if r.Some? {
        NewestFileDecides(files, data, k, snap, tmp, i, r.value);
        return;
      }
      InvisibleGrows(tmp, data, k, snap, i);
      i := i + 1;
    }
    NoCandidateDecides(files, data, k, snap, tmp);
    r := None;
  }

  lemma FileOk(files: seq<FileMeta>, data: Tables, f: FileMeta)
    requires TablesOk(files, data) && f in files
    ensures TableOk(f, data)
  {
  }

  lemma NoneInvisible(data: Tables, k: UserKey, snap: SequenceNumber)
    ensures forall files :: Invisible(files, data, k, snap, 0)
  {
  }

  lemma InvisibleGrows(files: seq<FileMeta>, data: Tables, k: UserKey, snap: SequenceNumber, n: nat)
    requires n < |files| && Invisible(files, data, k, snap, n) && Answers(Elements(data(files[n])), k, snap, None)
    ensures Invisible(files, data, k, snap, n + 1)
  {
    forall e | e in data(files[n]) && e.Key() == k ensures e.Seq() > snap {
      assert e in Elements(data(files[n]));
    }
  }

  // Every entry of the key is in a candidate.
  lemma InCandidate(files: seq<FileMeta>, data: Tables, k: UserKey, tmp: seq<FileMeta>, e: Entry) returns (j: nat)
    requires TablesOk(files, data) && e in Stored(files, data) && e.Key() == k
    requires forall f :: f in tmp <==> f in files && f.Covers(k)
    ensures j < |tmp| && e in data(tmp[j])
  {
    var f :| f in files && e in data(f);
    WithinBounds(f, data, e);
    j :| 0 <= j < |tmp| && tmp[j] == f;
  }

  lemma NewestFileDecides(files: seq<FileMeta>, data: Tables, k: UserKey, snap: SequenceNumber,
                          tmp: seq<FileMeta>, i: nat, r: Entry)
    requires TablesOk(files, data) && NumbersFollowRecency(files, data) && Descending(tmp)
    requires forall f :: f in tmp <==> f in files && f.Covers(k)
    requires i < |tmp| && Invisible(tmp, data, k, snap, i) && Answers(Elements(data(tmp[i])), k, snap, Some(r))
    ensures Answers(Stored(files, data), k, snap, Some(r))
  {
    hide TablesOk, Stored, Descending, NumbersFollowRecency;
    assert r in Stored(files, data) by { StoredIn(files, data, tmp[i], r); }
    forall e | e in Stored(files, data) && e.Key() == k && e.Seq() <= snap ensures e.Seq() <= r.Seq() {
      var j := InCandidate(files, data, k, tmp, e);
      NotEarlier(tmp, data, k, snap, i, j, e);
      if tmp[j] == tmp[i] {
        assert e in Elements(data(tmp[i]));
      } else {
        OlderFile(files, data, tmp, i, j, r, e);
      }
    }
  }

  lemma StoredIn(files: seq<FileMeta>, data: Tables, f: FileMeta, e: Entry)
    requires f in files && e in data(f)
    ensures e in Stored(files, data)
  {
  }

  lemma OlderFile(files: seq<FileMeta>, data: Tables, tmp: seq<FileMeta>, i: nat, j: nat, r: Entry, e: Entry)
    requires NumbersFollowRecency(files, data) && Descending(tmp) && i <= j < |tmp| && tmp[j] != tmp[i]
    requires tmp[i] in files && tmp[j] in files && r in data(tmp[i]) && e in data(tmp[j]) && r.Key() == e.Key()
    ensures e.Seq() < r.Seq()
  {
    assert r in Elements(data(tmp[i])) && e in Elements(data(tmp[j]));
    assert tmp[i].number != tmp[j].number;
  }

  lemma NoCandidateDecides(files: seq<FileMeta>, data: Tables, k: UserKey, snap: SequenceNumber, tmp: seq<FileMeta>)
    requires TablesOk(files, data) && Invisible(tmp, data, k, snap, |tmp|)
    requires forall f :: f in tmp <==> f in files && f.Covers(k)
    ensures Answers(Stored(files, data), k, snap, None)
  {
    forall e | e in Stored(files, data) && e.Key() == k ensures e.Seq() > snap {
      var j := InCandidate(files, data, k, tmp, e);
    }
  }

  /* All levels, and the memtables before them. */

  // The entries of the first n levels.
  ghost function InLevels(levels: seq<seq<FileMeta>>, data: Tables, n: nat): (r: set<Entry>)
    requires n <= |levels|
    ensures forall e :: e in r <==> exists l :: 0 <= l < n && e in Stored(levels[l], data)
  {
    if n == 0 then {} else InLevels(levels, data, n - 1) + Stored(levels[n - 1], data)
  }

  // Shallower levels hold the newer entries.
  ghost predicate NewerAbove(levels: seq<seq<FileMeta>>, data: Tables) {
    forall a, b :: 0 <= a < b < |levels| ==> NewerThan(Stored(levels[a], data), Stored(levels[b], data))
  }

  class Version {
    const levels: seq<seq<FileMeta>>
    const data: Tables   // the table cache's answers

    constructor (levels: seq<seq<FileMeta>>, data: Tables)
      ensures this.levels == levels && this.data == data
    {
      this.levels, this.data := levels, data;
    }

    ghost predicate Valid() {
      && WellFormedLevels(levels)
      && (forall l :: 0 <= l < NUM_LEVELS ==> TablesOk(levels[l], data))
      && NumbersFollowRecency(levels[0], data)
      && NewerAbove(levels, data)
    }

    ghost function Contents(): set<Entry>
      requires Valid()
    {
      InLevels(levels, data, NUM_LEVELS)
    }

    // Version::Get, up to turning the entry found into a status.
    method Get(k: UserKey, snap: SequenceNumber) returns (r: Option<Entry>)
      requires Valid()
      ensures Answers(Contents(), k, snap, r)
    {
      hide TablesOk, DisjointLevel, NumbersFollowRecency, Stored, NewerThan;
      var level := 0;
      while level < NUM_LEVELS
        invariant 0 <= level <= NUM_LEVELS
        invariant !HasVisible(InLevels(levels, data, level), k, snap)
      {
        if level == 0 {
          r := SearchLevel0(levels[0], data, k, snap);
        } else {
          r := SearchSorted(levels[level], data, k, snap);
        }
        if r.Some? {
          FirstLevelDecides(level, k, snap, r.value);
          return;
        }
        level := level + 1;
      }
      r := None;
    }

    // Entries never hop across levels, so the first level that has a visible
    // entry of the key has the newest.
    lemma FirstLevelDecides(level: nat, k: UserKey, snap: SequenceNumber, r: Entry)
      requires Valid() && level < NUM_LEVELS && !HasVisible(InLevels(levels, data, level), k, snap)
      requires IsNewest(Stored(levels[level], data), k, snap, r)
      ensures IsNewest(Contents(), k, snap, r)
    {
      hide TablesOk, DisjointLevel, NumbersFollowRecency, Stored, NewerAbove;
      assert forall l, e :: 0 <= l < level && e in Stored(levels[l], data) ==> e in InLevels(levels, data, level);
      forall e | e in Contents() && e.Key() == k && e.Seq() <= snap ensures e.Seq() <= r.Seq() {
        var l :| 0 <= l < NUM_LEVELS && e in Stored(levels[l], data);
        if l > level { OlderBelow(level, l, r, e); }
      }
    }

    lemma OlderBelow(level: nat, l: nat, r: Entry, e: Entry)
      requires Valid() && level < l < NUM_LEVELS && r.Key() == e.Key()
      requires r in Stored(levels[level], data) && e in Stored(levels[l], data)
      ensures e.Seq() < r.Seq()
    {
      hide TablesOk, DisjointLevel, NumbersFollowRecency, Stored;
    }
  }

  // DBImpl::Get: what one read at a snapshot returns, over everything stored.
  method Get(mem: seq<Entry>, imm: Option<seq<Entry>>, current: Version, k: UserKey, snap: SequenceNumber)
    returns (r: ReadResult)
    requires Sorted(mem) && (imm.Some? ==> Sorted(imm.value)) && current.Valid()
    requires NewerThan(Elements(mem), Frozen(imm) + current.Contents()) && NewerThan(Frozen(imm), current.Contents())
    requires UniqueSeqs(Elements(mem) + Frozen(imm) + current.Contents())
    ensures r == Read(Elements(mem) + Frozen(imm) + current.Contents(), k, snap)
  {
    hide Version.Valid, Version.Contents, Sorted, UniqueSeqs;
    ghost var all := Elements(mem) + Frozen(imm) + current.Contents();
    var found := SeekIn(mem, k, snap);
    if found == None && imm.Some? {
      found := SeekIn(imm.value, k, snap);
    }
    if found == None {
      found := current.Get(k, snap);
    }
    match found {
      case None =>
        r := NotFound;
        ReadNothing(all, k, snap);
      case Some(e) =>
        r := Meaning(e);
        ReadIsNewest(all, k, snap, e);
    }
  }

  ghost function Frozen(imm: Option<seq<Entry>>): set<Entry> {
    match imm case None => {} case Some(s) => Elements(s)
  }
}
