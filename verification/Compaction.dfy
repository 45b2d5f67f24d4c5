// One compaction as a single step: which entries it keeps, how it cuts them
// into files, and why readers cannot tell (db/db_impl.cc, db/version_set.cc).

module Compactions {
  import opened Wrappers
  import opened DbFormat
  import opened Files

  /* What a compaction may forget. */

  // Rule (A): a newer entry of the same user key is already visible to every snapshot.
  ghost predicate Hidden(inputs: set<Entry>, e: Entry, smallestSnapshot: SequenceNumber) {
    exists d :: d in inputs && d.Key() == e.Key() && d.Seq() > e.Seq() && d.Seq() <= smallestSnapshot
  }

  // No file at level + 2 or deeper has the key in its range: the full scan that
  // the cursor in IsBaseLevelForKey replaces.
  ghost predicate IsBase(levels: seq<seq<FileMeta>>, level: nat, k: UserKey)
    requires |levels| == NUM_LEVELS
  {
    forall lvl, i :: level + 2 <= lvl < NUM_LEVELS && 0 <= i < |levels[lvl]| ==> !levels[lvl][i].Covers(k)
  }

  // A deletion marker every snapshot sees, with nothing left below it to hide.
  ghost predicate Obsolete(levels: seq<seq<FileMeta>>, level: nat, e: Entry, smallestSnapshot: SequenceNumber)
    requires |levels| == NUM_LEVELS
  {
    e.IsDeletion() && e.Seq() <= smallestSnapshot && IsBase(levels, level, e.Key())
  }

  ghost predicate Dropped(inputs: set<Entry>, levels: seq<seq<FileMeta>>, level: nat, e: Entry,
                          smallestSnapshot: SequenceNumber)
    requires |levels| == NUM_LEVELS
  {
    Hidden(inputs, e, smallestSnapshot) || Obsolete(levels, level, e, smallestSnapshot)
  }

  ghost function Survivors(inputs: set<Entry>, levels: seq<seq<FileMeta>>, level: nat,
                           smallestSnapshot: SequenceNumber): set<Entry>
    requires |levels| == NUM_LEVELS
  {
    set e | e in inputs && !Dropped(inputs, levels, level, e, smallestSnapshot)
  }

  // The survivors of a prefix of the input, in input order.
  ghost function Kept(all: seq<Entry>, n: nat, levels: seq<seq<FileMeta>>, level: nat,
                      smallestSnapshot: SequenceNumber): (r: seq<Entry>)
    requires n <= |all| && |levels| == NUM_LEVELS
  {
    if n == 0 then []
    else
      var r := Kept(all, n - 1, levels, level, smallestSnapshot);
      if Dropped(Elements(all), levels, level, all[n - 1], smallestSnapshot) then r else r + [all[n - 1]]
  }

  /* The output files. */

  datatype OutputFile = OutputFile(entries: seq<Entry>, smallest: InternalKey, largest: InternalKey)
  {
    ghost predicate Tight() {
      entries != [] && smallest == entries[0].ikey && largest == entries[|entries| - 1].ikey
    }
  }

  ghost function Contents(files: seq<OutputFile>): seq<Entry> {
    if files == [] then [] else Contents(files[..|files| - 1]) + files[|files| - 1].entries
  }

  class Compaction {
    const level: nat
    const levels: seq<seq<FileMeta>>      // input_version_->files_
    const grandparents: seq<FileMeta>
    const maxOutputFileSize: nat
    const maxGrandParentOverlapBytes: nat
    const levelPtrs: array<nat>
    var grandparentIndex: nat
    var seenKey: bool
    var overlappedBytes: nat

    constructor (level: nat, levels: seq<seq<FileMeta>>, grandparents: seq<FileMeta>,
                 maxOutputFileSize: nat, maxGrandParentOverlapBytes: nat)
      requires level + 1 < NUM_LEVELS && WellFormedLevels(levels)
      ensures Valid() && fresh(levelPtrs)
      ensures this.level == level && this.levels == levels
      ensures forall k :: Passed(k)
    {
      this.level, this.levels, this.grandparents := level, levels, grandparents;
      this.maxOutputFileSize, this.maxGrandParentOverlapBytes := maxOutputFileSize, maxGrandParentOverlapBytes;
      grandparentIndex, seenKey, overlappedBytes := 0, false, 0;
      levelPtrs := new nat[NUM_LEVELS](_ => 0);
    }

    ghost predicate Valid()
      reads this, levelPtrs
    {
      CursorInRange() && grandparentIndex <= |grandparents|
    }

    ghost predicate CursorInRange()
      reads levelPtrs
    {
      && level + 1 < NUM_LEVELS
      && WellFormedLevels(levels)
      && levelPtrs.Length == NUM_LEVELS
      && (forall lvl :: 0 <= lvl < NUM_LEVELS ==> levelPtrs[lvl] <= |levels[lvl]|)
    }

    // Every file the cursor has moved beyond ends before k.
    ghost predicate Passed(k: UserKey)
      requires CursorInRange()
      reads levelPtrs
    {
      forall lvl, i :: 0 <= lvl < NUM_LEVELS && 0 <= i < levelPtrs[lvl] ==> levels[lvl][i].largest.user < k
    }

    // Called with user keys in ascending order, the moving cursor answers as a
    // scan of every deeper file would.
    method IsBaseLevelForKey(k: UserKey) returns (r: bool)
      requires Valid() && Passed(k)
      modifies levelPtrs
      ensures Valid() && r == IsBase(levels, level, k)
      ensures forall later :: later >= k ==> Passed(later)
    {
      var lvl := level + 2;
      while lvl < NUM_LEVELS
        invariant level + 2 <= lvl
        invariant Valid() && Passed(k)
        invariant forall l, i :: level + 2 <= l < lvl && l < NUM_LEVELS && 0 <= i < |levels[l]| ==> !levels[l][i].Covers(k)
      {
        var files := levels[lvl];
        while levelPtrs[lvl] < |files|
          invariant Valid() && Passed(k)
          decreases |files| - levelPtrs[lvl]
        {
          var f := files[levelPtrs[lvl]];
          if k <= f.largest.user {
            if k >= f.smallest.user {
              return false;
            }
            CursorSettles(files, levelPtrs[lvl], k);
            break;
          }
          levelPtrs[lvl] := levelPtrs[lvl] + 1;
        }
        assert forall i :: 0 <= i < |files| ==> !files[i].Covers(k) by {
          forall i | 0 <= i < |files| ensures !files[i].Covers(k) {
            if i < levelPtrs[lvl] { assert levels[lvl][i].largest.user < k; }
          }
        }
        lvl := lvl + 1;
      }
      return true;
    }

    // Cut the output before a key that would make it overlap too many bytes of grandparents.
    method ShouldStopBefore(k: InternalKey) returns (stop: bool)
      requires Valid()
      modifies this`grandparentIndex, this`seenKey, this`overlappedBytes
      ensures Valid() && seenKey
      ensures overlappedBytes <= maxGrandParentOverlapBytes
      ensures grandparentIndex >= old(grandparentIndex)
      ensures forall i :: old(grandparentIndex) <= i < grandparentIndex ==> Less(grandparents[i].largest, k)
      ensures grandparentIndex < |grandparents| ==> !Less(grandparents[grandparentIndex].largest, k)
      ensures stop <==> old(overlappedBytes) + Crossed(old(grandparentIndex), grandparentIndex, old(seenKey)) > maxGrandParentOverlapBytes
      ensures !stop ==> overlappedBytes == old(overlappedBytes) + Crossed(old(grandparentIndex), grandparentIndex, old(seenKey))
      ensures stop ==> overlappedBytes == 0
    {
      while grandparentIndex < |grandparents| && Compare(k, grandparents[grandparentIndex].largest) > 0
        invariant Valid() && seenKey == old(seenKey)
        invariant grandparentIndex >= old(grandparentIndex)
        invariant forall i :: old(grandparentIndex) <= i < grandparentIndex ==> Less(grandparents[i].largest, k)
        invariant overlappedBytes == old(overlappedBytes) + Crossed(old(grandparentIndex), grandparentIndex, old(seenKey))
        decreases |grandparents| - grandparentIndex
      {
        if seenKey {
          overlappedBytes := overlappedBytes + grandparents[grandparentIndex].fileSize;
        }
        grandparentIndex := grandparentIndex + 1;
      }
      seenKey := true;
      if overlappedBytes > maxGrandParentOverlapBytes {
        overlappedBytes := 0;
        stop := true;
      } else {
        stop := false;
      }
    }

    ghost function Crossed(lo: nat, hi: nat, counting: bool): nat
      requires lo <= hi <= |grandparents|
    {
      if !counting || lo == hi then 0 else Crossed(lo, hi - 1, counting) + grandparents[hi - 1].fileSize
    }

    // What is counted is the bytes of the files passed, from the first key on.
    lemma {:induction false} CrossedIsSum(lo: nat, mid: nat, hi: nat)
      requires lo <= mid <= hi <= |grandparents|
      ensures Crossed(lo, hi, true) == Crossed(lo, mid, true) + Crossed(mid, hi, true)
      ensures mid < hi ==> Crossed(mid, mid + 1, true) == grandparents[mid].fileSize
      ensures Crossed(lo, hi, false) == 0
      decreases hi
    {
      if mid < hi { CrossedIsSum(lo, mid, hi - 1); }
    }

    // The drop rules for one entry, given the sequence number of the entry
    // before it if that had the same user key (the maximum otherwise).
    method ShouldDrop(input: seq<Entry>, n: nat, lastSequenceForKey: SequenceNumber,
                      smallestSnapshot: SequenceNumber)
      returns (drop: bool)
      requires Valid() && n < |input| && Sorted(input) && UniqueSeqs(Elements(input))
      requires smallestSnapshot < MAX_SEQUENCE_NUMBER
      requires n > 0 ==> Passed(input[n - 1].Key())
      requires n == 0 ==> Passed(input[n].Key())
      requires lastSequenceForKey
            == if n > 0 && input[n - 1].Key() == input[n].Key() then input[n - 1].Seq() else MAX_SEQUENCE_NUMBER
      modifies levelPtrs
      ensures Valid() && Passed(input[n].Key())
      ensures drop <==> Dropped(Elements(input), levels, level, input[n], smallestSnapshot)
    {
      var e := input[n];
      HiddenByPrevious(input, n, smallestSnapshot);
      assert Passed(e.Key()) by {
        if n > 0 { assert Less(input[n - 1].ikey, input[n].ikey); }
      }
      if lastSequenceForKey <= smallestSnapshot {
        drop := true;
      } else if e.IsDeletion() && e.Seq() <= smallestSnapshot {
        drop := IsBaseLevelForKey(e.Key());
      } else {
        drop := false;
      }
    }

    // The merge loop.  `sizeOf` is the byte size of a table holding given entries.
    method DoCompactionWork(input: seq<Entry>, smallestSnapshot: SequenceNumber, sizeOf: seq<Entry> -> nat,
                            compact: CompactionState)
      requires Valid() && Sorted(input) && UniqueSeqs(Elements(input))
      requires smallestSnapshot < MAX_SEQUENCE_NUMBER
      requires forall k :: Passed(k)
      requires compact.outputs == [] && compact.builder.None?
      modifies this, levelPtrs, compact
      ensures Valid() && compact.Valid() && compact.builder.None?
      ensures Contents(compact.outputs) == Kept(input, |input|, levels, level, smallestSnapshot)
    {
      hide Sorted, UniqueSeqs, Dropped;
      var currentUserKey: Option<UserKey> := None;
      var lastSequenceForKey: SequenceNumber := MAX_SEQUENCE_NUMBER;
      var n := 0;
      while n < |input|
        invariant 0 <= n <= |input| && Valid() && compact.Valid()
        invariant compact.Written() == Kept(input, n, levels, level, smallestSnapshot)
        invariant currentUserKey.Some? <==> n > 0
        invariant n > 0 ==> currentUserKey == Some(input[n - 1].Key()) && lastSequenceForKey == input[n - 1].Seq()
        invariant n < |input| ==> Passed(if n > 0 then input[n - 1].Key() else input[0].Key())
      {
        var e := input[n];
        var stop := ShouldStopBefore(e.ikey);
        if stop && compact.builder.Some? {
          compact.FinishCompactionOutputFile();
        }

        if currentUserKey.None? || e.Key() != currentUserKey.value {
          currentUserKey := Some(e.Key());
          lastSequenceForKey := MAX_SEQUENCE_NUMBER;
        }
        var drop := ShouldDrop(input, n, lastSequenceForKey, smallestSnapshot);
        lastSequenceForKey := e.Seq();

        if !drop {
          compact.Add(e);
          if sizeOf(compact.builder.value.entries) >= maxOutputFileSize {
            compact.FinishCompactionOutputFile();
          }
        }
        n := n + 1;
      }
      if compact.builder.Some? {
        compact.FinishCompactionOutputFile();
      }
    }
  }

  // The files written so far and the one being built.
  class CompactionState {
    var outputs: seq<OutputFile>
    var builder: Option<OutputFile>

    constructor ()
      ensures Valid() && outputs == [] && builder.None?
    {
      outputs, builder := [], None;
    }

    ghost predicate Valid()
      reads this
    {
      (forall f :: f in outputs ==> f.Tight()) && (builder.Some? ==> builder.value.Tight())
    }

    ghost function Written(): seq<Entry>
      reads this
    {
      Contents(outputs) + if builder.Some? then builder.value.entries else []
    }

    method FinishCompactionOutputFile()
      requires Valid() && builder.Some?
      modifies this
      ensures Valid() && builder.None? && Written() == old(Written())
      ensures outputs == old(outputs) + [old(builder).value]
    {
      assert (outputs + [builder.value])[..|outputs|] == outputs;
      outputs, builder := outputs + [builder.value], None;
    }

    // Open an output file if necessary, append the entry, and keep the file's bounds.
    method Add(e: Entry)
      requires Valid()
      modifies this
      ensures Valid() && builder.Some? && outputs == old(outputs)
      ensures Written() == old(Written()) + [e]
    {
      if builder.None? {
        builder := Some(OutputFile([], e.ikey, e.ikey));
      }
      var f := builder.value;
      var smallest := if f.entries == [] then e.ikey else f.smallest;
      builder := Some(OutputFile(f.entries + [e], smallest, e.ikey));
    }
  }

  // In sorted order, all newer entries of a key come before it and the nearest
  // of them is the least new, so remembering one sequence number is enough.
  lemma HiddenByPrevious(input: seq<Entry>, n: nat, smallestSnapshot: SequenceNumber)
    requires n < |input| && Sorted(input) && UniqueSeqs(Elements(input))
    ensures Hidden(Elements(input), input[n], smallestSnapshot)
       <==> n > 0 && input[n - 1].Key() == input[n].Key() && input[n - 1].Seq() <= smallestSnapshot
  {
    var all := Elements(input);
    if Hidden(all, input[n], smallestSnapshot) {
      var d :| d in all && d.Key() == input[n].Key() && d.Seq() > input[n].Seq() && d.Seq() <= smallestSnapshot;
      var j :| 0 <= j < |input| && input[j] == d;
      assert j < n;
      assert Less(input[n - 1].ikey, input[n].ikey);
      if j < n - 1 { assert Less(input[j].ikey, input[n - 1].ikey); }
    } else if n > 0 && input[n - 1].Key() == input[n].Key() {
      assert Less(input[n - 1].ikey, input[n].ikey);
      assert input[n - 1] in all && input[n] in all;
    }
  }

  lemma CursorSettles(files: seq<FileMeta>, p: nat, k: UserKey)
    requires DisjointLevel(files) && p < |files| && k < files[p].smallest.user
    ensures forall i :: p <= i < |files| ==> !files[i].Covers(k)
  {
    forall i | p < i < |files| ensures !files[i].Covers(k) {
      LevelUserKeysAscend(files, p, i);
    }
  }
}

// What readers see across a compaction.
module CompactionMeaning {
  import opened DbFormat
  import opened Files
  import opened Compactions

  lemma {:induction false} KeptPrefix(all: seq<Entry>, n: nat, levels: seq<seq<FileMeta>>, level: nat, snap: SequenceNumber)
    requires n <= |all| && |levels| == NUM_LEVELS && Sorted(all)
    ensures var r := Kept(all, n, levels, level, snap);
            && (forall e :: e in r <==> e in all[..n] && !Dropped(Elements(all), levels, level, e, snap))
            && Sorted(r)
  {
    if n > 0 {
      KeptPrefix(all, n - 1, levels, level, snap);
      var r := Kept(all, n - 1, levels, level, snap);
      assert all[..n] == all[..n - 1] + [all[n - 1]];
      forall i | 0 <= i < |r| ensures Less(r[i].ikey, all[n - 1].ikey) {
        assert r[i] in all[..n - 1];
      }
    }
  }

  // The merge loop writes, in order, exactly the entries that are not dropped.
  lemma KeptIsSurvivors(all: seq<Entry>, levels: seq<seq<FileMeta>>, level: nat, snap: SequenceNumber)
    requires |levels| == NUM_LEVELS && Sorted(all)
    ensures Elements(Kept(all, |all|, levels, level, snap)) == Survivors(Elements(all), levels, level, snap)
    ensures Sorted(Kept(all, |all|, levels, level, snap))
  {
    KeptPrefix(all, |all|, levels, level, snap);
    assert all[..|all|] == all;
  }

  // Dropping the marker d uncovers nothing: the newest entry outside the
  // compaction that every snapshot sees, if any, is newer than d or is itself a deletion.
  ghost predicate NothingUncovered(outside: set<Entry>, d: Entry, smallestSnapshot: SequenceNumber) {
    forall o :: IsNewest(outside, d.Key(), smallestSnapshot, o) ==> o.Seq() > d.Seq() || o.IsDeletion()
  }

  ghost predicate ReadsUnchanged(inputs: set<Entry>, outside: set<Entry>, kept: set<Entry>,
                                 smallestSnapshot: SequenceNumber) {
    forall k: UserKey, snap: SequenceNumber :: snap >= smallestSnapshot ==>
      Read(kept + outside, k, snap) == Read(inputs + outside, k, snap)
  }

  // The markers dropped for want of anything older, rather than by rule (A).
  ghost predicate DroppedMarker(inputs: set<Entry>, levels: seq<seq<FileMeta>>, level: nat, d: Entry,
                                smallestSnapshot: SequenceNumber)
    requires |levels| == NUM_LEVELS
  {
    d in inputs && Obsolete(levels, level, d, smallestSnapshot) && !Hidden(inputs, d, smallestSnapshot)
  }

  lemma ReadUnchanged(inputs: set<Entry>, outside: set<Entry>, levels: seq<seq<FileMeta>>, level: nat,
                      smallestSnapshot: SequenceNumber, k: UserKey, snap: SequenceNumber)
    requires |levels| == NUM_LEVELS && UniqueSeqs(inputs + outside) && snap >= smallestSnapshot
    requires forall d :: DroppedMarker(inputs, levels, level, d, smallestSnapshot)
                     ==> NothingUncovered(outside, d, smallestSnapshot)
    ensures var kept := Survivors(inputs, levels, level, smallestSnapshot);
            Read(kept + outside, k, snap) == Read(inputs + outside, k, snap)
  {
    var kept := Survivors(inputs, levels, level, smallestSnapshot);
    var before, after := inputs + outside, kept + outside;
    if HasVisible(before, k, snap) {
      NewestExists(before, k, snap);
      var n :| IsNewest(before, k, snap, n);
      if n in after {
        assert IsNewest(after, k, snap, n);
      } else {
        assert n in inputs && DroppedMarker(inputs, levels, level, n, smallestSnapshot);
        forall e | e in after && e.Key() == k && e.Seq() <= snap
          ensures e in outside && e.Seq() < n.Seq()
        {
          assert e in before;
          assert e in kept ==> !Hidden(inputs, e, smallestSnapshot);
        }
        if HasVisible(after, k, snap) {
          NewestExists(after, k, snap);
          var m :| IsNewest(after, k, snap, m);
          assert IsNewest(outside, k, smallestSnapshot, m);
        }
      }
    } else {
      assert !HasVisible(after, k, snap);
    }
  }

  // Exactly when a compaction is invisible to every present and future reader.
  lemma CompactionInvisibleIff(inputs: set<Entry>, outside: set<Entry>, levels: seq<seq<FileMeta>>, level: nat,
                               smallestSnapshot: SequenceNumber)
    requires |levels| == NUM_LEVELS && UniqueSeqs(inputs + outside)
    ensures ReadsUnchanged(inputs, outside, Survivors(inputs, levels, level, smallestSnapshot), smallestSnapshot)
       <==> forall d :: DroppedMarker(inputs, levels, level, d, smallestSnapshot)
                    ==> NothingUncovered(outside, d, smallestSnapshot)
  {
    var kept := Survivors(inputs, levels, level, smallestSnapshot);
    if forall d :: DroppedMarker(inputs, levels, level, d, smallestSnapshot)
               ==> NothingUncovered(outside, d, smallestSnapshot) {
      forall k: UserKey, snap: SequenceNumber | snap >= smallestSnapshot
        ensures Read(kept + outside, k, snap) == Read(inputs + outside, k, snap)
      {
        ReadUnchanged(inputs, outside, levels, level, smallestSnapshot, k, snap);
      }
    } else {
      var d :| DroppedMarker(inputs, levels, level, d, smallestSnapshot)
            && !NothingUncovered(outside, d, smallestSnapshot);
      var o :| IsNewest(outside, d.Key(), smallestSnapshot, o) && o.Seq() <= d.Seq() && !o.IsDeletion();
      assert o in inputs + outside && d in inputs + outside;
      assert IsNewest(inputs + outside, d.Key(), smallestSnapshot, d);
      assert IsNewest(kept + outside, d.Key(), smallestSnapshot, o);
      assert Read(kept + outside, d.Key(), smallestSnapshot) == Found(o.value);
      assert Read(inputs + outside, d.Key(), smallestSnapshot) == NotFound;
    }
  }

  // Of each user key the output has at most one entry that the smallest
  // snapshot sees.
  lemma OneVersionKept(inputs: set<Entry>, levels: seq<seq<FileMeta>>, level: nat, smallestSnapshot: SequenceNumber,
                       d: Entry, e: Entry)
    requires |levels| == NUM_LEVELS && UniqueSeqs(inputs)
    requires d in Survivors(inputs, levels, level, smallestSnapshot) && e in Survivors(inputs, levels, level, smallestSnapshot)
    requires d.Key() == e.Key() && d.Seq() <= smallestSnapshot && e.Seq() <= smallestSnapshot
    ensures d == e
  {
    assert !Hidden(inputs, d, smallestSnapshot) && !Hidden(inputs, e, smallestSnapshot);
  }

  /* What the levels hold. */

  type Tables = FileMeta -> set<Entry>

  // The metadata bounds are the first and last keys of the table.
  ghost predicate TightFile(f: FileMeta, data: Tables) {
    && (exists e :: e in data(f) && e.ikey == f.smallest)
    && (exists e :: e in data(f) && e.ikey == f.largest)
    && forall e :: e in data(f) ==> !Less(e.ikey, f.smallest) && !Less(f.largest, e.ikey)
  }

  ghost predicate Tight(files: seq<FileMeta>, data: Tables) {
    forall f :: f in files ==> TightFile(f, data)
  }

  ghost function Stored(files: seq<FileMeta>, data: Tables): set<Entry> {
    set f, e | f in files && e in data(f) :: e
  }

  // Every entry is in a table of some level from level + 2 on.
  ghost predicate HeldDeeper(deeper: set<Entry>, levels: seq<seq<FileMeta>>, level: nat, data: Tables) {
    forall e :: e in deeper ==> exists lvl :: level + 2 <= lvl < |levels| && e in Stored(levels[lvl], data)
  }

  // No marker of a key in `deeper` counts as obsolete.
  ghost predicate StoredBelow(deeper: set<Entry>, levels: seq<seq<FileMeta>>, level: nat)
    requires |levels| == NUM_LEVELS
  {
    forall e :: e in deeper ==> !IsBase(levels, level, e.Key())
  }

  // What the tables of the deeper levels hold, the scan for a base level finds.
  lemma DeeperIsStoredBelow(deeper: set<Entry>, levels: seq<seq<FileMeta>>, level: nat, data: Tables)
    requires |levels| == NUM_LEVELS && HeldDeeper(deeper, levels, level, data)
    requires forall lvl :: level + 2 <= lvl < NUM_LEVELS ==> Tight(levels[lvl], data)
    ensures StoredBelow(deeper, levels, level)
  {
    forall e | e in deeper ensures !IsBase(levels, level, e.Key()) {
      var lvl :| level + 2 <= lvl < |levels| && e in Stored(levels[lvl], data);
      var f :| f in levels[lvl] && e in data(f);
      var i :| 0 <= i < |levels[lvl]| && levels[lvl][i] == f;
      assert TightFile(f, data) && levels[lvl][i].Covers(e.Key());
    }
  }

  // The other way round: a marker every snapshot sees is kept only on account
  // of a file of one of those levels.
  lemma KeptMarkerHasFileBelow(inputs: set<Entry>, levels: seq<seq<FileMeta>>, level: nat, d: Entry,
                               smallestSnapshot: SequenceNumber)
    requires |levels| == NUM_LEVELS && d in Survivors(inputs, levels, level, smallestSnapshot)
    requires d.IsDeletion() && d.Seq() <= smallestSnapshot
    ensures exists lvl, i :: level + 2 <= lvl < NUM_LEVELS && 0 <= i < |levels[lvl]|
                          && levels[lvl][i].smallest.user <= d.Key() <= levels[lvl][i].largest.user
  {
    assert !Obsolete(levels, level, d, smallestSnapshot);
    var lvl, i :| level + 2 <= lvl < NUM_LEVELS && 0 <= i < |levels[lvl]| && levels[lvl][i].Covers(d.Key());
  }

  // Entries at or above level + 1 that stay out of the compaction are newer
  // than the inputs with their user key: no older entry of an input's user key
  // at `level` or `level + 1` was left behind.
  ghost predicate NothingOlderLeftOut(shallow: set<Entry>, inputs: set<Entry>) {
    forall o, i :: o in shallow && i in inputs && o.Key() == i.Key() ==> o.Seq() > i.Seq()
  }

  lemma CompactionPreservesReads(inputs: set<Entry>, shallow: set<Entry>, deeper: set<Entry>,
                                 levels: seq<seq<FileMeta>>, level: nat, data: Tables, smallestSnapshot: SequenceNumber)
    requires |levels| == NUM_LEVELS && UniqueSeqs(inputs + (shallow + deeper))
    requires HeldDeeper(deeper, levels, level, data)
    requires forall lvl :: level + 2 <= lvl < NUM_LEVELS ==> Tight(levels[lvl], data)
    requires NothingOlderLeftOut(shallow, inputs)
    ensures ReadsUnchanged(inputs, shallow + deeper, Survivors(inputs, levels, level, smallestSnapshot),
                           smallestSnapshot)
  {
    hide HeldDeeper, Tight;
    DeeperIsStoredBelow(deeper, levels, level, data);
    CompactionInvisibleIff(inputs, shallow + deeper, levels, level, smallestSnapshot);
  }

  // Without NothingOlderLeftOut the claim is false.  Key 1 was written at
  // sequence 5 and deleted at sequence 7; a compaction that takes the deletion
  // but leaves the older value in a level + 1 file brings the value back.
  lemma OlderEntryLeftOutResurfaces(levels: seq<seq<FileMeta>>)
    requires levels == [[], [], [], [], [], [], []]
    ensures var marker := Entry(InternalKey(1.0, 7, Deletion), "");
            var old_ := Entry(InternalKey(1.0, 5, Value), "v");
            && Read({marker} + {old_}, 1.0, 9) == NotFound
            && Read(Survivors({marker}, levels, 1, 9) + {old_}, 1.0, 9) == Found("v")
  {
    var marker := Entry(InternalKey(1.0, 7, Deletion), "");
    var old_ := Entry(InternalKey(1.0, 5, Value), "v");
    assert IsNewest({marker} + {old_}, 1.0, 9, marker);
    assert Obsolete(levels, 1, marker, 9);
    assert Survivors({marker}, levels, 1, 9) == {};
    assert IsNewest({} + {old_}, 1.0, 9, old_);
  }

  /* Snapshots (db/snapshot.h): a list in order of creation. */

  function SmallestSnapshot(snapshots: seq<SequenceNumber>, lastSequence: SequenceNumber): SequenceNumber {
    if snapshots == [] then lastSequence else snapshots[0]
  }

  // The oldest snapshot held, or the last sequence number if none is.
  lemma SmallestIsSmallest(snapshots: seq<SequenceNumber>, lastSequence: SequenceNumber)
    requires SnapshotList(snapshots, lastSequence)
    ensures var s := SmallestSnapshot(snapshots, lastSequence);
      && s <= lastSequence && (forall x :: x in snapshots ==> s <= x)
      && if snapshots == [] then s == lastSequence else s in snapshots
  {
  }

  // Live snapshots in creation order, none newer than the last sequence.
  ghost predicate SnapshotList(snapshots: seq<SequenceNumber>, lastSequence: SequenceNumber) {
    && (forall i :: 0 <= i < |snapshots| ==> snapshots[i] <= lastSequence)
    && (forall i, j :: 0 <= i < j < |snapshots| ==> snapshots[i] <= snapshots[j])
  }

  // No reader holding a live snapshot, or reading at the last sequence or any
  // later one, can tell that the merge loop replaced its input by its output.
  lemma LiveReadersUnaffected(input: seq<Entry>, shallow: set<Entry>, deeper: set<Entry>,
                              levels: seq<seq<FileMeta>>, level: nat, data: Tables,
                              snapshots: seq<SequenceNumber>, lastSequence: SequenceNumber,
                              k: UserKey, snap: SequenceNumber)
    requires |levels| == NUM_LEVELS && Sorted(input) && UniqueSeqs(Elements(input) + (shallow + deeper))
    requires HeldDeeper(deeper, levels, level, data) && NothingOlderLeftOut(shallow, Elements(input))
    requires forall lvl :: level + 2 <= lvl < NUM_LEVELS ==> Tight(levels[lvl], data)
    requires SnapshotList(snapshots, lastSequence)
    requires snap in snapshots || snap >= lastSequence
    ensures Read(Elements(Kept(input, |input|, levels, level, SmallestSnapshot(snapshots, lastSequence)))
                 + (shallow + deeper), k, snap)
         == Read(Elements(input) + (shallow + deeper), k, snap)
  {
    var smallest := SmallestSnapshot(snapshots, lastSequence);
    KeptIsSurvivors(input, levels, level, smallest);
    CompactionPreservesReads(Elements(input), shallow, deeper, levels, level, data, smallest);
    assert snap >= smallest;
  }
}
