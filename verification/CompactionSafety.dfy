// When the inputs that SetupOtherInputs gathers make a compaction that readers
// cannot notice, and a case in which they do not (db/version_set.cc:1403-1480).

module CompactionSafety {
  import opened Wrappers
  import opened DbFormat
  import opened Files
  import opened Compactions
  import opened CompactionMeaning
  import opened CompactionInputs

  // The entries of a level's files that a compaction leaves alone.
  ghost function LeftOut(files: seq<FileMeta>, inputs: seq<FileMeta>, data: Tables): set<Entry> {
    set f, e | f in files && f !in inputs && e in data(f) :: e
  }

  // The last of the inputs is not continued by a file that was left out.
  ghost predicate EndsClean(files: seq<FileMeta>, inputs: seq<FileMeta>) {
    forall k :: IsLargest(inputs, k) ==> NoneContinues(files, k)
  }

  // In a sorted level, a run leaves nothing older behind exactly when no file
  // continues its last user key.
  lemma RunIsSafeIff(files: seq<FileMeta>, a: nat, b: nat, inputs: seq<FileMeta>, data: Tables)
    requires DisjointLevel(files) && Tight(files, data) && UniqueSeqs(Stored(files, data)) && IsRun(files, a, b, inputs)
    ensures NothingOlderLeftOut(LeftOut(files, inputs, data), Stored(inputs, data)) <==> EndsClean(files, inputs)
  {
    hide DisjointLevel, Tight, TightFile, UniqueSeqs, Less, Continues, IsLargest;
    if a < b {
      RunLargest(files, a, b);
      LargestIsUnique(inputs, files[b - 1].largest);
      if EndsClean(files, inputs) {
        forall o, i | o in LeftOut(files, inputs, data) && i in Stored(inputs, data) && o.Key() == i.Key()
          ensures o.Seq() > i.Seq()
        {
          LeftOutIsNewer(files, a, b, data, o, i);
        }
      } else {
        OlderIsLeftOut(files, a, b, data);
      }
    } else {
      assert inputs == [] && Stored(inputs, data) == {};
      NoLargest();
    }
  }

  lemma NoLargest()
    ensures forall k :: !IsLargest([], k)
  {
  }

  lemma LeftOutIsNewer(files: seq<FileMeta>, a: nat, b: nat, data: Tables, o: Entry, i: Entry)
    requires DisjointLevel(files) && Tight(files, data) && UniqueSeqs(Stored(files, data)) && a < b <= |files|
    requires NoneContinues(files, files[b - 1].largest)
    requires o in LeftOut(files, files[a..b], data) && i in Stored(files[a..b], data) && o.Key() == i.Key()
    ensures o.Seq() > i.Seq()
  {
    hide DisjointLevel, Tight, UniqueSeqs;
    var f :| f in files && f !in files[a..b] && o in data(f);
    var j :| 0 <= j < |files| && files[j] == f;
    var g :| g in files[a..b] && i in data(g);
    var m :| 0 <= m < |files[a..b]| && files[a..b][m] == g;
    assert files[a + m] == g;
    RunHolds(files, a, b, j);
    EarlierIsNewer(files, data, j, a + m, o, i);
    LaterMustContinue(files, data, a + m, b, j, i, o);
  }

  // In a sorted level, entries of one user key get older from file to file.
  lemma EarlierIsNewer(files: seq<FileMeta>, data: Tables, j: nat, m: nat, o: Entry, i: Entry)
    requires DisjointLevel(files) && Tight(files, data) && UniqueSeqs(Stored(files, data))
    requires j < |files| && m < |files| && o in data(files[j]) && i in data(files[m]) && o.Key() == i.Key()
    ensures j < m ==> o.Seq() > i.Seq()
  {
    assert TightFile(files[j], data) && TightFile(files[m], data);
    assert o in Stored(files, data) && i in Stored(files, data);
    if j < m {
      assert Less(files[j].largest, files[m].smallest);
    }
  }

  lemma LaterMustContinue(files: seq<FileMeta>, data: Tables, m: nat, b: nat, j: nat, i: Entry, o: Entry)
    requires DisjointLevel(files) && Tight(files, data)
    requires m < b <= |files| && j < |files| && i in data(files[m]) && o in data(files[j]) && o.Key() == i.Key()
    ensures j >= b ==> Continues(files[j], files[b - 1].largest)
  {
    assert TightFile(files[m], data) && TightFile(files[j], data);
    if j >= b {
      assert m < b - 1 ==> files[m].largest.user <= files[b - 1].largest.user by {
        if m < b - 1 { LevelUserKeysAscend(files, m, b - 1); }
      }
      LevelUserKeysAscend(files, b - 1, j);
      assert Less(files[b - 1].largest, files[j].smallest);
    }
  }

  // A file that continues the run holds an older entry of the run's last key.
  lemma OlderIsLeftOut(files: seq<FileMeta>, a: nat, b: nat, data: Tables)
    requires DisjointLevel(files) && Tight(files, data) && UniqueSeqs(Stored(files, data)) && a < b <= |files|
    requires !NoneContinues(files, files[b - 1].largest)
    ensures !NothingOlderLeftOut(LeftOut(files, files[a..b], data), Stored(files[a..b], data))
  {
    hide DisjointLevel, Tight, TightFile, UniqueSeqs, Less, IsLargest;
    var last := files[b - 1];
    var f :| f in files && Continues(f, last.largest);
    RunLargest(files, a, b);
    RunHolds(files, a, b, b - 1);
    TightAt(files, data, last);
    TightAt(files, data, f);
    var i, o := LastAndFirst(last, f, data);
    assert i in Stored(files, data) && o in Stored(files, data);
    ContinuationIsOlder(files[a..b], last, f, data, i, o);
    assert i in Stored(files[a..b], data) && o in LeftOut(files, files[a..b], data);
    OlderEntry(Stored(files, data), i, o);
  }

  lemma RunHolds(files: seq<FileMeta>, a: nat, b: nat, j: nat)
    requires a <= b <= |files| && j < |files|
    ensures a <= j < b ==> files[j] in files[a..b]
  {
    if a <= j < b { assert files[a..b][j - a] == files[j]; }
  }

  lemma TightAt(files: seq<FileMeta>, data: Tables, f: FileMeta)
    requires Tight(files, data) && f in files
    ensures TightFile(f, data)
  {
  }

  lemma LastAndFirst(last: FileMeta, f: FileMeta, data: Tables) returns (i: Entry, o: Entry)
    requires TightFile(last, data) && TightFile(f, data)
    ensures i in data(last) && i.ikey == last.largest && o in data(f) && o.ikey == f.smallest
  {
    i :| i in data(last) && i.ikey == last.largest;
    o :| o in data(f) && o.ikey == f.smallest;
  }

  lemma ContinuationIsOlder(run: seq<FileMeta>, last: FileMeta, f: FileMeta, data: Tables, i: Entry, o: Entry)
    requires IsLargest(run, last.largest) && TightFile(f, data) && Continues(f, last.largest)
    requires i.ikey == last.largest && o in data(f) && o.ikey == f.smallest
    ensures f !in run && o.Key() == i.Key() && Less(i.ikey, o.ikey)
  {
    assert !Less(f.largest, o.ikey);
  }

  lemma OlderEntry(all: set<Entry>, i: Entry, o: Entry)
    requires UniqueSeqs(all) && i in all && o in all && i.Key() == o.Key() && Less(i.ikey, o.ikey)
    ensures o.Seq() < i.Seq()
  {
  }

  /* The inputs SetupOtherInputs gathers. */

  lemma SeedLeavesNothingOlder(levels: seq<seq<FileMeta>>, level: nat, inputs: seq<FileMeta>, data: Tables)
    requires WellFormedLevels(levels) && level < NUM_LEVELS && Seeded(levels[level], level, inputs)
    requires EndsClean(levels[level], inputs)
    requires Tight(levels[level], data) && UniqueSeqs(Stored(levels[level], data))
    ensures NothingOlderLeftOut(LeftOut(levels[level], inputs, data), Stored(inputs, data))
  {
    var files := levels[level];
    if level > 0 {
      var a: nat, b: nat :| IsRun(files, a, b, inputs);
      RunIsSafeIff(files, a, b, inputs, data);
    } else {
      var lo, hi :| Closed(files, lo, hi) && inputs == Overlapping(files, lo, hi);
      forall o, i | o in LeftOut(files, inputs, data) && i in Stored(inputs, data) ensures o.Key() != i.Key() {
        ClosedKeepsKeysTogether(files, lo, hi, data, o, i);
      }
    }
  }

  lemma ClosedKeepsKeysTogether(files: seq<FileMeta>, lo: Option<UserKey>, hi: Option<UserKey>, data: Tables, o: Entry, i: Entry)
    requires Closed(files, lo, hi) && Tight(files, data)
    requires o in LeftOut(files, Overlapping(files, lo, hi), data) && i in Stored(Overlapping(files, lo, hi), data)
    ensures o.Key() != i.Key()
  {
    var f :| f in files && f !in Overlapping(files, lo, hi) && o in data(f);
    var g :| g in Overlapping(files, lo, hi) && i in data(g);
    assert TightFile(f, data) && TightFile(g, data) && !StartsBefore(g, lo) && !EndsAfter(g, hi);
  }

  // Every file one level down that may hold a key of the upper inputs is an input.
  lemma LowerCoversUpper(lower: seq<FileMeta>, inputs0: seq<FileMeta>, inputs1: seq<FileMeta>,
                         s: InternalKey, l: InternalKey, data: Tables)
    requires IsRange(inputs0, s, l) && inputs1 == Overlapping(lower, Some(s.user), Some(l.user))
    requires Tight(lower, data) && Tight(inputs0, data)
    ensures NothingOlderLeftOut(LeftOut(lower, inputs1, data), Stored(inputs0, data))
  {
    hide TightFile, Tight;
    forall o, i | o in LeftOut(lower, inputs1, data) && i in Stored(inputs0, data) ensures o.Key() != i.Key() {
      var f :| f in lower && f !in inputs1 && o in data(f);
      var g :| g in inputs0 && i in data(g);
      TightAt(lower, data, f);
      TightAt(inputs0, data, g);
      HeldInRange(f, data, o);
      HeldInRange(g, data, i);
    }
  }

  lemma HeldInRange(f: FileMeta, data: Tables, e: Entry)
    requires TightFile(f, data) && e in data(f)
    ensures f.smallest.user <= e.Key() <= f.largest.user
  {
  }

  // SetupOtherInputs looks for boundary files at `level` only.  What it gathers
  // leaves no older entry of an input's key behind exactly when no level + 1
  // file continues the last user key of the level + 1 inputs: when a call of
  // AddBoundaryInputs for them, too, would have added nothing.
  lemma GatheredIsSafeIff(levels: seq<seq<FileMeta>>, level: nat, inputs0: seq<FileMeta>, inputs1: seq<FileMeta>,
                          newer: set<Entry>, data: Tables)
    requires WellFormedLevels(levels) && level + 1 < NUM_LEVELS && Gathered(levels, level, inputs0, inputs1)
    requires Tight(levels[level], data) && UniqueSeqs(Stored(levels[level], data))
    requires Tight(levels[level + 1], data) && UniqueSeqs(Stored(levels[level + 1], data))
    requires NewerThan(Stored(levels[level], data), Stored(levels[level + 1], data))
    requires NewerThan(newer, Stored(levels[level], data) + Stored(levels[level + 1], data))
    ensures NothingOlderLeftOut(newer + LeftOut(levels[level], inputs0, data) + LeftOut(levels[level + 1], inputs1, data),
                                Stored(inputs0, data) + Stored(inputs1, data))
       <==> EndsClean(levels[level + 1], inputs1)
  {
    hide Tight, UniqueSeqs, EndsClean, IsRange, IsRun, DisjointLevel, LevelOk, Overlapping, Seeded, NothingOlderLeftOut, NewerThan, Stored, LeftOut;
    var upper, lower := levels[level], levels[level + 1];
    WellFormedAt(levels, level);
    WellFormedAt(levels, level + 1);
    SeedIsSome(upper, level, inputs0);
    SubsetIsTight(upper, inputs0, data);
    CleanAbove(upper, inputs0);
    SeedLeavesNothingOlder(levels, level, inputs0, data);
    var s, l :| IsRange(inputs0, s, l) && inputs1 == Overlapping(lower, Some(s.user), Some(l.user));
    LowerCoversUpper(lower, inputs0, inputs1, s, l, data);
    var a, b := OverlappingIsRun(lower, Some(s.user), Some(l.user));
    RunIsSafeIff(lower, a, b, inputs1, data);
    Combine(upper, lower, inputs0, inputs1, newer, data);
  }

  lemma CleanAbove(files: seq<FileMeta>, inputs: seq<FileMeta>)
    requires forall k :: IsLargest(inputs, k) ==> NoneContinues(files, k)
    ensures EndsClean(files, inputs)
  {
  }

  lemma SubsetIsTight(files: seq<FileMeta>, inputs: seq<FileMeta>, data: Tables)
    requires Tight(files, data) && forall f :: f in inputs ==> f in files
    ensures Tight(inputs, data) && Stored(inputs, data) <= Stored(files, data)
  {
  }

  lemma Combine(upper: seq<FileMeta>, lower: seq<FileMeta>, inputs0: seq<FileMeta>, inputs1: seq<FileMeta>,
                newer: set<Entry>, data: Tables)
    requires (forall f :: f in inputs0 ==> f in upper) && (forall f :: f in inputs1 ==> f in lower)
    requires NewerThan(Stored(upper, data), Stored(lower, data))
    requires NewerThan(newer, Stored(upper, data) + Stored(lower, data))
    requires NothingOlderLeftOut(LeftOut(upper, inputs0, data), Stored(inputs0, data))
    requires NothingOlderLeftOut(LeftOut(lower, inputs1, data), Stored(inputs0, data))
    ensures NothingOlderLeftOut(newer + LeftOut(upper, inputs0, data) + LeftOut(lower, inputs1, data),
                                Stored(inputs0, data) + Stored(inputs1, data))
       <==> NothingOlderLeftOut(LeftOut(lower, inputs1, data), Stored(inputs1, data))
  {
    assert Stored(inputs0, data) <= Stored(upper, data) && Stored(inputs1, data) <= Stored(lower, data);
    assert LeftOut(upper, inputs0, data) <= Stored(upper, data);
  }

  // With nothing continuing the level + 1 inputs, no reader can tell that the
  // compaction of the gathered inputs took place.
  lemma GatheredCompactionInvisible(levels: seq<seq<FileMeta>>, level: nat, inputs0: seq<FileMeta>, inputs1: seq<FileMeta>,
                                    newer: set<Entry>, deeper: set<Entry>, data: Tables, smallestSnapshot: SequenceNumber)
    requires WellFormedLevels(levels) && level + 1 < NUM_LEVELS && Gathered(levels, level, inputs0, inputs1)
    requires Tight(levels[level], data) && Tight(levels[level + 1], data)
    requires UniqueSeqs(newer + Stored(levels[level], data) + Stored(levels[level + 1], data) + deeper)
    requires NewerThan(Stored(levels[level], data), Stored(levels[level + 1], data))
    requires NewerThan(newer, Stored(levels[level], data) + Stored(levels[level + 1], data))
    requires HeldDeeper(deeper, levels, level, data) && EndsClean(levels[level + 1], inputs1)
    requires forall lvl :: level + 2 <= lvl < NUM_LEVELS ==> Tight(levels[lvl], data)
    ensures var inputs := Stored(inputs0, data) + Stored(inputs1, data);
      var outside := newer + LeftOut(levels[level], inputs0, data) + LeftOut(levels[level + 1], inputs1, data) + deeper;
      ReadsUnchanged(inputs, outside, Survivors(inputs, levels, level, smallestSnapshot), smallestSnapshot)
  {
    hide Tight, EndsClean, DisjointLevel, HeldDeeper, NewerThan, ReadsUnchanged, Survivors, NothingOlderLeftOut, Gathered;
    var upper, lower := levels[level], levels[level + 1];
    var inputs := Stored(inputs0, data) + Stored(inputs1, data);
    var shallow := newer + LeftOut(upper, inputs0, data) + LeftOut(lower, inputs1, data);
    GatheredAreFiles(levels, level, inputs0, inputs1);
    GatheredIsSafeIff(levels, level, inputs0, inputs1, newer, data);
    assert inputs + (shallow + deeper) <= newer + Stored(upper, data) + Stored(lower, data) + deeper;
    CompactionPreservesReads(inputs, shallow, deeper, levels, level, data, smallestSnapshot);
  }

  lemma GatheredAreFiles(levels: seq<seq<FileMeta>>, level: nat, inputs0: seq<FileMeta>, inputs1: seq<FileMeta>)
    requires WellFormedLevels(levels) && level + 1 < NUM_LEVELS && Gathered(levels, level, inputs0, inputs1)
    ensures forall f :: f in inputs0 ==> f in levels[level]
    ensures forall f :: f in inputs1 ==> f in levels[level + 1]
  {
    WellFormedAt(levels, level);
    SeedIsSome(levels[level], level, inputs0);
  }

  /* The version as a whole. */

  ghost function AllStored(levels: seq<seq<FileMeta>>, data: Tables): set<Entry> {
    set lvl, f, e | 0 <= lvl < |levels| && f in levels[lvl] && e in data(f) :: e
  }

  // What is stored in files other than the inputs.
  ghost function Untouched(levels: seq<seq<FileMeta>>, level: nat, inputs0: seq<FileMeta>, inputs1: seq<FileMeta>,
                           data: Tables): set<Entry>
  {
    set lvl, f, e | 0 <= lvl < |levels| && f in levels[lvl] && e in data(f)
                  && !(lvl == level && f in inputs0) && !(lvl == level + 1 && f in inputs1) :: e
  }

  ghost predicate VersionOk(levels: seq<seq<FileMeta>>, mem: set<Entry>, data: Tables) {
    && |levels| == NUM_LEVELS && WellFormedLevels(levels)
    && (forall lvl :: 0 <= lvl < NUM_LEVELS ==> Tight(levels[lvl], data))
    && (forall a, b :: 0 <= a < b < NUM_LEVELS ==> NewerThan(Stored(levels[a], data), Stored(levels[b], data)))
    && NewerThan(mem, AllStored(levels, data))
    && UniqueSeqs(mem + AllStored(levels, data))
  }

  // The stored entries above and below the two levels of the compaction.
  ghost function Above(levels: seq<seq<FileMeta>>, level: nat, data: Tables): set<Entry> {
    set lvl, e | 0 <= lvl < |levels| && lvl < level && e in Stored(levels[lvl], data) :: e
  }

  ghost function Below(levels: seq<seq<FileMeta>>, level: nat, data: Tables): set<Entry> {
    set lvl, e | level + 2 <= lvl < |levels| && e in Stored(levels[lvl], data) :: e
  }

  lemma PartsOfVersion(levels: seq<seq<FileMeta>>, level: nat, inputs0: seq<FileMeta>, inputs1: seq<FileMeta>, data: Tables)
    requires level + 1 < |levels|
    requires (forall f :: f in inputs0 ==> f in levels[level]) && (forall f :: f in inputs1 ==> f in levels[level + 1])
    ensures AllStored(levels, data)
         == Above(levels, level, data) + Stored(levels[level], data) + Stored(levels[level + 1], data) + Below(levels, level, data)
    ensures Untouched(levels, level, inputs0, inputs1, data)
         == Above(levels, level, data) + LeftOut(levels[level], inputs0, data) + LeftOut(levels[level + 1], inputs1, data)
          + Below(levels, level, data)
    ensures AllStored(levels, data) == Stored(inputs0, data) + Stored(inputs1, data) + Untouched(levels, level, inputs0, inputs1, data)
  {
    var all, rest := AllStored(levels, data), Untouched(levels, level, inputs0, inputs1, data);
    var above, below := Above(levels, level, data), Below(levels, level, data);
    var upper, lower := levels[level], levels[level + 1];
    forall e | e in all ensures e in above + Stored(upper, data) + Stored(lower, data) + below {
      var lvl, f :| 0 <= lvl < |levels| && f in levels[lvl] && e in data(f);
      assert e in Stored(levels[lvl], data);
      assert lvl < level || lvl == level || lvl == level + 1 || lvl >= level + 2;
    }
    forall e | e in rest ensures e in above + LeftOut(upper, inputs0, data) + LeftOut(lower, inputs1, data) + below {
      var lvl, f :| 0 <= lvl < |levels| && f in levels[lvl] && e in data(f)
                  && !(lvl == level && f in inputs0) && !(lvl == level + 1 && f in inputs1);
      assert e in Stored(levels[lvl], data);
      assert lvl < level || lvl == level || lvl == level + 1 || lvl >= level + 2;
    }
    forall e | e in above + below ensures e in all && e in rest {
      var lvl :| 0 <= lvl < |levels| && (lvl < level || lvl >= level + 2) && e in Stored(levels[lvl], data);
      var f :| f in levels[lvl] && e in data(f);
    }
    StoredSplits(upper, inputs0, data);
    StoredSplits(lower, inputs1, data);
  }

  lemma StoredSplits(files: seq<FileMeta>, inputs: seq<FileMeta>, data: Tables)
    requires forall f :: f in inputs ==> f in files
    ensures Stored(files, data) == Stored(inputs, data) + LeftOut(files, inputs, data)
  {
  }

  // A version's reads, over memtable and all seven levels, are the same after
  // the output of the merge loop has replaced the gathered inputs.
  lemma VersionReadsUnchanged(levels: seq<seq<FileMeta>>, level: nat, inputs0: seq<FileMeta>, inputs1: seq<FileMeta>,
                              mem: set<Entry>, data: Tables, input: seq<Entry>, smallestSnapshot: SequenceNumber,
                              k: UserKey, snap: SequenceNumber)
    requires VersionOk(levels, mem, data) && level + 1 < NUM_LEVELS && Gathered(levels, level, inputs0, inputs1)
    requires EndsClean(levels[level + 1], inputs1)
    requires Sorted(input) && Elements(input) == Stored(inputs0, data) + Stored(inputs1, data)
    requires snap >= smallestSnapshot
    ensures Read(mem + Untouched(levels, level, inputs0, inputs1, data)
                 + Elements(Kept(input, |input|, levels, level, smallestSnapshot)), k, snap)
         == Read(mem + AllStored(levels, data), k, snap)
  {
    hide Tight, EndsClean, WellFormedLevels, NewerThan, UniqueSeqs, Survivors, Kept, Gathered, Sorted, Stored, LeftOut, Above, Below, AllStored, Untouched, Read;
    GatheredAreFiles(levels, level, inputs0, inputs1);
    PartsOfVersion(levels, level, inputs0, inputs1, data);
    KeptIsSurvivors(input, levels, level, smallestSnapshot);
    var newer, deeper := mem + Above(levels, level, data), Below(levels, level, data);
    var upper, lower := Stored(levels[level], data), Stored(levels[level + 1], data);
    AboveIsNewer(levels, level, mem, data);
    BelowIsHeld(levels, level, data);
    assert newer + upper + lower + deeper == mem + AllStored(levels, data);
    GatheredCompactionInvisible(levels, level, inputs0, inputs1, newer, deeper, data, smallestSnapshot);
    var outside := newer + LeftOut(levels[level], inputs0, data) + LeftOut(levels[level + 1], inputs1, data) + deeper;
    var kept := Elements(Kept(input, |input|, levels, level, smallestSnapshot));
    assert outside == mem + Untouched(levels, level, inputs0, inputs1, data);
    assert mem + Untouched(levels, level, inputs0, inputs1, data) + kept == kept + outside;
    assert mem + AllStored(levels, data) == Elements(input) + outside;
  }

  lemma AboveIsNewer(levels: seq<seq<FileMeta>>, level: nat, mem: set<Entry>, data: Tables)
    requires VersionOk(levels, mem, data) && level + 1 < NUM_LEVELS
    ensures NewerThan(mem + Above(levels, level, data), Stored(levels[level], data) + Stored(levels[level + 1], data))
  {
    hide Tight, WellFormedLevels, UniqueSeqs, Stored, AllStored;
    var lower := Stored(levels[level], data) + Stored(levels[level + 1], data);
    assert lower <= AllStored(levels, data) by { PartsOfVersion(levels, level, [], [], data); }
    forall n, o | n in Above(levels, level, data) && o in lower && n.Key() == o.Key() ensures n.Seq() > o.Seq() {
      var lvl :| 0 <= lvl < level && n in Stored(levels[lvl], data);
      assert NewerThan(Stored(levels[lvl], data), Stored(levels[level], data));
      assert NewerThan(Stored(levels[lvl], data), Stored(levels[level + 1], data));
    }
  }

  lemma BelowIsHeld(levels: seq<seq<FileMeta>>, level: nat, data: Tables)
    ensures HeldDeeper(Below(levels, level, data), levels, level, data)
  {
  }

  /* Where the condition fails: level + 1 splits user key 3 over two files, and
     the compaction of the level-1 file reaches only the first. */

  const FILE_1 := FileMeta(1, 10, InternalKey(1.0, 9, Value), InternalKey(2.0, 8, Value))
  const FILE_2 := FileMeta(2, 10, InternalKey(2.0, 6, Value), InternalKey(3.0, 5, Deletion))
  const FILE_3 := FileMeta(3, 10, InternalKey(3.0, 4, Value), InternalKey(4.0, 3, Value))
  const SPLIT_LEVELS := [[], [FILE_1], [FILE_2, FILE_3], [], [], [], []]

  ghost function SplitData(f: FileMeta): set<Entry> {
    {Entry(f.smallest, "first"), Entry(f.largest, "last")}
  }

  lemma SplitLevelsAreGathered()
    ensures WellFormedLevels(SPLIT_LEVELS) && Gathered(SPLIT_LEVELS, 1, [FILE_1], [FILE_2])
    ensures !EndsClean(SPLIT_LEVELS[2], [FILE_2])
  {
    assert SPLIT_LEVELS[1][0..1] == [FILE_1] && IsRun(SPLIT_LEVELS[1], 0, 1, [FILE_1]);
    assert FILE_1 in [FILE_1] && FILE_2 in [FILE_2] && FILE_3 in SPLIT_LEVELS[2];
    assert IsRange([FILE_1], FILE_1.smallest, FILE_1.largest);
    assert [FILE_2, FILE_3][..1] == [FILE_2] && [FILE_2][..0] == [];
    assert Overlapping([FILE_2], Some(1.0), Some(2.0)) == [FILE_2];
    assert Overlapping([FILE_2, FILE_3], Some(1.0), Some(2.0)) == [FILE_2];
    assert IsLargest([FILE_2], FILE_2.largest) && Continues(FILE_3, FILE_2.largest);
  }

  lemma SplitFileIsTight(f: FileMeta)
    requires Less(f.smallest, f.largest)
    ensures TightFile(f, SplitData)
  {
    assert Entry(f.smallest, "first") in SplitData(f) && Entry(f.largest, "last") in SplitData(f);
  }

  // The deletion of key 3 is compacted away and the value it hid comes back.
  lemma BoundaryFileLeftOutResurfaces()
    ensures Tight(SPLIT_LEVELS[1], SplitData) && Tight(SPLIT_LEVELS[2], SplitData)
    ensures var inputs, outside := SplitData(FILE_1) + SplitData(FILE_2), SplitData(FILE_3);
      && Read(inputs + outside, 3.0, 9) == NotFound
      && Read(Survivors(inputs, SPLIT_LEVELS, 1, 9) + outside, 3.0, 9) == Found("first")
  {
    hide TightFile, Survivors, Dropped, Read;
    var inputs, outside := SplitData(FILE_1) + SplitData(FILE_2), SplitData(FILE_3);
    SplitFileIsTight(FILE_1);
    SplitFileIsTight(FILE_2);
    SplitFileIsTight(FILE_3);
    var marker, old_ := Entry(FILE_2.largest, "last"), Entry(FILE_3.smallest, "first");
    assert IsNewest(inputs + outside, 3.0, 9, marker);
    ReadIsNewest(inputs + outside, 3.0, 9, marker);
    MarkerIsDropped(inputs, marker);
    var kept := Survivors(inputs, SPLIT_LEVELS, 1, 9);
    assert kept <= inputs;
    assert IsNewest(kept + outside, 3.0, 9, old_);
    ReadIsNewest(kept + outside, 3.0, 9, old_);
  }

  lemma MarkerIsDropped(inputs: set<Entry>, marker: Entry)
    requires marker.IsDeletion() && marker.Seq() <= 9
    ensures marker !in Survivors(inputs, SPLIT_LEVELS, 1, 9) && Survivors(inputs, SPLIT_LEVELS, 1, 9) <= inputs
  {
    assert Obsolete(SPLIT_LEVELS, 1, marker, 9);
  }
}
