// How the inputs of a compaction are gathered (db/version_set.cc): the files
// that overlap a range, and the boundary files that continue a user key.

module CompactionInputs {
  import opened Wrappers
  import opened DbFormat
  import opened Files

  /* User-key ranges; None is open to that side. */

  predicate Overlaps(f: FileMeta, lo: Option<UserKey>, hi: Option<UserKey>) {
    && !(lo.Some? && f.largest.user < lo.value)
    && !(hi.Some? && f.smallest.user > hi.value)
  }

  predicate StartsBefore(f: FileMeta, lo: Option<UserKey>) {
    lo.Some? && f.smallest.user < lo.value
  }

  predicate EndsAfter(f: FileMeta, hi: Option<UserKey>) {
    hi.Some? && f.largest.user > hi.value
  }

  ghost function EarlyStarts(files: seq<FileMeta>, lo: Option<UserKey>): set<FileMeta> {
    set f | f in files && StartsBefore(f, lo)
  }

  ghost function LateEnds(files: seq<FileMeta>, hi: Option<UserKey>): set<FileMeta> {
    set f | f in files && EndsAfter(f, hi)
  }

  ghost function Beyond(files: seq<FileMeta>, k: InternalKey): set<FileMeta> {
    set f | f in files && Less(k, f.smallest)
  }

  // The files that overlap a range, in file order.
  function Overlapping(files: seq<FileMeta>, lo: Option<UserKey>, hi: Option<UserKey>): (r: seq<FileMeta>)
    ensures forall f :: f in r <==> f in files && Overlaps(f, lo, hi)
  {
    if files == [] then []
    else
      var r, f := Overlapping(files[..|files| - 1], lo, hi), files[|files| - 1];
      if Overlaps(f, lo, hi) then r + [f] else r
  }

  // No file reaches across an end of the range.
  ghost predicate Closed(files: seq<FileMeta>, lo: Option<UserKey>, hi: Option<UserKey>) {
    forall f :: f in files && Overlaps(f, lo, hi) ==> !StartsBefore(f, lo) && !EndsAfter(f, hi)
  }

  ghost predicate Encloses(lo: Option<UserKey>, hi: Option<UserKey>, lo': Option<UserKey>, hi': Option<UserKey>) {
    && (lo.Some? ==> lo'.Some? && lo.value <= lo'.value)
    && (hi.Some? ==> hi'.Some? && hi'.value <= hi.value)
  }

  // Every closed range around the first encloses the second.
  ghost predicate Forced(files: seq<FileMeta>, begin: Option<UserKey>, end: Option<UserKey>,
                         lo: Option<UserKey>, hi: Option<UserKey>) {
    forall l: Option<UserKey>, h: Option<UserKey> ::
      Closed(files, l, h) && Encloses(l, h, begin, end) ==> Encloses(l, h, lo, hi)
  }

  // Version::GetOverlappingInputs.  At level 0 the range grows to the least
  // one that is closed.
  method GetOverlappingInputs(files: seq<FileMeta>, level: nat, begin: Option<UserKey>, end: Option<UserKey>)
    returns (inputs: seq<FileMeta>, ghost lo: Option<UserKey>, ghost hi: Option<UserKey>)
    ensures inputs == Overlapping(files, lo, hi) && Encloses(lo, hi, begin, end)
    ensures level > 0 ==> lo == begin && hi == end
    ensures level == 0 ==> Closed(files, lo, hi) && Forced(files, begin, end, lo, hi)
  {
    var userBegin, userEnd := begin, end;
    inputs := [];
    var i := 0;
    while i < |files|
      invariant 0 <= i <= |files| && inputs == Overlapping(files[..i], userBegin, userEnd)
      invariant Encloses(userBegin, userEnd, begin, end)
      invariant level > 0 ==> userBegin == begin && userEnd == end
      invariant level == 0 ==> Closed(files[..i], userBegin, userEnd) && Forced(files, begin, end, userBegin, userEnd)
      decreases EarlyStarts(files, userBegin), LateEnds(files, userEnd), |files| - i
    {
      var f := files[i];
      i := i + 1;
      assert files[..i][..i - 1] == files[..i - 1];
      var fileStart, fileLimit := f.smallest.user, f.largest.user;
      if userBegin.Some? && fileLimit < userBegin.value {
        // completely before the range
      } else if userEnd.Some? && fileStart > userEnd.value {
        // completely after the range
      } else {
        inputs := inputs + [f];
        if level == 0 {
          if userBegin.Some? && fileStart < userBegin.value {
            Outgrown(files, f, userBegin);
            userBegin := Some(fileStart);
            inputs := [];
            i := 0;
          } else if userEnd.Some? && fileLimit > userEnd.value {
            OutgrownAtEnd(files, f, userEnd);
            userEnd := Some(fileLimit);
            inputs := [];
            i := 0;
          }
        }
      }
    }
    assert files[..i] == files;
    lo, hi := userBegin, userEnd;
  }

  // Widening the range to a file's start leaves fewer files that start before it.
  lemma Outgrown(files: seq<FileMeta>, f: FileMeta, lo: Option<UserKey>)
    requires f in files && StartsBefore(f, lo)
    ensures EarlyStarts(files, Some(f.smallest.user)) < EarlyStarts(files, lo)
  {
    assert f in EarlyStarts(files, lo) && f !in EarlyStarts(files, Some(f.smallest.user));
  }

  lemma OutgrownAtEnd(files: seq<FileMeta>, f: FileMeta, hi: Option<UserKey>)
    requires f in files && EndsAfter(f, hi)
    ensures LateEnds(files, Some(f.largest.user)) < LateEnds(files, hi)
  {
    assert f in LateEnds(files, hi) && f !in LateEnds(files, Some(f.largest.user));
  }

  /* Boundary files. */

  ghost predicate IsLargest(files: seq<FileMeta>, k: InternalKey) {
    (exists f :: f in files && f.largest == k) && forall f :: f in files ==> !Less(k, f.largest)
  }

  ghost predicate IsSmallest(files: seq<FileMeta>, k: InternalKey) {
    (exists f :: f in files && f.smallest == k) && forall f :: f in files ==> !Less(f.smallest, k)
  }

  // The file starts with older entries of the user key that ends at k.
  predicate Continues(f: FileMeta, k: InternalKey) {
    Less(k, f.smallest) && f.smallest.user == k.user
  }

  ghost predicate NoneContinues(files: seq<FileMeta>, k: InternalKey) {
    forall f :: f in files ==> !Continues(f, k)
  }

  ghost predicate IsNextFile(files: seq<FileMeta>, k: InternalKey, f: FileMeta) {
    f in files && Continues(f, k) && forall g :: g in files && Continues(g, k) ==> !Less(g.smallest, f.smallest)
  }

  // The files `added` continue the key k one after the other.
  ghost predicate Chained(files: seq<FileMeta>, k: InternalKey, added: seq<FileMeta>) {
    forall j :: 0 <= j < |added| ==> IsNextFile(files, EndOf(k, added, j), added[j])
  }

  // Each file added starts beyond the end of every file gathered before it.
  ghost predicate Fresh(inputs: seq<FileMeta>, added: seq<FileMeta>) {
    forall j :: 0 <= j < |added| ==> AllBefore(inputs + added[..j], added[j])
  }

  ghost predicate AllBefore(files: seq<FileMeta>, next: FileMeta) {
    forall f :: f in files ==> Less(f.largest, next.smallest)
  }

  ghost function EndOf(k: InternalKey, added: seq<FileMeta>, j: nat): InternalKey
    requires j <= |added|
  {
    if j == 0 then k else added[j - 1].largest
  }

  ghost predicate AllOrdered(files: seq<FileMeta>) {
    forall f :: f in files ==> f.Ordered()
  }

  method FindLargestKey(files: seq<FileMeta>) returns (largestKey: Option<InternalKey>)
    ensures largestKey == None <==> files == []
    ensures largestKey.Some? ==> IsLargest(files, largestKey.value)
  {
    if files == [] {
      return None;
    }
    var largest := files[0].largest;
    var i := 1;
    while i < |files|
      invariant 1 <= i <= |files| && IsLargest(files[..i], largest)
    {
      var f := files[i];
      assert forall g :: g in files[..i + 1] <==> g in files[..i] || g == f;
      if Less(largest, f.largest) {
        largest := f.largest;
      }
      i := i + 1;
    }
    assert files[..i] == files;
    return Some(largest);
  }

  method FindSmallestBoundaryFile(levelFiles: seq<FileMeta>, largestKey: InternalKey) returns (r: Option<FileMeta>)
    ensures r == None <==> NoneContinues(levelFiles, largestKey)
    ensures r.Some? ==> IsNextFile(levelFiles, largestKey, r.value)
  {
    r := None;
    var i := 0;
    while i < |levelFiles|
      invariant 0 <= i <= |levelFiles|
      invariant r == None <==> NoneContinues(levelFiles[..i], largestKey)
      invariant r.Some? ==> IsNextFile(levelFiles[..i], largestKey, r.value)
    {
      var f := levelFiles[i];
      assert forall g :: g in levelFiles[..i + 1] <==> g in levelFiles[..i] || g == f;
      if Less(largestKey, f.smallest) && f.smallest.user == largestKey.user {
        if r == None || Less(f.smallest, r.value.smallest) {
          r := Some(f);
        }
      }
      assert r.Some? ==> r.value in levelFiles[..i + 1] && Continues(r.value, largestKey);
      i := i + 1;
    }
    assert levelFiles[..i] == levelFiles;
  }

  // It ends, adds files of the level only, each once and none that was there,
  // and leaves none in the level that continues the last user key.
  method AddBoundaryInputs(levelFiles: seq<FileMeta>, compactionFiles: seq<FileMeta>)
    returns (r: seq<FileMeta>, ghost added: seq<FileMeta>)
    requires AllOrdered(levelFiles)
    ensures r == compactionFiles + added
    ensures compactionFiles == [] ==> r == []
    ensures forall k :: IsLargest(compactionFiles, k) ==> Chained(levelFiles, k, added)
    ensures forall k :: IsLargest(r, k) ==> NoneContinues(levelFiles, k)
    ensures Fresh(compactionFiles, added)
  {
    hide Less, IsNextFile, IsLargest, Chained, Fresh, NoneContinues;
    added := [];
    NothingAdded(levelFiles, compactionFiles);
    r := compactionFiles;
    var found := FindLargestKey(compactionFiles);
    if found == None {
      return;
    }
    ghost var k := found.value;
    var largestKey := found.value;
    var continueSearching := true;
    while continueSearching
      invariant r == compactionFiles + added && Chained(levelFiles, k, added)
      invariant IsLargest(r, largestKey) && largestKey == EndOf(k, added, |added|)
      invariant !continueSearching ==> NoneContinues(levelFiles, largestKey)
      invariant Fresh(compactionFiles, added)
      decreases continueSearching, Beyond(levelFiles, largestKey)
    {
      var next := FindSmallestBoundaryFile(levelFiles, largestKey);
      if next.Some? {
        AddOne(levelFiles, k, compactionFiles, added, largestKey, next.value);
        r := r + [next.value];
        added := added + [next.value];
        largestKey := next.value.largest;
      } else {
        continueSearching := false;
      }
    }
    LargestIsUnique(r, largestKey);
    LargestIsUnique(compactionFiles, k);
  }

  lemma LargestIsUnique(files: seq<FileMeta>, k: InternalKey)
    requires IsLargest(files, k)
    ensures forall l :: IsLargest(files, l) ==> l == k
  {
  }

  lemma NothingAdded(levelFiles: seq<FileMeta>, inputs: seq<FileMeta>)
    ensures Fresh(inputs, []) && forall k :: Chained(levelFiles, k, [])
    ensures inputs == [] ==> forall k :: !IsLargest(inputs, k)
  {
  }

  lemma AddOne(levelFiles: seq<FileMeta>, k: InternalKey, old_: seq<FileMeta>, added: seq<FileMeta>,
               last: InternalKey, f: FileMeta)
    requires AllOrdered(levelFiles) && IsNextFile(levelFiles, last, f)
    requires IsLargest(old_ + added, last) && last == EndOf(k, added, |added|)
    requires Chained(levelFiles, k, added) && Fresh(old_, added)
    ensures Chained(levelFiles, k, added + [f]) && Fresh(old_, added + [f])
    ensures IsLargest(old_ + (added + [f]), f.largest)
    ensures Beyond(levelFiles, f.largest) < Beyond(levelFiles, last)
  {
    hide Less, IsNextFile, IsLargest, Chained, Fresh, AllBefore;
    NextIsBeyond(levelFiles, old_ + added, last, f);
    ChainGrows(levelFiles, k, added, f);
    FreshGrows(old_, added, f);
    assert old_ + (added + [f]) == (old_ + added) + [f];
  }

  lemma ChainGrows(levelFiles: seq<FileMeta>, k: InternalKey, added: seq<FileMeta>, f: FileMeta)
    requires Chained(levelFiles, k, added) && IsNextFile(levelFiles, EndOf(k, added, |added|), f)
    ensures Chained(levelFiles, k, added + [f])
  {
    hide IsNextFile;
    var all := added + [f];
    forall j | 0 <= j < |all| ensures IsNextFile(levelFiles, EndOf(k, all, j), all[j]) {
      assert EndOf(k, all, j) == EndOf(k, added, j);
      assert j < |added| ==> IsNextFile(levelFiles, EndOf(k, added, j), added[j]);
    }
  }

  lemma FreshGrows(inputs: seq<FileMeta>, added: seq<FileMeta>, f: FileMeta)
    requires Fresh(inputs, added) && AllBefore(inputs + added, f)
    ensures Fresh(inputs, added + [f])
  {
    hide AllBefore;
    var all := added + [f];
    forall j | 0 <= j < |all| ensures AllBefore(inputs + all[..j], all[j]) {
      assert all[..j] == added[..j];
      assert j < |added| ==> AllBefore(inputs + added[..j], added[j]);
      assert j == |added| ==> added[..j] == added;
    }
  }

  lemma NextIsBeyond(levelFiles: seq<FileMeta>, inputs: seq<FileMeta>, last: InternalKey, f: FileMeta)
    requires AllOrdered(levelFiles) && IsNextFile(levelFiles, last, f) && IsLargest(inputs, last)
    ensures IsLargest(inputs + [f], f.largest)
    ensures AllBefore(inputs, f)
    ensures Beyond(levelFiles, f.largest) < Beyond(levelFiles, last)
  {
    assert f.Ordered();
    forall g | g in inputs ensures Less(g.largest, f.smallest) && Less(g.largest, f.largest) {
    }
    assert f in inputs + [f];
    assert f in Beyond(levelFiles, last) && f !in Beyond(levelFiles, f.largest);
    forall g | g in Beyond(levelFiles, f.largest) ensures g in Beyond(levelFiles, last) {
    }
  }

  /* Putting a compaction together. */

  ghost predicate IsRange(files: seq<FileMeta>, smallest: InternalKey, largest: InternalKey) {
    IsSmallest(files, smallest) && IsLargest(files, largest)
  }

  // VersionSet::GetRange
  method GetRange(inputs: seq<FileMeta>) returns (smallest: InternalKey, largest: InternalKey)
    requires inputs != []
    ensures IsRange(inputs, smallest, largest)
  {
    smallest, largest := inputs[0].smallest, inputs[0].largest;
    var i := 1;
    while i < |inputs|
      invariant 1 <= i <= |inputs| && IsRange(inputs[..i], smallest, largest)
    {
      var f := inputs[i];
      assert forall g :: g in inputs[..i + 1] <==> g in inputs[..i] || g == f;
      if Less(f.smallest, smallest) {
        smallest := f.smallest;
      }
      if Less(largest, f.largest) {
        largest := f.largest;
      }
      i := i + 1;
    }
    assert inputs[..i] == inputs;
  }

  // What the inputs at `level` start from: some run of a sorted level, or all
  // level-0 files in some closed range.
  ghost predicate Seeded(levelFiles: seq<FileMeta>, level: nat, inputs: seq<FileMeta>) {
    && inputs != []
    && (level == 0 ==> exists lo, hi :: Closed(levelFiles, lo, hi) && inputs == Overlapping(levelFiles, lo, hi))
    && (level > 0 ==> exists a, b :: IsRun(levelFiles, a, b, inputs))
  }

  ghost predicate IsRun(files: seq<FileMeta>, a: nat, b: nat, run: seq<FileMeta>) {
    a <= b <= |files| && run == files[a..b]
  }

  // The inputs that SetupOtherInputs ends with.
  ghost predicate Gathered(levels: seq<seq<FileMeta>>, level: nat, inputs0: seq<FileMeta>, inputs1: seq<FileMeta>)
    requires |levels| == NUM_LEVELS && level + 1 < NUM_LEVELS
  {
    && Seeded(levels[level], level, inputs0)
    && (forall k :: IsLargest(inputs0, k) ==> NoneContinues(levels[level], k))
    && exists s, l :: IsRange(inputs0, s, l) && inputs1 == Overlapping(levels[level + 1], Some(s.user), Some(l.user))
  }

  function TotalFileSize(files: seq<FileMeta>): nat {
    if files == [] then 0 else TotalFileSize(files[..|files| - 1]) + files[|files| - 1].fileSize
  }

  class Plan {
    const level: nat
    var inputs0: seq<FileMeta>
    var inputs1: seq<FileMeta>
    var grandparents: seq<FileMeta>

    constructor (level: nat, inputs: seq<FileMeta>)
      ensures this.level == level && inputs0 == inputs && inputs1 == [] && grandparents == []
    {
      this.level, inputs0, inputs1, grandparents := level, inputs, [], [];
    }
  }

  class VersionSet {
    var levels: seq<seq<FileMeta>>
    var compactPointer: seq<Option<InternalKey>>

    constructor (levels: seq<seq<FileMeta>>)
      requires WellFormedLevels(levels)
      ensures Valid() && this.levels == levels
    {
      this.levels := levels;
      compactPointer := seq(NUM_LEVELS, _ => None);
    }

    ghost predicate Valid()
      reads this
    {
      WellFormedLevels(levels) && |compactPointer| == NUM_LEVELS
    }

    // VersionSet::SetupOtherInputs
    method SetupOtherInputs(c: Plan, expandedLimit: nat)
      requires Valid() && c.level + 1 < NUM_LEVELS && Seeded(levels[c.level], c.level, c.inputs0)
      modifies this`compactPointer, c
      ensures Valid() && Gathered(levels, c.level, c.inputs0, c.inputs1)
      ensures forall f :: f in old(c.inputs0) ==> f in c.inputs0
      ensures exists base0, base1 :: Gathered(levels, c.level, base0, base1) && (forall f :: f in old(c.inputs0) ==> f in base0)
                                  && GrownFrom(base0, base1, c.inputs0, c.inputs1, expandedLimit)
      ensures exists k :: IsLargest(c.inputs0, k) && compactPointer == old(compactPointer)[c.level := Some(k)]
      ensures c.level + 2 < NUM_LEVELS ==> exists s, l ::
        IsRange(c.inputs0 + c.inputs1, s, l) && c.grandparents == Overlapping(levels[c.level + 2], Some(s.user), Some(l.user))
    {
      hide Seeded, Gathered, IsRange, IsLargest, LevelOk, WellFormedLevels, GrownFrom;
      var level := c.level;
      WellFormedAt(levels, level);
      var inputs0, inputs1, smallest, largest, base0, base1 := Gather(levels, level, c.inputs0, expandedLimit);
      c.inputs0, c.inputs1 := inputs0, inputs1;
      if level + 2 < NUM_LEVELS {
        var allStart, allLimit := GetRange(inputs0 + inputs1);
        ghost var lo, hi;
        c.grandparents, lo, hi := GetOverlappingInputs(levels[level + 2], level + 2, Some(allStart.user), Some(allLimit.user));
      }
      compactPointer := compactPointer[level := Some(largest)];
    }
  }

  // The inputs of the level were left alone, or replaced by more files that
  // need as many of the next level and stay below the limit together with them.
  ghost predicate GrownFrom(base0: seq<FileMeta>, base1: seq<FileMeta>, inputs0: seq<FileMeta>, inputs1: seq<FileMeta>, limit: nat) {
    || (inputs0 == base0 && inputs1 == base1)
    || (|inputs0| > |base0| && |inputs1| == |base1| && base1 != [] && TotalFileSize(inputs0) + TotalFileSize(base1) < limit)
  }

  // SetupOtherInputs, the two sets of inputs and the range of the first.
  method Gather(levels: seq<seq<FileMeta>>, level: nat, seed: seq<FileMeta>, expandedLimit: nat)
    returns (inputs0: seq<FileMeta>, inputs1: seq<FileMeta>, smallest: InternalKey, largest: InternalKey,
             ghost base0: seq<FileMeta>, ghost base1: seq<FileMeta>)
    requires |levels| == NUM_LEVELS && level + 1 < NUM_LEVELS
    requires LevelOk(levels[level], level) && Seeded(levels[level], level, seed)
    ensures Gathered(levels, level, inputs0, inputs1) && inputs0 != [] && IsLargest(inputs0, largest)
    ensures forall f :: f in seed ==> f in inputs0 && f in base0
    ensures Gathered(levels, level, base0, base1) && GrownFrom(base0, base1, inputs0, inputs1, expandedLimit)
  {
    hide Seeded, Gathered, IsSmallest, IsLargest, NoneContinues, LevelOk, Overlapping;
    var files := levels[level];
    ghost var lo, hi;
    inputs0, smallest, largest := Bounded(files, level, seed);
    SeedIsSome(files, level, inputs0);
    inputs1, lo, hi := GetOverlappingInputs(levels[level + 1], level + 1, Some(smallest.user), Some(largest.user));
    IsGathered(levels, level, inputs0, inputs1, smallest, largest);
    base0, base1 := inputs0, inputs1;
    var allStart, allLimit := GetRange(inputs0 + inputs1);
    if inputs1 != [] {
      var expanded0 := Expanded(files, level, inputs0, inputs1, allStart, allLimit);
      SeedIsSome(files, level, expanded0);
      if |expanded0| > |inputs0| && TotalFileSize(inputs1) + TotalFileSize(expanded0) < expandedLimit {
        var newStart, newLimit := GetRange(expanded0);
        var expanded1;
        expanded1, lo, hi := GetOverlappingInputs(levels[level + 1], level + 1, Some(newStart.user), Some(newLimit.user));
        if |expanded1| == |inputs1| {
          IsGathered(levels, level, expanded0, expanded1, newStart, newLimit);
          smallest, largest := newStart, newLimit;
          inputs0, inputs1 := expanded0, expanded1;
        }
      }
    }
  }

  lemma IsGathered(levels: seq<seq<FileMeta>>, level: nat, inputs0: seq<FileMeta>, inputs1: seq<FileMeta>,
                   s: InternalKey, l: InternalKey)
    requires |levels| == NUM_LEVELS && level + 1 < NUM_LEVELS && Seeded(levels[level], level, inputs0)
    requires forall k :: IsLargest(inputs0, k) ==> NoneContinues(levels[level], k)
    requires IsRange(inputs0, s, l) && inputs1 == Overlapping(levels[level + 1], Some(s.user), Some(l.user))
    ensures Gathered(levels, level, inputs0, inputs1)
  {
    hide Seeded, IsRange, NoneContinues, IsLargest, Overlapping;
  }

  lemma WellFormedAt(levels: seq<seq<FileMeta>>, level: nat)
    requires WellFormedLevels(levels) && level < NUM_LEVELS
    ensures |levels| == NUM_LEVELS && LevelOk(levels[level], level)
  {
  }

  // The inputs with their boundary files, and their range.
  method Bounded(files: seq<FileMeta>, level: nat, seed: seq<FileMeta>)
    returns (inputs: seq<FileMeta>, smallest: InternalKey, largest: InternalKey)
    requires LevelOk(files, level) && Seeded(files, level, seed)
    ensures Seeded(files, level, inputs) && IsRange(inputs, smallest, largest)
    ensures forall k :: IsLargest(inputs, k) ==> NoneContinues(files, k)
    ensures forall f :: f in seed ==> f in inputs
  {
    hide Seeded, IsRange, NoneContinues, IsLargest, Chained, Fresh, LevelOk, IsSmallest;
    SeedIsSome(files, level, seed);
    ghost var added;
    inputs, added := AddBoundaryInputs(files, seed);
    BoundaryKeepsSeeded(files, level, seed, added);
    SeedIsSome(files, level, inputs);
    smallest, largest := GetRange(inputs);
  }

  // More inputs at `level` under the range of all inputs so far.
  method Expanded(files: seq<FileMeta>, level: nat, inputs0: seq<FileMeta>, inputs1: seq<FileMeta>,
                  allStart: InternalKey, allLimit: InternalKey) returns (expanded0: seq<FileMeta>)
    requires LevelOk(files, level) && Seeded(files, level, inputs0) && IsRange(inputs0 + inputs1, allStart, allLimit)
    ensures Seeded(files, level, expanded0)
    ensures forall k :: IsLargest(expanded0, k) ==> NoneContinues(files, k)
    ensures forall f :: f in inputs0 ==> f in expanded0
  {
    hide Seeded, IsRange, NoneContinues, IsLargest, Chained, Fresh, LevelOk, IsSmallest, Closed, Forced, Overlaps;
    SeedIsSome(files, level, inputs0);
    ghost var lo, hi;
    expanded0, lo, hi := GetOverlappingInputs(files, level, Some(allStart.user), Some(allLimit.user));
    InRange(files, level, inputs0, inputs1, allStart, allLimit, lo, hi);
    OverlappingIsSeeded(files, level, lo, hi);
    var seed := expanded0;
    ghost var added;
    expanded0, added := AddBoundaryInputs(files, seed);
    BoundaryKeepsSeeded(files, level, seed, added);
  }

  ghost predicate LevelOk(files: seq<FileMeta>, level: nat) {
    if level == 0 then AllOrdered(files) else DisjointLevel(files)
  }

  lemma SeedIsSome(files: seq<FileMeta>, level: nat, inputs: seq<FileMeta>)
    requires LevelOk(files, level) && Seeded(files, level, inputs)
    ensures inputs != [] && AllOrdered(files) && forall f :: f in inputs ==> f in files
  {
  }

  lemma InRange(files: seq<FileMeta>, level: nat, inputs0: seq<FileMeta>, inputs1: seq<FileMeta>,
                s: InternalKey, l: InternalKey, lo: Option<UserKey>, hi: Option<UserKey>)
    requires LevelOk(files, level) && Seeded(files, level, inputs0) && IsRange(inputs0 + inputs1, s, l)
    requires Encloses(lo, hi, Some(s.user), Some(l.user))
    ensures forall f :: f in inputs0 ==> f in Overlapping(files, lo, hi)
    ensures Overlapping(files, lo, hi) != []
  {
    SeedIsSome(files, level, inputs0);
    forall f | f in inputs0 ensures f in Overlapping(files, lo, hi) {
      assert f in inputs0 + inputs1 && f.Ordered();
    }
    assert inputs0[0] in Overlapping(files, lo, hi);
  }

  // Overlapping files of a sorted level are next to one another.
  lemma {:induction false} OverlappingIsRun(files: seq<FileMeta>, lo: Option<UserKey>, hi: Option<UserKey>)
    returns (a: nat, b: nat)
    requires DisjointLevel(files)
    ensures IsRun(files, a, b, Overlapping(files, lo, hi))
  {
    hide DisjointLevel, Overlaps;
    if files == [] {
      a, b := 0, 0;
    } else {
      var n := |files| - 1;
      PrefixIsDisjoint(files, n);
      var c, d := OverlappingIsRun(files[..n], lo, hi);
      var front := Overlapping(files[..n], lo, hi);
      assert front == files[c..d];
      if !Overlaps(files[n], lo, hi) {
        a, b := c, d;
      } else if c == d {
        a, b := n, n + 1;
        assert files[n..n + 1] == [files[n]] && front == [];
      } else {
        RunReachesEnd(files, c, d, lo, hi);
        a, b := c, n + 1;
        SliceGrows(files, c, n);
      }
    }
  }

  lemma SliceGrows<T>(s: seq<T>, c: nat, n: nat)
    requires c <= n < |s|
    ensures s[c..n + 1] == s[c..n] + [s[n]]
  {
  }

  lemma PrefixIsDisjoint(files: seq<FileMeta>, n: nat)
    requires DisjointLevel(files) && n <= |files|
    ensures DisjointLevel(files[..n])
  {
  }

  lemma RunReachesEnd(files: seq<FileMeta>, a: nat, b: nat, lo: Option<UserKey>, hi: Option<UserKey>)
    requires DisjointLevel(files) && files != [] && a < b < |files| && Overlaps(files[|files| - 1], lo, hi)
    requires Overlapping(files[..|files| - 1], lo, hi) == files[a..b]
    ensures b == |files| - 1
  {
    hide DisjointLevel, Overlaps;
    assert files[a..b][0] == files[a];
    OverlapsBetween(files, a, b, lo, hi);
    NotInRun(files, a, b);
  }

  lemma OverlapsBetween(files: seq<FileMeta>, a: nat, b: nat, lo: Option<UserKey>, hi: Option<UserKey>)
    requires DisjointLevel(files) && a < b < |files| && Overlaps(files[a], lo, hi) && Overlaps(files[|files| - 1], lo, hi)
    ensures b < |files| - 1 ==> files[b] in Overlapping(files[..|files| - 1], lo, hi)
  {
    var n := |files| - 1;
    if b < n {
      LevelUserKeysAscend(files, a, b);
      LevelUserKeysAscend(files, b, n);
      assert files[..n][b] == files[b];
    }
  }

  lemma NotInRun(files: seq<FileMeta>, a: nat, b: nat)
    requires DisjointLevel(files) && a <= b < |files|
    ensures files[b] !in files[a..b]
  {
    forall m | a <= m < b ensures files[m] != files[b] {
      assert Less(files[m].largest, files[b].smallest) && files[m].Ordered();
    }
  }

  lemma OverlappingIsSeeded(files: seq<FileMeta>, level: nat, lo: Option<UserKey>, hi: Option<UserKey>)
    requires LevelOk(files, level) && Overlapping(files, lo, hi) != []
    requires level == 0 ==> Closed(files, lo, hi)
    ensures Seeded(files, level, Overlapping(files, lo, hi))
  {
    if level > 0 {
      var a, b := OverlappingIsRun(files, lo, hi);
    }
  }

  // Boundary files leave a run a run, and there are none for a closed range.
  lemma BoundaryKeepsSeeded(files: seq<FileMeta>, level: nat, seed: seq<FileMeta>, added: seq<FileMeta>)
    requires LevelOk(files, level) && Seeded(files, level, seed)
    requires forall k :: IsLargest(seed, k) ==> Chained(files, k, added)
    ensures Seeded(files, level, seed + added)
  {
    hide IsLargest, Closed, IsNextFile, Overlapping, Chained;
    if level == 0 {
      var k := LargestOf(seed);
      ClosedHasNoBoundary(files, seed, k);
      if added != [] { FirstIsNext(files, k, added); }
      assert seed + added == seed;
    } else {
      var a: nat, b: nat :| IsRun(files, a, b, seed);
      RunLargest(files, a, b);
      RunGrows(files, b, added, |added|);
      assert IsRun(files, a, b + |added|, seed + added);
    }
  }

  lemma FirstIsNext(files: seq<FileMeta>, k: InternalKey, added: seq<FileMeta>)
    requires Chained(files, k, added) && added != []
    ensures IsNextFile(files, k, added[0])
  {
    assert EndOf(k, added, 0) == k;
  }

  lemma ClosedHasNoBoundary(files: seq<FileMeta>, seed: seq<FileMeta>, k: InternalKey)
    requires AllOrdered(files) && Seeded(files, 0, seed) && IsLargest(seed, k)
    ensures forall f :: !IsNextFile(files, k, f)
  {
    var lo, hi :| Closed(files, lo, hi) && seed == Overlapping(files, lo, hi);
    var g :| g in seed && g.largest == k;
    forall f | f in files ensures !Continues(f, k) {
      assert f.Ordered() && g.Ordered();
      assert f.smallest.user == k.user ==> f in seed;
    }
  }

  lemma {:induction false} LargestOf(files: seq<FileMeta>) returns (k: InternalKey)
    requires files != []
    ensures IsLargest(files, k)
  {
    var n := |files| - 1;
    if n == 0 {
      k := files[0].largest;
    } else {
      k := LargestOf(files[..n]);
      assert forall g :: g in files <==> g in files[..n] || g == files[n];
      if Less(k, files[n].largest) { k := files[n].largest; }
    }
  }

  lemma RunLargest(files: seq<FileMeta>, a: nat, b: nat)
    requires DisjointLevel(files) && a < b <= |files|
    ensures IsLargest(files[a..b], files[b - 1].largest)
  {
    var run := files[a..b];
    assert run[b - 1 - a] == files[b - 1];
    forall f | f in run ensures !Less(files[b - 1].largest, f.largest) {
      var j :| 0 <= j < |run| && run[j] == f;
      assert files[a + j] == f && files[b - 1].Ordered();
      assert a + j < b - 1 ==> Less(files[a + j].largest, files[b - 1].smallest);
    }
  }

  lemma {:induction false} RunGrows(files: seq<FileMeta>, b: nat, added: seq<FileMeta>, j: nat)
    requires DisjointLevel(files) && 1 <= b <= |files| && Chained(files, files[b - 1].largest, added) && j <= |added|
    ensures b + j <= |files| && forall i :: 0 <= i < j ==> added[i] == files[b + i]
  {
    hide IsNextFile, DisjointLevel;
    if j > 0 {
      RunGrows(files, b, added, j - 1);
      assert IsNextFile(files, EndOf(files[b - 1].largest, added, j - 1), added[j - 1]);
      NextInRun(files, b + j - 1, added[j - 1]);
    }
  }

  // In a sorted level only the next file can continue a file's last user key.
  lemma NextInRun(files: seq<FileMeta>, b: nat, f: FileMeta)
    requires DisjointLevel(files) && 1 <= b <= |files| && IsNextFile(files, files[b - 1].largest, f)
    ensures b < |files| && f == files[b]
  {
    hide DisjointLevel, Continues;
    var j :| 0 <= j < |files| && files[j] == f;
    NotEarlier(files, b, j);
    LaterIsAfterNext(files, b, j);
  }

  lemma NotEarlier(files: seq<FileMeta>, b: nat, j: nat)
    requires DisjointLevel(files) && 1 <= b <= |files| && j < |files|
    ensures j < b ==> !Continues(files[j], files[b - 1].largest)
  {
    assert files[j].Ordered() && files[b - 1].Ordered();
    assert j < b - 1 ==> Less(files[j].largest, files[b - 1].smallest);
  }

  lemma LaterIsAfterNext(files: seq<FileMeta>, b: nat, j: nat)
    requires DisjointLevel(files) && 1 <= b <= |files| && j < |files|
    ensures b < j && Continues(files[j], files[b - 1].largest) ==>
      Continues(files[b], files[b - 1].largest) && Less(files[b].smallest, files[j].smallest)
  {
    if b < j {
      assert Less(files[b - 1].largest, files[b].smallest) && Less(files[b].largest, files[j].smallest);
      assert files[b].Ordered();
    }
  }
}
