// Table-file metadata and the shape of a version's levels (db/version_edit.h, db/version_set.cc).

module Files {
  import opened DbFormat

  datatype FileMeta = FileMeta(number: nat, fileSize: nat, smallest: InternalKey, largest: InternalKey)
  {
    ghost predicate Ordered() { !Less(largest, smallest) }

    // The user key lies in the file's range.
    predicate Covers(k: UserKey) { smallest.user <= k <= largest.user }
  }

  // A level below level 0: files in key order with disjoint ranges.  One user
  // key may still end one file and start the next.
  ghost predicate DisjointLevel(files: seq<FileMeta>) {
    && (forall i :: 0 <= i < |files| ==> files[i].Ordered())
    && (forall i, j :: 0 <= i < j < |files| ==> Less(files[i].largest, files[j].smallest))
  }

  ghost predicate WellFormedLevels(levels: seq<seq<FileMeta>>) {
    && |levels| == NUM_LEVELS
    && (forall f :: f in levels[0] ==> f.Ordered())
    && forall lvl :: 1 <= lvl < NUM_LEVELS ==> DisjointLevel(levels[lvl])
  }

  lemma LevelUserKeysAscend(files: seq<FileMeta>, i: nat, j: nat)
    requires DisjointLevel(files) && i < j < |files|
    ensures files[i].smallest.user <= files[i].largest.user
    ensures files[i].largest.user <= files[j].smallest.user <= files[j].largest.user
  {
    assert files[i].Ordered() && files[j].Ordered();
    assert Less(files[i].largest, files[j].smallest);
  }
}
