// The builder and the version set as objects (db/version_set.cc).

module ManifestCode {
  import opened Wrappers
  import opened Coding
  import opened Varint
  import opened DbFormat
  import opened Files
  import opened VersionEdits
  import opened VersionBuilder
  import opened ManifestReplay

  class Builder {
    const vset: VersionSet
    const base: Levels
    const levels: array<LevelState>

    constructor (vset: VersionSet, base: Levels)
      ensures this.vset == vset && this.base == base
      ensures fresh(levels) && levels[..] == seq(NUM_LEVELS, _ => NOTHING)
    {
      this.vset := vset;
      this.base := base;
      levels := new LevelState[NUM_LEVELS](_ => NOTHING);
      new;
      assert levels[..] == seq(NUM_LEVELS, _ => NOTHING);
    }

    method ApplyPointers(edit: VersionEdit)
      requires LevelsExist(edit.Contents())
      modifies vset`compactPointers
      ensures vset.compactPointers == PointersAfter(old(vset.compactPointers), edit.compactPointers)
    {
      ghost var ps := edit.compactPointers;
      var i := 0;
      while i < |edit.compactPointers|
        invariant 0 <= i <= |ps| && edit.compactPointers == ps
        invariant vset.compactPointers == PointersAfter(old(vset.compactPointers), ps[..i])
      {
        assert ps[..i + 1][..i] == ps[..i];
        assert ps[i] in ps;
        var level := edit.compactPointers[i].0;
        vset.compactPointers := vset.compactPointers[level := Some(edit.compactPointers[i].1)];
        i := i + 1;
      }
      assert ps[..i] == ps;
    }

    method MarkDeleted(edit: VersionEdit)
      requires levels.Length == NUM_LEVELS && LevelsExist(edit.Contents())
      modifies levels
      ensures forall l :: 0 <= l < NUM_LEVELS ==> levels[l] == DeleteFiles(old(levels[l]), l, edit.deletedFiles)
    {
      hide DeleteFiles;
      ghost var done: set<(nat, nat)> := {};
      var left := edit.deletedFiles;
      forall l | 0 <= l < NUM_LEVELS ensures DeleteFiles(levels[l], l, {}) == levels[l] { DeleteNone(levels[l], l); }
      while left != {}
        invariant done + left == edit.deletedFiles
        invariant forall l :: 0 <= l < NUM_LEVELS ==> levels[l] == DeleteFiles(old(levels[l]), l, done)
        decreases |left|
      {
        var d :| d in left;
        forall l | 0 <= l < NUM_LEVELS
          ensures DeleteFiles(old(levels[l]), l, done + {d}) ==
            if l == d.0 then levels[l].(deleted := levels[l].deleted + {d.1}) else levels[l]
        {
          DeleteOneMore(old(levels[l]), l, done, d);
        }
        levels[d.0] := levels[d.0].(deleted := levels[d.0].deleted + {d.1});
        left, done := left - {d}, done + {d};
      }
    }

    method AddNewFiles(edit: VersionEdit)
      requires levels.Length == NUM_LEVELS && LevelsExist(edit.Contents())
      modifies levels
      ensures forall l :: 0 <= l < NUM_LEVELS ==> levels[l] == AddFiles(old(levels[l]), l, edit.newFiles)
    {
      hide Insert;
      ghost var fs := edit.newFiles;
      var i := 0;
      while i < |edit.newFiles|
        invariant 0 <= i <= |fs| && edit.newFiles == fs
        invariant forall l :: 0 <= l < NUM_LEVELS ==> levels[l] == AddFiles(old(levels[l]), l, fs[..i])
      {
        assert fs[..i + 1][..i] == fs[..i];
        assert fs[i] in fs;
        var level, f := edit.newFiles[i].0, edit.newFiles[i].1;
        var st := levels[level];
        levels[level] := LevelState(st.deleted - {f.number}, Insert(st.added, f));
        i := i + 1;
      }
      assert fs[..i] == fs;
    }

    method Apply(edit: VersionEdit)
      requires levels.Length == NUM_LEVELS && LevelsExist(edit.Contents())
      modifies levels, vset`compactPointers
      ensures vset.compactPointers == PointersAfter(old(vset.compactPointers), edit.compactPointers)
      ensures levels[..] == StatesAfter(old(levels[..]), edit.Contents())
    {
      hide PointersAfter, AddFiles, DeleteFiles;
      ApplyPointers(edit);
      MarkDeleted(edit);
      AddNewFiles(edit);
      assert forall l :: 0 <= l < NUM_LEVELS ==> levels[l] == ApplyTo(old(levels[l]), l, edit.Contents());
    }

    method MaybeAddFile(level: nat, f: FileMeta, files: seq<FileMeta>) returns (r: seq<FileMeta>)
      requires level < levels.Length
      ensures r == files + Kept([f], levels[level].deleted)
    {
      r := if f.number in levels[level].deleted then files else files + [f];
    }

    method SaveLevel(level: nat) returns (files: seq<FileMeta>)
      requires level < NUM_LEVELS == levels.Length && InOrder(base[level])
      ensures files == Saved(base[level], levels[level])
    {
      hide Before, Kept, Merge, UpperBound;
      files := [];
      var baseFiles, added, deleted := base[level], levels[level].added, levels[level].deleted;
      var b, a := 0, 0;
      while a < |added|
        invariant 0 <= a <= |added| && 0 <= b <= |baseFiles|
        invariant Saved(baseFiles, levels[level]) == files + Kept(Merge(baseFiles[b..], added[a..]), deleted)
      {
        var bpos := UpperBound(baseFiles, b, added[a]);
        while b != bpos
          invariant b <= bpos == UpperBound(baseFiles, b, added[a]) <= |baseFiles|
          invariant Saved(baseFiles, levels[level]) == files + Kept(Merge(baseFiles[b..], added[a..]), deleted)
        {
          BaseFirst(baseFiles, b, added, a, deleted);
          files := MaybeAddFile(level, baseFiles[b], files);
          b := b + 1;
        }
        AddedFirst(baseFiles, b, added, a, deleted);
        files := MaybeAddFile(level, added[a], files);
        a := a + 1;
      }
      BaseAlone(baseFiles[b..], added[a..], deleted);
      while b < |baseFiles|
        invariant 0 <= b <= |baseFiles|
        invariant Saved(baseFiles, levels[level]) == files + Kept(baseFiles[b..], deleted)
      {
        assert baseFiles[b..] == [baseFiles[b]] + baseFiles[b + 1..];
        KeptHead(baseFiles[b], baseFiles[b + 1..], deleted);
        files := MaybeAddFile(level, baseFiles[b], files);
        b := b + 1;
      }
      KeptNone(baseFiles[b..], deleted);
    }

    method SaveTo() returns (files: Levels)
      requires levels.Length == NUM_LEVELS
      requires forall l :: 0 <= l < NUM_LEVELS ==> InOrder(base[l])
      ensures files == SavedLevels(base, levels[..])
    {
      hide Saved;
      var out: seq<seq<FileMeta>> := [];
      while |out| < NUM_LEVELS
        invariant |out| <= NUM_LEVELS
        invariant out == SavedLevels(base, levels[..])[..|out|]
      {
        var fs := SaveLevel(|out|);
        out := out + [fs];
      }
      files := out;
    }
  }

  lemma DeleteNone(st: LevelState, level: nat)
    ensures DeleteFiles(st, level, {}) == st
  {
    assert st.deleted + DeletedAt({}, level) == st.deleted;
  }

  lemma DeleteOneMore(st: LevelState, level: nat, ds: set<(nat, nat)>, d: (nat, nat))
    ensures var r := DeleteFiles(st, level, ds);
      DeleteFiles(st, level, ds + {d}) == if level == d.0 then r.(deleted := r.deleted + {d.1}) else r
  {
    assert DeletedAt(ds + {d}, level) == DeletedAt(ds, level) + if level == d.0 then {d.1} else {};
    assert st.deleted + DeletedAt(ds, level) + {d.1} == st.deleted + (DeletedAt(ds, level) + {d.1});
  }

  // std::upper_bound: the first file from `from` on that comes after f.
  function UpperBound(fs: seq<FileMeta>, from: nat, f: FileMeta): (r: nat)
    requires from <= |fs|
    ensures from <= r <= |fs|
    decreases |fs| - from
  {
    if from == |fs| || Before(f, fs[from]) then from else UpperBound(fs, from + 1, f)
  }

  lemma KeptHead(f: FileMeta, fs: seq<FileMeta>, deleted: set<nat>)
    ensures Kept([f] + fs, deleted) == Kept([f], deleted) + Kept(fs, deleted)
  {
    assert ([f] + fs)[1..] == fs && [f][1..] == [];
  }

  lemma KeptNone(fs: seq<FileMeta>, deleted: set<nat>)
    ensures fs == [] ==> Kept(fs, deleted) == []
  {
  }

  lemma BaseAlone(base: seq<FileMeta>, added: seq<FileMeta>, deleted: set<nat>)
    ensures added == [] ==> Kept(Merge(base, added), deleted) == Kept(base, deleted)
  {
  }

  // The next file of the base goes before the next added one.
  lemma BaseFirst(base: seq<FileMeta>, b: nat, added: seq<FileMeta>, a: nat, deleted: set<nat>)
    requires b <= |base| && a < |added| && b != UpperBound(base, b, added[a])
    ensures b < |base| && UpperBound(base, b, added[a]) == UpperBound(base, b + 1, added[a])
    ensures Kept(Merge(base[b..], added[a..]), deleted) == Kept([base[b]], deleted) + Kept(Merge(base[b + 1..], added[a..]), deleted)
  {
    hide Before;
    assert base[b..][1..] == base[b + 1..];
    KeptHead(base[b], Merge(base[b + 1..], added[a..]), deleted);
  }

  lemma AddedFirst(base: seq<FileMeta>, b: nat, added: seq<FileMeta>, a: nat, deleted: set<nat>)
    requires b <= |base| && a < |added| && b == UpperBound(base, b, added[a])
    ensures Kept(Merge(base[b..], added[a..]), deleted) == Kept([added[a]], deleted) + Kept(Merge(base[b..], added[a + 1..]), deleted)
  {
    hide Before;
    assert added[a..][1..] == added[a + 1..];
    KeptHead(added[a], Merge(base[b..], added[a + 1..]), deleted);
  }

  /* What logging one edit keeps. */

  const NO_FILES: Levels := seq(NUM_LEVELS, _ => [])

  lemma EditIsLogged(codec: KeyCodec, name: seq<byte>, records: seq<seq<byte>>, r: Recovery, levels: Levels,
                     pointers: Pointers, used: seq<set<nat>>, record: seq<byte>, e: Edit)
    requires e.Fits(codec) && e.comparator.None? && IsRecordOf(codec, record, e)
    requires Replayed(codec, name, records, Start(NO_POINTERS)) == Some(r)
    requires Agrees(r, levels, pointers, used) && FreshFiles(e, used)
    ensures Replayed(codec, name, records + [record], Start(NO_POINTERS)) == Some(After(r, e))
    ensures Agrees(After(r, e), NextVersion(levels, e), PointersAfter(pointers, e.compactPointers), UsedAfter(used, e))
    ensures |After(r, e).states| == NUM_LEVELS && SavedLevels(NO_FILES, After(r, e).states) == NextVersion(levels, e)
  {
    hide Replayed, IsRecordOf, Edit.Fits, FreshFiles, NextVersion, StatesAfter, UsedAfter, PointersAfter;
    ReplayStep(codec, name, records, r, record, e);
    AgreesStep(r, levels, pointers, used, e);
    AgreeingLevels(After(r, e), NextVersion(levels, e), PointersAfter(pointers, e.compactPointers), UsedAfter(used, e));
  }

  lemma AgreeingLevels(r: Recovery, levels: Levels, pointers: Pointers, used: seq<set<nat>>)
    requires Agrees(r, levels, pointers, used)
    ensures SavedLevels(NO_FILES, r.states) == levels
  {
    hide Saved, InOrder;
    assert forall l :: 0 <= l < NUM_LEVELS ==> LevelAgrees(r.states[l], levels[l], used[l]);
  }

  lemma SnapshotIsLogged(codec: KeyCodec, name: seq<byte>, levels: Levels, pointers: Pointers, used: seq<set<nat>>, record: seq<byte>)
    requires AllOk(levels, used) && |name| < TWO_32 && PointersFit(codec, pointers)
    requires forall l :: 0 <= l < NUM_LEVELS ==> FilesFit(codec, levels[l])
    requires IsRecordOf(codec, record, Snapshot(name, levels, pointers))
    ensures var r := Replayed(codec, name, [record], Start(NO_POINTERS));
      r.Some? && Agrees(r.value, levels, pointers, used)
  {
    hide IsRecordOf, Edit.Fits, Agrees, AllOk, Snapshot, FilesFit, PointersFit;
    SnapshotFits(codec, name, levels, pointers);
    SnapshotRestores(name, levels, pointers, used);
    SnapshotNamed(name, levels, pointers);
    ReplayStep(codec, name, [], Start(NO_POINTERS), record, Snapshot(name, levels, pointers));
    assert [record] == [] + [record];
  }

  lemma SnapshotFits(codec: KeyCodec, name: seq<byte>, levels: Levels, pointers: Pointers)
    requires |name| < TWO_32 && PointersFit(codec, pointers) && forall l :: 0 <= l < NUM_LEVELS ==> FilesFit(codec, levels[l])
    ensures Snapshot(name, levels, pointers).Fits(codec)
  {
    hide FileList, PointerList, FilesFit;
    FileListFits(codec, levels);
    PointerListFits(codec, pointers, NUM_LEVELS);
    PointerListRestores(pointers, NUM_LEVELS);
    assert pointers[..NUM_LEVELS] == pointers;
  }

  lemma {:induction false} FileListFits(codec: KeyCodec, levels: seq<seq<FileMeta>>)
    requires |levels| <= NUM_LEVELS && forall l :: 0 <= l < |levels| ==> FilesFit(codec, levels[l])
    ensures forall p :: p in FileList(levels) ==> NewFile(p.0, p.1).Fits(codec)
  {
    if levels == [] {
    } else {
      var n := |levels| - 1;
      FileListFits(codec, levels[..n]);
      forall p | p in AtLevel(n, levels[n]) ensures NewFile(p.0, p.1).Fits(codec) {
        assert p.1 in levels[n] && NewFile(0, p.1).Fits(codec);
      }
    }
  }

  lemma {:induction false} PointerListFits(codec: KeyCodec, pointers: Pointers, n: nat)
    requires PointersFit(codec, pointers) && n <= NUM_LEVELS
    ensures forall p :: p in PointerList(pointers[..n]) ==> codec.Stores(p.1)
  {
    if n > 0 {
      PointerListFits(codec, pointers, n - 1);
      assert pointers[..n][..n - 1] == pointers[..n - 1];
    }
  }

  lemma {:induction false} PointersFitStep(codec: KeyCodec, pointers: Pointers, ps: seq<(nat, InternalKey)>)
    requires PointersFit(codec, pointers) && forall p :: p in ps ==> codec.Stores(p.1)
    ensures PointersFit(codec, PointersAfter(pointers, ps))
  {
    if ps != [] { PointersFitStep(codec, pointers, ps[..|ps| - 1]); }
  }

  lemma EditPointersFit(codec: KeyCodec, pointers: Pointers, e: Edit)
    requires PointersFit(codec, pointers) && e.Fits(codec)
    ensures PointersFit(codec, PointersAfter(pointers, e.compactPointers))
  {
    forall p | p in e.compactPointers ensures codec.Stores(p.1) { assert CompactPointer(p.0, p.1).Fits(codec); }
    PointersFitStep(codec, pointers, e.compactPointers);
  }

  lemma FilesFitStep(codec: KeyCodec, levels: Levels, used: seq<set<nat>>, e: Edit)
    requires AllOk(levels, used) && FreshFiles(e, used) && e.Fits(codec)
    requires forall l :: 0 <= l < NUM_LEVELS ==> FilesFit(codec, levels[l])
    ensures forall l :: 0 <= l < NUM_LEVELS ==> FilesFit(codec, NextVersion(levels, e)[l])
  {
    hide Fresh, LevelOk, FilesFit, ApplyTo, Saved;
    forall l | 0 <= l < NUM_LEVELS ensures FilesFit(codec, NextVersion(levels, e)[l]) {
      LevelFits(codec, levels[l], used[l], l, e);
    }
  }

  lemma LevelFits(codec: KeyCodec, fs: seq<FileMeta>, used: set<nat>, level: nat, e: Edit)
    requires LevelOk(fs, used) && Fresh(e.newFiles, level, used) && e.Fits(codec) && FilesFit(codec, fs)
    ensures FilesFit(codec, Saved(fs, ApplyTo(NOTHING, level, e)))
  {
    hide Saved, ApplyTo, InOrder, Fresh, NumbersDiffer;
    NothingAdded();
    FreshForFewer(e.newFiles, level, used, Numbers(Members(fs)) + Numbers(Members([])));
    SavedAre(fs, NOTHING, level, e);
    var next := Saved(fs, ApplyTo(NOTHING, level, e));
    forall f | f in next ensures NewFile(0, f).Fits(codec) {
      assert f in Members(next);
      if f !in Members(fs) {
        var p :| p in e.newFiles && p.0 == level && p.1 == f;
        assert NewFile(p.0, p.1).Fits(codec);
      }
    }
  }

  lemma {:induction false} PointersAt(p: Pointers, q: Pointers, ps: seq<(nat, InternalKey)>, l: nat)
    requires l < NUM_LEVELS
    ensures if exists i :: 0 <= i < |ps| && ps[i].0 == l then PointersAfter(p, ps)[l] == PointersAfter(q, ps)[l]
            else PointersAfter(p, ps)[l] == p[l]
  {
    if ps != [] {
      var n := |ps| - 1;
      PointersAt(p, q, ps[..n], l);
      assert forall i :: 0 <= i < n ==> ps[..n][i] == ps[i];
      if ps[n].0 != l && exists i :: 0 <= i < |ps| && ps[i].0 == l {
        var i :| 0 <= i < |ps| && ps[i].0 == l;
        assert ps[..n][i].0 == l;
      }
    }
  }

  // Setting compaction pointers twice is setting them once.
  lemma PointersAgain(p: Pointers, ps: seq<(nat, InternalKey)>)
    ensures PointersAfter(PointersAfter(p, ps), ps) == PointersAfter(p, ps)
  {
    hide PointersAfter;
    var q := PointersAfter(p, ps);
    forall l | 0 <= l < NUM_LEVELS ensures PointersAfter(q, ps)[l] == q[l] {
      PointersAt(q, p, ps, l);
    }
  }

  lemma FitsMembers(codec: KeyCodec, e: Edit)
    requires e.Fits(codec)
    ensures LevelsExist(e)
  {
    forall p | p in e.compactPointers ensures p.0 < NUM_LEVELS { assert CompactPointer(p.0, p.1).Fits(codec); }
    forall d | d in e.deleted ensures d.0 < NUM_LEVELS { assert DeletedFile(d.0, d.1).Fits(codec); }
    forall f | f in e.newFiles ensures f.0 < NUM_LEVELS { assert NewFile(f.0, f.1).Fits(codec); }
  }

  lemma NumbersSet(codec: KeyCodec, e: Edit, d: Edit, used: seq<set<nat>>)
    requires e.Fits(codec) && |used| == NUM_LEVELS && FreshFiles(e, used)
    requires d == e.(logNumber := d.logNumber, prevLogNumber := d.prevLogNumber, nextFile := d.nextFile, lastSequence := d.lastSequence)
    requires d.logNumber == e.logNumber || (d.logNumber.Some? && d.logNumber.value < TWO_64)
    requires d.prevLogNumber == e.prevLogNumber || (d.prevLogNumber.Some? && d.prevLogNumber.value < TWO_64)
    requires d.nextFile == e.nextFile || (d.nextFile.Some? && d.nextFile.value < TWO_64)
    requires d.lastSequence == e.lastSequence || (d.lastSequence.Some? && d.lastSequence.value < TWO_64)
    ensures d.Fits(codec) && FreshFiles(d, used) && LevelsExist(d)
  {
    hide Fresh;
    FitsMembers(codec, e);
  }

  lemma FitsNumbers(codec: KeyCodec, e: Edit)
    requires e.Fits(codec)
    ensures e.logNumber.Some? ==> e.logNumber.value < TWO_64
    ensures e.prevLogNumber.Some? ==> e.prevLogNumber.value < TWO_64
  {
  }

  lemma SizeOfUsed(levels: Levels, used: seq<set<nat>>)
    requires AllOk(levels, used)
    ensures |used| == NUM_LEVELS
  {
  }

  lemma AgreeingPointers(r: Recovery, levels: Levels, pointers: Pointers, used: seq<set<nat>>)
    requires Agrees(r, levels, pointers, used)
    ensures r.pointers == pointers && |used| == NUM_LEVELS
  {
  }

  lemma RecordIs(codec: KeyCodec, record: seq<byte>, e: Edit, order: seq<(nat, nat)>)
    requires Lists(order, e.deleted) && record == EncodeItems(codec, Items(e, order))
    ensures IsRecordOf(codec, record, e)
  {
  }

  lemma EmptyLevelsExist()
    ensures LevelsExist(EMPTY)
  {
  }

  /* Reading records one by one. */

  lemma {:induction false} FailsForGood(codec: KeyCodec, name: seq<byte>, records: seq<seq<byte>>, r: Recovery, k: nat)
    requires k <= |records| && Replayed(codec, name, records[..k], r) == None
    ensures Replayed(codec, name, records, r) == None
    decreases |records| - k
  {
    hide Decode, After;
    if k == |records| {
      assert records[..k] == records;
    } else {
      assert records[..k + 1][..k] == records[..k];
      FailsForGood(codec, name, records, r, k + 1);
    }
  }

  lemma ReplayedOneMore(codec: KeyCodec, name: seq<byte>, records: seq<seq<byte>>, r: Recovery, k: nat)
    requires k < |records| && Replayed(codec, name, records[..k], r).Some?
    ensures Replayed(codec, name, records[..k + 1], r) ==
      match Decode(codec, records[k], EMPTY)
      case None => None
      case Some(e) =>
        if e.comparator.Some? && e.comparator.value != name then None
        else Some(After(Replayed(codec, name, records[..k], r).value, e))
  {
    hide Decode, After;
    assert records[..k + 1][..k] == records[..k];
  }

  // The decoder checks the levels it reads.
  lemma {:induction false} DecodedLevelsExist(codec: KeyCodec, s: seq<byte>, e: Edit)
    requires LevelsExist(e)
    ensures Decode(codec, s, e).Some? ==> LevelsExist(Decode(codec, s, e).value)
    decreases |s|
  {
    hide GetVarint32, GetItem;
    var tag := GetVarint32(s, 0);
    if tag.Got? {
      var item := GetItem(codec, tag.value, tag.rest);
      if item.Got? {
        ItemLevel(codec, tag.value, tag.rest);
        DecodedLevelsExist(codec, item.rest, item.value.AddTo(e));
      }
    }
  }

  lemma ItemLevel(codec: KeyCodec, tag: nat, s: seq<byte>)
    ensures var r := GetItem(codec, tag, s);
      r.Got? ==> match r.value
        case CompactPointer(level, _) => level < NUM_LEVELS
        case DeletedFile(level, _) => level < NUM_LEVELS
        case NewFile(level, _) => level < NUM_LEVELS
        case _ => true
  {
    hide GetVarint32, DecodeVarint, GetInternalKey;
  }

  class VersionSet {
    const codec: KeyCodec
    const name: seq<byte>
    var current: Levels
    var compactPointers: Pointers
    var logNumber: nat
    var prevLogNumber: nat
    var nextFileNumber: nat
    var manifestFileNumber: nat
    var lastSequence: nat
    // The records of the descriptor file, once there is one.
    var descriptorLog: Option<seq<seq<byte>>>
    // The numbers of all files each level ever had.
    ghost var used: seq<set<nat>>

    // The set of an empty database.
    constructor (codec: KeyCodec, name: seq<byte>)
      requires |name| < TWO_32
      ensures this.codec == codec && this.name == name && Valid()
      ensures current == NO_FILES && compactPointers == NO_POINTERS && descriptorLog == None
      ensures nextFileNumber == 2 && used == seq(NUM_LEVELS, _ => {})
    {
      this.codec, this.name := codec, name;
      current, compactPointers := NO_FILES, NO_POINTERS;
      logNumber, prevLogNumber, nextFileNumber, manifestFileNumber, lastSequence := 0, 0, 2, 0, 0;
      descriptorLog := None;
      used := seq(NUM_LEVELS, _ => {});
      new;
      assert forall l :: 0 <= l < NUM_LEVELS ==> LevelOk(current[l], used[l]);
    }

    method NewFileNumber() returns (n: nat)
      requires Valid() && nextFileNumber + 1 < TWO_64
      modifies `nextFileNumber
      ensures Valid() && n == old(nextFileNumber) && nextFileNumber == n + 1
    {
      hide Replayed, Agrees, AllOk, FilesFit, PointersFit;
      n := nextFileNumber;
      nextFileNumber := nextFileNumber + 1;
    }

    method SetLastSequence(s: nat)
      requires Valid() && lastSequence <= s < TWO_64
      modifies `lastSequence
      ensures Valid() && lastSequence == s
    {
      hide Replayed, Agrees, AllOk, FilesFit, PointersFit;
      lastSequence := s;
    }

    ghost predicate NumbersFit()
      reads this
    {
      && logNumber < TWO_64 && prevLogNumber < TWO_64 && nextFileNumber < TWO_64 && lastSequence < TWO_64
      && |name| < TWO_32 && PointersFit(codec, compactPointers)
      && forall l :: 0 <= l < NUM_LEVELS ==> FilesFit(codec, current[l])
    }

    // The descriptor file rebuilds the current version.
    ghost predicate Valid()
      reads this
    {
      && NumbersFit() && AllOk(current, used)
      && (descriptorLog.Some? ==>
          var r := Replayed(codec, name, descriptorLog.value, Start(NO_POINTERS));
          r.Some? && Agrees(r.value, current, compactPointers, used))
    }

    // The record that starts a new descriptor file.
    method WriteSnapshot() returns (record: seq<byte>)
      ensures IsRecordOf(codec, record, Snapshot(name, current, compactPointers))
    {
      var edit := new VersionEdit();
      edit.comparator := Some(name);
      var level := 0;
      while level < NUM_LEVELS
        invariant 0 <= level <= NUM_LEVELS
        invariant edit.Contents() == EMPTY.(comparator := Some(name), compactPointers := PointerList(compactPointers[..level]))
        invariant unchanged(this)
      {
        assert compactPointers[..level + 1][..level] == compactPointers[..level];
        if compactPointers[level].Some? {
          edit.compactPointers := edit.compactPointers + [(level, compactPointers[level].value)];
        }
        level := level + 1;
      }
      assert compactPointers[..level] == compactPointers;
      level := 0;
      while level < NUM_LEVELS
        invariant 0 <= level <= NUM_LEVELS
        invariant edit.Contents() == EMPTY.(comparator := Some(name), compactPointers := PointerList(compactPointers), newFiles := FileList(current[..level]))
        invariant unchanged(this)
      {
        assert current[..level + 1][..level] == current[..level];
        var files := current[level];
        ghost var before := edit.newFiles;
        var i := 0;
        while i < |files|
          invariant 0 <= i <= |files|
          invariant edit.Contents() == EMPTY.(comparator := Some(name), compactPointers := PointerList(compactPointers),
                                              newFiles := before + AtLevel(level, files[..i]))
          invariant unchanged(this)
        {
          edit.newFiles := edit.newFiles + [(level, files[i])];
          i := i + 1;
        }
        assert files[..i] == files;
        level := level + 1;
      }
      assert current[..level] == current;
      ghost var order;
      record, order := edit.EncodeTo(codec);
    }

    // Logs the edit and makes the version it leads to current.
    method LogAndApply(edit: VersionEdit)
      requires Valid() && edit.Contents().Fits(codec)
      requires edit.logNumber.Some? ==> logNumber <= edit.logNumber.value < nextFileNumber
      requires edit.comparator.None? && FreshFiles(edit.Contents(), used)
      modifies this, edit
      ensures Valid() && descriptorLog.Some?
      ensures edit.Contents() == old(edit.Contents()).(
                logNumber := Some(if old(edit.logNumber).Some? then old(edit.logNumber).value else old(logNumber)),
                prevLogNumber := Some(if old(edit.prevLogNumber).Some? then old(edit.prevLogNumber).value else old(prevLogNumber)),
                nextFile := Some(old(nextFileNumber)), lastSequence := Some(old(lastSequence)))
      ensures current == NextVersion(old(current), edit.Contents())
      ensures compactPointers == PointersAfter(old(compactPointers), edit.compactPointers)
      ensures Some(logNumber) == edit.logNumber && Some(prevLogNumber) == edit.prevLogNumber
      ensures nextFileNumber == old(nextFileNumber) && lastSequence == old(lastSequence)
      ensures RestoresAll()
    {
      hide Replayed, Agrees, AllOk, NextVersion, UsedAfter, PointersAfter, Edit.Fits, FreshFiles, FilesFit, PointersFit, LevelsExist,
        EncodeItems, Items, Lists, IsRecordOf, RestoresAll;
      SizeOfUsed(current, used);
      SetNumbers(edit);
      EditPointersFit(codec, compactPointers, edit.Contents());
      var v := BuildVersion(edit);
      var log := OpenDescriptor(old(compactPointers));
      PointersAgain(old(compactPointers), edit.compactPointers);
      AgreeingPointers(Replayed(codec, name, log, Start(NO_POINTERS)).value, current,
                       if descriptorLog.Some? then old(compactPointers) else compactPointers, used);
      Append(edit, log, v);
    }

    // Reopening the database would restore the same state.
    ghost predicate RestoresAll()
      reads this
    {
      descriptorLog.Some? &&
      match Replayed(codec, name, descriptorLog.value, Start(NO_POINTERS))
      case None => false
      case Some(r) =>
        && |r.states| == NUM_LEVELS && SavedLevels(NO_FILES, r.states) == current && r.pointers == compactPointers
        && r.logNumber == Some(logNumber) && r.prevLogNumber == Some(prevLogNumber)
        && r.nextFile == Some(nextFileNumber) && r.lastSequence == Some(lastSequence)
    }

    method SetNumbers(edit: VersionEdit)
      requires NumbersFit() && edit.Contents().Fits(codec) && |used| == NUM_LEVELS && FreshFiles(edit.Contents(), used)
      modifies edit
      ensures edit.Contents() == old(edit.Contents()).(
                logNumber := Some(if old(edit.logNumber).Some? then old(edit.logNumber).value else logNumber),
                prevLogNumber := Some(if old(edit.prevLogNumber).Some? then old(edit.prevLogNumber).value else prevLogNumber),
                nextFile := Some(nextFileNumber), lastSequence := Some(lastSequence))
      ensures edit.Contents().Fits(codec) && FreshFiles(edit.Contents(), used) && LevelsExist(edit.Contents())
    {
      hide Edit.Fits, FreshFiles, FilesFit, PointersFit, LevelsExist;
      if edit.logNumber.None? { edit.logNumber := Some(logNumber); }
      if edit.prevLogNumber.None? { edit.prevLogNumber := Some(prevLogNumber); }
      edit.nextFile := Some(nextFileNumber);
      edit.lastSequence := Some(lastSequence);
      NumbersSet(codec, old(edit.Contents()), edit.Contents(), used);
    }

    // The records so far: those of the descriptor file, or a new snapshot.
    method OpenDescriptor(ghost pointers: Pointers) returns (log: seq<seq<byte>>)
      requires NumbersFit() && AllOk(current, used)
      requires descriptorLog.Some? ==>
        var r := Replayed(codec, name, descriptorLog.value, Start(NO_POINTERS));
        r.Some? && Agrees(r.value, current, pointers, used)
      ensures var r := Replayed(codec, name, log, Start(NO_POINTERS));
        r.Some? && Agrees(r.value, current, if descriptorLog.Some? then pointers else compactPointers, used)
    {
      hide Replayed, Agrees, AllOk, FilesFit, PointersFit, IsRecordOf, Snapshot;
      if descriptorLog.None? {
        var snapshot := WriteSnapshot();
        log := [snapshot];
        SnapshotIsLogged(codec, name, current, compactPointers, used, snapshot);
      } else {
        log := descriptorLog.value;
      }
    }

    // Adds the record of the edit and installs the version it leads to.
    method Append(edit: VersionEdit, log: seq<seq<byte>>, v: Levels)
      requires NumbersFit() && AllOk(current, used) && edit.Contents().Fits(codec) && edit.comparator.None?
      requires FreshFiles(edit.Contents(), used) && v == NextVersion(current, edit.Contents())
      requires edit.nextFile == Some(nextFileNumber) && edit.lastSequence == Some(lastSequence)
      requires edit.logNumber.Some? && edit.prevLogNumber.Some?
      requires var r := Replayed(codec, name, log, Start(NO_POINTERS));
        r.Some? && Agrees(r.value, current, r.value.pointers, used) &&
        PointersAfter(r.value.pointers, edit.compactPointers) == compactPointers
      modifies `descriptorLog, `current, `logNumber, `prevLogNumber, `used
      ensures Valid() && RestoresAll() && current == v && descriptorLog.Some?
      ensures Some(logNumber) == edit.logNumber && Some(prevLogNumber) == edit.prevLogNumber
    {
      hide Replayed, Agrees, AllOk, NextVersion, StatesAfter, SavedLevels, UsedAfter, PointersAfter, Edit.Fits, FreshFiles, FilesFit, PointersFit,
        EncodeItems, Items, Lists, IsRecordOf;
      ghost var e := edit.Contents();
      FitsNumbers(codec, e);
      var record, order := edit.EncodeTo(codec);
      RecordIs(codec, record, e, order);
      ghost var r := Replayed(codec, name, log, Start(NO_POINTERS)).value;
      EditIsLogged(codec, name, log, r, current, r.pointers, used, record, e);
      AllOkStep(current, used, e);
      FilesFitStep(codec, current, used, e);
      descriptorLog := Some(log + [record]);
      current := v;
      logNumber := edit.logNumber.value;
      prevLogNumber := edit.prevLogNumber.value;
      used := UsedAfter(used, e);
    }

    // A builder over the current version, given one edit.
    method BuildVersion(edit: VersionEdit) returns (v: Levels)
      requires AllOk(current, used) && LevelsExist(edit.Contents())
      modifies `compactPointers
      ensures v == NextVersion(current, edit.Contents())
      ensures compactPointers == PointersAfter(old(compactPointers), edit.compactPointers)
    {
      hide PointersAfter, ApplyTo, Saved, LevelsExist;
      assert forall l :: 0 <= l < NUM_LEVELS ==> LevelOk(current[l], used[l]);
      var builder := new Builder(this, current);
      builder.Apply(edit);
      v := builder.SaveTo();
    }

    // Rebuilds the version the records of a descriptor file describe.
    // `given` is what the levels of that version have had.
    method Recover(records: seq<seq<byte>>, ghost given: seq<set<nat>>) returns (ok: bool)
      requires forall l :: 0 <= l < NUM_LEVELS ==> InOrder(current[l])
      modifies this
      ensures var r := Replayed(codec, name, records, Start(old(compactPointers)));
        && ok == (r.Some? && r.value.nextFile.Some? && r.value.logNumber.Some? && r.value.lastSequence.Some?)
        && (ok ==>
            && |r.value.states| == NUM_LEVELS
            && current == SavedLevels(old(current), r.value.states)
            && compactPointers == r.value.pointers
            && Some(logNumber) == r.value.logNumber && Some(lastSequence) == r.value.lastSequence
            && prevLogNumber == (if r.value.prevLogNumber.Some? then r.value.prevLogNumber.value else 0)
            && Some(manifestFileNumber) == r.value.nextFile && nextFileNumber == manifestFileNumber + 1)
      ensures descriptorLog == old(descriptorLog) && used == given
    {
      hide Replayed, Decode, StatesAfter, PointersAfter, InOrder, SavedLevels, LevelsExist;
      var builder := new Builder(this, current);
      ok := true;
      ReplayedNothing(codec, name, Start(compactPointers));
      assert records[..0] == [];
      var log, prev, next, last: Option<nat> := None, None, None, None;
      var k := 0;
      while ok && k < |records|
        invariant 0 <= k <= |records|
        invariant unchanged(`current) && unchanged(`descriptorLog) && builder.levels.Length == NUM_LEVELS && fresh(builder.levels)
        invariant ok ==> Replayed(codec, name, records[..k], Start(old(compactPointers))) == Some(Recovery(builder.levels[..], compactPointers, log, prev, next, last))
        invariant !ok ==> Replayed(codec, name, records, Start(old(compactPointers))) == None
      {
        var edit := new VersionEdit();
        ok := edit.DecodeFrom(codec, records[k]);
        ReplayedOneMore(codec, name, records, Start(old(compactPointers)), k);
        EmptyLevelsExist();
        DecodedLevelsExist(codec, records[k], EMPTY);
        if ok && edit.comparator.Some? && edit.comparator.value != name { ok := false; }
        if ok { builder.Apply(edit); }
        if edit.logNumber.Some? { log := edit.logNumber; }
        if edit.prevLogNumber.Some? { prev := edit.prevLogNumber; }
        if edit.nextFile.Some? { next := edit.nextFile; }
        if edit.lastSequence.Some? { last := edit.lastSequence; }
        k := k + 1;
        if !ok { FailsForGood(codec, name, records, Start(old(compactPointers)), k); }
      }
      assert ok ==> records[..k] == records;
      if ok && next.Some? && log.Some? && last.Some? {
        if prev.None? { prev := Some(0); }
        current := builder.SaveTo();
        manifestFileNumber := next.value;
        nextFileNumber := next.value + 1;
        lastSequence := last.value;
        logNumber := log.value;
        prevLogNumber := prev.value;
      } else {
        ok := false;
      }
      used := given;
    }
  }

  ghost predicate FilesFit(codec: KeyCodec, fs: seq<FileMeta>) {
    forall f :: f in fs ==> NewFile(0, f).Fits(codec)
  }

  ghost predicate PointersFit(codec: KeyCodec, ps: seq<Option<InternalKey>>) {
    forall i :: 0 <= i < |ps| && ps[i].Some? ==> codec.Stores(ps[i].value)
  }
}
