// Logging version edits and rebuilding the current version from them
// (VersionSet in db/version_set.cc).

module ManifestReplay {
  import opened Wrappers
  import opened Coding
  import opened Varint
  import opened DbFormat
  import opened Files
  import opened VersionEdits
  import opened VersionBuilder

  type Levels = ls: seq<seq<FileMeta>> | |ls| == NUM_LEVELS witness seq(NUM_LEVELS, _ => [])
  type Pointers = ps: seq<Option<InternalKey>> | |ps| == NUM_LEVELS witness seq(NUM_LEVELS, _ => None)

  // What replaying edits has collected.
  datatype Recovery = Recovery(
    states: seq<LevelState>,
    pointers: Pointers,
    logNumber: Option<nat>,
    prevLogNumber: Option<nat>,
    nextFile: Option<nat>,
    lastSequence: Option<nat>)

  function Start(pointers: Pointers): Recovery {
    Recovery(seq(NUM_LEVELS, _ => NOTHING), pointers, None, None, None, None)
  }

  const NO_POINTERS: Pointers := seq(NUM_LEVELS, _ => None)

  ghost predicate LevelsExist(e: Edit) {
    && (forall p :: p in e.compactPointers ==> p.0 < NUM_LEVELS)
    && (forall d :: d in e.deleted ==> d.0 < NUM_LEVELS)
    && forall f :: f in e.newFiles ==> f.0 < NUM_LEVELS
  }

  function PointersAfter(pointers: Pointers, ps: seq<(nat, InternalKey)>): Pointers {
    if ps == [] then pointers
    else
      var before := PointersAfter(pointers, ps[..|ps| - 1]);
      var (level, key) := ps[|ps| - 1];
      if level < NUM_LEVELS then before[level := Some(key)] else before
  }

  function StatesAfter(states: seq<LevelState>, e: Edit): seq<LevelState> {
    seq(|states|, l requires 0 <= l < |states| => ApplyTo(states[l], l, e))
  }

  function After(r: Recovery, e: Edit): Recovery {
    Recovery(StatesAfter(r.states, e), PointersAfter(r.pointers, e.compactPointers),
             Or(e.logNumber, r.logNumber), Or(e.prevLogNumber, r.prevLogNumber),
             Or(e.nextFile, r.nextFile), Or(e.lastSequence, r.lastSequence))
  }

  // Reading the records of a descriptor log; `name` is the comparator in use.
  function Replayed(codec: KeyCodec, name: seq<byte>, records: seq<seq<byte>>, r: Recovery): Option<Recovery> {
    if records == [] then Some(r)
    else
      match Replayed(codec, name, records[..|records| - 1], r)
      case None => None
      case Some(before) =>
        match Decode(codec, records[|records| - 1], EMPTY)
        case None => None
        case Some(e) => if e.comparator.Some? && e.comparator.value != name then None else Some(After(before, e))
  }

  // A descriptor log is read exactly if every record of it is a version edit
  // that names no other comparator.
  lemma {:induction false} ReplayedIff(codec: KeyCodec, name: seq<byte>, records: seq<seq<byte>>, r: Recovery)
    ensures Replayed(codec, name, records, r).Some?
       <==> forall k :: 0 <= k < |records| ==>
              var e := Decode(codec, records[k], EMPTY);
              e.Some? && (e.value.comparator.Some? ==> e.value.comparator.value == name)
  {
    hide Decode, After;
    if records != [] {
      var n := |records| - 1;
      ReplayedIff(codec, name, records[..n], r);
      assert forall k :: 0 <= k < n ==> records[..n][k] == records[k];
    }
  }

  // The last pointer given for a level counts.
  lemma {:induction false} LastPointer(pointers: Pointers, ps: seq<(nat, InternalKey)>, level: nat, i: nat)
    requires level < NUM_LEVELS && i < |ps| && ps[i].0 == level && forall j :: i < j < |ps| ==> ps[j].0 != level
    ensures PointersAfter(pointers, ps)[level] == Some(ps[i].1)
    decreases |ps|
  {
    var n := |ps| - 1;
    if i < n { LastPointer(pointers, ps[..n], level, i); }
  }

  lemma {:induction false} NoPointer(pointers: Pointers, ps: seq<(nat, InternalKey)>, level: nat)
    requires level < NUM_LEVELS && forall j :: 0 <= j < |ps| ==> ps[j].0 != level
    ensures PointersAfter(pointers, ps)[level] == pointers[level]
  {
    if ps != [] { NoPointer(pointers, ps[..|ps| - 1], level); }
  }

  function SavedLevels(base: seq<seq<FileMeta>>, states: seq<LevelState>): seq<seq<FileMeta>>
    requires |base| == |states|
  {
    seq(|base|, l requires 0 <= l < |base| => Saved(base[l], states[l]))
  }

  // LogAndApply's effect on the current version.
  function NextVersion(levels: Levels, e: Edit): Levels {
    seq(NUM_LEVELS, l requires 0 <= l < NUM_LEVELS => Saved(levels[l], ApplyTo(NOTHING, l, e)))
  }

  function NextVersions(levels: Levels, es: seq<Edit>): Levels {
    if es == [] then levels else NextVersion(NextVersions(levels, es[..|es| - 1]), es[|es| - 1])
  }

  /* The snapshot record. */

  function PointerList(pointers: seq<Option<InternalKey>>): seq<(nat, InternalKey)> {
    if pointers == [] then []
    else
      var n := |pointers| - 1;
      PointerList(pointers[..n]) + if pointers[n].Some? then [(n, pointers[n].value)] else []
  }

  function AtLevel(level: nat, fs: seq<FileMeta>): seq<(nat, FileMeta)> {
    seq(|fs|, i requires 0 <= i < |fs| => (level, fs[i]))
  }

  function FileList(levels: seq<seq<FileMeta>>): seq<(nat, FileMeta)> {
    if levels == [] then []
    else FileList(levels[..|levels| - 1]) + AtLevel(|levels| - 1, levels[|levels| - 1])
  }

  function Snapshot(name: seq<byte>, levels: Levels, pointers: Pointers): Edit {
    EMPTY.(comparator := Some(name), compactPointers := PointerList(pointers), newFiles := FileList(levels))
  }

  ghost predicate NumbersDiffer(fs: seq<FileMeta>) {
    forall i, j :: 0 <= i < j < |fs| ==> fs[i].number != fs[j].number
  }

  lemma {:induction false} FileListAt(levels: seq<seq<FileMeta>>, level: nat)
    requires forall l :: 0 <= l < |levels| ==> NumbersDiffer(levels[l])
    ensures forall p :: p in FileList(levels) ==> p.0 < |levels|
    ensures AddedAt(FileList(levels), level) == if level < |levels| then Members(levels[level]) else {}
    ensures Fresh(FileList(levels), level, {})
  {
    if levels == [] {
    } else {
      var n := |levels| - 1;
      FileListAt(levels[..n], level);
      assert forall l :: 0 <= l < n ==> levels[..n][l] == levels[l];
      AtLevelIs(n, levels[n], level);
      AddedJoin(FileList(levels[..n]), AtLevel(n, levels[n]), level);
      FreshJoin(FileList(levels[..n]), AtLevel(n, levels[n]), level, {});
    }
  }

  lemma AtLevelIs(n: nat, fs: seq<FileMeta>, level: nat)
    requires NumbersDiffer(fs)
    ensures forall p :: p in AtLevel(n, fs) ==> p.0 == n
    ensures AddedAt(AtLevel(n, fs), level) == if level == n then Members(fs) else {}
    ensures Fresh(AtLevel(n, fs), level, {})
  {
    if level == n {
      forall f | f in fs ensures f in AddedAt(AtLevel(n, fs), level) {
        var i :| 0 <= i < |fs| && fs[i] == f;
        assert AtLevel(n, fs)[i] == (n, f);
      }
    }
  }

  lemma AddedJoin(a: seq<(nat, FileMeta)>, b: seq<(nat, FileMeta)>, level: nat)
    ensures AddedAt(a + b, level) == AddedAt(a, level) + AddedAt(b, level)
  {
    forall p | p in a + b ensures p in a || p in b { }
  }

  lemma FreshJoin(a: seq<(nat, FileMeta)>, b: seq<(nat, FileMeta)>, level: nat, used: set<nat>)
    requires Fresh(a, level, used) && Fresh(b, level, used)
    requires AddedAt(a, level) == {} || AddedAt(b, level) == {}
    ensures Fresh(a + b, level, used)
  {
    SomeAt(a, level);
    SomeAt(b, level);
  }

  lemma SomeAt(a: seq<(nat, FileMeta)>, level: nat)
    ensures (exists i :: 0 <= i < |a| && a[i].0 == level) ==> AddedAt(a, level) != {}
  {
    if i :| 0 <= i < |a| && a[i].0 == level {
      assert a[i].1 in AddedAt(a, level);
    }
  }

  lemma {:induction false} PointerListRestores(pointers: Pointers, n: nat)
    requires n <= NUM_LEVELS
    ensures forall p :: p in PointerList(pointers[..n]) ==> p.0 < n
    ensures PointersAfter(NO_POINTERS, PointerList(pointers[..n])) == pointers[..n] + NO_POINTERS[n..]
    ensures PointersAfter(pointers, PointerList(pointers[..n])) == pointers
  {
    if n == 0 {
    } else {
      PointerListRestores(pointers, n - 1);
      assert pointers[..n][..n - 1] == pointers[..n - 1];
      var before := pointers[..n - 1] + NO_POINTERS[n - 1..];
      assert pointers[..n] + NO_POINTERS[n..] == before[n - 1 := pointers[n - 1]];
      assert pointers[n - 1 := pointers[n - 1]] == pointers;
      if pointers[n - 1].Some? {
        var ps := PointerList(pointers[..n]);
        assert ps == PointerList(pointers[..n - 1]) + [(n - 1, pointers[n - 1].value)];
        assert ps[..|ps| - 1] == PointerList(pointers[..n - 1]);
      } else {
        assert before[n - 1 := pointers[n - 1]] == before;
        assert PointerList(pointers[..n]) == PointerList(pointers[..n - 1]);
      }
    }
  }

  /* Live and replayed state, level by level. */

  ghost predicate LevelAgrees(st: LevelState, fs: seq<FileMeta>, used: set<nat>) {
    InOrder(st.added) && Saved([], st) == fs && Numbers(Members(st.added)) <= used
  }

  ghost predicate LevelOk(fs: seq<FileMeta>, used: set<nat>) {
    InOrder(fs) && NumbersDiffer(fs) && Numbers(Members(fs)) <= used
  }

  ghost predicate Agrees(r: Recovery, levels: Levels, pointers: Pointers, used: seq<set<nat>>) {
    && |r.states| == NUM_LEVELS == |used| && r.pointers == pointers
    && forall l :: 0 <= l < NUM_LEVELS ==> LevelAgrees(r.states[l], levels[l], used[l])
  }

  ghost predicate AllOk(levels: Levels, used: seq<set<nat>>) {
    |used| == NUM_LEVELS && forall l :: 0 <= l < NUM_LEVELS ==> LevelOk(levels[l], used[l])
  }

  // Each level gets files it never had.
  ghost predicate FreshFiles(e: Edit, used: seq<set<nat>>)
    requires |used| == NUM_LEVELS
  {
    forall l :: 0 <= l < NUM_LEVELS ==> Fresh(e.newFiles, l, used[l])
  }

  ghost function UsedAfter(used: seq<set<nat>>, e: Edit): seq<set<nat>> {
    seq(|used|, l requires 0 <= l < |used| => used[l] + Numbers(AddedAt(e.newFiles, l)))
  }

  lemma LevelStep(st: LevelState, fs: seq<FileMeta>, used: set<nat>, level: nat, e: Edit)
    requires LevelAgrees(st, fs, used) && Fresh(e.newFiles, level, used)
    ensures LevelAgrees(ApplyTo(st, level, e), Saved(fs, ApplyTo(NOTHING, level, e)), used + Numbers(AddedAt(e.newFiles, level)))
  {
    hide Saved, ApplyTo, Members, InOrder, Fresh;
    NothingAdded();
    FreshForFewer(e.newFiles, level, used, Numbers(Members([])) + Numbers(Members(st.added)));
    OneMoreEdit([], st, level, e);
    SavedAre([], st, level, e);
    NumbersJoin(Members(st.added), AddedAt(e.newFiles, level));
  }

  lemma LevelOkStep(fs: seq<FileMeta>, used: set<nat>, level: nat, e: Edit)
    requires LevelOk(fs, used) && Fresh(e.newFiles, level, used)
    ensures LevelOk(Saved(fs, ApplyTo(NOTHING, level, e)), used + Numbers(AddedAt(e.newFiles, level)))
  {
    hide Saved, ApplyTo, InOrder, Fresh;
    NothingAdded();
    FreshForFewer(e.newFiles, level, used, Numbers(Members(fs)) + Numbers(Members([])));
    SavedAre(fs, NOTHING, level, e);
    var next := Saved(fs, ApplyTo(NOTHING, level, e));
    var stay := Surviving(Members(fs) + Members([]), {} + DeletedAt(e.deleted, level));
    NumbersJoin(stay, AddedAt(e.newFiles, level));
    assert Numbers(stay) <= Numbers(Members(fs));
    OneFilePerNumber(fs, e.newFiles, level, used);
    InOrderDiffer(next, Members(fs) + AddedAt(e.newFiles, level));
  }

  ghost predicate PerNumber(fs: set<FileMeta>) {
    forall f, g :: f in fs && g in fs && f.number == g.number ==> f == g
  }

  lemma OneFilePerNumber(fs: seq<FileMeta>, added: seq<(nat, FileMeta)>, level: nat, used: set<nat>)
    requires NumbersDiffer(fs) && Numbers(Members(fs)) <= used && Fresh(added, level, used)
    ensures PerNumber(Members(fs) + AddedAt(added, level))
  {
    AddedAreFresh(added, level, used);
    forall f, g | f in Members(fs) + AddedAt(added, level) && g in Members(fs) + AddedAt(added, level) && f.number == g.number
      ensures f == g
    {
      assert f in Members(fs) ==> f.number in Numbers(Members(fs));
      assert g in Members(fs) ==> g.number in Numbers(Members(fs));
      assert f in AddedAt(added, level) ==> f.number in Numbers(AddedAt(added, level));
      assert g in AddedAt(added, level) ==> g.number in Numbers(AddedAt(added, level));
    }
  }

  lemma InOrderDiffer(fs: seq<FileMeta>, all: set<FileMeta>)
    requires InOrder(fs) && PerNumber(all) && Members(fs) <= all
    ensures NumbersDiffer(fs)
  {
    forall i, j | 0 <= i < j < |fs| ensures fs[i].number != fs[j].number {
      assert fs[i] in Members(fs) && fs[j] in Members(fs);
      BeforeIsOrder(fs[i], fs[j], fs[i]);
    }
  }

  // One more record, one more version.
  lemma AgreesStep(r: Recovery, levels: Levels, pointers: Pointers, used: seq<set<nat>>, e: Edit)
    requires Agrees(r, levels, pointers, used) && FreshFiles(e, used)
    ensures Agrees(After(r, e), NextVersion(levels, e), PointersAfter(pointers, e.compactPointers), UsedAfter(used, e))
  {
    hide LevelAgrees, ApplyTo, Saved, Fresh;
    forall l | 0 <= l < NUM_LEVELS
      ensures LevelAgrees(After(r, e).states[l], NextVersion(levels, e)[l], UsedAfter(used, e)[l])
    {
      LevelStep(r.states[l], levels[l], used[l], l, e);
    }
  }

  lemma AllOkStep(levels: Levels, used: seq<set<nat>>, e: Edit)
    requires AllOk(levels, used) && FreshFiles(e, used)
    ensures AllOk(NextVersion(levels, e), UsedAfter(used, e))
  {
    hide LevelOk, ApplyTo, Saved, Fresh;
    forall l | 0 <= l < NUM_LEVELS ensures LevelOk(NextVersion(levels, e)[l], UsedAfter(used, e)[l]) {
      LevelOkStep(levels[l], used[l], l, e);
    }
  }

  // A snapshot record alone rebuilds the version it was taken of.
  lemma SnapshotRestores(name: seq<byte>, levels: Levels, pointers: Pointers, used: seq<set<nat>>)
    requires AllOk(levels, used)
    ensures Agrees(After(Start(NO_POINTERS), Snapshot(name, levels, pointers)), levels, pointers, used)
  {
    hide LevelAgrees, LevelOk, ApplyTo, FileList, PointerList;
    var e := Snapshot(name, levels, pointers);
    PointerListRestores(pointers, NUM_LEVELS);
    assert pointers[..NUM_LEVELS] == pointers && NO_POINTERS[NUM_LEVELS..] == [];
    forall l | 0 <= l < NUM_LEVELS ensures LevelAgrees(ApplyTo(NOTHING, l, e), levels[l], used[l]) {
      LevelRestored(e, levels, used, l);
    }
  }

  lemma LevelRestored(e: Edit, levels: Levels, used: seq<set<nat>>, l: nat)
    requires AllOk(levels, used) && l < NUM_LEVELS && e.newFiles == FileList(levels) && e.deleted == {}
    ensures LevelAgrees(ApplyTo(NOTHING, l, e), levels[l], used[l])
  {
    hide Saved, ApplyTo, InOrder, Fresh, FileList, NumbersDiffer;
    assert forall k :: 0 <= k < NUM_LEVELS ==> LevelOk(levels[k], used[k]);
    FileListAt(levels, l);
    NothingAdded();
    assert Numbers(Members([])) + Numbers(Members([])) == {};
    SavedAre([], NOTHING, l, e);
    SameFilesSameList(Saved([], ApplyTo(NOTHING, l, e)), levels[l]);
  }

  ghost predicate IsRecordOf(codec: KeyCodec, record: seq<byte>, e: Edit) {
    exists order :: Lists(order, e.deleted) && record == EncodeItems(codec, Items(e, order))
  }

  // Appending the record of an edit.
  lemma ReplayStep(codec: KeyCodec, name: seq<byte>, records: seq<seq<byte>>, r: Recovery, record: seq<byte>, e: Edit)
    requires e.Fits(codec) && IsRecordOf(codec, record, e)
    requires Replayed(codec, name, records, Start(NO_POINTERS)) == Some(r)
    requires e.comparator.Some? ==> e.comparator.value == name
    ensures Replayed(codec, name, records + [record], Start(NO_POINTERS)) == Some(After(r, e))
  {
    hide Decode, Edit.Fits, After, EncodeItems, Items;
    var order :| Lists(order, e.deleted) && record == EncodeItems(codec, Items(e, order));
    EditRoundTrip(codec, e, order);
    assert (records + [record])[..|records|] == records;
  }

  ghost function UsedUpTo(used: seq<set<nat>>, es: seq<Edit>): (r: seq<set<nat>>)
    ensures |r| == |used|
  {
    if es == [] then used else UsedAfter(UsedUpTo(used, es[..|es| - 1]), es[|es| - 1])
  }

  function PointersUpTo(pointers: Pointers, es: seq<Edit>): Pointers {
    if es == [] then pointers else PointersAfter(PointersUpTo(pointers, es[..|es| - 1]), es[|es| - 1].compactPointers)
  }

  // The records of edits that can be written, none of which names a comparator.
  ghost predicate AllLogged(codec: KeyCodec, records: seq<seq<byte>>, es: seq<Edit>) {
    |records| == |es| &&
    forall k :: 0 <= k < |es| ==> es[k].Fits(codec) && es[k].comparator.None? && IsRecordOf(codec, records[k], es[k])
  }

  ghost predicate AllFreshFiles(es: seq<Edit>, used: seq<set<nat>>) {
    |used| == NUM_LEVELS && forall k :: 0 <= k < |es| ==> FreshFiles(es[k], UsedUpTo(used, es[..k]))
  }

  // The numbers an edit sets.
  ghost predicate HasNumbersOf(r: Recovery, e: Edit) {
    && (e.logNumber.Some? ==> r.logNumber == e.logNumber)
    && (e.prevLogNumber.Some? ==> r.prevLogNumber == e.prevLogNumber)
    && (e.nextFile.Some? ==> r.nextFile == e.nextFile)
    && (e.lastSequence.Some? ==> r.lastSequence == e.lastSequence)
  }

  lemma ShorterLogged(codec: KeyCodec, records: seq<seq<byte>>, es: seq<Edit>)
    requires AllLogged(codec, records, es) && es != []
    ensures var n := |es| - 1;
      AllLogged(codec, records[..n], es[..n]) && es[n].Fits(codec) && es[n].comparator.None? && IsRecordOf(codec, records[n], es[n])
  {
    hide Edit.Fits, IsRecordOf;
  }

  lemma ShorterFresh(es: seq<Edit>, used: seq<set<nat>>)
    requires AllFreshFiles(es, used) && es != []
    ensures AllFreshFiles(es[..|es| - 1], used) && |used| == NUM_LEVELS && FreshFiles(es[|es| - 1], UsedUpTo(used, es[..|es| - 1]))
  {
    hide FreshFiles, UsedUpTo;
    var es' := es[..|es| - 1];
    forall k | 0 <= k < |es'| ensures FreshFiles(es'[k], UsedUpTo(used, es'[..k])) {
      assert es'[..k] == es[..k] && es'[k] == es[k];
      assert FreshFiles(es[k], UsedUpTo(used, es[..k]));
    }
  }

  // Replaying a snapshot of a version and the records of the edits applied to
  // it since gives the version they lead to one by one, and the numbers of the
  // last edit.
  lemma {:induction false} ReplayIsLive(codec: KeyCodec, name: seq<byte>, levels: Levels, pointers: Pointers,
                                        used: seq<set<nat>>, snapshot: seq<byte>, es: seq<Edit>, records: seq<seq<byte>>)
    requires AllOk(levels, used)
    requires Snapshot(name, levels, pointers).Fits(codec) && IsRecordOf(codec, snapshot, Snapshot(name, levels, pointers))
    requires AllLogged(codec, records, es) && AllFreshFiles(es, used)
    ensures var r := Replayed(codec, name, [snapshot] + records, Start(NO_POINTERS));
      && r.Some? && Agrees(r.value, NextVersions(levels, es), PointersUpTo(pointers, es), UsedUpTo(used, es))
      && (es != [] ==> HasNumbersOf(r.value, es[|es| - 1]))
    decreases |es|
  {
    hide IsRecordOf, Edit.Fits, Agrees, FreshFiles, AllOk, Snapshot, NextVersion, PointersAfter, UsedAfter, StatesAfter,
      AllLogged, AllFreshFiles, Replayed;
    if es == [] {
      SnapshotRestores(name, levels, pointers, used);
      SnapshotNamed(name, levels, pointers);
      ReplayedNothing(codec, name, Start(NO_POINTERS));
      ReplayStep(codec, name, [], Start(NO_POINTERS), snapshot, Snapshot(name, levels, pointers));
      SameCount(codec, records, es);
      assert [snapshot] + records == [] + [snapshot];
    } else {
      var n := |es| - 1;
      SameCount(codec, records, es);
      ShorterLogged(codec, records, es);
      ShorterFresh(es, used);
      ReplayIsLive(codec, name, levels, pointers, used, snapshot, es[..n], records[..n]);
      var fore := [snapshot] + records[..n];
      var r := Replayed(codec, name, fore, Start(NO_POINTERS)).value;
      ReplayStep(codec, name, fore, r, records[n], es[n]);
      assert [snapshot] + records == fore + [records[n]];
      AgreesStep(r, NextVersions(levels, es[..n]), PointersUpTo(pointers, es[..n]), UsedUpTo(used, es[..n]), es[n]);
    }
  }

  lemma SameCount(codec: KeyCodec, records: seq<seq<byte>>, es: seq<Edit>)
    requires AllLogged(codec, records, es)
    ensures |records| == |es|
  {
  }

  lemma ReplayedNothing(codec: KeyCodec, name: seq<byte>, r: Recovery)
    ensures Replayed(codec, name, [], r) == Some(r)
  {
  }

  lemma SnapshotNamed(name: seq<byte>, levels: Levels, pointers: Pointers)
    ensures Snapshot(name, levels, pointers).comparator == Some(name)
  {
  }
}
