// What applying edits makes of the lists of table files (VersionSet::Builder
// in db/version_set.cc), one level at a time.

module VersionBuilder {
  import opened DbFormat
  import opened Files
  import opened VersionEdits

  /* Sets of files ordered by smallest key, then by number. */

  predicate Before(f: FileMeta, g: FileMeta) {
    var r := Compare(f.smallest, g.smallest);
    if r != 0 then r < 0 else f.number < g.number
  }

  lemma OrderIs(f: FileMeta, g: FileMeta)
    ensures Before(f, g) <==> Less(f.smallest, g.smallest) || (f.smallest == g.smallest && f.number < g.number)
  {
    CompareIsTotalOrder(f.smallest, g.smallest, f.smallest);
  }

  ghost predicate InOrder(fs: seq<FileMeta>) {
    forall i, j :: 0 <= i < j < |fs| ==> Before(fs[i], fs[j])
  }

  ghost function Members(fs: seq<FileMeta>): set<FileMeta> {
    set f | f in fs
  }

  ghost function Numbers(fs: set<FileMeta>): set<nat> {
    set f | f in fs :: f.number
  }

  lemma BeforeIsOrder(f: FileMeta, g: FileMeta, h: FileMeta)
    ensures !(Before(f, g) && Before(g, f))
    ensures Before(f, g) && Before(g, h) ==> Before(f, h)
    ensures f.number != g.number ==> Before(f, g) || Before(g, f)
  {
    CompareIsTotalOrder(f.smallest, g.smallest, h.smallest);
    CompareIsTotalOrder(g.smallest, h.smallest, f.smallest);
  }

  ghost function Surviving(fs: set<FileMeta>, deleted: set<nat>): set<FileMeta> {
    set f | f in fs && f.number !in deleted
  }

  // The order leaves no choice about how to list a set.
  lemma {:induction false} SameFilesSameList(a: seq<FileMeta>, b: seq<FileMeta>)
    requires InOrder(a) && InOrder(b) && Members(a) == Members(b)
    ensures a == b
    decreases |a|
  {
    hide Before;
    NoMembersIff(a);
    NoMembersIff(b);
    if a == [] {
    } else {
      FirstIsFirst(a, b);
      forall f | f in a[1..] ensures f in b[1..] { RestIsRest(a, b, f); }
      forall f | f in b[1..] ensures f in a[1..] { RestIsRest(b, a, f); }
      SameFilesSameList(a[1..], b[1..]);
    }
  }

  lemma NoMembersIff(a: seq<FileMeta>)
    ensures Members(a) == {} <==> a == []
  {
    if a != [] { assert a[0] in Members(a); }
  }

  lemma FirstIsFirst(a: seq<FileMeta>, b: seq<FileMeta>)
    requires InOrder(a) && InOrder(b) && Members(a) == Members(b) && a != [] && b != []
    ensures a[0] == b[0]
  {
    hide Before;
    assert a[0] in Members(b) && b[0] in Members(a);
    var i :| 0 <= i < |b| && b[i] == a[0];
    var j :| 0 <= j < |a| && a[j] == b[0];
    if i > 0 && j > 0 {
      BeforeIsOrder(a[0], b[0], a[0]);
      assert false;
    }
  }

  lemma RestIsRest(a: seq<FileMeta>, b: seq<FileMeta>, f: FileMeta)
    requires InOrder(a) && Members(a) == Members(b) && a != [] && b != [] && a[0] == b[0] && f in a[1..]
    ensures f in b[1..]
  {
    hide Before;
    var i :| 1 <= i < |a| && a[i] == f;
    BeforeIsOrder(a[0], f, a[0]);
    assert f in Members(b);
    var j :| 0 <= j < |b| && b[j] == f;
    assert j != 0;
    assert b[1..][j - 1] == f;
  }

  lemma InOrderTail(fs: seq<FileMeta>)
    requires InOrder(fs) && fs != []
    ensures InOrder(fs[1..]) && forall f :: f in fs[1..] ==> Before(fs[0], f)
  {
  }

  lemma InOrderCons(f: FileMeta, fs: seq<FileMeta>)
    requires InOrder(fs) && forall g :: g in fs ==> Before(f, g)
    ensures InOrder([f] + fs)
  {
  }

  // std::set::insert: an equivalent element stays.
  function Insert(fs: seq<FileMeta>, f: FileMeta): seq<FileMeta> {
    if fs == [] then [f]
    else if Before(f, fs[0]) then [f] + fs
    else if Before(fs[0], f) then [fs[0]] + Insert(fs[1..], f)
    else fs
  }

  lemma {:induction false} InsertAdds(fs: seq<FileMeta>, f: FileMeta)
    requires InOrder(fs) && f.number !in Numbers(Members(fs))
    ensures InOrder(Insert(fs, f)) && Members(Insert(fs, f)) == Members(fs) + {f}
  {
    hide Before;
    if fs == [] {
    } else {
      InOrderTail(fs);
      assert fs[0] in Members(fs);
      BeforeIsOrder(f, fs[0], f);
      assert Members(fs) == {fs[0]} + Members(fs[1..]);
      if Before(f, fs[0]) {
        forall g | g in fs ensures Before(f, g) { BeforeIsOrder(f, fs[0], g); }
        InOrderCons(f, fs);
      } else {
        InsertAdds(fs[1..], f);
        var rest := Insert(fs[1..], f);
        forall g | g in rest ensures Before(fs[0], g) { assert g in Members(rest); }
        InOrderCons(fs[0], rest);
        assert Members([fs[0]] + rest) == {fs[0]} + Members(rest);
      }
    }
  }

  /* One level of the builder. */

  datatype LevelState = LevelState(deleted: set<nat>, added: seq<FileMeta>)

  const NOTHING: LevelState := LevelState({}, [])

  function DeletedAt(ds: set<(nat, nat)>, level: nat): set<nat> {
    set d | d in ds && d.0 == level :: d.1
  }

  function AddFiles(st: LevelState, level: nat, fs: seq<(nat, FileMeta)>): LevelState {
    if fs == [] then st
    else
      var st' := AddFiles(st, level, fs[..|fs| - 1]);
      var (l, f) := fs[|fs| - 1];
      if l != level then st' else LevelState(st'.deleted - {f.number}, Insert(st'.added, f))
  }

  function DeleteFiles(st: LevelState, level: nat, ds: set<(nat, nat)>): LevelState {
    st.(deleted := st.deleted + DeletedAt(ds, level))
  }

  // The deletions of an edit, then its additions.
  function ApplyTo(st: LevelState, level: nat, e: Edit): LevelState {
    AddFiles(DeleteFiles(st, level, e.deleted), level, e.newFiles)
  }

  // The files before the first that comes after an added file precede it.
  function Merge(base: seq<FileMeta>, added: seq<FileMeta>): seq<FileMeta> {
    if added == [] then base
    else if base == [] || Before(added[0], base[0]) then [added[0]] + Merge(base, added[1..])
    else [base[0]] + Merge(base[1..], added)
  }

  function Kept(fs: seq<FileMeta>, deleted: set<nat>): seq<FileMeta> {
    if fs == [] then []
    else if fs[0].number in deleted then Kept(fs[1..], deleted)
    else [fs[0]] + Kept(fs[1..], deleted)
  }

  function Saved(base: seq<FileMeta>, st: LevelState): seq<FileMeta> {
    Kept(Merge(base, st.added), st.deleted)
  }

  lemma {:induction false} MergeIsUnion(base: seq<FileMeta>, added: seq<FileMeta>)
    requires InOrder(base) && InOrder(added) && Numbers(Members(base)) !! Numbers(Members(added))
    ensures InOrder(Merge(base, added)) && Members(Merge(base, added)) == Members(base) + Members(added)
    decreases |base| + |added|
  {
    hide Before;
    if added == [] {
    } else if base == [] || Before(added[0], base[0]) {
      InOrderTail(added);
      assert Members(added) == {added[0]} + Members(added[1..]);
      MergeIsUnion(base, added[1..]);
      MergeHead(added[0], base, added[1..]);
    } else {
      InOrderTail(base);
      assert added[0] in Members(added) && base[0] in Members(base);
      assert base[0].number in Numbers(Members(base)) && added[0].number in Numbers(Members(added));
      BeforeIsOrder(added[0], base[0], added[0]);
      assert Members(base) == {base[0]} + Members(base[1..]);
      MergeIsUnion(base[1..], added);
      MergeHead(base[0], base[1..], added);
    }
  }

  lemma MergeHead(f: FileMeta, base: seq<FileMeta>, added: seq<FileMeta>)
    requires InOrder(base) && InOrder(added)
    requires InOrder(Merge(base, added)) && Members(Merge(base, added)) == Members(base) + Members(added)
    requires base == [] || Before(f, base[0])
    requires added == [] || Before(f, added[0])
    ensures InOrder([f] + Merge(base, added))
    ensures Members([f] + Merge(base, added)) == {f} + Members(base) + Members(added)
  {
    hide Before, Merge;
    var m := Merge(base, added);
    forall g | g in m ensures Before(f, g) {
      assert g in Members(m);
      if g in base { FirstIsLeast(f, base, g); } else { FirstIsLeast(f, added, g); }
    }
    InOrderCons(f, m);
    assert Members([f] + m) == {f} + Members(m);
  }

  lemma FirstIsLeast(f: FileMeta, fs: seq<FileMeta>, g: FileMeta)
    requires InOrder(fs) && g in fs && Before(f, fs[0])
    ensures Before(f, g)
  {
    hide Before;
    var i :| 0 <= i < |fs| && fs[i] == g;
    BeforeIsOrder(f, fs[0], g);
  }

  lemma {:induction false} KeptAre(fs: seq<FileMeta>, deleted: set<nat>)
    requires InOrder(fs)
    ensures InOrder(Kept(fs, deleted))
    ensures Members(Kept(fs, deleted)) == Surviving(Members(fs), deleted)
  {
    hide Before;
    if fs == [] {
    } else {
      InOrderTail(fs);
      KeptAre(fs[1..], deleted);
      var rest := Kept(fs[1..], deleted);
      forall g | g in rest ensures Before(fs[0], g) { assert g in Members(rest); }
      InOrderCons(fs[0], rest);
      assert Members([fs[0]] + rest) == {fs[0]} + Members(rest);
    }
  }

  ghost function AddedAt(fs: seq<(nat, FileMeta)>, level: nat): set<FileMeta> {
    set p | p in fs && p.0 == level :: p.1
  }

  // The numbers of the files an edit adds to the level are new to it.
  ghost predicate Fresh(fs: seq<(nat, FileMeta)>, level: nat, used: set<nat>) {
    && (forall i :: 0 <= i < |fs| && fs[i].0 == level ==> fs[i].1.number !in used)
    && forall i, j :: 0 <= i < j < |fs| && fs[i].0 == level && fs[j].0 == level ==> fs[i].1.number != fs[j].1.number
  }

  lemma {:induction false} AddFilesAre(st: LevelState, level: nat, fs: seq<(nat, FileMeta)>)
    requires InOrder(st.added) && Fresh(fs, level, Numbers(Members(st.added)))
    ensures var r := AddFiles(st, level, fs);
      && InOrder(r.added) && Members(r.added) == Members(st.added) + AddedAt(fs, level)
      && r.deleted == st.deleted - Numbers(AddedAt(fs, level))
  {
    hide Insert, Before;
    if fs == [] {
    } else {
      var n := |fs| - 1;
      AddFilesAre(st, level, fs[..n]);
      var r := AddFiles(st, level, fs[..n]);
      assert AddedAt(fs, level) == AddedAt(fs[..n], level) + if fs[n].0 == level then {fs[n].1} else {} by {
        forall p | p in fs ensures p in fs[..n] || p == fs[n] { }
      }
      if fs[n].0 == level {
        NumbersJoin(AddedAt(fs[..n], level), {fs[n].1});
        assert fs[n].1.number !in Numbers(Members(r.added));
        InsertAdds(r.added, fs[n].1);
      }
    }
  }

  lemma NumbersJoin(a: set<FileMeta>, b: set<FileMeta>)
    ensures Numbers(a + b) == Numbers(a) + Numbers(b)
  {
  }

  // What applying one edit to a level means: the listed files go, unless the
  // same edit adds them, and the added files come.
  lemma SavedAre(base: seq<FileMeta>, st: LevelState, level: nat, e: Edit)
    requires InOrder(base) && InOrder(st.added) && Numbers(Members(base)) !! Numbers(Members(st.added))
    requires Fresh(e.newFiles, level, Numbers(Members(base)) + Numbers(Members(st.added)))
    ensures var st' := ApplyTo(st, level, e);
      && InOrder(st'.added) && Members(st'.added) == Members(st.added) + AddedAt(e.newFiles, level)
      && Numbers(Members(base)) !! Numbers(Members(st'.added))
      && InOrder(Saved(base, st'))
      && Members(Saved(base, st')) ==
         Surviving(Members(base) + Members(st.added), st.deleted + DeletedAt(e.deleted, level)) + AddedAt(e.newFiles, level)
  {
    hide Merge, Kept, AddFiles, Before, InOrder;
    var st0 := st.(deleted := st.deleted + DeletedAt(e.deleted, level));
    var st' := ApplyTo(st, level, e);
    AddFilesAre(st0, level, e.newFiles);
    NumbersJoin(Members(st.added), AddedAt(e.newFiles, level));
    AddedAreFresh(e.newFiles, level, Numbers(Members(base)) + Numbers(Members(st.added)));
    MergeIsUnion(base, st'.added);
    KeptAre(Merge(base, st'.added), st'.deleted);
    KeptMembers(base, st, level, e);
  }

  lemma AddedAreFresh(fs: seq<(nat, FileMeta)>, level: nat, used: set<nat>)
    requires Fresh(fs, level, used)
    ensures Numbers(AddedAt(fs, level)) !! used
  {
  }

  lemma KeptMembers(base: seq<FileMeta>, st: LevelState, level: nat, e: Edit)
    requires Numbers(AddedAt(e.newFiles, level)) !! Numbers(Members(base)) + Numbers(Members(st.added))
    requires var st' := ApplyTo(st, level, e);
      && Members(st'.added) == Members(st.added) + AddedAt(e.newFiles, level)
      && st'.deleted == st.deleted + DeletedAt(e.deleted, level) - Numbers(AddedAt(e.newFiles, level))
      && Members(Merge(base, st'.added)) == Members(base) + Members(st'.added)
      && Members(Saved(base, st')) == Surviving(Members(Merge(base, st'.added)), st'.deleted)
    ensures var st' := ApplyTo(st, level, e);
      Members(Saved(base, st')) ==
         Surviving(Members(base) + Members(st.added), st.deleted + DeletedAt(e.deleted, level)) + AddedAt(e.newFiles, level)
  {
    hide Merge, Kept, AddFiles, ApplyTo, Saved, DeletedAt;
    var st' := ApplyTo(st, level, e);
    var added := AddedAt(e.newFiles, level);
    forall f | f in added ensures f.number in Numbers(added) { }
    forall f | f in Members(base) + Members(st.added) ensures f.number !in Numbers(added) {
      assert f.number in Numbers(Members(base)) + Numbers(Members(st.added));
    }
  }

  /* Many edits. */

  function ApplyAll(st: LevelState, level: nat, es: seq<Edit>): LevelState {
    if es == [] then st else ApplyTo(ApplyAll(st, level, es[..|es| - 1]), level, es[|es| - 1])
  }

  // A version per edit.
  function EachInTurn(base: seq<FileMeta>, level: nat, es: seq<Edit>): seq<FileMeta> {
    if es == [] then base
    else Saved(EachInTurn(base, level, es[..|es| - 1]), ApplyTo(NOTHING, level, es[|es| - 1]))
  }

  ghost function EverAdded(base: seq<FileMeta>, level: nat, es: seq<Edit>): set<FileMeta> {
    if es == [] then Members(base)
    else EverAdded(base, level, es[..|es| - 1]) + AddedAt(es[|es| - 1].newFiles, level)
  }

  ghost predicate AllFresh(base: seq<FileMeta>, level: nat, es: seq<Edit>) {
    forall k :: 0 <= k < |es| ==> Fresh(es[k].newFiles, level, Numbers(EverAdded(base, level, es[..k])))
  }

  // One builder fed two edits is two builders fed one each.
  lemma OneMoreEdit(base: seq<FileMeta>, st: LevelState, level: nat, e: Edit)
    requires InOrder(base) && InOrder(st.added) && Numbers(Members(base)) !! Numbers(Members(st.added))
    requires Fresh(e.newFiles, level, Numbers(Members(base)) + Numbers(Members(st.added)))
    ensures Saved(Saved(base, st), ApplyTo(NOTHING, level, e)) == Saved(base, ApplyTo(st, level, e))
  {
    hide Merge, Kept, ApplyTo, Before, InOrder, Fresh, Members;
    MergeIsUnion(base, st.added);
    KeptAre(Merge(base, st.added), st.deleted);
    var now := Saved(base, st);
    NothingAdded();
    var all := Members(base) + Members(st.added);
    NumbersJoin(Members(base), Members(st.added));
    NumbersJoin(Surviving(all, st.deleted), all);
    assert Surviving(all, st.deleted) + all == all;
    SurvivingTwice(all, st.deleted, DeletedAt(e.deleted, level));
    FreshForFewer(e.newFiles, level, Numbers(Members(base)) + Numbers(Members(st.added)), Numbers(Members(now)) + Numbers(Members(NOTHING.added)));
    SavedAre(base, st, level, e);
    SavedAre(now, NOTHING, level, e);
    var twice, once := Saved(now, ApplyTo(NOTHING, level, e)), Saved(base, ApplyTo(st, level, e));
    assert Members(twice) == Members(once);
    SameFilesSameList(twice, once);
  }

  lemma NothingAdded()
    ensures InOrder([]) && Members([]) == {} && Numbers({}) == {}
  {
  }

  lemma SurvivingTwice(fs: set<FileMeta>, a: set<nat>, b: set<nat>)
    ensures Surviving(Surviving(fs, a) + {}, {} + b) == Surviving(fs, a + b)
  {
  }

  lemma FreshForFewer(fs: seq<(nat, FileMeta)>, level: nat, more: set<nat>, fewer: set<nat>)
    requires Fresh(fs, level, more) && fewer <= more
    ensures Fresh(fs, level, fewer)
  {
  }

  lemma {:induction false} BuilderState(base: seq<FileMeta>, level: nat, es: seq<Edit>)
    requires InOrder(base) && AllFresh(base, level, es)
    ensures var st := ApplyAll(NOTHING, level, es);
      && InOrder(st.added) && Numbers(Members(base)) !! Numbers(Members(st.added))
      && Members(base) + Members(st.added) == EverAdded(base, level, es)
  {
    hide ApplyTo, Before, Fresh, Saved;
    if es == [] {
    } else {
      var n := |es| - 1;
      ShorterFresh(base, level, es);
      BuilderState(base, level, es[..n]);
      var st := ApplyAll(NOTHING, level, es[..n]);
      NumbersJoin(Members(base), Members(st.added));
      assert Fresh(es[n].newFiles, level, Numbers(EverAdded(base, level, es[..n])));
      SavedAre(base, st, level, es[n]);
    }
  }

  lemma ShorterFresh(base: seq<FileMeta>, level: nat, es: seq<Edit>)
    requires AllFresh(base, level, es) && es != []
    ensures AllFresh(base, level, es[..|es| - 1])
  {
    hide Fresh, EverAdded;
    var es' := es[..|es| - 1];
    forall k | 0 <= k < |es'| ensures Fresh(es'[k].newFiles, level, Numbers(EverAdded(base, level, es'[..k]))) {
      assert es'[..k] == es[..k];
      assert Fresh(es[k].newFiles, level, Numbers(EverAdded(base, level, es[..k])));
    }
  }

  // Applying every edit to one builder and saving once lists the same files in
  // the same order as a version per edit.
  lemma {:induction false} OnceIsEachInTurn(base: seq<FileMeta>, level: nat, es: seq<Edit>)
    requires InOrder(base) && AllFresh(base, level, es)
    ensures Saved(base, ApplyAll(NOTHING, level, es)) == EachInTurn(base, level, es)
    ensures InOrder(EachInTurn(base, level, es))
  {
    hide ApplyTo, Before, Fresh, InOrder, AllFresh;
    BuilderState(base, level, es);
    if es == [] {
      SavedNothing(base);
    } else {
      var n := |es| - 1;
      ShorterFresh(base, level, es);
      OnceIsEachInTurn(base, level, es[..n]);
      BuilderState(base, level, es[..n]);
      var st := ApplyAll(NOTHING, level, es[..n]);
      NumbersJoin(Members(base), Members(st.added));
      LastFresh(base, level, es);
      SavedAre(base, st, level, es[n]);
      OneMoreEdit(base, st, level, es[n]);
    }
  }

  lemma LastFresh(base: seq<FileMeta>, level: nat, es: seq<Edit>)
    requires AllFresh(base, level, es) && es != []
    ensures Fresh(es[|es| - 1].newFiles, level, Numbers(EverAdded(base, level, es[..|es| - 1])))
  {
  }

  lemma {:induction false} SavedNothing(base: seq<FileMeta>)
    ensures Saved(base, NOTHING) == base
  {
    if base != [] { SavedNothing(base[1..]); }
  }

  // What the condition on numbers is for: were a number used again at a level,
  // which the engine never does, a deleted file would come back when the edits
  // share a builder.
  lemma ReusedNumberResurfaces(level: nat, f: FileMeta, g: FileMeta)
    requires f.number == g.number && Less(f.smallest, g.smallest)
    ensures var es := [EMPTY.(newFiles := [(level, f)]), EMPTY.(deleted := {(level, f.number)}), EMPTY.(newFiles := [(level, g)])];
      && EachInTurn([], level, es) == [g]
      && Saved([], ApplyAll(NOTHING, level, es)) == [f, g]
  {
    var e1, e2, e3 := EMPTY.(newFiles := [(level, f)]), EMPTY.(deleted := {(level, f.number)}), EMPTY.(newFiles := [(level, g)]);
    var es := [e1, e2, e3];
    assert es[..2] == [e1, e2] && [e1, e2][..1] == [e1] && [e1][..0] == [];
    AddOneFile(NOTHING, level, f);
    AddOneFile(NOTHING, level, g);
    AddOneFile(LevelState({f.number}, [f]), level, g);
    assert DeletedAt(e2.deleted, level) == {f.number};
    assert [f][1..] == [] && [f, g][1..] == [g] && [g][1..] == [];
    assert Insert([f], g) == [f, g];
    assert Merge([], [g]) == [g] && Merge([], [f]) == [f];
    assert Merge([], [f, g]) == [f, g];
    KeptAll([f, g]);
    KeptAll([f]);
    KeptAll([g]);
    assert ApplyTo(LevelState({}, [f]), level, e2) == LevelState({f.number}, [f]);
    assert ApplyAll(NOTHING, level, [e1]) == LevelState({}, [f]);
    assert ApplyAll(NOTHING, level, [e1, e2]) == LevelState({f.number}, [f]);
    assert EachInTurn([], level, [e1]) == [f];
    assert ApplyTo(NOTHING, level, e2) == LevelState({f.number}, []);
    assert Merge([f], []) == [f] && Kept([f], {f.number}) == [];
    assert EachInTurn([], level, [e1, e2]) == [];
  }

  lemma AddOneFile(st: LevelState, level: nat, f: FileMeta)
    ensures ApplyTo(st, level, EMPTY.(newFiles := [(level, f)])) == LevelState(st.deleted - {f.number}, Insert(st.added, f))
  {
    var fs := [(level, f)];
    assert fs[..0] == [];
    var st' := st.(deleted := st.deleted + DeletedAt({}, level));
    assert st'.deleted == st.deleted;
    assert AddFiles(st', level, fs[..0]) == st';
  }

  lemma {:induction false} KeptAll(fs: seq<FileMeta>)
    ensures Kept(fs, {}) == fs
  {
    if fs != [] { KeptAll(fs[1..]); }
  }
}
