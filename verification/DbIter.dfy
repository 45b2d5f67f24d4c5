// The user-visible iterator (db/db_iter.cc): a cursor on the sorted map of
// visible, undeleted keys, computed on the fly from the internal entries.

module DbIter {
  import opened Wrappers
  import opened DbFormat
  import opened InternalIterator

  /* The map a snapshot shows. */

  ghost function ViewMap(entries: seq<Entry>, snap: SequenceNumber): map<UserKey, string> {
    map k | k in (set e | e in entries :: e.Key()) && Read(Elements(entries), k, snap).Found?
      :: Read(Elements(entries), k, snap).value
  }

  // Entry j is the newest visible one of its key, and it is not a deletion.
  ghost predicate Shown(entries: seq<Entry>, snap: SequenceNumber, j: int)
    requires 0 <= j < |entries|
  {
    && entries[j].Seq() <= snap && !entries[j].IsDeletion()
    && forall i :: 0 <= i < j && entries[i].Key() == entries[j].Key() ==> !Visible(entries, snap, i)
  }

  ghost predicate Visible(entries: seq<Entry>, snap: SequenceNumber, j: int)
    requires 0 <= j < |entries|
  {
    entries[j].Seq() <= snap
  }

  ghost predicate IndexedBy(entries: seq<Entry>) {
    Sorted(entries) && UniqueSeqs(Elements(entries))
  }

  lemma ShownIsInView(entries: seq<Entry>, snap: SequenceNumber, j: nat)
    requires IndexedBy(entries) && j < |entries| && Shown(entries, snap, j)
    ensures var k := entries[j].Key(); k in ViewMap(entries, snap) && ViewMap(entries, snap)[k] == entries[j].value
  {
    var all := Elements(entries);
    forall d | d in all && d.Key() == entries[j].Key() && d.Seq() <= snap ensures d.Seq() <= entries[j].Seq() {
      var i :| 0 <= i < |entries| && entries[i] == d;
      if i > j { assert Less(entries[j].ikey, entries[i].ikey); }
    }
    assert IsNewest(all, entries[j].Key(), snap, entries[j]);
    ReadIsNewest(all, entries[j].Key(), snap, entries[j]);
  }

  lemma InViewIsShown(entries: seq<Entry>, snap: SequenceNumber, k: UserKey) returns (j: nat)
    requires IndexedBy(entries) && k in ViewMap(entries, snap)
    ensures j < |entries| && entries[j].Key() == k && Shown(entries, snap, j)
  {
    var all := Elements(entries);
    var e :| IsNewest(all, k, snap, e);
    ReadIsNewest(all, k, snap, e);
    j :| 0 <= j < |entries| && entries[j] == e;
    forall i | 0 <= i < j && entries[i].Key() == k ensures entries[i].Seq() > snap {
      assert Less(entries[i].ikey, entries[j].ikey);
      assert entries[i] in all;
    }
  }

  lemma KeysAscend(entries: seq<Entry>, i: int, j: int)
    requires Sorted(entries) && 0 <= i <= j < |entries|
    ensures entries[i].Key() <= entries[j].Key()
  {
    if i < j { assert Less(entries[i].ikey, entries[j].ikey); }
  }

  /* Cursor moves on a map ordered by key. */

  datatype Cursor = Off | On(key: UserKey)

  ghost predicate IsSeek(m: map<UserKey, string>, t: UserKey, c: Cursor) {
    match c
    case Off => forall x :: x in m ==> x < t
    case On(k) => k in m && k >= t && forall x :: x in m && x >= t ==> k <= x
  }

  ghost predicate IsNext(m: map<UserKey, string>, from: UserKey, c: Cursor) {
    match c
    case Off => forall x :: x in m ==> x <= from
    case On(k) => k in m && k > from && forall x :: x in m && x > from ==> k <= x
  }

  ghost predicate IsPrev(m: map<UserKey, string>, from: UserKey, c: Cursor) {
    match c
    case Off => forall x :: x in m ==> x >= from
    case On(k) => k in m && k < from && forall x :: x in m && x < from ==> x <= k
  }

  ghost predicate IsFirst(m: map<UserKey, string>, c: Cursor) {
    match c
    case Off => m == map[]
    case On(k) => k in m && forall x :: x in m ==> k <= x
  }

  ghost predicate IsLast(m: map<UserKey, string>, c: Cursor) {
    match c
    case Off => m == map[]
    case On(k) => k in m && forall x :: x in m ==> x <= k
  }

  // Stepping forward and then back returns to the same key, and the other way round.
  lemma NextPrevInverse(m: map<UserKey, string>, k: UserKey, there: Cursor, back: Cursor)
    requires k in m && there.On?
    ensures IsNext(m, k, there) && IsPrev(m, there.key, back) ==> back == On(k)
    ensures IsPrev(m, k, there) && IsNext(m, there.key, back) ==> back == On(k)
  {
  }

  /* The forward scan, from an entry to the next one to show. */

  // Scanning forward from `p`, entries of keys up to `skip` are not shown.
  ghost predicate CanScanFrom(entries: seq<Entry>, snap: SequenceNumber, p: int, skipping: bool, skip: UserKey) {
    && 0 <= p < |entries|
    && (skipping ==> forall i :: p <= i < |entries| && Visible(entries, snap, i) ==> skip <= entries[i].Key())
    && OnlySkippedStraddle(entries, snap, p, skipping, skip)
  }

  // A key with a visible entry before p is to be skipped from p on.
  ghost predicate OnlySkippedStraddle(entries: seq<Entry>, snap: SequenceNumber, p: int, skipping: bool, skip: UserKey)
    requires 0 <= p <= |entries|
  {
    forall j, i :: 0 <= j < p <= i < |entries| && Visible(entries, snap, j) && entries[j].Key() == entries[i].Key()
                   ==> skipping && entries[i].Key() <= skip
  }

  ghost predicate ScanPasses(entries: seq<Entry>, snap: SequenceNumber, start: int, p: int, skipping: bool, skip: UserKey)
    requires 0 <= start && p <= |entries|
  {
    forall j :: start <= j < p && Shown(entries, snap, j) ==> skipping && entries[j].Key() <= skip
  }

  ghost predicate ScanStops(entries: seq<Entry>, snap: SequenceNumber, start: int, p: int, skipping: bool, skip: UserKey)
  {
    && 0 <= start <= p < |entries| && Shown(entries, snap, p)
    && (skipping ==> skip < entries[p].Key())
    && ScanPasses(entries, snap, start, p, skipping, skip)
  }

  ghost predicate Scanning(entries: seq<Entry>, snap: SequenceNumber, start: int, p: int,
                           skipping0: bool, skip0: UserKey, skipping: bool, skip: UserKey) {
    && Sorted(entries) && 0 <= start <= p <= |entries|
    && (skipping0 ==> forall i :: start <= i < |entries| && Visible(entries, snap, i) ==> skip0 <= entries[i].Key())
    && ScanPasses(entries, snap, start, p, skipping0, skip0)
    && OnlySkippedStraddle(entries, snap, p, skipping, skip)
    && (skipping0 ==> skipping && skip0 <= skip)
    && (skipping && !(skipping0 && skip == skip0) ==> SkipsAVisibleKey(entries, snap, p, skip))
  }

  ghost predicate SkipsAVisibleKey(entries: seq<Entry>, snap: SequenceNumber, p: int, skip: UserKey)
    requires 0 <= p <= |entries|
  {
    exists d :: 0 <= d < p && Visible(entries, snap, d) && entries[d].Key() == skip
  }

  // One turn of the forward scan: what the entry at p does to the scan.
  lemma ScanStep(entries: seq<Entry>, snap: SequenceNumber, start: int, p: int,
                 skipping0: bool, skip0: UserKey, skipping: bool, skip: UserKey)
    requires Scanning(entries, snap, start, p, skipping0, skip0, skipping, skip) && p < |entries|
    ensures Visible(entries, snap, p) && entries[p].IsDeletion()
        ==> Scanning(entries, snap, start, p + 1, skipping0, skip0, true, entries[p].Key())
    ensures !Visible(entries, snap, p) || (!entries[p].IsDeletion() && skipping && entries[p].Key() <= skip)
        ==> Scanning(entries, snap, start, p + 1, skipping0, skip0, skipping, skip)
    ensures Visible(entries, snap, p) && !entries[p].IsDeletion() && !(skipping && entries[p].Key() <= skip)
        ==> ScanStops(entries, snap, start, p, skipping0, skip0)
  {
    forall j, i | 0 <= j <= p <= i < |entries| && entries[j].Key() == entries[i].Key()
      ensures entries[i].Key() == entries[p].Key()
    {
      KeysAscend(entries, j, p);
      KeysAscend(entries, p, i);
    }
    if skipping && !(skipping0 && skip == skip0) {
      var d :| 0 <= d < p && Visible(entries, snap, d) && entries[d].Key() == skip;
      KeysAscend(entries, d, p);
    }
  }

  // From the entry shown, the scan may start by skipping its key.
  lemma ScanFromShown(entries: seq<Entry>, snap: SequenceNumber, p: int)
    requires IndexedBy(entries) && 0 <= p < |entries| && Shown(entries, snap, p)
    ensures CanScanFrom(entries, snap, p, true, entries[p].Key())
    ensures forall j :: 0 <= j < p ==> entries[j].Key() <= entries[p].Key()
  {
    forall i | p <= i < |entries| ensures entries[p].Key() <= entries[i].Key() { KeysAscend(entries, p, i); }
    forall j | 0 <= j < p ensures entries[j].Key() <= entries[p].Key() { KeysAscend(entries, j, p); }
  }

  // Standing before a key of the view, there is a next entry, and the scan may
  // start there by skipping that key.
  lemma ScanFromBefore(entries: seq<Entry>, snap: SequenceNumber, p: int, k: UserKey)
    requires IndexedBy(entries) && k in ViewMap(entries, snap) && BeforeKey(entries, snap, p, k)
    ensures p + 1 < |entries| && CanScanFrom(entries, snap, p + 1, true, k)
    ensures forall j :: 0 <= j <= p ==> entries[j].Key() <= k
  {
    var v := InViewIsShown(entries, snap, k);
    forall j | 0 <= j <= p ensures entries[j].Key() < k { KeysAscend(entries, j, p); }
    assert p < v;
    forall j, i | 0 <= j <= p < i < |entries| && Visible(entries, snap, j) && entries[j].Key() == entries[i].Key()
      ensures entries[i].Key() <= k
    {
    }
  }

  // A forward scan that skips key k and starts after all smaller keys ends at k's successor.
  lemma ScanFindsNext(entries: seq<Entry>, snap: SequenceNumber, start: int, q: int, k: UserKey)
    requires IndexedBy(entries) && 0 <= start <= q <= |entries|
    requires forall j :: 0 <= j < start ==> entries[j].Key() <= k
    requires q < |entries| ==> ScanStops(entries, snap, start, q, true, k)
    requires q == |entries| ==> ScanPasses(entries, snap, start, q, true, k)
    ensures IsNext(ViewMap(entries, snap), k, if q < |entries| then On(entries[q].Key()) else Off)
  {
    if q < |entries| { ShownIsInView(entries, snap, q); }
    forall x | x in ViewMap(entries, snap) && x > k ensures q < |entries| && entries[q].Key() <= x {
      var j := InViewIsShown(entries, snap, x);
      assert q <= j;
      KeysAscend(entries, q, j);
    }
  }

  // A forward scan from the first entry at or after target's seek key.
  lemma ScanFromSeek(entries: seq<Entry>, snap: SequenceNumber, t: UserKey, start: int)
    requires IndexedBy(entries) && start == LowerBound(entries, SeekKey(t, snap))
    ensures forall j :: 0 <= j < start ==> entries[j].Key() < t || !Visible(entries, snap, j)
    ensures forall j :: start <= j < |entries| ==> entries[j].Key() >= t
    ensures start < |entries| ==> CanScanFrom(entries, snap, start, false, t)
  {
    forall j | start <= j < |entries| ensures entries[j].Key() >= t {
      KeysAscend(entries, start, j);
    }
  }

  lemma ScanFindsSeek(entries: seq<Entry>, snap: SequenceNumber, t: UserKey, start: int, q: int)
    requires IndexedBy(entries) && start == LowerBound(entries, SeekKey(t, snap)) && start <= q <= |entries|
    requires q < |entries| ==> ScanStops(entries, snap, start, q, false, t)
    requires q == |entries| ==> ScanPasses(entries, snap, start, q, false, t)
    ensures IsSeek(ViewMap(entries, snap), t, if q < |entries| then On(entries[q].Key()) else Off)
  {
    ScanFromSeek(entries, snap, t, start);
    if q < |entries| { ShownIsInView(entries, snap, q); }
    forall x | x in ViewMap(entries, snap) && x >= t ensures q < |entries| && entries[q].Key() <= x {
      var j := InViewIsShown(entries, snap, x);
      assert q <= j;
      KeysAscend(entries, q, j);
    }
  }

  lemma ScanFindsFirst(entries: seq<Entry>, snap: SequenceNumber, q: int)
    requires IndexedBy(entries) && 0 <= q <= |entries|
    requires q < |entries| ==> ScanStops(entries, snap, 0, q, false, 0.0)
    requires q == |entries| ==> ScanPasses(entries, snap, 0, q, false, 0.0)
    ensures IsFirst(ViewMap(entries, snap), if q < |entries| then On(entries[q].Key()) else Off)
  {
    if q < |entries| { ShownIsInView(entries, snap, q); }
    forall x | x in ViewMap(entries, snap) ensures q < |entries| && entries[q].Key() <= x {
      var j := InViewIsShown(entries, snap, x);
      assert q <= j;
      KeysAscend(entries, q, j);
    }
  }

  /* The backward scan. */

  // At an entry of a smaller key, or off the front, and nothing visible of a
  // smaller key follows.
  ghost predicate BeforeKey(entries: seq<Entry>, snap: SequenceNumber, p: int, k: UserKey) {
    && -1 <= p < |entries|
    && (p >= 0 ==> entries[p].Key() < k)
    && forall j :: p < j < |entries| && entries[j].Key() < k ==> !Visible(entries, snap, j)
  }

  // Scanning backward from p, down to but not including i.  With `found`, entry
  // v is the candidate: the only entry passed that can be one to show.
  ghost predicate BackScanning(entries: seq<Entry>, snap: SequenceNumber, p: int, i: int, found: bool, v: int,
                               key: Option<UserKey>, value: string) {
    && Sorted(entries) && -1 <= i <= p < |entries|
    && (forall j :: i < j <= p && Shown(entries, snap, j) ==> found && j == v)
    && (found ==>
          && i < v <= p && Visible(entries, snap, v) && !entries[v].IsDeletion()
          && key == Some(entries[v].Key()) && value == entries[v].value
          && forall j :: i < j < v ==> !Visible(entries, snap, j))
  }

  // Entry v is the last one to show at or before p, and i is where to stand.
  ghost predicate BackStops(entries: seq<Entry>, snap: SequenceNumber, p: int, i: int, v: int) {
    && 0 <= v <= p < |entries| && Shown(entries, snap, v)
    && BeforeKey(entries, snap, i, entries[v].Key())
    && forall j :: v < j <= p ==> !Shown(entries, snap, j)
  }

  // One turn of the backward scan.
  lemma BackStep(entries: seq<Entry>, snap: SequenceNumber, p: int, i: int, found: bool, v: int,
                 key: Option<UserKey>, value: string)
    requires BackScanning(entries, snap, p, i, found, v, key, value)
    ensures i >= 0 && !Visible(entries, snap, i) ==> BackScanning(entries, snap, p, i - 1, found, v, key, value)
    ensures i >= 0 && Visible(entries, snap, i) && !(found && entries[i].Key() < key.value) ==>
              if entries[i].IsDeletion() then BackScanning(entries, snap, p, i - 1, false, i, None, "")
              else BackScanning(entries, snap, p, i - 1, true, i, Some(entries[i].Key()), entries[i].value)
    ensures found && (i >= 0 ==> Visible(entries, snap, i) && entries[i].Key() < key.value)
        ==> BackStops(entries, snap, p, i, v)
  {
    if found && i >= 0 {
      KeysAscend(entries, i, v);
    }
    if found {
      forall j | i < j < |entries| && entries[j].Key() < key.value ensures !Visible(entries, snap, j) {
        if v <= j { KeysAscend(entries, v, j); }
      }
      forall j | 0 <= j < v && entries[j].Key() == entries[v].Key()
        ensures i >= 0 && entries[i].Key() < key.value ==> i < j
      {
        if j <= i { KeysAscend(entries, j, i); }
      }
    }
  }

  // A backward scan that starts before key k ends at k's predecessor.
  lemma BackScanFindsPrev(entries: seq<Entry>, snap: SequenceNumber, p: int, k: UserKey, found: bool, i: int, v: int)
    requires IndexedBy(entries) && BeforeKey(entries, snap, p, k)
    requires found ==> BackStops(entries, snap, p, i, v)
    requires !found ==> forall j :: 0 <= j <= p ==> !Shown(entries, snap, j)
    ensures IsPrev(ViewMap(entries, snap), k, if found then On(entries[v].Key()) else Off)
  {
    if found {
      ShownIsInView(entries, snap, v);
      KeysAscend(entries, v, p);
    }
    forall x | x in ViewMap(entries, snap) && x < k ensures found && x <= entries[v].Key() {
      var j := InViewIsShown(entries, snap, x);
      assert j <= p;
      KeysAscend(entries, j, v);
    }
  }

  lemma BackScanFindsLast(entries: seq<Entry>, snap: SequenceNumber, found: bool, i: int, v: int)
    requires IndexedBy(entries)
    requires found ==> BackStops(entries, snap, |entries| - 1, i, v)
    requires !found ==> forall j :: 0 <= j < |entries| ==> !Shown(entries, snap, j)
    ensures IsLast(ViewMap(entries, snap), if found then On(entries[v].Key()) else Off)
  {
    if found { ShownIsInView(entries, snap, v); }
    forall x | x in ViewMap(entries, snap) ensures found && x <= entries[v].Key() {
      var j := InViewIsShown(entries, snap, x);
      assert j <= v;
      KeysAscend(entries, j, v);
    }
  }

  datatype Direction = Forward | Reverse

  class DBIter {
    const iter: EntryIterator
    const sequence: SequenceNumber
    var savedKey: Option<UserKey>  // current key when direction == Reverse
    var savedValue: string         // current value when direction == Reverse
    var direction: Direction
    var valid: bool

    constructor (iter: EntryIterator, sequence: SequenceNumber)
      requires iter.Ok() && IndexedBy(iter.entries)
      ensures this.iter == iter && this.sequence == sequence
      ensures Ok() && At() == Off
    {
      this.iter, this.sequence := iter, sequence;
      savedKey, savedValue, direction, valid := None, "", Forward, false;
    }

    ghost function View(): map<UserKey, string> {
      ViewMap(iter.entries, sequence)
    }

    // Moving forward, the internal iterator is at the entry shown.  Moving
    // backward, it is before all entries of the current key: at an entry of a
    // smaller key (or off the front), with only invisible entries in between.
    ghost predicate Ok()
      reads this, iter
    {
      && iter.Ok() && IndexedBy(iter.entries)
      && (valid && direction == Forward ==> iter.IsValid() && Shown(iter.entries, sequence, iter.pos))
      && (valid && direction == Reverse ==>
            && savedKey.Some? && savedKey.value in View() && savedValue == View()[savedKey.value]
            && BeforeKey(iter.entries, sequence, iter.pos, savedKey.value))
    }

    function Key(): UserKey
      requires valid && if direction == Forward then iter.IsValid() else savedKey.Some?
      reads this, iter
    {
      if direction == Forward then iter.Current().Key() else savedKey.value
    }

    function Value(): string
      requires valid && (direction == Forward ==> iter.IsValid())
      reads this, iter
    {
      if direction == Forward then iter.Current().value else savedValue
    }

    ghost function At(): Cursor
      requires Ok()
      reads this, iter
    {
      if valid then On(Key()) else Off
    }

    // What the caller sees is an entry of the map.
    lemma ShowsTheMap()
      requires Ok() && valid
      ensures Key() in View() && Value() == View()[Key()]
    {
      if direction == Forward {
        ShownIsInView(iter.entries, sequence, iter.pos);
      }
    }

    method FindNextUserEntry(skipping0: bool, skip0: UserKey)
      requires iter.IsValid() && IndexedBy(iter.entries) && direction == Forward
      requires CanScanFrom(iter.entries, sequence, iter.pos, skipping0, skip0)
      modifies this`valid, this`savedKey, iter`pos
      ensures Ok()
      ensures valid ==> ScanStops(iter.entries, sequence, old(iter.pos), iter.pos, skipping0, skip0)
      ensures !valid ==> ScanPasses(iter.entries, sequence, old(iter.pos), |iter.entries|, skipping0, skip0)
    {
      var skipping, skip := skipping0, skip0;
      ghost var start := iter.pos;
      while true
        invariant iter.IsValid() && start <= iter.pos
        invariant Scanning(iter.entries, sequence, start, iter.pos, skipping0, skip0, skipping, skip)
        decreases |iter.entries| - iter.pos
      {
        var e := iter.Current();
        ScanStep(iter.entries, sequence, start, iter.pos, skipping0, skip0, skipping, skip);
        if e.Seq() <= sequence {
          if e.IsDeletion() {
            // Skip all upcoming entries of this key.
            skip := e.Key();
            skipping := true;
          } else if skipping && e.Key() <= skip {
            // Entry hidden
          } else {
            valid := true;
            savedKey := None;
            return;
          }
        }
        iter.Next();
        if !iter.IsValid() {
          break;
        }
      }
      savedKey := None;
      valid := false;
    }

    method FindPrevUserEntry()
      requires iter.Ok() && IndexedBy(iter.entries) && direction == Reverse
      modifies this`valid, this`savedKey, this`savedValue, this`direction, iter`pos
      ensures Ok()
      ensures valid ==> && direction == Reverse
                        && exists v :: BackStops(iter.entries, sequence, old(iter.pos), iter.pos, v)
                                       && savedKey == Some(iter.entries[v].Key())
      ensures !valid ==> && direction == Forward
                         && forall j :: 0 <= j <= old(iter.pos) ==> !Shown(iter.entries, sequence, j)
    {
      var valueType, v := ScanBack();
      if valueType.Deletion? {
        valid := false;
        savedKey := None;
        savedValue := "";
        direction := Forward;
      } else {
        ShownIsInView(iter.entries, sequence, v);
        valid := true;
      }
    }

    // The loop of FindPrevUserEntry, from where the iterator stands down.
    method ScanBack() returns (valueType: ValueType, ghost v: int)
      requires iter.Ok() && IndexedBy(iter.entries) && direction == Reverse
      modifies this`savedKey, this`savedValue, iter`pos
      ensures iter.Ok()
      ensures valueType.Value? ==> && BackStops(iter.entries, sequence, old(iter.pos), iter.pos, v)
                                   && savedKey == Some(iter.entries[v].Key()) && savedValue == iter.entries[v].value
      ensures valueType.Deletion? ==> forall j :: 0 <= j <= old(iter.pos) ==> !Shown(iter.entries, sequence, j)
    {
      valueType, v := Deletion, 0;
      ghost var p := iter.pos;
      if iter.IsValid() {
        while true
          invariant iter.IsValid()
          invariant BackScanning(iter.entries, sequence, p, iter.pos, valueType.Value?, v, savedKey, savedValue)
          decreases iter.pos
        {
          var e := iter.Current();
          BackStep(iter.entries, sequence, p, iter.pos, valueType.Value?, v, savedKey, savedValue);
          if e.Seq() <= sequence {
            if valueType.Value? && e.Key() < savedKey.value {
              // We encountered a non-deleted value in entries for previous keys.
              break;
            }
            valueType := e.ikey.kind;
            v := iter.pos;
            if valueType.Deletion? {
              savedKey := None;
              savedValue := "";
            } else {
              savedKey := Some(e.Key());
              savedValue := e.value;
            }
          }
          iter.Prev();
          if !iter.IsValid() {
            BackStep(iter.entries, sequence, p, iter.pos, valueType.Value?, v, savedKey, savedValue);
            break;
          }
        }
      }
    }

    method Next()
      requires Ok() && valid
      modifies this, iter`pos
      ensures Ok() && IsNext(View(), old(Key()), At())
    {
      ghost var k := Key();
      if direction == Reverse {
        direction := Forward;
        ScanFromBefore(iter.entries, sequence, iter.pos, k);
        // iter is just before the entries for the current key, so advance
        // into them and then use the normal skipping code below.
        if !iter.IsValid() {
          iter.SeekToFirst();
        } else {
          iter.Next();
        }
      } else {
        ScanFromShown(iter.entries, sequence, iter.pos);
        savedKey := Some(iter.Current().Key());
      }
      ghost var start := iter.pos;
      FindNextUserEntry(true, savedKey.value);
      ScanFindsNext(iter.entries, sequence, start, if valid then iter.pos else |iter.entries|, k);
    }

    method Prev()
      requires Ok() && valid
      modifies this, iter`pos
      ensures Ok() && IsPrev(View(), old(Key()), At())
    {
      ghost var k := Key();
      if direction == Forward {
        // Scan backwards until the key changes so we can use the normal
        // reverse scanning code.
        savedKey := Some(iter.Current().Key());
        while true
          invariant iter.IsValid() && direction == Forward && savedKey == Some(k)
          invariant forall j :: iter.pos <= j < |iter.entries| ==> iter.entries[j].Key() >= k
          decreases iter.pos
        {
          iter.Prev();
          if !iter.IsValid() {
            valid := false;
            savedKey := None;
            savedValue := "";
            BackScanFindsPrev(iter.entries, sequence, -1, k, false, 0, 0);
            return;
          }
          if iter.Current().Key() < savedKey.value {
            break;
          }
        }
        direction := Reverse;
      }
      ghost var p := iter.pos;
      FindPrevUserEntry();
      ghost var v: int :| valid ==> BackStops(iter.entries, sequence, p, iter.pos, v)
                                    && savedKey == Some(iter.entries[v].Key());
      BackScanFindsPrev(iter.entries, sequence, p, k, valid, iter.pos, v);
    }

    method Seek(target: UserKey)
      requires Ok()
      modifies this, iter`pos
      ensures Ok() && IsSeek(View(), target, At())
    {
      direction := Forward;
      savedValue := "";
      iter.Seek(SeekKey(target, sequence));
      ScanFromSeek(iter.entries, sequence, target, LowerBound(iter.entries, SeekKey(target, sequence)));
      if iter.IsValid() {
        FindNextUserEntry(false, target);
      } else {
        valid := false;
      }
      ScanFindsSeek(iter.entries, sequence, target, LowerBound(iter.entries, SeekKey(target, sequence)),
                    if valid then iter.pos else |iter.entries|);
    }

    method SeekToFirst()
      requires Ok()
      modifies this, iter`pos
      ensures Ok() && IsFirst(View(), At())
    {
      direction := Forward;
      savedValue := "";
      iter.SeekToFirst();
      if iter.IsValid() {
        FindNextUserEntry(false, 0.0);
      } else {
        valid := false;
      }
      ScanFindsFirst(iter.entries, sequence, if valid then iter.pos else |iter.entries|);
    }

    method SeekToLast()
      requires Ok()
      modifies this, iter`pos
      ensures Ok() && IsLast(View(), At())
    {
      direction := Reverse;
      savedValue := "";
      iter.SeekToLast();
      FindPrevUserEntry();
      ghost var v: int :| valid ==> BackStops(iter.entries, sequence, |iter.entries| - 1, iter.pos, v)
                                    && savedKey == Some(iter.entries[v].Key());
      BackScanFindsLast(iter.entries, sequence, valid, iter.pos, v);
    }
  }
}
