// Internal keys, their order, and the meaning of a read (db/dbformat.h, db/dbformat.cc).
//
// The engine looks at user keys only through a comparator, that is, through a
// strict total order.  User keys are therefore modelled by real numbers, and no
// statement uses arithmetic on them; StoredKeys gives the order-preserving
// embedding of byte strings under the bytewise comparator.

module DbFormat {
  import opened Wrappers

  type UserKey = real

  const MAX_SEQUENCE_NUMBER: nat := 0xFF_FFFF_FFFF_FFFF
  type SequenceNumber = n: nat | n <= MAX_SEQUENCE_NUMBER
  const NUM_LEVELS: nat := 7

  datatype ValueType = Deletion | Value

  datatype InternalKey = InternalKey(user: UserKey, sequence: SequenceNumber, kind: ValueType)

  datatype Entry = Entry(ikey: InternalKey, value: string)
  {
    function Key(): UserKey { ikey.user }
    function Seq(): SequenceNumber { ikey.sequence }
    predicate IsDeletion() { ikey.kind.Deletion? }
  }

  // (seq << 8) | type
  function PackSequenceAndType(k: InternalKey): nat {
    k.sequence * 256 + if k.kind.Value? then 1 else 0
  }

  // The internal key used to look a user key up at a snapshot: the value type
  // with the highest number sorts first among equal sequence numbers.
  function SeekKey(user: UserKey, sequence: SequenceNumber): InternalKey {
    InternalKey(user, sequence, Value)
  }

  // InternalKeyComparator::Compare
  function Compare(a: InternalKey, b: InternalKey): int {
    if a.user < b.user then -1
    else if a.user > b.user then 1
    else if PackSequenceAndType(a) > PackSequenceAndType(b) then -1
    else if PackSequenceAndType(a) < PackSequenceAndType(b) then 1
    else 0
  }

  predicate Less(a: InternalKey, b: InternalKey) {
    Compare(a, b) < 0
  }

  // The comparator's three-way result is a total order whose ties are equalities:
  // ascending user key, then descending sequence number, then values before deletions.
  lemma CompareIsTotalOrder(a: InternalKey, b: InternalKey, c: InternalKey)
    ensures Compare(a, b) == 0 <==> a == b
    ensures Compare(a, b) == -Compare(b, a)
    ensures Less(a, b) && Less(b, c) ==> Less(a, c)
    ensures Less(a, b) <==>
            || a.user < b.user
            || (a.user == b.user && a.sequence > b.sequence)
            || (a.user == b.user && a.sequence == b.sequence && a.kind == Value && b.kind == Deletion)
  {
  }

  ghost predicate Sorted(s: seq<Entry>) {
    forall i, j :: 0 <= i < j < |s| ==> Less(s[i].ikey, s[j].ikey)
  }

  ghost function Elements(s: seq<Entry>): set<Entry> {
    set e | e in s
  }

  // No two operations ever share a sequence number, so user key and sequence
  // number determine the entry.
  ghost predicate UniqueSeqs(s: set<Entry>) {
    forall d, e :: d in s && e in s && d.Key() == e.Key() && d.Seq() == e.Seq() ==> d == e
  }

  // Of each user key in both sets, the first holds the newer entries.
  ghost predicate NewerThan(newer: set<Entry>, older: set<Entry>) {
    forall n, o :: n in newer && o in older && n.Key() == o.Key() ==> n.Seq() > o.Seq()
  }

  /* Reading the store: the newest entry at or below the snapshot decides. */

  datatype ReadResult = NotFound | Found(value: string)

  ghost predicate IsNewest(s: set<Entry>, k: UserKey, snap: SequenceNumber, e: Entry) {
    && e in s && e.Key() == k && e.Seq() <= snap
    && forall d :: d in s && d.Key() == k && d.Seq() <= snap ==> d.Seq() <= e.Seq()
  }

  ghost predicate HasVisible(s: set<Entry>, k: UserKey, snap: SequenceNumber) {
    exists e :: e in s && e.Key() == k && e.Seq() <= snap
  }

  function Meaning(e: Entry): ReadResult {
    if e.IsDeletion() then NotFound else Found(e.value)
  }

  ghost function Read(s: set<Entry>, k: UserKey, snap: SequenceNumber): ReadResult {
    if exists e :: IsNewest(s, k, snap, e) then
      var e :| IsNewest(s, k, snap, e);
      Meaning(e)
    else
      NotFound
  }

  // A non-empty finite choice has a newest member.
  lemma {:induction false} NewestExists(s: set<Entry>, k: UserKey, snap: SequenceNumber)
    requires HasVisible(s, k, snap)
    ensures exists e :: IsNewest(s, k, snap, e)
    decreases |s|
  {
    var e :| e in s && e.Key() == k && e.Seq() <= snap;
    var rest := s - {e};
    if HasVisible(rest, k, snap) {
      NewestExists(rest, k, snap);
      var m :| IsNewest(rest, k, snap, m);
      assert IsNewest(s, k, snap, if e.Seq() > m.Seq() then e else m);
    } else {
      assert IsNewest(s, k, snap, e);
    }
  }

  lemma ReadIsNewest(s: set<Entry>, k: UserKey, snap: SequenceNumber, e: Entry)
    requires UniqueSeqs(s) && IsNewest(s, k, snap, e)
    ensures Read(s, k, snap) == Meaning(e)
  {
  }

  lemma ReadNothing(s: set<Entry>, k: UserKey, snap: SequenceNumber)
    requires !HasVisible(s, k, snap)
    ensures Read(s, k, snap) == NotFound
  {
  }
}
