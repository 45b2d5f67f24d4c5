// The layout of a block: prefix-compressed entries with restart points
// (table/block_builder.cc), and the decoding of one entry (table/block.cc).

module BlockFormat {
  import opened Wrappers
  import opened Coding
  import opened Varint

  type Key = seq<byte>

  datatype KeyValue = KeyValue(key: Key, value: seq<byte>)

  // A comparator: a strict total order on keys.
  ghost predicate IsOrder(less: (Key, Key) -> bool) {
    && (forall a :: !less(a, a))
    && (forall a, b, c :: less(a, b) && less(b, c) ==> less(a, c))
    && forall a, b :: less(a, b) || less(b, a) || a == b
  }

  ghost predicate Sorted(es: seq<KeyValue>, less: (Key, Key) -> bool) {
    forall i, j :: 0 <= i < j < |es| ==> less(es[i].key, es[j].key)
  }

  /* Entries. */

  function CommonPrefix(a: Key, b: Key): (n: nat)
    ensures n <= |a| && n <= |b| && a[..n] == b[..n]
  {
    if a == [] || b == [] || a[0] != b[0] then 0
    else
      var n := CommonPrefix(a[1..], b[1..]);
      assert a[..n + 1] == [a[0]] + a[1..][..n] && b[..n + 1] == [b[0]] + b[1..][..n];
      n + 1
  }

  // No longer prefix is common.
  lemma {:induction false} CommonPrefixIsLongest(a: Key, b: Key, m: nat)
    requires m <= |a| && m <= |b| && a[..m] == b[..m]
    ensures m <= CommonPrefix(a, b)
  {
    if m > 0 {
      assert a[0] == a[..m][0] && b[0] == b[..m][0];
      assert a[1..][..m - 1] == a[..m][1..] && b[1..][..m - 1] == b[..m][1..];
      CommonPrefixIsLongest(a[1..], b[1..], m - 1);
    }
  }

  function EncodeEntry(shared: nat, e: KeyValue): (r: seq<byte>)
    requires shared <= |e.key|
    ensures |r| >= 3
  {
    EncodeVarint(shared) + EncodeVarint(|e.key| - shared) + EncodeVarint(|e.value|) + e.key[shared..] + e.value
  }

  // counter_ after n entries.
  function Counter(interval: nat, n: nat): nat {
    if n == 0 then 0 else if Counter(interval, n - 1) < interval then Counter(interval, n - 1) + 1 else 1
  }

  // The n-th entry starts a run of its own.
  predicate IsRestart(interval: nat, n: nat) {
    n == 0 || Counter(interval, n) >= interval
  }

  lemma {:induction false} CounterIs(interval: nat, q: nat, r: nat)
    requires 1 <= r <= interval
    ensures q * interval >= 0 && Counter(interval, q * interval + r) == r
    decreases q, r
  {
    hide Counter;
    var n := q * interval + r;
    assert q * interval >= 0;
    CounterStep(interval, n - 1);
    if r > 1 {
      CounterIs(interval, q, r - 1);
    } else if q > 0 {
      CounterIs(interval, q - 1, interval);
      assert (q - 1) * interval + interval == n - 1;
    } else {
      assert q * interval == 0;
    }
  }

  lemma CounterStep(interval: nat, n: nat)
    ensures Counter(interval, n + 1) == if Counter(interval, n) < interval then Counter(interval, n) + 1 else 1
    ensures Counter(interval, 0) == 0
  {
  }

  // Every interval-th entry starts a run, and no other.
  lemma EachRunIsFull(interval: nat, q: nat, r: nat)
    requires r < interval
    ensures q * interval >= 0 && (IsRestart(interval, q * interval + r) <==> r == 0)
  {
    hide Counter;
    if r > 0 {
      CounterIs(interval, q, r);
    } else if q > 0 {
      CounterIs(interval, q - 1, interval);
      assert (q - 1) * interval + interval == q * interval;
    } else {
      assert q * interval == 0;
    }
  }

  function SharedAt(es: seq<KeyValue>, interval: nat, n: nat): (r: nat)
    requires n < |es|
    ensures r <= |es[n].key| && (r > 0 ==> n > 0 && r <= |es[n - 1].key| && es[n - 1].key[..r] == es[n].key[..r])
  {
    if IsRestart(interval, n) then 0 else CommonPrefix(es[n - 1].key, es[n].key)
  }

  function EntryAt(es: seq<KeyValue>, interval: nat, n: nat): (r: seq<byte>)
    requires n < |es|
    ensures |r| >= 3
  {
    EncodeEntry(SharedAt(es, interval, n), es[n])
  }

  // The bytes of the first n entries, and where the n-th begins.
  function Data(es: seq<KeyValue>, interval: nat, n: nat): seq<byte>
    requires n <= |es|
  {
    if n == 0 then [] else Data(es, interval, n - 1) + EntryAt(es, interval, n - 1)
  }

  function Offset(es: seq<KeyValue>, interval: nat, n: nat): nat
    requires n <= |es|
  {
    |Data(es, interval, n)|
  }

  // The entries at the restart points of a block of n entries; the first is
  // there even before any entry.
  function RestartEntries(interval: nat, n: nat): (r: seq<nat>)
    ensures |r| >= 1 && r[0] == 0
  {
    if n == 0 then [0]
    else if n > 1 && IsRestart(interval, n - 1) then RestartEntries(interval, n - 1) + [n - 1]
    else RestartEntries(interval, n - 1)
  }

  ghost function RestartOffsets(es: seq<KeyValue>, interval: nat): (r: seq<nat>)
    ensures |r| == |RestartEntries(interval, |es|)|
  {
    var rs := RestartEntries(interval, |es|);
    seq(|rs|, i requires 0 <= i < |rs| => if rs[i] <= |es| then Offset(es, interval, rs[i]) else 0)
  }

  // A finished block, within 32-bit sizes.
  ghost predicate IsBlock(es: seq<KeyValue>, interval: nat, contents: seq<byte>) {
    var data, offsets := Data(es, interval, |es|), RestartOffsets(es, interval);
    && |contents| < TWO_32 && (forall i :: 0 <= i < |offsets| ==> offsets[i] < TWO_32) && |offsets| < TWO_32
    && contents == data + Words(offsets) + EncodeFixed32(|offsets|)
  }

  /* Facts about the layout. */

  lemma {:induction false} DataSplits(es: seq<KeyValue>, interval: nat, i: nat, n: nat)
    requires i < n <= |es|
    ensures Offset(es, interval, i) + |EntryAt(es, interval, i)| == Offset(es, interval, i + 1) <= Offset(es, interval, n)
    ensures Data(es, interval, n)[Offset(es, interval, i)..Offset(es, interval, i + 1)] == EntryAt(es, interval, i)
    decreases n
  {
    hide EntryAt;
    if i + 1 < n {
      DataSplits(es, interval, i, n - 1);
    }
  }

  lemma OffsetsGrow(es: seq<KeyValue>, interval: nat, i: nat, j: nat)
    requires i <= j <= |es|
    ensures Offset(es, interval, i) <= Offset(es, interval, j)
    ensures i < j ==> Offset(es, interval, i) < Offset(es, interval, j)
  {
    if i < j { DataSplits(es, interval, i, j); }
  }

  ghost predicate RestartsOk(interval: nat, n: nat, rs: seq<nat>) {
    && (forall i :: 0 <= i < |rs| ==> IsRestart(interval, rs[i]) && (rs[i] == 0 || rs[i] < n))
    && forall i, j :: 0 <= i < j < |rs| ==> rs[i] < rs[j]
  }

  lemma {:induction false} RestartsAscend(interval: nat, n: nat)
    ensures RestartsOk(interval, n, RestartEntries(interval, n))
  {
    if n > 0 {
      RestartsAscend(interval, n - 1);
      var before := RestartEntries(interval, n - 1);
      if n > 1 && IsRestart(interval, n - 1) {
        OneMoreRestart(interval, n, before);
      }
    }
  }

  lemma OneMoreRestart(interval: nat, n: nat, before: seq<nat>)
    requires n > 1 && RestartsOk(interval, n - 1, before) && IsRestart(interval, n - 1)
    ensures RestartsOk(interval, n, before + [n - 1])
  {
    hide IsRestart;
  }

  /* Decoding an entry. */

  datatype Header = Header(shared: nat, nonShared: nat, valueLength: nat, rest: seq<byte>)

  // DecodeEntry: the three lengths, and what comes after them.
  function DecodeEntry(s: seq<byte>): Option<Header> {
    if |s| < 3 then None
    else
      var fast := s[0] < 128 && s[1] < 128 && s[2] < 128;
      var h := if fast then Some(Header(s[0], s[1], s[2], s[3..])) else DecodeLengths(s);
      if h.Some? && |h.value.rest| < (h.value.nonShared + h.value.valueLength) % TWO_32 then None else h
  }

  function DecodeLengths(s: seq<byte>): Option<Header> {
    match GetVarint32(s, 0)
    case Fail => None
    case Got(shared, s1) =>
      match GetVarint32(s1, 0)
      case Fail => None
      case Got(nonShared, s2) =>
        match GetVarint32(s2, 0)
        case Fail => None
        case Got(valueLength, s3) => Some(Header(shared, nonShared, valueLength, s3))
  }

  // The one-byte fast path reads what the general path would.
  lemma FastPathAgrees(s: seq<byte>)
    requires |s| >= 3 && s[0] < 128 && s[1] < 128 && s[2] < 128
    ensures DecodeLengths(s) == Some(Header(s[0], s[1], s[2], s[3..]))
  {
    assert s[1..][1..] == s[2..] && s[2..][1..] == s[3..];
  }

  lemma EntryDecodes(shared: nat, e: KeyValue, tail: seq<byte>)
    requires shared <= |e.key| && |e.key| + |e.value| < TWO_32
    ensures DecodeEntry(EncodeEntry(shared, e) + tail)
         == Some(Header(shared, |e.key| - shared, |e.value|, e.key[shared..] + e.value + tail))
  {
    hide EncodeVarint, GetVarint32, Pow2;
    var a, b, c := EncodeVarint(shared), EncodeVarint(|e.key| - shared), EncodeVarint(|e.value|);
    var body := e.key[shared..] + e.value + tail;
    var s := EncodeEntry(shared, e) + tail;
    assert s == a + (b + (c + body));
    GetVarint32RoundTrip(shared, b + (c + body));
    GetVarint32RoundTrip(|e.key| - shared, c + body);
    GetVarint32RoundTrip(|e.value|, body);
    if s[0] < 128 && s[1] < 128 && s[2] < 128 { FastPathAgrees(s); }
  }

  /* A sample: "ab" and "acd" in one run, then "b" in another. */

  const SAMPLE := [KeyValue([0x61, 0x62], [1]), KeyValue([0x61, 0x63, 0x64], []), KeyValue([0x62], [2, 3])]

  lemma BlockOnDisk(contents: seq<byte>)
    ensures IsBlock(SAMPLE, 2, contents) <==>
      contents == [0, 2, 1, 0x61, 0x62, 1,
                   1, 2, 0, 0x63, 0x64,
                   0, 1, 2, 0x62, 2, 3,
                   0, 0, 0, 0, 11, 0, 0, 0, 2, 0, 0, 0]
  {
    hide Data, EncodeFixed32, Words;
    SampleEntries();
    SampleRestarts();
    var data, tail := Data(SAMPLE, 2, 3), Words([0, 11]) + EncodeFixed32(2);
    assert |SAMPLE| == 3;
    assert data + Words([0, 11]) + EncodeFixed32(2) == data + tail;
  }

  lemma SampleRestarts()
    ensures RestartOffsets(SAMPLE, 2) == [0, 11]
    ensures Words([0, 11]) + EncodeFixed32(2) == [0, 0, 0, 0, 11, 0, 0, 0, 2, 0, 0, 0]
  {
    hide Data;
    SampleEntries();
    assert RestartEntries(2, 1) == [0];
    assert RestartEntries(2, 2) == [0];
    assert RestartEntries(2, 3) == [0, 2];
    TwoWords(0, 11);
    assert EncodeFixed32(0) == [0, 0, 0, 0] && EncodeFixed32(11) == [11, 0, 0, 0] && EncodeFixed32(2) == [2, 0, 0, 0];
  }

  lemma SampleEntries()
    ensures Counter(2, 0) == 0 && Counter(2, 1) == 1 && Counter(2, 2) == 2 && Counter(2, 3) == 1
    ensures Data(SAMPLE, 2, 0) == []
    ensures Data(SAMPLE, 2, 2) == [0, 2, 1, 0x61, 0x62, 1, 1, 2, 0, 0x63, 0x64]
    ensures Data(SAMPLE, 2, 3) == [0, 2, 1, 0x61, 0x62, 1, 1, 2, 0, 0x63, 0x64, 0, 1, 2, 0x62, 2, 3]
  {
    assert Counter(2, 1) == 1;
    assert Counter(2, 2) == 2;
    var a, b := SAMPLE[0].key, SAMPLE[1].key;
    assert CommonPrefix(a, b) == 1 by { assert a[1..][0] != b[1..][0]; assert CommonPrefix(a[1..], b[1..]) == 0; }
    assert EntryAt(SAMPLE, 2, 0) == [0, 2, 1, 0x61, 0x62, 1];
    assert EntryAt(SAMPLE, 2, 1) == [1, 2, 0, 0x63, 0x64];
    assert EntryAt(SAMPLE, 2, 2) == [0, 1, 2, 0x62, 2, 3];
    assert Data(SAMPLE, 2, 1) == [0, 2, 1, 0x61, 0x62, 1];
  }
}
