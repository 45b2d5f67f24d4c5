// The block builder (table/block_builder.cc) and the block iterator
// (table/block.cc).

module BlockCode {
  import opened Wrappers
  import opened Coding
  import opened Varint
  import opened BlockFormat

  // EncodeVarint32, one case for each length.
  method PutVarint32(dst: seq<byte>, v: nat) returns (r: seq<byte>)
    requires v < TWO_32
    ensures r == dst + EncodeVarint(v)
  {
    hide EncodeVarint;
    ghost var a := v / 0x80;
    ghost var b := a / 0x80;
    ghost var c := b / 0x80;
    Digits(v, a, b, c);
    FewBytes(v, a, b, c, c / 0x80);
    if v < 0x80 {
      r := dst + [v];
    } else if v < 0x4000 {
      r := dst + [v % 0x80 + 0x80, v / 0x80];
    } else if v < 0x20_0000 {
      r := dst + [v % 0x80 + 0x80, v / 0x80 % 0x80 + 0x80, v / 0x4000];
    } else if v < 0x1000_0000 {
      r := dst + [v % 0x80 + 0x80, v / 0x80 % 0x80 + 0x80, v / 0x4000 % 0x80 + 0x80, v / 0x20_0000];
    } else {
      r := dst + [v % 0x80 + 0x80, v / 0x80 % 0x80 + 0x80, v / 0x4000 % 0x80 + 0x80, v / 0x20_0000 % 0x80 + 0x80, v / 0x1000_0000];
    }
  }

  // At most five bytes, each the next seven bits.
  lemma FewBytes(v: nat, a: nat, b: nat, c: nat, d: nat)
    requires a == v / 0x80 && b == a / 0x80 && c == b / 0x80 && d == c / 0x80 && d < 0x80
    ensures v < 0x80 ==> EncodeVarint(v) == [v]
    ensures v >= 0x80 > a ==> EncodeVarint(v) == [v % 0x80 + 0x80, a]
    ensures a >= 0x80 > b ==> EncodeVarint(v) == [v % 0x80 + 0x80, a % 0x80 + 0x80, b]
    ensures b >= 0x80 > c ==> EncodeVarint(v) == [v % 0x80 + 0x80, a % 0x80 + 0x80, b % 0x80 + 0x80, c]
    ensures c >= 0x80 ==> EncodeVarint(v) == [v % 0x80 + 0x80, a % 0x80 + 0x80, b % 0x80 + 0x80, c % 0x80 + 0x80, d]
  {
    hide EncodeVarint;
    Unfold(v);
    Unfold(a);
    Unfold(b);
    Unfold(c);
    Unfold(d);
  }

  lemma Digits(v: nat, a: nat, b: nat, c: nat)
    requires a == v / 0x80 && b == a / 0x80 && c == b / 0x80 && v < TWO_32
    ensures v / 0x4000 == b && v / 0x20_0000 == c && v / 0x1000_0000 == c / 0x80 && c / 0x80 < 0x80
    ensures (v < 0x4000 <==> a < 0x80) && (v < 0x20_0000 <==> b < 0x80) && (v < 0x1000_0000 <==> c < 0x80)
  {
  }

  lemma Unfold(v: nat)
    ensures EncodeVarint(v) == if v < 128 then [v] else [v % 128 + 128] + EncodeVarint(v / 128)
  {
  }

  class BlockBuilder {
    const interval: nat
    var buffer: seq<byte>
    var restarts: seq<nat>
    var counter: nat
    var finished: bool
    var lastKey: Key
    ghost var entries: seq<KeyValue>

    constructor (interval: nat)
      requires interval >= 1
      ensures Valid() && entries == [] && !finished && this.interval == interval
    {
      this.interval, buffer, restarts, counter, finished, lastKey, entries := interval, [], [0], 0, false, [], [];
    }

    ghost predicate Valid()
      reads this
    {
      && interval >= 1 && counter == Counter(interval, |entries|)
      && lastKey == (if entries == [] then [] else entries[|entries| - 1].key)
      && (!finished ==> buffer == Data(entries, interval, |entries|))
      && restarts == RestartOffsets(entries, interval)
    }

    // Add
    method Add(key: Key, value: seq<byte>)
      requires Valid() && !finished && |key| < TWO_32 && |value| < TWO_32
      modifies this
      ensures Valid() && !finished && entries == old(entries) + [KeyValue(key, value)]
    {
      hide CommonPrefix, Data, RestartOffsets, EncodeEntry, SharedAt, Counter, IsRestart, Offset;
      ghost var es, e := entries, KeyValue(key, value);
      CounterStep(interval, |es|);
      AppendEntry(es, interval, e);
      CounterIsBounded(interval, |es|);
      RestartIff(es, interval);
      var shared := 0;
      if counter < interval {
        shared := SharedLength(lastKey, key);
      } else {
        restarts := restarts + [|buffer|];
        counter := 0;
      }
      PutEntry(shared, key, value);
      KeyRebuilt(lastKey, key, shared);
      lastKey := lastKey[..shared] + key[shared..];
      counter := counter + 1;
      entries := es + [e];
    }

    // Add, the three lengths, the rest of the key and the value.
    method PutEntry(shared: nat, key: Key, value: seq<byte>)
      requires shared <= |key| < TWO_32 && |value| < TWO_32
      modifies this`buffer
      ensures buffer == old(buffer) + EncodeEntry(shared, KeyValue(key, value))
    {
      hide EncodeVarint;
      var nonShared := |key| - shared;
      buffer := PutVarint32(buffer, shared);
      buffer := PutVarint32(buffer, nonShared);
      buffer := PutVarint32(buffer, |value|);
      buffer := buffer + key[shared..];
      buffer := buffer + value;
    }

    // Finish
    method Finish() returns (contents: seq<byte>)
      requires Valid() && !finished && |buffer| + 4 * |restarts| + 4 < TWO_32
      modifies this
      ensures Valid() && finished && entries == old(entries) && IsBlock(entries, interval, contents)
    {
      hide Data, RestartOffsets, Counter;
      RestartsAreOffsets(entries, interval);
      assert forall k :: 0 <= k < |restarts| ==> restarts[k] < TWO_32;
      var i := 0;
      var data := buffer;
      while i < |restarts|
        invariant 0 <= i <= |restarts| && (forall k :: 0 <= k < |restarts| ==> restarts[k] < TWO_32)
        invariant buffer == data + Words(restarts[..i])
        invariant restarts == old(restarts) && entries == old(entries) && counter == old(counter) && lastKey == old(lastKey) && !finished
      {
        assert restarts[..i + 1][..i] == restarts[..i];
        buffer := buffer + EncodeFixed32(restarts[i]);
        i := i + 1;
      }
      assert restarts[..i] == restarts;
      WordsLength(restarts);
      buffer := buffer + EncodeFixed32(|restarts|);
      finished := true;
      contents := buffer;
    }
  }

  // Add, the length of the common prefix.
  method SharedLength(a: Key, b: Key) returns (shared: nat)
    ensures shared == CommonPrefix(a, b)
  {
    var minLength := if |a| < |b| then |a| else |b|;
    shared := 0;
    while shared < minLength && a[shared] == b[shared]
      invariant shared <= minLength && CommonPrefix(a, b) == shared + CommonPrefix(a[shared..], b[shared..])
    {
      assert a[shared..][1..] == a[shared + 1..] && b[shared..][1..] == b[shared + 1..];
      shared := shared + 1;
    }
  }

  lemma RestartIff(es: seq<KeyValue>, interval: nat)
    ensures IsRestart(interval, |es|) <==> es == [] || Counter(interval, |es|) >= interval
    ensures Offset(es, interval, |es|) == |Data(es, interval, |es|)|
  {
  }

  lemma KeyRebuilt(last: Key, key: Key, shared: nat)
    requires shared <= |last| && shared <= |key| && last[..shared] == key[..shared]
    ensures last[..shared] + key[shared..] == key
  {
  }

  lemma CounterIsBounded(interval: nat, n: nat)
    requires interval >= 1
    ensures Counter(interval, n) <= interval && (n > 0 ==> Counter(interval, n) >= 1)
  {
  }

  lemma {:induction false} SamePrefix(es: seq<KeyValue>, interval: nat, e: KeyValue, n: nat)
    requires n <= |es|
    ensures Data(es + [e], interval, n) == Data(es, interval, n)
  {
    hide EncodeEntry, CommonPrefix, Counter;
    if n > 0 { SamePrefix(es, interval, e, n - 1); }
  }

  lemma AppendEntry(es: seq<KeyValue>, interval: nat, e: KeyValue)
    requires interval >= 1
    ensures var es', n := es + [e], |es|;
      && Data(es', interval, n + 1) == Data(es, interval, n) + EncodeEntry(SharedAt(es', interval, n), e)
      && SharedAt(es', interval, n) == (if IsRestart(interval, n) then 0 else CommonPrefix(es[n - 1].key, e.key))
      && RestartOffsets(es', interval)
         == RestartOffsets(es, interval) + (if n > 0 && IsRestart(interval, n) then [Offset(es, interval, n)] else [])
  {
    hide EncodeEntry, CommonPrefix, Counter, Data;
    var es', n := es + [e], |es|;
    SamePrefix(es, interval, e, n);
    assert Data(es', interval, n + 1) == Data(es', interval, n) + EntryAt(es', interval, n) by { DataStep(es', interval, n); }
    RestartsAscend(interval, n);
    var rs := RestartEntries(interval, n);
    forall i | 0 <= i < |rs| ensures rs[i] <= n && Offset(es', interval, rs[i]) == Offset(es, interval, rs[i]) {
      SamePrefix(es, interval, e, rs[i]);
    }
  }

  lemma DataStep(es: seq<KeyValue>, interval: nat, n: nat)
    requires n < |es|
    ensures Data(es, interval, n + 1) == Data(es, interval, n) + EntryAt(es, interval, n)
  {
  }

  lemma RestartsAreOffsets(es: seq<KeyValue>, interval: nat)
    ensures forall i :: 0 <= i < |RestartOffsets(es, interval)| ==> RestartOffsets(es, interval)[i] <= Offset(es, interval, |es|)
  {
    RestartsAscend(interval, |es|);
    var rs := RestartEntries(interval, |es|);
    forall i | 0 <= i < |rs| ensures RestartOffsets(es, interval)[i] <= Offset(es, interval, |es|) {
      if rs[i] <= |es| { OffsetsGrow(es, interval, rs[i], |es|); }
    }
  }

  // Block::Iter over a finished block.  `pos` is the entry it stands on, or -1.
  class BlockIter {
    const less: (Key, Key) -> bool
    const data: seq<byte>
    const restarts: nat
    const numRestarts: nat
    ghost const entries: seq<KeyValue>
    ghost const interval: nat
    var current: nat
    var restartIndex: nat
    var key: Key
    var valuePos: nat
    var valueLength: nat
    var corrupt: bool
    ghost var pos: int

    // Block::Block and Block::NewIterator.  The checks on the sizes hold for
    // every finished block.
    constructor (less: (Key, Key) -> bool, contents: seq<byte>, ghost entries: seq<KeyValue>, ghost interval: nat)
      requires IsBlock(entries, interval, contents) && IsOrder(less) && Sorted(entries, less)
      ensures Ok() && pos == -1 && this.entries == entries && this.less == less
    {
      TrailerReads(entries, interval, contents);
      var n := DecodeFixed32(contents[|contents| - 4..]);
      assert (|contents| - 4) / 4 >= n > 0;
      this.less, data, this.entries, this.interval := less, contents, entries, interval;
      numRestarts, restarts := n, |contents| - (1 + n) * 4;
      current, restartIndex := |contents| - (1 + n) * 4, n;
      key, valuePos, valueLength, corrupt, pos := [], 0, 0, false, -1;
    }

    ghost predicate Layout() {
      && IsBlock(entries, interval, data) && IsOrder(less) && Sorted(entries, less)
      && restarts == Offset(entries, interval, |entries|) && numRestarts == |RestartEntries(interval, |entries|)|
    }

    // The byte offset of a restart point.
    ghost function RestartAt(r: nat): nat {
      if r < |RestartEntries(interval, |entries|)| then RestartOffsets(entries, interval)[r] else 0
    }

    // Standing on the i-th entry; its restart point is not beyond it.
    ghost predicate At(i: nat)
      reads this
    {
      && i < |entries| && current == Offset(entries, interval, i) && key == entries[i].key
      && valuePos + valueLength == Offset(entries, interval, i + 1) <= |data|
      && data[valuePos..valuePos + valueLength] == entries[i].value
      && restartIndex < numRestarts == |RestartEntries(interval, |entries|)| && RestartAt(restartIndex) <= current
    }

    ghost predicate Ok()
      reads this
    {
      && Layout() && !corrupt && -1 <= pos < |entries|
      && if pos >= 0 then At(pos) else current == restarts && restartIndex == numRestarts
    }

    predicate IsValid()
      reads this
    {
      current < restarts
    }

    lemma ValidMeans()
      requires Ok()
      ensures IsValid() <==> pos >= 0
    {
      if pos >= 0 { OffsetsGrow(entries, interval, pos, |entries|); }
    }

    function Value(): seq<byte>
      requires Ok() && pos >= 0
      reads this
      ensures Value() == entries[pos].value
    {
      data[valuePos..valuePos + valueLength]
    }

    method GetRestartPoint(index: nat) returns (offset: nat)
      requires Layout() && index < numRestarts
      ensures offset == RestartAt(index) && RestartEntries(interval, |entries|)[index] <= |entries|
      ensures offset == Offset(entries, interval, RestartEntries(interval, |entries|)[index])
    {
      hide Data, RestartOffsets, EncodeFixed32, DecodeFixed32, IsOrder, Sorted;
      RestartReads(entries, interval, data, index);
      offset := DecodeFixed32(data[restarts + index * 4..]);
    }

    // About to parse the n-th entry, or past the last: the value just before
    // ends where it begins, and the key has what the entry shares with it.
    ghost predicate Ready(n: nat)
      reads this
    {
      && n <= |entries| && valuePos + valueLength == Offset(entries, interval, n)
      && restartIndex < numRestarts && RestartAt(restartIndex) <= Offset(entries, interval, n)
      && (n < |entries| ==> var shared := SharedAt(entries, interval, n);
                            shared <= |key| && key[..shared] == entries[n].key[..shared])
    }

    method SeekToRestartPoint(index: nat)
      requires Layout() && !corrupt && index < numRestarts
      modifies this`key, this`restartIndex, this`valuePos, this`valueLength
      ensures Ready(RestartEntries(interval, |entries|)[index]) && key == []
    {
      hide Data, RestartOffsets, IsOrder, Sorted, IsBlock, CommonPrefix;
      key := [];
      restartIndex := index;
      var offset := GetRestartPoint(index);
      valuePos, valueLength := offset, 0;
      RestartsAscend(interval, |entries|);
    }

    // ParseNextKey.  CorruptionError is never reached in a finished block.
    method ParseNextKey(ghost n: nat) returns (ok: bool)
      requires Layout() && !corrupt && Ready(n)
      modifies this
      ensures Ok() && ok == (n < |entries|) && pos == if ok then n else -1
    {
      hide Data, RestartOffsets, IsOrder, Sorted, IsBlock, CommonPrefix, BlockFormat.DecodeEntry, EntryAt, EncodeEntry;
      current := valuePos + valueLength;
      OffsetsGrow(entries, interval, n, |entries|);
      if current >= restarts {
        current, restartIndex, pos := restarts, numRestarts, -1;
        return false;
      }
      EntryHere(entries, interval, data, n);
      var h := DecodeEntry(data[current..restarts]).value;
      JustTheKey(entries[n].key[h.shared..], entries[n].value, h.rest);
      key := key[..h.shared] + h.rest[..h.nonShared];
      valuePos, valueLength := restarts - |h.rest| + h.nonShared, h.valueLength;
      assert entries[n].key[..h.shared] + entries[n].key[h.shared..] == entries[n].key;
      while restartIndex + 1 < numRestarts
        invariant restartIndex < numRestarts && RestartAt(restartIndex) <= current
        modifies this`restartIndex
      {
        var next := GetRestartPoint(restartIndex + 1);
        if next >= current {
          break;
        }
        restartIndex := restartIndex + 1;
      }
      pos := n;
      return true;
    }

    lemma ReadyForNext()
      requires Ok() && pos >= 0
      ensures Ready(pos + 1)
    {
      hide Data, RestartOffsets, IsOrder, Sorted, IsBlock, CommonPrefix;
      OffsetsGrow(entries, interval, pos, pos + 1);
    }

    method Next()
      requires Ok() && pos >= 0
      modifies this
      ensures Ok() && pos == if old(pos) + 1 < |entries| then old(pos) + 1 else -1
    {
      ReadyForNext();
      var _ := ParseNextKey(pos + 1);
    }

    method SeekToFirst()
      requires Ok()
      modifies this
      ensures Ok() && pos == if |entries| > 0 then 0 else -1
    {
      SeekToRestartPoint(0);
      var _ := ParseNextKey(0);
    }

    // Parse on until the entry that ends at byte `limit`, where entry n begins.
    method SkipTo(limit: nat, ghost from: nat, ghost n: nat)
      requires Layout() && !corrupt && Ready(from) && (from < n <= |entries| || from == n == |entries| == 0)
      requires limit == Offset(entries, interval, n)
      modifies this
      ensures Ok() && pos == n - 1
    {
      hide Data, RestartOffsets, IsOrder, Sorted, IsBlock, CommonPrefix, At, Ready;
      ghost var i: nat := from;
      while true
        invariant !corrupt && from <= i && (i < n || i == n == |entries| == 0) && Ready(i)
        decreases n - i
      {
        var ok := ParseNextKey(i);
        if !ok {
          return;
        }
        EndsHere(i);
        OffsetsGrow(entries, interval, i + 1, n);
        if valuePos + valueLength >= limit {
          return;
        }
        ReadyForNext();
        i := i + 1;
      }
    }

    lemma EndsHere(i: nat)
      requires At(i)
      ensures valuePos + valueLength == Offset(entries, interval, i + 1)
    {
    }

    method SeekToLast()
      requires Ok()
      modifies this
      ensures Ok() && pos == |entries| - 1
    {
      hide Data, RestartOffsets, IsOrder, Sorted, IsBlock, CommonPrefix, At, Ready;
      RestartsAscend(interval, |entries|);
      SeekToRestartPoint(numRestarts - 1);
      ghost var from := RestartEntries(interval, |entries|)[numRestarts - 1];
      SkipTo(restarts, from, |entries|);
    }

    method Prev()
      requires Ok() && pos >= 0
      modifies this
      ensures Ok() && pos == old(pos) - 1
    {
      hide Data, RestartOffsets, IsOrder, Sorted, IsBlock, CommonPrefix, Ready;
      var original := current;
      ghost var n := pos;
      while true
        invariant Ok() && pos == n && current == original
        decreases restartIndex
      {
        var offset := GetRestartPoint(restartIndex);
        if offset < original {
          break;
        }
        if restartIndex == 0 {
          BeginsAtZero(n);
          current, restartIndex, pos := restarts, numRestarts, -1;
          return;
        }
        RestartsGrow(restartIndex - 1, restartIndex);
        restartIndex := restartIndex - 1;
      }
      ghost var from := RestartEntries(interval, |entries|)[restartIndex];
      BeforeInBytes(from, n);
      SeekToRestartPoint(restartIndex);
      SkipTo(original, from, n);
    }

    lemma BeginsAtZero(n: nat)
      requires n < |entries| && Offset(entries, interval, n) <= Offset(entries, interval, 0)
      ensures n == 0
    {
      OffsetsGrow(entries, interval, 0, n);
    }

    lemma BeforeInBytes(i: nat, n: nat)
      requires i <= |entries| && n <= |entries| && Offset(entries, interval, i) < Offset(entries, interval, n)
      ensures i < n
    {
      if n <= i { OffsetsGrow(entries, interval, n, i); }
    }

    lemma RestartsGrow(r: nat, r': nat)
      requires r < r' < |RestartEntries(interval, |entries|)|
      ensures RestartAt(r) <= RestartAt(r')
    {
      RestartsAscend(interval, |entries|);
      var rs := RestartEntries(interval, |entries|);
      OffsetsGrow(entries, interval, rs[r], rs[r']);
    }

    // Seek: binary search over the restart points, then on to the first key
    // that is not less than the target.
    method Seek(target: Key)
      requires Ok()
      modifies this
      ensures Ok() && pos < |entries|
      ensures forall i :: 0 <= i < (if pos >= 0 then pos else |entries|) ==> less(entries[i].key, target)
      ensures pos >= 0 ==> !less(entries[pos].key, target)
    {
      hide Data, RestartOffsets, IsBlock, CommonPrefix, At, Ready, RestartEntries;
      var left := FindRestart(target);
      SeekToRestartPoint(left);
      ghost var i := RestartEntries(interval, |entries|)[left];
      while true
        invariant !corrupt && i <= |entries| && Ready(i)
        invariant forall j :: 0 <= j < i ==> less(entries[j].key, target)
        decreases |entries| - i
      {
        var ok := ParseNextKey(i);
        if !ok {
          return;
        }
        KeyIs(i);
        if !less(key, target) {
          return;
        }
        ReadyForNext();
        i := i + 1;
      }
    }

    lemma KeyIs(i: nat)
      requires At(i)
      ensures key == entries[i].key
    {
    }

    // The last restart point with a key less than the target, or the first.
    method FindRestart(target: Key) returns (left: nat)
      requires Layout()
      ensures left < numRestarts
      ensures var n := RestartEntries(interval, |entries|)[left];
        n <= |entries| && forall j :: 0 <= j < n ==> less(entries[j].key, target)
    {
      hide Data, RestartOffsets, IsBlock, CommonPrefix, EntryAt, EncodeEntry, BlockFormat.DecodeEntry;
      RestartsAscend(interval, |entries|);
      ghost var rs := RestartEntries(interval, |entries|);
      left := 0;
      var right := numRestarts - 1;
      while left < right
        invariant 0 <= left <= right < numRestarts
        invariant left > 0 ==> rs[left] < |entries| && less(entries[rs[left]].key, target)
      {
        var mid := (left + right + 1) / 2;
        var offset := GetRestartPoint(mid);
        EntryHere(entries, interval, data, rs[mid]);
        RestartSharesNothing(entries, interval, rs[mid]);
        var h := DecodeEntry(data[offset..restarts]).value;
        var midKey := h.rest[..h.nonShared];
        JustTheKey(entries[rs[mid]].key, entries[rs[mid]].value, h.rest);
        if less(midKey, target) {
          left := mid;
        } else {
          right := mid - 1;
        }
      }
    }
  }

  // What DecodeEntry finds at the n-th entry: all of its key that is not shared,
  // and its value just before the next entry.
  lemma EntryHere(es: seq<KeyValue>, interval: nat, contents: seq<byte>, n: nat)
    requires IsBlock(es, interval, contents) && n < |es|
    ensures var p, q, limit := Offset(es, interval, n), Offset(es, interval, n + 1), Offset(es, interval, |es|);
      var shared, e := SharedAt(es, interval, n), es[n];
      && p < q <= limit <= |contents| && |e.value| <= q && contents[q - |e.value|..q] == e.value
      && DecodeEntry(contents[p..limit])
         == Some(Header(shared, |e.key| - shared, |e.value|, e.key[shared..] + e.value + contents[q..limit]))
  {
    hide Data, EncodeFixed32, RestartOffsets, DecodeEntry, EncodeEntry, IsRestart, CommonPrefix, IsBlock;
    EntrySlice(es, interval, contents, n);
    SizeIsBounded(es, interval, contents);
    KeyBounded(es, interval, n);
    EntryDecodes(SharedAt(es, interval, n), es[n], contents[Offset(es, interval, n + 1)..Offset(es, interval, |es|)]);
  }

  lemma JustTheKey(key: Key, value: seq<byte>, rest: seq<byte>)
    requires key + value <= rest
    ensures rest[..|key|] == key
  {
    assert key == (key + value)[..|key|];
  }

  lemma RestartSharesNothing(es: seq<KeyValue>, interval: nat, n: nat)
    requires n < |es| && IsRestart(interval, n)
    ensures SharedAt(es, interval, n) == 0 && es[n].key[0..] == es[n].key
  {
  }

  lemma SizeIsBounded(es: seq<KeyValue>, interval: nat, contents: seq<byte>)
    requires IsBlock(es, interval, contents)
    ensures Offset(es, interval, |es|) <= |contents| < TWO_32
  {
  }

  lemma EntrySlice(es: seq<KeyValue>, interval: nat, contents: seq<byte>, n: nat)
    requires IsBlock(es, interval, contents) && n < |es|
    ensures var p, q, limit := Offset(es, interval, n), Offset(es, interval, n + 1), Offset(es, interval, |es|);
      var shared, e := SharedAt(es, interval, n), es[n];
      && p < q <= limit <= |contents| && |e.key| - shared + |e.value| <= q
      && contents[p..limit] == EncodeEntry(shared, e) + contents[q..limit]
      && contents[q - |e.value|..q] == e.value
  {
    hide Data, EncodeFixed32, RestartOffsets, EncodeEntry, IsRestart, CommonPrefix, Words, SharedAt;
    var p, q, limit := Offset(es, interval, n), Offset(es, interval, n + 1), Offset(es, interval, |es|);
    var shared, e := SharedAt(es, interval, n), es[n];
    DataSplits(es, interval, n, |es|);
    var entry := EncodeEntry(shared, e);
    assert contents[..limit] == Data(es, interval, |es|);
    assert contents[p..q] == contents[..limit][p..q] == entry;
    assert contents[p..limit] == contents[p..q] + contents[q..limit];
    EntryEnds(shared, e);
    assert contents[q - |e.value|..q] == entry[|entry| - |e.value|..];
  }

  lemma EntryEnds(shared: nat, e: KeyValue)
    requires shared <= |e.key|
    ensures var r, k := EncodeEntry(shared, e), |e.key| - shared + |e.value|;
      |r| >= k && r[|r| - k..] == e.key[shared..] + e.value && r[|r| - |e.value|..] == e.value
  {
    hide EncodeVarint;
  }

  lemma {:induction false} KeyBounded(es: seq<KeyValue>, interval: nat, n: nat)
    requires n < |es|
    ensures |es[n].key| + |es[n].value| <= Offset(es, interval, n + 1)
  {
    hide EncodeEntry, Data;
    EntryEnds(SharedAt(es, interval, n), es[n]);
    DataSplits(es, interval, n, n + 1);
    if n > 0 { KeyBounded(es, interval, n - 1); }
  }

  lemma TrailerReads(es: seq<KeyValue>, interval: nat, contents: seq<byte>)
    requires IsBlock(es, interval, contents)
    ensures var n := |RestartEntries(interval, |es|)|;
      && |contents| == Offset(es, interval, |es|) + 4 * n + 4 && DecodeFixed32(contents[|contents| - 4..]) == n
  {
    hide EncodeFixed32, DecodeFixed32, Data, RestartOffsets;
    var offsets := RestartOffsets(es, interval);
    WordsLength(offsets);
    var last := EncodeFixed32(|offsets|);
    assert contents[|contents| - 4..] == last + [];
    Fixed32RoundTrip(|offsets|, []);
  }

  lemma RestartReads(es: seq<KeyValue>, interval: nat, contents: seq<byte>, i: nat)
    requires IsBlock(es, interval, contents) && i < |RestartEntries(interval, |es|)|
    ensures var data, rs := Offset(es, interval, |es|), RestartEntries(interval, |es|);
      && data + i * 4 + 4 <= |contents| && DecodeFixed32(contents[data + i * 4..]) == RestartOffsets(es, interval)[i]
      && rs[i] <= |es| && RestartOffsets(es, interval)[i] == Offset(es, interval, rs[i])
  {
    hide EncodeFixed32, DecodeFixed32, Data, IsRestart;
    RestartsAscend(interval, |es|);
    var offsets := RestartOffsets(es, interval);
    var last := EncodeFixed32(|offsets|);
    WordAt(offsets, i, last);
    var data := Data(es, interval, |es|);
    assert contents == data + (Words(offsets) + last);
    assert contents[|data| + i * 4..] == (Words(offsets) + last)[i * 4..];
  }
}
