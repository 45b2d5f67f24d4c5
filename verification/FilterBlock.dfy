// The filter block of a table: one filter for every 2 KB of data blocks
// (table/filter_block.cc).

module FilterBlock {
  import opened Coding
  import opened Varint
  import Bloom

  const FILTER_BASE_LG: nat := 11
  const FILTER_BASE: nat := 2048

  datatype Policy = Policy(filter: seq<seq<byte>> -> seq<byte>, mayMatch: (seq<byte>, seq<byte>) -> bool)
  {
    ghost predicate Ok() {
      forall keys, i :: 0 <= i < |keys| ==> mayMatch(keys[i], filter(keys))
    }
  }

  function BloomPolicy(bitsPerKey: nat, hash: Bloom.Hash, k: nat): Policy
    requires k <= 30
  {
    Policy(keys => Bloom.Filter(keys, bitsPerKey, hash, k), (key, f) => Bloom.MayMatch(key, f, hash))
  }

  lemma BloomPolicyOk(bitsPerKey: nat, hash: Bloom.Hash, k: nat)
    requires k <= 30
    ensures BloomPolicy(bitsPerKey, hash, k).Ok()
  {
    hide Bloom.Filter, Bloom.MayMatch;
    forall keys: seq<seq<byte>>, i | 0 <= i < |keys| ensures Bloom.MayMatch(keys[i], Bloom.Filter(keys, bitsPerKey, hash, k), hash) {
      Bloom.KeysMatch(keys, i, bitsPerKey, hash, k);
    }
  }

  /* The layout. */

  // The filters written so far and where each starts.
  ghost predicate OffsetsOk(data: seq<byte>, offsets: seq<nat>) {
    && (forall i :: 0 <= i < |offsets| ==> offsets[i] <= |data|)
    && forall i, j :: 0 <= i < j < |offsets| ==> offsets[i] <= offsets[j]
  }

  function Limit(data: seq<byte>, offsets: seq<nat>, i: nat): nat
    requires i < |offsets|
  {
    if i + 1 < |offsets| then offsets[i + 1] else |data|
  }

  function FilterAt(data: seq<byte>, offsets: seq<nat>, i: nat): seq<byte>
    requires i < |offsets|
  {
    if offsets[i] <= Limit(data, offsets, i) <= |data| then data[offsets[i]..Limit(data, offsets, i)] else []
  }

  function Contents(data: seq<byte>, offsets: seq<nat>): seq<byte> {
    data + Words(Truncated(offsets)) + EncodeFixed32(|data| % TWO_32) + [FILTER_BASE_LG]
  }

  // The offsets as stored in 32 bits.
  function Truncated(offsets: seq<nat>): (r: seq<nat>)
    ensures forall i :: 0 <= i < |r| ==> r[i] < TWO_32
  {
    seq(|offsets|, i requires 0 <= i < |offsets| => offsets[i] % TWO_32)
  }

  function ShiftRight(x: nat, n: nat): nat {
    if n == 0 then x else ShiftRight(x / 2, n - 1)
  }

  // FilterBlockReader(policy, contents).KeyMayMatch(blockOffset, key)
  function MayMatch(policy: Policy, contents: seq<byte>, blockOffset: nat, key: seq<byte>): bool {
    var n := |contents|;
    if n < 5 then true
    else
      var lastWord := DecodeFixed32(contents[n - 5..]);
      if lastWord > n - 5 then true
      else
        var index := ShiftRight(blockOffset, contents[n - 1]);
        if index >= (n - 5 - lastWord) / 4 then true
        else
          var start := DecodeFixed32(contents[lastWord + index * 4..]);
          var limit := DecodeFixed32(contents[lastWord + index * 4 + 4..]);
          if start <= limit <= lastWord then policy.mayMatch(key, contents[start..limit])
          else start != limit
  }

  // A block that cannot be read rules nothing out.
  lemma BrokenFilterMatches(policy: Policy, contents: seq<byte>, blockOffset: nat, key: seq<byte>)
    ensures |contents| < 5 ==> MayMatch(policy, contents, blockOffset, key)
    ensures |contents| >= 5 && DecodeFixed32(contents[|contents| - 5..]) > |contents| - 5 ==> MayMatch(policy, contents, blockOffset, key)
  {
  }

  // Two filters, of which the second is empty, on disk: the filters, where
  // each starts, where the starts start, and the base.
  lemma FilterBlockOnDisk(a: byte, b: byte)
    ensures Contents([a, b], [0, 2]) == [a, b, 0, 0, 0, 0, 2, 0, 0, 0, 2, 0, 0, 0, 11]
  {
    hide EncodeFixed32, Words;
    assert Truncated([0, 2]) == [0, 2];
    TwoWords(0, 2);
    SmallWords();
    assert [a, b] + [0, 0, 0, 0, 2, 0, 0, 0] + [2, 0, 0, 0] + [11] == [a, b, 0, 0, 0, 0, 2, 0, 0, 0, 2, 0, 0, 0, 11];
  }

  lemma SmallWords()
    ensures EncodeFixed32(0) == [0, 0, 0, 0] && EncodeFixed32(2) == [2, 0, 0, 0]
  {
  }

  // The reader finds the filter of the 2 KB the block starts in.
  lemma ReaderFindsFilter(policy: Policy, data: seq<byte>, offsets: seq<nat>, blockOffset: nat, key: seq<byte>)
    requires OffsetsOk(data, offsets) && |data| < TWO_32
    ensures MayMatch(policy, Contents(data, offsets), blockOffset, key) ==
      var i := blockOffset / 2048;
      i >= |offsets| || policy.mayMatch(key, FilterAt(data, offsets, i))
  {
    hide EncodeFixed32, DecodeFixed32, Words, ShiftRight, Contents;
    var contents, i := Contents(data, offsets), blockOffset / FILTER_BASE;
    FooterReads(data, offsets);
    ShiftBy11(blockOffset);
    if i < |offsets| {
      OffsetReads(data, offsets, i);
      assert offsets[i] <= Limit(data, offsets, i) <= |data|;
      SamePart(contents, data, offsets[i], Limit(data, offsets, i));
    }
  }

  lemma SamePart(c: seq<byte>, data: seq<byte>, i: nat, j: nat)
    requires |data| <= |c| && c[..|data|] == data && i <= j <= |data|
    ensures c[i..j] == data[i..j]
  {
    forall k | 0 <= k < j - i ensures c[i..j][k] == data[i..j][k] {
      assert c[..|data|][i + k] == c[i + k];
    }
  }

  lemma FooterReads(data: seq<byte>, offsets: seq<nat>)
    requires |data| < TWO_32
    ensures var c := Contents(data, offsets);
      && |c| == |data| + 4 * |offsets| + 5 && c[..|data|] == data
      && DecodeFixed32(c[|c| - 5..]) == |data| && c[|c| - 1] == FILTER_BASE_LG
  {
    hide EncodeFixed32, DecodeFixed32, Words;
    var c, lg, last := Contents(data, offsets), [FILTER_BASE_LG], EncodeFixed32(|data|);
    WordsLength(Truncated(offsets));
    assert c == data + Words(Truncated(offsets)) + (last + lg);
    assert c[|c| - 5..] == last + lg;
    Fixed32RoundTrip(|data|, lg);
  }

  // The start of a filter, and its end.
  lemma OffsetReads(data: seq<byte>, offsets: seq<nat>, i: nat)
    requires OffsetsOk(data, offsets) && |data| < TWO_32 && i < |offsets|
    ensures var c := Contents(data, offsets);
      && |c| == |data| + 4 * |offsets| + 5
      && DecodeFixed32(c[|data| + i * 4..]) == offsets[i]
      && DecodeFixed32(c[|data| + i * 4 + 4..]) == Limit(data, offsets, i)
  {
    hide EncodeFixed32, DecodeFixed32, Words;
    assert forall k :: 0 <= k < |offsets| ==> offsets[k] % TWO_32 == offsets[k];
    assert Truncated(offsets) == offsets;
    var c, lg, last := Contents(data, offsets), [FILTER_BASE_LG], EncodeFixed32(|data|);
    WordsLength(offsets);
    assert c == data + (Words(offsets) + (last + lg));
    WordInContents(data, offsets, i, last + lg);
    if i + 1 < |offsets| {
      WordInContents(data, offsets, i + 1, last + lg);
    } else {
      assert c[|data| + i * 4 + 4..] == last + lg;
      Fixed32RoundTrip(|data|, lg);
    }
  }

  lemma ShiftBy11(x: nat)
    ensures ShiftRight(x, FILTER_BASE_LG) == x / FILTER_BASE
  {
    hide ShiftRight;
    var y := x / 256;
    Shifted(x);
    ShiftBy4(x, 7);
    ShiftBy4(x / 16, 3);
    ShiftOnce(y, 2);
    ShiftOnce(y / 2, 1);
    ShiftOnce(y / 2 / 2, 0);
    ShiftNone(y / 2 / 2 / 2);
  }

  lemma Shifted(x: nat)
    ensures x / 16 / 16 == x / 256 && x / 256 / 2 / 2 / 2 == x / FILTER_BASE
  {
  }

  lemma ShiftOnce(x: nat, n: nat)
    ensures ShiftRight(x, n + 1) == ShiftRight(x / 2, n)
  {
  }

  lemma ShiftNone(x: nat)
    ensures ShiftRight(x, 0) == x
  {
  }

  lemma ShiftBy4(x: nat, n: nat)
    ensures ShiftRight(x, n + 4) == ShiftRight(x / 16, n)
  {
    hide ShiftRight;
    ShiftOnce(x, n + 3);
    ShiftOnce(x / 2, n + 2);
    ShiftOnce(x / 4, n + 1);
    ShiftOnce(x / 8, n);
    assert x / 2 / 2 == x / 4 && x / 4 / 2 == x / 8 && x / 8 / 2 == x / 16;
  }

  lemma WordInContents(data: seq<byte>, offsets: seq<nat>, i: nat, tail: seq<byte>)
    requires (forall k :: 0 <= k < |offsets| ==> offsets[k] < TWO_32) && i < |offsets|
    requires |Words(offsets)| == 4 * |offsets|
    ensures DecodeFixed32((data + (Words(offsets) + tail))[|data| + i * 4..]) == offsets[i]
  {
    hide DecodeFixed32, Words;
    WordAt(offsets, i, tail);
    assert (data + (Words(offsets) + tail))[|data| + i * 4..] == (Words(offsets) + tail)[4 * i..];
  }

  /* Building, as values. */

  // The filters so far and the keys since the last.
  datatype Filters = Filters(data: seq<byte>, offsets: seq<nat>, pending: seq<seq<byte>>)

  function Generated(f: Filters, policy: Policy): Filters {
    Filters(f.data + if f.pending == [] then [] else policy.filter(f.pending), f.offsets + [|f.data|], [])
  }

  // A key of the block at o is in the filter for o, or will be.
  ghost predicate Kept(f: Filters, policy: Policy, o: nat, key: seq<byte>) {
    var i := o / FILTER_BASE;
    if i < |f.offsets| then policy.mayMatch(key, FilterAt(f.data, f.offsets, i))
    else i == |f.offsets| && key in f.pending
  }

  ghost predicate AllKept(f: Filters, policy: Policy, added: set<(nat, seq<byte>)>) {
    OffsetsOk(f.data, f.offsets) && forall p :: p in added ==> Kept(f, policy, p.0, p.1)
  }

  lemma StillKept(f: Filters, policy: Policy, o: nat, key: seq<byte>)
    requires policy.Ok() && OffsetsOk(f.data, f.offsets) && Kept(f, policy, o, key)
    ensures Kept(Generated(f, policy), policy, o, key)
  {
    hide OffsetsOk;
    var i, n := o / FILTER_BASE, |f.offsets|;
    var more := if f.pending == [] then [] else policy.filter(f.pending);
    if i < n {
      FilterStays(f.data, f.offsets, i, more);
    } else {
      var j :| 0 <= j < |f.pending| && f.pending[j] == key;
      assert policy.mayMatch(f.pending[j], policy.filter(f.pending));
      assert FilterAt(f.data + more, f.offsets + [|f.data|], n) == more;
    }
  }

  lemma AllStillKept(f: Filters, policy: Policy, added: set<(nat, seq<byte>)>)
    requires policy.Ok() && AllKept(f, policy, added)
    ensures AllKept(Generated(f, policy), policy, added)
  {
    hide Kept;
    forall p | p in added ensures Kept(Generated(f, policy), policy, p.0, p.1) {
      StillKept(f, policy, p.0, p.1);
    }
  }

  lemma OneMoreKept(f: Filters, policy: Policy, added: set<(nat, seq<byte>)>, o: nat, key: seq<byte>)
    requires AllKept(f, policy, added) && |f.offsets| == o / FILTER_BASE
    ensures AllKept(f.(pending := f.pending + [key]), policy, added + {(o, key)})
  {
    var f' := f.(pending := f.pending + [key]);
    forall p | p in added ensures Kept(f', policy, p.0, p.1) {
      assert Kept(f, policy, p.0, p.1);
    }
  }

  // A reader of the finished block finds every key under its block's offset.
  lemma ReaderFindsKeys(f: Filters, policy: Policy, added: set<(nat, seq<byte>)>)
    requires AllKept(f, policy, added) && f.pending == [] && |f.data| < TWO_32
    ensures forall p :: p in added ==> MayMatch(policy, Contents(f.data, f.offsets), p.0, p.1)
  {
    hide MayMatch, Contents, FilterAt;
    forall p | p in added ensures MayMatch(policy, Contents(f.data, f.offsets), p.0, p.1) {
      assert Kept(f, policy, p.0, p.1);
      ReaderFindsFilter(policy, f.data, f.offsets, p.0, p.1);
    }
  }

  // A filter that is no longer the last keeps its bytes.
  lemma FilterStays(data: seq<byte>, offsets: seq<nat>, i: nat, more: seq<byte>)
    requires OffsetsOk(data, offsets) && i < |offsets|
    ensures FilterAt(data + more, offsets + [|data|], i) == FilterAt(data, offsets, i)
  {
  }

  // Keys flattened into one string, and where each starts.
  ghost predicate Splits(keys: seq<byte>, start: seq<nat>) {
    && (start == [] ==> keys == [])
    && (forall i :: 0 <= i < |start| ==> start[i] <= |keys|)
    && forall i, j :: 0 <= i < j < |start| ==> start[i] <= start[j]
  }

  function Pieces(keys: seq<byte>, start: seq<nat>): (r: seq<seq<byte>>)
    requires Splits(keys, start)
    ensures |r| == |start|
  {
    seq(|start|, i requires 0 <= i < |start| => keys[start[i]..if i + 1 < |start| then start[i + 1] else |keys|])
  }

  lemma OneMorePiece(keys: seq<byte>, start: seq<nat>, key: seq<byte>)
    requires Splits(keys, start)
    ensures Splits(keys + key, start + [|keys|]) && Pieces(keys + key, start + [|keys|]) == Pieces(keys, start) + [key]
  {
    var all, starts := keys + key, start + [|keys|];
    assert all[|keys|..] == key;
    forall i | 0 <= i < |start| ensures Pieces(all, starts)[i] == Pieces(keys, start)[i] {
      var end := if i + 1 < |start| then start[i + 1] else |keys|;
      assert all[start[i]..end] == keys[start[i]..end];
    }
    assert Pieces(all, starts)[|start|] == key;
  }

  /* The builder. */

  class FilterBlockBuilder {
    const policy: Policy
    // The keys since the last filter, flattened, and where each starts.
    var keys: seq<byte>
    var start: seq<nat>
    var result: seq<byte>
    var filterOffsets: seq<nat>
    // Every key added, with the offset of its block.
    ghost var blockOffset: nat
    ghost var added: set<(nat, seq<byte>)>

    ghost predicate StartsOk()
      reads `keys, `start
    {
      Splits(keys, start)
    }

    function State(): Filters
      requires StartsOk()
      reads `keys, `start, `result, `filterOffsets
    {
      Filters(result, filterOffsets, Pieces(keys, start))
    }

    ghost predicate Valid()
      reads this
    {
      && StartsOk() && policy.Ok() && AllKept(State(), policy, added)
      && |filterOffsets| <= blockOffset / FILTER_BASE
    }

    // Ready for the keys of the block at blockOffset.
    ghost predicate Started()
      reads this
    {
      |filterOffsets| == blockOffset / FILTER_BASE
    }

    constructor (policy: Policy)
      requires policy.Ok()
      ensures this.policy == policy && Valid() && Started() && blockOffset == 0 && added == {}
    {
      this.policy := policy;
      keys, start, result, filterOffsets := [], [], [], [];
      blockOffset, added := 0, {};
    }

    method GenerateFilter()
      requires StartsOk()
      modifies `keys, `start, `result, `filterOffsets
      ensures StartsOk() && State() == Generated(old(State()), policy)
    {
      if start == [] {
        filterOffsets := filterOffsets + [|result|];
        return;
      }
      var tmpKeys := Pieces(keys, start);
      filterOffsets := filterOffsets + [|result|];
      result := result + policy.filter(tmpKeys);
      keys, start := [], [];
    }

    method StartBlock(offset: nat)
      requires Valid() && blockOffset <= offset
      modifies this
      ensures Valid() && Started() && blockOffset == offset && added == old(added)
    {
      hide AllKept, StartsOk, Generated;
      SameQuotient(blockOffset, offset);
      blockOffset := offset;
      var filterIndex := offset / FILTER_BASE;
      while filterIndex > |filterOffsets|
        invariant Valid() && blockOffset == offset && added == old(added)
        invariant |filterOffsets| <= filterIndex
        decreases filterIndex - |filterOffsets|
      {
        AllStillKept(State(), policy, added);
        OneMoreOffset(State(), policy);
        GenerateFilter();
      }
    }

    method AddKey(key: seq<byte>)
      requires Valid() && Started()
      modifies this
      ensures Valid() && Started() && blockOffset == old(blockOffset)
      ensures added == old(added) + {(blockOffset, key)}
    {
      hide AllKept, Splits, Pieces;
      OneMoreKept(State(), policy, added, blockOffset, key);
      OneMorePiece(keys, start, key);
      start := start + [|keys|];
      keys := keys + key;
      added := added + {(blockOffset, key)};
    }

    // Unless the filters outgrow 32 bits, a reader of the block finds every
    // key that was added under its block's offset.
    method Finish() returns (contents: seq<byte>)
      requires Valid()
      modifies this
      ensures |result| < TWO_32 ==> forall p :: p in old(added) ==> MayMatch(policy, contents, p.0, p.1)
      ensures contents == Contents(result, filterOffsets)
    {
      hide AllKept, MayMatch, Generated, Words;
      AllStillKept(State(), policy, added);
      OneMoreOffset(State(), policy);
      if start != [] {
        GenerateFilter();
      }
      assert StartsOk();
      assert AllKept(State(), policy, added) && State().pending == [];
      contents := result;
      NoWords();
      var i := 0;
      while i < |filterOffsets|
        invariant 0 <= i <= |filterOffsets|
        invariant contents == result + Words(Truncated(filterOffsets[..i]))
        modifies {}
      {
        contents := contents + EncodeFixed32(filterOffsets[i] % TWO_32);
        OneMoreWord(Truncated(filterOffsets[..i + 1]), Truncated(filterOffsets[..i]));
        i := i + 1;
      }
      assert filterOffsets[..i] == filterOffsets;
      contents := contents + EncodeFixed32(|result| % TWO_32);
      contents := contents + [FILTER_BASE_LG];
      if |result| < TWO_32 { ReaderFindsKeys(State(), policy, added); }
    }
  }

  lemma OneMoreOffset(f: Filters, policy: Policy)
    ensures |Generated(f, policy).offsets| == |f.offsets| + 1 && Generated(f, policy).pending == []
  {
  }

  lemma NoWords()
    ensures Words(Truncated([])) == []
  {
  }

  lemma OneMoreWord(more: seq<nat>, ns: seq<nat>)
    requires forall i :: 0 <= i < |more| ==> more[i] < TWO_32
    requires more != [] && more[..|more| - 1] == ns
    ensures Words(more) == Words(ns) + EncodeFixed32(more[|ns|])
  {
  }

  lemma SameQuotient(a: nat, b: nat)
    requires a <= b
    ensures a / FILTER_BASE <= b / FILTER_BASE
  {
  }

  /* The reader. */

  class FilterBlockReader {
    const policy: Policy
    const contents: seq<byte>
    // offset_ - data_
    const offset: nat
    const num: nat
    const baseLg: nat

    constructor (policy: Policy, contents: seq<byte>)
      ensures Valid() && this.policy == policy && this.contents == contents
    {
      this.policy, this.contents := policy, contents;
      var n := |contents|;
      if n < 5 {
        offset, num, baseLg := 0, 0, 0;
      } else {
        var lastWord := DecodeFixed32(contents[n - 5..]);
        baseLg := contents[n - 1];
        if lastWord > n - 5 {
          offset, num := 0, 0;
        } else {
          offset, num := lastWord, (n - 5 - lastWord) / 4;
        }
      }
    }

    ghost predicate Valid() {
      var n := |contents|;
      if n < 5 || DecodeFixed32(contents[n - 5..]) > n - 5 then num == 0
      else offset == DecodeFixed32(contents[n - 5..]) && num == (n - 5 - offset) / 4 && baseLg == contents[n - 1]
    }

    method KeyMayMatch(blockOffset: nat, key: seq<byte>) returns (may: bool)
      requires Valid()
      ensures may == MayMatch(policy, contents, blockOffset, key)
    {
      var index := ShiftRight(blockOffset, baseLg);
      if index < num {
        var start := DecodeFixed32(contents[offset + index * 4..]);
        var limit := DecodeFixed32(contents[offset + index * 4 + 4..]);
        if start <= limit && limit <= offset {
          return policy.mayMatch(key, contents[start..limit]);
        } else if start == limit {
          return false;
        }
      }
      return true;
    }
  }
}
