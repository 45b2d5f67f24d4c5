// Byte-wise key order and the keys it makes up between two others
// (util/comparator.cc), and the same for internal keys (db/dbformat.cc).

module Comparators {
  import opened Coding

  type Bytes = seq<byte>

  // Slice::compare(a, b) < 0
  predicate Below(a: Bytes, b: Bytes) {
    b != [] && (a == [] || a[0] < b[0] || (a[0] == b[0] && Below(a[1..], b[1..])))
  }

  lemma {:induction false} BelowIsOrder(a: Bytes, b: Bytes, c: Bytes)
    ensures !Below(a, a)
    ensures !(Below(a, b) && Below(b, a))
    ensures Below(a, b) || Below(b, a) || a == b
    ensures Below(a, b) && Below(b, c) ==> Below(a, c)
    decreases |a| + |b| + |c|
  {
    var a', b', c' := if a == [] then a else a[1..], if b == [] then b else b[1..], if c == [] then c else c[1..];
    if a != [] || b != [] || c != [] {
      BelowIsOrder(a', b', c');
      if a != [] && b != [] && a[0] == b[0] && a' == b' {
        assert a == [a[0]] + a' && b == [b[0]] + b';
      }
    }
  }

  // The first differing byte decides.
  lemma {:induction false} FirstDifferenceDecides(a: Bytes, b: Bytes, i: nat)
    requires i < |a| && i < |b| && a[..i] == b[..i] && a[i] < b[i]
    ensures Below(a, b)
  {
    if i > 0 {
      assert a[0] == a[..i][0] == b[..i][0] == b[0];
      assert a[1..][..i - 1] == a[..i][1..] == b[..i][1..] == b[1..][..i - 1];
      FirstDifferenceDecides(a[1..], b[1..], i - 1);
    }
  }

  // FindShortestSeparator: `start` or a key after it, no longer and below limit.
  method FindShortestSeparator(start: Bytes, limit: Bytes) returns (r: Bytes)
    ensures r == start || (Below(start, r) && Below(r, limit) && |r| <= |start|)
  {
    hide Below;
    var minLength := if |start| < |limit| then |start| else |limit|;
    var diffIndex := 0;
    while diffIndex < minLength && start[diffIndex] == limit[diffIndex]
      invariant diffIndex <= minLength
      invariant start[..diffIndex] == limit[..diffIndex]
    {
      diffIndex := diffIndex + 1;
    }
    r := start;
    if diffIndex < minLength {
      var diffByte := start[diffIndex];
      if diffByte < 0xff && diffByte + 1 < limit[diffIndex] {
        r := start[..diffIndex] + [diffByte + 1];
        assert r[..diffIndex] == start[..diffIndex];
        FirstDifferenceDecides(start, r, diffIndex);
        FirstDifferenceDecides(r, limit, diffIndex);
      }
    }
  }

  // FindShortSuccessor: a key after `key` and no longer, unless every byte is 0xff.
  method FindShortSuccessor(key: Bytes) returns (r: Bytes)
    ensures if forall i :: 0 <= i < |key| ==> key[i] == 0xff then r == key else Below(key, r) && |r| <= |key|
  {
    hide Below;
    var n := |key|;
    for i := 0 to n
      invariant forall j :: 0 <= j < i ==> key[j] == 0xff
    {
      var b := key[i];
      if b != 0xff {
        r := key[..i] + [b + 1];
        assert r[..i] == key[..i];
        FirstDifferenceDecides(key, r, i);
        return;
      }
    }
    r := key;
  }

  /* Internal keys: a user key and the packed sequence number and type. */

  datatype ByteKey = ByteKey(user: Bytes, tag: nat)

  // PackSequenceAndType(kMaxSequenceNumber, kValueTypeForSeek)
  const MAX_TAG: nat := 0xFF_FFFF_FFFF_FFFF * 256 + 1

  predicate KeyLess(a: ByteKey, b: ByteKey) {
    Below(a.user, b.user) || (a.user == b.user && a.tag > b.tag)
  }

  lemma KeyLessIsOrder(a: ByteKey, b: ByteKey, c: ByteKey)
    ensures !KeyLess(a, a)
    ensures !(KeyLess(a, b) && KeyLess(b, a))
    ensures KeyLess(a, b) || KeyLess(b, a) || a == b
    ensures KeyLess(a, b) && KeyLess(b, c) ==> KeyLess(a, c)
    ensures KeyLess(a, b) ==> KeyLess(a, c) || KeyLess(c, b)
  {
    hide Below;
    BelowIsOrder(a.user, b.user, c.user);
    BelowIsOrder(b.user, a.user, c.user);
    BelowIsOrder(a.user, c.user, b.user);
    BelowIsOrder(c.user, b.user, a.user);
  }

  // The separator is `start` itself, or its user key lies strictly between the
  // two user keys.
  ghost predicate Separates(sep: ByteKey, start: ByteKey, limit: ByteKey) {
    && !KeyLess(sep, start) && KeyLess(sep, limit)
    && (sep == start || (Below(start.user, sep.user) && Below(sep.user, limit.user)))
  }

  // InternalKeyComparator::FindShortestSeparator
  method FindInternalSeparator(start: ByteKey, limit: ByteKey) returns (r: ByteKey)
    ensures KeyLess(start, limit) ==> Separates(r, start, limit)
    ensures r == start || (Below(start.user, r.user) && Below(r.user, limit.user) && |r.user| < |start.user| && r.tag == MAX_TAG)
  {
    hide Below;
    var tmp := FindShortestSeparator(start.user, limit.user);
    BelowIsOrder(start.user, start.user, start.user);
    KeyLessIsOrder(start, start, start);
    if |tmp| < |start.user| && Below(start.user, tmp) {
      BelowIsOrder(start.user, tmp, limit.user);
      r := ByteKey(tmp, MAX_TAG);
    } else {
      r := start;
    }
  }

  // InternalKeyComparator::FindShortSuccessor
  method FindInternalSuccessor(key: ByteKey) returns (r: ByteKey)
    ensures !KeyLess(r, key)
    ensures r == key || (Below(key.user, r.user) && |r.user| < |key.user| && r.tag == MAX_TAG)
  {
    hide Below;
    var tmp := FindShortSuccessor(key.user);
    KeyLessIsOrder(key, key, key);
    if |tmp| < |key.user| && Below(key.user, tmp) {
      BelowIsOrder(key.user, tmp, tmp);
      r := ByteKey(tmp, MAX_TAG);
    } else {
      r := key;
    }
  }
}
