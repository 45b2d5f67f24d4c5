// Punycode (RFC 3492): the parameters of section 5, the decoding procedure of
// section 6.2, and what makes an encoding of a label decode to that label.

module Punycode {
  import opened Wrappers

  type CodePoint = n: nat | n < 0x11_0000

  const BASE: nat := 36
  const TMIN: nat := 1
  const TMAX: nat := 26
  const SKEW: nat := 38
  const DAMP: nat := 700
  const INITIAL_BIAS: nat := 72
  const INITIAL_N: nat := 128

  /* Digits. */

  // The alphabet is a to z and then 0 to 9.
  function Digit(d: nat): char
    requires d < BASE
  {
    if d < 26 then 'a' + d as char else '0' + (d - 26) as char
  }

  function DigitValue(c: char): Option<nat> {
    if 'a' <= c <= 'z' then Some(c as int - 'a' as int)
    else if 'A' <= c <= 'Z' then Some(c as int - 'A' as int)
    else if '0' <= c <= '9' then Some(c as int - '0' as int + 26)
    else None
  }

  lemma DigitRoundTrip(d: nat)
    requires d < BASE
    ensures DigitValue(Digit(d)) == Some(d) && Digit(d) != '-'
  {
  }

  /* Division. */

  lemma TimesAtLeast(d: nat, y: nat)
    requires y > 0
    ensures d * y >= d
  {
  }

  lemma ProductIsNat(a: int, b: int)
    requires a >= 0 && b >= 0
    ensures a * b >= 0
  {
  }

  lemma DivisionBounds(x: nat, y: nat)
    requires y > 0
    ensures 0 <= x / y <= x && 0 <= x % y < y && x == x / y * y + x % y
  {
    var d, m := x / y, x % y;
    assert x == d * y + m;
    assert 0 <= m < y;
    TimesAtLeast(d, y);
  }

  /* Section 6.1: bias adaptation. */

  function AdaptLoop(delta: nat, k: nat): nat
    decreases delta
  {
    if delta > (BASE - TMIN) * TMAX / 2 then AdaptLoop(delta / (BASE - TMIN), k + BASE)
    else k + (BASE - TMIN + 1) * delta / (delta + SKEW)
  }

  function Adapt(delta: nat, numPoints: nat, first: bool): nat
    requires numPoints > 0
  {
    var d := if first then delta / DAMP else delta / 2;
    DivisionBounds(d, numPoints);
    AdaptLoop(d + d / numPoints, 0)
  }

  // The digit threshold at weight position k.
  function Threshold(k: nat, bias: nat): (t: nat)
    ensures TMIN <= t <= TMAX
  {
    if k <= bias + TMIN then TMIN else if k >= bias + TMAX then TMAX else k - bias
  }

  /* Generalized variable-length integers (section 3.3). */

  lemma QuotientSmaller(q: nat, t: nat)
    requires TMIN <= t <= TMAX && t <= q
    ensures 0 <= (q - t) / (BASE - t) < q && 0 <= (q - t) % (BASE - t) < BASE - t
  {
    DivisionBounds(q - t, BASE - t);
  }

  function EncodeInteger(q: nat, k: nat, bias: nat): (s: seq<char>)
    ensures s != []
    decreases q
  {
    var t := Threshold(k, bias);
    if q < t then [Digit(q)]
    else
      QuotientSmaller(q, t);
      [Digit(t + (q - t) % (BASE - t))] + EncodeInteger((q - t) / (BASE - t), k + BASE, bias)
  }

  // The weighted sum of the digits in Horner's form: each digit weighs base - t
  // times as much as the one before it.
  function DecodeInteger(s: seq<char>, k: nat, bias: nat): (r: Option<(nat, seq<char>)>)
    ensures r.Some? ==> |r.value.1| < |s|
    decreases |s|
  {
    if s == [] || DigitValue(s[0]).None? then None
    else
      var digit := DigitValue(s[0]).value;
      var t := Threshold(k, bias);
      if digit < t then Some((digit, s[1..]))
      else
        match DecodeInteger(s[1..], k + BASE, bias)
        case None => None
        case Some((higher, rest)) =>
          ProductIsNat(higher, BASE - t);
          Some((digit + higher * (BASE - t), rest))
  }

  lemma EncodeUnfold(q: nat, k: nat, bias: nat) returns (d: nat, m: nat)
    requires q >= Threshold(k, bias)
    ensures var t := Threshold(k, bias);
      && q == t + m + d * (BASE - t) && m < BASE - t && d < q
      && EncodeInteger(q, k, bias) == [Digit(t + m)] + EncodeInteger(d, k + BASE, bias)
  {
    var t := Threshold(k, bias);
    QuotientSmaller(q, t);
    DivisionBounds(q - t, BASE - t);
    d, m := (q - t) / (BASE - t), (q - t) % (BASE - t);
  }

  lemma {:induction false} IntegerRoundTrip(q: nat, k: nat, bias: nat, rest: seq<char>)
    ensures DecodeInteger(EncodeInteger(q, k, bias) + rest, k, bias) == Some((q, rest))
    decreases q
  {
    hide Digit, DigitValue, Threshold;
    var t := Threshold(k, bias);
    var s := EncodeInteger(q, k, bias);
    if q < t {
      DigitRoundTrip(q);
      assert (s + rest)[1..] == rest;
    } else {
      var d, m := EncodeUnfold(q, k, bias);
      DigitRoundTrip(t + m);
      var more := EncodeInteger(d, k + BASE, bias);
      assert (s + rest)[1..] == more + rest;
      IntegerRoundTrip(d, k + BASE, bias, rest);
    }
  }

  /* Section 6.2: decoding. */

  datatype DecoderState = DecoderState(n: nat, i: nat, bias: nat, output: seq<nat>)

  // Insert a code point after a delta, and adapt the bias.
  function Insert(st: DecoderState, delta: nat): DecoderState {
    var length := |st.output| + 1;
    var i := st.i + delta;
    var n := st.n + i / length;
    var pos := i % length;
    DecoderState(n, pos + 1, Adapt(delta, length, st.i == 0), st.output[..pos] + [n] + st.output[pos..])
  }

  function DecodeDeltas(s: seq<char>, st: DecoderState): Option<seq<nat>>
    decreases |s|
  {
    if s == [] then Some(st.output)
    else
      match DecodeInteger(s, BASE, st.bias)
      case None => None
      case Some((delta, rest)) => DecodeDeltas(rest, Insert(st, delta))
  }

  function Start(basic: seq<nat>): DecoderState {
    DecoderState(INITIAL_N, 0, INITIAL_BIAS, basic)
  }

  // The position after the last delimiter, or 0 if there is none.
  function AfterLastDelimiter(s: seq<char>): (n: nat)
    ensures n <= |s|
  {
    if s == [] then 0
    else if s[|s| - 1] == '-' then |s|
    else AfterLastDelimiter(s[..|s| - 1])
  }

  predicate LowerDigit(c: char) {
    'a' <= c <= 'z' || '0' <= c <= '9'
  }

  predicate AllLower(s: seq<char>) {
    forall i :: 0 <= i < |s| ==> LowerDigit(s[i])
  }

  // The form of what an encoder writes: ASCII up to the last delimiter, of which there is none without characters
  // before it, and lower-case digits after it.
  predicate Canonical(e: seq<char>) {
    var b := AfterLastDelimiter(e);
    && b != 1 && AllLower(e[b..])
    && forall i :: 0 <= i < b - 1 ==> e[i] as int < 128
  }

  function CodePoints(s: seq<char>): seq<nat> {
    seq(|s|, i requires 0 <= i < |s| => s[i] as int)
  }

  function Decode(s: seq<char>): Option<seq<nat>> {
    var b := AfterLastDelimiter(s);
    DecodeDeltas(s[b..], Start(CodePoints(s[..if b == 0 then 0 else b - 1])))
  }

  // One encoded delta takes the decoder one insertion further.
  lemma DecodeOneDelta(delta: nat, st: DecoderState, rest: seq<char>)
    ensures DecodeDeltas(EncodeInteger(delta, BASE, st.bias) + rest, st) == DecodeDeltas(rest, Insert(st, delta))
  {
    var s := EncodeInteger(delta, BASE, st.bias);
    IntegerRoundTrip(delta, BASE, st.bias, rest);
    assert s + rest != [];
  }

  /* What an encoder must have inserted so far. */

  // The code points of s below n, and those equal to n at positions before p, in order.
  ghost function Inserted(s: seq<nat>, n: nat, p: nat): (r: seq<nat>)
    ensures |r| <= |s|
  {
    if s == [] then []
    else
      var last := |s| - 1;
      var r := Inserted(s[..last], n, p);
      if s[last] < n || (s[last] == n && last < p) then r + [s[last]] else r
  }

  // How many of them lie before position p.
  ghost function Before(s: seq<nat>, n: nat, p: nat): (c: nat)
    requires p <= |s|
  {
    |Inserted(s[..p], n, p)|
  }

  lemma {:induction false} BeforeBound(s: seq<nat>, n: nat, p: nat)
    requires p <= |s|
    ensures Before(s, n, p) <= |Inserted(s, n, p)|
    ensures p == |s| ==> Before(s, n, p) == |Inserted(s, n, p)|
    decreases |s|
  {
    if p < |s| {
      BeforeBound(s[..|s| - 1], n, p);
      assert s[..|s| - 1][..p] == s[..p];
    } else {
      assert s[..p] == s;
    }
  }

  lemma {:induction false} InsertedNoMark(s: seq<nat>, n: nat, p: nat, q: nat)
    requires forall j :: 0 <= j < |s| && s[j] == n ==> (j < p <==> j < q)
    ensures Inserted(s, n, p) == Inserted(s, n, q)
  {
    if s != [] { InsertedNoMark(s[..|s| - 1], n, p, q); }
  }

  lemma BeforeStep(s: seq<nat>, n: nat, p: nat)
    requires p < |s|
    ensures Before(s, n, p + 1) == Before(s, n, p) + if s[p] <= n then 1 else 0
  {
    assert s[..p + 1][..p] == s[..p];
    InsertedNoMark(s[..p], n, p, p + 1);
  }

  // Reaching an occurrence of n at p inserts it after the `Before` ones.
  lemma {:induction false} InsertedStep(s: seq<nat>, n: nat, p: nat)
    requires p < |s| && s[p] == n
    ensures var r, b := Inserted(s, n, p), Before(s, n, p);
      b <= |r| && Inserted(s, n, p + 1) == r[..b] + [n] + r[b..]
    decreases |s|
  {
    var last := |s| - 1;
    BeforeBound(s, n, p);
    if p == last {
      InsertedNoMark(s[..last], n, p, p + 1);
      var r := Inserted(s, n, p);
      assert r == Inserted(s[..last], n, p);
      assert r[..|r|] == r && r[|r|..] == [];
    } else {
      InsertedStep(s[..last], n, p);
      assert s[..last][..p] == s[..p];
      var r, b := Inserted(s[..last], n, p), Before(s, n, p);
      var tail := if s[last] < n then [s[last]] else [];
      assert Inserted(s, n, p) == r + tail;
      assert (r + tail)[..b] == r[..b] && (r + tail)[b..] == r[b..] + tail;
    }
  }

  lemma {:induction false} InsertedNext(s: seq<nat>, n: nat)
    ensures Inserted(s, n, |s|) == Inserted(s, n + 1, 0)
    ensures forall p :: p >= |s| ==> Inserted(s, n, p) == Inserted(s, n, |s|)
  {
    forall p | p >= |s| ensures Inserted(s, n, p) == Inserted(s, n, |s|) {
      InsertedNoMark(s, n, p, |s|);
    }
    if s != [] {
      InsertedNext(s[..|s| - 1], n);
    }
  }

  // No code point lies from n up to m.
  lemma {:induction false} InsertedJump(s: seq<nat>, n: nat, m: nat)
    requires n <= m && forall j :: 0 <= j < |s| ==> s[j] < n || s[j] >= m
    ensures Inserted(s, n, 0) == Inserted(s, m, 0)
  {
    if s != [] { InsertedJump(s[..|s| - 1], n, m); }
  }

  lemma {:induction false} InsertedAll(s: seq<nat>, n: nat, p: nat)
    requires |Inserted(s, n, p)| == |s|
    ensures Inserted(s, n, p) == s
  {
    if s != [] {
      InsertedAll(s[..|s| - 1], n, p);
      assert s == s[..|s| - 1] + [s[|s| - 1]];
    }
  }
}
