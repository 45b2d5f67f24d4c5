// No two Punycode strings stand for the same label: what the encoder writes is
// the only encoding in lower case (RFC 3492, sections 3.3 and 5).

module PunycodeUnique {
  import opened Wrappers
  import opened Punycode
  import Idna

  /* Integers. */

  lemma DigitOfValue(c: char)
    requires LowerDigit(c)
    ensures DigitValue(c).Some? && DigitValue(c).value < 36 && Digit(DigitValue(c).value) == c
  {
  }

  lemma UniqueParts(q: nat, t: nat, digit: nat, higher: nat)
    requires 1 <= t <= 26 && t <= digit < 36 && q == digit + higher * (36 - t)
    ensures q >= t && (q - t) / (36 - t) == higher && t + (q - t) % (36 - t) == digit
  {
    var y, m := 36 - t, digit - t;
    ProductIsNat(higher, y);
    Idna.MixedRadix(higher, m, y);
  }

  // Lower-case digits read as an integer are its encoding.
  lemma {:induction false} IntegerIsEncoding(s: seq<char>, k: nat, bias: nat)
    requires AllLower(s) && DecodeInteger(s, k, bias).Some?
    ensures var (q, rest) := DecodeInteger(s, k, bias).value; s == EncodeInteger(q, k, bias) + rest
    decreases |s|
  {
    hide Digit, DigitValue, Threshold;
    DigitOfValue(s[0]);
    var digit, t := DigitValue(s[0]).value, Threshold(k, bias);
    if digit >= t {
      IntegerIsEncoding(s[1..], k + BASE, bias);
      var (higher, rest) := DecodeInteger(s[1..], k + BASE, bias).value;
      UniqueParts(digit + higher * (BASE - t), t, digit, higher);
    }
  }


  /* Lists of deltas. */

  function Text(ds: seq<nat>, st: DecoderState): seq<char> {
    if ds == [] then [] else EncodeInteger(ds[0], BASE, st.bias) + Text(ds[1..], Insert(st, ds[0]))
  }

  function Final(ds: seq<nat>, st: DecoderState): DecoderState {
    if ds == [] then st else Final(ds[1..], Insert(st, ds[0]))
  }

  // What decodes is a list of deltas.
  lemma {:induction false} DeltasOf(s: seq<char>, st: DecoderState) returns (ds: seq<nat>)
    requires AllLower(s) && DecodeDeltas(s, st).Some?
    ensures s == Text(ds, st) && DecodeDeltas(s, st) == Some(Final(ds, st).output)
    decreases |s|
  {
    hide EncodeInteger, DecodeInteger, Insert;
    if s == [] {
      ds := [];
    } else {
      IntegerIsEncoding(s, BASE, st.bias);
      var (delta, rest) := DecodeInteger(s, BASE, st.bias).value;
      assert rest == s[|s| - |rest|..];
      var more := DeltasOf(rest, Insert(st, delta));
      ds := [delta] + more;
      assert ds[1..] == more;
    }
  }

  lemma {:induction false} FinalSnoc(ds: seq<nat>, st: DecoderState)
    requires ds != []
    ensures Final(ds, st) == Insert(Final(ds[..|ds| - 1], st), ds[|ds| - 1])
  {
    hide Insert;
    var m := |ds| - 1;
    if m == 0 {
      assert ds[..0] == [] && ds[1..] == [];
    } else {
      FinalSnoc(ds[1..], Insert(st, ds[0]));
      assert ds[1..][..m - 1] == ds[..m][1..];
    }
  }

  /* The last insertion can be told from the result. */

  // No code point is above n, and from i on none is n.
  ghost predicate Ordered(st: DecoderState) {
    && st.i <= |st.output|
    && (forall j :: 0 <= j < |st.output| ==> st.output[j] <= st.n)
    && (forall j :: st.i <= j < |st.output| ==> st.output[j] < st.n)
  }

  ghost predicate JustInserted(st: DecoderState) {
    Ordered(st) && st.i >= 1 && st.output[st.i - 1] == st.n
  }

  lemma InsertOrders(st: DecoderState, delta: nat)
    requires Ordered(st)
    ensures JustInserted(Insert(st, delta)) && Insert(st, delta).n >= st.n
    ensures var t := Insert(st, delta);
      && |t.output| == |st.output| + 1 && st.output == t.output[..t.i - 1] + t.output[t.i..]
      && st.i + delta == (t.n - st.n) * |t.output| + (t.i - 1)
  {
    hide Adapt;
    var length := |st.output| + 1;
    DivisionBounds(st.i + delta, length);
    var t := Insert(st, delta);
    var pos := t.i - 1;
    assert t.n == st.n ==> pos == st.i + delta;
    PutOrders(st.output, st.n, st.i, t.n, pos);
  }

  lemma PutOrders(s: seq<nat>, n: nat, i: nat, m: nat, pos: nat)
    requires i <= |s| && pos <= |s| && n <= m && (m == n ==> pos >= i)
    requires forall j :: 0 <= j < |s| ==> s[j] <= n && (j >= i ==> s[j] < n)
    ensures var t := s[..pos] + [m] + s[pos..];
      && |t| == |s| + 1 && t[pos] == m && s == t[..pos] + t[pos + 1..]
      && forall j :: 0 <= j < |t| ==> t[j] <= m && (j > pos ==> t[j] < m)
  {
    var t := s[..pos] + [m] + s[pos..];
    assert t[..pos] == s[..pos] && t[pos + 1..] == s[pos..];
  }

  lemma {:induction false} FinalIsOrdered(ds: seq<nat>, st: DecoderState)
    requires Ordered(st)
    ensures Ordered(Final(ds, st)) && (ds != [] ==> JustInserted(Final(ds, st)))
    ensures |Final(ds, st).output| == |st.output| + |ds|
    decreases |ds|
  {
    hide Insert, Ordered;
    if ds != [] {
      FinalIsOrdered(ds[..|ds| - 1], st);
      FinalSnoc(ds, st);
      InsertOrders(Final(ds[..|ds| - 1], st), ds[|ds| - 1]);
      JustIsOrdered(Final(ds, st));
    }
  }

  lemma JustIsOrdered(st: DecoderState)
    requires JustInserted(st)
    ensures Ordered(st)
  {
  }

  lemma SameLastPlace(a: DecoderState, b: DecoderState)
    requires JustInserted(a) && JustInserted(b) && a.output == b.output
    ensures a.n == b.n && a.i == b.i
  {
    assert a.output[b.i - 1] <= a.n && b.output[a.i - 1] <= b.n;
  }

  // The deltas are determined by where they lead.
  lemma {:induction false} SameDeltas(c: seq<nat>, d: seq<nat>, st: DecoderState)
    requires Ordered(st) && Final(c, st).output == Final(d, st).output
    ensures c == d
    decreases |c|
  {
    hide Insert, Ordered, JustInserted;
    FinalIsOrdered(c, st);
    FinalIsOrdered(d, st);
    assert |c| == |d|;
    if c != [] {
      var m := |c| - 1;
      FinalSnoc(c, st);
      FinalSnoc(d, st);
      FinalIsOrdered(c[..m], st);
      FinalIsOrdered(d[..m], st);
      var a, b := Final(c[..m], st), Final(d[..m], st);
      InsertOrders(a, c[m]);
      InsertOrders(b, d[m]);
      SameLastPlace(Insert(a, c[m]), Insert(b, d[m]));
      SameDeltas(c[..m], d[..m], st);
      assert c == c[..m] + [c[m]] && d == d[..m] + [d[m]];
    }
  }

  /* The basic code points. */

  function BasicOf(s: seq<nat>): seq<nat> {
    if s == [] then [] else (if s[0] < 128 then [s[0]] else []) + BasicOf(s[1..])
  }

  lemma {:induction false} BasicOfBoth(a: seq<nat>, b: seq<nat>)
    ensures BasicOf(a + b) == BasicOf(a) + BasicOf(b)
  {
    if a == [] {
      assert a + b == b;
    } else {
      assert (a + b)[1..] == a[1..] + b;
      BasicOfBoth(a[1..], b);
    }
  }

  lemma {:induction false} AllBasic(s: seq<nat>)
    requires forall i :: 0 <= i < |s| ==> s[i] < 128
    ensures BasicOf(s) == s
  {
    if s != [] { AllBasic(s[1..]); }
  }

  lemma {:induction false} FinalKeepsBasic(ds: seq<nat>, st: DecoderState)
    requires st.n >= 128 && Ordered(st)
    ensures BasicOf(Final(ds, st).output) == BasicOf(st.output)
    decreases |ds|
  {
    hide Insert, Ordered;
    if ds != [] {
      var t := Insert(st, ds[0]);
      InsertOrders(st, ds[0]);
      JustIsOrdered(t);
      var before, after := t.output[..t.i - 1], t.output[t.i..];
      assert t.output == before + ([t.n] + after) by { Inserted(t); }
      BasicOfBoth(before, [t.n] + after);
      BasicOfBoth([t.n], after);
      BasicOfBoth(before, after);
      assert BasicOf([t.n]) == [] by { assert [t.n][1..] == []; }
      FinalKeepsBasic(ds[1..], t);
    }
  }

  lemma Inserted(t: DecoderState)
    requires JustInserted(t)
    ensures t.output == t.output[..t.i - 1] + ([t.n] + t.output[t.i..])
  {
  }

  /* Whole strings. */

  lemma {:induction false} LastIsDelimiter(s: seq<char>)
    ensures var b := AfterLastDelimiter(s); b > 0 ==> s[b - 1] == '-'
  {
    if s != [] && s[|s| - 1] != '-' { LastIsDelimiter(s[..|s| - 1]); }
  }

  function BasicPart(e: seq<char>): seq<char> {
    var b := AfterLastDelimiter(e);
    e[..if b == 0 then 0 else b - 1]
  }

  lemma SplitsAs(e: seq<char>)
    requires Canonical(e)
    ensures var deltas := e[AfterLastDelimiter(e)..];
      e == if BasicPart(e) == [] then deltas else BasicPart(e) + ['-'] + deltas
  {
    LastIsDelimiter(e);
  }

  lemma StartIsOrdered(e: seq<char>)
    requires Canonical(e)
    ensures Ordered(Start(CodePoints(BasicPart(e)))) && Start(CodePoints(BasicPart(e))).n >= 128
    ensures BasicOf(CodePoints(BasicPart(e))) == CodePoints(BasicPart(e))
  {
    AllBasic(CodePoints(BasicPart(e)));
  }

  lemma SameText(a: seq<char>, b: seq<char>)
    requires CodePoints(a) == CodePoints(b)
    ensures a == b
  {
    assert |a| == |CodePoints(a)| && |b| == |CodePoints(b)|;
    forall i | 0 <= i < |a| ensures a[i] == b[i] { assert CodePoints(a)[i] == CodePoints(b)[i]; }
  }

  // One label, one canonical encoding.
  lemma OneEncoding(e: seq<char>, f: seq<char>)
    requires Canonical(e) && Canonical(f) && Decode(e).Some? && Decode(e) == Decode(f)
    ensures e == f
  {
    hide DecodeDeltas, Canonical, Ordered, Final, Text, AfterLastDelimiter, BasicOf;
    var x, y := Start(CodePoints(BasicPart(e))), Start(CodePoints(BasicPart(f)));
    StartIsOrdered(e);
    StartIsOrdered(f);
    DeltasAreLower(e);
    DeltasAreLower(f);
    var c := DeltasOf(e[AfterLastDelimiter(e)..], x);
    var d := DeltasOf(f[AfterLastDelimiter(f)..], y);
    FinalKeepsBasic(c, x);
    FinalKeepsBasic(d, y);
    SameText(BasicPart(e), BasicPart(f));
    SameDeltas(c, d, x);
    SplitsAs(e);
    SplitsAs(f);
  }

  lemma DeltasAreLower(e: seq<char>)
    requires Canonical(e)
    ensures AllLower(e[AfterLastDelimiter(e)..])
  {
  }
}
